/** What the dispatcher does with sessions (internal/swarmsearch/sync_dispatch.go): the symbol pump, chunked
    record replies, the initiator's convergence, and ingesting received records. */
module Dispatch {
  import opened Wrappers
  import opened Records
  import opened Symbols
  import opened Riblt
  import opened Sync
  import opened Cache

  // ---- the pump ----

  /** The frames of a pump that runs for the given number of turns unless its budget ends first. */
  function Pump(h: Hashing, s: Session, turns: nat): (Session, seq<SyncSymbols>) {
    if turns == 0 then (s, [])
    else
      var (s1, sent) := Pump(h, s, turns - 1);
      if sent != [] && sent[|sent| - 1].done then (s1, sent)
      else match Produce(h, s1, MAX_SYMBOLS_PER_MESSAGE)
        case (s2, Ok(frame)) => (s2, sent + [frame.(done := s2.symbolsOut >= s2.maxSymbols)])
        case (_, Err(_)) => (s1, sent)
  }

  lemma {:induction false} PumpStopped(h: Hashing, s: Session, turns: nat, more: nat)
    requires turns <= more
    requires var (s1, sent) := Pump(h, s, turns);
             (sent != [] && sent[|sent| - 1].done) || Produce(h, s1, MAX_SYMBOLS_PER_MESSAGE).1.Err?
    ensures Pump(h, s, more) == Pump(h, s, turns)
    decreases more
  {
    hide Produce;
    if turns < more { PumpStopped(h, s, turns, more - 1); }
  }

  /** runSyncPump; `turns` is how many turns it takes until it sees the stop signal. */
  method RunSyncPump(sess: SyncSession, turns: nat) returns (sent: seq<SyncSymbols>)
    requires sess.Valid()
    modifies sess, sess.enc
    ensures (sess.State(), sent) == Pump(sess.h, old(sess.State()), turns)
  {
    hide Produce;
    sent := [];
    for i := 0 to turns
      invariant (sess.State(), sent) == Pump(sess.h, old(sess.State()), i)
      invariant sent == [] || !sent[|sent| - 1].done
    {
      ghost var before := sess.State();
      var frame := sess.ProduceSymbols(MAX_SYMBOLS_PER_MESSAGE);
      if frame.Err? {
        PumpSame(sess.h, before, MAX_SYMBOLS_PER_MESSAGE);
        PumpStopped(sess.h, old(sess.State()), i, turns);
        return;
      }
      var done := sess.symbolsOut >= sess.maxSymbols;
      sent := sent + [frame.value.(done := done)];
      if done {
        PumpStopped(sess.h, old(sess.State()), i + 1, turns);
        return;
      }
    }
  }

  lemma PumpSame(h: Hashing, s: Session, count: int)
    ensures Produce(h, s, count).1.Err? ==> Produce(h, s, count).0 == s
  {
  }

  // ---- records in chunks ----

  /** Records and missing ids cut into frames: missing rides the last frame, and there is always one. */
  function Chunks(found: seq<Record>, missing: seq<Element>): seq<(seq<Record>, seq<Element>)>
    decreases |found|
  {
    if |found| <= MAX_RECORDS_PER_MESSAGE then [(found, missing)]
    else [(found[..MAX_RECORDS_PER_MESSAGE], [])] + Chunks(found[MAX_RECORDS_PER_MESSAGE..], missing)
  }

  /** validSyncRecord. */
  predicate ValidWire(w: WireRecord) {
    |w.pk| == 32 && |w.ih| == 20 && |w.sig| == 64 && 1 <= |w.kw| <= MAX_KEYWORD_BYTES
  }

  predicate Encodes(m: SyncRecords) {
    |m.records| <= MAX_RECORDS_PER_MESSAGE && forall w :: w in m.records ==> ValidWire(w)
  }

  /** Build and send chunk after chunk, stopping at the first that fails to build or to encode. */
  function SendAll(s: Session, chunks: seq<(seq<Record>, seq<Element>)>): (Session, seq<SyncRecords>)
    decreases |chunks|
  {
    if chunks == [] then (s, [])
    else match BuildFrame(s, chunks[0].0, chunks[0].1)
      case (s1, Err(_)) => (s1, [])
      case (s1, Ok(frame)) =>
        if !Encodes(frame) then (s1, [])
        else var (s2, more) := SendAll(s1, chunks[1..]); (s2, [frame] + more)
  }

  function SendChunked(s: Session, found: seq<Record>, missing: seq<Element>): (Session, seq<SyncRecords>) {
    SendAll(s, Chunks(found, missing))
  }

  /** What is still to be sent comes after what has been sent. */
  function Sending(sent: seq<SyncRecords>, rest: (Session, seq<SyncRecords>)): (Session, seq<SyncRecords>) {
    (rest.0, sent + rest.1)
  }

  method SendRecordsChunked(sess: SyncSession, found: seq<Record>,
                            missing: seq<Element>) returns (sent: seq<SyncRecords>)
    modifies sess
    ensures (sess.State(), sent) == SendChunked(old(sess.State()), found, missing)
  {
    hide BuildFrame, Encodes;
    sent := [];
    var n := |found|;
    var start := 0;
    SendingNothing(SendChunked(sess.State(), found, missing));
    assert found[0..] == found;
    while start == 0 || start < n
      invariant 0 <= start && (start == 0 || start < n ==> start <= n)
      invariant start == 0 || start < n ==>
                  Sending(sent, SendChunked(sess.State(), found[start..], missing))
                    == SendChunked(old(sess.State()), found, missing)
      invariant start > 0 && start >= n ==> (sess.State(), sent) == SendChunked(old(sess.State()), found, missing)
      decreases n + 1 - start
    {
      var end := start + MAX_RECORDS_PER_MESSAGE;
      if end > n { end := n; }
      var miss := if end >= n then missing else [];
      ghost var before := sess.State();
      ghost var rest := found[start..];
      assert rest[..end - start] == found[start..end] && (end == n ==> rest == found[start..end]);
      if end < n { assert rest[MAX_RECORDS_PER_MESSAGE..] == found[start + MAX_RECORDS_PER_MESSAGE..]; }
      SendOne(before, rest, missing);
      var frame := sess.BuildRecordsFrame(found[start..end], miss);
      if frame.Err? || !Encodes(frame.value) {
        assert sent + [] == sent;
        return;
      }
      SendingMore(sent, frame.value, SendChunked(sess.State(), rest[end - start..], missing));
      sent := sent + [frame.value];
      if n == 0 { return; }
      start := start + MAX_RECORDS_PER_MESSAGE;
    }
  }

  lemma SendingNothing(r: (Session, seq<SyncRecords>))
    ensures Sending([], r) == r
  {
    assert [] + r.1 == r.1;
  }

  lemma SendingMore(sent: seq<SyncRecords>, frame: SyncRecords, r: (Session, seq<SyncRecords>))
    ensures Sending(sent, (r.0, [frame] + r.1)) == Sending(sent + [frame], r)
    ensures sent + ([frame] + []) == sent + [frame]
  {
    assert sent + ([frame] + r.1) == (sent + [frame]) + r.1;
  }

  /** What sending does with its first chunk. */
  lemma SendOne(s: Session, found: seq<Record>, missing: seq<Element>)
    ensures var last := |found| <= MAX_RECORDS_PER_MESSAGE;
            var chunk := if last then found else found[..MAX_RECORDS_PER_MESSAGE];
            var (s1, frame) := BuildFrame(s, chunk, if last then missing else []);
            SendChunked(s, found, missing) ==
              if frame.Err? || !Encodes(frame.value) then (s1, [])
              else if last then (s1, [frame.value])
              else var (s2, more) := SendChunked(s1, found[MAX_RECORDS_PER_MESSAGE..], missing);
                (s2, [frame.value] + more)
  {
    hide BuildFrame, Encodes;
    var chunks := Chunks(found, missing);
    assert chunks[1..] == if |found| <= MAX_RECORDS_PER_MESSAGE then []
      else Chunks(found[MAX_RECORDS_PER_MESSAGE..], missing);
    var (s1, frame) := BuildFrame(s, chunks[0].0, chunks[0].1);
    if frame.Ok? && |found| <= MAX_RECORDS_PER_MESSAGE {
      assert SendAll(s1, chunks[1..]) == (s1, []);
      assert [frame.value] + [] == [frame.value];
    }
  }

  /** Whatever is to be sent, every frame that goes out holds at most 500 records, each of the right widths and with a
      keyword of 1 to 64 bytes. */
  lemma {:induction false} SentFramesValid(s: Session, chunks: seq<(seq<Record>, seq<Element>)>, m: SyncRecords)
    requires m in SendAll(s, chunks).1
    ensures m.txid == s.txid && |m.records| <= 500
    ensures forall w :: w in m.records ==> |w.pk| == 32 && |w.ih| == 20 && |w.sig| == 64 && 1 <= |w.kw| <= 64
    decreases |chunks|
  {
    var (s1, frame) := BuildFrame(s, chunks[0].0, chunks[0].1);
    if m != frame.value { SentFramesValid(s1, chunks[1..], m); }
  }

  // ---- the initiator's convergence ----

  /** Ask for what we lack (unless it is over the id cap) and push what the peer lacks. */
  method InitiatorConverge(sess: SyncSession)
    returns (need: Option<SyncNeed>, push: seq<SyncRecords>, ghost ids: seq<Element>, ghost pushed: seq<Element>)
    modifies sess
    ensures Ascending(ids) && forall e :: e in ids <==> e in AddedOf(old(sess.State()).peeler)
    ensures ListsRemoved(old(sess.State()), pushed)
    ensures Converging(old(sess.State()), ids, pushed) == (sess.State(), need, push)
  {
    hide SendChunked;
    ghost var before := sess.State();
    need, push := None, [];
    var askIds := sess.NeedIDs();
    ids := askIds;
    var frame := sess.NeedFrame(askIds);
    if frame.Ok? { need := Some(frame.value); }
    var rs;
    rs, pushed := sess.RemovedRecords();
    assert rs == PushList(before.records, pushed);
    if |rs| > 0 { push := SendRecordsChunked(sess, rs, []); }
  }

  /** The removed ids with a local record, each once, in some order. */
  ghost predicate ListsRemoved(s: Session, pushed: seq<Element>) {
    && (forall i, j :: 0 <= i < j < |pushed| ==> pushed[i] != pushed[j])
    && (forall e :: e in pushed <==> e in RemovedOf(s.peeler) && e in s.records)
  }

  ghost function PushList(records: map<Element, Record>, ids: seq<Element>): (rs: seq<Record>)
    requires forall e :: e in ids ==> e in records
    ensures |rs| == |ids|
  {
    seq(|ids|, i requires 0 <= i < |ids| => records[ids[i]])
  }

  ghost function Converging(s: Session, ids: seq<Element>, pushed: seq<Element>): (Session, Option<SyncNeed>,
                            seq<SyncRecords>)
    requires ListsRemoved(s, pushed)
  {
    var (s1, frame) := Need(s, ids);
    var need := if frame.Ok? then Some(frame.value) else None;
    var rs := PushList(s.records, pushed);
    if rs == [] then (s1, need, []) else (SendChunked(s1, rs, []).0, need, SendChunked(s1, rs, []).1)
  }

  // ---- ingesting ----

  /** Records that verify are stored; the others are dropped. */
  function Ingest(c: Crypto, s: Store, rs: seq<Record>): Store {
    if rs == [] then s
    else
      var before := Ingest(c, s, rs[..|rs| - 1]);
      var r := rs[|rs| - 1];
      if Verify(c, r) then Insert(c, before, r) else before
  }

  /** The record of one of rs whose signature verifies is stored under its id. */
  ghost predicate CameFrom(c: Crypto, rs: seq<Record>, id: Element, r: Record) {
    r in rs && c.verify(r.pk, SigMessage(r), r.sig) && ElementID(c, r) == id
  }

  /** Nothing gets into a store but records whose signature verifies under their own key; and an uncapped store takes
      every such record and loses nothing. */
  lemma {:induction false} IngestExactly(c: Crypto, s: Store, rs: seq<Record>)
    ensures var t := Ingest(c, s, rs);
            && t.max == s.max
            && (forall id :: id in t.m ==> (id in s.m && t.m[id] == s.m[id]) || CameFrom(c, rs, id, t.m[id]))
            && (s.max == 0 ==> s.m.Keys <= t.m.Keys && forall r :: r in rs && c.verify(r.pk, SigMessage(r), r.sig) ==>
                  ElementID(c, r) in t.m)
    decreases |rs|
  {
    hide SigMessage, ElementID, Insert;
    if rs != [] {
      var front, r := rs[..|rs| - 1], rs[|rs| - 1];
      assert rs == front + [r];
      IngestExactly(c, s, front);
      InsertOnly(c, Ingest(c, s, front), r);
    }
  }

  lemma InsertOnly(c: Crypto, s: Store, r: Record)
    ensures var t, id := Insert(c, s, r), ElementID(c, r);
            && t.max == s.max && id in t.m && t.m[id] == r
            && (forall other :: other in t.m && other != id ==> other in s.m && t.m[other] == s.m[other])
            && (s.max == 0 ==> s.m.Keys <= t.m.Keys)
  {
    hide ElementID, Evict;
    EvictOnly(s);
  }

  lemma EvictOnly(s: Store)
    ensures Evict(s).max == s.max && forall id :: id in Evict(s).m ==> id in s.m && Evict(s).m[id] == s.m[id]
  {
    EvictAt(s);
  }

  method IngestSyncRecords(cache: RecordCache, rs: seq<Record>)
    modifies cache
    ensures cache.State() == Ingest(cache.c, old(cache.State()), rs)
  {
    hide Insert;
    for i := 0 to |rs|
      invariant cache.State() == Ingest(cache.c, old(cache.State()), rs[..i])
    {
      assert rs[..i + 1][..i] == rs[..i];
      if Verify(cache.c, rs[i]) { cache.Add(rs[i]); }
    }
    assert rs[..|rs|] == rs;
  }
}
