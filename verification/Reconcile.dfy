/** The two-party exchange: the pump as an honest batched stream, chunking without loss, and both stores
    ending with the union of the two sets. */
module Reconcile {
  import opened Wrappers
  import opened Collections
  import opened Records
  import opened Symbols
  import opened Riblt
  import opened RibltProofs
  import opened Sync
  import opened SyncProofs
  import opened Cache
  import opened Dispatch
  import SyncRuns

  // ---- the pump is an honest batched stream ----

  ghost predicate Unsent(s: Session) {
    s.nextIdx == 0 && s.symbolsOut == 0 && s.maxSymbols > 0
  }

  /** The session after a pump sent n symbols. */
  function Pumped(s: Session, n: nat): Session {
    if n == 0 then s else s.(symbolsOut := n, nextIdx := n, phase := SymbolsFlowing)
  }

  /** Batches that code the first n symbols without gaps in frames of at most 100, all full but the last; done
      rides the last frame exactly when the budget is used up, which takes maxSymbols / 100 frames, rounded up. */
  ghost predicate Streamed(h: Hashing, s: Session, sent: seq<SyncSymbols>, n: nat) {
    && n <= s.maxSymbols && Batched(s.txid, sent) && Joined(sent) == Stream(h, s.elems, n)
    && (forall i :: 0 <= i < |sent| ==> |sent[i].symbols| <= MAX_SYMBOLS_PER_MESSAGE)
    && (forall i :: 0 <= i < |sent| ==> (sent[i].done <==> i == |sent| - 1 && n == s.maxSymbols))
    && (if n == s.maxSymbols then 100 * (|sent| - 1) < s.maxSymbols <= 100 * |sent| else n == 100 * |sent|)
  }

  lemma {:induction false} PumpStreams(h: Hashing, s: Session, turns: nat)
    requires Unsent(s)
    ensures var (t, sent) := Pump(h, s, turns);
            t == Pumped(s, t.symbolsOut) && Streamed(h, s, sent, t.symbolsOut)
            && (t.symbolsOut < s.maxSymbols ==> |sent| == turns)
    decreases turns
  {
    hide Code, Produce, Streamed;
    if turns == 0 {
      StreamedNothing(h, s);
    } else {
      PumpStreams(h, s, turns - 1);
      var (t, sent) := Pump(h, s, turns - 1);
      StreamedDone(h, s, sent, t.symbolsOut);
      if t.symbolsOut < s.maxSymbols {
        ProduceNext(h, s, t.symbolsOut);
        var (t', frame) := Produce(h, t, MAX_SYMBOLS_PER_MESSAGE);
        StreamedMore(h, s, sent, t.symbolsOut, frame.value.(done := t'.symbolsOut >= t'.maxSymbols));
      }
    }
  }

  lemma StreamedNothing(h: Hashing, s: Session)
    requires Unsent(s)
    ensures Streamed(h, s, [], 0)
  {
  }

  lemma StreamedDone(h: Hashing, s: Session, sent: seq<SyncSymbols>, n: nat)
    requires Unsent(s) && Streamed(h, s, sent, n)
    ensures n <= s.maxSymbols && (n == s.maxSymbols <==> sent != [] && sent[|sent| - 1].done)
  {
    hide Batched, Joined, Stream;
  }

  /** The next frame of the pump after n symbols. */
  lemma ProduceNext(h: Hashing, s: Session, n: nat)
    requires Unsent(s) && n < s.maxSymbols
    ensures var size := Min(MAX_SYMBOLS_PER_MESSAGE, s.maxSymbols - n);
            Produce(h, Pumped(s, n), MAX_SYMBOLS_PER_MESSAGE) ==
              (Pumped(s, n + size), Ok(SyncSymbols(s.txid, n, StreamFrom(h, s.elems, n, size), false)))
  {
    hide Code;
  }

  lemma StreamedMore(h: Hashing, s: Session, sent: seq<SyncSymbols>, n: nat, frame: SyncSymbols)
    requires Unsent(s) && Streamed(h, s, sent, n) && n < s.maxSymbols
    requires var size := Min(MAX_SYMBOLS_PER_MESSAGE, s.maxSymbols - n);
             frame == SyncSymbols(s.txid, n, StreamFrom(h, s.elems, n, size), n + size >= s.maxSymbols)
    ensures Streamed(h, s, sent + [frame], n + |frame.symbols|)
  {
    hide Code, Joined, Batched;
    BatchedMore(s.txid, sent, frame);
    assert Stream(h, s.elems, n) + frame.symbols == Stream(h, s.elems, n + |frame.symbols|);
  }

  lemma BatchedMore(txid: nat, bs: seq<SyncSymbols>, m: SyncSymbols)
    requires Batched(txid, bs) && m.txid == txid && m.symbols != [] && m.index == |Joined(bs)|
    ensures Batched(txid, bs + [m]) && Joined(bs + [m]) == Joined(bs) + m.symbols
  {
    hide Joined;
    var more := bs + [m];
    assert more[..|bs|] == bs && more[..|more|] == more;
    JoinedNext(more, |bs|);
    forall i | 0 <= i < |more|
      ensures more[i].txid == txid && more[i].symbols != [] && more[i].index == Position(more, i) {
      if i < |bs| { assert more[..i] == bs[..i]; }
    }
  }

  // ---- chunking ----

  ghost predicate Wireable(rs: seq<Record>) {
    forall r :: r in rs ==> 1 <= |r.kw| <= MAX_KEYWORD_BYTES
  }

  lemma {:induction false} WiresRoundTrip(rs: seq<Record>)
    ensures FromWires(ToWires(rs)) == Some(rs)
    decreases |rs|
  {
    if rs != [] {
      WiresRoundTrip(rs[..|rs| - 1]);
      assert ToWires(rs)[..|rs| - 1] == ToWires(rs[..|rs| - 1]);
      assert rs[..|rs| - 1] + [rs[|rs| - 1]] == rs;
    }
  }

  /** The records a list of frames carries, in order. */
  ghost function Carried(frames: seq<SyncRecords>): seq<Record> {
    if frames == [] then []
    else (match FromWires(frames[0].records) case Some(rs) => rs case None => []) + Carried(frames[1..])
  }

  ghost function CarriedBytes(frames: seq<SyncRecords>): nat {
    if frames == [] then 0
    else (match FromWires(frames[0].records) case Some(rs) => FrameBytes(rs, frames[0].missing) case None => 0)
         + CarriedBytes(frames[1..])
  }

  /** A frame an open session of the same txid accepts, budget permitting. */
  ghost predicate Sendable(txid: nat, m: SyncRecords) {
    m.txid == txid && Encodes(m) && FromWires(m.records).Some?
  }

  lemma {:induction false} WireSizesAppend(a: seq<Record>, b: seq<Record>)
    ensures WireSizes(a + b) == WireSizes(a) + WireSizes(b)
    decreases |b|
  {
    if b == [] {
      assert a + b == a;
    } else {
      WireSizesAppend(a, b[..|b| - 1]);
      assert (a + b)[..|a + b| - 1] == a + b[..|b| - 1];
    }
  }

  lemma {:induction false} WireSizesAtMost(rs: seq<Record>)
    requires Wireable(rs)
    ensures WireSizes(rs) <= 196 * |rs|
    decreases |rs|
  {
    if rs != [] {
      assert rs[|rs| - 1] in rs;
      WireSizesAtMost(rs[..|rs| - 1]);
    }
  }

  lemma OneFrame(s: Session, rs: seq<Record>, missing: seq<Element>)
    requires Wireable(rs) && |rs| <= MAX_RECORDS_PER_MESSAGE
    ensures var (s1, frame) := BuildFrame(s, rs, missing);
            && frame.Ok? && Sendable(s.txid, frame.value) && frame.value.missing == missing
            && FromWires(frame.value.records) == Some(rs) && Carried([frame.value]) == rs
            && CarriedBytes([frame.value]) == FrameBytes(rs, missing)
            && s1 == s.(bytesOut := s.bytesOut + FrameBytes(rs, missing), phase := Fulfilled)
  {
    WiresRoundTrip(rs);
    var frame := SyncRecords(s.txid, ToWires(rs), missing);
    forall w | w in frame.records ensures ValidWire(w) {
      var i :| 0 <= i < |rs| && w == ToWire(rs[i]);
      assert rs[i] in rs;
    }
    assert [frame][1..] == [];
    assert rs + [] == rs;
  }

  /** Frames that carry these records in order and lose or repeat nothing: each within 500 records, the missing ids
      on the last frame only, at least one frame. */
  ghost predicate Chunked(txid: nat, found: seq<Record>, missing: seq<Element>, sent: seq<SyncRecords>) {
    && Carried(sent) == found && CarriedBytes(sent) == FrameBytes(found, missing)
    && (forall m :: m in sent ==> Sendable(txid, m))
    && sent != [] && 500 * (|sent| - 1) <= |found|
    && (forall i :: 0 <= i < |sent| ==> sent[i].missing == if i == |sent| - 1 then missing else [])
  }

  lemma {:induction false} ChunksCarryAll(s: Session, found: seq<Record>, missing: seq<Element>)
    requires Wireable(found)
    ensures var (t, sent) := SendChunked(s, found, missing);
            Chunked(s.txid, found, missing, sent)
            && t == s.(bytesOut := s.bytesOut + FrameBytes(found, missing), phase := Fulfilled)
    decreases |found|
  {
    hide BuildFrame, Encodes, SendChunked, FromWires, Chunked, WireSizes;
    SendOne(s, found, missing);
    if |found| <= MAX_RECORDS_PER_MESSAGE {
      OneFrame(s, found, missing);
      ChunkedLast(s.txid, found, missing, BuildFrame(s, found, missing).1.value);
    } else {
      var chunk, rest := found[..MAX_RECORDS_PER_MESSAGE], found[MAX_RECORDS_PER_MESSAGE..];
      assert found == chunk + rest;
      OneFrame(s, chunk, []);
      var (s1, frame) := BuildFrame(s, chunk, []);
      ChunksCarryAll(s1, rest, missing);
      WireSizesAppend(chunk, rest);
      ChunkedMore(s.txid, chunk, rest, missing, frame.value, SendChunked(s1, rest, missing).1);
    }
  }

  lemma ChunkedLast(txid: nat, found: seq<Record>, missing: seq<Element>, frame: SyncRecords)
    requires Sendable(txid, frame) && Carried([frame]) == found && CarriedBytes([frame]) == FrameBytes(found, missing)
    requires frame.missing == missing
    ensures Chunked(txid, found, missing, [frame])
  {
  }

  lemma ChunkedMore(txid: nat, chunk: seq<Record>, rest: seq<Record>, missing: seq<Element>,
                    frame: SyncRecords, more: seq<SyncRecords>)
    requires Sendable(txid, frame) && FromWires(frame.records) == Some(chunk) && frame.missing == [] && |chunk| == 500
    requires Chunked(txid, rest, missing, more)
    ensures Chunked(txid, chunk + rest, missing, [frame] + more)
  {
    hide Encodes, FromWires, WireSizes, Sendable;
    assert ([frame] + more)[1..] == more;
    WireSizesAppend(chunk, rest);
  }

  // ---- taking frames in ----

  /** A session and its store after some record frames; ok means none was refused. */
  datatype Intake = Intake(session: Session, store: Store, ok: bool)

  ghost function TakeAll(c: Crypto, s: Session, store: Store, frames: seq<SyncRecords>): Intake
    decreases |frames|
  {
    if frames == [] then Intake(s, store, true)
    else match Accept(s, frames[0])
      case (s1, Err(_)) => Intake(s1, store, false)
      case (s1, Ok(rs)) => TakeAll(c, s1, Ingest(c, store, rs), frames[1..])
  }

  ghost predicate AllVerify(c: Crypto, rs: seq<Record>) {
    forall r :: r in rs ==> Verify(c, r)
  }

  lemma {:induction false} IngestAll(c: Crypto, s: Store, rs: seq<Record>)
    requires s.max == 0 && AllVerify(c, rs)
    ensures Ingest(c, s, rs).max == 0 && Ingest(c, s, rs).m.Keys == s.m.Keys + IdsOf(c, rs)
    decreases |rs|
  {
    hide Insert, Verify, ElementID;
    if rs != [] {
      var front, r := rs[..|rs| - 1], rs[|rs| - 1];
      assert rs == front + [r];
      assert r in rs;
      IngestAll(c, s, front);
      InsertUncapped(c, Ingest(c, s, front), r);
      assert IdsOf(c, rs) == IdsOf(c, front) + {ElementID(c, r)};
    }
  }

  lemma AcceptSendable(s: Session, m: SyncRecords)
    requires Sendable(s.txid, m) && s.phase != Idle && s.phase != Begun
    requires s.bytesIn + CarriedBytes([m]) <= s.maxBytes
    ensures var (s1, r) := Accept(s, m);
            r.Ok? && Carried([m]) == r.value && s1.txid == s.txid && s1.maxBytes == s.maxBytes
            && s1.bytesIn == s.bytesIn + CarriedBytes([m]) && s1.phase == Fulfilled
  {
    hide FromWires;
    assert [m][1..] == [];
    var rs := FromWires(m.records).value;
    assert rs + [] == rs;
  }

  lemma CarriedFirst(frames: seq<SyncRecords>)
    requires frames != []
    ensures Carried(frames) == Carried([frames[0]]) + Carried(frames[1..])
    ensures CarriedBytes(frames) == CarriedBytes([frames[0]]) + CarriedBytes(frames[1..])
  {
    hide FromWires;
    assert [frames[0]][1..] == [];
    assert Carried([frames[0]]) + [] == Carried([frames[0]]);
  }

  /** Sendable frames within the byte budget are all accepted, and every record they carry is stored. */
  lemma {:induction false} TakeAllLands(c: Crypto, s: Session, store: Store, frames: seq<SyncRecords>)
    requires s.phase != Idle && s.phase != Begun && store.max == 0
    requires (forall m :: m in frames ==> Sendable(s.txid, m)) && AllVerify(c, Carried(frames))
    requires s.bytesIn + CarriedBytes(frames) <= s.maxBytes
    ensures var t := TakeAll(c, s, store, frames);
            t.ok && t.store.m.Keys == store.m.Keys + IdsOf(c, Carried(frames))
    decreases |frames|
  {
    hide Accept, Ingest, Carried, CarriedBytes, Sendable, Verify, ElementID;
    if frames == [] {
      NothingCarried();
    } else {
      CarriedFirst(frames);
      AcceptSendable(s, frames[0]);
      var (s1, r) := Accept(s, frames[0]);
      assert AllVerify(c, r.value) && AllVerify(c, Carried(frames[1..]));
      IngestAll(c, store, r.value);
      TakeAllLands(c, s1, Ingest(c, store, r.value), frames[1..]);
      assert IdsOf(c, Carried(frames)) == IdsOf(c, r.value) + IdsOf(c, Carried(frames[1..]));
    }
  }

  lemma NothingCarried()
    ensures Carried([]) == [] && CarriedBytes([]) == 0
  {
  }

  // ---- reordered delivery ----

  lemma {:induction false} CarriedWithout(frames: seq<SyncRecords>, i: nat)
    requires i < |frames|
    ensures CarriedBytes(frames) == CarriedBytes([frames[i]]) + CarriedBytes(frames[..i] + frames[i + 1..])
    ensures multiset(Carried(frames))
             == multiset(Carried([frames[i]])) + multiset(Carried(frames[..i] + frames[i + 1..]))
    decreases |frames|
  {
    hide Carried, CarriedBytes;
    var rest := frames[..i] + frames[i + 1..];
    CarriedFirst(frames);
    if i == 0 {
      assert rest == frames[1..];
    } else {
      CarriedWithout(frames[1..], i - 1);
      CarriedFirst(rest);
      assert rest[1..] == frames[1..][..i - 1] + frames[1..][i..];
    }
  }

  /** Reordering frames changes neither what they carry nor what it weighs. */
  lemma {:induction false} CarriedPermutes(a: seq<SyncRecords>, b: seq<SyncRecords>)
    requires multiset(a) == multiset(b)
    ensures CarriedBytes(a) == CarriedBytes(b) && multiset(Carried(a)) == multiset(Carried(b))
    decreases |a|
  {
    if a == [] {
      assert |multiset(b)| == 0;
    } else {
      assert a[0] in multiset(b);
      var i :| 0 <= i < |b| && b[i] == a[0];
      RemoveOne(a, b, i);
      hide Carried, CarriedBytes;
      CarriedPermutes(a[1..], b[..i] + b[i + 1..]);
      CarriedWithout(b, i);
      CarriedFirst(a);
    }
  }

  /** Frames that carry some records, arriving in any order at an open session with budget for them, all land. */
  lemma FramesLand(c: Crypto, s: Session, store: Store, rs: seq<Record>, sent: seq<SyncRecords>,
                   arrived: seq<SyncRecords>)
    requires s.phase != Idle && s.phase != Begun && store.max == 0 && AllVerify(c, rs)
    requires Carried(sent) == rs && (forall m :: m in sent ==> Sendable(s.txid, m))
    requires s.bytesIn + CarriedBytes(sent) <= s.maxBytes && multiset(arrived) == multiset(sent)
    ensures var t := TakeAll(c, s, store, arrived);
            t.ok && t.store.m.Keys == store.m.Keys + IdsOf(c, rs)
  {
    hide Carried, CarriedBytes, Sendable, Verify, ElementID, TakeAll;
    CarriedPermutes(arrived, sent);
    SameElements(arrived, sent);
    SameElements(Carried(arrived), rs);
    TakeAllLands(c, s, store, arrived);
    assert IdsOf(c, Carried(arrived)) == IdsOf(c, rs);
  }

  // ---- the exchange ----

  /** The initiator after StartSync. */
  ghost function Start(c: Crypto, txid: nat, ours: seq<Record>): Session {
    NewSession(c, txid, Initiator, ours).(phase := Begun)
  }

  /** The responder after onSyncBegin. */
  ghost function Respond(c: Crypto, theirs: seq<Record>, m: SyncBegin): Session {
    Negotiate(NewSession(c, m.txid, Responder, theirs), m).next
  }

  /** What a sync_begin settles between any two sessions: it is accepted exactly by a session of its txid, which then
      has the lesser of its own and the sender's positive budgets, and nothing else about it changes. */
  lemma OpeningSettles(a: Session, b: Session, filter: SyncFilter)
    ensures var step := Negotiate(b, Opening(a, filter));
            && (step.error.None? <==> a.txid == b.txid)
            && (step.error.Some? ==> step == Step(b, Some(TxIDMismatch)))
            && (step.error.None? ==>
                  var n, m := step.next.maxSymbols, step.next.maxBytes;
                  && n <= b.maxSymbols && m <= b.maxBytes && (a.maxSymbols > 0 ==> n <= a.maxSymbols)
                  && (a.maxBytes > 0 ==> m <= a.maxBytes)
                  && (n == b.maxSymbols || n == a.maxSymbols > 0) && (m == b.maxBytes || m == a.maxBytes > 0)
                  && step.next == b.(maxSymbols := n, maxBytes := m, phase := Begun))
  {
  }

  /** Negotiation succeeds and leaves the responder within the initiator's budgets. */
  lemma Negotiated(c: Crypto, txid: nat, ours: seq<Record>, theirs: seq<Record>, filter: SyncFilter)
    ensures var a := Start(c, txid, ours);
            var b := Respond(c, theirs, Opening(a, filter));
            && Seeded(c, a, ours) && Elements(a.elems) == IdsOf(c, ours)
            && Seeded(c, b, theirs) && Elements(b.elems) == IdsOf(c, theirs)
            && Unsent(b) && b.txid == a.txid == txid && b.maxSymbols == a.maxSymbols == 2000
            && b.maxBytes == a.maxBytes == 1_048_576 && b.bytesIn == a.bytesIn == 0
            && a.symbolsIn == 0 && a.pending == map[] && !a.doneReceived && a.phase == b.phase == Begun
  {
    NewSessionSeeded(c, txid, Initiator, ours);
    NewSessionSeeded(c, txid, Responder, theirs);
  }

  /** However the pump's batches are reordered, repeated or still missing, the initiator never errs and its decoder is
      that of an honest stream cut where the contiguous prefix ends. */
  lemma InitiatorDecodes(h: Hashing, a: Session, b: Session, turns: nat, order: seq<nat>)
    requires Unsent(b) && b.txid == a.txid && b.maxSymbols <= a.maxSymbols <= DEFAULT_MAX_SYMBOLS
    requires a.symbolsIn == 0 && a.pending == map[] && !a.doneReceived && a.peeler == Fresh(a.elems)
    requires forall t :: 0 <= t < |order| ==> order[t] < |Pump(h, b, turns).1|
    ensures var step := Deliver(h, a, Pump(h, b, turns).1, order);
            && step.error.None? && step.next.symbolsIn <= Pump(h, b, turns).0.symbolsOut
            && step.next.peeler == HonestDecoder(h, b.elems, a.elems, step.next.symbolsIn)
            && step.next == a.(phase := step.next.phase, pending := step.next.pending, symbolsIn := step.next.symbolsIn,
                               peeler := step.next.peeler, doneReceived := step.next.doneReceived)
  {
    hide Deliver, Pump, Receive, Joined, Batched, Code, Buffered;
    PumpStreams(h, b, turns);
    var (t, batches) := Pump(h, b, turns);
    FewBatchesNeverOverfull(order, |batches|);
    DeliveryReorders(h, a, batches, order);
    var p := Front(Arrived(order), 0, |batches|);
    PrefixOfStream(batches, p);
    assert Stream(h, b.elems, t.symbolsOut)[..Position(batches, p)] == Stream(h, b.elems, Position(batches, p));
  }

  lemma {:induction false} PrefixOfStream(bs: seq<SyncSymbols>, p: nat)
    requires p <= |bs|
    ensures Position(bs, p) <= |Joined(bs)| && Joined(bs[..p]) == Joined(bs)[..Position(bs, p)]
    decreases |bs| - p
  {
    if p == |bs| {
      assert bs[..p] == bs;
    } else {
      PrefixOfStream(bs, p + 1);
      JoinedNext(bs, p);
    }
  }

  lemma {:induction false} ResolveAll(records: map<Element, Record>, ids: seq<Element>)
    requires forall e :: e in ids ==> e in records
    ensures Resolve(records, ids) == (PushList(records, ids), [])
    decreases |ids|
  {
    if ids != [] {
      var front := ids[..|ids| - 1];
      assert ids[|ids| - 1] in ids;
      ResolveAll(records, front);
      assert PushList(records, ids) == PushList(records, front) + [records[ids[|ids| - 1]]];
    }
  }

  /** The session's record map indexes the pool. */
  ghost predicate Indexes(c: Crypto, s: Session, pool: seq<Record>) {
    && s.records.Keys == IdsOf(c, pool)
    && forall id :: id in s.records ==> s.records[id] in pool && ElementID(c, s.records[id]) == id
  }

  /** Records listed by id: their ids are those ids, and they come from the pool. */
  lemma ListedRecords(c: Crypto, s: Session, pool: seq<Record>, ids: seq<Element>)
    requires Indexes(c, s, pool) && (forall e :: e in ids ==> e in s.records) && Wireable(pool) && AllVerify(c, pool)
    ensures var rs := PushList(s.records, ids);
            IdsOf(c, rs) == Elements(ids) && Wireable(rs) && AllVerify(c, rs) && WireSizes(rs) <= 196 * |ids|
  {
    hide ElementID, Verify, WireSizes;
    var rs := PushList(s.records, ids);
    forall r | r in rs ensures r in pool && ElementID(c, r) in ids {
      var i :| 0 <= i < |rs| && rs[i] == r;
      assert ids[i] in ids;
    }
    forall e | e in ids ensures e in IdsOf(c, rs) {
      var i :| 0 <= i < |ids| && ids[i] == e;
      assert rs[i] in rs && ElementID(c, rs[i]) == e;
    }
    WireSizesAtMost(rs);
  }

  /** The values of one exchange, in the order they come about. */
  datatype Exchange = Exchange(
    a0: Session, b1: Session,                                        // after sync_begin
    b2: Session, batches: seq<SyncSymbols>,                          // after some turns of the pump
    a1: Session,                                                     // after some delivered batches
    a2: Session, need: Option<SyncNeed>, pushes: seq<SyncRecords>)   // after initiatorConverge

  ghost predicate Opens(c: Crypto, txid: nat, ours: seq<Record>, theirs: seq<Record>, filter: SyncFilter, x: Exchange) {
    x.a0 == Start(c, txid, ours) && x.b1 == Respond(c, theirs, Opening(x.a0, filter))
  }

  ghost predicate Streams(h: Hashing, turns: nat, order: seq<nat>, x: Exchange) {
    && (x.b2, x.batches) == Pump(h, x.b1, turns)
    && (forall t :: 0 <= t < |order| ==> order[t] < |x.batches|)
    && x.a1 == Deliver(h, x.a0, x.batches, order).next
  }

  /** ids and pushed are what NeedIDs and RemovedRecords list. */
  ghost predicate Converges(ids: seq<Element>, pushed: seq<Element>, x: Exchange) {
    && Ascending(ids) && (forall e :: e in ids <==> e in AddedOf(x.a1.peeler))
    && ListsRemoved(x.a1.(convergeFired := true), pushed)
    && Converging(x.a1.(convergeFired := true), ids, pushed) == (x.a2, x.need, x.pushes)
  }

  /** onSyncNeed: the records held among the ids, in chunks. */
  ghost function Replied(s: Session, need: SyncNeed): (Session, seq<SyncRecords>) {
    match Answer(s, need)
    case Err(_) => (s, [])
    case Ok((found, missing)) => SendChunked(s, found, missing)
  }

  /** No combination of differing ids looks pure, and none is hidden over the symbols the initiator applied. */
  ghost predicate NoCollisions(h: Hashing, x: Exchange) {
    && HonestPair(h, x.b1.elems, x.a0.elems)
    && NothingHidden(h, Elements(x.b1.elems), Difference(Elements(x.b1.elems), Elements(x.a0.elems)), x.a1.symbolsIn)
  }

  /** The initiator is told to finalize; where it is told so because the stream is over, its residuals are zero too. */
  ghost predicate Fired(x: Exchange) {
    SyncRuns.Due(x.a1) && (x.a1.doneReceived ==> AllZero(x.a1.peeler))
  }

  /** The decoder has resolved the difference, and nothing but the symbol side of the initiator has changed. */
  ghost predicate Resolved(x: Exchange, mine: set<Element>, yours: set<Element>) {
    && AddedOf(x.a1.peeler) == yours - mine && RemovedOf(x.a1.peeler) == mine - yours
    && |x.a1.peeler.decoded.Keys| <= DEFAULT_MAX_SYMBOLS
    && x.a1.records == x.a0.records && x.a1.txid == x.a0.txid && x.a1.bytesIn == 0 && x.a1.maxBytes == DEFAULT_MAX_BYTES
    && x.b2.records == x.b1.records && x.b2.txid == x.b1.txid && x.b2.bytesIn == 0 && x.b2.maxBytes == DEFAULT_MAX_BYTES
    && (yours != mine ==> x.b2.phase == SymbolsFlowing)
  }

  lemma FiredZero(x: Exchange)
    requires Fired(x)
    ensures AllZero(x.a1.peeler)
  {
  }

  lemma ExchangeResolves(c: Crypto, h: Hashing, txid: nat, ours: seq<Record>, theirs: seq<Record>, filter: SyncFilter,
                         turns: nat, order: seq<nat>, x: Exchange)
    requires Opens(c, txid, ours, theirs, filter, x) && Streams(h, turns, order, x)
    requires NoCollisions(h, x) && Fired(x)
    ensures Deliver(h, x.a0, x.batches, order).error.None?
    ensures Resolved(x, IdsOf(c, ours), IdsOf(c, theirs))
  {
    hide Start, Respond, Deliver, Pump, HonestPair, NothingHidden, HonestDecoder, AllZero, Streamed, ElementID, Fired;
    FiredZero(x);
    Negotiated(c, txid, ours, theirs, filter);
    InitiatorDecodes(h, x.a0, x.b1, turns, order);
    PumpStreams(h, x.b1, turns);
    ConvergedExactly(h, x.b1.elems, x.a0.elems, x.a1.symbolsIn);
    DecodedExactly(h, x.b1.elems, x.a0.elems, x.a1.symbolsIn);
    assert x.b2.symbolsOut <= DEFAULT_MAX_SYMBOLS by { StreamedMeans(h, x.b1, x.batches, x.b2.symbolsOut); }
    if x.b2.symbolsOut == 0 {
      var d := x.a1.peeler.decoded.Keys;
      assert |d| == 0;
      assert AddedOf(x.a1.peeler) == {} && RemovedOf(x.a1.peeler) == {};
    }
  }

  lemma StreamedMeans(h: Hashing, s: Session, sent: seq<SyncSymbols>, n: nat)
    requires Streamed(h, s, sent, n)
    ensures n <= s.maxSymbols
  {
  }

  /** What FramesLand needs of a session. */
  ghost predicate Receptive(s: Session, txid: nat) {
    s.txid == txid && s.phase != Idle && s.phase != Begun && s.bytesIn == 0 && s.maxBytes == DEFAULT_MAX_BYTES
  }

  /** Records listed by id, sent in chunks, all land at a receptive session whatever the order of the frames. */
  lemma ListLands(c: Crypto, from: Session, pool: seq<Record>, ids: seq<Element>, to: Session, store: Store,
                  arrived: seq<SyncRecords>)
    requires Indexes(c, from, pool) && (forall e :: e in ids ==> e in from.records) && |ids| <= DEFAULT_MAX_SYMBOLS
    requires Wireable(pool) && AllVerify(c, pool) && Receptive(to, from.txid) && store.max == 0
    requires multiset(arrived) == multiset(SendChunked(from, PushList(from.records, ids), []).1)
    ensures TakeAll(c, to, store, arrived).ok
    ensures TakeAll(c, to, store, arrived).store.m.Keys == store.m.Keys + Elements(ids)
  {
    hide Verify, ElementID, TakeAll, SendChunked, WireSizes, Carried, CarriedBytes, Sendable;
    var rs := PushList(from.records, ids);
    ListedRecords(c, from, pool, ids);
    ChunksCarryAll(from, rs, []);
    FramesLand(c, to, store, rs, SendChunked(from, rs, []).1, arrived);
  }

  /** With at most 1000 ids the need goes out, and the initiator stays receptive. */
  lemma NeedGoesOut(ids: seq<Element>, pushed: seq<Element>, x: Exchange)
    requires Converges(ids, pushed, x) && |ids| <= MAX_NEED_IDS
    requires (forall e :: e in pushed ==> e in x.a1.records) && Wireable(PushList(x.a1.records, pushed))
    requires x.a1.bytesIn == 0 && x.a1.maxBytes == DEFAULT_MAX_BYTES
    ensures x.need == Some(SyncNeed(x.a1.txid, ids)) && Receptive(x.a2, x.a1.txid)
  {
    hide SendChunked, AddedOf, RemovedOf, Chunked;
    ChunksCarryAll(Need(x.a1.(convergeFired := true), ids).0, PushList(x.a1.records, pushed), []);
  }

  /** A need for ids all held is answered in full, by any session that holds them. */
  lemma NeedIsAnswered(ids: seq<Element>, s: Session)
    requires |ids| <= MAX_NEED_IDS && (forall e :: e in ids ==> e in s.records) && Wireable(PushList(s.records, ids))
    ensures Replied(s, SyncNeed(s.txid, ids)) == SendChunked(s, PushList(s.records, ids), [])
    ensures var (t, sent) := Replied(s, SyncNeed(s.txid, ids));
            Chunked(s.txid, PushList(s.records, ids), [], sent) && t == s.(phase := Fulfilled, bytesOut := t.bytesOut)
  {
    hide SendChunked, Chunked, Resolve;
    ResolveAll(s.records, ids);
    ChunksCarryAll(s, PushList(s.records, ids), []);
  }

  // ---- the responder, event by event ----

  /** What reaches the responder after the initiator has converged: another turn of its pump, the need, a pushed
      frame. */
  datatype Event = Turn | Asked | Pushed(frame: SyncRecords)

  /** The responder, its store, the replies it sent, and whether it has refused no frame. */
  datatype Side = Side(session: Session, store: Store, replies: seq<SyncRecords>, ok: bool)

  ghost function Handle(c: Crypto, h: Hashing, need: SyncNeed, r: Side, e: Event): Side {
    match e
    case Turn => r.(session := Produce(h, r.session, MAX_SYMBOLS_PER_MESSAGE).0)
    case Asked => var (s, sent) := Replied(r.session, need); r.(session := s, replies := r.replies + sent)
    case Pushed(m) =>
      match Accept(r.session, m)
      case (s, Err(_)) => r.(session := s, ok := false)
      case (s, Ok(rs)) => r.(session := s, store := Ingest(c, r.store, rs))
  }

  ghost function HandleAll(c: Crypto, h: Hashing, need: SyncNeed, r: Side, events: seq<Event>): Side
    decreases |events|
  {
    if events == [] then r else HandleAll(c, h, need, Handle(c, h, need, r, events[0]), events[1..])
  }

  /** The frames pushed in a run of events, in the order they arrive. */
  ghost function PushedOf(events: seq<Event>): seq<SyncRecords> {
    if events == [] then [] else (if events[0].Pushed? then [events[0].frame] else []) + PushedOf(events[1..])
  }

  ghost function TimesAsked(events: seq<Event>): nat {
    if events == [] then 0 else (if events[0].Asked? then 1 else 0) + TimesAsked(events[1..])
  }

  /** A responder that holds the ids asked for and takes in the frames still to come. */
  ghost predicate Receiving(r: Side, ids: seq<Element>, events: seq<Event>) {
    && |ids| <= MAX_NEED_IDS && (forall e :: e in ids ==> e in r.session.records)
       && Wireable(PushList(r.session.records, ids))
    && (PushedOf(events) != [] ==> r.session.phase != Idle && r.session.phase != Begun)
    && (forall m :: m in PushedOf(events) ==> Sendable(r.session.txid, m))
    && r.session.bytesIn + CarriedBytes(PushedOf(events)) <= r.session.maxBytes && r.store.max == 0
  }

  /** What a pushed frame does to a receiving responder. */
  lemma HandlePushed(c: Crypto, h: Hashing, need: SyncNeed, ids: seq<Element>, r: Side, events: seq<Event>)
    requires events != [] && events[0].Pushed? && Receiving(r, ids, events) && AllVerify(c, Carried(PushedOf(events)))
    ensures var r1 := Handle(c, h, need, r, events[0]);
            && Receiving(r1, ids, events[1..]) && AllVerify(c, Carried(PushedOf(events[1..])))
            && r1.session.txid == r.session.txid && r1.session.records == r.session.records && r1.ok == r.ok
            && r1.store.m.Keys + IdsOf(c, Carried(PushedOf(events[1..])))
               == r.store.m.Keys + IdsOf(c, Carried(PushedOf(events)))
            && r1.replies == r.replies
  {
    hide Verify, ElementID, Accept, Ingest, Carried, CarriedBytes, Sendable, Wireable;
    var m, rest := events[0].frame, PushedOf(events[1..]);
    assert PushedOf(events) == [m] + rest && PushedOf(events)[1..] == rest;
    CarriedFirst(PushedOf(events));
    AcceptSendable(r.session, m);
    AcceptKeeps(r.session, m);
    IngestAll(c, r.store, Accept(r.session, m).1.value);
    assert IdsOf(c, Carried(PushedOf(events))) == IdsOf(c, Accept(r.session, m).1.value) + IdsOf(c, Carried(rest));
  }

  /** What a turn of the pump or the need does to it: the frames still to come are as welcome as before. */
  lemma HandleOther(c: Crypto, h: Hashing, ids: seq<Element>, r: Side, events: seq<Event>)
    requires events != [] && !events[0].Pushed? && Receiving(r, ids, events)
    ensures var r1 := Handle(c, h, SyncNeed(r.session.txid, ids), r, events[0]);
            && Receiving(r1, ids, events[1..]) && PushedOf(events[1..]) == PushedOf(events)
            && r1.session.txid == r.session.txid && r1.session.records == r.session.records && r1.ok == r.ok
               && r1.store == r.store
            && r1.replies == r.replies
               + (if events[0].Asked? then SendChunked(r.session, PushList(r.session.records, ids), []).1 else [])
  {
    hide SendChunked, Produce, Receiving, Replied, PushList, Wireable, Sendable, Carried, CarriedBytes;
    assert PushedOf(events) == [] + PushedOf(events[1..]) == PushedOf(events[1..]);
    var r1 := Handle(c, h, SyncNeed(r.session.txid, ids), r, events[0]);
    ReceivingMeans(r, ids, events);
    if events[0].Asked? {
      NeedIsAnswered(ids, r.session);
    } else {
      ProduceKeeps(h, r.session);
      assert r.replies + [] == r.replies;
    }
    ReceivingLike(r, r1, ids, events, events[1..]);
  }

  lemma ReceivingMeans(r: Side, ids: seq<Element>, events: seq<Event>)
    requires Receiving(r, ids, events)
    ensures |ids| <= MAX_NEED_IDS && (forall e :: e in ids ==> e in r.session.records)
             && Wireable(PushList(r.session.records, ids))
  {
  }

  lemma ReceivingLike(r: Side, r1: Side, ids: seq<Element>, events: seq<Event>, rest: seq<Event>)
    requires Receiving(r, ids, events) && PushedOf(rest) == PushedOf(events) && r1.store == r.store
    requires var s, s1 := r.session, r1.session;
             s1.records == s.records && s1.txid == s.txid && s1.bytesIn == s.bytesIn && s1.maxBytes == s.maxBytes
             && (s1.phase == s.phase || (s1.phase != Idle && s1.phase != Begun))
    ensures Receiving(r1, ids, rest)
  {
    hide PushList, Wireable, Sendable, Carried, CarriedBytes, PushedOf;
  }

  lemma ProduceKeeps(h: Hashing, s: Session)
    ensures var s1 := Produce(h, s, MAX_SYMBOLS_PER_MESSAGE).0;
            s1.records == s.records && s1.txid == s.txid && s1.bytesIn == s.bytesIn && s1.maxBytes == s.maxBytes
            && (s1.phase == s.phase || s1.phase == SymbolsFlowing)
  {
    hide Code;
  }

  lemma AcceptKeeps(s: Session, m: SyncRecords)
    ensures Accept(s, m).0.records == s.records && Accept(s, m).0.txid == s.txid
  {
  }

  /** Whatever the interleaving: every pushed frame lands, and the one need is answered in full. */
  lemma {:induction false} EventsLand(c: Crypto, h: Hashing, ids: seq<Element>, r: Side, events: seq<Event>)
    requires Receiving(r, ids, events) && AllVerify(c, Carried(PushedOf(events))) && r.ok
    requires if r.replies == [] then TimesAsked(events) <= 1 else TimesAsked(events) == 0
    ensures var t := HandleAll(c, h, SyncNeed(r.session.txid, ids), r, events);
            && t.ok && t.store.m.Keys == r.store.m.Keys + IdsOf(c, Carried(PushedOf(events)))
            && (TimesAsked(events) == 0 ==> t.replies == r.replies)
            && (TimesAsked(events) == 1 ==> AnsweredBy(r.session, ids, t.replies))
    decreases |events|
  {
    hide Verify, ElementID, SendChunked, Carried, CarriedBytes, Receiving, Handle, PushList, AnsweredBy;
    if events == [] {
      NothingCarried();
    } else {
      var need := SyncNeed(r.session.txid, ids);
      var r1 := Handle(c, h, need, r, events[0]);
      if events[0].Pushed? {
        HandlePushed(c, h, need, ids, r, events);
      } else {
        HandleOther(c, h, ids, r, events);
        ReceivingAnswers(r, ids, events);
        assert r.replies + [] == r.replies;
      }
      EventsLand(c, h, ids, r1, events[1..]);
      AnsweredAlike(r.session, r1.session, ids);
    }
  }

  lemma ReceivingAnswers(r: Side, ids: seq<Element>, events: seq<Event>)
    requires Receiving(r, ids, events)
    ensures forall e :: e in ids ==> e in r.session.records
    ensures var sent := SendChunked(r.session, PushList(r.session.records, ids), []).1;
            sent != [] && [] + sent == sent && AnsweredBy(r.session, ids, sent)
  {
    hide SendChunked, PushList;
    ChunksCarryAll(r.session, PushList(r.session.records, ids), []);
    assert SentBy(r.session, r.session, ids, SendChunked(r.session, PushList(r.session.records, ids), []).1);
  }

  lemma AnsweredAlike(s: Session, like: Session, ids: seq<Element>)
    requires s.records == like.records && s.txid == like.txid
    ensures forall sent :: AnsweredBy(like, ids, sent) ==> AnsweredBy(s, ids, sent)
  {
    hide SendChunked, PushList;
    forall sent | AnsweredBy(like, ids, sent) ensures AnsweredBy(s, ids, sent) {
      var t :| SentBy(t, like, ids, sent);
      assert SentBy(t, s, ids, sent);
    }
  }

  /** Some session with the records and txid of `like` sent these frames for the ids. */
  ghost predicate SentBy(s: Session, like: Session, ids: seq<Element>, sent: seq<SyncRecords>) {
    && s.records == like.records && s.txid == like.txid && (forall e :: e in ids ==> e in s.records)
    && sent == SendChunked(s, PushList(s.records, ids), []).1
  }

  ghost predicate AnsweredBy(like: Session, ids: seq<Element>, sent: seq<SyncRecords>) {
    exists s: Session :: SentBy(s, like, ids, sent)
  }

  // ---- both stores ----

  /** Both stores end up holding the union. The initiator took any reordered, repeated or partial delivery of the
      pump's batches, and its check told it to finalize; there are no collisions; at most 1000 ids are needed; and the
      need and the pushed frames all reach the responder once, in any order among each other and among further turns of
      its pump, as the replies reach the initiator in any order. Then no frame is refused, and each uncapped store gains
      exactly the ids it lacked. */
  lemma BothHoldTheUnion(c: Crypto, h: Hashing, txid: nat, ours: seq<Record>, theirs: seq<Record>, filter: SyncFilter,
                         turns: nat, order: seq<nat>, ids: seq<Element>, pushed: seq<Element>, x: Exchange,
                         events: seq<Event>, replies: seq<SyncRecords>, storeA: Store, storeB: Store)
    requires theirs != [] && Wireable(ours) && Wireable(theirs) && AllVerify(c, ours) && AllVerify(c, theirs)
    requires Opens(c, txid, ours, theirs, filter, x) && Streams(h, turns, order, x) && Converges(ids, pushed, x)
    requires NoCollisions(h, x) && Fired(x) && |ids| <= MAX_NEED_IDS
    requires multiset(PushedOf(events)) == multiset(x.pushes) && TimesAsked(events) == 1
    requires storeA.max == 0 && IdsOf(c, ours) <= storeA.m.Keys
    requires storeB.max == 0 && IdsOf(c, theirs) <= storeB.m.Keys
    requires x.need.Some? ==>
               multiset(replies)
                 == multiset(HandleAll(c, h, x.need.value, Side(x.b2, storeB, [], true), events).replies)
    ensures Deliver(h, x.a0, x.batches, order).error.None? && x.need.Some?
    ensures var b := HandleAll(c, h, x.need.value, Side(x.b2, storeB, [], true), events);
            b.ok && b.store.m.Keys == storeB.m.Keys + IdsOf(c, ours)
    ensures TakeAll(c, x.a2, storeA, replies).ok
    ensures TakeAll(c, x.a2, storeA, replies).store.m.Keys == storeA.m.Keys + IdsOf(c, theirs)
  {
    hide Verify, ElementID, TakeAll, SendChunked, Opens, Streams, NoCollisions, Fired, Deliver, Converges, Wireable,
      AllVerify, IdsOf, Indexes, Resolved, Receiving, HandleAll, AnsweredBy, PushedOf, TimesAsked, Carried;
    var mine, yours := IdsOf(c, ours), IdsOf(c, theirs);
    ExchangeResolves(c, h, txid, ours, theirs, filter, turns, order, x);
    BothIndexed(c, h, txid, ours, theirs, filter, turns, order, x);
    ListsTheDifference(c, ours, theirs, ids, pushed, x);
    ListedRecords(c, x.a1, ours, pushed);
    ListedRecords(c, x.b2, theirs, ids);
    ResolvedMeans(x, mine, yours);
    NeedGoesOut(ids, pushed, x);
    assert pushed != [] ==> pushed[0] in Elements(pushed);
    var b := Side(x.b2, storeB, [], true);
    PushesReady(c, ours, ids, pushed, x, b, events);
    EventsLand(c, h, ids, b, events);
    assert storeB.m.Keys + (mine - yours) == storeB.m.Keys + mine;
    AnswersLand(c, x.b2, theirs, ids, x.a2, storeA, replies, HandleAll(c, h, x.need.value, b, events).replies);
    assert storeA.m.Keys + (yours - mine) == storeA.m.Keys + yours;
  }

  /** Replies sent by a responder all land at a receptive initiator. */
  lemma AnswersLand(c: Crypto, b: Session, theirs: seq<Record>, ids: seq<Element>, to: Session, store: Store,
                    arrived: seq<SyncRecords>, sent: seq<SyncRecords>)
    requires AnsweredBy(b, ids, sent) && multiset(arrived) == multiset(sent) && |ids| <= MAX_NEED_IDS
    requires Indexes(c, b, theirs) && Wireable(theirs) && AllVerify(c, theirs)
             && Receptive(to, b.txid) && store.max == 0
    ensures TakeAll(c, to, store, arrived).ok
    ensures TakeAll(c, to, store, arrived).store.m.Keys == store.m.Keys + Elements(ids)
  {
    hide SendChunked, TakeAll, Verify, ElementID, PushList;
    var s :| SentBy(s, b, ids, sent);
    ListLands(c, s, theirs, ids, to, store, arrived);
  }

  lemma ResolvedMeans(x: Exchange, mine: set<Element>, yours: set<Element>)
    requires Resolved(x, mine, yours)
    ensures |x.a1.peeler.decoded.Keys| <= DEFAULT_MAX_SYMBOLS && x.a1.bytesIn == 0 && x.a1.maxBytes == DEFAULT_MAX_BYTES
    ensures x.b2.bytesIn == 0 && x.b2.maxBytes == DEFAULT_MAX_BYTES
             && (mine - yours != {} ==> x.b2.phase == SymbolsFlowing)
  {
  }

  lemma BothIndexed(c: Crypto, h: Hashing, txid: nat, ours: seq<Record>, theirs: seq<Record>, filter: SyncFilter,
                    turns: nat, order: seq<nat>, x: Exchange)
    requires Opens(c, txid, ours, theirs, filter, x) && Resolved(x, IdsOf(c, ours), IdsOf(c, theirs))
    ensures Indexes(c, x.a1, ours) && Indexes(c, x.b2, theirs) && x.a1.txid == x.b2.txid
  {
    hide Start, Respond, ElementID, AddedOf, RemovedOf;
    Negotiated(c, txid, ours, theirs, filter);
  }

  /** The ids asked for and the ids pushed are the two sides of the difference. */
  lemma ListsTheDifference(c: Crypto, ours: seq<Record>, theirs: seq<Record>, ids: seq<Element>, pushed: seq<Element>,
                           x: Exchange)
    requires Converges(ids, pushed, x) && Resolved(x, IdsOf(c, ours), IdsOf(c, theirs))
    requires Indexes(c, x.a1, ours) && Indexes(c, x.b2, theirs)
    ensures Elements(ids) == IdsOf(c, theirs) - IdsOf(c, ours) && Elements(pushed) == IdsOf(c, ours) - IdsOf(c, theirs)
    ensures (forall e :: e in ids ==> e in x.b2.records) && (forall e :: e in pushed ==> e in x.a1.records)
  {
    hide IdsOf, AddedOf, RemovedOf, Converging, ElementID, Ascending;
  }

  /** The responder is ready for the pushes of a converged initiator, which carry exactly the removed ids. */
  lemma PushesReady(c: Crypto, ours: seq<Record>, ids: seq<Element>, pushed: seq<Element>, x: Exchange, r: Side,
                    events: seq<Event>)
    requires Indexes(c, x.a1, ours) && Wireable(ours) && AllVerify(c, ours) && r.store.max == 0 && |ids| <= MAX_NEED_IDS
    requires Converges(ids, pushed, x) && multiset(PushedOf(events)) == multiset(x.pushes)
    requires |x.a1.peeler.decoded.Keys| <= DEFAULT_MAX_SYMBOLS && r.session.txid == x.a1.txid
    requires r.session.bytesIn == 0 && r.session.maxBytes == DEFAULT_MAX_BYTES
             && (pushed != [] ==> r.session.phase == SymbolsFlowing)
    requires (forall e :: e in ids ==> e in r.session.records) && Wireable(PushList(r.session.records, ids))
    ensures Receiving(r, ids, events) && AllVerify(c, Carried(PushedOf(events)))
    ensures IdsOf(c, Carried(PushedOf(events))) == Elements(pushed)
  {
    hide Verify, ElementID, SendChunked, Carried, CarriedBytes, Sendable, PushedOf, WireSizes;
    var arrived := PushedOf(events);
    CarriedPermutes(arrived, x.pushes);
    SameElements(arrived, x.pushes);
    SameElements(Carried(arrived), Carried(x.pushes));
    if pushed == [] {
      assert |arrived| == |multiset(arrived)| == 0;
      NothingCarried();
    } else {
      DistinctSize(pushed);
      SubsetSize(Elements(pushed), x.a1.peeler.decoded.Keys);
      ListedRecords(c, x.a1, ours, pushed);
      PushesChunked(ids, pushed, x);
    }
  }

  /** The pushes of a converged initiator are the chunks of the records it lists. */
  lemma PushesChunked(ids: seq<Element>, pushed: seq<Element>, x: Exchange)
    requires Converges(ids, pushed, x) && pushed != []
    requires (forall e :: e in pushed ==> e in x.a1.records) && Wireable(PushList(x.a1.records, pushed))
    ensures Chunked(x.a1.txid, PushList(x.a1.records, pushed), [], x.pushes)
  {
    hide SendChunked, Chunked, AddedOf, RemovedOf, Wireable;
    ChunksCarryAll(Need(x.a1.(convergeFired := true), ids).0, PushList(x.a1.records, pushed), []);
  }
}
