/** What a session keeps over whole runs: seeding, the reorder buffer as in-order delivery, the budgets. */
module SyncProofs {
  import opened Wrappers
  import opened Bytes
  import opened Collections
  import opened Records
  import opened Symbols
  import opened Riblt
  import opened Sync

  // ---- seeding ----

  ghost function IdsOf(c: Crypto, rs: seq<Record>): set<Element> {
    set r | r in rs :: ElementID(c, r)
  }

  /** Encoder, decoder and record map hold the same ids, once each, and each id maps to a record of that id. */
  ghost predicate Seeded(c: Crypto, s: Session, pool: seq<Record>) {
    && Distinct(s.elems) && s.peeler == Fresh(s.elems) && s.records.Keys == Elements(s.elems)
    && forall id :: id in s.records ==> s.records[id] in pool && ElementID(c, s.records[id]) == id
  }

  lemma RegisterOneSeeds(c: Crypto, s: Session, r: Record, pool: seq<Record>)
    requires Seeded(c, s, pool) && r in pool
    ensures var s' := RegisterOne(c, s, r);
            Seeded(c, s', pool) && s'.records.Keys == s.records.Keys + {ElementID(c, r)}
            && s' == s.(records := s'.records, elems := s'.elems, peeler := s'.peeler)
  {
    hide ElementID;
    var s', id := RegisterOne(c, s, r), ElementID(c, r);
    if id in s.records {
      assert s.records.Keys + {id} == s.records.Keys;
    } else {
      assert Elements(s'.elems) == Elements(s.elems) + {id};
      assert s'.records.Keys == s.records.Keys + {id};
    }
  }

  lemma {:induction false} RegisterSeeds(c: Crypto, s: Session, rs: seq<Record>, pool: seq<Record>)
    requires Seeded(c, s, pool) && forall r :: r in rs ==> r in pool
    ensures var s' := Register(c, s, rs);
            Seeded(c, s', pool) && s'.records.Keys == s.records.Keys + IdsOf(c, rs)
            && s' == s.(records := s'.records, elems := s'.elems, peeler := s'.peeler)
    decreases |rs|
  {
    if rs != [] {
      hide Seeded, RegisterOne, ElementID;
      var s1 := RegisterOne(c, s, rs[0]);
      RegisterOneSeeds(c, s, rs[0], pool);
      assert rs == [rs[0]] + rs[1..];
      assert IdsOf(c, rs) == {ElementID(c, rs[0])} + IdsOf(c, rs[1..]);
      RegisterSeeds(c, s1, rs[1..], pool);
    }
  }

  /** A new session holds exactly the ids of its records, and is otherwise empty. */
  lemma NewSessionSeeded(c: Crypto, txid: nat, role: Role, rs: seq<Record>)
    ensures var s := NewSession(c, txid, role, rs);
            Seeded(c, s, rs) && Elements(s.elems) == IdsOf(c, rs)
            && s == Empty(txid, role).(records := s.records, elems := s.elems, peeler := s.peeler)
  {
    RegisterSeeds(c, Empty(txid, role), rs, rs);
  }

  // ---- answering a need ----

  ghost predicate RecordUnder(records: map<Element, Record>, id: bytes, r: Record) {
    |id| == 32 && var e: Element := id; e in records && records[e] == r
  }

  function HeldIn(keys: set<Element>): bytes -> bool {
    id => |id| == 32 && id in keys
  }

  function MissingFrom(keys: set<Element>): bytes -> bool {
    id => |id| == 32 && id !in keys
  }

  /** The requested ids of the right width that are held, in order. */
  ghost predicate FoundBy(records: map<Element, Record>, ids: seq<bytes>, found: seq<Record>, held: seq<bytes>) {
    && Filters(ids, HeldIn(records.Keys), held)
    && |found| == |held| && forall i :: 0 <= i < |held| ==> RecordUnder(records, held[i], found[i])
  }

  /** A need splits exactly: the records of the requested ids that are held, in order, and the requested ids of the
      right width that are not, in order; ids of another width are passed over. */
  lemma {:induction false} ResolveExactly(records: map<Element, Record>, ids: seq<bytes>) returns (held: seq<bytes>)
    ensures var (found, missing) := Resolve(records, ids);
            FoundBy(records, ids, found, held) &&
            Filters<bytes>(ids, MissingFrom(records.Keys), missing)
    decreases |ids|
  {
    if ids == [] {
      held := [];
      FiltersNothing(HeldIn(records.Keys));
      FiltersNothing(MissingFrom(records.Keys));
    } else {
      var front, last := ids[..|ids| - 1], ids[|ids| - 1];
      assert ids == front + [last];
      var heldBefore := ResolveExactly(records, front);
      var (found, missing) := Resolve(records, front);
      hide FoundBy, Filters;
      held := FoundMore(records, front, last, found, heldBefore);
      FiltersMore<bytes>(front, MissingFrom(records.Keys), missing, last);
    }
  }

  lemma FoundMore(records: map<Element, Record>, front: seq<bytes>, last: bytes, found: seq<Record>, before: seq<bytes>)
    returns (held: seq<bytes>)
    requires FoundBy(records, front, found, before)
    ensures |last| == 32 && last in records.Keys ==>
              var e: Element := last; FoundBy(records, front + [last], found + [records[e]], held)
    ensures !(|last| == 32 && last in records.Keys) ==> FoundBy(records, front + [last], found, held)
  {
    hide Filters;
    FiltersMore(front, HeldIn(records.Keys), before, last);
    held := if |last| == 32 && last in records.Keys then before + [last] else before;
  }

  // ---- what is let in ----

  ghost predicate RightWidths(w: WireRecord) {
    |w.pk| == 32 && |w.ih| == 20 && |w.sig| == 64
  }

  lemma {:induction false} WiresDecode(ws: seq<WireRecord>)
    ensures FromWires(ws).Some? <==> forall w :: w in ws ==> RightWidths(w)
    ensures FromWires(ws).Some? ==>
              |FromWires(ws).value| == |ws| &&
              forall i :: 0 <= i < |ws| ==> RightWidths(ws[i]) && ToWire(FromWires(ws).value[i]) == ws[i]
    decreases |ws|
  {
    if ws != [] {
      var front, last := ws[..|ws| - 1], ws[|ws| - 1];
      WiresDecode(front);
      assert ws == front + [last];
      assert (forall w :: w in ws ==> RightWidths(w)) <==>
        (forall w :: w in front ==> RightWidths(w)) && RightWidths(last);
      assert FromWire(last).Some? <==> RightWidths(last);
    }
  }

  /** A record pays for the widths of its six fields. */
  lemma WireSizesAdd(rs: seq<Record>, r: Record)
    ensures WireSizes([]) == 0
    ensures var w := ToWire(r);
            WireSizes(rs + [r]) == WireSizes(rs) + |w.pk| + |w.kw| + |w.ih| + 8 + 8 + |w.sig|
  {
    assert (rs + [r])[..|rs|] == rs;
  }

  /** A records frame is let in exactly when it is of this exchange, the exchange is past its opening, it holds at
      most 500 records of the right widths, and its bytes still fit; a frame refused changes nothing, one let in is
      taken field by field and paid for. */
  lemma AcceptsExactly(s: Session, m: SyncRecords)
    ensures var (s', r) := Accept(s, m);
            && (r.Ok? <==> m.txid == s.txid && s.phase != Idle && s.phase != Begun && |m.records| <= 500 &&
                           (forall w :: w in m.records ==> RightWidths(w)) && FromWires(m.records).Some? &&
                           s.bytesIn + WireSizes(FromWires(m.records).value) + 32 * |m.missing| <= s.maxBytes)
            && (r.Err? ==> s' == s)
            && (r.Ok? ==> ToWires(r.value) == m.records &&
                          s' == s.(bytesIn := s.bytesIn + WireSizes(r.value) + 32 * |m.missing|,
                                   recordsIn := s.recordsIn + |r.value|, phase := Fulfilled))
  {
    hide FromWires, WireSizes;
    WiresDecode(m.records);
  }

  /** A begin is taken exactly when it is of this exchange and asks for 32-byte elements. It never raises a budget,
      lowers it to what a peer with a budget asks, and touches nothing else but the phase. */
  lemma BeginsExactly(s: Session, m: SyncBegin)
    ensures var r := Negotiate(s, m);
            && (r.error == None <==> m.txid == s.txid && m.elementSize == 32)
            && (r.error != None ==> r.next == s)
            && (r.error == None ==>
                  var s' := r.next;
                  && s' == s.(maxSymbols := s'.maxSymbols, maxBytes := s'.maxBytes, phase := Begun)
                  && s'.maxSymbols <= s.maxSymbols && s'.maxBytes <= s.maxBytes
                  && (s'.maxSymbols == s.maxSymbols || s'.maxSymbols == m.maxSymbols)
                  && (s'.maxBytes == s.maxBytes || s'.maxBytes == m.maxBytes)
                  && (0 < m.maxSymbols ==> s'.maxSymbols <= m.maxSymbols)
                  && (0 < m.maxBytes ==> s'.maxBytes <= m.maxBytes)
                  && (m.maxSymbols <= 0 ==> s'.maxSymbols == s.maxSymbols)
                  && (m.maxBytes <= 0 ==> s'.maxBytes == s.maxBytes))
  {
  }

  /** A frame of another exchange is refused and changes nothing. */
  lemma ForeignRefused(h: Hashing, s: Session, begin: SyncBegin, batch: SyncSymbols, need: SyncNeed,
                       records: SyncRecords)
    ensures begin.txid != s.txid ==> Negotiate(s, begin) == Step(s, Some(TxIDMismatch))
    ensures batch.txid != s.txid ==> Absorb(h, s, batch) == Step(s, Some(TxIDMismatch))
    ensures need.txid != s.txid ==> Answer(s, need) == Err(TxIDMismatch)
    ensures records.txid != s.txid ==> Accept(s, records) == (s, Err(TxIDMismatch))
  {
    hide Drain, FromWires;
  }

  /** Each frame has its cap: a need of more than 1000 ids is neither sent nor answered, a records frame of more than
      500 neither built nor taken, and no batch of symbols is over 100 or over the budget. */
  lemma CapsHold(h: Hashing, s: Session, ids: seq<Element>, need: SyncNeed, rs: seq<Record>, missing: seq<Element>,
                 count: int)
    ensures Need(s, ids).1.Ok? <==> |ids| <= 1000
    ensures Need(s, ids).1.Ok? ==> Need(s, ids) == (s.(phase := Needed), Ok(SyncNeed(s.txid, ids)))
    ensures Answer(s, need).Ok? <==> need.txid == s.txid && |need.ids| <= 1000
    ensures BuildFrame(s, rs, missing).1.Ok? <==> |rs| <= 500
    ensures Produce(h, s, count).1.Ok? <==> count > 0 && s.symbolsOut < s.maxSymbols
    ensures Produce(h, s, count).1.Ok? ==>
              var (s', m) := Produce(h, s, count);
              var n := |m.value.symbols|;
              && 0 < n <= 100 && n <= count && s.symbolsOut + n <= s.maxSymbols
              && (n == 100 || n == count || s.symbolsOut + n == s.maxSymbols)
              && m.value.txid == s.txid && m.value.index == s.nextIdx && !m.value.done
              && s' == s.(symbolsOut := s.symbolsOut + n, nextIdx := s.nextIdx + n, phase := SymbolsFlowing)
              && forall i :: 0 <= i < n ==> m.value.symbols[i] == Code(h, s.elems, s.nextIdx + i)
  {
    hide Code;
  }

  // ---- an honest batched stream ----

  ghost function Joined(bs: seq<SyncSymbols>): seq<Symbol> {
    if bs == [] then [] else Joined(bs[..|bs| - 1]) + bs[|bs| - 1].symbols
  }

  /** The stream position of batch i. */
  ghost function Position(bs: seq<SyncSymbols>, i: nat): nat
    requires i <= |bs|
  {
    |Joined(bs[..i])|
  }

  /** Nonempty batches of one session, each indexed by what the earlier ones sent. */
  ghost predicate Batched(txid: nat, bs: seq<SyncSymbols>) {
    forall i :: 0 <= i < |bs| ==> bs[i].txid == txid && bs[i].symbols != [] && bs[i].index == Position(bs, i)
  }

  lemma JoinedNext(bs: seq<SyncSymbols>, i: nat)
    requires i < |bs|
    ensures Joined(bs[..i + 1]) == Joined(bs[..i]) + bs[i].symbols
  {
    assert bs[..i + 1][..i] == bs[..i];
  }

  lemma {:induction false} PositionsRise(txid: nat, bs: seq<SyncSymbols>, i: nat, j: nat)
    requires Batched(txid, bs) && i <= j <= |bs|
    ensures if i < j then Position(bs, i) < Position(bs, j) else Position(bs, i) == Position(bs, j)
    decreases j - i
  {
    if i < j {
      PositionsRise(txid, bs, i, j - 1);
      JoinedNext(bs, j - 1);
    }
  }

  lemma {:induction false} ReceiveJoins(h: Hashing, s: Peeler, a: seq<Symbol>, b: seq<Symbol>)
    ensures Receive(h, Receive(h, s, a), b) == Receive(h, s, a + b)
    decreases |b|
  {
    hide AddRemote;
    if b == [] {
      assert a + b == a;
    } else {
      ReceiveJoins(h, s, a, b[..|b| - 1]);
      assert (a + b)[..|a + b| - 1] == a + b[..|b| - 1];
    }
  }

  // ---- the reorder buffer ----

  /** The number of batches from k on that have all arrived: the end of the contiguous prefix. */
  ghost function Front(got: set<nat>, k: nat, n: nat): (p: nat)
    requires k <= n
    ensures k <= p <= n && (forall i :: k <= i < p ==> i in got) && (p < n ==> p !in got)
    decreases n - k
  {
    if k < n && k in got then Front(got, k + 1, n) else k
  }

  ghost function Waiting(got: set<nat>, q: nat, n: nat): set<nat> {
    set i | i in got && q <= i < n
  }

  ghost function Indices(bs: seq<SyncSymbols>, w: set<nat>): set<int>
    requires forall i :: i in w ==> i < |bs|
  {
    set i | i in w :: bs[i].index
  }

  /** The buffer holds exactly the batches numbered in w, each under its index. */
  ghost predicate Holds(bs: seq<SyncSymbols>, w: set<nat>, pending: map<int, SyncSymbols>)
    requires forall i :: i in w ==> i < |bs|
  {
    && |pending| == |w|
    && pending.Keys == Indices(bs, w)
    && (forall i :: i in w ==> pending[bs[i].index] == bs[i])
  }

  /** The buffer holds exactly the arrived batches from number q on. */
  ghost predicate Buffered(bs: seq<SyncSymbols>, got: set<nat>, q: nat, pending: map<int, SyncSymbols>) {
    Holds(bs, Waiting(got, q, |bs|), pending)
  }

  ghost predicate SomeDone(bs: seq<SyncSymbols>, p: nat)
    requires p <= |bs|
  {
    exists i :: 0 <= i < p && bs[i].done
  }

  /** The session is where in-order application of the first p batches would have put it. */
  ghost predicate InOrder(h: Hashing, start: Session, bs: seq<SyncSymbols>, p: nat, s: Session) {
    && p <= |bs|
    && s.symbolsIn == Position(bs, p)
    && s.peeler == Receive(h, start.peeler, Joined(bs[..p]))
    && s.doneReceived == SomeDone(bs, p)
    && s == start.(phase := s.phase, pending := s.pending, symbolsIn := s.symbolsIn, peeler := s.peeler,
                   doneReceived := s.doneReceived)
  }

  /** After the batches in `got` arrived in any order: the longest contiguous prefix is applied and the
      rest is buffered. */
  ghost predicate Reordered(h: Hashing, start: Session, bs: seq<SyncSymbols>, got: set<nat>, s: Session) {
    var p := Front(got, 0, |bs|);
    InOrder(h, start, bs, p, s) && Buffered(bs, got, p, s.pending)
  }

  /** A session that has taken no symbols yet, with budget for the whole stream. */
  ghost predicate Listening(start: Session, bs: seq<SyncSymbols>) {
    && Batched(start.txid, bs) && |Joined(bs)| <= start.maxSymbols
    && start.symbolsIn == 0 && start.pending == map[] && !start.doneReceived
  }

  lemma TakeNext(h: Hashing, start: Session, bs: seq<SyncSymbols>, p: nat, s: Session)
    requires Listening(start, bs) && p < |bs| && InOrder(h, start, bs, p, s)
    ensures InOrder(h, start, bs, p + 1, TakeIn(h, s, bs[p]))
    ensures s.symbolsIn + |bs[p].symbols| <= s.maxSymbols
  {
    hide Receive;
    JoinedNext(bs, p);
    ReceiveJoins(h, start.peeler, Joined(bs[..p]), bs[p].symbols);
    PositionsRise(start.txid, bs, p + 1, |bs|);
    assert bs[..|bs|] == bs;
    SomeDoneNext(bs, p);
  }

  lemma SomeDoneNext(bs: seq<SyncSymbols>, p: nat)
    requires p < |bs|
    ensures SomeDone(bs, p + 1) <==> SomeDone(bs, p) || bs[p].done
  {
  }

  lemma BufferSkip(bs: seq<SyncSymbols>, got: set<nat>, q: nat, pending: map<int, SyncSymbols>)
    requires q !in got || q >= |bs|
    ensures Buffered(bs, got, q, pending) <==> Buffered(bs, got, q + 1, pending)
  {
    assert Waiting(got, q, |bs|) == Waiting(got, q + 1, |bs|);
  }

  lemma BufferTake(txid: nat, bs: seq<SyncSymbols>, got: set<nat>, q: nat, pending: map<int, SyncSymbols>)
    requires Batched(txid, bs) && Buffered(bs, got, q, pending) && q in got && q < |bs|
    ensures bs[q].index in pending && pending[bs[q].index] == bs[q]
    ensures Buffered(bs, got, q + 1, pending - {bs[q].index})
  {
    hide Position, Indices;
    var w := Waiting(got, q, |bs|);
    assert Waiting(got, q + 1, |bs|) == w - {q};
    assert q in w;
    forall i | i in w - {q} ensures bs[i].index != bs[q].index {
      PositionsRise(txid, bs, q, i);
    }
    HoldsLess(bs, w, q, pending);
  }

  lemma HoldsLess(bs: seq<SyncSymbols>, w: set<nat>, i: nat, pending: map<int, SyncSymbols>)
    requires i in w && (forall j :: j in w ==> j < |bs|) && forall j :: j in w - {i} ==> bs[j].index != bs[i].index
    requires Holds(bs, w, pending)
    ensures bs[i].index in pending && pending[bs[i].index] == bs[i]
    ensures Holds(bs, w - {i}, pending - {bs[i].index})
  {
    hide Indices;
    IndicesHold(bs, w, i);
    MapLess(pending, bs[i].index);
    IndicesLess(bs, w, i);
    forall j | j in w - {i} ensures bs[j].index in (pending - {bs[i].index}).Keys {
      IndicesHold(bs, w - {i}, j);
    }
  }

  lemma IndicesLess(bs: seq<SyncSymbols>, w: set<nat>, i: nat)
    requires i in w && (forall j :: j in w ==> j < |bs|) && forall j :: j in w - {i} ==> bs[j].index != bs[i].index
    ensures Indices(bs, w - {i}) == Indices(bs, w) - {bs[i].index}
  {
  }

  lemma IndexWitness(bs: seq<SyncSymbols>, w: set<nat>, k: int) returns (i: nat)
    requires (forall j :: j in w ==> j < |bs|) && k in Indices(bs, w)
    ensures i in w && bs[i].index == k
  {
    i :| i in w && bs[i].index == k;
  }

  lemma BufferLookup(txid: nat, bs: seq<SyncSymbols>, got: set<nat>, q: nat, p: nat, pending: map<int, SyncSymbols>)
    requires Batched(txid, bs) && Buffered(bs, got, q, pending) && p <= |bs|
    ensures Position(bs, p) in pending <==> p in Waiting(got, q, |bs|)
  {
    hide Joined, Position, Indices;
    var w := Waiting(got, q, |bs|);
    if p in w { IndicesHold(bs, w, p); }
    if Position(bs, p) in pending {
      var i := IndexWitness(bs, w, Position(bs, p));
      if i < p { PositionsRise(txid, bs, i, p); }
      if p < i { PositionsRise(txid, bs, p, i); }
    }
  }

  lemma BufferAdd(txid: nat, bs: seq<SyncSymbols>, got: set<nat>, q: nat, i: nat, pending: map<int, SyncSymbols>)
    requires Batched(txid, bs) && Buffered(bs, got, q, pending) && q <= i < |bs| && i !in got
    ensures Buffered(bs, got + {i}, q, pending[bs[i].index := bs[i]])
  {
    hide Holds;
    BufferLookup(txid, bs, got, q, i, pending);
    HoldsMore(bs, Waiting(got, q, |bs|), i, pending);
    assert Waiting(got + {i}, q, |bs|) == Waiting(got, q, |bs|) + {i};
  }

  lemma HoldsMore(bs: seq<SyncSymbols>, w: set<nat>, i: nat, pending: map<int, SyncSymbols>)
    requires i < |bs| && i !in w && (forall j :: j in w ==> j < |bs|)
    requires Holds(bs, w, pending) && bs[i].index !in pending
    ensures Holds(bs, w + {i}, pending[bs[i].index := bs[i]])
  {
    hide Indices;
    MapMore(pending, bs[i].index, bs[i]);
    IndicesMore(bs, w, i);
    forall j | j in w ensures bs[j].index in pending.Keys {
      IndicesHold(bs, w, j);
    }
  }

  lemma IndicesMore(bs: seq<SyncSymbols>, w: set<nat>, i: nat)
    requires i < |bs| && forall j :: j in w ==> j < |bs|
    ensures Indices(bs, w + {i}) == Indices(bs, w) + {bs[i].index}
  {
  }

  lemma IndicesHold(bs: seq<SyncSymbols>, w: set<nat>, i: nat)
    requires i in w && forall j :: j in w ==> j < |bs|
    ensures bs[i].index in Indices(bs, w)
  {
  }

  lemma FrontIs(got: set<nat>, k: nat, p: nat, n: nat)
    requires k <= p <= n && (forall i :: k <= i < p ==> i in got) && (p < n ==> p !in got)
    ensures Front(got, k, n) == p
  {
  }

  /** Draining from batch p applies the whole contiguous prefix and stops. */
  lemma {:induction false} DrainCatchesUp(h: Hashing, start: Session, bs: seq<SyncSymbols>, got: set<nat>, p: nat,
                                          s: Session)
    requires Listening(start, bs) && p < |bs| && (forall i :: 0 <= i <= p ==> i in got)
    requires InOrder(h, start, bs, p, s) && Buffered(bs, got, p + 1, s.pending)
    ensures Drain(h, s, bs[p]).error.None? && Reordered(h, start, bs, got, Drain(h, s, bs[p]).next)
    decreases |bs| - p
  {
    hide Buffered, Drain, TakeIn, InOrder;
    var s1 := TakeIn(h, s, bs[p]);
    TakeNext(h, start, bs, p, s);
    DrainTurn(h, s, bs[p]);
    InOrderMeans(h, start, bs, p + 1, s1);
    assert s1.pending == s.pending by { TakeInPending(h, s, bs[p]); }
    BufferLookup(start.txid, bs, got, p + 1, p + 1, s.pending);
    var next := p + 1;
    if next < |bs| && next in got {
      BufferTake(start.txid, bs, got, next, s.pending);
      var s2 := s1.(pending := s1.pending - {bs[next].index});
      InOrderUnbuffered(h, start, bs, next, s1, bs[next].index);
      DrainCatchesUp(h, start, bs, got, next, s2);
    } else {
      FrontIs(got, 0, next, |bs|);
    }
  }

  lemma TakeInPending(h: Hashing, s: Session, m: SyncSymbols)
    ensures TakeIn(h, s, m).pending == s.pending
  {
  }

  lemma InOrderMeans(h: Hashing, start: Session, bs: seq<SyncSymbols>, p: nat, s: Session)
    requires InOrder(h, start, bs, p, s)
    ensures p <= |bs| && s.symbolsIn == Position(bs, p) && s.txid == start.txid
  {
  }

  lemma InOrderPending(h: Hashing, start: Session, bs: seq<SyncSymbols>, p: nat, s: Session)
    requires InOrder(h, start, bs, p, s)
    ensures InOrder(h, start, bs, p, s.(phase := SymbolsFlowing))
  {
  }

  lemma InOrderUnbuffered(h: Hashing, start: Session, bs: seq<SyncSymbols>, p: nat, s: Session, k: int)
    requires InOrder(h, start, bs, p, s)
    ensures InOrder(h, start, bs, p, s.(pending := s.pending - {k}))
  {
  }

  /** A batch behind the stream position, or buffered already, changes nothing but the phase. */
  lemma StaleArrival(h: Hashing, start: Session, bs: seq<SyncSymbols>, got: set<nat>, s: Session, i: nat)
    requires Listening(start, bs) && i < |bs| && Reordered(h, start, bs, got, s)
    requires i in got
    ensures Absorb(h, s, bs[i]) == Step(s.(phase := SymbolsFlowing), None)
  {
    hide Drain, Receive, Joined;
    var p := Front(got, 0, |bs|);
    if i < p {
      PositionsRise(start.txid, bs, i, p);
    } else {
      assert i > p;
      PositionsRise(start.txid, bs, p, i);
      assert i in Waiting(got, p, |bs|);
    }
  }

  /** A batch ahead of the stream position that is not buffered yet. */
  lemma AheadArrival(h: Hashing, start: Session, bs: seq<SyncSymbols>, got: set<nat>, s: Session, i: nat)
    requires Listening(start, bs) && i < |bs| && Reordered(h, start, bs, got, s)
    requires i > Front(got, 0, |bs|) && i !in got
    ensures Absorb(h, s, bs[i]) ==
              if |Waiting(got, Front(got, 0, |bs|), |bs|)| >= MAX_PENDING_BATCHES
              then Step(s.(phase := SymbolsFlowing), Some(Desync))
              else Step(s.(phase := SymbolsFlowing, pending := s.pending[bs[i].index := bs[i]]), None)
  {
    hide Drain, Receive, Joined;
    var p := Front(got, 0, |bs|);
    PositionsRise(start.txid, bs, p, i);
    BufferLookup(start.txid, bs, got, p, i, s.pending);
  }

  /** One arrival. It errs exactly when it is a new batch ahead of the prefix and 32 are buffered already;
      otherwise the session is again at the longest contiguous prefix of what has arrived. */
  lemma ArrivalReorders(h: Hashing, start: Session, bs: seq<SyncSymbols>, got: set<nat>, s: Session, i: nat)
    requires Listening(start, bs) && i < |bs| && Reordered(h, start, bs, got, s)
    ensures var p, step := Front(got, 0, |bs|), Absorb(h, s, bs[i]);
            (step.error.Some? <==> i > p && i !in got && |Waiting(got, p, |bs|)| >= 32)
            && (step.error.None? ==> Reordered(h, start, bs, got + {i}, step.next))
  {
    hide Buffered, Drain, InOrder, Waiting, Joined, Position, Absorb, Listening;
    var p := Front(got, 0, |bs|);
    InOrderPending(h, start, bs, p, s);
    if i in got {
      StaleArrival(h, start, bs, got, s, i);
      assert got + {i} == got;
    } else if i == p {
      NextArrival(h, start, bs, got, s);
    } else {
      AheadArrival(h, start, bs, got, s, i);
      FrontIs(got + {i}, 0, p, |bs|);
      BufferMore(h, start, bs, got, p, i, s);
    }
  }

  lemma BufferMore(h: Hashing, start: Session, bs: seq<SyncSymbols>, got: set<nat>, p: nat, i: nat, s: Session)
    requires Listening(start, bs) && InOrder(h, start, bs, p, s) && Buffered(bs, got, p, s.pending)
             && p <= i < |bs| && i !in got
    ensures var s' := s.(phase := SymbolsFlowing, pending := s.pending[bs[i].index := bs[i]]);
            InOrder(h, start, bs, p, s') && Buffered(bs, got + {i}, p, s'.pending)
  {
    hide Buffered, Joined, Position, Receive;
    BufferAdd(start.txid, bs, got, p, i, s.pending);
  }

  lemma NextArrival(h: Hashing, start: Session, bs: seq<SyncSymbols>, got: set<nat>, s: Session)
    requires Listening(start, bs) && Reordered(h, start, bs, got, s) && Front(got, 0, |bs|) < |bs|
    ensures var p := Front(got, 0, |bs|);
            var step := Absorb(h, s, bs[p]);
            step.error.None? && Reordered(h, start, bs, got + {p}, step.next)
  {
    hide Buffered, Drain, Waiting, Joined, Receive;
    var p := Front(got, 0, |bs|);
    BufferSkip(bs, got, p, s.pending);
    BufferForget(bs, got, p, s.pending);
    DrainCatchesUp(h, start, bs, got + {p}, p, s.(phase := SymbolsFlowing));
  }

  lemma BufferForget(bs: seq<SyncSymbols>, got: set<nat>, p: nat, pending: map<int, SyncSymbols>)
    requires Buffered(bs, got, p + 1, pending)
    ensures Buffered(bs, got + {p}, p + 1, pending)
  {
    assert Waiting(got + {p}, p + 1, |bs|) == Waiting(got, p + 1, |bs|);
  }

  /** Deliver batches in the given order, stopping at an error. */
  ghost function Deliver(h: Hashing, s: Session, bs: seq<SyncSymbols>, order: seq<nat>): Step
    requires forall t :: 0 <= t < |order| ==> order[t] < |bs|
    decreases |order|
  {
    if order == [] then Step(s, None)
    else
      var before := Deliver(h, s, bs, order[..|order| - 1]);
      if before.error.Some? then before else Absorb(h, before.next, bs[order[|order| - 1]])
  }

  ghost function Arrived(order: seq<nat>): set<nat> {
    set i | i in order
  }

  /** How many batches wait ahead of the contiguous prefix. */
  ghost function Crowd(got: set<nat>, n: nat): nat {
    |Waiting(got, Front(got, 0, n), n)|
  }

  /** No more than 32 batches wait at any time. */
  ghost predicate NeverOverfull(order: seq<nat>, n: nat) {
    forall t :: 0 <= t <= |order| ==> Crowd(Arrived(order[..t]), n) <= 32
  }

  /** Reorder buffer refinement: for any delivery order, duplicates included, in which at most 32 batches
      wait at a time, no arrival errs and the session is at the longest contiguous prefix delivered. */
  lemma {:induction false} DeliveryReorders(h: Hashing, start: Session, bs: seq<SyncSymbols>, order: seq<nat>)
    requires Listening(start, bs) && NeverOverfull(order, |bs|)
    requires forall t :: 0 <= t < |order| ==> order[t] < |bs|
    ensures var step := Deliver(h, start, bs, order);
            step.error.None? && Reordered(h, start, bs, Arrived(order), step.next)
    decreases |order|
  {
    hide Absorb, Listening, Waiting, Front, Arrived, Reordered, Crowd;
    if order == [] {
      NothingArrived(h, start, bs);
      assert Arrived(order) == {} by { ArrivedNothing(); }
    } else {
      var front, i := order[..|order| - 1], order[|order| - 1];
      forall t | 0 <= t <= |front|
        ensures Crowd(Arrived(front[..t]), |bs|) <= MAX_PENDING_BATCHES
      {
        assert order[..t] == front[..t];
      }
      DeliveryReorders(h, start, bs, front);
      var got, s := Arrived(front), Deliver(h, start, bs, front).next;
      ArrivalReorders(h, start, bs, got, s, i);
      ArrivedLast(order);
      assert order[..|order|] == order;
      NewcomerWaits(got, i, |bs|);
    }
  }

  lemma ArrivedNothing()
    ensures Arrived([]) == {}
  {
  }

  lemma ArrivedLast(order: seq<nat>)
    requires order != []
    ensures Arrived(order) == Arrived(order[..|order| - 1]) + {order[|order| - 1]}
  {
    assert order == order[..|order| - 1] + [order[|order| - 1]];
  }

  /** A new batch ahead of the prefix adds one to those waiting. */
  lemma NewcomerWaits(got: set<nat>, i: nat, n: nat)
    requires i < n
    ensures var p := Front(got, 0, n);
            (i > p && i !in got ==> Crowd(got + {i}, n) == Crowd(got, n) + 1) && Crowd(got, n) == |Waiting(got, p, n)|
  {
    var p := Front(got, 0, n);
    if i > p && i !in got {
      FrontIs(got + {i}, 0, p, n);
      assert Waiting(got + {i}, p, n) == Waiting(got, p, n) + {i};
    }
  }

  lemma NothingArrived(h: Hashing, start: Session, bs: seq<SyncSymbols>)
    requires Listening(start, bs)
    ensures Reordered(h, start, bs, {}, start)
  {
    assert bs[..0] == [];
    assert Waiting({}, 0, |bs|) == {};
  }

  /** A stream of at most 33 batches can never overfill the buffer. */
  lemma FewBatchesNeverOverfull(order: seq<nat>, n: nat)
    requires n <= 33
    ensures NeverOverfull(order, n)
  {
    forall t | 0 <= t <= |order|
      ensures Crowd(Arrived(order[..t]), n) <= MAX_PENDING_BATCHES
    {
      var got := Arrived(order[..t]);
      var p := Front(got, 0, n);
      if p < n {
        assert Waiting(got, p, n) == Waiting(got, p + 1, n);
        WaitingAtMost(got, p + 1, n);
      } else {
        assert Waiting(got, p, n) == {};
      }
    }
  }

  lemma {:induction false} WaitingAtMost(got: set<nat>, q: nat, n: nat)
    requires q <= n
    ensures |Waiting(got, q, n)| <= n - q
    decreases n - q
  {
    if q == n {
      assert Waiting(got, q, n) == {};
    } else {
      WaitingAtMost(got, q, n - 1);
      SubsetSize(Waiting(got, q, n), Waiting(got, q, n - 1) + {n - 1});
    }
  }
}
