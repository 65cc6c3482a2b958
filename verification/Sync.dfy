/** One reconciliation exchange with a peer (internal/swarmsearch/sync_session.go): what each frame does to a
    session, first as functions on session values, then as the class that updates the fields in place. */
module Sync {
  import opened Wrappers
  import opened Collections
  import opened Bytes
  import opened Records
  import opened Symbols
  import opened Riblt

  const ELEMENT_SIZE := 32
  const MAX_SYMBOLS_PER_MESSAGE := 100
  const MAX_RECORDS_PER_MESSAGE := 500
  const MAX_NEED_IDS := 1000
  const DEFAULT_MAX_SYMBOLS := 2000
  const DEFAULT_MAX_BYTES := 0x10_0000
  const CONVERGE_SYMBOL_FLOOR := 256
  const MAX_PENDING_BATCHES := 32

  datatype Role = Initiator | Responder
  datatype Phase = Idle | Begun | SymbolsFlowing | Needed | Fulfilled | Ended
  datatype SyncError = SymbolBudgetExceeded | BytesBudgetExceeded | Desync | IllegalPhase | TxIDMismatch | TooLarge

  // ---- frames ----

  datatype SyncFilter = SyncFilter(pubkeys: seq<bytes>, since: Int64, prefix: bytes)
  datatype SyncBegin = SyncBegin(txid: nat, elementSize: int, filter: SyncFilter, localCount: int,
                                 maxSymbols: int, maxBytes: int)
  datatype SyncSymbols = SyncSymbols(txid: nat, index: int, symbols: seq<Symbol>, done: bool)
  datatype SyncNeed = SyncNeed(txid: nat, ids: seq<bytes>)
  datatype WireRecord = WireRecord(pk: bytes, kw: bytes, ih: bytes, t: Int64, pow: UInt64, sig: bytes)
  datatype SyncRecords = SyncRecords(txid: nat, records: seq<WireRecord>, missing: seq<bytes>)

  function ToWire(r: Record): WireRecord {
    WireRecord(r.pk, r.kw, r.ih, r.t, r.pow, r.sig)
  }

  function ToWires(rs: seq<Record>): (ws: seq<WireRecord>)
    ensures |ws| == |rs|
  {
    seq(|rs|, i requires 0 <= i < |rs| => ToWire(rs[i]))
  }

  /** A wire record of the right widths, or None. */
  function FromWire(w: WireRecord): Option<Record> {
    if |w.pk| != 32 || |w.ih| != 20 || |w.sig| != 64 then None else Some(Record(w.pk, w.kw, w.ih, w.t, w.pow, w.sig))
  }

  function FromWires(ws: seq<WireRecord>): Option<seq<Record>> {
    if ws == [] then Some([])
    else match (FromWires(ws[..|ws| - 1]), FromWire(ws[|ws| - 1]))
      case (Some(rs), Some(r)) => Some(rs + [r])
      case _ => None
  }

  /** The size budgets are counted in: the fields' widths, not the bencoded size. */
  function WireSize(r: Record): nat {
    32 + |r.kw| + 20 + 8 + 8 + 64
  }

  function WireSizes(rs: seq<Record>): nat {
    if rs == [] then 0 else WireSizes(rs[..|rs| - 1]) + WireSize(rs[|rs| - 1])
  }

  // ---- sessions as values ----

  datatype Session = Session(
    txid: nat, role: Role, phase: Phase,
    records: map<Element, Record>, elems: seq<Element>, nextIdx: nat, peeler: Peeler,
    maxSymbols: nat, maxBytes: nat, symbolsOut: nat, symbolsIn: nat, bytesIn: nat, bytesOut: nat, recordsIn: nat,
    pending: map<int, SyncSymbols>, doneReceived: bool, convergeFired: bool)

  datatype Step = Step(next: Session, error: Option<SyncError>)

  function Empty(txid: nat, role: Role): Session {
    Session(txid, role, Idle, map[], [], 0, Fresh([]), DEFAULT_MAX_SYMBOLS, DEFAULT_MAX_BYTES,
      0, 0, 0, 0, 0, map[], false, false)
  }

  /** The first record of an id wins; its id seeds the encoder and the decoder. */
  function RegisterOne(c: Crypto, s: Session, r: Record): Session {
    var id := ElementID(c, r);
    if id in s.records then s
    else s.(records := s.records[id := r], elems := s.elems + [id], peeler := s.peeler.(local := s.peeler.local + [id]))
  }

  function Register(c: Crypto, s: Session, rs: seq<Record>): Session
    decreases |rs|
  {
    if rs == [] then s else Register(c, RegisterOne(c, s, rs[0]), rs[1..])
  }

  function NewSession(c: Crypto, txid: nat, role: Role, rs: seq<Record>): Session {
    Register(c, Empty(txid, role), rs)
  }

  /** The sync_begin a session sends. */
  function Opening(s: Session, filter: SyncFilter): SyncBegin {
    SyncBegin(s.txid, ELEMENT_SIZE, filter, |s.elems|, s.maxSymbols, s.maxBytes)
  }

  /** Budgets only ever shrink. */
  function Negotiate(s: Session, m: SyncBegin): Step {
    if m.txid != s.txid then Step(s, Some(TxIDMismatch))
    else if m.elementSize != ELEMENT_SIZE then Step(s, Some(Desync))
    else Step(s.(maxSymbols := if 0 < m.maxSymbols < s.maxSymbols then m.maxSymbols else s.maxSymbols,
                 maxBytes := if 0 < m.maxBytes < s.maxBytes then m.maxBytes else s.maxBytes,
                 phase := Begun), None)
  }

  function Min(a: int, b: int): int {
    if a < b then a else b
  }

  function BatchSize(s: Session, count: int): int {
    Min(Min(count, MAX_SYMBOLS_PER_MESSAGE), s.maxSymbols - s.symbolsOut)
  }

  /** n symbols of the stream over es, from number k on. */
  function StreamFrom(h: Hashing, es: seq<Element>, k: nat, n: nat): (xs: seq<Symbol>)
    ensures |xs| == n
  {
    seq(n, i requires 0 <= i < n => Code(h, es, k + i))
  }

  function Produce(h: Hashing, s: Session, count: int): (Session, Result<SyncSymbols, SyncError>) {
    var n := BatchSize(s, count);
    if n <= 0 then (s, Err(SymbolBudgetExceeded))
    else (s.(symbolsOut := s.symbolsOut + n, nextIdx := s.nextIdx + n, phase := SymbolsFlowing),
          Ok(SyncSymbols(s.txid, s.nextIdx, StreamFrom(h, s.elems, s.nextIdx, n), false)))
  }

  /** One batch at the stream position. */
  ghost function TakeIn(h: Hashing, s: Session, m: SyncSymbols): Session {
    s.(peeler := Receive(h, s.peeler, m.symbols), symbolsIn := s.symbolsIn + |m.symbols|,
       doneReceived := s.doneReceived || m.done)
  }

  /** Apply a batch at the stream position, then every buffered batch that follows it without a gap. */
  ghost function Drain(h: Hashing, s: Session, m: SyncSymbols): Step
    decreases |s.pending|
  {
    if s.symbolsIn + |m.symbols| > s.maxSymbols then Step(s, Some(SymbolBudgetExceeded))
    else
      var s1 := TakeIn(h, s, m);
      if s1.symbolsIn in s1.pending then
        MapLess(s1.pending, s1.symbolsIn);
        Drain(h, s1.(pending := s1.pending - {s1.symbolsIn}), s1.pending[s1.symbolsIn])
      else Step(s1, None)
  }

  /** What one turn of the draining loop does. */
  lemma DrainTurn(h: Hashing, s: Session, m: SyncSymbols)
    ensures var s1 := TakeIn(h, s, m);
            Drain(h, s, m) ==
              if s.symbolsIn + |m.symbols| > s.maxSymbols then Step(s, Some(SymbolBudgetExceeded))
              else if s1.symbolsIn in s1.pending
              then Drain(h, s1.(pending := s1.pending - {s1.symbolsIn}), s1.pending[s1.symbolsIn])
              else Step(s1, None)
  {
  }

  ghost function Absorb(h: Hashing, s: Session, m: SyncSymbols): Step {
    if m.txid != s.txid then Step(s, Some(TxIDMismatch))
    else
      var f := s.(phase := SymbolsFlowing);
      if m.index < s.symbolsIn then Step(f, None)
      else if m.index > s.symbolsIn then
        if m.index in s.pending then Step(f, None)
        else if |s.pending| >= MAX_PENDING_BATCHES then Step(f, Some(Desync))
        else Step(f.(pending := s.pending[m.index := m]), None)
      else Drain(h, f, m)
  }

  /** The once-guarded decision to finalize. */
  predicate Ready(s: Session) {
    !s.convergeFired && ((AllZero(s.peeler) && s.symbolsIn >= CONVERGE_SYMBOL_FLOOR) || s.doneReceived)
  }

  /** sort.Slice with less32 on distinct ids. */
  predicate Ascending(ids: seq<Element>) {
    forall i, j :: 0 <= i < j < |ids| ==> Less(ids[i], ids[j])
  }

  function Need(s: Session, ids: seq<Element>): (Session, Result<SyncNeed, SyncError>) {
    if |ids| > MAX_NEED_IDS then (s, Err(TooLarge))
    else (s.(phase := Needed), Ok(SyncNeed(s.txid, ids)))
  }

  /** The records held among the requested ids, and the ids not held; ids of another width are skipped. */
  function Resolve(records: map<Element, Record>, ids: seq<bytes>): (seq<Record>, seq<Element>) {
    if ids == [] then ([], [])
    else
      var (found, missing) := Resolve(records, ids[..|ids| - 1]);
      if |ids[|ids| - 1]| != ELEMENT_SIZE then (found, missing)
      else
        var id: Element := ids[|ids| - 1];
        if id in records then (found + [records[id]], missing) else (found, missing + [id])
  }

  function Answer(s: Session, m: SyncNeed): Result<(seq<Record>, seq<Element>), SyncError> {
    if m.txid != s.txid then Err(TxIDMismatch)
    else if |m.ids| > MAX_NEED_IDS then Err(TooLarge)
    else Ok(Resolve(s.records, m.ids))
  }

  function BuildFrame(s: Session, rs: seq<Record>, missing: seq<Element>): (Session, Result<SyncRecords, SyncError>) {
    if |rs| > MAX_RECORDS_PER_MESSAGE then (s, Err(TooLarge))
    else (s.(bytesOut := s.bytesOut + WireSizes(rs) + 32 * |missing|, phase := Fulfilled),
          Ok(SyncRecords(s.txid, ToWires(rs), missing)))
  }

  function FrameBytes(rs: seq<Record>, missing: seq<bytes>): nat {
    WireSizes(rs) + 32 * |missing|
  }

  /** Records are refused before the exchange, over the frame cap, with a bad width, over the byte budget. */
  function Accept(s: Session, m: SyncRecords): (Session, Result<seq<Record>, SyncError>) {
    if m.txid != s.txid then (s, Err(TxIDMismatch))
    else if s.phase == Idle || s.phase == Begun then (s, Err(IllegalPhase))
    else if |m.records| > MAX_RECORDS_PER_MESSAGE then (s, Err(TooLarge))
    else match FromWires(m.records)
      case None => (s, Err(IllegalPhase))
      case Some(rs) =>
        if s.bytesIn + FrameBytes(rs, m.missing) > s.maxBytes then (s, Err(BytesBudgetExceeded))
        else (s.(bytesIn := s.bytesIn + FrameBytes(rs, m.missing), recordsIn := s.recordsIn + |rs|,
          phase := Fulfilled), Ok(rs))
  }

  // ---- the class ----

  class SyncSession {
    const c: Crypto
    const h: Hashing
    const txid: nat
    const role: Role
    const enc: Encoder
    const dec: Decoder
    var phase: Phase
    var records: map<Element, Record>
    var maxSymbols: nat
    var maxBytes: nat
    var symbolsOut: nat
    var symbolsIn: nat
    var bytesIn: nat
    var bytesOut: nat
    var recordsIn: nat
    var pendingSymbols: map<int, SyncSymbols>
    var doneReceived: bool
    var convergeFired: bool

    ghost predicate Valid() {
      enc.h == h && dec.h == h
    }

    function State(): Session
      reads this, enc, dec
    {
      Session(txid, role, phase, records, enc.elems, enc.nextIdx, dec.State(), maxSymbols, maxBytes,
        symbolsOut, symbolsIn,
              bytesIn, bytesOut, recordsIn, pendingSymbols, doneReceived, convergeFired)
    }

    constructor (c: Crypto, h: Hashing, txid: nat, role: Role, recs: seq<Record>)
      ensures Valid() && fresh(enc) && fresh(dec) && this.c == c && this.h == h
      ensures State() == NewSession(c, txid, role, recs)
    {
      this.c, this.h, this.txid, this.role := c, h, txid, role;
      enc := new Encoder(h);
      dec := new Decoder(h);
      phase, records, maxSymbols, maxBytes := Idle, map[], DEFAULT_MAX_SYMBOLS, DEFAULT_MAX_BYTES;
      symbolsOut, symbolsIn, bytesIn, bytesOut, recordsIn := 0, 0, 0, 0, 0;
      pendingSymbols, doneReceived, convergeFired := map[], false, false;
      new;
      hide RegisterOne;
      for i := 0 to |recs|
        invariant Valid() && fresh(enc) && fresh(dec)
        invariant Register(c, State(), recs[i..]) == NewSession(c, txid, role, recs)
      {
        assert recs[i..][0] == recs[i] && recs[i..][1..] == recs[i + 1..];
        AddRecord(recs[i]);
      }
    }

    method AddRecord(r: Record)
      requires Valid()
      modifies this`records, enc, dec
      ensures State() == RegisterOne(c, old(State()), r)
    {
      var id := ElementID(c, r);
      if id in records { return; }
      records := records[id := r];
      enc.AddElement(id);
      dec.AddLocalElement(id);
    }

    method Begin(filter: SyncFilter) returns (m: SyncBegin)
      modifies this
      ensures State() == old(State()).(phase := Begun)
      ensures m == Opening(old(State()), filter)
    {
      phase := Begun;
      m := SyncBegin(txid, ELEMENT_SIZE, filter, |enc.elems|, maxSymbols, maxBytes);
    }

    method ApplyBegin(m: SyncBegin) returns (err: Option<SyncError>)
      modifies this
      ensures Step(State(), err) == Negotiate(old(State()), m)
    {
      if m.txid != txid { return Some(TxIDMismatch); }
      if m.elementSize != ELEMENT_SIZE { return Some(Desync); }
      if m.maxSymbols > 0 && m.maxSymbols < maxSymbols { maxSymbols := m.maxSymbols; }
      if m.maxBytes > 0 && m.maxBytes < maxBytes { maxBytes := m.maxBytes; }
      phase := Begun;
      return None;
    }

    method ProduceSymbols(count: int) returns (r: Result<SyncSymbols, SyncError>)
      requires Valid()
      modifies this, enc
      ensures (State(), r) == Produce(h, old(State()), count)
    {
      hide Code;
      var n := count;
      if n > MAX_SYMBOLS_PER_MESSAGE { n := MAX_SYMBOLS_PER_MESSAGE; }
      if n > maxSymbols - symbolsOut { n := maxSymbols - symbolsOut; }
      if n <= 0 { return Err(SymbolBudgetExceeded); }
      var baseIdx := enc.nextIdx;
      var syms: seq<Symbol> := [];
      for i := 0 to n
        invariant State() == old(State()).(nextIdx := baseIdx + i)
        invariant |syms| == i && syms == StreamFrom(h, enc.elems, baseIdx, i)
      {
        var s := enc.NextSymbol();
        syms := syms + [s];
      }
      symbolsOut := symbolsOut + n;
      phase := SymbolsFlowing;
      r := Ok(SyncSymbols(txid, baseIdx, syms, false));
    }

    method FeedDecoder(symbols: seq<Symbol>)
      requires Valid()
      modifies dec
      ensures State() == old(State()).(peeler := Receive(h, old(dec.State()), symbols))
    {
      hide AddRemote;
      for i := 0 to |symbols|
        invariant State() == old(State()).(peeler := Receive(h, old(dec.State()), symbols[..i]))
      {
        assert symbols[..i + 1][..i] == symbols[..i];
        dec.AddRemoteSymbol(symbols[i]);
      }
      assert symbols[..|symbols|] == symbols;
    }

    method ApplySymbols(m: SyncSymbols) returns (err: Option<SyncError>)
      requires Valid()
      modifies this, dec
      ensures Step(State(), err) == Absorb(h, old(State()), m)
    {
      hide Drain;
      if m.txid != txid { return Some(TxIDMismatch); }
      phase := SymbolsFlowing;
      if m.index < symbolsIn { return None; }
      if m.index > symbolsIn {
        if m.index in pendingSymbols { return None; }
        if |pendingSymbols| >= MAX_PENDING_BATCHES { return Some(Desync); }
        pendingSymbols := pendingSymbols[m.index := m];
        return None;
      }
      err := ApplyInOrder(m);
    }

    method TakeBatch(m: SyncSymbols)
      requires Valid()
      modifies this, dec
      ensures State() == TakeIn(h, old(State()), m) && pendingSymbols == old(pendingSymbols)
    {
      hide Receive;
      FeedDecoder(m.symbols);
      symbolsIn := symbolsIn + |m.symbols|;
      if m.done { doneReceived := true; }
    }

    /** A batch at the stream position, and the contiguous buffered ones after it. */
    method ApplyInOrder(m: SyncSymbols) returns (err: Option<SyncError>)
      requires Valid()
      modifies this, dec
      ensures Step(State(), err) == Drain(h, old(State()), m)
    {
      hide TakeIn, Drain;
      var cur := m;
      ghost var started := State();
      while true
        invariant Drain(h, State(), cur) == Drain(h, started, m)
        decreases |pendingSymbols|
      {
        ghost var s := State();
        DrainTurn(h, s, cur);
        if symbolsIn + |cur.symbols| > maxSymbols { return Some(SymbolBudgetExceeded); }
        TakeBatch(cur);
        if symbolsIn !in pendingSymbols { break; }
        cur := pendingSymbols[symbolsIn];
        MapLess(pendingSymbols, symbolsIn);
        pendingSymbols := pendingSymbols - {symbolsIn};
      }
      return None;
    }

    method ShouldInitiatorConverge() returns (fire: bool)
      modifies this`convergeFired
      ensures fire == Ready(old(State()))
      ensures old(convergeFired) ==> !fire
      ensures !old(convergeFired) && doneReceived ==> fire
      ensures !old(convergeFired) && !doneReceived ==>
                (fire <==> symbolsIn >= 256 &&
                           forall k :: 0 <= k < |dec.diffSymbols| ==> dec.diffSymbols[k] == Symbol(0, 0, Zeros(32)))
      ensures State() == old(State()).(convergeFired := old(convergeFired) || fire)
    {
      if convergeFired { return false; }
      var zero := dec.Converged();
      fire := (zero && symbolsIn >= CONVERGE_SYMBOL_FLOOR) || doneReceived;
      if fire { convergeFired := true; }
    }

    /** The ids the peer has and we lack, ascending. */
    method NeedIDs() returns (ids: seq<Element>)
      ensures Ascending(ids) && forall e :: e in ids <==> e in AddedOf(dec.State())
    {
      var added := dec.Added();
      ids := [];
      for i := 0 to |added|
        invariant Ascending(ids) && forall e :: e in ids <==> e in added[..i]
      {
        assert added[..i + 1] == added[..i] + [added[i]];
        ids := InsertID(ids, added[i]);
      }
      assert added[..|added|] == added;
    }

    /** The local records the peer lacks, in the arbitrary order of the decoded map. */
    method RemovedRecords() returns (rs: seq<Record>, ghost ids: seq<Element>)
      ensures forall i, j :: 0 <= i < j < |ids| ==> ids[i] != ids[j]
      ensures forall e :: e in ids <==> e in RemovedOf(dec.State()) && e in records
      ensures |rs| == |ids| && forall i :: 0 <= i < |ids| ==> ids[i] in records && rs[i] == records[ids[i]]
    {
      var removed := dec.Removed();
      rs, ids := [], [];
      for i := 0 to |removed|
        invariant forall a, b :: 0 <= a < b < |ids| ==> ids[a] != ids[b]
        invariant forall e :: e in ids <==> e in removed[..i] && e in records
        invariant |rs| == |ids| && forall a :: 0 <= a < |ids| ==> ids[a] in records && rs[a] == records[ids[a]]
      {
        assert removed[..i + 1] == removed[..i] + [removed[i]];
        assert removed[i] !in removed[..i];
        if removed[i] in records { rs, ids := rs + [records[removed[i]]], ids + [removed[i]]; }
      }
      assert removed[..|removed|] == removed;
    }

    method NeedFrame(ids: seq<Element>) returns (r: Result<SyncNeed, SyncError>)
      modifies this
      ensures (State(), r) == Need(old(State()), ids)
    {
      if |ids| > MAX_NEED_IDS { return Err(TooLarge); }
      phase := Needed;
      r := Ok(SyncNeed(txid, ids));
    }

    method ApplyNeed(m: SyncNeed) returns (r: Result<(seq<Record>, seq<Element>), SyncError>)
      ensures r == Answer(State(), m)
    {
      if m.txid != txid { return Err(TxIDMismatch); }
      if |m.ids| > MAX_NEED_IDS { return Err(TooLarge); }
      var found: seq<Record>, missing: seq<Element> := [], [];
      for i := 0 to |m.ids|
        invariant (found, missing) == Resolve(records, m.ids[..i])
      {
        assert m.ids[..i + 1][..i] == m.ids[..i];
        if |m.ids[i]| == ELEMENT_SIZE {
          var id: Element := m.ids[i];
          if id in records { found := found + [records[id]]; } else { missing := missing + [id]; }
        }
      }
      assert m.ids[..|m.ids|] == m.ids;
      r := Ok((found, missing));
    }

    method BuildRecordsFrame(rs: seq<Record>, missing: seq<Element>) returns (r: Result<SyncRecords, SyncError>)
      modifies this
      ensures (State(), r) == BuildFrame(old(State()), rs, missing)
    {
      if |rs| > MAX_RECORDS_PER_MESSAGE { return Err(TooLarge); }
      var wire: seq<WireRecord> := [];
      for i := 0 to |rs|
        invariant |wire| == i && wire == ToWires(rs[..i])
        invariant State() == old(State()).(bytesOut := old(bytesOut) + WireSizes(rs[..i]))
      {
        assert rs[..i + 1][..i] == rs[..i];
        wire := wire + [ToWire(rs[i])];
        bytesOut := bytesOut + WireSize(rs[i]);
      }
      assert rs[..|rs|] == rs;
      bytesOut := bytesOut + 32 * |missing|;
      phase := Fulfilled;
      r := Ok(SyncRecords(txid, wire, missing));
    }

    method DecodeWire(ws: seq<WireRecord>) returns (r: Option<seq<Record>>, frameBytes: nat)
      ensures r == FromWires(ws)
      ensures r.Some? ==> frameBytes == WireSizes(r.value)
    {
      frameBytes := 0;
      var out: seq<Record> := [];
      for i := 0 to |ws|
        invariant FromWires(ws[..i]) == Some(out) && frameBytes == WireSizes(out) && |out| == i
      {
        var w := ws[i];
        assert ws[..i + 1][..i] == ws[..i];
        if |w.pk| != 32 || |w.ih| != 20 || |w.sig| != 64 {
          BadWireRecord(ws, i);
          return None, frameBytes;
        }
        var rec := Record(w.pk, w.kw, w.ih, w.t, w.pow, w.sig);
        assert (out + [rec])[..i] == out;
        frameBytes := frameBytes + WireSize(rec);
        out := out + [rec];
      }
      assert ws[..|ws|] == ws;
      r := Some(out);
    }

    method ApplyRecords(m: SyncRecords) returns (r: Result<seq<Record>, SyncError>)
      modifies this
      ensures (State(), r) == Accept(old(State()), m)
    {
      if m.txid != txid { return Err(TxIDMismatch); }
      if phase == Idle || phase == Begun { return Err(IllegalPhase); }
      if |m.records| > MAX_RECORDS_PER_MESSAGE { return Err(TooLarge); }
      var decoded, frameBytes := DecodeWire(m.records);
      if decoded.None? { return Err(IllegalPhase); }
      var out := decoded.value;
      frameBytes := frameBytes + 32 * |m.missing|;
      if bytesIn + frameBytes > maxBytes { return Err(BytesBudgetExceeded); }
      bytesIn := bytesIn + frameBytes;
      recordsIn := recordsIn + |out|;
      phase := Fulfilled;
      r := Ok(out);
    }

    method Finish()
      modifies this`phase
      ensures State() == old(State()).(phase := Ended)
    {
      phase := Ended;
    }
  }

  function InsertID(ids: seq<Element>, id: Element): (r: seq<Element>)
    requires Ascending(ids)
    ensures Ascending(r) && forall e :: e in r <==> e == id || e in ids
  {
    if ids == [] then [id]
    else if Less(id, ids[0]) then
      InsertFront(ids, id);
      [id] + ids
    else if id == ids[0] then ids
    else
      var r := [ids[0]] + InsertID(ids[1..], id);
      InsertLater(ids, id, InsertID(ids[1..], id));
      r
  }

  lemma InsertFront(ids: seq<Element>, id: Element)
    requires Ascending(ids) && ids != [] && Less(id, ids[0])
    ensures Ascending([id] + ids)
  {
    forall j | 0 <= j < |ids| ensures Less(id, ids[j]) {
      if j > 0 { CompareTrans(id, ids[0], ids[j]); }
    }
  }

  lemma InsertLater(ids: seq<Element>, id: Element, tail: seq<Element>)
    requires Ascending(ids) && ids != [] && !Less(id, ids[0]) && id != ids[0]
    requires Ascending(tail) && forall e :: e in tail <==> e == id || e in ids[1..]
    ensures Ascending([ids[0]] + tail)
    ensures forall e :: e in [ids[0]] + tail <==> e == id || e in ids
  {
    CompareSwap(id, ids[0]);
    CompareZero(id, ids[0]);
    assert ids == [ids[0]] + ids[1..];
    forall j | 0 <= j < |tail| ensures Less(ids[0], tail[j]) {
      assert tail[j] in tail;
    }
  }

  lemma {:induction false} BadWireRecord(ws: seq<WireRecord>, i: nat)
    requires i < |ws| && FromWire(ws[i]).None?
    ensures FromWires(ws).None?
    decreases |ws|
  {
    if i < |ws| - 1 { BadWireRecord(ws[..|ws| - 1], i); }
  }
}
