/** Budgets and the once-guard over arbitrary runs of a session, whatever the peer sends. */
module SyncRuns {
  import opened Bytes
  import opened Collections
  import opened Records
  import opened Symbols
  import opened Riblt
  import opened RibltProofs
  import opened Sync
  import opened SyncProofs

  /** One call on a session after it has begun. */
  datatype Event =
    | Producing(count: int)
    | Batch(batch: SyncSymbols)
    | Checking
    | Requesting(ids: seq<Element>)
    | Replying(rs: seq<Record>, missing: seq<Element>)
    | Delivery(records: SyncRecords)
    | Finishing

  ghost function After(h: Hashing, s: Session, e: Event): Session {
    match e
    case Producing(count) => Produce(h, s, count).0
    case Batch(batch) => Absorb(h, s, batch).next
    case Checking => s.(convergeFired := s.convergeFired || Ready(s))
    case Requesting(ids) => Need(s, ids).0
    case Replying(rs, missing) => BuildFrame(s, rs, missing).0
    case Delivery(records) => Accept(s, records).0
    case Finishing => s.(phase := Ended)
  }

  ghost function Run(h: Hashing, s: Session, es: seq<Event>): Session {
    if es == [] then s else After(h, Run(h, s, es[..|es| - 1]), es[|es| - 1])
  }

  /** How often the initiator is told to converge. */
  ghost function Fires(h: Hashing, s: Session, es: seq<Event>): nat {
    if es == [] then 0
    else Fires(h, s, es[..|es| - 1]) + if es[|es| - 1].Checking? && Ready(Run(h, s, es[..|es| - 1])) then 1 else 0
  }

  /** The decoder has taken in some symbols, as many as counted. */
  ghost predicate Fed(h: Hashing, s: Session) {
    exists xs :: FedWith(h, s, xs)
  }

  ghost predicate FedWith(h: Hashing, s: Session, xs: seq<Symbol>) {
    |xs| == s.symbolsIn && s.peeler == Receive(h, Fresh(s.elems), xs)
  }

  ghost predicate Budgeted(h: Hashing, s: Session) {
    && s.nextIdx == s.symbolsOut <= s.maxSymbols <= 2000
    && s.symbolsIn <= s.maxSymbols
    && s.bytesIn <= s.maxBytes <= 1_048_576
    && |s.pending| <= 32
    && Fed(h, s)
  }

  /** A session as StartSync or onSyncBegin leaves it. */
  ghost predicate Opened(c: Crypto, s: Session) {
    exists txid, role, rs, begin :: OpenedBy(c, s, txid, role, rs, begin)
  }

  ghost predicate OpenedBy(c: Crypto, s: Session, txid: nat, role: Role, rs: seq<Record>, begin: SyncBegin) {
    var made := NewSession(c, txid, role, rs);
    s == made.(phase := Begun) || s == Negotiate(made, begin).next
  }

  lemma OpenedBlank(c: Crypto, s: Session)
    requires Opened(c, s)
    ensures s.nextIdx == 0 && s.symbolsOut == 0 && s.symbolsIn == 0 && s.bytesIn == 0
             && s.pending == map[] && !s.convergeFired
    ensures s.maxSymbols <= DEFAULT_MAX_SYMBOLS && s.maxBytes <= DEFAULT_MAX_BYTES && s.peeler == Fresh(s.elems)
  {
    hide NewSession;
    var txid, role, rs, begin :| OpenedBy(c, s, txid, role, rs, begin);
    NewSessionBlank(c, txid, role, rs);
  }

  lemma NewSessionBlank(c: Crypto, txid: nat, role: Role, rs: seq<Record>)
    ensures var s := NewSession(c, txid, role, rs);
            s == Empty(txid, role).(records := s.records, elems := s.elems, peeler := Fresh(s.elems))
  {
    NewSessionSeeded(c, txid, role, rs);
  }

  lemma OpenedBudgeted(c: Crypto, h: Hashing, s: Session)
    requires Opened(c, s)
    ensures Budgeted(h, s)
  {
    hide Opened;
    OpenedBlank(c, s);
    assert FedWith(h, s, []);
  }

  lemma TakeInFed(h: Hashing, s: Session, m: SyncSymbols)
    requires Fed(h, s)
    ensures Fed(h, TakeIn(h, s, m))
  {
    hide Receive;
    var xs :| FedWith(h, s, xs);
    ReceiveJoins(h, Fresh(s.elems), xs, m.symbols);
    assert FedWith(h, TakeIn(h, s, m), xs + m.symbols);
  }

  lemma FedSame(h: Hashing, s: Session, t: Session)
    requires Fed(h, s) && t.symbolsIn == s.symbolsIn && t.peeler == s.peeler && t.elems == s.elems
    ensures Fed(h, t)
  {
    hide Receive;
    var xs :| FedWith(h, s, xs);
    assert FedWith(h, t, xs);
  }

  lemma {:induction false} DrainBudgeted(h: Hashing, s: Session, m: SyncSymbols)
    requires Budgeted(h, s)
    ensures Budgeted(h, Drain(h, s, m).next)
    decreases |s.pending|
  {
    hide Drain, Fed, Receive;
    DrainTurn(h, s, m);
    if s.symbolsIn + |m.symbols| <= s.maxSymbols {
      var s1 := TakeIn(h, s, m);
      TakeInFed(h, s, m);
      if s1.symbolsIn in s1.pending {
        var s2 := s1.(pending := s1.pending - {s1.symbolsIn});
        MapLess(s1.pending, s1.symbolsIn);
        FedSame(h, s1, s2);
        DrainBudgeted(h, s2, s1.pending[s1.symbolsIn]);
      }
    }
  }

  lemma AbsorbBudgeted(h: Hashing, s: Session, m: SyncSymbols)
    requires Budgeted(h, s)
    ensures Budgeted(h, Absorb(h, s, m).next)
  {
    hide Drain, Fed;
    var f := s.(phase := SymbolsFlowing);
    FedSame(h, s, f);
    DrainBudgeted(h, f, m);
    FedSame(h, s, f.(pending := s.pending[m.index := m]));
    if m.index !in s.pending { MapMore(s.pending, m.index, m); }
  }

  lemma AfterBudgeted(h: Hashing, s: Session, e: Event)
    requires Budgeted(h, s)
    ensures Budgeted(h, After(h, s, e))
  {
    hide Absorb, Fed, FromWires;
    if e.Batch? {
      AbsorbBudgeted(h, s, e.batch);
    } else {
      FedSame(h, s, After(h, s, e));
    }
  }

  /** On every run, against any peer: symbols sent and taken in stay within the symbol budget, bytes taken in
      within the byte budget, at most 32 batches are buffered, and the initiator is told to converge at most once. */
  lemma {:induction false} RunBudgeted(c: Crypto, h: Hashing, s: Session, es: seq<Event>)
    requires Opened(c, s)
    ensures Budgeted(h, Run(h, s, es))
    ensures Fires(h, s, es) <= 1 && (Fires(h, s, es) == 1 <==> Run(h, s, es).convergeFired)
    decreases |es|
  {
    hide Budgeted, Opened, Produce, Absorb, Accept, BuildFrame, Need;
    if es == [] {
      OpenedBudgeted(c, h, s);
      OpenedBlank(c, s);
    } else {
      RunBudgeted(c, h, s, es[..|es| - 1]);
      AfterBudgeted(h, Run(h, s, es[..|es| - 1]), es[|es| - 1]);
      OnlyCheckingFires(h, Run(h, s, es[..|es| - 1]), es[|es| - 1]);
    }
  }

  lemma {:induction false} DrainQuiet(h: Hashing, s: Session, m: SyncSymbols)
    ensures Drain(h, s, m).next.convergeFired == s.convergeFired
    decreases |s.pending|
  {
    hide Drain, Receive;
    DrainTurn(h, s, m);
    var s1 := TakeIn(h, s, m);
    if s1.symbolsIn in s1.pending {
      MapLess(s1.pending, s1.symbolsIn);
      DrainQuiet(h, s1.(pending := s1.pending - {s1.symbolsIn}), s1.pending[s1.symbolsIn]);
    }
  }

  lemma OnlyCheckingFires(h: Hashing, s: Session, e: Event)
    ensures After(h, s, e).convergeFired == (s.convergeFired || (e.Checking? && Ready(s)))
  {
    hide Drain, FromWires;
    if e.Batch? { DrainQuiet(h, s.(phase := SymbolsFlowing), e.batch); }
  }

  // ---- when the initiator is told ----

  /** What makes it time to finalize: every residual is zero and 256 symbols or more were taken in, or the peer's last
      batch was. */
  ghost predicate Due(s: Session) {
    ((forall k :: 0 <= k < |s.peeler.diff| ==> s.peeler.diff[k] == Symbol(0, 0, Zeros(32))) && s.symbolsIn >= 256)
    || s.doneReceived
  }

  /** Event k asks whether to finalize, at a moment when it is due. */
  ghost predicate DueAt(h: Hashing, s: Session, es: seq<Event>, k: nat)
    requires k < |es|
  {
    es[k].Checking? && Due(Run(h, s, es[..k]))
  }

  lemma DueMeans(s: Session)
    ensures Ready(s) <==> !s.convergeFired && Due(s)
  {
  }

  lemma {:induction false} FiredMeans(h: Hashing, s: Session, es: seq<Event>)
    requires !s.convergeFired
    ensures Run(h, s, es).convergeFired <==> exists k :: 0 <= k < |es| && DueAt(h, s, es, k)
    decreases |es|
  {
    hide Ready, Due, After;
    if es != [] {
      var n := |es| - 1;
      var front := es[..n];
      FiredMeans(h, s, front);
      OnlyCheckingFires(h, Run(h, s, front), es[n]);
      DueMeans(Run(h, s, front));
      forall k | 0 <= k < n ensures DueAt(h, s, es, k) <==> DueAt(h, s, front, k) {
        assert front[..k] == es[..k];
      }
      assert DueAt(h, s, es, n) <==> es[n].Checking? && Due(Run(h, s, front));
    }
  }

  /** On every run, against any peer, the initiator is told to finalize exactly at the first check at which it is due:
      that check, and no other, raises the flag. */
  lemma FiresExactly(c: Crypto, h: Hashing, s: Session, es: seq<Event>, k: nat)
    requires Opened(c, s) && k < |es|
    ensures !Run(h, s, es[..k]).convergeFired && Run(h, s, es[..k + 1]).convergeFired <==>
              DueAt(h, s, es, k) && forall j :: 0 <= j < k ==> !DueAt(h, s, es, j)
  {
    hide Ready, Due, After, Run, Opened;
    OpenedBlank(c, s);
    FiredBefore(h, s, es, k);
    FiredBefore(h, s, es, k + 1);
  }

  lemma FiredBefore(h: Hashing, s: Session, es: seq<Event>, n: nat)
    requires !s.convergeFired && n <= |es|
    ensures Run(h, s, es[..n]).convergeFired <==> exists j :: 0 <= j < n && DueAt(h, s, es, j)
  {
    hide Due, Run;
    FiredMeans(h, s, es[..n]);
    forall j | 0 <= j < n ensures DueAt(h, s, es, j) <==> DueAt(h, s, es[..n], j) {
      assert es[..n][..j] == es[..j];
    }
    if j :| 0 <= j < n && DueAt(h, s, es, j) { assert DueAt(h, s, es[..n], j); }
    if j :| 0 <= j < n && DueAt(h, s, es[..n], j) { assert DueAt(h, s, es, j); }
  }

  /** Whatever was sent, the decoder of a running session keeps the residual invariant, and its books agree. */
  lemma RunDecodes(c: Crypto, h: Hashing, s: Session, es: seq<Event>)
    requires Opened(c, s)
    ensures var t := Run(h, s, es);
            exists xs :: |xs| == t.symbolsIn && Residual(h, t.peeler, xs) && Booked(t.peeler) && Settled(h, t.peeler)
  {
    hide Run, Opened, Residual, Booked, Settled, Receive;
    RunBudgeted(c, h, s, es);
    var t := Run(h, s, es);
    var xs :| FedWith(h, t, xs);
    ReceiveInvariant(h, t.elems, xs);
  }
}
