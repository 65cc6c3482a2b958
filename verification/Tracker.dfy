/** The file tracker (internal/engine/tracker.go): remaining-piece counters kept up to date event by event, and one
    completion event per file. */
module Tracker {
  import opened Collections

  /** A tracked file: its half-open piece span, the incremental counter, and whether it was reported. */
  datatype TrackedFile = TrackedFile(begin: int, end: int, remaining: int, done: bool)

  /** What the tracker sees of a piece-state change. */
  datatype PieceEvent = PieceEvent(index: int, complete: bool)

  /** The pieces of a span not done, counted afresh. */
  function Recount(pieceDone: seq<bool>, begin: int, end: int): (n: nat)
    requires 0 <= begin && end <= |pieceDone|
    decreases end - begin
  {
    if begin >= end then 0 else (if pieceDone[end - 1] then 0 else 1) + Recount(pieceDone, begin, end - 1)
  }

  ghost predicate AllDone(pieceDone: seq<bool>, begin: int, end: int)
    requires 0 <= begin && end <= |pieceDone|
  {
    forall p :: begin <= p < end ==> pieceDone[p]
  }

  lemma {:induction false} RecountZero(pieceDone: seq<bool>, begin: int, end: int)
    requires 0 <= begin && end <= |pieceDone|
    ensures Recount(pieceDone, begin, end) == 0 <==> AllDone(pieceDone, begin, end)
    decreases end - begin
  {
    if begin < end { RecountZero(pieceDone, begin, end - 1); }
  }

  /** One flipped piece moves the count of a span that holds it by one, and no other count. */
  lemma {:induction false} RecountFlip(pieceDone: seq<bool>, begin: int, end: int, index: int, value: bool)
    requires 0 <= begin && end <= |pieceDone| && 0 <= index < |pieceDone| && pieceDone[index] != value
    ensures Recount(pieceDone[index := value], begin, end) ==
              Recount(pieceDone, begin, end) + (if begin <= index < end then if value then -1 else 1 else 0)
    decreases end - begin
  {
    if begin < end { RecountFlip(pieceDone, begin, end - 1, index, value); }
  }

  /** Spans clamped to the pieces there are. */
  ghost predicate Spanned(files: seq<TrackedFile>, numPieces: nat) {
    forall i :: 0 <= i < |files| ==> 0 <= files[i].begin && files[i].end <= numPieces
  }

  /** The file covers the pieces of the span that exist. */
  ghost predicate Clamps(span: (int, int), numPieces: nat, f: TrackedFile) {
    && f.begin == (if span.0 < 0 then 0 else span.0)
    && f.end == (if span.1 > numPieces then numPieces else span.1)
  }

  /** For every unreported file the counter is the recount, and positive. */
  ghost predicate Counted(pieceDone: seq<bool>, f: TrackedFile)
    requires 0 <= f.begin && f.end <= |pieceDone|
  {
    !f.done ==> f.remaining == Recount(pieceDone, f.begin, f.end) > 0
  }

  /** What one observation makes of a file: reported on the first state with its whole span done. */
  ghost predicate ReportedAt(pieceDone: seq<bool>, before: TrackedFile, after: TrackedFile)
    requires 0 <= before.begin && before.end <= |pieceDone|
  {
    after.begin == before.begin && after.end == before.end
    && (after.done <==> before.done || AllDone(pieceDone, before.begin, before.end))
  }

  class FileTracker {
    var pieceDone: array<bool>
    var files: seq<TrackedFile>
    /** doneReplay: the indices of the files reported, in order. */
    var doneReplay: seq<nat>
    var closed: bool

    /** Counters are exact, and, as long as the tracker is open, the reported files are the done ones, each once. */
    ghost predicate Valid()
      reads this, pieceDone
    {
      && Spanned(files, pieceDone.Length)
      && (forall i :: 0 <= i < |files| ==> Counted(pieceDone[..], files[i]))
      && Distinct(doneReplay)
      && (forall i :: i in doneReplay ==> i < |files| && files[i].done)
      && (!closed ==> forall i :: 0 <= i < |files| && files[i].done ==> i in doneReplay)
    }

    method Dispatch(i: nat)
      modifies this`doneReplay
      ensures doneReplay == if closed then old(doneReplay) else old(doneReplay) + [i]
    {
      if closed { return; }
      doneReplay := doneReplay + [i];
    }

    /** Clamp the spans, then count every file against the first observed piece states. */
    constructor (spans: seq<(int, int)>, states: seq<bool>)
      ensures Valid() && !closed && fresh(pieceDone) && pieceDone[..] == states && |files| == |spans|
      ensures forall i :: 0 <= i < |spans| ==> Clamps(spans[i], |states|, files[i])
      ensures forall i :: 0 <= i < |files| ==> (files[i].done <==> AllDone(states, files[i].begin, files[i].end))
    {
      pieceDone := new bool[|states|](i requires 0 <= i < |states| => states[i]);
      files := seq(|spans|, i requires 0 <= i < |spans| =>
        TrackedFile(if spans[i].0 < 0 then 0 else spans[i].0,
          if spans[i].1 > |states| then |states| else spans[i].1, 0, false));
      doneReplay, closed := [], false;
      new;
      ghost var spanned := files;
      assert pieceDone[..] == states;
      for i := 0 to |files|
        invariant fresh(pieceDone) && pieceDone[..] == states && !closed && |files| == |spanned|
        invariant forall k :: i <= k < |files| ==> files[k] == spanned[k]
        invariant forall k :: 0 <= k < i ==> ReportedAt(states, spanned[k], files[k]) && Counted(states, files[k])
        invariant Distinct(doneReplay) && forall k :: k in doneReplay <==> 0 <= k < i && files[k].done
      {
        var remaining := CountRemaining(files[i].begin, files[i].end);
        RecountZero(states, files[i].begin, files[i].end);
        files := files[i := files[i].(remaining := remaining, done := remaining == 0)];
        if remaining == 0 { Dispatch(i); }
      }
    }

    method CountRemaining(begin: int, end: int) returns (n: nat)
      requires 0 <= begin && end <= pieceDone.Length
      ensures n == Recount(pieceDone[..], begin, end)
    {
      n := 0;
      var p := begin;
      while p < end
        invariant if begin <= end then begin <= p <= end && n == Recount(pieceDone[..], begin, p)
                  else p == begin && n == 0
        decreases end - p
      {
        if !pieceDone[p] { n := n + 1; }
        p := p + 1;
      }
    }

    /** One piece-state change. Out of range, or no change: ignored. Otherwise each file whose span holds the piece
        moves its counter, and a file is reported exactly when its span is first seen all done. */
    method HandleEvent(ev: PieceEvent)
      requires Valid()
      modifies this, pieceDone
      ensures Valid() && pieceDone == old(pieceDone) && closed == old(closed) && |files| == |old(files)|
      ensures pieceDone[..] == if 0 <= ev.index < pieceDone.Length
               then old(pieceDone[..])[ev.index := ev.complete] else old(pieceDone[..])
      ensures forall i :: 0 <= i < |files| ==> ReportedAt(pieceDone[..], old(files)[i], files[i])
      ensures old(doneReplay) <= doneReplay && (closed ==> doneReplay == old(doneReplay))
    {
      hide AllDone, Recount;
      if ev.index < 0 || ev.index >= pieceDone.Length || pieceDone[ev.index] == ev.complete {
        forall i | 0 <= i < |files| ensures ReportedAt(pieceDone[..], files[i], files[i]) {
          RecountZero(pieceDone[..], files[i].begin, files[i].end);
        }
        return;
      }
      ghost var was, before := pieceDone[..], files;
      pieceDone[ev.index] := ev.complete;
      ghost var now := pieceDone[..];
      assert now == was[ev.index := ev.complete];
      var delta := if ev.complete then -1 else 1;
      for i := 0 to |files|
        invariant |files| == |before| && pieceDone[..] == now && closed == old(closed) && pieceDone == old(pieceDone)
        invariant forall k :: i <= k < |files| ==> files[k] == before[k]
        invariant forall k :: 0 <= k < i ==> ReportedAt(now, before[k], files[k]) && Counted(now, files[k])
        invariant Distinct(doneReplay) && old(doneReplay) <= doneReplay && (closed ==> doneReplay == old(doneReplay))
        invariant forall k :: k in doneReplay ==> k < |files| && files[k].done
        invariant !closed ==> forall k :: 0 <= k < |files| && files[k].done ==> k in doneReplay
      {
        var f := files[i];
        RecountZero(now, f.begin, f.end);
        RecountFlip(was, f.begin, f.end, ev.index, ev.complete);
        if f.done || ev.index < f.begin || ev.index >= f.end { continue; }
        files := files[i := f.(remaining := f.remaining + delta, done := f.remaining + delta == 0)];
        if f.remaining + delta == 0 { Dispatch(i); }
      }
    }

    method Close()
      requires Valid()
      modifies this`closed
      ensures Valid() && closed
    {
      closed := true;
    }
  }

  // ---- over any sequence of piece flips ----

  /** The piece states observed first and after each event. */
  function StateAfter(states: seq<bool>, evs: seq<PieceEvent>): (r: seq<bool>)
    ensures |r| == |states|
  {
    if evs == [] then states
    else
      var before := StateAfter(states, evs[..|evs| - 1]);
      var ev := evs[|evs| - 1];
      if 0 <= ev.index < |states| then before[ev.index := ev.complete] else before
  }

  /** A piece is as its last event left it, or as first observed. */
  lemma {:induction false} LastEventCounts(states: seq<bool>, evs: seq<PieceEvent>, i: nat)
    requires i < |states|
    ensures (forall t :: 0 <= t < |evs| ==> evs[t].index != i) ==> StateAfter(states, evs)[i] == states[i]
    ensures forall t :: 0 <= t < |evs| && evs[t].index == i && (forall u :: t < u < |evs| ==> evs[u].index != i) ==>
              StateAfter(states, evs)[i] == evs[t].complete
    decreases |evs|
  {
    if evs != [] { LastEventCounts(states, evs[..|evs| - 1], i); }
  }

  /** The span was all done after t events. */
  ghost predicate DoneAt(states: seq<bool>, evs: seq<PieceEvent>, t: nat, begin: int, end: int)
    requires 0 <= begin && end <= |states| && t <= |evs|
  {
    AllDone(StateAfter(states, evs[..t]), begin, end)
  }

  ghost predicate EverAllDone(states: seq<bool>, evs: seq<PieceEvent>, begin: int, end: int)
    requires 0 <= begin && end <= |states|
  {
    exists t: nat :: t <= |evs| && DoneAt(states, evs, t, begin, end)
  }

  lemma DoneAtPrefix(states: seq<bool>, evs: seq<PieceEvent>, ev: PieceEvent, t: nat, begin: int, end: int)
    requires 0 <= begin && end <= |states| && t <= |evs|
    ensures DoneAt(states, evs + [ev], t, begin, end) <==> DoneAt(states, evs, t, begin, end)
  {
    assert (evs + [ev])[..t] == evs[..t];
  }

  lemma EverIntro(states: seq<bool>, evs: seq<PieceEvent>, t: nat, begin: int, end: int)
    requires 0 <= begin && end <= |states| && t <= |evs| && DoneAt(states, evs, t, begin, end)
    ensures EverAllDone(states, evs, begin, end)
  {
  }

  lemma EverWitness(states: seq<bool>, evs: seq<PieceEvent>, begin: int, end: int) returns (t: nat)
    requires 0 <= begin && end <= |states| && EverAllDone(states, evs, begin, end)
    ensures t <= |evs| && DoneAt(states, evs, t, begin, end)
  {
    hide DoneAt;
    t :| t <= |evs| && DoneAt(states, evs, t, begin, end);
  }

  lemma DoneAtEnd(states: seq<bool>, evs: seq<PieceEvent>, begin: int, end: int)
    requires 0 <= begin && end <= |states|
    ensures DoneAt(states, evs, |evs|, begin, end) <==> AllDone(StateAfter(states, evs), begin, end)
  {
    assert evs[..|evs|] == evs;
  }

  lemma EverAllDoneNext(states: seq<bool>, evs: seq<PieceEvent>, ev: PieceEvent, begin: int, end: int)
    requires 0 <= begin && end <= |states|
    ensures EverAllDone(states, evs + [ev], begin, end) <==>
              EverAllDone(states, evs, begin, end) || AllDone(StateAfter(states, evs + [ev]), begin, end)
  {
    hide EverAllDone, DoneAt, StateAfter, AllDone;
    var more := evs + [ev];
    DoneAtEnd(states, more, begin, end);
    if EverAllDone(states, evs, begin, end) {
      var t := EverWitness(states, evs, begin, end);
      DoneAtPrefix(states, evs, ev, t, begin, end);
      EverIntro(states, more, t, begin, end);
    }
    if DoneAt(states, more, |more|, begin, end) { EverIntro(states, more, |more|, begin, end); }
    if EverAllDone(states, more, begin, end) {
      var t := EverWitness(states, more, begin, end);
      if t <= |evs| {
        DoneAtPrefix(states, evs, ev, t, begin, end);
        EverIntro(states, evs, t, begin, end);
      }
    }
  }

  /** A tracker fed any events while open: at the end the reported files are exactly those whose whole span was done in
      some observed state, each reported once; since this holds after every event, a file is reported exactly at the
      first observed state with all its pieces done, and unreported files hold exact positive counters. */
  method RunTracker(spans: seq<(int, int)>, states: seq<bool>, evs: seq<PieceEvent>) returns (ft: FileTracker)
    ensures fresh(ft) && ft.Valid() && ft.pieceDone[..] == StateAfter(states, evs) && |ft.files| == |spans|
    ensures Spanned(ft.files, |states|) && Distinct(ft.doneReplay)
    ensures forall i :: 0 <= i < |spans| ==> Clamps(spans[i], |states|, ft.files[i])
    ensures forall i :: 0 <= i < |spans| ==>
              (i in ft.doneReplay <==> EverAllDone(states, evs, ft.files[i].begin, ft.files[i].end))
  {
    ft := new FileTracker(spans, states);
    forall i | 0 <= i < |spans|
      ensures ft.files[i].done <==> EverAllDone(states, evs[..0], ft.files[i].begin, ft.files[i].end)
    {
      assert evs[..0][..0] == [];
      assert DoneAt(states, evs[..0], 0, ft.files[i].begin, ft.files[i].end) <==> ft.files[i].done;
    }
    for n := 0 to |evs|
      invariant fresh(ft) && fresh(ft.pieceDone) && ft.Valid() && !ft.closed && |ft.files| == |spans|
      invariant ft.pieceDone[..] == StateAfter(states, evs[..n])
      invariant forall i :: 0 <= i < |spans| ==> Clamps(spans[i], |states|, ft.files[i])
      invariant forall i :: 0 <= i < |spans| ==>
                  (ft.files[i].done <==> EverAllDone(states, evs[..n], ft.files[i].begin, ft.files[i].end))
    {
      assert evs[..n + 1] == evs[..n] + [evs[n]] && evs[..n + 1][..n] == evs[..n];
      ghost var before := ft.files;
      ft.HandleEvent(evs[n]);
      forall i | 0 <= i < |spans|
        ensures ft.files[i].done <==> EverAllDone(states, evs[..n + 1], ft.files[i].begin, ft.files[i].end)
      {
        assert ReportedAt(ft.pieceDone[..], before[i], ft.files[i]);
        EverAllDoneNext(states, evs[..n], evs[n], before[i].begin, before[i].end);
      }
    }
    assert evs[..|evs|] == evs;
  }
}
