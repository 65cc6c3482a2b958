/** When a source that passes VerifyFingerprint answers every query completely. The fingerprint says what the leaves
    hold; whether Find gets to them depends on interior pages that nothing authenticates. */
module Completeness {
  import opened Wrappers
  import opened Bytes
  import opened Records
  import opened Pages
  import opened Trees
  import opened Layout
  import opened Read
  import opened SnaggProofs
  import opened SnaggTheorems

  // ---- the leaves a walk gets to ----

  /** The leaves under piece idx whose ranges meet [lo, hi), in walk order; with no bounds, all of them. */
  function Collected(pieces: seq<PieceView>, idx: int, lo: bytes, hi: bytes): seq<int>
    decreases PiecesLeft(pieces, idx), 1, 0
  {
    match At(pieces, idx)
    case LeafPiece(_) => [idx]
    case InnerPiece(_, Ok(cs)) => CollectedFrom(pieces, idx, cs, 0, idx, lo, hi)
    case _ => []
  }

  function CollectedFrom(pieces: seq<PieceView>, idx: int, cs: seq<InteriorChild>, i: nat, prev: int, lo: bytes,
                         hi: bytes): seq<int>
    requires 0 <= idx < |pieces| && idx <= prev && i <= |cs|
    decreases PiecesLeft(pieces, idx), 0, |cs| - i
  {
    if i == |cs| || cs[i].index <= prev || cs[i].index >= |pieces| - 1 then []
    else
      (if RangeOverlapsPrefix(cs[i].separator, UpperBound(cs, i), lo, hi)
        then Collected(pieces, cs[i].index, lo, hi) else [])
      + CollectedFrom(pieces, idx, cs, i + 1, cs[i].index, lo, hi)
  }

  /** Nothing is pruned for the empty prefix. */
  lemma NothingPruned(lower: bytes, upper: bytes)
    ensures RangeOverlapsPrefix(lower, upper, [], [])
  {
  }

  /** Where the unpruned walk succeeds so does every pruned one, from any smaller visited set. */
  lemma {:induction false} WalkCollects(pieces: seq<PieceView>, idx: int, lo: bytes, hi: bytes, visited: seq<int>,
                                        leaves: seq<int>,
                                        fewer: seq<int>, others: seq<int>)
    requires Walk(pieces, idx, [], [], visited, leaves).error.None? && forall v :: v in fewer ==> v in visited
    ensures var w, w' := Walk(pieces, idx, [], [], visited, leaves), Walk(pieces, idx, lo, hi, fewer, others);
            && w'.error.None? && w'.leaves == others + Collected(pieces, idx, lo, hi)
            && (forall v :: v in visited || v in w'.visited ==> v in w.visited)
    decreases PiecesLeft(pieces, idx), 1, 0
  {
    hide RangeOverlapsPrefix;
    match At(pieces, idx)
    case InnerPiece(_, Ok(cs)) =>
      WalkChildrenCollect(pieces, idx, cs, 0, idx, lo, hi, visited + [idx], leaves, fewer + [idx], others);
    case _ =>
  }

  lemma {:induction false} WalkChildrenCollect(pieces: seq<PieceView>, idx: int, cs: seq<InteriorChild>, i: nat,
                                               prev: int,
                                               lo: bytes, hi: bytes, visited: seq<int>, leaves: seq<int>,
                                               fewer: seq<int>, others: seq<int>)
    requires 0 <= idx < |pieces| && idx <= prev && i <= |cs| && forall v :: v in fewer ==> v in visited
    requires WalkChildren(pieces, idx, cs, i, prev, [], [], visited, leaves).error.None?
    ensures var w := WalkChildren(pieces, idx, cs, i, prev, [], [], visited, leaves);
            var w' := WalkChildren(pieces, idx, cs, i, prev, lo, hi, fewer, others);
            && w'.error.None? && w'.leaves == others + CollectedFrom(pieces, idx, cs, i, prev, lo, hi)
            && (forall v :: v in visited || v in w'.visited ==> v in w.visited)
    decreases PiecesLeft(pieces, idx), 0, |cs| - i
  {
    hide RangeOverlapsPrefix, Walk, Collected;
    if i < |cs| {
      var ci := cs[i].index;
      NothingPruned(cs[i].separator, UpperBound(cs, i));
      WalkCollects(pieces, ci, lo, hi, visited, leaves, fewer, others);
      var w := Walk(pieces, ci, [], [], visited, leaves);
      if RangeOverlapsPrefix(cs[i].separator, UpperBound(cs, i), lo, hi) {
        var w' := Walk(pieces, ci, lo, hi, fewer, others);
        WalkChildrenCollect(pieces, idx, cs, i + 1, ci, lo, hi, w.visited, w.leaves, w'.visited, w'.leaves);
      } else {
        WalkChildrenCollect(pieces, idx, cs, i + 1, ci, lo, hi, w.visited, w.leaves, fewer, others);
      }
    }
  }

  // ---- what those leaves hold ----

  /** The records of the given leaf pieces, one leaf after the other. */
  function RecordsIn(pieces: seq<PieceView>, leaves: seq<int>): seq<Record> {
    if leaves == [] then []
    else (match LeafOf(At(pieces, leaves[0])) case Ok(rs) => rs case Err(_) => []) + RecordsIn(pieces, leaves[1..])
  }

  lemma {:induction false} RecordsInAppend(pieces: seq<PieceView>, a: seq<int>, b: seq<int>)
    ensures RecordsIn(pieces, a + b) == RecordsIn(pieces, a) + RecordsIn(pieces, b)
    decreases |a|
  {
    hide LeafOf, At;
    if a == [] {
      assert a + b == b;
    } else {
      RecordsInAppend(pieces, a[1..], b);
      assert (a + b)[1..] == a[1..] + b;
    }
  }

  ghost predicate AllReadable(pieces: seq<PieceView>, leaves: seq<int>) {
    forall l :: l in leaves ==> LeafOf(At(pieces, l)).Ok?
  }

  lemma {:induction false} ReadableHits(c: Crypto, pieces: seq<PieceView>, minPoWBits: nat, prefix: bytes,
                                        leaves: seq<int>)
    requires AllReadable(pieces, leaves)
    ensures LeafHits(c, pieces, minPoWBits, prefix, leaves)
             == Ok(Hits(c, minPoWBits, prefix, RecordsIn(pieces, leaves)))
    decreases |leaves|
  {
    hide LeafOf, At, IsHit;
    if leaves != [] {
      ReadableHits(c, pieces, minPoWBits, prefix, leaves[1..]);
      HitsAppend(c, minPoWBits, prefix, LeafOf(At(pieces, leaves[0])).value, RecordsIn(pieces, leaves[1..]));
    }
  }

  lemma {:induction false} CollectedAreLeaves(pieces: seq<PieceView>, idx: int, lo: bytes, hi: bytes)
    ensures forall l :: l in Collected(pieces, idx, lo, hi) ==>
              At(pieces, l).LeafPiece? && (l == idx || idx < l < |pieces| - 1)
    decreases PiecesLeft(pieces, idx), 1, 0
  {
    match At(pieces, idx)
    case InnerPiece(_, Ok(cs)) => CollectedFromAreLeaves(pieces, idx, cs, 0, idx, lo, hi);
    case _ =>
  }

  lemma {:induction false} CollectedFromAreLeaves(pieces: seq<PieceView>, idx: int, cs: seq<InteriorChild>, i: nat,
                                                  prev: int,
                                                  lo: bytes, hi: bytes)
    requires 0 <= idx < |pieces| && idx <= prev && i <= |cs|
    ensures forall l :: l in CollectedFrom(pieces, idx, cs, i, prev, lo, hi) ==>
             At(pieces, l).LeafPiece? && idx < l < |pieces| - 1
    decreases PiecesLeft(pieces, idx), 0, |cs| - i
  {
    hide RangeOverlapsPrefix, Collected;
    if i < |cs| && prev < cs[i].index < |pieces| - 1 {
      CollectedAreLeaves(pieces, cs[i].index, lo, hi);
      CollectedFromAreLeaves(pieces, idx, cs, i + 1, cs[i].index, lo, hi);
    }
  }

  lemma {:induction false} PassedLeavesReadable(pieces: seq<PieceView>, i: nat, l: int)
    requires LeafRecords(pieces, i).Some? && i <= l < |pieces| - 1 && pieces[l].LeafPiece?
    ensures LeafOf(At(pieces, l)).Ok?
    decreases |pieces| - i
  {
    if i < l { PassedLeavesReadable(pieces, i + 1, l); }
  }

  lemma CollectedReadable(pieces: seq<PieceView>, lo: bytes, hi: bytes)
    requires LeafRecords(pieces, 0).Some? && At(pieces, 0).InnerPiece?
    ensures AllReadable(pieces, Collected(pieces, 0, lo, hi))
  {
    hide LeafRecords, LeafOf, Collected;
    CollectedAreLeaves(pieces, 0, lo, hi);
    forall l | l in Collected(pieces, 0, lo, hi) ensures LeafOf(At(pieces, l)).Ok? {
      PassedLeavesReadable(pieces, 0, l);
    }
  }

  /** The records under piece idx that a query for the prefix gets to. */
  function Got(pieces: seq<PieceView>, idx: int, prefix: bytes): seq<Record> {
    RecordsIn(pieces, Collected(pieces, idx, prefix, NextPrefix(prefix)))
  }

  function GotFrom(pieces: seq<PieceView>, idx: int, cs: seq<InteriorChild>, i: nat, prev: int,
                   prefix: bytes): seq<Record>
    requires 0 <= idx < |pieces| && idx <= prev && i <= |cs|
  {
    RecordsIn(pieces, CollectedFrom(pieces, idx, cs, i, prev, prefix, NextPrefix(prefix)))
  }

  lemma GotFromNext(pieces: seq<PieceView>, idx: int, cs: seq<InteriorChild>, i: nat, prev: int, prefix: bytes)
    requires 0 <= idx < |pieces| && idx <= prev && i < |cs| && prev < cs[i].index < |pieces| - 1
    ensures GotFrom(pieces, idx, cs, i, prev, prefix)
         == (if RangeOverlapsPrefix(cs[i].separator, UpperBound(cs, i), prefix, NextPrefix(prefix))
             then Got(pieces, cs[i].index, prefix) else [])
            + GotFrom(pieces, idx, cs, i + 1, cs[i].index, prefix)
  {
    hide RangeOverlapsPrefix, Collected, LeafOf;
    var hi := NextPrefix(prefix);
    var first := if RangeOverlapsPrefix(cs[i].separator, UpperBound(cs, i), prefix, hi)
                 then Collected(pieces, cs[i].index, prefix, hi) else [];
    RecordsInAppend(pieces, first, CollectedFrom(pieces, idx, cs, i + 1, cs[i].index, prefix, hi));
  }

  /** A query that gets through: the hits among the records it gets to. */
  lemma FindGets(c: Crypto, src: PageSource, t: Trailer, prefix: bytes)
    requires var pieces := View(src);
             At(pieces, 0).InnerPiece? && At(pieces, 0).isRoot && LeafRecords(pieces, 0).Some?
             && Walk(pieces, 0, [], [], [], []).error.None?
    ensures FindIn(c, View(src), t, prefix) == Ok(Hits(c, t.minPoWBits, prefix, Got(View(src), 0, prefix)))
  {
    hide Walk, Collected, View, At, LeafHits, LeafRecords, IsHit, RecordsIn;
    var pieces, hi := View(src), NextPrefix(prefix);
    WalkCollects(pieces, 0, prefix, hi, [], [], [], []);
    var leaves := Collected(pieces, 0, prefix, hi);
    assert [] + leaves == leaves;
    CollectedReadable(pieces, prefix, hi);
    ReadableHits(c, pieces, t.minPoWBits, prefix, leaves);
    FindAuthentic(c, src, t, prefix);
  }

  // ---- separators that bound what lies under them ----

  /** A query for a record's own keyword is not pruned at this range, for any of the records that verify. For the range
      [lower, upper) of a child that says: kw < upper, and no keyword with its prefix is below lower. */
  ghost predicate Bounds(c: Crypto, minPoWBits: nat, lower: bytes, upper: bytes, rs: seq<Record>) {
    forall r :: r in rs && IsHit(c, minPoWBits, [], r) ==> RangeOverlapsPrefix(lower, upper, r.kw, NextPrefix(r.kw))
  }

  /** Every child range under piece idx bounds the records under that child. */
  ghost predicate Enclosed(c: Crypto, minPoWBits: nat, pieces: seq<PieceView>, idx: int)
    decreases PiecesLeft(pieces, idx), 1, 0
  {
    match At(pieces, idx)
    case InnerPiece(_, Ok(cs)) => EnclosedFrom(c, minPoWBits, pieces, idx, cs, 0, idx)
    case _ => true
  }

  ghost predicate EnclosedFrom(c: Crypto, minPoWBits: nat, pieces: seq<PieceView>, idx: int, cs: seq<InteriorChild>,
                               i: nat, prev: int)
    requires 0 <= idx < |pieces| && idx <= prev && i <= |cs|
    decreases PiecesLeft(pieces, idx), 0, |cs| - i
  {
    i < |cs| && prev < cs[i].index < |pieces| - 1 ==>
      && Bounds(c, minPoWBits, cs[i].separator, UpperBound(cs, i), Got(pieces, cs[i].index, []))
      && Enclosed(c, minPoWBits, pieces, cs[i].index)
      && EnclosedFrom(c, minPoWBits, pieces, idx, cs, i + 1, cs[i].index)
  }

  /** A range that meets a keyword's own prefix range meets that of every prefix of the keyword. */
  lemma OverlapWidens(lower: bytes, upper: bytes, p: bytes, kw: bytes)
    requires p <= kw && RangeOverlapsPrefix(lower, upper, kw, NextPrefix(kw))
    ensures RangeOverlapsPrefix(lower, upper, p, NextPrefix(p))
  {
    hide NextPrefix;
    PrefixLeq(p, kw);
    if upper != [] && Leq(upper, p) { CompareTrans(upper, p, kw); }
    if NextPrefix(p) != [] && lower != [] && Leq(NextPrefix(p), lower) {
      NextPrefixShrinks(p, kw);
      CompareTrans(NextPrefix(kw), NextPrefix(p), lower);
    }
  }

  /** A longer prefix ends no later. */
  lemma {:induction false} NextPrefixShrinks(p: bytes, kw: bytes)
    requires p <= kw && NextPrefix(p) != []
    ensures NextPrefix(kw) != [] && Leq(NextPrefix(kw), NextPrefix(p))
    decreases |kw|
  {
    if p == kw {
      CompareRefl(NextPrefix(p));
    } else {
      var init := kw[..|kw| - 1];
      assert p <= init;
      NextPrefixShrinks(p, init);
      if kw[|kw| - 1] < 255 {
        PrefixRange(p, kw);
        LastRaised(p, kw);
      }
    }
  }

  /** Raising the last byte of a longer string stays below the prefix's successor. */
  lemma LastRaised(p: bytes, kw: bytes)
    requires p <= kw && p != kw && kw[|kw| - 1] < 255
    ensures Leq(NextPrefix(kw), NextPrefix(p)) || NextPrefix(p) == []
  {
    var next := NextPrefix(kw);
    assert next == kw[..|kw| - 1] + [kw[|kw| - 1] + 1];
    assert p <= next;
    PrefixRange(p, next);
  }

  /** Of records that all verify under a pruned range, none has the prefix. */
  lemma PrunedHasNoHits(c: Crypto, minPoWBits: nat, lower: bytes, upper: bytes, rs: seq<Record>, prefix: bytes)
    requires Bounds(c, minPoWBits, lower, upper, rs) && !RangeOverlapsPrefix(lower, upper, prefix, NextPrefix(prefix))
    ensures Hits(c, minPoWBits, prefix, rs) == []
  {
    hide RangeOverlapsPrefix, NextPrefix, Verify, VerifyPoW, Hits;
    var hits := Hits(c, minPoWBits, prefix, rs);
    if hits != [] {
      var r := hits[0];
      HitsMembers(c, minPoWBits, prefix, rs, r);
      OverlapWidens(lower, upper, prefix, r.kw);
    }
  }

  /** Where the ranges bound what is under them, pruning loses no hit. */
  lemma {:induction false} PruningLosesNothing(c: Crypto, minPoWBits: nat, pieces: seq<PieceView>, idx: int,
                                               prefix: bytes)
    requires Enclosed(c, minPoWBits, pieces, idx)
    ensures Hits(c, minPoWBits, prefix, Got(pieces, idx, prefix)) == Hits(c, minPoWBits, prefix, Got(pieces, idx, []))
    decreases PiecesLeft(pieces, idx), 1, 0
  {
    hide Hits, NextPrefix;
    match At(pieces, idx)
    case InnerPiece(_, Ok(cs)) => PruningLosesNothingFrom(c, minPoWBits, pieces, idx, cs, 0, idx, prefix);
    case _ =>
  }

  lemma {:induction false} PruningLosesNothingFrom(c: Crypto, minPoWBits: nat, pieces: seq<PieceView>, idx: int,
                                                   cs: seq<InteriorChild>, i: nat, prev: int, prefix: bytes)
    requires 0 <= idx < |pieces| && idx <= prev && i <= |cs| && EnclosedFrom(c, minPoWBits, pieces, idx, cs, i, prev)
    ensures Hits(c, minPoWBits, prefix, GotFrom(pieces, idx, cs, i, prev, prefix))
         == Hits(c, minPoWBits, prefix, GotFrom(pieces, idx, cs, i, prev, []))
    decreases PiecesLeft(pieces, idx), 0, |cs| - i
  {
    hide Hits, RangeOverlapsPrefix, Got, Bounds, Enclosed, Verify, VerifyPoW;
    if i < |cs| && prev < cs[i].index < |pieces| - 1 {
      hide GotFrom;
      var ci, lower, upper := cs[i].index, cs[i].separator, UpperBound(cs, i);
      var first := if RangeOverlapsPrefix(lower, upper, prefix, NextPrefix(prefix))
        then Got(pieces, ci, prefix) else [];
      GotFromNext(pieces, idx, cs, i, prev, prefix);
      GotFromNext(pieces, idx, cs, i, prev, []);
      NothingPruned(lower, upper);
      PruningLosesNothing(c, minPoWBits, pieces, ci, prefix);
      PruningLosesNothingFrom(c, minPoWBits, pieces, idx, cs, i + 1, ci, prefix);
      if !RangeOverlapsPrefix(lower, upper, prefix, NextPrefix(prefix)) {
        PrunedHasNoHits(c, minPoWBits, lower, upper, Got(pieces, ci, []), prefix);
        NoHitsInNothing(c, minPoWBits, prefix);
      }
      HitsAppend(c, minPoWBits, prefix, first, GotFrom(pieces, idx, cs, i + 1, ci, prefix));
      HitsAppend(c, minPoWBits, prefix, Got(pieces, ci, []), GotFrom(pieces, idx, cs, i + 1, ci, []));
    }
  }

  lemma NoHitsInNothing(c: Crypto, minPoWBits: nat, prefix: bytes)
    ensures Hits(c, minPoWBits, prefix, []) == []
  {
  }

  // ---- completeness needs the bounds ----

  /** Pruning can only lose hits. */
  lemma {:induction false} PrunedFewer(c: Crypto, minPoWBits: nat, pieces: seq<PieceView>, idx: int, prefix: bytes)
    ensures |Hits(c, minPoWBits, prefix, Got(pieces, idx, prefix))|
             <= |Hits(c, minPoWBits, prefix, Got(pieces, idx, []))|
    decreases PiecesLeft(pieces, idx), 1, 0
  {
    hide Hits, NextPrefix;
    match At(pieces, idx)
    case InnerPiece(_, Ok(cs)) => PrunedFewerFrom(c, minPoWBits, pieces, idx, cs, 0, idx, prefix);
    case _ =>
  }

  lemma {:induction false} PrunedFewerFrom(c: Crypto, minPoWBits: nat, pieces: seq<PieceView>, idx: int,
                                           cs: seq<InteriorChild>,
                                           i: nat, prev: int, prefix: bytes)
    requires 0 <= idx < |pieces| && idx <= prev && i <= |cs|
    ensures |Hits(c, minPoWBits, prefix, GotFrom(pieces, idx, cs, i, prev, prefix))|
         <= |Hits(c, minPoWBits, prefix, GotFrom(pieces, idx, cs, i, prev, []))|
    decreases PiecesLeft(pieces, idx), 0, |cs| - i
  {
    hide Hits, RangeOverlapsPrefix, Got;
    if i < |cs| && prev < cs[i].index < |pieces| - 1 {
      hide GotFrom;
      PrunedFewer(c, minPoWBits, pieces, cs[i].index, prefix);
      PrunedFewerFrom(c, minPoWBits, pieces, idx, cs, i + 1, cs[i].index, prefix);
      HitsSplit(c, minPoWBits, pieces, idx, cs, i, prev, prefix);
    }
  }

  /** The hits of the child loop: those under child i, none if it is pruned, and those of the children after it. */
  lemma HitsSplit(c: Crypto, minPoWBits: nat, pieces: seq<PieceView>, idx: int, cs: seq<InteriorChild>, i: nat,
                  prev: int,
                  prefix: bytes)
    requires 0 <= idx < |pieces| && idx <= prev && i < |cs| && prev < cs[i].index < |pieces| - 1
    ensures |Hits(c, minPoWBits, prefix, GotFrom(pieces, idx, cs, i, prev, prefix))|
         == (if RangeOverlapsPrefix(cs[i].separator, UpperBound(cs, i), prefix, NextPrefix(prefix))
             then |Hits(c, minPoWBits, prefix, Got(pieces, cs[i].index, prefix))| else 0)
            + |Hits(c, minPoWBits, prefix, GotFrom(pieces, idx, cs, i + 1, cs[i].index, prefix))|
    ensures |Hits(c, minPoWBits, prefix, GotFrom(pieces, idx, cs, i, prev, []))|
         == |Hits(c, minPoWBits, prefix, Got(pieces, cs[i].index, []))|
            + |Hits(c, minPoWBits, prefix, GotFrom(pieces, idx, cs, i + 1, cs[i].index, []))|
  {
    hide Hits, RangeOverlapsPrefix, Got, GotFrom;
    var ci, lower, upper := cs[i].index, cs[i].separator, UpperBound(cs, i);
    var first := if RangeOverlapsPrefix(lower, upper, prefix, NextPrefix(prefix)) then Got(pieces, ci, prefix) else [];
    GotFromNext(pieces, idx, cs, i, prev, prefix);
    GotFromNext(pieces, idx, cs, i, prev, []);
    NothingPruned(lower, upper);
    NoHitsInNothing(c, minPoWBits, prefix);
    HitsAppend(c, minPoWBits, prefix, first, GotFrom(pieces, idx, cs, i + 1, ci, prefix));
    HitsAppend(c, minPoWBits, prefix, Got(pieces, ci, []), GotFrom(pieces, idx, cs, i + 1, ci, []));
  }

  /** Pruning for this prefix loses no hit under piece idx. */
  ghost predicate Keeps(c: Crypto, minPoWBits: nat, pieces: seq<PieceView>, idx: int, prefix: bytes) {
    |Hits(c, minPoWBits, prefix, Got(pieces, idx, prefix))| == |Hits(c, minPoWBits, prefix, Got(pieces, idx, []))|
  }

  ghost predicate KeepsFrom(c: Crypto, minPoWBits: nat, pieces: seq<PieceView>, idx: int, cs: seq<InteriorChild>,
                            i: nat,
                            prev: int, prefix: bytes)
    requires 0 <= idx < |pieces| && idx <= prev && i <= |cs|
  {
    |Hits(c, minPoWBits, prefix, GotFrom(pieces, idx, cs, i, prev, prefix))|
    == |Hits(c, minPoWBits, prefix, GotFrom(pieces, idx, cs, i, prev, []))|
  }

  /** Where pruning loses no hit for any prefix, the ranges bound what is under them. */
  lemma {:induction false} KeptIsEnclosed(c: Crypto, minPoWBits: nat, pieces: seq<PieceView>, idx: int)
    requires forall p: bytes :: Keeps(c, minPoWBits, pieces, idx, p)
    ensures Enclosed(c, minPoWBits, pieces, idx)
    decreases PiecesLeft(pieces, idx), 1, 0
  {
    hide Hits, NextPrefix;
    match At(pieces, idx)
    case InnerPiece(_, Ok(cs)) =>
      forall p: bytes ensures KeepsFrom(c, minPoWBits, pieces, idx, cs, 0, idx, p) {
        assert Keeps(c, minPoWBits, pieces, idx, p);
      }
      KeptIsEnclosedFrom(c, minPoWBits, pieces, idx, cs, 0, idx);
    case _ =>
  }

  lemma {:induction false} KeptIsEnclosedFrom(c: Crypto, minPoWBits: nat, pieces: seq<PieceView>, idx: int,
                                              cs: seq<InteriorChild>,
                                              i: nat, prev: int)
    requires 0 <= idx < |pieces| && idx <= prev && i <= |cs|
    requires forall p: bytes :: KeepsFrom(c, minPoWBits, pieces, idx, cs, i, prev, p)
    ensures EnclosedFrom(c, minPoWBits, pieces, idx, cs, i, prev)
    decreases PiecesLeft(pieces, idx), 0, |cs| - i
  {
    hide Hits, RangeOverlapsPrefix, Got, GotFrom, NextPrefix, Bounds, Enclosed, Keeps, KeepsFrom;
    if i < |cs| && prev < cs[i].index < |pieces| - 1 {
      var ci, next := cs[i].index, i + 1;
      forall p: bytes ensures Keeps(c, minPoWBits, pieces, ci, p) {
        ChildKeeps(c, minPoWBits, pieces, idx, cs, i, prev, p);
      }
      forall p: bytes ensures KeepsFrom(c, minPoWBits, pieces, idx, cs, next, ci, p) {
        ChildKeeps(c, minPoWBits, pieces, idx, cs, i, prev, p);
      }
      KeptIsEnclosed(c, minPoWBits, pieces, ci);
      KeptIsEnclosedFrom(c, minPoWBits, pieces, idx, cs, next, ci);
      ChildBounds(c, minPoWBits, pieces, idx, cs, i, prev);
    }
  }

  lemma ChildKeeps(c: Crypto, minPoWBits: nat, pieces: seq<PieceView>, idx: int, cs: seq<InteriorChild>, i: nat,
                   prev: int, p: bytes)
    requires 0 <= idx < |pieces| && idx <= prev && i < |cs| && prev < cs[i].index < |pieces| - 1
    requires KeepsFrom(c, minPoWBits, pieces, idx, cs, i, prev, p)
    ensures Keeps(c, minPoWBits, pieces, cs[i].index, p)
             && KeepsFrom(c, minPoWBits, pieces, idx, cs, i + 1, cs[i].index, p)
    ensures !RangeOverlapsPrefix(cs[i].separator, UpperBound(cs, i), p, NextPrefix(p)) ==>
              Hits(c, minPoWBits, p, Got(pieces, cs[i].index, [])) == []
  {
    hide Hits, RangeOverlapsPrefix, Got, GotFrom, NextPrefix;
    PrunedFewer(c, minPoWBits, pieces, cs[i].index, p);
    PrunedFewerFrom(c, minPoWBits, pieces, idx, cs, i + 1, cs[i].index, p);
    HitsSplit(c, minPoWBits, pieces, idx, cs, i, prev, p);
  }

  lemma ChildBounds(c: Crypto, minPoWBits: nat, pieces: seq<PieceView>, idx: int, cs: seq<InteriorChild>, i: nat,
                    prev: int)
    requires 0 <= idx < |pieces| && idx <= prev && i < |cs| && prev < cs[i].index < |pieces| - 1
    requires forall p: bytes :: KeepsFrom(c, minPoWBits, pieces, idx, cs, i, prev, p)
    ensures Bounds(c, minPoWBits, cs[i].separator, UpperBound(cs, i), Got(pieces, cs[i].index, []))
  {
    hide Hits, RangeOverlapsPrefix, Got, KeepsFrom, NextPrefix, Verify, VerifyPoW;
    var rs := Got(pieces, cs[i].index, []);
    forall r | r in rs && IsHit(c, minPoWBits, [], r)
      ensures RangeOverlapsPrefix(cs[i].separator, UpperBound(cs, i), r.kw, NextPrefix(r.kw))
    {
      HitsMembers(c, minPoWBits, r.kw, rs, r);
      ChildKeeps(c, minPoWBits, pieces, idx, cs, i, prev, r.kw);
    }
  }

  // ---- main results ----

  /** What a reader can check of the pages beyond the fingerprint, once, before any query: piece 0 is a root; the
      unpruned walk from it ends without error; the leaves it collects, in walk order, hold the verifying records of rs,
      in order; and every child range on the way bounds the verifying records under that child. */
  ghost predicate Complete(c: Crypto, pieces: seq<PieceView>, minPoWBits: nat, rs: seq<Record>) {
    && At(pieces, 0).InnerPiece? && At(pieces, 0).isRoot
    && var w := Walk(pieces, 0, [], [], [], []);
    && w.error.None?
    && Hits(c, minPoWBits, [], RecordsIn(pieces, w.leaves)) == Hits(c, minPoWBits, [], rs)
    && Enclosed(c, minPoWBits, pieces, 0)
  }

  ghost predicate FindsAll(c: Crypto, src: PageSource, t: Trailer, rs: seq<Record>) {
    forall prefix: bytes :: FindIn(c, View(src), t, prefix) == Ok(Hits(c, t.minPoWBits, prefix, rs))
  }

  lemma {:induction false} HitsOfHits(c: Crypto, minPoWBits: nat, prefix: bytes, rs: seq<Record>)
    ensures Hits(c, minPoWBits, prefix, Hits(c, minPoWBits, [], rs)) == Hits(c, minPoWBits, prefix, rs)
    decreases |rs|
  {
    hide Verify, VerifyPoW;
    if rs != [] {
      HitsOfHits(c, minPoWBits, prefix, rs[1..]);
      var front := Hits(c, minPoWBits, [], rs[1..]);
      if IsHit(c, minPoWBits, [], rs[0]) { assert ([rs[0]] + front)[1..] == front; }
    }
  }

  lemma SameHits(c: Crypto, minPoWBits: nat, a: seq<Record>, b: seq<Record>, prefix: bytes)
    requires Hits(c, minPoWBits, [], a) == Hits(c, minPoWBits, [], b)
    ensures Hits(c, minPoWBits, prefix, a) == Hits(c, minPoWBits, prefix, b)
  {
    HitsOfHits(c, minPoWBits, prefix, a);
    HitsOfHits(c, minPoWBits, prefix, b);
  }

  /** What the unpruned walk collects. */
  lemma UnprunedGets(pieces: seq<PieceView>)
    requires Walk(pieces, 0, [], [], [], []).error.None?
    ensures RecordsIn(pieces, Walk(pieces, 0, [], [], [], []).leaves) == Got(pieces, 0, [])
  {
    hide Walk, Collected, RecordsIn;
    WalkCollects(pieces, 0, [], [], [], [], [], []);
    assert [] + Collected(pieces, 0, [], []) == Collected(pieces, 0, [], []);
  }

  lemma CompleteFinds(c: Crypto, src: PageSource, t: Trailer, rs: seq<Record>)
    requires LeafRecords(View(src), 0) == Some(rs) && Complete(c, View(src), t.minPoWBits, rs)
    ensures FindsAll(c, src, t, rs)
  {
    hide Walk, Collected, View, At, Hits, LeafRecords, RecordsIn, FindIn, Got, Enclosed, NextPrefix;
    UnprunedGets(View(src));
    forall prefix: bytes ensures FindIn(c, View(src), t, prefix) == Ok(Hits(c, t.minPoWBits, prefix, rs)) {
      FindGets(c, src, t, prefix);
      PruningLosesNothing(c, t.minPoWBits, View(src), 0, prefix);
      SameHits(c, t.minPoWBits, Got(View(src), 0, []), rs, prefix);
    }
  }

  /** A query for the empty prefix that succeeds walked from a root without error. */
  lemma FoundWalked(c: Crypto, src: PageSource, t: Trailer)
    requires FindIn(c, View(src), t, []).Ok?
    ensures At(View(src), 0).InnerPiece? && At(View(src), 0).isRoot && Walk(View(src), 0, [], [], [], []).error.None?
  {
    hide Walk, View, At, LeafHits;
    assert NextPrefix([]) == [];
  }

  lemma FindsComplete(c: Crypto, src: PageSource, t: Trailer, rs: seq<Record>)
    requires LeafRecords(View(src), 0) == Some(rs) && FindsAll(c, src, t, rs)
    ensures Complete(c, View(src), t.minPoWBits, rs)
  {
    hide Walk, Collected, View, At, Hits, LeafRecords, RecordsIn, FindIn, Got, Enclosed, NextPrefix;
    var pieces := View(src);
    assert FindIn(c, pieces, t, []) == Ok(Hits(c, t.minPoWBits, [], rs));
    FoundWalked(c, src, t);
    FindGets(c, src, t, []);
    UnprunedGets(pieces);
    forall p: bytes ensures Keeps(c, t.minPoWBits, pieces, 0, p) {
      FindGets(c, src, t, p);
      assert FindIn(c, pieces, t, p) == Ok(Hits(c, t.minPoWBits, p, rs));
      SameHits(c, t.minPoWBits, Got(pieces, 0, []), rs, p);
    }
    KeptIsEnclosed(c, t.minPoWBits, pieces, 0);
  }

  /** COMPLETENESS: on a source that passes VerifyFingerprint for the signed records, every prefix query is the linear
      scan of those records exactly when the interior pages are complete for them; a hash collision aside. */
  lemma VerifiedFindsExactly(c: Crypto, src: PageSource, t: Trailer, sorted: seq<Record>)
    requires t.fingerprint == c.sha256(RecordStream(sorted)) && FingerprintHolds(c, View(src), t)
    requires !c.Collide(RecordStream(LeafRecords(View(src), 0).value), RecordStream(sorted))
    ensures FindsAll(c, src, t, sorted) <==> Complete(c, View(src), t.minPoWBits, sorted)
  {
    hide FindsAll, Complete, LeafRecords, View;
    FingerprintBinds(c, View(src), t, sorted);
    if FindsAll(c, src, t, sorted) { FindsComplete(c, src, t, sorted); }
    if Complete(c, View(src), t.minPoWBits, sorted) { CompleteFinds(c, src, t, sorted); }
  }

  // ---- a walk that gets to every leaf ----

  /** The leaf pieces from piece i up to the trailer. */
  function LeafPieces(pieces: seq<PieceView>, i: nat): seq<int>
    decreases |pieces| - i
  {
    if i + 1 >= |pieces| then [] else (if pieces[i].LeafPiece? then [i] else []) + LeafPieces(pieces, i + 1)
  }

  /** Getting to every leaf piece in piece order gets to all the records in order. */
  lemma {:induction false} LeafPiecesHold(pieces: seq<PieceView>, i: nat)
    requires LeafRecords(pieces, i).Some?
    ensures RecordsIn(pieces, LeafPieces(pieces, i)) == LeafRecords(pieces, i).value
    decreases |pieces| - i
  {
    if i + 1 < |pieces| {
      LeafPiecesHold(pieces, i + 1);
      var rest := LeafPieces(pieces, i + 1);
      if pieces[i].LeafPiece? { assert ([i] + rest)[1..] == rest; }
      assert [] + rest == rest;
    }
  }

  /** The walk part of the condition is met by a walk that collects every leaf piece, in piece order. */
  lemma AllLeavesReached(c: Crypto, src: PageSource, t: Trailer, rs: seq<Record>)
    requires var pieces := View(src);
             && LeafRecords(pieces, 0) == Some(rs) && At(pieces, 0).InnerPiece? && At(pieces, 0).isRoot
             && Walk(pieces, 0, [], [], [], [])
                == Walked(None, Walk(pieces, 0, [], [], [], []).visited, LeafPieces(pieces, 0))
    ensures FindsAll(c, src, t, rs) <==> Enclosed(c, t.minPoWBits, View(src), 0)
  {
    hide FindsAll, Enclosed, LeafRecords, View, Walk, LeafPieces, RecordsIn, Hits;
    LeafPiecesHold(View(src), 0);
    if FindsAll(c, src, t, rs) { FindsComplete(c, src, t, rs); }
    if Enclosed(c, t.minPoWBits, View(src), 0) { CompleteFinds(c, src, t, rs); }
  }

  // ---- the condition can fail ----

  /** A root over the first of two leaves only. */
  function Misled(r1: Record, r2: Record, pieceSize: int, last: Option<bytes>): PageSource {
    var root := InteriorPage(KIND_ROOT, 1, [InteriorChild([], 1)], pieceSize);
    var one, two := LeafPage(0, [r1], pieceSize), LeafPage(0, [r2], pieceSize);
    [Some(if root.Ok? then root.value else []), Some(if one.Ok? then one.value else []),
      Some(if two.Ok? then two.value else []), last]
  }

  lemma MisledPages(r1: Record, r2: Record, pieceSize: int, last: Option<bytes>)
    requires Encodable(r1) && Encodable(r2) && pieceSize >= MIN_PIECE_SIZE
    ensures var pieces := View(Misled(r1, r2, pieceSize, last));
            && |pieces| == 4 && pieces[0] == InnerPiece(true, Ok([InteriorChild([], 1)]))
            && pieces[1] == LeafPiece(Ok([r1])) && pieces[2] == LeafPiece(Ok([r2]))
  {
    hide ViewPiece, InteriorPage, LeafPage, RecordBytes;
    var src := Misled(r1, r2, pieceSize, last);
    RootFits(pieceSize);
    LeafFitsAlone(r1, pieceSize);
    LeafFitsAlone(r2, pieceSize);
    InteriorPageShows(src, 0, KIND_ROOT, 1, [InteriorChild([], 1)], pieceSize);
    assert FirstEmptied([InteriorChild([], 1)]) == [InteriorChild([], 1)];
    LeafPageShows(src, 1, [r1], pieceSize);
    LeafPageShows(src, 2, [r2], pieceSize);
  }

  lemma RootFits(pieceSize: int)
    requires pieceSize >= MIN_PIECE_SIZE
    ensures InteriorPage(KIND_ROOT, 1, [InteriorChild([], 1)], pieceSize).Ok?
  {
    InteriorItemsSize(FirstEmptied([InteriorChild([], 1)]));
  }

  lemma LeafFitsAlone(r: Record, pieceSize: int)
    requires Encodable(r) && pieceSize >= MIN_PIECE_SIZE
    ensures LeafPage(0, [r], pieceSize).Ok?
  {
    NoRecordError([r]);
    LeafItemsAppend([], r);
    assert [] + [r] == [r];
    RecordFrame(r);
  }

  /** A passing VerifyFingerprint does not make Find complete: for any two records, under any trailer whose fingerprint
      covers both, these pages pass, and the query for everything returns nothing of the second leaf. */
  lemma FindCanMiss(c: Crypto, t: Trailer, r1: Record, r2: Record, pieceSize: int, last: Option<bytes>)
    requires Encodable(r1) && Encodable(r2) && pieceSize >= MIN_PIECE_SIZE
    requires t.fingerprint == c.sha256(RecordStream([r1, r2])) && t.numRecords == 2
    ensures var pieces := View(Misled(r1, r2, pieceSize, last));
            && FingerprintHolds(c, pieces, t)
            && FindIn(c, pieces, t, []) == Ok(Hits(c, t.minPoWBits, [], [r1]))
            && (IsHit(c, t.minPoWBits, [], r2) ==>
               Hits(c, t.minPoWBits, [], [r1]) != Hits(c, t.minPoWBits, [], [r1, r2]))
  {
    hide View, Misled, Encodable, RecordStream, Hits, IsHit;
    var pieces := View(Misled(r1, r2, pieceSize, last));
    MisledPages(r1, r2, pieceSize, last);
    MisledHolds(pieces, r1, r2);
    MisledWalk(c, pieces, t.minPoWBits);
    assert NextPrefix([]) == [];
    HitsAppend(c, t.minPoWBits, [], [r1], [r2]);
    assert [r1] + [r2] == [r1, r2];
    HitsMembers(c, t.minPoWBits, [], [r1, r2], r2);
    HitsMembers(c, t.minPoWBits, [], [r2], r2);
    assert [1][..0] == [] && DistinctLeaves([1]);
  }

  lemma MisledHolds(pieces: seq<PieceView>, r1: Record, r2: Record)
    requires |pieces| == 4 && pieces[0].InnerPiece? && pieces[1] == LeafPiece(Ok([r1]))
             && pieces[2] == LeafPiece(Ok([r2]))
    ensures LeafRecords(pieces, 0) == Some([r1, r2])
  {
    assert LeafRecords(pieces, 3) == Some([]);
    assert LeafRecords(pieces, 2) == Some([r2] + []);
    assert LeafRecords(pieces, 1) == Some([r1] + ([r2] + []));
    assert [] + ([r1] + ([r2] + [])) == [r1, r2];
  }

  lemma MisledWalk(c: Crypto, pieces: seq<PieceView>, minPoWBits: nat)
    requires |pieces| == 4 && pieces[0] == InnerPiece(true, Ok([InteriorChild([], 1)])) && pieces[1].LeafPiece?
    requires LeafOf(pieces[1]).Ok?
    ensures var w := Walk(pieces, 0, [], [], [], []);
            w.error.None? && w.leaves == [1]
            && LeafHits(c, pieces, minPoWBits, [], w.leaves) == Ok(Hits(c, minPoWBits, [], LeafOf(pieces[1]).value))
  {
    hide Hits;
    var cs := [InteriorChild([], 1)];
    var w1 := Walk(pieces, 1, [], [], [] + [0], []);
    assert w1 == Walked(None, [0] + [1], [1]);
    assert WalkChildren(pieces, 0, cs, 1, 1, [], [], w1.visited, w1.leaves) == Walked(None, w1.visited, w1.leaves);
    assert RangeOverlapsPrefix([], [], [], []);
    assert WalkChildren(pieces, 0, cs, 0, 0, [], [], [] + [0], []) == Walked(None, w1.visited, [1]);
    var hits := Hits(c, minPoWBits, [], LeafOf(pieces[1]).value);
    assert [1][1..] == [] && hits + [] == hits;
  }
}
