/** The index agrees with a linear scan: on a source laid out from a plan, a prefix query
    returns exactly the sorted records that match, for every prefix. */
module SnaggProofs {
  import opened Wrappers
  import opened Bytes
  import opened Records
  import opened Pages
  import opened Sorting
  import opened Trees
  import opened Layout
  import opened Read

  // ---- records under a node ----

  ghost predicate WellFormed(t: Tree)
    decreases t
  {
    match t
    case Leaf(rs) => rs != []
    case Branch(cs) => cs != [] && forall c :: c in cs ==> WellFormed(c)
  }

  /** A node's min key is the key of the first record under it. */
  lemma {:induction false} MinKeyIsFirst(t: Tree)
    requires WellFormed(t)
    ensures RecordsOf(t) != [] && MinKey(t) == RecordKey(RecordsOf(t)[0])
    decreases t
  {
    if t.Branch? { MinKeyIsFirst(t.children[0]); }
  }

  lemma {:induction false} AllRecordsOfChildren(ts: seq<Tree>)
    requires forall k :: 0 <= k < |ts| ==> ts[k].Branch?
    ensures AllRecords(ChildrenOf(ts)) == AllRecords(ts)
    decreases |ts|
  {
    if ts != [] {
      AllRecordsOfChildren(ts[1..]);
      AllRecordsAppend(ts[0].children, ChildrenOf(ts[1..]));
    }
  }

  lemma {:induction false} ChildInChildrenOf(ts: seq<Tree>, k: nat, c: Tree)
    requires k < |ts| && ts[k].Branch? && c in ts[k].children
    ensures c in ChildrenOf(ts)
    decreases |ts|
  {
    if k > 0 { ChildInChildrenOf(ts[1..], k - 1, c); }
  }

  /** Every level of a planned tree is well formed and holds all the sorted records in order. */
  lemma {:induction false} LevelHoldsAll(levels: seq<seq<Tree>>, sorted: seq<Record>, pieceSize: int, l: nat)
    requires Planned(levels, sorted, pieceSize) && l < |levels|
    ensures AllRecords(levels[l]) == sorted
    ensures forall t :: t in levels[l] ==> WellFormed(t)
    decreases l
  {
    if l > 0 {
      hide LeafRow, LeafPage, InteriorPage, InteriorFits, AllRecords, WellFormed, ChildrenOf;
      LevelHoldsAll(levels, sorted, pieceSize, l - 1);
      assert StackedAt(levels, l, pieceSize);
      AllRecordsOfChildren(levels[l]);
      ParentsWellFormed(levels[l]);
    } else {
      hide LeafPage, InteriorPage, InteriorFits, AllRecords, Stacked;
    }
  }

  lemma ParentsWellFormed(ts: seq<Tree>)
    requires forall k :: 0 <= k < |ts| ==> ts[k].Branch? && ts[k].children != []
    requires forall c :: c in ChildrenOf(ts) ==> WellFormed(c)
    ensures forall t :: t in ts ==> WellFormed(t)
  {
    hide ChildrenOf;
    forall t | t in ts ensures WellFormed(t) {
      var k :| 0 <= k < |ts| && ts[k] == t;
      forall c | c in t.children ensures WellFormed(c) {
        ChildInChildrenOf(ts, k, c);
      }
    }
  }

  lemma SortedParts(a: seq<Record>, b: seq<Record>)
    requires Sorted(a + b)
    ensures Sorted(a) && Sorted(b)
  {
    forall i, j | 0 <= i < j < |a| ensures KeyLeq(a[i], a[j]) {
      assert (a + b)[i] == a[i] && (a + b)[j] == a[j];
    }
    forall i, j | 0 <= i < j < |b| ensures KeyLeq(b[i], b[j]) {
      assert (a + b)[|a| + i] == b[i] && (a + b)[|a| + j] == b[j];
    }
  }

  lemma SortedAcross(a: seq<Record>, b: seq<Record>, x: Record, y: Record)
    requires Sorted(a + b) && x in a && y in b
    ensures KeyLeq(x, y)
  {
    var i :| 0 <= i < |a| && a[i] == x;
    var j :| 0 <= j < |b| && b[j] == y;
    assert (a + b)[i] == x && (a + b)[|a| + j] == y;
  }

  lemma SortedFirst(rs: seq<Record>, r: Record)
    requires Sorted(rs) && r in rs
    ensures KeyLeq(rs[0], r)
  {
    CompareRefl(RecordKey(r));
  }

  lemma AllRecordsFrom(children: seq<Tree>, i: nat)
    requires i <= |children|
    ensures AllRecords(children[i..]) ==
              if i == |children| then [] else RecordsOf(children[i]) + AllRecords(children[i + 1..])
  {
    if i < |children| { assert children[i..][1..] == children[i + 1..]; }
  }

  lemma WellFormedChild(children: seq<Tree>, i: nat)
    requires WellFormed(Branch(children)) && i < |children|
    ensures WellFormed(children[i])
  {
  }

  // ---- pruning ----

  /** A child the walk skips holds no record that matches. */
  lemma PrunedChildHasNoHits(c: Crypto, minPoWBits: nat, prefix: bytes, children: seq<Tree>, i: nat, lower: bytes,
                             upper: bytes)
    requires i < |children| && WellFormed(Branch(children)) && Sorted(AllRecords(children[i..]))
    requires lower == [] || lower == MinKey(children[i])
    requires upper == if i + 1 < |children| then MinKey(children[i + 1]) else []
    requires !RangeOverlapsPrefix(lower, upper, prefix, NextPrefix(prefix))
    ensures Hits(c, minPoWBits, prefix, RecordsOf(children[i])) == []
  {
    hide AllRecords, RecordsOf, MinKey, Hits, Sorted, WellFormed, Compare, RangeOverlapsPrefix, NextPrefix, Verify;
    var rs, after := RecordsOf(children[i]), AllRecords(children[i + 1..]);
    AllRecordsFrom(children, i);
    SortedParts(rs, after);
    WellFormedChild(children, i);
    MinKeyIsFirst(children[i]);
    if i + 1 < |children| {
      WellFormedChild(children, i + 1);
      MinKeyIsFirst(children[i + 1]);
      AllRecordsFrom(children, i + 1);
      assert after[0] == RecordsOf(children[i + 1])[0] && after[0] in after;
    }
    var hits := Hits(c, minPoWBits, prefix, rs);
    if hits != [] {
      var r := hits[0];
      HitsMembers(c, minPoWBits, prefix, rs, r);
      SortedFirst(rs, r);
      if after != [] { SortedAcross(rs, after, r, after[0]); }
      PruneSound(prefix, lower, upper, r);
    }
  }

  // ---- subtrees occupy increasing positions ----

  ghost predicate LinkedAt(levels: seq<seq<Tree>>, l: nat)
    requires 0 < l < |levels|
  {
    ChildrenOf(levels[l]) == levels[l - 1]
  }

  ghost predicate Linked(levels: seq<seq<Tree>>) {
    forall l :: 0 < l < |levels| ==> LinkedAt(levels, l)
  }

  lemma StartMonotone(ts: seq<Tree>, j: nat, k: nat)
    requires j <= k <= |ts|
    ensures Start(ts, j) <= Start(ts, k) <= |ChildrenOf(ts)|
    ensures Start(ts, 0) == 0
  {
    assert ts[..k] == ts[..j] + ts[j..k] && ts == ts[..k] + ts[k..];
    ChildrenOfAppend(ts[..j], ts[j..k]);
    ChildrenOfAppend(ts[..k], ts[k..]);
  }

  /** The first position of level m under position j of level l. */
  ghost function First(levels: seq<seq<Tree>>, m: nat, l: nat, j: nat): (r: nat)
    requires Linked(levels) && m <= l < |levels| && j <= |levels[l]|
    ensures r <= |levels[m]|
    decreases l
  {
    if m == l then j
    else
      assert LinkedAt(levels, l);
      StartMonotone(levels[l], j, j);
      First(levels, m, l - 1, Start(levels[l], j))
  }

  lemma {:induction false} FirstMonotone(levels: seq<seq<Tree>>, m: nat, l: nat, j: nat, k: nat)
    requires Linked(levels) && m <= l < |levels| && j <= k <= |levels[l]|
    ensures First(levels, m, l, j) <= First(levels, m, l, k)
    decreases l
  {
    if m < l {
      assert LinkedAt(levels, l);
      StartMonotone(levels[l], j, k);
      FirstMonotone(levels, m, l - 1, Start(levels[l], j), Start(levels[l], k));
    }
  }

  /** Nothing under position j of level l, or to its right, has been visited. */
  ghost predicate Unvisited(levels: seq<seq<Tree>>, l: nat, j: nat, visited: seq<int>)
    requires Linked(levels) && l < |levels| && j <= |levels[l]|
  {
    forall m: nat, v :: m <= l && v in visited ==> Clear(levels, m, l, j, v)
  }

  ghost predicate Clear(levels: seq<seq<Tree>>, m: nat, l: nat, j: nat, v: int)
    requires Linked(levels) && m <= l < |levels| && j <= |levels[l]|
  {
    v < Off(levels, m) + First(levels, m, l, j) || v >= Off(levels, m) + |levels[m]|
  }

  lemma NotClear(levels: seq<seq<Tree>>, l: nat, j: nat)
    requires Linked(levels) && l < |levels| && j < |levels[l]|
    ensures !Clear(levels, l, l, j, Off(levels, l) + j)
  {
  }

  lemma NotVisited(levels: seq<seq<Tree>>, l: nat, j: nat, visited: seq<int>)
    requires Linked(levels) && l < |levels| && j < |levels[l]| && Unvisited(levels, l, j, visited)
    ensures Off(levels, l) + j !in visited
  {
    hide Clear;
    NotClear(levels, l, j);
  }

  lemma UnvisitedRight(levels: seq<seq<Tree>>, l: nat, j: nat, k: nat, visited: seq<int>)
    requires Linked(levels) && l < |levels| && j <= k <= |levels[l]| && Unvisited(levels, l, j, visited)
    ensures Unvisited(levels, l, k, visited)
  {
    forall m: nat, v | m <= l && v in visited ensures Clear(levels, m, l, k, v) {
      FirstMonotone(levels, m, l, j, k);
      assert Clear(levels, m, l, j, v);
    }
  }

  /** Entering a node leaves everything under it unvisited. */
  lemma UnvisitedDown(levels: seq<seq<Tree>>, l: nat, j: nat, visited: seq<int>)
    requires Linked(levels) && 0 < l < |levels| && j < |levels[l]| && Unvisited(levels, l, j, visited)
    ensures Start(levels[l], j) <= |levels[l - 1]|
    ensures Unvisited(levels, l - 1, Start(levels[l], j), visited + [Off(levels, l) + j])
  {
    assert LinkedAt(levels, l);
    StartMonotone(levels[l], j, j);
    var down, start := l - 1, Start(levels[l], j);
    forall m: nat, v | m <= down && v in visited + [Off(levels, l) + j] ensures Clear(levels, m, down, start, v) {
      if v in visited {
        assert Clear(levels, m, l, j, v);
      } else {
        OffMonotone(levels, l, m);
      }
    }
  }

  /** Leaving a node: its subtree is behind, everything to its right still unvisited. */
  lemma UnvisitedUp(levels: seq<seq<Tree>>, l: nat, j: nat, before: seq<int>, after: seq<int>)
    requires Linked(levels) && 0 < l < |levels| && j < |levels[l]| && Unvisited(levels, l, j, before)
    requires Start(levels[l], j + 1) <= |levels[l - 1]|
    requires Unvisited(levels, l - 1, Start(levels[l], j + 1), after)
    requires forall v :: v in after ==> v in before || v == Off(levels, l) + j || v >= Off(levels, l - 1)
    ensures Unvisited(levels, l, j + 1, after)
  {
    var next := j + 1;
    forall m: nat, v | m <= l && v in after ensures Clear(levels, m, l, next, v) {
      if m < l {
        assert Clear(levels, m, l - 1, Start(levels[l], j + 1), v);
      } else if v in before {
        assert Clear(levels, l, l, j, v);
      } else {
        OffMonotone(levels, l, l - 1);
      }
    }
  }

  // ---- a planned tree as the reader sees it ----

  function NodeView(levels: seq<seq<Tree>>, l: nat, j: nat): PieceView
    requires l < |levels| && j < |levels[l]| && (levels[l][j].Branch? ==> l > 0)
  {
    match levels[l][j]
    case Leaf(rs) => LeafPiece(Ok(rs))
    case Branch(_) => InnerPiece(l == |levels| - 1, Ok(FirstEmptied(PlacedChildren(levels, l, j))))
  }

  ghost predicate NodeShown(pieces: seq<PieceView>, levels: seq<seq<Tree>>, l: nat, j: nat)
    requires l < |levels| && j < |levels[l]|
  {
    && (levels[l][j].Leaf? <==> l == 0)
    && Off(levels, l) + j < |pieces| - 1
    && pieces[Off(levels, l) + j] == NodeView(levels, l, j)
  }

  ghost predicate Shown(pieces: seq<PieceView>, levels: seq<seq<Tree>>) {
    && |pieces| == Total(levels) + 1 <= PIECE_LIMIT
    && Linked(levels)
    && forall l, j :: 0 <= l < |levels| && 0 <= j < |levels[l]| ==> NodeShown(pieces, levels, l, j)
  }

  lemma ShownMeans(pieces: seq<PieceView>, levels: seq<seq<Tree>>)
    requires Shown(pieces, levels)
    ensures |pieces| == Total(levels) + 1 <= PIECE_LIMIT && Linked(levels)
  {
  }

  lemma ShownNode(pieces: seq<PieceView>, levels: seq<seq<Tree>>, l: nat, j: nat)
    requires Shown(pieces, levels) && l < |levels| && j < |levels[l]|
    ensures levels[l][j].Leaf? <==> l == 0
    ensures Off(levels, l) + j < |pieces| - 1
    ensures At(pieces, Off(levels, l) + j) == NodeView(levels, l, j)
  {
    assert NodeShown(pieces, levels, l, j);
  }

  /** Decoding the page of node (l, j) gives the node back. */
  lemma NodePageShows(src: PageSource, levels: seq<seq<Tree>>, sorted: seq<Record>, pieceSize: int, l: nat, j: nat)
    requires LaidOut(src, levels, sorted, pieceSize) && l < |levels| && j < |levels[l]|
    ensures NodeShown(View(src), levels, l, j)
  {
    hide LeafPage, InteriorPage, Planned, PlacedChildren, ViewPiece, Off;
    var idx := Off(levels, l) + j;
    assert PageAt(src, levels, l, j, pieceSize);
    NodePageOk(levels, sorted, pieceSize, l, j);
    ViewAt(src, idx);
    if l == 0 {
      LeafPageShows(src, idx, levels[0][j].records, pieceSize);
    } else {
      InteriorPageShows(src, idx, NodeKind(levels, l), l, PlacedChildren(levels, l, j), pieceSize);
    }
  }

  lemma LeafPageShows(src: PageSource, idx: nat, rs: seq<Record>, pieceSize: int)
    requires idx < |src| && LeafPage(0, rs, pieceSize).Ok? && src[idx] == Some(LeafPage(0, rs, pieceSize).value)
    ensures ViewPiece(src, idx) == LeafPiece(Ok(rs))
  {
    LeafRoundTrip(0, rs, pieceSize);
  }

  lemma InteriorPageShows(src: PageSource, idx: nat, kind: byte, l: nat, cs: seq<InteriorChild>, pieceSize: int)
    requires idx < |src| && InteriorPage(kind, l, cs, pieceSize).Ok?
    requires src[idx] == Some(InteriorPage(kind, l, cs, pieceSize).value)
    ensures ViewPiece(src, idx) == InnerPiece(kind == KIND_ROOT, Ok(FirstEmptied(cs)))
  {
    InteriorRoundTrip(kind, l, cs, pieceSize);
  }

  lemma LaidOutShows(src: PageSource, levels: seq<seq<Tree>>, sorted: seq<Record>, pieceSize: int)
    requires LaidOut(src, levels, sorted, pieceSize)
    ensures Shown(View(src), levels)
  {
    forall l | 0 < l < |levels| ensures LinkedAt(levels, l) {
      assert StackedAt(levels, l, pieceSize);
    }
    forall l, j | 0 <= l < |levels| && 0 <= j < |levels[l]| ensures NodeShown(View(src), levels, l, j) {
      NodePageShows(src, levels, sorted, pieceSize, l, j);
    }
  }

  // ---- the walk over a shown tree ----

  /** What a walk that started with the given leaves must have achieved over records rs. */
  ghost predicate Covers(c: Crypto, pieces: seq<PieceView>, minPoWBits: nat, prefix: bytes, rs: seq<Record>,
                         leaves: seq<int>, w: Walked) {
    && w.error.None? && leaves <= w.leaves
    && LeafHits(c, pieces, minPoWBits, prefix, w.leaves[|leaves|..]) == Ok(Hits(c, minPoWBits, prefix, rs))
  }

  lemma {:induction false} LeafHitsAppend(c: Crypto, pieces: seq<PieceView>, minPoWBits: nat, prefix: bytes,
                                          a: seq<int>, b: seq<int>)
    requires LeafHits(c, pieces, minPoWBits, prefix, a).Ok?
    ensures LeafHits(c, pieces, minPoWBits, prefix, a + b)
         == InFront(LeafHits(c, pieces, minPoWBits, prefix, a).value, LeafHits(c, pieces, minPoWBits, prefix, b))
    decreases |a|
  {
    if a == [] {
      assert a + b == b;
      InFrontTwice([], [], LeafHits(c, pieces, minPoWBits, prefix, b));
    } else {
      assert (a + b)[1..] == a[1..] + b;
      LeafHitsAppend(c, pieces, minPoWBits, prefix, a[1..], b);
      InFrontTwice(Hits(c, minPoWBits, prefix, At(pieces, a[0]).records.value),
                   LeafHits(c, pieces, minPoWBits, prefix, a[1..]).value, LeafHits(c, pieces, minPoWBits, prefix, b));
    }
  }

  /** Two walks in sequence cover the two record runs in sequence. */
  lemma CoversThen(c: Crypto, pieces: seq<PieceView>, minPoWBits: nat, prefix: bytes, rs: seq<Record>,
                   more: seq<Record>,
                   leaves: seq<int>, w: Walked, w': Walked)
    requires Covers(c, pieces, minPoWBits, prefix, rs, leaves, w)
    requires Covers(c, pieces, minPoWBits, prefix, more, w.leaves, w')
    ensures Covers(c, pieces, minPoWBits, prefix, rs + more, leaves, w')
  {
    var a, b := w.leaves[|leaves|..], w'.leaves[|w.leaves|..];
    assert w'.leaves[|leaves|..] == a + b;
    LeafHitsAppend(c, pieces, minPoWBits, prefix, a, b);
    HitsAppend(c, minPoWBits, prefix, rs, more);
  }

  lemma CoversNoError(c: Crypto, pieces: seq<PieceView>, minPoWBits: nat, prefix: bytes, rs: seq<Record>,
                      leaves: seq<int>, w: Walked)
    requires Covers(c, pieces, minPoWBits, prefix, rs, leaves, w)
    ensures w.error.None?
  {
  }

  lemma CoversNothing(c: Crypto, pieces: seq<PieceView>, minPoWBits: nat, prefix: bytes, rs: seq<Record>,
                      visited: seq<int>, leaves: seq<int>)
    requires Hits(c, minPoWBits, prefix, rs) == []
    ensures Covers(c, pieces, minPoWBits, prefix, rs, leaves, Walked(None, visited, leaves))
  {
    assert leaves[|leaves|..] == [];
  }

  lemma WalkLeafCovers(c: Crypto, pieces: seq<PieceView>, minPoWBits: nat, prefix: bytes, idx: int, rs: seq<Record>,
                       visited: seq<int>, leaves: seq<int>)
    requires idx !in visited && At(pieces, idx) == LeafPiece(Ok(rs))
    ensures var w := Walk(pieces, idx, prefix, NextPrefix(prefix), visited, leaves);
            w.visited == visited + [idx] && Covers(c, pieces, minPoWBits, prefix, rs, leaves, w)
  {
    var more := (leaves + [idx])[|leaves|..];
    assert more == [idx] && more[1..] == [];
    var hits := Hits(c, minPoWBits, prefix, rs);
    assert hits + [] == hits;
  }

  /** Walking node (l, j) of a shown tree succeeds, collects leaves whose hits are exactly the
      hits among the records under the node, and stays inside its subtree. */
  lemma {:induction false} WalkCovers(c: Crypto, pieces: seq<PieceView>, levels: seq<seq<Tree>>, minPoWBits: nat,
                                      prefix: bytes,
                   l: nat, j: nat, visited: seq<int>, leaves: seq<int>)
    requires Shown(pieces, levels)
    requires l < |levels| && j < |levels[l]| && Unvisited(levels, l, j, visited)
    requires WellFormed(levels[l][j]) && Sorted(RecordsOf(levels[l][j]))
    ensures var w := Walk(pieces, Off(levels, l) + j, prefix, NextPrefix(prefix), visited, leaves);
            Covers(c, pieces, minPoWBits, prefix, RecordsOf(levels[l][j]), leaves, w) &&
            Unvisited(levels, l, j + 1, w.visited) &&
            (forall v :: v in w.visited ==> v in visited || v >= Off(levels, l) + j)
    decreases l, 1, 0
  {
    hide RangeOverlapsPrefix, NextPrefix, Hits, Compare, Covers, PlacedChildren, FirstEmptied, Shown, LeafHits,
      Unvisited, Clear, Sorted, AllRecords;
    var idx := Off(levels, l) + j;
    ShownMeans(pieces, levels);
    ShownNode(pieces, levels, l, j);
    NotVisited(levels, l, j, visited);
    if l == 0 {
      WalkLeafCovers(c, pieces, minPoWBits, prefix, idx, levels[0][j].records, visited, leaves);
      UnvisitedPast(levels, j, visited);
    } else {
      var cs := FirstEmptied(PlacedChildren(levels, l, j));
      assert LinkedAt(levels, l);
      ChildrenPlaced(levels[l], j);
      UnvisitedDown(levels, l, j, visited);
      OffMonotone(levels, l, l - 1);
      assert levels[l][j].children[0..] == levels[l][j].children;
      WalkChildrenCovers(c, pieces, levels, minPoWBits, prefix, l, j, 0, idx, idx, cs, visited + [idx], leaves);
      var w := WalkChildren(pieces, idx, cs, 0, idx, prefix, NextPrefix(prefix), visited + [idx], leaves);
      UnvisitedUp(levels, l, j, visited, w.visited);
    }
  }

  lemma UnvisitedPast(levels: seq<seq<Tree>>, j: nat, visited: seq<int>)
    requires Linked(levels) && levels != [] && j < |levels[0]| && Unvisited(levels, 0, j, visited)
    ensures Unvisited(levels, 0, j + 1, visited + [Off(levels, 0) + j])
  {
    var next := j + 1;
    forall m: nat, v | m <= 0 && v in visited + [Off(levels, 0) + j] ensures Clear(levels, m, 0, next, v) {
      if v in visited { assert Clear(levels, 0, 0, j, v); }
    }
  }

  /** What the child loop does with one child before the next: walk into it, or skip it. */
  ghost function ChildWalk(pieces: seq<PieceView>, cs: seq<InteriorChild>, i: nat, lo: bytes, hi: bytes,
                           visited: seq<int>, leaves: seq<int>): Walked
    requires i < |cs|
  {
    if RangeOverlapsPrefix(cs[i].separator, UpperBound(cs, i), lo, hi)
    then Walk(pieces, cs[i].index, lo, hi, visited, leaves)
    else Walked(None, visited, leaves)
  }

  /** One turn of the child loop on a child in range. */
  lemma ChildTurn(pieces: seq<PieceView>, idx: int, cs: seq<InteriorChild>, i: nat, prev: int, lo: bytes, hi: bytes,
                  visited: seq<int>, leaves: seq<int>)
    requires 0 <= idx < |pieces| && idx <= prev && i < |cs| && prev < cs[i].index < |pieces| - 1
    ensures var w := ChildWalk(pieces, cs, i, lo, hi, visited, leaves);
            w.error.None? ==>
              WalkChildren(pieces, idx, cs, i, prev, lo, hi, visited, leaves)
              == WalkChildren(pieces, idx, cs, i + 1, cs[i].index, lo, hi, w.visited, w.leaves)
  {
  }

  lemma ChildPosition(levels: seq<seq<Tree>>, l: nat, j: nat, i: nat)
    requires 0 < l < |levels| && j < |levels[l]| && levels[l][j].Branch? && i < |levels[l][j].children|
    requires Linked(levels)
    ensures var pos := Start(levels[l], j) + i;
            pos < |levels[l - 1]| && levels[l - 1][pos] == levels[l][j].children[i]
              && Off(levels, l - 1) + pos < Total(levels)
  {
    hide Start, ChildrenOf, Off;
    assert LinkedAt(levels, l);
    ChildrenPlaced(levels[l], j);
    OffBelowTotal(levels, l - 1);
  }

  lemma PlacedIndex(levels: seq<seq<Tree>>, l: nat, j: nat, i: nat)
    requires 0 < l < |levels| && j < |levels[l]| && levels[l][j].Branch? && i < |levels[l][j].children|
    requires Off(levels, l - 1) + Start(levels[l], j) + i < PIECE_LIMIT
    ensures PlacedChildren(levels, l, j)[i]
         == InteriorChild(MinKey(levels[l][j].children[i]), Off(levels, l - 1) + Start(levels[l], j) + i)
  {
    hide Start, ChildrenOf, Off, MinKey;
  }

  lemma FirstEmptiedAt(cs: seq<InteriorChild>, i: nat)
    requires i < |cs|
    ensures FirstEmptied(cs)[i] == if i == 0 then cs[0].(separator := []) else cs[i]
  {
  }

  lemma PlacedChildAt(levels: seq<seq<Tree>>, l: nat, j: nat, i: nat)
    requires 0 < l < |levels| && j < |levels[l]| && levels[l][j].Branch? && i < |levels[l][j].children|
    requires Linked(levels) && Total(levels) < PIECE_LIMIT
    ensures var cs, children := FirstEmptied(PlacedChildren(levels, l, j)), levels[l][j].children;
            var pos := Start(levels[l], j) + i;
            pos < |levels[l - 1]| && levels[l - 1][pos] == children[i] &&
            cs[i].index == Off(levels, l - 1) + pos < Total(levels) &&
            cs[i].separator == (if i == 0 then [] else MinKey(children[i])) &&
            UpperBound(cs, i) == (if i + 1 < |children| then MinKey(children[i + 1]) else [])
  {
    hide Start, ChildrenOf, Off, MinKey, PlacedChildren, FirstEmptied, Linked, Total;
    var placed := PlacedChildren(levels, l, j);
    ChildPosition(levels, l, j, i);
    PlacedIndex(levels, l, j, i);
    FirstEmptiedAt(placed, i);
    var next := i + 1;
    if next < |placed| {
      ChildPosition(levels, l, j, next);
      PlacedIndex(levels, l, j, next);
      FirstEmptiedAt(placed, next);
    }
  }

  /** On a laid-out source every inner piece lists its node's children: child i is at a later piece, before the last,
      and that piece shows the child. */
  lemma ChildrenAfterParents(src: PageSource, levels: seq<seq<Tree>>, sorted: seq<Record>, pieceSize: int, l: nat,
                             j: nat, i: nat)
    requires LaidOut(src, levels, sorted, pieceSize) && 0 < l < |levels| && j < |levels[l]|
    requires levels[l][j].Branch? && i < |levels[l][j].children|
    ensures var piece, pos := At(View(src), Off(levels, l) + j), Start(levels[l], j) + i;
            && piece.InnerPiece? && piece.children.Ok? && |piece.children.value| == |levels[l][j].children|
            && Off(levels, l) + j < piece.children.value[i].index < |src| - 1
            && pos < |levels[l - 1]| && levels[l - 1][pos] == levels[l][j].children[i]
            && (levels[l - 1][pos].Branch? ==> l > 1)
            && At(View(src), piece.children.value[i].index) == NodeView(levels, l - 1, pos)
  {
    hide LaidOut, Shown, View, Start, Off, Total, PlacedChildren, FirstEmptied, At, MinKey;
    LaidOutShows(src, levels, sorted, pieceSize);
    ShownMeans(View(src), levels);
    ShownNode(View(src), levels, l, j);
    PlacedChildAt(levels, l, j, i);
    ShownNode(View(src), levels, l - 1, Start(levels[l], j) + i);
    OffMonotone(levels, l, l - 1);
  }

  lemma {:induction false} ChildCovers(c: Crypto, pieces: seq<PieceView>, levels: seq<seq<Tree>>, minPoWBits: nat,
                                       prefix: bytes,
                           l: nat, j: nat, i: nat, cs: seq<InteriorChild>, visited: seq<int>, leaves: seq<int>)
    requires Shown(pieces, levels)
    requires 0 < l < |levels| && j < |levels[l]| && levels[l][j].Branch? && i < |levels[l][j].children|
    requires cs == FirstEmptied(PlacedChildren(levels, l, j))
    requires Start(levels[l], j) + i < |levels[l - 1]|
    requires Unvisited(levels, l - 1, Start(levels[l], j) + i, visited)
    requires WellFormed(levels[l][j]) && Sorted(AllRecords(levels[l][j].children[i..]))
    ensures var w, pos := ChildWalk(pieces, cs, i, prefix, NextPrefix(prefix), visited, leaves),
             Start(levels[l], j) + i;
            Covers(c, pieces, minPoWBits, prefix, RecordsOf(levels[l][j].children[i]), leaves, w) &&
            Unvisited(levels, l - 1, pos + 1, w.visited) &&
            (forall v :: v in w.visited ==> v in visited || v >= Off(levels, l - 1) + pos)
    decreases l, 0, 0
  {
    hide RangeOverlapsPrefix, NextPrefix, Compare, PlacedChildren, Covers, Unvisited, Shown, Sorted, LeafHits,
      AllRecords,
      WellFormed, MinKey, UpperBound, FirstEmptied, RecordsOf, Off, Start, Total, Walk;
    ShownMeans(pieces, levels);
    var children, pos := levels[l][j].children, Start(levels[l], j) + i;
    AllRecordsFrom(children, i);
    PlacedChildAt(levels, l, j, i);
    if RangeOverlapsPrefix(cs[i].separator, UpperBound(cs, i), prefix, NextPrefix(prefix)) {
      SortedParts(RecordsOf(children[i]), AllRecords(children[i + 1..]));
      WellFormedChild(children, i);
      WalkCovers(c, pieces, levels, minPoWBits, prefix, l - 1, pos, visited, leaves);
    } else {
      PrunedChildHasNoHits(c, minPoWBits, prefix, children, i, cs[i].separator, UpperBound(cs, i));
      UnvisitedRight(levels, l - 1, pos, pos + 1, visited);
      CoversNothing(c, pieces, minPoWBits, prefix, RecordsOf(children[i]), visited, leaves);
    }
  }

  lemma {:induction false} WalkChildrenCovers(c: Crypto, pieces: seq<PieceView>, levels: seq<seq<Tree>>,
                                              minPoWBits: nat, prefix: bytes,
                           l: nat, j: nat, i: nat, idx: int, prev: int, cs: seq<InteriorChild>,
                           visited: seq<int>, leaves: seq<int>)
    requires Shown(pieces, levels)
    requires 0 < l < |levels| && j < |levels[l]| && levels[l][j].Branch? && i <= |levels[l][j].children|
    requires cs == FirstEmptied(PlacedChildren(levels, l, j)) && 0 <= idx < |pieces|
    requires Start(levels[l], j) + i <= |levels[l - 1]| && Start(levels[l], j + 1) <= |levels[l - 1]|
    requires Unvisited(levels, l - 1, Start(levels[l], j) + i, visited)
    requires WellFormed(levels[l][j]) && Sorted(AllRecords(levels[l][j].children[i..]))
    requires idx <= prev < Off(levels, l - 1) + Start(levels[l], j) + i
    ensures var w := WalkChildren(pieces, idx, cs, i, prev, prefix, NextPrefix(prefix), visited, leaves);
            Covers(c, pieces, minPoWBits, prefix, AllRecords(levels[l][j].children[i..]), leaves, w) &&
            Unvisited(levels, l - 1, Start(levels[l], j + 1), w.visited) &&
            (forall v :: v in w.visited ==> v in visited || v >= Off(levels, l - 1))
    decreases l, 0, |levels[l][j].children| - i + 1
  {
    hide RangeOverlapsPrefix, NextPrefix, Compare, PlacedChildren, Covers, Unvisited, Shown, Sorted, LeafHits,
      AllRecords,
      WellFormed, MinKey, UpperBound, FirstEmptied, RecordsOf, Off, Start, Total, Walk, ChildWalk;
    ShownMeans(pieces, levels);
    var children := levels[l][j].children;
    AllRecordsFrom(children, i);
    if i == |children| {
      ChildrenPlaced(levels[l], j);
      CoversNothing(c, pieces, minPoWBits, prefix, [], visited, leaves);
    } else {
      var child, rest := RecordsOf(children[i]), AllRecords(children[i + 1..]);
      PlacedChildAt(levels, l, j, i);
      ChildCovers(c, pieces, levels, minPoWBits, prefix, l, j, i, cs, visited, leaves);
      var w := ChildWalk(pieces, cs, i, prefix, NextPrefix(prefix), visited, leaves);
      CoversNoError(c, pieces, minPoWBits, prefix, child, leaves, w);
      ChildTurn(pieces, idx, cs, i, prev, prefix, NextPrefix(prefix), visited, leaves);
      SortedParts(child, rest);
      var ci := cs[i].index;
      WalkChildrenCovers(c, pieces, levels, minPoWBits, prefix, l, j, i + 1, idx, ci, cs, w.visited, w.leaves);
      var w' := WalkChildren(pieces, idx, cs, i + 1, ci, prefix, NextPrefix(prefix), w.visited, w.leaves);
      CoversThen(c, pieces, minPoWBits, prefix, child, rest, leaves, w, w');
    }
  }

  /** The main theorem on a laid-out source: for every prefix, Find is the linear scan. */
  lemma FindIsLinearScan(c: Crypto, src: PageSource, levels: seq<seq<Tree>>, sorted: seq<Record>, pieceSize: int,
                         t: Trailer, prefix: bytes)
    requires LaidOut(src, levels, sorted, pieceSize) && Sorted(sorted)
    ensures FindIn(c, View(src), t, prefix) == Ok(Hits(c, t.minPoWBits, prefix, sorted))
  {
    var pieces, top := View(src), |levels| - 1;
    LaidOutShows(src, levels, sorted, pieceSize);
    LevelHoldsAll(levels, sorted, pieceSize, top);
    FindAuthentic(c, src, t, prefix);
    assert NodeShown(pieces, levels, top, 0);
    FindFromRoot(c, pieces, levels, sorted, t, prefix);
  }

  lemma FindFromRoot(c: Crypto, pieces: seq<PieceView>, levels: seq<seq<Tree>>, sorted: seq<Record>, t: Trailer,
                     prefix: bytes)
    requires Shown(pieces, levels) && |levels| >= 2 && |levels[|levels| - 1]| == 1 && Sorted(sorted)
    requires AllRecords(levels[|levels| - 1]) == sorted && WellFormed(levels[|levels| - 1][0])
    requires FindIn(c, pieces, t, prefix) != Err(TooManyLeaves)
             && FindIn(c, pieces, t, prefix) != Err(LeafReturnedTwice)
    ensures FindIn(c, pieces, t, prefix) == Ok(Hits(c, t.minPoWBits, prefix, sorted))
  {
    var top := |levels| - 1;
    var root := levels[top][0];
    assert levels[top] == [root] && [root][1..] == [];
    assert RecordsOf(root) + [] == RecordsOf(root);
    assert NodeShown(pieces, levels, top, 0);
    WalkCovers(c, pieces, levels, t.minPoWBits, prefix, top, 0, [], []);
    var w := Walk(pieces, 0, prefix, NextPrefix(prefix), [], []);
    assert w.leaves[0..] == w.leaves;
  }
}
