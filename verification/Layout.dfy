/** Where the nodes of a planned tree go: pieces numbered top-down, root at piece 0, leaves
    last, then the trailer; and what a reader finds at each piece. */
module Layout {
  import opened Wrappers
  import opened Bytes
  import opened Records
  import opened Pages
  import opened Trees

  /** The piece number of the first node of level l. */
  function Off(levels: seq<seq<Tree>>, l: nat): nat
    decreases |levels| - l
  {
    if l + 1 >= |levels| then 0 else |levels[l + 1]| + Off(levels, l + 1)
  }

  function Total(levels: seq<seq<Tree>>): nat {
    if levels == [] then 0 else Off(levels, 0) + |levels[0]|
  }

  lemma {:induction false} OffTail(levels: seq<seq<Tree>>, l: nat)
    requires levels != []
    ensures Off(levels, l + 1) == Off(levels[1..], l)
    decreases |levels| - l
  {
    if l + 2 < |levels| { OffTail(levels, l + 1); }
  }

  lemma {:induction false} TotalCounts(levels: seq<seq<Tree>>)
    ensures Total(levels) == CountNodes(levels)
    decreases |levels|
  {
    if levels != [] {
      TotalCounts(levels[1..]);
      OffTail(levels, 0);
    }
  }

  /** How many children the nodes before position j of a level have. */
  function Start(ts: seq<Tree>, j: nat): nat
    requires j <= |ts|
  {
    |ChildrenOf(ts[..j])|
  }

  lemma {:induction false} ChildrenOfAppend(a: seq<Tree>, b: seq<Tree>)
    ensures ChildrenOf(a + b) == ChildrenOf(a) + ChildrenOf(b)
    decreases |a|
  {
    if a == [] {
      assert a + b == b;
    } else {
      ChildrenOfAppend(a[1..], b);
      assert (a + b)[0] == a[0] && (a + b)[1..] == a[1..] + b;
      var first := if a[0].Branch? then a[0].children else [];
      assert ChildrenOf(a + b) == first + ChildrenOf(a[1..] + b);
    }
  }

  /** The children of node j sit in the level below from Start(j) on, up to Start(j + 1). */
  lemma ChildrenPlaced(ts: seq<Tree>, j: nat)
    requires j < |ts| && ts[j].Branch?
    ensures Start(ts, j + 1) == Start(ts, j) + |ts[j].children| <= |ChildrenOf(ts)|
    ensures ChildrenOf(ts)[Start(ts, j)..Start(ts, j + 1)] == ts[j].children
    ensures forall i :: 0 <= i < |ts[j].children| ==> ChildrenOf(ts)[Start(ts, j) + i] == ts[j].children[i]
  {
    hide ChildrenOf;
    var cs, before, after := ts[j].children, ChildrenOf(ts[..j]), ChildrenOf(ts[j + 1..]);
    ChildrenAround(ts, j);
    Middle(before, cs, after);
  }

  lemma ChildrenAround(ts: seq<Tree>, j: nat)
    requires j < |ts| && ts[j].Branch?
    ensures ChildrenOf(ts[..j + 1]) == ChildrenOf(ts[..j]) + ts[j].children
    ensures ChildrenOf(ts) == ChildrenOf(ts[..j]) + ts[j].children + ChildrenOf(ts[j + 1..])
  {
    hide ChildrenOf;
    assert ts[..j + 1] == ts[..j] + [ts[j]];
    assert ts == ts[..j + 1] + ts[j + 1..];
    ChildrenOfOne(ts[j]);
    ChildrenOfAppend(ts[..j], [ts[j]]);
    ChildrenOfAppend(ts[..j + 1], ts[j + 1..]);
  }

  lemma ChildrenOfOne(t: Tree)
    requires t.Branch?
    ensures ChildrenOf([t]) == t.children
  {
    assert [t][1..] == [];
  }

  lemma Middle<T>(a: seq<T>, b: seq<T>, c: seq<T>)
    ensures (a + b + c)[|a|..|a| + |b|] == b
    ensures forall i :: 0 <= i < |b| ==> (a + b + c)[|a| + i] == b[i]
  {
  }

  // ---- node pages ----

  function PlacedChildren(levels: seq<seq<Tree>>, l: nat, j: nat): (r: seq<InteriorChild>)
    requires 0 < l < |levels| && j < |levels[l]| && levels[l][j].Branch?
    ensures |r| == |levels[l][j].children|
  {
    var cs, first := levels[l][j].children, Off(levels, l - 1) + Start(levels[l], j);
    seq(|cs|, i requires 0 <= i < |cs| => InteriorChild(MinKey(cs[i]), (first + i) % PIECE_LIMIT))
  }

  function NodeKind(levels: seq<seq<Tree>>, l: nat): byte {
    if l == |levels| - 1 then KIND_ROOT else KIND_INTERIOR
  }

  function NodePage(levels: seq<seq<Tree>>, l: nat, j: nat, pieceSize: int): Result<bytes, PageError>
    requires l < |levels| && j < |levels[l]| && (levels[l][j].Branch? ==> l > 0)
  {
    match levels[l][j]
    case Leaf(rs) => LeafPage(l, rs, pieceSize)
    case Branch(cs) => InteriorPage(NodeKind(levels, l), l, PlacedChildren(levels, l, j), pieceSize)
  }

  lemma {:induction false} InteriorItemsSameSize(a: seq<InteriorChild>, b: seq<InteriorChild>)
    requires |a| == |b| && forall i :: 0 <= i < |a| ==> a[i].separator == b[i].separator
    ensures |InteriorItems(a)| == |InteriorItems(b)|
    decreases |a|
  {
    if a != [] { InteriorItemsSameSize(a[1..], b[1..]); }
  }

  /** A page packed with placeholder child indices still fits with the real ones. */
  lemma NodePageOk(levels: seq<seq<Tree>>, sorted: seq<Record>, pieceSize: int, l: nat, j: nat)
    requires Planned(levels, sorted, pieceSize) && l < |levels| && j < |levels[l]|
    ensures levels[l][j].Leaf? <==> l == 0
    ensures NodePage(levels, l, j, pieceSize).Ok?
  {
    if l > 0 {
      assert StackedAt(levels, l, pieceSize);
      var placed := PlacedChildren(levels, l, j);
      var measured := WireChildren(levels[l][j].children);
      InteriorItemsSameSize(FirstEmptied(placed), FirstEmptied(measured));
      assert |InteriorPayload(placed)| == |InteriorPayload(measured)|;
    }
  }

  function LevelPages(levels: seq<seq<Tree>>, l: nat, pieceSize: int): (r: seq<bytes>)
    requires l < |levels|
    ensures |r| == |levels[l]|
  {
    seq(|levels[l]|, j requires 0 <= j < |levels[l]| =>
      if levels[l][j].Branch? && l == 0 then [] else PageOrEmpty(NodePage(levels, l, j, pieceSize)))
  }

  function PageOrEmpty(r: Result<bytes, PageError>): bytes {
    if r.Ok? then r.value else []
  }

  function PageRows(levels: seq<seq<Tree>>, pieceSize: int): (r: seq<seq<bytes>>)
    ensures SameShape(levels, r)
  {
    seq(|levels|, l requires 0 <= l < |levels| => LevelPages(levels, l, pieceSize))
  }

  predicate SameShape(levels: seq<seq<Tree>>, rows: seq<seq<bytes>>) {
    |rows| == |levels| && forall l :: 0 <= l < |rows| ==> |rows[l]| == |levels[l]|
  }

  /** The pages of rows l, l - 1, ..., 0, one row after the other. */
  function TopDown(rows: seq<seq<bytes>>, l: nat): seq<bytes>
    requires l < |rows|
  {
    rows[l] + (if l == 0 then [] else TopDown(rows, l - 1))
  }

  /** All data pages in piece order: the root's row first, the leaves last. */
  function DataPages(levels: seq<seq<Tree>>, pieceSize: int): seq<bytes>
    requires levels != []
  {
    TopDown(PageRows(levels, pieceSize), |levels| - 1)
  }

  lemma {:induction false} OffMonotone(levels: seq<seq<Tree>>, l: nat, m: nat)
    requires m < l < |levels|
    ensures Off(levels, l) + |levels[l]| <= Off(levels, m)
    ensures Off(levels, m) + |levels[m]| <= Total(levels)
    decreases l - m
  {
    if m + 1 < l { OffMonotone(levels, l, m + 1); }
    if m > 0 { OffBelowTotal(levels, m); }
  }

  lemma {:induction false} OffBelowTotal(levels: seq<seq<Tree>>, m: nat)
    requires m < |levels|
    ensures Off(levels, m) + |levels[m]| <= Total(levels)
    decreases m
  {
    if m > 0 { OffBelowTotal(levels, m - 1); }
  }

  /** In the pages of rows l and below, page j of row m sits at its piece number less Off(l). */
  lemma {:induction false} TopDownAt(levels: seq<seq<Tree>>, rows: seq<seq<bytes>>, l: nat, m: nat, j: nat)
    requires SameShape(levels, rows) && m <= l < |levels| && j < |levels[m]|
    ensures var k := Off(levels, m) - Off(levels, l) + j;
            0 <= k < |TopDown(rows, l)| && TopDown(rows, l)[k] == rows[m][j]
    decreases l
  {
    if m < l {
      TopDownAt(levels, rows, l - 1, m, j);
      assert Off(levels, l - 1) == |rows[l]| + Off(levels, l);
      assert Off(levels, m) - Off(levels, l) + j >= |rows[l]|;
    }
  }

  lemma {:induction false} TopDownLength(levels: seq<seq<Tree>>, rows: seq<seq<bytes>>, l: nat)
    requires SameShape(levels, rows) && l < |levels|
    ensures Off(levels, l) <= Total(levels) && |TopDown(rows, l)| == Total(levels) - Off(levels, l)
    decreases l
  {
    OffBelowTotal(levels, l);
    if l > 0 { TopDownLength(levels, rows, l - 1); }
  }

  // ---- page sources ----

  /** What a reader is given: for each piece, its bytes or a failed fetch. */
  type PageSource = seq<Option<bytes>>

  /** BytesPageSource: a contiguous file cut into whole pieces. */
  function FileSource(data: bytes, pieceSize: int): PageSource {
    if pieceSize <= 0 then []
    else seq(|data| / pieceSize, i requires 0 <= i < |data| / pieceSize => PieceOf(data, pieceSize, i))
  }

  function PieceOf(data: bytes, pieceSize: nat, i: nat): Option<bytes>
    requires pieceSize > 0 && i < |data| / pieceSize
  {
    PieceInFile(|data|, pieceSize, i);
    Some(data[i * pieceSize..i * pieceSize + pieceSize])
  }

  lemma PieceInFile(n: nat, pieceSize: nat, i: nat)
    requires pieceSize > 0 && i < n / pieceSize
    ensures 0 <= i * pieceSize && i * pieceSize + pieceSize <= n
  {
    assert (i + 1) * pieceSize <= (n / pieceSize) * pieceSize <= n;
  }

  ghost predicate AllOfSize(pages: seq<bytes>, pieceSize: nat) {
    forall i :: 0 <= i < |pages| ==> |pages[i]| == pieceSize
  }

  lemma {:induction false} FlattenPages(pages: seq<bytes>, pieceSize: nat, i: nat)
    requires AllOfSize(pages, pieceSize) && i < |pages|
    ensures 0 <= i * pieceSize && i * pieceSize + pieceSize <= |Flatten(pages)|
    ensures Flatten(pages)[i * pieceSize..i * pieceSize + pieceSize] == pages[i]
    decreases |pages|
  {
    var rest := Flatten(pages[1..]);
    if i > 0 {
      FlattenPages(pages[1..], pieceSize, i - 1);
      var at := (i - 1) * pieceSize;
      assert i * pieceSize == pieceSize + at;
      SkipSlice(pages[0], rest, at, pieceSize);
    } else {
      assert 0 * pieceSize == 0;
      assert (pages[0] + rest)[0..pieceSize] == pages[0];
    }
  }

  lemma SkipSlice(a: bytes, b: bytes, at: nat, n: nat)
    requires at + n <= |b|
    ensures (a + b)[|a| + at..|a| + at + n] == b[at..at + n]
  {
  }

  lemma {:induction false} FlattenSize(pages: seq<bytes>, pieceSize: nat)
    requires AllOfSize(pages, pieceSize)
    ensures |Flatten(pages)| == |pages| * pieceSize
    decreases |pages|
  {
    if pages != [] {
      FlattenSize(pages[1..], pieceSize);
      assert |pages| * pieceSize == pieceSize + (|pages| - 1) * pieceSize;
    }
  }

  /** Cutting concatenated whole pages gives the pages back. */
  lemma FileSourceOfPages(pages: seq<bytes>, pieceSize: nat)
    requires pieceSize > 0 && AllOfSize(pages, pieceSize)
    ensures |FileSource(Flatten(pages), pieceSize)| == |pages|
    ensures forall i :: 0 <= i < |pages| ==> FileSource(Flatten(pages), pieceSize)[i] == Some(pages[i])
  {
    FlattenSize(pages, pieceSize);
    MultipleDivides(|pages|, pieceSize);
    forall i | 0 <= i < |pages| ensures FileSource(Flatten(pages), pieceSize)[i] == Some(pages[i]) {
      FlattenPages(pages, pieceSize, i);
    }
  }

  lemma MultipleDivides(n: nat, d: nat)
    requires d > 0
    ensures (n * d) / d == n
  {
    var q := (n * d) / d;
    Distributes(n, q, d);
    SmallMultiple(n - q, d);
  }

  lemma Distributes(n: int, q: int, d: int)
    ensures (n - q) * d == n * d - q * d
  {
  }

  lemma SmallMultiple(k: int, d: nat)
    requires 0 - d < k * d < d
    ensures k == 0
  {
    Distributes(0, k, d);
    if k > 0 {
      AtLeast(k, d);
    } else if k < 0 {
      AtLeast(-k, d);
    }
  }

  lemma AtLeast(k: nat, d: nat)
    requires k > 0
    ensures k * d >= d
  {
    assert k * d == (k - 1) * d + d;
  }

  // ---- a source laid out from a plan ----

  /** The source holds the planned tree's pages, each at its piece, and one piece more. */
  ghost predicate LaidOut(src: PageSource, levels: seq<seq<Tree>>, sorted: seq<Record>, pieceSize: int) {
    && Planned(levels, sorted, pieceSize)
    && |src| == Total(levels) + 1 <= PIECE_LIMIT
    && forall l, j :: 0 <= l < |levels| && 0 <= j < |levels[l]| ==>
         PageAt(src, levels, l, j, pieceSize)
  }

  ghost predicate PageAt(src: PageSource, levels: seq<seq<Tree>>, l: nat, j: nat, pieceSize: int)
    requires l < |levels| && j < |levels[l]|
  {
    && (levels[l][j].Branch? ==> l > 0)
    && Off(levels, l) + j < |src| - 1
    && NodePage(levels, l, j, pieceSize).Ok?
    && src[Off(levels, l) + j] == Some(NodePage(levels, l, j, pieceSize).value)
  }

  /** The file of a planned tree: its pages in piece order, then the trailer page. */
  function TreeFile(levels: seq<seq<Tree>>, pieceSize: int, trailerPage: bytes): bytes
    requires levels != []
  {
    Flatten(DataPages(levels, pieceSize) + [trailerPage])
  }

  lemma RowEntry(levels: seq<seq<Tree>>, sorted: seq<Record>, pieceSize: nat, l: nat, j: nat)
    requires Planned(levels, sorted, pieceSize) && l < |levels| && j < |levels[l]|
    ensures levels[l][j].Branch? ==> l > 0
    ensures NodePage(levels, l, j, pieceSize).Ok?
    ensures PageRows(levels, pieceSize)[l][j] == NodePage(levels, l, j, pieceSize).value
  {
    NodePageOk(levels, sorted, pieceSize, l, j);
  }

  lemma PageInOrder(levels: seq<seq<Tree>>, rows: seq<seq<bytes>>, l: nat, j: nat)
    requires SameShape(levels, rows) && l < |levels| && j < |levels[l]|
    ensures Off(levels, l) + j < |TopDown(rows, |rows| - 1)|
    ensures TopDown(rows, |rows| - 1)[Off(levels, l) + j] == rows[l][j]
  {
    TopDownAt(levels, rows, |levels| - 1, l, j);
  }

  /** The data page of node (l, j). */
  lemma DataPageAt(levels: seq<seq<Tree>>, rows: seq<seq<bytes>>, pieceSize: nat, l: nat, j: nat)
    requires l < |levels| && j < |levels[l]| && rows == PageRows(levels, pieceSize)
    ensures Off(levels, l) + j < |DataPages(levels, pieceSize)|
    ensures DataPages(levels, pieceSize)[Off(levels, l) + j] == rows[l][j]
  {
    hide LevelPages, LeafPage, InteriorPage;
    PageInOrder(levels, rows, l, j);
  }

  lemma FilePieces(levels: seq<seq<Tree>>, sorted: seq<Record>, pieceSize: nat, trailerPage: bytes)
    requires Planned(levels, sorted, pieceSize) && pieceSize > 0 && |trailerPage| == pieceSize
    ensures var src := FileSource(TreeFile(levels, pieceSize, trailerPage), pieceSize);
            |src| == Total(levels) + 1 && |DataPages(levels, pieceSize)| == Total(levels) &&
            src[Total(levels)] == Some(trailerPage) &&
            forall i :: 0 <= i < Total(levels) ==> src[i] == Some(DataPages(levels, pieceSize)[i])
  {
    hide LevelPages, LeafPage, InteriorPage;
    TopDownLength(levels, PageRows(levels, pieceSize), |levels| - 1);
    RowsSized(levels, sorted, pieceSize);
    TopDownSized(PageRows(levels, pieceSize), pieceSize, |levels| - 1);
    FileSourceOfPages(DataPages(levels, pieceSize) + [trailerPage], pieceSize);
  }

  /** The file is laid out from the plan, whatever its trailer page holds. */
  lemma FileLaidOut(levels: seq<seq<Tree>>, sorted: seq<Record>, pieceSize: nat, trailerPage: bytes)
    requires Planned(levels, sorted, pieceSize) && pieceSize > 0
    requires Total(levels) < PIECE_LIMIT && |trailerPage| == pieceSize
    ensures LaidOut(FileSource(TreeFile(levels, pieceSize, trailerPage), pieceSize), levels, sorted, pieceSize)
  {
    FilePieces(levels, sorted, pieceSize, trailerPage);
    var src := FileSource(TreeFile(levels, pieceSize, trailerPage), pieceSize);
    forall l, j | 0 <= l < |levels| && 0 <= j < |levels[l]| ensures PageAt(src, levels, l, j, pieceSize) {
      RowEntry(levels, sorted, pieceSize, l, j);
      DataPageAt(levels, PageRows(levels, pieceSize), pieceSize, l, j);
    }
  }

  lemma RowsSized(levels: seq<seq<Tree>>, sorted: seq<Record>, pieceSize: nat)
    requires Planned(levels, sorted, pieceSize)
    ensures forall l :: 0 <= l < |levels| ==> AllOfSize(PageRows(levels, pieceSize)[l], pieceSize)
  {
    forall l, j | 0 <= l < |levels| && 0 <= j < |levels[l]| ensures |LevelPages(levels, l, pieceSize)[j]| == pieceSize {
      NodePageOk(levels, sorted, pieceSize, l, j);
    }
  }

  lemma {:induction false} TopDownSized(rows: seq<seq<bytes>>, pieceSize: nat, l: nat)
    requires l < |rows| && forall m :: 0 <= m < |rows| ==> AllOfSize(rows[m], pieceSize)
    ensures AllOfSize(TopDown(rows, l), pieceSize)
    decreases l
  {
    if l > 0 { TopDownSized(rows, pieceSize, l - 1); }
  }
}
