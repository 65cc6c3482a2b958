/** BuildBTree: the builder's own nodes, loops and page array, proved to write exactly the file
    its specification describes. */
module Build {
  import opened Wrappers
  import opened Bytes
  import opened Records
  import opened Pages
  import opened Sorting
  import opened Trees
  import opened Layout
  import opened Read

  datatype BuildInput = BuildInput(
    records: seq<Record>, pubKey: Bytes32, privKey: Option<PrivateKey>, seqNo: UInt64, createdTs: Int64,
    minPoWBits: byte, pieceSize: int)

  datatype BuiltTree = BuiltTree(data: bytes, numPages: nat, numRecords: nat, pieceSize: int, fingerprint: Bytes32)

  // ---- specification ----

  /** The trailer, signed when there is a key; `now` stands in for an unset creation time. */
  function BuildTrailer(c: Crypto, input: BuildInput, dataPages: nat, numRecords: nat, fp: Bytes32,
                        now: Int64): Trailer {
    var t := Trailer(
      TRAILER_VERSION, input.pubKey, input.seqNo, Uint64Of(if input.createdTs == 0 then now else input.createdTs),
      0, (dataPages + 1) % PIECE_LIMIT, numRecords % UINT64_LIMIT, input.minPoWBits, fp, Zeros(64));
    if input.privKey.Some? then SignTrailer(c, t, input.privKey.value) else t
  }

  /** The file of a plan. Piece numbers are 32-bit: a tree of 2^32 data pages or more wraps the
      counter and the source indexes past its page array, shown here as an error. */
  function Written(c: Crypto, input: BuildInput, now: Int64, levels: seq<seq<Tree>>): Result<BuiltTree, BuildError>
    requires levels != [] && input.pieceSize >= MIN_PIECE_SIZE
  {
    if Total(levels) >= PIECE_LIMIT then Err(PieceCounterWrapped)
    else
      var sorted := StableSort(input.records);
      var fp := c.sha256(RecordStream(sorted));
      var t := BuildTrailer(c, input, Total(levels), |sorted|, fp, now);
      Ok(BuiltTree(TreeFile(levels, input.pieceSize, TrailerPageOf(t, input.pieceSize)),
                   Total(levels) + 1, |sorted|, input.pieceSize, fp))
  }

  /** What BuildBTree returns. */
  function BuildResult(c: Crypto, input: BuildInput, now: Int64): Result<BuiltTree, BuildError> {
    match Plan(input.records, input.pieceSize)
    case Err(e) => Err(e)
    case Ok(levels) =>
      PlanIsPlanned(input.records, input.pieceSize);
      Written(c, input, now, levels)
  }

  function TrailerPageOf(t: Trailer, pieceSize: int): (r: bytes)
    requires t.version == TRAILER_VERSION && pieceSize >= MIN_PIECE_SIZE
    ensures TrailerPage(t, pieceSize) == Ok(r) && |r| == pieceSize
  {
    TrailerPage(t, pieceSize).value
  }

  // ---- builder nodes ----

  class Node {
    const records: seq<Record>
    const children: seq<Node>
    const minKey: bytes
    var piece: UInt32
    ghost const tree: Tree

    constructor Leaf(rs: seq<Record>)
      requires rs != []
      ensures Faithful(this) && tree == Tree.Leaf(rs)
    {
      records := rs;
      children := [];
      minKey := RecordKey(rs[0]);
      piece := 0;
      tree := Tree.Leaf(rs);
    }

    constructor Interior(cs: seq<Node>)
      requires cs != [] && AllFaithful(cs)
      ensures Faithful(this) && tree == Branch(TreesOf(cs)) && children == cs
    {
      records := [];
      children := cs;
      minKey := cs[0].minKey;
      piece := 0;
      tree := Branch(TreesOf(cs));
    }
  }

  ghost function TreesOf(ns: seq<Node>): (ts: seq<Tree>)
    ensures |ts| == |ns|
  {
    seq(|ns|, i requires 0 <= i < |ns| => ns[i].tree)
  }

  /** The node's fields say what its tree says. */
  ghost predicate Faithful(n: Node) {
    && (n.children == [] <==> n.tree.Leaf?)
    && (n.tree.Leaf? ==> n.records == n.tree.records)
    && (n.tree.Branch? ==> TreesOf(n.children) == n.tree.children)
    && n.minKey == MinKey(n.tree)
  }

  ghost predicate AllFaithful(ns: seq<Node>) {
    forall k :: 0 <= k < |ns| ==> Faithful(ns[k])
  }

  ghost predicate DistinctNodes(ns: seq<Node>) {
    forall i, j :: 0 <= i < j < |ns| ==> ns[i] != ns[j]
  }

  /** Distinct builder nodes standing for the given trees. */
  ghost predicate NodesFor(ns: seq<Node>, ts: seq<Tree>) {
    AllFaithful(ns) && DistinctNodes(ns) && TreesOf(ns) == ts
  }

  lemma NodesForAppend(ns: seq<Node>, ts: seq<Tree>, n: Node)
    requires NodesFor(ns, ts) && Faithful(n) && n !in ns
    ensures NodesFor(ns + [n], ts + [n.tree])
  {
  }

  lemma NothingIsNodes()
    ensures NodesFor([], LeafTrees([])) && NodesFor([], Branches([]))
  {
  }

  // ---- packing loops ----

  ghost function Grouped<T>(front: seq<seq<T>>, rest: Result<seq<seq<T>>, BuildError>):
    Result<seq<seq<T>>, BuildError> {
    match rest case Err(e) => Err(e) case Ok(gs) => Ok(front + gs)
  }

  /** One closed group moves from the packing still to do to the groups done. */
  lemma GroupClosed<T>(page: seq<T> -> Result<bytes, PageError>, done: seq<seq<T>>, cur: seq<T>, rest: seq<T>)
    requires rest != [] && page(cur + [rest[0]]) == Err(Overflow) && cur != [] && page([rest[0]]).Ok?
    ensures Grouped(done, Pack(page, cur, rest)) == Grouped(done + [cur], Pack(page, [rest[0]], rest[1..]))
  {
    var later := Pack(page, [rest[0]], rest[1..]);
    if later.Ok? { assert done + ([cur] + later.value) == (done + [cur]) + later.value; }
  }

  lemma GroupsDone<T>(page: seq<T> -> Result<bytes, PageError>, done: seq<seq<T>>, cur: seq<T>)
    ensures Grouped(done, Pack(page, cur, [])) == Ok(if cur == [] then done else done + [cur])
  {
    assert done + [] == done;
  }

  lemma GroupedNothing<T>(r: Result<seq<seq<T>>, BuildError>)
    ensures Grouped([], r) == r
  {
    if r.Ok? { assert [] + r.value == r.value; }
  }

  method PackLeafNodes(sorted: seq<Record>, pieceSize: int) returns (r: Result<seq<Node>, BuildError>)
    ensures match PackLeaves(sorted, pieceSize)
            case Err(e) => r == Err(e)
            case Ok(ts) => r.Ok? && NodesFor(r.value, ts)
    ensures r.Ok? ==> forall k :: 0 <= k < |r.value| ==> fresh(r.value[k])
  {
    hide LeafPage, NodesFor;
    var leaves: seq<Node> := [];
    var cur: seq<Record> := [];
    ghost var page := LeafFits(pieceSize);
    ghost var done: seq<seq<Record>> := [];
    GroupedNothing(Pack(page, [], sorted));
    NothingIsNodes();
    var i := 0;
    while i < |sorted|
      invariant 0 <= i <= |sorted|
      invariant Pack(page, [], sorted) == Grouped(done, Pack(page, cur, sorted[i..]))
      invariant NodesFor(leaves, LeafTrees(done))
      invariant forall k :: 0 <= k < |leaves| ==> fresh(leaves[k])
    {
      ghost var rest := sorted[i..];
      assert rest[0] == sorted[i] && rest[1..] == sorted[i + 1..];
      var cand := cur + [sorted[i]];
      var fit := EncodeLeaf(0, cand, pieceSize);
      assert fit == page(cand);
      if fit.Err? {
        if fit.error != Overflow { return Err(PageFailed(fit.error)); }
        if |cur| == 0 { return Err(ItemTooLarge); }
        var alone := EncodeLeaf(0, [sorted[i]], pieceSize);
        assert alone == page([sorted[i]]);
        if alone.Err? { return Err(ItemTooLarge); }
        var leaf := new Node.Leaf(cur);
        GroupClosed(page, done, cur, rest);
        LeafTreesAppend(done, cur);
        NodesForAppend(leaves, LeafTrees(done), leaf);
        leaves, done := leaves + [leaf], done + [cur];
        cur := [sorted[i]];
      } else {
        cur := cand;
      }
      i := i + 1;
    }
    assert sorted[i..] == [];
    GroupsDone(page, done, cur);
    if |cur| > 0 {
      var leaf := new Node.Leaf(cur);
      LeafTreesAppend(done, cur);
      NodesForAppend(leaves, LeafTrees(done), leaf);
      leaves, done := leaves + [leaf], done + [cur];
    }
    r := Ok(leaves);
  }

  lemma LeafTreesAppend(gs: seq<seq<Record>>, g: seq<Record>)
    ensures LeafTrees(gs + [g]) == LeafTrees(gs) + [Leaf(g)]
  {
  }

  lemma BranchesAppend(gs: seq<seq<Tree>>, g: seq<Tree>)
    ensures Branches(gs + [g]) == Branches(gs) + [Branch(g)]
  {
  }

  method MeasuredChildren(ns: seq<Node>) returns (cs: seq<InteriorChild>)
    requires AllFaithful(ns)
    ensures cs == WireChildren(TreesOf(ns))
  {
    cs := [];
    for i := 0 to |ns|
      invariant cs == WireChildren(TreesOf(ns))[..i]
    {
      cs := cs + [InteriorChild(ns[i].minKey, 0)];
    }
  }

  /** EncodeInterior on a candidate row of nodes, as packInteriorLevel measures it. */
  method MeasureInterior(ns: seq<Node>, pieceSize: int) returns (fit: Result<bytes, PageError>)
    requires AllFaithful(ns)
    ensures fit == InteriorFits(pieceSize)(TreesOf(ns))
  {
    var wire := MeasuredChildren(ns);
    fit := EncodeInterior(KIND_INTERIOR, 1, wire, pieceSize);
  }

  method PackInteriorNodes(children: seq<Node>, pieceSize: int) returns (r: Result<seq<Node>, BuildError>)
    requires AllFaithful(children)
    ensures match PackInterior(TreesOf(children), pieceSize)
            case Err(e) => r == Err(e)
            case Ok(ts) => r.Ok? && NodesFor(r.value, ts)
    ensures r.Ok? ==> forall k :: 0 <= k < |r.value| ==> fresh(r.value[k])
    ensures r.Ok? ==> Flatten(KidsOf(r.value)) == children
  {
    hide InteriorPage, NodesFor, KidsOf, InteriorFits, TreesOf, Flatten;
    var parents: seq<Node> := [];
    var cur: seq<Node> := [];
    ghost var page := InteriorFits(pieceSize);
    ghost var ts := TreesOf(children);
    ghost var done: seq<seq<Tree>> := [];
    GroupedNothing(Pack(page, [], ts));
    NothingIsNodes();
    NoKids();
    assert ts[0..] == ts;
    var i := 0;
    while i < |children|
      invariant 0 <= i <= |children|
      invariant AllFaithful(cur)
      invariant Pack(page, [], ts) == Grouped(done, Pack(page, TreesOf(cur), ts[i..]))
      invariant NodesFor(parents, Branches(done))
      invariant forall k :: 0 <= k < |parents| ==> fresh(parents[k])
      invariant Flatten(KidsOf(parents)) + cur == children[..i]
    {
      ghost var rest := ts[i..];
      TreesOfFrom(children, cur, i);
      assert rest[1..] == ts[i + 1..];
      var cand := cur + [children[i]];
      assert children[..i + 1] == children[..i] + [children[i]];
      var fit := MeasureInterior(cand, pieceSize);
      if fit.Err? {
        if fit.error != Overflow { return Err(PageFailed(fit.error)); }
        if |cur| == 0 { return Err(ItemTooLarge); }
        var alone := MeasureInterior([children[i]], pieceSize);
        if alone.Err? { return Err(ItemTooLarge); }
        var parent := new Node.Interior(cur);
        GroupClosed(page, done, TreesOf(cur), rest);
        KidsAppend(parents, parent);
        assert Flatten(KidsOf(parents)) + cur + [children[i]] == children[..i + 1];
        BranchesAppend(done, TreesOf(cur));
        NodesForAppend(parents, Branches(done), parent);
        parents, done := parents + [parent], done + [TreesOf(cur)];
        cur := [children[i]];
      } else {
        cur := cand;
      }
      i := i + 1;
    }
    assert ts[i..] == [] && children[..i] == children;
    GroupsDone(page, done, TreesOf(cur));
    if |cur| > 0 {
      var parent := new Node.Interior(cur);
      KidsAppend(parents, parent);
      BranchesAppend(done, TreesOf(cur));
      NodesForAppend(parents, Branches(done), parent);
      parents, done := parents + [parent], done + [TreesOf(cur)];
    } else {
      assert Flatten(KidsOf(parents)) + cur == Flatten(KidsOf(parents));
    }
    r := Ok(parents);
  }

  lemma NoKids()
    ensures KidsOf([]) == [] && Flatten(KidsOf([])) == [] && TreesOf([]) == []
  {
  }

  lemma TreesOfFrom(ns: seq<Node>, cur: seq<Node>, i: nat)
    requires i < |ns|
    ensures TreesOf(ns)[i..][0] == ns[i].tree
    ensures TreesOf(cur + [ns[i]]) == TreesOf(cur) + [ns[i].tree] && TreesOf([ns[i]]) == [ns[i].tree]
  {
  }

  ghost function KidsOf(ns: seq<Node>): (ks: seq<seq<Node>>)
    ensures |ks| == |ns|
  {
    seq(|ns|, i requires 0 <= i < |ns| => ns[i].children)
  }

  lemma KidsAppend(ns: seq<Node>, n: Node)
    ensures Flatten(KidsOf(ns + [n])) == Flatten(KidsOf(ns)) + n.children
  {
    assert KidsOf(ns + [n]) == KidsOf(ns) + [n.children];
    FlattenAppend(KidsOf(ns), [n.children]);
    assert [n.children][1..] == [] && n.children + [] == n.children;
  }

  // ---- levels of nodes ----

  ghost function LevelTrees(levels: seq<seq<Node>>): (r: seq<seq<Tree>>)
    ensures |r| == |levels| && forall l :: 0 <= l < |levels| ==> |r[l]| == |levels[l]|
  {
    seq(|levels|, l requires 0 <= l < |levels| => TreesOf(levels[l]))
  }

  /** Level l's nodes are faithful, distinct, drawn from `all`, and in no earlier level; above the
      leaves they point at the level below, in order. */
  ghost predicate NodeLevel(levels: seq<seq<Node>>, l: nat, all: set<Node>)
    requires l < |levels|
  {
    && AllFaithful(levels[l]) && DistinctNodes(levels[l])
    && (forall i :: 0 <= i < |levels[l]| ==> levels[l][i] in all)
    && (l > 0 ==> Flatten(KidsOf(levels[l])) == levels[l - 1])
  }

  ghost predicate Apart(a: seq<Node>, b: seq<Node>) {
    forall i, j :: 0 <= i < |a| && 0 <= j < |b| ==> a[i] != b[j]
  }

  ghost predicate NodeStack(levels: seq<seq<Node>>, all: set<Node>) {
    && (forall l: nat :: l < |levels| ==> NodeLevel(levels, l, all))
    && (forall l, m :: 0 <= l < m < |levels| ==> Apart(levels[l], levels[m]))
  }

  lemma StackGrows(levels: seq<seq<Node>>, all: set<Node>, up: seq<Node>)
    requires NodeStack(levels, all) && levels != []
    requires AllFaithful(up) && DistinctNodes(up) && (forall i :: 0 <= i < |up| ==> up[i] !in all)
    requires Flatten(KidsOf(up)) == levels[|levels| - 1]
    ensures NodeStack(levels + [up], all + (set n | n in up))
  {
    var more, all' := levels + [up], all + (set n | n in up);
    forall l: nat | l < |more| ensures NodeLevel(more, l, all') {
      if l < |levels| { assert NodeLevel(levels, l, all); }
    }
    forall l, m | 0 <= l < m < |more| ensures Apart(more[l], more[m]) {
      assert NodeLevel(levels, l, all);
      if m < |levels| { assert Apart(levels[l], levels[m]); }
    }
  }

  /** The level loop and the single-leaf special case. */
  method BuildNodeLevels(leaves: seq<Node>, pieceSize: int) returns (r: Result<seq<seq<Node>>, BuildError>,
                         ghost all: set<Node>)
    requires leaves != [] && AllFaithful(leaves) && DistinctNodes(leaves)
    requires ShortKeys(TreesOf(leaves)) && pieceSize >= MIN_PIECE_SIZE
    ensures match TreeLevels(TreesOf(leaves), pieceSize)
            case Err(e) => r == Err(e)
            case Ok(ts) => r.Ok? && LevelTrees(r.value) == ts
    ensures r.Ok? ==> NodeStack(r.value, all)
    ensures forall n :: n in all ==> n in leaves || fresh(n)
  {
    hide InteriorPage, LevelTrees, NodesFor, TreesOf, ShortKeys, KidsOf;
    all := set n | n in leaves;
    var levels := [leaves];
    var cur := leaves;
    ghost var ts := TreesOf(leaves);
    ghost var below: seq<seq<Tree>> := [];
    StartStack(leaves);
    while |cur| > 1
      invariant cur != [] && levels != [] && levels[0] == leaves && cur == levels[|levels| - 1] && AllFaithful(cur)
      invariant ShortKeys(TreesOf(cur))
      invariant NodeStack(levels, all) && LevelTrees(levels) == below + [TreesOf(cur)]
      invariant forall n :: n in all ==> n in leaves || fresh(n)
      invariant Levels(ts, pieceSize) == Raised(below, Levels(TreesOf(cur), pieceSize))
      decreases |cur|
    {
      var parents := PackInteriorNodes(cur, pieceSize);
      if parents.Err? { return Err(parents.error), all; }
      PackInteriorShape(TreesOf(cur), pieceSize);
      NodesForMeans(parents.value, PackInterior(TreesOf(cur), pieceSize).value);
      LevelsStep(below, TreesOf(cur), pieceSize);
      StackGrows(levels, all, parents.value);
      LevelTreesAppend(levels, parents.value);
      all := all + (set n | n in parents.value);
      below := below + [TreesOf(cur)];
      levels := levels + [parents.value];
      cur := parents.value;
    }
    LevelsLast(below, TreesOf(cur), pieceSize);
    LevelTreesLength(levels);
    if |levels| == 1 {
      var root := PackInteriorNodes(leaves, pieceSize);
      if root.Err? { return Err(root.error), all; }
      NodesForMeans(root.value, PackInterior(TreesOf(leaves), pieceSize).value);
      StackGrows(levels, all, root.value);
      LevelTreesAppend(levels, root.value);
      all := all + (set n | n in root.value);
      levels := levels + [root.value];
    }
    r := Ok(levels);
  }

  ghost function Raised(below: seq<seq<Tree>>, r: Result<seq<seq<Tree>>, BuildError>):
    Result<seq<seq<Tree>>, BuildError> {
    match r case Err(e) => Err(e) case Ok(ls) => Ok(below + ls)
  }

  lemma StartStack(leaves: seq<Node>)
    requires AllFaithful(leaves) && DistinctNodes(leaves)
    ensures NodeStack([leaves], set n | n in leaves) && LevelTrees([leaves]) == [] + [TreesOf(leaves)]
    ensures forall r: Result<seq<seq<Tree>>, BuildError> :: Raised([], r) == r
  {
    assert NodeLevel([leaves], 0, set n | n in leaves);
    forall r: Result<seq<seq<Tree>>, BuildError> ensures Raised([], r) == r {
      if r.Ok? { assert [] + r.value == r.value; }
    }
  }

  lemma NodesForMeans(ns: seq<Node>, ts: seq<Tree>)
    requires NodesFor(ns, ts)
    ensures AllFaithful(ns) && DistinctNodes(ns) && TreesOf(ns) == ts && |ns| == |ts|
  {
  }

  lemma LevelTreesAppend(levels: seq<seq<Node>>, up: seq<Node>)
    ensures LevelTrees(levels + [up]) == LevelTrees(levels) + [TreesOf(up)]
  {
  }

  lemma LevelTreesLength(levels: seq<seq<Node>>)
    ensures |LevelTrees(levels)| == |levels|
  {
  }

  lemma LevelsStep(below: seq<seq<Tree>>, ts: seq<Tree>, pieceSize: int)
    requires |ts| > 1 && ShortKeys(ts) && pieceSize >= MIN_PIECE_SIZE && PackInterior(ts, pieceSize).Ok?
    ensures var up := PackInterior(ts, pieceSize).value;
            up != [] && ShortKeys(up) &&
            Raised(below, Levels(ts, pieceSize)) == Raised(below + [ts], Levels(up, pieceSize))
  {
    PackInteriorShape(ts, pieceSize);
    var later := Levels(PackInterior(ts, pieceSize).value, pieceSize);
    if later.Ok? { assert below + ([ts] + later.value) == (below + [ts]) + later.value; }
  }

  lemma LevelsLast(below: seq<seq<Tree>>, ts: seq<Tree>, pieceSize: int)
    requires |ts| == 1 && ShortKeys(ts) && pieceSize >= MIN_PIECE_SIZE
    ensures Raised(below, Levels(ts, pieceSize)) == Ok(below + [ts])
  {
  }

  // ---- numbering ----

  ghost predicate Numbered(n: Node, k: nat)
    reads n
  {
    n.piece == k % PIECE_LIMIT
  }

  ghost predicate LevelNumbered(levels: seq<seq<Node>>, m: nat, count: nat)
    requires m < |levels| && count <= |levels[m]|
    reads levels[m]
  {
    forall i: nat :: i < count ==> Numbered(levels[m][i], Off(LevelTrees(levels), m) + i)
  }

  /** Number one level's nodes from `first` on; nodes of other levels keep their numbers. */
  method AssignLevel(levels: seq<seq<Node>>, l: nat, first: nat, ghost all: set<Node>)
    requires l < |levels| && NodeStack(levels, all) && first == Off(LevelTrees(levels), l)
    modifies levels[l]
    ensures LevelNumbered(levels, l, |levels[l]|)
  {
    hide Off, LevelTrees, KidsOf, Flatten, AllFaithful;
    assert NodeLevel(levels, l, all);
    for i := 0 to |levels[l]|
      invariant LevelNumbered(levels, l, i)
    {
      levels[l][i].piece := (first + i) % PIECE_LIMIT;
    }
  }

  /** Top-down piece assignment: root at piece 0, leaves last; returns the number of pieces. */
  method AssignPieces(levels: seq<seq<Node>>, ghost all: set<Node>) returns (piece: nat)
    requires levels != [] && NodeStack(levels, all)
    modifies all
    ensures piece == Total(LevelTrees(levels))
    ensures forall m: nat :: m < |levels| ==> LevelNumbered(levels, m, |levels[m]|)
  {
    hide KidsOf, Flatten, AllFaithful, LevelNumbered;
    ghost var ts := LevelTrees(levels);
    piece := 0;
    var l := |levels|;
    while l > 0
      invariant 0 <= l <= |levels|
      invariant piece == if l == 0 then Total(ts) else Off(ts, l - 1)
      invariant forall m: nat :: l <= m < |levels| ==> LevelNumbered(levels, m, |levels[m]|)
    {
      l := l - 1;
      assert NodeLevel(levels, l, all);
      assert forall m :: l < m < |levels| ==> Apart(levels[l], levels[m]);
      AssignLevel(levels, l, piece, all);
      piece := piece + |levels[l]|;
      if l > 0 { assert Off(ts, l - 1) == |ts[l]| + Off(ts, l); }
    }
  }

  // ---- pages ----

  /** The wire child list: separator from the child's min key, index from its piece. */
  method InteriorChildrenOf(n: Node) returns (cs: seq<InteriorChild>)
    ensures |cs| == |n.children|
    ensures forall i :: 0 <= i < |cs| ==> cs[i] == InteriorChild(n.children[i].minKey, n.children[i].piece)
  {
    cs := [];
    for i := 0 to |n.children|
      invariant |cs| == i
      invariant forall k :: 0 <= k < i ==> cs[k] == InteriorChild(n.children[k].minKey, n.children[k].piece)
    {
      cs := cs + [InteriorChild(n.children[i].minKey, n.children[i].piece)];
    }
  }

  lemma {:induction false} FlattenAt<T>(gs: seq<seq<T>>, j: nat, i: nat)
    requires j < |gs| && i < |gs[j]|
    ensures |Flatten(gs[..j])| + i < |Flatten(gs)| && Flatten(gs)[|Flatten(gs[..j])| + i] == gs[j][i]
    decreases |gs|
  {
    if j > 0 {
      FlattenAt(gs[1..], j - 1, i);
      assert gs[..j][1..] == gs[1..][..j - 1];
    } else {
      assert gs[..0] == [];
    }
  }

  lemma {:induction false} StartIsFlat(ns: seq<Node>, j: nat)
    requires j <= |ns| && AllFaithful(ns)
    ensures |Flatten(KidsOf(ns)[..j])| == Start(TreesOf(ns), j)
    decreases |ns|
  {
    if j == 0 {
      assert KidsOf(ns)[..0] == [] && TreesOf(ns)[..0] == [];
    } else {
      StartIsFlat(ns[1..], j - 1);
      assert KidsOf(ns)[..j] == [ns[0].children] + KidsOf(ns[1..])[..j - 1];
      assert TreesOf(ns)[..j] == [ns[0].tree] + TreesOf(ns[1..])[..j - 1];
      assert ([ns[0].tree] + TreesOf(ns[1..])[..j - 1])[1..] == TreesOf(ns[1..])[..j - 1];
      assert Faithful(ns[0]);
      if ns[0].tree.Branch? { assert |ns[0].children| == |ns[0].tree.children|; }
    }
  }

  /** Child i of node (l, j) is the node at position Start + i of the level below. */
  lemma ChildNode(levels: seq<seq<Node>>, all: set<Node>, l: nat, j: nat, i: nat)
    requires NodeStack(levels, all) && 0 < l < |levels| && j < |levels[l]| && i < |levels[l][j].children|
    ensures var pos := Start(TreesOf(levels[l]), j) + i;
            pos < |levels[l - 1]| && levels[l][j].children[i] == levels[l - 1][pos]
  {
    assert NodeLevel(levels, l, all);
    FlattenAt(KidsOf(levels[l]), j, i);
    StartIsFlat(levels[l], j);
  }

  /** Once pieces are assigned, the child list of a node is the placed one. */
  method PlacedChildrenOf(levels: seq<seq<Node>>, l: nat, j: nat, ghost all: set<Node>) returns (cs: seq<InteriorChild>)
    requires NodeStack(levels, all) && 0 < l < |levels| && j < |levels[l]| && levels[l][j].tree.Branch?
    requires LevelNumbered(levels, l - 1, |levels[l - 1]|)
    ensures cs == PlacedChildren(LevelTrees(levels), l, j)
  {
    cs := InteriorChildrenOf(levels[l][j]);
    ghost var ts := LevelTrees(levels);
    ghost var n := levels[l][j];
    assert NodeLevel(levels, l, all) && NodeLevel(levels, l - 1, all);
    assert Faithful(n);
    assert |cs| == |n.tree.children|;
    forall i | 0 <= i < |cs| ensures cs[i] == PlacedChildren(ts, l, j)[i] {
      ChildNode(levels, all, l, j, i);
      ghost var pos: nat := Start(TreesOf(levels[l]), j) + i;
      assert Faithful(levels[l - 1][pos]) && n.children[i].tree == n.tree.children[i];
      assert Numbered(levels[l - 1][pos], Off(ts, l - 1) + pos);
    }
  }

  /** Encode one level's pages into the page array, each at its node's piece. */
  method EmitLevel(pages: array<bytes>, levels: seq<seq<Node>>, l: nat, pieceSize: nat, ghost all: set<Node>,
                   ghost sorted: seq<Record>)
    requires NodeStack(levels, all) && Planned(LevelTrees(levels), sorted, pieceSize)
    requires l < |levels| && pages.Length == Total(LevelTrees(levels)) < PIECE_LIMIT
    requires forall m: nat :: m < |levels| ==> LevelNumbered(levels, m, |levels[m]|)
    requires Off(LevelTrees(levels), l) + |levels[l]| <= Total(LevelTrees(levels))
             == |DataPages(LevelTrees(levels), pieceSize)|
    requires pages[..Off(LevelTrees(levels), l)]
             == DataPages(LevelTrees(levels), pieceSize)[..Off(LevelTrees(levels), l)]
    modifies pages
    ensures var k := Off(LevelTrees(levels), l) + |levels[l]|;
            pages[..k] == DataPages(LevelTrees(levels), pieceSize)[..k]
  {
    hide LeafPage, InteriorPage, Planned, LevelPages, NodeStack, NodePage, DataPages, LevelTrees, PageRows;
    ghost var ts := LevelTrees(levels);
    ghost var data := DataPages(ts, pieceSize);
    ghost var first := Off(ts, l);
    for j := 0 to |levels[l]|
      invariant pages[..first + j] == data[..first + j]
    {
      var page := EncodeNode(levels, l, j, pieceSize, all, sorted);
      PageOfNode(levels, ts, sorted, pieceSize, l, j);
      assert LevelNumbered(levels, l, |levels[l]|);
      assert Numbered(levels[l][j], first + j);
      pages[levels[l][j].piece] := page.value;
      assert pages[..first + j + 1] == pages[..first + j] + [data[first + j]];
      assert data[..first + j + 1] == data[..first + j] + [data[first + j]];
    }
  }

  lemma PageOfNode(levels: seq<seq<Node>>, ts: seq<seq<Tree>>, sorted: seq<Record>, pieceSize: nat, l: nat, j: nat)
    requires ts == LevelTrees(levels) && Planned(ts, sorted, pieceSize) && l < |levels| && j < |levels[l]|
    ensures ts[l][j].Branch? ==> l > 0
    ensures NodePage(ts, l, j, pieceSize).Ok?
    ensures Off(ts, l) + j < |DataPages(ts, pieceSize)|
    ensures DataPages(ts, pieceSize)[Off(ts, l) + j] == NodePage(ts, l, j, pieceSize).value
  {
    hide LeafPage, InteriorPage;
    RowEntry(ts, sorted, pieceSize, l, j);
    DataPageAt(ts, PageRows(ts, pieceSize), pieceSize, l, j);
  }

  /** All pages, in piece order. */
  method EmitPages(levels: seq<seq<Node>>, numDataPages: nat, pieceSize: nat, ghost all: set<Node>,
                   ghost sorted: seq<Record>)
    returns (r: seq<bytes>)
    requires NodeStack(levels, all) && Planned(LevelTrees(levels), sorted, pieceSize)
    requires numDataPages == Total(LevelTrees(levels)) < PIECE_LIMIT
    requires forall m: nat :: m < |levels| ==> LevelNumbered(levels, m, |levels[m]|)
    ensures r == DataPages(LevelTrees(levels), pieceSize)
  {
    hide LeafPage, InteriorPage, Planned, PageRows, NodeStack, NodePage;
    ghost var ts := LevelTrees(levels);
    PlannedMeans(ts, sorted, pieceSize);
    ghost var data := DataPages(ts, pieceSize);
    TopDownLength(ts, PageRows(ts, pieceSize), |ts| - 1);
    var pages := new bytes[numDataPages](_ => []);
    var l := |levels|;
    while l > 0
      invariant 0 <= l <= |levels|
      invariant var k := (if l == 0 then Total(ts) else Off(ts, l - 1)); k <= pages.Length && pages[..k] == data[..k]
    {
      l := l - 1;
      OffBelowTotal(ts, l);
      EmitLevel(pages, levels, l, pieceSize, all, sorted);
      if l > 0 { assert Off(ts, l - 1) == |ts[l]| + Off(ts, l); }
    }
    assert pages[..numDataPages] == pages[..] && data[..numDataPages] == data;
    r := pages[..];
  }

  lemma PlannedMeans(levels: seq<seq<Tree>>, sorted: seq<Record>, pieceSize: int)
    requires Planned(levels, sorted, pieceSize)
    ensures |levels| >= 2 && |levels[|levels| - 1]| == 1
  {
  }

  method EncodeNode(levels: seq<seq<Node>>, l: nat, j: nat, pieceSize: int, ghost all: set<Node>,
                    ghost sorted: seq<Record>)
    returns (r: Result<bytes, PageError>)
    requires NodeStack(levels, all) && Planned(LevelTrees(levels), sorted, pieceSize)
    requires l < |levels| && j < |levels[l]|
    requires forall m: nat :: m < |levels| ==> LevelNumbered(levels, m, |levels[m]|)
    ensures levels[l][j].tree.Branch? ==> l > 0
    ensures r == NodePage(LevelTrees(levels), l, j, pieceSize) && r.Ok?
  {
    hide LeafPage, InteriorPage;
    var n := levels[l][j];
    assert NodeLevel(levels, l, all) && Faithful(n);
    NodePageOk(LevelTrees(levels), sorted, pieceSize, l, j);
    if n.children == [] {
      r := EncodeLeaf(l, n.records, pieceSize);
    } else {
      var kind := KIND_INTERIOR;
      if l == |levels| - 1 { kind := KIND_ROOT; }
      assert LevelNumbered(levels, l - 1, |levels[l - 1]|);
      var cs := PlacedChildrenOf(levels, l, j, all);
      r := EncodeInterior(kind, l, cs, pieceSize);
    }
  }

  // ---- fingerprint and file ----

  method FingerprintSorted(c: Crypto, sorted: seq<Record>) returns (r: Result<Bytes32, RecordError>)
    ensures r == if FirstRecordError(sorted).Some? then Err(FirstRecordError(sorted).value)
             else Ok(c.sha256(RecordStream(sorted)))
  {
    var hashed: bytes := [];
    var i := 0;
    while i < |sorted|
      invariant 0 <= i <= |sorted|
      invariant FirstRecordError(sorted) == FirstRecordError(sorted[i..])
      invariant RecordStream(sorted) == hashed + RecordStream(sorted[i..])
    {
      var enc := EncodeRecord(sorted[i]);
      if enc.Err? { return Err(enc.error); }
      assert sorted[i..][1..] == sorted[i + 1..];
      Assoc(hashed, enc.value, RecordStream(sorted[i + 1..]));
      hashed := hashed + enc.value;
      i := i + 1;
    }
    assert hashed + [] == hashed;
    r := Ok(c.sha256(hashed));
  }

  method Concatenate(pages: seq<bytes>) returns (out: bytes)
    ensures out == Flatten(pages)
  {
    out := [];
    for i := 0 to |pages|
      invariant Flatten(pages) == out + Flatten(pages[i..])
    {
      assert pages[i..][1..] == pages[i + 1..];
      Assoc(out, pages[i], Flatten(pages[i + 1..]));
      out := out + pages[i];
    }
    assert out + [] == out;
  }

  /** The checks, the sort, the leaves and the levels. */
  method PlanNodes(records: seq<Record>, pieceSize: int) returns (r: Result<seq<seq<Node>>, BuildError>,
                   ghost all: set<Node>)
    ensures match Plan(records, pieceSize)
            case Err(e) => r == Err(e)
            case Ok(ts) => r.Ok? && LevelTrees(r.value) == ts && NodeStack(r.value, all)
    ensures forall n :: n in all ==> fresh(n)
  {
    hide LeafPage, InteriorPage, PackInterior, LevelTrees, NodeStack, NodesFor;
    all := {};
    if pieceSize < MIN_PIECE_SIZE || pieceSize > MAX_PIECE_SIZE { return Err(BadPieceSize), all; }
    if |records| == 0 { return Err(NoRecords), all; }
    var bad := CheckKeywords(records);
    if bad.Some? { return Err(bad.value), all; }
    var sorted := StableSort(records);
    NoKeywordError(records);
    KeywordedSorted(records);
    var leaves := PackLeafNodes(sorted, pieceSize);
    if leaves.Err? { return Err(leaves.error), all; }
    PackLeavesShape(sorted, pieceSize);
    NodesForMeans(leaves.value, PackLeaves(sorted, pieceSize).value);
    r, all := BuildNodeLevels(leaves.value, pieceSize);
  }

  /** Number the nodes, hash the records, write the pages and the trailer. */
  method WriteTree(c: Crypto, input: BuildInput, now: Int64, levels: seq<seq<Node>>, ghost all: set<Node>)
    returns (r: Result<BuiltTree, BuildError>)
    requires NodeStack(levels, all) && input.pieceSize >= MIN_PIECE_SIZE
    requires Planned(LevelTrees(levels), StableSort(input.records), input.pieceSize)
    modifies all
    ensures LevelTrees(levels) != [] && r == Written(c, input, now, LevelTrees(levels))
  {
    hide LeafPage, InteriorPage, Planned, DataPages, TrailerPage, BuildTrailer, LevelTrees, NodeStack;
    ghost var ts := LevelTrees(levels);
    var sorted := StableSort(input.records);
    PlannedMeans(ts, sorted, input.pieceSize);
    LevelTreesLength(levels);
    var numDataPages := AssignPieces(levels, all);
    if numDataPages >= PIECE_LIMIT { return Err(PieceCounterWrapped); }
    PlannedEncodable(ts, sorted, input.pieceSize);
    var fp := FingerprintSorted(c, sorted);
    var pages := EmitPages(levels, numDataPages, input.pieceSize, all, sorted);
    var t := BuildTrailer(c, input, numDataPages, |sorted|, fp.value, now);
    TrailerFits(c, input, numDataPages, |sorted|, fp.value, now);
    var trailerPage := EncodeTrailer(t, input.pieceSize);
    var data := Concatenate(pages + [trailerPage.value]);
    r := Ok(BuiltTree(data, numDataPages + 1, |sorted|, input.pieceSize, fp.value));
  }

  method BuildBTree(c: Crypto, input: BuildInput, now: Int64) returns (r: Result<BuiltTree, BuildError>)
    ensures r == BuildResult(c, input, now)
  {
    hide Plan, Planned, Written, LevelTrees, NodeStack;
    var levels, all := PlanNodes(input.records, input.pieceSize);
    if levels.Err? { return Err(levels.error); }
    PlanIsPlanned(input.records, input.pieceSize);
    PlanSize(input.records, input.pieceSize);
    r := WriteTree(c, input, now, levels.value, all);
  }

  lemma PlanSize(records: seq<Record>, pieceSize: int)
    requires Plan(records, pieceSize).Ok?
    ensures MIN_PIECE_SIZE <= pieceSize <= MAX_PIECE_SIZE && records != []
  {
  }

  lemma TrailerFits(c: Crypto, input: BuildInput, dataPages: nat, numRecords: nat, fp: Bytes32, now: Int64)
    requires input.pieceSize >= MIN_PIECE_SIZE
    ensures var t := BuildTrailer(c, input, dataPages, numRecords, fp, now);
            t.version == TRAILER_VERSION && TrailerPage(t, input.pieceSize) == Ok(TrailerPageOf(t, input.pieceSize))
  {
  }

  method CheckKeywords(records: seq<Record>) returns (bad: Option<BuildError>)
    ensures bad == FirstKeywordError(records)
  {
    for i := 0 to |records|
      invariant FirstKeywordError(records) == FirstKeywordError(records[i..])
    {
      assert records[i..][1..] == records[i + 1..];
      if |records[i].kw| == 0 { return Some(EmptyKeywordIn); }
      if |records[i].kw| > MAX_KEYWORD_BYTES { return Some(KeywordOverCap); }
    }
    bad := None;
  }

  /** Every record of a planned tree encodes, so the fingerprint never fails. */
  lemma PlannedEncodable(levels: seq<seq<Tree>>, sorted: seq<Record>, pieceSize: int)
    requires Planned(levels, sorted, pieceSize)
    ensures AllEncodable(sorted) && FirstRecordError(sorted).None?
  {
    EncodableLeaves(levels[0], pieceSize);
    NoRecordError(sorted);
  }
}
