/** The shape of a SNAGG tree: greedy packing of items into pages, interior levels up to a
    single root, and the top-down placement of nodes on pieces. */
module Trees {
  import opened Wrappers
  import opened Bytes
  import opened Records
  import opened Pages
  import opened Sorting

  const MIN_PIECE_SIZE := 16384
  const MAX_PIECE_SIZE := 4 * 1024 * 1024
  /** The largest piece size at which no page can outgrow its 16-bit payload length
      without overflowing the page first. */
  const SAFE_PIECE_SIZE := 65293
  const PIECE_LIMIT: nat := 0x1_0000_0000

  datatype Tree = Leaf(records: seq<Record>) | Branch(children: seq<Tree>)

  function MinKey(t: Tree): bytes {
    match t
    case Leaf(rs) => if rs == [] then [] else RecordKey(rs[0])
    case Branch(cs) => if cs == [] then [] else MinKey(cs[0])
  }

  function RecordsOf(t: Tree): seq<Record>
    decreases t, 0
  {
    match t
    case Leaf(rs) => rs
    case Branch(cs) => AllRecords(cs)
  }

  function AllRecords(ts: seq<Tree>): seq<Record>
    decreases ts
  {
    if ts == [] then [] else RecordsOf(ts[0]) + AllRecords(ts[1..])
  }

  lemma {:induction false} AllRecordsAppend(a: seq<Tree>, b: seq<Tree>)
    ensures AllRecords(a + b) == AllRecords(a) + AllRecords(b)
    decreases |a|
  {
    if a == [] {
      assert a + b == b;
    } else {
      AllRecordsAppend(a[1..], b);
      assert (a + b)[1..] == a[1..] + b;
    }
  }

  function Flatten<T>(gs: seq<seq<T>>): seq<T> {
    if gs == [] then [] else gs[0] + Flatten(gs[1..])
  }

  lemma {:induction false} FlattenAppend<T>(a: seq<seq<T>>, b: seq<seq<T>>)
    ensures Flatten(a + b) == Flatten(a) + Flatten(b)
    decreases |a|
  {
    if a == [] {
      assert a + b == b;
    } else {
      FlattenAppend(a[1..], b);
      assert (a + b)[1..] == a[1..] + b;
    }
  }

  // ---- greedy packing (packLeaves, packInteriorLevel) ----

  datatype BuildError =
    | BadPieceSize
    | NoRecords
    | EmptyKeywordIn
    | KeywordOverCap
    | ItemTooLarge
    | PageFailed(error: PageError)
    | PieceCounterWrapped

  /** Fill a group while the page fits, close it on Overflow, stop on any other error. */
  function Pack<T>(page: seq<T> -> Result<bytes, PageError>, cur: seq<T>, rest: seq<T>): Result<seq<seq<T>>, BuildError>
    decreases |rest|
  {
    if rest == [] then Ok(if cur == [] then [] else [cur])
    else match page(cur + [rest[0]])
      case Ok(_) => Pack(page, cur + [rest[0]], rest[1..])
      case Err(Overflow) =>
        if cur == [] || page([rest[0]]).Err? then Err(ItemTooLarge)
        else (match Pack(page, [rest[0]], rest[1..])
              case Err(e) => Err(e)
              case Ok(gs) => Ok([cur] + gs))
      case Err(e) => Err(PageFailed(e))
  }

  ghost predicate GroupsFit<T>(page: seq<T> -> Result<bytes, PageError>, gs: seq<seq<T>>) {
    forall k :: 0 <= k < |gs| ==> gs[k] != [] && page(gs[k]).Ok?
  }

  ghost predicate PairsFit<T(!new)>(page: seq<T> -> Result<bytes, PageError>, items: seq<T>) {
    forall x, y :: x in items && y in items ==> page([x, y]).Ok?
  }

  /** Packing cuts the items into nonempty runs that fit, losing and reordering nothing;
      where any two items fit one page, every run but the last holds at least two. */
  lemma {:induction false} PackGroups<T(!new)>(page: seq<T> -> Result<bytes, PageError>, cur: seq<T>, rest: seq<T>)
    requires cur == [] || page(cur).Ok?
    requires Pack(page, cur, rest).Ok?
    ensures var gs := Pack(page, cur, rest).value;
            Flatten(gs) == cur + rest && GroupsFit(page, gs) && (cur + rest != [] ==> gs != [] && cur <= gs[0])
    ensures PairsFit(page, cur + rest) ==>
              forall k :: 0 <= k < |Pack(page, cur, rest).value| - 1 ==> |Pack(page, cur, rest).value[k]| >= 2
    decreases |rest|
  {
    if rest == [] {
      assert cur + rest == cur && [cur][1..] == [] && cur + [] == cur;
    } else {
      var x, more := rest[0], rest[1..];
      assert cur + rest == (cur + [x]) + more;
      assert [x] + more == rest;
      if PairsFit(page, cur + rest) && |cur| == 1 {
        assert cur[0] in cur + rest && x in cur + rest;
        assert cur + [x] == [cur[0], x];
        assert page(cur + [x]).Ok?;
      }
      if page(cur + [x]).Ok? {
        PackGroups(page, cur + [x], more);
      } else {
        PackGroups(page, [x], more);
        var gs := Pack(page, [x], more).value;
        assert ([cur] + gs)[1..] == gs;
        if PairsFit(page, cur + rest) {
          assert forall y :: y in [x] + more ==> y in cur + rest;
        }
      }
    }
  }

  lemma {:induction false} FlattenLength<T>(gs: seq<seq<T>>)
    requires forall k :: 0 <= k < |gs| - 1 ==> |gs[k]| >= 2
    requires gs != [] ==> |gs[|gs| - 1]| >= 1
    ensures 2 * |gs| <= |Flatten(gs)| + 1
    decreases |gs|
  {
    if |gs| > 1 { FlattenLength(gs[1..]); }
  }

  /** Packing never fails where a page that fits can only ever overflow by one more item. */
  ghost predicate SplitSafe<T(!new)>(page: seq<T> -> Result<bytes, PageError>, items: seq<T>) {
    && (forall x :: x in items ==> page([x]).Ok?)
    && (forall cur, x :: page(cur).Ok? && x in items ==> page(cur + [x]).Ok? || page(cur + [x]) == Err(Overflow))
  }

  lemma {:induction false} PackSucceeds<T(!new)>(page: seq<T> -> Result<bytes, PageError>, cur: seq<T>, rest: seq<T>)
    requires cur == [] || page(cur).Ok?
    requires SplitSafe(page, rest)
    ensures Pack(page, cur, rest).Ok?
    decreases |rest|
  {
    if rest != [] {
      var x := rest[0];
      assert x in rest && page([x]).Ok?;
      assert [] + [x] == [x];
      if page(cur + [x]).Ok? {
        PackSucceeds(page, cur + [x], rest[1..]);
      } else {
        PackSucceeds(page, [x], rest[1..]);
      }
    }
  }

  // ---- page sizes ----

  lemma {:induction false} LeafItemsAppend(rs: seq<Record>, r: Record)
    ensures |LeafItems(rs + [r])| == |LeafItems(rs)| + |PutUvarint(|RecordBytes(r)|)| + |RecordBytes(r)|
    decreases |rs|
  {
    if rs == [] {
      assert rs + [r] == [r] && [r][1..] == [];
    } else {
      LeafItemsAppend(rs[1..], r);
      assert (rs + [r])[1..] == rs[1..] + [r];
    }
  }

  lemma RecordFrame(r: Record)
    requires Encodable(r)
    ensures 101 <= |PutUvarint(|RecordBytes(r)|)| + |RecordBytes(r)| <= 258
  {
    RecordBytesLength(r);
    UvarintShort(|RecordBytes(r)|);
  }

  lemma {:induction false} LeafItemsLeast(rs: seq<Record>)
    requires AllEncodable(rs)
    ensures |LeafItems(rs)| >= 101 * |rs|
    decreases |rs|
  {
    if rs != [] {
      RecordFrame(rs[0]);
      LeafItemsLeast(rs[1..]);
    }
  }

  function LeafFits(pieceSize: int): seq<Record> -> Result<bytes, PageError> {
    rs => LeafPage(0, rs, pieceSize)
  }

  lemma LeafGrowsBy(cur: seq<Record>, r: Record, pieceSize: int)
    requires LeafPage(0, cur, pieceSize).Ok? && Encodable(r)
    ensures |cur| < 700 && |LeafPayload(cur + [r])| <= |LeafPayload(cur)| + 258
    ensures FirstRecordError(cur + [r]).None?
  {
    LeafItemsAppend(cur, r);
    RecordFrame(r);
    NoRecordError(cur);
    NoRecordError(cur + [r]);
    LeafItemsLeast(cur);
  }

  /** Up to SAFE_PIECE_SIZE a leaf that fits can only overflow, never break the 16-bit length. */
  lemma LeavesSplitSafe(rs: seq<Record>, pieceSize: int)
    requires MIN_PIECE_SIZE <= pieceSize <= SAFE_PIECE_SIZE
    requires AllEncodable(rs)
    ensures SplitSafe(LeafFits(pieceSize), rs)
  {
    var page := LeafFits(pieceSize);
    forall x | x in rs ensures page([x]).Ok? {
      NoRecordError([x]);
      LeafItemsAppend([], x);
      assert [] + [x] == [x];
      RecordFrame(x);
    }
    forall cur, x | page(cur).Ok? && x in rs ensures page(cur + [x]).Ok? || page(cur + [x]) == Err(Overflow) {
      LeafGrowsBy(cur, x, pieceSize);
    }
  }

  // ---- interior levels ----

  const MAX_KEY: nat := 85  // 64-byte keyword, separator byte, 20-byte infohash

  ghost predicate ShortKeys(ts: seq<Tree>) {
    forall k :: 0 <= k < |ts| ==> 0 < |MinKey(ts[k])| <= MAX_KEY
  }

  /** The wire children packInteriorLevel measures with: child index zero. */
  function WireChildren(ts: seq<Tree>): (r: seq<InteriorChild>)
    ensures |r| == |ts|
  {
    seq(|ts|, i requires 0 <= i < |ts| => InteriorChild(MinKey(ts[i]), 0))
  }

  function InteriorFits(pieceSize: int): seq<Tree> -> Result<bytes, PageError> {
    ts => InteriorPage(KIND_INTERIOR, 1, WireChildren(ts), pieceSize)
  }

  lemma {:induction false} InteriorItemsSize(cs: seq<InteriorChild>)
    requires forall k :: 0 <= k < |cs| ==> |cs[k].separator| <= MAX_KEY
    ensures 5 * |cs| <= |InteriorItems(cs)| <= 90 * |cs|
    decreases |cs|
  {
    if cs != [] { InteriorItemsSize(cs[1..]); }
  }

  lemma {:induction false} InteriorItemsAppend(cs: seq<InteriorChild>, c: InteriorChild)
    ensures |InteriorItems(cs + [c])| == |InteriorItems(cs)| + |ChildBytes(c.separator, c.index)|
    decreases |cs|
  {
    if cs == [] {
      assert cs + [c] == [c] && [c][1..] == [];
    } else {
      InteriorItemsAppend(cs[1..], c);
      assert (cs + [c])[1..] == cs[1..] + [c];
    }
  }

  lemma InteriorPairFits(x: Tree, y: Tree, pieceSize: int)
    requires |MinKey(x)| <= MAX_KEY && |MinKey(y)| <= MAX_KEY && pieceSize >= MIN_PIECE_SIZE
    ensures InteriorFits(pieceSize)([x, y]).Ok?
    ensures InteriorFits(pieceSize)([x]).Ok?
  {
    InteriorItemsSize(FirstEmptied(WireChildren([x, y])));
    InteriorItemsSize(FirstEmptied(WireChildren([x])));
  }

  lemma {:induction false} InteriorItemsLeast(cs: seq<InteriorChild>)
    ensures |InteriorItems(cs)| >= 5 * |cs|
    decreases |cs|
  {
    if cs != [] { InteriorItemsLeast(cs[1..]); }
  }

  lemma WireChildrenAppend(cur: seq<Tree>, x: Tree)
    requires cur != []
    ensures FirstEmptied(WireChildren(cur + [x])) == FirstEmptied(WireChildren(cur)) + [InteriorChild(MinKey(x), 0)]
  {
    assert WireChildren(cur + [x]) == WireChildren(cur) + [InteriorChild(MinKey(x), 0)];
  }

  lemma InteriorGrowsBy(cur: seq<Tree>, x: Tree, pieceSize: int)
    requires InteriorFits(pieceSize)(cur).Ok? && |MinKey(x)| <= MAX_KEY
    ensures |cur| < MAX_UINT16
    ensures |InteriorPayload(WireChildren(cur + [x]))| <= |InteriorPayload(WireChildren(cur))| + 90
  {
    InteriorItemsLeast(FirstEmptied(WireChildren(cur)));
    WireChildrenAppend(cur, x);
    InteriorItemsAppend(FirstEmptied(WireChildren(cur)), InteriorChild(MinKey(x), 0));
  }

  lemma InteriorSplitSafe(ts: seq<Tree>, pieceSize: int)
    requires MIN_PIECE_SIZE <= pieceSize <= SAFE_PIECE_SIZE && ShortKeys(ts)
    ensures SplitSafe(InteriorFits(pieceSize), ts)
  {
    var page := InteriorFits(pieceSize);
    forall x | x in ts ensures page([x]).Ok? {
      InteriorPairFits(x, x, pieceSize);
    }
    forall cur, x | page(cur).Ok? && x in ts ensures page(cur + [x]).Ok? || page(cur + [x]) == Err(Overflow) {
      InteriorGrowsBy(cur, x, pieceSize);
    }
  }

  function Branches(gs: seq<seq<Tree>>): (r: seq<Tree>)
    ensures |r| == |gs|
  {
    seq(|gs|, i requires 0 <= i < |gs| => Branch(gs[i]))
  }

  /** One pass of packInteriorLevel. */
  function PackInterior(ts: seq<Tree>, pieceSize: int): Result<seq<Tree>, BuildError> {
    match Pack(InteriorFits(pieceSize), [], ts)
    case Err(e) => Err(e)
    case Ok(gs) => Ok(Branches(gs))
  }

  function ChildrenOf(ts: seq<Tree>): seq<Tree> {
    if ts == [] then [] else (if ts[0].Branch? then ts[0].children else []) + ChildrenOf(ts[1..])
  }

  lemma {:induction false} ChildrenOfBranches(gs: seq<seq<Tree>>)
    ensures ChildrenOf(Branches(gs)) == Flatten(gs)
    decreases |gs|
  {
    if gs != [] {
      ChildrenOfBranches(gs[1..]);
      assert Branches(gs)[1..] == Branches(gs[1..]);
    }
  }

  ghost predicate BranchesFit(ts: seq<Tree>, pieceSize: int) {
    forall k :: 0 <= k < |ts| ==> ts[k].Branch? && ts[k].children != [] && InteriorFits(pieceSize)(ts[k].children).Ok?
  }

  /** A packed level covers the level below in order, keeps keys short, and is at most half as
      long, rounded up: with two or more nodes it is strictly shorter. */
  lemma PackInteriorShape(ts: seq<Tree>, pieceSize: int)
    requires ts != [] && ShortKeys(ts) && pieceSize >= MIN_PIECE_SIZE && PackInterior(ts, pieceSize).Ok?
    ensures var up := PackInterior(ts, pieceSize).value;
            ChildrenOf(up) == ts && BranchesFit(up, pieceSize) && ShortKeys(up) && 0 < |up| && 2 * |up| <= |ts| + 1
  {
    var page := InteriorFits(pieceSize);
    var gs := Pack(page, [], ts).value;
    forall x, y | x in [] + ts && y in [] + ts ensures page([x, y]).Ok? {
      InteriorPairFits(x, y, pieceSize);
    }
    PackGroups(page, [], ts);
    assert [] + ts == ts;
    FlattenLength(gs);
    ChildrenOfBranches(gs);
    GroupHeads(gs, ts);
  }

  lemma {:induction false} GroupHeads<T>(gs: seq<seq<T>>, items: seq<T>)
    requires Flatten(gs) == items && forall k :: 0 <= k < |gs| ==> gs[k] != []
    ensures forall k :: 0 <= k < |gs| ==> gs[k][0] in items
    decreases |gs|
  {
    if gs != [] {
      GroupHeads(gs[1..], Flatten(gs[1..]));
      assert gs[0][0] == items[0];
      forall k | 0 < k < |gs| ensures gs[k][0] in items {
        assert gs[k] == gs[1..][k - 1];
      }
    }
  }

  /** The level loop: pack until one node is left. */
  function Levels(ts: seq<Tree>, pieceSize: int): (r: Result<seq<seq<Tree>>, BuildError>)
    requires ts != [] && ShortKeys(ts) && pieceSize >= MIN_PIECE_SIZE
    ensures r.Ok? ==> |r.value| > 0 && r.value[0] == ts
    decreases |ts|
  {
    if |ts| == 1 then Ok([ts])
    else match PackInterior(ts, pieceSize)
      case Err(e) => Err(e)
      case Ok(up) =>
        PackInteriorShape(ts, pieceSize);
        match Levels(up, pieceSize)
        case Err(e) => Err(e)
        case Ok(more) => Ok([ts] + more)
  }

  /** The levels of the tree over the given leaves: a lone leaf still gets a root above it. */
  function TreeLevels(leaves: seq<Tree>, pieceSize: int): (r: Result<seq<seq<Tree>>, BuildError>)
    requires leaves != [] && ShortKeys(leaves) && pieceSize >= MIN_PIECE_SIZE
  {
    match Levels(leaves, pieceSize)
    case Err(e) => Err(e)
    case Ok(levels) =>
      if |levels| > 1 then Ok(levels)
      else match PackInterior(leaves, pieceSize)
        case Err(e) => Err(e)
        case Ok(root) => Ok(levels + [root])
  }

  /** A row of fitting branches over a level. */
  ghost predicate Over(up: seq<Tree>, down: seq<Tree>, pieceSize: int) {
    ChildrenOf(up) == down && BranchesFit(up, pieceSize)
  }

  ghost predicate StackedAt(levels: seq<seq<Tree>>, l: nat, pieceSize: int)
    requires 0 < l < |levels|
  {
    Over(levels[l], levels[l - 1], pieceSize)
  }

  ghost predicate Stacked(levels: seq<seq<Tree>>, pieceSize: int) {
    forall l :: 0 < l < |levels| ==> StackedAt(levels, l, pieceSize)
  }

  lemma StackedCons(ts: seq<Tree>, more: seq<seq<Tree>>, pieceSize: int)
    requires more != [] && Stacked(more, pieceSize) && Over(more[0], ts, pieceSize)
    ensures Stacked([ts] + more, pieceSize)
  {
    var levels := [ts] + more;
    forall l | 0 < l < |levels| ensures StackedAt(levels, l, pieceSize) {
      assert levels[l] == more[l - 1];
      if l > 1 { assert levels[l - 1] == more[l - 2] && StackedAt(more, l - 1, pieceSize); }
    }
  }

  function CountNodes(levels: seq<seq<Tree>>): nat {
    if levels == [] then 0 else |levels[0]| + CountNodes(levels[1..])
  }

  /** The level loop ends in one root over properly stacked levels, at most three nodes a leaf. */
  lemma {:induction false} LevelsStacked(ts: seq<Tree>, pieceSize: int)
    requires ts != [] && ShortKeys(ts) && pieceSize >= MIN_PIECE_SIZE && Levels(ts, pieceSize).Ok?
    ensures var levels := Levels(ts, pieceSize).value;
            Stacked(levels, pieceSize) && |levels[|levels| - 1]| == 1 && (|levels| > 1 <==> |ts| > 1) &&
            CountNodes(levels) <= 3 * |ts| && (|ts| == 1 ==> CountNodes(levels) == 1)
    decreases |ts|
  {
    if |ts| > 1 {
      var up := PackInterior(ts, pieceSize).value;
      PackInteriorShape(ts, pieceSize);
      LevelsStacked(up, pieceSize);
      var more := Levels(up, pieceSize).value;
      StackedCons(ts, more, pieceSize);
      assert ([ts] + more)[1..] == more;
    } else {
      assert [ts][1..] == [];
    }
  }

  lemma {:induction false} LevelsSucceed(ts: seq<Tree>, pieceSize: int)
    requires ts != [] && ShortKeys(ts) && MIN_PIECE_SIZE <= pieceSize <= SAFE_PIECE_SIZE
    ensures Levels(ts, pieceSize).Ok?
    decreases |ts|
  {
    if |ts| > 1 {
      InteriorSplitSafe(ts, pieceSize);
      PackSucceeds(InteriorFits(pieceSize), [], ts);
      PackInteriorShape(ts, pieceSize);
      LevelsSucceed(PackInterior(ts, pieceSize).value, pieceSize);
    }
  }

  // ---- the whole plan ----

  function LeafTrees(gs: seq<seq<Record>>): (r: seq<Tree>)
    ensures |r| == |gs|
  {
    seq(|gs|, i requires 0 <= i < |gs| => Leaf(gs[i]))
  }

  function PackLeaves(sorted: seq<Record>, pieceSize: int): Result<seq<Tree>, BuildError> {
    match Pack(LeafFits(pieceSize), [], sorted)
    case Err(e) => Err(e)
    case Ok(gs) => Ok(LeafTrees(gs))
  }

  ghost predicate LeafRow(ts: seq<Tree>, pieceSize: int) {
    forall k :: 0 <= k < |ts| ==> ts[k].Leaf? && ts[k].records != [] && LeafPage(0, ts[k].records, pieceSize).Ok?
  }

  lemma {:induction false} AllRecordsOfLeaves(gs: seq<seq<Record>>)
    ensures AllRecords(LeafTrees(gs)) == Flatten(gs)
    decreases |gs|
  {
    if gs != [] {
      AllRecordsOfLeaves(gs[1..]);
      assert LeafTrees(gs)[1..] == LeafTrees(gs[1..]);
    }
  }

  ghost predicate Keyworded(rs: seq<Record>) {
    forall k :: 0 <= k < |rs| ==> 1 <= |rs[k].kw| <= MAX_KEYWORD_BYTES
  }

  /** Packed leaves hold the sorted records in order, each leaf nonempty and fitting its page. */
  lemma PackLeavesShape(sorted: seq<Record>, pieceSize: int)
    requires sorted != [] && Keyworded(sorted) && PackLeaves(sorted, pieceSize).Ok?
    ensures var leaves := PackLeaves(sorted, pieceSize).value;
            leaves != [] && |leaves| <= |sorted| && LeafRow(leaves, pieceSize) && ShortKeys(leaves)
            && AllRecords(leaves) == sorted
  {
    var gs := Pack(LeafFits(pieceSize), [], sorted).value;
    PackGroups(LeafFits(pieceSize), [], sorted);
    assert [] + sorted == sorted;
    AllRecordsOfLeaves(gs);
    GroupHeads(gs, sorted);
    FlattenAtLeast(gs);
  }

  lemma {:induction false} FlattenAtLeast<T>(gs: seq<seq<T>>)
    requires forall k :: 0 <= k < |gs| ==> gs[k] != []
    ensures |gs| <= |Flatten(gs)|
    decreases |gs|
  {
    if gs != [] { FlattenAtLeast(gs[1..]); }
  }

  lemma {:induction false} NoKeywordError(rs: seq<Record>)
    ensures FirstKeywordError(rs).None? <==> Keyworded(rs)
    decreases |rs|
  {
    if rs != [] {
      NoKeywordError(rs[1..]);
      assert rs == [rs[0]] + rs[1..];
    }
  }

  function FirstKeywordError(rs: seq<Record>): Option<BuildError> {
    if rs == [] then None
    else if |rs[0].kw| == 0 then Some(EmptyKeywordIn)
    else if |rs[0].kw| > MAX_KEYWORD_BYTES then Some(KeywordOverCap)
    else FirstKeywordError(rs[1..])
  }

  lemma KeywordedSorted(rs: seq<Record>)
    requires Keyworded(rs)
    ensures Keyworded(StableSort(rs))
    ensures rs != [] ==> StableSort(rs) != []
  {
    var s := StableSort(rs);
    StableSortPermutes(rs);
    forall k | 0 <= k < |s| ensures 1 <= |s[k].kw| <= MAX_KEYWORD_BYTES {
      assert s[k] in s;
    }
  }

  /** Everything BuildBTree decides before it numbers and writes pages. */
  function Plan(records: seq<Record>, pieceSize: int): Result<seq<seq<Tree>>, BuildError> {
    if pieceSize < MIN_PIECE_SIZE || pieceSize > MAX_PIECE_SIZE then Err(BadPieceSize)
    else if |records| == 0 then Err(NoRecords)
    else if FirstKeywordError(records).Some? then Err(FirstKeywordError(records).value)
    else
      NoKeywordError(records);
      KeywordedSorted(records);
      var sorted := StableSort(records);
      match PackLeaves(sorted, pieceSize)
      case Err(e) => Err(e)
      case Ok(leaves) =>
        PackLeavesShape(sorted, pieceSize);
        TreeLevels(leaves, pieceSize)
  }

  /** A complete tree over the sorted records: fitting leaves, stacked levels, one root. */
  ghost predicate Planned(levels: seq<seq<Tree>>, sorted: seq<Record>, pieceSize: int) {
    && |levels| >= 2 && |levels[|levels| - 1]| == 1
    && LeafRow(levels[0], pieceSize) && AllRecords(levels[0]) == sorted
    && Stacked(levels, pieceSize)
  }

  lemma TreeLevelsShape(leaves: seq<Tree>, pieceSize: int)
    requires leaves != [] && ShortKeys(leaves) && pieceSize >= MIN_PIECE_SIZE && TreeLevels(leaves, pieceSize).Ok?
    ensures var levels := TreeLevels(leaves, pieceSize).value;
            |levels| >= 2 && levels[0] == leaves && |levels[|levels| - 1]| == 1 && Stacked(levels, pieceSize)
            && CountNodes(levels) <= 3 * |leaves|
  {
    var levels := Levels(leaves, pieceSize).value;
    LevelsStacked(leaves, pieceSize);
    if |levels| == 1 {
      var root := PackInterior(leaves, pieceSize).value;
      PackInteriorShape(leaves, pieceSize);
      assert levels == [leaves];
      assert levels + [root] == [leaves] + [root];
      assert [root][1..] == [] && ([leaves] + [root])[1..] == [root];
      assert Stacked([root], pieceSize);
      StackedCons(leaves, [root], pieceSize);
    }
  }

  /** Whenever the plan succeeds it is a complete tree over exactly the sorted input. */
  lemma PlanIsPlanned(records: seq<Record>, pieceSize: int)
    requires Plan(records, pieceSize).Ok?
    ensures Planned(Plan(records, pieceSize).value, StableSort(records), pieceSize)
    ensures CountNodes(Plan(records, pieceSize).value) <= 3 * |records|
    ensures Sorted(StableSort(records)) && Keyworded(StableSort(records))
  {
    hide LeafPage, InteriorPage, Compare, PackLeaves, TreeLevels, LeafRow, Stacked, AllRecords, CountNodes, Sorted,
      Keyworded, FirstKeywordError, StableSort, ShortKeys;
    NoKeywordError(records);
    KeywordedSorted(records);
    StableSortSorted(records);
    StableSortLength(records);
    PackLeavesShape(StableSort(records), pieceSize);
    TreeLevelsShape(PackLeaves(StableSort(records), pieceSize).value, pieceSize);
  }

  /** Between MIN_PIECE_SIZE and SAFE_PIECE_SIZE the plan succeeds exactly on a nonempty list of
      records that all encode. */
  lemma PlanSucceeds(records: seq<Record>, pieceSize: int)
    requires MIN_PIECE_SIZE <= pieceSize <= SAFE_PIECE_SIZE
    ensures Plan(records, pieceSize).Ok? <==> records != [] && AllEncodable(records)
  {
    hide LeafPage, InteriorPage, Compare;
    var sorted := StableSort(records);
    NoKeywordError(records);
    EncodableSorted(records);
    if records != [] && AllEncodable(records) {
      KeywordedSorted(records);
      LeavesSplitSafe(sorted, pieceSize);
      PackSucceeds(LeafFits(pieceSize), [], sorted);
      PackLeavesShape(sorted, pieceSize);
      TreeLevelsSucceed(PackLeaves(sorted, pieceSize).value, pieceSize);
    } else if Plan(records, pieceSize).Ok? {
      PlanIsPlanned(records, pieceSize);
      EncodableLeaves(Plan(records, pieceSize).value[0], pieceSize);
    }
  }

  lemma EncodableSorted(records: seq<Record>)
    ensures AllEncodable(StableSort(records)) <==> AllEncodable(records)
    ensures AllEncodable(records) ==> Keyworded(records)
  {
    var sorted := StableSort(records);
    StableSortPermutes(records);
    if AllEncodable(records) {
      forall k | 0 <= k < |sorted| ensures Encodable(sorted[k]) {
        assert sorted[k] in sorted;
      }
    }
    if AllEncodable(sorted) {
      forall k | 0 <= k < |records| ensures Encodable(records[k]) {
        assert records[k] in records;
      }
    }
  }

  lemma TreeLevelsSucceed(leaves: seq<Tree>, pieceSize: int)
    requires MIN_PIECE_SIZE <= pieceSize <= SAFE_PIECE_SIZE && leaves != [] && ShortKeys(leaves)
    ensures TreeLevels(leaves, pieceSize).Ok?
  {
    LevelsSucceed(leaves, pieceSize);
    InteriorSplitSafe(leaves, pieceSize);
    PackSucceeds(InteriorFits(pieceSize), [], leaves);
  }

  lemma {:induction false} EncodableLeaves(leaves: seq<Tree>, pieceSize: int)
    requires LeafRow(leaves, pieceSize)
    ensures AllEncodable(AllRecords(leaves))
    decreases |leaves|
  {
    if leaves != [] {
      EncodableLeaves(leaves[1..], pieceSize);
      NoRecordError(leaves[0].records);
    }
  }

  /** From 65551 bytes on, a full page can no longer overflow before its payload length does: the plan succeeds exactly
      when there are records, all encode, and the whole record stream fits one leaf payload. */
  lemma PlanSucceedsLargePieces(records: seq<Record>, pieceSize: int)
    requires MAX_UINT16 + HEADER_SIZE <= pieceSize <= MAX_PIECE_SIZE
    ensures Plan(records, pieceSize).Ok? <==>
              records != [] && AllEncodable(records) && |LeafPayload(StableSort(records))| <= MAX_UINT16
    ensures records != [] && AllEncodable(records) && Plan(records, pieceSize).Err? ==>
              Plan(records, pieceSize) == Err(PageFailed(PayloadTooLong))
  {
    if records != [] && AllEncodable(records) {
      LargePiecesEncodable(records, pieceSize);
    } else if Plan(records, pieceSize).Ok? {
      EncodableSorted(records);
      PlanIsPlanned(records, pieceSize);
      EncodableLeaves(Plan(records, pieceSize).value[0], pieceSize);
    }
  }

  lemma LargePiecesEncodable(records: seq<Record>, pieceSize: int)
    requires MAX_UINT16 + HEADER_SIZE <= pieceSize <= MAX_PIECE_SIZE
    requires records != [] && AllEncodable(records)
    ensures Plan(records, pieceSize).Ok? <==> |LeafPayload(StableSort(records))| <= MAX_UINT16
    ensures Plan(records, pieceSize).Err? ==> Plan(records, pieceSize) == Err(PageFailed(PayloadTooLong))
  {
    var sorted := StableSort(records);
    NoKeywordError(records);
    EncodableSorted(records);
    KeywordedSorted(records);
    LargePagePack([], sorted, pieceSize);
    assert [] + sorted == sorted;
    if |LeafPayload(sorted)| <= MAX_UINT16 {
      PackLeavesShape(sorted, pieceSize);
      var leaves := PackLeaves(sorted, pieceSize).value;
      assert |leaves| == 1;
      InteriorPairFits(leaves[0], leaves[0], pieceSize);
      assert leaves == [leaves[0]] && [] + [leaves[0]] == [leaves[0]];
      assert Pack(InteriorFits(pieceSize), leaves, []) == Ok([leaves]);
      assert leaves[1..] == [];
      assert Pack(InteriorFits(pieceSize), [], leaves).Ok?;
    }
  }

  lemma {:induction false} LargePagePack(cur: seq<Record>, rest: seq<Record>, pieceSize: int)
    requires pieceSize >= MAX_UINT16 + HEADER_SIZE
    requires cur == [] || LeafPage(0, cur, pieceSize).Ok?
    requires AllEncodable(rest)
    requires cur + rest != []
    ensures Pack(LeafFits(pieceSize), cur, rest)
         == if |LeafPayload(cur + rest)| <= MAX_UINT16 then Ok([cur + rest]) else Err(PageFailed(PayloadTooLong))
    decreases |rest|
  {
    if rest == [] {
      assert cur + rest == cur;
    } else {
      var x, more := rest[0], rest[1..];
      assert cur + rest == (cur + [x]) + more;
      LeafItemsPrefix(cur + [x], more);
      if cur == [] {
        assert cur + [x] == [x];
        NoRecordError([x]);
        LeafItemsAppend([], x);
        RecordFrame(x);
      } else {
        LeafGrowsBy(cur, x, pieceSize);
      }
      if LeafFits(pieceSize)(cur + [x]).Ok? {
        LargePagePack(cur + [x], more, pieceSize);
      }
    }
  }

  lemma {:induction false} LeafItemsPrefix(a: seq<Record>, b: seq<Record>)
    ensures |LeafItems(a + b)| >= |LeafItems(a)|
    decreases |a|
  {
    if a != [] {
      LeafItemsPrefix(a[1..], b);
      assert (a + b)[1..] == a[1..] + b;
    }
  }
}
