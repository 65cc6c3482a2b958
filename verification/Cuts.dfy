/** Exactly when a plan succeeds, for every piece size: items are cut into runs by size alone, and no run together with
    the item that closed it may outgrow the 16-bit payload length. */
module Cuts {
  import opened Wrappers
  import opened Bytes
  import opened Records
  import opened Pages
  import opened Sorting
  import opened Trees

  // ---- cutting by size ----

  /** The greedy cut by size alone: a run grows while it fits the room; the item that does not fit opens the next
      run. */
  function Cut<T>(size: seq<T> -> nat, room: int, cur: seq<T>, rest: seq<T>): seq<seq<T>>
    decreases |rest|
  {
    if rest == [] then (if cur == [] then [] else [cur])
    else if cur == [] || size(cur + [rest[0]]) <= room then Cut(size, room, cur + [rest[0]], rest[1..])
    else [cur] + Cut(size, room, [rest[0]], rest[1..])
  }

  /** Run k with the item that closed it, if one did. */
  function Closed<T>(runs: seq<seq<T>>, k: nat): seq<T>
    requires k < |runs|
  {
    if k + 1 < |runs| && runs[k + 1] != [] then runs[k] + [runs[k + 1][0]] else runs[k]
  }

  ghost predicate Within<T>(size: seq<T> -> nat, runs: seq<seq<T>>) {
    forall k :: 0 <= k < |runs| ==> size(Closed(runs, k)) <= MAX_UINT16
  }

  lemma WithinCons<T>(size: seq<T> -> nat, run: seq<T>, runs: seq<seq<T>>)
    requires runs != [] && runs[0] != []
    ensures Within(size, [run] + runs) <==> size(run + [runs[0][0]]) <= MAX_UINT16 && Within(size, runs)
  {
    var all := [run] + runs;
    assert Closed(all, 0) == run + [runs[0][0]];
    forall k | 0 <= k < |runs| ensures Closed(all, k + 1) == Closed(runs, k) {
    }
    if Within(size, all) {
      forall k | 0 <= k < |runs| ensures size(Closed(runs, k)) <= MAX_UINT16 {
        assert Closed(all, k + 1) == Closed(runs, k);
      }
    }
    if size(run + [runs[0][0]]) <= MAX_UINT16 && Within(size, runs) {
      forall k | 0 <= k < |all| ensures size(Closed(all, k)) <= MAX_UINT16 {
        if k > 0 { assert Closed(all, k) == Closed(runs, k - 1); }
      }
    }
  }

  /** Items only add to the size. */
  ghost predicate Grows<T(!new)>(size: seq<T> -> nat, items: seq<T>) {
    forall cur: seq<T>, x :: x in items ==> size(cur) <= size(cur + [x])
  }

  lemma GrowsRest<T(!new)>(size: seq<T> -> nat, items: seq<T>)
    requires Grows(size, items) && items != []
    ensures Grows(size, items[1..])
  {
    forall cur: seq<T>, x | x in items[1..] ensures size(cur) <= size(cur + [x]) {
      assert x in items;
    }
  }

  /** The first run starts with what is current, and is no smaller, nor is it when closed. */
  lemma {:induction false} CutStarts<T(!new)>(size: seq<T> -> nat, room: int, cur: seq<T>, rest: seq<T>)
    requires cur != [] && Grows(size, rest)
    ensures var runs := Cut(size, room, cur, rest);
            runs != [] && cur <= runs[0] && size(cur) <= size(Closed(runs, 0))
    decreases |rest|
  {
    if rest != [] {
      GrowsRest(size, rest);
      assert rest[0] in rest;
      if size(cur + [rest[0]]) <= room {
        CutStarts(size, room, cur + [rest[0]], rest[1..]);
      } else {
        CutStarts(size, room, [rest[0]], rest[1..]);
        var runs := Cut(size, room, [rest[0]], rest[1..]);
        assert Closed([cur] + runs, 0) == cur + [rest[0]];
      }
    }
  }

  /** What a page test decides by size: it accepts within the room and the 16-bit length, overflows between the two, and
      anything past the length is another error. */
  ghost predicate BySize<T(!new)>(page: seq<T> -> Result<bytes, PageError>, size: seq<T> -> nat, room: int,
                           items: seq<T>) {
    && (forall x :: x in items ==> page([x]).Ok?)
    && (forall cur, x :: page(cur).Ok? && x in items ==>
          var n := size(cur + [x]);
          (page(cur + [x]).Ok? <==> n <= room && n <= MAX_UINT16)
            && (page(cur + [x]) == Err(Overflow) <==> room < n <= MAX_UINT16))
  }

  lemma BySizeRest<T(!new)>(page: seq<T> -> Result<bytes, PageError>, size: seq<T> -> nat, room: int, items: seq<T>)
    requires BySize(page, size, room, items) && items != []
    ensures BySize(page, size, room, items[1..])
  {
    assert forall x :: x in items[1..] ==> x in items;
  }

  /** Packing is the cut, and succeeds exactly when the cut stays within the length. */
  lemma {:induction false} PackIsCut<T(!new)>(page: seq<T> -> Result<bytes, PageError>, size: seq<T> -> nat, room: int,
                                              cur: seq<T>, rest: seq<T>)
    requires BySize(page, size, room, rest) && Grows(size, rest)
    requires cur == [] || (page(cur).Ok? && size(cur) <= MAX_UINT16)
    requires forall x :: x in rest ==> size([x]) <= MAX_UINT16
    ensures Pack(page, cur, rest).Ok? <==> Within(size, Cut(size, room, cur, rest))
    ensures Pack(page, cur, rest).Ok? ==> Pack(page, cur, rest).value == Cut(size, room, cur, rest)
    decreases |rest|
  {
    if rest == [] {
      if cur != [] { assert Closed([cur], 0) == cur; }
    } else {
      var x, more := rest[0], rest[1..];
      assert x in rest && [] + [x] == [x];
      BySizeRest(page, size, room, rest);
      GrowsRest(size, rest);
      if page(cur + [x]).Ok? {
        PackIsCut(page, size, room, cur + [x], more);
      } else {
        CutStarts(size, room, cur + [x], more);
        CutStarts(size, room, [x], more);
        WithinCons(size, cur, Cut(size, room, [x], more));
        PackIsCut(page, size, room, [x], more);
      }
    }
  }

  // ---- leaves ----

  function LeafSize(): seq<Record> -> nat {
    rs => |LeafPayload(rs)|
  }

  function Room(pieceSize: int): int {
    pieceSize - HEADER_SIZE
  }

  lemma LeavesBySize(rs: seq<Record>, pieceSize: int)
    requires AllEncodable(rs) && pieceSize >= MIN_PIECE_SIZE
    ensures BySize(LeafFits(pieceSize), LeafSize(), Room(pieceSize), rs) && Grows(LeafSize(), rs)
    ensures forall x :: x in rs ==> LeafSize()([x]) <= MAX_UINT16
  {
    hide RecordBytes;
    var page := LeafFits(pieceSize);
    forall x | x in rs ensures page([x]).Ok? && LeafSize()([x]) <= MAX_UINT16 {
      NoRecordError([x]);
      LeafItemsAppend([], x);
      assert [] + [x] == [x];
      RecordFrame(x);
    }
    forall cur, x | page(cur).Ok? && x in rs
      ensures var n := LeafSize()(cur + [x]);
              (page(cur + [x]).Ok? <==> n <= Room(pieceSize) && n <= MAX_UINT16) &&
              (page(cur + [x]) == Err(Overflow) <==> Room(pieceSize) < n <= MAX_UINT16)
    {
      LeafGrowsBy(cur, x, pieceSize);
    }
    forall cur: seq<Record>, x | x in rs ensures LeafSize()(cur) <= LeafSize()(cur + [x]) {
      LeafItemsAppend(cur, x);
    }
  }

  /** The leaf runs of the sorted records. */
  function LeafRuns(sorted: seq<Record>, pieceSize: int): seq<seq<Record>> {
    Cut(LeafSize(), Room(pieceSize), [], sorted)
  }

  lemma LeavesExactly(sorted: seq<Record>, pieceSize: int)
    requires AllEncodable(sorted) && pieceSize >= MIN_PIECE_SIZE
    ensures PackLeaves(sorted, pieceSize).Ok? <==> Within(LeafSize(), LeafRuns(sorted, pieceSize))
    ensures PackLeaves(sorted, pieceSize).Ok? ==>
             PackLeaves(sorted, pieceSize).value == LeafTrees(LeafRuns(sorted, pieceSize))
  {
    hide LeafFits, LeafSize, Pack, Cut, Within;
    LeavesBySize(sorted, pieceSize);
    PackIsCut(LeafFits(pieceSize), LeafSize(), Room(pieceSize), [], sorted);
  }

  // ---- interior levels ----

  function InteriorSize(): seq<Tree> -> nat {
    ts => |InteriorPayload(WireChildren(ts))|
  }

  lemma InteriorGrows(cur: seq<Tree>, x: Tree)
    ensures InteriorSize()(cur) <= InteriorSize()(cur + [x])
  {
    if cur != [] {
      WireChildrenAppend(cur, x);
      InteriorItemsAppend(FirstEmptied(WireChildren(cur)), InteriorChild(MinKey(x), 0));
    }
  }

  lemma InteriorsBySize(ts: seq<Tree>, pieceSize: int)
    requires ShortKeys(ts) && pieceSize >= MIN_PIECE_SIZE
    ensures BySize(InteriorFits(pieceSize), InteriorSize(), Room(pieceSize), ts) && Grows(InteriorSize(), ts)
    ensures forall x :: x in ts ==> InteriorSize()([x]) <= MAX_UINT16
  {
    var page := InteriorFits(pieceSize);
    forall x | x in ts ensures page([x]).Ok? && InteriorSize()([x]) <= MAX_UINT16 {
      InteriorPairFits(x, x, pieceSize);
    }
    forall cur, x | page(cur).Ok? && x in ts
      ensures var n := InteriorSize()(cur + [x]);
              (page(cur + [x]).Ok? <==> n <= Room(pieceSize) && n <= MAX_UINT16) &&
              (page(cur + [x]) == Err(Overflow) <==> Room(pieceSize) < n <= MAX_UINT16)
    {
      InteriorGrowsBy(cur, x, pieceSize);
    }
    forall cur: seq<Tree>, x | x in ts ensures InteriorSize()(cur) <= InteriorSize()(cur + [x]) {
      InteriorGrows(cur, x);
    }
  }

  /** The runs of one interior level. */
  function InteriorRuns(ts: seq<Tree>, pieceSize: int): seq<seq<Tree>> {
    Cut(InteriorSize(), Room(pieceSize), [], ts)
  }

  lemma InteriorExactly(ts: seq<Tree>, pieceSize: int)
    requires ShortKeys(ts) && pieceSize >= MIN_PIECE_SIZE
    ensures PackInterior(ts, pieceSize).Ok? <==> Within(InteriorSize(), InteriorRuns(ts, pieceSize))
    ensures PackInterior(ts, pieceSize).Ok? ==>
             PackInterior(ts, pieceSize).value == Branches(InteriorRuns(ts, pieceSize))
  {
    hide InteriorFits, InteriorSize, Pack, Cut, Within;
    InteriorsBySize(ts, pieceSize);
    PackIsCut(InteriorFits(pieceSize), InteriorSize(), Room(pieceSize), [], ts);
  }

  /** Every interior level over ts is cut within the length; each is shorter than the one below, up to a single root. */
  ghost predicate LevelsWithin(ts: seq<Tree>, pieceSize: int)
    decreases |ts|
  {
    |ts| <= 1 ||
    var up := Branches(InteriorRuns(ts, pieceSize));
    Within(InteriorSize(), InteriorRuns(ts, pieceSize)) && |up| < |ts| && LevelsWithin(up, pieceSize)
  }

  lemma {:induction false} LevelsExactly(ts: seq<Tree>, pieceSize: int)
    requires ts != [] && ShortKeys(ts) && pieceSize >= MIN_PIECE_SIZE
    ensures Levels(ts, pieceSize).Ok? <==> LevelsWithin(ts, pieceSize)
    decreases |ts|
  {
    hide PackInterior, InteriorRuns, InteriorSize, Within, ShortKeys, BranchesFit;
    if |ts| > 1 {
      InteriorExactly(ts, pieceSize);
      if PackInterior(ts, pieceSize).Ok? {
        PackInteriorShape(ts, pieceSize);
        LevelsExactly(PackInterior(ts, pieceSize).value, pieceSize);
      }
    }
  }

  /** A lone leaf's root always fits. */
  lemma LoneRoot(leaf: Tree, pieceSize: int)
    requires ShortKeys([leaf]) && pieceSize >= MIN_PIECE_SIZE
    ensures PackInterior([leaf], pieceSize).Ok?
  {
    assert [leaf][0] == leaf;
    InteriorPairFits(leaf, leaf, pieceSize);
    assert [] + [leaf] == [leaf] && [leaf][1..] == [];
    assert Pack(InteriorFits(pieceSize), [leaf], []) == Ok([[leaf]]);
  }

  // ---- the whole plan ----

  /** What planning needs, all of it computable from the records' sizes and keys before the build. */
  ghost predicate Plannable(records: seq<Record>, pieceSize: int) {
    && 16384 <= pieceSize <= 4_194_304 && records != [] && AllEncodable(records)
    && var runs := LeafRuns(StableSort(records), pieceSize);
    Within(LeafSize(), runs) && LevelsWithin(LeafTrees(runs), pieceSize)
  }

  /** For every piece size, planning succeeds exactly when the records are plannable. */
  lemma PlanExactly(records: seq<Record>, pieceSize: int)
    ensures Plan(records, pieceSize).Ok? <==> Plannable(records, pieceSize)
  {
    hide LeafPage, InteriorPage, PackLeaves, TreeLevels, LeafRuns, LevelsWithin, Within, StableSort, ShortKeys,
      LeafRow, Encodable;
    NoKeywordError(records);
    EncodableSorted(records);
    if MIN_PIECE_SIZE <= pieceSize <= MAX_PIECE_SIZE && records != [] {
      if AllEncodable(records) {
        KeywordedSorted(records);
        LeavesExactly(StableSort(records), pieceSize);
        if PackLeaves(StableSort(records), pieceSize).Ok? {
          PackLeavesShape(StableSort(records), pieceSize);
          TreeLevelsExactly(PackLeaves(StableSort(records), pieceSize).value, pieceSize);
        }
      } else if Plan(records, pieceSize).Ok? {
        PlanIsPlanned(records, pieceSize);
        EncodableLeaves(Plan(records, pieceSize).value[0], pieceSize);
      }
    }
  }

  lemma TreeLevelsExactly(leaves: seq<Tree>, pieceSize: int)
    requires leaves != [] && ShortKeys(leaves) && pieceSize >= MIN_PIECE_SIZE
    ensures TreeLevels(leaves, pieceSize).Ok? <==> LevelsWithin(leaves, pieceSize)
  {
    hide PackInterior, ShortKeys, LevelsWithin;
    LevelsExactly(leaves, pieceSize);
    if |leaves| == 1 {
      assert leaves == [leaves[0]];
      LoneRoot(leaves[0], pieceSize);
    } else if Levels(leaves, pieceSize).Ok? {
      LevelsStacked(leaves, pieceSize);
    }
  }
}
