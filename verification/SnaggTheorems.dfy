/** The SNAGG index end to end: built files open, queries on them are linear scans, the
    fingerprint binds the leaves to the signed record sequence. */
module SnaggTheorems {
  import opened Wrappers
  import opened Collections
  import opened Bytes
  import opened Records
  import opened Pages
  import opened Sorting
  import opened Trees
  import opened Cuts
  import opened Layout
  import opened Read
  import opened Build
  import opened SnaggProofs

  /** A build that succeeded: its plan, its trailer, and the source a reader opens. */
  lemma BuiltParts(c: Crypto, input: BuildInput, now: Int64) returns (levels: seq<seq<Tree>>, t: Trailer,
                   src: PageSource)
    requires BuildResult(c, input, now).Ok?
    ensures var built := BuildResult(c, input, now).value;
            src == FileSource(built.data, built.pieceSize)
              && |src| == built.numPages == Total(levels) + 1 <= PIECE_LIMIT
    ensures LaidOut(src, levels, StableSort(input.records), input.pieceSize) && Total(levels) >= 2
    ensures t == BuildTrailer(c, input, Total(levels), |input.records|,
             c.sha256(RecordStream(StableSort(input.records))), now)
    ensures src[|src| - 1] == Some(TrailerPageOf(t, input.pieceSize)) && input.pieceSize >= MIN_PIECE_SIZE
  {
    hide LeafPage, InteriorPage, Planned, LaidOut, DataPages;
    var sorted := StableSort(input.records);
    levels := Plan(input.records, input.pieceSize).value;
    PlanIsPlanned(input.records, input.pieceSize);
    PlanSize(input.records, input.pieceSize);
    PlannedMeans(levels, sorted, input.pieceSize);
    AtLeastTwoPieces(levels, sorted, input.pieceSize);
    StableSortLength(input.records);
    t := BuildTrailer(c, input, Total(levels), |sorted|, c.sha256(RecordStream(sorted)), now);
    var tp := TrailerPageOf(t, input.pieceSize);
    FileLaidOut(levels, sorted, input.pieceSize, tp);
    FilePieces(levels, sorted, input.pieceSize, tp);
    src := FileSource(TreeFile(levels, input.pieceSize, tp), input.pieceSize);
  }

  lemma AtLeastTwoPieces(levels: seq<seq<Tree>>, sorted: seq<Record>, pieceSize: int)
    requires Planned(levels, sorted, pieceSize) && sorted != []
    ensures Total(levels) >= 2
  {
    hide LeafPage, InteriorPage;
    OffMonotone(levels, |levels| - 1, 0);
  }

  /** Opening any build, signed or not: it is accepted exactly when its page count fits 32 bits and the signature in its
      trailer verifies under the publisher's key over the trailer's fields. */
  lemma BuiltOpensExactly(c: Crypto, input: BuildInput, now: Int64)
    requires BuildResult(c, input, now).Ok?
    ensures var built := BuildResult(c, input, now).value;
            var t := TrailerOf(c, input, now);
            OpenBTree(c, FileSource(built.data, built.pieceSize)).Ok? <==>
              built.numPages < PIECE_LIMIT && c.verify(input.pubKey, TrailerFields(t), t.publisherSig)
  {
    hide LaidOut, DecodeTrailer, TrailerPage, OpenBTree, TrailerFields, FileSource, StableSort, TrailerPageOf,
         RecordStream,
      BuildResult, TrailerOf, BuildTrailer, Total;
    var levels, t, src := BuiltParts(c, input, now);
    BuiltTrailerIs(c, input, now, Total(levels), t);
    OpensOnlyVerified(c, src, t, input.pieceSize);
  }

  /** An unsigned build carries sixty-four zero bytes, so it opens only if those happen to verify. */
  lemma UnsignedOpensExactly(c: Crypto, input: BuildInput, now: Int64)
    requires BuildResult(c, input, now).Ok? && input.privKey == None
    ensures var built := BuildResult(c, input, now).value;
            OpenBTree(c, FileSource(built.data, built.pieceSize)).Ok? <==>
              built.numPages < PIECE_LIMIT && c.verify(input.pubKey, TrailerFields(TrailerOf(c, input, now)), Zeros(64))
  {
    hide BuildResult, OpenBTree, TrailerFields;
    BuiltOpensExactly(c, input, now);
  }

  /** The trailer a build writes. */
  function TrailerOf(c: Crypto, input: BuildInput, now: Int64): Trailer
    requires BuildResult(c, input, now).Ok?
  {
    var built := BuildResult(c, input, now).value;
    var dataPages := if built.numPages == 0 then 0 else built.numPages - 1;
    BuildTrailer(c, input, dataPages, |input.records|, built.fingerprint, now)
  }

  lemma BuiltTrailerIs(c: Crypto, input: BuildInput, now: Int64, dataPages: nat, t: Trailer)
    requires BuildResult(c, input, now).Ok? && BuildResult(c, input, now).value.numPages == dataPages + 1
    requires t == BuildTrailer(c, input, dataPages, |input.records|,
                    c.sha256(RecordStream(StableSort(input.records))), now)
    ensures t == TrailerOf(c, input, now) && t.version == TRAILER_VERSION && t.rootPieceIndex == 0
    ensures t.pubKey == input.pubKey && t.numPages == (dataPages + 1) % PIECE_LIMIT
  {
    hide BuildResult;
    BuiltFingerprint(c, input, now);
  }

  /** A source whose last piece is a well-formed trailer opens exactly when the signature verifies and the pages
      match. */
  lemma OpensOnlyVerified(c: Crypto, src: PageSource, t: Trailer, pieceSize: int)
    requires |src| >= 3 && t.version == TRAILER_VERSION && pieceSize >= MIN_PIECE_SIZE
    requires src[|src| - 1] == Some(TrailerPageOf(t, pieceSize)) && t.rootPieceIndex == 0
    ensures OpenBTree(c, src).Ok? <==> t.numPages == |src| && c.verify(t.pubKey, TrailerFields(t), t.publisherSig)
  {
    hide DecodeTrailer, TrailerFields;
    TrailerRoundTrip(t, pieceSize);
  }

  /** Opening a signed build: it is accepted exactly when its page count fits 32 bits, and then
      gives back the trailer that was signed. */
  lemma BuiltOpens(c: Crypto, input: BuildInput, now: Int64, key: PrivateKey)
    requires c.SignaturesVerify() && input.privKey == Some(key) && input.pubKey == c.publicKey(key)
    requires BuildResult(c, input, now).Ok?
    ensures var built := BuildResult(c, input, now).value;
            var tree := OpenBTree(c, FileSource(built.data, built.pieceSize));
            (tree.Ok? <==> built.numPages < PIECE_LIMIT) &&
            (tree.Ok? ==> tree.value.minPoWBits == input.minPoWBits && tree.value.pubKey == input.pubKey &&
                            tree.value.fingerprint == built.fingerprint &&
                            tree.value.numRecords == |input.records| % UINT64_LIMIT &&
                            tree.value.seqNo == input.seqNo &&
                            tree.value.createdTs == Uint64Of(if input.createdTs == 0 then now else input.createdTs))
  {
    hide LaidOut, DecodeTrailer, TrailerPage, OpenBTree, BuildResult, TrailerFields, BuildTrailer, FileSource, Total,
         StableSort, TrailerPageOf, TrailerVerifies, RecordStream;
    var levels, t, src := BuiltParts(c, input, now);
    var fp := c.sha256(RecordStream(StableSort(input.records)));
    BuiltTrailerVerifies(c, input, Total(levels), |input.records|, fp, now, key);
    OpensWith(c, src, t, input.pieceSize);
    BuiltFingerprint(c, input, now);
  }

  lemma BuiltFingerprint(c: Crypto, input: BuildInput, now: Int64)
    requires BuildResult(c, input, now).Ok?
    ensures BuildResult(c, input, now).value.fingerprint == c.sha256(RecordStream(StableSort(input.records)))
  {
  }

  lemma BuiltTrailerVerifies(c: Crypto, input: BuildInput, dataPages: nat, numRecords: nat, fp: Bytes32, now: Int64,
                             key: PrivateKey)
    requires c.SignaturesVerify() && input.privKey == Some(key) && input.pubKey == c.publicKey(key)
    ensures var t := BuildTrailer(c, input, dataPages, numRecords, fp, now);
            TrailerVerifies(c, t) && t.version == TRAILER_VERSION && t.rootPieceIndex == 0 &&
              t.pubKey == input.pubKey &&
            t.numPages == (dataPages + 1) % PIECE_LIMIT && t.numRecords == numRecords % UINT64_LIMIT &&
            t.minPoWBits == input.minPoWBits && t.fingerprint == fp && t.seqNo == input.seqNo &&
            t.createdTs == Uint64Of(if input.createdTs == 0 then now else input.createdTs)
  {
    var t := BuildTrailer(c, input, dataPages, numRecords, fp, now);
    var unsigned := t.(publisherSig := Zeros(64));
    assert TrailerFields(t) == TrailerFields(unsigned);
  }

  /** A source whose last piece is a verifying trailer opens exactly when the trailer counts its pieces. */
  lemma OpensWith(c: Crypto, src: PageSource, t: Trailer, pieceSize: int)
    requires |src| >= 3 && t.version == TRAILER_VERSION && pieceSize >= MIN_PIECE_SIZE
    requires src[|src| - 1] == Some(TrailerPageOf(t, pieceSize)) && TrailerVerifies(c, t) && t.rootPieceIndex == 0
    ensures OpenBTree(c, src) == if t.numPages == |src| then Ok(t) else Err(PageCountMismatch)
  {
    hide DecodeTrailer, TrailerVerifies;
    TrailerRoundTrip(t, pieceSize);
  }

  /** BUILD, OPEN, FIND: on a signed build that opens, every prefix query returns, in order,
      exactly the sorted input records whose keyword has the prefix and which verify. */
  lemma BuiltFinds(c: Crypto, input: BuildInput, now: Int64, key: PrivateKey, prefix: bytes)
    requires c.SignaturesVerify() && input.privKey == Some(key) && input.pubKey == c.publicKey(key)
    requires BuildResult(c, input, now).Ok? && BuildResult(c, input, now).value.numPages < PIECE_LIMIT
    ensures var built := BuildResult(c, input, now).value;
            var src := FileSource(built.data, built.pieceSize);
            var tree := OpenBTree(c, src);
            tree.Ok? && FindIn(c, View(src), tree.value, prefix)
                          == Ok(Hits(c, input.minPoWBits, prefix, StableSort(input.records)))
  {
    hide LaidOut, OpenBTree, FindIn;
    BuiltOpens(c, input, now, key);
    var levels, t, src := BuiltParts(c, input, now);
    StableSortSorted(input.records);
    FindIsLinearScan(c, src, levels, StableSort(input.records), input.pieceSize, OpenBTree(c, src).value, prefix);
  }

  /** The same without naming any test: the answer is what a filter keeps of the sorted input, in order, the filter
      asking for the prefix, a signature that verifies under the record's own key, and the zero bits the trailer asks
      for; so a record is answered exactly when it was given to the build and passes. */
  lemma BuiltAnswers(c: Crypto, input: BuildInput, now: Int64, key: PrivateKey, prefix: bytes)
    requires c.SignaturesVerify() && input.privKey == Some(key) && input.pubKey == c.publicKey(key)
    requires BuildResult(c, input, now).Ok? && BuildResult(c, input, now).value.numPages < PIECE_LIMIT
    ensures var built := BuildResult(c, input, now).value;
            var src := FileSource(built.data, built.pieceSize);
            var tree := OpenBTree(c, src);
            && tree.Ok? && FindIn(c, View(src), tree.value, prefix).Ok?
            && var answer := FindIn(c, View(src), tree.value, prefix).value;
            && Filters(StableSort(input.records), Passes(c, input.minPoWBits, prefix), answer)
            && forall r :: r in answer <==>
                 r in input.records && prefix <= r.kw && c.verify(r.pk, SigMessage(r), r.sig) &&
                 (input.minPoWBits > 0 ==> LeadingZeroBits(c.sha256(SigMessage(r))) >= input.minPoWBits)
  {
    hide BuildResult, OpenBTree, FindIn, Filters, Hits, StableSort, SigMessage, LeadingZeroBits, View, FileSource;
    var sorted := StableSort(input.records);
    BuiltFinds(c, input, now, key, prefix);
    var answer := Hits(c, input.minPoWBits, prefix, sorted);
    HitsFilter(c, input.minPoWBits, prefix, sorted);
    StableSortPermutes(input.records);
    SameElements(sorted, input.records);
    forall r ensures r in answer <==> r in input.records && Passes(c, input.minPoWBits, prefix)(r) {
      FiltersMembers(sorted, Passes(c, input.minPoWBits, prefix), answer, r);
    }
  }

  /** From 16384 to 65293 bytes, up to 2^30 records, BuildBTree succeeds exactly on a
      nonempty list of records that encode, and its tree always opens. */
  lemma BuildSucceeds(c: Crypto, input: BuildInput, now: Int64)
    requires 16384 <= input.pieceSize <= 65293 && |input.records| <= 0x4000_0000
    ensures BuildResult(c, input, now).Ok? <==> input.records != [] && AllEncodable(input.records)
    ensures BuildResult(c, input, now).Ok? ==> BuildResult(c, input, now).value.numPages < PIECE_LIMIT
  {
    hide LeafPage, InteriorPage, Plan;
    PlanSucceeds(input.records, input.pieceSize);
    if Plan(input.records, input.pieceSize).Ok? {
      PlanIsPlanned(input.records, input.pieceSize);
      PlanSize(input.records, input.pieceSize);
      TotalCounts(Plan(input.records, input.pieceSize).value);
    }
  }

  /** For every piece size, up to 2^30 records, BuildBTree succeeds exactly when the records are plannable: legal size,
      nonempty, all encode, and the cut by size at every level stays within the 16-bit payload length. */
  lemma BuildSucceedsExactly(c: Crypto, input: BuildInput, now: Int64)
    requires |input.records| <= 0x4000_0000
    ensures BuildResult(c, input, now).Ok? <==> Plannable(input.records, input.pieceSize)
  {
    hide LeafPage, InteriorPage, Plan, Plannable;
    PlanExactly(input.records, input.pieceSize);
    if Plan(input.records, input.pieceSize).Ok? {
      PlanIsPlanned(input.records, input.pieceSize);
      PlanSize(input.records, input.pieceSize);
      TotalCounts(Plan(input.records, input.pieceSize).value);
    }
  }

  /** From 65551 bytes on BuildBTree succeeds exactly when there are records, all encode, and they fit one leaf payload;
      otherwise encodable records fail with the payload-length error, which is not the overflow that would split. */
  lemma BuildSucceedsLargePieces(c: Crypto, input: BuildInput, now: Int64)
    requires MAX_UINT16 + HEADER_SIZE <= input.pieceSize <= MAX_PIECE_SIZE
    ensures BuildResult(c, input, now).Ok? <==>
              input.records != [] && AllEncodable(input.records)
                && |LeafPayload(StableSort(input.records))| <= MAX_UINT16
    ensures input.records != [] && AllEncodable(input.records) && BuildResult(c, input, now).Err? ==>
              BuildResult(c, input, now) == Err(PageFailed(PayloadTooLong))
  {
    hide LeafPage, InteriorPage, Plan, LeafPayload, StableSort;
    var records, pieceSize := input.records, input.pieceSize;
    PlanSucceedsLargePieces(records, pieceSize);
    if Plan(records, pieceSize).Ok? {
      FewRecords(StableSort(records));
      StableSortLength(records);
      EncodableSorted(records);
      PlanIsPlanned(records, pieceSize);
      PlanSize(records, pieceSize);
      TotalCounts(Plan(records, pieceSize).value);
    }
  }

  /** One leaf payload holds fewer than 649 records. */
  lemma FewRecords(rs: seq<Record>)
    ensures AllEncodable(rs) && |LeafPayload(rs)| <= MAX_UINT16 ==> |rs| < 649
  {
    if AllEncodable(rs) { LeafItemsLeast(rs); }
  }

  /** So any 649 encodable records build at the least piece size and fail at every one from 65551 bytes on. */
  lemma LargePiecesFail(c: Crypto, input: BuildInput, now: Int64, large: int)
    requires AllEncodable(input.records) && 649 <= |input.records| <= 0x4000_0000 && input.pieceSize == MIN_PIECE_SIZE
    requires MAX_UINT16 + HEADER_SIZE <= large <= MAX_PIECE_SIZE
    ensures BuildResult(c, input, now).Ok?
    ensures BuildResult(c, input.(pieceSize := large), now) == Err(PageFailed(PayloadTooLong))
  {
    hide BuildResult, LeafPayload, StableSort;
    BuildSucceeds(c, input, now);
    BuildSucceedsLargePieces(c, input.(pieceSize := large), now);
    StableSortLength(input.records);
    EncodableSorted(input.records);
    FewRecords(StableSort(input.records));
  }

  /** Such records exist: 649 copies of one with a one-byte keyword. */
  lemma EncodableCopies()
    ensures var r := Record(Zeros(32), [97], Zeros(20), 0, 0, Zeros(64));
            AllEncodable(seq(649, _ => r)) && |seq(649, _ => r)| == 649
  {
    RecordFits(Record(Zeros(32), [97], Zeros(20), 0, 0, Zeros(64)));
  }

  /** With distinct record keys neither success nor the bytes depend on the order of the input records; nor does the
      error, unless a keyword is empty or too long, when both orders fail and may name different records. */
  lemma BuildOrderIndependent(c: Crypto, input: BuildInput, records: seq<Record>, now: Int64)
    requires multiset(records) == multiset(input.records) && DistinctKeys(input.records)
    ensures var one, two := BuildResult(c, input, now), BuildResult(c, input.(records := records), now);
            one == two || (!Keyworded(input.records) && one.Err? && two.Err?)
  {
    SameElements(records, input.records);
    NoKeywordError(records);
    NoKeywordError(input.records);
    if Keyworded(input.records) {
      forall k | 0 <= k < |records| ensures 1 <= |records[k].kw| <= MAX_KEYWORD_BYTES {
        assert records[k] in records;
      }
      KeywordedOrderIndependent(c, input, records, now);
    } else {
      forall k | 0 <= k < |input.records| && Keyworded(records)
        ensures 1 <= |input.records[k].kw| <= MAX_KEYWORD_BYTES {
        assert input.records[k] in records;
      }
    }
  }

  lemma KeywordedOrderIndependent(c: Crypto, input: BuildInput, records: seq<Record>, now: Int64)
    requires multiset(records) == multiset(input.records) && DistinctKeys(input.records)
    requires Keyworded(input.records) && Keyworded(records)
    ensures BuildResult(c, input, now) == BuildResult(c, input.(records := records), now)
  {
    hide LeafPage, InteriorPage, PackLeaves, TreeLevels, Written;
    var other := input.(records := records);
    SortOrderIndependent(input.records, records);
    SameElements(records, input.records);
    NoKeywordError(records);
    NoKeywordError(input.records);
    assert Plan(records, input.pieceSize) == Plan(input.records, input.pieceSize);
    if Plan(records, input.pieceSize).Ok? {
      PlanIsPlanned(records, input.pieceSize);
      PlanSize(records, input.pieceSize);
      SameWriting(c, input, other, now, Plan(records, input.pieceSize).value);
    }
  }

  lemma SameWriting(c: Crypto, input: BuildInput, other: BuildInput, now: Int64, levels: seq<seq<Tree>>)
    requires levels != [] && input.pieceSize >= MIN_PIECE_SIZE && other == input.(records := other.records)
    requires StableSort(input.records) == StableSort(other.records)
    ensures Written(c, input, now, levels) == Written(c, other, now, levels)
  {
    hide TreeFile, TrailerPageOf;
  }

  // ---- the fingerprint ----

  /** The record stream determines the records. */
  lemma {:induction false} StreamInjective(a: seq<Record>, b: seq<Record>)
    requires RecordStream(a) == RecordStream(b)
    ensures a == b
    decreases |a|
  {
    if a == [] || b == [] {
    } else {
      RecordPrefixFree(a[0], RecordStream(a[1..]), b[0], RecordStream(b[1..]));
      StreamInjective(a[1..], b[1..]);
      assert a == [a[0]] + a[1..] && b == [b[0]] + b[1..];
    }
  }

  /** FINGERPRINT BINDING: under a trailer whose fingerprint was computed over `sorted`, pieces that pass
      VerifyFingerprint (those of a source are View(src)) hold exactly those records in their leaves, in piece order,
      unless the two record streams are themselves a collision of the hash. */
  lemma FingerprintBinds(c: Crypto, pieces: seq<PieceView>, t: Trailer, sorted: seq<Record>)
    requires t.fingerprint == c.sha256(RecordStream(sorted)) && FingerprintHolds(c, pieces, t)
    ensures var rs := LeafRecords(pieces, 0);
            rs.Some? && (rs.value == sorted <==> !c.Collide(RecordStream(rs.value), RecordStream(sorted)))
  {
    var rs := LeafRecords(pieces, 0).value;
    if RecordStream(rs) == RecordStream(sorted) { StreamInjective(rs, sorted); }
  }

  /** One piece of a shown tree: a leaf adds its records, another node adds none. */
  lemma LeafRecordsAt(pieces: seq<PieceView>, levels: seq<seq<Tree>>, l: nat, j: nat)
    requires Shown(pieces, levels) && l < |levels| && j < |levels[l]|
    ensures levels[l][j].Leaf? <==> l == 0
    ensures LeafRecords(pieces, Off(levels, l) + j)
         == After(if l == 0 then levels[0][j].records else [], LeafRecords(pieces, Off(levels, l) + j + 1))
  {
    hide PlacedChildren, Shown, FirstEmptied, Off, After;
    ShownMeans(pieces, levels);
    ShownNode(pieces, levels, l, j);
    assert pieces[Off(levels, l) + j] == NodeView(levels, l, j);
  }

  lemma LeafRecordsEnd(pieces: seq<PieceView>, levels: seq<seq<Tree>>)
    requires Shown(pieces, levels) && levels != []
    ensures LeafRecords(pieces, Off(levels, 0) + |levels[0]|) == Some([])
  {
    hide Shown;
    ShownMeans(pieces, levels);
  }

  /** The leaves of a shown tree, read from piece Off(l) + j on, hold what the plan put there. */
  lemma {:induction false} LeafRecordsFrom(pieces: seq<PieceView>, levels: seq<seq<Tree>>, l: nat, j: nat)
    requires Shown(pieces, levels) && l < |levels| && j <= |levels[l]|
    ensures LeafRecords(pieces, Off(levels, l) + j)
         == Some(if l == 0 then AllRecords(levels[0][j..]) else AllRecords(levels[0]))
    decreases l, |levels[l]| - j
  {
    hide Shown, LeafRecords, AllRecords, RecordsOf;
    if j < |levels[l]| {
      LeafRecordsAt(pieces, levels, l, j);
      LeafRecordsFrom(pieces, levels, l, j + 1);
      if l == 0 {
        AllRecordsFrom(levels[0], j);
        assert RecordsOf(levels[0][j]) == levels[0][j].records by { LeafRecordsAre(levels[0][j]); }
      } else {
        AfterTwice([], [], LeafRecords(pieces, Off(levels, l) + j + 1));
      }
    } else if l > 0 {
      assert Off(levels, l - 1) == |levels[l]| + Off(levels, l);
      LeafRecordsFrom(pieces, levels, l - 1, 0);
      if l == 1 { assert levels[0][0..] == levels[0]; }
    } else {
      LeafRecordsEnd(pieces, levels);
      AllRecordsFrom(levels[0], j);
    }
  }

  lemma LeafRecordsAre(t: Tree)
    requires t.Leaf?
    ensures RecordsOf(t) == t.records
  {
  }

  lemma PlannedRecords(levels: seq<seq<Tree>>, sorted: seq<Record>, pieceSize: int)
    requires Planned(levels, sorted, pieceSize)
    ensures AllRecords(levels[0]) == sorted
  {
  }

  /** VerifyFingerprint accepts every build of fewer than 2^64 records. */
  lemma BuiltVerifies(c: Crypto, input: BuildInput, now: Int64, t: Trailer)
    requires BuildResult(c, input, now).Ok? && |input.records| < UINT64_LIMIT
    requires t.fingerprint == BuildResult(c, input, now).value.fingerprint && t.numRecords == |input.records|
    ensures var built := BuildResult(c, input, now).value;
            FingerprintHolds(c, View(FileSource(built.data, built.pieceSize)), t)
  {
    hide LeafPage, InteriorPage, Planned, View, Shown, BuildResult, BuildTrailer, Encodable;
    var levels, _, src := BuiltParts(c, input, now);
    var sorted, top := StableSort(input.records), |levels| - 1;
    PlannedMeans(levels, sorted, input.pieceSize);
    PlannedRecords(levels, sorted, input.pieceSize);
    LaidOutShows(src, levels, sorted, input.pieceSize);
    LeafRecordsFrom(View(src), levels, top, 0);
    PlannedEncodable(levels, sorted, input.pieceSize);
    StableSortLength(input.records);
    BuiltFingerprint(c, input, now);
  }

  /** A piece that can be read and is no leaf. */
  predicate NonLeaf(p: PieceView) {
    p.InnerPiece? || p.OtherPiece?
  }

  lemma {:induction false} LeafRecordsIgnoreInner(pieces: seq<PieceView>, k: nat, p: PieceView, i: nat)
    requires k < |pieces| && NonLeaf(pieces[k]) && NonLeaf(p)
    ensures LeafRecords(pieces[k := p], i) == LeafRecords(pieces, i)
    decreases |pieces| - i
  {
    if i + 1 < |pieces| {
      LeafRecordsIgnoreInner(pieces, k, p, i + 1);
    }
  }

  /** The fingerprint covers leaves only: exchanging any readable non-leaf page for any other readable non-leaf page
      changes nothing about VerifyFingerprint. */
  lemma InteriorUnauthenticated(c: Crypto, src: PageSource, t: Trailer, k: nat, page: bytes)
    requires k < |src| && NonLeaf(ViewPiece(src, k)) && NonLeaf(ViewPiece(src[k := Some(page)], k))
    ensures FingerprintHolds(c, View(src[k := Some(page)]), t) <==> FingerprintHolds(c, View(src), t)
  {
    hide ParseLeaf, ParseInterior, DecodeHeader, LeafRecords, Encodable;
    var other := src[k := Some(page)];
    forall i | 0 <= i < |src| && i != k ensures ViewPiece(other, i) == ViewPiece(src, i) {
    }
    assert View(other) == View(src)[k := ViewPiece(other, k)];
    LeafRecordsIgnoreInner(View(src), k, ViewPiece(other, k), 0);
  }
}
