/** Reading a SNAGG tree from untrusted pages: prefix ranges, the depth-first walk to the
    leaves, prefix queries and the full fingerprint pass. */
module Read {
  import opened Wrappers
  import opened Collections
  import opened Bytes
  import opened Records
  import opened Pages
  import opened Layout

  // ---- prefix ranges ----

  /** The least byte string after every string that starts with p; [] stands for nil, no bound. */
  function NextPrefix(p: bytes): bytes {
    if p == [] then []
    else if p[|p| - 1] < 255 then p[..|p| - 1] + [p[|p| - 1] + 1]
    else NextPrefix(p[..|p| - 1])
  }

  method ComputeNextPrefix(p: bytes) returns (r: bytes)
    ensures r == NextPrefix(p)
  {
    var out := p;
    while |out| > 0
      invariant NextPrefix(out) == NextPrefix(p)
      decreases |out|
    {
      if out[|out| - 1] < 255 {
        return out[|out| - 1 := out[|out| - 1] + 1];
      }
      out := out[..|out| - 1];
    }
    r := [];
  }

  lemma {:induction false} NextPrefixCons(x: byte, q: bytes)
    ensures NextPrefix([x] + q) ==
            if NextPrefix(q) != [] then [x] + NextPrefix(q) else if x < 255 then [x + 1] else []
    decreases |q|
  {
    var p := [x] + q;
    if q == [] {
      assert p == [x] && p[..0] == [];
    } else {
      var init := q[..|q| - 1];
      assert p[..|p| - 1] == [x] + init && p[|p| - 1] == q[|q| - 1];
      NextPrefixCons(x, init);
      if q[|q| - 1] < 255 { assert p[..|p| - 1] + [p[|p| - 1] + 1] == [x] + (init + [q[|q| - 1] + 1]); }
    }
  }

  lemma PrefixCons(p: bytes, s: bytes)
    requires p != [] && s != []
    ensures p <= s <==> p[0] == s[0] && p[1..] <= s[1..]
  {
    assert p == [p[0]] + p[1..] && s == [s[0]] + s[1..];
    if p <= s {
      assert s[..|p|] == p;
      assert s[1..][..|p| - 1] == s[..|p|][1..];
    }
  }

  /** s starts with p exactly when p <= s < NextPrefix(p). */
  lemma {:induction false} PrefixRange(p: bytes, s: bytes)
    ensures p <= s <==> Leq(p, s) && (NextPrefix(p) == [] || Less(s, NextPrefix(p)))
    decreases |p|
  {
    if p != [] && s != [] {
      PrefixCons(p, s);
      NextPrefixCons(p[0], p[1..]);
      assert p == [p[0]] + p[1..];
      var next, hi := NextPrefix(p[1..]), NextPrefix(p);
      PrefixRange(p[1..], s[1..]);
      if next != [] {
        assert hi[1..] == next;
      } else if p[0] < 255 {
        assert hi[1..] == [] && Compare(s[1..], hi[1..]) >= 0;
      }
    }
  }

  /** Whether [lower, upper) meets [lo, hi); an empty bound is the source's nil, infinity. */
  predicate RangeOverlapsPrefix(lower: bytes, upper: bytes, lo: bytes, hi: bytes) {
    if upper != [] && Leq(upper, lo) then false
    else if hi != [] && lower != [] && Leq(hi, lower) then false
    else true
  }

  /** Pruning is sound: a range that holds a key whose keyword starts with p is never pruned,
      even where that key equals the upper bound. */
  lemma PruneSound(p: bytes, lower: bytes, upper: bytes, r: Record)
    requires p <= r.kw
    requires lower == [] || Leq(lower, RecordKey(r))
    requires upper == [] || Leq(RecordKey(r), upper)
    ensures RangeOverlapsPrefix(lower, upper, p, NextPrefix(p))
  {
    var key, hi := RecordKey(r), NextPrefix(p);
    assert p <= key;
    PrefixLeq(p, key);
    PrefixRange(p, key);
    if upper != [] {
      CompareTrans(p, key, upper);
      CompareSwap(upper, p);
    }
    if hi != [] && lower != [] {
      CompareTrans(lower, key, hi);
      CompareSwap(hi, lower);
    }
  }

  /** And exact: a proper range is pruned only where no string of the range starts with p. */
  lemma PruneExact(p: bytes, lower: bytes, upper: bytes)
    requires upper == [] || Less(lower, upper)
    ensures RangeOverlapsPrefix(lower, upper, p, NextPrefix(p)) <==>
              exists s: bytes :: p <= s && Leq(lower, s) && (upper == [] || Less(s, upper))
  {
    hide NextPrefix;
    if s: bytes :| p <= s && Leq(lower, s) && (upper == [] || Less(s, upper)) {
      PrefixRange(p, s);
      if upper != [] {
        CompareTrans(p, s, upper);
        CompareSwap(p, upper);
      }
      if NextPrefix(p) != [] && lower != [] {
        CompareTrans(lower, s, NextPrefix(p));
        CompareSwap(lower, NextPrefix(p));
      }
    }
    if RangeOverlapsPrefix(lower, upper, p, NextPrefix(p)) {
      var s := if Leq(lower, p) then p else lower;
      CompareSwap(upper, p);
      CompareSwap(lower, p);
      CompareSwap(NextPrefix(p), lower);
      CompareRefl(s);
      PrefixRange(p, s);
      PrefixRange(p, p);
      assert p <= s && Leq(lower, s) && (upper == [] || Less(s, upper));
    }
  }

  // ---- opening ----

  datatype ReadError =
    | TooFewPages
    | FetchFailed
    | Page(error: PageError)
    | BadTrailerSignature
    | PageCountMismatch
    | RootNotAtZero
    | NotARoot
    | ReachedTwice
    | ChildOutOfRange
    | UnexpectedKind
    | TooManyLeaves
    | LeafReturnedTwice

  function Fetch(src: PageSource, i: int): Result<bytes, ReadError> {
    if 0 <= i < |src| && src[i].Some? then Ok(src[i].value) else Err(FetchFailed)
  }

  /** Nothing is trusted before the trailer's signature and shape check out. */
  function OpenBTree(c: Crypto, src: PageSource): Result<Trailer, ReadError> {
    if |src| < 3 then Err(TooFewPages)
    else match Fetch(src, |src| - 1)
      case Err(e) => Err(e)
      case Ok(last) =>
        match DecodeTrailer(last)
        case Err(e) => Err(Page(e))
        case Ok(t) =>
          if !TrailerVerifies(c, t) then Err(BadTrailerSignature)
          else if t.numPages != |src| then Err(PageCountMismatch)
          else if t.rootPieceIndex != 0 then Err(RootNotAtZero)
          else Ok(t)
  }

  /** A source opens with a trailer exactly when it has three pieces or more, the bytes of its last piece are that
      trailer's, the signature on them verifies over the page's own bytes, and the trailer counts the pieces and puts
      the root first. */
  lemma OpensExactly(c: Crypto, src: PageSource, t: Trailer)
    ensures OpenBTree(c, src) == Ok(t) <==>
              && |src| >= 3 && src[|src| - 1].Some?
              && var last := src[|src| - 1].value;
              && |last| >= 178 && last[0..6] == [83, 78, 65, 71, 71, 0] && last[6] == 1 && last[7] == 255
              && last[10..12] == [162, 0] && last[16] == 1
              && last[16..114] == TrailerFields(t) && last[114..178] == t.publisherSig
              && c.verify(t.pubKey, last[16..114], t.publisherSig)
              && t.numPages == |src| && t.rootPieceIndex == 0
  {
    hide DecodeTrailer, TrailerFields;
    if |src| >= 3 && src[|src| - 1].Some? { TrailerAt(src[|src| - 1].value, t); }
  }

  // ---- what the pieces say ----

  /** A piece as the reader understands it. */
  datatype PieceView =
    | Unreadable(error: ReadError)
    | LeafPiece(records: Result<seq<Record>, PageError>)
    | InnerPiece(isRoot: bool, children: Result<seq<InteriorChild>, PageError>)
    | OtherPiece

  function ViewPiece(src: PageSource, i: int): PieceView {
    match Fetch(src, i)
    case Err(e) => Unreadable(e)
    case Ok(page) =>
      match DecodeHeader(page)
      case Err(e) => Unreadable(Page(e))
      case Ok(h) =>
        if h.kind == KIND_LEAF then LeafPiece(ParseLeaf(page))
        else if h.kind == KIND_ROOT || h.kind == KIND_INTERIOR then InnerPiece(h.kind == KIND_ROOT, ParseInterior(page))
        else OtherPiece
  }

  /** All pieces of a source; beyond them every fetch fails. */
  function View(src: PageSource): (r: seq<PieceView>)
    ensures |r| == |src|
  {
    seq(|src|, i requires 0 <= i < |src| => ViewPiece(src, i))
  }

  function At(pieces: seq<PieceView>, i: int): PieceView {
    if 0 <= i < |pieces| then pieces[i] else Unreadable(FetchFailed)
  }

  lemma ViewAt(src: PageSource, i: int)
    ensures At(View(src), i) == ViewPiece(src, i)
  {
  }

  /** What makes a piece a leaf or an inner page: that it can be fetched, the magic and version of its header, and its
      kind byte; of any other kind it is neither. */
  lemma ViewMeans(src: PageSource, i: int)
    ensures var v := At(View(src), i);
            && (!v.Unreadable? <==> 0 <= i < |src| && src[i].Some? && |src[i].value| >= 16
                                    && src[i].value[0..6] == [83, 78, 65, 71, 71, 0] && src[i].value[6] == 1)
            && (v.LeafPiece? ==> src[i].value[7] == 2 && v.records == ParseLeaf(src[i].value))
            && (v.InnerPiece? ==> src[i].value[7] <= 1 && v.isRoot == (src[i].value[7] == 0) &&
                                    v.children == ParseInterior(src[i].value))
            && (v.OtherPiece? ==> src[i].value[7] > 2)
  {
    hide ParseLeaf, ParseInterior;
  }

  // ---- the walk ----

  /** How a walk ended: an error or none, the pieces visited in order, the leaves collected. */
  datatype Walked = Walked(error: Option<ReadError>, visited: seq<int>, leaves: seq<int>)

  function PiecesLeft(pieces: seq<PieceView>, idx: int): nat {
    if 0 <= idx < |pieces| then |pieces| - idx else 0
  }

  /** walkToLeaves: piece idx and what lies under it. */
  function Walk(pieces: seq<PieceView>, idx: int, lo: bytes, hi: bytes, visited: seq<int>, leaves: seq<int>): Walked
    decreases PiecesLeft(pieces, idx), 1, 0
  {
    if idx in visited then Walked(Some(ReachedTwice), visited, leaves)
    else
      var visited' := visited + [idx];
      match At(pieces, idx)
      case Unreadable(e) => Walked(Some(e), visited', leaves)
      case LeafPiece(_) => Walked(None, visited', leaves + [idx])
      case InnerPiece(_, Err(e)) => Walked(Some(Page(e)), visited', leaves)
      case InnerPiece(_, Ok(cs)) => WalkChildren(pieces, idx, cs, 0, idx, lo, hi, visited', leaves)
      case OtherPiece => Walked(Some(UnexpectedKind), visited', leaves)
  }

  function UpperBound(cs: seq<InteriorChild>, i: nat): bytes {
    if i + 1 < |cs| then cs[i + 1].separator else []
  }

  /** The child loop from child i on: indices must increase and stay before the trailer, and
      only children whose range meets the prefix range are entered. */
  function WalkChildren(pieces: seq<PieceView>, idx: int, cs: seq<InteriorChild>, i: nat, prev: int, lo: bytes,
                        hi: bytes,
                        visited: seq<int>, leaves: seq<int>): Walked
    requires 0 <= idx < |pieces| && idx <= prev && i <= |cs|
    decreases PiecesLeft(pieces, idx), 0, |cs| - i
  {
    if i == |cs| then Walked(None, visited, leaves)
    else
      var ci := cs[i].index;
      if ci <= prev || ci >= |pieces| - 1 then Walked(Some(ChildOutOfRange), visited, leaves)
      else if RangeOverlapsPrefix(cs[i].separator, UpperBound(cs, i), lo, hi) then
        var w := Walk(pieces, ci, lo, hi, visited, leaves);
        if w.error.Some? then w
        else WalkChildren(pieces, idx, cs, i + 1, ci, lo, hi, w.visited, w.leaves)
      else WalkChildren(pieces, idx, cs, i + 1, ci, lo, hi, visited, leaves)
  }

  /** The walk in the source's form: a visited set and a leaf list updated in place. */
  class Walker {
    const src: PageSource
    var visited: set<int>
    var leaves: seq<int>
    ghost var fetched: seq<int>  // the pieces asked for, in order

    ghost predicate Valid()
      reads this
    {
      forall i :: i in visited <==> i in fetched
    }

    constructor (src: PageSource)
      ensures Valid() && this.src == src && fetched == [] && leaves == []
    {
      this.src := src;
      visited := {};
      leaves := [];
      fetched := [];
    }

    method WalkToLeaves(idx: int, lo: bytes, hi: bytes) returns (error: Option<ReadError>)
      requires Valid()
      modifies this
      ensures Valid()
      ensures Walked(error, fetched, leaves) == Walk(View(src), idx, lo, hi, old(fetched), old(leaves))
      decreases PiecesLeft(View(src), idx)
    {
      hide View, At, RangeOverlapsPrefix, ParseInterior, ParseLeaf, DecodeHeader;
      ghost var pieces := View(src);
      ViewAt(src, idx);
      if idx in visited { return Some(ReachedTwice); }
      visited := visited + {idx};
      fetched := fetched + [idx];
      var page := Fetch(src, idx);
      if page.Err? { return Some(page.error); }
      var h := DecodeHeader(page.value);
      if h.Err? { return Some(Page(h.error)); }
      if h.value.kind == KIND_LEAF {
        leaves := leaves + [idx];
        return None;
      }
      if h.value.kind != KIND_ROOT && h.value.kind != KIND_INTERIOR { return Some(UnexpectedKind); }
      var children := DecodeInterior(page.value);
      if children.Err? { return Some(Page(children.error)); }
      var cs := children.value;
      ghost var all := WalkChildren(pieces, idx, cs, 0, idx, lo, hi, fetched, leaves);
      var prev := idx;
      var i := 0;
      while i < |cs|
        invariant 0 <= i <= |cs| && idx <= prev && Valid()
        invariant all == WalkChildren(pieces, idx, cs, i, prev, lo, hi, fetched, leaves)
      {
        var ci := cs[i].index;
        if ci <= prev || ci >= |src| - 1 { return Some(ChildOutOfRange); }
        prev := ci;
        var upper := if i + 1 < |cs| then cs[i + 1].separator else [];
        if RangeOverlapsPrefix(cs[i].separator, upper, lo, hi) {
          var failed := WalkToLeaves(ci, lo, hi);
          if failed.Some? { return failed; }
        }
        i := i + 1;
      }
      return None;
    }
  }

  lemma DistinctAppend(s: seq<int>, x: int)
    requires Distinct(s) && x !in s
    ensures Distinct(s + [x])
  {
  }

  /** A walk never visits a piece twice and its leaves are visited leaf pieces, each collected once. */
  ghost predicate Orderly(pieces: seq<PieceView>, visited: seq<int>, leaves: seq<int>) {
    && Distinct(visited) && Distinct(leaves)
    && (forall l :: l in leaves ==> l in visited && At(pieces, l).LeafPiece?)
  }

  predicate IsWalkError(e: ReadError) {
    e == FetchFailed || e.Page? || e == ReachedTwice || e == ChildOutOfRange || e == UnexpectedKind
  }

  ghost predicate ReadableErrors(pieces: seq<PieceView>) {
    forall i: int :: At(pieces, i).Unreadable? ==> At(pieces, i).error == FetchFailed || At(pieces, i).error.Page?
  }

  /** On any pages at all the walk stays orderly, and every piece it newly visits is the one it
      was sent to or lies after it and before the trailer. */
  lemma {:induction false} WalkOrderly(pieces: seq<PieceView>, idx: int, lo: bytes, hi: bytes, visited: seq<int>,
                                       leaves: seq<int>)
    requires Orderly(pieces, visited, leaves) && ReadableErrors(pieces)
    ensures var w := Walk(pieces, idx, lo, hi, visited, leaves);
            Orderly(pieces, w.visited, w.leaves) && visited <= w.visited && leaves <= w.leaves &&
            (forall v :: v in w.visited ==> v in visited || v == idx || idx < v < |pieces| - 1) &&
            (w.error.Some? ==> IsWalkError(w.error.value))
    decreases PiecesLeft(pieces, idx), 1, 0
  {
    if idx !in visited {
      DistinctAppend(visited, idx);
      if idx !in leaves { DistinctAppend(leaves, idx); }
      match At(pieces, idx)
      case InnerPiece(_, Ok(cs)) => WalkChildrenOrderly(pieces, idx, cs, 0, idx, lo, hi, visited + [idx], leaves);
      case _ =>
    }
  }

  lemma {:induction false} WalkChildrenOrderly(pieces: seq<PieceView>, idx: int, cs: seq<InteriorChild>, i: nat,
                                               prev: int,
                                               lo: bytes, hi: bytes, visited: seq<int>, leaves: seq<int>)
    requires 0 <= idx < |pieces| && idx <= prev && i <= |cs| && Orderly(pieces, visited, leaves)
             && ReadableErrors(pieces)
    ensures var w := WalkChildren(pieces, idx, cs, i, prev, lo, hi, visited, leaves);
            Orderly(pieces, w.visited, w.leaves) && visited <= w.visited && leaves <= w.leaves &&
            (forall v :: v in w.visited ==> v in visited || idx < v < |pieces| - 1) &&
            (w.error.Some? ==> IsWalkError(w.error.value))
    decreases PiecesLeft(pieces, idx), 0, |cs| - i
  {
    if i < |cs| {
      var ci := cs[i].index;
      if prev < ci < |pieces| - 1 {
        if RangeOverlapsPrefix(cs[i].separator, UpperBound(cs, i), lo, hi) {
          WalkOrderly(pieces, ci, lo, hi, visited, leaves);
          var w := Walk(pieces, ci, lo, hi, visited, leaves);
          if w.error.None? {
            WalkChildrenOrderly(pieces, idx, cs, i + 1, ci, lo, hi, w.visited, w.leaves);
          }
        } else {
          WalkChildrenOrderly(pieces, idx, cs, i + 1, ci, lo, hi, visited, leaves);
        }
      }
    }
  }

  /** A piece a walk took in: a leaf it collected, or an inner page that parses, whose children rise strictly between
      itself and the trailer and were walked into wherever their range meets the prefix range. */
  ghost predicate TakenIn(pieces: seq<PieceView>, lo: bytes, hi: bytes, visited: seq<int>, leaves: seq<int>, v: int) {
    match At(pieces, v)
    case LeafPiece(_) => v in leaves
    case InnerPiece(_, Ok(cs)) => ChildrenTakenIn(pieces, lo, hi, visited, cs, 0, v)
    case _ => false
  }

  ghost predicate ChildrenTakenIn(pieces: seq<PieceView>, lo: bytes, hi: bytes, visited: seq<int>,
                                  cs: seq<InteriorChild>, from: nat, prev: int) {
    forall i :: from <= i < |cs| ==>
      && (if i == from then prev else cs[i - 1].index) < cs[i].index < |pieces| - 1
      && (RangeOverlapsPrefix(cs[i].separator, UpperBound(cs, i), lo, hi) ==> cs[i].index in visited)
  }

  lemma StaysTakenIn(pieces: seq<PieceView>, lo: bytes, hi: bytes, visited: seq<int>, leaves: seq<int>,
                     visited': seq<int>, leaves': seq<int>, v: int)
    requires TakenIn(pieces, lo, hi, visited, leaves, v) && visited <= visited' && leaves <= leaves'
    ensures TakenIn(pieces, lo, hi, visited', leaves', v)
  {
    hide RangeOverlapsPrefix, UpperBound;
  }

  /** The walk fails closed: on any pages at all, a walk that ends without error took in every piece it came to. */
  lemma {:induction false} WalkFailsClosed(pieces: seq<PieceView>, idx: int, lo: bytes, hi: bytes, visited: seq<int>,
                                           leaves: seq<int>)
    requires Walk(pieces, idx, lo, hi, visited, leaves).error == None
    ensures var w := Walk(pieces, idx, lo, hi, visited, leaves);
            && idx !in visited && idx in w.visited && visited <= w.visited && leaves <= w.leaves
            && forall v :: v in w.visited && v !in visited ==> TakenIn(pieces, lo, hi, w.visited, w.leaves, v)
    decreases PiecesLeft(pieces, idx), 1, 0
  {
    hide RangeOverlapsPrefix, UpperBound;
    match At(pieces, idx)
    case InnerPiece(_, Ok(cs)) =>
      ChildrenFailClosed(pieces, idx, cs, 0, idx, lo, hi, visited + [idx], leaves);
      assert Walk(pieces, idx, lo, hi, visited, leaves).visited[|visited|] == idx;
    case _ =>
  }

  lemma {:induction false} ChildrenFailClosed(pieces: seq<PieceView>, idx: int, cs: seq<InteriorChild>, i: nat,
                                              prev: int, lo: bytes, hi: bytes, visited: seq<int>, leaves: seq<int>)
    requires 0 <= idx < |pieces| && idx <= prev && i <= |cs|
    requires WalkChildren(pieces, idx, cs, i, prev, lo, hi, visited, leaves).error == None
    ensures var w := WalkChildren(pieces, idx, cs, i, prev, lo, hi, visited, leaves);
            && visited <= w.visited && leaves <= w.leaves && ChildrenTakenIn(pieces, lo, hi, w.visited, cs, i, prev)
            && forall v :: v in w.visited && v !in visited ==> TakenIn(pieces, lo, hi, w.visited, w.leaves, v)
    decreases PiecesLeft(pieces, idx), 0, |cs| - i
  {
    hide TakenIn, RangeOverlapsPrefix, UpperBound;
    if i < |cs| {
      var ci := cs[i].index;
      var w := WalkChildren(pieces, idx, cs, i, prev, lo, hi, visited, leaves);
      if RangeOverlapsPrefix(cs[i].separator, UpperBound(cs, i), lo, hi) {
        WalkFailsClosed(pieces, ci, lo, hi, visited, leaves);
        var first := Walk(pieces, ci, lo, hi, visited, leaves);
        ChildrenFailClosed(pieces, idx, cs, i + 1, ci, lo, hi, first.visited, first.leaves);
        forall v | v in first.visited && v !in visited ensures TakenIn(pieces, lo, hi, w.visited, w.leaves, v) {
          StaysTakenIn(pieces, lo, hi, first.visited, first.leaves, w.visited, w.leaves, v);
        }
      } else {
        ChildrenFailClosed(pieces, idx, cs, i + 1, ci, lo, hi, visited, leaves);
      }
    }
  }

  // ---- prefix queries ----

  /** A record a query returns: right prefix, valid signature, enough work when work is required. */
  predicate IsHit(c: Crypto, minPoWBits: nat, prefix: bytes, r: Record) {
    prefix <= r.kw && Verify(c, r) && (minPoWBits > 0 ==> VerifyPoW(c, r, minPoWBits))
  }

  function Hits(c: Crypto, minPoWBits: nat, prefix: bytes, rs: seq<Record>): seq<Record> {
    if rs == [] then []
    else if IsHit(c, minPoWBits, prefix, rs[0]) then [rs[0]] + Hits(c, minPoWBits, prefix, rs[1..])
    else Hits(c, minPoWBits, prefix, rs[1..])
  }

  lemma {:induction false} HitsMembers(c: Crypto, minPoWBits: nat, prefix: bytes, rs: seq<Record>, r: Record)
    ensures r in Hits(c, minPoWBits, prefix, rs) <==> r in rs && IsHit(c, minPoWBits, prefix, r)
  {
    if rs != [] {
      HitsMembers(c, minPoWBits, prefix, rs[1..], r);
      assert rs == [rs[0]] + rs[1..];
    }
  }

  /** The test a record must pass to be returned, in terms of the keys, the signature and the digest themselves. */
  function Passes(c: Crypto, minPoWBits: nat, prefix: bytes): Record -> bool {
    (r: Record) => prefix <= r.kw && c.verify(r.pk, SigMessage(r), r.sig) &&
         (minPoWBits > 0 ==> LeadingZeroBits(c.sha256(SigMessage(r))) >= minPoWBits)
  }

  /** An answer is exactly the records that pass, in the order they were read. */
  lemma {:induction false} HitsFilter(c: Crypto, minPoWBits: nat, prefix: bytes, rs: seq<Record>)
    ensures Filters(rs, Passes(c, minPoWBits, prefix), Hits(c, minPoWBits, prefix, rs))
    decreases |rs|
  {
    hide SigMessage, LeadingZeroBits;
    if rs == [] {
      FiltersNothing(Passes(c, minPoWBits, prefix));
    } else {
      var front, last := rs[..|rs| - 1], rs[|rs| - 1];
      assert rs == front + [last];
      HitsFilter(c, minPoWBits, prefix, front);
      FiltersMore(front, Passes(c, minPoWBits, prefix), Hits(c, minPoWBits, prefix, front), last);
      HitsAppend(c, minPoWBits, prefix, front, [last]);
      HitsOne(c, minPoWBits, prefix, last);
      var hits := Hits(c, minPoWBits, prefix, front);
      assert hits + [] == hits;
    }
  }

  lemma HitsOne(c: Crypto, minPoWBits: nat, prefix: bytes, r: Record)
    ensures Hits(c, minPoWBits, prefix, [r]) == if Passes(c, minPoWBits, prefix)(r) then [r] else []
  {
    hide SigMessage, LeadingZeroBits;
    assert [r][1..] == [];
  }

  lemma {:induction false} HitsAppend(c: Crypto, minPoWBits: nat, prefix: bytes, a: seq<Record>, b: seq<Record>)
    ensures Hits(c, minPoWBits, prefix, a + b) == Hits(c, minPoWBits, prefix, a) + Hits(c, minPoWBits, prefix, b)
    decreases |a|
  {
    if a == [] {
      assert a + b == b;
    } else {
      HitsAppend(c, minPoWBits, prefix, a[1..], b);
      assert (a + b)[1..] == a[1..] + b;
    }
  }

  /** The records of a piece fetched and decoded as a leaf. */
  function LeafOf(p: PieceView): Result<seq<Record>, ReadError> {
    match p
    case Unreadable(e) => Err(e)
    case LeafPiece(Ok(rs)) => Ok(rs)
    case LeafPiece(Err(e)) => Err(Page(e))
    case _ => Err(Page(WrongKind))
  }

  /** The hits of the given leaf pieces, in order. */
  function LeafHits(c: Crypto, pieces: seq<PieceView>, minPoWBits: nat, prefix: bytes,
                    leaves: seq<int>): Result<seq<Record>, ReadError> {
    if leaves == [] then Ok([])
    else match LeafOf(At(pieces, leaves[0]))
      case Err(e) => Err(e)
      case Ok(rs) => InFront(Hits(c, minPoWBits, prefix, rs), LeafHits(c, pieces, minPoWBits, prefix, leaves[1..]))
  }

  function InFront(front: seq<Record>, rest: Result<seq<Record>, ReadError>): Result<seq<Record>, ReadError> {
    match rest case Err(e) => Err(e) case Ok(more) => Ok(front + more)
  }

  lemma InFrontTwice(a: seq<Record>, b: seq<Record>, r: Result<seq<Record>, ReadError>)
    ensures InFront(a, InFront(b, r)) == InFront(a + b, r)
    ensures InFront([], r) == r
  {
    if r.Ok? { assert a + (b + r.value) == (a + b) + r.value && [] + r.value == r.value; }
  }

  /** Find on what the pieces say; t is the trailer the tree was opened with. */
  function FindIn(c: Crypto, pieces: seq<PieceView>, t: Trailer, prefix: bytes): Result<seq<Record>, ReadError> {
    match At(pieces, 0)
    case Unreadable(e) => Err(e)
    case InnerPiece(true, _) =>
      var w := Walk(pieces, 0, prefix, NextPrefix(prefix), [], []);
      if w.error.Some? then Err(w.error.value)
      else if |w.leaves| >= |pieces| then Err(TooManyLeaves)
      else if !DistinctLeaves(w.leaves) then Err(LeafReturnedTwice)
      else LeafHits(c, pieces, t.minPoWBits, prefix, w.leaves)
    case _ => Err(NotARoot)
  }

  predicate DistinctLeaves(leaves: seq<int>) {
    leaves == [] || (leaves[|leaves| - 1] !in leaves[..|leaves| - 1] && DistinctLeaves(leaves[..|leaves| - 1]))
  }

  lemma {:induction false} DistinctLeavesMeans(leaves: seq<int>)
    ensures DistinctLeaves(leaves) <==> Distinct(leaves)
    decreases |leaves|
  {
    if leaves != [] {
      var init := leaves[..|leaves| - 1];
      DistinctLeavesMeans(init);
      assert leaves == init + [leaves[|leaves| - 1]];
    }
  }

  method Find(c: Crypto, src: PageSource, t: Trailer, prefix: bytes) returns (r: Result<seq<Record>, ReadError>)
    ensures r == FindIn(c, View(src), t, prefix)
  {
    ViewAt(src, 0);
    var hi := ComputeNextPrefix(prefix);
    var root := Fetch(src, 0);
    if root.Err? { return Err(root.error); }
    var rh := DecodeHeader(root.value);
    if rh.Err? { return Err(Page(rh.error)); }
    if rh.value.kind != KIND_ROOT { return Err(NotARoot); }
    var walker := new Walker(src);
    var failed := walker.WalkToLeaves(0, prefix, hi);
    if failed.Some? { return Err(failed.value); }
    var leaves := walker.leaves;
    ViewErrors(src);
    WalkOrderly(View(src), 0, prefix, hi, [], []);
    if |leaves| >= |src| { return Err(TooManyLeaves); }
    var twice := HasRepeat(leaves);
    if twice { return Err(LeafReturnedTwice); }
    r := CollectHits(c, src, t.minPoWBits, prefix, leaves);
  }

  /** The repeated-leaf check: a seen set filled leaf by leaf. */
  method HasRepeat(leaves: seq<int>) returns (twice: bool)
    ensures twice <==> !DistinctLeaves(leaves)
  {
    DistinctLeavesMeans(leaves);
    var seen: set<int> := {};
    for i := 0 to |leaves|
      invariant forall x :: x in seen <==> x in leaves[..i]
      invariant Distinct(leaves[..i])
    {
      if leaves[i] in seen {
        ghost var j :| 0 <= j < i && leaves[j] == leaves[i];
        assert !Distinct(leaves);
        return true;
      }
      seen := seen + {leaves[i]};
      DistinctAppend(leaves[..i], leaves[i]);
      assert leaves[..i + 1] == leaves[..i] + [leaves[i]];
    }
    assert leaves[..|leaves|] == leaves;
    return false;
  }

  method CollectHits(c: Crypto, src: PageSource, minPoWBits: nat, prefix: bytes, leaves: seq<int>)
    returns (r: Result<seq<Record>, ReadError>)
    ensures r == LeafHits(c, View(src), minPoWBits, prefix, leaves)
  {
    hide View, At, Hits, LeafOf;
    var out: seq<Record> := [];
    ghost var pieces := View(src);
    InFrontTwice([], [], LeafHits(c, pieces, minPoWBits, prefix, leaves));
    for i := 0 to |leaves|
      invariant LeafHits(c, pieces, minPoWBits, prefix, leaves)
                == InFront(out, LeafHits(c, pieces, minPoWBits, prefix, leaves[i..]))
    {
      assert leaves[i..][1..] == leaves[i + 1..];
      var rs := ReadLeaf(src, leaves[i]);
      if rs.Err? { return Err(rs.error); }
      var found := FilterHits(c, minPoWBits, prefix, rs.value);
      InFrontTwice(out, found, LeafHits(c, pieces, minPoWBits, prefix, leaves[i + 1..]));
      out := out + found;
    }
    assert out + [] == out;
    r := Ok(out);
  }

  /** Fetch and decode one leaf the walk collected. */
  method ReadLeaf(src: PageSource, i: int) returns (r: Result<seq<Record>, ReadError>)
    ensures r == LeafOf(At(View(src), i))
  {
    ViewAt(src, i);
    var page := Fetch(src, i);
    if page.Err? { return Err(page.error); }
    var rs := DecodeLeaf(page.value);
    if rs.Err? { return Err(Page(rs.error)); }
    r := Ok(rs.value);
  }

  method FilterHits(c: Crypto, minPoWBits: nat, prefix: bytes, rs: seq<Record>) returns (out: seq<Record>)
    ensures out == Hits(c, minPoWBits, prefix, rs)
  {
    out := [];
    for i := 0 to |rs|
      invariant Hits(c, minPoWBits, prefix, rs) == out + Hits(c, minPoWBits, prefix, rs[i..])
    {
      assert rs[i..][1..] == rs[i + 1..];
      if !(prefix <= rs[i].kw) { continue; }
      if !Verify(c, rs[i]) { continue; }
      if minPoWBits > 0 && !VerifyPoW(c, rs[i], minPoWBits) { continue; }
      out := out + [rs[i]];
    }
  }

  lemma ViewErrors(src: PageSource)
    ensures ReadableErrors(View(src))
  {
    forall i: int | At(View(src), i).Unreadable?
      ensures At(View(src), i).error == FetchFailed || At(View(src), i).error.Page?
    {
      ViewAt(src, i);
    }
  }

  /** On any pages, every record of an answer stands in some leaf page, has the prefix, carries a signature that
      verifies under its own key, and has the leading zero bits the trailer asks for; a query succeeds only on a root,
      and the two checks between the walk and the leaves are never what stops it. */
  lemma FindAuthentic(c: Crypto, src: PageSource, t: Trailer, prefix: bytes)
    ensures var r := FindIn(c, View(src), t, prefix);
            (r.Ok? ==> forall x :: x in r.value ==>
              && prefix <= x.kw && c.verify(x.pk, SigMessage(x), x.sig)
              && (t.minPoWBits > 0 ==> LeadingZeroBits(c.sha256(SigMessage(x))) >= t.minPoWBits)
              && exists i: int :: OnLeaf(View(src), i, x)) &&
            (r.Ok? ==> At(View(src), 0).InnerPiece? && At(View(src), 0).isRoot) &&
            r != Err(TooManyLeaves) && r != Err(LeafReturnedTwice)
  {
    hide SigMessage, LeadingZeroBits, View;
    var pieces := View(src);
    ViewErrors(src);
    assert At(pieces, 0).Unreadable? ==> At(pieces, 0).error == FetchFailed || At(pieces, 0).error.Page?;
    if At(pieces, 0).InnerPiece? && At(pieces, 0).isRoot {
      var w := Walk(pieces, 0, prefix, NextPrefix(prefix), [], []);
      WalkOrderly(pieces, 0, prefix, NextPrefix(prefix), [], []);
      DistinctLeavesMeans(w.leaves);
      DistinctRange(w.leaves, |pieces|);
      LeafHitsAreHits(c, pieces, t.minPoWBits, prefix, w.leaves);
    }
  }

  /** Piece i is a leaf page that holds the record. */
  ghost predicate OnLeaf(pieces: seq<PieceView>, i: int, x: Record) {
    At(pieces, i).LeafPiece? && At(pieces, i).records.Ok? && x in At(pieces, i).records.value
  }

  lemma {:induction false} LeafHitsAreHits(c: Crypto, pieces: seq<PieceView>, minPoWBits: nat, prefix: bytes,
                                           leaves: seq<int>)
    requires ReadableErrors(pieces)
    ensures var r := LeafHits(c, pieces, minPoWBits, prefix, leaves);
            if r.Ok? then
              forall x :: x in r.value ==> Passes(c, minPoWBits, prefix)(x) && exists i: int :: OnLeaf(pieces, i, x)
            else r.error == FetchFailed || r.error.Page?
    decreases |leaves|
  {
    hide Passes, Hits, OnLeaf;
    if leaves != [] {
      LeafHitsAreHits(c, pieces, minPoWBits, prefix, leaves[1..]);
      var leaf := LeafOf(At(pieces, leaves[0]));
      if leaf.Ok? {
        HitsFilter(c, minPoWBits, prefix, leaf.value);
        forall x | x in Hits(c, minPoWBits, prefix, leaf.value)
          ensures Passes(c, minPoWBits, prefix)(x) && OnLeaf(pieces, leaves[0], x)
        {
          FiltersMembers(leaf.value, Passes(c, minPoWBits, prefix), Hits(c, minPoWBits, prefix, leaf.value), x);
          assert OnLeaf(pieces, leaves[0], x) by { OnLeafIs(pieces, leaves[0], x); }
        }
      }
    }
  }

  lemma OnLeafIs(pieces: seq<PieceView>, i: int, x: Record)
    requires LeafOf(At(pieces, i)).Ok? && x in LeafOf(At(pieces, i)).value
    ensures OnLeaf(pieces, i, x)
  {
  }

  /** Distinct numbers strictly between 0 and n are fewer than n. */
  lemma DistinctRange(s: seq<int>, n: nat)
    requires Distinct(s) && forall x :: x in s ==> 0 < x < n
    ensures |s| <= if n == 0 then 0 else n - 1
  {
    DistinctSize(s);
    assert Elements(s) <= Below(n);
    SubsetSize(Elements(s), Below(n));
  }

  /** The numbers strictly between 0 and n. */
  ghost function Below(n: nat): (r: set<int>)
    ensures forall x :: x in r <==> 0 < x < n
    ensures |r| == if n == 0 then 0 else n - 1
  {
    if n <= 1 then {} else Below(n - 1) + {n - 1}
  }

  // ---- the fingerprint pass ----

  /** The bencoded records, one after the other: what the fingerprint hashes. */
  function RecordStream(rs: seq<Record>): bytes {
    if rs == [] then [] else RecordBytes(rs[0]) + RecordStream(rs[1..])
  }

  /** What a piece adds to the stream: nothing unless it is a leaf; None if it cannot be read. */
  function PieceRecords(p: PieceView): Option<seq<Record>> {
    match p
    case Unreadable(_) => None
    case LeafPiece(Ok(rs)) => Some(rs)
    case LeafPiece(Err(_)) => None
    case _ => Some([])
  }

  /** The records of all leaf pages from piece i up to the trailer, in piece order. */
  function LeafRecords(pieces: seq<PieceView>, i: nat): Option<seq<Record>>
    decreases |pieces| - i
  {
    if i + 1 >= |pieces| then Some([])
    else match PieceRecords(pieces[i])
      case None => None
      case Some(rs) => After(rs, LeafRecords(pieces, i + 1))
  }

  function After(front: seq<Record>, rest: Option<seq<Record>>): Option<seq<Record>> {
    match rest case None => None case Some(more) => Some(front + more)
  }

  ghost predicate FingerprintHolds(c: Crypto, pieces: seq<PieceView>, t: Trailer) {
    var rs := LeafRecords(pieces, 0);
    rs.Some? && |rs.value| == t.numRecords && (forall k :: 0 <= k < |rs.value| ==> Encodable(rs.value[k]))
    && c.sha256(RecordStream(rs.value)) == t.fingerprint
  }

  lemma {:induction false} LeafRecordsReadable(pieces: seq<PieceView>, i: nat, k: nat)
    requires LeafRecords(pieces, i).Some? && i <= k < |pieces| - 1
    ensures !pieces[k].Unreadable? && (pieces[k].LeafPiece? ==> pieces[k].records.Ok?)
    decreases |pieces| - i
  {
    if i < k { LeafRecordsReadable(pieces, i + 1, k); }
  }

  /** What a pass of VerifyFingerprint shows: every piece before the last can be read, every leaf among them decodes to
      records that encode, and those are as many as the trailer counts and hash to its fingerprint. */
  lemma VerifiedMeans(c: Crypto, pieces: seq<PieceView>, t: Trailer)
    requires FingerprintHolds(c, pieces, t)
    ensures forall k :: 0 <= k < |pieces| - 1 ==>
              !pieces[k].Unreadable? && (pieces[k].LeafPiece? ==> pieces[k].records.Ok?)
    ensures LeafRecords(pieces, 0).Some? &&
            var rs := LeafRecords(pieces, 0).value;
            |rs| == t.numRecords && c.sha256(RecordStream(rs)) == t.fingerprint
            && forall r :: r in rs ==> 1 <= |r.kw| <= 64 && |RecordBytes(r)| <= 256
  {
    hide LeafRecords, RecordStream, RecordBytes;
    forall k | 0 <= k < |pieces| - 1
      ensures !pieces[k].Unreadable? && (pieces[k].LeafPiece? ==> pieces[k].records.Ok?)
    {
      LeafRecordsReadable(pieces, 0, k);
    }
  }

  lemma AfterTwice(a: seq<Record>, b: seq<Record>, r: Option<seq<Record>>)
    ensures After(a, After(b, r)) == After(a + b, r)
    ensures After([], r) == r
  {
    if r.Some? { assert a + (b + r.value) == (a + b) + r.value && [] + r.value == r.value; }
  }

  lemma {:induction false} RecordStreamAppend(a: seq<Record>, b: seq<Record>)
    ensures RecordStream(a + b) == RecordStream(a) + RecordStream(b)
    decreases |a|
  {
    if a == [] {
      assert a + b == b && [] + RecordStream(b) == RecordStream(b);
    } else {
      RecordStreamAppend(a[1..], b);
      assert (a + b)[1..] == a[1..] + b;
      Assoc(RecordBytes(a[0]), RecordStream(a[1..]), RecordStream(b));
    }
  }

  /** Records read so far that are too many or do not encode rule a match out. */
  lemma CannotHold(c: Crypto, pieces: seq<PieceView>, t: Trailer, read: seq<Record>, rs: seq<Record>,
                   rest: Option<seq<Record>>)
    requires LeafRecords(pieces, 0) == After(read + rs, rest)
    requires |read| + |rs| > t.numRecords || exists k :: 0 <= k < |rs| && !Encodable(rs[k])
    ensures !FingerprintHolds(c, pieces, t)
  {
    if rest.Some? && |read| + |rs| <= t.numRecords {
      var k :| 0 <= k < |rs| && !Encodable(rs[k]);
      assert ((read + rs) + rest.value)[|read| + k] == rs[k];
    }
  }

  /** VerifyFingerprint: hash what the leaves hold, in piece order, with a running count that
      stops as soon as the trailer's claim is exceeded. */
  method VerifyFingerprint(c: Crypto, src: PageSource, t: Trailer) returns (ok: bool)
    ensures ok <==> FingerprintHolds(c, View(src), t)
  {
    ghost var pieces := View(src);
    var hashed: bytes := [];
    var count := 0;
    ghost var read: seq<Record> := [];
    AfterTwice([], [], LeafRecords(pieces, 0));
    var i := 0;
    while i < |src| - 1
      invariant 0 <= i
      invariant LeafRecords(pieces, 0) == After(read, LeafRecords(pieces, i))
      invariant count == |read| <= t.numRecords && hashed == RecordStream(read)
      invariant forall k :: 0 <= k < |read| ==> Encodable(read[k])
    {
      var rs := ReadLeafPiece(src, i);
      if rs.None? { return false; }
      AfterTwice(read, rs.value, LeafRecords(pieces, i + 1));
      var fine, more := HashRecords(rs.value, t.numRecords - count);
      if !fine {
        CannotHold(c, pieces, t, read, rs.value, LeafRecords(pieces, i + 1));
        return false;
      }
      RecordStreamAppend(read, rs.value);
      hashed := hashed + more;
      count := count + |rs.value|;
      read := read + rs.value;
      i := i + 1;
    }
    assert read + [] == read;
    if count != t.numRecords { return false; }
    ok := c.sha256(hashed) == t.fingerprint;
  }

  method ReadLeafPiece(src: PageSource, i: nat) returns (r: Option<seq<Record>>)
    requires i < |src|
    ensures r == PieceRecords(View(src)[i])
  {
    ViewAt(src, i);
    var page := Fetch(src, i);
    if page.Err? { return None; }
    var hdr := DecodeHeader(page.value);
    if hdr.Err? { return None; }
    if hdr.value.kind != KIND_LEAF { return Some([]); }
    var rs := DecodeLeaf(page.value);
    if rs.Err? { return None; }
    r := Some(rs.value);
  }

  /** The inner loop: at most `room` more records, each re-encoded into the hash. */
  method HashRecords(rs: seq<Record>, room: nat) returns (fine: bool, hashed: bytes)
    ensures fine <==> |rs| <= room && forall k :: 0 <= k < |rs| ==> Encodable(rs[k])
    ensures fine ==> hashed == RecordStream(rs)
  {
    hashed := [];
    for k := 0 to |rs|
      invariant k <= room && (forall m :: 0 <= m < k ==> Encodable(rs[m]))
      invariant RecordStream(rs) == hashed + RecordStream(rs[k..])
    {
      if k >= room { return false, hashed; }
      var enc := EncodeRecord(rs[k]);
      if enc.Err? { return false, hashed; }
      assert rs[k..][1..] == rs[k + 1..];
      Assoc(hashed, enc.value, RecordStream(rs[k + 1..]));
      hashed := hashed + enc.value;
    }
    assert hashed + [] == hashed;
    fine := true;
  }
}
