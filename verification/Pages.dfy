/** SNAGG pages: the 16-byte header, leaf and interior pages, and the signed trailer.
    Each page has a specification function; the buffer-writing methods are proved equal to it. */
module Pages {
  import opened Wrappers
  import opened Bytes
  import opened Records

  type UInt32 = x: int | 0 <= x < 0x1_0000_0000

  const MAGIC: bytes := [83, 78, 65, 71, 71, 0]
  const BTREE_VERSION: byte := 1
  const KIND_ROOT: byte := 0
  const KIND_INTERIOR: byte := 1
  const KIND_LEAF: byte := 2
  const KIND_TRAILER: byte := 255
  const HEADER_SIZE := 16
  const MAX_UINT16 := 0xFFFF
  const TRAILER_PAYLOAD_SIZE := 162
  const TRAILER_SIGNED_PREFIX := 98
  const TRAILER_VERSION: byte := 1

  datatype PageError =
    | Overflow                      // the split signal
    | PayloadTooLong                // over 65535 bytes: not the split signal
    | TooManyItems
    | NoItems
    | WrongKind
    | BadRecord(error: RecordError)
    | BadHeader
    | ShortPayload
    | BadVarint
    | ShortItem
    | PageTooSmall
    | BadTrailer

  // ---- writing into buffers ----

  /** copy(dst[at:], src). */
  method PutBytes(dst: array<byte>, at: nat, src: bytes)
    requires at + |src| <= dst.Length
    modifies dst
    ensures dst[..at + |src|] == old(dst[..at]) + src
    ensures dst[at + |src|..] == old(dst[at + |src|..])
  {
    for i := 0 to |src|
      invariant dst[..at + i] == old(dst[..at]) + src[..i]
      invariant dst[at + i..] == old(dst[at + i..])
    {
      dst[at + i] := src[i];
      assert dst[..at + i + 1] == dst[..at + i] + [src[i]];
      assert old(dst[at + i + 1..]) == old(dst[at + i..])[1..];
    }
  }

  // ---- header ----

  datatype Header = Header(kind: byte, level: byte, payload: nat)

  function HeaderBytes(h: Header): (r: bytes)
    ensures |r| == HEADER_SIZE
  {
    MAGIC + [BTREE_VERSION, h.kind, h.level, 0] + LittleEndian(h.payload, 2) + [0, 0, 0, 0]
  }

  method EncodeHeader(dst: array<byte>, h: Header)
    requires dst.Length >= HEADER_SIZE && dst[12..16] == [0, 0, 0, 0]
    modifies dst
    ensures dst[..HEADER_SIZE] == HeaderBytes(h)
    ensures dst[HEADER_SIZE..] == old(dst[HEADER_SIZE..])
  {
    ghost var before := dst[..];
    PutBytes(dst, 0, MAGIC);
    assert dst[6..] == before[6..];
    PutBytes(dst, 6, [BTREE_VERSION, h.kind, h.level, 0]);
    assert dst[10..] == before[10..];
    PutBytes(dst, 10, LittleEndian(h.payload, 2));
    assert dst[12..] == before[10..][2..];
    assert dst[12..16] == dst[12..][..4] == before[12..16];
    assert dst[..16] == dst[..12] + dst[12..16];
    assert dst[16..] == dst[12..][4..];
  }

  function DecodeHeader(page: bytes): (r: Result<Header, PageError>)
    ensures r.Ok? ==> |page| >= HEADER_SIZE && r.value.payload <= MAX_UINT16
  {
    if |page| < HEADER_SIZE then Err(BadHeader)
    else if page[0..6] != MAGIC then Err(BadHeader)
    else if page[6] != BTREE_VERSION then Err(BadHeader)
    else
      FromLittleEndianBound(page[10..12]);
      Pow256Values();
      Ok(Header(page[7], page[8], FromLittleEndian(page[10..12])))
  }

  lemma HeaderRoundTrip(h: Header, rest: bytes)
    requires h.payload <= MAX_UINT16
    ensures DecodeHeader(HeaderBytes(h) + rest) == Ok(h)
  {
    var page := HeaderBytes(h) + rest;
    Pow256Values();
    LittleEndianRoundTrip(h.payload, 2);
    assert page[0..6] == MAGIC;
    assert page[10..12] == LittleEndian(h.payload, 2);
  }

  /** A page: header, payload, zero padding up to the piece size. */
  function PageBytes(h: Header, payload: bytes, pageSize: nat): (r: bytes)
    requires HEADER_SIZE + |payload| <= pageSize
    ensures |r| == pageSize
  {
    HeaderBytes(h) + (payload + Zeros(pageSize - HEADER_SIZE - |payload|))
  }

  method WritePage(h: Header, payload: bytes, pageSize: nat) returns (r: bytes)
    requires HEADER_SIZE + |payload| <= pageSize
    ensures r == PageBytes(h, payload, pageSize)
  {
    var page := new byte[pageSize](_ => 0);
    assert page[12..16] == [0, 0, 0, 0];
    EncodeHeader(page, h);
    assert page[HEADER_SIZE..] == Zeros(pageSize - HEADER_SIZE);
    ghost var padding := page[HEADER_SIZE..];
    PutBytes(page, HEADER_SIZE, payload);
    assert page[HEADER_SIZE + |payload|..] == padding[|payload|..];
    r := page[..];
    assert r == page[..HEADER_SIZE + |payload|] + page[HEADER_SIZE + |payload|..];
  }

  /** The payload slice the page decoders start from. */
  function Payload(page: bytes): (r: Result<bytes, PageError>)
    requires DecodeHeader(page).Ok?
  {
    var n := DecodeHeader(page).value.payload;
    if HEADER_SIZE + n > |page| then Err(ShortPayload) else Ok(page[HEADER_SIZE..HEADER_SIZE + n])
  }

  lemma PageRoundTrip(h: Header, payload: bytes, pageSize: nat)
    requires HEADER_SIZE + |payload| <= pageSize && h.payload == |payload| <= MAX_UINT16
    ensures DecodeHeader(PageBytes(h, payload, pageSize)) == Ok(h)
    ensures Payload(PageBytes(h, payload, pageSize)) == Ok(payload)
  {
    HeaderRoundTrip(h, payload + Zeros(pageSize - HEADER_SIZE - |payload|));
    assert PageBytes(h, payload, pageSize)[HEADER_SIZE..HEADER_SIZE + |payload|] == payload;
  }

  /** Decoded items in front of what the rest of a payload decodes to. */
  function Joined<T>(front: seq<T>, rest: Result<seq<T>, PageError>): (r: Result<seq<T>, PageError>)
    ensures r.Ok? <==> rest.Ok?
    ensures r.Ok? ==> |r.value| == |front| + |rest.value|
  {
    match rest case Err(e) => Err(e) case Ok(more) => Ok(front + more)
  }

  lemma JoinedJoined<T>(a: seq<T>, b: seq<T>, r: Result<seq<T>, PageError>)
    ensures Joined(a, Joined(b, r)) == Joined(a + b, r)
  {
    if r.Ok? { assert a + (b + r.value) == (a + b) + r.value; }
  }

  lemma JoinedNothing<T>(r: Result<seq<T>, PageError>)
    ensures Joined([], r) == r
  {
    if r.Ok? { assert [] + r.value == r.value; }
  }

  // ---- leaf pages ----

  /** [ uvarint(len) record ]* */
  function LeafItems(records: seq<Record>): bytes {
    if records == [] then []
    else PutUvarint(|RecordBytes(records[0])|) + RecordBytes(records[0]) + LeafItems(records[1..])
  }

  function LeafPayload(records: seq<Record>): bytes {
    LittleEndian(|records|, 2) + LeafItems(records)
  }

  ghost predicate AllEncodable(rs: seq<Record>) {
    forall k :: 0 <= k < |rs| ==> Encodable(rs[k])
  }

  lemma {:induction false} NoRecordError(rs: seq<Record>)
    ensures FirstRecordError(rs).None? <==> AllEncodable(rs)
    decreases |rs|
  {
    if rs != [] {
      NoRecordError(rs[1..]);
      assert rs == [rs[0]] + rs[1..];
    }
  }

  function FirstRecordError(records: seq<Record>): Option<RecordError> {
    if records == [] then None
    else if Encodable(records[0]) then FirstRecordError(records[1..])
    else Some(EncodeRecord(records[0]).error)
  }

  function LeafPage(level: nat, records: seq<Record>, pageSize: int): (r: Result<bytes, PageError>)
    ensures r.Ok? ==> |r.value| == pageSize
  {
    if |records| == 0 then Err(NoItems)
    else if |records| > MAX_UINT16 then Err(TooManyItems)
    else if FirstRecordError(records).Some? then Err(BadRecord(FirstRecordError(records).value))
    else if |LeafPayload(records)| > MAX_UINT16 then Err(PayloadTooLong)
    else if HEADER_SIZE + |LeafPayload(records)| > pageSize then Err(Overflow)
    else Ok(PageBytes(Header(KIND_LEAF, level % 256, |LeafPayload(records)|), LeafPayload(records), pageSize))
  }

  lemma AppendRecord(front: bytes, rs: seq<Record>, i: nat)
    requires i < |rs| && Encodable(rs[i])
    ensures var enc := RecordBytes(rs[i]);
            front + PutUvarint(|enc|) + enc + LeafItems(rs[i + 1..]) == front + LeafItems(rs[i..])
    ensures FirstRecordError(rs[i..]) == FirstRecordError(rs[i + 1..])
  {
    var enc := RecordBytes(rs[i]);
    assert rs[i..][1..] == rs[i + 1..];
    Assoc(front, PutUvarint(|enc|), enc);
    Assoc(front, PutUvarint(|enc|) + enc, LeafItems(rs[i + 1..]));
  }

  method EncodeLeaf(level: nat, records: seq<Record>, pageSize: int) returns (r: Result<bytes, PageError>)
    ensures r == LeafPage(level, records, pageSize)
  {
    if |records| == 0 { return Err(NoItems); }
    if |records| > MAX_UINT16 { return Err(TooManyItems); }
    var payload := LittleEndian(|records|, 2);
    var i := 0;
    while i < |records|
      invariant 0 <= i <= |records|
      invariant LeafPayload(records) == payload + LeafItems(records[i..])
      invariant FirstRecordError(records) == FirstRecordError(records[i..])
    {
      var enc := EncodeRecord(records[i]);
      if enc.Err? { return Err(BadRecord(enc.error)); }
      ghost var before := payload;
      payload := payload + PutUvarint(|enc.value|);
      payload := payload + enc.value;
      AppendRecord(before, records, i);
      i := i + 1;
    }
    assert payload + LeafItems(records[i..]) == payload;
    if |payload| > MAX_UINT16 { return Err(PayloadTooLong); }
    if HEADER_SIZE + |payload| > pageSize { return Err(Overflow); }
    var page := WritePage(Header(KIND_LEAF, level % 256, |payload|), payload, pageSize);
    r := Ok(page);
  }

  /** The record at the front of a payload, and the bytes after it. */
  function NextRecord(p: bytes): Result<(Record, bytes), PageError> {
    match Uvarint(p)
    case None => Err(BadVarint)
    case Some((len, used)) =>
      var q := p[used..];
      if |q| < len then Err(ShortItem)
      else match DecodeRecord(q[..len])
        case Err(e) => Err(BadRecord(e))
        case Ok(rec) => Ok((rec, q[len..]))
  }

  function ParseLeafItems(p: bytes, n: nat): (r: Result<seq<Record>, PageError>)
    ensures r.Ok? ==> |r.value| == n
    decreases n
  {
    if n == 0 then Ok([])
    else match NextRecord(p)
      case Err(e) => Err(e)
      case Ok((rec, rest)) => Joined([rec], ParseLeafItems(rest, n - 1))
  }

  /** What a leaf page holds; every slice is in bounds on any bytes. */
  function ParseLeaf(page: bytes): Result<seq<Record>, PageError> {
    match DecodeHeader(page)
    case Err(e) => Err(e)
    case Ok(h) =>
      if h.kind != KIND_LEAF then Err(WrongKind)
      else match Payload(page)
        case Err(e) => Err(e)
        case Ok(p) => if |p| < 2 then Err(ShortPayload) else ParseLeafItems(p[2..], FromLittleEndian(p[..2]))
  }

  /** The number in two bytes, the low one first. */
  function Two(low: int, high: int): int {
    low + 256 * high
  }

  /** Whatever the bytes, a page read as a leaf has the magic, the version and the leaf kind, its payload within it,
      and as many records as it counts, each decoded from some bytes of it. */
  lemma LeafMeans(page: bytes)
    requires ParseLeaf(page).Ok?
    ensures |page| >= 18 && page[0..6] == [83, 78, 65, 71, 71, 0] && page[6] == 1 && page[7] == 2
    ensures 18 <= 16 + Two(page[10], page[11]) <= |page| && |ParseLeaf(page).value| == Two(page[16], page[17])
    ensures forall r :: r in ParseLeaf(page).value ==>
              exists i, k :: 18 <= i <= k <= |page| && DecodeRecord(page[i..k]) == Ok(r)
  {
    hide ParseLeafItems, DecodeRecord, FromLittleEndian;
    var n := DecodeHeader(page).value.payload;
    TwoBytes(page[10..12]);
    var payload := Payload(page).value;
    assert payload == page[16..16 + n] && payload[..2] == page[16..18];
    TwoBytes(payload[..2]);
    var p := payload[2..];
    forall r | r in ParseLeaf(page).value
      ensures exists i, k :: 18 <= i <= k <= |page| && DecodeRecord(page[i..k]) == Ok(r)
    {
      var i, k := ReadFrom(p, |ParseLeaf(page).value|, r);
      assert p == page[18..16 + n];
      SliceOfSlice(page, 18, 16 + n, i, k);
    }
  }

  /** Each record read off a payload was decoded from a slice of it. */
  lemma {:induction false} ReadFrom(p: bytes, n: nat, r: Record) returns (i: nat, k: nat)
    requires ParseLeafItems(p, n).Ok? && r in ParseLeafItems(p, n).value
    ensures i <= k <= |p| && DecodeRecord(p[i..k]) == Ok(r)
    decreases n
  {
    hide DecodeRecord, Uvarint, NextRecord;
    var (first, rest) := NextRecord(p).value;
    var from, to := NextRecordAt(p);
    if r == first {
      i, k := from, to;
    } else {
      var i', k' := ReadFrom(rest, n - 1, r);
      i, k := to + i', to + k';
      SliceOfSlice(p, to, |p|, i', k');
    }
  }

  lemma NextRecordAt(p: bytes) returns (i: nat, k: nat)
    requires NextRecord(p).Ok?
    ensures i <= k <= |p| && DecodeRecord(p[i..k]) == Ok(NextRecord(p).value.0) && NextRecord(p).value.1 == p[k..|p|]
  {
    hide DecodeRecord, Uvarint;
    var (len, used) := Uvarint(p).value;
    i, k := used, used + len;
    assert p[used..][..len] == p[i..k];
  }

  lemma SliceOfSlice(s: bytes, a: nat, b: nat, i: nat, k: nat)
    requires a <= b <= |s| && i <= k <= b - a
    ensures s[a..b][i..k] == s[a + i..a + k]
  {
    var mid := s[a..b];
    assert |mid[i..k]| == |s[a + i..a + k]|;
    forall j | 0 <= j < k - i ensures mid[i..k][j] == s[a + i..a + k][j] {
      assert mid[i..k][j] == mid[i + j];
    }
  }

  /** The decode loop: n items off the front of the payload. */
  method ReadRecords(payload: bytes, n: nat) returns (r: Result<seq<Record>, PageError>)
    ensures r == ParseLeafItems(payload, n)
  {
    var p := payload;
    var out: seq<Record> := [];
    ghost var all := ParseLeafItems(p, n);
    JoinedNothing(all);
    for i := 0 to n
      invariant all == Joined(out, ParseLeafItems(p, n - i))
    {
      var next := NextRecord(p);
      if next.Err? { return Err(next.error); }
      p := next.value.1;
      JoinedJoined(out, [next.value.0], ParseLeafItems(p, n - i - 1));
      out := out + [next.value.0];
    }
    assert out + [] == out;
    r := Ok(out);
  }

  method DecodeLeaf(page: bytes) returns (r: Result<seq<Record>, PageError>)
    ensures r == ParseLeaf(page)
  {
    var h := DecodeHeader(page);
    if h.Err? { return Err(h.error); }
    if h.value.kind != KIND_LEAF { return Err(WrongKind); }
    if HEADER_SIZE + h.value.payload > |page| { return Err(ShortPayload); }
    var p := page[HEADER_SIZE..HEADER_SIZE + h.value.payload];
    if |p| < 2 { return Err(ShortPayload); }
    var n := FromLittleEndian(p[..2]);
    r := ReadRecords(p[2..], n);
  }

  lemma NextRecordRoundTrip(r: Record, more: bytes)
    requires Encodable(r)
    ensures NextRecord(PutUvarint(|RecordBytes(r)|) + RecordBytes(r) + more) == Ok((r, more))
  {
    var enc := RecordBytes(r);
    var n := PutUvarint(|enc|);
    Assoc(n, enc, more);
    UvarintRoundTrip(|enc|, enc + more);
    TakeDrop(n, enc + more);
    TakeDrop(enc, more);
    RecordRoundTrip(r, []);
    assert enc + [] == enc;
  }

  lemma LeafItemsCons(r: Record, rs: seq<Record>)
    ensures LeafItems([r] + rs) == PutUvarint(|RecordBytes(r)|) + RecordBytes(r) + LeafItems(rs)
  {
    hide RecordBytes, PutUvarint;
    assert ([r] + rs)[1..] == rs;
  }

  lemma ParseFirst(p: bytes, n: nat, r: Record, rest: bytes)
    requires NextRecord(p) == Ok((r, rest))
    ensures ParseLeafItems(p, n + 1) == Joined([r], ParseLeafItems(rest, n))
  {
    hide NextRecord, Joined;
  }

  lemma LeafItemsStep(r: Record, rs: seq<Record>)
    requires Encodable(r) && ParseLeafItems(LeafItems(rs), |rs|) == Ok(rs)
    ensures ParseLeafItems(LeafItems([r] + rs), |rs| + 1) == Ok([r] + rs)
  {
    hide RecordBytes, NextRecord, PutUvarint, Encodable, ParseLeafItems, LeafItems;
    LeafItemsCons(r, rs);
    NextRecordRoundTrip(r, LeafItems(rs));
    ParseFirst(LeafItems([r] + rs), |rs|, r, LeafItems(rs));
  }

  lemma {:induction false} LeafItemsRoundTrip(records: seq<Record>)
    requires AllEncodable(records)
    ensures ParseLeafItems(LeafItems(records), |records|) == Ok(records)
    decreases |records|
  {
    if records != [] {
      var r, rs := records[0], records[1..];
      LeafItemsRoundTrip(rs);
      LeafItemsStep(r, rs);
      assert records == [r] + rs;
    }
  }

  /** DecodeLeaf inverts EncodeLeaf. */
  lemma LeafRoundTrip(level: nat, records: seq<Record>, pageSize: int)
    requires LeafPage(level, records, pageSize).Ok?
    ensures ParseLeaf(LeafPage(level, records, pageSize).value) == Ok(records)
    ensures DecodeHeader(LeafPage(level, records, pageSize).value).value.kind == KIND_LEAF
  {
    var payload := LeafPayload(records);
    PageRoundTrip(Header(KIND_LEAF, level % 256, |payload|), payload, pageSize);
    Pow256Values();
    LittleEndianRoundTrip(|records|, 2);
    assert payload[..2] == LittleEndian(|records|, 2) && payload[2..] == LeafItems(records);
    NoRecordError(records);
    LeafItemsRoundTrip(records);
  }

  // ---- interior pages ----

  /** A child pointer; an empty separator is the source's nil, minus infinity. */
  datatype InteriorChild = InteriorChild(separator: bytes, index: UInt32)

  function ChildBytes(sep: bytes, index: UInt32): bytes {
    PutUvarint(|sep|) + sep + LittleEndian(index, 4)
  }

  function InteriorItems(children: seq<InteriorChild>): bytes {
    if children == [] then []
    else ChildBytes(children[0].separator, children[0].index) + InteriorItems(children[1..])
  }

  /** The first child's separator is forced empty. */
  function FirstEmptied(children: seq<InteriorChild>): (r: seq<InteriorChild>)
    ensures |r| == |children|
  {
    if children == [] then [] else [children[0].(separator := [])] + children[1..]
  }

  function InteriorPayload(children: seq<InteriorChild>): bytes {
    LittleEndian(|children|, 2) + InteriorItems(FirstEmptied(children))
  }

  function InteriorPage(kind: byte, level: nat, children: seq<InteriorChild>, pageSize: int):
    (r: Result<bytes, PageError>)
    ensures r.Ok? ==> |r.value| == pageSize
  {
    if kind != KIND_INTERIOR && kind != KIND_ROOT then Err(WrongKind)
    else if |children| == 0 then Err(NoItems)
    else if |children| > MAX_UINT16 then Err(TooManyItems)
    else if |InteriorPayload(children)| > MAX_UINT16 then Err(PayloadTooLong)
    else if HEADER_SIZE + |InteriorPayload(children)| > pageSize then Err(Overflow)
    else Ok(PageBytes(Header(kind, level % 256, |InteriorPayload(children)|), InteriorPayload(children), pageSize))
  }

  /** Appending child i's varint, separator and index moves it from the rest to the front. */
  lemma AppendChild(front: bytes, cs: seq<InteriorChild>, i: nat)
    requires i < |cs|
    ensures var c := cs[i];
            front + PutUvarint(|c.separator|) + c.separator + LittleEndian(c.index, 4) + InteriorItems(cs[i + 1..])
            == front + InteriorItems(cs[i..])
  {
    var c, more := cs[i], InteriorItems(cs[i + 1..]);
    assert cs[i..][1..] == cs[i + 1..];
    Assoc(front, PutUvarint(|c.separator|), c.separator);
    Assoc(front, PutUvarint(|c.separator|) + c.separator, LittleEndian(c.index, 4));
    Assoc(front, ChildBytes(c.separator, c.index), more);
  }

  method EncodeInterior(kind: byte, level: nat, children: seq<InteriorChild>, pageSize: int)
    returns (r: Result<bytes, PageError>)
    ensures r == InteriorPage(kind, level, children, pageSize)
  {
    if kind != KIND_INTERIOR && kind != KIND_ROOT { return Err(WrongKind); }
    if |children| == 0 { return Err(NoItems); }
    if |children| > MAX_UINT16 { return Err(TooManyItems); }
    var payload := LittleEndian(|children|, 2);
    ghost var wire := FirstEmptied(children);
    var i := 0;
    while i < |children|
      invariant 0 <= i <= |children|
      invariant InteriorPayload(children) == payload + InteriorItems(wire[i..])
    {
      var sep := children[i].separator;
      if i == 0 { sep := []; }
      ghost var before := payload;
      payload := payload + PutUvarint(|sep|);
      payload := payload + sep;
      payload := payload + LittleEndian(children[i].index, 4);
      assert wire[i] == InteriorChild(sep, children[i].index);
      AppendChild(before, wire, i);
      i := i + 1;
    }
    assert payload + InteriorItems(wire[i..]) == payload;
    if |payload| > MAX_UINT16 { return Err(PayloadTooLong); }
    if HEADER_SIZE + |payload| > pageSize { return Err(Overflow); }
    var page := WritePage(Header(kind, level % 256, |payload|), payload, pageSize);
    r := Ok(page);
  }

  function ReadUint32(b: bytes): UInt32
    requires |b| == 4
  {
    FromLittleEndianBound(b);
    Pow256Values();
    FromLittleEndian(b)
  }

  function NextChild(p: bytes): Result<(InteriorChild, bytes), PageError> {
    match Uvarint(p)
    case None => Err(BadVarint)
    case Some((len, used)) =>
      var q := p[used..];
      if len > |q| || |q| - len < 4 then Err(ShortItem)
      else Ok((InteriorChild(q[..len], ReadUint32(q[len..len + 4])), q[len + 4..]))
  }

  function ParseInteriorItems(p: bytes, n: nat): (r: Result<seq<InteriorChild>, PageError>)
    ensures r.Ok? ==> |r.value| == n
    decreases n
  {
    if n == 0 then Ok([])
    else match NextChild(p)
      case Err(e) => Err(e)
      case Ok((child, rest)) => Joined([child], ParseInteriorItems(rest, n - 1))
  }

  function ParseInterior(page: bytes): Result<seq<InteriorChild>, PageError> {
    match DecodeHeader(page)
    case Err(e) => Err(e)
    case Ok(h) =>
      if h.kind != KIND_INTERIOR && h.kind != KIND_ROOT then Err(WrongKind)
      else match Payload(page)
        case Err(e) => Err(e)
        case Ok(p) => if |p| < 2 then Err(ShortPayload) else ParseInteriorItems(p[2..], FromLittleEndian(p[..2]))
  }

  /** The decode loop: n items off the front of the payload. */
  method ReadChildren(payload: bytes, n: nat) returns (r: Result<seq<InteriorChild>, PageError>)
    ensures r == ParseInteriorItems(payload, n)
  {
    var p := payload;
    var out: seq<InteriorChild> := [];
    ghost var all := ParseInteriorItems(p, n);
    JoinedNothing(all);
    for i := 0 to n
      invariant all == Joined(out, ParseInteriorItems(p, n - i))
    {
      var next := NextChild(p);
      if next.Err? { return Err(next.error); }
      p := next.value.1;
      JoinedJoined(out, [next.value.0], ParseInteriorItems(p, n - i - 1));
      out := out + [next.value.0];
    }
    assert out + [] == out;
    r := Ok(out);
  }

  method DecodeInterior(page: bytes) returns (r: Result<seq<InteriorChild>, PageError>)
    ensures r == ParseInterior(page)
  {
    var h := DecodeHeader(page);
    if h.Err? { return Err(h.error); }
    if h.value.kind != KIND_INTERIOR && h.value.kind != KIND_ROOT { return Err(WrongKind); }
    if HEADER_SIZE + h.value.payload > |page| { return Err(ShortPayload); }
    var p := page[HEADER_SIZE..HEADER_SIZE + h.value.payload];
    if |p| < 2 { return Err(ShortPayload); }
    var n := FromLittleEndian(p[..2]);
    r := ReadChildren(p[2..], n);
  }

  lemma SliceThree(a: bytes, b: bytes, c: bytes)
    ensures var q := a + (b + c);
            q[..|a|] == a && q[|a|..|a| + |b|] == b && q[|a| + |b|..] == c
  {
  }

  lemma NextChildRoundTrip(c: InteriorChild, more: bytes)
    requires |c.separator| <= MAX_UINT16
    ensures NextChild(ChildBytes(c.separator, c.index) + more) == Ok((c, more))
  {
    var n, sep, idx := PutUvarint(|c.separator|), c.separator, LittleEndian(c.index, 4);
    var q := sep + (idx + more);
    Assoc(n + sep, idx, more);
    Assoc(n, sep, idx + more);
    UvarintRoundTrip(|sep|, q);
    TakeDrop(n, q);
    SliceThree(sep, idx, more);
    Pow256Values();
    LittleEndianRoundTrip(c.index, 4);
  }

  lemma {:induction false} InteriorItemsRoundTrip(children: seq<InteriorChild>)
    requires |InteriorItems(children)| <= MAX_UINT16
    ensures ParseInteriorItems(InteriorItems(children), |children|) == Ok(children)
    decreases |children|
  {
    hide NextChild, ChildBytes;
    if children != [] {
      var c := children[0];
      assert |c.separator| <= |ChildBytes(c.separator, c.index)| by { ChildLength(c.separator, c.index); }
      NextChildRoundTrip(c, InteriorItems(children[1..]));
      InteriorItemsRoundTrip(children[1..]);
      assert children == [c] + children[1..];
    }
  }

  lemma ChildLength(sep: bytes, index: UInt32)
    ensures |sep| <= |ChildBytes(sep, index)|
  {
  }

  /** DecodeInterior inverts EncodeInterior up to the first separator, which comes back empty. */
  lemma InteriorRoundTrip(kind: byte, level: nat, children: seq<InteriorChild>, pageSize: int)
    requires InteriorPage(kind, level, children, pageSize).Ok?
    ensures ParseInterior(InteriorPage(kind, level, children, pageSize).value) == Ok(FirstEmptied(children))
    ensures DecodeHeader(InteriorPage(kind, level, children, pageSize).value).value.kind == kind
  {
    var payload := InteriorPayload(children);
    PageRoundTrip(Header(kind, level % 256, |payload|), payload, pageSize);
    Pow256Values();
    LittleEndianRoundTrip(|children|, 2);
    assert payload[..2] == LittleEndian(|children|, 2) && payload[2..] == InteriorItems(FirstEmptied(children));
    InteriorItemsRoundTrip(FirstEmptied(children));
  }

  /** Child by child: the index comes back, and so does every separator but the first. */
  lemma ChildrenBack(kind: byte, level: nat, children: seq<InteriorChild>, pageSize: int)
    requires InteriorPage(kind, level, children, pageSize).Ok?
    ensures var cs := ParseInterior(InteriorPage(kind, level, children, pageSize).value);
            && cs.Ok? && |cs.value| == |children| && cs.value[0].separator == []
            && (forall i :: 0 <= i < |children| ==> cs.value[i].index == children[i].index)
            && (forall i :: 0 < i < |children| ==> cs.value[i].separator == children[i].separator)
  {
    hide ParseInterior, InteriorPayload;
    InteriorRoundTrip(kind, level, children, pageSize);
  }

  /** Whatever the bytes, a page read as an inner page has the magic, the version and an inner kind, its payload within
      it, and as many children as it counts. */
  lemma InteriorMeans(page: bytes)
    requires ParseInterior(page).Ok?
    ensures |page| >= 18 && page[0..6] == [83, 78, 65, 71, 71, 0] && page[6] == 1 && page[7] <= 1
    ensures 18 <= 16 + Two(page[10], page[11]) <= |page| && |ParseInterior(page).value| == Two(page[16], page[17])
  {
    hide ParseInteriorItems, FromLittleEndian;
    var n := DecodeHeader(page).value.payload;
    TwoBytes(page[10..12]);
    var p := Payload(page).value;
    assert p == page[16..16 + n] && p[..2] == page[16..18];
    TwoBytes(p[..2]);
  }

  lemma TwoBytes(b: bytes)
    requires |b| == 2
    ensures FromLittleEndian(b) == Two(b[0], b[1])
  {
    var high := b[1..];
    assert high == [b[1]] && high[1..] == [] && FromLittleEndian([]) == 0;
    assert FromLittleEndian(high) == high[0] + 256 * FromLittleEndian(high[1..]);
    assert FromLittleEndian(b) == b[0] + 256 * FromLittleEndian(high);
  }

  // ---- trailer ----

  datatype Trailer = Trailer(
    version: byte, pubKey: Bytes32, seqNo: UInt64, createdTs: UInt64, rootPieceIndex: UInt32, numPages: UInt32,
    numRecords: UInt64, minPoWBits: byte, fingerprint: Bytes32, publisherSig: Bytes64)

  /** The first 98 payload bytes, which are the signed message. */
  function TrailerFields(t: Trailer): (r: bytes)
    ensures |r| == TRAILER_SIGNED_PREFIX
  {
    [t.version] + t.pubKey + LittleEndian(t.seqNo, 8) + LittleEndian(t.createdTs, 8)
      + (LittleEndian(t.rootPieceIndex, 4) + LittleEndian(t.numPages, 4) + LittleEndian(t.numRecords, 8)
      + [t.minPoWBits] + t.fingerprint)
  }

  function SignTrailer(c: Crypto, t: Trailer, priv: PrivateKey): Trailer {
    t.(publisherSig := c.sign(priv, TrailerFields(t)))
  }

  predicate TrailerVerifies(c: Crypto, t: Trailer) {
    c.verify(t.pubKey, TrailerFields(t), t.publisherSig)
  }

  function TrailerPage(t: Trailer, pageSize: int): (r: Result<bytes, PageError>)
    ensures r.Ok? ==> |r.value| == pageSize
  {
    if pageSize < HEADER_SIZE + TRAILER_PAYLOAD_SIZE then Err(PageTooSmall)
    else if t.version != TRAILER_VERSION then Err(BadTrailer)
    else Ok(PageBytes(Header(KIND_TRAILER, 0, TRAILER_PAYLOAD_SIZE), TrailerFields(t) + t.publisherSig, pageSize))
  }

  method EncodeTrailerFields(t: Trailer) returns (r: bytes)
    ensures r == TrailerFields(t)
  {
    var b := new byte[TRAILER_SIGNED_PREFIX](_ => 0);
    PutFront(b, t);
    PutBack(b, t);
    r := b[..];
    assert r == b[..98];
  }

  /** Version, key, sequence number and creation time at offsets 0 to 49. */
  method PutFront(b: array<byte>, t: Trailer)
    requires b.Length == TRAILER_SIGNED_PREFIX
    modifies b
    ensures b[..49] == [t.version] + t.pubKey + LittleEndian(t.seqNo, 8) + LittleEndian(t.createdTs, 8)
  {
    hide LittleEndian;
    PutBytes(b, 0, [t.version]);
    PutBytes(b, 1, t.pubKey);
    PutBytes(b, 33, LittleEndian(t.seqNo, 8));
    PutBytes(b, 41, LittleEndian(t.createdTs, 8));
  }

  /** Root piece, counts, proof of work and fingerprint at offsets 49 to 98. */
  method PutBack(b: array<byte>, t: Trailer)
    requires b.Length == TRAILER_SIGNED_PREFIX
    modifies b
    ensures b[..98] == old(b[..49]) + (LittleEndian(t.rootPieceIndex, 4) + LittleEndian(t.numPages, 4)
                       + LittleEndian(t.numRecords, 8) + [t.minPoWBits] + t.fingerprint)
  {
    hide LittleEndian;
    ghost var front := b[..49];
    var root, pages, records := LittleEndian(t.rootPieceIndex, 4), LittleEndian(t.numPages, 4),
      LittleEndian(t.numRecords, 8);
    PutBytes(b, 49, root);
    PutBytes(b, 53, pages);
    PutBytes(b, 57, records);
    PutBytes(b, 65, [t.minPoWBits]);
    PutBytes(b, 66, t.fingerprint);
    assert b[..98] == front + root + pages + records + [t.minPoWBits] + t.fingerprint;
  }

  method EncodeTrailer(t: Trailer, pageSize: int) returns (r: Result<bytes, PageError>)
    ensures r == TrailerPage(t, pageSize)
  {
    if pageSize < HEADER_SIZE + TRAILER_PAYLOAD_SIZE { return Err(PageTooSmall); }
    if t.version != TRAILER_VERSION { return Err(BadTrailer); }
    var fields := EncodeTrailerFields(t);
    var page := WritePage(Header(KIND_TRAILER, 0, TRAILER_PAYLOAD_SIZE), fields + t.publisherSig, pageSize);
    r := Ok(page);
  }

  function ReadUint64(b: bytes): UInt64
    requires |b| == 8
  {
    FromLittleEndianBound(b);
    Pow256Values();
    FromLittleEndian(b)
  }

  /** Parses a trailer page; the signature is not verified here. */
  function DecodeTrailer(page: bytes): Result<Trailer, PageError> {
    match DecodeHeader(page)
    case Err(e) => Err(e)
    case Ok(h) =>
      if h.kind != KIND_TRAILER then Err(WrongKind)
      else if h.payload != TRAILER_PAYLOAD_SIZE then Err(BadTrailer)
      else if HEADER_SIZE + TRAILER_PAYLOAD_SIZE > |page| then Err(ShortPayload)
      else
        var p := page[HEADER_SIZE..HEADER_SIZE + TRAILER_PAYLOAD_SIZE];
        if p[0] != TRAILER_VERSION then Err(BadTrailer)
        else Ok(Trailer(p[0], p[1..33], ReadUint64(p[33..41]), ReadUint64(p[41..49]), ReadUint32(p[49..53]),
                        ReadUint32(p[53..57]), ReadUint64(p[57..65]), p[65], p[66..98], p[98..162]))
  }

  lemma TrailerSlices(t: Trailer)
    ensures var p := TrailerFields(t) + t.publisherSig;
            p[0] == t.version && p[1..33] == t.pubKey && p[33..41] == LittleEndian(t.seqNo, 8) &&
            p[41..49] == LittleEndian(t.createdTs, 8) && p[49..53] == LittleEndian(t.rootPieceIndex, 4) &&
            p[53..57] == LittleEndian(t.numPages, 4) && p[57..65] == LittleEndian(t.numRecords, 8) &&
            p[65] == t.minPoWBits && p[66..98] == t.fingerprint && p[98..162] == t.publisherSig
  {
    var front := [t.version] + t.pubKey + LittleEndian(t.seqNo, 8) + LittleEndian(t.createdTs, 8);
    var back := LittleEndian(t.rootPieceIndex, 4) + LittleEndian(t.numPages, 4) + LittleEndian(t.numRecords, 8)
      + [t.minPoWBits] + t.fingerprint;
    var p := TrailerFields(t) + t.publisherSig;
    assert p[..49] == front && p[49..98] == back;
    assert p[1..33] == p[..49][1..33] && p[33..41] == p[..49][33..41] && p[41..49] == p[..49][41..49];
    assert p[49..53] == p[49..98][..4] && p[53..57] == p[49..98][4..8] && p[57..65] == p[49..98][8..16];
    assert p[66..98] == p[49..98][17..];
    assert p[65] == p[49..98][16];
  }

  /** The trailer a page holds, byte by byte: magic, format and kind; a payload of 162 bytes; the format version; the
      nine signed fields at bytes 16 to 113 and the signature after them. */
  lemma TrailerAt(page: bytes, t: Trailer)
    ensures DecodeTrailer(page) == Ok(t) <==>
              && |page| >= 178 && page[0..6] == [83, 78, 65, 71, 71, 0] && page[6] == 1 && page[7] == 255
              && page[10..12] == [162, 0] && page[16] == 1
              && page[16..114] == TrailerFields(t) && page[114..178] == t.publisherSig
  {
    if |page| >= 178 {
      var p := page[16..178];
      PayloadLength(page[10..12]);
      assert page[16..114] == p[..98] && page[114..178] == p[98..162];
      if p[..98] == TrailerFields(t) && p[98..162] == t.publisherSig {
        assert p == TrailerFields(t) + t.publisherSig;
        TrailerFieldsBack(t, p);
      } else if DecodeTrailer(page) == Ok(t) {
        TrailerFieldsThere(t, p);
      }
    }
  }

  lemma PayloadLength(b: bytes)
    requires |b| == 2
    ensures FromLittleEndian(b) == 162 <==> b == [162, 0]
  {
    assert FromLittleEndian(b) == b[0] + 256 * FromLittleEndian(b[1..]);
    assert b[1..] == [b[1]] && [b[1]][1..] == [];
    assert FromLittleEndian(b[1..]) == b[1];
    assert b == [b[0], b[1]];
  }

  /** Reading the nine fields off their bytes gives them back. */
  lemma TrailerFieldsBack(t: Trailer, p: bytes)
    requires |p| == 162 && p == TrailerFields(t) + t.publisherSig
    ensures ReadUint64(p[33..41]) == t.seqNo && ReadUint64(p[41..49]) == t.createdTs
    ensures ReadUint32(p[49..53]) == t.rootPieceIndex && ReadUint32(p[53..57]) == t.numPages
    ensures ReadUint64(p[57..65]) == t.numRecords
    ensures p[0] == t.version && p[1..33] == t.pubKey && p[65] == t.minPoWBits && p[66..98] == t.fingerprint
    ensures p[98..162] == t.publisherSig
  {
    hide TrailerFields;
    Pow256Values();
    TrailerSlices(t);
    LittleEndianRoundTrip(t.seqNo, 8);
    LittleEndianRoundTrip(t.createdTs, 8);
    LittleEndianRoundTrip(t.rootPieceIndex, 4);
    LittleEndianRoundTrip(t.numPages, 4);
    LittleEndianRoundTrip(t.numRecords, 8);
  }

  /** Fields read off a payload are the fields its bytes write. */
  lemma TrailerFieldsThere(t: Trailer, p: bytes)
    requires |p| == 162
    requires t == Trailer(p[0], p[1..33], ReadUint64(p[33..41]), ReadUint64(p[41..49]), ReadUint32(p[49..53]),
                          ReadUint32(p[53..57]), ReadUint64(p[57..65]), p[65], p[66..98], p[98..162])
    ensures p[..98] == TrailerFields(t) && p[98..162] == t.publisherSig
  {
    FromLittleEndianRoundTrip(p[33..41]);
    FromLittleEndianRoundTrip(p[41..49]);
    FromLittleEndianRoundTrip(p[49..53]);
    FromLittleEndianRoundTrip(p[53..57]);
    FromLittleEndianRoundTrip(p[57..65]);
    hide LittleEndian, FromLittleEndian;
    assert p[..98] == [p[0]] + p[1..33] + p[33..41] + p[41..49]
                        + (p[49..53] + p[53..57] + p[57..65] + [p[65]] + p[66..98]);
  }

  /** DecodeTrailer inverts EncodeTrailer. */
  lemma TrailerRoundTrip(t: Trailer, pageSize: int)
    requires TrailerPage(t, pageSize).Ok?
    ensures DecodeTrailer(TrailerPage(t, pageSize).value) == Ok(t)
  {
    PageRoundTrip(Header(KIND_TRAILER, 0, TRAILER_PAYLOAD_SIZE), TrailerFields(t) + t.publisherSig, pageSize);
    Pow256Values();
    TrailerSlices(t);
    LittleEndianRoundTrip(t.seqNo, 8);
    LittleEndianRoundTrip(t.createdTs, 8);
    LittleEndianRoundTrip(t.rootPieceIndex, 4);
    LittleEndianRoundTrip(t.numPages, 4);
    LittleEndianRoundTrip(t.numRecords, 8);
  }
}
