/** The signed keyword record (contracts/record) and its bencoded wire form (contracts/snagg). */
module Records {
  import opened Wrappers
  import opened Bytes
  import B = Bencode

  type Bytes20 = b: bytes | |b| == 20 witness Zeros(20)
  type Bytes32 = b: bytes | |b| == 32 witness Zeros(32)
  type Bytes64 = b: bytes | |b| == 64 witness Zeros(64)
  type Int64 = x: int | -0x8000_0000_0000_0000 <= x < 0x8000_0000_0000_0000
  type UInt64 = x: int | 0 <= x < UINT64_LIMIT
  type PrivateKey = bytes

  const MAX_KEYWORD_BYTES := 64
  const MAX_RECORD_BYTES := 256

  /** The cryptography the model keeps opaque: any functions of these shapes. */
  datatype Crypto = Crypto(
    sha256: bytes -> Bytes32,
    publicKey: PrivateKey -> Bytes32,
    sign: (PrivateKey, bytes) -> Bytes64,
    verify: (Bytes32, bytes, Bytes64) -> bool)
  {
    /** A signature verifies under the public key of the key that made it. */
    ghost predicate SignaturesVerify() {
      forall k: PrivateKey, m: bytes :: verify(publicKey(k), m, sign(k, m))
    }

    /** Two different messages share a digest. */
    predicate Collide(m: bytes, m': bytes) {
      m != m' && sha256(m) == sha256(m')
    }
  }

  datatype Record = Record(pk: Bytes32, kw: bytes, ih: Bytes20, t: Int64, pow: UInt64, sig: Bytes64)

  // ---- identity, signature, proof of work ----

  /** The two's complement bits of t as a 64-bit unsigned number. */
  function Uint64Of(t: Int64): UInt64 {
    if t < 0 then t + UINT64_LIMIT else t
  }

  function IdPreimage(r: Record): bytes {
    r.pk + r.kw + r.ih + LittleEndian(Uint64Of(r.t), 8)
  }

  function ElementID(c: Crypto, r: Record): Bytes32 {
    c.sha256(IdPreimage(r))
  }

  function SigMessage(r: Record): bytes {
    IdPreimage(r) + PutUvarint(r.pow)
  }

  predicate Verify(c: Crypto, r: Record) {
    c.verify(r.pk, SigMessage(r), r.sig)
  }

  function LeadingZeros8(b: byte): nat {
    if b == 0 then 8 else if b < 2 then 7 else if b < 4 then 6 else if b < 8 then 5 else if b < 16 then 4
    else if b < 32 then 3 else if b < 64 then 2 else if b < 128 then 1 else 0
  }

  function LeadingZeroBits(h: bytes): nat {
    if h == [] then 0 else if h[0] == 0 then 8 + LeadingZeroBits(h[1..]) else LeadingZeros8(h[0])
  }

  predicate VerifyPoW(c: Crypto, r: Record, minBits: nat) {
    minBits == 0 || LeadingZeroBits(c.sha256(SigMessage(r))) >= minBits
  }

  /** record.SignAndMine at difficulty zero. */
  function Signed(c: Crypto, priv: PrivateKey, pub: Bytes32, kw: bytes, ih: Bytes20, t: Int64): (r: Record)
  {
    var unsigned := Record(pub, kw, ih, t, 0, Zeros(64));
    unsigned.(sig := c.sign(priv, SigMessage(unsigned)))
  }

  lemma SignedVerifies(c: Crypto, priv: PrivateKey, kw: bytes, ih: Bytes20, t: Int64)
    requires c.SignaturesVerify()
    ensures Verify(c, Signed(c, priv, c.publicKey(priv), kw, ih, t))
  {
    var unsigned := Record(c.publicKey(priv), kw, ih, t, 0, Zeros(64));
    assert SigMessage(Signed(c, priv, c.publicKey(priv), kw, ih, t)) == SigMessage(unsigned);
  }

  lemma SamePrefixes(a: bytes, x: bytes, b: bytes, y: bytes)
    requires a + x == b + y && |a| == |b|
    ensures a == b && x == y
  {
    assert (a + x)[..|a|] == a && (b + y)[..|b|] == b;
    assert (a + x)[|a|..] == x && (b + y)[|b|..] == y;
  }

  /** What is hashed into an id determines the publisher, keyword, infohash and time. */
  lemma IdPreimageInjective(r: Record, s: Record)
    requires IdPreimage(r) == IdPreimage(s)
    ensures r.pk == s.pk && r.kw == s.kw && r.ih == s.ih && r.t == s.t
  {
    var a, b := LittleEndian(Uint64Of(r.t), 8), LittleEndian(Uint64Of(s.t), 8);
    SamePrefixes(r.pk + r.kw + r.ih, a, s.pk + s.kw + s.ih, b);
    SamePrefixes(r.pk + r.kw, r.ih, s.pk + s.kw, s.ih);
    SamePrefixes(r.pk, r.kw, s.pk, s.kw);
    Pow256Values();
    LittleEndianRoundTrip(Uint64Of(r.t), 8);
    LittleEndianRoundTrip(Uint64Of(s.t), 8);
  }

  /** What is signed binds every field but the signature, for keywords of one length. */
  lemma SigMessageInjective(r: Record, s: Record)
    requires |r.kw| == |s.kw| && SigMessage(r) == SigMessage(s)
    ensures r == s.(sig := r.sig)
  {
    SamePrefixes(IdPreimage(r), PutUvarint(r.pow), IdPreimage(s), PutUvarint(s.pow));
    IdPreimageInjective(r, s);
    UvarintRoundTrip(r.pow, []);
    UvarintRoundTrip(s.pow, []);
    assert PutUvarint(r.pow) + [] == PutUvarint(s.pow) + [];
  }

  /** The bits of a byte, the highest first. */
  function BitsOf(b: byte): (r: seq<bool>)
    ensures |r| == 8
  {
    [b >= 128, b % 128 >= 64, b % 64 >= 32, b % 32 >= 16, b % 16 >= 8, b % 8 >= 4, b % 4 >= 2, b % 2 >= 1]
  }

  /** The bits of a digest. */
  function Bits(h: bytes): (r: seq<bool>)
    ensures |r| == 8 * |h|
  {
    if h == [] then [] else BitsOf(h[0]) + Bits(h[1..])
  }

  ghost predicate ZerosFirst(bits: seq<bool>, k: nat)
    requires k <= |bits|
  {
    forall i :: 0 <= i < k ==> !bits[i]
  }

  lemma ZerosNext(bits: seq<bool>, k: nat)
    requires k < |bits|
    ensures ZerosFirst(bits, k + 1) <==> ZerosFirst(bits, k) && !bits[k]
  {
  }

  lemma NextBit(b: byte, k: nat)
    requires k < 8
    ensures LeadingZeros8(b) >= k + 1 <==> LeadingZeros8(b) >= k && !BitsOf(b)[k]
  {
    assert k == 0 || k == 1 || k == 2 || k == 3 || k == 4 || k == 5 || k == 6 || k == 7;
  }

  lemma {:induction false} ByteZeros(b: byte, k: nat)
    requires k <= 8
    ensures LeadingZeros8(b) >= k <==> ZerosFirst(BitsOf(b), k)
  {
    hide BitsOf, LeadingZeros8, ZerosFirst;
    if k > 0 {
      ByteZeros(b, k - 1);
      ZerosNext(BitsOf(b), k - 1);
      NextBit(b, k - 1);
    } else {
      NoZeros(BitsOf(b));
    }
  }

  lemma ZerosAcross(a: seq<bool>, b: seq<bool>, k: nat)
    requires k <= |a| + |b|
    ensures k <= |a| ==> (ZerosFirst(a + b, k) <==> ZerosFirst(a, k))
    ensures k > |a| ==> (ZerosFirst(a + b, k) <==> ZerosFirst(a, |a|) && ZerosFirst(b, k - |a|))
  {
    forall i | 0 <= i < |a| ensures (a + b)[i] == a[i] {
    }
    if ZerosFirst(a + b, k) {
      forall i | 0 <= i < k && i < |a| ensures !a[i] {
        assert !(a + b)[i];
      }
      forall i | 0 <= i < k - |a| ensures !b[i] {
        assert (a + b)[|a| + i] == b[i];
      }
    }
  }

  /** A digest meets a difficulty of k exactly when its first k bits are zero. */
  lemma {:induction false} LeadingZeroBitsExactly(h: bytes, k: nat)
    requires k <= 8 * |h|
    ensures LeadingZeroBits(h) >= k <==> ZerosFirst(Bits(h), k)
    decreases |h|
  {
    hide BitsOf, LeadingZeros8, ZerosFirst;
    if h != [] {
      NonzeroByte(h[0]);
      ByteZeros(h[0], if k < 8 then k else 8);
      ZerosAcross(BitsOf(h[0]), Bits(h[1..]), k);
      if k > 8 {
        ByteZeros(h[0], 8);
        LeadingZeroBitsExactly(h[1..], k - 8);
      }
    } else {
      assert ZerosFirst([], 0) by { NoZeros([]); }
    }
  }

  lemma NoZeros(bits: seq<bool>)
    ensures ZerosFirst(bits, 0)
  {
  }

  lemma NonzeroByte(b: byte)
    ensures LeadingZeros8(b) <= 8 && (LeadingZeros8(b) == 8 <==> b == 0)
  {
  }

  // ---- wire form ----

  datatype RecordError = EmptyKeyword | KeywordTooLong | RecordTooLong | Malformed | BadWidth

  const KEY_IH: bytes := [105, 104]
  const KEY_KW: bytes := [107, 119]
  const KEY_PK: bytes := [112, 107]
  const KEY_POW: bytes := [112, 111, 119]
  const KEY_SIG: bytes := [115, 105, 103]
  const KEY_T: bytes := [116]

  /** The record as a bencode dictionary, keys in the order ih < kw < pk < pow < sig < t. */
  function RecordDict(r: Record): seq<B.Entry> {
    [B.Entry(KEY_IH, B.Str(r.ih)), B.Entry(KEY_KW, B.Str(r.kw)), B.Entry(KEY_PK, B.Str(r.pk)),
     B.Entry(KEY_POW, B.Int(r.pow)), B.Entry(KEY_SIG, B.Str(r.sig)), B.Entry(KEY_T, B.Int(r.t))]
  }

  function RecordBytes(r: Record): bytes {
    B.Encode(B.Dict(RecordDict(r)))
  }

  function EncodeRecord(r: Record): Result<bytes, RecordError> {
    if |r.kw| == 0 then Err(EmptyKeyword)
    else if |r.kw| > MAX_KEYWORD_BYTES then Err(KeywordTooLong)
    else if |RecordBytes(r)| > MAX_RECORD_BYTES then Err(RecordTooLong)
    else Ok(RecordBytes(r))
  }

  predicate Encodable(r: Record) {
    EncodeRecord(r).Ok?
  }

  /** The last value stored under a key. */
  function Field(es: seq<B.Entry>, key: bytes): Option<B.Value> {
    if es == [] then None
    else
      var later := Field(es[1..], key);
      if later.Some? then later else if es[0].key == key then Some(es[0].value) else None
  }

  /** A byte-string field: absent reads as empty, another type is an error. */
  function StrField(es: seq<B.Entry>, key: bytes): Option<bytes> {
    match Field(es, key)
    case None => Some([])
    case Some(Str(s)) => Some(s)
    case _ => None
  }

  function IntField(es: seq<B.Entry>, key: bytes, lo: int, hi: int): (r: Option<int>)
    requires lo <= 0 < hi
    ensures r.Some? ==> lo <= r.value < hi
  {
    match Field(es, key)
    case None => Some(0)
    case Some(Int(i)) => if lo <= i < hi then Some(i) else None
    case _ => None
  }

  /** Field widths are checked, the signature and the proof of work are not; bytes after the
      dictionary are ignored. */
  function DecodeRecord(b: bytes): Result<Record, RecordError> {
    match B.Parse(b)
    case Some((Dict(es), _)) =>
      var ih, kw, pk, sig := StrField(es, KEY_IH), StrField(es, KEY_KW), StrField(es, KEY_PK), StrField(es, KEY_SIG);
      var pow := IntField(es, KEY_POW, 0, UINT64_LIMIT);
      var t := IntField(es, KEY_T, -0x8000_0000_0000_0000, 0x8000_0000_0000_0000);
      if ih.None? || kw.None? || pk.None? || sig.None? || pow.None? || t.None? then Err(Malformed)
      else if |pk.value| != 32 || |ih.value| != 20 || |sig.value| != 64 || |kw.value| > MAX_KEYWORD_BYTES
        then Err(BadWidth)
      else Ok(Record(pk.value, kw.value, ih.value, t.value, pow.value, sig.value))
    case _ => Err(Malformed)
  }

  /** Bytes decode to a record exactly when they start with a dictionary whose fields are the record's: byte strings
      of the right widths, a keyword of at most 64 bytes, and integers in range. */
  lemma DecodesExactly(b: bytes, r: Record)
    ensures DecodeRecord(b) == Ok(r) <==>
              && B.Parse(b).Some? && B.Parse(b).value.0.Dict?
              && var es := B.Parse(b).value.0.entries;
              && StrField(es, [112, 107]) == Some(r.pk) && StrField(es, [107, 119]) == Some(r.kw) && |r.kw| <= 64
              && StrField(es, [105, 104]) == Some(r.ih) && StrField(es, [115, 105, 103]) == Some(r.sig)
              && IntField(es, [112, 111, 119], 0, 0x1_0000_0000_0000_0000) == Some(r.pow)
              && IntField(es, [116], -0x8000_0000_0000_0000, 0x8000_0000_0000_0000) == Some(r.t)
  {
    hide StrField, IntField;
  }

  lemma FieldsOfRecordDict(r: Record)
    ensures Field(RecordDict(r), KEY_IH) == Some(B.Str(r.ih)) && Field(RecordDict(r), KEY_KW) == Some(B.Str(r.kw))
    ensures Field(RecordDict(r), KEY_PK) == Some(B.Str(r.pk)) && Field(RecordDict(r), KEY_POW) == Some(B.Int(r.pow))
    ensures Field(RecordDict(r), KEY_SIG) == Some(B.Str(r.sig)) && Field(RecordDict(r), KEY_T) == Some(B.Int(r.t))
  {
    var es := RecordDict(r);
    assert es[1..][1..] == es[2..] && es[2..][1..] == es[3..] && es[3..][1..] == es[4..] && es[4..][1..] == es[5..];
    forall key: bytes
      ensures Field(es[5..], key) == if key == KEY_T then Some(B.Int(r.t)) else None
      ensures Field(es[4..], key) == if key == KEY_SIG then Some(B.Str(r.sig)) else Field(es[5..], key)
      ensures Field(es[3..], key) == if key == KEY_POW then Some(B.Int(r.pow)) else Field(es[4..], key)
      ensures Field(es[2..], key) == if key == KEY_PK then Some(B.Str(r.pk)) else Field(es[3..], key)
      ensures Field(es[1..], key) == if key == KEY_KW then Some(B.Str(r.kw)) else Field(es[2..], key)
    {
      assert es[5..][1..] == [];
    }
  }

  /** A record that encodes decodes to itself, whatever bytes follow it. */
  lemma RecordRoundTrip(r: Record, rest: bytes)
    requires |r.kw| <= MAX_KEYWORD_BYTES
    ensures DecodeRecord(RecordBytes(r) + rest) == Ok(r)
  {
    B.EncodeParse(B.Dict(RecordDict(r)), rest);
    FieldsOfRecordDict(r);
  }

  /** Record encodings are injective and prefix-free. */
  lemma RecordPrefixFree(r: Record, x: bytes, s: Record, y: bytes)
    requires RecordBytes(r) + x == RecordBytes(s) + y
    ensures r == s && x == y
  {
    B.EncodePrefixFree(B.Dict(RecordDict(r)), x, B.Dict(RecordDict(s)), y);
    FieldsOfRecordDict(r);
    FieldsOfRecordDict(s);
  }

  lemma StrLength(s: bytes, k: nat)
    requires k > 0
    ensures |s| < B.Pow10(k) ==> |B.EncodeStr(s)| <= k + 1 + |s|
    ensures k > 1 && |s| >= B.Pow10(k - 1) ==> |B.EncodeStr(s)| >= k + 1 + |s|
  {
    B.DecimalLength(|s|, k);
    if k > 1 { B.DecimalLength(|s|, k - 1); }
  }

  lemma ConsLength(e: B.Entry, es: seq<B.Entry>)
    ensures |B.EncodeEntries([e] + es)| == |B.EncodeEntry(e)| + |B.EncodeEntries(es)|
  {
    assert ([e] + es)[1..] == es;
  }

  /** The widths of the six dictionary entries. */
  lemma EntryLengths(r: Record)
    ensures |B.EncodeEntry(RecordDict(r)[0])| == 27 && |B.EncodeEntry(RecordDict(r)[2])| == 39
    ensures |B.EncodeEntry(RecordDict(r)[4])| == 72
    ensures |B.EncodeEntry(RecordDict(r)[1])| == 4 + |B.EncodeStr(r.kw)|
    ensures |B.EncodeEntry(RecordDict(r)[3])| == 7 + |B.SignedDecimal(r.pow)|
    ensures |B.EncodeEntry(RecordDict(r)[5])| == 5 + |B.SignedDecimal(r.t)|
  {
    B.Pow10Values();
    StrLength(r.ih, 2);
    StrLength(r.pk, 2);
    StrLength(r.sig, 2);
  }

  /** The exact size of a record's encoding: 156 bytes around the three variable fields. */
  lemma RecordBytesLength(r: Record)
    ensures |RecordBytes(r)| == 156 + |B.EncodeStr(r.kw)| + |B.SignedDecimal(r.pow)| + |B.SignedDecimal(r.t)|
  {
    var es := RecordDict(r);
    EntryLengths(r);
    ConsLength(es[5], []);
    ConsLength(es[4], [es[5]]);
    ConsLength(es[3], [es[4], es[5]]);
    ConsLength(es[2], [es[3], es[4], es[5]]);
    ConsLength(es[1], [es[2], es[3], es[4], es[5]]);
    ConsLength(es[0], [es[1], es[2], es[3], es[4], es[5]]);
    assert [es[5]] + [] == [es[5]];
    assert [es[4]] + [es[5]] == [es[4], es[5]];
    assert [es[3]] + [es[4], es[5]] == [es[3], es[4], es[5]];
    assert [es[2]] + [es[3], es[4], es[5]] == [es[2], es[3], es[4], es[5]];
    assert [es[1]] + [es[2], es[3], es[4], es[5]] == [es[1], es[2], es[3], es[4], es[5]];
    assert [es[0]] + [es[1], es[2], es[3], es[4], es[5]] == es;
  }

  /** Every record with a 1..64-byte keyword and 0 <= T < 10^13 encodes. */
  lemma RecordFits(r: Record)
    requires 1 <= |r.kw| <= MAX_KEYWORD_BYTES && 0 <= r.t < 10_000_000_000_000
    ensures Encodable(r) && 100 <= |RecordBytes(r)|
  {
    B.Pow10Values();
    RecordBytesLength(r);
    StrLength(r.kw, 2);
    B.DecimalLength(r.pow, 20);
    B.DecimalLength(r.t, 13);
  }

  /** The bound on T is tight: with a 64-byte keyword and a 20-digit nonce, a record at or
      after second 0 encodes exactly when T < 10^13. */
  lemma RecordFitsTight(r: Record)
    requires |r.kw| == MAX_KEYWORD_BYTES && r.pow >= 10_000_000_000_000_000_000 && r.t >= 0
    ensures Encodable(r) <==> r.t < 10_000_000_000_000
  {
    B.Pow10Values();
    RecordBytesLength(r);
    StrLength(r.kw, 2);
    B.DecimalLength(r.pow, 20);
    B.DecimalLength(r.pow, 19);
    B.DecimalLength(r.t, 13);
  }

  // ---- sort key ----

  /** The leaf sort key and interior separator: kw || 0x00 || ih. */
  function RecordKey(r: Record): (k: bytes)
    ensures |k| == |r.kw| + 21 && r.kw <= k
  {
    r.kw + [0] + r.ih
  }

  /** Equal keys mean equal keyword and infohash. */
  lemma RecordKeyInjective(r: Record, s: Record)
    requires RecordKey(r) == RecordKey(s)
    ensures r.kw == s.kw && r.ih == s.ih
  {
    SamePrefixes(r.kw + [0], r.ih, s.kw + [0], s.ih);
    SamePrefixes(r.kw, [0], s.kw, [0]);
  }

  predicate KeyLeq(a: Record, b: Record) {
    Leq(RecordKey(a), RecordKey(b))
  }
}
