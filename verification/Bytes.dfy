/** Byte strings: the lexicographic order of Go's bytes.Compare, the fixed-width
    little-endian integers and the unsigned varints the page format is made of. */
module Bytes {
  import opened Wrappers

  type byte = x: int | 0 <= x < 256
  type bytes = seq<byte>

  const UINT64_LIMIT := 0x1_0000_0000_0000_0000

  function Zeros(n: nat): (r: bytes)
    ensures |r| == n
  {
    seq(n, _ => 0)
  }

  // ---- lexicographic order ----

  /** bytes.Compare: negative, zero or positive. */
  function Compare(a: bytes, b: bytes): int
    decreases a
  {
    if a == [] then (if b == [] then 0 else -1)
    else if b == [] then 1
    else if a[0] < b[0] then -1
    else if a[0] > b[0] then 1
    else Compare(a[1..], b[1..])
  }

  predicate Leq(a: bytes, b: bytes) {
    Compare(a, b) <= 0
  }

  predicate Less(a: bytes, b: bytes) {
    Compare(a, b) < 0
  }

  lemma {:induction false} CompareRefl(a: bytes)
    ensures Compare(a, a) == 0
    decreases a
  {
    if a != [] { CompareRefl(a[1..]); }
  }

  lemma {:induction false} CompareSwap(a: bytes, b: bytes)
    ensures Compare(a, b) == -Compare(b, a)
    decreases a
  {
    if a != [] && b != [] && a[0] == b[0] { CompareSwap(a[1..], b[1..]); }
  }

  lemma {:induction false} CompareZero(a: bytes, b: bytes)
    ensures Compare(a, b) == 0 ==> a == b
    decreases a
  {
    if a != [] && b != [] && a[0] == b[0] {
      CompareZero(a[1..], b[1..]);
      assert a == [a[0]] + a[1..] && b == [b[0]] + b[1..];
    }
  }

  /** Chaining: the order is transitive, strictly so when either link is strict. */
  lemma {:induction false} CompareTrans(a: bytes, b: bytes, c: bytes)
    requires Leq(a, b) && Leq(b, c)
    ensures Leq(a, c)
    ensures Less(a, b) || Less(b, c) ==> Less(a, c)
    decreases a
  {
    if a != [] && b != [] && c != [] && a[0] == b[0] && b[0] == c[0] {
      CompareTrans(a[1..], b[1..], c[1..]);
    }
  }

  /** A string never comes before one of its own prefixes. */
  lemma {:induction false} PrefixLeq(p: bytes, s: bytes)
    requires p <= s
    ensures Leq(p, s)
    ensures |p| < |s| ==> Less(p, s)
    decreases p
  {
    if p != [] {
      assert p[1..] <= s[1..];
      PrefixLeq(p[1..], s[1..]);
    }
  }

  // ---- little-endian integers ----

  function Pow256(k: nat): (r: nat)
    ensures r > 0
  {
    if k == 0 then 1 else 256 * Pow256(k - 1)
  }

  lemma Pow256Values()
    ensures Pow256(1) == 0x100
    ensures Pow256(2) == 0x1_0000
    ensures Pow256(4) == 0x1_0000_0000
    ensures Pow256(8) == UINT64_LIMIT
  {
    assert Pow256(3) == 256 * Pow256(2);
    assert Pow256(5) == 256 * Pow256(4);
    assert Pow256(6) == 256 * Pow256(5);
    assert Pow256(7) == 256 * Pow256(6);
  }

  /** The low k bytes of n, least significant first. */
  function LittleEndian(n: nat, k: nat): (r: bytes)
    ensures |r| == k
  {
    if k == 0 then [] else [n % 256] + LittleEndian(n / 256, k - 1)
  }

  function FromLittleEndian(b: bytes): nat {
    if b == [] then 0 else b[0] + 256 * FromLittleEndian(b[1..])
  }

  lemma {:induction false} LittleEndianRoundTrip(n: nat, k: nat)
    requires n < Pow256(k)
    ensures FromLittleEndian(LittleEndian(n, k)) == n
    decreases k
  {
    if k > 0 {
      LittleEndianRoundTrip(n / 256, k - 1);
      assert LittleEndian(n, k)[1..] == LittleEndian(n / 256, k - 1);
    }
  }

  lemma {:induction false} FromLittleEndianBound(b: bytes)
    ensures FromLittleEndian(b) < Pow256(|b|)
    decreases b
  {
    if b != [] { FromLittleEndianBound(b[1..]); }
  }

  /** Reading and writing back gives the bytes back. */
  lemma {:induction false} FromLittleEndianRoundTrip(b: bytes)
    ensures LittleEndian(FromLittleEndian(b), |b|) == b
    decreases b
  {
    if b != [] {
      FromLittleEndianRoundTrip(b[1..]);
      assert FromLittleEndian(b) % 256 == b[0] && FromLittleEndian(b) / 256 == FromLittleEndian(b[1..]);
      assert b == [b[0]] + b[1..];
    }
  }

  // ---- unsigned varints (encoding/binary) ----

  const MAX_VARINT_LEN: nat := 10

  function PutUvarint(n: nat): (r: bytes)
    ensures |r| > 0
  {
    if n < 128 then [n] else [128 + n % 128] + PutUvarint(n / 128)
  }

  /** binary.Uvarint from byte number i on: the value and the bytes consumed, or None
      where the source returns a non-positive count (truncated, or over 64 bits). */
  function UvarintFrom(b: bytes, i: nat): (r: Option<(nat, nat)>)
    ensures r.Some? ==> 0 < r.value.1 <= |b|
    decreases b
  {
    if b == [] || i == MAX_VARINT_LEN then None
    else if b[0] < 128 then
      if i == MAX_VARINT_LEN - 1 && b[0] > 1 then None else Some((b[0], 1))
    else
      match UvarintFrom(b[1..], i + 1)
      case None => None
      case Some(r) => Some((b[0] - 128 + 128 * r.0, r.1 + 1))
  }

  function Uvarint(b: bytes): (r: Option<(nat, nat)>)
    ensures r.Some? ==> 0 < r.value.1 <= |b|
  {
    UvarintFrom(b, 0)
  }

  /** What still fits when i bytes of a 64-bit varint are already written. */
  function UvarintRoom(i: nat): (r: nat)
    requires i < MAX_VARINT_LEN
    ensures r >= 2 && (i < 9 ==> r == 128 * UvarintRoom(i + 1))
    decreases 10 - i
  {
    if i == 9 then 2 else 128 * UvarintRoom(i + 1)
  }

  lemma {:induction false} UvarintFromRoundTrip(n: nat, i: nat, rest: bytes)
    requires i < MAX_VARINT_LEN && n < UvarintRoom(i)
    ensures UvarintFrom(PutUvarint(n) + rest, i) == Some((n, |PutUvarint(n)|))
    decreases n
  {
    var b := PutUvarint(n) + rest;
    if n >= 128 {
      UvarintFromRoundTrip(n / 128, i + 1, rest);
      assert b[1..] == PutUvarint(n / 128) + rest;
    }
  }

  lemma RoomForAll()
    ensures UvarintRoom(0) == UINT64_LIMIT
  {
    assert UvarintRoom(8) == 128 * 2;
    assert UvarintRoom(6) == 128 * UvarintRoom(7);
    assert UvarintRoom(4) == 128 * UvarintRoom(5);
    assert UvarintRoom(2) == 128 * UvarintRoom(3);
    assert UvarintRoom(0) == 128 * UvarintRoom(1) == UINT64_LIMIT;
  }

  /** Every 64-bit value decodes to itself whatever bytes follow, so varints are prefix-free. */
  lemma UvarintRoundTrip(n: nat, rest: bytes)
    requires n < UINT64_LIMIT
    ensures Uvarint(PutUvarint(n) + rest) == Some((n, |PutUvarint(n)|))
  {
    RoomForAll();
    UvarintFromRoundTrip(n, 0, rest);
  }

  /** The first n bytes carry the continuation bit, all but the last. */
  ghost predicate Continued(b: bytes, n: nat) {
    0 < n <= |b| && b[n - 1] < 128 && forall k :: 0 <= k < n - 1 ==> b[k] >= 128
  }

  /** The number in groups of seven bits, the lowest first. */
  ghost function Sevens(b: bytes): nat {
    if b == [] then 0 else b[0] % 128 + 128 * Sevens(b[1..])
  }

  lemma {:induction false} UvarintFromExactly(b: bytes, i: nat, v: nat, n: nat)
    requires i <= MAX_VARINT_LEN
    ensures UvarintFrom(b, i) == Some((v, n)) <==>
              Continued(b, n) && i + n <= MAX_VARINT_LEN && v == Sevens(b[..n]) && v < UvarintRoom(i)
    decreases b
  {
    if b != [] && i < MAX_VARINT_LEN {
      if 0 < n <= |b| { assert b[..n][1..] == b[1..][..n - 1]; }
      if b[0] < 128 {
        if n == 1 { assert b[..1][1..] == []; }
      } else if n > 0 {
        UvarintFromExactly(b[1..], i + 1, v / 128, n - 1);
        ContinuedNext(b, n);
      }
    }
  }

  lemma ContinuedNext(b: bytes, n: nat)
    requires b != [] && n > 0 && b[0] >= 128
    ensures Continued(b, n) <==> Continued(b[1..], n - 1)
  {
    if Continued(b[1..], n - 1) {
      forall k | 0 <= k < n - 1 ensures b[k] >= 128 {
        if k > 0 { assert b[k] == b[1..][k - 1]; }
      }
    }
    if Continued(b, n) {
      forall k | 0 <= k < n - 2 ensures b[1..][k] >= 128 {
        assert b[1..][k] == b[k + 1];
      }
    }
  }

  /** On any bytes the decoder accepts exactly the numbers of at most ten seven-bit groups below 2^64. */
  lemma UvarintExactly(b: bytes, v: nat, n: nat)
    ensures Uvarint(b) == Some((v, n)) <==>
              Continued(b, n) && n <= 10 && v == Sevens(b[..n]) && v < 0x1_0000_0000_0000_0000
  {
    RoomForAll();
    UvarintFromExactly(b, 0, v, n);
  }

  lemma UvarintShort(n: nat)
    ensures n < 128 ==> |PutUvarint(n)| == 1
    ensures 128 <= n < 16384 ==> |PutUvarint(n)| == 2
  {
    if n >= 128 { assert |PutUvarint(n)| == 1 + |PutUvarint(n / 128)|; }
  }

  // ---- concatenations ----

  lemma Assoc(a: bytes, b: bytes, c: bytes)
    ensures (a + b) + c == a + (b + c)
  {
  }

  lemma TakeDrop(a: bytes, b: bytes)
    ensures (a + b)[..|a|] == a
    ensures (a + b)[|a|..] == b
  {
  }
}
