/** Bencoding (BEP 3, section "bencoding"): the encoder the repository's wire structs go
    through and a general decoder. The two meet in EncodeParse: any value followed by any
    bytes parses back to that value and those bytes, so encodings are injective and none is
    a proper prefix of another. */
module Bencode {
  import opened Wrappers
  import opened Bytes

  datatype Value =
    | Int(i: int)
    | Str(s: bytes)
    | List(items: seq<Value>)
    | Dict(entries: seq<Entry>)

  datatype Entry = Entry(key: bytes, value: Value)

  // ASCII of the delimiters
  const MINUS: byte := 45
  const ZERO: byte := 48
  const COLON: byte := 58
  const CHAR_D: byte := 100
  const CHAR_E: byte := 101
  const CHAR_I: byte := 105
  const CHAR_L: byte := 108

  predicate IsDigit(c: byte) {
    ZERO <= c <= ZERO + 9
  }

  /** n in decimal, without leading zeros. */
  function Decimal(n: nat): (r: bytes)
    ensures |r| > 0 && forall k :: 0 <= k < |r| ==> IsDigit(r[k])
    ensures r[0] == ZERO ==> n == 0
  {
    if n < 10 then [ZERO + n] else Decimal(n / 10) + [ZERO + n % 10]
  }

  function SignedDecimal(i: int): (r: bytes)
    ensures |r| > 0
  {
    if i < 0 then [MINUS] + Decimal(-i) else Decimal(i)
  }

  function EncodeInt(i: int): (r: bytes)
    ensures |r| == |SignedDecimal(i)| + 2
  {
    [CHAR_I] + SignedDecimal(i) + [CHAR_E]
  }

  function EncodeStr(s: bytes): (r: bytes)
    ensures |r| == |Decimal(|s|)| + 1 + |s|
  {
    Decimal(|s|) + [COLON] + s
  }

  function Encode(v: Value): (r: bytes)
    ensures |r| > 0
    decreases v, 0
  {
    match v
    case Int(i) => EncodeInt(i)
    case Str(s) => EncodeStr(s)
    case List(items) => [CHAR_L] + EncodeItems(items) + [CHAR_E]
    case Dict(entries) => [CHAR_D] + EncodeEntries(entries) + [CHAR_E]
  }

  function EncodeItems(vs: seq<Value>): bytes
    decreases vs
  {
    if vs == [] then [] else Encode(vs[0]) + EncodeItems(vs[1..])
  }

  function EncodeEntries(es: seq<Entry>): bytes
    decreases es
  {
    if es == [] then [] else EncodeEntry(es[0]) + EncodeEntries(es[1..])
  }

  function EncodeEntry(e: Entry): (r: bytes)
    decreases e, 1
  {
    EncodeStr(e.key) + Encode(e.value)
  }

  const SPAM: bytes := [115, 112, 97, 109]
  const EGGS: bytes := [101, 103, 103, 115]

  const COW: bytes := [99, 111, 119]
  const MOO: bytes := [109, 111, 111]

  /** The examples BEP 3 gives: i3e, i-3e, 4:spam, l4:spam4:eggse and d3:cow3:moo4:spam4:eggse. */
  lemma Bep3Examples()
    ensures Encode(Int(3)) == [105, 51, 101] && Encode(Int(-3)) == [105, 45, 51, 101]
    ensures Encode(Str(SPAM)) == [52, 58] + SPAM
    ensures Encode(List([Str(SPAM), Str(EGGS)])) == [108] + (([52, 58] + SPAM) + ([52, 58] + EGGS)) + [101]
    ensures Encode(Dict([Entry(COW, Str(MOO)), Entry(SPAM, Str(EGGS))]))
         == [100] + (([51, 58] + COW + ([51, 58] + MOO)) + ([52, 58] + SPAM + ([52, 58] + EGGS))) + [101]
  {
    Bep3Strings();
    hide EncodeStr;
    TwoItems(Str(SPAM), Str(EGGS));
    TwoEntries(Entry(COW, Str(MOO)), Entry(SPAM, Str(EGGS)));
  }

  lemma Bep3Strings()
    ensures EncodeStr(SPAM) == [52, 58] + SPAM && EncodeStr(EGGS) == [52, 58] + EGGS
    ensures EncodeStr(COW) == [51, 58] + COW && EncodeStr(MOO) == [51, 58] + MOO
  {
  }

  lemma TwoItems(v: Value, w: Value)
    ensures EncodeItems([v, w]) == Encode(v) + Encode(w)
  {
    hide Encode;
    assert [v, w][1..] == [w] && [w][1..] == [];
    assert EncodeItems([w]) == Encode(w) + EncodeItems([]) == Encode(w);
  }

  lemma TwoEntries(e: Entry, f: Entry)
    ensures EncodeEntries([e, f]) == EncodeEntry(e) + EncodeEntry(f)
  {
    hide EncodeEntry;
    assert [e, f][1..] == [f] && [f][1..] == [];
    assert EncodeEntries([f]) == EncodeEntry(f) + EncodeEntries([]) == EncodeEntry(f);
  }

  // ---- decoding ----

  function ParseDigits(b: bytes, acc: nat): (r: (nat, bytes))
    ensures |r.1| <= |b|
    decreases b
  {
    if b != [] && IsDigit(b[0]) then ParseDigits(b[1..], 10 * acc + (b[0] - ZERO)) else (acc, b)
  }

  /** A decimal number; a leading zero is only the number zero. */
  function ParseNat(b: bytes): (r: Option<(nat, bytes)>)
    ensures r.Some? ==> |r.value.1| < |b|
  {
    if b == [] || !IsDigit(b[0]) then None
    else if b[0] == ZERO then Some((0, b[1..]))
    else Some(ParseDigits(b[1..], b[0] - ZERO))
  }

  function ParseStr(b: bytes): (r: Option<(bytes, bytes)>)
    ensures r.Some? ==> |r.value.1| < |b|
  {
    match ParseNat(b)
    case None => None
    case Some((n, rest)) =>
      if rest != [] && rest[0] == COLON && n < |rest| then Some((rest[1..][..n], rest[1..][n..])) else None
  }

  function Signed(negative: bool, n: nat): int {
    (if negative then -1 else 1) * n
  }

  /** The body of an integer, after its 'i'; "-0" is not a number. */
  function ParseInt(b: bytes): (r: Option<(int, bytes)>)
    ensures r.Some? ==> |r.value.1| < |b|
  {
    var negative := b != [] && b[0] == MINUS;
    match ParseNat(if negative then b[1..] else b)
    case None => None
    case Some((n, rest)) =>
      if rest == [] || rest[0] != CHAR_E || (negative && n == 0) then None
      else Some((Signed(negative, n), rest[1..]))
  }

  function Parse(b: bytes): (r: Option<(Value, bytes)>)
    ensures r.Some? ==> |r.value.1| < |b|
    decreases |b|, 0
  {
    if b == [] then None
    else if b[0] == CHAR_I then
      match ParseInt(b[1..]) case None => None case Some((i, rest)) => Some((Int(i), rest))
    else if b[0] == CHAR_L then
      match ParseItems(b[1..]) case None => None case Some((vs, rest)) => Some((List(vs), rest))
    else if b[0] == CHAR_D then
      match ParseEntries(b[1..]) case None => None case Some((es, rest)) => Some((Dict(es), rest))
    else
      match ParseStr(b) case None => None case Some((s, rest)) => Some((Str(s), rest))
  }

  function ParseItems(b: bytes): (r: Option<(seq<Value>, bytes)>)
    ensures r.Some? ==> |r.value.1| < |b|
    decreases |b|, 1
  {
    if b == [] then None
    else if b[0] == CHAR_E then Some(([], b[1..]))
    else match Parse(b)
      case None => None
      case Some((v, rest)) =>
        match ParseItems(rest) case None => None case Some((vs, rest')) => Some(([v] + vs, rest'))
  }

  function ParseEntries(b: bytes): (r: Option<(seq<Entry>, bytes)>)
    ensures r.Some? ==> |r.value.1| < |b|
    decreases |b|, 1
  {
    if b == [] then None
    else if b[0] == CHAR_E then Some(([], b[1..]))
    else match ParseStr(b)
      case None => None
      case Some((k, rest)) =>
        match Parse(rest)
        case None => None
        case Some((v, rest')) =>
          match ParseEntries(rest') case None => None case Some((es, rest'')) => Some(([Entry(k, v)] + es, rest''))
  }

  // ---- round trip ----

  lemma {:induction false} ParseDigitsDecimal(n: nat, rest: bytes)
    ensures ParseDigits(Decimal(n) + rest, 0) == ParseDigits(rest, n)
    decreases n
  {
    if n < 10 {
      assert (Decimal(n) + rest)[1..] == rest;
    } else {
      var d: byte := ZERO + n % 10;
      ParseDigitsDecimal(n / 10, [d] + rest);
      assert Decimal(n) + rest == Decimal(n / 10) + ([d] + rest);
      assert ([d] + rest)[1..] == rest;
    }
  }

  lemma ParseNatDecimal(n: nat, rest: bytes)
    requires rest != [] && !IsDigit(rest[0])
    ensures ParseNat(Decimal(n) + rest) == Some((n, rest))
  {
    var b := Decimal(n) + rest;
    ParseDigitsDecimal(n, rest);
    if b[0] == ZERO {
      assert b[1..] == rest;
    }
  }

  lemma ParseStrEncode(s: bytes, rest: bytes)
    ensures ParseStr(EncodeStr(s) + rest) == Some((s, rest))
  {
    var tail := [COLON] + (s + rest);
    assert EncodeStr(s) + rest == Decimal(|s|) + tail;
    ParseNatDecimal(|s|, tail);
    assert tail[1..] == s + rest;
  }

  lemma ParseIntFrom(i: int, digits: bytes, n: nat, rest: bytes)
    requires ParseNat(digits) == Some((n, [CHAR_E] + rest)) && (i == n || (n == -i && n > 0))
    ensures ParseInt(if i < 0 then [MINUS] + digits else digits) == Some((i, rest))
  {
    assert ([MINUS] + digits)[1..] == digits && ([CHAR_E] + rest)[1..] == rest;
  }

  lemma ParseIntEncode(i: int, rest: bytes)
    ensures ParseInt(SignedDecimal(i) + ([CHAR_E] + rest)) == Some((i, rest))
  {
    var n: nat := if i < 0 then -i else i;
    var tail := [CHAR_E] + rest;
    ParseNatDecimal(n, tail);
    ParseIntFrom(i, Decimal(n) + tail, n, rest);
    if i < 0 { Assoc([MINUS], Decimal(n), tail); }
  }

  /** A value's encoding starts with 'i', 'l', 'd' or a digit, never with 'e'. */
  lemma EncodeNotEnd(v: Value)
    ensures Encode(v)[0] != CHAR_E
    ensures v.Str? ==> IsDigit(Encode(v)[0])
  {
  }

  /** One step of the list parser: an item, then the rest of the list. */
  lemma ParseItemsStep(b: bytes, v: Value, rest: bytes, vs: seq<Value>, end: bytes)
    requires b != [] && b[0] != CHAR_E && Parse(b) == Some((v, rest)) && ParseItems(rest) == Some((vs, end))
    ensures ParseItems(b) == Some(([v] + vs, end))
  {
  }

  lemma ParseEntriesStep(b: bytes, k: bytes, rest: bytes, v: Value, rest': bytes, es: seq<Entry>, end: bytes)
    requires b != [] && b[0] != CHAR_E && ParseStr(b) == Some((k, rest))
    requires Parse(rest) == Some((v, rest')) && ParseEntries(rest') == Some((es, end))
    ensures ParseEntries(b) == Some(([Entry(k, v)] + es, end))
  {
  }

  /** How Parse dispatches on the first byte. */
  lemma ParseIntStep(body: bytes, i: int, rest: bytes)
    requires ParseInt(body) == Some((i, rest))
    ensures Parse([CHAR_I] + body) == Some((Int(i), rest))
  {
    assert ([CHAR_I] + body)[1..] == body;
  }

  lemma ParseStrStep(b: bytes, s: bytes, rest: bytes)
    requires b != [] && IsDigit(b[0]) && ParseStr(b) == Some((s, rest))
    ensures Parse(b) == Some((Str(s), rest))
  {
  }

  lemma ParseListStep(body: bytes, vs: seq<Value>, rest: bytes)
    requires ParseItems(body) == Some((vs, rest))
    ensures Parse([CHAR_L] + body) == Some((List(vs), rest))
  {
    assert ([CHAR_L] + body)[1..] == body;
  }

  lemma ParseDictStep(body: bytes, es: seq<Entry>, rest: bytes)
    requires ParseEntries(body) == Some((es, rest))
    ensures Parse([CHAR_D] + body) == Some((Dict(es), rest))
  {
    assert ([CHAR_D] + body)[1..] == body;
  }

  /** Regrouping of concatenations. */
  lemma Regroup(a: bytes, b: bytes, c: bytes, d: bytes)
    ensures (a + b + c) + d == a + (b + (c + d))
  {
  }

  /** Any encoded value, whatever follows it, parses back to itself and leaves what follows. */
  lemma {:induction false} EncodeParse(v: Value, rest: bytes)
    ensures Parse(Encode(v) + rest) == Some((v, rest))
    decreases v, 0
  {
    match v
    case Int(i) =>
      Regroup([CHAR_I], SignedDecimal(i), [CHAR_E], rest);
      ParseIntEncode(i, rest);
      ParseIntStep(SignedDecimal(i) + ([CHAR_E] + rest), i, rest);
    case Str(s) =>
      EncodeNotEnd(v);
      ParseStrEncode(s, rest);
      ParseStrStep(EncodeStr(s) + rest, s, rest);
    case List(items) =>
      Regroup([CHAR_L], EncodeItems(items), [CHAR_E], rest);
      ItemsParse(items, rest);
      ParseListStep(EncodeItems(items) + ([CHAR_E] + rest), items, rest);
    case Dict(entries) =>
      Regroup([CHAR_D], EncodeEntries(entries), [CHAR_E], rest);
      EntriesParse(entries, rest);
      ParseDictStep(EncodeEntries(entries) + ([CHAR_E] + rest), entries, rest);
  }

  lemma {:induction false} ItemsParse(vs: seq<Value>, rest: bytes)
    ensures ParseItems(EncodeItems(vs) + ([CHAR_E] + rest)) == Some((vs, rest))
    decreases vs
  {
    var tail := [CHAR_E] + rest;
    if vs == [] {
      assert [] + tail == tail && tail[1..] == rest;
    } else {
      var more := EncodeItems(vs[1..]) + tail;
      EncodeNotEnd(vs[0]);
      EncodeParse(vs[0], more);
      ItemsParse(vs[1..], rest);
      ParseItemsStep(Encode(vs[0]) + more, vs[0], more, vs[1..], rest);
      Assoc(Encode(vs[0]), EncodeItems(vs[1..]), tail);
      assert vs == [vs[0]] + vs[1..];
    }
  }

  lemma {:induction false} EntriesParse(es: seq<Entry>, rest: bytes)
    ensures ParseEntries(EncodeEntries(es) + ([CHAR_E] + rest)) == Some((es, rest))
    decreases es
  {
    var tail := [CHAR_E] + rest;
    if es == [] {
      assert [] + tail == tail && tail[1..] == rest;
    } else {
      var e := es[0];
      var more := EncodeEntries(es[1..]) + tail;
      var afterKey := Encode(e.value) + more;
      EntryParse(e, more);
      EntriesParse(es[1..], rest);
      ParseEntriesStep(EncodeStr(e.key) + afterKey, e.key, afterKey, e.value, more, es[1..], rest);
      Assoc(EncodeEntry(e), EncodeEntries(es[1..]), tail);
      Assoc(EncodeStr(e.key), Encode(e.value), more);
      assert es == [Entry(e.key, e.value)] + es[1..];
    }
  }

  lemma {:induction false} EntryParse(e: Entry, more: bytes)
    ensures ParseStr(EncodeStr(e.key) + (Encode(e.value) + more)) == Some((e.key, Encode(e.value) + more))
    ensures Parse(Encode(e.value) + more) == Some((e.value, more))
    ensures (EncodeStr(e.key) + (Encode(e.value) + more))[0] != CHAR_E
    decreases e, 1
  {
    EncodeNotEnd(Str(e.key));
    ParseStrEncode(e.key, Encode(e.value) + more);
    EncodeParse(e.value, more);
  }

  lemma {:induction false} ParseDigitsBack(b: bytes, acc: nat)
    requires acc > 0
    ensures var (n, rest) := ParseDigits(b, acc); n > 0 && Decimal(acc) + b == Decimal(n) + rest
    decreases b
  {
    if b != [] && IsDigit(b[0]) {
      var next := 10 * acc + (b[0] - ZERO);
      ParseDigitsBack(b[1..], next);
      assert next / 10 == acc && next % 10 == b[0] - ZERO;
      assert b == [b[0]] + b[1..];
      Assoc(Decimal(acc), [b[0]], b[1..]);
    }
  }

  lemma ParseNatBack(b: bytes)
    requires ParseNat(b).Some?
    ensures var (n, rest) := ParseNat(b).value; b == Decimal(n) + rest
  {
    assert b == [b[0]] + b[1..];
    if b[0] != ZERO { ParseDigitsBack(b[1..], b[0] - ZERO); }
  }

  lemma ParseStrBack(b: bytes)
    requires ParseStr(b).Some?
    ensures var (s, rest) := ParseStr(b).value; b == EncodeStr(s) + rest
  {
    ParseNatBack(b);
    var (n, rest) := ParseNat(b).value;
    var tail := rest[1..];
    assert rest == [COLON] + tail && tail == tail[..n] + tail[n..];
    assert b == Decimal(n) + ([COLON] + (tail[..n] + tail[n..]));
    assert b == (Decimal(n) + [COLON] + tail[..n]) + tail[n..];
  }

  lemma ParseIntBack(b: bytes)
    requires ParseInt(b).Some?
    ensures var (i, rest) := ParseInt(b).value; b == SignedDecimal(i) + [CHAR_E] + rest
  {
    var negative := b != [] && b[0] == MINUS;
    var digits := if negative then b[1..] else b;
    ParseNatBack(digits);
    var (n, rest) := ParseNat(digits).value;
    assert rest == [CHAR_E] + rest[1..];
    assert digits == Decimal(n) + [CHAR_E] + rest[1..];
    if negative { assert b == [MINUS] + digits; }
  }

  /** The converse of EncodeParse: the decoder accepts nothing but encodings, so no number with leading zeros, no
      "-0", no truncated string or list. */
  lemma {:induction false} ParseEncode(b: bytes)
    requires Parse(b).Some?
    ensures var (v, rest) := Parse(b).value; b == Encode(v) + rest
    decreases |b|, 0
  {
    assert b == [b[0]] + b[1..];
    if b[0] == CHAR_I {
      ParseIntBack(b[1..]);
      var (i, rest) := ParseInt(b[1..]).value;
      Regroup([CHAR_I], SignedDecimal(i), [CHAR_E], rest);
      Assoc(SignedDecimal(i), [CHAR_E], rest);
    } else if b[0] == CHAR_L {
      ItemsEncode(b[1..]);
      var (vs, rest) := ParseItems(b[1..]).value;
      Regroup([CHAR_L], EncodeItems(vs), [CHAR_E], rest);
      Assoc(EncodeItems(vs), [CHAR_E], rest);
    } else if b[0] == CHAR_D {
      EntriesEncode(b[1..]);
      var (es, rest) := ParseEntries(b[1..]).value;
      Regroup([CHAR_D], EncodeEntries(es), [CHAR_E], rest);
      Assoc(EncodeEntries(es), [CHAR_E], rest);
    } else {
      ParseStrBack(b);
    }
  }

  lemma {:induction false} ItemsEncode(b: bytes)
    requires ParseItems(b).Some?
    ensures var (vs, rest) := ParseItems(b).value; b == EncodeItems(vs) + [CHAR_E] + rest
    decreases |b|, 1
  {
    if b[0] == CHAR_E {
      assert b == [b[0]] + b[1..];
    } else {
      ParseEncode(b);
      var (v, more) := Parse(b).value;
      ItemsEncode(more);
      var (vs, rest) := ParseItems(more).value;
      assert ([v] + vs)[1..] == vs;
      Regroup(Encode(v), EncodeItems(vs), [CHAR_E], rest);
      Assoc(EncodeItems(vs), [CHAR_E], rest);
    }
  }

  lemma {:induction false} EntriesEncode(b: bytes)
    requires ParseEntries(b).Some?
    ensures var (es, rest) := ParseEntries(b).value; b == EncodeEntries(es) + [CHAR_E] + rest
    decreases |b|, 1
  {
    if b[0] == CHAR_E {
      assert b == [b[0]] + b[1..];
    } else {
      ParseStrBack(b);
      var (k, afterKey) := ParseStr(b).value;
      ParseEncode(afterKey);
      var (v, more) := Parse(afterKey).value;
      EntriesEncode(more);
      var (es, rest) := ParseEntries(more).value;
      var e := Entry(k, v);
      assert ([e] + es)[1..] == es;
      Assoc(EncodeStr(k), Encode(v), more);
      Regroup(EncodeEntry(e), EncodeEntries(es), [CHAR_E], rest);
      Assoc(EncodeEntries(es), [CHAR_E], rest);
    }
  }

  /** The decoder answers exactly the values whose encodings the bytes start with, at most one. */
  lemma ParseExactly(b: bytes, v: Value, rest: bytes)
    ensures Parse(b) == Some((v, rest)) <==> b == Encode(v) + rest
  {
    if Parse(b).Some? { ParseEncode(b); }
    EncodeParse(v, rest);
  }

  /** Prefix-freeness: two encodings that start the same byte string are the same value. */
  lemma EncodePrefixFree(v: Value, x: bytes, w: Value, y: bytes)
    requires Encode(v) + x == Encode(w) + y
    ensures v == w && x == y
  {
    EncodeParse(v, x);
    EncodeParse(w, y);
  }

  // ---- sizes ----

  lemma {:induction false} DecimalLength(n: nat, k: nat)
    requires k > 0
    ensures |Decimal(n)| <= k <==> n < Pow10(k)
    decreases k
  {
    if n >= 10 {
      if k > 1 { DecimalLength(n / 10, k - 1); }
    } else if k > 1 {
      DecimalLength(n, k - 1);
    }
  }

  function Pow10(k: nat): (r: nat)
    ensures r > 0
  {
    if k == 0 then 1 else 10 * Pow10(k - 1)
  }

  lemma Pow10Values()
    ensures Pow10(1) == 10 && Pow10(2) == 100 && Pow10(3) == 1000
    ensures Pow10(10) == 10_000_000_000
    ensures Pow10(13) == 10_000_000_000_000
    ensures Pow10(19) == 10_000_000_000_000_000_000
    ensures Pow10(20) == 100_000_000_000_000_000_000
  {
    assert Pow10(4) == 10_000;
    assert Pow10(6) == 100 * Pow10(4);
    assert Pow10(8) == 100 * Pow10(6);
    assert Pow10(10) == 100 * Pow10(8);
    assert Pow10(12) == 100 * Pow10(10);
    assert Pow10(13) == 10 * Pow10(12);
    assert Pow10(15) == 100 * Pow10(13);
    assert Pow10(17) == 100 * Pow10(15);
    assert Pow10(19) == 100 * Pow10(17);
  }
}
