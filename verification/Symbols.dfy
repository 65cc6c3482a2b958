/** Coded symbols as an abelian group, and sums of symbols over finite sets of elements. */
module Symbols {
  import opened Bytes
  import opened Records

  // ---- exclusive or on bytes and elements ----

  function Pow2(n: nat): nat {
    if n == 0 then 1 else 2 * Pow2(n - 1)
  }

  /** Exclusive or, bit by bit. */
  function XorNat(a: nat, b: nat): nat
    decreases a + b
  {
    if a == 0 && b == 0 then 0 else (a + b) % 2 + 2 * XorNat(a / 2, b / 2)
  }

  lemma {:induction false} XorBound(a: nat, b: nat, n: nat)
    requires a < Pow2(n) && b < Pow2(n)
    ensures XorNat(a, b) < Pow2(n)
    decreases n
  {
    if n > 0 { XorBound(a / 2, b / 2, n - 1); }
  }

  lemma {:induction false} XorComm(a: nat, b: nat)
    ensures XorNat(a, b) == XorNat(b, a)
    decreases a + b
  {
    if a + b > 0 { XorComm(a / 2, b / 2); }
  }

  lemma {:induction false} XorSelf(a: nat)
    ensures XorNat(a, a) == 0
  {
    if a > 0 { XorSelf(a / 2); }
  }

  lemma {:induction false} XorZero(a: nat)
    ensures XorNat(a, 0) == a
  {
    if a > 0 { XorZero(a / 2); }
  }

  lemma XorHalf(a: nat, b: nat)
    ensures XorNat(a, b) / 2 == XorNat(a / 2, b / 2) && XorNat(a, b) % 2 == (a + b) % 2
  {
  }

  lemma ParityOfSum(a: nat, b: nat, x: nat, c: nat)
    requires x % 2 == (a + b) % 2
    ensures (x + c) % 2 == (a + b + c) % 2
  {
  }

  lemma {:induction false} XorAssoc(a: nat, b: nat, c: nat)
    ensures XorNat(XorNat(a, b), c) == XorNat(a, XorNat(b, c))
    decreases a + b + c
  {
    if a + b + c > 0 {
      hide XorNat;
      var ab, bc := XorNat(a, b), XorNat(b, c);
      XorHalf(a, b);
      XorHalf(b, c);
      XorHalf(ab, c);
      XorHalf(a, bc);
      XorAssoc(a / 2, b / 2, c / 2);
      ParityOfSum(a, b, ab, c);
      ParityOfSum(b, c, bc, a);
      var p, q := XorNat(ab, c), XorNat(a, bc);
      assert p % 2 == q % 2 && p / 2 == q / 2;
    }
  }

  function XorByte(a: byte, b: byte): byte {
    assert Pow2(4) == 2 * Pow2(3) == 16 && Pow2(8) == 256;
    XorBound(a, b, 8);
    XorNat(a, b)
  }

  lemma Pow2Of64()
    ensures Pow2(64) == UINT64_LIMIT
  {
    assert Pow2(16) == 0x1_0000 by { assert Pow2(4) == 2 * Pow2(3) == 16 && Pow2(8) == 256 && Pow2(12) == 4096; }
    assert Pow2(20) == 16 * Pow2(16) && Pow2(24) == 16 * Pow2(20)
      && Pow2(28) == 16 * Pow2(24) && Pow2(32) == 16 * Pow2(28);
    assert Pow2(36) == 16 * Pow2(32) && Pow2(40) == 16 * Pow2(36)
      && Pow2(44) == 16 * Pow2(40) && Pow2(48) == 16 * Pow2(44);
    assert Pow2(52) == 16 * Pow2(48) && Pow2(56) == 16 * Pow2(52) && Pow2(60) == 16 * Pow2(56);
  }

  function XorKey(a: UInt64, b: UInt64): UInt64 {
    Pow2Of64();
    XorBound(a, b, 64);
    XorNat(a, b)
  }

  function Xor(a: Bytes32, b: Bytes32): Bytes32 {
    seq(32, i requires 0 <= i < 32 => XorByte(a[i], b[i]))
  }

  // ---- the group of symbols ----

  /** A 32-byte element id (riblt.RIBLTElement). */
  type Element = Bytes32

  const WORD := 0x1_0000_0000

  /** A 32-bit signed count as its two's complement bits, so -1 is WORD - 1. */
  type Count = x: int | 0 <= x < 0x1_0000_0000

  /** One coded symbol: a wrapping signed count, XOR of keys, XOR of elements. */
  datatype Symbol = Symbol(count: Count, key: UInt64, data: Element)

  const ZERO := Symbol(0, 0, Zeros(32))
  const MINUS_ONE: Count := WORD - 1

  function Wrap(n: int): Count {
    n % WORD
  }

  function Plus(s: Symbol, t: Symbol): Symbol {
    Symbol(Wrap(s.count + t.count), XorKey(s.key, t.key), Xor(s.data, t.data))
  }

  function Minus(s: Symbol, t: Symbol): Symbol {
    Symbol(Wrap(s.count - t.count), XorKey(s.key, t.key), Xor(s.data, t.data))
  }

  function Negate(s: Symbol): Symbol {
    Symbol(Wrap(0 - s.count), s.key, s.data)
  }

  lemma KeyLaws(a: UInt64, b: UInt64, c: UInt64)
    ensures XorKey(XorKey(a, b), c) == XorKey(a, XorKey(b, c))
    ensures XorKey(a, b) == XorKey(b, a) && XorKey(a, a) == 0 && XorKey(a, 0) == a
  {
    hide XorNat;
    XorAssoc(a, b, c);
    XorComm(a, b);
    XorSelf(a);
    XorZero(a);
  }

  lemma WrapSum(a: Count, b: Count)
    ensures Wrap(a + b) == if a + b < WORD then a + b else a + b - WORD
    ensures Wrap(a - b) == if a >= b then a - b else a - b + WORD
  {
  }

  lemma CountLaws(a: Count, b: Count, c: Count)
    ensures Wrap(Wrap(a + b) + c) == Wrap(a + Wrap(b + c)) && Wrap(a + b) == Wrap(b + a) && Wrap(a + 0) == a
    ensures Wrap(a + Wrap(0 - a)) == 0 && Wrap(a - b) == Wrap(a + Wrap(0 - b))
    ensures Wrap(0 - Wrap(a + b)) == Wrap(Wrap(0 - a) + Wrap(0 - b)) && Wrap(0 - Wrap(0 - a)) == a
  {
    hide Wrap;
    WrapSum(a, b);
    WrapSum(b, c);
    WrapSum(Wrap(a + b), c);
    WrapSum(a, Wrap(b + c));
    WrapSum(b, a);
    WrapSum(a, 0);
    WrapSum(0, a);
    WrapSum(0, b);
    WrapSum(0, Wrap(0 - a));
    WrapSum(0, Wrap(a + b));
    WrapSum(a, Wrap(0 - a));
    WrapSum(a, Wrap(0 - b));
    WrapSum(Wrap(0 - a), Wrap(0 - b));
  }

  lemma DataAssoc(a: Element, b: Element, c: Element)
    ensures Xor(Xor(a, b), c) == Xor(a, Xor(b, c))
  {
    hide XorNat;
    forall i | 0 <= i < 32 ensures Xor(Xor(a, b), c)[i] == Xor(a, Xor(b, c))[i] {
      XorAssoc(a[i], b[i], c[i]);
    }
  }

  lemma DataLaws(a: Element, b: Element)
    ensures Xor(a, b) == Xor(b, a) && Xor(a, a) == Zeros(32) && Xor(a, Zeros(32)) == a
  {
    hide XorNat;
    forall i | 0 <= i < 32
      ensures Xor(a, b)[i] == Xor(b, a)[i] && Xor(a, a)[i] == 0 && Xor(a, Zeros(32))[i] == a[i]
    {
      XorComm(a[i], b[i]);
      XorSelf(a[i]);
      XorZero(a[i]);
    }
  }

  lemma PlusComm(s: Symbol, t: Symbol)
    ensures Plus(s, t) == Plus(t, s)
  {
    KeyLaws(s.key, t.key, 0);
    DataLaws(s.data, t.data);
  }

  lemma PlusAssoc(s: Symbol, t: Symbol, u: Symbol)
    ensures Plus(Plus(s, t), u) == Plus(s, Plus(t, u))
  {
    hide Xor, XorKey, Wrap;
    KeyLaws(s.key, t.key, u.key);
    CountLaws(s.count, t.count, u.count);
    DataAssoc(s.data, t.data, u.data);
  }

  lemma ZeroPlus(s: Symbol)
    ensures Plus(s, ZERO) == s && Plus(ZERO, s) == s && Minus(s, ZERO) == s
  {
    hide Xor, XorKey, Wrap;
    KeyLaws(s.key, 0, 0);
    CountLaws(s.count, 0, 0);
    CountLaws(0, s.count, 0);
    DataLaws(s.data, Zeros(32));
    DataLaws(Zeros(32), s.data);
    KeyLaws(0, s.key, 0);
  }

  lemma NegateLaws(s: Symbol, t: Symbol)
    ensures Plus(s, Negate(s)) == ZERO && Minus(s, t) == Plus(s, Negate(t))
    ensures Negate(Plus(s, t)) == Plus(Negate(s), Negate(t)) && Negate(Negate(s)) == s && Negate(ZERO) == ZERO
  {
    hide Xor, XorKey, Wrap;
    KeyLaws(s.key, t.key, 0);
    CountLaws(s.count, t.count, 0);
    CountLaws(0, t.count, 0);
    DataLaws(s.data, t.data);
  }

  /** s + (t + u) == t + (s + u). */
  lemma PlusSwap(s: Symbol, t: Symbol, u: Symbol)
    ensures Plus(s, Plus(t, u)) == Plus(t, Plus(s, u))
  {
    hide Plus;
    PlusAssoc(s, t, u);
    PlusComm(s, t);
    PlusAssoc(t, s, u);
  }

  // ---- sums over sets of elements ----

  ghost function Sum(f: Element -> Symbol, t: set<Element>): Symbol {
    if t == {} then ZERO else var e :| e in t; Plus(f(e), Sum(f, t - {e}))
  }

  /** Any element may be taken out of a sum first. */
  lemma {:induction false} SumPick(f: Element -> Symbol, t: set<Element>, e: Element)
    requires e in t
    ensures Sum(f, t) == Plus(f(e), Sum(f, t - {e}))
    decreases |t|
  {
    hide Plus;
    var x :| x in t && Sum(f, t) == Plus(f(x), Sum(f, t - {x}));
    if x != e {
      SumPick(f, t - {x}, e);
      SumPick(f, t - {e}, x);
      assert t - {x} - {e} == t - {e} - {x};
      PlusSwap(f(x), f(e), Sum(f, t - {x} - {e}));
    }
  }

  lemma {:induction false} SumUnion(f: Element -> Symbol, a: set<Element>, b: set<Element>)
    requires a !! b
    ensures Sum(f, a + b) == Plus(Sum(f, a), Sum(f, b))
    decreases |a|
  {
    hide Plus;
    if a == {} {
      assert a + b == b;
      ZeroPlus(Sum(f, b));
    } else {
      var e :| e in a;
      SumUnion(f, a - {e}, b);
      SumPick(f, a, e);
      SumPick(f, a + b, e);
      assert a + b - {e} == (a - {e}) + b;
      PlusAssoc(f(e), Sum(f, a - {e}), Sum(f, b));
    }
  }

  lemma {:induction false} SumAgree(f: Element -> Symbol, g: Element -> Symbol, t: set<Element>)
    requires forall e :: e in t ==> f(e) == g(e)
    ensures Sum(f, t) == Sum(g, t)
    decreases |t|
  {
    hide Plus;
    if t != {} {
      var e :| e in t;
      SumPick(f, t, e);
      SumPick(g, t, e);
      SumAgree(f, g, t - {e});
    }
  }

  lemma NegateSplit(s: Symbol, t: Symbol)
    ensures Negate(Plus(s, t)) == Plus(Negate(s), Negate(t))
  {
    hide Plus, Negate;
    NegateLaws(s, t);
  }

  lemma {:induction false} SumNegated(f: Element -> Symbol, g: Element -> Symbol, t: set<Element>)
    requires forall e :: e in t ==> f(e) == Negate(g(e))
    ensures Sum(f, t) == Negate(Sum(g, t))
    decreases |t|
  {
    hide Plus, Negate;
    if t == {} {
      NegateLaws(ZERO, ZERO);
    } else {
      var e :| e in t;
      SumPick(f, t, e);
      SumPick(g, t, e);
      SumNegated(f, g, t - {e});
      assert f(e) == Negate(g(e));
      NegateSplit(g(e), Sum(g, t - {e}));
    }
  }

  /** Elements that contribute zero drop out of a sum. */
  lemma {:induction false} SumSupport(f: Element -> Symbol, t: set<Element>, s: set<Element>)
    requires s <= t && forall e :: e in t - s ==> f(e) == ZERO
    ensures Sum(f, t) == Sum(f, s)
    decreases |t|
  {
    hide Plus;
    if t <= s {
      assert t == s;
    } else {
      var e :| e in t && e !in s;
      SumPick(f, t, e);
      SumSupport(f, t - {e}, s);
      ZeroPlus(Sum(f, s));
    }
  }

  lemma SumOne(f: Element -> Symbol, e: Element)
    ensures Sum(f, {e}) == f(e) && Sum(f, {}) == ZERO
  {
    hide Plus;
    SumPick(f, {e}, e);
    assert {e} - {e} == {};
    ZeroPlus(f(e));
  }
}
