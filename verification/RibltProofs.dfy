/** What the decoder computes: the residual invariant on any stream, and exact peeling on an honest one. */
module RibltProofs {
  import opened Wrappers
  import opened Collections
  import opened Symbols
  import opened Riblt

  // ---- codes ----

  lemma {:induction false} CodeAppend(h: Hashing, es: seq<Element>, e: Element, k: nat)
    ensures Code(h, es + [e], k) == Plus(Code(h, es, k), Contribution(h, e, k))
    decreases |es|
  {
    hide Plus, Contribution;
    if es == [] {
      assert es + [e] == [e] && [e][1..] == [];
      ZeroPlus(Contribution(h, e, k));
    } else {
      CodeAppend(h, es[1..], e, k);
      assert (es + [e])[1..] == es[1..] + [e];
      PlusAssoc(Contribution(h, es[0], k), Code(h, es[1..], k), Contribution(h, e, k));
    }
  }

  lemma {:induction false} CodeRemove(h: Hashing, es: seq<Element>, i: nat, k: nat)
    requires i < |es|
    ensures Code(h, es, k) == Plus(Contribution(h, es[i], k), Code(h, es[..i] + es[i + 1..], k))
    decreases |es|
  {
    hide Plus, Contribution;
    var rest := es[..i] + es[i + 1..];
    if i == 0 {
      assert rest == es[1..];
    } else {
      CodeRemove(h, es[1..], i - 1, k);
      assert rest[1..] == es[1..][..i - 1] + es[1..][i..];
      PlusSwap(Contribution(h, es[0], k), Contribution(h, es[i], k), Code(h, rest[1..], k));
    }
  }

  /** Encoder streams do not depend on the order of the elements. */
  lemma {:induction false} CodePermutes(h: Hashing, a: seq<Element>, b: seq<Element>, k: nat)
    requires multiset(a) == multiset(b)
    ensures Code(h, a, k) == Code(h, b, k)
    decreases |a|
  {
    hide Plus, Contribution;
    if a == [] {
      assert |multiset(b)| == 0;
    } else {
      assert a[0] in multiset(b);
      var i :| 0 <= i < |b| && b[i] == a[0];
      RemoveOne(a, b, i);
      CodePermutes(h, a[1..], b[..i] + b[i + 1..], k);
      CodeRemove(h, b, i, k);
    }
  }

  ghost function PlainAt(h: Hashing, k: nat): Element -> Symbol {
    (e: Element) => Contribution(h, e, k)
  }

  lemma {:induction false} CodeIsSum(h: Hashing, es: seq<Element>, k: nat)
    requires Distinct(es)
    ensures Code(h, es, k) == Sum(PlainAt(h, k), Elements(es))
    decreases |es|
  {
    hide Plus, Contribution;
    if es != [] {
      CodeIsSum(h, es[1..], k);
      SumPick(PlainAt(h, k), Elements(es), es[0]);
      assert Elements(es) - {es[0]} == Elements(es[1..]);
    }
  }

  // ---- any stream: the residual invariant ----

  /** The decoded map and the two lists agree. */
  ghost predicate Booked(s: Peeler) {
    && Distinct(s.added) && Distinct(s.removed)
    && (forall e :: e in s.added ==> e in s.decoded && s.decoded[e] == 1)
    && (forall e :: e in s.removed ==> e in s.decoded && s.decoded[e] == -1)
    && (forall e :: e in s.decoded ==> if s.decoded[e] == 1 then e in s.added else e in s.removed)
  }

  /** Residual k is received symbol k minus the code of (local, plus added, minus removed) at k. */
  ghost predicate Residual(h: Hashing, s: Peeler, received: seq<Symbol>) {
    && |s.diff| == |received|
    && forall k :: 0 <= k < |received| ==> s.diff[k] == Minus(received[k], Effective(h, s, k))
  }

  lemma CancelAdded(r: Symbol, l: Symbol, a: Symbol, m: Symbol, c: Symbol)
    ensures Minus(r, Minus(Plus(l, Plus(a, c)), m)) == Minus(Minus(r, Minus(Plus(l, a), m)), c)
  {
    hide Plus, Minus, Negate;
    var x := Minus(Plus(l, a), m);
    PlusAssoc(l, a, c);
    NegateLaws(Plus(l, Plus(a, c)), m);
    NegateLaws(Plus(l, a), m);
    PlusAssoc(Plus(l, a), c, Negate(m));
    PlusComm(c, Negate(m));
    PlusAssoc(Plus(l, a), Negate(m), c);
    TakeOne(r, x, c);
  }

  lemma CancelRemoved(r: Symbol, l: Symbol, a: Symbol, m: Symbol, c: Symbol)
    ensures Minus(r, Minus(Plus(l, a), Plus(m, c))) == Plus(Minus(r, Minus(Plus(l, a), m)), c)
  {
    hide Plus, Minus, Negate;
    var x := Minus(Plus(l, a), m);
    TakeOne(Plus(l, a), m, c);
    NegateLaws(x, c);
    NegateLaws(r, Minus(x, c));
    NegateLaws(x, Negate(c));
    NegateLaws(c, c);
    NegateLaws(r, x);
    PlusAssoc(r, Negate(x), c);
  }

  lemma CancelMeans(h: Hashing, x: Symbol, k: nat, e: Element, direction: int)
    ensures Cancel(h, x, k, e, direction) ==
              if direction > 0 then Minus(x, Contribution(h, e, k)) else Plus(x, Contribution(h, e, k))
  {
    hide Plus, Minus;
    ZeroPlus(x);
  }

  lemma PeelAtResidual(h: Hashing, s: Peeler, j: nat, received: seq<Symbol>)
    requires Residual(h, s, received) && j < |s.diff|
    ensures Residual(h, PeelAt(h, s, j), received)
  {
    hide Plus, Minus, Code, Contribution, Cancel;
    var s' := PeelAt(h, s, j);
    var e, direction := s.diff[j].data, Direction(s.diff[j]);
    forall k | 0 <= k < |received| ensures s'.diff[k] == Minus(received[k], Effective(h, s', k)) {
      var r, c := received[k], Contribution(h, e, k);
      CancelMeans(h, s.diff[k], k, e, direction);
      if direction > 0 {
        CodeAppend(h, s.added, e, k);
        CancelAdded(r, Code(h, s.local, k), Code(h, s.added, k), Code(h, s.removed, k), c);
      } else {
        CodeAppend(h, s.removed, e, k);
        CancelRemoved(r, Code(h, s.local, k), Code(h, s.added, k), Code(h, s.removed, k), c);
      }
    }
  }

  lemma PeelAtBooked(h: Hashing, s: Peeler, j: nat)
    requires Booked(s) && j < |s.diff| && Peelable(h, s, j)
    ensures Booked(PeelAt(h, s, j))
  {
  }

  lemma {:induction false} PeelInvariant(h: Hashing, s: Peeler, received: seq<Symbol>)
    requires Booked(s) && Residual(h, s, received)
    ensures var s' := Peel(h, s);
            Booked(s') && Residual(h, s', received) && Settled(h, s') && s'.local == s.local
    decreases AllOf(32) - s.decoded.Keys
  {
    hide PeelAt, Residual, Booked, Peelable, AllOf;
    match FirstPeelable(h, s, 0)
    case None =>
    case Some(j) =>
      PeelAtBooked(h, s, j);
      ResidualLength(h, s, received);
      PeelAtResidual(h, s, j, received);
      PeelShrinks(h, s, j);
      PeelAtLocal(h, s, j);
      PeelInvariant(h, PeelAt(h, s, j), received);
  }

  lemma ResidualLength(h: Hashing, s: Peeler, received: seq<Symbol>)
    requires Residual(h, s, received)
    ensures |s.diff| == |received|
  {
  }

  lemma PeelAtLocal(h: Hashing, s: Peeler, j: nat)
    requires j < |s.diff|
    ensures PeelAt(h, s, j).local == s.local
  {
  }

  lemma ResidualGrows(h: Hashing, s: Peeler, received: seq<Symbol>, x: Symbol)
    requires Residual(h, s, received)
    ensures Residual(h, s.(diff := s.diff + [Minus(x, Effective(h, s, |s.diff|))]), received + [x])
  {
    hide Minus, Plus, Code;
    var s' := s.(diff := s.diff + [Minus(x, Effective(h, s, |s.diff|))]);
    forall k | 0 <= k < |received + [x]| ensures s'.diff[k] == Minus((received + [x])[k], Effective(h, s', k)) {
      assert Effective(h, s', k) == Effective(h, s, k);
    }
  }

  /** On every stream, honest or not: residuals are the received symbols minus the effective local
      code, the books agree, and no pure undecoded symbol is left. */
  lemma {:induction false} ReceiveInvariant(h: Hashing, local: seq<Element>, xs: seq<Symbol>)
    ensures var s := Receive(h, Fresh(local), xs);
            Residual(h, s, xs) && Booked(s) && Settled(h, s) && s.local == local
    decreases |xs|
  {
    hide Minus, Effective, Peel;
    if xs != [] {
      var front, x := xs[..|xs| - 1], xs[|xs| - 1];
      ReceiveInvariant(h, local, front);
      var s := Receive(h, Fresh(local), front);
      var s' := s.(diff := s.diff + [Minus(x, Effective(h, s, |s.diff|))]);
      ResidualGrows(h, s, front, x);
      assert front + [x] == xs;
      assert Booked(s');
      PeelInvariant(h, s', xs);
    }
  }

  // ---- an honest stream ----

  ghost function Difference(remote: set<Element>, local: set<Element>): set<Element> {
    (remote - local) + (local - remote)
  }

  /** The elements of t that take part in symbol k. */
  ghost function Touching(h: Hashing, t: set<Element>, k: nat): set<Element> {
    set e | e in t && h.contributes(h.key(e), k)
  }

  ghost function SignedFull(h: Hashing, remote: set<Element>): Element -> Symbol {
    (e: Element) => if e in remote then Full(h, e) else Negate(Full(h, e))
  }

  ghost function SignedAt(h: Hashing, remote: set<Element>, k: nat): Element -> Symbol {
    (e: Element) => if e in remote then Contribution(h, e, k) else Negate(Contribution(h, e, k))
  }

  /** No combination of two or more difference elements looks like one element: a count of plus or minus one and a key
      that matches its data. */
  ghost predicate NoFalsePure(h: Hashing, remote: set<Element>, diff: set<Element>) {
    forall t: set<Element> :: t <= diff && |t| >= 2 ==>
      var x := Sum(SignedFull(h, remote), t);
      !((x.count == 1 || x.count == MINUS_ONE) && h.key(x.data) == x.key)
  }

  /** No nonempty part of the difference codes to zero over the first n symbols. */
  ghost predicate NothingHidden(h: Hashing, remote: set<Element>, diff: set<Element>, n: nat) {
    forall t: set<Element> :: t <= diff && t != {} ==>
      exists k :: 0 <= k < n && Sum(SignedAt(h, remote, k), t) != ZERO
  }

  /** The decoded elements are in the difference, on the side their direction says. */
  ghost predicate Directed(s: Peeler, remote: set<Element>, local: set<Element>) {
    forall e :: e in s.decoded ==> e in Difference(remote, local) && s.decoded[e] == if e in remote then 1 else -1
  }

  lemma Cancelling(i: Symbol, a: Symbol, p: Symbol, m: Symbol, q: Symbol)
    ensures Minus(Plus(i, Plus(a, p)), Minus(Plus(Plus(i, Plus(m, q)), a), m)) == Minus(p, q)
  {
    hide Plus, Minus, Negate;
    var w := Plus(i, a);
    PlusSwap(i, m, q);
    PlusAssoc(m, Plus(i, q), a);
    AddThenTake(m, Plus(Plus(i, q), a));
    PlusAssoc(i, q, a);
    PlusComm(q, a);
    PlusAssoc(i, a, q);
    PlusAssoc(i, a, p);
    TakeOne(Plus(w, p), w, q);
    AddThenTake(w, p);
  }

  lemma AddThenTake(m: Symbol, y: Symbol)
    ensures Minus(Plus(m, y), m) == y
  {
    hide Plus, Minus, Negate;
    NegateLaws(Plus(m, y), m);
    PlusComm(m, y);
    PlusAssoc(y, m, Negate(m));
    NegateLaws(m, m);
    ZeroPlus(y);
  }

  lemma SignedSum(h: Hashing, remote: set<Element>, k: nat, p: set<Element>, q: set<Element>)
    requires p <= remote && q !! remote
    ensures Sum(SignedAt(h, remote, k), p + q) == Minus(Sum(PlainAt(h, k), p), Sum(PlainAt(h, k), q))
  {
    hide Plus, Minus, Negate, Contribution;
    SumUnion(SignedAt(h, remote, k), p, q);
    SumAgree(SignedAt(h, remote, k), PlainAt(h, k), p);
    SumNegated(SignedAt(h, remote, k), PlainAt(h, k), q);
    NegateLaws(Sum(PlainAt(h, k), p), Sum(PlainAt(h, k), q));
  }

  lemma SumThree(f: Element -> Symbol, t: set<Element>, i: set<Element>, a: set<Element>, p: set<Element>)
    requires t == i + (a + p) && i !! a + p && a !! p
    ensures Sum(f, t) == Plus(Sum(f, i), Plus(Sum(f, a), Sum(f, p)))
  {
    hide Plus;
    SumUnion(f, i, a + p);
    SumUnion(f, a, p);
  }

  /** On an honest stream every residual is the signed code of what is still undecoded. */
  lemma ResidualIsHidden(h: Hashing, remote: seq<Element>, local: seq<Element>, s: Peeler, n: nat, k: nat)
    requires Distinct(remote) && Distinct(local) && s.local == local
    requires Booked(s) && Residual(h, s, Stream(h, remote, n)) && Directed(s, Elements(remote), Elements(local))
    requires k < n
    ensures s.diff[k] ==
              Sum(SignedAt(h, Elements(remote), k), Difference(Elements(remote), Elements(local)) - s.decoded.Keys)
  {
    hide Plus, Minus, Code, Contribution, PlainAt, SignedAt, Sum;
    var r, l := Elements(remote), Elements(local);
    var a, m := Elements(s.added), Elements(s.removed);
    var i, p, q := r * l, r - l - a, l - r - m;
    var f := PlainAt(h, k);
    CodeIsSum(h, remote, k);
    CodeIsSum(h, local, k);
    CodeIsSum(h, s.added, k);
    CodeIsSum(h, s.removed, k);
    DecodedParts(s, r, l);
    SumThree(f, r, i, a, p);
    SumThree(f, l, i, m, q);
    SignedSum(h, r, k, p, q);
    Cancelling(Sum(f, i), Sum(f, a), Sum(f, p), Sum(f, m), Sum(f, q));
  }

  lemma DecodedParts(s: Peeler, r: set<Element>, l: set<Element>)
    requires Booked(s) && Directed(s, r, l)
    ensures var a, m := Elements(s.added), Elements(s.removed);
            a <= r - l && m <= l - r && (r - l - a) + (l - r - m) == Difference(r, l) - s.decoded.Keys
            && r == r * l + (a + (r - l - a)) && l == r * l + (m + (l - r - m))
  {
    var a, m := Elements(s.added), Elements(s.removed);
    assert a <= r - l;
    assert m <= l - r;
  }

  lemma TouchingSum(h: Hashing, remote: set<Element>, t: set<Element>, k: nat)
    ensures Sum(SignedAt(h, remote, k), t) == Sum(SignedFull(h, remote), Touching(h, t, k))
  {
    hide Negate, Sum;
    assert Negate(ZERO) == ZERO by { NegateLaws(ZERO, ZERO); }
    SumSupport(SignedAt(h, remote, k), t, Touching(h, t, k));
    SumAgree(SignedAt(h, remote, k), SignedFull(h, remote), Touching(h, t, k));
  }

  /** A residual passes the purity gate exactly when one undecoded element touches it. */
  lemma PureIffSingle(h: Hashing, remote: set<Element>, diff: set<Element>, t: set<Element>, k: nat)
    requires NoFalsePure(h, remote, diff) && t <= diff
    ensures var x := Sum(SignedAt(h, remote, k), t);
            (Pure(h, x) <==> |Touching(h, t, k)| == 1)
            && (Pure(h, x) ==> Touching(h, t, k) == {x.data} && (Direction(x) == if x.data in remote then 1 else -1))
  {
    hide Sum;
    var u := Touching(h, t, k);
    TouchingSum(h, remote, t, k);
    assert u <= diff;
    if |u| == 0 {
      assert u == {};
      SumNone(SignedFull(h, remote));
    } else if |u| == 1 {
      var e :| e in u;
      assert |u - {e}| == 0;
      assert u == {e};
      SumOne(SignedFull(h, remote), e);
    }
  }

  lemma SumNone(f: Element -> Symbol)
    ensures Sum(f, {}) == ZERO
  {
  }

  // ---- stopping sets ----

  /** No symbol of the first n touches exactly one element: peeling can never take hold of the set. */
  ghost predicate Stopping(h: Hashing, t: set<Element>, n: nat) {
    forall k :: 0 <= k < n ==> |Touching(h, t, k)| != 1
  }

  /** An element out of reach of peeling: it lies in some stopping set. */
  ghost predicate Stuck(h: Hashing, diff: set<Element>, n: nat, e: Element) {
    exists t: set<Element> :: t <= diff && e in t && Stopping(h, t, n)
  }

  /** The symbols no undecoded element touches any more. */
  ghost function Spent(h: Hashing, t: set<Element>, n: nat): set<nat> {
    set k: nat | k < n && Touching(h, t, k) == {}
  }

  /** What every peeling step keeps on an honest stream. */
  ghost predicate Sound(h: Hashing, remote: seq<Element>, local: seq<Element>, n: nat, s: Peeler) {
    var r, l := Elements(remote), Elements(local);
    var d := Difference(r, l);
    && s.local == local && Booked(s) && Residual(h, s, Stream(h, remote, n)) && Directed(s, r, l)
    && (forall e :: e in s.decoded ==> !Stuck(h, d, n, e))
    && |s.decoded.Keys| <= |Spent(h, d - s.decoded.Keys, n)|
  }

  ghost predicate HonestPair(h: Hashing, remote: seq<Element>, local: seq<Element>) {
    && Distinct(remote) && Distinct(local)
    && NoFalsePure(h, Elements(remote), Difference(Elements(remote), Elements(local)))
  }

  /** A stopping set loses nothing when one touched element of a larger set is peeled. */
  lemma PeeledIsNotStuck(h: Hashing, diff: set<Element>, left: set<Element>, n: nat, k: nat, e: Element)
    requires left <= diff && k < n && Touching(h, left, k) == {e}
    requires forall x :: x in diff - left ==> !Stuck(h, diff, n, x)
    ensures !Stuck(h, diff, n, e)
  {
    hide Touching, Stopping;
    if Stuck(h, diff, n, e) {
      var t: set<Element> :| t <= diff && e in t && Stopping(h, t, n);
      forall x | x in t ensures x in left {
        assert Stuck(h, diff, n, x);
      }
      PeeledOutside(h, left, n, k, e, t);
    }
  }

  lemma PeeledOutside(h: Hashing, left: set<Element>, n: nat, k: nat, e: Element, t: set<Element>)
    requires k < n && Touching(h, left, k) == {e} && t <= left && Stopping(h, t, n)
    ensures e !in t
  {
    hide Touching;
    var u := Touching(h, t, k);
    TouchingSubset(h, t, left, k);
    TouchingMeans(h, left, k, e);
    TouchingMeans(h, t, k, e);
    assert u == {} || u == {e};
    assert |u| != 1;
  }

  lemma TouchingSubset(h: Hashing, t: set<Element>, u: set<Element>, k: nat)
    requires t <= u
    ensures Touching(h, t, k) <= Touching(h, u, k)
  {
  }

  lemma TouchingMeans(h: Hashing, t: set<Element>, k: nat, e: Element)
    ensures e in Touching(h, t, k) <==> e in t && h.contributes(h.key(e), k)
  {
  }

  lemma SpentGrows(h: Hashing, left: set<Element>, n: nat, k: nat, e: Element)
    requires k < n && Touching(h, left, k) == {e}
    ensures |Spent(h, left, n)| + 1 <= |Spent(h, left - {e}, n)|
  {
    var before, after := Spent(h, left, n), Spent(h, left - {e}, n);
    assert Touching(h, left - {e}, k) == {};
    forall i | i in before ensures i in after {
      TouchingSubset(h, left - {e}, left, i);
    }
    SubsetSize(before + {k}, after);
  }

  lemma SoundPeel(h: Hashing, remote: seq<Element>, local: seq<Element>, n: nat, s: Peeler, j: nat)
    requires HonestPair(h, remote, local) && Sound(h, remote, local, n, s)
    requires j < |s.diff| && Peelable(h, s, j)
    ensures Sound(h, remote, local, n, PeelAt(h, s, j))
  {
    hide Booked, Residual, Stuck, Spent, NoFalsePure, Touching, SignedAt, Sum, CancelAll, Pure;
    var r, l := Elements(remote), Elements(local);
    var d, left := Difference(r, l), Difference(r, l) - s.decoded.Keys;
    var s' := PeelAt(h, s, j);
    var e := s.diff[j].data;
    ResidualLength(h, s, Stream(h, remote, n));
    ResidualIsHidden(h, remote, local, s, n, j);
    PureIffSingle(h, r, d, left, j);
    PeelAtBooked(h, s, j);
    PeelAtResidual(h, s, j, Stream(h, remote, n));
    TouchingMeans(h, left, j, e);
    assert d - left == s.decoded.Keys * d;
    PeeledIsNotStuck(h, d, left, n, j, e);
    SpentGrows(h, left, n, j, e);
    OneMoreGone(d, s.decoded, e, Direction(s.diff[j]));
  }

  lemma OneMoreGone(d: set<Element>, decoded: map<Element, int>, e: Element, direction: int)
    requires e in d && e !in decoded
    ensures decoded[e := direction].Keys == decoded.Keys + {e} && |decoded[e := direction].Keys| == |decoded.Keys| + 1
    ensures d - decoded[e := direction].Keys == d - decoded.Keys - {e}
  {
    assert decoded[e := direction].Keys == decoded.Keys + {e};
  }

  lemma {:induction false} SoundAfterPeel(h: Hashing, remote: seq<Element>, local: seq<Element>, n: nat, s: Peeler)
    requires HonestPair(h, remote, local) && Sound(h, remote, local, n, s)
    ensures Sound(h, remote, local, n, Peel(h, s)) && Settled(h, Peel(h, s))
    decreases AllOf(32) - s.decoded.Keys
  {
    hide Sound, HonestPair, Peelable, PeelAt, AllOf;
    match FirstPeelable(h, s, 0)
    case None =>
    case Some(j) =>
      SoundPeel(h, remote, local, n, s, j);
      PeelShrinks(h, s, j);
      SoundAfterPeel(h, remote, local, n, PeelAt(h, s, j));
  }

  lemma StuckEarlier(h: Hashing, diff: set<Element>, n: nat, e: Element)
    requires Stuck(h, diff, n + 1, e)
    ensures Stuck(h, diff, n, e)
  {
    hide Touching;
    var t: set<Element> :| t <= diff && e in t && Stopping(h, t, n + 1);
    assert Stopping(h, t, n);
  }

  lemma SoundGrows(h: Hashing, remote: seq<Element>, local: seq<Element>, n: nat, s: Peeler)
    requires Sound(h, remote, local, n, s)
    ensures Sound(h, remote, local, n + 1, s.(diff := s.diff + [Minus(Code(h, remote, n), Effective(h, s, |s.diff|))]))
  {
    hide Residual, Stuck, Touching, Minus, Effective, Code;
    var d := Difference(Elements(remote), Elements(local));
    var left := d - s.decoded.Keys;
    ResidualGrows(h, s, Stream(h, remote, n), Code(h, remote, n));
    assert Stream(h, remote, n) + [Code(h, remote, n)] == Stream(h, remote, n + 1);
    forall e | e in s.decoded ensures !Stuck(h, d, n + 1, e) {
      if Stuck(h, d, n + 1, e) { StuckEarlier(h, d, n, e); }
    }
    SubsetSize(Spent(h, left, n), Spent(h, left, n + 1));
  }

  /** The decoder after the first n symbols of an honest stream. */
  ghost function HonestDecoder(h: Hashing, remote: seq<Element>, local: seq<Element>, n: nat): Peeler {
    Receive(h, Fresh(local), Stream(h, remote, n))
  }

  lemma {:induction false} ReceiveSound(h: Hashing, remote: seq<Element>, local: seq<Element>, n: nat)
    requires HonestPair(h, remote, local)
    ensures Sound(h, remote, local, n, HonestDecoder(h, remote, local, n))
             && Settled(h, HonestDecoder(h, remote, local, n))
    decreases n
  {
    hide HonestPair, Peel, Effective, Code, Minus, Stuck;
    if n > 0 {
      ReceiveSound(h, remote, local, n - 1);
      var s := HonestDecoder(h, remote, local, n - 1);
      SoundGrows(h, remote, local, n - 1, s);
      assert Stream(h, remote, n)[..n - 1] == Stream(h, remote, n - 1);
      SoundAfterPeel(h, remote, local, n,
        s.(diff := s.diff + [Minus(Code(h, remote, n - 1), Effective(h, s, |s.diff|))]));
    }
  }

  /** A settled sound decoder has decoded exactly the difference elements outside every stopping set. */
  lemma SettledDecodesAll(h: Hashing, remote: seq<Element>, local: seq<Element>, n: nat, s: Peeler)
    requires HonestPair(h, remote, local) && Sound(h, remote, local, n, s) && Settled(h, s)
    ensures var d := Difference(Elements(remote), Elements(local));
            forall e :: e in s.decoded <==> e in d && !Stuck(h, d, n, e)
  {
    hide Booked, Residual, NoFalsePure, Touching, SignedAt, Sum, Pure, Spent;
    var r, l := Elements(remote), Elements(local);
    var d, left := Difference(r, l), Difference(r, l) - s.decoded.Keys;
    ResidualLength(h, s, Stream(h, remote, n));
    forall k | 0 <= k < n ensures |Touching(h, left, k)| != 1 {
      ResidualIsHidden(h, remote, local, s, n, k);
      PureIffSingle(h, r, d, left, k);
      assert !Peelable(h, s, k);
      if |Touching(h, left, k)| == 1 { TouchingMeans(h, left, k, s.diff[k].data); }
    }
    assert Stopping(h, left, n);
  }

  // ---- main results ----

  /** Peeling is exact on an honest stream: the decoded elements are those of the difference that no
      stopping set holds, each with its right direction, and no more than the symbols received. */
  lemma DecodedExactly(h: Hashing, remote: seq<Element>, local: seq<Element>, n: nat)
    requires HonestPair(h, remote, local)
    ensures var s, d := HonestDecoder(h, remote, local, n), Difference(Elements(remote), Elements(local));
            (forall e :: e in s.decoded <==> e in d && !Stuck(h, d, n, e))
            && (forall e :: e in s.decoded ==> s.decoded[e] == if e in remote then 1 else -1)
            && |s.decoded.Keys| <= n
  {
    hide HonestDecoder, HonestPair, Stuck;
    var s, d := HonestDecoder(h, remote, local, n), Difference(Elements(remote), Elements(local));
    ReceiveSound(h, remote, local, n);
    SettledDecodesAll(h, remote, local, n, s);
    SpentBound(h, d - s.decoded.Keys, n);
  }

  lemma {:induction false} SpentBound(h: Hashing, t: set<Element>, n: nat)
    ensures |Spent(h, t, n)| <= n
    decreases n
  {
    hide Touching;
    if n == 0 {
      assert Spent(h, t, n) == {};
    } else {
      SpentBound(h, t, n - 1);
      SubsetSize(Spent(h, t, n), Spent(h, t, n - 1) + {n - 1});
    }
  }

  /** Peel at the given indices, one after the other. */
  ghost function PeelInOrder(h: Hashing, s: Peeler, js: seq<nat>): Peeler
    decreases |js|
  {
    if js == [] || js[0] >= |s.diff| then s else PeelInOrder(h, PeelAt(h, s, js[0]), js[1..])
  }

  /** Every index shows a pure undecoded symbol when its turn comes. */
  ghost predicate LegalOrder(h: Hashing, s: Peeler, js: seq<nat>)
    decreases |js|
  {
    js == [] || (js[0] < |s.diff| && Peelable(h, s, js[0]) && LegalOrder(h, PeelAt(h, s, js[0]), js[1..]))
  }

  lemma {:induction false} SoundInOrder(h: Hashing, remote: seq<Element>, local: seq<Element>, n: nat, s: Peeler,
                                        js: seq<nat>)
    requires HonestPair(h, remote, local) && Sound(h, remote, local, n, s) && LegalOrder(h, s, js)
    ensures Sound(h, remote, local, n, PeelInOrder(h, s, js))
    decreases |js|
  {
    hide HonestPair, Sound, Peelable, PeelAt;
    if js != [] {
      SoundPeel(h, remote, local, n, s, js[0]);
      SoundInOrder(h, remote, local, n, PeelAt(h, s, js[0]), js[1..]);
    }
  }

  /** The order of peeling does not matter: take in n honest symbols and peel at any pure symbols in
      any order until none is left, and the decoded map is that of the decoder that peels the first
      pure symbol after every symbol. */
  lemma PeelOrderIrrelevant(h: Hashing, remote: seq<Element>, local: seq<Element>, n: nat, s: Peeler, js: seq<nat>)
    requires HonestPair(h, remote, local)
    requires s == Fresh(local).(diff := seq(n, k requires 0 <= k < n => Minus(Code(h, remote, k), Code(h, local, k))))
    requires LegalOrder(h, s, js) && Settled(h, PeelInOrder(h, s, js))
    ensures PeelInOrder(h, s, js).decoded == HonestDecoder(h, remote, local, n).decoded
  {
    hide HonestPair, HonestDecoder, Stuck, LegalOrder, PeelInOrder, Settled;
    var t, u := PeelInOrder(h, s, js), HonestDecoder(h, remote, local, n);
    UnpeeledSound(h, remote, local, n, s);
    SoundInOrder(h, remote, local, n, s, js);
    SettledDecodesAll(h, remote, local, n, t);
    ReceiveSound(h, remote, local, n);
    SettledDecodesAll(h, remote, local, n, u);
  }

  lemma UnpeeledSound(h: Hashing, remote: seq<Element>, local: seq<Element>, n: nat, s: Peeler)
    requires s == Fresh(local).(diff := seq(n, k requires 0 <= k < n => Minus(Code(h, remote, k), Code(h, local, k))))
    ensures Sound(h, remote, local, n, s)
  {
    hide Plus, Minus, Stuck, Touching;
    forall k: nat | k < n ensures s.diff[k] == Minus(Stream(h, remote, n)[k], Effective(h, s, k)) {
      ZeroPlus(Code(h, local, k));
    }
  }

  /** Where nothing of the difference hides over the first n symbols, Converged means exactly that
      Added and Removed are the two sides of the difference. */
  lemma ConvergedExactly(h: Hashing, remote: seq<Element>, local: seq<Element>, n: nat)
    requires HonestPair(h, remote, local)
    requires NothingHidden(h, Elements(remote), Difference(Elements(remote), Elements(local)), n)
    ensures var s := HonestDecoder(h, remote, local, n);
            AllZero(s) <==>
              AddedOf(s) == Elements(remote) - Elements(local) && RemovedOf(s) == Elements(local) - Elements(remote)
  {
    hide HonestDecoder, Sound, HonestPair, NothingHidden, AddedOf, RemovedOf, AllZero;
    var s := HonestDecoder(h, remote, local, n);
    ReceiveSound(h, remote, local, n);
    ZeroIffNothingLeft(h, remote, local, n, s);
    BothSidesIffNothingLeft(h, remote, local, n, s);
  }

  lemma ZeroIffNothingLeft(h: Hashing, remote: seq<Element>, local: seq<Element>, n: nat, s: Peeler)
    requires HonestPair(h, remote, local) && Sound(h, remote, local, n, s)
    requires NothingHidden(h, Elements(remote), Difference(Elements(remote), Elements(local)), n)
    ensures AllZero(s) <==> Difference(Elements(remote), Elements(local)) <= s.decoded.Keys
  {
    hide Booked, Residual, NoFalsePure, SignedAt, Sum, Spent, Stuck;
    var r, d := Elements(remote), Difference(Elements(remote), Elements(local));
    var left := d - s.decoded.Keys;
    ResidualLength(h, s, Stream(h, remote, n));
    forall k | 0 <= k < n ensures s.diff[k] == Sum(SignedAt(h, r, k), left) {
      ResidualIsHidden(h, remote, local, s, n, k);
    }
    if d <= s.decoded.Keys {
      assert left == {};
      forall k | 0 <= k < n ensures s.diff[k] == ZERO {
        SumNone(SignedAt(h, r, k));
      }
    } else {
      var e :| e in d && e !in s.decoded.Keys;
      assert e in left && left <= d;
      var k :| 0 <= k < n && Sum(SignedAt(h, r, k), left) != ZERO;
      assert s.diff[k] != ZERO;
    }
  }

  lemma BothSidesIffNothingLeft(h: Hashing, remote: seq<Element>, local: seq<Element>, n: nat, s: Peeler)
    requires Sound(h, remote, local, n, s)
    ensures var r, l := Elements(remote), Elements(local);
            Difference(r, l) <= s.decoded.Keys <==> AddedOf(s) == r - l && RemovedOf(s) == l - r
  {
    hide Booked, Residual, Spent, Stuck;
    var r, l := Elements(remote), Elements(local);
    var d := Difference(r, l);
    if d <= s.decoded.Keys {
      assert AddedOf(s) == r - l;
      assert RemovedOf(s) == l - r;
    }
    if AddedOf(s) == r - l && RemovedOf(s) == l - r {
      forall e | e in d ensures e in s.decoded.Keys {
        assert e in AddedOf(s) || e in RemovedOf(s);
      }
    }
  }
}
