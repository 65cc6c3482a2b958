/** The rateless set-reconciliation codec (contracts/riblt): an encoder that streams coded symbols and
    a decoder that keeps residuals in place and peels them. */
module Riblt {
  import opened Wrappers
  import opened Bytes
  import opened Records
  import opened Symbols

  /** The two frozen hash functions, kept opaque: an element's key, and whether an element with a
      given key takes part in a given symbol. */
  datatype Hashing = Hashing(key: Element -> UInt64, contributes: (UInt64, nat) -> bool)

  function Full(h: Hashing, e: Element): Symbol {
    Symbol(1, h.key(e), e)
  }

  function Contribution(h: Hashing, e: Element, k: nat): Symbol {
    if h.contributes(h.key(e), k) then Full(h, e) else ZERO
  }

  /** Symbol number k over a list of elements. */
  function Code(h: Hashing, es: seq<Element>, k: nat): Symbol {
    if es == [] then ZERO else Plus(Contribution(h, es[0], k), Code(h, es[1..], k))
  }

  /** The first n symbols of the stream over a list of elements. */
  function Stream(h: Hashing, es: seq<Element>, n: nat): (xs: seq<Symbol>)
    ensures |xs| == n
  {
    seq(n, k requires 0 <= k < n => Code(h, es, k))
  }

  class Encoder {
    const h: Hashing
    var elems: seq<Element>
    var nextIdx: nat

    constructor (h: Hashing)
      ensures this.h == h && elems == [] && nextIdx == 0
    {
      this.h, elems, nextIdx := h, [], 0;
    }

    method AddElement(e: Element)
      modifies this`elems
      ensures elems == old(elems) + [e]
    {
      elems := elems + [e];
    }

    method NextSymbol() returns (s: Symbol)
      modifies this`nextIdx
      ensures s == Code(h, elems, old(nextIdx)) && nextIdx == old(nextIdx) + 1
    {
      hide Plus;
      s := ZERO;
      ZeroPlus(Code(h, elems, nextIdx));
      for i := 0 to |elems|
        invariant nextIdx == old(nextIdx)
        invariant Plus(s, Code(h, elems[i..], nextIdx)) == Code(h, elems, nextIdx)
      {
        var e := elems[i];
        assert elems[i..][0] == e && elems[i..][1..] == elems[i + 1..];
        PlusAssoc(s, Contribution(h, e, nextIdx), Code(h, elems[i + 1..], nextIdx));
        if h.contributes(h.key(e), nextIdx) {
          s := Plus(s, Full(h, e));
        } else {
          ZeroPlus(s);
        }
      }
      ZeroPlus(s);
      nextIdx := nextIdx + 1;
    }
  }

  // ---- the decoder as a value ----

  /** A decoder's fields: the local elements, the residual symbols, the direction of every decoded
      element, and the decoded elements in order by direction. */
  datatype Peeler = Peeler(local: seq<Element>, diff: seq<Symbol>, decoded: map<Element, int>,
                           added: seq<Element>, removed: seq<Element>)

  function Fresh(local: seq<Element>): Peeler {
    Peeler(local, [], map[], [], [])
  }

  /** effectiveLocalSymbol: the local code with everything decoded so far folded in. */
  function Effective(h: Hashing, s: Peeler, k: nat): Symbol {
    Minus(Plus(Code(h, s.local, k), Code(h, s.added, k)), Code(h, s.removed, k))
  }

  predicate Pure(h: Hashing, x: Symbol) {
    (x.count == 1 || x.count == MINUS_ONE) && h.key(x.data) == x.key
  }

  predicate Peelable(h: Hashing, s: Peeler, j: nat)
    requires j < |s.diff|
  {
    Pure(h, s.diff[j]) && s.diff[j].data !in s.decoded
  }

  predicate Settled(h: Hashing, s: Peeler) {
    forall j :: 0 <= j < |s.diff| ==> !Peelable(h, s, j)
  }

  function Direction(x: Symbol): int {
    if x.count == 1 then 1 else -1
  }

  /** Subtract a decoded element out of one residual. */
  function Cancel(h: Hashing, x: Symbol, k: nat, e: Element, direction: int): Symbol {
    if !h.contributes(h.key(e), k) then x
    else if direction > 0 then Minus(x, Full(h, e))
    else Plus(x, Full(h, e))
  }

  function CancelAll(h: Hashing, diff: seq<Symbol>, e: Element, direction: int): (r: seq<Symbol>)
    ensures |r| == |diff|
  {
    seq(|diff|, k requires 0 <= k < |diff| => Cancel(h, diff[k], k, e, direction))
  }

  /** Decode the element a pure symbol shows. */
  function PeelAt(h: Hashing, s: Peeler, j: nat): Peeler
    requires j < |s.diff|
  {
    var e, direction := s.diff[j].data, Direction(s.diff[j]);
    Peeler(s.local, CancelAll(h, s.diff, e, direction), s.decoded[e := direction],
           if direction > 0 then s.added + [e] else s.added,
           if direction > 0 then s.removed else s.removed + [e])
  }

  function FirstPeelable(h: Hashing, s: Peeler, j: nat): (r: Option<nat>)
    requires j <= |s.diff|
    ensures r.Some? ==> j <= r.value < |s.diff| && Peelable(h, s, r.value)
    ensures r.None? ==> forall i :: j <= i < |s.diff| ==> !Peelable(h, s, i)
    decreases |s.diff| - j
  {
    if j == |s.diff| then None else if Peelable(h, s, j) then Some(j) else FirstPeelable(h, s, j + 1)
  }

  /** Every byte string of a given length: what bounds the number of peeling rounds. */
  ghost function AllOf(n: nat): set<bytes> {
    if n == 0 then {[]} else set b: byte, s | 0 <= b < 256 && s in AllOf(n - 1) :: [b] + s
  }

  lemma {:induction false} AllOfHolds(b: bytes, n: nat)
    requires |b| == n
    ensures b in AllOf(n)
    decreases n
  {
    if n > 0 {
      AllOfHolds(b[1..], n - 1);
      assert b == [b[0]] + b[1..];
    }
  }

  /** Peel the first pure symbol until none is left. */
  ghost function Peel(h: Hashing, s: Peeler): Peeler
    decreases AllOf(32) - s.decoded.Keys
  {
    match FirstPeelable(h, s, 0)
    case None => s
    case Some(j) =>
      PeelShrinks(h, s, j);
      Peel(h, PeelAt(h, s, j))
  }

  ghost function AddRemote(h: Hashing, s: Peeler, x: Symbol): Peeler {
    Peel(h, s.(diff := s.diff + [Minus(x, Effective(h, s, |s.diff|))]))
  }

  /** A decoder after a whole stream of symbols. */
  ghost function Receive(h: Hashing, s: Peeler, xs: seq<Symbol>): Peeler {
    if xs == [] then s else AddRemote(h, Receive(h, s, xs[..|xs| - 1]), xs[|xs| - 1])
  }

  predicate AllZero(s: Peeler) {
    forall k :: 0 <= k < |s.diff| ==> s.diff[k] == ZERO
  }

  function AddedOf(s: Peeler): set<Element> {
    set e | e in s.decoded && s.decoded[e] > 0
  }

  function RemovedOf(s: Peeler): set<Element> {
    set e | e in s.decoded && s.decoded[e] < 0
  }

  // ---- the decoder ----

  class Decoder {
    const h: Hashing
    var local: seq<Element>
    var diffSymbols: seq<Symbol>
    var decoded: map<Element, int>
    var syntheticAdded: seq<Element>
    var syntheticRemoved: seq<Element>

    function State(): Peeler
      reads this
    {
      Peeler(local, diffSymbols, decoded, syntheticAdded, syntheticRemoved)
    }

    constructor (h: Hashing)
      ensures this.h == h && State() == Fresh([])
    {
      this.h := h;
      local, diffSymbols, decoded, syntheticAdded, syntheticRemoved := [], [], map[], [], [];
    }

    method AddLocalElement(e: Element)
      modifies this`local
      ensures State() == old(State()).(local := old(local) + [e])
    {
      local := local + [e];
    }

    method AddCode(s: Symbol, es: seq<Element>, k: nat, positive: bool) returns (r: Symbol)
      ensures r == if positive then Plus(s, Code(h, es, k)) else Minus(s, Code(h, es, k))
    {
      hide Plus, Minus;
      r := s;
      for i := 0 to |es|
        invariant positive ==> Plus(r, Code(h, es[i..], k)) == Plus(s, Code(h, es, k))
        invariant !positive ==> Minus(r, Code(h, es[i..], k)) == Minus(s, Code(h, es, k))
      {
        var e := es[i];
        assert es[i..][0] == e && es[i..][1..] == es[i + 1..];
        TakeOne(r, Contribution(h, e, k), Code(h, es[i + 1..], k));
        ZeroPlus(r);
        if h.contributes(h.key(e), k) {
          r := if positive then Plus(r, Full(h, e)) else Minus(r, Full(h, e));
        }
      }
      ZeroPlus(r);
    }

    method EffectiveLocalSymbol(k: nat) returns (s: Symbol)
      ensures s == Effective(h, State(), k)
    {
      s := AddCode(ZERO, local, k, true);
      ZeroPlus(Code(h, local, k));
      s := AddCode(s, syntheticAdded, k, true);
      s := AddCode(s, syntheticRemoved, k, false);
    }

    method AddRemoteSymbol(s: Symbol)
      modifies this
      ensures State() == AddRemote(h, old(State()), s)
    {
      var ls := EffectiveLocalSymbol(|diffSymbols|);
      diffSymbols := diffSymbols + [Minus(s, ls)];
      RunPeel();
    }

    /** One scan for a pure symbol not decoded yet; peels it if there is one. */
    method PeelOnce() returns (changed: bool)
      modifies this
      ensures changed == FirstPeelable(h, old(State()), 0).Some?
      ensures State() == if changed then PeelAt(h, old(State()), FirstPeelable(h, old(State()), 0).value)
               else old(State())
    {
      var j := 0;
      while j < |diffSymbols|
        invariant 0 <= j <= |diffSymbols| && State() == old(State())
        invariant FirstPeelable(h, State(), 0) == FirstPeelable(h, State(), j)
      {
        var s := diffSymbols[j];
        if (s.count == 1 || s.count == MINUS_ONE) && h.key(s.data) == s.key && s.data !in decoded {
          var e, direction := s.data, Direction(s);
          decoded := decoded[e := direction];
          if direction > 0 {
            syntheticAdded := syntheticAdded + [e];
          } else {
            syntheticRemoved := syntheticRemoved + [e];
          }
          SubtractOut(e, direction);
          return true;
        }
        j := j + 1;
      }
      return false;
    }

    method SubtractOut(e: Element, direction: int)
      modifies this`diffSymbols
      ensures diffSymbols == CancelAll(h, old(diffSymbols), e, direction)
    {
      hide Plus, Minus, Full;
      ghost var was := diffSymbols;
      for k := 0 to |diffSymbols|
        invariant |diffSymbols| == |was|
        invariant forall i :: 0 <= i < k ==> diffSymbols[i] == Cancel(h, was[i], i, e, direction)
        invariant forall i :: k <= i < |was| ==> diffSymbols[i] == was[i]
      {
        if h.contributes(h.key(e), k) {
          var x := diffSymbols[k];
          diffSymbols := diffSymbols[k := if direction > 0 then Minus(x, Full(h, e)) else Plus(x, Full(h, e))];
        }
      }
    }

    method RunPeel()
      modifies this
      ensures State() == Peel(h, old(State()))
    {
      hide PeelAt, AllOf;
      var changed := true;
      while changed
        invariant Peel(h, State()) == Peel(h, old(State()))
        invariant !changed ==> FirstPeelable(h, State(), 0).None?
        decreases AllOf(32) - decoded.Keys, changed
      {
        ghost var before := State();
        changed := PeelOnce();
        if changed {
          PeelShrinks(h, before, FirstPeelable(h, before, 0).value);
        }
      }
    }

    method Converged() returns (zero: bool)
      ensures zero == AllZero(State())
    {
      for k := 0 to |diffSymbols|
        invariant forall i :: 0 <= i < k ==> diffSymbols[i] == ZERO
      {
        if diffSymbols[k] != ZERO { return false; }
      }
      return true;
    }

    /** The decoded elements of one direction, in the arbitrary order of a map range. */
    method WithDirection(positive: bool) returns (out: seq<Element>)
      ensures forall e :: e in out <==> e in decoded && (if positive then decoded[e] > 0 else decoded[e] < 0)
      ensures forall i, j :: 0 <= i < j < |out| ==> out[i] != out[j]
    {
      out := [];
      var left := decoded.Keys;
      while left != {}
        invariant left <= decoded.Keys
        invariant forall e :: e in out <==>
                    e in decoded && e !in left && (if positive then decoded[e] > 0 else decoded[e] < 0)
        invariant forall i, j :: 0 <= i < j < |out| ==> out[i] != out[j]
        decreases |left|
      {
        var e :| e in left;
        if (positive && decoded[e] > 0) || (!positive && decoded[e] < 0) { out := out + [e]; }
        left := left - {e};
      }
    }

    method Added() returns (out: seq<Element>)
      ensures forall e :: e in out <==> e in AddedOf(State())
      ensures forall i, j :: 0 <= i < j < |out| ==> out[i] != out[j]
    {
      out := WithDirection(true);
    }

    method Removed() returns (out: seq<Element>)
      ensures forall e :: e in out <==> e in RemovedOf(State())
      ensures forall i, j :: 0 <= i < j < |out| ==> out[i] != out[j]
    {
      out := WithDirection(false);
    }
  }

  lemma PeelShrinks(h: Hashing, s: Peeler, j: nat)
    requires j < |s.diff| && Peelable(h, s, j)
    ensures AllOf(32) - PeelAt(h, s, j).decoded.Keys < AllOf(32) - s.decoded.Keys
  {
    AllOfHolds(s.diff[j].data, 32);
    assert s.diff[j].data in AllOf(32) - s.decoded.Keys;
  }

  lemma TakeOne(r: Symbol, x: Symbol, rest: Symbol)
    ensures Plus(r, Plus(x, rest)) == Plus(Plus(r, x), rest)
    ensures Minus(r, Plus(x, rest)) == Minus(Minus(r, x), rest)
  {
    PlusAssoc(r, x, rest);
    hide Plus, Minus, Negate;
    NegateLaws(r, Plus(x, rest));
    NegateLaws(r, x);
    NegateLaws(x, rest);
    NegateLaws(Minus(r, x), rest);
    PlusAssoc(r, Negate(x), Negate(rest));
  }
}
