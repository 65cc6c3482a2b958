/** Facts about sequences, sets and maps that several modules share. */
module Collections {
  ghost predicate Distinct<T>(s: seq<T>) {
    forall i, j :: 0 <= i < j < |s| ==> s[i] != s[j]
  }

  ghost function Elements<T>(s: seq<T>): set<T> {
    set x | x in s
  }

  lemma {:induction false} DistinctSize<T>(s: seq<T>)
    requires Distinct(s)
    ensures |Elements(s)| == |s|
    decreases |s|
  {
    if s != [] {
      var front := s[..|s| - 1];
      DistinctSize(front);
      assert s == front + [s[|s| - 1]];
      assert Elements(s) == Elements(front) + {s[|s| - 1]};
    }
  }

  lemma SubsetSize<T>(a: set<T>, b: set<T>)
    requires a <= b
    ensures |a| <= |b|
  {
    assert b == a + (b - a);
  }

  lemma MapLess<T, U>(m: map<T, U>, k: T)
    requires k in m
    ensures (m - {k}).Keys == m.Keys - {k} && |m - {k}| == |m| - 1
  {
    assert (m - {k}).Keys == m.Keys - {k};
    assert |(m - {k}).Keys| == |m.Keys| - 1;
  }

  lemma MapMore<T, U>(m: map<T, U>, k: T, v: U)
    requires k !in m
    ensures m[k := v].Keys == m.Keys + {k} && |m[k := v]| == |m| + 1
  {
    assert m[k := v].Keys == m.Keys + {k};
    assert |m[k := v].Keys| == |m.Keys| + 1;
  }

  lemma SameElements<T>(a: seq<T>, b: seq<T>)
    requires multiset(a) == multiset(b)
    ensures |a| == |b| && forall x :: x in a <==> x in b
  {
    assert |multiset(a)| == |a| && |multiset(b)| == |b|;
    forall x ensures x in a <==> x in b {
      assert x in a <==> x in multiset(a);
      assert x in b <==> x in multiset(b);
    }
  }

  lemma MultisetAround<T>(front: seq<T>, x: T, back: seq<T>)
    ensures multiset(front + [x] + back) == multiset(front + back) + multiset{x}
  {
  }

  lemma TakenEqually<T>(m: multiset<T>, n: multiset<T>, x: T)
    requires m + multiset{x} == n + multiset{x}
    ensures m == n
  {
    assert m == (m + multiset{x}) - multiset{x};
    assert n == (n + multiset{x}) - multiset{x};
  }

  /** Arrangements of the same elements still are once one occurrence of an element is taken out of each. */
  lemma RemoveOne<T>(a: seq<T>, b: seq<T>, i: nat)
    requires a != [] && multiset(a) == multiset(b) && i < |b| && b[i] == a[0]
    ensures multiset(a[1..]) == multiset(b[..i] + b[i + 1..])
  {
    assert b == b[..i] + [b[i]] + b[i + 1..];
    assert a == [] + [a[0]] + a[1..] && [] + a[1..] == a[1..];
    MultisetAround([], a[0], a[1..]);
    MultisetAround(b[..i], b[i], b[i + 1..]);
    TakenEqually(multiset(a[1..]), multiset(b[..i] + b[i + 1..]), a[0]);
  }

  /** Rearranging distinct elements keeps them distinct. */
  lemma {:induction false} DistinctPermutes<T>(a: seq<T>, b: seq<T>)
    requires Distinct(a) && multiset(a) == multiset(b)
    ensures Distinct(b)
    decreases |a|
  {
    SameElements(a, b);
    if a != [] {
      assert a[0] in b;
      var i :| 0 <= i < |b| && b[i] == a[0];
      var rest := b[..i] + b[i + 1..];
      RemoveOne(a, b, i);
      DistinctPermutes(a[1..], rest);
      SameElements(a[1..], rest);
      assert a[0] !in rest;
      forall j, k | 0 <= j < k < |b| ensures b[j] != b[k] {
        var j', k' := if j < i then j else j - 1, if k < i then k else k - 1;
        if j != i { assert b[j] == rest[j']; }
        if k != i { assert b[k] == rest[k']; }
      }
    }
  }

  // ---- filtering ----

  /** out is what a filter by p keeps of s: everything that satisfies p, in order, as often as it occurs. */
  ghost predicate Filters<T>(s: seq<T>, p: T -> bool, out: seq<T>) {
    exists idx: seq<nat> :: FiltersAt(s, p, out, idx)
  }

  /** ... where out comes from the positions idx, the increasing list of all that satisfy p. */
  ghost predicate FiltersAt<T>(s: seq<T>, p: T -> bool, out: seq<T>, idx: seq<nat>) {
    && |idx| == |out|
    && (forall k :: 0 <= k < |idx| ==> idx[k] < |s| && s[idx[k]] == out[k])
    && (forall j, k :: 0 <= j < k < |idx| ==> idx[j] < idx[k])
    && (forall i: nat :: i in idx <==> i < |s| && p(s[i]))
  }

  function In<T>(s: set<T>): T -> bool {
    x => x in s
  }

  lemma FiltersNothing<T>(p: T -> bool)
    ensures Filters([], p, [])
  {
    assert FiltersAt([], p, [], []);
  }

  /** One more element at the end. */
  lemma FiltersMore<T>(s: seq<T>, p: T -> bool, out: seq<T>, x: T)
    requires Filters(s, p, out)
    ensures Filters(s + [x], p, if p(x) then out + [x] else out)
  {
    var idx :| FiltersAt(s, p, out, idx);
    if p(x) {
      FiltersLast(s, p, out, idx, x);
    } else {
      FiltersSkip(s, p, out, idx, x);
    }
  }

  lemma FiltersLast<T>(s: seq<T>, p: T -> bool, out: seq<T>, idx: seq<nat>, x: T)
    requires FiltersAt(s, p, out, idx) && p(x)
    ensures FiltersAt(s + [x], p, out + [x], idx + [|s|])
  {
    forall i: nat ensures i in idx + [|s|] <==> i < |s + [x]| && p((s + [x])[i]) {
      if i < |s| { assert (s + [x])[i] == s[i]; }
    }
    forall k | 0 <= k < |idx| ensures idx[k] < |s| {
      assert idx[k] in idx;
    }
  }

  lemma FiltersSkip<T>(s: seq<T>, p: T -> bool, out: seq<T>, idx: seq<nat>, x: T)
    requires FiltersAt(s, p, out, idx) && !p(x)
    ensures FiltersAt(s + [x], p, out, idx)
  {
    forall i: nat ensures i in idx <==> i < |s + [x]| && p((s + [x])[i]) {
      if i < |s| { assert (s + [x])[i] == s[i]; }
    }
  }

  /** The members of a filtered list. */
  lemma FiltersMembers<T>(s: seq<T>, p: T -> bool, out: seq<T>, x: T)
    requires Filters(s, p, out)
    ensures x in out <==> x in s && p(x)
  {
    var idx :| FiltersAt(s, p, out, idx);
    if x in out {
      var k :| 0 <= k < |out| && out[k] == x;
      assert idx[k] in idx;
    }
    if x in s && p(x) {
      var i :| 0 <= i < |s| && s[i] == x;
      assert i in idx;
      var k :| 0 <= k < |idx| && idx[k] == i;
    }
  }
}
