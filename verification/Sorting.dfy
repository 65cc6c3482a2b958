/** The stable sort of records by RecordKey (sort.SliceStable), given as insertion sort and
    pinned down by its properties: sorted, same records, equal keys in input order. */
module Sorting {
  import opened Bytes
  import opened Collections
  import opened Records

  ghost predicate Sorted(rs: seq<Record>) {
    forall i, j :: 0 <= i < j < |rs| ==> KeyLeq(rs[i], rs[j])
  }

  function Insert(r: Record, rs: seq<Record>): seq<Record> {
    if rs == [] then [r]
    else if KeyLeq(r, rs[0]) then [r] + rs
    else [rs[0]] + Insert(r, rs[1..])
  }

  function StableSort(rs: seq<Record>): seq<Record> {
    if rs == [] then [] else Insert(rs[0], StableSort(rs[1..]))
  }

  lemma {:induction false} InsertPermutes(r: Record, rs: seq<Record>)
    ensures multiset(Insert(r, rs)) == multiset{r} + multiset(rs)
    decreases rs
  {
    if rs != [] {
      assert rs == [rs[0]] + rs[1..];
      if !KeyLeq(r, rs[0]) { InsertPermutes(r, rs[1..]); }
    }
  }

  /** Sorting neither loses, adds nor changes records. */
  lemma {:induction false} StableSortPermutes(rs: seq<Record>)
    ensures multiset(StableSort(rs)) == multiset(rs)
    ensures |StableSort(rs)| == |rs|
    ensures forall r :: r in StableSort(rs) <==> r in rs
    decreases rs
  {
    if rs != [] {
      StableSortPermutes(rs[1..]);
      InsertPermutes(rs[0], StableSort(rs[1..]));
      assert rs == [rs[0]] + rs[1..];
    }
    SameElements(StableSort(rs), rs);
  }

  lemma StableSortLength(rs: seq<Record>)
    ensures |StableSort(rs)| == |rs|
  {
    StableSortPermutes(rs);
  }

  lemma KeyLeqTotal(a: Record, b: Record)
    ensures KeyLeq(a, b) || KeyLeq(b, a)
  {
    CompareSwap(RecordKey(a), RecordKey(b));
  }

  lemma KeyLeqTrans(a: Record, b: Record, c: Record)
    requires KeyLeq(a, b) && KeyLeq(b, c)
    ensures KeyLeq(a, c)
  {
    CompareTrans(RecordKey(a), RecordKey(b), RecordKey(c));
  }

  lemma {:induction false} InsertSorted(r: Record, rs: seq<Record>)
    requires Sorted(rs)
    ensures Sorted(Insert(r, rs))
    decreases rs
  {
    if rs == [] {
    } else if KeyLeq(r, rs[0]) {
      forall j | 0 <= j < |rs| ensures KeyLeq(r, rs[j]) {
        if j > 0 { KeyLeqTrans(r, rs[0], rs[j]); }
      }
    } else {
      KeyLeqTotal(r, rs[0]);
      InsertSorted(r, rs[1..]);
      var tail := Insert(r, rs[1..]);
      InsertPermutes(r, rs[1..]);
      forall x | x in tail ensures KeyLeq(rs[0], x) {
        assert x in multiset(tail);
        assert x == r || x in rs[1..];
      }
    }
  }

  lemma {:induction false} StableSortSorted(rs: seq<Record>)
    ensures Sorted(StableSort(rs))
    decreases rs
  {
    if rs != [] {
      StableSortSorted(rs[1..]);
      InsertSorted(rs[0], StableSort(rs[1..]));
    }
  }

  /** The records with one key, in order. */
  function WithKey(rs: seq<Record>, k: bytes): seq<Record> {
    if rs == [] then []
    else if RecordKey(rs[0]) == k then [rs[0]] + WithKey(rs[1..], k)
    else WithKey(rs[1..], k)
  }

  lemma {:induction false} InsertStable(r: Record, rs: seq<Record>, k: bytes)
    ensures WithKey(Insert(r, rs), k) == WithKey([r] + rs, k)
    decreases rs
  {
    assert ([r] + rs)[1..] == rs;
    if rs != [] && !KeyLeq(r, rs[0]) {
      var rest := Insert(r, rs[1..]);
      InsertStable(r, rs[1..], k);
      assert ([r] + rs[1..])[1..] == rs[1..];
      assert ([rs[0]] + rest)[1..] == rest;
      CompareRefl(RecordKey(r));
    }
  }

  /** Records with equal keys keep their input order. */
  lemma {:induction false} StableSortStable(rs: seq<Record>, k: bytes)
    ensures WithKey(StableSort(rs), k) == WithKey(rs, k)
    decreases rs
  {
    if rs != [] {
      StableSortStable(rs[1..], k);
      var s := StableSort(rs[1..]);
      InsertStable(rs[0], s, k);
      assert ([rs[0]] + s)[1..] == s;
    }
  }

  ghost predicate DistinctKeys(rs: seq<Record>) {
    forall i, j :: 0 <= i < j < |rs| ==> RecordKey(rs[i]) != RecordKey(rs[j])
  }

  ghost predicate KeysDetermine(rs: seq<Record>) {
    forall i, j :: 0 <= i < |rs| && 0 <= j < |rs| && RecordKey(rs[i]) == RecordKey(rs[j]) ==> rs[i] == rs[j]
  }

  lemma SortedHeads(a: seq<Record>, b: seq<Record>)
    requires Sorted(a) && Sorted(b) && multiset(a) == multiset(b) && a != [] && KeysDetermine(a)
    ensures b != [] && a[0] == b[0]
  {
    assert a[0] in multiset(b);
    assert b[0] in multiset(a);
    var i :| 0 <= i < |b| && b[i] == a[0];
    var j :| 0 <= j < |a| && a[j] == b[0];
    CompareRefl(RecordKey(a[0]));
    CompareSwap(RecordKey(a[0]), RecordKey(b[0]));
    CompareZero(RecordKey(a[0]), RecordKey(b[0]));
  }

  lemma TailMultiset(a: seq<Record>)
    requires a != []
    ensures multiset(a[1..]) == multiset(a) - multiset{a[0]}
  {
    assert a == [a[0]] + a[1..];
  }

  lemma SortedTail(a: seq<Record>)
    requires a != [] && Sorted(a)
    ensures Sorted(a[1..]) && (KeysDetermine(a) ==> KeysDetermine(a[1..]))
  {
    hide KeyLeq, RecordKey;
  }

  /** Two sorted arrangements of the same records are equal when equal keys mean equal records. */
  lemma {:induction false} SortedUnique(a: seq<Record>, b: seq<Record>)
    requires Sorted(a) && Sorted(b) && multiset(a) == multiset(b)
    requires KeysDetermine(a)
    ensures a == b
    decreases a
  {
    if a == [] {
      assert |multiset(b)| == 0;
    } else {
      SortedHeads(a, b);
      TailMultiset(a);
      TailMultiset(b);
      SortedTail(a);
      SortedTail(b);
      hide Sorted, KeyLeq, RecordKey;
      SortedUnique(a[1..], b[1..]);
      assert a == [a[0]] + a[1..] && b == [b[0]] + b[1..];
    }
  }

  /** With distinct keys the sorted order, and so everything built from it, does not depend on
      the order the records came in. */
  lemma SortOrderIndependent(rs: seq<Record>, ss: seq<Record>)
    requires multiset(rs) == multiset(ss) && DistinctKeys(rs)
    ensures StableSort(rs) == StableSort(ss)
  {
    StableSortSorted(rs);
    StableSortSorted(ss);
    StableSortPermutes(rs);
    StableSortPermutes(ss);
    var s := StableSort(rs);
    forall i, j | 0 <= i < |s| && 0 <= j < |s| && RecordKey(s[i]) == RecordKey(s[j]) ensures s[i] == s[j] {
      assert s[i] in rs && s[j] in rs;
    }
    SortedUnique(StableSort(rs), StableSort(ss));
  }
}
