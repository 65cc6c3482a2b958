/** The in-memory store of signed records that sync reads from and writes to (internal/swarmsearch/records.go). */
module Cache {
  import opened Collections
  import opened Records
  import opened Symbols
  import opened Sync

  /** Records by id, the FIFO of ids (which may hold stale ones), and the cap, 0 for none. */
  datatype Store = Store(m: map<Element, Record>, order: seq<Element>, max: nat)

  /** Drop ids from the front until a live one has been evicted. */
  function Evict(s: Store): Store
    decreases |s.order|
  {
    if s.order == [] then s
    else if s.order[0] in s.m then Store(s.m - {s.order[0]}, s.order[1..], s.max)
    else Evict(Store(s.m, s.order[1..], s.max))
  }

  function Insert(c: Crypto, s: Store, r: Record): Store {
    var id := ElementID(c, r);
    if id in s.m then s.(m := s.m[id := r])
    else
      var room := if s.max > 0 && |s.m| >= s.max then Evict(s) else s;
      room.(m := room.m[id := r], order := room.order + [id])
  }

  /** Every record is stored under its own id, and every live id is in the FIFO. */
  ghost predicate Filed(c: Crypto, s: Store) {
    && (forall id :: id in s.m ==> ElementID(c, s.m[id]) == id)
    && (forall id :: id in s.m ==> id in s.order)
  }

  ghost predicate WithinCap(s: Store) {
    s.max > 0 ==> |s.m| <= s.max
  }

  /** The position of the oldest live id. */
  function Oldest(m: map<Element, Record>, order: seq<Element>): (i: nat)
    ensures i <= |order| && (i < |order| ==> order[i] in m) && forall j :: 0 <= j < i ==> order[j] !in m
  {
    if order == [] then 0 else if order[0] in m then 0 else 1 + Oldest(m, order[1..])
  }

  lemma {:induction false} EvictAt(s: Store)
    ensures var i := Oldest(s.m, s.order);
            Evict(s) == if i == |s.order| then s.(order := []) else Store(s.m - {s.order[i]}, s.order[i + 1..], s.max)
    decreases |s.order|
  {
    if s.order != [] && s.order[0] !in s.m {
      EvictAt(Store(s.m, s.order[1..], s.max));
      assert s.order[1..][Oldest(s.m, s.order[1..])..] == s.order[1 + Oldest(s.m, s.order[1..])..];
    }
  }

  /** Eviction removes exactly one record, the oldest live one. */
  lemma EvictOldest(c: Crypto, s: Store)
    requires Filed(c, s) && s.m != map[]
    ensures var i := Oldest(s.m, s.order);
            i < |s.order| && Evict(s).m == s.m - {s.order[i]} && |Evict(s).m| == |s.m| - 1
    ensures Filed(c, Evict(s)) && Evict(s).max == s.max
  {
    hide ElementID, Evict;
    var i := Oldest(s.m, s.order);
    var id :| id in s.m;
    assert id in s.order;
    EvictAt(s);
    MapLess(s.m, s.order[i]);
    StillOrdered(s.m, s.order, i);
  }

  lemma StillOrdered(m: map<Element, Record>, order: seq<Element>, i: nat)
    requires i < |order| && (forall id :: id in m ==> id in order) && forall j :: 0 <= j < i ==> order[j] !in m
    ensures forall id :: id in m - {order[i]} ==> id in order[i + 1..]
  {
    forall id | id in m && id != order[i] ensures id in order[i + 1..] {
      var j :| 0 <= j < |order| && order[j] == id;
      assert order[i + 1..][j - i - 1] == id;
    }
  }

  lemma FiledMore(c: Crypto, s: Store, id: Element, r: Record)
    requires Filed(c, s) && id !in s.m && ElementID(c, r) == id && (s.max > 0 ==> |s.m| < s.max)
    ensures var s' := s.(m := s.m[id := r], order := s.order + [id]);
            Filed(c, s') && WithinCap(s')
  {
    hide ElementID;
    MapMore(s.m, id, r);
  }

  lemma FiledAgain(c: Crypto, s: Store, id: Element, r: Record)
    requires Filed(c, s) && WithinCap(s) && id in s.m && ElementID(c, r) == id
    ensures var s' := s.(m := s.m[id := r]);
            Filed(c, s') && WithinCap(s')
  {
    hide ElementID;
    assert s.m[id := r].Keys == s.m.Keys;
  }

  /** Adding overwrites in place where the id is stored; otherwise the id goes to the end of the FIFO, and what leaves
      is nothing below the cap and the oldest live record at it. */
  lemma InsertExactly(c: Crypto, s: Store, r: Record)
    requires Filed(c, s) && WithinCap(s)
    ensures var s', id := Insert(c, s, r), ElementID(c, r);
            && (id in s.m ==> s' == s.(m := s.m[id := r]))
            && (id !in s.m && (s.max == 0 || |s.m| < s.max) ==>
                  s' == Store(s.m[id := r], s.order + [id], s.max))
            && (id !in s.m && s.max > 0 && |s.m| == s.max ==>
                  var i := Oldest(s.m, s.order);
                  i < |s.order| && s' == Store((s.m - {s.order[i]})[id := r], s.order[i + 1..] + [id], s.max))
  {
    hide ElementID;
    EvictAt(s);
    if s.max > 0 && |s.m| == s.max { EvictOldest(c, s); }
  }

  /** Adding stores the record under its id, keeps the filing and never exceeds the cap. */
  lemma InsertKeeps(c: Crypto, s: Store, r: Record)
    requires Filed(c, s) && WithinCap(s)
    ensures var s' := Insert(c, s, r);
            Filed(c, s') && WithinCap(s') && s'.max == s.max && ElementID(c, r) in s'.m && s'.m[ElementID(c, r)] == r
  {
    hide ElementID, Evict, Filed;
    var id := ElementID(c, r);
    if id in s.m {
      FiledAgain(c, s, id, r);
    } else if s.max > 0 && |s.m| >= s.max {
      EvictOldest(c, s);
      FiledMore(c, Evict(s), id, r);
    } else {
      FiledMore(c, s, id, r);
    }
  }

  /** An uncapped store only grows. */
  lemma InsertUncapped(c: Crypto, s: Store, r: Record)
    requires s.max == 0
    ensures Insert(c, s, r).m == s.m[ElementID(c, r) := r] && Insert(c, s, r).max == 0
  {
  }

  predicate MatchesFilter(r: Record, f: SyncFilter) {
    && (f.pubkeys == [] || r.pk in f.pubkeys)
    && (f.since > 0 ==> r.t >= f.since)
    && f.prefix <= r.kw
  }

  class RecordCache {
    const c: Crypto
    var m: map<Element, Record>
    var order: seq<Element>
    var max: nat

    function State(): Store
      reads this
    {
      Store(m, order, max)
    }

    constructor (c: Crypto)
      ensures this.c == c && State() == Store(map[], [], 0)
    {
      this.c, m, order, max := c, map[], [], 0;
    }

    method Add(r: Record)
      modifies this`m, this`order
      ensures State() == Insert(c, old(State()), r)
    {
      hide Evict, ElementID;
      var id := ElementID(c, r);
      if id in m {
        m := m[id := r];
        return;
      }
      if max > 0 && |m| >= max { EvictHead(); }
      m := m[id := r];
      order := order + [id];
    }

    method EvictHead()
      modifies this`m, this`order
      ensures State() == Evict(old(State()))
    {
      while |order| > 0
        invariant Evict(State()) == Evict(old(State())) && max == old(max)
        decreases |order|
      {
        var head := order[0];
        order := order[1..];
        if head in m {
          m := m - {head};
          return;
        }
      }
    }

    method Remove(id: Element)
      modifies this`m
      ensures State() == old(State()).(m := old(m) - {id})
    {
      m := m - {id};
    }

    /** Drop the records older than the cutoff, then compact the FIFO. */
    method PruneOlderThan(cutoff: Int64) returns (n: nat)
      modifies this`m, this`order
      ensures m == map id | id in old(m) && old(m)[id].t >= cutoff :: old(m)[id]
      ensures n == |old(m)| - |m|
      ensures n == 0 ==> order == old(order)
      ensures n > 0 ==> Filters(old(order), In(m.Keys), order)
      ensures old(Filed(c, State())) ==> Filed(c, State())
    {
      ghost var was := m;
      var left := m.Keys;
      n := 0;
      while left != {}
        invariant left <= was.Keys && left <= m.Keys && n == |was| - |m| && m.Keys <= was.Keys
        invariant forall id :: id in m ==> m[id] == was[id]
        invariant forall id :: id in was && id !in left ==> (id in m <==> was[id].t >= cutoff)
        invariant order == old(order)
        decreases |left|
      {
        var id :| id in left;
        left := left - {id};
        if m[id].t < cutoff {
          MapLess(m, id);
          m := m - {id};
          n := n + 1;
        }
      }
      if n > 0 { Compact(); }
    }

    /** The live ids of the FIFO, in order. */
    method Compact()
      modifies this`order
      ensures Filters(old(order), In(m.Keys), order)
      ensures forall id :: id in old(order) && id in m ==> id in order
    {
      ghost var isLive := In(m.Keys);
      var kept: seq<Element> := [];
      FiltersNothing(isLive);
      for i := 0 to |order|
        invariant order == old(order) && m == old(m) && Filters(order[..i], isLive, kept)
      {
        assert order[..i + 1] == order[..i] + [order[i]];
        FiltersMore(order[..i], isLive, kept, order[i]);
        if order[i] in m { kept := kept + [order[i]]; }
      }
      assert order[..|order|] == order;
      forall id | id in order && id in m ensures id in kept {
        FiltersMembers(order, isLive, kept, id);
      }
      order := kept;
    }

    /** The matching records, in the arbitrary order of a map range. */
    method LocalRecords(f: SyncFilter) returns (out: seq<Record>, ghost ids: seq<Element>)
      ensures Distinct(ids) && forall id :: id in ids <==>
                id in m && (f.pubkeys == [] || m[id].pk in f.pubkeys) && (f.since <= 0 || m[id].t >= f.since)
                && f.prefix <= m[id].kw
      ensures |out| == |ids| && forall i :: 0 <= i < |ids| ==> ids[i] in m && out[i] == m[ids[i]]
      ensures Filed(c, State()) ==> Distinct(out)
    {
      hide ElementID;
      out, ids := [], [];
      var left := m.Keys;
      while left != {}
        invariant left <= m.Keys && Distinct(ids)
        invariant forall id :: id in ids <==> id in m && id !in left && MatchesFilter(m[id], f)
        invariant |out| == |ids| && forall i :: 0 <= i < |ids| ==> ids[i] in m && out[i] == m[ids[i]]
        decreases |left|
      {
        var id :| id in left;
        left := left - {id};
        if MatchesFilter(m[id], f) { out, ids := out + [m[id]], ids + [id]; }
      }
      if Filed(c, State()) {
        forall i, j | 0 <= i < j < |out| ensures out[i] != out[j] {
          assert ElementID(c, out[i]) == ids[i] && ElementID(c, out[j]) == ids[j];
        }
      }
    }
  }
}
