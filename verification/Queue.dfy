/** The promotion pass of the download queue (internal/engine/queue.go) over a small abstract torrent. */
module Queue {
  import opened Collections

  datatype Priority = Off | Normal | Higher

  /** A handle and its torrent: the queue flags and order, and of the torrent whether its info is known, what is
      missing, whether data may flow, and the file priorities. */
  datatype Torrent = Torrent(paused: bool, queued: bool, order: int, hasInfo: bool, bytesMissing: int,
                             dataAllowed: bool, priorities: seq<Priority>)

  type Id = nat

  predicate IsActive(t: Torrent) {
    !t.paused && !t.queued
      && (!t.hasInfo || (t.bytesMissing > 0 && exists i :: 0 <= i < |t.priorities| && t.priorities[i] != Off))
  }

  predicate Eligible(t: Torrent) {
    t.queued && !t.paused
  }

  function AllNormal(n: nat): (r: seq<Priority>)
    ensures |r| == n
  {
    seq(n, _ => Normal)
  }

  function Activated(t: Torrent): Torrent {
    if t.paused then t
    else t.(dataAllowed := true, queued := false,
      priorities := if t.hasInfo then AllNormal(|t.priorities|) else t.priorities)
  }

  ghost function ActiveIds(ts: map<Id, Torrent>): set<Id> {
    set id | id in ts && IsActive(ts[id])
  }

  /** ids are the engine's handles in queue order; ties in either order. */
  ghost predicate InQueueOrder(ts: map<Id, Torrent>, ids: seq<Id>) {
    && Distinct(ids) && (forall id :: id in ids <==> id in ts)
    && forall i, j :: 0 <= i < j < |ids| ==> ts[ids[i]].order <= ts[ids[j]].order
  }

  /** A promotion pass activated some eligible torrents and touched nothing else. */
  ghost predicate Promoted(before: map<Id, Torrent>, after: map<Id, Torrent>) {
    && after.Keys == before.Keys
    && forall id :: id in before ==>
         after[id] == before[id] || (Eligible(before[id]) && after[id] == Activated(before[id]))
  }

  class Engine {
    var torrents: map<Id, Torrent>
    var maxActiveDownloads: nat

    method CountActive() returns (n: nat)
      ensures n == |ActiveIds(torrents)|
    {
      n := 0;
      var left := torrents.Keys;
      ghost var counted: set<Id> := {};
      while left != {}
        invariant left <= torrents.Keys && n == |counted|
        invariant forall id :: id in counted <==> id in torrents && id !in left && IsActive(torrents[id])
        decreases |left|
      {
        var id :| id in left;
        left := left - {id};
        if IsActive(torrents[id]) { n, counted := n + 1, counted + {id}; }
      }
      assert counted == ActiveIds(torrents);
    }

    /** e.Torrents() in queue order. */
    method SortedHandles() returns (ids: seq<Id>)
      ensures InQueueOrder(torrents, ids)
    {
      ids := [];
      var left := torrents.Keys;
      while left != {}
        invariant left <= torrents.Keys && Distinct(ids)
        invariant forall id :: id in ids <==> id in torrents && id !in left
        invariant forall i, j :: 0 <= i < j < |ids| ==> torrents[ids[i]].order <= torrents[ids[j]].order
        decreases |left|
      {
        var id :| id in left;
        left := left - {id};
        var k := 0;
        while k < |ids| && torrents[ids[k]].order <= torrents[id].order
          invariant 0 <= k <= |ids| && forall i :: 0 <= i < k ==> torrents[ids[i]].order <= torrents[id].order
        {
          k := k + 1;
        }
        SlippedIn(torrents, ids, k, id);
        ids := ids[..k] + [id] + ids[k..];
      }
    }

    /** Promote queued torrents in queue order while slots are free (all of them when there is no cap): from a fixed
        state the pass activates eligible torrents only, never takes the active count above max(previous, cap), passes
        over no eligible torrent in favour of a later one, and leaves an eligible torrent queued only when the cap is
        reached. */
    method PromoteQueued()
      modifies this`torrents
      ensures Promoted(old(torrents), torrents)
      ensures forall id :: id in torrents && torrents[id] != old(torrents)[id] ==>
                && old(torrents)[id].queued && !torrents[id].queued && !torrents[id].paused && torrents[id].dataAllowed
                && torrents[id] == old(torrents)[id].(queued := false, dataAllowed := true,
                                                      priorities := torrents[id].priorities)
                && (if torrents[id].hasInfo then
                      |torrents[id].priorities| == |old(torrents)[id].priorities| &&
                      forall i :: 0 <= i < |torrents[id].priorities| ==> torrents[id].priorities[i] == Normal
                    else torrents[id].priorities == old(torrents)[id].priorities)
      ensures maxActiveDownloads > 0 ==>
                |ActiveIds(torrents)| <= if |ActiveIds(old(torrents))| > maxActiveDownloads
                  then |ActiveIds(old(torrents))| else maxActiveDownloads
      ensures forall a, b :: a in torrents && b in torrents && torrents[a].order < torrents[b].order ==>
                !Eligible(torrents[a]) || torrents[b] == old(torrents)[b]
      ensures forall id :: id in torrents && Eligible(torrents[id]) ==>
                maxActiveDownloads > 0 && |ActiveIds(torrents)| >= maxActiveDownloads
    {
      hide Activated, IsActive;
      ghost var was := torrents;
      var handles := SortedHandles();
      var unlimited := maxActiveDownloads == 0;
      var active := CountActive();
      ghost var started := active;
      var i := 0;
      while i < |handles| && (unlimited || active < maxActiveDownloads)
        invariant 0 <= i <= |handles| && InQueueOrder(was, handles)
        invariant Promoted(was, torrents) && active == |ActiveIds(torrents)|
        invariant !unlimited ==> active <= if started > maxActiveDownloads then started else maxActiveDownloads
        invariant forall k :: 0 <= k < i ==> torrents[handles[k]] == PassedOver(was[handles[k]])
        invariant forall k :: i <= k < |handles| ==> torrents[handles[k]] == was[handles[k]]
      {
        var id := handles[i];
        assert id in handles;
        ghost var before := torrents;
        if torrents[id].queued && !torrents[id].paused {
          ActivateCounts(torrents, id);
          torrents := torrents[id := Activated(torrents[id])];
          if IsActive(torrents[id]) { active := active + 1; }
        }
        assert torrents == before[id := PassedOver(before[id])];
        i := i + 1;
      }
      EndOfPass(was, torrents, handles, i);
      forall id | id in torrents && torrents[id] != was[id] ensures Promotes(was[id], torrents[id]) {
        assert id in handles;
        ActivatedMeans(was[id]);
      }
    }
  }

  lemma SlippedIn(ts: map<Id, Torrent>, ids: seq<Id>, k: nat, id: Id)
    requires id in ts && (forall x :: x in ids ==> x in ts) && Distinct(ids) && id !in ids && k <= |ids|
    requires forall i, j :: 0 <= i < j < |ids| ==> ts[ids[i]].order <= ts[ids[j]].order
    requires forall i :: 0 <= i < k ==> ts[ids[i]].order <= ts[id].order
    requires k < |ids| ==> ts[ids[k]].order > ts[id].order
    ensures var more := ids[..k] + [id] + ids[k..];
            Distinct(more) && (forall x :: x in more <==> x == id || x in ids)
            && forall i, j :: 0 <= i < j < |more| ==> ts[more[i]].order <= ts[more[j]].order
  {
    InsertedAt(ids, k, id);
    var more := ids[..k] + [id] + ids[k..];
    forall i, j | 0 <= i < j < |more| ensures more[i] != more[j] && ts[more[i]].order <= ts[more[j]].order {
      InsertedAtIs(ids, k, id, i);
      InsertedAtIs(ids, k, id, j);
      assert j != k ==> more[j] in ids;
      assert i != k ==> more[i] in ids;
    }
  }

  lemma InsertedAt(ids: seq<Id>, k: nat, id: Id)
    requires k <= |ids|
    ensures forall x :: x in ids[..k] + [id] + ids[k..] <==> x == id || x in ids
  {
    assert ids == ids[..k] + ids[k..];
  }

  lemma InsertedAtIs(ids: seq<Id>, k: nat, id: Id, i: nat)
    requires k <= |ids| && i <= |ids|
    ensures (ids[..k] + [id] + ids[k..])[i] == if i < k then ids[i] else if i == k then id else ids[i - 1]
  {
  }

  /** A queued torrent that is let go: data may flow and, its info known, all its files are wanted; nothing else
      changes. */
  ghost predicate Promotes(before: Torrent, after: Torrent) {
    && before.queued && !after.queued && !after.paused && after.dataAllowed
    && after == before.(queued := false, dataAllowed := true, priorities := after.priorities)
    && (if after.hasInfo then
          |after.priorities| == |before.priorities| &&
           forall i :: 0 <= i < |after.priorities| ==> after.priorities[i] == Normal
        else after.priorities == before.priorities)
  }

  lemma ActivatedMeans(t: Torrent)
    ensures Eligible(t) ==> Promotes(t, Activated(t))
  {
  }

  /** A torrent is active exactly when it is neither paused nor queued, and its info is still unknown or it has bytes
      missing and a file that is wanted. */
  lemma ActiveMeans(ts: map<Id, Torrent>, id: Id)
    requires id in ts
    ensures var t := ts[id];
            id in ActiveIds(ts) <==>
              !t.paused && !t.queued && (t.hasInfo ==> t.bytesMissing > 0 && exists p :: p in t.priorities && p != Off)
  {
    var t := ts[id];
    if p :| p in t.priorities && p != Off {
      var i :| 0 <= i < |t.priorities| && t.priorities[i] == p;
    }
    if i :| 0 <= i < |t.priorities| && t.priorities[i] != Off { assert t.priorities[i] in t.priorities; }
  }

  /** What the pass does to a torrent it reaches. */
  function PassedOver(t: Torrent): Torrent {
    if Eligible(t) then Activated(t) else t
  }

  lemma ActivatedDequeues(t: Torrent)
    ensures Eligible(t) ==> !Eligible(Activated(t)) && !IsActive(t)
    ensures Activated(t).order == t.order
  {
  }

  /** Activating a queued torrent adds it to the active ones exactly if it takes a slot. */
  lemma ActivateCounts(ts: map<Id, Torrent>, id: Id)
    requires id in ts && Eligible(ts[id])
    ensures |ActiveIds(ts[id := Activated(ts[id])])| == |ActiveIds(ts)| + if IsActive(Activated(ts[id])) then 1 else 0
  {
    hide Activated, IsActive;
    ActivatedDequeues(ts[id]);
    var after := ts[id := Activated(ts[id])];
    if IsActive(Activated(ts[id])) {
      assert ActiveIds(after) == ActiveIds(ts) + {id};
    } else {
      assert ActiveIds(after) == ActiveIds(ts);
    }
  }

  /** At the end of the pass: whoever is still eligible was not reached, and nobody after it in queue order was. */
  lemma EndOfPass(was: map<Id, Torrent>, now: map<Id, Torrent>, handles: seq<Id>, i: nat)
    requires InQueueOrder(was, handles) && i <= |handles| && now.Keys == was.Keys
    requires forall k :: 0 <= k < i ==> now[handles[k]] == PassedOver(was[handles[k]])
    requires forall k :: i <= k < |handles| ==> now[handles[k]] == was[handles[k]]
    ensures forall id :: id in now && Eligible(now[id]) ==> i < |handles|
    ensures forall a, b :: a in now && b in now && now[a].order < now[b].order && Eligible(now[a]) ==> now[b] == was[b]
  {
    hide Activated, IsActive;
    forall id | id in now ensures now[id].order == was[id].order {
      var k :| 0 <= k < |handles| && handles[k] == id;
      ActivatedDequeues(was[id]);
    }
    forall id | id in now && Eligible(now[id]) ensures exists k :: i <= k < |handles| && handles[k] == id {
      assert id in handles;
      var k :| 0 <= k < |handles| && handles[k] == id;
      ActivatedDequeues(was[id]);
    }
    forall a, b | a in now && b in now && now[a].order < now[b].order && Eligible(now[a]) ensures now[b] == was[b] {
      var k :| i <= k < |handles| && handles[k] == a;
      assert b in handles;
      var m :| 0 <= m < |handles| && handles[m] == b;
    }
  }
}
