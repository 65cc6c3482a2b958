/** The bounded crawl (internal/dhtindex/crawler.go): the two gated operations on shared state, and every interleaving
    of concurrent visits as runs of a step relation. */
module Crawler {
  import opened Wrappers
  import opened Collections
  import opened Bytes
  import opened Records

  type Addr = bytes
  type Infohash = Bytes20

  const NO_ADDR: Addr := []

  /** What a node answers to a sample query; an unusable neighbour has the empty address. */
  datatype Reply = Reply(samples: seq<Infohash>, nodes: seq<Addr>)

  /** The bounds of a crawl, and the reply of every node (None where the query fails). */
  datatype Setting = Setting(workers: nat, maxFrontier: nat, maxInfohashes: nat, answers: Addr -> Option<Reply>)

  predicate TargetMet(maxInfohashes: nat, seen: set<Infohash>) {
    maxInfohashes > 0 && |seen| >= maxInfohashes
  }

  predicate Admits(maxFrontier: nat, maxInfohashes: nat, queued: set<Addr>, seen: set<Infohash>, key: Addr) {
    key != NO_ADDR && !TargetMet(maxInfohashes, seen) && |queued| < maxFrontier && key !in queued
  }

  // ---- interleavings ----

  /** A visit in a worker slot: its query is out, or its node has answered and it still has this to emit and to
      expand. */
  datatype Visit = Asking | Answered(samples: seq<Infohash>, nodes: seq<Addr>)

  /** Seeds not yet considered, visits spawned but not begun, visits under way, the shared sets, the addresses sampled
      in order, what the sink saw in order, visits given up on cancellation, the numbers of answered and failed queries,
      and whether a bound ever turned a new address away. */
  datatype Crawl = Crawl(
    seeds: seq<Addr>, waiting: set<Addr>, running: map<Addr, Visit>, queued: set<Addr>, seen: set<Infohash>,
    visited: seq<Addr>, sink: seq<Infohash>, abandoned: set<Addr>, sampled: nat,
    errored: nat, cancelled: bool, limited: bool)

  datatype Action =
    | TakeSeed          // CrawlOnce considers the next seed
    | Begin(a: Addr)    // a spawned visit gets a worker slot and queries its node
    | Answer(a: Addr)   // the query returns what the node answers, or fails
    | CutOff(a: Addr)   // the cancellation fails a query that is out
    | EmitNext(a: Addr)
    | ExpandNext(a: Addr)
    | End(a: Addr)
    | Abandon(a: Addr)  // a spawned visit sees the cancellation first
    | Cancel

  function Initial(seeds: seq<Addr>): Crawl {
    Crawl(seeds, {}, map[], {}, {}, [], [], {}, 0, 0, false, false)
  }

  predicate Enabled(p: Setting, s: Crawl, act: Action) {
    match act
    case TakeSeed => s.seeds != []
    case Begin(a) => a in s.waiting && |s.running| < p.workers
    case Answer(a) => a in s.running && s.running[a].Asking?
    case CutOff(a) => a in s.running && s.running[a].Asking? && s.cancelled
    case EmitNext(a) => a in s.running && s.running[a].Answered? && s.running[a].samples != []
    case ExpandNext(a) => a in s.running && s.running[a].Answered? && s.running[a].samples == []
      && s.running[a].nodes != []
    case End(a) => a in s.running && s.running[a] == Answered([], [])
    case Abandon(a) => a in s.waiting && s.cancelled
    case Cancel => true
  }

  /** tryEnqueue, and the spawn on success. */
  function Enqueue(p: Setting, s: Crawl, key: Addr): Crawl {
    if Admits(p.maxFrontier, p.maxInfohashes, s.queued, s.seen, key)
    then s.(queued := s.queued + {key}, waiting := s.waiting + {key})
    else s.(limited := s.limited || (key != NO_ADDR && key !in s.queued))
  }

  function EmitTo(p: Setting, s: Crawl, ih: Infohash): Crawl {
    if ih in s.seen || TargetMet(p.maxInfohashes, s.seen) then s
    else s.(seen := s.seen + {ih}, sink := s.sink + [ih])
  }

  function Do(p: Setting, s: Crawl, act: Action): Crawl
    requires Enabled(p, s, act)
  {
    match act
    case TakeSeed => Enqueue(p, s.(seeds := s.seeds[1..]), s.seeds[0])
    case Begin(a) => s.(waiting := s.waiting - {a}, visited := s.visited + [a], running := s.running[a := Asking])
    case Answer(a) =>
      (match p.answers(a)
       case None => s.(running := s.running - {a}, errored := s.errored + 1)
       case Some(reply) =>
         s.(running := s.running[a := Answered(reply.samples, reply.nodes)], sampled := s.sampled + 1))
    case CutOff(a) => s.(running := s.running - {a}, errored := s.errored + 1)
    case EmitNext(a) =>
      var v := s.running[a];
      EmitTo(p, s.(running := s.running[a := v.(samples := v.samples[1..])]), v.samples[0])
    case ExpandNext(a) =>
      var v := s.running[a];
      Enqueue(p, s.(running := s.running[a := v.(nodes := v.nodes[1..])]), v.nodes[0])
    case End(a) => s.(running := s.running - {a})
    case Abandon(a) => s.(waiting := s.waiting - {a}, abandoned := s.abandoned + {a})
    case Cancel => s.(cancelled := true)
  }

  /** The crawl after these actions, skipping any that are not enabled in their turn. */
  function Crawled(p: Setting, seeds: seq<Addr>, acts: seq<Action>): Crawl {
    if acts == [] then Initial(seeds)
    else
      var before := Crawled(p, seeds, acts[..|acts| - 1]);
      if Enabled(p, before, acts[|acts| - 1]) then Do(p, before, acts[|acts| - 1]) else before
  }

  /** Nothing left to do: CrawlOnce returns. */
  predicate Finished(s: Crawl) {
    s.seeds == [] && s.waiting == {} && s.running == map[]
  }

  /** The shared state of a crawl, in the source's form. */
  class Crawler {
    const maxFrontier: nat
    const maxInfohashes: nat
    var queued: set<Addr>
    var seenIH: set<Infohash>

    /** The fields are those of this crawl under these bounds. */
    ghost predicate Mirrors(p: Setting, s: Crawl)
      reads this
    {
      p.maxFrontier == maxFrontier && p.maxInfohashes == maxInfohashes && s.queued == queued && s.seen == seenIH
    }

    constructor (maxFrontier: nat, maxInfohashes: nat)
      ensures queued == {} && seenIH == {} && this.maxFrontier == maxFrontier && this.maxInfohashes == maxInfohashes
    {
      this.maxFrontier, this.maxInfohashes, queued, seenIH := maxFrontier, maxInfohashes, {}, {};
    }

    /** Admits a new usable address below both bounds: exactly then a visit is spawned. */
    method TryEnqueue(key: Addr, ghost p: Setting, ghost s: Crawl) returns (ok: bool)
      requires Mirrors(p, s)
      modifies this`queued
      ensures ok <==> key != NO_ADDR && key !in old(queued) && |old(queued)| < maxFrontier &&
                      (maxInfohashes == 0 || |seenIH| < maxInfohashes)
      ensures queued == if ok then old(queued) + {key} else old(queued)
      ensures Mirrors(p, Enqueue(p, s, key))
      ensures Enqueue(p, s, key).waiting == if ok then s.waiting + {key} else s.waiting
    {
      if key == NO_ADDR { return false; }
      if maxInfohashes > 0 && |seenIH| >= maxInfohashes { return false; }
      if |queued| >= maxFrontier { return false; }
      if key in queued { return false; }
      queued := queued + {key};
      return true;
    }

    /** Reports whether the infohash goes on to the sink: exactly when it is new and the target is not met. */
    method Emit(ih: Infohash, ghost p: Setting, ghost s: Crawl) returns (isNew: bool)
      requires Mirrors(p, s)
      modifies this`seenIH
      ensures isNew <==> ih !in old(seenIH) && (maxInfohashes == 0 || |old(seenIH)| < maxInfohashes)
      ensures seenIH == if isNew then old(seenIH) + {ih} else old(seenIH)
      ensures Mirrors(p, EmitTo(p, s, ih))
      ensures EmitTo(p, s, ih).sink == if isNew then s.sink + [ih] else s.sink
    {
      if ih in seenIH { return false; }
      if maxInfohashes > 0 && |seenIH| >= maxInfohashes { return false; }
      seenIH := seenIH + {ih};
      return true;
    }
  }

  // ---- reachability ----

  predicate Neighbour(p: Setting, a: Addr, b: Addr) {
    b != NO_ADDR && p.answers(a).Some? && b in p.answers(a).value.nodes
  }

  ghost predicate Path(p: Setting, seeds: seq<Addr>, path: seq<Addr>) {
    && path != [] && path[0] in seeds && path[0] != NO_ADDR
    && forall i :: 0 < i < |path| ==> Neighbour(p, path[i - 1], path[i])
  }

  /** The node can be reached from the seeds through answering nodes. */
  ghost predicate Reachable(p: Setting, seeds: seq<Addr>, a: Addr) {
    exists path :: Path(p, seeds, path) && path[|path| - 1] == a
  }

  lemma SeedReachable(p: Setting, seeds: seq<Addr>, a: Addr)
    requires a in seeds && a != NO_ADDR
    ensures Reachable(p, seeds, a)
  {
    assert Path(p, seeds, [a]);
  }

  lemma NeighbourReachable(p: Setting, seeds: seq<Addr>, a: Addr, b: Addr)
    requires Reachable(p, seeds, a) && Neighbour(p, a, b)
    ensures Reachable(p, seeds, b)
  {
    var path :| Path(p, seeds, path) && path[|path| - 1] == a;
    assert Path(p, seeds, path + [b]);
  }

  // ---- invariants ----

  /** Each admitted address is waiting, visited or abandoned, visited ones once, and no more are admitted than the
      cap. */
  ghost predicate Partitioned(cap: nat, queued: set<Addr>, waiting: set<Addr>, visited: seq<Addr>,
                              abandoned: set<Addr>) {
    && Distinct(visited) && (forall a :: a in waiting ==> a !in visited) && |queued| <= cap
    && (forall a :: a in queued <==> a in waiting || a in visited || a in abandoned)
  }

  ghost predicate Slotted(workers: nat, running: map<Addr, Visit>, visited: seq<Addr>) {
    |running| <= workers && forall a :: a in running ==> a in visited
  }

  /** The sink saw each infohash once, and no more than the target. */
  ghost predicate Streamed(target: nat, seen: set<Infohash>, sink: seq<Infohash>) {
    Distinct(sink) && Elements(sink) == seen && (target > 0 ==> |seen| <= target)
  }

  ghost predicate Bounded(p: Setting, s: Crawl) {
    && Partitioned(p.maxFrontier, s.queued, s.waiting, s.visited, s.abandoned)
    && Slotted(p.workers, s.running, s.visited) && Streamed(p.maxInfohashes, s.seen, s.sink)
    && (!s.cancelled ==> s.abandoned == {})
  }

  lemma Admitted(cap: nat, queued: set<Addr>, waiting: set<Addr>, visited: seq<Addr>, abandoned: set<Addr>, key: Addr)
    requires Partitioned(cap, queued, waiting, visited, abandoned) && key !in queued && |queued| < cap
    ensures Partitioned(cap, queued + {key}, waiting + {key}, visited, abandoned)
  {
  }

  lemma Begun(cap: nat, queued: set<Addr>, waiting: set<Addr>, visited: seq<Addr>, abandoned: set<Addr>, a: Addr)
    requires Partitioned(cap, queued, waiting, visited, abandoned) && a in waiting
    ensures Partitioned(cap, queued, waiting - {a}, visited + [a], abandoned)
  {
  }

  lemma GivenUp(cap: nat, queued: set<Addr>, waiting: set<Addr>, visited: seq<Addr>, abandoned: set<Addr>, a: Addr)
    requires Partitioned(cap, queued, waiting, visited, abandoned) && a in waiting
    ensures Partitioned(cap, queued, waiting - {a}, visited, abandoned + {a})
  {
  }

  lemma SlotTaken(workers: nat, running: map<Addr, Visit>, visited: seq<Addr>, a: Addr, v: Visit)
    requires Slotted(workers, running, visited)
    ensures Slotted(workers, running, visited + [a])
    ensures |running| < workers && a !in running ==> Slotted(workers, running[a := v], visited + [a])
  {
    if a !in running { MapMore(running, a, v); }
  }

  lemma SlotKept(workers: nat, running: map<Addr, Visit>, visited: seq<Addr>, a: Addr, v: Visit)
    requires Slotted(workers, running, visited) && a in running
    ensures Slotted(workers, running[a := v], visited) && Slotted(workers, running - {a}, visited)
  {
    MapLess(running, a);
    assert running[a := v].Keys == running.Keys;
    assert |running[a := v]| == |running[a := v].Keys| == |running.Keys|;
  }

  lemma NotRunningWhileWaiting(p: Setting, s: Crawl, a: Addr)
    requires Bounded(p, s) && a in s.waiting
    ensures a !in s.running
  {
  }

  lemma SentOn(target: nat, seen: set<Infohash>, sink: seq<Infohash>, ih: Infohash)
    requires Streamed(target, seen, sink) && ih !in seen && !TargetMet(target, seen)
    ensures Streamed(target, seen + {ih}, sink + [ih])
  {
    assert ih !in Elements(sink);
    assert Elements(sink + [ih]) == Elements(sink) + {ih};
  }

  lemma EnqueueBounded(p: Setting, s: Crawl, key: Addr)
    requires Bounded(p, s)
    ensures Bounded(p, Enqueue(p, s, key))
  {
    hide Partitioned, Slotted, Streamed, TargetMet;
    if Admits(p.maxFrontier, p.maxInfohashes, s.queued, s.seen, key) {
      Admitted(p.maxFrontier, s.queued, s.waiting, s.visited, s.abandoned, key);
    }
  }

  lemma EmitBounded(p: Setting, s: Crawl, ih: Infohash)
    requires Bounded(p, s)
    ensures Bounded(p, EmitTo(p, s, ih))
  {
    hide Partitioned, Slotted, Streamed, TargetMet;
    if ih !in s.seen && !TargetMet(p.maxInfohashes, s.seen) { SentOn(p.maxInfohashes, s.seen, s.sink, ih); }
  }

  lemma DoBounded(p: Setting, s: Crawl, act: Action)
    requires Bounded(p, s) && Enabled(p, s, act)
    ensures Bounded(p, Do(p, s, act))
  {
    hide Partitioned, Slotted, Streamed, Enqueue, EmitTo;
    match act
    case TakeSeed => EnqueueBounded(p, s.(seeds := s.seeds[1..]), s.seeds[0]);
    case Begin(a) =>
      NotRunningWhileWaiting(p, s, a);
      Begun(p.maxFrontier, s.queued, s.waiting, s.visited, s.abandoned, a);
      SlotTaken(p.workers, s.running, s.visited, a, Asking);
    case Answer(a) =>
      SlotKept(p.workers, s.running, s.visited, a,
               match p.answers(a) case None => Asking case Some(reply) => Answered(reply.samples, reply.nodes));
    case CutOff(a) => SlotKept(p.workers, s.running, s.visited, a, Asking);
    case EmitNext(a) =>
      var v := s.running[a].(samples := s.running[a].samples[1..]);
      SlotKept(p.workers, s.running, s.visited, a, v);
      EmitBounded(p, s.(running := s.running[a := v]), s.running[a].samples[0]);
    case ExpandNext(a) =>
      var v := s.running[a].(nodes := s.running[a].nodes[1..]);
      SlotKept(p.workers, s.running, s.visited, a, v);
      EnqueueBounded(p, s.(running := s.running[a := v]), s.running[a].nodes[0]);
    case End(a) => SlotKept(p.workers, s.running, s.visited, a, s.running[a]);
    case Abandon(a) => GivenUp(p.maxFrontier, s.queued, s.waiting, s.visited, s.abandoned, a);
    case Cancel =>
  }

  /** The neighbours a visit has still to consider, those its node is about to answer included. */
  function Left(p: Setting, a: Addr, v: Visit): seq<Addr> {
    match v
    case Asking => if p.answers(a).Some? then p.answers(a).value.nodes else []
    case Answered(_, nodes) => nodes
  }

  /** Visit a is under way and has still to consider address b. */
  predicate Pending(p: Setting, s: Crawl, a: Addr, b: Addr) {
    a in s.running && b in Left(p, a, s.running[a])
  }

  /** Only reachable addresses are admitted. */
  ghost predicate Grounded(p: Setting, seeds: seq<Addr>, s: Crawl) {
    && (forall a :: a in s.queued ==> Reachable(p, seeds, a))
    && (forall a :: a in s.seeds ==> a in seeds)
    && (forall a, b :: Pending(p, s, a, b) && b != NO_ADDR ==> Neighbour(p, a, b))
  }

  /** Unless a bound turned something away or the crawl was cancelled, no seed and no neighbour of a visited node is
      forgotten. */
  ghost predicate Covering(p: Setting, seeds: seq<Addr>, s: Crawl) {
    && (forall a :: a in seeds && a != NO_ADDR ==> a in s.seeds || a in s.queued)
    && (forall a, b :: a in s.visited && Neighbour(p, a, b) ==> b in s.queued || Pending(p, s, a, b))
  }

  /** What one action does to the pending addresses: only beginning a visit adds any, only considering one removes
      it. */
  lemma PendingAfter(p: Setting, s: Crawl, act: Action, a: Addr, b: Addr)
    requires Enabled(p, s, act)
    ensures var s' := Do(p, s, act);
            && (Pending(p, s', a, b) ==> Pending(p, s, a, b) || (act == Begin(a) && b in Left(p, a, Asking)))
            && (Pending(p, s, a, b) && act != Begin(a) && act != CutOff(a) ==>
                  Pending(p, s', a, b) || (act == ExpandNext(a) && b == s.running[a].nodes[0]))
            && (act == Begin(a) && Neighbour(p, a, b) ==> Pending(p, s', a, b))
  {
    if act.ExpandNext? && act.a == a { assert s.running[a].nodes == [s.running[a].nodes[0]] + s.running[a].nodes[1..]; }
  }

  /** What one action does to the admitted addresses. */
  lemma QueuedAfter(p: Setting, s: Crawl, act: Action)
    requires Enabled(p, s, act)
    ensures var s' := Do(p, s, act);
            && s.queued <= s'.queued && (s.limited ==> s'.limited) && s'.cancelled == (s.cancelled || act.Cancel?)
            && (act.TakeSeed? ==> s'.queued <= s.queued + {s.seeds[0]} && s'.seeds == s.seeds[1..]
                                  && (s.seeds[0] != NO_ADDR && !s'.limited ==> s.seeds[0] in s'.queued)
                                  && (s.seeds[0] == NO_ADDR ==> s'.queued == s.queued))
            && (act.ExpandNext? ==> var b := s.running[act.a].nodes[0];
                  s'.queued <= s.queued + {b} && (b != NO_ADDR && !s'.limited ==> b in s'.queued)
                  && (b == NO_ADDR ==> s'.queued == s.queued))
            && (!act.TakeSeed? ==> s'.seeds == s.seeds)
            && (!act.TakeSeed? && !act.ExpandNext? ==> s'.queued == s.queued)
            && s'.visited == if act.Begin? then s.visited + [act.a] else s.visited
  {
  }

  lemma DoGrounded(p: Setting, seeds: seq<Addr>, s: Crawl, act: Action)
    requires Grounded(p, seeds, s) && s.running.Keys <= s.queued && Enabled(p, s, act)
    ensures Grounded(p, seeds, Do(p, s, act))
  {
    hide Reachable, Do, Pending;
    var s' := Do(p, s, act);
    QueuedAfter(p, s, act);
    if act.TakeSeed? {
      assert s.seeds[0] in seeds;
      if s.seeds[0] != NO_ADDR { SeedReachable(p, seeds, s.seeds[0]); }
    } else if act.ExpandNext? {
      var a, b := act.a, s.running[act.a].nodes[0];
      assert Pending(p, s, a, b) by { FirstPending(p, s, a); }
      assert Reachable(p, seeds, a);
      if b != NO_ADDR { NeighbourReachable(p, seeds, a, b); }
    }
    forall a, b | Pending(p, s', a, b) && b != NO_ADDR ensures Neighbour(p, a, b) {
      PendingAfter(p, s, act, a, b);
    }
  }

  lemma FirstPending(p: Setting, s: Crawl, a: Addr)
    requires a in s.running && s.running[a].Answered? && s.running[a].nodes != []
    ensures Pending(p, s, a, s.running[a].nodes[0])
  {
  }

  lemma DoCovering(p: Setting, seeds: seq<Addr>, s: Crawl, act: Action)
    requires Enabled(p, s, act) && (!s.limited && !s.cancelled ==> Covering(p, seeds, s))
    requires forall a :: a in s.waiting ==> a !in s.visited
    ensures var s' := Do(p, s, act);
            !s'.limited && !s'.cancelled ==> Covering(p, seeds, s')
  {
    hide Do, Pending, Neighbour;
    var s' := Do(p, s, act);
    QueuedAfter(p, s, act);
    if !s'.limited && !s'.cancelled {
      forall a | a in seeds && a != NO_ADDR ensures a in s'.seeds || a in s'.queued {
        if act.TakeSeed? { assert s.seeds == [s.seeds[0]] + s.seeds[1..]; }
      }
      forall a, b | a in s'.visited && Neighbour(p, a, b) ensures b in s'.queued || Pending(p, s', a, b) {
        PendingAfter(p, s, act, a, b);
        assert b != NO_ADDR by { NeighbourMeans(p, a, b); }
        assert act == Begin(a) || a in s.visited;
      }
    }
  }

  lemma NeighbourMeans(p: Setting, a: Addr, b: Addr)
    requires Neighbour(p, a, b)
    ensures b != NO_ADDR
  {
  }

  // ---- main results ----

  /** Under every interleaving: each address is visited at most once, at most maxFrontier visits are made, at most
      `workers` at a time, and the sink sees distinct infohashes within the target. */
  lemma {:induction false} CrawlBounded(p: Setting, seeds: seq<Addr>, acts: seq<Action>)
    ensures var s := Crawled(p, seeds, acts);
            Bounded(p, s) && |s.visited| <= p.maxFrontier && (p.maxInfohashes > 0 ==> |s.sink| <= p.maxInfohashes)
    decreases |acts|
  {
    hide Do, Enabled, Bounded;
    var s := Crawled(p, seeds, acts);
    if acts == [] {
      assert Bounded(p, s) by { InitialBounded(p, seeds); }
    } else {
      CrawlBounded(p, seeds, acts[..|acts| - 1]);
      var before := Crawled(p, seeds, acts[..|acts| - 1]);
      if Enabled(p, before, acts[|acts| - 1]) { DoBounded(p, before, acts[|acts| - 1]); }
    }
    BoundedMeans(p, s);
  }

  lemma InitialBounded(p: Setting, seeds: seq<Addr>)
    ensures Bounded(p, Initial(seeds))
  {
    assert Elements(Initial(seeds).visited) == {} && Elements(Initial(seeds).sink) == {};
  }

  lemma BoundedMeans(p: Setting, s: Crawl)
    requires Bounded(p, s)
    ensures |s.visited| <= p.maxFrontier && (p.maxInfohashes > 0 ==> |s.sink| <= p.maxInfohashes)
    ensures s.running.Keys <= s.queued && Distinct(s.visited)
    ensures (forall a :: a in s.waiting ==> a !in s.visited) && (forall a :: a in s.running ==> a in s.visited)
  {
    DistinctSize(s.visited);
    DistinctSize(s.sink);
    SubsetSize(Elements(s.visited), s.queued);
  }

  lemma {:induction false} CrawlCovers(p: Setting, seeds: seq<Addr>, acts: seq<Action>)
    ensures var s := Crawled(p, seeds, acts);
            Grounded(p, seeds, s) && (!s.limited && !s.cancelled ==> Covering(p, seeds, s))
    decreases |acts|
  {
    hide Do, Enabled, Bounded, Grounded, Covering;
    if acts == [] {
      InitialCovers(p, seeds);
    } else {
      CrawlBounded(p, seeds, acts[..|acts| - 1]);
      CrawlCovers(p, seeds, acts[..|acts| - 1]);
      var before := Crawled(p, seeds, acts[..|acts| - 1]);
      BoundedMeans(p, before);
      if Enabled(p, before, acts[|acts| - 1]) {
        DoGrounded(p, seeds, before, acts[|acts| - 1]);
        DoCovering(p, seeds, before, acts[|acts| - 1]);
      }
    }
  }

  lemma InitialCovers(p: Setting, seeds: seq<Addr>)
    ensures Grounded(p, seeds, Initial(seeds)) && Covering(p, seeds, Initial(seeds))
  {
  }

  lemma {:induction false} PathQueued(p: Setting, seeds: seq<Addr>, s: Crawl, path: seq<Addr>)
    requires Covering(p, seeds, s) && Finished(s) && (forall a :: a in s.queued <==> a in s.visited)
             && Path(p, seeds, path)
    ensures path[|path| - 1] in s.queued
    decreases |path|
  {
    if |path| > 1 {
      var front := path[..|path| - 1];
      assert Path(p, seeds, front);
      PathQueued(p, seeds, s, front);
      assert Neighbour(p, path[|path| - 2], path[|path| - 1]);
      assert front[|front| - 1] in s.visited;
    }
  }

  /** A crawl that ends without cancellation and without a bound turning an address away has visited exactly the nodes
      reachable from the seeds through answering nodes, whatever the interleaving. */
  lemma VisitedExactly(p: Setting, seeds: seq<Addr>, acts: seq<Action>, a: Addr)
    requires var s := Crawled(p, seeds, acts);
             Finished(s) && !s.cancelled && !s.limited
    ensures a in Crawled(p, seeds, acts).visited <==> Reachable(p, seeds, a)
  {
    hide Crawled, Covering, Slotted, Streamed, Distinct;
    var s := Crawled(p, seeds, acts);
    CrawlBounded(p, seeds, acts);
    CrawlCovers(p, seeds, acts);
    if Reachable(p, seeds, a) {
      var path :| Path(p, seeds, path) && path[|path| - 1] == a;
      PathQueued(p, seeds, s, path);
    }
  }

  // ---- what reaches the sink ----

  /** A visit has still to emit this sample, or its node is about to answer it. */
  predicate Unsent(p: Setting, s: Crawl, a: Addr, ih: Infohash) {
    a in s.running && match s.running[a]
                      case Asking => true
                      case Answered(samples, _) => ih in samples
  }

  /** Node a answers a query with this sample. */
  predicate Samples(p: Setting, a: Addr, ih: Infohash) {
    p.answers(a).Some? && ih in p.answers(a).value.samples
  }

  /** Only samples of visited answering nodes are seen or still to be emitted. */
  ghost predicate Sourced(p: Setting, s: Crawl) {
    && (forall ih :: ih in s.seen ==> exists a :: a in s.visited && Samples(p, a, ih))
    && (forall a :: a in s.running ==> a in s.visited)
    && (forall a, ih :: a in s.running && s.running[a].Answered? && Unsent(p, s, a, ih) ==> Samples(p, a, ih))
  }

  /** Unless the crawl was cancelled or the target met, every sample of a visited node is seen or still to emit. */
  ghost predicate Emitting(p: Setting, s: Crawl) {
    forall a, ih :: a in s.visited && Samples(p, a, ih) ==> ih in s.seen || Unsent(p, s, a, ih)
  }

  /** A new address is only ever turned away by a bound that is reached for good. */
  predicate LimitStands(p: Setting, s: Crawl) {
    s.limited ==> |s.queued| >= p.maxFrontier || TargetMet(p.maxInfohashes, s.seen)
  }

  /** What one action does to the samples. */
  lemma SamplesAfter(p: Setting, s: Crawl, act: Action)
    requires Enabled(p, s, act)
    ensures var s' := Do(p, s, act);
            && s.seen <= s'.seen && s.queued <= s'.queued && s'.cancelled == (s.cancelled || act.Cancel?)
            && s'.visited == (if act.Begin? then s.visited + [act.a] else s.visited)
            && (if act.EmitNext? then
                  var ih := s.running[act.a].samples[0];
                  s'.seen <= s.seen + {ih} && (ih in s'.seen || TargetMet(p.maxInfohashes, s'.seen))
                else s'.seen == s.seen)
            && s'.limited == (s.limited || (act.TakeSeed? && Refused(p, s, s.seeds[0]))
                              || (act.ExpandNext? && Refused(p, s, s.running[act.a].nodes[0])))
  {
  }

  predicate Refused(p: Setting, s: Crawl, key: Addr) {
    key != NO_ADDR && key !in s.queued && (|s.queued| >= p.maxFrontier || TargetMet(p.maxInfohashes, s.seen))
  }

  lemma UnsentAfter(p: Setting, s: Crawl, act: Action, a: Addr, ih: Infohash)
    requires Enabled(p, s, act)
    ensures var s' := Do(p, s, act);
            && (Unsent(p, s, a, ih) && Samples(p, a, ih) && act != CutOff(a) && act != Begin(a) ==>
                  Unsent(p, s', a, ih) || (act == EmitNext(a) && ih == s.running[a].samples[0]))
            && (act == Begin(a) ==> Unsent(p, s', a, ih))
            && (a in s'.running && s'.running[a].Answered? && Unsent(p, s', a, ih) ==>
                  (act == Answer(a) && Samples(p, a, ih))
                  || (a in s.running && s.running[a].Answered? && Unsent(p, s, a, ih)))
            && (a in s'.running ==> a in s.running || act == Begin(a))
  {
    if act.EmitNext? && act.a == a {
      assert s.running[a].samples == [s.running[a].samples[0]] + s.running[a].samples[1..];
    }
  }

  lemma DoSourced(p: Setting, s: Crawl, act: Action)
    requires Enabled(p, s, act) && Sourced(p, s)
    ensures Sourced(p, Do(p, s, act))
  {
    hide Do, Unsent, Samples, TargetMet, Enabled;
    var s' := Do(p, s, act);
    SamplesAfter(p, s, act);
    forall a | a in s'.running ensures a in s'.visited {
      UnsentAfter(p, s, act, a, Zeros(20));
    }
    forall a, ih | a in s'.running && s'.running[a].Answered? && Unsent(p, s', a, ih) ensures Samples(p, a, ih) {
      UnsentAfter(p, s, act, a, ih);
    }
    if act.EmitNext? {
      EmitEnabled(p, s, act);
      FirstUnsent(p, s, act.a);
    }
    forall ih | ih in s'.seen ensures exists a :: a in s'.visited && Samples(p, a, ih) {
      if ih in s.seen {
        var a :| a in s.visited && Samples(p, a, ih);
        assert a in s'.visited;
      } else {
        assert act.a in s'.visited;
      }
    }
  }

  lemma EmitEnabled(p: Setting, s: Crawl, act: Action)
    requires Enabled(p, s, act) && act.EmitNext?
    ensures act.a in s.running && s.running[act.a].Answered? && s.running[act.a].samples != []
  {
  }

  lemma FirstUnsent(p: Setting, s: Crawl, a: Addr)
    requires a in s.running && s.running[a].Answered? && s.running[a].samples != []
    ensures Unsent(p, s, a, s.running[a].samples[0])
  {
  }

  lemma DoEmitting(p: Setting, s: Crawl, act: Action)
    requires Enabled(p, s, act) && (!s.cancelled && !TargetMet(p.maxInfohashes, s.seen) ==> Emitting(p, s))
    requires forall a :: a in s.waiting ==> a !in s.visited
    ensures var s' := Do(p, s, act);
            !s'.cancelled && !TargetMet(p.maxInfohashes, s'.seen) ==> Emitting(p, s')
  {
    hide Do, Unsent, Samples;
    var s' := Do(p, s, act);
    SamplesAfter(p, s, act);
    if !s'.cancelled && !TargetMet(p.maxInfohashes, s'.seen) {
      SubsetSize(s.seen, s'.seen);
      forall a, ih | a in s'.visited && Samples(p, a, ih) ensures ih in s'.seen || Unsent(p, s', a, ih) {
        UnsentAfter(p, s, act, a, ih);
        assert act == Begin(a) || a in s.visited;
      }
    }
  }

  lemma DoLimited(p: Setting, s: Crawl, act: Action)
    requires Enabled(p, s, act) && LimitStands(p, s)
    ensures LimitStands(p, Do(p, s, act))
  {
    hide Do, Enabled;
    var s' := Do(p, s, act);
    SamplesAfter(p, s, act);
    SubsetSize(s.seen, s'.seen);
    SubsetSize(s.queued, s'.queued);
  }

  lemma {:induction false} CrawlEmits(p: Setting, seeds: seq<Addr>, acts: seq<Action>)
    ensures var s := Crawled(p, seeds, acts);
            && Sourced(p, s) && LimitStands(p, s)
            && (!s.cancelled && !TargetMet(p.maxInfohashes, s.seen) ==> Emitting(p, s))
    decreases |acts|
  {
    hide Do, Enabled, Bounded, Sourced, Emitting, LimitStands;
    if acts == [] {
      NothingEmitted(p, seeds);
    } else {
      CrawlBounded(p, seeds, acts[..|acts| - 1]);
      CrawlEmits(p, seeds, acts[..|acts| - 1]);
      var before := Crawled(p, seeds, acts[..|acts| - 1]);
      BoundedMeans(p, before);
      if Enabled(p, before, acts[|acts| - 1]) {
        DoSourced(p, before, acts[|acts| - 1]);
        DoEmitting(p, before, acts[|acts| - 1]);
        DoLimited(p, before, acts[|acts| - 1]);
      }
    }
  }

  lemma NothingEmitted(p: Setting, seeds: seq<Addr>)
    ensures Sourced(p, Initial(seeds)) && Emitting(p, Initial(seeds)) && LimitStands(p, Initial(seeds))
  {
  }

  /** A crawl that ends uncancelled, with room left in the frontier and any target not reached, has visited exactly the
      nodes reachable from the seeds through answering nodes, whatever the interleaving. */
  lemma CrawlExact(p: Setting, seeds: seq<Addr>, acts: seq<Action>, a: Addr)
    requires var s := Crawled(p, seeds, acts);
             Finished(s) && !s.cancelled && |s.queued| < p.maxFrontier &&
             (p.maxInfohashes == 0 || |s.sink| < p.maxInfohashes)
    ensures a in Crawled(p, seeds, acts).visited <==> Reachable(p, seeds, a)
  {
    hide Crawled, Reachable;
    CrawlBounded(p, seeds, acts);
    CrawlEmits(p, seeds, acts);
    DistinctSize(Crawled(p, seeds, acts).sink);
    VisitedExactly(p, seeds, acts, a);
  }

  /** In every run, cut short or not, the sink holds only samples that visited nodes answered. */
  lemma SinkSound(p: Setting, seeds: seq<Addr>, acts: seq<Action>, ih: Infohash)
    requires ih in Crawled(p, seeds, acts).sink
    ensures exists a :: a in Crawled(p, seeds, acts).visited && p.answers(a).Some? && ih in p.answers(a).value.samples
  {
    hide Crawled;
    CrawlBounded(p, seeds, acts);
    CrawlEmits(p, seeds, acts);
    assert ih in Elements(Crawled(p, seeds, acts).sink);
    var a :| a in Crawled(p, seeds, acts).visited && Samples(p, a, ih);
  }

  /** A crawl that ends uncancelled, its frontier never full, sends exactly the samples of the reachable answering
      nodes; or, where a target is set, exactly the target number of them. */
  lemma SinkExact(p: Setting, seeds: seq<Addr>, acts: seq<Action>)
    requires var s := Crawled(p, seeds, acts);
             Finished(s) && !s.cancelled && |s.queued| < p.maxFrontier
    ensures var s := Crawled(p, seeds, acts);
            || (p.maxInfohashes > 0 && |s.sink| == p.maxInfohashes)
            || (forall ih :: ih in s.sink <==>
                  exists a :: Reachable(p, seeds, a) && p.answers(a).Some? && ih in p.answers(a).value.samples)
  {
    hide Crawled, Reachable;
    var s := Crawled(p, seeds, acts);
    CrawlBounded(p, seeds, acts);
    CrawlEmits(p, seeds, acts);
    DistinctSize(s.sink);
    if !TargetMet(p.maxInfohashes, s.seen) {
      forall ih
        ensures ih in s.sink <==>
                exists a :: Reachable(p, seeds, a) && p.answers(a).Some? && ih in p.answers(a).value.samples
      {
        assert ih in s.sink <==> ih in Elements(s.sink);
        if ih in s.sink {
          var a :| a in s.visited && Samples(p, a, ih);
          CrawlExact(p, seeds, acts, a);
        }
        if a :| Reachable(p, seeds, a) && p.answers(a).Some? && ih in p.answers(a).value.samples {
          CrawlExact(p, seeds, acts, a);
          assert Samples(p, a, ih) && !Unsent(p, s, a, ih);
        }
      }
    }
  }

  // ---- the crawl drains ----

  /** An upper bound on the steps a visit still has to make. */
  function Steps(p: Setting, a: Addr, v: Visit): nat {
    match v
    case Asking => 2 + (if p.answers(a).Some? then |p.answers(a).value.samples| + |p.answers(a).value.nodes| else 0)
    case Answered(samples, nodes) => 1 + |samples| + |nodes|
  }

  ghost function AllSteps(p: Setting, running: map<Addr, Visit>): nat
    decreases |running|
  {
    if running == map[] then 0
    else
      var a :| a in running;
      MapLess(running, a);
      Steps(p, a, running[a]) + AllSteps(p, running - {a})
  }

  /** Any visit can be counted first. */
  lemma {:induction false} StepsPick(p: Setting, running: map<Addr, Visit>, b: Addr)
    requires b in running
    ensures AllSteps(p, running) == Steps(p, b, running[b]) + AllSteps(p, running - {b})
    decreases |running|
  {
    hide Steps;
    var a :| a in running && AllSteps(p, running) == Steps(p, a, running[a]) + AllSteps(p, running - {a});
    if a != b {
      MapLess(running, a);
      MapLess(running, b);
      StepsPick(p, running - {a}, b);
      StepsPick(p, running - {b}, a);
      assert running - {a} - {b} == running - {b} - {a};
    }
  }

  lemma StepsChanged(p: Setting, running: map<Addr, Visit>, a: Addr, v: Visit)
    ensures a in running ==>
              AllSteps(p, running[a := v]) + Steps(p, a, running[a])
              == AllSteps(p, running) + Steps(p, a, v)
    ensures a in running ==> AllSteps(p, running - {a}) + Steps(p, a, running[a]) == AllSteps(p, running)
  {
    if a in running {
      StepsPick(p, running, a);
      StepsPick(p, running[a := v], a);
      assert running[a := v] - {a} == running - {a};
    }
  }

  /** What is left of a crawl: addresses that can still be admitted, then visits not begun, then seeds and steps. */
  datatype Rank = Rank(room: int, waiting: nat, steps: nat)

  ghost function RankOf(p: Setting, s: Crawl): Rank {
    Rank(p.maxFrontier - |s.queued|, |s.waiting|, |s.seeds| + AllSteps(p, s.running))
  }

  /** The lexicographic order, the room bounded below by zero. */
  predicate Lower(r: Rank, than: Rank) {
    0 <= r.room <= than.room
    && (r.room < than.room || r.waiting < than.waiting || (r.waiting == than.waiting && r.steps < than.steps))
  }

  lemma EnqueueRank(p: Setting, s: Crawl, key: Addr)
    ensures var s' := Enqueue(p, s, key);
            && s'.seeds == s.seeds && s'.running == s.running
            && (|s'.queued| == |s.queued| + 1 <= p.maxFrontier || (s'.queued == s.queued && s'.waiting == s.waiting))
  {
  }

  /** Every step other than a cancellation lowers the rank, so a crawl under any scheduler makes finitely many. */
  lemma StepLowersRank(p: Setting, s: Crawl, act: Action)
    requires Bounded(p, s) && Enabled(p, s, act) && !act.Cancel?
    ensures Lower(RankOf(p, Do(p, s, act)), RankOf(p, s))
  {
    hide Enqueue, AllSteps, Bounded, TargetMet;
    QueuedWithin(p, s);
    match act
    case TakeSeed => EnqueueRank(p, s.(seeds := s.seeds[1..]), s.seeds[0]);
    case Begin(a) =>
    case Answer(a) =>
      StepsChanged(p, s.running, a,
        match p.answers(a) case None => Asking case Some(reply) => Answered(reply.samples, reply.nodes));
    case CutOff(a) => StepsChanged(p, s.running, a, Asking);
    case EmitNext(a) => StepsChanged(p, s.running, a, s.running[a].(samples := s.running[a].samples[1..]));
    case ExpandNext(a) =>
      var v := s.running[a].(nodes := s.running[a].nodes[1..]);
      StepsChanged(p, s.running, a, v);
      EnqueueRank(p, s.(running := s.running[a := v]), s.running[a].nodes[0]);
    case End(a) => StepsChanged(p, s.running, a, Asking);
    case Abandon(a) =>
  }

  lemma QueuedWithin(p: Setting, s: Crawl)
    requires Bounded(p, s)
    ensures |s.queued| <= p.maxFrontier
  {
  }

  /** Until the crawl has finished some step is enabled, a cancellation aside; withDefaults gives at least one
      worker. */
  lemma StepEnabled(p: Setting, s: Crawl) returns (act: Action)
    requires p.workers > 0 && !Finished(s)
    ensures Enabled(p, s, act) && !act.Cancel?
  {
    if s.seeds != [] {
      act := TakeSeed;
    } else if s.running != map[] {
      var a :| a in s.running;
      act := if s.running[a].Asking? then Answer(a)
             else if s.running[a].samples != [] then EmitNext(a)
             else if s.running[a].nodes != [] then ExpandNext(a)
             else End(a);
    } else {
      var a :| a in s.waiting;
      act := Begin(a);
    }
  }

  /** Every crawl drains: from any point of any run, steps other than a cancellation lead to the end. */
  lemma {:induction false} CrawlDrains(p: Setting, seeds: seq<Addr>, acts: seq<Action>) returns (more: seq<Action>)
    requires p.workers > 0
    ensures Finished(Crawled(p, seeds, acts + more)) && Cancel !in more
    ensures Crawled(p, seeds, acts + more).cancelled == Crawled(p, seeds, acts).cancelled
    decreases RankOf(p, Crawled(p, seeds, acts)).room, RankOf(p, Crawled(p, seeds, acts)).waiting,
      RankOf(p, Crawled(p, seeds, acts)).steps
  {
    hide Do, Enabled, Finished, Bounded, RankOf;
    var s := Crawled(p, seeds, acts);
    more := [];
    assert acts + [] == acts;
    if !Finished(s) {
      CrawlBounded(p, seeds, acts);
      var act := StepEnabled(p, s);
      assert (acts + [act])[..|acts|] == acts;
      StepLowersRank(p, s, act);
      SamplesAfter(p, s, act);
      var rest := CrawlDrains(p, seeds, acts + [act]);
      more := [act] + rest;
      assert acts + more == acts + [act] + rest;
    }
  }

  // ---- statistics ----

  /** The visited nodes whose query is over. */
  ghost function Asked(s: Crawl): set<Addr> {
    set a | a in s.visited && !(a in s.running && s.running[a].Asking?)
  }

  /** Those of them that answer queries, or do not. */
  ghost function AskedOf(p: Setting, s: Crawl, answering: bool): set<Addr> {
    set a | a in Asked(s) && p.answers(a).Some? == answering
  }

  ghost predicate Tallied(p: Setting, s: Crawl) {
    && s.sampled + s.errored == |Asked(s)|
    && (!s.cancelled ==> s.sampled == |AskedOf(p, s, true)| && s.errored == |AskedOf(p, s, false)|)
  }

  predicate Ends(act: Action, a: Addr) {
    act == Answer(a) || act == CutOff(a)
  }

  lemma OutAfter(p: Setting, s: Crawl, act: Action, a: Addr)
    requires Enabled(p, s, act) && (act == Begin(a) ==> a !in s.running)
    ensures var s' := Do(p, s, act);
            a in s'.running && s'.running[a].Asking? <==>
              (a in s.running && s.running[a].Asking? && !Ends(act, a)) || act == Begin(a)
    ensures Ends(act, a) ==> a in s.running && s.running[a].Asking?
  {
  }

  lemma CountsAfter(p: Setting, s: Crawl, act: Action)
    requires Enabled(p, s, act)
    ensures var s' := Do(p, s, act);
            && s'.sampled == s.sampled + (if act.Answer? && p.answers(act.a).Some? then 1 else 0)
            && s'.errored == s.errored + (if act.CutOff? || (act.Answer? && p.answers(act.a).None?) then 1 else 0)
  {
  }

  lemma AskedAfter(p: Setting, s: Crawl, act: Action)
    requires Bounded(p, s) && Enabled(p, s, act)
    ensures var more := if act.Answer? || act.CutOff? then {act.a} else {};
            Asked(Do(p, s, act)) == Asked(s) + more && Asked(s) !! more
  {
    hide Bounded, Do, Enabled;
    BoundedMeans(p, s);
    SamplesAfter(p, s, act);
    if act.Begin? { assert act.a in s.waiting by { BeginsWaiting(p, s, act); } }
    forall a | a in s.visited || act == Begin(a)
      ensures a in Asked(Do(p, s, act)) <==> a in Asked(s) || Ends(act, a)
      ensures Ends(act, a) ==> a !in Asked(s)
    {
      OutAfter(p, s, act, a);
    }
    if act.Answer? || act.CutOff? { OutAfter(p, s, act, act.a); }
  }

  lemma BeginsWaiting(p: Setting, s: Crawl, act: Action)
    requires Enabled(p, s, act) && act.Begin?
    ensures act.a in s.waiting
  {
  }

  lemma OneMoreAsked(p: Setting, s: Crawl, t: Crawl, a: Addr, answering: bool)
    requires Asked(t) == Asked(s) + {a} && a !in Asked(s)
    ensures |Asked(t)| == |Asked(s)| + 1
    ensures |AskedOf(p, t, answering)| ==
              |AskedOf(p, s, answering)| + (if p.answers(a).Some? == answering then 1 else 0)
  {
    hide Asked;
    assert AskedOf(p, t, answering) ==
      AskedOf(p, s, answering) + (if p.answers(a).Some? == answering then {a} else {});
  }

  lemma SameAsked(p: Setting, s: Crawl, t: Crawl, answering: bool)
    requires Asked(t) == Asked(s)
    ensures AskedOf(p, t, answering) == AskedOf(p, s, answering)
  {
    hide Asked;
  }

  lemma DoTallied(p: Setting, s: Crawl, act: Action)
    requires Bounded(p, s) && Tallied(p, s) && Enabled(p, s, act)
    ensures Tallied(p, Do(p, s, act))
  {
    hide Bounded, Do, Enabled, Asked, AskedOf;
    AskedAfter(p, s, act);
    CountsAfter(p, s, act);
    SamplesAfter(p, s, act);
    var t := Do(p, s, act);
    if act.Answer? || act.CutOff? {
      OneMoreAsked(p, s, t, act.a, true);
      OneMoreAsked(p, s, t, act.a, false);
    } else {
      SameAsked(p, s, t, true);
      SameAsked(p, s, t, false);
    }
    if act.CutOff? { CutOffCancelled(p, s, act); }
  }

  lemma CutOffCancelled(p: Setting, s: Crawl, act: Action)
    requires Enabled(p, s, act) && act.CutOff?
    ensures s.cancelled
  {
  }

  /** The statistics: every visited node whose query is over is counted once, as sampled or as errored; in a crawl that
      was not cancelled, as errored exactly when it does not answer. */
  lemma {:induction false} TalliesExact(p: Setting, seeds: seq<Addr>, acts: seq<Action>)
    ensures var s := Crawled(p, seeds, acts);
            && s.sampled + s.errored == |Asked(s)|
            && (!s.cancelled ==> s.sampled == |AskedOf(p, s, true)| && s.errored == |AskedOf(p, s, false)|)
            && (Finished(s) ==> s.sampled + s.errored == |s.visited|)
    decreases |acts|
  {
    hide Do, Enabled, Bounded;
    var s := Crawled(p, seeds, acts);
    CrawlBounded(p, seeds, acts);
    if acts == [] {
      assert Asked(s) == {} && AskedOf(p, s, true) == {} && AskedOf(p, s, false) == {};
    } else {
      var before := Crawled(p, seeds, acts[..|acts| - 1]);
      TalliesExact(p, seeds, acts[..|acts| - 1]);
      CrawlBounded(p, seeds, acts[..|acts| - 1]);
      if Enabled(p, before, acts[|acts| - 1]) { DoTallied(p, before, acts[|acts| - 1]); }
    }
    if Finished(s) {
      BoundedMeans(p, s);
      DistinctSize(s.visited);
      assert Asked(s) == Elements(s.visited);
    }
  }
}
