/** The companion publisher (internal/companion/publisher.go) and subscriber (internal/companion/subscriber.go):
    monotone snapshot times, what is seeded when, and rollback protection on the follower's side. */
module Companion {
  import opened Wrappers
  import opened Collections
  import opened Bytes
  import opened Records
  import opened Symbols

  const MAX_INT64: Int64 := 0x7FFF_FFFF_FFFF_FFFF

  // ---- content fingerprints ----

  /** XOR of the hashes of the marshalled torrents. */
  function ContentFingerprint(c: Crypto, torrents: seq<bytes>): Bytes32 {
    if torrents == [] then Zeros(32)
    else Xor(ContentFingerprint(c, torrents[..|torrents| - 1]), c.sha256(torrents[|torrents| - 1]))
  }

  method ComputeContentFingerprint(c: Crypto, torrents: seq<bytes>) returns (fp: Bytes32)
    ensures fp == ContentFingerprint(c, torrents)
  {
    fp := Zeros(32);
    for i := 0 to |torrents|
      invariant fp == ContentFingerprint(c, torrents[..i])
    {
      assert torrents[..i + 1][..i] == torrents[..i];
      fp := Xor(fp, c.sha256(torrents[i]));
    }
    assert torrents[..|torrents|] == torrents;
  }

  lemma {:induction false} FingerprintFirst(c: Crypto, t: bytes, torrents: seq<bytes>)
    ensures ContentFingerprint(c, [t] + torrents) == Xor(c.sha256(t), ContentFingerprint(c, torrents))
    decreases |torrents|
  {
    hide Xor;
    if torrents == [] {
      assert [t] + torrents == [t] && [t][..0] == [];
      DataLaws(c.sha256(t), Zeros(32));
      DataLaws(Zeros(32), c.sha256(t));
    } else {
      var front, last := torrents[..|torrents| - 1], torrents[|torrents| - 1];
      FingerprintFirst(c, t, front);
      assert ([t] + torrents)[..|torrents|] == [t] + front;
      DataAssoc(c.sha256(t), ContentFingerprint(c, front), c.sha256(last));
    }
  }

  lemma {:induction false} FingerprintWithout(c: Crypto, torrents: seq<bytes>, i: nat)
    requires i < |torrents|
    ensures ContentFingerprint(c, torrents)
             == Xor(c.sha256(torrents[i]), ContentFingerprint(c, torrents[..i] + torrents[i + 1..]))
    decreases |torrents|
  {
    hide Xor, ContentFingerprint;
    var first, rest := torrents[0], torrents[1..];
    assert torrents == [first] + rest;
    FingerprintFirst(c, first, rest);
    if i == 0 {
      assert torrents[..0] + torrents[1..] == rest;
    } else {
      FingerprintWithout(c, rest, i - 1);
      var without := rest[..i - 1] + rest[i..];
      assert torrents[..i] + torrents[i + 1..] == [first] + without;
      FingerprintFirst(c, first, without);
      XorSwap(c.sha256(first), c.sha256(torrents[i]), ContentFingerprint(c, without));
    }
  }

  lemma XorSwap(x: Bytes32, y: Bytes32, z: Bytes32)
    ensures Xor(x, Xor(y, z)) == Xor(y, Xor(x, z))
  {
    hide Xor;
    DataAssoc(x, y, z);
    DataLaws(x, y);
    DataAssoc(y, x, z);
  }

  /** The fingerprint does not depend on the order the corpus source yields. */
  lemma {:induction false} FingerprintPermutes(c: Crypto, a: seq<bytes>, b: seq<bytes>)
    requires multiset(a) == multiset(b)
    ensures ContentFingerprint(c, a) == ContentFingerprint(c, b)
    decreases |a|
  {
    hide Xor;
    SameElements(a, b);
    if a != [] {
      assert a[0] in b;
      var i :| 0 <= i < |b| && b[i] == a[0];
      RemoveOne(a, b, i);
      FingerprintPermutes(c, a[1..], b[..i] + b[i + 1..]);
      FingerprintWithout(c, b, i);
      FingerprintFirst(c, a[0], a[1..]);
      assert a == [a[0]] + a[1..];
    }
  }

  // ---- snapshot times ----

  /** Go's int64 increment. */
  function Increment(n: Int64): Int64 {
    if n == MAX_INT64 then -0x8000_0000_0000_0000 else n + 1
  }

  /** The GeneratedAt a refresh settles on, from the last one and the clock. */
  function Stamp(lastFP: Bytes32, lastAt: Int64, fp: Bytes32, clock: Int64): Int64 {
    if fp == lastFP && lastAt != 0 then lastAt
    else if lastAt != 0 && clock <= lastAt then Increment(lastAt)
    else clock
  }

  /** On changed content the time strictly increases exactly when the last one is neither the largest int64 nor a zero
      (which reads as never published) met by a clock at or before 1970. */
  lemma StampAdvances(lastFP: Bytes32, lastAt: Int64, fp: Bytes32, clock: Int64)
    requires fp != lastFP
    ensures Stamp(lastFP, lastAt, fp, clock) > lastAt <==> lastAt < MAX_INT64 && (lastAt != 0 || clock > 0)
  {
  }

  // ---- the publisher ----

  /** What a follower can fetch: the payload's torrents and time; its infohash depends on both. */
  datatype Snapshot = Snapshot(fp: Bytes32, at: Int64, infohash: Bytes20)

  /** What the outside does during one refresh: the index built (None on error), the clock, and which of writing the
      files, seeding, putting the pointer and dropping a torrent succeed. */
  datatype Weather = Weather(
    build: Option<seq<bytes>>, clock: Int64, written: bool, seeds: bool, puts: bool, drops: bool)

  /** The publisher's fields, what its seeder holds, and the snapshots whose pointer was put. */
  datatype PublisherState = PublisherState(
    lastFP: Bytes32, lastAt: Int64, lastIH: Bytes20, held: set<Bytes20>, published: seq<Snapshot>)

  const NO_IH: Bytes20 := Zeros(20)

  function NewPublisher(): PublisherState {
    PublisherState(Zeros(32), 0, NO_IH, {}, [])
  }

  function Held(held: set<Bytes20>, ih: Bytes20, seeds: bool): set<Bytes20> {
    if seeds then held + {ih} else held
  }

  function Dropped(held: set<Bytes20>, ih: Bytes20, drops: bool): set<Bytes20> {
    if drops then held - {ih} else held
  }

  function Refreshed(c: Crypto, infohash: (seq<bytes>, Int64) -> Bytes20, s: PublisherState,
                     w: Weather): PublisherState {
    if w.build.None? || w.build.value == [] then s
    else
      var fp := ContentFingerprint(c, w.build.value);
      var at := Stamp(s.lastFP, s.lastAt, fp, w.clock);
      var ih := infohash(w.build.value, at);
      var stamped := s.(lastFP := fp, lastAt := at);
      if !w.written then stamped
      else
        var seeded := stamped.(held := Held(s.held, ih, w.seeds));
        if !w.puts then
          if ih != s.lastIH then seeded.(held := Dropped(seeded.held, ih, w.drops)) else seeded
        else
          var put := seeded.(lastIH := ih, published := s.published + [Snapshot(fp, at, ih)]);
          if s.lastIH != NO_IH && s.lastIH != ih then put.(held := Dropped(put.held, s.lastIH, w.drops)) else put
  }

  class Publisher {
    const c: Crypto
    const infohash: (seq<bytes>, Int64) -> Bytes20
    var lastContentFP: Bytes32
    var lastGeneratedAt: Int64
    var lastSeededIH: Bytes20
    /** The torrents the seeder holds for this publisher. */
    var held: set<Bytes20>
    /** The snapshots whose pointer was put, oldest first. */
    ghost var published: seq<Snapshot>

    ghost function State(): PublisherState
      reads this
    {
      PublisherState(lastContentFP, lastGeneratedAt, lastSeededIH, held, published)
    }

    constructor (c: Crypto, infohash: (seq<bytes>, Int64) -> Bytes20)
      ensures State() == NewPublisher() && this.c == c && this.infohash == infohash
    {
      this.c, this.infohash := c, infohash;
      lastContentFP, lastGeneratedAt, lastSeededIH, held, published := Zeros(32), 0, NO_IH, {}, [];
    }

    method RefreshOnce(w: Weather)
      modifies this
      ensures State() == Refreshed(c, infohash, old(State()), w)
    {
      hide ContentFingerprint;
      if w.build.None? { return; }
      var torrents := w.build.value;
      if |torrents| == 0 { return; }
      var at := w.clock;
      var fp := ComputeContentFingerprint(c, torrents);
      if fp == lastContentFP && lastGeneratedAt != 0 {
        at := lastGeneratedAt;
      } else {
        if lastGeneratedAt != 0 && at <= lastGeneratedAt { at := Increment(lastGeneratedAt); }
        lastContentFP := fp;
        lastGeneratedAt := at;
      }
      if !w.written { return; }
      var ih := infohash(torrents, at);
      if w.seeds { held := held + {ih}; }
      if !w.puts {
        if ih != lastSeededIH && w.drops { held := held - {ih}; }
        return;
      }
      var prev := lastSeededIH;
      lastSeededIH := ih;
      published := published + [Snapshot(fp, at, ih)];
      if prev != NO_IH && prev != ih && w.drops { held := held - {prev}; }
    }
  }

  function RefreshRun(c: Crypto, infohash: (seq<bytes>, Int64) -> Bytes20, s: PublisherState,
                      ws: seq<Weather>): PublisherState {
    if ws == [] then s else Refreshed(c, infohash, RefreshRun(c, infohash, s, ws[..|ws| - 1]), ws[|ws| - 1])
  }

  /** Published times never decrease, and strictly increase between snapshots of different content. */
  ghost predicate Monotone(published: seq<Snapshot>) {
    forall i, j :: 0 <= i < j < |published| ==>
      published[i].at <= published[j].at && (published[i].fp != published[j].fp ==> published[i].at < published[j].at)
  }

  /** The last stamp is not behind any published one, and ahead of every one of other content. */
  ghost predicate Ahead(s: PublisherState) {
    forall i :: 0 <= i < |s.published| ==>
      0 < s.published[i].at <= s.lastAt && (s.published[i].fp != s.lastFP ==> s.published[i].at < s.lastAt)
  }

  lemma RefreshMonotone(c: Crypto, infohash: (seq<bytes>, Int64) -> Bytes20, s: PublisherState, w: Weather)
    requires Monotone(s.published) && Ahead(s) && 0 <= s.lastAt < MAX_INT64 && w.clock > 0
    ensures var s' := Refreshed(c, infohash, s, w);
            Monotone(s'.published) && Ahead(s') && s.lastAt <= s'.lastAt
            && s'.lastAt <= if w.clock > s.lastAt then w.clock else s.lastAt + 1
  {
    hide ContentFingerprint;
  }

  /** In one publisher lifetime with clocks after 1970 (and too few refreshes to reach the largest int64), whatever
      fails or goes backwards: published times never decrease and strictly increase when the content changes. */
  lemma {:induction false} PublishedMonotone(c: Crypto, infohash: (seq<bytes>, Int64) -> Bytes20, ws: seq<Weather>,
                                             latest: Int64)
    requires forall w :: w in ws ==> 0 < w.clock <= latest
    requires 0 <= latest && latest + |ws| <= MAX_INT64
    ensures var s := RefreshRun(c, infohash, NewPublisher(), ws);
            Monotone(s.published) && Ahead(s) && 0 <= s.lastAt <= latest + |ws|
    decreases |ws|
  {
    hide Refreshed, Monotone, Ahead;
    if ws == [] {
      assert Monotone([]) && Ahead(NewPublisher()) by { NothingPublished(); }
    } else {
      var front, w := ws[..|ws| - 1], ws[|ws| - 1];
      assert w in ws;
      PublishedMonotone(c, infohash, front, latest);
      RefreshMonotone(c, infohash, RefreshRun(c, infohash, NewPublisher(), front), w);
    }
  }

  lemma NothingPublished()
    ensures Monotone([]) && Ahead(NewPublisher()) && NotBehind(NewPublisher()) && LastOut(NewPublisher())
  {
  }

  /** The exact step condition: on changed content the time must be able to rise, on unchanged content to stay. */
  predicate Advances(c: Crypto, s: PublisherState, w: Weather)
    requires w.build.Some?
  {
    if ContentFingerprint(c, w.build.value) == s.lastFP then s.lastAt != 0 || w.clock >= 0
    else s.lastAt < MAX_INT64 && (s.lastAt != 0 || w.clock > 0)
  }

  /** Nothing is stamped, nothing is out yet, or the time advances. */
  predicate Steady(c: Crypto, s: PublisherState, w: Weather) {
    w.build.None? || w.build.value == [] || s.published == [] || Advances(c, s, w)
  }

  /** The last stamp is not behind any published one, and ahead of every one of other content. */
  ghost predicate NotBehind(s: PublisherState) {
    forall i :: 0 <= i < |s.published| ==>
      s.published[i].at <= s.lastAt && (s.published[i].fp != s.lastFP ==> s.published[i].at < s.lastAt)
  }

  lemma SteadyStep(c: Crypto, infohash: (seq<bytes>, Int64) -> Bytes20, s: PublisherState, w: Weather)
    requires Monotone(s.published) && NotBehind(s) && Steady(c, s, w)
    ensures Monotone(Refreshed(c, infohash, s, w).published) && NotBehind(Refreshed(c, infohash, s, w))
  {
    hide ContentFingerprint;
  }

  /** The last stamp is that of the last published snapshot. */
  ghost predicate LastOut(s: PublisherState) {
    s.published != [] ==> s.published[|s.published| - 1].at == s.lastAt && s.published[|s.published| - 1].fp == s.lastFP
  }

  /** Where every snapshot goes out, a step that does not advance breaks the order. */
  lemma UnsteadyStep(c: Crypto, infohash: (seq<bytes>, Int64) -> Bytes20, s: PublisherState, w: Weather)
    requires LastOut(s) && w.written && w.puts
    ensures var s' := Refreshed(c, infohash, s, w);
            LastOut(s') && s.published <= s'.published && (!Steady(c, s, w) ==> !Monotone(s'.published))
  {
    hide ContentFingerprint;
    var s' := Refreshed(c, infohash, s, w);
    if !Steady(c, s, w) {
      var n := |s.published|;
      assert s'.published[n - 1] == s.published[n - 1] && s'.published[n].at == s'.lastAt
        && s'.published[n].fp == s'.lastFP;
    }
  }

  /** In one publisher lifetime, whatever fails: while every step that follows a published snapshot advances, published
      times never decrease and strictly increase when the content changes. */
  lemma {:induction false} SteadyRunMonotone(c: Crypto, infohash: (seq<bytes>, Int64) -> Bytes20, ws: seq<Weather>)
    requires forall k :: 0 <= k < |ws| ==> Steady(c, RefreshRun(c, infohash, NewPublisher(), ws[..k]), ws[k])
    ensures var s := RefreshRun(c, infohash, NewPublisher(), ws);
            Monotone(s.published) && NotBehind(s)
    decreases |ws|
  {
    hide Refreshed, Monotone, NotBehind, Steady;
    if ws == [] {
      assert Monotone([]) && NotBehind(NewPublisher()) by { NothingPublished(); }
    } else {
      var front := ws[..|ws| - 1];
      forall k | 0 <= k < |front| ensures Steady(c, RefreshRun(c, infohash, NewPublisher(), front[..k]), front[k]) {
        assert front[..k] == ws[..k];
      }
      SteadyRunMonotone(c, infohash, front);
      SteadyStep(c, infohash, RefreshRun(c, infohash, NewPublisher(), front), ws[|ws| - 1]);
    }
  }

  lemma {:induction false} RunOut(c: Crypto, infohash: (seq<bytes>, Int64) -> Bytes20, ws: seq<Weather>, k: nat)
    requires (forall w :: w in ws ==> w.written && w.puts) && k <= |ws|
    ensures var s, s' := RefreshRun(c, infohash, NewPublisher(), ws[..k]), RefreshRun(c, infohash, NewPublisher(), ws);
            LastOut(s') && s.published <= s'.published
    decreases |ws|, k
  {
    hide Refreshed, LastOut, Steady;
    if ws == [] {
      assert ws[..k] == [];
      NothingPublished();
    } else if k == |ws| {
      assert ws[..k] == ws;
      RunOut(c, infohash, ws, k - 1);
    } else {
      var front := ws[..|ws| - 1];
      assert front[..k] == ws[..k] && ws[|ws| - 1] in ws;
      RunOut(c, infohash, front, k);
      UnsteadyStep(c, infohash, RefreshRun(c, infohash, NewPublisher(), front), ws[|ws| - 1]);
    }
  }

  /** The condition is exact: where every snapshot is written and its pointer put, the published times keep their order
      exactly when every step after the first publication advances. */
  lemma PublishedMonotoneExactly(c: Crypto, infohash: (seq<bytes>, Int64) -> Bytes20, ws: seq<Weather>)
    requires forall w :: w in ws ==> w.written && w.puts
    ensures Monotone(RefreshRun(c, infohash, NewPublisher(), ws).published) <==>
              forall k :: 0 <= k < |ws| ==> Steady(c, RefreshRun(c, infohash, NewPublisher(), ws[..k]), ws[k])
  {
    hide Refreshed, Steady, NotBehind, RefreshRun, LastOut;
    if k :| 0 <= k < |ws| && !Steady(c, RefreshRun(c, infohash, NewPublisher(), ws[..k]), ws[k]) {
      UnsteadyAt(c, infohash, ws, k);
    } else {
      SteadyRunMonotone(c, infohash, ws);
    }
  }

  lemma UnsteadyAt(c: Crypto, infohash: (seq<bytes>, Int64) -> Bytes20, ws: seq<Weather>, k: nat)
    requires (forall w :: w in ws ==> w.written && w.puts) && k < |ws|
    requires !Steady(c, RefreshRun(c, infohash, NewPublisher(), ws[..k]), ws[k])
    ensures !Monotone(RefreshRun(c, infohash, NewPublisher(), ws).published)
  {
    hide Refreshed, Steady, LastOut;
    assert ws[..k + 1][..k] == ws[..k] && ws[k] in ws && ws[..k][..k] == ws[..k];
    RunOut(c, infohash, ws[..k], k);
    UnsteadyStep(c, infohash, RefreshRun(c, infohash, NewPublisher(), ws[..k]), ws[k]);
    RunOut(c, infohash, ws, k + 1);
    var part, whole := RefreshRun(c, infohash, NewPublisher(), ws[..k + 1]),
      RefreshRun(c, infohash, NewPublisher(), ws);
    if Monotone(whole.published) { PrefixMonotone(part.published, whole.published); }
  }

  lemma PrefixMonotone(a: seq<Snapshot>, b: seq<Snapshot>)
    requires a <= b && Monotone(b)
    ensures Monotone(a)
  {
  }

  /** Without the clock condition it fails: a first snapshot at second 0 leaves a zero that reads as never published,
      so new content under a clock before 1970 is published with an earlier time. */
  lemma ZeroClockRegresses(c: Crypto, infohash: (seq<bytes>, Int64) -> Bytes20, x: bytes, y: bytes)
    ensures var ws := [Weather(Some([x]), 0, true, true, true, true), Weather(Some([y]), -5, true, true, true, true)];
            var p := RefreshRun(c, infohash, NewPublisher(), ws).published;
            |p| == 2 && p[0].at == 0 && p[1].at == -5
  {
    hide ContentFingerprint;
    var w, v := Weather(Some([x]), 0, true, true, true, true), Weather(Some([y]), -5, true, true, true, true);
    var one := RefreshRun(c, infohash, NewPublisher(), [w]);
    assert [w][..0] == [] && [w, v][..1] == [w];
    assert RefreshRun(c, infohash, NewPublisher(), [w][..0]) == NewPublisher();
    assert one == Refreshed(c, infohash, NewPublisher(), w);
    assert RefreshRun(c, infohash, NewPublisher(), [w, v]) == Refreshed(c, infohash, one, v);
  }

  /** What each outcome of a refresh leaves: nothing changes without an index or on an empty one; nothing is seeded or
      advertised unless the files are written; nothing is advertised unless the pointer is put; and a refresh that goes
      through advertises one snapshot, of this corpus, under the settled time and the infohash of both, and seeds it. */
  lemma RefreshOutcomes(c: Crypto, infohash: (seq<bytes>, Int64) -> Bytes20, s: PublisherState, w: Weather)
    ensures var s' := Refreshed(c, infohash, s, w);
            if w.build.None? || w.build.value == [] then s' == s
            else
              var fp := ContentFingerprint(c, w.build.value);
              var ih := infohash(w.build.value, s'.lastAt);
              && s'.lastFP == fp
              && (!w.written ==> s'.held == s.held)
              && (!w.written || !w.puts ==> s'.lastIH == s.lastIH && s'.published == s.published)
              && (w.written && w.puts ==>
                    s'.lastIH == ih && s'.published == s.published + [Snapshot(fp, s'.lastAt, ih)])
              && (fp == s.lastFP && s.lastAt != 0 ==> s'.lastAt == s.lastAt)
              && ((fp != s.lastFP || s.lastAt == 0) && (s.lastAt == 0 || w.clock > s.lastAt) ==> s'.lastAt == w.clock)
  {
    hide ContentFingerprint;
  }

  /** What is held after a refresh: what was, and the new torrent where it was written and seeded, less the one the
      refresh displaces where dropping works: the previously advertised torrent once the pointer is put, the new one
      otherwise, and neither when they are the same. */
  lemma HeldOutcomes(c: Crypto, infohash: (seq<bytes>, Int64) -> Bytes20, s: PublisherState, w: Weather, x: Bytes20)
    requires w.build.Some? && w.build.value != [] && w.written
    ensures var s' := Refreshed(c, infohash, s, w);
            var ih := infohash(w.build.value, s'.lastAt);
            var displaced := if w.puts then x == s.lastIH && x != ih && x != NO_IH else x == ih && x != s.lastIH;
            x in s'.held <==> (x in s.held || (x == ih && w.seeds)) && !(displaced && w.drops)
  {
    hide ContentFingerprint, Stamp;
  }

  /** An unchanged corpus goes out again under the same time and infohash, whatever the clock says by then, so followers
      that have it fetch nothing. */
  lemma UnchangedRepublishes(c: Crypto, infohash: (seq<bytes>, Int64) -> Bytes20, s: PublisherState, w: Weather,
                             v: Weather)
    requires w.build.Some? && w.build.value != [] && v.build == w.build && w.written && w.puts && v.written && v.puts
    requires Refreshed(c, infohash, s, w).lastAt != 0
    ensures var s1 := Refreshed(c, infohash, s, w);
            var s2 := Refreshed(c, infohash, s1, v);
            && s1.published != [] && s2.published == s1.published + [s1.published[|s1.published| - 1]]
            && s2.lastIH == s1.lastIH
  {
    hide ContentFingerprint;
  }

  // ---- what is seeded ----

  /** Exactly the last successfully advertised torrent is held. */
  ghost predicate SeedsAdvertised(s: PublisherState) {
    && s.lastIH == (if s.published == [] then NO_IH else s.published[|s.published| - 1].infohash)
    && (s.published != [] ==> s.lastIH != NO_IH)
    && s.held == if s.published == [] then {} else {s.lastIH}
  }

  /** Where seeding and dropping succeed, whatever else fails: after every refresh the publisher holds exactly the last
      torrent whose pointer it put. */
  lemma {:induction false} SeedsFollowPointer(c: Crypto, infohash: (seq<bytes>, Int64) -> Bytes20, ws: seq<Weather>)
    requires forall w :: w in ws ==> w.seeds && w.drops
    requires forall torrents, at :: infohash(torrents, at) != NO_IH
    ensures SeedsAdvertised(RefreshRun(c, infohash, NewPublisher(), ws))
    decreases |ws|
  {
    hide Refreshed, SeedsAdvertised;
    if ws == [] {
      assert SeedsAdvertised(NewPublisher()) by { NothingSeeded(); }
    } else {
      assert ws[|ws| - 1] in ws;
      SeedsFollowPointer(c, infohash, ws[..|ws| - 1]);
      SeedsFollowStep(c, infohash, RefreshRun(c, infohash, NewPublisher(), ws[..|ws| - 1]), ws[|ws| - 1]);
    }
  }

  lemma NothingSeeded()
    ensures SeedsAdvertised(NewPublisher())
  {
  }

  lemma SeedsFollowStep(c: Crypto, infohash: (seq<bytes>, Int64) -> Bytes20, s: PublisherState, w: Weather)
    requires SeedsAdvertised(s) && w.seeds && w.drops && forall torrents, at :: infohash(torrents, at) != NO_IH
    ensures SeedsAdvertised(Refreshed(c, infohash, s, w))
  {
    hide ContentFingerprint, Stamp;
    var s' := Refreshed(c, infohash, s, w);
    if s'.published != s.published {
      assert s'.held == {s'.lastIH};
    } else {
      assert s'.held == s.held && s'.lastIH == s.lastIH;
    }
  }

  /** Whatever fails, a refresh never drops the torrent the live pointer names. */
  lemma AdvertisedNeverDropped(c: Crypto, infohash: (seq<bytes>, Int64) -> Bytes20, s: PublisherState, w: Weather)
    ensures var s' := Refreshed(c, infohash, s, w);
            s'.lastIH in s.held ==> s'.lastIH in s'.held
  {
    hide ContentFingerprint, Stamp;
  }

  // ---- the subscriber ----

  type PubKey = Bytes32

  /** Dedup state per followed key: last imported time, last pointer, how often it was forgotten. */
  datatype Follower = Follower(imported: map<PubKey, Int64>, lastIH: map<PubKey, Bytes20>, epoch: map<PubKey, nat>)

  function Epoch(f: Follower, pk: PubKey): nat {
    if pk in f.epoch then f.epoch[pk] else 0
  }

  function Forgotten(f: Follower, pk: PubKey): Follower {
    Follower(f.imported - {pk}, f.lastIH - {pk}, f.epoch[pk := Epoch(f, pk) + 1])
  }

  function Committed(f: Follower, pk: PubKey, startEpoch: nat, at: Int64, ih: Bytes20, setImported: bool): Follower {
    if Epoch(f, pk) != startEpoch then f
    else f.(imported := if setImported then f.imported[pk := at] else f.imported, lastIH := f.lastIH[pk := ih])
  }

  /** What the outside does during one Sync: the pointer, the fetched and decoded snapshot's author and time, whether
      the ingest succeeds, and whether a Forget of the same key lands before the pointer is compared with the last one,
      between that and the rollback check, or between that and the commit. */
  datatype Journey = Journey(pointer: Option<Bytes20>, snapshot: Option<(PubKey, Int64)>, ingests: bool,
                             forgetEarly: bool, forgetMid: bool, forgetLate: bool)

  datatype Outcome = NoPointer | SamePointer | NoSnapshot | WrongAuthor | Rollback | IngestFailed | Imported(at: Int64)

  function ForgetIf(f: Follower, pk: PubKey, forget: bool): Follower {
    if forget then Forgotten(f, pk) else f
  }

  function Synced(f: Follower, pk: PubKey, j: Journey): (Follower, Outcome) {
    var startEpoch := Epoch(f, pk);
    var early := ForgetIf(f, pk, j.forgetEarly);
    if j.pointer.None? then (early, NoPointer)
    else if pk in early.lastIH && early.lastIH[pk] == j.pointer.value then (early, SamePointer)
    else
      var mid := ForgetIf(early, pk, j.forgetMid);
      if j.snapshot.None? then (mid, NoSnapshot)
      else
        var (author, at) := j.snapshot.value;
        if author != pk then (mid, WrongAuthor)
        else if pk in mid.imported && at != 0 && at < mid.imported[pk] then
          (Committed(ForgetIf(mid, pk, j.forgetLate), pk, startEpoch, 0, j.pointer.value, false), Rollback)
        else if !j.ingests then (ForgetIf(mid, pk, j.forgetLate), IngestFailed)
        else (Committed(ForgetIf(mid, pk, j.forgetLate), pk, startEpoch, at, j.pointer.value, true), Imported(at))
  }

  class Subscriber {
    var imported: map<PubKey, Int64>
    var lastIH: map<PubKey, Bytes20>
    var epoch: map<PubKey, nat>

    function State(): Follower
      reads this
    {
      Follower(imported, lastIH, epoch)
    }

    constructor ()
      ensures State() == Follower(map[], map[], map[])
    {
      imported, lastIH, epoch := map[], map[], map[];
    }

    method Forget(pk: PubKey)
      modifies this
      ensures State() == Forgotten(old(State()), pk)
    {
      imported, lastIH := imported - {pk}, lastIH - {pk};
      epoch := epoch[pk := (if pk in epoch then epoch[pk] else 0) + 1];
    }

    method CommitDedup(pk: PubKey, startEpoch: nat, at: Int64, ih: Bytes20, setImported: bool) returns (done: bool)
      modifies this
      ensures State() == Committed(old(State()), pk, startEpoch, at, ih, setImported)
      ensures done == (Epoch(old(State()), pk) == startEpoch)
    {
      if (if pk in epoch then epoch[pk] else 0) != startEpoch { return false; }
      if setImported { imported := imported[pk := at]; }
      lastIH := lastIH[pk := ih];
      return true;
    }

    method Sync(pk: PubKey, j: Journey) returns (outcome: Outcome)
      modifies this
      ensures (State(), outcome) == Synced(old(State()), pk, j)
    {
      var startEpoch := if pk in epoch then epoch[pk] else 0;
      if j.forgetEarly { Forget(pk); }
      if j.pointer.None? { return NoPointer; }
      var ih := j.pointer.value;
      if pk in lastIH && lastIH[pk] == ih { return SamePointer; }
      if j.forgetMid { Forget(pk); }
      if j.snapshot.None? { return NoSnapshot; }
      var (author, at) := j.snapshot.value;
      if author != pk { return WrongAuthor; }
      var rollback := pk in imported && at != 0 && at < imported[pk];
      if !rollback && !j.ingests {
        if j.forgetLate { Forget(pk); }
        return IngestFailed;
      }
      if j.forgetLate { Forget(pk); }
      if rollback {
        var _ := CommitDedup(pk, startEpoch, 0, ih, false);
        return Rollback;
      }
      var _ := CommitDedup(pk, startEpoch, at, ih, true);
      return Imported(at);
    }
  }

  /** Whether the Sync got past comparing pointers, and past the rollback check. */
  predicate Fetched(outcome: Outcome) {
    !outcome.NoPointer? && !outcome.SamePointer?
  }

  predicate Checked(outcome: Outcome) {
    outcome.Rollback? || outcome.IngestFailed? || outcome.Imported?
  }

  /** An Unfollow that races a Sync wins: nothing is remembered for the key, however far the Sync had come. */
  lemma ForgetWins(f: Follower, pk: PubKey, j: Journey)
    requires var outcome := Synced(f, pk, j).1;
             j.forgetEarly || (j.forgetMid && Fetched(outcome)) || (j.forgetLate && Checked(outcome))
    ensures pk !in Synced(f, pk, j).0.imported && pk !in Synced(f, pk, j).0.lastIH
  {
  }

  function SyncRun(f: Follower, pk: PubKey, js: seq<Journey>): Follower {
    if js == [] then f else Synced(SyncRun(f, pk, js[..|js| - 1]), pk, js[|js| - 1]).0
  }

  /** A snapshot of time zero by the followed publisher, under a new pointer, is ingested over a positive time. */
  predicate Resets(f: Follower, pk: PubKey, j: Journey) {
    && j.pointer.Some? && !(pk in f.lastIH && f.lastIH[pk] == j.pointer.value)
    && j.snapshot == Some((pk, 0)) && j.ingests && pk in f.imported && f.imported[pk] > 0
  }

  predicate Forgets(j: Journey) {
    j.forgetEarly || j.forgetMid || j.forgetLate
  }

  /** One Sync takes the remembered time back exactly when it resets it, and then to zero; whatever the time was, and
      whatever Forgets race it. */
  lemma GoesBackExactly(f: Follower, pk: PubKey, j: Journey)
    requires pk in f.imported
    ensures var g := Synced(f, pk, j).0;
            && (pk in g.imported && g.imported[pk] < f.imported[pk] <==> Resets(f, pk, j) && !Forgets(j))
            && (Resets(f, pk, j) && !Forgets(j) ==> g.imported[pk] == 0)
            && (!Forgets(j) ==> pk in g.imported)
  {
    if Forgets(j) {
      ForgottenOrKept(f, pk, j);
    } else {
      assert ForgetIf(f, pk, false) == f;
      if j.snapshot.Some? { assert j.snapshot.value == (j.snapshot.value.0, j.snapshot.value.1); }
    }
  }

  lemma ForgottenOrKept(f: Follower, pk: PubKey, j: Journey)
    requires Forgets(j) && pk in f.imported
    ensures var g := Synced(f, pk, j).0;
            pk !in g.imported || g.imported[pk] == f.imported[pk]
  {
    var outcome := Synced(f, pk, j).1;
    if j.forgetEarly || (j.forgetMid && Fetched(outcome)) || (j.forgetLate && Checked(outcome)) {
      ForgetWins(f, pk, j); }
  }

  /** What one Sync comes to where no Forget races it, and what it remembers: a snapshot is imported exactly when the
      pointer is new, the followed key signed it, it is not a rollback and the ingest succeeds; the pointer is
      remembered exactly when it was imported or rolled back; and nothing about another key ever changes. */
  lemma SyncOutcomes(f: Follower, pk: PubKey, j: Journey, other: PubKey)
    requires !Forgets(j)
    ensures var (g, outcome) := Synced(f, pk, j);
            var isNew := j.pointer.Some? && !(pk in f.lastIH && f.lastIH[pk] == j.pointer.value);
            var own := isNew && j.snapshot.Some? && j.snapshot.value.0 == pk;
            var back := own && pk in f.imported && j.snapshot.value.1 != 0 && j.snapshot.value.1 < f.imported[pk];
            && (outcome.Imported? <==> own && !back && j.ingests)
            && (outcome.Rollback? <==> back)
            && (outcome.Imported? ==> outcome.at == j.snapshot.value.1)
            && (if outcome.Imported? then
                  g == f.(imported := f.imported[pk := outcome.at], lastIH := f.lastIH[pk := j.pointer.value])
                else if outcome.Rollback? then g == f.(lastIH := f.lastIH[pk := j.pointer.value])
                else g == f)
  {
  }

  /** The time remembered after the first k Syncs. */
  function TimeAfter(f: Follower, pk: PubKey, js: seq<Journey>, k: nat): Int64
    requires k <= |js|
  {
    var g := SyncRun(f, pk, js[..k]);
    if pk in g.imported then g.imported[pk] else 0
  }

  ghost predicate NeverGoesBack(f: Follower, pk: PubKey, js: seq<Journey>) {
    forall i, k :: 0 <= i <= k <= |js| ==> TimeAfter(f, pk, js, i) <= TimeAfter(f, pk, js, k)
  }

  lemma {:induction false} StaysRemembered(f: Follower, pk: PubKey, js: seq<Journey>, k: nat)
    requires pk in f.imported && (forall j :: j in js ==> !Forgets(j)) && k <= |js|
    ensures pk in SyncRun(f, pk, js[..k]).imported
    decreases k
  {
    hide Synced;
    if k > 0 {
      assert js[..k][..k - 1] == js[..k - 1] && js[k - 1] in js;
      StaysRemembered(f, pk, js, k - 1);
      GoesBackExactly(SyncRun(f, pk, js[..k - 1]), pk, js[k - 1]);
    }
  }

  /** Sync k of a run takes the time back exactly when it resets it. */
  lemma StepGoesBack(f: Follower, pk: PubKey, js: seq<Journey>, k: nat)
    requires pk in f.imported && (forall j :: j in js ==> !Forgets(j)) && k < |js|
    ensures TimeAfter(f, pk, js, k + 1) < TimeAfter(f, pk, js, k) <==> Resets(SyncRun(f, pk, js[..k]), pk, js[k])
  {
    hide Synced, Resets;
    assert js[..k + 1][..k] == js[..k] && js[k] in js;
    StaysRemembered(f, pk, js, k);
    GoesBackExactly(SyncRun(f, pk, js[..k]), pk, js[k]);
  }

  lemma {:induction false} StepsUp(f: Follower, pk: PubKey, js: seq<Journey>, i: nat, k: nat)
    requires i <= k <= |js| && forall m :: i <= m < k ==> TimeAfter(f, pk, js, m) <= TimeAfter(f, pk, js, m + 1)
    ensures TimeAfter(f, pk, js, i) <= TimeAfter(f, pk, js, k)
    decreases k
  {
    hide TimeAfter;
    if i < k { StepsUp(f, pk, js, i, k - 1); }
  }

  /** Followed without Forget, the remembered time never goes back exactly when no Sync of the run resets it. */
  lemma NeverGoesBackExactly(f: Follower, pk: PubKey, js: seq<Journey>)
    requires pk in f.imported && forall j :: j in js ==> !Forgets(j)
    ensures NeverGoesBack(f, pk, js) <==> forall k :: 0 <= k < |js| ==> !Resets(SyncRun(f, pk, js[..k]), pk, js[k])
  {
    hide TimeAfter, Resets, SyncRun;
    forall k | 0 <= k < |js|
      ensures TimeAfter(f, pk, js, k) <= TimeAfter(f, pk, js, k + 1) <==> !Resets(SyncRun(f, pk, js[..k]), pk, js[k])
    {
      StepGoesBack(f, pk, js, k);
    }
    if forall k :: 0 <= k < |js| ==> !Resets(SyncRun(f, pk, js[..k]), pk, js[k]) {
      forall i, k | 0 <= i <= k <= |js| ensures TimeAfter(f, pk, js, i) <= TimeAfter(f, pk, js, k) {
        StepsUp(f, pk, js, i, k);
      }
    } else {
      var k :| 0 <= k < |js| && Resets(SyncRun(f, pk, js[..k]), pk, js[k]);
      assert TimeAfter(f, pk, js, k + 1) < TimeAfter(f, pk, js, k);
    }
  }

  /** Followed without Forget and without zero times, the remembered time never goes back. */
  lemma ImportedNeverRegresses(f: Follower, pk: PubKey, js: seq<Journey>)
    requires forall j :: j in js ==> !Forgets(j) && (j.snapshot.Some? ==> j.snapshot.value.1 != 0)
    requires pk in f.imported
    ensures var g := SyncRun(f, pk, js);
            pk in g.imported && f.imported[pk] <= g.imported[pk]
  {
    hide Synced;
    NeverGoesBackExactly(f, pk, js);
    StaysRemembered(f, pk, js, |js|);
    assert js[..|js|] == js && js[..0] == [];
    forall k | 0 <= k < |js| ensures !Resets(SyncRun(f, pk, js[..k]), pk, js[k]) {
      assert js[k] in js;
    }
    assert TimeAfter(f, pk, js, 0) <= TimeAfter(f, pk, js, |js|);
  }

  /** A zero time passes the guard and resets what later snapshots are compared with. */
  lemma ZeroTimeBypasses(pk: PubKey, before: Bytes20, after: Bytes20)
    requires before != after
    ensures var f := Follower(map[pk := 100], map[pk := before], map[]);
            Synced(f, pk, Journey(Some(after), Some((pk, 0)), true, false, false, false)) ==
              (Follower(map[pk := 0], map[pk := after], map[]), Imported(0))
  {
    var f := Follower(map[pk := 100], map[pk := before], map[]);
    assert f.imported[pk := 0] == map[pk := 0];
    assert f.lastIH[pk := after] == map[pk := after];
  }

  /** A follower at published snapshot i that resolves snapshot j of the same publisher lifetime: it is turned away as a
      rollback exactly when j's time is earlier, so never when j is newer, and always when j is older with other
      content. */
  lemma NewerNeverRolledBack(c: Crypto, infohash: (seq<bytes>, Int64) -> Bytes20, ws: seq<Weather>, latest: Int64,
                             f: Follower, pk: PubKey, i: nat, j: nat, ingests: bool)
    requires forall w :: w in ws ==> 0 < w.clock <= latest
    requires 0 <= latest && latest + |ws| <= MAX_INT64
    requires var p := RefreshRun(c, infohash, NewPublisher(), ws).published;
             i < |p| && j < |p| && pk in f.imported && f.imported[pk] == p[i].at
             && (pk in f.lastIH ==> f.lastIH[pk] != p[j].infohash)
    ensures var p := RefreshRun(c, infohash, NewPublisher(), ws).published;
            var (g, outcome) :=
              Synced(f, pk, Journey(Some(p[j].infohash), Some((pk, p[j].at)), ingests, false, false, false));
            && (outcome == Rollback <==> p[j].at < p[i].at)
            && (i <= j ==> outcome == if ingests then Imported(p[j].at) else IngestFailed)
            && (j < i && p[j].fp != p[i].fp ==> outcome == Rollback && g.imported == f.imported)
  {
    hide RefreshRun;
    PublishedMonotone(c, infohash, ws, latest);
  }
}
