/** The keyword manifest (internal/dhtindex/manifest.go): hit lists kept under the BEP 44 cap of their bencoded form
    (contracts/dhtschema) by evicting the oldest hits and trimming a lone long name. */
module Manifest {
  import opened Wrappers
  import opened Bytes
  import opened Records
  import opened Bencode
  import opened Collections

  /** The cap BEP 44 puts on the bencoded value of a mutable item. */
  const MAX_VALUE_BYTES := 1000
  const IH_BYTES := 20

  datatype Hit = Hit(ih: bytes, n: bytes, s: Int64, f: Int64, sz: Int64)

  // ---- the bencoded value ----

  const KEY_F: bytes := [102]
  const KEY_HITS: bytes := [104, 105, 116, 115]
  const KEY_N: bytes := [110]
  const KEY_S: bytes := [115]
  const KEY_SZ: bytes := [115, 122]
  const KEY_TS: bytes := [116, 115]

  function OmitZero(key: bytes, i: int): seq<Entry> {
    if i == 0 then [] else [Entry(key, Int(i))]
  }

  function OmitEmpty(key: bytes, s: bytes): seq<Entry> {
    if s == [] then [] else [Entry(key, Str(s))]
  }

  /** A hit as a dictionary, keys in the order f < ih < n < s < sz, zero fields omitted except ih. */
  function HitValue(h: Hit): Value {
    Dict(OmitZero(KEY_F, h.f) + ([Entry(KEY_IH, Str(h.ih))]
      + (OmitEmpty(KEY_N, h.n) + (OmitZero(KEY_S, h.s) + OmitZero(KEY_SZ, h.sz)))))
  }

  function HitValues(hits: seq<Hit>): (vs: seq<Value>)
    ensures |vs| == |hits|
  {
    seq(|hits|, i requires 0 <= i < |hits| => HitValue(hits[i]))
  }

  /** The published value; `more` and `next_pk` are never set. */
  function KeywordValue(hits: seq<Hit>, ts: Int64): Value {
    Dict([Entry(KEY_HITS, List(HitValues(hits))), Entry(KEY_TS, Int(ts))])
  }

  /** EstimateValueSize on a value without a timestamp. */
  function EstimateValueSize(hits: seq<Hit>, now: Int64): nat {
    |Encode(KeywordValue(hits, now))|
  }

  /** EncodeValue on a value without a timestamp. */
  function EncodeValue(hits: seq<Hit>, now: Int64): Option<bytes> {
    var out := Encode(KeywordValue(hits, now));
    if |out| > MAX_VALUE_BYTES then None else Some(out)
  }

  /** What is put into a hit's dictionary: the infohash always, the other fields where they are set, keys ascending. */
  lemma HitFields(h: Hit, e: Entry)
    ensures var es := HitValue(h).entries;
            && (e in es <==> e == Entry([105, 104], Str(h.ih)) || (h.n != [] && e == Entry([110], Str(h.n)))
                             || (h.s != 0 && e == Entry([115], Int(h.s))) || (h.f != 0 && e == Entry([102], Int(h.f)))
                             || (h.sz != 0 && e == Entry([115, 122], Int(h.sz))))
            && forall i, j :: 0 <= i < j < |es| ==> Less(es[i].key, es[j].key)
  {
    assert Less(KEY_F, KEY_IH) && Less(KEY_F, KEY_N) && Less(KEY_F, KEY_S) && Less(KEY_F, KEY_SZ);
    assert Less(KEY_IH, KEY_N) && Less(KEY_IH, KEY_S) && Less(KEY_IH, KEY_SZ);
    assert Less(KEY_N, KEY_S) && Less(KEY_N, KEY_SZ);
    assert Less(KEY_S, KEY_SZ) by { assert KEY_S <= KEY_SZ; }
  }

  /** A value is refused exactly when its bytes are over the cap; otherwise they decode to the hits and the clock. */
  lemma ValueBack(hits: seq<Hit>, now: Int64)
    ensures EncodeValue(hits, now).Some? <==> EstimateValueSize(hits, now) <= 1000
    ensures EncodeValue(hits, now).Some? ==>
              Parse(EncodeValue(hits, now).value) ==
                Some((Dict([Entry([104, 105, 116, 115], List(HitValues(hits))), Entry([116, 115], Int(now))]), []))
  {
    var v := KeywordValue(hits, now);
    EncodeParse(v, []);
    assert Encode(v) + [] == Encode(v);
  }

  /** Clocks with ten decimal digits: September 2001 to November 2286. */
  predicate TenDigits(now: Int64) {
    1_000_000_000 <= now < 10_000_000_000
  }

  function HitSize(h: Hit): nat {
    |Encode(HitValue(h))|
  }

  function HitSizes(hits: seq<Hit>): nat {
    if hits == [] then 0 else HitSize(hits[0]) + HitSizes(hits[1..])
  }

  /** The encoded size under any ten-digit clock. */
  function Weight(hits: seq<Hit>): nat {
    26 + HitSizes(hits)
  }

  lemma {:induction false} ItemsLength(hits: seq<Hit>)
    ensures |EncodeItems(HitValues(hits))| == HitSizes(hits)
    decreases |hits|
  {
    hide HitValue;
    if hits != [] {
      ItemsLength(hits[1..]);
      assert HitValues(hits)[1..] == HitValues(hits[1..]);
    }
  }

  lemma EntriesLength(a: seq<Entry>, b: seq<Entry>)
    ensures |EncodeEntries(a + b)| == |EncodeEntries(a)| + |EncodeEntries(b)|
    decreases |a|
  {
    if a == [] {
      assert a + b == b;
    } else {
      EntriesLength(a[1..], b);
      assert (a + b)[1..] == a[1..] + b;
    }
  }

  lemma OneEntry(e: Entry)
    ensures EncodeEntries([e]) == EncodeEntry(e)
  {
    assert [e][1..] == [];
  }

  /** The size of a value does not depend on which ten-digit clock stamps it. */
  lemma EstimateIsWeight(hits: seq<Hit>, now: Int64)
    requires TenDigits(now)
    ensures EstimateValueSize(hits, now) == Weight(hits)
  {
    hide HitValues, HitSizes, Decimal;
    var e, t := Entry(KEY_HITS, List(HitValues(hits))), Entry(KEY_TS, Int(now));
    assert [e, t] == [e] + [t];
    EntriesLength([e], [t]);
    OneEntry(e);
    OneEntry(t);
    ItemsLength(hits);
    SmallDecimal();
    Pow10Values();
    Pow10Nine();
    DecimalLength(now, 10);
    DecimalLength(now, 9);
  }

  lemma SmallDecimal()
    ensures |Decimal(1)| == 1 && |Decimal(2)| == 1 && |Decimal(4)| == 1 && |Decimal(20)| == 2
  {
    assert Decimal(2) == [ZERO + 2];
  }

  lemma Pow10Nine()
    ensures Pow10(9) == 1_000_000_000
  {
    Pow10Values();
    assert Pow10(10) == 10 * Pow10(9);
  }

  lemma IntLength(i: Int64)
    ensures |EncodeInt(i)| <= 22
  {
    hide Decimal;
    Pow10Values();
    var n: int := i;
    DecimalLength(if n < 0 then 0 - n else n, 19);
  }

  /** The size of a hit beside its name. */
  lemma HitLength(h: Hit)
    ensures HitSize(h) == |EncodeEntries(OmitEmpty(KEY_N, h.n))| + HitSize(h.(n := []))
    ensures |h.ih| == IH_BYTES && h.n == [] ==> HitSize(h) <= 105
    ensures |h.ih| == IH_BYTES && h.n == [] && h.s == 0 && h.f == 0 && h.sz == 0 ==> HitSize(h) == 29
  {
    hide Decimal, EncodeEntries;
    var f, ih, n, s, sz := OmitZero(KEY_F, h.f), [Entry(KEY_IH, Str(h.ih))], OmitEmpty(KEY_N, h.n),
      OmitZero(KEY_S, h.s), OmitZero(KEY_SZ, h.sz);
    EntriesLength(f, ih + (n + (s + sz)));
    EntriesLength(ih, n + (s + sz));
    EntriesLength(n, s + sz);
    EntriesLength(f, ih + ([] + (s + sz)));
    EntriesLength(ih, [] + (s + sz));
    EntriesLength([], s + sz);
    EntriesLength(s, sz);
    OneEntry(ih[0]);
    SmallDecimal();
    NoEntries();
    OptionalLength(KEY_F, h.f);
    OptionalLength(KEY_S, h.s);
    OptionalLength(KEY_SZ, h.sz);
  }

  lemma NoEntries()
    ensures EncodeEntries([]) == []
  {
  }

  lemma OptionalLength(key: bytes, i: Int64)
    requires |key| == 1 || |key| == 2
    ensures |EncodeEntries(OmitZero(key, i))| <= 24 + |key|
    ensures i == 0 ==> |EncodeEntries(OmitZero(key, i))| == 0
  {
    SmallDecimal();
    IntLength(i);
    OneEntry(Entry(key, Int(i)));
  }

  // ---- adding a hit ----

  function Position(hits: seq<Hit>, ih: bytes): (i: nat)
    ensures i <= |hits| && (i < |hits| ==> hits[i].ih == ih) && forall k :: 0 <= k < i ==> hits[k].ih != ih
  {
    if hits == [] then 0 else if hits[0].ih == ih then 0 else 1 + Position(hits[1..], ih)
  }

  /** Replace the hit of the same infohash, or append. */
  function Entered(hits: seq<Hit>, hit: Hit): seq<Hit> {
    var i := Position(hits, hit.ih);
    if i < |hits| then hits[i := hit] else hits + [hit]
  }

  /** Drop the oldest hits while the value is over the cap, but never the last one. */
  function Evicted(hits: seq<Hit>, now: Int64): seq<Hit>
    decreases |hits|
  {
    if |hits| > 1 && EstimateValueSize(hits, now) > MAX_VALUE_BYTES then Evicted(hits[1..], now) else hits
  }

  function Fitted(h: Hit, now: Int64): Hit
    decreases |h.n|
  {
    if |h.n| > 0 && EstimateValueSize([h], now) > MAX_VALUE_BYTES then Fitted(h.(n := h.n[..|h.n| * 3 / 4]), now) else h
  }

  function Settled(hits: seq<Hit>, now: Int64): seq<Hit> {
    var kept := Evicted(hits, now);
    if |kept| == 1 then [Fitted(kept[0], now)] else kept
  }

  ghost predicate DistinctHits(hits: seq<Hit>) {
    forall i, j :: 0 <= i < j < |hits| ==> hits[i].ih != hits[j].ih
  }

  /** A publishable entry: nonempty, distinct infohashes, within the cap under any ten-digit clock. */
  ghost predicate Publishable(hits: seq<Hit>) {
    hits != [] && DistinctHits(hits) && (forall h :: h in hits ==> |h.ih| == IH_BYTES)
      && Weight(hits) <= MAX_VALUE_BYTES
  }

  /** Trimming ends with a hit that fits; it changes nothing but the name, and nothing at all on a hit that fits. */
  lemma {:induction false} FittedFits(h: Hit, now: Int64)
    requires TenDigits(now) && |h.ih| == IH_BYTES
    ensures Weight([Fitted(h, now)]) <= MAX_VALUE_BYTES
    ensures Fitted(h, now) == h.(n := Fitted(h, now).n) && Fitted(h, now).n <= h.n
    ensures Weight([h]) <= MAX_VALUE_BYTES ==> Fitted(h, now) == h
    decreases |h.n|
  {
    hide EstimateValueSize, HitSize;
    EstimateIsWeight([h], now);
    assert [h][1..] == [] && HitSizes([h]) == HitSize(h);
    if |h.n| > 0 && EstimateValueSize([h], now) > MAX_VALUE_BYTES {
      FittedFits(h.(n := h.n[..|h.n| * 3 / 4]), now);
    } else if h.n == [] {
      HitLength(h);
      assert Fitted(h, now) == h;
    }
  }

  /** Eviction keeps a nonempty suffix, and one that fits unless a single hit is left. */
  lemma {:induction false} EvictedKeeps(hits: seq<Hit>, now: Int64)
    requires TenDigits(now) && hits != []
    ensures var kept := Evicted(hits, now);
            kept != [] && |kept| <= |hits| && kept == hits[|hits| - |kept|..]
            && (|kept| > 1 ==> Weight(kept) <= MAX_VALUE_BYTES)
    ensures Weight(hits) <= MAX_VALUE_BYTES ==> Evicted(hits, now) == hits
    decreases |hits|
  {
    hide EstimateValueSize, HitSizes;
    EstimateIsWeight(hits, now);
    if |hits| > 1 && EstimateValueSize(hits, now) > MAX_VALUE_BYTES {
      EvictedKeeps(hits[1..], now);
      var kept := Evicted(hits, now);
      assert hits[1..][|hits| - 1 - |kept|..] == hits[|hits| - |kept|..];
    }
  }

  /** Twenty-byte infohashes, no two alike. */
  ghost predicate WellKept(hits: seq<Hit>) {
    DistinctHits(hits) && forall h :: h in hits ==> |h.ih| == IH_BYTES
  }

  lemma SuffixWellKept(hits: seq<Hit>, n: nat)
    requires n < |hits| && WellKept(hits)
    ensures var kept := hits[n..];
            WellKept(kept) && kept[|kept| - 1] == hits[|hits| - 1] && |kept[0].ih| == IH_BYTES
  {
    var kept := hits[n..];
    forall i, j | 0 <= i < j < |kept| ensures kept[i].ih != kept[j].ih {
      assert hits[n + i].ih != hits[n + j].ih;
    }
    forall h | h in kept ensures |h.ih| == IH_BYTES {
      assert h in hits;
    }
    assert kept[0] in hits;
  }

  /** Eviction and trimming settle any well-kept list into a publishable entry that ends as the list did. */
  lemma SettledLast(hits: seq<Hit>, now: Int64)
    requires TenDigits(now) && hits != [] && WellKept(hits)
    ensures var after, hit := Settled(hits, now), hits[|hits| - 1];
            Publishable(after) && var last := after[|after| - 1];
            last == hit.(n := last.n) && last.n <= hit.n && (|after| > 1 ==> last == hit)
  {
    hide EstimateValueSize, HitSizes, Evicted, Fitted, Weight;
    var kept := Evicted(hits, now);
    EvictedKeeps(hits, now);
    SuffixWellKept(hits, |hits| - |kept|);
    if |kept| == 1 { FittedFits(kept[0], now); }
  }

  /** Adding a hit leaves a publishable entry. The hit added last is never the one evicted when it was appended: it
      stays at the end, with at most its name trimmed, and untrimmed whenever another hit is left beside it. */
  lemma SettledPublishable(hits: seq<Hit>, hit: Hit, now: Int64)
    requires TenDigits(now) && (hits == [] || Publishable(hits)) && |hit.ih| == IH_BYTES
    ensures var after := Settled(Entered(hits, hit), now);
            Publishable(after) &&
            (Position(hits, hit.ih) == |hits| ==>
               var last := after[|after| - 1];
               last == hit.(n := last.n) && last.n <= hit.n && (|after| > 1 ==> last == hit))
  {
    hide Settled, Weight;
    EnteredDistinct(hits, hit);
    SettledLast(Entered(hits, hit), now);
  }

  lemma EnteredDistinct(hits: seq<Hit>, hit: Hit)
    requires DistinctHits(hits) && (forall h :: h in hits ==> |h.ih| == IH_BYTES) && |hit.ih| == IH_BYTES
    ensures var entered := Entered(hits, hit);
            entered != [] && DistinctHits(entered) && forall h :: h in entered ==> |h.ih| == IH_BYTES
  {
  }

  lemma {:induction false} SuffixLighter(hits: seq<Hit>, i: nat)
    requires i <= |hits|
    ensures HitSizes(hits[i..]) <= HitSizes(hits)
    decreases i
  {
    hide HitSize;
    if i > 0 {
      SuffixLighter(hits[1..], i - 1);
      assert hits[1..][i - 1..] == hits[i..];
    } else {
      assert hits[0..] == hits;
    }
  }

  /** Eviction leaves the hit at index i in place exactly when that hit and those after it fit, or it is the last. */
  lemma {:induction false} EvictedReaches(hits: seq<Hit>, i: nat, now: Int64)
    requires TenDigits(now) && i < |hits|
    ensures |hits| - |Evicted(hits, now)| <= i <==> i == |hits| - 1 || Weight(hits[i..]) <= MAX_VALUE_BYTES
    decreases |hits|
  {
    hide EstimateValueSize, HitSizes;
    EstimateIsWeight(hits, now);
    EvictedKeeps(hits, now);
    SuffixLighter(hits, i);
    if |hits| > 1 && EstimateValueSize(hits, now) > MAX_VALUE_BYTES {
      if i == 0 {
        EvictedKeeps(hits[1..], now);
        assert hits[0..] == hits;
      } else {
        EvictedReaches(hits[1..], i - 1, now);
        assert hits[1..][i - 1..] == hits[i..];
      }
    }
  }

  /** A replaced hit stays exactly when it is the last of the list, or it and the hits after it fit: something the
      caller can weigh before the call. */
  lemma ReplacedStays(hits: seq<Hit>, hit: Hit, now: Int64)
    requires TenDigits(now) && Publishable(hits) && |hit.ih| == IH_BYTES && Position(hits, hit.ih) < |hits|
    ensures var after, i := Settled(Entered(hits, hit), now), Position(hits, hit.ih);
            Position(after, hit.ih) < |after| <==>
              i == |hits| - 1 || Weight([hit] + hits[i + 1..]) <= MAX_VALUE_BYTES
  {
    hide EstimateValueSize, HitSizes, Evicted, Fitted, Weight, Position;
    var i, entered := Position(hits, hit.ih), Entered(hits, hit);
    EnteredDistinct(hits, hit);
    EvictedReaches(entered, i, now);
    assert entered[i..] == [hit] + hits[i + 1..];
    KeptAfterSettling(hits, hit, now);
  }

  lemma KeptAfterSettling(hits: seq<Hit>, hit: Hit, now: Int64)
    requires TenDigits(now) && Publishable(hits) && |hit.ih| == IH_BYTES && Position(hits, hit.ih) < |hits|
    ensures var after, kept := Settled(Entered(hits, hit), now), Evicted(Entered(hits, hit), now);
            Position(after, hit.ih) < |after| <==> |hits| - |kept| <= Position(hits, hit.ih)
  {
    hide EstimateValueSize, HitSizes, Evicted, Fitted, Weight, Position;
    var i, entered := Position(hits, hit.ih), Entered(hits, hit);
    EnteredDistinct(hits, hit);
    EvictedKeeps(entered, now);
    var kept, after := Evicted(entered, now), Settled(entered, now);
    var gone := |hits| - |kept|;
    if |kept| == 1 {
      assert kept[0] in entered;
      FittedFits(kept[0], now);
    }
    forall k | 0 <= k < |after| ensures after[k].ih == hit.ih <==> gone + k == i {
      var m := gone + k;
      assert after[k].ih == entered[m].ih;
      if m != i { assert entered[i].ih == hit.ih; }
    }
    if gone <= i { assert after[i - gone].ih == hit.ih; }
  }

  /** It can go: replacing the oldest of two hits by one with a 900-byte name evicts the replacement itself. */
  lemma ReplacedOldestCanGo(ih: bytes, other: bytes, now: Int64)
    requires TenDigits(now) && |ih| == |other| == IH_BYTES && ih != other
    ensures var hits := [Hit(ih, [], 0, 0, 0), Hit(other, Zeros(400), 0, 0, 0)];
            Publishable(hits) && Settled(Entered(hits, Hit(ih, Zeros(900), 0, 0, 0)), now) == [hits[1]]
  {
    hide HitSize, EstimateValueSize, Zeros;
    var old0, h1, new0 := Hit(ih, [], 0, 0, 0), Hit(other, Zeros(400), 0, 0, 0), Hit(ih, Zeros(900), 0, 0, 0);
    NamedSize(ih, 0);
    NamedSize(other, 400);
    NamedSize(ih, 900);
    var hits, entered := [old0, h1], [new0, h1];
    assert hits[1..] == [h1] && entered[1..] == [h1] && [h1][1..] == [];
    assert HitSizes(hits) == HitSize(old0) + HitSizes([h1]) && HitSizes([h1]) == HitSize(h1);
    assert HitSizes(entered) == HitSize(new0) + HitSizes([h1]);
    assert Entered(hits, new0) == entered;
    EstimateIsWeight(entered, now);
    EstimateIsWeight([h1], now);
    assert Evicted(entered, now) == Evicted([h1], now) == [h1];
    FittedFits(h1, now);
  }

  lemma NamedSize(ih: bytes, n: nat)
    requires |ih| == IH_BYTES && n in {0, 400, 900}
    ensures HitSize(Hit(ih, Zeros(n), 0, 0, 0)) == if n == 0 then 29 else 36 + n
  {
    hide HitSize, Decimal;
    HitLength(Hit(ih, Zeros(n), 0, 0, 0));
    HitLength(Hit(ih, [], 0, 0, 0));
    if n > 0 {
      OneEntry(Entry(KEY_N, Str(Zeros(n))));
      SmallDecimal();
      Pow10Values();
      DecimalLength(n, 3);
      DecimalLength(n, 2);
    } else {
      assert Zeros(0) == [];
    }
  }

  // ---- removing hits ----

  function Scrubbed(hits: seq<Hit>, ih: bytes): seq<Hit> {
    if hits == [] then []
    else if hits[|hits| - 1].ih == ih then Scrubbed(hits[..|hits| - 1], ih)
    else Scrubbed(hits[..|hits| - 1], ih) + [hits[|hits| - 1]]
  }

  lemma {:induction false} HitSizesAppend(a: seq<Hit>, b: seq<Hit>)
    ensures HitSizes(a + b) == HitSizes(a) + HitSizes(b)
    decreases |a|
  {
    hide HitSize;
    if a == [] {
      assert a + b == b;
    } else {
      HitSizesAppend(a[1..], b);
      assert (a + b)[1..] == a[1..] + b;
    }
  }

  /** Scrubbing removes every hit of the infohash, keeps the others in place, and makes the value no larger. */
  lemma {:induction false} ScrubbedKeeps(hits: seq<Hit>, ih: bytes)
    ensures var out := Scrubbed(hits, ih);
            (forall h :: h in out <==> h in hits && h.ih != ih) && HitSizes(out) <= HitSizes(hits)
            && (DistinctHits(hits) ==> DistinctHits(out)) && ((exists h :: h in hits && h.ih == ih) <==> |out| < |hits|)
            && |out| <= |hits|
    decreases |hits|
  {
    hide HitSize, HitSizes;
    if hits == [] {
    } else {
      var front, h := hits[..|hits| - 1], hits[|hits| - 1];
      assert hits == front + [h];
      ScrubbedKeeps(front, ih);
      HitSizesAppend(front, [h]);
      HitSizesAppend(Scrubbed(front, ih), [h]);
    }
  }

  function NotOf(ih: bytes): Hit -> bool {
    (h: Hit) => h.ih != ih
  }

  /** Scrubbing is filtering: the other hits, in order. */
  lemma {:induction false} ScrubbedFilters(hits: seq<Hit>, ih: bytes)
    ensures Filters(hits, NotOf(ih), Scrubbed(hits, ih))
    ensures Scrubbed(hits, ih) != [] <==> exists h :: h in hits && h.ih != ih
    decreases |hits|
  {
    if hits == [] {
      FiltersNothing(NotOf(ih));
    } else {
      var front, last := hits[..|hits| - 1], hits[|hits| - 1];
      assert hits == front + [last];
      ScrubbedFilters(front, ih);
      FiltersMore(front, NotOf(ih), Scrubbed(front, ih), last);
    }
  }

  /** The hits with one of this infohash replaced by the new hit where it stands, or the new hit at the end. */
  lemma EnteredAt(hits: seq<Hit>, hit: Hit)
    ensures var entered := Entered(hits, hit);
            if exists i :: 0 <= i < |hits| && hits[i].ih == hit.ih then
              |entered| == |hits| && exists i :: ReplacesAt(hits, hit, entered, i)
            else entered == hits + [hit]
  {
    var i := Position(hits, hit.ih);
    if i < |hits| { assert ReplacesAt(hits, hit, Entered(hits, hit), i); }
  }

  ghost predicate ReplacesAt(hits: seq<Hit>, hit: Hit, entered: seq<Hit>, i: int) {
    && 0 <= i < |hits| && hits[i].ih == hit.ih && entered == hits[i := hit]
    && forall k :: 0 <= k < i ==> hits[k].ih != hit.ih
  }

  /** What AddHit leaves of a list with the hit entered: the hits from some place on, that place being the first from
      which everything fits, or the last of the list; and only a lone hit is trimmed. */
  lemma SettledSuffix(hits: seq<Hit>, now: Int64) returns (n: nat)
    requires TenDigits(now) && hits != []
    ensures n < |hits| && |Settled(hits, now)| == |hits| - n
    ensures |hits| - n > 1 ==> Settled(hits, now) == hits[n..]
    ensures n == |hits| - 1 || Weight(hits[n..]) <= MAX_VALUE_BYTES
    ensures forall k :: 0 <= k < n ==> Weight(hits[k..]) > MAX_VALUE_BYTES
  {
    hide EstimateValueSize, HitSizes, Evicted, Fitted, Weight;
    var kept := Evicted(hits, now);
    EvictedKeeps(hits, now);
    n := |hits| - |kept|;
    EvictedReaches(hits, n, now);
    forall k | 0 <= k < n ensures Weight(hits[k..]) > MAX_VALUE_BYTES {
      EvictedReaches(hits, k, now);
    }
  }

  // ---- the manifest ----

  type Entries = map<bytes, seq<Hit>>

  ghost predicate AllPublishable(entries: Entries) {
    forall kw :: kw in entries ==> kw != [] && Publishable(entries[kw])
  }

  function HitsOf(entries: Entries, kw: bytes): seq<Hit> {
    if kw in entries then entries[kw] else []
  }

  function WithHit(entries: Entries, kw: bytes, hit: Hit, now: Int64): Entries {
    if kw == [] then entries else entries[kw := Settled(Entered(HitsOf(entries, kw), hit), now)]
  }

  function WithoutHits(entries: Entries, ih: bytes): Entries {
    if ih == [] then entries
    else map kw | kw in entries && Scrubbed(entries[kw], ih) != [] :: Scrubbed(entries[kw], ih)
  }

  ghost function Touched(entries: Entries, ih: bytes): set<bytes> {
    set kw | kw in entries && Scrubbed(entries[kw], ih) != entries[kw]
  }

  class Manifest {
    /** Hit lists by keyword. */
    var entries: Entries

    constructor ()
      ensures entries == map[]
    {
      entries := map[];
    }

    /** None on the empty keyword, else the hit count after the update. */
    method AddHit(kw: bytes, hit: Hit, now: Int64) returns (count: Option<nat>)
      modifies this
      ensures entries == WithHit(old(entries), kw, hit, now)
      ensures forall other :: other != kw ==>
                (other in entries <==> other in old(entries)) &&
                (other in entries ==> entries[other] == old(entries)[other])
      ensures count == if kw == [] then None else Some(|entries[kw]|)
    {
      hide EstimateValueSize;
      if kw == [] { return None; }
      var hits := if kw in entries then entries[kw] else [];
      ghost var was := hits;
      var replaced := false;
      var i := 0;
      while i < |hits| && !replaced
        invariant 0 <= i <= |hits| && entries == old(entries)
        invariant !replaced ==> hits == was && forall k :: 0 <= k < i ==> hits[k].ih != hit.ih
        invariant replaced ==> Position(was, hit.ih) < |was| && hits == was[Position(was, hit.ih) := hit]
        decreases |hits| - i, !replaced
      {
        if hits[i].ih == hit.ih {
          PositionIs(hits, hit.ih, i);
          hits := hits[i := hit];
          replaced := true;
        } else {
          i := i + 1;
        }
      }
      if !replaced { hits := hits + [hit]; }
      assert hits == Entered(was, hit);
      while |hits| > 1 && EstimateValueSize(hits, now) > MAX_VALUE_BYTES
        invariant Evicted(hits, now) == Evicted(Entered(was, hit), now) && entries == old(entries)
        decreases |hits|
      {
        hits := hits[1..];
      }
      assert Evicted(hits, now) == hits;
      if |hits| == 1 {
        var fitted := FitHitToCap(hits[0], now);
        hits := [fitted];
      }
      entries := entries[kw := hits];
      count := Some(|hits|);
    }

    method FitHitToCap(h: Hit, now: Int64) returns (r: Hit)
      ensures r == Fitted(h, now)
    {
      hide EstimateValueSize;
      r := h;
      while |r.n| > 0 && EstimateValueSize([r], now) > MAX_VALUE_BYTES
        invariant Fitted(r, now) == Fitted(h, now)
        decreases |r.n|
      {
        r := r.(n := r.n[..|r.n| * 3 / 4]);
      }
    }

    /** How many keywords held the infohash. */
    method RemoveAllHits(ih: bytes) returns (touched: nat)
      modifies this
      ensures entries == WithoutHits(old(entries), ih)
      ensures touched == if ih == [] then 0
                         else |Touched(old(entries), ih)|
      ensures ih == [] ==> entries == old(entries)
      ensures ih != [] ==> forall kw :: kw in entries <==>
                kw in old(entries) && exists h :: h in old(entries)[kw] && h.ih != ih
      ensures ih != [] ==> forall kw :: kw in entries ==> Filters(old(entries)[kw], NotOf(ih), entries[kw])
    {
      hide Scrubbed;
      if |ih| == 0 { return 0; }
      touched := 0;
      var left := entries.Keys;
      ghost var was, hit: set<bytes> := entries, {};
      while left != {}
        invariant left <= was.Keys
        invariant forall kw :: kw in entries <==> kw in was && (kw in left || Scrubbed(was[kw], ih) != [])
        invariant forall kw :: kw in entries ==> entries[kw] == if kw in left then was[kw] else Scrubbed(was[kw], ih)
        invariant touched == |hit|
        invariant forall kw :: kw in hit <==> kw in was && kw !in left && Scrubbed(was[kw], ih) != was[kw]
        decreases |left|
      {
        var kw :| kw in left;
        left := left - {kw};
        var out, hadIt := Scrub(entries[kw], ih);
        if hadIt { touched, hit := touched + 1, hit + {kw}; }
        entries := if |out| == 0 then entries - {kw} else entries[kw := out];
      }
      assert hit == Touched(was, ih);
      assert entries == WithoutHits(was, ih);
      forall kw | kw in was
        ensures Filters(was[kw], NotOf(ih), Scrubbed(was[kw], ih))
        ensures Scrubbed(was[kw], ih) != [] <==> exists h :: h in was[kw] && h.ih != ih
      {
        ScrubbedFilters(was[kw], ih);
      }
    }

    method Scrub(hits: seq<Hit>, ih: bytes) returns (out: seq<Hit>, hadIt: bool)
      ensures out == Scrubbed(hits, ih) && (hadIt <==> out != hits)
    {
      out, hadIt := [], false;
      for i := 0 to |hits|
        invariant out == Scrubbed(hits[..i], ih) && (hadIt <==> |out| < i) && |out| <= i
      {
        assert hits[..i + 1][..i] == hits[..i];
        if hits[i].ih == ih { hadIt := true; } else { out := out + [hits[i]]; }
      }
      assert hits[..|hits|] == hits;
      if !hadIt { NothingScrubbed(hits, ih); }
    }
  }

  lemma PositionIs(hits: seq<Hit>, ih: bytes, i: nat)
    requires i < |hits| && hits[i].ih == ih && forall k :: 0 <= k < i ==> hits[k].ih != ih
    ensures Position(hits, ih) == i
  {
  }

  lemma {:induction false} NothingScrubbed(hits: seq<Hit>, ih: bytes)
    requires |Scrubbed(hits, ih)| == |hits|
    ensures Scrubbed(hits, ih) == hits
    decreases |hits|
  {
    if hits != [] {
      ScrubbedKeeps(hits[..|hits| - 1], ih);
      NothingScrubbed(hits[..|hits| - 1], ih);
    }
  }

  // ---- runs ----

  datatype Operation = Adding(kw: bytes, hit: Hit, now: Int64) | Removing(ih: bytes)

  function After(entries: Entries, op: Operation): Entries {
    match op
    case Adding(kw, hit, now) => WithHit(entries, kw, hit, now)
    case Removing(ih) => WithoutHits(entries, ih)
  }

  function ManifestRun(entries: Entries, ops: seq<Operation>): Entries {
    if ops == [] then entries else After(ManifestRun(entries, ops[..|ops| - 1]), ops[|ops| - 1])
  }

  lemma AfterPublishable(entries: Entries, op: Operation)
    requires AllPublishable(entries)
    requires op.Adding? ==> |op.hit.ih| == IH_BYTES && TenDigits(op.now)
    ensures AllPublishable(After(entries, op))
  {
    hide HitSizes, Evicted, Fitted, Settled;
    match op
    case Adding(kw, hit, now) => SettledPublishable(HitsOf(entries, kw), hit, now);
    case Removing(ih) =>
      forall kw | kw in entries && Scrubbed(entries[kw], ih) != [] ensures Publishable(Scrubbed(entries[kw], ih)) {
        ScrubbedKeeps(entries[kw], ih);
      }
  }

  /** Over any run of AddHit with 20-byte infohashes and RemoveAllHits, every entry stays nonempty, with distinct
      infohashes, and publishable: EncodeValue accepts it under every ten-digit clock. */
  lemma {:induction false} ManifestPublishable(ops: seq<Operation>, kw: bytes, now: Int64)
    requires forall op :: op in ops && op.Adding? ==> |op.hit.ih| == IH_BYTES && TenDigits(op.now)
    ensures AllPublishable(ManifestRun(map[], ops))
    ensures TenDigits(now) && kw in ManifestRun(map[], ops) ==> EncodeValue(ManifestRun(map[], ops)[kw], now).Some?
    decreases |ops|
  {
    hide After, Publishable;
    if ops != [] {
      assert ops[|ops| - 1] in ops;
      ManifestPublishable(ops[..|ops| - 1], kw, now);
      AfterPublishable(ManifestRun(map[], ops[..|ops| - 1]), ops[|ops| - 1]);
    }
    if TenDigits(now) && kw in ManifestRun(map[], ops) { PublishableEncodes(ManifestRun(map[], ops)[kw], now); }
  }

  /** After an AddHit other keywords keep their entries, and the keyword's is its old one, or an empty one, with the
      hit entered and settled: all of it where it fits, and for a new infohash always the hit itself at the end, with
      at most its name trimmed. */
  lemma AddedThere(entries: Entries, kw: bytes, hit: Hit, now: Int64)
    requires AllPublishable(entries) && TenDigits(now) && |hit.ih| == IH_BYTES && kw != []
    ensures var after := After(entries, Adding(kw, hit, now));
            var had := if kw in entries then entries[kw] else [];
            && after.Keys == entries.Keys + {kw}
            && (forall other :: other in entries && other != kw ==> after[other] == entries[other])
            && after[kw] == Settled(Entered(had, hit), now) != []
            && ((forall h :: h in had ==> h.ih != hit.ih) ==>
                  var last := after[kw][|after[kw]| - 1];
                  last == hit.(n := last.n) && last.n <= hit.n
                  && (Weight(had + [hit]) <= MAX_VALUE_BYTES ==> after[kw] == had + [hit]))
  {
    hide Settled, Entered, Weight;
    var had := if kw in entries then entries[kw] else [];
    SettledPublishable(had, hit, now);
    EnteredAt(had, hit);
    if Position(had, hit.ih) == |had| && Weight(had + [hit]) <= MAX_VALUE_BYTES { SettledKeeps(had + [hit], now); }
  }

  lemma SettledKeeps(hits: seq<Hit>, now: Int64)
    requires TenDigits(now) && hits != [] && Weight(hits) <= MAX_VALUE_BYTES
    requires forall h :: h in hits ==> |h.ih| == IH_BYTES
    ensures Settled(hits, now) == hits
  {
    hide EstimateValueSize, HitSizes, Evicted, Fitted, Weight;
    EvictedKeeps(hits, now);
    if |hits| == 1 {
      FittedFits(hits[0], now);
      assert hits == [hits[0]];
    }
  }

  /** No entry holds the infohash. */
  ghost predicate Gone(entries: Entries, ih: bytes) {
    forall kw, h :: kw in entries && h in entries[kw] ==> h.ih != ih
  }

  /** Once removed, an infohash is under no keyword until it is added again. */
  lemma {:induction false} RemovedStaysGone(entries: Entries, ops: seq<Operation>, ih: bytes)
    requires ih != [] && ops != [] && ops[0] == Removing(ih)
    requires forall op :: op in ops && op.Adding? ==> op.hit.ih != ih
    ensures Gone(ManifestRun(entries, ops), ih)
    decreases |ops|
  {
    hide After;
    var n := |ops| - 1;
    assert ops == ops[..n] + [ops[n]];
    assert ManifestRun(entries, []) == entries;
    if n == 0 {
      assert ops[..n] == [];
      RemovalScrubs(entries, ih);
    } else {
      RemovedStaysGone(entries, ops[..n], ih);
      StaysGone(ManifestRun(entries, ops[..n]), ops[n], ih);
    }
  }

  lemma StaysGone(entries: Entries, op: Operation, ih: bytes)
    requires Gone(entries, ih) && (op.Adding? ==> op.hit.ih != ih)
    ensures Gone(After(entries, op), ih)
  {
    hide Scrubbed, Settled, Entered;
    match op
    case Adding(kw, hit, now) =>
      EnteredAt(HitsOf(entries, kw), hit);
      SettledFrom(Entered(HitsOf(entries, kw), hit), now, ih);
    case Removing(other) =>
      forall kw | kw in entries ensures forall h :: h in Scrubbed(entries[kw], other) ==> h in entries[kw] {
        ScrubbedKeeps(entries[kw], other);
      }
  }

  lemma SettledFrom(hits: seq<Hit>, now: Int64, ih: bytes)
    requires forall h :: h in hits ==> h.ih != ih
    ensures forall h :: h in Settled(hits, now) ==> h.ih != ih
  {
    EvictedFrom(hits, now);
    if |Evicted(hits, now)| == 1 { FittedFrom(Evicted(hits, now)[0], now); }
  }

  lemma {:induction false} EvictedFrom(hits: seq<Hit>, now: Int64)
    ensures forall h :: h in Evicted(hits, now) ==> h in hits
    decreases |hits|
  {
    hide EstimateValueSize;
    if |hits| > 1 && EstimateValueSize(hits, now) > MAX_VALUE_BYTES { EvictedFrom(hits[1..], now); }
  }

  lemma {:induction false} FittedFrom(h: Hit, now: Int64)
    ensures Fitted(h, now).ih == h.ih
    decreases |h.n|
  {
    hide EstimateValueSize;
    if |h.n| > 0 && EstimateValueSize([h], now) > MAX_VALUE_BYTES { FittedFrom(h.(n := h.n[..|h.n| * 3 / 4]), now); }
  }

  /** A removal leaves no hit of the infohash and every other hit where it was; the empty infohash removes nothing. */
  lemma RemovalScrubs(entries: Entries, ih: bytes)
    ensures if ih == [] then After(entries, Removing(ih)) == entries else Gone(After(entries, Removing(ih)), ih)
    ensures forall kw, h :: kw in entries && h in entries[kw] && h.ih != ih ==>
              kw in After(entries, Removing(ih)) && h in After(entries, Removing(ih))[kw]
  {
    hide Scrubbed;
    forall kw | kw in entries
      ensures forall h :: h in Scrubbed(entries[kw], ih) <==> h in entries[kw] && h.ih != ih
    {
      ScrubbedKeeps(entries[kw], ih);
    }
  }

  lemma PublishableEncodes(hits: seq<Hit>, now: Int64)
    requires Publishable(hits) && TenDigits(now)
    ensures EncodeValue(hits, now).Some?
  {
    EstimateIsWeight(hits, now);
  }
}
