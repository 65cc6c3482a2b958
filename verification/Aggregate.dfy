/** The aggregate record backend (internal/dhtindex/aggregate.go): a map of signed records and a dirty-flag cache of
    the SNAGG tree built from it, which answers self-lookups. */
module Aggregate {
  import opened Wrappers
  import opened Collections
  import opened Bytes
  import opened Records
  import opened Sorting
  import opened Pages
  import opened Trees
  import opened Layout
  import opened Read
  import opened Build
  import opened SnaggTheorems
  import Bencode

  type Table = map<Bytes32, Record>

  // ---- the record table ----

  /** The first n keywords signed and entered; a keyword that is empty or too long in lower case is skipped. */
  function Entered(c: Crypto, lower: bytes -> bytes, priv: PrivateKey, pub: Bytes32, table: Table,
                   keywords: seq<bytes>, ih: Bytes20, now: Int64): Table
  {
    if keywords == [] then table
    else
      var before := Entered(c, lower, priv, pub, table, keywords[..|keywords| - 1], ih, now);
      var kw := lower(keywords[|keywords| - 1]);
      if 1 <= |kw| <= MAX_KEYWORD_BYTES then
        var r := Signed(c, priv, pub, kw, ih, now);
        before[ElementID(c, r) := r]
      else before
  }

  function Without(table: Table, ih: Bytes20): Table {
    map id | id in table && table[id].ih != ih :: table[id]
  }

  /** Own, unmined, well-formed records under their ids. */
  ghost predicate OwnTable(c: Crypto, pub: Bytes32, table: Table) {
    forall id :: id in table ==>
      var r := table[id];
      ElementID(c, r) == id && r.pk == pub && r.pow == 0 && 1 <= |r.kw| <= MAX_KEYWORD_BYTES && Verify(c, r)
  }

  lemma {:induction false} EnteredOwn(c: Crypto, lower: bytes -> bytes, priv: PrivateKey, table: Table,
                                      keywords: seq<bytes>, ih: Bytes20, now: Int64)
    requires c.SignaturesVerify() && OwnTable(c, c.publicKey(priv), table)
    ensures OwnTable(c, c.publicKey(priv), Entered(c, lower, priv, c.publicKey(priv), table, keywords, ih, now))
    decreases |keywords|
  {
    if keywords != [] {
      EnteredOwn(c, lower, priv, table, keywords[..|keywords| - 1], ih, now);
      var kw := lower(keywords[|keywords| - 1]);
      if 1 <= |kw| <= MAX_KEYWORD_BYTES {
        hide ElementID, Verify;
        SignedVerifies(c, priv, kw, ih, now);
        SignedFields(c, priv, c.publicKey(priv), kw, ih, now);
      }
    }
  }

  // ---- what publishing and retracting do to the table ----

  /** The id of an unmined record of these fields. */
  function IdOf(c: Crypto, pub: Bytes32, kw: bytes, ih: Bytes20, now: Int64): Bytes32 {
    c.sha256(pub + kw + ih + LittleEndian(Uint64Of(now), 8))
  }

  lemma SignedId(c: Crypto, priv: PrivateKey, pub: Bytes32, kw: bytes, ih: Bytes20, now: Int64)
    ensures ElementID(c, Signed(c, priv, pub, kw, ih, now)) == IdOf(c, pub, kw, ih, now)
  {
  }

  predicate Usable(kw: bytes) {
    1 <= |kw| <= 64
  }

  /** The table holds, under its id, a verifying record of this keyword, infohash and time by this publisher. */
  ghost predicate HasRecord(c: Crypto, pub: Bytes32, table: Table, kw: bytes, ih: Bytes20, now: Int64) {
    var id := IdOf(c, pub, kw, ih, now);
    id in table && var r := table[id];
    r.pk == pub && r.kw == kw && r.ih == ih && r.t == now && r.pow == 0 && c.verify(pub, SigMessage(r), r.sig)
  }

  /** No other of these keywords has the id of kw. */
  ghost predicate IdApart(c: Crypto, lower: bytes -> bytes, pub: Bytes32, keywords: seq<bytes>, ih: Bytes20, now: Int64,
                          kw: bytes) {
    forall k :: k in keywords && Usable(lower(k)) && IdOf(c, pub, lower(k), ih, now) == IdOf(c, pub, kw, ih, now) ==>
      lower(k) == kw
  }

  lemma EnteredLast(c: Crypto, lower: bytes -> bytes, priv: PrivateKey, table: Table, keywords: seq<bytes>, ih: Bytes20,
                    now: Int64)
    requires c.SignaturesVerify() && keywords != []
    ensures var pub, kw := c.publicKey(priv), lower(keywords[|keywords| - 1]);
            var before := Entered(c, lower, priv, pub, table, keywords[..|keywords| - 1], ih, now);
            var after := Entered(c, lower, priv, pub, table, keywords, ih, now);
            if Usable(kw) then
              HasRecord(c, pub, after, kw, ih, now) && after.Keys == before.Keys + {IdOf(c, pub, kw, ih, now)} &&
              forall id :: id in before && id != IdOf(c, pub, kw, ih, now) ==> after[id] == before[id]
            else after == before
  {
    hide ElementID, SigMessage;
    var pub, kw := c.publicKey(priv), lower(keywords[|keywords| - 1]);
    SignedId(c, priv, pub, kw, ih, now);
    SignedFields(c, priv, pub, kw, ih, now);
    SignedVerifies(c, priv, kw, ih, now);
  }

  /** Publishing gives every usable keyword its record, whatever was in the table, where no other published keyword
      shares its id. */
  lemma {:induction false} PublishedThere(c: Crypto, lower: bytes -> bytes, priv: PrivateKey, table: Table,
                                          keywords: seq<bytes>, ih: Bytes20, now: Int64, k: bytes)
    requires c.SignaturesVerify() && k in keywords && Usable(lower(k))
    requires IdApart(c, lower, c.publicKey(priv), keywords, ih, now, lower(k))
    ensures HasRecord(c, c.publicKey(priv), Entered(c, lower, priv, c.publicKey(priv), table, keywords, ih, now),
                      lower(k), ih, now)
    decreases |keywords|
  {
    hide Entered, HasRecord, IdOf, Usable;
    var pub, n := c.publicKey(priv), |keywords| - 1;
    var front, last := keywords[..n], keywords[n];
    assert keywords == front + [last];
    EnteredLast(c, lower, priv, table, keywords, ih, now);
    if lower(k) != lower(last) {
      PublishedThere(c, lower, priv, table, front, ih, now, k);
      if Usable(lower(last)) {
        assert last in keywords;
        RecordStays(c, pub, Entered(c, lower, priv, pub, table, front, ih, now),
                    Entered(c, lower, priv, pub, table, keywords, ih, now), lower(last), lower(k), ih, now);
      }
    }
  }

  /** Entry id is the record of one of the keywords. */
  ghost predicate PublishedUnder(c: Crypto, lower: bytes -> bytes, pub: Bytes32, after: Table, keywords: seq<bytes>,
                                 ih: Bytes20, now: Int64, id: Bytes32) {
    exists k :: k in keywords && Usable(lower(k)) && id == IdOf(c, pub, lower(k), ih, now)
                && HasRecord(c, pub, after, lower(k), ih, now)
  }

  /** It removes no entry, and each entry is an old one or the record of a published keyword. */
  lemma {:induction false} PublishedOnly(c: Crypto, lower: bytes -> bytes, priv: PrivateKey, table: Table,
                                         keywords: seq<bytes>, ih: Bytes20, now: Int64)
    requires c.SignaturesVerify()
    ensures var pub := c.publicKey(priv);
            var after := Entered(c, lower, priv, pub, table, keywords, ih, now);
            table.Keys <= after.Keys &&
            forall id :: id in after ==>
              (id in table && after[id] == table[id]) || PublishedUnder(c, lower, pub, after, keywords, ih, now, id)
    decreases |keywords|
  {
    hide Entered, HasRecord, IdOf, Usable, PublishedUnder;
    var pub := c.publicKey(priv);
    if keywords == [] {
      EnteredNothing(c, lower, priv, pub, table, ih, now);
    } else {
      var n := |keywords| - 1;
      PublishedOnly(c, lower, priv, table, keywords[..n], ih, now);
      EnteredLast(c, lower, priv, table, keywords, ih, now);
      var before := Entered(c, lower, priv, pub, table, keywords[..n], ih, now);
      var after := Entered(c, lower, priv, pub, table, keywords, ih, now);
      forall id | id in after && !(id in table && after[id] == table[id])
        ensures PublishedUnder(c, lower, pub, after, keywords, ih, now, id)
      {
        PublishedLater(c, lower, pub, before, after, keywords, ih, now, id);
      }
    }
  }

  /** One more keyword: the entry is its record, or was that of an earlier one and still is. */
  lemma PublishedLater(c: Crypto, lower: bytes -> bytes, pub: Bytes32, before: Table, after: Table,
                       keywords: seq<bytes>,
                       ih: Bytes20, now: Int64, id: Bytes32)
    requires keywords != [] && id in after
    requires var kw := lower(keywords[|keywords| - 1]);
             if Usable(kw) then
               HasRecord(c, pub, after, kw, ih, now) && before.Keys <= after.Keys &&
               forall other :: other in before && other != IdOf(c, pub, kw, ih, now) ==> after[other] == before[other]
             else after == before
    requires (id == IdOf(c, pub, lower(keywords[|keywords| - 1]), ih, now) && Usable(lower(keywords[|keywords| - 1])))
             || PublishedUnder(c, lower, pub, before, keywords[..|keywords| - 1], ih, now, id)
    ensures PublishedUnder(c, lower, pub, after, keywords, ih, now, id)
  {
    hide HasRecord, IdOf, Usable;
    var front, last := keywords[..|keywords| - 1], keywords[|keywords| - 1];
    assert last in keywords;
    if !(id == IdOf(c, pub, lower(last), ih, now) && Usable(lower(last))) {
      var k :| k in front && Usable(lower(k)) && id == IdOf(c, pub, lower(k), ih, now)
               && HasRecord(c, pub, before, lower(k), ih, now);
      assert k in keywords;
      if Usable(lower(last)) { RecordStays(c, pub, before, after, lower(last), lower(k), ih, now); }
    }
  }

  lemma EnteredNothing(c: Crypto, lower: bytes -> bytes, priv: PrivateKey, pub: Bytes32, table: Table, ih: Bytes20,
                       now: Int64)
    ensures Entered(c, lower, priv, pub, table, [], ih, now) == table
  {
  }

  lemma RecordStays(c: Crypto, pub: Bytes32, before: Table, after: Table, kw: bytes, other: bytes, ih: Bytes20,
                    now: Int64)
    requires HasRecord(c, pub, before, other, ih, now) && before.Keys <= after.Keys
    requires IdOf(c, pub, kw, ih, now) != IdOf(c, pub, other, ih, now)
    requires forall id :: id in before && id != IdOf(c, pub, kw, ih, now) ==> after[id] == before[id]
    ensures HasRecord(c, pub, after, other, ih, now)
  {
    hide IdOf, SigMessage;
  }

  lemma WithoutOwn(c: Crypto, pub: Bytes32, table: Table, ih: Bytes20)
    requires OwnTable(c, pub, table)
    ensures OwnTable(c, pub, Without(table, ih)) && (table == map[] ==> Without(table, ih) == map[])
    ensures forall id :: id in Without(table, ih) <==> id in table && table[id].ih != ih
    ensures forall id :: id in Without(table, ih) ==> Without(table, ih)[id] == table[id]
  {
    hide ElementID, Verify;
  }

  lemma SignedFields(c: Crypto, priv: PrivateKey, pub: Bytes32, kw: bytes, ih: Bytes20, t: Int64)
    ensures var r := Signed(c, priv, pub, kw, ih, t);
            r.pk == pub && r.kw == kw && r.ih == ih && r.t == t && r.pow == 0
  {
  }

  /** A record with proof of work zero fits its 256 bytes whatever its time. */
  lemma UnminedEncodes(r: Record)
    requires r.pow == 0 && 1 <= |r.kw| <= MAX_KEYWORD_BYTES
    ensures Encodable(r)
  {
    hide RecordBytes;
    Bencode.Pow10Values();
    RecordBytesLength(r);
    StrLength(r.kw, 2);
    var t: int := r.t;
    Bencode.DecimalLength(if t < 0 then 0 - t else t, 19);
    Bencode.DecimalLength(0, 1);
  }

  // ---- listings of a table ----

  /** The table's records, once each, in some order: what a range over the map yields. */
  ghost predicate Lists(table: Table, ids: seq<Bytes32>, rs: seq<Record>) {
    && Distinct(ids) && (forall id :: id in ids <==> id in table)
    && |rs| == |ids| && forall i :: 0 <= i < |ids| ==> rs[i] == table[ids[i]]
  }

  /** The records whose keyword is the token. */
  function WithToken(rs: seq<Record>, token: bytes): seq<Record> {
    if rs == [] then []
    else if rs[|rs| - 1].kw == token then WithToken(rs[..|rs| - 1], token) + [rs[|rs| - 1]]
    else WithToken(rs[..|rs| - 1], token)
  }

  function InfohashesOf(rs: seq<Record>): (hs: seq<Bytes20>)
    ensures |hs| == |rs|
  {
    seq(|rs|, i requires 0 <= i < |rs| => rs[i].ih)
  }

  lemma {:induction false} WithTokenKeeps(rs: seq<Record>, token: bytes)
    requires Distinct(rs)
    ensures Distinct(WithToken(rs, token))
    ensures forall r :: r in WithToken(rs, token) <==> r in rs && r.kw == token
    decreases |rs|
  {
    if rs != [] {
      var front := rs[..|rs| - 1];
      WithTokenKeeps(front, token);
      assert rs == front + [rs[|rs| - 1]];
      assert rs[|rs| - 1] !in front;
    }
  }

  // ---- the built tree ----

  function TreeInput(rs: seq<Record>, pub: Bytes32, priv: PrivateKey): BuildInput {
    BuildInput(rs, pub, Some(priv), 1, 0, 0, MIN_PIECE_SIZE)
  }

  /** A tree some rebuild of this table may have left: none for an empty table, no signer or a failed build. */
  ghost predicate BuiltFrom(c: Crypto, priv: Option<PrivateKey>, pub: Bytes32, table: Table, tree: Option<bytes>,
                            fp: bytes) {
    if table == map[] || priv.None? then tree == None && fp == Zeros(32)
    else exists ids, rs, now :: BuiltOver(c, priv.value, pub, table, tree, fp, ids, rs, now)
  }

  ghost predicate BuiltOver(c: Crypto, priv: PrivateKey, pub: Bytes32, table: Table, tree: Option<bytes>, fp: bytes,
                            ids: seq<Bytes32>, rs: seq<Record>, now: Int64) {
    Lists(table, ids, rs) &&
    match BuildResult(c, TreeInput(rs, pub, priv), now)
    case Ok(built) => tree == Some(built.data) && fp == built.fingerprint
    case Err(_) => tree == None && fp == Zeros(32)
  }

  /** The infohashes among an answer with the exact keyword. */
  function Narrowed(answer: Result<seq<Record>, ReadError>, token: bytes): Result<seq<Bytes20>, ReadError> {
    if answer.Err? then Err(answer.error) else Ok(InfohashesOf(WithToken(answer.value, token)))
  }

  /** exactHits: a prefix Find narrowed to the exact keyword. */
  method ExactHits(c: Crypto, src: PageSource, t: Trailer, token: bytes) returns (r: Result<seq<Bytes20>, ReadError>)
    ensures r == Narrowed(FindIn(c, View(src), t, token), token)
  {
    var found := Find(c, src, t, token);
    if found.Err? { return Err(found.error); }
    var hits: seq<Bytes20> := [];
    var recs := found.value;
    for i := 0 to |recs|
      invariant hits == InfohashesOf(WithToken(recs[..i], token))
    {
      assert recs[..i + 1][..i] == recs[..i];
      if recs[i].kw == token {
        assert InfohashesOf(WithToken(recs[..i], token) + [recs[i]]) == hits + [recs[i].ih];
        hits := hits + [recs[i].ih];
      }
    }
    assert recs[..|recs|] == recs;
    r := Ok(hits);
  }

  /** The infohashes of exactly the table's records with the keyword, each record counted once. */
  ghost predicate Answers(table: Table, token: bytes, hits: seq<Bytes20>) {
    exists ids :: AnswersWith(table, token, hits, ids)
  }

  ghost predicate AnswersWith(table: Table, token: bytes, hits: seq<Bytes20>, ids: seq<Bytes32>) {
    && Distinct(ids) && (forall id :: id in ids <==> id in table && table[id].kw == token)
    && |hits| == |ids| && forall i :: 0 <= i < |ids| ==> hits[i] == table[ids[i]].ih
  }

  lemma ListedDistinct(c: Crypto, pub: Bytes32, table: Table, ids: seq<Bytes32>, rs: seq<Record>)
    requires OwnTable(c, pub, table) && Lists(table, ids, rs)
    ensures Distinct(rs) && (forall r :: r in rs ==> ElementID(c, r) in table && table[ElementID(c, r)] == r)
    ensures forall id :: id in table ==> table[id] in rs
  {
    hide Verify, ElementID;
    forall i, j | 0 <= i < j < |rs| ensures rs[i] != rs[j] {
      assert ids[i] in ids && ids[j] in ids;
    }
    forall r | r in rs ensures ElementID(c, r) in table && table[ElementID(c, r)] == r {
      var i :| 0 <= i < |rs| && rs[i] == r;
      assert ids[i] in ids;
    }
    forall id | id in table ensures table[id] in rs {
      assert id in ids;
      var i :| 0 <= i < |ids| && ids[i] == id;
      assert rs[i] == table[id];
    }
  }

  lemma ListedBuilds(c: Crypto, priv: PrivateKey, pub: Bytes32, table: Table, ids: seq<Bytes32>, rs: seq<Record>,
                     now: Int64)
    requires OwnTable(c, pub, table) && Lists(table, ids, rs) && table != map[] && |table| <= 0x4000_0000
    ensures BuildResult(c, TreeInput(rs, pub, priv), now).Ok?
    ensures BuildResult(c, TreeInput(rs, pub, priv), now).value.numPages < PIECE_LIMIT
    ensures BuildResult(c, TreeInput(rs, pub, priv), now).value.pieceSize == MIN_PIECE_SIZE
  {
    hide Verify, ElementID, BuildResult, Encodable;
    var id :| id in table;
    assert id in ids;
    DistinctSize(ids);
    assert Elements(ids) == table.Keys;
    forall k | 0 <= k < |rs| ensures Encodable(rs[k]) {
      assert ids[k] in ids;
      UnminedEncodes(rs[k]);
    }
    BuildSucceeds(c, TreeInput(rs, pub, priv), now);
    BuiltPieceSize(c, TreeInput(rs, pub, priv), now);
  }

  lemma BuiltPieceSize(c: Crypto, input: BuildInput, now: Int64)
    requires BuildResult(c, input, now).Ok?
    ensures BuildResult(c, input, now).value.pieceSize == input.pieceSize
  {
  }

  lemma AllAreHits(c: Crypto, pub: Bytes32, rs: seq<Record>, token: bytes)
    requires forall r :: r in rs ==> Verify(c, r)
    ensures forall r :: r in Hits(c, 0, token, rs) <==> r in rs && token <= r.kw
    ensures Distinct(rs) ==> Distinct(Hits(c, 0, token, rs))
  {
    forall r ensures r in Hits(c, 0, token, rs) <==> r in rs && token <= r.kw {
      HitsMembers(c, 0, token, rs, r);
    }
    HitsDistinct(c, token, rs);
  }

  lemma {:induction false} HitsDistinct(c: Crypto, token: bytes, rs: seq<Record>)
    ensures Distinct(rs) ==> Distinct(Hits(c, 0, token, rs))
    decreases |rs|
  {
    hide IsHit;
    if rs != [] {
      HitsDistinct(c, token, rs[1..]);
      HitsMembers(c, 0, token, rs[1..], rs[0]);
    }
  }

  /** The heart of the lookup: the tree of any listing answers any token exactly. */
  lemma TreeAnswers(c: Crypto, priv: PrivateKey, table: Table, ids: seq<Bytes32>, rs: seq<Record>, now: Int64,
                    token: bytes)
    requires c.SignaturesVerify() && OwnTable(c, c.publicKey(priv), table) && Lists(table, ids, rs)
    requires table != map[] && |table| <= 0x4000_0000
    ensures var built := BuildResult(c, TreeInput(rs, c.publicKey(priv), priv), now);
            built.Ok? &&
            var src := FileSource(built.value.data, MIN_PIECE_SIZE);
            var t := OpenBTree(c, src);
            t.Ok? && FindIn(c, View(src), t.value, token).Ok? &&
            Answers(table, token, InfohashesOf(WithToken(FindIn(c, View(src), t.value, token).value, token)))
  {
    hide Verify, ElementID, BuildResult, FindIn, OpenBTree, StableSort, Hits, OwnTable, Lists, WithToken;
    var pub := c.publicKey(priv);
    ListedBuilds(c, priv, pub, table, ids, rs, now);
    BuiltFinds(c, TreeInput(rs, pub, priv), now, priv, token);
    HitsAnswer(c, pub, table, ids, rs, token);
  }

  lemma HitsAnswer(c: Crypto, pub: Bytes32, table: Table, ids: seq<Bytes32>, rs: seq<Record>, token: bytes)
    requires OwnTable(c, pub, table) && Lists(table, ids, rs)
    ensures Answers(table, token, InfohashesOf(WithToken(Hits(c, 0, token, StableSort(rs)), token)))
  {
    hide Verify, ElementID, StableSort, Hits, Lists, WithToken;
    var sorted := StableSort(rs);
    ListedDistinct(c, pub, table, ids, rs);
    StableSortPermutes(rs);
    DistinctPermutes(rs, sorted);
    AllAreHits(c, pub, sorted, token);
    WithTokenKeeps(Hits(c, 0, token, sorted), token);
    var found := WithToken(Hits(c, 0, token, sorted), token);
    var foundIds: seq<Bytes32> := seq(|found|, i requires 0 <= i < |found| => ElementID(c, found[i]));
    forall id | id in table && table[id].kw == token ensures id in foundIds {
      assert table[id] in found;
      var i :| 0 <= i < |found| && found[i] == table[id];
      assert foundIds[i] == id;
    }
    forall i | 0 <= i < |found| ensures foundIds[i] in table && table[foundIds[i]] == found[i] {
      assert found[i] in found;
    }
    assert AnswersWith(table, token, InfohashesOf(found), foundIds);
  }

  // ---- the backend ----

  class AggregatePPMI {
    const c: Crypto
    const lower: bytes -> bytes
    const priv: Option<PrivateKey>
    const pub: Bytes32
    var records: Table
    var tree: Option<bytes>
    var fp: Bytes32
    var dirty: bool
    var gen: nat

    /** The table holds own records, and unless the dirty flag is up the cached tree is one of this very table. */
    ghost predicate Coherent()
      reads this
    {
      && (priv.None? ==> records == map[])
      && (priv.Some? ==> pub == c.publicKey(priv.value))
      && OwnTable(c, pub, records)
      && (!dirty ==> BuiltFrom(c, priv, pub, records, tree, fp))
    }

    constructor (c: Crypto, lower: bytes -> bytes, priv: Option<PrivateKey>, pub: Bytes32)
      requires priv.Some? ==> pub == c.publicKey(priv.value)
      ensures Coherent() && records == map[] && this.c == c &&
               this.priv == priv && this.pub == pub && this.lower == lower
    {
      this.c, this.lower, this.priv, this.pub := c, lower, priv, pub;
      records, tree, fp, dirty, gen := map[], None, Zeros(32), false, 0;
    }

    /** Enters a signed record for each usable keyword and raises the flag; nothing else goes or changes. */
    method Publish(keywords: seq<bytes>, ih: bytes, now: Int64)
      requires Coherent() && c.SignaturesVerify()
      modifies this
      ensures Coherent()
      ensures priv.Some? && |ih| == 20 ==> dirty
      ensures priv.Some? && |ih| == 20 ==>
                forall k :: k in keywords && Usable(lower(k)) && IdApart(c, lower, pub, keywords, ih, now, lower(k)) ==>
                  HasRecord(c, pub, records, lower(k), ih, now)
      ensures priv.Some? && |ih| == 20 ==>
                old(records).Keys <= records.Keys &&
                forall id :: id in records ==>
                  (id in old(records) && records[id] == old(records)[id])
                  || PublishedUnder(c, lower, pub, records, keywords, ih, now, id)
      ensures records == if priv.None? then old(records)
                         else TableAfter(c, lower, priv.value, pub, old(records), Publishing(keywords, ih, now))
    {
      if priv.None? || |ih| != 20 { return; }
      hide ElementID, Verify, BuiltFrom, HasRecord, PublishedUnder, IdApart, OwnTable;
      var hash: Bytes20 := ih;
      EnteredOwn(c, lower, priv.value, records, keywords, hash, now);
      ghost var was := records;
      for i := 0 to |keywords|
        invariant records == Entered(c, lower, priv.value, pub, was, keywords[..i], hash, now)
      {
        assert keywords[..i + 1][..i] == keywords[..i];
        var kw := lower(keywords[i]);
        if 1 <= |kw| <= MAX_KEYWORD_BYTES {
          var r := Signed(c, priv.value, pub, kw, hash, now);
          records := records[ElementID(c, r) := r];
        }
      }
      assert keywords[..|keywords|] == keywords;
      dirty := true;
      PublishedOnly(c, lower, priv.value, was, keywords, hash, now);
      forall k | k in keywords && Usable(lower(k)) && IdApart(c, lower, pub, keywords, hash, now, lower(k))
        ensures HasRecord(c, pub, records, lower(k), hash, now)
      {
        PublishedThere(c, lower, priv.value, was, keywords, hash, now, k);
      }
    }

    method Retract(ih: Bytes20, now: Int64)
      requires Coherent()
      modifies this
      ensures Coherent() && records == Without(old(records), ih)
      ensures forall id :: id in records <==> id in old(records) && old(records)[id].ih != ih
      ensures forall id :: id in records ==> records[id] == old(records)[id]
    {
      hide ElementID, Verify, BuiltFrom, Without;
      WithoutOwn(c, pub, records, ih);
      var kept, changed := Dropped(ih);
      records := kept;
      if changed {
        dirty := true;
        Rebuild(now);
      }
    }

    /** The delete loop: what is left, and whether anything went. */
    method Dropped(ih: Bytes20) returns (kept: Table, changed: bool)
      ensures kept == Without(records, ih) && (!changed ==> kept == records)
    {
      kept, changed := records, false;
      var left := records.Keys;
      while left != {}
        invariant left <= records.Keys
        invariant forall id :: id in kept <==> id in records && (id in left || records[id].ih != ih)
        invariant forall id :: id in kept ==> kept[id] == records[id]
        invariant !changed ==> kept == records
        decreases |left|
      {
        var id :| id in left;
        left := left - {id};
        if records[id].ih == ih {
          kept := kept - {id};
          changed := true;
        }
      }
    }

    method Rebuild(now: Int64)
      requires Coherent()
      modifies this
      ensures Coherent() && !dirty && records == old(records)
    {
      hide ElementID, Verify, BuildResult, OwnTable;
      if !dirty { return; }
      dirty := false;
      gen := gen + 1;
      if |records| == 0 || priv.None? {
        tree, fp := None, Zeros(32);
        return;
      }
      var recs, ids := Values();
      var built := BuildBTree(c, TreeInput(recs, pub, priv.value), now);
      if built.Err? {
        tree, fp := None, Zeros(32);
      } else {
        tree, fp := Some(built.value.data), built.value.fingerprint;
      }
      assert BuiltOver(c, priv.value, pub, records, tree, fp, ids, recs, now);
    }

    method Values() returns (rs: seq<Record>, ghost ids: seq<Bytes32>)
      ensures Lists(records, ids, rs)
    {
      rs, ids := [], [];
      var left := records.Keys;
      while left != {}
        invariant left <= records.Keys && Distinct(ids)
        invariant forall id :: id in ids <==> id in records && id !in left
        invariant |rs| == |ids| && forall i :: 0 <= i < |ids| ==> rs[i] == records[ids[i]]
        decreases |left|
      {
        var id :| id in left;
        left := left - {id};
        rs, ids := rs + [records[id]], ids + [id];
      }
    }

    /** Rebuild, then hand out what to distribute: the tree, its fingerprint and its generation. */
    method Refresh(now: Int64) returns (built: Option<bytes>, commit: Bytes32, generation: nat)
      requires Coherent()
      modifies this
      ensures Coherent() && !dirty && records == old(records)
      ensures built == tree && commit == fp && generation == gen
    {
      Rebuild(now);
      return tree, fp, gen;
    }

    /** A self-lookup on a signing backend returns the infohashes of exactly the records now in the table with that
        keyword; other publishers' trees come from the resolver, and an unresolved one gives no hits. */
    method Lookup(indexerPub: Bytes32, token: bytes, resolved: Option<(PageSource, Trailer)>, now: Int64)
      returns (r: Result<seq<Bytes20>, ReadError>)
      requires Coherent() && |records| <= 0x4000_0000
      modifies this
      ensures Coherent() && records == old(records)
      ensures indexerPub == pub && c.SignaturesVerify() ==> r.Ok? && Answers(records, token, r.value)
      ensures indexerPub != pub && resolved.None? ==> r == Ok([])
      ensures indexerPub != pub && resolved.Some? ==>
                r == Narrowed(FindIn(c, View(resolved.value.0), resolved.value.1, token), token)
    {
      hide ElementID, Verify, BuildResult, OwnTable, FindIn, OpenBTree, BuiltFrom, Answers, WithToken, View;
      if indexerPub != pub {
        if resolved.None? { return Ok([]); }
        r := ExactHits(c, resolved.value.0, resolved.value.1, token);
        return;
      }
      Rebuild(now);
      if tree.None? {
        if c.SignaturesVerify() { NoTreeAnswers(c, priv, pub, records, fp, token); }
        return Ok([]);
      }
      var src := FileSource(tree.value, MIN_PIECE_SIZE);
      var opening := OpenBTree(c, src);
      if c.SignaturesVerify() { CachedTreeAnswers(c, priv, pub, records, tree.value, fp, token); }
      if opening.Err? { return Err(opening.error); }
      r := ExactHits(c, src, opening.value, token);
    }
  }

  lemma NoTreeAnswers(c: Crypto, priv: Option<PrivateKey>, pub: Bytes32, table: Table, fp: bytes, token: bytes)
    requires OwnTable(c, pub, table) && BuiltFrom(c, priv, pub, table, None, fp) && |table| <= 0x4000_0000
    requires priv.None? ==> table == map[]
    ensures Answers(table, token, [])
  {
    hide OwnTable, BuildResult, Lists;
    if table != map[] && priv.Some? {
      var ids, rs, now :| BuiltOver(c, priv.value, pub, table, None, fp, ids, rs, now);
      ListedBuilds(c, priv.value, pub, table, ids, rs, now);
    }
    assert AnswersWith(table, token, [], []);
  }

  lemma CachedTreeAnswers(c: Crypto, priv: Option<PrivateKey>, pub: Bytes32, table: Table, data: bytes, fp: bytes,
                          token: bytes)
    requires c.SignaturesVerify() && OwnTable(c, pub, table) && |table| <= 0x4000_0000
    requires BuiltFrom(c, priv, pub, table, Some(data), fp) && (priv.Some? ==> pub == c.publicKey(priv.value))
    ensures var src := FileSource(data, MIN_PIECE_SIZE);
            var t := OpenBTree(c, src);
            t.Ok? && FindIn(c, View(src), t.value, token).Ok? &&
            Answers(table, token, InfohashesOf(WithToken(FindIn(c, View(src), t.value, token).value, token)))
  {
    hide OwnTable, BuildResult, Lists, FindIn, OpenBTree, View, WithToken, Answers;
    var ids, rs, now :| BuiltOver(c, priv.value, pub, table, Some(data), fp, ids, rs, now);
    TreeAnswers(c, priv.value, table, ids, rs, now, token);
  }

  /** What the cache hands out: a tree exactly when the table holds something, and one that opens, carries the
      fingerprint handed out with it, counts every record and passes the full pass. */
  lemma CommitMatches(c: Crypto, priv: PrivateKey, table: Table, tree: Option<bytes>, fp: bytes)
    requires c.SignaturesVerify() && OwnTable(c, c.publicKey(priv), table) && |table| <= 0x4000_0000
    requires BuiltFrom(c, Some(priv), c.publicKey(priv), table, tree, fp)
    ensures tree == None <==> table == map[]
    ensures tree == None ==> fp == Zeros(32)
    ensures tree.Some? ==>
              var src := FileSource(tree.value, MIN_PIECE_SIZE);
              var t := OpenBTree(c, src);
              t.Ok? && t.value.fingerprint == fp && t.value.numRecords == |table| &&
              FingerprintHolds(c, View(src), t.value)
  {
    hide OwnTable, BuildResult, OpenBTree, View, FingerprintHolds, StableSort;
    if table != map[] {
      var pub := c.publicKey(priv);
      var ids: seq<Bytes32>, rs, now :| BuiltOver(c, priv, pub, table, tree, fp, ids, rs, now);
      var input := TreeInput(rs, pub, priv);
      ListedBuilds(c, priv, pub, table, ids, rs, now);
      DistinctSize(ids);
      assert Elements(ids) == table.Keys;
      BuiltOpens(c, input, now, priv);
      var opening := OpenBTree(c, FileSource(tree.value, MIN_PIECE_SIZE));
      assert opening.value.numRecords == |rs| == |table|;
      BuiltVerifies(c, input, now, opening.value);
    }
  }

  // ---- retraction over runs ----

  datatype Operation = Publishing(keywords: seq<bytes>, ih: bytes, now: Int64) | Retracting(gone: Bytes20) | Reading

  /** What an operation leaves in the table; Refresh and Lookup leave it alone. */
  function TableAfter(c: Crypto, lower: bytes -> bytes, priv: PrivateKey, pub: Bytes32, table: Table,
                      op: Operation): Table {
    match op
    case Publishing(keywords, ih, now) => if |ih| != 20 then table
      else Entered(c, lower, priv, pub, table, keywords, ih, now)
    case Retracting(ih) => Without(table, ih)
    case Reading => table
  }

  function TableRun(c: Crypto, lower: bytes -> bytes, priv: PrivateKey, pub: Bytes32, table: Table,
                    ops: seq<Operation>): Table
    decreases |ops|
  {
    if ops == [] then table
    else TableRun(c, lower, priv, pub, TableAfter(c, lower, priv, pub, table, ops[0]), ops[1..])
  }

  /** An operation that neither retracts the infohash nor enters another record under this record's id. */
  ghost predicate Spares(c: Crypto, lower: bytes -> bytes, pub: Bytes32, op: Operation, kw: bytes, ih: Bytes20,
                         now: Int64) {
    match op
    case Publishing(keywords, other, at) =>
      |other| == 20 ==> forall k :: k in keywords && Usable(lower(k)) ==>
        IdOf(c, pub, lower(k), other, at) != IdOf(c, pub, kw, ih, now) || (lower(k) == kw && other == ih && at == now)
    case Retracting(gone) => gone != ih
    case Reading => true
  }

  lemma SparedStays(c: Crypto, lower: bytes -> bytes, priv: PrivateKey, table: Table, op: Operation, kw: bytes,
                    ih: Bytes20, now: Int64)
    requires c.SignaturesVerify() && HasRecord(c, c.publicKey(priv), table, kw, ih, now)
    requires Spares(c, lower, c.publicKey(priv), op, kw, ih, now)
    ensures HasRecord(c, c.publicKey(priv), TableAfter(c, lower, priv, c.publicKey(priv), table, op), kw, ih, now)
  {
    hide Entered, IdOf, Usable, SigMessage;
    var pub, id := c.publicKey(priv), IdOf(c, c.publicKey(priv), kw, ih, now);
    if op.Publishing? && |op.ih| == 20 {
      PublishedOnly(c, lower, priv, table, op.keywords, op.ih, op.now);
      var after := Entered(c, lower, priv, pub, table, op.keywords, op.ih, op.now);
      if after[id] != table[id] {
        var k :| k in op.keywords && Usable(lower(k)) && id == IdOf(c, pub, lower(k), op.ih, op.now)
                 && HasRecord(c, pub, after, lower(k), op.ih, op.now);
      }
    }
  }

  /** Once published, a keyword's infohash is in every answer to a lookup of that keyword until the infohash is
      retracted, whatever else is published, retracted and read, as long as no other record takes its id. */
  lemma {:induction false} PublishedIsFound(c: Crypto, lower: bytes -> bytes, priv: PrivateKey, table: Table,
                                            ops: seq<Operation>, kw: bytes, ih: Bytes20, now: Int64, hits: seq<Bytes20>)
    requires c.SignaturesVerify() && HasRecord(c, c.publicKey(priv), table, kw, ih, now)
    requires forall op :: op in ops ==> Spares(c, lower, c.publicKey(priv), op, kw, ih, now)
    requires Answers(TableRun(c, lower, priv, c.publicKey(priv), table, ops), kw, hits)
    ensures ih in hits
    decreases |ops|
  {
    if ops == [] {
      var ids :| AnswersWith(table, kw, hits, ids);
      assert IdOf(c, c.publicKey(priv), kw, ih, now) in ids;
    } else {
      hide Answers, HasRecord, Spares, TableAfter;
      assert ops == [ops[0]] + ops[1..];
      SparedStays(c, lower, priv, table, ops[0], kw, ih, now);
      var after := TableAfter(c, lower, priv, c.publicKey(priv), table, ops[0]);
      PublishedIsFound(c, lower, priv, after, ops[1..], kw, ih, now, hits);
    }
  }

  /** A Publish anywhere in a run makes its keyword's infohash an answer from then on, under the same conditions. */
  lemma {:induction false} PublishThenFound(c: Crypto, lower: bytes -> bytes, priv: PrivateKey, table: Table,
                                            ops: seq<Operation>, i: nat, k: bytes, hits: seq<Bytes20>)
    requires c.SignaturesVerify() && i < |ops| && ops[i].Publishing? && |ops[i].ih| == 20
    requires k in ops[i].keywords && Usable(lower(k))
    requires IdApart(c, lower, c.publicKey(priv), ops[i].keywords, ops[i].ih, ops[i].now, lower(k))
    requires forall j :: i < j < |ops| ==> Spares(c, lower, c.publicKey(priv), ops[j], lower(k), ops[i].ih, ops[i].now)
    requires Answers(TableRun(c, lower, priv, c.publicKey(priv), table, ops), lower(k), hits)
    ensures ops[i].ih in hits
    decreases |ops|
  {
    hide Answers, HasRecord, Spares, Entered, IdApart, Usable;
    var after := TableAfter(c, lower, priv, c.publicKey(priv), table, ops[0]);
    if i > 0 {
      PublishThenFound(c, lower, priv, after, ops[1..], i - 1, k, hits);
    } else {
      PublishedThere(c, lower, priv, table, ops[0].keywords, ops[0].ih, ops[0].now, k);
      PublishedIsFound(c, lower, priv, after, ops[1..], lower(k), ops[0].ih, ops[0].now, hits);
    }
  }

  ghost predicate Absent(table: Table, ih: Bytes20) {
    forall id :: id in table ==> table[id].ih != ih
  }

  lemma {:induction false} EnteredAbsent(c: Crypto, lower: bytes -> bytes, priv: PrivateKey, pub: Bytes32, table: Table,
                                         keywords: seq<bytes>, other: Bytes20, now: Int64, ih: Bytes20)
    requires Absent(table, ih) && other != ih
    ensures Absent(Entered(c, lower, priv, pub, table, keywords, other, now), ih)
    decreases |keywords|
  {
    hide ElementID;
    if keywords != [] {
      EnteredAbsent(c, lower, priv, pub, table, keywords[..|keywords| - 1], other, now, ih);
    }
  }

  /** After a Retract, whatever is published, retracted, refreshed and looked up, no lookup returns the infohash until
      it is published again. */
  lemma {:induction false} RetractedStaysGone(c: Crypto, lower: bytes -> bytes, priv: PrivateKey, pub: Bytes32,
                                              table: Table,
                                              ops: seq<Operation>, ih: Bytes20, token: bytes, hits: seq<Bytes20>)
    requires Absent(table, ih) || (ops != [] && ops[0] == Retracting(ih))
    requires forall op :: op in ops && op.Publishing? ==> op.ih != ih
    requires Answers(TableRun(c, lower, priv, pub, table, ops), token, hits)
    ensures ih !in hits
    decreases |ops|
  {
    if ops == [] {
      var ids :| AnswersWith(table, token, hits, ids);
      forall i | 0 <= i < |hits| ensures hits[i] != ih {
        assert ids[i] in ids;
      }
    } else {
      var op := ops[0];
      if op.Publishing? && |op.ih| == 20 {
        EnteredAbsent(c, lower, priv, pub, table, op.keywords, op.ih, op.now, ih);
      }
      assert ops == [op] + ops[1..];
      RetractedStaysGone(c, lower, priv, pub, TableAfter(c, lower, priv, pub, table, op), ops[1..], ih, token, hits);
    }
  }
}
