# SwartzNet: a Dafny model of the SNAGG index, RIBLT sync and the components around them

The project models the parts of SwartzNet that other nodes depend on byte for byte or step by step, and proves what
its documentation promises about them.

- **SNAGG** (`Bytes`, `Bencode`, `Records`, `Pages`, `Sorting`, `Trees`, `Cuts`, `Layout`, `Build`, `Read`,
  `SnaggProofs`, `SnaggTheorems`, `Completeness`): signed keyword records are sorted, packed greedily into leaf pages,
  covered by interior levels up to one root, numbered top-down, written as fixed-size pages and closed by a signed
  trailer. A reader opens any page source, walks down by min-key separators and half-open prefix ranges, and can
  rehash every leaf. The main results: a source opens exactly when its last piece is a trailer whose signature
  verifies over its own bytes; build, open and find answers, for every prefix, exactly the input records that have it,
  a valid signature and the work asked for, in sorted order; the fingerprint binds the leaves to the record sequence;
  Find is complete on verified leaves exactly when the interior pages meet a stated condition; the build succeeds
  exactly when stated, for every piece size; nothing on untrusted bytes repeats, loops or goes out of bounds.
- **RIBLT** (`Symbols`, `Riblt`, `RibltProofs`): symbols form an abelian group; residuals obey an invariant on any
  stream; on an honest stream peeling decodes exactly the elements that no stopping set holds, in any order, and
  `Converged` means the two sides of the difference are known.
- **Sync** (`Sync`, `SyncProofs`, `SyncRuns`, `Cache`, `Dispatch`, `Reconcile`): sessions with budgets and a reorder
  buffer, the symbol pump, chunked record frames and record stores. The main results: the initiator is told to
  converge exactly at the first check where the residuals are zero past the floor or done was taken in; and once it
  is, after reordered, repeated or partial symbol delivery, and with the need, the pushed frames and further pump
  turns in any order, both stores hold the union.
- **Around them**: `Aggregate` (a dirty-flag cache over the index: what is published is found until it is retracted),
  `Companion` (publisher and subscriber), `Crawler` (every interleaving of concurrent visits; a crawl that runs to its
  end sends exactly the samples of the nodes it can reach), `Tracker` (file completion), `Queue` (the promotion pass),
  `Manifest` (hit lists under the BEP 44 cap).

Code that updates state in place is modelled by classes and loops proved against specification functions; the lemmas are
about those functions. Records are bencoded as in BEP 3, section "bencoding"; `Bencode` proves that its decoder
answers exactly the values whose encodings the bytes start with.

Cryptography is a parameter: SHA-256, Ed25519 and the key derivation are arbitrary functions (`Records.Crypto`), and so
are the two hash functions of RIBLT (`Riblt.Hashing`), the infohash of a companion payload and the lower-casing of
keywords. Where a result needs that signatures verify (`SignaturesVerify`) or that no combination of elements looks pure
(`NoFalsePure`, `NothingHidden`), it says so. No hash is assumed collision-free: the fingerprint results speak of the two
record streams at hand and hold unless those two are themselves a collision (`Crypto.Collide`). Clocks, network outcomes,
map iteration orders and what a peer sends are parameters, and the results hold for all of them.

Some statements of intent in the repository hold only under a condition, and the model states it exactly:

- The build fails for some legal piece sizes, when a page's payload outgrows its 16-bit length before the page is full,
  an error that does not split. `BuildSucceedsExactly` gives the condition for every size, `BuildSucceedsLargePieces` its
  simple form from 65551 bytes on, `LargePiecesFail` the failing inputs: any 649 encodable records (`EncodableCopies`).
- A companion time can go back when the clock is at or before 1970 (`StampAdvances`, `ZeroClockRegresses`); over a run the
  published times keep their order exactly when every step after the first publication advances
  (`PublishedMonotoneExactly`).
- A snapshot time of zero passes the rollback guard (`ZeroTimeBypasses`); one Sync takes the remembered time back exactly
  when it ingests such a snapshot over a positive time (`GoesBackExactly`, `NeverGoesBackExactly`).
- A replaced manifest hit can be the one evicted, although its comment says the oldest hits go: it stays exactly when it
  is the last, or it and the hits after it fit (`ReplacedStays`, `ReplacedOldestCanGo`); an appended one never is evicted
  (`SettledPublishable`).
- A source that passes `VerifyFingerprint` need not answer completely, since interior pages are not hashed
  (`InteriorUnauthenticated`, `FindCanMiss`). It does exactly when the unpruned walk gets to the verifying records in order
  and every separator range on the way bounds what lies under it (`VerifiedFindsExactly`, `AllLeavesReached`).

## Model

| member | source | states |
|---|---|---|
| Bencode.EncodeParse | contracts/snagg/snagg.go:102-117 | any bencode value followed by any bytes parses back to that value and those bytes |
| Bencode.ParseExactly | contracts/snagg/snagg.go:102-157 | the decoder answers a value if and only if the bytes start with its encoding: no leading zeros, no "-0", nothing truncated |
| Bencode.EncodePrefixFree | contracts/snagg/snagg.go:102-117 | bencodings are injective and none is a proper prefix of another |
| Bencode.Bep3Examples | contracts/snagg/snagg.go:102-117 | the example values of BEP 3 encode to the bytes it gives |
| Bytes.UvarintRoundTrip | contracts/snagg/pages.go:42-83 | a 64-bit varint decodes to itself whatever bytes follow |
| Bytes.UvarintExactly | contracts/snagg/pages.go:42-83 | on any bytes the varint decoder accepts exactly the numbers below 2^64 in at most ten seven-bit groups |
| Records.SignedVerifies | contracts/record/record.go:126-140 | a record signed with a key verifies under its public key |
| Records.IdPreimageInjective | contracts/record/record.go:46-57 | what is hashed into an id determines the publisher, keyword, infohash and time |
| Records.SigMessageInjective | contracts/record/record.go:67-72 | what is signed determines every field but the signature, for keywords of one length |
| Records.RecordKeyInjective | contracts/snagg/snagg.go:159-169 | records with equal sort keys have equal keywords and infohashes |
| Records.LeadingZeroBitsExactly | contracts/record/record.go:83-95 | a digest meets a difficulty of k exactly when its first k bits are zero |
| Records.RecordRoundTrip | contracts/snagg/snagg.go:102-157 | a record with a keyword of at most 64 bytes decodes from its encoding to itself, whatever bytes follow |
| Records.DecodesExactly | contracts/snagg/snagg.go:121-157 | bytes decode to a record if and only if they start with a dictionary that holds its fields, in the right widths and ranges and with at most 64 keyword bytes |
| Records.RecordPrefixFree | contracts/snagg/snagg.go:102-117 | record encodings are injective and prefix-free |
| Records.RecordFits | contracts/snagg/snagg.go:102-117 | every record with a 1 to 64 byte keyword and 0 <= T < 10^13 fits the 256-byte cap |
| Records.RecordFitsTight | contracts/snagg/snagg.go:102-117 | with a 64-byte keyword and a 20-digit nonce a record of T >= 0 fits exactly when T < 10^13 |
| Pages.EncodeHeader | contracts/snagg/snagg.go:67-75 | writes the header bytes in place |
| Pages.EncodeLeaf | contracts/snagg/pages.go:10-39 | the loop yields the leaf page or the first error, in the order the source checks |
| Pages.DecodeLeaf | contracts/snagg/pages.go:42-83 | the loop yields the parsed records or the first error, in bounds on any bytes |
| Pages.LeafRoundTrip | contracts/snagg/pages.go:10-83 | a leaf page that encodes decodes to the same records |
| Pages.LeafMeans | contracts/snagg/pages.go:42-83 | any bytes read as a leaf have the magic, version and kind, their payload within the page, and as many records as counted, each decoded from a slice of the page |
| Pages.EncodeInterior | contracts/snagg/pages.go:105-140 | the loop yields the interior page with the first separator emptied, or the first error |
| Pages.DecodeInterior | contracts/snagg/pages.go:143-184 | the loop yields the parsed children or the first error, in bounds on any bytes |
| Pages.InteriorRoundTrip | contracts/snagg/pages.go:105-184 | an interior page decodes to its children, the first separator emptied |
| Pages.ChildrenBack | contracts/snagg/pages.go:105-184 | child by child, the index comes back and so does every separator but the first, which is empty |
| Pages.InteriorMeans | contracts/snagg/pages.go:143-184 | any bytes read as an inner page have the magic, version and an inner kind, their payload within the page, and as many children as counted |
| Pages.EncodeTrailerFields | contracts/snagg/snagg.go:187-199 | puts the nine signed fields at their offsets |
| Pages.EncodeTrailer | contracts/snagg/snagg.go:219-232 | yields the trailer page or the size or version error |
| Pages.TrailerRoundTrip | contracts/snagg/snagg.go:187-269 | a trailer page decodes to the same trailer |
| Pages.TrailerAt | contracts/snagg/snagg.go:235-269 | a page decodes to a trailer if and only if its magic, version, kind and length are those of a trailer page and its bytes are that trailer's nine fields and signature |
| Sorting.StableSortSorted | contracts/snagg/build.go:60 | the sort puts record keys in ascending order |
| Sorting.StableSortStable | contracts/snagg/build.go:60 | records with equal keys keep their input order |
| Sorting.StableSortPermutes | contracts/snagg/build.go:60 | the sort keeps exactly the input records |
| Sorting.SortOrderIndependent | contracts/snagg/build.go:60 | with distinct keys the sorted sequence does not depend on the input order |
| Trees.PackGroups | contracts/snagg/build.go:172-229 | greedy packing cuts the items into nonempty fitting runs in order; where any two items fit, all runs but the last hold two or more |
| Trees.PackInteriorShape | contracts/snagg/build.go:201-229 | an interior level covers the level below in order, every node fits, and it is at most half as long rounded up |
| Trees.LevelsStacked | contracts/snagg/build.go:66-86 | the level loop ends in one root over properly stacked levels, at most three nodes a leaf |
| Trees.PlanIsPlanned | contracts/snagg/build.go:44-86 | a plan that succeeds is a complete tree whose leaves concatenate to the sorted input |
| Trees.PlanSucceeds | contracts/snagg/build.go:172-229 | for 16384 <= pieceSize <= 65293 planning succeeds exactly on a nonempty list of encodable records |
| Trees.PlanSucceedsLargePieces | contracts/snagg/pages.go:10-39 | from 65551 bytes on planning succeeds exactly when there are records, all encode, and the whole stream fits one leaf payload; otherwise encodable records fail with the payload-length error |
| Cuts.PackIsCut | contracts/snagg/build.go:172-229 | greedy packing is the cut by size alone, and succeeds exactly when no run with the item that closed it passes 65535 payload bytes |
| Cuts.PlanExactly | contracts/snagg/build.go:44-86 | for every piece size planning succeeds exactly when the size is legal, there are records, all encode, and the cut of every level stays within the length |
| Build.PackLeafNodes | contracts/snagg/build.go:172-199 | the loop packs leaves as the plan does, or fails with the same error |
| Build.PackInteriorNodes | contracts/snagg/build.go:201-229 | the loop packs one interior level as the plan does and keeps the children as nodes |
| Build.BuildNodeLevels | contracts/snagg/build.go:62-86 | the level loop and the single-leaf root build the plan's levels out of distinct nodes |
| Build.AssignPieces | contracts/snagg/build.go:88-96 | numbers every node in place, top-down and left to right, and counts the pieces |
| Build.InteriorChildrenOf | contracts/snagg/build.go:162-170 | pairs each child's min key with its assigned piece |
| Build.EmitPages | contracts/snagg/build.go:103-123 | fills the page array so that every node's page sits at its piece |
| Build.FingerprintSorted | contracts/snagg/snagg.go:274-286 | hashes the concatenated record encodings, or returns the first record error |
| Build.BuildBTree | contracts/snagg/build.go:44-160 | the whole method returns the specified file, counts and fingerprint, or the specified error |
| Layout.FileLaidOut | contracts/snagg/build.go:88-152 | the file holds every planned node's page at its piece, whatever its trailer page |
| SnaggProofs.ChildrenAfterParents | contracts/snagg/build.go:88-123 | read back, every inner page lists its node's children at pieces after its own and before the trailer, and those pieces hold the children |
| SnaggTheorems.BuildSucceeds | contracts/snagg/build.go:44-160 | from 16384 to 65293, up to 2^30 records, BuildBTree succeeds exactly on a nonempty list of encodable records |
| SnaggTheorems.BuildSucceedsExactly | contracts/snagg/build.go:44-160 | for every piece size, up to 2^30 records, BuildBTree succeeds exactly on plannable records |
| SnaggTheorems.BuildSucceedsLargePieces | contracts/snagg/pages.go:26-31 | from 65551 bytes on BuildBTree succeeds exactly when everything fits one leaf, and otherwise fails with the payload-length error |
| SnaggTheorems.LargePiecesFail | contracts/snagg/pages.go:26-31 | any 649 encodable records build at 16384 bytes and fail at every legal size from 65551 on |
| SnaggTheorems.EncodableCopies | contracts/snagg/snagg.go:102-117 | 649 encodable records exist |
| SnaggTheorems.BuildOrderIndependent | contracts/snagg/build.go:60 | with distinct record keys neither success nor the result depends on the order of the input; only which keyword error is named can |
| Read.ComputeNextPrefix | contracts/snagg/read.go:234-244 | the in-place carry loop computes the least string after all strings with the prefix, or nil |
| Read.PrefixRange | contracts/snagg/read.go:234-244 | s starts with p if and only if p <= s and s < nextPrefix(p), nil meaning no bound |
| Read.PruneSound | contracts/snagg/read.go:248-257 | rangeOverlapsPrefix never prunes a range that holds a key whose keyword has the prefix |
| Read.PruneExact | contracts/snagg/read.go:248-257 | a range is walked into if and only if some key in it has the prefix |
| Read.OpensExactly | contracts/snagg/read.go:46-69 | a source opens as t if and only if it has three pieces or more, the last is t's trailer page byte for byte, t's signature verifies over that page's own bytes, and page count and root are right |
| Read.Walker.WalkToLeaves | contracts/snagg/read.go:138-183 | the recursive walk over any bytes updates visited and leaves as specified |
| Read.WalkOrderly | contracts/snagg/read.go:138-183 | on any bytes the walk fetches each piece at most once and returns distinct in-range leaves |
| Read.WalkFailsClosed | contracts/snagg/read.go:138-183 | a walk that ends without error collected every leaf it came to, and read only inner pages that parse, whose children rise before the trailer and were walked into wherever their range meets the prefix range |
| Read.ViewMeans | contracts/snagg/snagg.go:77-92 | which bytes make a piece a leaf, an inner page or neither |
| Read.Find | contracts/snagg/read.go:76-132 | the method returns the specified answer on any source |
| Read.FindAuthentic | contracts/snagg/read.go:92-131 | on any source the repeated-leaf and too-many-leaves errors cannot occur, and every record returned lies on a leaf piece, has the prefix, a valid signature and the zero bits the trailer asks for |
| Read.HitsFilter | contracts/snagg/read.go:107-130 | of a list of records exactly those with the prefix, a valid signature and enough zero bits are answered, in order |
| Read.VerifiedMeans | contracts/snagg/read.go:188-229 | a source that passes has readable pieces only, and its leaf records are encodable, as many as claimed and hash to the fingerprint |
| Read.VerifyFingerprint | contracts/snagg/read.go:188-229 | accepts exactly when the leaves in piece order hash to the fingerprint and their count matches |
| SnaggProofs.FindIsLinearScan | contracts/snagg/read.go:76-183 | on a laid-out source every prefix query returns the linear scan of the sorted records, in order |
| SnaggTheorems.BuiltOpens | contracts/snagg/read.go:46-69 | a signed build opens exactly when its page count is below 2^32, and gives back all its trailer's fields |
| SnaggTheorems.BuiltOpensExactly | contracts/snagg/read.go:46-69 | a build, signed or not, opens exactly when its page count is below 2^32 and the signature it carries verifies |
| SnaggTheorems.UnsignedOpensExactly | contracts/snagg/build.go:125-152 | an unsigned build opens only if 64 zero bytes verify as its signature |
| SnaggTheorems.BuiltFinds | contracts/snagg/read.go:76-183 | build, open, find: for every prefix exactly the sorted input records that have it and verify |
| SnaggTheorems.BuiltAnswers | contracts/snagg/read.go:76-131 | build, open, find: a record is in the answer if and only if it is in the input, has the prefix, verifies and has the zero bits asked for; answers keep the sorted order |
| SnaggTheorems.BuiltVerifies | contracts/snagg/read.go:188-229 | every build of fewer than 2^64 records passes VerifyFingerprint |
| SnaggTheorems.FingerprintBinds | contracts/snagg/read.go:188-229 | a source whose pieces pass VerifyFingerprint holds exactly the signed record sequence, in piece order, if and only if the two record streams are not a collision of the hash |
| SnaggTheorems.InteriorUnauthenticated | contracts/snagg/read.go:188-229 | exchanging any readable non-leaf page of a source for another leaves the verdict of VerifyFingerprint as it was |
| Completeness.WalkCollects | contracts/snagg/read.go:138-183 | where the unpruned walk succeeds every pruned walk does, and collects exactly the leaves whose ranges meet the prefix range |
| Completeness.VerifiedFindsExactly | contracts/snagg/read.go:71-131 | on a source that passes VerifyFingerprint every prefix query is the linear scan of the signed records exactly when the interior pages are complete for them |
| Completeness.AllLeavesReached | contracts/snagg/read.go:71-131 | where the unpruned walk gets to every leaf piece in order, all queries are complete exactly when every separator range bounds the verifying records under it |
| Completeness.FindCanMiss | contracts/snagg/read.go:188-229 | pages that pass VerifyFingerprint for two records while the query for everything misses the second leaf |
| Symbols.PlusAssoc | contracts/riblt/riblt.go:77-88 | symbols add associatively, wrapping counts and XORs included |
| Symbols.SumPick | contracts/riblt/riblt.go:77-88 | a sum of symbols over a set does not depend on the order of its elements |
| Riblt.Encoder.NextSymbol | contracts/riblt/riblt.go:77-88 | returns the code of the elements at the stream position and advances it |
| Riblt.Decoder.EffectiveLocalSymbol | contracts/riblt/riblt.go:126-147 | computes the code of local plus added minus removed |
| Riblt.Decoder.AddRemoteSymbol | contracts/riblt/riblt.go:112-122 | appends the residual and peels as specified, changing nothing else |
| Riblt.Decoder.PeelOnce | contracts/riblt/riblt.go:149-189 | peels the first pure undecoded symbol, or changes nothing |
| Riblt.Decoder.RunPeel | contracts/riblt/riblt.go:149-189 | peeling terminates on any residuals with the specified result |
| Riblt.Decoder.Converged | contracts/riblt/riblt.go:192-200 | true exactly when all residuals are zero |
| Riblt.Decoder.Added | contracts/riblt/riblt.go:203-211 | lists each element decoded with direction +1 once |
| Riblt.Decoder.Removed | contracts/riblt/riblt.go:214-222 | lists each element decoded with direction -1 once |
| RibltProofs.CodePermutes | contracts/riblt/riblt.go:77-88 | encoder streams do not depend on element order |
| RibltProofs.ReceiveInvariant | contracts/riblt/riblt.go:112-189 | on any stream residual k is received symbol k minus the recomputed code of (local, plus added, minus removed), and no pure undecoded symbol is left |
| RibltProofs.ResidualIsHidden | contracts/riblt/riblt.go:112-189 | on an honest stream every residual is the signed code of the undecoded part of the difference |
| RibltProofs.DecodedExactly | contracts/riblt/riblt.go:149-222 | honest stream, no false purity: decoded are exactly the difference elements outside every stopping set, in the right direction, no more than the symbols received |
| RibltProofs.PeelOrderIrrelevant | contracts/riblt/riblt.go:149-189 | any peeling order that ends with no pure symbol decodes the same map |
| RibltProofs.ConvergedExactly | contracts/riblt/riblt.go:192-222 | where nothing hides over the prefix, Converged holds if and only if Added = remote minus local and Removed = local minus remote |
| SyncProofs.NewSessionSeeded | internal/swarmsearch/sync_session.go:106-129 | a new session holds exactly the ids of its records, once each, in encoder, decoder and index |
| Reconcile.OpeningSettles | internal/swarmsearch/sync_session.go:142-176 | a sync_begin is accepted exactly by a session of its txid, which then keeps within its own and the sender's budgets and changes in nothing else |
| Sync.SyncSession.ApplyBegin | internal/swarmsearch/sync_session.go:159-176 | negotiates both budgets downward, or the txid or size error |
| Sync.SyncSession.ProduceSymbols | internal/swarmsearch/sync_session.go:179-201 | emits the next at most 100 symbols within the budget, or the budget error |
| Sync.SyncSession.ApplySymbols | internal/swarmsearch/sync_session.go:211-257 | drops, buffers or drains a batch as specified, error cases included |
| Sync.SyncSession.ShouldInitiatorConverge | internal/swarmsearch/sync_session.go:264-275 | fires when it has not fired before and either done was taken in or 256 symbols are in and every residual is zero |
| Sync.SyncSession.NeedIDs | internal/swarmsearch/sync_session.go:296-306 | lists the added ids in ascending order |
| Sync.SyncSession.RemovedRecords | internal/swarmsearch/sync_session.go:309-319 | lists the local record of each removed id once |
| Sync.SyncSession.NeedFrame | internal/swarmsearch/sync_session.go:322-335 | builds the need, or refuses more than 1000 ids |
| Sync.SyncSession.ApplyNeed | internal/swarmsearch/sync_session.go:339-363 | splits the requested ids into records held and ids missing |
| Sync.SyncSession.BuildRecordsFrame | internal/swarmsearch/sync_session.go:367-386 | builds a frame of at most 500 records and accounts its bytes |
| Sync.SyncSession.ApplyRecords | internal/swarmsearch/sync_session.go:391-427 | accepts a frame by phase, cap, widths and byte budget, with the source's order of errors |
| Sync.SyncSession.Finish | internal/swarmsearch/sync_session.go:430-445 | ends the session and changes nothing else |
| SyncProofs.ArrivalReorders | internal/swarmsearch/sync_session.go:211-257 | one arrival errs exactly when it is new, ahead and 32 batches wait; otherwise the session is at the longest contiguous prefix arrived |
| SyncProofs.DeliveryReorders | internal/swarmsearch/sync_session.go:211-257 | for any delivery order with duplicates and at most 32 batches waiting, no error, the decoder equals in-order application of the longest contiguous prefix, doneReceived holds exactly when done is in it |
| SyncProofs.FewBatchesNeverOverfull | internal/swarmsearch/sync_session.go:84-86 | a stream of at most 33 batches never overfills the buffer |
| SyncProofs.BeginsExactly | internal/swarmsearch/sync_session.go:159-176 | a begin is taken exactly when its txid and element size are right; it lowers each budget to what the peer asks, and never raises one |
| SyncProofs.ResolveExactly | internal/swarmsearch/sync_session.go:339-363 | the records answered are those the session holds under the requested ids and the missing are the other ids, each in request order |
| SyncProofs.AcceptsExactly | internal/swarmsearch/sync_session.go:391-427 | a records frame is let in exactly when it is of this exchange, in phase, within 500 records, of the right widths and within the byte budget; a refused one changes nothing |
| SyncProofs.WireSizesAdd | internal/swarmsearch/records.go:182 | a record pays for the widths of its six fields |
| SyncProofs.ForeignRefused | internal/swarmsearch/sync_session.go:159-427 | a frame with another txid is refused and changes nothing |
| SyncProofs.CapsHold | internal/swarmsearch/sync_session.go:179-386 | needs are built and answered exactly up to 1000 ids, frames up to 500 records, batches as long as the 100 symbols, the request and the budget allow |
| SyncRuns.RunBudgeted | internal/swarmsearch/sync_session.go:159-445 | on every run, against any peer: symbols and bytes stay within the budgets, at most 32 batches wait, convergence fires at most once |
| SyncRuns.RunDecodes | internal/swarmsearch/sync_session.go:211-257 | on every run the decoder keeps the residual invariant with as many symbols as counted |
| SyncRuns.FiresExactly | internal/swarmsearch/sync_session.go:264-275 | over every run the initiator is told to converge exactly at the first check where done was taken in or all residuals past 256 symbols are zero |
| Cache.RecordCache.Add | internal/swarmsearch/records.go:70-90 | inserts, overwrites or evicts the FIFO head as specified |
| Cache.InsertKeeps | internal/swarmsearch/records.go:70-90 | adding stores the record under its id, keeps the filing and never exceeds the cap |
| Cache.EvictOldest | internal/swarmsearch/records.go:78-86 | eviction removes exactly the oldest live record |
| Cache.RecordCache.Remove | internal/swarmsearch/records.go:101-106 | removes the id and nothing else |
| Cache.InsertExactly | internal/swarmsearch/records.go:70-90 | a known id is overwritten in place, below the cap a new one goes last, at the cap exactly the oldest live one goes first |
| Cache.RecordCache.PruneOlderThan | internal/swarmsearch/records.go:109-131 | removes exactly the records older than the cutoff, counts them and keeps live ids in the FIFO |
| Cache.RecordCache.LocalRecords | internal/swarmsearch/records.go:146-178 | lists exactly the matching records, each id once, and no record twice |
| Dispatch.RunSyncPump | internal/swarmsearch/sync_dispatch.go:260-291 | streams the specified frames until told to stop or out of budget |
| Reconcile.PumpStreams | internal/swarmsearch/sync_dispatch.go:260-291 | the pump's frames code the stream without gaps, at most 100 a frame, done on the last exactly when the budget is used up |
| Dispatch.SendRecordsChunked | internal/swarmsearch/sync_dispatch.go:356-381 | the chunk loop sends the specified frames |
| Dispatch.SentFramesValid | internal/swarmsearch/sync_dispatch.go:356-381 | every frame that goes out holds at most 500 records, each of the right widths and with a 1 to 64 byte keyword |
| Reconcile.ChunksCarryAll | internal/swarmsearch/sync_dispatch.go:356-381 | chunking loses, repeats and reorders nothing, at most 500 records a frame, missing on the last frame only, at least one frame |
| Dispatch.InitiatorConverge | internal/swarmsearch/sync_dispatch.go:421-436 | asks for the added ids unless over the cap, and pushes the removed records if any |
| Dispatch.IngestSyncRecords | internal/swarmsearch/sync_dispatch.go:458-477 | stores exactly the records that verify, in order |
| Dispatch.IngestExactly | internal/swarmsearch/sync_dispatch.go:458-477 | every record in the store afterwards was there or came in under its own id and verifies; without a cap every verifying one is there |
| Reconcile.Negotiated | internal/swarmsearch/sync_dispatch.go:199-226 | negotiation succeeds and leaves the responder within the initiator's budgets |
| Reconcile.InitiatorDecodes | internal/swarmsearch/sync_dispatch.go:260-317 | any reordered, repeated or partial delivery of the pump's batches leaves the initiator's decoder as an honest in-order prefix, without error |
| Reconcile.ExchangeResolves | internal/swarmsearch/sync_dispatch.go:293-317 | without collisions an initiator told to converge by its residuals has decoded both sides of the difference |
| Reconcile.NeedIsAnswered | internal/swarmsearch/sync_dispatch.go:319-349 | a need for ids all held is answered in full, in chunks, by a session in any phase |
| Reconcile.ListLands | internal/swarmsearch/sync_dispatch.go:356-402 | listed records sent in chunks are all accepted within the byte budget and stored, whatever the order of the frames |
| Reconcile.EventsLand | internal/swarmsearch/sync_dispatch.go:260-402 | under every interleaving of pump turns, pushed frames and one need, every pushed frame lands and the need is answered in full |
| Reconcile.BothHoldTheUnion | internal/swarmsearch/sync_dispatch.go:199-477 | end to end, once the initiator is told to converge without done, with the need, the pushes and further pump turns reaching the responder in any order, both stores gain exactly the ids they lacked and no frame is refused |
| Aggregate.UnminedEncodes | internal/dhtindex/aggregate.go:126-132 | a record without proof of work always fits its 256 bytes |
| Aggregate.AggregatePPMI.constructor | internal/dhtindex/aggregate.go:69-74 | starts with an empty coherent table |
| Aggregate.AggregatePPMI.Publish | internal/dhtindex/aggregate.go:113-136 | enters one signed record per usable lowered keyword under its id, leaves every other record, and keeps the cache coherent |
| Aggregate.AggregatePPMI.Retract | internal/dhtindex/aggregate.go:193-208 | removes exactly the records of the infohash, keeps every other, and keeps the cache coherent |
| Aggregate.AggregatePPMI.Rebuild | internal/dhtindex/aggregate.go:211-238 | leaves a tree of the present table, whatever order the map yields |
| Aggregate.AggregatePPMI.Refresh | internal/dhtindex/aggregate.go:144-155 | rebuilds and hands out a tree of the present table |
| Aggregate.ExactHits | internal/dhtindex/aggregate.go:279-292 | narrows a prefix query to the exact keyword |
| Aggregate.AggregatePPMI.Lookup | internal/dhtindex/aggregate.go:245-275 | a self-lookup returns the infohashes of exactly the records in the table with that keyword, each record once |
| Aggregate.TreeAnswers | internal/dhtindex/aggregate.go:245-292 | a tree built from any listing of the table answers every token exactly |
| Aggregate.RetractedStaysGone | internal/dhtindex/aggregate.go:193-208 | after a Retract no lookup returns the infohash until it is published again |
| Aggregate.PublishedThere | internal/dhtindex/aggregate.go:113-136 | after a Publish every usable keyword has its record in the table, signed with the own key, where no later id of the call is the same |
| Aggregate.PublishedOnly | internal/dhtindex/aggregate.go:113-136 | every record in the table after a Publish is an old one or one published under that call |
| Aggregate.PublishedIsFound | internal/dhtindex/aggregate.go:245-275 | a published infohash is found by its keyword after any operations that neither retract it nor reuse its id |
| Aggregate.PublishThenFound | internal/dhtindex/aggregate.go:113-136 | a Publish anywhere in a run makes the infohash an answer to each of its usable keywords from then on, under the same condition |
| Aggregate.CommitMatches | internal/dhtindex/aggregate.go:211-238 | the cached tree exists exactly when the table holds something; it opens, carries the fingerprint handed out with it, counts every record and passes the full pass |
| Companion.ComputeContentFingerprint | internal/companion/publisher.go:20-33 | the XOR loop computes the content fingerprint |
| Companion.FingerprintPermutes | internal/companion/publisher.go:20-33 | the content fingerprint does not depend on torrent order |
| Companion.StampAdvances | internal/companion/publisher.go:219-235 | on changed content the time increases exactly under a condition on the last time and the clock |
| Companion.Publisher.RefreshOnce | internal/companion/publisher.go:202-291 | one refresh updates stamp, seeds and pointer as specified for every outcome |
| Companion.PublishedMonotone | internal/companion/publisher.go:202-291 | in one lifetime with clocks after 1970 published times never decrease and strictly increase when content changes |
| Companion.SteadyRunMonotone | internal/companion/publisher.go:202-291 | whatever fails, while every step after a publication advances the time, published times keep their order |
| Companion.PublishedMonotoneExactly | internal/companion/publisher.go:202-291 | where every snapshot goes out, the published times keep their order exactly when every such step advances |
| Companion.ZeroClockRegresses | internal/companion/publisher.go:220-235 | a first snapshot at second 0 lets a later one go back |
| Companion.SeedsFollowPointer | internal/companion/publisher.go:243-291 | where seeding and dropping succeed, exactly the last advertised torrent is held after every refresh |
| Companion.AdvertisedNeverDropped | internal/companion/publisher.go:255-291 | whatever fails, the torrent the live pointer names is never dropped |
| Companion.RefreshOutcomes | internal/companion/publisher.go:202-291 | what each failure of a refresh leaves as it was, and what success publishes and holds |
| Companion.HeldOutcomes | internal/companion/publisher.go:243-291 | exactly which torrents are held after a refresh, whatever fails |
| Companion.UnchangedRepublishes | internal/companion/publisher.go:219-235 | refreshing unchanged content publishes the same snapshot again, time and infohash included |
| Companion.Subscriber.Sync | internal/companion/subscriber.go:103-188 | one Sync dedups, guards and commits as specified, racing Forgets included |
| Companion.Subscriber.Forget | internal/companion/subscriber.go:193-199 | drops the key's state and advances its epoch |
| Companion.Subscriber.CommitDedup | internal/companion/subscriber.go:206-217 | commits only when the epoch has not moved |
| Companion.ForgetWins | internal/companion/subscriber.go:103-217 | a Forget racing a Sync at any point before its commit leaves nothing remembered for the key |
| Companion.GoesBackExactly | internal/companion/subscriber.go:157-185 | one Sync takes the remembered time back exactly when it ingests a snapshot of time zero over a positive time and no Forget races it |
| Companion.NeverGoesBackExactly | internal/companion/subscriber.go:157-185 | without Forget the remembered time never goes back over a run exactly when no Sync of it does that |
| Companion.ImportedNeverRegresses | internal/companion/subscriber.go:157-185 | without Forget and zero times the remembered time never goes back |
| Companion.ZeroTimeBypasses | internal/companion/subscriber.go:169 | a zero time passes the guard and resets the remembered time |
| Companion.NewerNeverRolledBack | internal/companion/subscriber.go:157-185 | a Sync is turned away as rollback exactly when the snapshot is earlier than the imported one, so never for a newer one of the same publisher lifetime |
| Companion.SyncOutcomes | internal/companion/subscriber.go:103-188 | where no Forget races, a snapshot is imported exactly when the pointer is new, the followed key signed it, it is not a rollback and the ingest succeeds; the pointer is remembered exactly on import or rollback |
| Crawler.Crawler.TryEnqueue | internal/dhtindex/crawler.go:172-189 | admits a new usable address exactly below both bounds, as the run's step does |
| Crawler.Crawler.Emit | internal/dhtindex/crawler.go:193-208 | passes on an infohash exactly when new and below the target, as the run's step does |
| Crawler.CrawlBounded | internal/dhtindex/crawler.go:120-208 | under every interleaving each address is visited at most once, visits within MaxFrontier, workers within the limit, the sink sees distinct infohashes within MaxInfohashes |
| Crawler.CrawlExact | internal/dhtindex/crawler.go:120-208 | a finished crawl that was not cancelled, filled no frontier and met no target visits exactly the nodes reachable from the seeds through answering nodes |
| Crawler.SinkSound | internal/dhtindex/crawler.go:144-208 | in every run the sink holds only samples of visited nodes that answered |
| Crawler.SinkExact | internal/dhtindex/crawler.go:120-208 | a finished crawl that was not cancelled and filled no frontier sends exactly the samples of the reachable answering nodes, or exactly the target number |
| Crawler.TalliesExact | internal/dhtindex/crawler.go:144-219 | every visited node whose query is over is counted once, as sampled or as errored; without a cancellation as errored exactly when it does not answer |
| Crawler.StepLowersRank | internal/dhtindex/crawler.go:120-208 | every step but a cancellation lowers a well-founded rank bounded through MaxFrontier, whatever the nodes answer |
| Crawler.CrawlDrains | internal/dhtindex/crawler.go:120-166 | from any point of any run the crawl can be finished without a cancellation |
| Tracker.RecountFlip | internal/engine/tracker.go:167-180 | one flipped piece moves the recount of a span that holds it by one, and no other |
| Tracker.LastEventCounts | internal/engine/tracker.go:157-170 | a piece is as its last event left it, or as first observed |
| Tracker.FileTracker.constructor | internal/engine/tracker.go:116-155 | clamps spans, counts every file and reports the complete ones |
| Tracker.FileTracker.HandleEvent | internal/engine/tracker.go:157-184 | keeps every open counter equal to a positive recount and reports a file exactly when its span is first seen done |
| Tracker.FileTracker.Close | internal/engine/tracker.go:75-86 | closes the tracker, after which nothing is reported |
| Tracker.RunTracker | internal/engine/tracker.go:107-193 | over any events the reported files are exactly those whose clamped span was all done in some observed state, each once |
| Queue.Engine.CountActive | internal/engine/queue.go:54-62 | counts the active torrents |
| Queue.Engine.PromoteQueued | internal/engine/queue.go:122-156 | activates only eligible torrents, in queue order, within max(previous, cap), and leaves one queued only at the cap; what is activated may flow data and wants its files |
| Queue.ActiveMeans | internal/engine/queue.go:54-62 | a torrent is active exactly when it is neither paused nor queued and, once its info is known, wants a file and lacks bytes |
| Manifest.EstimateIsWeight | contracts/dhtschema/dhtschema.go:145-156 | the estimated size is the same under every ten-digit clock |
| Manifest.Manifest.AddHit | internal/dhtindex/manifest.go:106-139 | replaces or appends, evicts and trims as specified |
| Manifest.SettledPublishable | internal/dhtindex/manifest.go:106-139 | adding leaves a publishable entry and never evicts an appended hit |
| Manifest.SettledSuffix | internal/dhtindex/manifest.go:124-139 | what stays of an entry is its longest suffix that fits, and always its last hit |
| Manifest.EnteredAt | internal/dhtindex/manifest.go:112-123 | a hit takes the place of the hit with its infohash, or goes last |
| Manifest.FittedFits | internal/dhtindex/manifest.go:144-149 | trimming ends with a hit that fits, changes only the name, and nothing on a hit that fits |
| Manifest.ReplacedStays | internal/dhtindex/manifest.go:117-139 | a replaced hit stays exactly when it is the last, or it and the hits after it fit the cap |
| Manifest.ReplacedOldestCanGo | internal/dhtindex/manifest.go:132-134 | a replaced oldest hit with a long name is itself evicted |
| Manifest.Manifest.RemoveAllHits | internal/dhtindex/manifest.go:154-184 | scrubs the infohash, drops emptied entries and counts the entries touched |
| Manifest.ScrubbedFilters | internal/dhtindex/manifest.go:154-184 | scrubbing keeps exactly the hits of other infohashes, in order |
| Manifest.ManifestPublishable | internal/dhtindex/manifest.go:106-184 | over any run every entry is nonempty, has distinct infohashes and encodes within 1000 bytes |
| Manifest.HitFields | contracts/dhtschema/dhtschema.go:84-91 | a hit encodes its infohash always and every other field exactly where it is set, keys ascending |
| Manifest.ValueBack | contracts/dhtschema/dhtschema.go:93-113 | a value is refused exactly when it is over 1000 bytes, and otherwise decodes to its hits and clock |
| Manifest.AddedThere | internal/dhtindex/manifest.go:106-139 | after AddHit the keyword has an entry that ends, for a new infohash, with that hit, at most its name trimmed; other keywords keep theirs |
| Manifest.RemovedStaysGone | internal/dhtindex/manifest.go:154-184 | once removed, an infohash is under no keyword until it is added again |
| Manifest.RemovalScrubs | internal/dhtindex/manifest.go:154-184 | a removal leaves no hit of the infohash and keeps every other |

## Left out

- Bencode library: the decoder follows BEP 3; leniencies of the Go library's decoder beyond it, such as its tolerance for unsorted or repeated keys, are not modelled byte for byte.
- BuildBTree: a tree of 2^32 pages or more wraps the piece counter and makes the source index past its page array; the model returns an error there.
- BuildSucceeds: stated up to 2^30 records, so that the page count stays below 2^32.
- BuildSucceedsExactly: stated up to 2^30 records, for the same reason.
- Lookup: stated for tables of at most 2^30 records; a larger one could fail to build.
- BothHoldTheUnion: batches that reach the initiator after it has converged are not interleaved with the replies; they change only the phase and the symbol side of its session.
- RunSyncPump: the stop signal and the protocol's end are one parameter, the number of turns before they are seen; pacing is not modelled.
- The JSON, LTEP and DHT envelopes of frames: frames are values; only the checks that refuse to encode a records frame are modelled.
- Session registry, rate limits, ban scores and the publisher observer of `sync_dispatch.go`: admission around the exchange, not part of it.
- Refresh: the second distribution after a concurrent change runs outside the lock and is not modelled.
- Crawler: the sink call is one step with the dedup that admits the infohash, although the source makes it after releasing the lock.
- Tracker subscriber channels: each is a bounded queue that drops on overflow; the model keeps the list that is replayed to them.
- Queue: activation on add and resume, and the queue moves, change one handle at a time; only the promotion pass is modelled.
- Manifest file format, publish bookkeeping and the salt rules: each is settled by one branch and none affects the size bound.
- RIBLT hash arithmetic (FNV and SplitMix64): opaque functions, so golden vectors are not covered.
- Sorting: the library's stable sort is given as an insertion sort; its properties determine the result.
- Subscriber.Sync: two Syncs of one key at the same time are not modelled; a racing Forget is, at each point where it matters.
- Subscriber ingest and companion files: one success or failure per Sync.
