# TorrentNG: a verified model of its stateful core

TorrentNG puts a Rust sidecar and a set of API facades in front of rTorrent. This project models, in
Dafny 4.11, the parts of it whose correctness is a matter of whole runs or of all inputs, and proves what they promise:

- **Torrent synchronisation** (`Sync*.dfy`): the paged reconciliation of a backend list into a cache, which
  bisects failing ranges, pins a snapshot token and deletes stale rows only after clean cycles, beside the
  full-list pass that it must agree with.
- **Idempotent requests** (`Idempotency*.dfy`): the bounded store of in-flight and completed requests, and
  all interleavings of requests that claim, wait, replay, complete, abandon or are dropped.
- **Bencode** (`Bencode.dfy`, `Decoder.dfy`, `InfoSpan.dfy`, `TorrentMeta.dfy`, `TrackerUrls.dfy`): the
  printer, the strict bounded decoder, the info-dictionary span and the cursor scanner that extracts
  tracker URLs (the bencoding section of BEP 3, the `announce-list` of BEP 12).
- **Validation tasks** (`TaskSelection.dfy`, `TaskRunner.dfy`): dependency closure with cycle detection, and
  the runner with its receipt.
- **Log tailing** (`LogTailer.dfy`), **login limiting** (`LoginLimiter.dfy`), **signed sessions**
  (`SessionCodec.dfy`), **media scanners** (`MediaScan.dfy`) and **query redaction** (`UrlRedaction.dfy`,
  percent-encoding as in section 2.1 of RFC 3986).

`dafny verify dfyconfig.toml` checks the whole project.

## How to read the model

Objects that the source updates in place are classes (`BoundedSync`, `IdempotencyStore`, `ExecutionGuard`,
`Selector`, `LogIngest`, `LoginAttemptLimiter`, `Buffer`); a cursor passed as `&mut usize` is an in- and an
out-parameter. Each such method is proved against a function or relation on values, and the run theorems
are about that function or relation. A parser method takes an optional ghost value whose encoding its
input begins with. The contract holds for every such value, so it says what happens on every encoding;
the clauses that do not mention the ghost value hold on arbitrary bytes.

What is outside the program is a parameter: backend answers and persistence failures are fields of `Input`
and `Env`, clocks are arguments, trimming and decoding of text and the message authentication code are
arbitrary functions. The page size is 100 (`sidecar/src/rtorrent/torrents.rs:33`).

Findings about the code:

- Deletion without a token rests on two clean cycles, except after a failed count read: that read
  leaves the tick before the cycle is reset but after rows have been noted as missing. `FailedCountDeletesAfterOneCycle`
  gives the run, `TwoCleanCyclesExactly` the exact condition.
- The hash listing is already limited to 100000 rows, so the check for more than 100000 entries behind it never fires (`ListingBounded`).
- The runner blocks a task on the first dependency that has not passed; if that one has no receipt yet, later
  dependencies are not looked at. `RunsAfterFailedDependency` gives the plan, `StartsAfterDependencies` the exact condition.
- The word and extension scans look at disjoint matches only; `WordScanExact` and `ExtensionScanExact`
  say exactly which needles they can miss.
- An `announce` value that is not a string, or a value nested more than 64 deep under an unrelated key, ends tracker
  extraction. An `announce-list` nested deeper is abandoned where it gets too deep, and what follows there is read as
  keys and values of the file (`DeepItemsAreKeys`). `ShallowExtracted`, `BlockedExtracted` and `DeepListExtracted`
  together say what comes out of every dictionary; `ListAnnounce` is a file that loses a tracker.
- A row that stays unreadable costs more than that torrent's data, which is what the comment at
  `sidecar/src/sync.rs:659-664` promises. Its page comes back short, and the caller takes a short page for the end of
  the list even with errors, against the comment at `sidecar/src/sync.rs:653-655`. So no page behind it is ever read,
  and nothing is ever deleted (`UnreadableRun`).
- An escaped control sequence put behind a lone backslash can change the normal form of a key, because the backslash
  no longer joins with the letter behind it (`LoneBackslashHides`); `ControlsDoNotHide` has the condition.

## Model

| member | source | states |
|---|---|---|
| `Bytes.DecimalRoundTrip` | crates/rt-bencode/src/encode.rs:11-20 | a printed number reads back as itself and has no superfluous zero |
| `Bytes.DecimalCanonical` | crates/rt-bencode/src/encode.rs:11-20 | canonical decimal text is the print of its value |
| `Bencode.EncodeInto` | crates/rt-bencode/src/encode.rs:3-39 | appends exactly the encoding of the value to the buffer, whatever the buffer held |
| `Bencode.EncodeItemsInto` | crates/rt-bencode/src/encode.rs:21-27 | the list loop appends the encodings of all items in order |
| `Bencode.EncodePairsInto` | crates/rt-bencode/src/encode.rs:28-37 | the dictionary loop appends key and value of every pair in order |
| `Bencode.FirstByte` | crates/rt-bencode/src/encode.rs:9-39 | the first byte of an encoding tells its kind and is never the end tag |
| `Bencode.StringUnique` | crates/rt-bencode/src/encode.rs:16-20 | two printed strings with equal continuations are the same string with the same rest |
| `Bencode.IntUnique` | crates/rt-bencode/src/encode.rs:11-15 | likewise for printed integers |
| `Bencode.UniqueItems` | crates/rt-bencode/src/encode.rs:21-27 | likewise for lists of items |
| `Bencode.UniquePairs` | crates/rt-bencode/src/encode.rs:28-37 | likewise for dictionaries as ordered pairs |
| `Bencode.UniqueDecoding` | crates/rt-bencode/src/encode.rs:9-39 | encode(v)+s = encode(w)+t implies v = w and s = t: injective and prefix-free |
| `BencodeDecoder.IntegerTokenExact` | crates/rt-bencode/src/decode.rs:180-219 | the integer rules accept exactly the printed form of a 64-bit integer |
| `BencodeDecoder.TokenLengths` | crates/rt-bencode/src/decode.rs:180-271 | the token length limits exclude no printed integer and no printed length |
| `BencodeDecoder.Decoder.DecodeInt` | crates/rt-bencode/src/decode.rs:180-219 | reads an integer exactly where one is printed, and consumes exactly its bytes |
| `BencodeDecoder.Decoder.DecodeLength` | crates/rt-bencode/src/decode.rs:241-271 | reads a length prefix exactly where one is printed |
| `BencodeDecoder.Decoder.DecodeBytes` | crates/rt-bencode/src/decode.rs:221-239 | reads a string exactly where one within the size limit is printed |
| `BencodeDecoder.Decoder.DecodeItems` | crates/rt-bencode/src/decode.rs:273-287 | reads exactly the printed, acceptable lists |
| `BencodeDecoder.Decoder.DecodePairs` | crates/rt-bencode/src/decode.rs:289-316 | reads exactly the printed, acceptable dictionaries, in strict mode those with ascending keys |
| `BencodeDecoder.Decoder.DecodeValue` | crates/rt-bencode/src/decode.rs:150-178 | reads exactly the printed values within depth, size and node limits |
| `BencodeDecoder.Decode` | crates/rt-bencode/src/decode.rs:90-93 | on arbitrary bytes: succeeds iff the input is the encoding of an acceptable value, and returns it |
| `InfoSpan.SkipValue` | crates/rt-bencode/src/decode.rs:416-448 | steps over exactly one encoded value, at any depth |
| `InfoSpan.FindInfoSpan` | crates/rt-bencode/src/decode.rs:387-410 | finds a span iff the dictionary has an info entry, and the span is the encoding of its value |
| `InfoSpan.DecodeTorrentInfoSpan` | crates/rt-bencode/src/decode.rs:369-385 | on arbitrary bytes: succeeds iff the input decodes; the span it reports holds exactly the info value, and none means there is no such entry |
| `TorrentMeta.ParseBytes` | sidecar/src/torrent_meta.rs:199-219 | the digit loop, the overflow checks and the bound checks together compute StringAt |
| `TorrentMeta.StringAtEncoded` | sidecar/src/torrent_meta.rs:199-219 | on a printed string followed by anything it returns the string and stops behind it |
| `TorrentMeta.SkipValue` | sidecar/src/torrent_meta.rs:221-266 | on an encoding with any suffix: succeeds iff the value nests within 64 levels of the given depth, and stops exactly behind it; on arbitrary bytes a success strictly advances within bounds |
| `TorrentMeta.SkipItems` | sidecar/src/torrent_meta.rs:241-251 | the list loop, both directions of the depth condition |
| `TorrentMeta.SkipPairs` | sidecar/src/torrent_meta.rs:252-263 | the dictionary loop, both directions of the depth condition |
| `TrackerUrls.PushTracker` | sidecar/src/torrent_meta.rs:129-140 | adds a URL that is new while there is room, and keeps the seen set equal to the output |
| `TrackerUrls.PushAllIsFirstDistinct` | sidecar/src/torrent_meta.rs:129-140 | pushing URLs one by one yields the first 1024 distinct ones in order |
| `TrackerUrls.DedupMembers` | sidecar/src/torrent_meta.rs:129-140 | removing repetitions loses and adds nothing |
| `TrackerUrls.CollectTrackers` | sidecar/src/torrent_meta.rs:154-197 | on any encoded value: what is pushed in document order, and either the exact end of the value or, if it nests too deep, exactly which values the cursor is left in front of |
| `TrackerUrls.CollectedShallow` | sidecar/src/torrent_meta.rs:154-197 | collecting gets stuck iff the value nests deeper than 64; otherwise it yields all cleaned strings nested in it, dictionary keys excluded |
| `TrackerUrls.ScanAnnounce` | sidecar/src/torrent_meta.rs:113-116 | takes a string value; leaves the cursor on any other value |
| `TrackerUrls.ScanPair` | sidecar/src/torrent_meta.rs:109-124 | one round of the main loop with any values ahead: what it pushes and what is ahead afterwards, or the end of extraction |
| `TrackerUrls.TrackerUrlsFromTorrent` | sidecar/src/torrent_meta.rs:100-127 | on the encoding of every dictionary: the first 1024 distinct URLs extracted from its keys and values; on arbitrary bytes: at most 1024, distinct |
| `TrackerUrls.ShallowExtracted` | sidecar/src/torrent_meta.rs:100-127 | if announce values are strings and other values nest at most 64 deep, extracted are exactly the cleaned URLs of announce and of all strings nested in announce-list, in document order |
| `TrackerUrls.PassingExtracted` | sidecar/src/torrent_meta.rs:100-127 | as long as announce values are strings and other values nest at most 64 deep, what a file announces comes out in document order, followed by what the rest yields |
| `TrackerUrls.BlockedExtracted` | sidecar/src/torrent_meta.rs:113-123 | the first value that is neither, under any key but announce-list, ends extraction: what was announced before it comes out, which is everything iff nothing is announced from there on |
| `TrackerUrls.DeepListExtracted` | sidecar/src/torrent_meta.rs:117-118 | if that value is an announce-list, its URLs up to the place that is too deep follow, and then what the values left there yield as keys and values |
| `TrackerUrls.LossExactly` | sidecar/src/torrent_meta.rs:129-140 | URLs that are not extracted are missing from the output iff there was room and one of them is not a repetition |
| `TrackerUrls.ListAnnounce` | sidecar/src/torrent_meta.rs:113-118 | a file whose announce is a list loses the tracker in its announce-list |
| `TrackerUrls.DeepItemsAreKeys` | sidecar/src/torrent_meta.rs:117-118 | values 65 deep in an announce-list are read as the keys and values of the file |
| `TrackerUrls.DeepAnnounce` | sidecar/src/torrent_meta.rs:117-118 | a file in which the string announce at that depth is taken for a key and the next string for its URL |
| `SyncFetch.CleanFetchSettles` | sidecar/src/sync.rs:665-758 | the answers used by an error-free fetch carry no token until one appears, and that one from then on, at every bisection depth |
| `SyncFetch.PinnedFetch` | sidecar/src/sync.rs:671-740 | an error-free fetch asked for a token used only answers that carry it |
| `SyncFetch.BisectionExact` | sidecar/src/sync.rs:665-758 | against a backend that fails exactly on ranges with a bad index: the good rows in order, errors iff there is a bad index |
| `SyncFetch.BisectionCalls` | sidecar/src/sync.rs:665-758 | with k bad indices in a range of L: at most 1 + 2k*ceil(log2 L) backend calls |
| `Sync.BoundedSync.constructor` | sidecar/src/sync.rs:30-41 | starts at offset 0 without token, errors, reports or confirmations |
| `Sync.BoundedSync.TakeIn` | sidecar/src/sync.rs:399-439 | the row loop, for the summary and (481-515) for the page, computes TakeRows |
| `Sync.BoundedSync.Gather` | sidecar/src/sync.rs:390-515 | both reads of a tick leave the state Middle |
| `Sync.BoundedSync.RemoveMissing` | sidecar/src/sync.rs:538-579 | in any order of removal: what is due, what is deleted, what waits and whether an error occurred |
| `Sync.BoundedSync.EndCycle` | sidecar/src/sync.rs:522-614 | the new state and outcome at the end of the list, including both early exits |
| `Sync.BoundedSync.TickBounded` | sidecar/src/sync.rs:377-636 | the new state, outcome and deletions of one tick |
| `Sync.ListingBounded` | sidecar/src/sync.rs:524-533 | the query for the hash listing is limited to the very bound that the check behind it compares with, so that check cannot fail |
| `Sync.TickFullPass` | sidecar/src/sync.rs:267-375 | cache, deletions and success of one full-list tick |
| `SyncSafety.GatheredFacts` | sidecar/src/sync.rs:390-515 | the error flag is clear iff every read so far was free of fetch, summary, validation and store errors, and seen is what they reported |
| `SyncSafety.StepGuarantees` | sidecar/src/sync.rs:377-636 | what every tick, in any environment, guarantees to the run |
| `SyncSafety.WaitingIsAbsent` | sidecar/src/sync.rs:544-552 | a hash waits for a second confirmation only if the last completed cycle was clean and without it, unless a count read failed since |
| `SyncSafety.DeletionSafety` | sidecar/src/sync.rs:377-636 | over every run: a deletion ends a cycle whose every tick was clean and did not report the row; without a token the previous completed cycle was so too, unless a count read failed since |
| `SyncSafety.TwoCleanCyclesExactly` | sidecar/src/sync.rs:589-593 | two clean cycles stand behind a deletion without token iff no count read failed since the last completed cycle |
| `SyncSafety.FailedCountDeletesAfterOneCycle` | sidecar/src/sync.rs:589-593 | a run in which a failed count read leads to a deletion with no completed cycle before it |
| `SyncSafety.CleanCycleTokens` | sidecar/src/sync.rs:464-479 | over every clean cycle, its last tick included: all pages carry no token or one single token, and all carry the token of the first page if that has one, and only then |
| `SyncSafety.DeletingCycleTokens` | sidecar/src/sync.rs:538-579 | so a cycle that deletes rows read from at most one snapshot, and from it alone if its first page did |
| `SyncFetch.UnreadableFetch` | sidecar/src/sync.rs:665-758 | a range with a row that cannot be read comes back short and with errors; one in front of that row comes back full or with errors |
| `SyncFetch.FailsOnIsUnreadable` | sidecar/src/sync.rs:665-758 | the backend that fails exactly on ranges with a bad index has such a row if a bad index is on the list |
| `SyncSafety.UnreadableTick` | sidecar/src/sync.rs:454-633 | a tick up to the page of such a row does not pass that page and deletes nothing; on that page the cycle ends |
| `SyncSafety.UnreadableRun` | sidecar/src/sync.rs:377-636 | over every run in which a row stays unreadable: no page behind its own is ever read and nothing is ever deleted |
| `SyncRefinement.FullPassDeletes` | sidecar/src/sync.rs:267-375 | a full pass with any invalid or unstored row deletes nothing; it never deletes a listed row |
| `SyncRefinement.ServedMiddle` | sidecar/src/sync.rs:390-515 | a fault-free tick reports and stores exactly the summary and the slice at its offset |
| `SyncRefinement.PagingTick` | sidecar/src/sync.rs:615-633 | a tick before the end of the list goes on to the next page |
| `SyncRefinement.LastTick` | sidecar/src/sync.rs:522-614 | the tick at the end removes all stale rows with a token; without one those already waiting, and the others wait |
| `SyncRefinement.CycleLength` | sidecar/src/sync.rs:481-633 | over a fixed valid fault-free list of n torrents a cycle takes exactly n/100 + 1 ticks |
| `SyncRefinement.FullPassResult` | sidecar/src/sync.rs:267-375 | over the same list a full pass leaves exactly its torrents cached |
| `SyncRefinement.PagedRefinesFull` | sidecar/src/sync.rs:481-633 | with tokens one paged cycle leaves the same cache as one full pass |
| `SyncRefinement.PagedRefinesFullWithoutTokens` | sidecar/src/sync.rs:481-633 | without tokens two paged cycles do |
| `SyncRefinement.CycleEnds` | sidecar/src/sync.rs:377-636 | from any state, once the list is served, the current cycle ends within n/100 + 1 ticks, also one begun under another token or past the end of the list |
| `SyncRefinement.Recovery` | sidecar/src/sync.rs:377-636 | from any state, with tokens: the cycle after that leaves exactly the torrents of the list cached, as a full pass does |
| `SyncRefinement.RecoveryWithoutTokens` | sidecar/src/sync.rs:377-636 | without tokens the two cycles after that do |
| `SyncRefinement.OffsetsReached` | sidecar/src/sync.rs:615-633 | no run leads to a negative offset, so recovery covers every state of every run |
| `Idempotency.SumWithout` | crates/rt-api-model/src/idempotency.rs:205-307 | the byte total does not depend on the order of the entries |
| `Idempotency.IdempotencyStore.Remove` | crates/rt-api-model/src/idempotency.rs:151-166 | removing an entry keeps the byte count exact, so the saturating subtraction never truncates |
| `Idempotency.IdempotencyStore.Expire` | crates/rt-api-model/src/idempotency.rs:151-166 | drops exactly the completed entries older than the time to live |
| `Idempotency.IdempotencyStore.Claim` | crates/rt-api-model/src/idempotency.rs:148-190 | answer and new entries; count and byte bounds kept |
| `Idempotency.IdempotencyStore.Oldest` | crates/rt-api-model/src/idempotency.rs:221-229 | a completed entry none is older than, or none exists |
| `Idempotency.IdempotencyStore.MakeRoom` | crates/rt-api-model/src/idempotency.rs:220-240 | evicts only completed entries, oldest first, and only while the response does not fit |
| `Idempotency.IdempotencyStore.Complete` | crates/rt-api-model/src/idempotency.rs:205-267 | only the owner's in-flight entry is completed; cached iff it fits after eviction, else removed |
| `Idempotency.IdempotencyStore.Abandon` | crates/rt-api-model/src/idempotency.rs:269-296 | removes the entry of that key and fingerprint and nothing else |
| `Idempotency.ExecutionGuard.Complete` | crates/rt-api-model/src/idempotency.rs:309-316 | an armed guard completes once and disarms |
| `Idempotency.ExecutionGuard.Abandon` | crates/rt-api-model/src/idempotency.rs:317-329 | an armed guard abandons once, also when dropped |
| `IdempotencyProtocol.ClaimKeeps` | crates/rt-api-deluge/src/lib.rs:288-335 | a claim keeps the invariant, whatever its answer |
| `IdempotencyProtocol.CompleteKeeps` | crates/rt-api-model/src/idempotency.rs:205-267 | so does a completion, with any eviction it makes |
| `IdempotencyProtocol.ReleaseKeeps` | crates/rt-api-model/src/idempotency.rs:269-329 | so does a failed, dropped or cancelled execution |
| `IdempotencyProtocol.RunInvariant` | crates/rt-api-model/src/idempotency.rs:148-329 | in every state of every interleaving: guards and in-flight entries correspond one to one, byte and entry bounds hold, every completed entry and every replay is what the last execution of its key recorded, and a cached response is there until it expires or is evicted |
| `IdempotencyProtocol.OneExecutionPerKey` | crates/rt-api-deluge/src/lib.rs:288-335 | at most one request executes a key at a time |
| `IdempotencyProtocol.GuardsRemoveOnlyTheirOwn` | crates/rt-api-model/src/idempotency.rs:269-329 | the entry under an armed guard is its own; releasing removes just that one, completing no other in-flight entry |
| `IdempotencyProtocol.ReplayFidelity` | crates/rt-api-model/src/idempotency.rs:168-176 | every replay returns what the latest execution of the same key and fingerprint recorded, with no execution of the key begun, finished or released in between |
| `IdempotencyProtocol.ExecutionsDoNotOverlap` | crates/rt-api-deluge/src/lib.rs:288-335 | in every history: between two executions of a key lies the end of the first, by the request that began it |
| `IdempotencyProtocol.NoEarlyRepeat` | crates/rt-api-model/src/idempotency.rs:148-267 | in every history: after an execution whose response was cached, the next one of the key begins only after an eviction of it or a claim at least 24 hours after the completion |
| `IdempotencyProtocol.LiveKeyConflicts` | crates/rt-api-model/src/idempotency.rs:168-176 | in every run: a claim conflicts iff its key is executing, or cached and unexpired, under another fingerprint; then it is refused, nothing starts or is replayed, and the entry stays as it is |
| `TaskSelection.Selector.Include` | scripts/validate_development.py:360-373 | the depth-first step: what it adds is reachable, what it finishes is closed, and it fails only below a cycle or an unknown dependency |
| `TaskSelection.StackCycle` | scripts/validate_development.py:360-362 | meeting a task on the stack is a cycle |
| `TaskSelection.OrderedAcyclic` | scripts/validate_development.py:360-373 | a finished task is on no cycle |
| `TaskSelection.NeededIsLeast` | scripts/validate_development.py:349-377 | every closed superset of the initial selection contains what is needed |
| `TaskSelection.Selection` | scripts/validate_development.py:349-377 | the least closed superset of the initial selection; fails iff the named task is unknown or a cycle or unknown dependency is reachable |
| `TaskRunner.ExecutePlan` | scripts/validate_development.py:758-853 | raises iff the digest does not match or an undefined task is started; otherwise receipts, tasks run, totals and overall status of a run in any environment |
| `TaskRunner.BuildReceipt` | scripts/validate_development.py:844-877 | one receipt per task of the plan, the totals, and passed iff nothing is missing or changed and every selected task passed |
| `TaskRunner.StatusKinds` | scripts/validate_development.py:758-853 | with unique ids a task ends excluded iff it was not selected |
| `TaskRunner.StatusMeans` | scripts/validate_development.py:809-842 | a selected task ends as its command did if it was started, and blocked if it was not |
| `TaskRunner.Accounting` | scripts/validate_development.py:866-876 | with unique ids: passed + failed + blocked = planned, planned + excluded = all, executed = passed + failed |
| `TaskRunner.StartsAfterDependencies` | scripts/validate_development.py:811-819 | a started task had all its dependencies run and passed before it iff the plan lists each of them ahead of it or not selected |
| `TaskRunner.RunsAfterFailedDependency` | scripts/validate_development.py:811-819 | a plan in which a task runs although an earlier dependency failed |
| `LogTailer.LogIngest.AppendLines` | sidecar/src/rtorrent_logs.rs:141-143 | records the non-empty cleaned lines of a text, each once and in order |
| `LogTailer.LogIngest.Poll` | sidecar/src/rtorrent_logs.rs:93-147 | new offset and events of one poll, also for a missing offset and a shrunken file |
| `LogTailer.ReadChunk` | sidecar/src/rtorrent_logs.rs:117-138 | the bounded read cut behind its last newline |
| `LogTailer.ChunkIsChunk` | sidecar/src/rtorrent_logs.rs:122-138 | what is consumed is whole lines, or exactly 1 MiB without a newline |
| `LogTailer.PollAdvances` | sidecar/src/rtorrent_logs.rs:122-138 | a poll advances iff a newline or a full read is there |
| `LogTailer.EventsConcat` | sidecar/src/rtorrent_logs.rs:141-143 | cutting a log behind whole lines does not change its events |
| `LogTailer.ChunksTile` | sidecar/src/rtorrent_logs.rs:93-147 | for every schedule of appends and polls the consumed part is tiled by such chunks, each recorded once and in order |
| `LogTailer.ScheduleIndependent` | sidecar/src/rtorrent_logs.rs:93-147 | without a 1 MiB stretch free of newlines the events are exactly those of the consumed part, whatever the schedule |
| `LogTailer.Drains` | sidecar/src/rtorrent_logs.rs:122-138 | a file that no longer grows is consumed up to its last line end |
| `LoginLimiter.LoginAttemptLimiter.BeginAttempt` | sidecar/src/auth.rs:173-219 | verdict and new table, at most 4096 clients; a refusal changes nothing |
| `LoginLimiter.LoginAttemptLimiter.MakeRoom` | sidecar/src/auth.rs:196-210 | in a full table expired windows go first, then the one that started first |
| `LoginLimiter.LoginAttemptLimiter.Clear` | sidecar/src/auth.rs:221-223 | forgets that client only |
| `LoginLimiter.RetryIsLeast` | sidecar/src/auth.rs:184-191 | repeating a refused attempt after n whole seconds is admitted iff n is at least the returned number |
| `LoginLimiter.BlocksBound` | sidecar/src/auth.rs:174-194 | at most two windows reach into 60 s, and of two the first has its opening attempt outside |
| `LoginLimiter.History` | sidecar/src/auth.rs:173-219 | over every run the admitted attempts of a client fall into windows of at most ten that open 60 s apart, the last being its table entry |
| `LoginLimiter.AtMostNineteen` | sidecar/src/auth.rs:173-219 | over every run at most 19 attempts of an undisturbed client are admitted in any half-open 60 s |
| `LoginLimiter.NineteenReached` | sidecar/src/auth.rs:173-219 | a run that reaches 19 |
| `SessionCodec.HexRoundTrip` | sidecar/src/auth.rs:393-401 | hexadecimal text decodes to the bytes it was made from |
| `SessionCodec.SplitUndoesJoin` | sidecar/src/auth.rs:398-401 | splitting at dots undoes joining dot-free fields |
| `SessionCodec.IssuedParses` | sidecar/src/auth.rs:382-402 | an issued cookie parses to what was issued, until the second it expires |
| `SessionCodec.ParseExact` | sidecar/src/auth.rs:501-516 | the accepted spellings of a session, exactly |
| `SessionCodec.PayloadInjective` | sidecar/src/auth.rs:394 | the payload determines token, expiry and nonce, even when tokens contain dots |
| `SessionCodec.VerifySignedSession` | sidecar/src/auth.rs:495-527 | returns the first token that signs a well-formed unexpired cookie; none iff there is no such token or cookie |
| `SessionCodec.IssueThenVerify` | sidecar/src/auth.rs:382-527 | verifying an issued cookie returns exactly the signed token while it is configured and the cookie has not expired, and nothing otherwise |
| `SessionCodec.NothingCanBeChanged` | sidecar/src/auth.rs:495-527 | a cookie that verifies under an issued code carries the issued token, expiry and nonce |
| `MediaScan.ContainsWord` | sidecar/src/media_type.rs:20-40 | true iff some match of the disjoint series stands alone; never for an empty needle |
| `MediaScan.ContainsExtension` | sidecar/src/media_type.rs:45-57 | true iff some match of the disjoint series is not followed by a word byte |
| `MediaScan.ScanSound` | sidecar/src/media_type.rs:20-57 | a found match is an occurrence |
| `MediaScan.WordScanExact` | sidecar/src/media_type.rs:20-40 | every whole-word occurrence in every text is found iff the needle has no self-overlap beginning right after a non-word byte |
| `MediaScan.ExtensionScanExact` | sidecar/src/media_type.rs:45-57 | every extension in every text is found iff the needle has no self-overlap that puts a word byte behind the earlier match |
| `MediaScan.ContainsSeasonEpisode` | sidecar/src/media_type.rs:82-106 | the greedy scan succeeds iff some free-standing s, 1-2 digits, e, 1-3 digits marker exists |
| `UrlRedaction.DecodeLayer` | sidecar/src/url_redaction.rs:427-442 | one layer of percent-decoding |
| `UrlRedaction.DecodeLayers` | sidecar/src/url_redaction.rs:425-447 | stopping at the first unchanged layer equals eight layers |
| `UrlRedaction.DecodesEncoding` | sidecar/src/url_redaction.rs:427-442 | a layer undoes every percent-encoding that escapes the percent sign, whatever else it escapes |
| `UrlRedaction.LayersUndone` | sidecar/src/url_redaction.rs:423-447 | which layered encodings are undone, exactly: eight layers always; fewer iff decoding leaves the text alone; of more, all but eight remain |
| `UrlRedaction.NormalizeKey` | sidecar/src/url_redaction.rs:422-463 | the loops compute the key without encoding, escaped control sequences and punctuation, in lower case |
| `UrlRedaction.DecidedExtends` | sidecar/src/url_redaction.rs:465-487 | whether a text begins with an escaped control sequence, and where that ends, does not depend on what follows, unless the text breaks off in the middle of one |
| `UrlRedaction.LettersConcat` | sidecar/src/url_redaction.rs:449-462 | behind a text that does not break off so, the rest is read as if it stood alone |
| `UrlRedaction.ControlsDoNotHide` | sidecar/src/url_redaction.rs:422-487 | an escaped control sequence behind such a text leaves the normal form of a key as it is, with nothing left to percent-decode in it |
| `UrlRedaction.LoneBackslashHides` | sidecar/src/url_redaction.rs:449-487 | behind a lone backslash it need not: a key whose normal form has one letter more with the control sequence than without |
| `UrlRedaction.NormalFormStable` | sidecar/src/url_redaction.rs:449-462 | a normal form is lower-case letters and digits, and its own normal form |
| `UrlRedaction.EncodedKeySame` | sidecar/src/url_redaction.rs:422-463 | up to eight layers of encoding do not change the normal form of a key |
| `UrlRedaction.KeyOfExact` | sidecar/src/url_redaction.rs:386-393 | the key is the longest suffix before the equals sign without question mark or hash sign |
| `UrlRedaction.RedactQueryToken` | sidecar/src/url_redaction.rs:379-406 | the loop redacts segment by segment |
| `UrlRedaction.RedactionIsLocal` | sidecar/src/url_redaction.rs:379-406 | separators, keys and non-sensitive segments are unchanged, sensitive values are replaced, no part is added or removed |
| `UrlRedaction.RedactionIdempotent` | sidecar/src/url_redaction.rs:379-406 | redacting twice is redacting once |
| `UrlRedaction.UnchangedExactly` | sidecar/src/url_redaction.rs:379-406 | a token is unchanged iff every sensitive value in it is already redacted |
| `UrlRedaction.RedactsSecretsOnly` | sidecar/src/url_redaction.rs:379-406 | two tokens redact to the same text iff they differ only in values of sensitive keys |
| `UrlRedaction.EncodedKeyRedacted` | sidecar/src/url_redaction.rs:381-404 | in any part of any token, also behind a question mark or hash sign, a sensitive key encoded in up to eight layers loses its value |

## Left out

- Error values: the decoder and the scanners return an option; which error is reported, and the messages, are not modelled.
- Counters, events, metrics and the result value of a sync tick: the tick's new state and deletions are modelled, not what it reports.
- The row written per torrent (tags, tracker lookup, state normalisation): the cache maps a logical hash to the raw torrent.
- Cache rows under several spellings of one hash: the cache is keyed by logical hash.
- Allocation reservation during decoding and lock poisoning: they change no result on success.
- InfoSpan.SkipValue: stated on encoded values, because the span is looked for only in input that has been decoded; on other bytes the walk may index out of bounds.
- InfoSpan.FindInfoSpan: likewise.
- SyncSafety.TwoCleanCyclesExactly: the exact condition is for an environment in which nobody else writes the cache, it stays within the listing bound and deletions succeed; DeletionSafety needs none of this.
- SyncRefinement.PagedRefinesFull: for a cache that stays within the listing bound of 100000 rows, as are all refinement and recovery results.
- Waking of waiting requests: a waiting request may claim again at any time; that it is woken is not claimed.
- Crashes between recording an event and storing the offset, log retention, and rotation to a longer file: a poll is one step on an append-only file.
- LoginLimiter.AtMostNineteen: for a client that is neither cleared nor evicted before its window has expired.
- The cookie without a configured secret, random nonces, and HMAC-SHA256 itself: the code is an arbitrary function of the payload.
- SessionCodec.IssueThenVerify: two payloads with the same code are assumed equal only for the signed token and the configured ones.
- The list of sensitive key names: a parameter, so that the redaction results hold for any list.
- Lossy UTF-8 decoding, Unicode trimming and URL parsing: text is bytes and trimming an arbitrary function.
- Running a task's command and computing source snapshots and digests: given by the environment of the runner.
- The classification table of media types: it only combines the scanners.
- HTTP, CSRF and origin checks, configuration, the peer protocol, the storage engine, the web interface and the scripts: not part of this model.
