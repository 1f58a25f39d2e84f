# A model of the Spectra Gnoland indexer

The repository reads blocks and transactions from a Gno chain over RPC, stores them in TimescaleDB and serves them through a REST API. This project models the logic between those calls and proves what it keeps: over every table, every run, every interleaving and every pattern of failures. Databases, RPC nodes and Valkey are small state machines that fail, lose answers or commit and report an error at will (for the databases by a plan of replies, which every contract takes as it comes); the Go code around them keeps its branches, constants and loops.

| module | component |
|---|---|
| `Results` | Go's `(value, error)`, nil pointers and wrapping `uint64` arithmetic |
| `Decimal`, `Base64`, `Cursor` | the text forms: decimal integers, RFC 4648 sections 3.5, 4 and 5, PostgreSQL's line-broken base64, page cursors |
| `Keyset`, `Pages`, `Walks`, `BackWalks` | ordered tables, the limit + 1 page query and its handlers, whole walks over a growing table, towards its end and back to its head |
| `Fetch` | concurrent fetching with retries, callbacks, mutex and wait group |
| `Scheduler`, `Collecting`, `Phases` | chunks of heights in historic and live mode; the transactions of a chunk's blocks; the two-phase processing of each chunk |
| `AddressCaching`, `Decoder`, `Batches`, `HashIds`, `Chunks`, `Processor` | addresses to ids, messages to rows, rows to batches and `address_tx`, hashes to ids, a chunk's transactions on their way, and the whole of `ProcessMessages` |
| `MultiSends` | regrouping stored multi-send rows into messages |
| `FixedWindow`, `WindowSpans`, `TokenBucket` | the API's limiter on Valkey, what it means for spans of time, and the RPC client's token bucket |
| `Listings` | what it means that nested loops append one item per place, in order |
| `Rollup` | figures read from hourly aggregates |
| `Events` | compressed transaction events |

Code that changes state is a class or a method with loops (`AddressCache`, `Orchestrator`, `DataProcessor`, `RateLimiter`, `ChannelRateLimiter`, `ReverseSlice`, `InsertBatches`, ...), proved against functions on values; the properties are lemmas about those functions. Concurrent code is a state machine over single steps, and its lemmas quantify over every sequence of events.

## What the model found

- The `has_prev` flag after `next`, and `has_next` after `prev`, are set from the presence of a cursor. They are exact if and only if a stored row lies on the far side of the cursor or at it (`Pages.FlagsExactIff`); a cursor above every row misleads (`Pages.ForgedCursorMisleads`).
- A historic run tiles its range if and only if the last chunk's end, before it is cut to `toHeight`, does not wrap (`Scheduler.HistoricTilesIff`); up to the last `uint64` height the loop never ends (`Scheduler.LastHeightNeverEnds`).
- Live mode goes backwards exactly when a reported height is below the last one processed (`Scheduler.LiveSoundIff`).
- A transaction that is listed k times in a chunk and fetched each time comes out of `collectTransactionsFromBlocks` k * k times (`Collecting.JoinMultiplies`).
- When `InsertTxHashIds` fails, the ids of an earlier chunk stay in the cache (`Phases.CachesComeFromAnswers`).
- `FindExistingAccounts` does not ask for the error that ended its rows (pkgs/database/timescaledb/queries_indexer.go:32-47), so a broken connection can pass for a complete answer. The cache still agrees with the table, but an address may stay unresolved.
- A multi-send with two entries in one direction that resolve to one id repeats a primary key, and its chunk's messages can never be stored completely. Two inputs do that: an address listed twice, whatever it resolves to (`Batches.RepeatsCollide`), and two different addresses that are both unresolved and share id 0 (`Batches.UnknownsCollide`). For transactions that do not share both id and time, as every accepted chunk delivers them, there is no third (`Chunks.ChunkKeysDistinctIff`), and once every address was resolved only the first remains (`Chunks.ResolvedKeysDistinctIff`).
- When the call works, the ids of a chunk's transactions are inserted if and only if there is one, none is stored already and no hash with a time is answered times listed more than once (`Chunks.ChunkInsertableIff`, `Processor.DataProcessor.ProcessTxHashIds`). Otherwise the whole chunk is refused and none of its transactions gets an id. Two inputs do that: a listed transaction that is fetched twice (`Chunks.RepeatedFetchStopsIds`), and one that a block lists twice although only one fetch answers (`Chunks.ListedTwiceStopsIds`). A transaction that two blocks of different times list, fetched once, is accepted: it arrives twice under one id.
- The limiter counts a request when Valkey increments, but forwards it when the answer to EXPIRE has come. Counted by increments, twice the limit per window holds for every window of whole seconds (`WindowSpans.SpanBoundIff`), so for the minute the API configures (api/serve.go:151, `WindowSpans.MinuteWindow`). Counted by forwarding, it depends on how late answers may be: with answers at most d after their increments, spans of length L stay within twice the limit if and only if L + d fits into the time to live, or, with a limit of one, into less than two of them, or the limit is not positive (`WindowSpans.ForwardSpanIff`). For spans of the configured minute that leaves no slack at all from a limit of two on (`WindowSpans.MinuteWindowForwards`); `WindowSpans.LateAnswersMeet` is a run that forwards three requests at one instant with a limit of one.
- Time to live is cut to whole seconds. A window below one second would limit nothing and a fractional one would break the bound (`WindowSpans.SubSecondWindowLeaks`, `WindowSpans.FractionalWindowLeaks`); the only caller passes one minute.
- The token bucket grants up to its capacity plus one request per tick that fits into a window, plus two late ticks, and that many are reachable (`TokenBucket.WindowBoundReached`): the number "allowed per time window" is not an upper bound per window.
- The 24-hour figures count whole hours and are exact if and only if the started hour at the far end holds as much as the current hour holds beyond now (`Rollup.Last24Exactly`).
- pkgs/events_proto/parse.go:9 says that numbers too large stay text. The code tries float64 first, so an integer beyond int64 becomes a double; the model follows the code.

## Model

| member | source | states |
|---|---|---|
| Decimal.ParseUintOfFormat | api/handlers/transactions.go:205-211 | printing a height in decimal and parsing it is the identity for every uint64 |
| Decimal.FormatOfParseUint | pkgs/database/timescaledb/queries_address.go:201-213 | parsing accepts leading zeros; the text comes back exactly when it was canonical |
| Decimal.FormatOfParseInt | pkgs/events_proto/parse.go:23-25 | an int64 text prints back as itself exactly when it was canonical: no plus sign, no leading zeros, no negative zero |
| Base64.DecodeOfEncode | api/handlers/transactions.go:193-211 | both decoders, strict or not, undo both encoders on every byte string |
| Base64.StrictDecodeIsInverse | pkgs/database/timescaledb/queries_address.go:201-213 | the strict decoder accepts a text for a byte string exactly when the text is its encoding, newlines aside |
| Base64.DecodeOfPgEncode | pkgs/database/timescaledb/queries_tx.go:35-52 | PostgreSQL's 76-character line breaks are invisible to Go's decoder, for values of any length |
| Cursor.DecodeOfMakeTxCursor | api/handlers/transactions.go:205-211 | `decodeCursor` undoes `makeTxCursor` for every uint64 height and every hash, in whichever text form the handler can decode |
| Cursor.DecodeCursorAccepts | pkgs/database/timescaledb/queries_address.go:165-213 | exactly which texts decode to a key: a decimal spelling of the height, one separator, a strict url-safe spelling of the hash |
| Cursor.ParseTxHashNormalises | api/handlers/transactions.go:193-202 | either alphabet's encoding of a hash is accepted and becomes its standard encoding, which is stable under a second parse |
| Cursor.ParseTxHashAccepts | api/handlers/transactions.go:193-202 | exactly which texts are accepted, all others refused: whole groups of four characters of either alphabet with at most two of padding, line breaks anywhere; the answer is that text in the standard alphabet except for ignored bits before the padding |
| Keyset.OrderBySorts | pkgs/database/timescaledb/queries_tx.go:217-291 | with distinct keys, ordering by (height, hash bytes) yields the same rows, strictly sorted |
| Keyset.HeightsFall | pkgs/database/timescaledb/queries_tx.go:217-291 | along the listing heights never grow, and within a height the hashes fall bytewise |
| Keyset.BytesLessIff | pkgs/database/timescaledb/queries_tx.go:217-291 | bytewise order: the first differing byte decides, a proper prefix is smaller |
| Keyset.SortedIsUnique | pkgs/database/timescaledb/queries_tx.go:217-291 | a set of rows has only one strictly ordered listing, so pages do not depend on the query plan |
| Keyset.CursorGap | pkgs/database/timescaledb/queries_address.go:129-150 | between the rows newer and the rows older than a cursor lies at most the row it names |
| Keyset.ScanOlder | pkgs/database/timescaledb/queries_tx.go:217-291 | the descending scan below a cursor is a suffix of the listing |
| Keyset.ScanNewer | pkgs/database/timescaledb/queries_tx.go:217-291 | the ascending scan above a cursor is a prefix of the listing, backwards |
| Pages.ReverseSlice | pkgs/database/timescaledb/queries_address.go:195-199 | the two-pointer swap reverses the slice in place and leaves the rest of its array alone |
| Pages.FinishPage | pkgs/database/timescaledb/queries_address.go:182-199 | has-more is reported exactly when the probe row came; the page is the trimmed scan, turned round for `prev` |
| Pages.KeysetPage | pkgs/database/timescaledb/queries_tx.go:217-291 | the query answers a contiguous slice of the listing on the right side of the cursor; at the largest uint64 limit the probe wraps to zero and the page is empty |
| Pages.GetTransactionsByRange | pkgs/database/timescaledb/queries_tx.go:217-291 | the checks in their order, then that slice; every error case |
| Pages.QueryAddressTxs | pkgs/database/timescaledb/queries_address.go:92-163 | the same for one account's rows, with the default limit and no upper one |
| Pages.BuildBody | api/handlers/transactions.go:143-188 | edge cursors and flags by direction; an undecodable hash is an error |
| Pages.GetTransactionsByCursor | api/handlers/transactions.go:106-141 | defaults, limit and direction checks, then the page |
| Pages.GetAddressTxs | api/handlers/address.go:55-113 | which argument combinations are refused and which mode the others select |
| Pages.ScopeExactly | api/handlers/address.go:55-113 | the rows it answers over: the account's, and with two times those stored between them, ends included |
| Pages.RespondFails | api/handlers/transactions.go:106-141 | a request fails exactly when its cursor does not decode or it goes back without one, and how |
| Pages.NextFlagsMeanRows | api/handlers/transactions.go:143-188 | after `next`: has_next holds iff an older row exists; has_prev holds iff there is a cursor, and a newer row exists iff moreover some row is at or above the cursor |
| Pages.PrevFlagsMeanRows | api/handlers/transactions.go:143-188 | after `prev`: has_prev holds iff a newer row exists; has_next is set, and an older row exists iff some row is at or below the cursor |
| Pages.FlagsExactIff | api/handlers/transactions.go:143-188 | on non-empty pages both flags are exact if and only if there is no cursor or a row lies at or beyond it |
| Pages.StoredCursorFlags | api/handlers/transactions.go:143-188 | with a cursor that names a stored row both flags are exact in both directions |
| Pages.ForgedCursorMisleads | api/handlers/transactions.go:143-188 | a cursor above every row makes has_prev promise a page that does not exist |
| Pages.PrevUndoesNext | pkgs/database/timescaledb/queries_address.go:129-199 | next, then back with that page's prev cursor, returns the first page; next again returns the second body |
| Walks.OlderRowsStay | pkgs/database/timescaledb/queries_tx.go:217-291 | rows arriving above the cursor change nothing below it |
| Walks.WalkListsTheTable | pkgs/database/timescaledb/queries_tx.go:217-291 | following next cursors from a cursor-less request lists every row present at the start exactly once, newest first, and stops, although newer rows arrive in between |
| Walks.WalkContinues | pkgs/database/timescaledb/queries_tx.go:217-291 | an unfinished walk's cursor is always accepted and finds rows |
| BackWalks.BackWalkListsTheTable | pkgs/database/timescaledb/queries_address.go:129-199 | following prev cursors from any cursor, although newer rows arrive in between, gathers a gapless slice of the final listing just above it, each row once, and is over exactly when every newer row was received |
| BackWalks.BackWalkEnds | api/handlers/transactions.go:143-188 | a finished walk back has received exactly the rows newer than the cursor it began with |
| Fetch.ReturnedSlotsAreSettled | indexer/query/operator.go:84-147 | in every interleaving and failure pattern, when the wait returns each slot holds the first answer for its own height, or nil after exactly 1 + retries failures; nothing happens afterwards |
| Fetch.DoneExactlyOnce | indexer/query/operator.go:84-147 | each slot signals Done at most once, and exactly once by the return |
| Fetch.EveryScheduleReturns | indexer/query/operator.go:84-147 | every schedule is finite and one that cannot go on has returned: no deadlock on mutex or wait group |
| Fetch.HeightsCoverRange | indexer/query/operator.go:84-100 | the slots are the inclusive range in order exactly when it is not empty and `make` accepts its length; nil exactly when `from` follows `to`, wrapping included; when `make` panics instead |
| Fetch.GenericRetryQuery | indexer/retry/worker.go:34-101 | nil exactly when every attempt failed; the answer is the first success; attempts and total sleep are exact |
| Fetch.SleptExactly | indexer/retry/worker.go:72-92 | the total sleep in closed form: a triangular back-off, and a pause after every `pause` failures |
| Scheduler.HistoricTilesIff | indexer/orchestrator/operator.go:52-105 | the loop ends with chunks that tile [from, to] if and only if there is a height after `to` and the last chunk's end does not wrap |
| Scheduler.HistoricTiles | indexer/orchestrator/operator.go:52-105 | size at least one and room for one chunk above `to` are enough |
| Scheduler.LastHeightNeverEnds | indexer/orchestrator/operator.go:52-105 | up to the last uint64 height the loop never ends |
| Scheduler.HistoricChunksFit | indexer/orchestrator/operator.go:69-101 | no chunk is longer than the configured size |
| Scheduler.LiveSoundIff | indexer/orchestrator/operator.go:149-209 | consecutive chunks that never pass the reported height, if and only if no report is below the last processed height |
| Scheduler.GrowingTipNeverBehind | indexer/orchestrator/operator.go:149-209 | a tip that only grows, with failed queries in between, satisfies that condition |
| Scheduler.LiveTiles | indexer/orchestrator/operator.go:149-209 | the chunks of such a run tile the heights above the start up to the last processed one, without gaps |
| Scheduler.LiveCatchesUp | indexer/orchestrator/operator.go:149-209 | after k answered queries the loop has reached the tip or gained k full chunks |
| Scheduler.Orchestrator.HistoricProcess | indexer/orchestrator/operator.go:52-105 | the loop hands out exactly those chunks, cancelled or not, and leaves the progress fields at the last one |
| Scheduler.Orchestrator.LiveProcess | indexer/orchestrator/operator.go:107-211 | the same for live mode |
| Collecting.CollectTransactionsFromBlocks | indexer/orchestrator/operator.go:289-366 | the loops list every decodable transaction of every present block and join the fetched answers with that list |
| Collecting.ListedExactly | indexer/orchestrator/operator.go:289-341 | an entry is listed exactly when some present block with a height holds a decodable transaction with that hash, under that block's height and time |
| Collecting.ListingIsExact | indexer/orchestrator/operator.go:289-341 | entry by entry, in block and transaction order: each such transaction has exactly one entry, with its digest and its block's height and time, and there are no others |
| Collecting.JoinIsExact | indexer/orchestrator/operator.go:349-362 | item by item, in answer and listing order: one for each answer and listed entry of the same hash, with that entry's time and height |
| Collecting.JoinMultiplies | indexer/orchestrator/operator.go:349-362 | a hash, alone or with a time, comes out as often as the hash was fetched times as often as it was listed, alone or with that time |
| Collecting.DistinctInIff | indexer/orchestrator/operator.go:349-362 | whatever the node answers, hashes (or hashes with their times) come out distinct if and only if no such product exceeds one |
| Collecting.DistinctIff | indexer/orchestrator/operator.go:349-362 | with a node that answers for the hash it was asked, every transaction comes out once if and only if none that was fetched is listed twice |
| Collecting.JoinIsInOrder | indexer/orchestrator/operator.go:289-366 | with each hash listed once, the result is the fetched transactions in block order, each with its own block's height and time |
| Phases.NoDataRace | indexer/orchestrator/operator.go:381-474 | in every schedule no shared map is touched by two jobs at once if one of them writes it |
| Phases.LookupsFollowPhase1 | indexer/orchestrator/operator.go:411-474 | while a job reads ids or addresses, every phase-1 job of its chunk has finished and none runs; while one reads addresses, the address solver has finished too |
| Phases.RowsShareTheStoredId | indexer/data_processor/operator.go:224-248 | every row for a transaction, in `transaction_general`, the message tables or `address_tx`, carries the id its hash had when phase 1 of its chunk ended |
| Phases.SuccessLeavesRows | indexer/data_processor/operator.go:311-391 | a job that succeeds for a transaction whose hash has an id leaves its rows in its tables, and they stay |
| Phases.ClosedChunksAreDone | indexer/orchestrator/operator.go:411-474 | a chunk closes only when every job of both phases has finished, each exactly once |
| Phases.ClosedChunkRanAll | indexer/orchestrator/operator.go:411-474 | in full: validators, blocks, every commit, transaction ids, every transaction, the address solver, every message group and the hash lookup, each once |
| Phases.CachesComeFromAnswers | indexer/data_processor/operator.go:224-248 | that id comes from the last successful answer up to the chunk; a failed insert changes nothing |
| Phases.NeverStuck | indexer/orchestrator/operator.go:381-474 | the barrier never deadlocks |
| AddressCaching.AddressCache.GetAddress | indexer/address_cache/address.go:189-195 | zero exactly for uncached addresses, otherwise the database id |
| AddressCaching.AddressCache.FindUncached | indexer/address_cache/address.go:90-98 | exactly the requested addresses that are not cached |
| AddressCaching.AddressCache.SyncExistingFromDB | indexer/address_cache/address.go:103-114 | caches stored addresses, returns exactly the uncached ones when the lookup answered and nothing otherwise |
| AddressCaching.AddressCache.InsertWithRetry | indexer/address_cache/address.go:119-144 | one batch insert per attempt until the first that reports success, exactly the given number without one; then one by one where allowed |
| AddressCaching.AddressCache.InsertOneByOne | indexer/address_cache/address.go:148-158 | one call per address; whatever does not fail is stored |
| AddressCaching.StoredSteps | indexer/address_cache/address.go:119-144 | after failures without effect, the first insert that does not fail stores the addresses, and reports it exactly when its reply is not lost |
| AddressCaching.AddressCache.AddressSolver | indexer/address_cache/address.go:70-87 | under every failure pattern the cache stays a sub-map of the table and never changes an id; after answered lookups an address is uncached iff it is not stored; when some attempt commits, no other writer interferes and both lookups are complete, every requested address is stored and resolves to its id |
| AddressCaching.AddressCache.SolveAll | indexer/address_cache/address.go:70-176 | the same over any sequence of calls, and only requested addresses are learnt |
| AddressCaching.AddressTable.FindExistingAccounts | pkgs/database/timescaledb/queries_indexer.go:9-47 | an answer is a part of the table restricted to the request, and may be incomplete without an error |
| Decoder.IdsAreReportedAddresses | indexer/decoder/registry.go:114-290 | the two halves of all eight codecs agree: the ids in a message's rows resolve exactly the addresses it reports, in order |
| Decoder.RowsCarryContext | indexer/decoder/registry.go:114-290 | every row goes to the table its message type names, with the message's context |
| Decoder.CollectAllAddresses | indexer/decoder/product.go:109-135 | signers and every reported address, each once |
| Decoder.CollectedExactly | indexer/decoder/product.go:109-135 | an address is collected exactly when it signs or some message reports it |
| Decoder.SingleRowReadsBack | indexer/decoder/registry.go:114-290 | each of the seven single-row message types can be read back from its row, field by field, whenever reading an id undoes resolving an address |
| Decoder.ArgsReadBackIff | indexer/decoder/registry.go:184-188 | the joined arguments of a call can be divided again exactly when none holds a comma and they are not one empty text |
| Decoder.RecordedAddresses | pkgs/schema/hypertables.go:272-666 | a non-zero id is recorded for a row exactly when it is one of its id columns, or a signer of a row outside multi-sends |
| Decoder.ConvertToDbMessages | indexer/decoder/product.go:224-266 | succeeds exactly when every type is registered and positions fit an int16; counters are message positions |
| Decoder.RowsHaveOrigins | indexer/decoder/product.go:224-266 | a row's counter is the position of the message it comes from, without wrap |
| Decoder.IdsAreCollected | indexer/decoder/product.go:109-135 | every id in every row, signers included, resolves a collected address |
| Decoder.RowsHoldDatabaseIds | indexer/decoder/registry.go:114-290 | when collected addresses resolve, every id written or recorded is non-zero and a database id |
| Decoder.OnlyCollectedMatter | indexer/decoder/product.go:224-266 | no address outside the collected ones is ever looked up |
| Decoder.GetMsgTypes | indexer/decoder/product.go:51-63 | type names in order of first appearance |
| Decoder.TypesAreThoseUsed | indexer/decoder/product.go:51-63 | each type of the transaction once, and no other |
| Decoder.TypesInOrder | indexer/decoder/product.go:51-63 | in the order in which they first appear |
| Decoder.RowTablesAreListed | indexer/decoder/product.go:51-63 | the table of every stored row is listed in the transaction's message types |
| Batches.InsertBatches | indexer/decoder/product.go:200-219 | one batch per listed table |
| Batches.TablesInOrder | indexer/decoder/product.go:200-219 | the tables are listed in the order in which they first appear |
| Batches.BatchKeepsOrder | indexer/decoder/product.go:200-219 | a batch holds its table's rows in their original order with aligned transaction ids |
| Batches.BatchesPartition | indexer/decoder/product.go:169-219 | every row is in exactly one batch |
| Batches.KeysCollideIff | pkgs/schema/hypertables.go:500-512 | when no two transactions share both id and time, primary keys are distinct if and only if no multi-send has two entries of one direction with one resolved id |
| Batches.RepeatsCollide | pkgs/schema/hypertables.go:500-512 | a multi-send that repeats an address in one direction collides with itself, whatever the address resolves to |
| Batches.UnknownsCollide | indexer/address_cache/address.go:189-195 | two different addresses that are both unresolved collide on id 0 |
| Batches.ApartIff | indexer/decoder/registry.go:133-172 | resolved by the cache, the entries of a message have distinct keys if and only if no address repeats in a direction and at most one per direction is unresolved |
| Batches.KnownApartIff | indexer/decoder/registry.go:133-172 | with every address cached, if and only if no address repeats in a direction |
| Batches.SingleRowKeysDistinct | pkgs/schema/hypertables.go:229-240 | when no two transactions share both id and time, primary keys never collide in the tables with one row per message |
| Batches.RecordedExactly | indexer/data_processor/operator.go:715-744 | an (address, transaction, chain) is recorded exactly when some row reports it, with the first reporting row's timestamp |
| Batches.AddToAddressTx | indexer/data_processor/operator.go:727-744 | the result does not depend on the order in which the address set is visited |
| Batches.CreateAddressTx | indexer/data_processor/operator.go:715-725 | one `address_tx` row for each recorded key and no other, in any map order |
| HashIds.TxHashTable.InsertTxHashIds | pkgs/database/timescaledb/insert.go:51-100 | an answer comes if and only if the call works, there are hashes, as many times, all decode, no hash occurs twice with one time and none is stored with its time; ids are new, one per hash, keyed by the re-encoded hash, and each is the stored id of one of its rows |
| HashIds.TxHashTable.Assign | pkgs/database/timescaledb/insert.go:76-97 | one new stored id per row if and only if no (hash, time) is repeated or stored; otherwise nothing changes |
| HashIds.StrictHashIsFound | pkgs/database/timescaledb/insert.go:69-99 | after decoding and re-encoding, a hash is found under its own text if and only if that text is strict base64 on one line |
| Chunks.StampsDistinctIff | indexer/orchestrator/operator.go:349-362 | no hash arrives twice with one time if and only if no hash with a time is fetched times listed more than once |
| Chunks.ChunkInsertableIff | indexer/orchestrator/operator.go:289-366 | what a chunk's blocks and the node's answers must look like for its ids to be insertable, both directions |
| Chunks.RepeatedFetchStopsIds | indexer/orchestrator/operator.go:349-362 | first failing input: a listed transaction that is fetched twice arrives twice with one time |
| Chunks.ListedTwiceStopsIds | indexer/orchestrator/operator.go:349-362 | second failing input: one that a block lists twice does too, although only one fetch answers |
| Chunks.KnownIdsDistinct | indexer/data_processor/operator.go:542-590 | when no hash arrives twice with one time and ids are distinct, no two transactions share both id and time |
| Chunks.EveryIdIsReal | indexer/data_processor/operator.go:405-486 | for a whole chunk: every id in every row is non-zero and the database id of a collected address |
| Chunks.BatchesHaveDistinctKeysIff | indexer/decoder/product.go:200-219 | when no two transactions share both id and time, all of a chunk's batches are free of repeated keys if and only if no two entries of one direction have one resolved id |
| Chunks.DistinctKeysMeanApart | indexer/decoder/product.go:200-219 | for any transactions, batches without repeated keys have no two entries of one direction with one resolved id |
| Chunks.ChunkKeysDistinctIff | indexer/data_processor/operator.go:405-486 | in terms of what arrives and what is cached, when no two transactions share both id and time: if and only if no multi-send repeats an address in one direction and none has two addresses in one direction that are not cached |
| Chunks.ResolvedKeysDistinctIff | indexer/data_processor/operator.go:405-486 | once every collected address was resolved, when no hash arrives twice with one time: if and only if no multi-send repeats an address in one direction |
| Processor.DataProcessor.ProcessTxHashIds | indexer/data_processor/operator.go:224-248 | succeeds if and only if the call works and the chunk's hashes and times are insertable; replaces the cache by the answer, or leaves it as it was |
| Processor.DataProcessor.ConvertAll | indexer/data_processor/operator.go:427-463 | rows of the transactions whose hash has an id, in order, or nothing if one conversion failed |
| Chunks.ChunkRowsAreExact | indexer/data_processor/operator.go:542-590 | row by row, in arrival, message and row order: every message of every arrival whose hash has an id is converted, once, under that id, the arrival's time and the message's position, and nothing else is |
| Chunks.TableRowsAreExact | indexer/decoder/product.go:200-219 | the same for the rows of one table |
| Chunks.AllConvertibleIff | indexer/data_processor/operator.go:427-445 | the chunk converts exactly when every arrival whose hash has an id does |
| Chunks.RecordedIsFirstReport | indexer/data_processor/operator.go:715-744 | an `address_tx` entry is recorded exactly when some row reports its key, with the time of the first that does |
| Processor.DataProcessor.InsertMessageBatches | indexer/data_processor/operator.go:595-620 | each table gains all of its rows or none; success means all; with working calls it succeeds exactly when no key is repeated or stored |
| Processor.DataProcessor.StoreRows | indexer/data_processor/operator.go:464-475 | `address_tx` first, message rows only when that worked; `Done` when every call works and no key is repeated or stored |
| Processor.DataProcessor.ProcessMessages | indexer/data_processor/operator.go:405-486 | under every failure pattern: nothing stored when a conversion failed; `Done` means that each table gained, in order, the rows of every message of every arrival whose hash has an id, `address_tx` exactly what they report, and nothing else; without faults and colliding keys the outcome is `Done` |
| MultiSends.GetBankMultiSendResponse | api/handlers/transactions.go:427-470 | one response message per counter, with its entries of each direction and the hash, time and signers of its first row; other messages stay |
| MultiSends.EntryCount | api/handlers/transactions.go:427-470 | an entry is regrouped as often as its row was read |
| MultiSends.TransactionReadsBack | pkgs/database/timescaledb/query_msg.go:243-293 | rows in storage order give back each message's entries in order |
| MultiSends.RegroupingRestores | api/handlers/transactions.go:427-470 | for any row order and any number of multi-sends, regrouping returns each message's inputs and outputs as multisets, under its own transaction's hash, time and signers; a message is missing exactly when it has no entries |
| FixedWindow.LifetimeBound | api/ratelimit/ratelimit.go:117-142 | in every interleaving, with increments, EXPIRE and replies failing or coming late at will, one lifetime of a key forwards at most `limit` requests |
| FixedWindow.RefusedOnlyWhenSpent | api/ratelimit/ratelimit.go:117-142 | a request is refused only after `limit` other increments of the same lifetime, counted without gaps |
| FixedWindow.WindowNeverMoves | api/valkey/client.go:42-49 | until its deadline a running window keeps that deadline, whatever the requests do |
| WindowSpans.SpanBound | api/ratelimit/ratelimit.go:117-142 | of the requests whose increments happened within one time to live, at most twice the limit are ever forwarded, however late |
| WindowSpans.SingleSpanBound | api/ratelimit/ratelimit.go:117-142 | with a limit of one, of the requests whose increments happened within less than two times to live at most two are ever forwarded |
| WindowSpans.SubSecondWindowLeaks | api/valkey/client.go:42-49 | with a window below one second any number of requests is counted and forwarded at one instant |
| WindowSpans.FractionalWindowLeaks | api/valkey/client.go:42-49 | a run that forwards 3 * limit - 1 of the requests whose increments lie within one nanosecond more than the time to live |
| WindowSpans.SpanBoundIff | api/ratelimit/ratelimit.go:117-142 | for increment instants: of the requests counted in a span of one configured window at most twice the limit are forwarded, if and only if the window is whole seconds, at least one, or the limit is one and the window at least a second, or the limit is not positive |
| WindowSpans.ForwardSpanBound | api/ratelimit/ratelimit.go:117-142 | for forwarding instants: spans of length L forward at most twice the limit when every answer comes at most d after its increment and L and d fit together |
| WindowSpans.ForwardSpanIff | api/ratelimit/ratelimit.go:117-142 | and only then: the bound holds if and only if the limit is not positive, or L + d is at most the positive time to live, or the limit is one and L + d less than two of them |
| WindowSpans.MinuteWindow | api/serve.go:151 | the configured minute keeps the increment bound for every limit |
| WindowSpans.MinuteWindowForwards | api/serve.go:151 | spans of the configured minute keep the forwarding bound if and only if answers are immediate, or the limit is one and answers come within the minute, or the limit is not positive |
| WindowSpans.LateAnswersMeet | api/ratelimit/ratelimit.go:117-142 | with the configured minute and a limit of one, a run that forwards three requests at one instant |
| FixedWindow.CountersSharedIff | api/ratelimit/ratelimit.go:99-117 | two callers share a counter exactly when they are one address or their digests share the first 8 bytes |
| FixedWindow.RateLimiter.Middleware | api/ratelimit/ratelimit.go:81-144 | a request handled alone is one run of the interleaved model on its caller's counter: forwarded when the counter cannot be read, otherwise refused exactly above the limit; unmatched paths and unknown keys touch nothing; other counters stay |
| FixedWindow.LimitedIff | api/serve.go:154 | with the one configured prefix exactly the paths that begin with /v1 are limited, with none all are |
| FixedWindow.LimitedAny | api/ratelimit/ratelimit.go:83-95 | a path is limited exactly when it begins with one of the prefixes |
| TokenBucket.RunKeepsBalance | indexer/rpc_client/rate_limit/rate_limit.go:35-85 | in every run 0 <= tokens <= N and N + accepted refills - grants = tokens |
| TokenBucket.RunSpendsTicks | indexer/rpc_client/rate_limit/rate_limit.go:57-70 | every accepted refill uses up a tick of its own; at most two can be outstanding |
| TokenBucket.TicksPerWindow | indexer/rpc_client/rate_limit/rate_limit.go:47-49 | between N and 2N - 1 ticks of the truncated interval cover a window, N exactly when N divides it |
| TokenBucket.WindowBound | indexer/rpc_client/rate_limit/rate_limit.go:35-85 | any stretch no longer than the window grants at most N + ceil(W / (W / N)) <= 3N - 1 requests, plus the ticks outstanding at its start |
| TokenBucket.WindowBoundReached | indexer/rpc_client/rate_limit/rate_limit.go:35-85 | for every configuration a run reaches that bound with both late ticks |
| TokenBucket.WaitEnds | indexer/rpc_client/rate_limit/rate_limit.go:83-85 | from every reachable open state, one interval brings a token to a blocked Wait |
| TokenBucket.ChannelRateLimiter.constructor | indexer/rpc_client/rate_limit/rate_limit.go:35-54 | the bucket starts full, with the truncated interval: the start of the run model |
| TokenBucket.ChannelRateLimiter.Refill | indexer/rpc_client/rate_limit/rate_limit.go:57-70 | one token per tick, dropped when the bucket is full; the step `Offer` of the run model |
| TokenBucket.ChannelRateLimiter.Allow | indexer/rpc_client/rate_limit/rate_limit.go:73-80 | granted exactly when there is a token, which it takes; the step `Allow` of the run model |
| TokenBucket.ChannelRateLimiter.Wait | indexer/rpc_client/rate_limit/rate_limit.go:83-85 | the receive takes one token; the step `Allow` of the run model |
| TokenBucket.ChannelRateLimiter.GetStatus | indexer/rpc_client/rate_limit/rate_limit.go:102-110 | empty exactly when all capacity and refills were granted, full exactly when refills balance grants |
| Rollup.MaterializeConserves | pkgs/schema/materialize.go:12-97 | grouping loses and double counts nothing, for any choice of groups; a group exists exactly when a row belongs to it |
| Rollup.SumGrows | pkgs/schema/materialize.go:12-97 | each counted row adds one to a count and each fee row its amount to a sum |
| Rollup.CountIsCardinality | pkgs/schema/materialize.go:12-97 | a count is the number of the rows it is about |
| Rollup.DailyIsDirect | pkgs/database/timescaledb/query_view.go:160-201 | one entry per day, each the direct count or fee sum of that UTC day; together the raw total of the range |
| Rollup.VolumeByDateIsDirect | pkgs/database/timescaledb/query_view.go:242-288 | exactly the denominations that paid a fee in the range have a series, and it is the direct one |
| Rollup.VolumeByHourIsDirect | pkgs/database/timescaledb/query_view.go:290-337 | for one denomination every hour's figure is direct, whole hours at both ends, and they add up to the raw fees between |
| Rollup.VolumesByHourAreDirect | pkgs/database/timescaledb/query_view.go:290-337 | exactly the denominations the chain ever paid fees in have a series, none when the range is empty, and every figure is direct |
| Rollup.Last24IsWholeHours | pkgs/database/timescaledb/query_view.go:138-158 | the 24-hour figure is the raw figure between two full hours |
| Rollup.Last24Exactly | pkgs/database/timescaledb/query_view.go:138-158 | it is the true figure if and only if the hour it leaves out holds as much as the current hour holds beyond now; always on a full hour |
| Rollup.Last24MissesARow | pkgs/database/timescaledb/query_view.go:138-158 | a transaction inside the last 24 hours that is not counted |
| Events.RereadIff | pkgs/events_proto/parse.go:19-41 | a value survives compression exactly when it is neither an int64 in another spelling than its canonical one nor a double that prints differently |
| Events.IntegersNormalise | pkgs/events_proto/parse.go:23-25 | an int64 text keeps its value and comes back in its one canonical form; storing it again changes nothing |
| Events.IntegersMergeIff | pkgs/events_proto/parse.go:23-25 | two integer texts become one text exactly when they are the same number |
| Events.SerializeEvent | indexer/data_processor/event.go:127-150 | the loops build the message of all events and attributes in order; a marshalling failure is reported |
| Events.EventSolver | indexer/data_processor/event.go:80-125 | compresses exactly when asked to and given two or more events; otherwise the events unchanged |
| Events.DecodeEvents | pkgs/database/timescaledb/queries_tx.go:310-356 | the three ways to fail or be empty, otherwise all events in order |
| Events.ToTransaction | pkgs/database/types.go:144-172 | native events as stored, compressed ones decoded, its error passed on |
| Events.EventsComeBack | pkgs/database/timescaledb/queries_tx.go:310-356 | order, types, package paths and keys are preserved, each value reread |
| Events.RereadIsSameIff | pkgs/database/timescaledb/queries_tx.go:310-356 | the list read back is the original if and only if every attribute value survives |
| Events.StoreAndRead | indexer/data_processor/event.go:80-125 | storing and answering: a stored transaction always reads back, and equals the original if and only if it was stored natively or every value survives |

## Left out

- HTTP routing, CORS, command line, configuration, logging, state dumps, key management and DDL: plumbing around the modelled code.
- SQL errors in page queries, and pgx refusing a height above the largest int64: the page model answers from the table or refuses the request itself.
- Processor.DataProcessor.ProcessMessages: what happens after `MessagesFailed` is not modelled; `processAll` always returns nil (indexer/orchestrator/operator.go:408), so failed chunks are not retried.
- Events.StoreAndRead: `ParseFloat`, `FormatFloat`, zstd and Protocol Buffers are parameters, the last two assumed to undo each other; values taken as doubles survive only when they print back unchanged.
- WindowSpans.SpanBound: requests forwarded because the increment failed are not counted, and the limit is fixed during a run; the code forwards them without asking the counter.
- Clocks: Valkey expires a key at its deadline, requests see one clock, and a configured window is not negative.
- Caller identification by forwarded headers (`realIP`) and the SHA-256 digest: the caller is given.
- Sleep durations and backoff: naturals without int64 wrap-around.
- Ids: unbounded integers; exhausting an int32 or int64 identity column is not modelled.
- Decoder.SingleRowReadsBack: the replacement of invalid UTF-8 (`sanitizeUTF8`) is not modelled, so texts are read back as they were.
- Text: `seq<char>` without encoding; `sanitizeUTF8` and address normalisation are not modelled.
- Collecting.DistinctIff: assumes that the node answers a request with the transaction of that hash; SHA-256 is a parameter.
- Nil blocks, commits and transactions in fetched slices: `ProcessBlocks` and `ProcessValidatorAddresses` require non-nil entries and dereference them otherwise.
- Block and validator rows, including zero-valued rows after an unparsable block: no property beyond the phase order.
- `GetBankSend` and the other single-table readers: one query each, and they do not read the message counter.
- MultiSends.RegroupingRestores: says nothing on the order of signers and of messages in the response.
- Sort order of the daily and hourly series: they are given oldest first; the code also offers newest first.
- Aggregate refresh lag, the session time zone (taken as UTC), and the gap filling of hour series, `GetTotalTxCountByHour` included.
- Validator signing rates and daily active accounts: single sums over one aggregate.
- Crash and restart in the middle of a chunk: the inserts are separate statements and promise no atomicity.
