# A verified model of simple-gnomon

simple-gnomon indexes a blockchain: workers pull blocks and transactions, contract installs and
invocations pass through queues into a flat key/value store, and queries rebuild a contract's
variables, invocations and listings from it. This project models the store and its query layer, the
concurrent pipeline around it and the classification of contracts, and proves what they keep. Check it
with `dafny verify dfyconfig.toml`.

## How the model is laid out

| file | part of the system |
|---|---|
| `FlatStore.dfy`, `Records.dfy` | buckets, keys, values, and the exact effect of each store transaction |
| `TypedIndex.dfy`, `InvokeKeys.dfy` | the typed index behind the flat store; bucket names; the composite invocation key |
| `BboltStore.dfy`, `Views.dfy`, `WsServer.dfy`, `Installs.dfy` | the store object with its cursor loops, what its answers mean, and what a run leaves of installs |
| `Variables.dfy`, `StoredVariables.dfy`, `Float64.dfy` | snapshots, the view rebuilt from them, also told from the stored entries, the rounding of JSON numbers |
| `InteractionIndex.dfy` | the height a value query is answered from |
| `Interleaving.dfy`, `IndexInvariant.dfy`, `CallBoundary.dfy`, `Queries.dfy` | any interleaving of AddSCIDToIndex calls; what holds after every transaction; order independence |
| `ReadThenWrite.dfy`, `ConcurrentStores.dfy`, `DbWriter.dfy` | lists that one transaction reads and another writes, and their callers |
| `HeightLoop.dfy`, `Restarts.dfy` | the height loop against the ticker; a stop and the next start |
| `FanOut.dfy` | the batches of one block: bounds, and the channel protocol |
| `Miniblocks.dfy` | the running miniblock counts |
| `Classifier.dfy`, `Filters.dfy` | class and tag loops, tags text, filter grammar |
| `Decimal.dfy`, `GoStrings.dfy`, `Sorting.dfy`, `Wrappers.dfy` | the library functions the code relies on |

Conventions. A `DB.View` or `DB.Update` is one atomic step. A JSON value is kept as the value it
encodes, except that an untyped number is read back as the nearest float64; the conversion of 2^64 to
uint64, which Go leaves to the machine, is the constant `Float64.OUT_OF_RANGE` without a stated value.
Strings are sequences of characters, ordered as bytes are. A Go panic is the outcome `Panicked`. Where
Go leaves an order open (walking a map, `sort.Slice` on equal keys), contracts speak of sets or of
sorted keys only. The daemon's answers, the schedule and the ticks are parameters.

## Where the code and its evident intent differ

- `GetInteractionIndex` has no break in its loop. `InteractionIndex.AsWritten` is what it returns,
  `InteractionIndex.Intended` what a reader expects; `AgreesIff` says exactly when they agree.
- A contract that is installed and not yet invoked has no interaction height: the query uses height 0 and
  answers nothing, and leaving the loop early does not help (`InteractionIndex.NotYetInvoked`).
- `batching` ends every slice but the last where it starts. `FanOut.PartitionIff`: all hashes are
  requested exactly when there are at most 100.
- `mini_db_writer` never extends the set of known blocks. `Miniblocks.CountsDriftExactly` gives the
  drift, `CountsAgreeIff` when there is none.
- `now` can move between the end of a pass and the new `lowest_height`. `HeightLoop.RunCovered` says which
  heights are skipped, `GaplessIff` when none is; `TickLosesABlock` is a concrete run.
- With `--ending-topoheight`, `now` is lowered to the ending height at each pass but `lowest_height` is
  not. `HeightLoop.PanicsIff` says exactly when the loop then asks for a channel of negative size: a pass
  begins above the ending height and no tick lands before it is measured. A stored height above the
  ending height is enough (`StoredAboveEndingPanics`), and so is a tick (`TickWithEndingHeightPanics`).
  A tick can also carry a pass beyond the ending height (`StaysBelowEndingIff`).
- Two overlapping commits to one list lose entries: `ReadThenWrite.NothingLostExactly` gives the list that
  is left, for any writers.
- After overlapping calls, as on the backup store, the interaction heights need not be the heights of the
  records: `CallBoundary.BoundaryIff`.
- A ring member's list holds a Txid once, so the second asset of a transaction is never filed for a member
  of both rings: `DbWriter.PairFiledIff`.
- The loop stores the daemon's height, not the height it has reached, so a stop can lose heights:
  `Restarts.StopLosesIff`.
- The comment on `GetAllSCIDInvokeDetails` promises the most recent record first
  (db/bbolt.go:780); the code sorts by ascending height, and so does the model.
- The class loop skips an empty term, the tag loop counts it: `Classifier.LoopsDisagreeIff`.

## Model

| member | source | states |
|---|---|---|
| Decimal.ParseFormat | db/bbolt.go:906-936 | formatting any 64-bit height as a bucket key and parsing the key gives the height back, without error |
| Decimal.FormatInjective | db/bbolt.go:906 | two different heights never share a bucket key |
| Decimal.DecimalNumeral | db/bbolt.go:906 | the text of an integer is its decimal numeral, digit by digit, with a minus sign when negative |
| Float64.RoundIsNearest | db/bbolt.go:899-939 | the float64 read back for a stored number is representable, and no representable integer is nearer |
| Float64.TiesToEven | db/bbolt.go:899-939 | when two float64 integers are equally near, the one that is an even number of spacings is read back |
| Float64.UnchangedIff | db/bbolt.go:938-979 | a number survives the JSON round trip exactly when float64 can represent it |
| Float64.RoundExact | db/bbolt.go:938-979 | numbers up to 2^53 come back unchanged |
| Float64.RoundError | db/bbolt.go:938-979 | below 2^64 - 2^10 the error is at most 2^10 and the result still fits 64 bits |
| Float64.RoundTop | db/bbolt.go:938-979 | the top 2^10 values become 2^64 |
| Float64.ReadBackInjective | db/bbolt.go:958-971 | up to 2^53, distinct stored numbers are distinct when read back |
| Float64.KeysMergeBeyondBound | db/bbolt.go:963 | the bound is sharp: 2^53 and 2^53 + 1 become the same key |
| Float64.OnlyItself | db/bbolt.go:958-971 | below 2^53 a number is read back only where it was stored |
| Variables.SmallNumbersSurvive | db/bbolt.go:958-991 | with numbers up to 2^53 an entry sets the same key to the same value after the round trip, and different keys stay different |
| Variables.AnswerUnique | db/bbolt.go:953-991 | the latest-entry reading of the snapshots gives a key one value at most |
| Variables.FoldAnswers | db/bbolt.go:947-1030 | the code's last-writer-wins fold holds key k with value v, not null, exactly when the latest snapshot entry that sets k says v; null hides the key, unsupported values leave the older one |
| Variables.FoldStopped | db/bbolt.go:954-957 | leaving the loop at the first height above t folds exactly the snapshots up to t |
| Variables.FoldScalar | db/bbolt.go:1002-1027 | the rebuilt map holds only unsigned integers and strings (or null), whatever was stored |
| Variables.ViewConstant | db/bbolt.go:954-957 | between heights without a snapshot the view does not change |
| Variables.SameAnswerIff | db/bbolt.go:953-991 | two views give the same answer for a key exactly when the later one's latest entry for it is not new, or says the same value, or null where there was no answer |
| StoredVariables.TextKeyReadAs | db/bbolt.go:958-1030 | told from the stored entries: the last entry with a string key whose value is not a boolean, array or object decides the key; a stored string is answered as it is, null as nothing, a number rounded to float64 and as itself up to 2^53 |
| StoredVariables.NumberKeyReadAs | db/bbolt.go:958-1030 | the same for a number, whose keys are the stored numbers that round to it |
| StoredVariables.SmallNumberKey | db/bbolt.go:963 | below 2^53 those are the number itself |
| StoredVariables.UndecidedUnanswered | db/bbolt.go:958-1030 | a key without such an entry has no answer |
| Views.CursorSnapshotsTyped | db/bbolt.go:935-941 | although the cursor runs in byte order of decimal text, reading a snapshot bucket recovers every height's own snapshot |
| Views.QueriesAreInverse | db/bbolt.go:1148-1245 | k is returned for value v exactly when v is returned for key k, on the same variables |
| Views.InvokeListingOk | db/bbolt.go:761-786 | the details query returns one record per key, all of them, heights never falling, records of one height in key order |
| BboltStore.Store.StoreSCIDVariableDetails | db/bbolt.go:898-920 | the snapshot is put under the height's key and nothing else changes |
| BboltStore.Store.StoreOwner | db/bbolt.go:303-333 | owner, headers, class, tags and decimal height are put in the buckets of those names, or none when the id is empty |
| BboltStore.Store.StoreInvokeDetails | db/bbolt.go:735-758 | the record is put under the composite key; a Txid shorter than three characters panics and changes nothing |
| BboltStore.Store.StoreSCIDInteractionHeight | db/bbolt.go:1248-1302 | the height is appended to the contract's list unless it is there, and the outcome says which |
| BboltStore.Store.AddSCIDToIndex | db/bbolt.go:53-111 | a whole call leaves the store and the outcome of its transactions in order, refusing an empty id; an install leaves sender, headers, class, tags and height each in its bucket |
| BboltStore.Store.StoreNormalTxWithSCIDByAddr | db/bbolt.go:678-732 | the record is appended to the address's list unless its Txid is there; Stored is reported exactly then |
| BboltStore.Store.ApplySnapshot | db/bbolt.go:958-991 | the two typed switches apply a snapshot's entries as the fold does |
| BboltStore.Store.Render | db/bbolt.go:994-1030 | in whatever order the map is walked, each key appears once, with its value, null values left out; keys and values met are unsigned integers or strings |
| BboltStore.Store.GetSCIDVariableDetailsAtTopoheight | db/bbolt.go:923-1034 | the answer is the view of the snapshots up to the height: distinct keys, each with its latest value, nothing missing |
| BboltStore.Store.GetAllSCIDVariableDetails | db/bbolt.go:1037-1145 | the same for all snapshots |
| BboltStore.Store.GetSCIDKeysByValue | db/bbolt.go:1148-1195 | exactly the keys with that value, once each, in the snapshots up to 0, the least or the greatest interaction height, by cases on the height asked for; the type assertion to string cannot fail |
| BboltStore.Store.GetSCIDValuesByKey | db/bbolt.go:1198-1245 | exactly the value of that key, at most one, in the same snapshots; the type assertion to string cannot fail |
| BboltStore.Store.GetAllSCIDInvokeDetails | db/bbolt.go:761-786 | the listing that Views.InvokeListingOk describes |
| BboltStore.Store.GetAllSCIDsByClass | db/bbolt.go:473-495 | exactly the contracts whose class holds the text, once each |
| BboltStore.Store.GetAllSCIDsByTag | db/bbolt.go:498-520 | exactly the contracts whose tags hold the text, once each |
| BboltStore.Store.GetAllSCIDs | db/bbolt.go:523-557 | on a store that keeps the owner invariant: every installed contract once, install heights never falling |
| BboltStore.Store.GetAllTags | db/bbolt.go:410-448 | exactly the comma-separated pieces of the stored tags, ascending, each once |
| BboltStore.Store.StoreMiniblockDetailsByHash | db/bbolt.go:1446-1469 | the miniblocks are put under the block hash; an empty hash is refused and changes nothing |
| BboltStore.Store.GetAllMiniblockDetails | db/bbolt.go:1472-1494 | the stored miniblocks of every block hash, none left out |
| WsServer.GetAllSCIDsByClass | connections/ws_server.go:254-267 | the reply lists exactly the contracts matching the class, once each, install heights never falling |
| WsServer.GetAllSCIDsByTag | connections/ws_server.go:268-281 | the same for tags |
| InteractionIndex.GetInteractionIndex | db/bbolt.go:1353-1376 | for every list, in any order: the greatest height for a negative or too large t, else the least height, or 0 when t is below it; the argument is left sorted descending |
| InteractionIndex.RepairedInteractionIndex | db/bbolt.go:1353-1376 | leaving the loop at the first hit gives the greatest height not above t |
| InteractionIndex.AgreesIff | db/bbolt.go:1358-1373 | the code gives the intended height exactly when t is negative, above all heights, or at most one recorded height is not above t |
| InteractionIndex.OrderDoesNotMatter | db/bbolt.go:1353-1376 | the answer depends only on which heights are in the list |
| InteractionIndex.AnsweredTooEarly | db/bbolt.go:1369-1373 | a concrete list where the query is answered from height 1 instead of 2 |
| InteractionIndex.IntendedViewIsViewAt | db/bbolt.go:1149-1154 | once t has reached the first interaction, the view at the intended height is the view at t |
| InteractionIndex.WrittenView | db/bbolt.go:1353-1376 | the height in use by cases: 0 for a contract not invoked and below the first interaction, the greatest for a negative t or beyond all, else the least, which shows the view at the first interaction |
| InteractionIndex.AnsweredAsAtIff | db/bbolt.go:1149-1154 | for every list and every t from 0 on: a key is answered as at t exactly when the snapshots above the height in use, up to t, say nothing new about it |
| InteractionIndex.NotYetInvoked | db/bbolt.go:1149-1154 | for a contract not yet invoked, or t before its first invocation, nothing is answered although the install snapshot is stored, at the intended height either |
| InvokeKeys.KeysEqualIff | db/bbolt.go:743-744 | for colon-free signers, two invocations share a key exactly when signer, height, entrypoint and the first and last three characters of the Txid agree |
| InvokeKeys.ColonsMakeKeysCollide | db/bbolt.go:744 | with a colon in a signer, invocations by two signers share a key, for any Txids and heights |
| TypedIndex.NamesDistinct | db/bbolt.go:741-1252 | the three bucket names of a contract determine it, never meet each other's kind, and never meet any fixed bucket name of the store |
| TypedIndex.RefineVars | db/bbolt.go:898-920 | on the typed index, storing a snapshot changes that contract's snapshot at that height and nothing else |
| TypedIndex.RefineOwner | db/bbolt.go:303-333 | storing an owner changes that contract's owner record and nothing else |
| TypedIndex.RefineInvoke | db/bbolt.go:735-758 | storing an invocation changes that contract's record under that key and nothing else |
| TypedIndex.RefineHeights | db/bbolt.go:1248-1302 | committing a height changes that contract's height list, to the list read plus the height, or nothing |
| TypedIndex.OthersChangeNoContract | db/bbolt.go:678-732 | writers that touch only the ring-member, miniblock and count buckets leave every contract's entry as it is |
| TypedIndex.OtherWrites | db/bbolt.go:1446-1540 | filing a transaction, storing miniblocks and storing a count touch only those buckets |
| Installs.CallOnDisk | db/bbolt.go:70-108 | every call leaves its variables under its decimal height, an invocation its record under signer, Txid ends, height and entrypoint, and its height in the list |
| Installs.InstallAfterRun | db/bbolt.go:303-333 | a run leaves, bucket by bucket, what the last install of a contract says, or what was there |
| Installs.ClassListingOverARun | db/bbolt.go:473-495 | the class listing after a run holds exactly the contracts whose last install's class contains the text, and older ones the run does not install |
| Installs.InstallOrderOverARun | db/bbolt.go:523-557 | the listing of all contracts after a run is in the order of their last installs' heights |
| Interleaving.OrderIndependence | db/bbolt.go:53-111 | the same conflict-free stages in any two orders, with repetitions, their transactions interleaved in any way: once all calls are finished every bucket but the height lists is the same |
| Interleaving.RunDetermined | db/bbolt.go:53-111 | in every state of every interleaving a key holds what some call has put there, or its first value |
| Interleaving.SerialIsASchedule | pkg/db_writer.go:49-58 | the single writer's run is one of the interleavings |
| IndexInvariant.StepRefines | db/bbolt.go:70-108 | every transaction of a call changes at most one part of one contract of the typed index |
| IndexInvariant.RunOk | db/bbolt.go:70-108 | after every transaction of every interleaving each interaction height has a snapshot and a record, height lists have no duplicates, and records sit under their own keys |
| IndexInvariant.CrashSafe | db/bbolt.go:70-108 | so whatever prefix of the transactions a crash leaves, a listed interaction height has its snapshot and its record in the flat store |
| IndexInvariant.InvokeKeepsHeights | db/bbolt.go:743-752 | storing an invocation never removes the record of another height |
| IndexInvariant.AddStageRefines | db/bbolt.go:53-111 | a whole call adds its stage to its own contract and leaves every other contract |
| IndexInvariant.SerialBoundary | db/bbolt.go:99-107 | between the calls of a serial run the interaction heights are exactly the heights of the stored records |
| CallBoundary.BoundaryIff | pkg/db_writer.go:62-71 | for any overlapping calls, once all are over: the interaction heights are exactly the heights of the records if and only if the height list has lost nothing |
| CallBoundary.RunRecords | db/bbolt.go:743-752 | in every state of every interleaving a height has a record exactly when it had one at first or some call has stored one |
| IndexInvariant.SerialHeights | db/bbolt.go:1248-1302 | after a run the interaction heights are those from before and those of the run's invocations |
| IndexInvariant.SerialOrderIndependence | pkg/handling_scids.go:228-231 | queues with the same stages in any order and with repetitions leave equal buckets, and equal height lists as sets |
| Queries.AnswersAreOrderIndependent | pkg/handling_scids.go:228-231 | every variable, value, invocation, height, owner, class and tag query about any contract at any height is answered the same |
| Queries.OrderFreeIff | pkg/handling_scids.go:228-231 | all queues with the same stages, in any order and with repetitions, leave the same buckets beside the height lists exactly when the stages agree wherever they write the same thing |
| Queries.EmptyStoreOk | db/bbolt.go:303-333 | the empty store is one that the results about runs may start from |
| Queries.LastInvokeIsKept | db/bbolt.go:746-755 | under each key a run leaves the record stored last |
| Queries.DetailsOverARun | db/bbolt.go:761-786 | over any run from any well-formed store the details query returns exactly the last record of every key, of the run or older, heights never falling |
| Queries.SerialTyped | db/bbolt.go:303-333 | every run keeps the store well formed: owner, headers, class, tags and height buckets on the same contracts, with heights that parse |
| Queries.QueriedViewOverARun | db/bbolt.go:1148-1154 | on any well-formed store, for a contract installed once and then invoked and every t: what the height in use and the intended height show, by all these cases |
| Queries.ValuesOverARun | db/bbolt.go:1198-1245 | after such a run the values query answers nothing before the first invocation, its answer is the one at t exactly when nothing new is said above the height in use, and the latest for a negative t or beyond all invocations |
| Queries.KeysOverARun | db/bbolt.go:1148-1195 | the same for the keys query, for all keys at once |
| ReadThenWrite.RunOk | db/bbolt.go:685-729 | in every interleaving no committed list has two entries of one identity, and each is an earlier committed list plus one entry |
| ReadThenWrite.StepFiled | db/bbolt.go:685-729 | every call that is over has its entry in some committed list |
| ReadThenWrite.VersionIs | db/bbolt.go:685-729 | for any writers and overlaps, every committed list is the first one followed by the entries of the commits it goes back to: the last one, the last one its writer had seen, and so on |
| ReadThenWrite.NothingLostExactly | db/bbolt.go:685-729 | for any writers, equal entries included: the list holds exactly those entries, and nothing is lost exactly when each committed entry is among them |
| ReadThenWrite.FreshKeepsAll | db/bbolt.go:685-729 | without overlapping commits the list is the first one followed by every committed entry |
| ReadThenWrite.NothingLostIff | db/bbolt.go:685-729 | when writers bring different entries, none is lost exactly when no commit to the list fell between a committing writer's read and its write |
| ReadThenWrite.OverlapWithoutLoss | db/bbolt.go:685-729 | two writers with the same entry overlap and lose nothing, so overlaps alone do not decide when entries are equal |
| ConcurrentStores.ConcurrentTxs | pkg/handling_txs.go:152-163 | all of the above for every address's list under concurrent callers of the flat store |
| ConcurrentStores.ConcurrentHeights | pkg/db_writer.go:62-71 | all of the above for every contract's height list under interleaved AddSCIDToIndex calls, where only invocations write it |
| DbWriter.WriteStages | pkg/db_writer.go:49-60 | the store is that of the serial run, of all stages or up to the one that stops the process, which is one that cannot be stored |
| DbWriter.RingmemberCallback | pkg/handling_txs.go:152-163 | every ring member's list holds the Txid afterwards, once, no other list changes, and nothing of any contract |
| DbWriter.PayloadCallback | pkg/handling_txs.go:143-149 | over all payloads of a transaction, a member's list gains the record of the first payload with an asset that reaches it, unless it holds the Txid already, and no other; a payload whose asset id is 64 zeros files nothing, any other files the Txid |
| DbWriter.PairFiledIff | pkg/handling_txs.go:143-163 | so an asset is on record with the Txid exactly when it was before, or the Txid was not and the first payload that reaches the member is of that asset |
| HeightLoop.Indexer.Execute | pkg/handling_heights.go:16-82 | the loop and the ticker on their shared fields, under any schedule and flags: the channel got every height from the first to the last one reached, once, in order, but for those an update jumps over; and exactly when the loop panics |
| HeightLoop.RunCovered | pkg/handling_heights.go:33-69 | any flags, up to a panic if there is one: no height is enqueued twice or out of order, and the heights missing below the front are exactly those an update jumps over: the pass ended at or below them, the daemon answered more, and since the end of the pass a tick read more |
| HeightLoop.FirstHeight | pkg/handling_heights.go:33-39 | the first pass starts at the stored height or at the starting height, and at the latter when it is below the chain's height and the ending height |
| HeightLoop.QuietRunsAreGapless | pkg/gnomon.go:263-284 | if no tick lands between a pass's end and the new lowest height, every height from the first on is enqueued once, in order |
| HeightLoop.GaplessIff | pkg/handling_heights.go:66-69 | over whole runs, any flags: every height from the first to the front is enqueued exactly when no update has both its daemon answer and a tick since the end of its pass above the height where the pass ended |
| HeightLoop.RepeatsIff | pkg/handling_heights.go:41-66 | whatever the daemon answers, flags and schedule: every height is enqueued at most once exactly when the loop never hands on a height that the last update has put back before it |
| HeightLoop.RisingIsOrderly | pkg/gnomon.go:263 | a daemon whose height never falls is all these results need |
| HeightLoop.TickBounds | pkg/gnomon.go:265 | from a tick to the next one `now` is the reading, or the lower ending height, and nothing at or above the reading is handed on |
| HeightLoop.BelowChain | pkg/handling_heights.go:33-55 | no height at or above all readings is ever enqueued, whatever the flags |
| HeightLoop.StartingTooHigh | pkg/handling_heights.go:37-39 | a starting height that no reading exceeds is not used |
| HeightLoop.PanicsIff | pkg/handling_heights.go:33-45 | any flags: the loop panics exactly when a pass begins above the ending height, does not restart below it, and no tick lands before it is measured |
| HeightLoop.AboveEndingIff | pkg/handling_heights.go:64-66 | an update leaves a lowest height above the ending height exactly when the daemon answered more than it and a tick inside the pass read more than it |
| HeightLoop.StaysBelowEndingIff | pkg/handling_heights.go:33-55 | the enqueued heights stay below the ending height exactly when the loop never stands at or above it after a tick of its pass has read more than where it stands |
| HeightLoop.StoredAboveEndingPanics | pkg/handling_heights.go:33-45 | a stored height above the ending height panics in the first pass with no tick at all |
| HeightLoop.ZeroReadingPanics | connections/daemon_rpc.go:76-95 | a daemon that answers height 0 five times is read as 0; at a tick that ends in a panic once a height is stored, whatever the flags |
| HeightLoop.TickLosesABlock | pkg/gnomon.go:263-265 | a run in which one tick makes the loop skip height 1 |
| HeightLoop.TickWithEndingHeightPanics | pkg/handling_heights.go:33-45 | a run in which, with an ending height, the same tick leads to a channel of negative size |
| Restarts.StoredIsAnswer | pkg/handling_heights.go:25-27 | inside a pass after the first, the loop has stored the daemon's last answer |
| Restarts.LostByStop | pkg/gnomon.go:116-122 | whatever was stored when the program stopped: the heights neither run enqueues nor jumps over are exactly those from where the first run had got to up to the first height of the second |
| Restarts.StopLosesIff | pkg/handling_heights.go:25-27 | with what the loop stores, a stop inside a pass after the first loses a height exactly when the daemon's last answer and the chain's height at the restart are both beyond where the loop had got to |
| FanOut.Batching | pkg/handling_txs.go:80-92 | the last batch requests everything from its start on, every other batch nothing; the slice is in bounds for every list |
| FanOut.BatchBounds | pkg/handling_txs.go:58-92 | slices are in bounds, and the last batch has 1 to 100 hashes |
| FanOut.RequestedIsTheLastBatch | pkg/handling_txs.go:83-89 | all batches together request the last batch only: the first 100 * (count - 1) hashes are never requested |
| FanOut.PartitionIff | pkg/handling_txs.go:83-89 | the batches cover the list, in order and once, exactly when it has at most 100 hashes |
| FanOut.RepairedPartition | pkg/handling_txs.go:83-89 | with end = batch_size * (batch + 1) they always do |
| FanOut.Reachable | pkg/handling_txs.go:57-99 | in every interleaving each result sent is in exactly one place, the counter counts the live batches, and the channel is closed only when all are gone |
| FanOut.SendsAreSafe | pkg/handling_txs.go:57-92 | no batch sends on a closed channel and no send blocks |
| FanOut.RunsAreBounded | pkg/handling_txs.go:57-99 | every interleaving is finite, with a bound fixed by the number of batches |
| FanOut.MainIsNeverStuck | pkg/handling_txs.go:57-78 | until operate_on_staged_tx returns, it or a batch can take a step without the consumer |
| FanOut.ReturnsWithoutConsumer | pkg/handling_txs.go:57-78 | it returns even if the consumer never runs |
| FanOut.RestMeansDone | pkg/handling_txs.go:94-99 | a run that cannot go on has returned, stopped the consumer, and handled each batch's result exactly once |
| Miniblocks.MiniWriter.constructor | pkg/db_writer.go:13-20 | at the start each miner's count is its number of stored miniblocks |
| Miniblocks.MiniWriter.Stage | pkg/db_writer.go:21-30 | one staged block changes the counts and the two buckets as the pure step says, and no other bucket |
| Miniblocks.MiniWriter.StageAll | pkg/db_writer.go:31-46 | the writer over a whole queue: each running count is the stored miniblocks plus the extra occurrences, and all agree exactly when no stage replaces content |
| Miniblocks.CountsDriftExactly | pkg/db_writer.go:13-30 | after every block, for any stages: running count = stored miniblocks + the miniblocks of replaced or unstored content |
| Miniblocks.CountsAgree | pkg/db_writer.go:13-30 | with distinct non-skipped hashes the running count is the number of stored miniblocks, after every block |
| Miniblocks.CountsAgreeIff | pkg/db_writer.go:21-24 | all counts agree exactly when no stage replaces content that holds miniblocks |
| Miniblocks.RepeatedBlockCountsTwice | pkg/db_writer.go:21-30 | one block staged twice is counted twice |
| Miniblocks.StoredCountsFollow | pkg/db_writer.go:26-29 | for every miner counted in a run the stored count equals the running count after every block |
| Classifier.FindClass | pkg/handling_scids.go:138-158 | the class is the first matching term of the first index whose first matching term is not empty |
| Classifier.FindTags | pkg/handling_scids.go:186-202 | "all" followed by the index name once per matching term, in order |
| Classifier.TagsCounted | pkg/handling_scids.go:186-202 | there is one tag beside "all" for every matching pair of index and term |
| Classifier.TagMultiplicity | pkg/handling_scids.go:186-202 | every tag occurs as often as there are matching pairs of an index with that name, "all" once more |
| Classifier.LoopsAgree | pkg/handling_scids.go:138-202 | for non-empty terms a class is found exactly when a tag beyond "all" is added; it is the first matching term in index order, and its index name is among the tags |
| Classifier.LoopsDisagreeIff | pkg/handling_scids.go:138-202 | for arbitrary terms: the loops disagree exactly when something matches and every matching index matches the empty term first |
| Classifier.Classify | pkg/handling_scids.go:138-248 | a contract without a class is skipped exactly when a search filter was given; otherwise the class is NAMESERVICE or GNOMONSC for those two contracts, null without a match, TELA-DOC-1 for docVersion, TELA-INDEX-1 for telaVersion and else the matching term; tags text as queued |
| Classifier.TagsSplitBack | pkg/handling_scids.go:205-248 | with comma-free names the stored text splits back into the sorted tags |
| Classifier.TagsInUse | db/bbolt.go:410-448 | after any run of classified stages on any store, whatever the indices of each install, the tags in use are those of every contract's last install, and the older ones of the contracts the run does not install |
| Classifier.TagsAfterRun | db/bbolt.go:303-333 | a run leaves under each contract the tags of its last install, or the older ones |
| Filters.Backend.SetUpSearch | pkg/backend.go:25-53 | for every flag text the four branches append one split at ";;;" and then at ";", filters numbered from 0; a list of filters printed with those separators is appended as it is |
| Filters.Backend.SetUpExclusions | pkg/backend.go:112-131 | the exclusion branches append one split at ";;;", exclusions numbered from 0, each with its id; ids printed with that separator are appended as they are |
| Filters.RoundTrip | README.md:97 | joining non-empty lists of non-empty, semicolon-free terms with ";" and ";;;" and splitting the text gives the same lists in order |
| GoStrings.ContainsIff | pkg/handling_scids.go:146 | Contains holds exactly when the text occurs somewhere |
| GoStrings.SplitAtFirst | pkg/backend.go:37-47 | Split cuts at the first place where the separator occurs and again in the rest |
| GoStrings.AtMostIs | pkg/handling_scids.go:205 | the order of sorted tags and of cursors: a prefix first, else the smaller byte at the first difference |
| GoStrings.SplitOfJoin | db/bbolt.go:430 | splitting what was joined gives the parts back |
| GoStrings.JoinOfSplit | pkg/backend.go:37-47 | joining the pieces of a split gives the text back |

## Left out

- Bolt itself, files, `BackUpDatabases` and compaction: only buckets, byte-ordered cursors and atomic transactions are modelled; of bolt's own errors, only the empty bucket name and the empty key.
- HTTP, WebSocket, XSWD and RPC plumbing and the remaining reply arms: daemon answers are parameters.
- Signature checks, address decoding and transaction deserialisation: libraries that are not part of this model.
- The header, name and image extractors in pkg/helpers.go: their result depends on Go's map order; headers are given.
- Transaction arguments and payloads in SCTXParse: stored and returned as they are, no query looks inside.
- Mutual exclusion through `Writing`: its check and its set are separate and every call resets it, so no lock is claimed. `AddSCIDToIndex` is proved for serial calls, `Interleaving` for any schedule of its transactions.
- The goroutines of `HeightLoop`, `FanOut`, `Interleaving` and `ReadThenWrite` are transition systems over values rather than threads over objects; Dafny has no threads.
- Shutdown, sleeps, printing, progress percentages, and fastsync.
- Plain single-key pairs (last height, transaction counts, getinfo) and the list of invalid deployments.
- Invalid UTF-8 in stored strings, which json.Marshal would replace; fractional and negative untyped numbers, which no caller stores.
- Overflow of miniblock counts, and of BatchCount: the float64 quotient is exact for any list that fits in memory.
- HeightLoop.RunCovered: assumes, like GaplessIff and PanicsIff, that the daemon's height never falls (`Orderly`, which `Rising` implies); for other readings `RepeatsIff` says when a height is enqueued twice, and `ZeroReadingPanics` what a 0 does at a tick. A call that fails outright ends the process (connections/daemon_rpc.go:119-122) and is not modelled.
- Restarts.StopLosesIff: speaks of the height the loop stores; the database writer stores the heights of its stages under the same key, and LostByStop holds whatever is stored there. Blocks still queued at a stop are not part of it.
