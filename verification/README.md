# Verification of the Hixaa platform's core

A Dafny model of the parts of the platform that hold state, run loops or encode data, with proofs of
what those parts promise. Each component is one or a few modules; a component that changes stored data
is a class whose methods are proved against a function on values, and what the component is for is
proved about that function.

- `TreePath`, `CategoryForest`, `Categories`: the category table with materialised paths. Ids hold no
  dot and come from the database. Each call is one atomic step here. The prefix tests are those of the
  service; rows are soft-deleted, and deleted rows are skipped by lookups but still counted by the child
  count and the unique indexes.
- `CategoryInterleaving`: the service itself, whose calls take up to three steps, two guard reads and a
  later transaction, with any other calls in between.
- `CategoryTreeSpec`, `CategoryTree`: nesting flat category rows, with nodes and child lists on the
  heap, repeated ids included. Name collation is any total preorder.
- `JsonText`, `CanonicalJson`: the fingerprint of a request body. Text is a sequence of UTF-16 code
  units. A finite number is known by the numeral it prints as, and SHA-256 is taken as injective, so
  the fingerprint is the canonical text itself.
- `IdempotencyKeys`, `IdempotencyProtocol`: the key table and its three uses, and the protocol as
  interleaved steps of many requests with crashes, lost writes, failing queries and purges.
- `OutboxTable`, `OutboxDispatcher`, `OutboxProtocol`, `OutboxOwnership`, `OutboxRefinement`: the
  transactional outbox: single updates, the poll cycle, all interleavings of workers, whose hands an
  event is in, and the link between the cycle and the interleavings. Every call of the cycle to the
  database or a queue may work, throw before it took effect, or throw after. Results hold for every routing table. A
  queue remembers every job id it has seen.
- `Keyset`, `Pagination`, `Backup`: keyset paging over a table that changes between pages, the cursor
  lists built on it, sorted as the cursor is or by something else, and the backup run, in which every
  outside call may throw, or the process die there, before, half-way through or after taking effect.
- `Csv`, `LocalFileSheets`: the CSV line printer and its reading loop, and the adapter over files.
- `Restore`, `RestoreAfterBackup`: the three-way diff of a sheet against the table, and that diff right
  after an export has gone through the file adapter's text.
- `Money`, `Spacing`, `NumberWords`, `IndianWords`, `IndianDigits`: exact decimals (units over a power
  of ten), allocation, amounts in words and digit grouping, each with a reader.
- `Gstin`, `TokenBucket`, `TaxRates`, `TaxRateInterleaving`, `Calendar`, `Aging`: the GSTIN check digit,
  the quota limiter (tokens counted in 60000ths), the tax-rate timeline with whole calls, the table whose
  calls overlap under the two unique indexes of the database, and dates as text and as day numbers.
- `Options`, `Numbers`, `Text`: shared result types, small arithmetic and digits, splitting, joining and
  comparing strings.

## What the proofs found

- Categories: the cycle guard refuses exactly the moves that would close a cycle
  (`Categories.MoveRefusesExactlyCycles`). It is read before the transaction, though: of any two rows
  neither of which is above the other, each can be moved under the other by overlapping calls, which
  closes a cycle (`CategoryInterleaving.CrossedMovesCloseACycle`). A late transaction keeps the forest
  exactly when what it read still holds (`CategoryInterleaving.WriteKeepsForestIffFresh`).
- Category tree: the recursive sort ends exactly when no id that can be reached from a root lies on a
  closed chain of parents (`CategoryTreeSpec.TrailsAreBoundedIffEnds`). Distinct ids, which the service
  passes, are enough (`CategoryTreeSpec.UniqueIdsEnd`); of inputs with a repeated id some end and some do
  not (`CategoryTreeSpec.RepeatedIdMayEndOrNot`).
- Fingerprint: a number too large to be finite prints as `null`, and -0 as `0`, so such bodies share a
  fingerprint with different ones; for every other body the fingerprint is exact
  (`CanonicalJson.SameFingerprintIffSameBody`, `CanonicalJson.OverflowPrintsAsNull`).
- Idempotency: the comment on the lost write in `remember` says a retry runs a duplicate. The code
  answers "still in progress" until the key expires (`IdempotencyProtocol.LostMemoKeepsTheKeyBusy`);
  the proofs follow the code. A handler that outlives its key's day can overlap a second one.
- Outbox: a processed row can become failed again, and in two ways. Recovery goes by the age of the
  event, not of its claim, so it can take a row from a live worker
  (`OutboxOwnership.StaleWorkerUndoesProcessed`); and a processed mark that takes effect but throws is
  answered by the same worker marking the row failed (`OutboxOwnership.ThrownMarkUndoesProcessed`).
  There is no third: in a run with neither, a processed row stays as it is until purged
  (`OutboxOwnership.ProcessedIsFinal`). At any moment it may still happen to a row exactly when a worker
  has it in hand and can get to its failed mark (`OutboxOwnership.UndoneIffInReach`). Jobs are still sent
  once.
- Backup: with any adapter a run may be recorded as failed after it has published a complete new export,
  when the update of the job row that should say so fails; with the local one also when the swap fails
  between its put and its delete. `runAll` is documented as going on after a failed entity; an error while counting, while creating the job row, or inside the failure handler
  leaves `runEntity` as an exception and ends the whole run without a status.
- Backup: the comment in the paging loop says a failed run resumes from its checkpoint. The code always
  starts from the first page with a fresh staging sheet; the proofs follow the code.
- Money: the distribution loops do not run for a negative remainder, so a negative amount that does not
  divide is split into parts that exceed it by exactly that remainder (`Money.AllocateSum`).
- Token bucket: no caller can tell there was an extra poll exactly when its clock reading is not ahead of
  the next one or the bucket cannot gain (`TokenBucket.PollIsUnnoticedIff`,
  `TokenBucket.PollAheadIsVisible`). A clock that has stepped back is not counted in the reported wait
  (`TokenBucket.WaitIsLeast`).
- Tax rates: reading before the transaction does no harm. The database allows one open row a code, so a
  call whose reading is out of date is refused, and any overlapping calls leave the table that the ones
  that went through would have left one after the other (`TaxRateInterleaving.InterleavingIsARunOfCalls`).
- Lists: `keysetWhere` pages by creation date and id whatever the list is sorted by. Over an unchanged
  list the cursors return every row once exactly when the pages fall in blocks by that order
  (`Pagination.SortedWalkIsWholeIffInBlocks`), and at every page size exactly when the list is sorted
  newest first (`Pagination.WholeAtEveryLimitIffNewestFirst`). The comment in `parseSort` says that the id
  as last sort column keeps paging from skipping or repeating rows; sorted by name, two products are
  enough to skip one (`Pagination.SortByNameSkipsRows`).
- Amount in words: from twenty lakh crore rupees on, the table of hundreds runs out, "undefined" is
  printed, and different amounts print alike (`IndianWords.HugeAmountsPrintAlike`); below, the words
  determine sign and amount. An amount that rounds to zero from below prints "Minus".
- CSV: a sheet reads back as written exactly when no cell holds a line feed and no row prints as an
  empty line (`Csv.FileRoundTrip`). So a dry run straight after a successful export of an unchanged table
  is clean exactly when no cell holds a line feed (`RestoreAfterBackup.DryRunAfterExportIsClean`); a first
  name may hold one (`RestoreAfterBackup.LineFeedInNameDiffers`).

## Model

| member | source | states |
|---|---|---|
| TreePath.PartsOfChild | apps/api/src/modules/territories/territory-path.ts:22-36 | appending an id to a stored path appends exactly one part, so depth is the number of ancestors |
| CategoryForest.PrefixIsAncestry | apps/api/src/modules/territories/territory-path.ts:48-51 | among live rows, one path is a prefix of another exactly when the first row is the second or an ancestor of it by parent pointers |
| CategoryForest.PathIsInjective | apps/api/src/modules/territories/territory-path.ts:4-7 | two live rows with equal paths are the same row |
| CategoryForest.PathPartsAreTheChain | apps/api/src/modules/catalog/categories.service.ts:333-340 | cutting a path at its dots gives the chain of ancestor ids, root first, and the stored depth is its length less one |
| CategoryForest.ChainIsAncestors | apps/api/src/modules/catalog/categories.service.ts:333-340 | the ids in that chain are exactly the ancestors of the row and the row itself |
| CategoryForest.ForestIsAcyclic | apps/api/src/modules/territories/territory-path.ts:67-76 | when every live path is its parent's path plus the row's id, following parents never comes back |
| CategoryForest.InsertKeepsForest | apps/api/src/modules/catalog/categories.service.ts:137-162 | a created row is well placed and every other row stays so |
| CategoryForest.MoveKeepsForest | apps/api/src/modules/catalog/categories.service.ts:255-276 | after an allowed move every live row's path and depth again say where its parent pointer puts it |
| CategoryForest.MoveRehangsChain | apps/api/src/modules/catalog/categories.service.ts:255-276 | a row at or below the moved one keeps its chain from the moved row down, hung under the new parent's chain; every other row is untouched |
| CategoryForest.RemoveKeepsForest | apps/api/src/modules/catalog/categories.service.ts:314-322 | deleting a row without children keeps the forest |
| CategoryForest.CycleGuardIsExact | apps/api/src/modules/territories/territory-path.ts:67-76 | the prefix guard fires exactly when re-pointing the parent would close a cycle |
| CategoryForest.InsertHangsChain | apps/api/src/modules/catalog/categories.service.ts:156-162 | a created row's chain is its parent's chain and itself, and no other chain changes |
| Categories.CreateDoesWhatItSays | apps/api/src/modules/catalog/categories.service.ts:114-162 | a successful creation adds one row, with the code and parent asked for and the slug asked for or made from the name, hung under its parent; every other row and chain stays |
| Categories.CreateRefusals | apps/api/src/modules/catalog/categories.service.ts:114-162 | creation succeeds exactly when the parent is live and no row, deleted ones included, has the id, the code or the slug; it is a clash exactly when a live row has the code or the slug asked for; refused, it changes nothing |
| Categories.MoveDoesWhatItSays | apps/api/src/modules/catalog/categories.service.ts:231-276 | a move is refused exactly for a row that is not live, itself as parent, a parent that is not live, or a parent at or below the row by parent pointers, with the refusal that says so; otherwise exactly one parent changes, no code, slug or deletion, and the forest is kept |
| Categories.RemoveDoesWhatItSays | apps/api/src/modules/catalog/categories.service.ts:294-322 | removal is refused exactly for a row that is not live, has products, or is named as parent by some row, deleted or not, with the refusal that says so; refused, it changes nothing; done, it hides that one row and leaves every other row and live chain alone |
| Categories.RunKeepsForest | apps/api/src/modules/catalog/categories.service.ts:114-331 | after any sequence of create, move and remove, one at a time, the table is a forest with unique codes and slugs and no cycle |
| Categories.MoveRefusesExactlyCycles | apps/api/src/modules/catalog/categories.service.ts:231-253 | after any run of whole calls, a move between live rows succeeds exactly when re-pointing the parent makes no cycle, and then the row has its new parent |
| CategoryInterleaving.UndisturbedCallIsAtomic | apps/api/src/modules/catalog/categories.service.ts:114-331 | a call whose two reads and transaction find the same table is the single step of `Categories`, for create, move and remove |
| CategoryInterleaving.WriteKeepsForestIffFresh | apps/api/src/modules/catalog/categories.service.ts:234-276 | a transaction run on a later forest leaves a forest exactly when what its call read still holds: the parent is live under the path read, the moved row is where it was (or gone, which rolls the move back, or already under that parent), no live child has appeared under a removed one; keys stay unique in any case |
| CategoryInterleaving.ForestIffAllWrittenFresh | apps/api/src/modules/catalog/categories.service.ts:114-322 | for any interleaving of first reads, parent reads and transactions from an empty table, the table is a forest at every moment exactly when every transaction found its plan fresh |
| CategoryInterleaving.CrossedMovesCloseACycle | apps/api/src/modules/catalog/categories.service.ts:231-253 | for any two rows neither above the other, both crossed moves pass their guards when both read first, and the second transaction closes a cycle |
| CategoryInterleaving.CategoriesService.CreateCategory | apps/api/src/modules/catalog/categories.service.ts:114-176 | whatever other calls write between its reads and its transaction: which clash, parent or taken key on which of its three tables decides the outcome, table and outcome are those of `Call`; the forest is kept exactly when nothing was written or the plan was still fresh, and always with nothing in between |
| CategoryInterleaving.CategoriesService.MoveCategory | apps/api/src/modules/catalog/categories.service.ts:231-292 | the same for a move: first read, parent read and transaction each on its own table, and what on them decides the outcome; the forest is kept exactly when nothing was written or the plan was still fresh, and always with nothing in between |
| CategoryInterleaving.CategoriesService.RewriteSubtree | apps/api/src/modules/catalog/categories.service.ts:258-270 | the loop, in any order, rewrites exactly the live rows whose path had the old prefix |
| CategoryInterleaving.CategoriesService.RemoveCategory | apps/api/src/modules/catalog/categories.service.ts:294-331 | the same for a removal: products, any row naming it as parent at the read, or the row gone by the transaction, which rolls back, decide the outcome; the forest is kept exactly when nothing was written or the plan was still fresh, and always with nothing in between |
| CategoryInterleaving.CategoriesService.AncestorIdsOf | apps/api/src/modules/catalog/categories.service.ts:333-340 | returns the chain of ancestor ids by parent pointers, or nothing for a missing row |
| CategoryTreeSpec.SortSorts | packages/contracts/src/catalog/category.schema.ts:120-121 | sorting gives a permutation in ascending sort order, equal ones in ascending name order, and leaves such a list alone |
| CategoryTreeSpec.SortIsStable | packages/contracts/src/catalog/category.schema.ts:120-121 | rows with the same sort order and name keep the order they came in |
| CategoryTreeSpec.TrailIsUnique | packages/contracts/src/catalog/category.schema.ts:112-117 | with distinct ids there is at most one way down from a root to a row |
| CategoryTreeSpec.TrailsAreBoundedIffEnds | packages/contracts/src/catalog/category.schema.ts:104-124 | the ways down from the roots, and with them the recursion, have bounded length exactly when no id reached from a root lies on a closed chain of parents |
| CategoryTreeSpec.UniqueIdsEnd | packages/contracts/src/catalog/category.schema.ts:104-124 | with distinct ids that is always so, cycles of parents included |
| CategoryTreeSpec.RepeatedIdMayEndOrNot | packages/contracts/src/catalog/category.schema.ts:104-124 | of two rows with one id, two equal roots end; a root and a row naming itself as parent do not |
| CategoryTreeSpec.ForestHoldsRootedRows | packages/contracts/src/catalog/category.schema.ts:101-127 | the forest holds exactly the rows that can be reached from a root, each once |
| CategoryTreeSpec.ForestIsNested | packages/contracts/src/catalog/category.schema.ts:107-118 | for all rows whose nesting ends: the roots are what the rows with no, an empty or an absent parent stand for, in order, and below each row stand exactly its children in order; with distinct ids these are the rows themselves |
| CategoryTreeSpec.ShownIsLast | packages/contracts/src/catalog/category.schema.ts:104-105 | what a row stands for is the last row that has its id |
| CategoryTreeSpec.SiblingsAreChildrenInOrder | packages/contracts/src/catalog/category.schema.ts:112-123 | a child list ascends by sort order and then name and holds exactly what the rows naming that parent stand for; with distinct ids the rows themselves, each once |
| CategoryTreeSpec.ForestIsOrdered | packages/contracts/src/catalog/category.schema.ts:120-124 | every list of siblings in the forest, at any depth, ascends by sort order and then name |
| CategoryTreeSpec.NothingLostIffAcyclic | packages/contracts/src/catalog/category.schema.ts:101-127 | every row appears in the forest exactly when no rows form a cycle of parents |
| CategoryTree.FillIndex | packages/contracts/src/catalog/category.schema.ts:104-105 | for any rows, a fresh node under every id, showing the last row that has it, each with an empty child list of its own |
| CategoryTree.ParentList | packages/contracts/src/catalog/category.schema.ts:112-117 | picks the one list, of children or of roots, that the row belongs on |
| CategoryTree.LinkOne | packages/contracts/src/catalog/category.schema.ts:108-118 | after the push every list holds, in row order, exactly what the rows so far that belong on it stand for |
| CategoryTree.SortRecursive | packages/contracts/src/catalog/category.schema.ts:120-124 | ends on every input whose nesting does, so for distinct ids always, cycles of parents included; sorts the list and every list below it, and never changes a list once sorted |
| CategoryTree.SortedListsRepresent | packages/contracts/src/catalog/category.schema.ts:120-126 | nodes whose reachable lists are all sorted stand for the forest grown from their rows |
| CategoryTree.BuildCategoryTree | packages/contracts/src/catalog/category.schema.ts:101-127 | whenever the recursion can end, repeated ids included, the returned nodes stand for the forest of the rows, everything returned is new, and the returned list and the children of its nodes down to any depth ascend by sort order and then name |
| JsonText.ReadsBack | apps/api/src/common/interceptors/idempotency.interceptor.ts:247-250 | a string escaped by the printer is read back by a reader of section 7 of RFC 8259, whatever follows it |
| JsonText.QuoteIsUnique | apps/api/src/common/interceptors/idempotency.interceptor.ts:247-250 | no quoted string is the start of a different one |
| CanonicalJson.CanonicalTextsAreApart | apps/api/src/common/interceptors/idempotency.interceptor.ts:240-251 | no value's text is the start of a different value's text, where a value may end |
| CanonicalJson.SortedAlikeIffSameEntries | apps/api/src/common/interceptors/idempotency.interceptor.ts:244-247 | sorting by key gives the same list exactly when the entries are the same |
| CanonicalJson.SameTextIffSameValue | apps/api/src/common/interceptors/idempotency.interceptor.ts:229-251 | two bodies JSON can carry print alike exactly when they are the same value up to member order at every depth |
| CanonicalJson.SettledPrintsAlike | apps/api/src/common/interceptors/idempotency.interceptor.ts:240-250 | dropping undefined members and turning undefined, non-finite and -0 into null and 0 never changes the text, and is the identity on bodies JSON can carry |
| CanonicalJson.SameFingerprintIffSameBody | apps/api/src/common/interceptors/idempotency.interceptor.ts:236-251 | any two bodies share a fingerprint exactly when what JSON makes of them is the same up to member order |
| CanonicalJson.ReorderedRetryMatches | apps/api/src/common/interceptors/idempotency.interceptor.ts:229-235 | a retry whose members come in another order, at any depth, has the same fingerprint |
| CanonicalJson.OverflowPrintsAsNull | apps/api/src/common/interceptors/idempotency.interceptor.ts:241-250 | two different bodies, one with an infinite number and one with null, share a fingerprint |
| CanonicalJson.ListText | apps/api/src/common/interceptors/idempotency.interceptor.ts:242-242 | a list is its items in their order between brackets, commas and nothing else between them |
| CanonicalJson.ObjectText | apps/api/src/common/interceptors/idempotency.interceptor.ts:243-249 | two members are printed in the order of their keys, whichever came first, each as quoted key, colon and value; an undefined one is not there |
| CanonicalJson.LiteralTexts | apps/api/src/common/interceptors/idempotency.interceptor.ts:241-250 | the texts of null, true, false and 0 |
| CanonicalJson.CanonicalTextIsWellFormed | apps/api/src/common/interceptors/idempotency.interceptor.ts:236-238 | the text never holds a lone surrogate, so encoding it for the hash loses nothing |
| IdempotencyKeys.IdempotencyKeyTable.TryInsert | apps/api/src/common/interceptors/idempotency.interceptor.ts:151-171 | succeeds exactly when no row holds the scope, and then adds one row under an id never used before |
| IdempotencyKeys.IdempotencyKeyTable.FindUnique | apps/api/src/common/interceptors/idempotency.interceptor.ts:173-176 | finds the row of a scope if there is one |
| IdempotencyKeys.IdempotencyKeyTable.ClaimKey | apps/api/src/common/interceptors/idempotency.interceptor.ts:142-199 | claims a free or expired scope under a new id in place of the expired row, for 86,400,000 milliseconds, and otherwise changes nothing and reports what the holder means |
| IdempotencyKeys.IdempotencyKeyTable.Remember | apps/api/src/common/interceptors/idempotency.interceptor.ts:202-217 | stores the status and the body, null for an undefined one, on that row if it is still there, and changes nothing else |
| IdempotencyKeys.IdempotencyKeyTable.Release | apps/api/src/common/interceptors/idempotency.interceptor.ts:220-226 | takes out that row and no other |
| IdempotencyProtocol.StepIsSound | apps/api/src/common/interceptors/idempotency.interceptor.ts:111-226 | every step of every request, a purge, a crash or the clock keeps the protocol's invariant |
| IdempotencyProtocol.PurgeIsSound | apps/api/src/jobs/maintenance.processor.ts:132-132 | the periodic purge takes out exactly the rows that have expired and keeps the invariant |
| IdempotencyProtocol.ExecutionsAreAnExpiryApart | apps/api/src/common/interceptors/idempotency.interceptor.ts:25-60 | in every run, of two claims of one scope the earlier failed or had expired, a day after its request arrived, when the later was made |
| IdempotencyProtocol.NoParallelRuns | apps/api/src/common/interceptors/idempotency.interceptor.ts:46-52 | in every run, two handlers under one scope run at once only after one of the two keys' day is over |
| IdempotencyProtocol.ReplayIsFaithful | apps/api/src/common/interceptors/idempotency.interceptor.ts:113-120 | in every run, a replay has the status of a completed execution in the same scope of the same body up to member order, and its body, or null if that was undefined |
| IdempotencyProtocol.CallersAreToldTheSame | apps/api/src/common/interceptors/idempotency.interceptor.ts:113-138 | in every run, the caller whose handler ran and those answered by a replay of it get the same status and body |
| IdempotencyProtocol.RetryIsReplayed | apps/api/src/common/interceptors/idempotency.interceptor.ts:187-217 | once a response is remembered, a retry of the same body, member order aside, is answered with it while the key lives, and no handler runs |
| IdempotencyProtocol.OtherBodyConflicts | apps/api/src/common/interceptors/idempotency.interceptor.ts:185-185 | a retry of the key with a body that is another value is refused as a conflict while the key lives, and no handler runs |
| IdempotencyProtocol.LateWriteTouchesOwnRow | apps/api/src/common/interceptors/idempotency.interceptor.ts:201-226 | a remember or release, however late, leaves every row but its own claim's as it is |
| IdempotencyProtocol.FailureDoesNotBurnTheKey | apps/api/src/common/interceptors/idempotency.interceptor.ts:54-60 | a release that finds its row leaves the scope free |
| IdempotencyProtocol.LostMemoKeepsTheKeyBusy | apps/api/src/common/interceptors/idempotency.interceptor.ts:187-216 | a success whose memo was lost answers retries "in progress" until expiry and is not run again |
| IdempotencyProtocol.UndisturbedClaim | apps/api/src/common/interceptors/idempotency.interceptor.ts:142-199 | the claim's steps with nothing in between take a free or expired scope and otherwise report conflict, in progress or replay |
| OutboxTable.BackoffSchedule | apps/api/src/infrastructure/outbox/outbox-dispatcher.service.ts:22-31 | one minute, doubling to the cap of an hour reached from the seventh attempt on, never less after more attempts |
| OutboxTable.SelectionExists | apps/api/src/infrastructure/outbox/outbox-dispatcher.service.ts:140-150 | the claiming selection always has a result |
| OutboxTable.SelectionIsUnique | apps/api/src/infrastructure/outbox/outbox-dispatcher.service.ts:140-150 | the claiming selection has only one result |
| OutboxTable.BatchIsUniqueUpToOrder | apps/api/src/infrastructure/outbox/outbox-dispatcher.service.ts:140-158 | two batches the statement may return hold the same rows, in whatever order |
| OutboxTable.ClaimTakesWhatIsDue | apps/api/src/infrastructure/outbox/outbox-dispatcher.service.ts:140-150 | a claim that is not full takes exactly the rows not locked that are pending or failed and whose time has come |
| OutboxTable.ClaimTakesTheLongestDue | apps/api/src/infrastructure/outbox/outbox-dispatcher.service.ts:147-148 | a full one takes those available longest, by id among equals |
| OutboxTable.RecoveredAreDueAtOnce | apps/api/src/infrastructure/outbox/outbox-dispatcher.service.ts:263-268 | recovery makes exactly the processing rows created before the cutoff pending and available at once |
| OutboxTable.PurgeTakesOldProcessed | apps/api/src/jobs/maintenance.processor.ts:133-135 | the purge takes out exactly the rows processed more than ninety days ago |
| OutboxTable.EnqueueKeepsJobs | apps/api/src/infrastructure/outbox/outbox-dispatcher.service.ts:208-213 | adding a job makes its id present in that queue and changes no other presence |
| OutboxTable.EnqueueAppends | apps/api/src/infrastructure/outbox/outbox-dispatcher.service.ts:208-213 | a job goes to the end of its queue unless its id is there already, and no other queue changes |
| OutboxDispatcher.DispatchTouchesOneRow | apps/api/src/infrastructure/outbox/outbox-dispatcher.service.ts:160-243 | one dispatch changes at most its own row: processed when it reports sent, dead from five attempts on or failed and available after the backoff when it reports a failure, and as the last update that took effect left it when an exception escapes |
| OutboxDispatcher.StatusAfterDispatch | apps/api/src/infrastructure/outbox/outbox-dispatcher.service.ts:160-243 | whether the routing table has a queue for the type, and which calls work, throw before taking effect or throw after, decides exactly the status a dispatch leaves the row in |
| OutboxDispatcher.DispatchSendsWhereRouted | apps/api/src/infrastructure/outbox/outbox-dispatcher.service.ts:165-214 | a dispatch adds the event, under its row id and once, to the queue the routing table has for its type, unless the call was refused, and to no other |
| OutboxDispatcher.WorkingDispatchDelivers | apps/api/src/infrastructure/outbox/outbox-dispatcher.service.ts:160-222 | when its calls work the event is in the queue of the routing table, if there is one, and the row is processed |
| OutboxDispatcher.FailedIsRetriedAfterBackoff | apps/api/src/infrastructure/outbox/outbox-dispatcher.service.ts:22-31 | a row failed at its first four attempts is taken by a claim that is not full exactly from one, two, four and eight minutes later on; from the fifth on never |
| OutboxDispatcher.CycleSettlesItsBatch | apps/api/src/infrastructure/outbox/outbox-dispatcher.service.ts:109-132 | a cycle no exception escaped leaves every claimed row processed, failed or dead, and reports exactly the number processed |
| OutboxDispatcher.OutboxDispatcherService.Claim | apps/api/src/infrastructure/outbox/outbox-dispatcher.service.ts:140-158 | exactly the selected rows become processing with one attempt more and no other row changes, also when the statement throws after taking effect; when it works their ids, events and attempts by then are returned, in any order |
| OutboxDispatcher.OutboxDispatcherService.MarkProcessed | apps/api/src/infrastructure/outbox/outbox-dispatcher.service.ts:224-229 | reports success exactly when the update returned and the row is there; only that row becomes processed, also when the update threw after taking effect |
| OutboxDispatcher.OutboxDispatcherService.MarkFailed | apps/api/src/infrastructure/outbox/outbox-dispatcher.service.ts:231-243 | parks or schedules that row by the attempts seen at its claim, whether or not the update returned, unless it was refused or the row is gone |
| OutboxDispatcher.OutboxDispatcherService.Add | apps/api/src/infrastructure/outbox/outbox-dispatcher.service.ts:197-214 | adds the job unless its id is in the queue already or the call threw before taking effect |
| OutboxDispatcher.OutboxDispatcherService.Dispatch | apps/api/src/infrastructure/outbox/outbox-dispatcher.service.ts:160-222 | has the effect and result of `DispatchOne` for every routing and for every way its calls can end, and sends where the routing table says |
| OutboxDispatcher.OutboxDispatcherService.DispatchEach | apps/api/src/infrastructure/outbox/outbox-dispatcher.service.ts:118-130 | the loop has the effect of the batch in turn up to the first escaped exception, and reports nothing then |
| OutboxDispatcher.OutboxDispatcherService.Tick | apps/api/src/infrastructure/outbox/outbox-dispatcher.service.ts:110-132 | does nothing while another cycle runs; otherwise has the effect of `Cycle`, however the claim and the dispatches end, and leaves the flag down |
| OutboxDispatcher.OutboxDispatcherService.RecoverStuck | apps/api/src/infrastructure/outbox/outbox-dispatcher.service.ts:263-274 | makes exactly the processing rows created before the cutoff pending and available at once, and counts them |
| OutboxProtocol.StepIsSound | apps/api/src/infrastructure/outbox/outbox-dispatcher.service.ts:110-274 | every step of every worker, transaction, recovery and purge keeps the invariant, never lowers attempts and takes nothing back, also when calls throw after taking effect |
| OutboxProtocol.CommitIsSound | apps/api/src/infrastructure/outbox/outbox.service.ts:23-67 | the events of a transaction become pending rows together, under ids of their own, with no attempts and available since its start |
| OutboxProtocol.JobsAreCommittedEvents | packages/contracts/src/events.ts:84-100 | in every run, a job is a committed event, unchanged, in the one queue the routing table has for its type |
| OutboxProtocol.EventsAreSentOnce | apps/api/src/infrastructure/outbox/outbox-dispatcher.service.ts:208-213 | in every run, an event is in all queues together at most once |
| OutboxProtocol.StatusTellsTheTruth | apps/api/src/infrastructure/outbox/outbox-dispatcher.service.ts:187-243 | in every run, a processed row whose type has a queue in the routing table has its job there, and a dead row had at least five attempts |
| OutboxProtocol.NoEventIsLost | apps/api/src/infrastructure/outbox/outbox-dispatcher.service.ts:258-262 | in every run, a committed event whose type has a queue in the routing table has its job in that queue or is still an unprocessed row |
| OutboxProtocol.AttemptsNeverDecrease | apps/api/src/infrastructure/outbox/outbox-dispatcher.service.ts:151-152 | attempts seen at any point of a run bound the row's later attempts from below |
| OutboxProtocol.RolledBackIsNeverSent | apps/api/src/infrastructure/outbox/outbox.service.ts:7-14 | an event rolled back at any point of a run has no row and no job at its end |
| OutboxOwnership.ExclusiveUnlessRecovered | apps/api/src/infrastructure/outbox/outbox-dispatcher.service.ts:134-139 | one step keeps every event in one worker's hands exactly unless it is a recovery that takes a held row |
| OutboxOwnership.RunIsExclusive | apps/api/src/infrastructure/outbox/outbox-dispatcher.service.ts:134-139 | in a run whose recoveries never take a given row from a worker, that event is never in two hands |
| OutboxOwnership.ProcessedIsFinalWhileExclusive | apps/api/src/infrastructure/outbox/outbox-dispatcher.service.ts:187-243 | while an event is in one hand, the only step that undoes its processed row is the failed mark of the worker whose own processed mark took effect and threw; any other leaves the row as it is until purged |
| OutboxOwnership.UndoneIffInReach | apps/api/src/infrastructure/outbox/outbox-dispatcher.service.ts:187-243 | from any reachable state, some way to go on turns a processed row into a failed one exactly when a worker has it in hand, for a queue, with no row before it in the batch gone |
| OutboxOwnership.ProcessedMayFailIffMarkThrew | apps/api/src/infrastructure/outbox/outbox-dispatcher.service.ts:216-221 | in a run whose recoveries have not taken the row, that is exactly when its holder's own processed mark took effect and threw |
| OutboxOwnership.ProcessedIsFinal | apps/api/src/infrastructure/outbox/outbox-dispatcher.service.ts:224-274 | in a run with no such recovery and no such mark of the row, a processed row stays as it is until purged |
| OutboxOwnership.StaleWorkerUndoesProcessed | apps/api/src/infrastructure/outbox/outbox-dispatcher.service.ts:263-268 | a run in which recovery takes a held row and the first worker then turns the processed row into a failed one |
| OutboxOwnership.ThrownMarkUndoesProcessed | apps/api/src/infrastructure/outbox/outbox-dispatcher.service.ts:216-221 | a run without any recovery in which a processed mark takes effect and throws, and the same worker fails the row |
| OutboxRefinement.DispatchIsARunOfMoves | apps/api/src/infrastructure/outbox/outbox-dispatcher.service.ts:160-222 | every dispatch of the class is a run of the protocol's moves, whichever of its calls throws, before or after taking effect |
| OutboxRefinement.CycleIsARun | apps/api/src/infrastructure/outbox/outbox-dispatcher.service.ts:110-158 | a whole poll cycle, claim included and however it ends, is a run of one worker's moves with the clock advancing between them |
| OutboxRefinement.RecoveryIsAStep | apps/api/src/infrastructure/outbox/outbox-dispatcher.service.ts:263-274 | a recovery call is the protocol's recovery step at its reading of the clock |
| Keyset.AfterLastTaken | apps/api/src/modules/backup/backup-entities.ts:47-48 | moving the cursor to the last row taken leaves exactly the rows not taken |
| Keyset.PageThenRest | apps/api/src/modules/backup/backup-entities.ts:33-49 | a page followed by a complete walk from its last key is a complete walk, though the table changed in between |
| Keyset.KeysOccurOnce | apps/api/src/common/utils/pagination.util.ts:77-78 | in a walk no row occurs twice |
| Pagination.NewerIsStrictOrder | apps/api/src/common/utils/pagination.util.ts:77-78 | newest first with ids descending is a strict total order |
| Pagination.SelectedIsPast | apps/api/src/common/utils/pagination.util.ts:37-42 | the where-fragment selects exactly the rows after the cursor in that order |
| Pagination.FetchIsPage | apps/api/src/common/utils/pagination.util.ts:51-73 | the response is the first `limit` rows after the cursor, and `next` is null exactly when nothing is left |
| Pagination.FollowIsComplete | apps/api/src/common/utils/pagination.util.ts:25-73 | following `next` while rows come and go ends, and returns in order only rows that were there and every row present throughout, none twice |
| Pagination.FollowReturnsWholeList | apps/api/src/common/utils/pagination.util.ts:25-73 | over an unchanged list it returns the whole list in order for any limit and any ties, from a missing or malformed cursor |
| Pagination.SortedWalkIsWholeIffInBlocks | apps/api/src/modules/catalog/products.service.ts:137-143 | whatever an unchanged list is sorted by, following `next` ends and returns every row once exactly when each page's last row is older than the rest of the page and newer than all that follows |
| Pagination.WholeAtEveryLimitIffNewestFirst | apps/api/src/common/utils/pagination.util.ts:37-111 | at every page size it does so exactly when the list is sorted newest first, with ids descending |
| Pagination.SortByNameSkipsRows | apps/api/src/modules/catalog/products.service.ts:39-39 | two products sorted by name, the older first: with one row a page the newer is never returned |
| Backup.ExportIsComplete | apps/api/src/modules/backup/backup.service.ts:139-157 | the exported ids strictly increase, each row was really there, and every row present throughout the run is exported |
| Backup.ExportOfUnchangedTable | apps/api/src/modules/backup/backup.service.ts:139-157 | an unchanged table is exported as it is, whatever the batch size |
| Backup.BackupService.ExportPages | apps/api/src/modules/backup/backup.service.ts:130-157 | the loop ends, and leaves in the staging sheet the header and the complete export |
| Backup.BackupService.ExportAndSwap | apps/api/src/modules/backup/backup.service.ts:133-191 | whatever call fails or is the last before the process dies, having taken no effect, half or all of it, the published sheet is the old one or a complete export, and no other sheet changes |
| Backup.BackupService.RunEntity | apps/api/src/modules/backup/backup.service.ts:89-224 | as before, over the whole run with failure handling; success means a complete export was published, staging is gone and the job says so; when every call works it succeeds exactly if there is something to publish and otherwise reports the failure |
| Backup.BackupService.RunAll | apps/api/src/modules/backup/backup.service.ts:53-81 | every entity's sheet is old or complete; a status is reported exactly when every entity reported: success for all done, failed for all failed, partial for some of each |
| Csv.FromCsvLine | apps/api/src/infrastructure/sheets/local-file-sheets.adapter.ts:16-46 | the character loop computes `FromLine` |
| Csv.CsvRoundTrip | apps/api/src/infrastructure/sheets/local-file-sheets.adapter.ts:6-46 | a printed row reads back as itself exactly when it has a cell |
| Csv.CsvIsInjective | apps/api/src/infrastructure/sheets/local-file-sheets.adapter.ts:6-14 | different non-empty rows print differently |
| Csv.ReadBackDropsEmptyLines | apps/api/src/infrastructure/sheets/local-file-sheets.adapter.ts:145-155 | without line feeds in cells, exactly the rows that print as an empty line are lost |
| Csv.FileRoundTrip | apps/api/src/infrastructure/sheets/local-file-sheets.adapter.ts:95-155 | a file reads back as the rows written to it exactly when no cell holds a line feed and no line is empty |
| Csv.QuotedExactlyWhenNeeded | apps/api/src/infrastructure/sheets/local-file-sheets.adapter.ts:6-14 | a cell is quoted exactly when it holds a quote, a comma or a line break |
| Csv.PlainRowPrintsPlainly | apps/api/src/infrastructure/sheets/local-file-sheets.adapter.ts:6-14 | cells without any are printed as they are, with commas between |
| LocalFileSheets.StagingKeyDiffers | apps/api/src/infrastructure/sheets/local-file-sheets.adapter.ts:75-81 | a staging sheet never shares its target's file |
| LocalFileSheets.SharedFileIffSameSanitised | apps/api/src/infrastructure/sheets/local-file-sheets.adapter.ts:75-81 | two sheets share a file exactly when spreadsheet ids and titles differ at most in characters replaced by an underscore |
| LocalFileSheets.AppendConcatenates | apps/api/src/infrastructure/sheets/local-file-sheets.adapter.ts:95-113 | an append extends the file's rows by the batch |
| LocalFileSheets.LocalFileSheetsAdapter.EnsureSheet | apps/api/src/infrastructure/sheets/local-file-sheets.adapter.ts:83-93 | adds an empty sheet if there was none |
| LocalFileSheets.LocalFileSheetsAdapter.AppendRows | apps/api/src/infrastructure/sheets/local-file-sheets.adapter.ts:95-113 | the sheet's rows are extended by the batch and no other sheet changes |
| LocalFileSheets.LocalFileSheetsAdapter.SwapSheet | apps/api/src/infrastructure/sheets/local-file-sheets.adapter.ts:115-143 | the target takes the staging sheet's rows and the staging sheet is gone |
| LocalFileSheets.LocalFileSheetsAdapter.ReadRows | apps/api/src/infrastructure/sheets/local-file-sheets.adapter.ts:145-155 | returns exactly the rows the sheet was given when, and only when, all of them are clean |
| LocalFileSheets.LocalFileSheetsAdapter.DeleteSheet | apps/api/src/infrastructure/sheets/local-file-sheets.adapter.ts:157-161 | takes out that sheet and no other |
| LocalFileSheets.AppendedBatchesReadBack | apps/api/src/infrastructure/sheets/local-file-sheets.adapter.ts:95-155 | any series of appends reads back as the concatenation of the batches exactly when every row is clean |
| Restore.IndexRows | apps/api/src/modules/backup/restore.service.ts:101-105 | rows with an id by id, in first-seen order, a repeated id keeping its last row |
| Restore.IndexKeepsLastRows | apps/api/src/modules/backup/restore.service.ts:101-105 | the index holds exactly the ids that are not empty, each with the last of its rows |
| Restore.IndexInFirstSeenOrder | apps/api/src/modules/backup/restore.service.ts:101-105 | ids stand in the order they were first seen |
| Restore.ReadDatabase | apps/api/src/modules/backup/restore.service.ts:107-118 | the paging loop ends and indexes exactly the exported rows |
| Restore.FindDifference | apps/api/src/modules/backup/restore.service.ts:130-140 | the first header column on which two rows differ, or none |
| Restore.Compare | apps/api/src/modules/backup/restore.service.ts:120-141 | the loop collects exactly the missing ids, the number of differing ones and the first twenty samples |
| Restore.DryRun | apps/api/src/modules/backup/restore.service.ts:89-157 | refuses an empty sheet or one whose header does not start with `id`, and otherwise reports `DiffOf` both sides |
| Restore.DiffPartitionsBothSides | apps/api/src/modules/backup/restore.service.ts:124-157 | sheet rows are missing, differing or identical, and database rows are only there, differing or identical, with nothing counted twice |
| Restore.CleanDiffIffAgreement | apps/api/src/modules/backup/restore.service.ts:120-157 | the three counts are zero exactly when both sides have the same ids and agree on every header column |
| Restore.CountsAreExact | apps/api/src/modules/backup/restore.service.ts:142-157 | the five numbers count the rows of each side and those missing, only there and differing, and up to twenty missing and only-there ids are named |
| Restore.SampleShowsBothSides | apps/api/src/modules/backup/restore.service.ts:130-140 | each of up to twenty samples names a differing row and its first differing header column, with the sheet's value as the sheet's and the table's as the table's |
| RestoreAfterBackup.DryRunAfterExportIsClean | apps/api/src/modules/backup/restore.service.ts:88-157 | over an unchanged table, a published export read back from its file diffs clean exactly when no cell holds a line feed, whatever the two batch sizes |
| RestoreAfterBackup.LineFeedInNameDiffers | packages/contracts/src/auth/auth.schema.ts:143-143 | an exported user whose first name has a line feed inside, which the schema admits, is reported as a difference |
| Money.Allocate | packages/contracts/src/primitives/money.ts:140-159 | refuses fewer than one part, and otherwise the loop computes `Allocated` of the nearest amount at the scale, a tie going away from zero |
| Money.AllocateByWeights | packages/contracts/src/primitives/money.ts:162-182 | the loop computes `AllocatedByWeights` of the nearest amount at the scale for any weights; without weights it fails |
| Money.Distribute | packages/contracts/src/primitives/money.ts:148-158 | the in-place loop adds one unit to each leading share until the total is met, and does nothing when there is nothing left |
| Money.AllocateSum | packages/contracts/src/primitives/money.ts:132-159 | the parts add up to the amount exactly unless it is negative and does not divide, and then exceed it by that remainder |
| Money.AllocateIsFair | packages/contracts/src/primitives/money.ts:132-159 | parts never increase and differ by at most one unit, for any amount |
| Money.ByWeightsIsExact | packages/contracts/src/primitives/money.ts:161-182 | with non-negative weights the total is met exactly unless it is negative and some share does not divide |
| Money.ByWeightsIsProportional | packages/contracts/src/primitives/money.ts:161-182 | every share is its proportional share truncated toward zero or one unit more, for any weights |
| Money.ZeroWeightsShareEqually | packages/contracts/src/primitives/money.ts:164-165 | weights that add up to zero give equal shares, within one unit, exact as those of `allocate` |
| Money.ByWeightsSum | packages/contracts/src/primitives/money.ts:161-182 | for any weights, the shares add up to the total or to what truncation alone gave, whichever is more |
| Money.WeightedShortfall | packages/contracts/src/primitives/money.ts:167-177 | truncation misses the total by less than one unit a share, whatever the signs of the weights |
| Money.RoundingIsNearest | packages/contracts/src/primitives/money.ts:186-188 | at every scale, the rounded amount is the one nearest number of units, a tie going away from zero, and so the amount itself when it has no more places |
| Money.RoundOffRestoresAmount | packages/contracts/src/primitives/money.ts:190-197 | the amount is the nearest whole one; less the recorded adjustment it is the original, and the adjustment is at most half |
| Spacing.NormalisedKeepsWords | packages/contracts/src/primitives/indian-number.ts:143-143 | collapsing and trimming white space changes no word |
| NumberWords.WholeIsHeard | packages/contracts/src/primitives/indian-number.ts:122-137 | below twenty lakh crore the words of the whole part, heard in the Indian scale, say the number |
| NumberWords.HugeWholeIsNotHeard | packages/contracts/src/primitives/indian-number.ts:64-71 | from there on they say no number |
| IndianWords.WriteThreeDigits | packages/contracts/src/primitives/indian-number.ts:63-71 | the pushes build `ThreeDigits` |
| IndianWords.WriteUnder100000 | packages/contracts/src/primitives/indian-number.ts:146-154 | the pushes build `ToWordsUnder100000` |
| IndianWords.WriteAmountInWords | packages/contracts/src/primitives/indian-number.ts:108-144 | the pushes and reassignments build `AmountInWords` |
| IndianWords.WholeSays | packages/contracts/src/primitives/indian-number.ts:55-137 | the text printed for the whole part is, word for word, what the reader hears |
| IndianWords.AmountReadsBack | packages/contracts/src/primitives/indian-number.ts:100-144 | for any currency name, reading the line gives the sign and the nearest number of paise exactly when that is below twenty lakh crore rupees, and nothing from there on; an amount of whole paise comes back as it is |
| IndianWords.SameWordsIffSameAmount | packages/contracts/src/primitives/indian-number.ts:100-144 | below that bound two amounts print alike exactly when they have the same sign and one number of paise is nearest to both |
| IndianWords.NoNumberReadsAsZero | packages/contracts/src/primitives/indian-number.ts:108-110 | text that is no number is written as nothing owed |
| IndianWords.HugeAmountsPrintAlike | packages/contracts/src/primitives/indian-number.ts:64-71 | twenty and twenty-one lakh crore print the same words |
| IndianDigits.GroupsAreIndian | packages/contracts/src/primitives/indian-number.ts:89-94 | for any number of digits: one group of up to three, or a leading group of one or two, pairs, and three, and no digit is lost |
| IndianDigits.FormattedShape | packages/contracts/src/primitives/indian-number.ts:81-98 | the text is the sign, the grouped whole part and exactly the places asked for |
| IndianDigits.FormattedReadsBack | packages/contracts/src/primitives/indian-number.ts:73-98 | removing the commas gives back the sign and the nearest number of the places asked for, and the amount itself when it has no more places |
| IndianDigits.SameDigitsIffSameAmount | packages/contracts/src/primitives/indian-number.ts:73-98 | two amounts print alike exactly when they have the same sign and one number is nearest to both |
| IndianDigits.NoNumberPrintsAsZero | packages/contracts/src/primitives/indian-number.ts:81-83 | text that is no number prints as zero does with two places, whatever was asked for |
| Gstin.IsValidChecksum | packages/contracts/src/primitives/india.ts:82-103 | the loop accepts exactly the numbers of 15 alphabet characters whose weighted sum plus check digit is 0 modulo 36 |
| Gstin.CodeIsPosition | packages/contracts/src/primitives/india.ts:73-93 | a character's code is its position in the alphabet of digits and capitals, and -1 outside it |
| Gstin.WeightsAlternate | packages/contracts/src/primitives/india.ts:86-98 | the weights alternate and the last data character is doubled: a single 1 among zeros is checked by Y where it is doubled and by Z where it is not |
| Gstin.DoublingPermutes | packages/contracts/src/primitives/india.ts:96-98 | doubling and adding the base-36 digits permutes 0 to 35 |
| Gstin.SubstitutionIsDetected | packages/contracts/src/primitives/india.ts:75-81 | replacing any one character of a valid number is detected |
| Gstin.SwapIsDetectedExceptZeroZ | packages/contracts/src/primitives/india.ts:75-81 | swapping two different neighbours is detected exactly unless they are 0 and Z |
| Gstin.ExactlyOneCheckDigit | packages/contracts/src/primitives/india.ts:101-102 | any 14 alphabet characters have exactly one check digit |
| TokenBucket.TokenBucket.Refill | apps/api/src/infrastructure/sheets/token-bucket.ts:33-42 | adds a 60,000th of the rate for each millisecond elapsed, up to capacity, and never moves the refill time back |
| TokenBucket.TokenBucket.TryTake | apps/api/src/infrastructure/sheets/token-bucket.ts:50-56 | takes exactly when there are enough tokens after accrual |
| TokenBucket.TokenBucket.WaitMs | apps/api/src/infrastructure/sheets/token-bucket.ts:58-69 | reports `Wait`, infinite when the rate is zero |
| TokenBucket.RunStaysWithinCapacity | apps/api/src/infrastructure/sheets/token-bucket.ts:33-42 | after any calls under any clock there are between zero and capacity tokens |
| TokenBucket.GrantedPlusLeft | apps/api/src/infrastructure/sheets/token-bucket.ts:33-56 | what was granted plus what is left never exceeds what was there plus what accrued |
| TokenBucket.RateIsBounded | apps/api/src/infrastructure/sheets/token-bucket.ts:1-8 | takes between two moments of any run never exceed capacity plus the rate a minute of 60,000 milliseconds times elapsed, on the running maximum of the clock |
| TokenBucket.PollIsInvisible | apps/api/src/infrastructure/sheets/token-bucket.ts:44-48 | an extra poll leaves the bucket the next call sees unchanged exactly when its reading is not ahead of that call's |
| TokenBucket.PollIsUnnoticedIff | apps/api/src/infrastructure/sheets/token-bucket.ts:33-69 | no later answer of any call differs for an extra poll exactly when its reading is not ahead of the next call's, or rate or capacity is zero |
| TokenBucket.PollAheadIsVisible | apps/api/src/infrastructure/sheets/token-bucket.ts:44-48 | from a new bucket of one token, a poll ahead of the clock lets a second take through that would have been refused |
| TokenBucket.PollChangesNothing | apps/api/src/infrastructure/sheets/token-bucket.ts:44-48 | a poll not ahead of the next call changes no later outcome of any run |
| TokenBucket.WaitIsLeast | apps/api/src/infrastructure/sheets/token-bucket.ts:58-69 | up to capacity, a take tried that many milliseconds after the reading succeeds exactly from the reported wait on, plus the time by which the reading was behind the last refill |
| TokenBucket.EmptiedBucketRefills | apps/api/src/infrastructure/sheets/token-bucket.ts:33-56 | a new bucket gives out exactly up to its capacity; emptied, it gives out a number of tokens again exactly when the milliseconds times the rate reach 60,000 times that number |
| TokenBucket.EmptiedBucketWaits | apps/api/src/infrastructure/sheets/token-bucket.ts:64-69 | the wait an emptied bucket reports is the least number of milliseconds of which that is true |
| TokenBucket.NoRateNoHope | apps/api/src/infrastructure/sheets/token-bucket.ts:58-69 | with rate zero the wait is infinite exactly when no later take succeeds, and zero otherwise |
| TokenBucket.BeyondCapacityNeverSucceeds | apps/api/src/infrastructure/sheets/token-bucket.ts:50-56 | more than the capacity is never granted |
| TaxRates.RunKeepsTimelines | apps/api/src/modules/catalog/pricing-rules.service.ts:201-208 | after any calls, one at a time, each code's ranges are disjoint and gapless with one open end, the last |
| TaxRates.CreateAcceptsLaterStarts | apps/api/src/modules/catalog/pricing-rules.service.ts:212-231 | a rate is added exactly when it starts after every rate of its code; an equal start is a duplicate, an earlier one a conflict, and both change nothing |
| TaxRates.MatchingIsUnique | apps/api/src/modules/catalog/pricing-rules.service.ts:186-190 | the date filter finds exactly the last row that has started, and nothing before the first |
| TaxRates.EveryDateResolvesOnce | apps/api/src/modules/catalog/pricing-rules.service.ts:233-236 | from an empty table and after any calls, one at a time, every date from a code's first start on resolves to exactly one row |
| TaxRates.PastIsNeverChanged | apps/api/src/modules/catalog/pricing-rules.service.ts:201-208 | a new rate decides every date from its start on for its code and changes no earlier date and no other code |
| TaxRateInterleaving.TaxRateTable.CreateTaxRate | apps/api/src/modules/catalog/pricing-rules.service.ts:209-255 | whatever other calls write between its reads and its transaction, table and outcome are those of `Call` and every code keeps its timeline; what succeeds has done what `Create` does at the transaction and starts after every rate of its code there, a duplicate start at the first read is refused as such, and a conflict means a start no earlier at the second |
| TaxRateInterleaving.WriteIsCreateOrRefused | apps/api/prisma/migrations/20260804095647_0006_catalog_and_pricing/migration.sql:640-642 | a transaction run on any later valid table either does there what a whole call would do or is refused and changes nothing; it is refused exactly when the start is taken or the open row of the code is not the one its call read; no row it closes ends before it starts |
| TaxRateInterleaving.UndisturbedCallIsAtomic | apps/api/src/modules/catalog/pricing-rules.service.ts:209-255 | a call whose two reads and transaction find the same table is the single step of `TaxRates` |
| TaxRateInterleaving.InterleavingKeepsTimelines | apps/api/prisma/migrations/20260804095647_0006_catalog_and_pricing/migration.sql:637-642 | from an empty table, for any interleaving of reads and transactions, at every moment each code has disjoint, gapless ranges with one open end |
| TaxRateInterleaving.InterleavingIsARunOfCalls | apps/api/src/modules/catalog/pricing-rules.service.ts:209-255 | any interleaving leaves the table that whole calls leave, one after the other in the order their transactions went through |
| TaxRateInterleaving.EveryDateResolvesOnceThroughout | apps/api/src/modules/catalog/pricing-rules.service.ts:186-190 | after any interleaving every date from a code's first start on resolves to exactly one row |
| TaxRateInterleaving.PastIsNeverChangedThroughout | apps/api/src/modules/catalog/pricing-rules.service.ts:201-208 | in any interleaving a step changes what a date resolves to only as a transaction that goes through, for its code and from its start on |
| TaxRateInterleaving.LaterOverlappingCallIsRefused | apps/api/prisma/migrations/20260804095647_0006_catalog_and_pricing/migration.sql:637-642 | of two calls for one code that both read first, the earlier transaction does what the call alone would and the later is refused |
| Calendar.DayNumbersCountDays | packages/contracts/src/finance/ledger.schema.ts:147-150 | day numbers count calendar days from 1 January 1970, leap years included |
| Calendar.CalendarOrderIsDayOrder | packages/contracts/src/finance/ledger.schema.ts:147-150 | an earlier date has a smaller day number and the other way round |
| Calendar.TextOrderIsDayOrder | packages/contracts/src/enums.ts:413-414 | comparing YYYY-MM-DD texts is comparing day numbers |
| Calendar.IsoTextShape | packages/contracts/src/enums.ts:412-415 | four digits of the year, two of the month and two of the day, with dashes between |
| Aging.OverdueAgreesWithAging | packages/contracts/src/enums.ts:384-415 | overdue by text, days past due and bucket agree on every invoice that can owe money |
| Aging.BucketLimits | packages/contracts/src/enums.ts:563-570 | none, 1 to 30, 31 to 60, 61 to 90 and more than 90 days past due fall each in its own bucket, and no due date in the first |
| Aging.BucketNeverMovesBack | packages/contracts/src/enums.ts:563-570 | the bucket never moves back as the as-of date advances |
| Aging.DueTomorrow | packages/contracts/src/finance/ledger.schema.ts:132-151 | an invoice is not overdue on its due date and one day past due on the next |

## Left out

- OutboxDispatcher.OutboxDispatcherService.Claim: the SQL selection is given by what it returns, the first rows in order that are not locked, rather than by a loop; that there is always exactly one such selection is proved.
- CategoryTree.BuildCategoryTree: inputs on which its recursion has no end are excluded; exactly which these are is proved. Row fields other than id, parent, name and sort order play no part.
- Backup.BackupService.RunEntity: the contents of the job row other than its status are not modelled; row ids are not empty, so the loop ends only at an empty page. Retried appends of the Google adapter are not part of this model.
- Backup.BackupService.RunAll: two overlapping runs of one entity, which share a staging sheet, are not modelled. Staging titles do not clash with other entities' names, as in the fixed catalogue.
- Restore.DryRun: the job row it writes and the sheet port's own failures are left out.
- IdempotencyKeys.HashBody: SHA-256 is taken as injective; the hash itself is not modelled.
- Money.AllocateByWeights: weights are whole numbers at a common scale; the 34-digit precision limit is not modelled.
- TokenBucket.TokenBucket.TryTake: tokens are exact; floating-point rounding is not modelled.
- IndianWords.AmountInWords: whole parts are exact, also beyond the range of exact doubles, where the words are unreadable either way.
- CategoryInterleaving.CategoriesService.MoveCategory: a transaction is one step; other calls come between the reads and before it, not inside it.
- TaxRateInterleaving.TaxRateTable.CreateTaxRate: a transaction is one step there too.
- Category names, images and activity flags, the update and list calls, and the audit trail: no effect on paths.
- The key header checks, unauthenticated routes and response headers of the interceptor: finite checks without state.
- The contents of the routing table, the job data's envelope and logging in the dispatcher: every result holds for any table.
- `emit` and `emitMany` appear as the protocol's steps `Emit` and `Commit` and not as methods of a class of their own.
- Queue retention limits: a queue is assumed to remember job ids.
- Cursor encoding as base64url JSON: a cursor decodes or it does not.
- The parsing in `parseSort`, the row mappers and the masking rule of the export: declarative; the lists are proved about for whatever order `parseSort` gives.
- Schemas, permissions, pricing, stock, invoicing, payments and the web application: not part of this model.
