# Stock posting engine: model and proofs

This project models the part of the inventory system that moves stock, and proves what it keeps.

- Stock adjustments and stock counts go from draft through submission and approval to posted, and a
  posted document can be undone by a linked reversal, which can itself be reversed.
- Posting and reversing run inside an idempotency wrapper, inside a transaction that is retried up to
  three times, also when the result of a commit is unknown.
- A posting writes balances and an append-only ledger through the ledger service.
- Around this core: stock reservations, the Redis lock of the worker, the barcode index of the product service,
  page-number pagination, decimal numbers as text and as stored, and decimal sums that keep twenty significant digits.

## How it is built

| files | contents |
|---|---|
| `Ledger`, `Documents`, `Posting` | the stored state as values, and each operation as a function: `Handle` says what a request does to the state, `PlanOf` what a posting or reversal decides to write |
| `Promises`, `Answers` | what each operation promises, written in terms of the stored state alone: the exact condition of acceptance, the error of every refusal, and everything an accepted request changes |
| `Session`, `LedgerService`, `Idempotency`, `DocumentWorkflow`, `AdjustmentService`, `CountService`, `Transactions` | the services as classes and methods with loops and assignments, as in the source, each proved to do what `Handle` (for transactions: `Transact`) says |
| `Invariants` | the invariant of all reachable states, and that every request keeps it |
| `Balances`, `Reversals`, `Provenance`, `ExactlyOnce`, `Organizations` | results about every reachable state and every run of requests |
| `RetryLoop` | the bounded retry loop with lost acknowledgements, and a client that resends |
| `SnapshotIsolation` | transactions that read snapshots and commit later, in every interleaving |
| `Reservations` | reserving and releasing stock, and what posting does to available stock |
| `DistributedLock`, `ProductBarcodes`, `Pagination` | the three smaller protocols |
| `DecimalText`, `DecimalStorage`, `DecimalSums`, `CountMapper` | decimal numbers as text, as the database stores and returns them, rounding to significant digits, and the variance line count |

A result that requires `Inv(p, db)` holds in every reachable state: `Invariants.EmptyInv` and
`Invariants.RunKeepsInv` show that every run from the empty store satisfies it, and
`SnapshotIsolation.EveryInterleavingIsSerial` shows the same for every interleaving of transactions.

## Assumptions

- A quantity is an integer number of units of 10^-P, for a P large enough for the run. The material flag is
  computed as the decimal library does it, rounding to its precision after every addition; the precision is part
  of the policy, and twenty digits is the library's default, which the repository does not change. Other additions are
  exact; `DecimalSums` shows exactly when that rounding makes no difference. The database adds balances itself,
  with 34 digits.
- SHA-256 is injective on the payloads used, so the table stores the payload in place of its hash.
- Each driver attempt ends in an abort, which has no effect, in an acknowledged commit, or in a commit
  whose result the caller does not learn. An attempt is one pass of the wrapper's loop. Bodies the driver repeats
  within a pass abort without effect, and what other clients commit meanwhile belongs to what precedes the attempt.
- A transaction reads the snapshot taken when it began. It commits only if the documents and balance rows it
  writes still have the values it read and its idempotency key is still absent. The database refuses more
  commits than that.
- Update, submit, approve and reject are read-check-save without a transaction in the source; each is one
  atomic step here, and nothing is claimed about interleavings inside them. Opening a count is different:
  its balances are read line by line, with requests of other clients before each read and before the save.
- Documents of both kinds share one list, and a document's identifier is its position. Sequence numbers are
  not modelled. Line numbers are positions counted from one.
- `OtherMovements` stands for everything other modules post through the ledger service, opening stock included.
- Limits the request schemas impose (number of lines, no zero delta, no negative count) are checked here
  together with the service's own checks; where both fail, the kind of error may differ.
- The field `readAt` of a count line is auxiliary. It records the length of the ledger when the line was read,
  and no operation depends on it.
- A stored decimal's text follows the General Decimal Arithmetic specification, which the database's decimal type
  prescribes: a plain text unless the exponent is positive or the first digit stands below 10^-6.
- Lock tokens are never drawn twice, and the store's clock is the clients' clock.

## Where the code and its documentation differ

- The documentation (SYSTEM_DOCUMENTATION.md:471) blocks negative available stock, which it defines as stock on
  hand less reserved stock (line 741). The ledger service's guard compares with the stock on hand alone
  (LedgerService.ts:127-138). `Reservations.NegativeAvailableOccurs` is a run that ends below zero;
  `Reservations.AvailableAfterPosting` says exactly when an accepted posting leaves a key's available stock at or
  above zero, `Reservations.SafeIffUnreserved` exactly which keys are safe from every posting, and
  `Reservations.AvailableOverRuns` which runs are. `Balances.NeverNegative` is about stock on hand.
- The documentation's life cycle ends in `reversed` (section 9.5). No operation of these services sets that
  status (`Provenance.FewStatusSteps`), so a posted document can be reversed again: `Reversals.ReversalAccepted`
  says exactly when a reversal is accepted, and `Reversals.BalanceWithReversals` what repetition does to balances.
- The stamped `resultingQuantity` is the balance after posting only if the document's other lines put nothing
  on the same key; `Balances.StampedQuantities` gives the exact difference.
- Archived products are meant not to be modified. The check is made before the transaction and not again
  inside it (ProductService.ts:216-236), so an update can still change a product archived in between.
  `ProductBarcodes.ArchivedSafeIff` and `ArchivedSafeInRuns` say exactly when an archived product is safe, and
  `ProductBarcodes.StaleUpdateOfArchived` is a run that changes one.
- A text the API accepts need not come back as one it accepts: small numbers, and zeros with seven or more places,
  are read back with an exponent. `DecimalStorage.AcceptedReadsBackIff` gives the exact condition, and
  `DecimalStorage.UnchangedIff` exactly which texts come back as they were.
- The material flag sums decimals that keep twenty digits. It is right for every acceptable request exactly when
  the threshold is at most 10^20 units (`DecimalSums.FlagRightIff`, for any precision); then it is right in every reachable state
  (`Provenance.MaterialFlag`).
- A lock protects only for its time to live (distributedLock.ts:4-9). `DistributedLock.JoinedExactlyAfterDeadline`
  says exactly when a call at work can be joined by another.

## Model

| member | source | states |
|---|---|---|
| Ledger.ApplyAllMeaning | apps/api/src/modules/inventory/application/LedgerService.ts:55-139 | A batch is accepted if and only if every key can afford its own movements taken alone; an accepted batch moves each key by its net quantity and creates or writes no other row |
| Ledger.OrderBetweenKeysIrrelevant | apps/api/src/modules/inventory/application/LedgerService.ts:36-61 | Reordering movements between different keys changes neither acceptance nor any balance, so the order chosen for the batch is only a locking matter |
| Ledger.SortingIsHarmless | apps/api/src/modules/inventory/application/LedgerService.ts:59-61 | The sorted batch has the same acceptance, balances, net quantities and touched keys as the batch given |
| Ledger.ZeroMovementsIrrelevant | apps/api/src/modules/inventory/application/LedgerService.ts:64-65 | Skipping zero movements gives the result of the batch without them |
| Ledger.FirstDifferenceDecides | apps/api/src/modules/inventory/application/LedgerService.ts:36-44 | Movements are ordered by warehouse, then location, product and lot, a missing lot first |
| Ledger.ConsistentOrder | apps/api/src/modules/inventory/application/LedgerService.ts:46-61 | Two batches that touch the same two balance rows of an organization reach them in the same order |
| Ledger.PostedRowsAre | apps/api/src/modules/inventory/application/LedgerService.ts:63-95 | The rows a batch appends are those of its non-zero movements, one each, in order, with key, quantity and reference |
| Ledger.WrittenDependsOnTouchedOnly | apps/api/src/modules/inventory/application/LedgerService.ts:99-139 | Two balance tables that agree on the touched keys accept a batch alike and get the same rows written |
| Ledger.GuardKeepsNonNegative | apps/api/src/modules/inventory/application/LedgerService.ts:127-138 | Guarded movements never take a key from zero or above to below zero |
| LedgerService.ApplyBalanceDelta | apps/api/src/modules/inventory/application/LedgerService.ts:99-139 | One balance update: additions and unguarded withdrawals always succeed, a guarded withdrawal only if a row covers it |
| LedgerService.PostStockMovements | apps/api/src/modules/inventory/application/LedgerService.ts:55-97 | The loop posts all or reports failure; on success the balances are those of the whole batch and one ledger row per non-zero movement is appended in key order |
| Documents.TransitionsDescend | apps/api/src/modules/adjustments/domain/stockAdjustmentStatus.ts:5-28 | The allowed transitions are the five of the table; every one strictly lowers the rank, and exactly the statuses of rank zero are final; the count table is the same one |
| Documents.SkippingZeroVariances | apps/api/src/modules/counts/application/CountService.ts:388-412 | Posting a count without its zero variances is accepted alike and gives the same balances and the same ledger rows as posting every line |
| Documents.NetWithinMagnitude | apps/api/src/modules/adjustments/application/AdjustmentService.ts:128-134 | No key's net change exceeds the sum of absolute deltas the flag is computed from |
| Documents.OppositeLines | apps/api/src/modules/adjustments/application/AdjustmentService.ts:492-526 | Lines with opposite quantities at the same keys have the same magnitude, so the copied flag is right, and opposite nets on every key |
| Posting.EveryDocStep | apps/api/src/modules/adjustments/application/AdjustmentService.ts:205-582 | For both kinds of document, the complete list of ways a request can change an existing document, with the status it must have, the actor recorded and the version it gets; a posted document only ever gets a new `reversedBy` |
| Posting.EnterCountsMeaning | apps/api/src/modules/counts/application/CountService.ts:217-228 | Count entries are accepted if and only if each names a line and counts at least zero; then each line has its last entry's quantity and nothing else has changed |
| Promises.CreateAdjustmentAnswer | apps/api/src/modules/adjustments/application/AdjustmentService.ts:66-203 | Accepted if and only if the warehouse, every product, every location of that warehouse and every lot are there, no delta is zero and there are one to two hundred lines; then exactly one fresh draft is added with the lines asked for; otherwise a validation error |
| Promises.UpdateAdjustmentAnswer | apps/api/src/modules/adjustments/application/AdjustmentService.ts:205-256 | Which error each refused edit gets, and that an accepted one changes lines, flag and version of that one draft alone, to what was asked for |
| Promises.OpenCountAnswer | apps/api/src/modules/counts/application/CountService.ts:54-111 | Accepted if and only if the warehouse, every product, every location of that warehouse and every lot are there and there are one to five hundred selectors |
| Promises.SnapshotLineAnswer | apps/api/src/modules/counts/application/CountService.ts:113-136 | The next line is the next selector with the available stock on it in the state that reads it, not counted yet |
| Promises.SaveCountAnswer | apps/api/src/modules/counts/application/CountService.ts:161-185 | Exactly one fresh draft count is added, by the client and for the warehouse it was opened with, with the lines that were read |
| Promises.UpdateCountAnswer | apps/api/src/modules/counts/application/CountService.ts:201-250 | Which error each refused entry of counts gets; an accepted one gives every line its last entry and changes nothing else but the version |
| Promises.SubmitAnswer | apps/api/src/modules/counts/application/CountService.ts:252-294 | For both kinds: which error each refused submission gets, a count with an uncounted line included; an accepted one fixes a count's variances as counted less system and leaves an adjustment's lines |
| Promises.ApproveAnswer | apps/api/src/modules/adjustments/application/AdjustmentService.ts:289-324 | For both kinds: not found, forbidden by the policy for the kind, wrong status, or approved by the actor with nothing else changed |
| Promises.RejectAnswer | apps/api/src/modules/adjustments/application/AdjustmentService.ts:326-358 | For both kinds: not found, wrong status, or rejected by the actor with nothing else changed |
| Answers.PostAnswer | apps/api/src/modules/adjustments/application/AdjustmentService.ts:360-460 | For both kinds: the whole answer to a post in every state. Missing key, reused key, replay, not found, wrong status, insufficient stock if and only if some key cannot afford the movements, or posted: status, stamped lines, balances, ledger rows and table entry, and nothing else |
| Answers.ReverseAnswer | apps/api/src/modules/counts/application/CountService.ts:455-586 | The same for a reversal: the new document with every field, its negated and stamped lines, the original's `reversedBy`, balances, ledger rows and table entry, and nothing else |
| Answers.OtherMovementsAnswer | apps/api/src/modules/inventory/application/LedgerService.ts:55-97 | Other modules' movements are accepted if and only if every key can afford them; they move each balance by their net and add non-zero rows that name no document |
| Sessions.PostOutcome | apps/api/src/modules/adjustments/application/AdjustmentService.ts:374-434 | What a post under a new key does to the state, field by field, and the exact condition of each refusal |
| Sessions.ReverseOutcome | apps/api/src/modules/adjustments/application/AdjustmentService.ts:477-582 | The same for a reversal: a new posted document linked to the original, the negated movements, the entry naming the new document |
| Idempotency.Look | apps/api/src/shared/infrastructure/idempotency.ts:61-73 | All four outcomes before the body, each if and only if its condition holds: key missing, key used for another payload, recorded result, or key unknown |
| Idempotency.Record | apps/api/src/shared/infrastructure/idempotency.ts:75-88 | After recording, the same request is answered with the reference, the key is refused to every other payload, every other key is answered as before, and the table has grown by exactly this entry |
| AdjustmentService.CreateStockAdjustment | apps/api/src/modules/adjustments/application/AdjustmentService.ts:154-203 | Succeeds if and only if warehouse, products, locations of the warehouse and lots are there, no delta is zero and there are one to two hundred lines; adds exactly one fresh draft with the quantities and places asked for, flagged if and only if material; a refusal is a validation error and changes nothing; the invariant is kept |
| AdjustmentService.UpdateStockAdjustment | apps/api/src/modules/adjustments/application/AdjustmentService.ts:205-256 | Succeeds if and only if the document is a draft adjustment of the organization and the items, if given, are right as for creation; each refusal has its error; only lines, flag and version of that document change, to what was asked for; the invariant is kept |
| AdjustmentService.SubmitStockAdjustment | apps/api/src/modules/adjustments/application/AdjustmentService.ts:258-287 | Succeeds if and only if the document is a draft adjustment of the organization, each refusal with its error; it is then submitted by the actor, one version on, and nothing else has changed; the invariant is kept |
| AdjustmentService.ApproveStockAdjustment | apps/api/src/modules/adjustments/application/AdjustmentService.ts:289-324 | Succeeds if and only if the document is submitted and the policy for adjustments does not bar the actor as its creator, each refusal with its error; it is then approved by the actor, nothing else has changed, and the invariant is kept |
| CountService.ApproveStockCount | apps/api/src/modules/counts/application/CountService.ts:296-328 | The same for a count, under the policy for counts |
| AdjustmentService.RejectStockAdjustment | apps/api/src/modules/adjustments/application/AdjustmentService.ts:326-358 | Succeeds if and only if the document is submitted; it is then rejected by the actor, nothing else has changed, and no later run ever gives it a ledger row |
| CountService.RejectStockCount | apps/api/src/modules/counts/application/CountService.ts:330-362 | The same for a count |
| DocumentWorkflow.RejectedForever | apps/api/src/modules/adjustments/application/AdjustmentService.ts:326-358 | From any state that keeps the invariant, a rejected document stays rejected and without ledger rows over every run |
| AdjustmentService.StampAndCollect | apps/api/src/modules/adjustments/application/AdjustmentService.ts:385-410 | The loop stamps every line with the balance before the batch and that plus its delta, changes nothing else of the document, and collects one movement per line in order |
| AdjustmentService.PostStockAdjustment | apps/api/src/modules/adjustments/application/AdjustmentService.ts:360-460 | Replays, refuses or posts exactly as the specification of a transaction says, the whole state included |
| AdjustmentService.ReverseStockAdjustment | apps/api/src/modules/adjustments/application/AdjustmentService.ts:462-606 | Replays, refuses or reverses exactly as the specification of a transaction says, the whole state included |
| CountService.ReadLine | apps/api/src/modules/counts/application/CountService.ts:113-136 | Appends the next selector's line with the available stock on exactly that selector, in the state after whatever other clients did since the previous line; earlier lines stay |
| CountService.ReadLines | apps/api/src/modules/counts/application/CountService.ts:97-138 | The loop reads one line per selector, in order, each from the state its own query meets |
| CountService.CreateStockCount | apps/api/src/modules/counts/application/CountService.ts:154-199 | Succeeds if and only if warehouse, products, locations of the warehouse and lots are there and there are one to five hundred selectors; adds exactly one fresh draft count whose line n is selector n with the available stock its own read found, not counted yet, with other clients' requests before each read and before the save |
| CountService.WriteEntries | apps/api/src/modules/counts/application/CountService.ts:217-228 | The loop writes the entries in order and refuses them all if one names no line |
| CountService.UpdateStockCount | apps/api/src/modules/counts/application/CountService.ts:201-250 | Succeeds if and only if the document is a draft count of the organization and every entry names a line and counts at least zero, each refusal with its error; every line then has its last entry, nothing else but the version changes, and the invariant is kept |
| CountService.FixVariances | apps/api/src/modules/counts/application/CountService.ts:264-274 | The loop refuses if and only if a line is uncounted; otherwise each variance is counted less system |
| CountService.SubmitStockCount | apps/api/src/modules/counts/application/CountService.ts:252-294 | Succeeds if and only if the document is a draft count of the organization with every line counted, be it as zero, each refusal with its error; each variance is then counted less system, and the invariant is kept |
| CountService.CollectMovements | apps/api/src/modules/counts/application/CountService.ts:387-402 | The loop collects one movement for each line whose variance is present and not zero, in order |
| CountService.PostStockCount | apps/api/src/modules/counts/application/CountService.ts:364-453 | Replays, refuses or posts exactly as the specification of a transaction says, the whole state included |
| CountService.ReverseStockCount | apps/api/src/modules/counts/application/CountService.ts:455-586 | Replays, refuses or reverses exactly as the specification of a transaction says, the whole state included |
| Transactions.AttemptOnce | apps/api/src/shared/infrastructure/mongo.ts:59-73 | One attempt on a session copy: an abort or a refusal leaves the store alone, a commit replaces it, an unknown commit may do either and throws |
| Transactions.WithTransaction | apps/api/src/shared/infrastructure/mongo.ts:50-92 | The retry loop, with its own counter, leaves the store and gives the answer of the call specified, for every endless sequence of other clients' requests and attempt outcomes, and keeps the invariant |
| Invariants.StepKeepsInv | apps/api/src/modules/counts/application/CountService.ts:201-586 | Every request of either service keeps the invariant: workflow fields match the status, count lines match the ledger they were read from, reversals mirror their originals, balances equal ledger sums, each document's rows are in the ledger exactly if it is posted, and table entries name posted documents |
| Invariants.RunKeepsInv | SYSTEM_DOCUMENTATION.md:466-478 | Every state of every run satisfies the invariant, in particular that ledger sums equal balances |
| Invariants.LedgerStep | SYSTEM_DOCUMENTATION.md:467-472 | The ledger only grows, and each request's new rows account for its change of every balance |
| Invariants.DueRowsStep | apps/api/src/modules/adjustments/application/AdjustmentService.ts:412-432 | A request adds rows for a document exactly when it makes that document posted, and then precisely its movements |
| Balances.BalanceAgreement | apps/api/src/modules/adjustments/application/AdjustmentService.ts:383-432 | In every reachable state each balance is what other modules moved onto the key plus the quantities of exactly the posted documents, reversals included |
| Balances.NeverNegative | SYSTEM_DOCUMENTATION.md:471 | Over every run, a key on which no other module bypasses the guard never holds less than zero |
| Balances.StampedQuantities | apps/api/src/modules/adjustments/application/AdjustmentService.ts:385-426 | For posts and reversals, the prior quantity is the balance before; the resulting quantity differs from the balance after by exactly the other lines on the key, and not at all when keys are distinct |
| Balances.CountedStock | apps/api/src/modules/counts/application/CountService.ts:113-132 | After posting a count, a counted key holds the counted quantity plus the net movement since its line was read plus the other lines on the key; the counted quantity is not negative |
| Reversals.LineSigns | apps/api/src/modules/adjustments/application/AdjustmentService.ts:492-526 | Reversal links form a forest over earlier documents, and line by line a document's quantity is its root's, negated once per link; the flag is the root's |
| Reversals.ReversalDocument | apps/api/src/modules/adjustments/application/AdjustmentService.ts:492-577 | An accepted reversal adds one posted document, linked to the original, by the acting user, with every line negated and the flag copied, and changes only `reversedBy` elsewhere |
| Reversals.ReversalTakesBack | apps/api/src/modules/counts/application/CountService.ts:482-557 | An accepted reversal takes off every balance exactly what the reversed document put on it |
| Reversals.PostThenReverse | apps/api/src/modules/adjustments/application/AdjustmentService.ts:462-606 | Whatever happens in between, the reversal undoes the posting on every balance; with nothing in between every balance is restored |
| Reversals.PostedNetStays | SYSTEM_DOCUMENTATION.md:472 | A posted document stays posted and never changes except in `reversedBy`, over every run |
| Reversals.BalanceWithReversals | apps/api/src/modules/adjustments/application/AdjustmentService.ts:484 | A posted document with r direct reversals stands in every balance with (1 - r) times its quantity |
| Reversals.ReversalAccepted | apps/api/src/modules/adjustments/application/AdjustmentService.ts:479-488 | A reversal under a new key is accepted if and only if the document is posted and every key can afford the negated movements; an earlier reversal plays no part |
| Provenance.PostedDocumentsWereApproved | apps/api/src/modules/adjustments/application/AdjustmentService.ts:258-324 | Every posted document that is no reversal was submitted, then approved by an actor the policy allows, then posted, was never rejected, and posts the quantities fixed at submission |
| Provenance.VersionCountsSteps | apps/api/src/modules/adjustments/application/AdjustmentService.ts:240-431 | Over every run the version is the number of accepted updates, submissions, approvals, rejections and postings of the document; replays do not count |
| Provenance.FewStatusSteps | apps/api/src/modules/counts/domain/stockCountStatus.ts:1-25 | However long the run, a document takes at most three status steps and never becomes `reversed` |
| Provenance.RejectedNeverMoves | apps/api/src/modules/adjustments/application/AdjustmentService.ts:326-358 | A rejected document has no ledger rows, then and at every later time |
| Provenance.MaterialFlag | apps/api/src/modules/adjustments/application/AdjustmentService.ts:128-134 | In every reachable state, reversals included, an adjustment carries the flag the rounded fold over its lines gives; for a threshold of at most ten to the digits kept (10^20 units by default) that is exactly whether its absolute quantities truly sum to the threshold, and always so if some key's net change does |
| Reservations.StockBalances.ReserveStock | apps/api/src/modules/inventory/application/LedgerService.ts:149-195 | The loop over the rows, conditional updates included, reserves as specified or is refused |
| Reservations.StockBalances.ReleaseReservedStock | apps/api/src/modules/inventory/application/LedgerService.ts:204-243 | The loop over the reserved rows releases as specified or is refused |
| Reservations.AcceptedExactly | apps/api/src/modules/inventory/application/LedgerService.ts:149-243 | Over all balance rows: accepted if and only if the rows of the product in the warehouse in state available can give the quantity together; then the reserved stock on them moves by exactly the quantity, and nothing on hand and no other row changes |
| Reservations.OlderRowsFirst | apps/api/src/modules/inventory/application/LedgerService.ts:159-191 | Over all balance rows in order of creation: a later row of the product gives something only if every earlier one gave all it could |
| Reservations.AdjustedMeaning | apps/api/src/modules/inventory/application/LedgerService.ts:149-243 | A reservation or release is accepted if and only if the rows can give the quantity together; then the product's reserved total moves by exactly the quantity, no row gives more than it can, and nothing on hand and no other row changes |
| Reservations.OldestFirst | apps/api/src/modules/inventory/application/LedgerService.ts:173-191 | The same of any list of rows the loop goes over |
| Reservations.OnlyTheTotalCounts | apps/api/src/modules/inventory/application/LedgerService.ts:197-203 | A release is accepted if and only if the product has that much reserved in all, whichever rows hold it, and both operations move that total by exactly their quantity |
| Reservations.ReserveThenRelease | apps/api/src/modules/inventory/application/LedgerService.ts:149-243 | Releasing what was reserved always succeeds and restores the product's reserved total |
| Reservations.AvailableAfterPosting | apps/api/src/modules/inventory/application/LedgerService.ts:127-138 | An accepted batch leaves a key's available stock at or above zero if and only if stock on hand and net quantity cover what is reserved |
| Reservations.AvailableAfterDocument | apps/api/src/modules/adjustments/application/AdjustmentService.ts:412-432 | The same for an accepted posting or reversal of a document |
| Reservations.SafeIffUnreserved | apps/api/src/modules/inventory/application/LedgerService.ts:127-138 | A key's available stock is safe from every guarded batch if and only if nothing is reserved on it |
| Reservations.AvailableOverRuns | SYSTEM_DOCUMENTATION.md:471 | Over every run of postings, reservations and releases, reserved stock is never negative, and a key's available stock stays at or above zero throughout if and only if no accepted posting dips below what is reserved on it |
| Reservations.NegativeAvailableOccurs | SYSTEM_DOCUMENTATION.md:471 | A run of guarded postings and one reservation that ends with negative available stock |
| Organizations.OthersChangeNothing | apps/api/src/modules/adjustments/application/AdjustmentService.ts:205-606 | A request on behalf of another organization changes nothing of this one: documents, balances, ledger rows and idempotency entries |
| Organizations.RunsOfOthersChangeNothing | SYSTEM_DOCUMENTATION.md:553 | The same for every run of such requests |
| ExactlyOnce.ExecutedOnce | apps/api/src/shared/infrastructure/idempotency.ts:64-88 | Over every run the body runs once under a key that was absent and is now present, and never otherwise |
| ExactlyOnce.EntriesAreForever | apps/api/src/shared/infrastructure/idempotency.ts:24 | An entry is never changed or removed by any run |
| ExactlyOnce.KnownKeyAnswer | apps/api/src/shared/infrastructure/idempotency.ts:70-73 | A known key is answered with its recorded reference, which is always found, or refused for another payload; neither changes anything |
| ExactlyOnce.SuccessIsRecorded | apps/api/src/shared/infrastructure/idempotency.ts:75-88 | Every accepted post or reversal leaves its key recorded with the reference it answers, a posted document: the one posted, or one linked to the one reversed |
| ExactlyOnce.ResendingIsHarmless | apps/api/src/shared/infrastructure/idempotency.ts:43-49 | After a success, the same request at any later time gets the same reference and changes nothing; the same key with another payload is refused and changes nothing |
| ExactlyOnce.PostedOnce | apps/api/src/modules/adjustments/application/AdjustmentService.ts:376-434 | Under whatever keys, a document's posting body runs at most once in any run, exactly once if it is posted and no reversal, and its rows are in the ledger exactly once if it is posted |
| RetryLoop.CallIsRun | apps/api/src/shared/infrastructure/mongo.ts:54-91 | A call of the retry loop leaves the state of the run of what it and others committed during it |
| RetryLoop.AttemptMeaning | apps/api/src/shared/infrastructure/mongo.ts:59-85 | What each attempt does to the state and answers, by how the driver ends it; it asks for another if and only if it was aborted with a transient or unknown label, or its accepted work was committed without an answer |
| RetryLoop.RetriedExactly | apps/api/src/shared/infrastructure/mongo.ts:19-91 | A call makes a second and a third attempt if and only if all attempts before asked for it, never a fourth, and answers what its last attempt answered |
| RetryLoop.GaveUpEarly | apps/api/src/shared/infrastructure/mongo.ts:73-81 | A call that threw after fewer than three attempts threw an application error, or a driver error with neither label |
| RetryLoop.ThirdAttemptReturns | apps/api/src/shared/infrastructure/mongo.ts:57-72 | Two attempts that ask again, lost acknowledgements for instance, and an acknowledged one: the call returns with the third |
| RetryLoop.AttemptsBounded | apps/api/src/shared/infrastructure/mongo.ts:20-91 | Although outcomes never end, a call makes at least one and at most three attempts; it stops at the first that does not ask for a retry, or at the third, and leaves and answers what that attempt did |
| RetryLoop.LoopFrom | apps/api/src/shared/infrastructure/mongo.ts:54-91 | For every limit and from every attempt on: the counter stops the loop at the limit, every attempt but the last asked for a retry, and the loop leaves and answers what its last attempt did |
| RetryLoop.OnlyFirstBeatsMatter | apps/api/src/shared/infrastructure/mongo.ts:57-75 | For every limit, two sequences of outcomes that agree below it give the same result |
| RetryLoop.ReturnIsRecorded | apps/api/src/shared/infrastructure/mongo.ts:72 | A call that returns has its key recorded with the reference it returns, whatever happened to earlier attempts |
| RetryLoop.ExactlyOnceUnderRetries | apps/api/src/shared/infrastructure/mongo.ts:50-92 | For every number of resends, every sequence of attempt outcomes, lost acknowledgements included, and every activity of other clients, the effect is applied at most once, exactly once if the key ends up recorded, a call that returned has recorded the reference it gave, so all returns agree, and each call made at most three attempts |
| SnapshotIsolation.CommitIsAtomic | apps/api/src/shared/infrastructure/mongo.ts:62-71 | A transaction that commits without conflict on what it writes does to the current state what the request would do as one atomic step, though it decided from an older snapshot |
| SnapshotIsolation.CommitsIffUndisturbed | apps/api/src/shared/infrastructure/mongo.ts:62-71 | A transaction with work to do answers if and only if the document and balance rows it writes and its key are as when it began; otherwise it leaves no trace |
| SnapshotIsolation.AloneIsAtomic | apps/api/src/shared/infrastructure/mongo.ts:62-71 | A transaction that nothing comes between does and answers exactly what the request does as one atomic step, replays and refusals included |
| SnapshotIsolation.AbortedLeavesNoTrace | apps/api/src/shared/infrastructure/mongo.ts:62-71 | An aborted transaction leaves no trace and never answers |
| SnapshotIsolation.EveryInterleavingIsSerial | apps/api/src/shared/infrastructure/mongo.ts:43-71 | Every interleaving of any number of transactions and direct requests leaves the state of the serial run of what it committed, and every answer is the recorded one |
| SnapshotIsolation.NoDoublePosting | apps/api/src/modules/counts/application/CountService.ts:380-427 | Under every interleaving, a document's body is committed at most once whatever the keys, a key's body at most once, the document's rows enter the ledger exactly once if it is posted, and equal keys get equal answers |
| DistributedLock.Server.SetIfAbsent | apps/worker/src/lock/distributedLock.ts:24-30 | Sets the token and succeeds if and only if no live value is stored under the key; a time to live of zero is an error |
| DistributedLock.Server.EvalRelease | apps/worker/src/lock/distributedLock.ts:10-16 | Deletes the key if it holds this token and changes nothing otherwise |
| DistributedLock.WithLock | apps/worker/src/lock/distributedLock.ts:40-53 | The job runs only with the lock; its result or exception is passed on unless the release fails, whose error then replaces it; afterwards the token is gone, or, if a command or its reply was lost, is only under its key with its original expiry |
| DistributedLock.Ownership | apps/worker/src/lock/distributedLock.ts:24-53 | In every reachable state of any number of clients, lost replies and lost releases included, a call within its time to live that has not released is the one whose token is stored |
| DistributedLock.OverlapNeedsOverrun | apps/worker/src/lock/distributedLock.ts:4-9 | Two calls work under one key at once only if the earlier one had outlived its time to live before the later one acquired |
| DistributedLock.NeverTwoAtWork | apps/worker/src/lock/distributedLock.ts:4-9 | If every call finishes within its time to live, no two ever work under the same key at once |
| DistributedLock.OverrunLetsAnotherIn | apps/worker/src/lock/distributedLock.ts:40-53 | The condition is needed: in every run, a call at work past its time to live can be joined by another |
| DistributedLock.JoinedExactlyAfterDeadline | apps/worker/src/lock/distributedLock.ts:24-53 | In every run, a call at work in time can be at work beside a newcomer at some time if and only if its time to live is over by then |
| DistributedLock.OverrunOccurs | apps/worker/src/lock/distributedLock.ts:40-53 | A run in which two calls work under the same key |
| DistributedLock.ReleasedIsFree | apps/worker/src/lock/distributedLock.ts:32-53 | In every run, a call that finishes and releases in time leaves its key to the next caller at once |
| DistributedLock.LostReleaseBlocks | apps/worker/src/lock/distributedLock.ts:32-53 | In every run, a release that is lost ends the call, and its key can be acquired if and only if the time to live is over |
| DistributedLock.LostAcquireBlocks | apps/worker/src/lock/distributedLock.ts:24-30 | In every run, a set whose reply is lost blocks its key for exactly its time to live |
| DistributedLock.ReleaseSparesOthers | apps/worker/src/lock/distributedLock.ts:32-37 | A release, however late, removes at most its own token and never another live call's |
| ProductBarcodes.IndexAgreement | apps/api/src/modules/catalog/application/ProductService.ts:174-313 | Over every run, however stale the checks were, a product's rows are exactly its last accepted list with the first as the only primary; barcodes and SKUs are unique in an organization, and tracking expiry implies tracking lots |
| ProductBarcodes.OwnedOnce | apps/api/src/modules/catalog/models/ProductBarcode.ts:15 | In every reachable state one barcode of an organization has one row, so at most one product |
| ProductBarcodes.FreshChecksSuffice | apps/api/src/modules/catalog/application/ProductService.ts:108-126 | If the check saw the current rows, it passes if and only if the unique index admits every insert |
| ProductBarcodes.CreateAnswer | apps/api/src/modules/catalog/application/ProductService.ts:108-205 | The whole answer to a create request: which check refuses it and with what error, when the unique indexes refuse it, and otherwise exactly the product asked for, with both flags, and its barcodes in order are added |
| ProductBarcodes.UpdateAnswer | apps/api/src/modules/catalog/application/ProductService.ts:207-330 | The whole answer to an update: which check refuses it and with what error, when the unique index refuses it, and otherwise each flag is the one given or the old one, nothing else of the product and no other product changes, and its rows are the new list |
| ProductBarcodes.UpdateAcceptedIff | apps/api/src/modules/catalog/application/ProductService.ts:207-330 | An update of a product that is not archived is accepted if and only if it does not end with expiry tracking but no lot tracking and, when it brings barcodes, they are distinct and none belongs to another product; its own old ones never stand in the way |
| ProductBarcodes.ArchivedSafeIff | apps/api/src/modules/catalog/application/ProductService.ts:212-236 | An archived product and its barcodes are safe from every request if and only if the requests' checks read a state in which it was archived already or did not exist yet |
| ProductBarcodes.ArchivedSafeInRuns | apps/api/src/modules/catalog/application/ProductService.ts:212-236 | The same in every run, for checks of every age |
| ProductBarcodes.StaleUpdateOfArchived | apps/api/src/modules/catalog/application/ProductService.ts:212-236 | A run in which an update checked before the archiving replaces the archived product's barcodes |
| ProductBarcodes.QueryStartsWithPrimary | apps/api/src/modules/catalog/application/ProductService.ts:44-47 | However the query orders equal rows, it returns as many barcodes as were accepted, the first of the accepted list first |
| ProductBarcodes.Catalogue.AssertBarcodesAvailable | apps/api/src/modules/catalog/application/ProductService.ts:108-126 | Refuses duplicates in the request, then barcodes of other products, and nothing else |
| ProductBarcodes.Catalogue.InsertBarcodes | apps/api/src/modules/catalog/application/ProductService.ts:300-312 | The loop inserts one row per barcode, the first one primary, or fails at the first the index refuses |
| ProductBarcodes.Catalogue.CreateProduct | apps/api/src/modules/catalog/application/ProductService.ts:128-205 | Succeeds if and only if expiry comes with lots, the barcodes do not repeat, and neither SKU nor barcodes are in use, both when checked and when the transaction begins; exactly the product asked for, with both flags, is added to the state other clients have left; a refusal leaves the state it was made on |
| ProductBarcodes.Catalogue.UpdateProduct | apps/api/src/modules/catalog/application/ProductService.ts:207-330 | The same for an update: exact acceptance over the state checked and the state written; each flag is the one given or the old one, and all rows of the product are replaced when a list is given |
| ProductBarcodes.Catalogue.ArchiveProduct | apps/api/src/modules/catalog/application/ProductService.ts:332-359 | Succeeds if and only if the product belongs to the organization and is not archived yet; it changes that one flag of that one product, keeps all barcodes, and no request whose checks see the result changes the product again |
| Pagination.HasNextIffNextPageNonEmpty | apps/api/src/shared/http/envelope.ts:24 | The flag holds if and only if the next page has something on it |
| Pagination.PageBeforeNextIsFull | apps/api/src/modules/audit/application/AuditService.ts:70-77 | Every page with a next page has perPage items |
| Pagination.WalkYieldsEverything | apps/api/src/modules/audit/application/AuditService.ts:70-77 | Following the pages from 1 while the flag holds yields every item exactly once in order, over max(1, ceil(total / perPage)) pages |
| DecimalText.ParseAcceptsPattern | packages/contracts/src/decimal.ts:10 | The reader accepts a text if and only if it matches the pattern |
| DecimalText.FieldAcceptedIff | packages/contracts/src/decimal.ts:12-18 | A request field is accepted if and only if it is a text of the pattern with nothing but white space around it |
| DecimalText.FieldRead | packages/contracts/src/decimal.ts:12-18 | It is then read as the text without that white space |
| DecimalText.SpacesAre | packages/contracts/src/decimal.ts:12-14 | White space is exactly these twenty-five characters |
| DecimalText.NatOfByPosition | packages/contracts/src/decimal.ts:32-34 | Digits are read by position |
| DecimalText.ParseSpelled | packages/contracts/src/decimal.ts:32-34 | A matching text is read as the number its digits spell, with its sign and its places |
| DecimalText.PrintRoundTrip | packages/contracts/src/decimal.ts:10-34 | Printing without rounding always matches the pattern, and reading it back gives the same number |
| DecimalText.SameTextIffSameValue | apps/api/src/modules/counts/application/CountService.ts:270-273 | Two computed quantities print the same text without rounding if and only if they are equal |
| DecimalText.ZeroText | apps/api/src/modules/counts/application/CountService.ts:270-273 | The printed text is "0" if and only if the number is zero |
| DecimalText.NegatedZeroText | apps/api/src/modules/adjustments/application/AdjustmentService.ts:502 | Printing a sign and digits prints their value, and negating a zero still prints "0" |
| DecimalText.FixedIsNearest | packages/contracts/src/decimal.ts:36-38 | Fixed-place printing matches the pattern with that many places, is within half a unit of the last place with halves away from zero, starts with a minus exactly for negative numbers, and is exact when no digit has to go |
| DecimalStorage.StoringKeepsValue | apps/api/src/modules/catalog/domain/decimalMapping.ts:7-9 | A text can be stored if and only if it matches the pattern, and is stored with its value, its places and its sign |
| DecimalStorage.TextRoundTrip | apps/api/src/modules/catalog/domain/decimalMapping.ts:15-17 | Reading the text of a stored number gives the number back with its sign, coefficient and exponent, also when the text has an exponent |
| DecimalStorage.SpecifiedTexts | apps/api/src/modules/catalog/domain/decimalMapping.ts:15-17 | Two texts the specification gives: 1.23E-7 and -5E+3 |
| DecimalStorage.SameStoredTextIff | apps/api/src/modules/catalog/domain/decimalMapping.ts:15-17 | Two stored numbers read back as the same text if and only if they agree in sign, coefficient and exponent |
| DecimalStorage.SameReadBackIff | apps/api/src/modules/catalog/domain/decimalMapping.ts:7-17 | Two accepted texts read back alike if and only if they have the same sign, digits and places; 5 and 5.00 do not |
| DecimalStorage.MatchesPatternIff | apps/api/src/modules/catalog/domain/decimalMapping.ts:15-17 | The text of a stored number matches the API's pattern if and only if its exponent is not positive and its first digit stands at 10^-6 or above |
| DecimalStorage.AcceptedReadsBackIff | apps/api/src/modules/catalog/domain/decimalMapping.ts:7-17 | An accepted text reads back within the pattern if and only if it has at most five places more than digits that count |
| DecimalStorage.UnchangedIff | apps/api/src/modules/catalog/domain/decimalMapping.ts:7-17 | An accepted text reads back unchanged if and only if it has no superfluous zero in front and needs no exponent |
| DecimalStorage.SameStoredQuantityIff | apps/api/src/modules/counts/application/CountService.ts:273 | Computed quantities, printed without rounding and stored, read back as the same text if and only if they are equal |
| DecimalStorage.StoredZeroText | apps/api/src/modules/counts/http/mappers.ts:30-32 | Such a quantity reads back as "0" if and only if it is zero |
| DecimalSums.ExactIffRepresentable | apps/api/src/modules/counts/application/CountService.ts:270-273 | A sum or difference is exact if and only if the true result can be written with the digits kept |
| DecimalSums.UnitsDoNotMatter | apps/api/src/modules/adjustments/application/AdjustmentService.ts:128-134 | Rounding commutes with the choice of the unit quantities are counted in |
| DecimalSums.ExactStepsIff | apps/api/src/modules/adjustments/application/AdjustmentService.ts:396-400 | No step of a running sum is rounded if and only if every true partial sum can be written with the digits kept |
| DecimalSums.FlagRightIff | apps/api/src/modules/adjustments/application/AdjustmentService.ts:128-134 | With sums rounded to a number of digits, the material flag is right for every acceptable request if and only if the threshold is at most ten to that number |
| DecimalSums.FlagFails | apps/api/src/modules/adjustments/application/AdjustmentService.ts:128-134 | For every larger threshold, a request of at most four non-zero lines that is flagged wrongly |
| DecimalSums.BoundedSumsExact | packages/contracts/src/adjustments/index.ts:26-36 | Sums of a bounded number of bounded lines are not rounded if the product of the bounds fits the digits kept |
| DecimalSums.LargestRequestExact | packages/contracts/src/adjustments/index.ts:26-36 | Two hundred lines of at most 5 * 10^11 with at most six places are summed exactly at every step |
| CountMapper.ReportedLinesArePosted | apps/api/src/modules/counts/http/mappers.ts:30-32 | In every reachable state the variance line count of a posted count, reversal or not, is the number of ledger rows posted for it |
| CountMapper.VarianceLinesAreMoves | apps/api/src/modules/counts/application/CountService.ts:388-401 | For any count lines, the lines whose variance does not read "0" are as many as the movements collected |
| CountMapper.SortKeepsMovements | apps/api/src/modules/inventory/application/LedgerService.ts:59-61 | Sorting a batch loses and invents no movement |

## Left out

- Interleavings inside update, submit, approve and reject: the source does not protect them, so there is nothing to prove.
- Audit events, sequence numbers, names, SKU copies, notes, evidence and dates.
- Stock requests, the callers of reservations: reserving and releasing are modelled as operations of their own.
- Transfers, issues, returns, requests, receiving and procurement: they appear only as other movements.
- The text order the ledger service sorts by: keys are compared by number here; the order between keys has no effect.
- Rounding of stamped quantities and variances: these additions are exact here, and `DecimalSums` says when that is so.
- The limit of a stored coefficient to 34 digits, and what the database driver does with longer texts.
- A limit on the number of count entries in one update; the request schema imposes one.
- Category, unit and price checks of products: they would only add easy cases.
- Ordering of audit events created at the same instant: pagination is over a fixed list.
- The web client, routers, authentication, sessions and reports.
