# Verified models of the shared backend library

This project models the cores of a shared Go library whose correctness is not visible in any single
function: a transactional outbox, a trigger-safe file drop, permission algebra, a polyline decoder, toll
file import, three clocked state machines, calendar windows and a check digit. Each core is one module, and
the theorems are about every input, every run or every reachable state.

`dafny verify dfyconfig.toml` checks everything.

| file | what it models |
|---|---|
| `Transactions.dfy` | a PostgreSQL transaction with its stack of savepoints, re-entrant `WithTransaction`, and the savepoint-fenced outbox insert of `writeEvent` |
| `OutboxRelay.dfy` | business transactions, any number of relays with row locks, the Kafka log, and partial writes, rollbacks and crashes between any two steps |
| `OutboxOrder.dfy` | for which ways of running relays and transactions an entity's events stay in order |
| `Delivery.dfy`, `Mail.dfy` | a session's transaction as the relays see it, and guaranteed mail from the call to Kafka |
| `FactoringRules.dfy`, `ManifestDrop.dfy`, `ManifestRuns.dfy`, `RtsUpload.dfy` | the RTS upload (PDFs, inert temporary manifest, rename) against a poller that fires on any spreadsheet and clears the folder, and the Triumph upload beside it |
| `Permissions.dfy`, `Rollup.dfy` | dotted permission codes: who grants what, compaction, the catalog index, expansion and roll-up |
| `Polyline.dfy`, `Bits.dfy` | the flexible-polyline decoder on 64-bit integers, against a reference encoder |
| `TollHash.dfy`, `TollParse.dfy` | content hashes with occurrence numbers; tables addressed by column name |
| `PermCache.dfy` | the permission cache: Redis entries with a lifetime, single-flighted resolutions in many processes, deletes that get lost |
| `RateLimit.dfy` | the fixed-window limiter |
| `RmsGate.dfy` | the policy-gate client with its circuit breaker, sequential and concurrent |
| `Calendar.dfy` | Gregorian day numbers, reporting windows, months back, weeks |
| `Luhn.dfy` | the card-number check digit |
| `Text.dfy`, `Ascii.dfy`, `Wrappers.dfy` | split, join, string order, trimming, results |

## How the models are built

Code that changes state is a class or a loop with the same branches, proved against a function of the old
state (`Transactions.Session`, `RtsUpload.Remote`, `PermCache.World`, `RateLimit.Key`, `RmsGate.Client`,
the decoder and parser loops). Concurrency is a transition system: `Enabled` says when an action can
happen, `Apply` what it does, and `Play` runs any list of attempted actions, so a theorem about `Play` is a
theorem about every interleaving. The methods that model one process take the other processes' actions
between their own steps as an argument.

What calls into other systems can do is a parameter of every theorem. A statement sent to the database is
delivered, not sent, lost after it took effect, or rejected. `WriteMessages` that returns nil wrote
everything; one that fails wrote an arbitrary part of the batch, each message at most once. A relay's database session may be
cut off while its write is in flight; its records then arrive later, one by one, or never. An upload stops
after any number of bytes. Redis may still answer for a key in the millisecond in which it expires, or not;
a write whose answer was lost took effect before the flight that issued it ended, or never. Map iteration
takes any order. A poll of the factor's folder reads and clears it in one step.

SHA-256 is an injective function of the joined text. The calendar is any sequence of month starts with
months of 28 to 31 days; `Calendar.GregorianIsProper` shows that the Gregorian calendar is one, and the
lemmas about month lengths and leap years are about that one.

## Where the code differs from its comments

- `tmsdb/interface.go:12` says that an error of the function rolls back. For a nested call it does not: the
  caller decides (`Transactions.NestedVerdictIsIgnored`, `Transactions.FailedNestedCallCanCommit`).
- `eventlog/outbox/relay.go:79` sets the message key to order an entity's events. They can be written in the
  opposite order in exactly three ways: two relays are at work at once; one relay's failing or late write leaves a
  later event of its batch on the log without an earlier one; or an event is committed when a younger one of its
  entity is already sent or about to be, as its time is fixed before its commit (`OutboxOrder.KeepsEntityOrderIff`).
- `tmsdb/gorm_tm.go:217-222` treats a failed RELEASE as harmless. If the server rejected the statement the
  transaction is aborted although nil is returned; `Transactions.PublishContract` says exactly when.
- `client/factoring/rules.go:106-118` checks that invoice numbers are unique, but the file name derived
  from a number need not be (`ManifestDrop.CompliantBatchCanCollide`); the upload is safe exactly when no
  two different PDFs share a name (`ManifestRuns.RtsSafeIffCollisionFree`).
- `enums/user_permissions.go:526-529` calls the in-place scan the same rule as `HasPermission`. They differ
  exactly on sets that hold the empty code (`Permissions.ScansAgreeIff`).
- `enums/user_permissions.go:471-479` promises one result; unknown dotted chains have several, depending on
  map order (`Rollup.OrderIndependentIff`, `Rollup.UnknownChainDependsOnOrder`).
- `client/toll/normalize.go:172` says the separator cannot occur in a field. A CSV file can contain it, and
  then a hash is shared (`TollHash.UnmistakableIff`).
- `client/toll/normalize.go:190-193` fears that reordering re-keys rows. The set of hashes of a file stays
  the same (`TollHash.ReorderingKeepsHashes`); which row carries which hash does change when rows alike in the
  hashed fields differ elsewhere, and only then (`TollHash.HashesStayIff`, `TollHash.SwapMovesHashesIff`).
- `mail/mail.go:180-184` calls a verified event guaranteed. A caller that reuses an id gets a success for an
  event that was dropped (`Mail.DropIsReportedIff`), and a row the query saw is gone if the caller later rolls
  back to a savepoint set before it (`Mail.GuaranteedRowIsCommittedIff`).
- `timewindow/timewindow.go:155-158`: stepping back by months can invert two instants
  (`Calendar.MonthsInvertIff`).

## Model

| member | source | states |
|---|---|---|
| Transactions.Innermost | tmsdb/gorm_tm.go:183-186 | a savepoint name means the innermost savepoint of that name, so same-named savepoints stack |
| Transactions.FenceAnswers | tmsdb/gorm_tm.go:195-208 | whatever savepoints leaked before, rolling back to or releasing `publish_sp` hits the fence just set, and rolling back restores exactly the writes before it and the un-aborted state |
| Transactions.PublishContract | tmsdb/gorm_tm.go:181-223 | a `writeEvent` returning nil keeps all earlier writes and adds exactly one outbox row or none; the transaction is aborted afterwards if and only if the server rejected the RELEASE |
| Transactions.ReachedIsValid | tmsdb/gorm_tm.go:195-222 | in every state any body reaches under any faults, leaked savepoints included, the savepoints mark points inside the writes in order, and a ROLLBACK TO is served if and only if a savepoint of that name exists |
| Transactions.FailedPublishKeepsWrites | tmsdb/gorm_tm.go:196-207 | a `writeEvent` returning an error loses no earlier write; its own row stays only when its answer was lost and the rollback failed |
| Transactions.FailedPublishLeaves | tmsdb/gorm_tm.go:196-207 | a publish that returned an error leaves a healthy transaction aborted if and only if the server refused the savepoint, the rollback, or the INSERT without hearing of the rollback; its savepoint leaks if and only if the server set it |
| Transactions.PublishAbortsIff | tmsdb/gorm_tm.go:195-223 | exactly which fates of its four statements doom a transaction; an aborted one refuses every publish |
| Transactions.AbortedIff | tmsdb/gorm_tm.go:195-223 | a body of inserts and publishes ends aborted if and only if the server refused one of its own inserts or doomed one of its publishes |
| Transactions.TransactIff | tmsdb/gorm_tm.go:33-55 | such a transaction takes effect if and only if its function returned nil, nothing was refused for good and the COMMIT took effect; else the table is as before and the caller hears of an error |
| Transactions.NestingIsInlining | tmsdb/gorm_tm.go:33-42 | at any depth of nesting, a transaction body acts as if every nested call were written out in place |
| Transactions.AbortedStaysAborted | tmsdb/gorm_tm.go:195-223 | once aborted, no insert or publish revives a transaction |
| Transactions.RunLeavesEffects | tmsdb/gorm_tm.go:181-223 | a body of inserts and publishes that all returned nil and is not aborted has left exactly the inserted rows and the delivered events, in order |
| Transactions.RunKeepsBusinessData | tmsdb/gorm_tm.go:181-223 | in an un-aborted body no business row is lost or added, also where callers ignored publish errors |
| Transactions.CommittedTransactionKeepsBusinessData | tmsdb/gorm_tm.go:33-55 | a transaction either leaves the table as it was, and then reports an error, or adds exactly its business rows, whichever events were dropped and whichever publish errors were ignored |
| Transactions.CommittedTransactionIsItsEffects | tmsdb/gorm_tm.go:33-55 | if its publishes all returned nil, the committed table is the old one and the effects of the body, in order |
| Transactions.KeptIff | tmsdb/gorm_tm.go:181-223 | a write stays if and only if nothing in the rest of the body, at any depth, makes the server roll back to a savepoint that stood before it |
| Transactions.PublishedIsCommitted | tmsdb/gorm_tm.go:33-55 | a published row, its INSERT answered, is committed with its transaction whatever ran before and after, unless something after it rolled back past it |
| Transactions.InsertsUndoNothing | tmsdb/gorm_tm.go:181-223 | bodies without savepoint statements of their own never do, whatever their publishes roll back |
| Transactions.NestedVerdictIsIgnored | tmsdb/gorm_tm.go:40-42 | whether a nested call reported an error changes nothing about the outcome |
| Transactions.FailedNestedCallCanCommit | tmsdb/gorm_tm.go:40-46 | a concrete body whose nested call fails and whose writes are committed |
| Transactions.Session.Execute | tmsdb/gorm_tm.go:196-217 | one statement changes the open transaction as the server serves it, and the client sees success or failure: a refused one aborts it, an unsent one changes nothing, an aborted transaction serves only a rollback to a savepoint |
| Transactions.Session.WriteEvent | tmsdb/gorm_tm.go:181-223 | outside a transaction a plain insert; inside, the savepoint protocol with the whole new state and the guarantee of a nil result |
| Transactions.Session.RunBody | tmsdb/gorm_tm.go:43-46 | running a body in an open transaction touches that transaction only |
| Transactions.Session.WithTransaction | tmsdb/gorm_tm.go:33-47 | re-entrant: inside a transaction it runs in it and leaves the commit to the outer call; outside it commits or leaves the table unchanged |
| OutboxRelay.StepKeepsInv | eventlog/outbox/relay.go:53-97 | every step of any process, late writes of cut-off sessions included, keeps the invariant: rows of different transactions apart, locks exclusive and on existing rows, only committed rows in table, Kafka and writes in flight, nothing lost, copies bounded |
| OutboxRelay.PlayKeepsInv | eventlog/outbox/relay.go:53-97 | the invariant holds in every state of every run |
| OutboxRelay.OutboxSafety | eventlog/outbox/relay.go:53-97 | in every reachable state each committed row is in the table or in Kafka, and no row of an open or rolled-back transaction is in Kafka |
| OutboxRelay.RecordsAreTheirRows | eventlog/outbox/relay.go:65-84 | in every reachable state each record on the log has its row's payload, entity id and creation time, and its topic is the row's or, if that is empty, the entity type; so it is not empty while entity types are not |
| OutboxRelay.OnlyPendingIsSent | eventlog/outbox/repository.go:27-38 | in every reachable state relays hold, and the log has records of, only rows committed with the status PENDING |
| OutboxRelay.DuplicatesAreRollbacks | eventlog/outbox/repository.go:30-35 | no two relays hold the same row; copies of a row in Kafka, with those of cut-off sessions that may still arrive, are at most one more than its rolled-back batches |
| OutboxRelay.LateWriteOwesTheSame | eventlog/outbox/relay.go:86-90 | a record that arrives after its relay's session was cut off was counted when the session was rolled back |
| OutboxRelay.HistoryGrows | eventlog/outbox/relay.go:86-96 | Kafka records and committed rows are never taken back |
| OutboxRelay.CommittedForever | eventlog/outbox/relay.go:53-97 | in every future of every run a committed row is in the table, unchanged, or its message is in Kafka |
| OutboxRelay.CommitTxCommits | tmsdb/gorm_tm.go:43-46 | committing a business transaction commits every row it inserted, as inserted |
| OutboxRelay.BatchExists | eventlog/outbox/repository.go:27-38 | the SELECT always has an answer: the oldest eligible rows up to the limit |
| OutboxRelay.CleanBatchRemoves | eventlog/outbox/relay.go:53-97 | an undisturbed batch leaves the table without exactly its rows |
| OutboxRelay.PollingRemoves | eventlog/outbox/relay.go:29-50 | with no locks held, undisturbed polls of any relays with any limits, whatever rows the SELECT may legally answer, take exactly as many rows out of the table as their limits add up to, until it is empty |
| OutboxRelay.PollingDrainsIff | eventlog/outbox/relay.go:29-50 | they empty the table if and only if their limits add up to its size, and then every committed row is in Kafka |
| OutboxRelay.LegalPollsExist | eventlog/outbox/relay.go:29-50 | whoever polls and with whatever limits, there is such a sequence of polls |
| OutboxOrder.TakingTurnsKeepsOrder | eventlog/outbox/relay.go:53-97 | from any state of any run: where relays take turns and a failing or late write leaves an initial run of its batch or batches hold one row, every new record of an event younger than a waiting one, of any entity, comes after a new record of that one, through crashes, cut-off sessions and retries |
| OutboxOrder.RunsKeepOrder | eventlog/outbox/relay.go:53-97 | if besides no event is committed once a younger one of its entity is in Kafka, in a batch to be written or in a write in flight, then in every run no younger event of its entity is written before any committed event |
| OutboxOrder.KeepsEntityOrderIff | eventlog/outbox/relay.go:77-82 | for every batch size, over all runs from the empty outbox and all committed events: the events of an entity stay in order in every run if and only if relays take turns, writes leave initial runs or the batch size is one, and no event is committed once a younger one of its entity is on its way |
| OutboxOrder.OverlapInverts | eventlog/outbox/repository.go:27-38 | two relays at work at once write a younger event of the entity first, without any failure, for every batch size |
| OutboxOrder.LateCommitInverts | eventlog/outbox/repository.go:27-38 | so does one relay, without any failure, when the older event is committed while the younger one is in its open batch |
| OutboxOrder.PartialInverts | eventlog/outbox/relay.go:86-90 | so does one relay whose failing write got only the second of two events through |
| OutboxRelay.OthersKeepBatch | eventlog/outbox/repository.go:30-35 | no action of other processes touches the batch a relay has locked |
| OutboxRelay.World.Advance | eventlog/outbox/relay.go:53-97 | the shared state is always the one its history leads to, and the step acts on what the others left |
| OutboxRelay.Prepare | eventlog/outbox/relay.go:65-84 | one message and one id per row, in batch order: payload, entity id and creation time of the row, on its topic or, if that is empty, on the entity type |
| OutboxRelay.ProcessBatch | eventlog/outbox/relay.go:53-98 | with other processes acting between its steps: nil exactly when all calls succeeded, and then every row of the batch is in Kafka and out of the table; otherwise, unless only the COMMIT's answer was lost, every row is still there; the history is its script |
| OutboxRelay.PublishAndDelete | eventlog/outbox/relay.go:65-96 | the same for a non-empty batch after the fetch |
| Delivery.PerformedIsHeld | tmsdb/gorm_tm.go:33-47 | among any other activity an open transaction holds exactly the rows its own steps left |
| Delivery.SessionHolds | tmsdb/gorm_tm.go:33-47 | before it is settled, a session's transaction holds in the database exactly the outbox rows of its writes, in order, rollbacks to savepoints included |
| Delivery.SessionSettles | tmsdb/gorm_tm.go:33-55 | a whole `WithTransaction` call among any other sessions and relays: if it commits, each of its outbox rows is in the table or in Kafka from then on; if not, none ever is in Kafka |
| Mail.SendWithOptions | mail/mail.go:194-233 | a guaranteed, verified success means a row for the returned id is visible, and exactly this message's row was added if the id was new; a drop behind a nil goes unnoticed if and only if the id was visible before; validation failures touch nothing; earlier writes stay in every case |
| Mail.GuaranteedIff | mail/mail.go:215-233 | a guaranteed call returns its id if and only if the message is complete, the publish returned nil and left the session healthy, the query was answered, and the event was inserted or its id was there before |
| Mail.PlainIff | mail/mail.go:194-233 | without the guarantee a call returns its id if and only if the message is complete and the publish returned nil; the id is the message's own or, if it has none, the new one |
| Mail.RefusedIff | mail/mail.go:251-296 | exactly which messages are invalid and which have no company; neither touches the database |
| Mail.GuaranteedRowIsCommittedIff | mail/mail.go:186-233 | the row of a new id that a guaranteed call returned is committed if and only if the transaction commits and nothing after the call rolls back to a savepoint set before it |
| Mail.GuaranteedMailIsNeverLost | mail/mail.go:186-233 | a guaranteed call returned an id inside a body whose transaction commits, among any sessions and relays: unless every row it saw was undone, from the commit on a row for that id is in the table or its message, keyed by the id, in Kafka |
| Mail.GuaranteedMailIsSent | mail/mail.go:186-233 | and it is sent: from any state after the commit with no locks held and the other rows waiting, legal polls that cover the table put a record on the log with topic "emails", the returned id as key, and payload and time of the call |
| Mail.PlainBodiesKeepMail | mail/mail.go:186-191 | bodies without savepoint statements of their own after the call always meet that condition |
| Mail.MailOutsideIsNeverLost | mail/mail.go:186-233 | the same for a call outside any transaction |
| Mail.DropIsReportedIff | mail/mail.go:216-230 | for every fault: an event dropped behind a nil is reported if and only if its id has no row yet; with a reused id the call succeeds and nothing was added |
| ManifestDrop.SanitizePdfName | client/factoring/triumphsftp.go:250-266 | a number over the safe alphabet gets the number itself and .pdf; for every number safe characters stay at their places, the others become underscores, and .pdf is appended |
| ManifestDrop.SafeAlphabet | client/factoring/triumphsftp.go:253-259 | the safe alphabet, letter by letter |
| ManifestDrop.SpreadsheetIff | client/factoring/rtssftp.go:179-184 | the poller reacts to exactly the names that end in .csv or .xlsx in any case |
| ManifestDrop.SanitizedIsInert | client/factoring/triumphsftp.go:246-266 | a PDF name never triggers the poller |
| ManifestDrop.SanitizedInjective | client/factoring/triumphsftp.go:246-266 | over the safe alphabet different invoice numbers get different names |
| ManifestDrop.SanitizedCollides | client/factoring/triumphsftp.go:250-266 | outside it two different numbers can get one name |
| ManifestDrop.StepKeepsInv | client/factoring/rtssftp.go:162-196 | every step of uploader or poller keeps: nothing triggers before the rename, finished files are whole, the open file holds a prefix |
| ManifestDrop.PlayKeepsInv | client/factoring/rtssftp.go:162-196 | so in every run that does not ship again after its rename |
| ManifestDrop.RtsFiresCompleteAtMostOnce | client/factoring/rtssftp.go:123-202 | for every interleaving with the poller, every crash point and every retry before the rename, the batch fires at most once, and then with the whole manifest and every whole PDF |
| ManifestRuns.RtsCleanRunFires | client/factoring/rtssftp.go:162-196 | an undisturbed submission followed by a poll does fire |
| ManifestRuns.RtsSafeIffCollisionFree | client/factoring/rtssftp.go:123-202 | every firing of every run is complete if and only if no two PDFs with different bytes share a file name |
| ManifestRuns.ReshipBreaksTheBatch | client/factoring/rules.go:31-39 | shipping again after the rename can make the poller ingest a truncated PDF |
| ManifestRuns.TriumphCanFireOnTruncatedManifest | client/factoring/triumphsftp.go:219-223 | the direct upload of any manifest that is not empty has a run in which the poller finds it empty |
| ManifestRuns.TriumphSafeIff | client/factoring/triumphsftp.go:195-226 | tried once, every firing of every run of the direct upload is complete if and only if the manifest is empty and no two PDFs with different bytes share a name |
| ManifestRuns.TriumphRetryBreaksTheBatch | client/factoring/triumphsftp.go:195-226 | started over after a stop at the manifest, it has for every batch with a PDF a run that fires on the manifest alone |
| FactoringRules.ValidateIff | client/factoring/factoring.go:216-237 | accepted exactly: at least one invoice, as many PDFs, and at each place a number, a PDF of that number, and bytes in it |
| FactoringRules.ValidateReports | client/factoring/factoring.go:216-237 | which error is reported: no invoices, then different counts, else the first place at fault, its number before the PDF's number before the PDF's bytes |
| FactoringRules.ValidateForRts | client/factoring/rules.go:95-157 | accepts exactly at most 999 invoices with unique numbers, no blank field and positive amounts; reported is the cap first, then the first duplicate, else the fault of the first invoice that has one, blank fields before the amount |
| ManifestDrop.ValidatedBatchIsCollisionFree | client/factoring/rules.go:106-118 | a batch that passed both validations and uses the safe alphabet has one name per PDF |
| ManifestDrop.CompliantBatchCanCollide | client/factoring/rules.go:95-157 | without the safe alphabet it need not: a batch that passes both validations whose two PDFs share a name |
| RtsUpload.Remote.Upload | client/factoring/sftp.go:144-161 | truncate, any chunks, close, with the poller in between; it succeeds if and only if neither fails, and then the next step of the plan is reached and, unless the poller cleared it, the file is there whole |
| RtsUpload.Remote.Activate | client/factoring/sftp.go:171-180 | the rename happens at most once and atomically, exactly if it is not refused and the file is there; success means it happened and was answered |
| RtsUpload.SubmitBatch | client/factoring/rtssftp.go:162-202 | takes only the steps of the plan, so the safety theorem covers it; into a folder without a spreadsheet it succeeds if and only if no upload and no rename fails; success reports all names in order, an error those before the first upload that failed |
| Permissions.HasPermission | middleware/perms.go:13-27 | split and join answer exactly whether some held code is the required one or a dotted ancestor of it |
| Permissions.ImpliedBy | enums/user_permissions.go:530-542 | the in-place dot scan answers exactly whether a held code other than "" covers the code, or the code is held |
| Permissions.HasAncestorIn | middleware/perms.go:71-80 | exactly whether a proper ancestor is in the set |
| Permissions.ProperAncestorsAreJoins | middleware/perms.go:71-77 | the proper ancestors of a code are the joins of its shorter runs of parts |
| Permissions.ScansAgreeIff | enums/user_permissions.go:526-542 | the two scans agree on every non-empty code if and only if the set does not hold "" |
| Permissions.CompactHierarchy | middleware/perms.go:52-69 | returns, sorted, exactly the non-empty codes without an ancestor in the input |
| Permissions.CompactKeepsMeaning | middleware/perms.go:49-69 | compaction changes no answer for any required code and leaves no code below another |
| Permissions.CompactPreservesGrantsIff | middleware/perms.go:49-69 | in terms of `HasPermission` it preserves every answer if and only if the input does not hold "" |
| Permissions.BuildCatalogIndex | enums/user_permissions.go:415-439 | the loop builds the index of the catalog rows |
| Permissions.IndexIsWellFormed | enums/user_permissions.go:398-439 | a catalog of dot-free modules, each with entities module.x that have actions, gives an index in which both maps agree and leaves are children of their entities |
| Permissions.LeafIff | enums/user_permissions.go:432-436 | for catalogs whose entity codes differ, the leaves of the index are exactly entity.action for the actions of each row |
| Permissions.EntityIsRow | enums/user_permissions.go:430-436 | an entity of the index has its row's module and its row's actions, in order |
| Permissions.EntityIff | enums/user_permissions.go:422-431 | for every catalog: the entities are the codes of its rows, those of a module the codes of its rows, and the modules those listed or named |
| Permissions.SampleIsWellFormed | enums/user_permissions.go:413-439 | a concrete catalog satisfies the hypothesis |
| Rollup.ExpandPermissions | enums/user_permissions.go:448-469 | returns, sorted, the expansion of the set of codes |
| Rollup.CompleteEntities | enums/user_permissions.go:488-496 | whatever the map order, exactly the entities all of whose leaves are implied |
| Rollup.CompleteModules | enums/user_permissions.go:497-502 | exactly the modules all of whose entities are complete |
| Rollup.EmptyNeverRollsUp | enums/user_permissions.go:488-502 | whatever the index, an entity without leaves and a module without entities are never rolled up to |
| Rollup.EmitUncovered | enums/user_permissions.go:518-522 | the loop over the growing set, for the order the map happened to take |
| Rollup.RollupPermissions | enums/user_permissions.go:480-524 | returns, sorted, the roll-up for some iteration order of the map |
| Rollup.RollupKeepsMeaning | enums/user_permissions.go:471-524 | for every input and order a catalog leaf is granted after exactly if it was before, and no input code loses its grant |
| Rollup.OrderIndependentIff | enums/user_permissions.go:518-522 | the result is the same for all orders if and only if no input code lies strictly below another one without being covered by a representative |
| Rollup.UnknownChainDependsOnOrder | enums/user_permissions.go:518-522 | {foo, foo.bar} has two results |
| Rollup.ValidHasNoLooseChain | enums/user_permissions.go:504-522 | catalog codes and dot-free codes have no such chain |
| Rollup.ValidRollupIsCanon | enums/user_permissions.go:480-524 | on valid codes every order gives the canonical form |
| Rollup.ValidResultUnique | enums/user_permissions.go:480-524 | on valid codes the sorted result is one, whatever the map iterations did |
| Rollup.CanonIs | enums/user_permissions.go:504-522 | what the canonical form holds of each kind of code |
| Rollup.CanonByMeaning | enums/user_permissions.go:471-524 | valid sets that grant the same roll up to the same set |
| Rollup.CanonKeepsMeaning | enums/user_permissions.go:471-479 | the roll-up of a valid set grants the same leaves and holds the same flat codes |
| Rollup.ExpandIs | enums/user_permissions.go:441-469 | the expansion of a valid set is exactly the granted leaves and the flat codes |
| Rollup.ExpandKeepsOthers | enums/user_permissions.go:441-469 | for every input: a code that is no leaf is in the expansion if and only if it was in the input and is neither module nor entity |
| Rollup.CatalogExpands | enums/user_permissions.go:420-469 | in terms of the catalog: a module expands to every action of all its entities, an entity to its own |
| Rollup.ExpandImplies | enums/user_permissions.go:441-469 | for every input, expansion grants exactly the leaves the input granted |
| Rollup.ExpandKeepsMeaning | enums/user_permissions.go:441-469 | expanding a valid set keeps it valid and keeps what it means |
| Rollup.ExpandRollupInverse | enums/user_permissions.go:471-480 | Expand after Rollup is Expand, Rollup after Expand is Rollup, Rollup is idempotent |
| Rollup.CanonIsAntichain | enums/user_permissions.go:504-522 | no rolled-up code is an ancestor of another |
| Rollup.WitnessBelow | enums/user_permissions.go:504-522 | any set that means the same has a code at or below each rolled-up code |
| Rollup.RollupIsMinimal | enums/user_permissions.go:504-524 | no valid set that grants the same is smaller than the roll-up |
| Polyline.BuildTable | client/here/polyline.go:17-29 | the table holds each alphabet character's value and -1 elsewhere |
| Polyline.DecodeUnsignedValue | client/here/polyline.go:131-148 | the loop of ors and shifts computes the base-32 number of the run modulo 2^64, read as signed; errors for foreign characters and a missing end |
| Polyline.DecodeSignedValue | client/here/polyline.go:150-159 | undoes zigzag |
| Polyline.LowAppend | client/here/polyline.go:139-142 | one more character adds its five bits above those read so far |
| Bits.OrStep | client/here/polyline.go:141-142 | at shifts 0, 5, 10, ... or-ing in the next group adds it, modulo 2^64, also where it straddles or passes the top |
| Bits.WrapIsTwosComplement | client/here/polyline.go:71-81 | the running sums wrap as 64-bit integers do |
| Polyline.DecodeTuples | client/here/polyline.go:62-102 | the loop collects the running sums of the tuples up to the first error |
| Polyline.DecodeFlexiblePolyline | client/here/polyline.go:34-103 | header fields, then the coordinates |
| Polyline.ScanOfEncoded | client/here/polyline.go:131-148 | a varint is self-delimiting wherever it stands |
| Polyline.LowOfEncoded | client/here/polyline.go:131-148 | an encoded number denotes itself |
| Polyline.DeltaRoundTripIff | client/here/polyline.go:150-159 | a delta is read back as itself if and only if it lies in [-2^62, 2^62) |
| Polyline.TupleRoundTrip | client/here/polyline.go:65-94 | an encoded tuple is read back whole, with or without a third dimension, each delta as 64 bits hold it |
| Polyline.ListRoundTrip | client/here/polyline.go:65-100 | every list of written points is read back as the running sums of its received steps |
| Polyline.StepIff | client/here/polyline.go:71-81 | from a previous coordinate that fits 64 bits, the next is recovered if and only if it fits too and the step is, modulo 2^64, in [-2^62, 2^62) |
| Polyline.DecodesTo | client/here/polyline.go:31-103 | every reference encoding is accepted, with its precision and dimension, as the running sums of its received steps |
| Polyline.RoundTripIff | client/here/polyline.go:31-103 | the decoder returns exactly the scaled coordinates of a polyline if and only if all fit 64 bits and every step is, modulo 2^64, in [-2^62, 2^62) |
| Polyline.ExampleDecodes | client/here/polyline.go:17-29 | the published example BFoz5xJ67i1B1B7PzIhaxL7Y decodes to its four points at precision 5 |
| Polyline.TupleAtAdvances | client/here/polyline.go:65-94 | each tuple moves the index strictly forward and not past the end |
| Polyline.AcceptsIff | client/here/polyline.go:34-103 | accepted are exactly the empty input and whole varints over the alphabet, the first two a header, the others in complete tuples of its dimension |
| TollHash.ItoaInjective | client/toll/normalize.go:209-209 | different occurrence numbers are written differently |
| TollHash.ItoaIs | client/toll/normalize.go:209-209 | they are written in decimal, tens before ones |
| TollHash.HashRowIs | client/toll/normalize.go:199-212 | what is digested: the nine texts in order and the occurrence number, unit separators between them |
| TollHash.TextIdentifies | client/toll/normalize.go:194-213 | for every file: rows hash alike if and only if their joined fields and occurrence numbers agree |
| TollHash.HashIdentifies | client/toll/normalize.go:194-213 | rows with separator-free fields hash alike if and only if all hashed fields and the occurrence number agree |
| TollHash.UnmistakableIff | client/toll/normalize.go:172-213 | a row's hash is shared by no other content if and only if none of its free-text fields holds the separator |
| TollHash.MoveSeparator | client/toll/normalize.go:211-211 | a separator inside a field can be read as the one between two fields |
| TollHash.AssignHashes | client/toll/normalize.go:217-229 | in place: each row gets the hash numbered by the rows before it with the same base hash, other fields unchanged |
| TollHash.HashIs | client/toll/normalize.go:215-229 | for every file a row's hash says its joined fields and how many rows with the same precede it |
| TollHash.HashesNeedNoLaterRows | client/toll/normalize.go:217-229 | appended rows change no earlier hash |
| TollHash.HashesDistinct | client/toll/normalize.go:215-229 | no two rows of any file share a hash |
| TollHash.HashSetIs | client/toll/normalize.go:217-229 | joined fields of multiplicity n contribute exactly their hashes 0 to n - 1 |
| TollHash.HashSetIffContents | client/toll/normalize.go:190-229 | any two files have the same set of hashes if and only if they have the same joined fields with the same multiplicities |
| TollHash.CleanHashSetIffRows | client/toll/normalize.go:190-229 | without separators in their fields: if and only if they have the same rows, field by field |
| TollHash.ReorderingKeepsHashes | client/toll/normalize.go:190-193 | reordering any file keeps its set of hashes |
| TollHash.HashesStayIff | client/toll/normalize.go:190-193 | every row carries the same hash in two files if and only if rows with the same joined fields come in the same order in both, up to rows alike in all fields |
| TollHash.SwapMovesHashesIff | client/toll/normalize.go:190-193 | swapping two rows with the same joined fields, anywhere in any file, moves hashes if and only if they differ elsewhere |
| TollHash.PoolingKeepsTheMaximum | client/toll/normalize.go:174-229 | importing any sequence of any files stores, per joined fields, exactly the most rows any one file had of them |
| TollHash.CleanPoolingKeepsTheMaximum | client/toll/normalize.go:174-229 | without separators in the fields: per nine fields |
| Ascii.HeadersAgreeIff | client/toll/sheet.go:122-127 | two headers normalise to the same if and only if they have the same words |
| Ascii.BlankHeaderIff | client/toll/sheet.go:122-127 | a header is nameless if and only if it is white space |
| Ascii.SqueezedStays | client/toll/sheet.go:122-127 | words with single spaces between them are their own normal form |
| Ascii.FieldsSplit | client/toll/sheet.go:122-127 | any white space separates words, and nothing else does |
| Ascii.TrimIs | client/toll/sheet.go:187-196 | trimming takes white space off both ends and keeps what is between |
| TollParse.TableAt | client/toll/sheet.go:147-169 | headers, first column of each name, rows and header number of the table at a row |
| TollParse.CheckAll | client/toll/sheet.go:171-178 | whether a non-empty list of names is all there |
| TollParse.FindTable | client/toll/sheet.go:133-144 | the first row in reading order, within the first ten of its sheet, that carries all names, or none exists |
| TollParse.IsBlank | client/toll/sheet.go:216-223 | whether every cell is white space |
| TollParse.RowMap | client/toll/sheet.go:201-212 | the non-empty named values; of namesakes the last |
| TollParse.RawMapIs | client/toll/sheet.go:201-212 | from the header cells of the sheet: a squeezed header leads to the last of its columns that has a value, and is missing if none has |
| TollParse.IndexIsFirst | client/toll/sheet.go:151-161 | a name leads to its first column |
| TollParse.NormalizePlate | client/toll/normalize.go:121-137 | the loop keeps the letters and digits after an optional state code |
| TollParse.PlateIdempotent | client/toll/normalize.go:113-137 | normalising again changes nothing |
| TollParse.CleanPlate | client/toll/normalize.go:121-137 | upper-case letters and digits stay as they are |
| TollParse.SignsAreIgnored | client/toll/normalize.go:131-136 | other signs do not count, wherever they stand |
| TollParse.StateIsIgnoredIff | client/toll/normalize.go:113-128 | a printed state code is ignored if and only if the plate does not itself look like one with a state code |
| TollParse.FieldsAreNamedCells | client/toll/prepass.go:223-273 | every field of an accepted PrePass row is the cell under the first column of its own name, wherever that stands; a plate is read from the agency's column, and only off plate reads |
| TollParse.CombinedIs | client/toll/prepass.go:289-309 | a date with a clock counts alone, a bare date takes the clock of the time cell if that has one, carried over midnight; no date, no time |
| TollParse.ReadTypeIff | client/toll/prepass.go:278-287 | exactly which words mean a transponder and which a plate |
| TollParse.RowOf | client/toll/prepass.go:223-273 | a row parses exactly if its post date and amount can be read; the error names the first of them that cannot; only plate reads have a plate; result or error carries the number of its row |
| TollParse.CellIs | client/toll/sheet.go:187-196 | a cell read by name is the trimmed one under the first column of that name, or empty |
| TollParse.FindAccount | client/toll/prepass.go:340-361 | the loops over sheets other than the data sheet's namesakes, rows and cells find the first account label that has a value |
| TollParse.AccountIsBesideLabel | client/toll/prepass.go:345-357 | a row names an account if and only if some label has a value to its right; the first such label and the first such value count |
| TollParse.ReadRows | client/toll/prepass.go:194-211 | the loop sorts the rows into parsed, failed and skipped, in order |
| TollParse.Parse | client/toll/prepass.go:175-215 | the result is that of the first recognised table, with the account the other sheets name and the hashes of its parsed rows, or the error that there is none |
| TollParse.ParseIsUnique | client/toll/prepass.go:175-215 | that specification has one result |
| TollParse.ParsedHashIs | client/toll/normalize.go:194-229 | the hash of every parsed row is the digest of the nine texts of that row it covers, provider first, and of how many earlier rows have the same |
| TollParse.EveryRowAccounted | client/toll/prepass.go:194-211 | parsed + errors + skipped = data rows; numbers increase strictly in both lists; sheet row n is in the rows, the errors or blank according to what it holds |
| TollParse.RowsAreParsed | client/toll/prepass.go:194-211 | every row of the result is what one sheet row parses to, every error what one fails with |
| TollParse.NamesFollowIff | client/toll/sheet.go:151-161 | after a rearrangement every name leads to its old column if and only if the first column of each name is still the first |
| TollParse.CellMoves | client/toll/sheet.go:187-196 | a cell read by name is the same after its columns moved |
| TollParse.RawMoves | client/toll/sheet.go:201-212 | so is the raw map |
| TollParse.CandidatesStay | client/toll/sheet.go:133-142 | rearranging columns moves no header row |
| TollParse.NamesakesIf | client/toll/sheet.go:151-161 | the condition on namesakes holds when all names differ, and when columns are only inserted |
| TollParse.AccountMoves | client/toll/prepass.go:340-361 | inserting blank columns in the sheets beside the data sheet leaves the account as it was |
| TollParse.ColumnsMayMove | client/toll/prepass.go:175-215 | permuting columns of the data sheet and inserting blank ones in any sheet leaves the whole result as it was, as long as columns of one name keep their order |
| PermCache.StepKeepsInv | auth/perm_resolver.go:60-131 | every step keeps: entries and held answers are genuine and no older than lifetime and flight allow |
| PermCache.StalenessBounded | auth/perm_resolver.go:17-104 | in every run, lost invalidations included, what a caller gets was the auth service's answer at most one lifetime and two flights ago, and empty lists are never cached |
| PermCache.StalenessIsTight | auth/perm_resolver.go:60-104 | a run reaches that bound with an answer that was outdated at once |
| PermCache.PurgedServesNew | auth/perm_resolver.go:106-131 | when nothing older is cached or held, nothing older is ever served again |
| PermCache.InvalidationEffectiveIff | auth/perm_resolver.go:106-131 | a delete that reached Redis is effective in every continuation if and only if no flight already holds an answer from before the write |
| PermCache.OthersKeepFlight | auth/perm_resolver.go:58-70 | a process's flight is its own |
| PermCache.World.GetUserPerms | auth/perm_resolver.go:60-104 | with others acting between its steps: what the first read finds is returned at once; else it joins the flight that is out or leads one. A list is an answer within the bound, an error means a resolution just failed, and a caller waits only while a flight is out |
| PermCache.World.Join | auth/perm_resolver.go:70-104 | a caller that joins a flight gets what the flight ends with |
| PermCache.World.Fly | auth/perm_resolver.go:70-95 | the single-flighted closure, step by step: what the re-check finds is the result; else the auth service's answer, cached unless it is empty or the write fails, or its error |
| PermCache.PermCacheKeys | auth/perm_resolver.go:137-161 | exactly both key shapes of every user, or only the canonical ones without an acting company |
| PermCache.KeysTellUsersApart | auth/perm_resolver.go:163-168 | no two users share a key |
| RateLimit.LogIsSpaced | ratelimit/ratelimit.go:13-19 | counting windows do not overlap and the one between two others takes its full length |
| RateLimit.WindowsEnd | ratelimit/ratelimit.go:13-19 | a hit joins the window of the one before it if and only if that opened less than a window ago, or just a window ago with the counter still there; later hits do not prolong it |
| RateLimit.WindowAdmits | ratelimit/ratelimit.go:28-39 | a counting window admits exactly its first `limit` hits |
| RateLimit.RefusedIff | ratelimit/ratelimit.go:28-39 | a hit is refused if and only if its own window has admitted `limit` before it |
| RateLimit.IntervalBound | ratelimit/ratelimit.go:21-39 | any half-open interval one window long admits at most 2 * limit - 1 hits, and none for limits up to 0 |
| RateLimit.IntervalBoundIsTight | ratelimit/ratelimit.go:21-39 | a run reaches that bound |
| RateLimit.Key.IncrExpire | ratelimit/ratelimit.go:13-19 | the script counts in the current window or opens one |
| RateLimit.Allow | ratelimit/ratelimit.go:28-39 | passes without Redis or without an answer, else exactly when the count is within the limit |
| RmsGate.NewRegistry | rmsgate/processes.go:39-45 | the registry of the definitions |
| RmsGate.LastDefinitionCounts | rmsgate/processes.go:39-56 | a process has the mode of its last definition |
| RmsGate.FailsOpenIff | rmsgate/client.go:177-185 | without an answer a request passes if and only if there is a registry and its last definition of the process says fail-open; unknown processes are denied, and the verdict says which mode applied |
| RmsGate.RoundsAreShort | rmsgate/client.go:163-168 | between two openings at most five evaluations fail, and fewer while the circuit is closed |
| RmsGate.RoundsAreApart | rmsgate/client.go:150-168 | evaluations on both sides of an opening start at least two seconds apart |
| RmsGate.FewEvaluations | rmsgate/client.go:31-36 | one failing caller after the other, at most five evaluations start in any half-open two seconds |
| RmsGate.Client.Decide | rmsgate/client.go:150-175 | the whole new state and the verdict of a skipped, a failed and a successful call: the fifth failure in a row closes the gate for two seconds from its end |
| RmsGate.StepKeepsInv | rmsgate/client.go:151-173 | every atomic step keeps: the counter is the number of increments since the last reset, and a call about to open saw the threshold |
| RmsGate.OpenedOnlyAtThreshold | rmsgate/client.go:162-168 | in every interleaving the circuit is opened only by a call whose own increment came at least fifth since the last reset |
| RmsGate.ConcurrentEvaluations | rmsgate/client.go:150-162 | any number of concurrent calls can be evaluating before the first failure counts |
| RmsGate.UndisturbedCall | rmsgate/client.go:150-175 | a call undisturbed by others does to the atomics what the sequential client does |
| Calendar.YearLength | timewindow/timewindow.go:174-176 | the day-number formula gives 366 days to leap years and 365 to others, for all years |
| Calendar.GregorianLength | timewindow/timewindow.go:174-176 | consecutive month starts lie a Gregorian month apart |
| Calendar.GregorianIsProper | timewindow/timewindow.go:174-176 | the Gregorian calendar has months of 28 to 31 days |
| Calendar.DaysInIsTable | timewindow/timewindow.go:174-176 | `daysIn` is the month's length for all years, months beyond December included |
| Calendar.DaysInIsGregorian | timewindow/timewindow.go:174-176 | that is 31, 30, 28 or, in leap years, 29 days, month by month |
| Calendar.EpochIsThursday | timewindow/timewindow.go:141-148 | the calendar is anchored: 1 January 1970 is day 719162 and a Thursday |
| Calendar.DaysInIs | timewindow/timewindow.go:174-176 | the day before the first of the next month has the month's length as its number |
| Calendar.DateRead | timewindow/timewindow.go:170-171 | a date in range is read back as written |
| Calendar.MonthsBefore | timewindow/timewindow.go:159-172 | terminates in the month exactly n back, with the day cut to that month and the clock kept, for every n |
| Calendar.MonthsBeforeIs | timewindow/timewindow.go:155-172 | these clauses determine the result |
| Calendar.MonthsSpan | timewindow/timewindow.go:155-172 | n months back are 28n to 31n whole days |
| Calendar.MonthsMonotoneInDays | timewindow/timewindow.go:155-172 | later days step back to later days or the same |
| Calendar.MonthsInvertIff | timewindow/timewindow.go:166-171 | the order of two instants is lost if and only if both are days of one month cut to the same month end and the earlier day has the later clock |
| Calendar.ClockOrderIsLost | timewindow/timewindow.go:166-171 | 29 and 30 March of any common year, one month back |
| Calendar.StartOfWeekUnique | timewindow/timewindow.go:141-148 | the start of the week is the one Monday midnight with start <= t < start + 7 days |
| Calendar.Resolve | timewindow/timewindow.go:115-139 | an error exactly for malformed windows, else the range its kind covers |
| Calendar.RangesReachBack | timewindow/timewindow.go:115-139 | no range ends before it starts, reaches past now, or contains now |
| Calendar.LastWeeksTile | timewindow/timewindow.go:124-129 | an instant is in the last week of exactly the instants one week later; last week ends where week-to-date begins and the two cover all since its start once |
| Calendar.GetWeekStartIs | utils/date.go:52-63 | midnight UTC of the Monday at or before the local date |
| Calendar.WeekEndMeetsNext | utils/date.go:65-72 | week end plus a nanosecond is the next week's start |
| Calendar.WeekStartsAgree | timewindow/timewindow.go:141-148 | in UTC the two week starts of the library agree |
| Calendar.IsSameWeekIff | utils/date.go:101-106 | two dates are in the same ISO week if and only if `GetWeekStart` agrees |
| Luhn.LuhnCheck | validate/directive.go:54-76 | the backward loop accepts exactly 13 to 19 digits, spaces and dashes aside, whose weighted sum is a multiple of ten |
| Luhn.SeparatorsAreIgnored | validate/directive.go:55-56 | spaces and dashes do not count, wherever they stand |
| Luhn.OthersAreRefused | validate/directive.go:61-64 | any other character that is no digit makes the number invalid |
| Luhn.LengthsAre | validate/directive.go:56-58 | thirteen to nineteen digits and no other number of them |
| Luhn.PairsFromTheRight | validate/directive.go:59-75 | the sum, two digits at a time from the right: the last as it is, the one before it doubled, less nine if that makes two digits |
| Luhn.ChangeDetected | validate/directive.go:53-76 | changing one digit of an accepted number gives a rejected one |
| Luhn.SwapDetectedIff | validate/directive.go:53-76 | swapping neighbouring digits of an accepted number is accepted if and only if they are equal or 0 and 9 |
| Luhn.CheckDigitUnique | validate/directive.go:53-76 | every payload of 12 to 18 digits has exactly one check digit |

## Left out

- HTTP, gRPC, Redis, Kafka, SFTP and SQL drivers, JSON, logging: each appears as a step with the outcomes named above.
- Change calculation, the other methods of the event builder, query building and tenant scoping: plumbing around the modelled inserts.
- Transactions.Session: what other sessions commit and relays delete while it runs is not in its fields; the mail theorems take what a query saw as an argument.
- Records of a cut-off session that reached Kafka before the cut: the model lets them arrive right after it. Retries inside the Kafka client are not modelled.
- Order of events created at the same instant: the SELECT orders by creation time only.
- Rules of factoring providers other than RTS: `RulesFor` gives them none. The minimum gap between submissions is enforced by a scheduler that is not part of this model.
- RtsUpload.SubmitBatch: starts after `Batch.validate` and the provider rules, which are separate members; progress callbacks and cancellation between files are a stop at that point.
- Amounts in invoices are reals: NaN is not modelled.
- Final scaling of polyline coordinates, Excel serial dates and money parsing: floating point and decimals; the parser takes the converters as parameters, so its theorems hold for any of them.
- TollParse.Parse: takes the column names as a parameter, so that its theorems hold for every layout; `TollParse.PRE_PASS` holds the ones of PrePass.
- Reading Excel and CSV bytes, delimiter sniffing: foreign readers.
- Unicode case folding and white space above U+00FF: names are folded as ASCII.
- Flights are assumed to last no longer than a bound, clocks not to run backwards, and clocks of database, Redis and processes to be one clock per module.
- Zones with daylight saving: a zone is a fixed offset.
- 64-bit overflow of instants and of the failure and hit counters, except the 32-bit wrap of the concurrent failure counter.
- Labels, wire names and the other validation directives: easy members.
