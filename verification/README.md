# FLOP Bench, modelled and verified

FLOP Bench is a small client of a room protocol: a local SQLite state that several processes share, and a remote
append-only room log that it reads in pages and writes with signed, nonce-numbered posts whose outcome may stay
unknown. This project models that behaviour in Dafny and proves what the client promises about it.
`dafny verify dfyconfig.toml` checks all of it.

The model follows the program's parts.

- **Delivery.** `RoomLog`, `Paging` and `HistoryScan` model the bounded scan of a room's history. `Reconcile` holds the two
  transition functions of reconciliation. `Delivery` is a step relation over audit rows, nonce counter, POSTs on
  their way, reconciliations and room logs: every transaction, request and reply is one step, and steps of any number
  of processes interleave. `SerialDelivery` says exactly when a POST repeats a text, `Downgrades` exactly when a
  confirmed row weakens, `NeverSent` what a failed send has left, and `DeliveryRuns` gives concrete overlapping runs.
  `ServedScans` ties the scans of a run to the page loop against a room that grows meanwhile. `AuditStore` is the
  mutable store with the operations of `posting.py` and `execution.py`, each proved to be a path of the step relation.
- **Mailbox.** `Mailbox` and `MailboxPoll` model classification and the bounded poll with its many exits, `Intake` the
  table and its transactions, `IntakeRuns` any number of pollers, review decisions and completions on that table,
  `IntakeActivation` what the activation at the time of a poll decides.
- **Execution.** `LiteralEquality` is the one remote procedure, `Execution` the eligibility report and the reservation
  transactions, `ExecutionRuns` any number of executors, with crashes, beside the mailbox system of `IntakeRuns`.
- **Worker.** `Backoff` and `Worker` model pacing, lease and polling loop, `WorkerRuns` many instances on one lease row.
- **Files and formats.** `Ledger`, `LedgerRuns`, `Provenance` and `Export` model the hash-chained ledger and the export verifier,
  `Numerals`, `Base58`, `Preimage` and `NoteFrame` the codecs. `Common` holds shared datatypes.

Where code updates state or runs a loop, the model has classes, methods and loops with a functional specification;
whole-run theorems are lemmas about step relations. A server is a function from request number and cursor to a reply,
so that every theorem that quantifies over servers covers dishonest ones; an honest server answers each request with
the first entries behind the cursor of an append-only log that may grow between requests. SHA-256, Ed25519, JSON and
timestamps are abstract: hashes and signature checks are function parameters, and results that need collision
resistance return an explicit collision instead.

## Where the code and its documents differ

- `docs/REQUEST_PROTOCOL.md:97`, `docs/RISK_CONSTITUTION.md:36` and `SECURITY.md:95` say that a confirmed row is never
  downgraded. Reconciliation reads its row, scans, and writes without reading again. So a row weakens exactly when a
  stale absence is written: the reconciliation read the row while it stood as its failed send had left it, found no
  message, and another one has confirmed the row meanwhile (`Downgrades.WeakensIffStale`, `Downgrades.NeverWeakensIff`;
  a concrete run is `DeliveryRuns.OverlappingReconcilesDowngrade`). When its scan was complete, the POST of the row was
  applied after the last request of that scan (`Downgrades.WeakenedByLatePost`). Rows that the send itself confirmed and
  rows that found their text already posted never weaken (`Downgrades.PostedStays`, `Downgrades.AlreadyPostedStays`),
  and none does when the reconciliations of each row follow one another (`Downgrades.SerialNeverWeakens`).
- `docs/REQUEST_PROTOCOL.md:97` says that DID plus message hash prevents duplicates. That is so exactly when no POST is
  overtaken by another with its text after the last request of its own scan (`SerialDelivery.RepeatsIffOvertaken`,
  `SerialDelivery.NoDuplicatesIff`). Serial sends never are; two overlapping sends can be
  (`DeliveryRuns.OverlappingSendsDuplicate`).
- The mailbox cursor can move back, exactly when a commit is overtaken by one further on
  (`IntakeRuns.FallsIffOvertaken`); no row is lost by that.
- Appends take no lock. A ledger stays valid exactly when none is interrupted by another
  (`LedgerRuns.VerifiesIffUninterrupted`), while `execute_passive` may run for several requests at once.
- Under the shipped limits a room of 2000 entries can no longer be searched, so that posting to it stops and no
  absence is ever concluded (`Reconcile.LargeRoomNeverSearched`).
- The two transition functions are meant to be the same; they differ in `state_write` on one family of inputs, which
  no scan produces (`Reconcile.TransitionsAgreeIff`, `Reconcile.ScansAgree`).
- The worker's lease is longer than its poll interval but may be shorter than its backoff, so it can run out while
  its holder sleeps; `Backoff.LeaseOutlastsSleepIff` gives the exact condition.

## Model

| member | source | states |
|---|---|---|
| HistoryScan.ReadPage | src/flop_bench/posting.py:354-380 | the inner loop over one page keeps the minima and the largest sequence number exact |
| HistoryScan.ScanRoomHistory | src/flop_bench/posting.py:297-410 | against any server the tally holds the true minima of what was read; against an honest growing log a complete scan has read the whole log as of its last request, an incomplete one a part of a log; an honest log that a scan completed fits the limits, and undisturbed the scan completes at exactly the request at which the growing log first ends in a short page within the limits on pages, items and bytes; exactly an unsupported page size is an error |
| HistoryScan.CompletesExactlyWhen | src/flop_bench/posting.py:297-410 | undisturbed, a scan of a growing log completes exactly when there is such a request; for a log of n entries that stands still, exactly when n/p is below the page limit, p times n/p below the item limit, and the n/p + 1 replies are within the byte limit |
| HistoryScan.ScanDetermined | src/flop_bench/posting.py:297-410 | against any server, a scan that fails included: what was read is exactly the messages of the pages that passed the checks, in order, and requests, counts, reason of the end and tally are settled by server, clock and limits alone |
| HistoryScan.FrontIsRead | src/flop_bench/posting.py:354-410 | against an honest server every entry within the pages read was seen, complete scan or not, and a match among them is reported at its number or a lower one |
| HistoryScan.PageOfCases | src/flop_bench/posting.py:328-353 | a reply is read exactly when it is direct, within the byte limit, a 200 and an object, and refused for the first thing that is wrong otherwise |
| HistoryScan.StatusClasses | src/flop_bench/posting.py:493-498 | the statuses of each of the three failure classes |
| Reconcile.LargeRoomNeverSearched | src/flop_bench/posting.py:44-47 | under the shipped limits no scan of a room of 2000 or more entries is ever complete, so every preflight fails and no reconciliation concludes absence |
| Reconcile.LargeRoomFrontSearched | src/flop_bench/posting.py:44-47 | a reconciliation of such a room still finds its message among the first 2000 entries and concludes from it, when the server answers in time and within the byte limit |
| Reconcile.ObservationMeans | src/flop_bench/posting.py:884-907 | the verdict read off the messages seen: the own message first, then one with another nonce, then absence exactly after a complete scan |
| HistoryScan.DescribesUnique | src/flop_bench/posting.py:355-377 | what was read determines all five results, so page size and the pace of the log leave no trace in them |
| HistoryScan.HonestPage | src/flop_bench/posting.py:351-391 | reading an honest page from a cursor that stands at the end of a prefix extends that prefix; a short page ends at the end of the log, a nonempty one moves the cursor |
| RoomLog.MessageSeq | src/flop_bench/posting.py:189-197 | a message's sequence number is positive or missing |
| RoomLog.ReadNonce | src/flop_bench/posting.py:200-212 | a nonce read from a room is a positive integer of at most 19 digits, or missing |
| RoomLog.NonceHasDigits | src/flop_bench/posting.py:200-212 | that is exactly a positive integer whose decimal text has at most 19 digits |
| Reconcile.PostWritesIffChanged | src/flop_bench/posting.py:517-569 | `state_write` of the post version is true exactly when the row changes |
| Reconcile.TransitionsAgreeIff | src/flop_bench/execution.py:818-868 | both versions always produce the same row, and agree on `state_write` exactly outside the family where an exact match without sequence number meets a confirmed row that has one |
| Reconcile.IdleRewriteExists | src/flop_bench/execution.py:828-838 | a concrete input on which the delivery version rewrites an unchanged row and the post version does not |
| Reconcile.ScansAgree | src/flop_bench/execution.py:1114-1158 | on every observation that a scan can lead to, the two versions do the same |
| Reconcile.SettleMeaning | src/flop_bench/posting.py:517-569 | folding any list of serialized observations means: an exact match fixes the row, else an absence weakens a weak row, else nothing changes |
| Reconcile.SettleOrderFree | src/flop_bench/posting.py:517-569 | order and repetition of serialized observations do not matter |
| Reconcile.SettleMonotone | src/flop_bench/posting.py:517-569 | strong statuses stay strong, a known sequence number is never lost, one exact match fixes `reconciled_posted` without failure, and nothing else produces that status |
| Delivery.NextNonce | src/flop_bench/state.py:1281-1299 | a new nonce exceeds every nonce handed out before, whatever the clock says |
| Delivery.PostedIffOwnEntry | src/flop_bench/posting.py:759-852 | a row reads posted exactly when a direct 200 of allowed size carried a record that is, as a room message, the entry the POST would leave, so the send accepts at once what a later reconciliation would match |
| Delivery.LostReplyCases | src/flop_bench/posting.py:501-513 | a failure without response leaves `failed_pre_transmission` exactly for the four failures of the connection, `unknown_outcome` with its prefixed failure exactly for the seven ambiguous ones, and `confirmed_rejected` otherwise |
| Delivery.ResponseCases | src/flop_bench/posting.py:759-851 | which response leads to which status, failure and number |
| Delivery.NextInv | src/flop_bench/posting.py:646-949 | every step of every process keeps the invariant that ties rows, nonces, POSTs on their way, logs and reconciliations together |
| Delivery.HitIsOwn | src/flop_bench/posting.py:360-377 | an entry with the agent's DID and a row's nonce was submitted by that row's attempt, to that room, with that text |
| Delivery.AttributionSound | src/flop_bench/posting.py:865-926 | in every interleaving, with POSTs applied late, repeatedly or never and clocks running backwards, a row becomes `reconciled_posted` only with an entry of its own attempt behind it at the recorded sequence number |
| Delivery.NoncesDistinct | src/flop_bench/state.py:1281-1299 | nonces are pairwise distinct over all rows of both audit tables in every interleaving |
| NeverSent.NothingWasSent | src/flop_bench/posting.py:501-513 | in every interleaving whose transports name a connection failure only when the request did not get out, a row that reads `failed_pre_transmission` has no POST on its way and no entry in any room |
| NeverSent.StoppedMeansUnsent | src/flop_bench/posting.py:668-739 | in every interleaving, a send that its preflight stopped has no POST on its way and no entry in any room |
| SerialDelivery.RepeatsIffOvertaken | src/flop_bench/posting.py:678-759 | in every interleaving whose clears stand behind complete scans, a POST repeats a text of its room exactly when the same text was applied to that room after the last request of the scan that cleared it |
| SerialDelivery.NoDuplicatesIff | src/flop_bench/posting.py:646-862 | a run leaves no text twice in a room exactly when no POST of it is overtaken in that way |
| SerialDelivery.SerialSendsNeverDuplicate | src/flop_bench/posting.py:646-862 | in every serial run of sends and crashes with complete scans, whose POSTs are applied at most once and before the next send begins, no room holds two entries with the DID of the agent and the same text |
| DeliveryRuns.OverlappingSendsDuplicate | src/flop_bench/execution.py:871-1092 | a concrete run of two overlapping sends with complete scans whose second POST is overtaken, and that so leaves a text twice in a room |
| Downgrades.WeakensIffStale | src/flop_bench/posting.py:865-926 | in every interleaving, a step weakens a strong row exactly when it writes a stale absence: a reconciliation that read the row before it was confirmed or settled, found no message, and ends after another one has confirmed the row |
| Downgrades.NeverWeakensIff | src/flop_bench/posting.py:517-569 | a run keeps every confirmed row confirmed for ever, with its sequence number and without failure, exactly when it holds no stale absence |
| Downgrades.SerialNeverWeakens | src/flop_bench/posting.py:865-949 | runs in which the reconciliations of each row follow one another, crashes included, never weaken a confirmed row |
| Downgrades.PostedStays | src/flop_bench/posting.py:844-862 | in every interleaving, a row that its own send confirmed is `posted` or `reconciled_posted` for ever, and every reconciliation of it has read it as strong |
| Downgrades.AlreadyPostedStays | src/flop_bench/posting.py:694-717 | an `already-posted` row never changes again, and no reconciliation ever reads it |
| Downgrades.WeakenedByLatePost | src/flop_bench/posting.py:884-926 | behind every row that weakens after a complete scan stands a late POST: at the last request of the scan no POST of the attempt had been applied, and before the write one was |
| DeliveryRuns.OverlappingReconcilesDowngrade | src/flop_bench/posting.py:865-949 | a concrete run of two overlapping reconciliations with complete scans that ends in a stale absence: a confirmed row weakens although its entry is in the room |
| AuditStore.Store.NextPostNonce | src/flop_bench/state.py:1281-1299 | the allocator stores and returns the next nonce, above the stored one and not below the clock |
| AuditStore.Store.Update | src/flop_bench/state.py:1340-1362 | an audit update changes the outcome columns of one row and nothing else |
| AuditStore.Store.Preflight | src/flop_bench/posting.py:668-739 | audit row, scan and ownership check are a path of the model; the send is cleared exactly when the scan is complete without match and the owner check does not fail, and otherwise the row it leaves is determined: `already-posted` with the match, or `failed_preflight` with the failure |
| AuditStore.Store.Deliver | src/flop_bench/posting.py:741-862 | from nonce reservation to last audit write: a path of the model, with the row, the POST and the counter it leaves |
| AuditStore.Store.Send | src/flop_bench/posting.py:646-862 | a whole send is a serial path of the model whose clear stands behind a complete scan; refused, it spends no nonce and posts nothing; cleared, its row, its nonce and its POST are determined by clock, signature and reply |
| AuditStore.Store.ReconcileAttempt | src/flop_bench/posting.py:865-949 | a reconciliation is a path of the model; it refuses exactly unknown attempts, rows of the wrong kind of room, rows of another DID and rows without nonce, in this order, and otherwise writes the transition of its observation; a match confirms the row, an incomplete scan included when the match is within the pages read, and a complete scan finds one exactly when the room holds it |
| AuditStore.Store.constructor | src/flop_bench/state.py:432-446 | a fresh state directory is a valid store and starts a run |
| AuditStore.PathExtendsRun | src/flop_bench/posting.py:646-949 | the path of an operation carries a run on in which sends and writes are serial and all scans complete |
| ServedScans.CompleteSeesAll | src/flop_bench/posting.py:297-410 | a complete scan of an honest room that grows meanwhile has seen every entry of the agent that the room held at its last request |
| ServedScans.SearchedRunsComplete | src/flop_bench/posting.py:297-410 | runs in which every clear and every complete reconciliation follows a complete scan, by a server that at each request serves the room as it is at that step, meet the hypotheses of the theorems on duplicates and weakened rows |
| Mailbox.Classify | src/flop_bench/mailbox.py:198-249 | a message is refused exactly when its sequence number or text is missing |
| Mailbox.ClassificationMeans | src/flop_bench/mailbox.py:181-249 | verified means a sender that names a 32-byte key, and a nonce; a valid request is a verified message that parses for that sender; malformed is exactly the unverified |
| Mailbox.ClassifyForWell | src/flop_bench/mailbox.py:252-259 | with or without active intake, a classified message stores its request exactly as valid or inactive request, and only a valid request awaits review |
| Mailbox.ClassifyForCases | src/flop_bench/mailbox.py:252-259 | a message becomes a pending valid request exactly when intake is active and sender, nonce and envelope qualify, an inactive and rejected one with the same request exactly when they qualify and it is not; everything else is classified alike |
| Mailbox.JudgeCases | src/flop_bench/mailbox.py:575-605 | what each reply is taken for: a page, an empty room, a reason to retry once, or a failure with its name |
| Mailbox.ClassifyPage | src/flop_bench/mailbox.py:611-630 | the loop over a page succeeds exactly on gapless, well-formed messages behind the cursor and yields their classification |
| Mailbox.ClassifyAllConcat | src/flop_bench/mailbox.py:608-638 | classifying page by page equals classifying at once |
| MailboxPoll.Request | src/flop_bench/mailbox.py:571-630 | one request, its checks in order and the classification of its page |
| MailboxPoll.Poll | src/flop_bench/mailbox.py:553-645 | every exit against any server: a completed poll has read exactly the pages of the usable replies, in order, up to a short page or a 404, and is their classification, gapless behind the cursor; against an honest server that is everything there; undisturbed it completes at exactly the request at which the growing log first ends in a short page, within the limits on pages and items and on the bytes of each reply and of all; an incomplete poll names what stopped it: time, limits, a refused reply or a page that does not go on; at most one request more than pages |
| MailboxPoll.StillLogCompletes | src/flop_bench/mailbox.py:553-645 | for a log that stands still while polled, that is exactly when n/p is below the page limit, p times n/p below the item limit, and the n/p + 1 replies are within the byte limits of each and of all |
| MailboxPoll.PageSizeIrrelevant | src/flop_bench/mailbox.py:538-645 | completed polls of one log that end at the same cursor have the same items, for all page sizes and limits |
| Intake.MailboxDb.StoreMailboxPoll | src/flop_bench/state.py:1451-1566 | all or nothing: on a database error table and cursor are as before, else every message is stored or known; each counts once as inserted, duplicate or dropped fallback, and the reported duplicate ids are those for which the id is in use and is what SQLite names |
| Intake.MailboxDb.SetReviewStatus | src/flop_bench/mailbox.py:695-726 | a decision succeeds exactly when a pending row carries the id |
| Intake.MailboxDb.PollMailbox | src/flop_bench/mailbox.py:538-668 | a poll stores the classification of the slice behind its cursor and moves the cursor to its end, or changes nothing; undisturbed it completes exactly when the growing log comes to a short page within the limits |
| IntakeRuns.StoreAllOk | src/flop_bench/state.py:1464-1548 | storing a gapless slice that starts within the table keeps coverage, labels and reviews, and appends exactly the messages beyond the table |
| IntakeRuns.StepInv | src/flop_bench/state.py:1451-1566 | every step of pollers, review decisions, activation and completions keeps the table's invariant; polls only append |
| IntakeRuns.Coverage | src/flop_bench/mailbox.py:553-644 | in every interleaving of pollers and against any server, every sequence number up to the cursor has exactly one row |
| IntakeRuns.DecisionsAreFinal | src/flop_bench/mailbox.py:695-726 | along every run rows keep their content, a decided review never changes, and links are set once |
| IntakeRuns.LabelsUnique | src/flop_bench/state.py:473-475 | a request id labels the lowest row that carries a request with that id; later ones are duplicates |
| IntakeRuns.OneLabel | src/flop_bench/state.py:473-475 | no request id labels two rows |
| IntakeRuns.DecisionHitsOneRow | src/flop_bench/mailbox.py:703-714 | a decision changes the review of exactly the one row labelled with the id |
| IntakeRuns.CompletionHitsOneRow | src/flop_bench/state.py:1791-1799 | a completion links exactly the one row labelled with the id |
| IntakeRuns.FallsIffOvertaken | src/flop_bench/state.py:1549-1557 | in every interleaving a step moves the cursor back exactly when it commits a scan since whose opening others have committed, the last of them further on |
| IntakeRuns.CursorNeverFallsIff | src/flop_bench/mailbox.py:553-644 | a run never moves the cursor back exactly when no commit of it is overtaken in that way |
| IntakeRuns.SerialCursorNeverFalls | src/flop_bench/state.py:1549-1557 | under polls that do not overlap the cursor never moves back |
| IntakeRuns.OverlappingPollsRewind | src/flop_bench/state.py:1549-1557 | a concrete run of two overlapping polls whose second commit is overtaken: the cursor goes back from 2 to 1 while the rows stay |
| IntakeRuns.TableMirrorsRoom | src/flop_bench/mailbox.py:553-645 | when every committed scan is a slice of one append-only log, each row holds sender, nonce and text of the log entry with its number, in every interleaving |
| IntakeActivation.InactiveStaysRejected | src/flop_bench/mailbox.py:608-638 | in every interleaving, a row stored by a poll that read inactive intake is rejected for ever |
| IntakeActivation.ReviewedWasActive | src/flop_bench/mailbox.py:553-645 | behind every request that is pending or approved stands a poll that read active intake and then stored it |
| LiteralEquality.EscapeAllInjective | src/flop_bench/canonical.py:9-16 | JSON string escaping loses nothing |
| LiteralEquality.UnescapeInverts | src/flop_bench/canonical.py:9-16 | an escaped string is the inside of a JSON string of RFC 8259, and reading it gives the string back |
| LiteralEquality.CanonicalTextReads | src/flop_bench/canonical.py:9-16 | canonical text is the JSON text of the value: a literal, a numeral that denotes the integer, or a string that reads back |
| LiteralEquality.CanonicalTextInjective | src/flop_bench/execution.py:303-318 | canonical text alone tells scalars of all types apart |
| LiteralEquality.PassesIffSame | src/flop_bench/execution.py:303-318 | the procedure passes exactly when the two values are the same scalar of the same JSON type |
| LiteralEquality.EvidenceMeans | src/flop_bench/execution.py:303-318 | the evidence names type and hash of each side, and equal hashes of values that do not pass are a collision |
| Execution.CollectedIffApplies | src/flop_bench/execution.py:192-241 | each blocker, the manual-recovery one included, is collected exactly when it applies to activation, row, execution and time |
| Execution.NoOtherBlocker | src/flop_bench/execution.py:192-241 | the report is empty, or names the reservation only, exactly when intake is active, the row is an approved, unexpired, supported and usable request, and its execution is absent or completed, or for the weaker case not in manual recovery |
| Execution.VerdictMeans | src/flop_bench/execution.py:328-329 | the evidence says PASS for equal scalars and FAIL for different ones |
| Execution.ExecutionDb.Reserve | src/flop_bench/state.py:1704-1747 | a reservation is created exactly when the id has none, and leaves all others alone |
| Execution.ExecutionDb.MarkRunning | src/flop_bench/state.py:1750-1760 | only a reserved execution starts running |
| Execution.ExecutionDb.CompleteExecution | src/flop_bench/state.py:1763-1811 | completion succeeds exactly on a running execution, changing both tables together, and otherwise changes nothing |
| Execution.ExecutionDb.Eligibility | src/flop_bench/execution.py:192-241 | the blockers of the stored row under the activation, execution and time at hand |
| Execution.ExecutionDb.ExecutePassive | src/flop_bench/execution.py:434-520 | an undisturbed execution happens exactly when the id is new, intake is active and the request may run at both checks; it appends one evidence record with the verdict of the stored request, completes a fresh reservation and links the message; every other outcome leaves ledger and messages alone, and a completed execution is reported exactly when there is one and the request could run again |
| ExecutionRuns.AccountAdvances | src/flop_bench/execution.py:434-520 | per request id, database, history and ledger together go through six states, and a step of any process moves at most one forward |
| ExecutionRuns.AtMostOnce | src/flop_bench/execution.py:434-520 | in every interleaving with crashes, each id runs its procedure at most once and has at most one evidence record, only after a run |
| ExecutionRuns.StatusOnlyAdvances | src/flop_bench/state.py:1704-1811 | the stored status only goes from reserved over running to completed, and a completed row never changes |
| ExecutionRuns.LabelsAndStatuses | src/flop_bench/state.py:537-556 | along every run request ids label one row each and the manual-recovery status is never written |
| ExecutionRuns.CompletedAgrees | src/flop_bench/state.py:1763-1811 | a completed execution agrees with its ledger record and its message row, and its result is the verdict of the procedure the request named |
| ExecutionRuns.RecheckedAfterReservation | src/flop_bench/execution.py:443-484 | whoever runs a procedure has, after its own fresh reservation, read activation as active, then the row as approved and valid, then found it unexpired, in this order |
| ExecutionRuns.CompletionWasRechecked | src/flop_bench/execution.py:434-505 | behind every completed execution there is one executor that reserved it freshly, passed the full check afterwards and completed it, in this order |
| ExecutionRuns.OrphansStay | src/flop_bench/execution.py:445-462 | a reservation whose holder crashed or gave up is never run, recorded or completed by anyone |
| Backoff.DelayBounds | src/flop_bench/worker.py:345-348 | every delay lies between poll interval and maximal backoff |
| Backoff.DoublesToCap | src/flop_bench/worker.py:345-348 | without jitter the delay starts at the interval, doubles up to the cap and never falls along a failure run |
| Backoff.StaysAtCap | src/flop_bench/worker.py:345-348 | once interval times a power of two reaches the cap, the delay stays there |
| Backoff.CapIsReached | src/flop_bench/worker.py:345-348 | every long enough failure run reaches the cap |
| Backoff.JitterIsBounded | src/flop_bench/worker.py:345-348 | jitter moves the delay by at most a tenth |
| Backoff.JitterTilts | src/flop_bench/worker.py:345-348 | a jitter tilts the delay by itself, or by a tenth when it is larger, between interval and cap |
| Backoff.LeaseIsLeast | src/flop_bench/worker.py:289-289 | the lease is the least one of at least a minute and two intervals |
| Backoff.LeaseOutlastsSleepIff | src/flop_bench/worker.py:289-289 | the lease outlasts every sleep exactly when the cap is within the lease; the default timing has a cap of 300 and a lease of 60 seconds |
| Worker.StreakIsTrailing | src/flop_bench/state.py:833-834 | the failure count is the length of the trailing run of failures |
| Worker.FailuresAreStreak | src/flop_bench/worker.py:343-344 | the count that paces a run continues the trailing failure run of earlier instances |
| Worker.PacesBounded | src/flop_bench/worker.py:330-348 | every delay of a run is within its bounds |
| Worker.PacesFollowStreak | src/flop_bench/worker.py:330-348 | each delay is the interval after a complete poll and else the backoff for the failures in a row behind it, those of earlier instances included |
| Worker.WorkerDb.AcquireLease | src/flop_bench/state.py:757-802 | the lease is granted exactly unless another instance holds it unexpired or with an unreadable expiry; failure count and history survive |
| Worker.WorkerDb.UpdateWorker | src/flop_bench/state.py:805-864 | only the holder renews and records outcomes; the count stays the trailing failure run |
| Worker.WorkerDb.ReleaseLease | src/flop_bench/state.py:867-878 | only the holder's release changes the row |
| Worker.WorkerDb.PollOnce | src/flop_bench/worker.py:311-360 | one turn under a lease that rivals may take while the worker sleeps or polls: when the lease is found lost, and the whole row afterwards, with backoff and failure classification |
| Worker.WorkerDb.RunWorker | src/flop_bench/worker.py:268-389 | every exit, refusals included: the instance leaves without its lease; it takes every turn up to the first that is stopped, deactivated or ends a single poll, or up to the one at which it finds that a rival took the lease; all delays follow the outcomes and the stored failures, and without rivals every outcome is recorded |
| WorkerRuns.CountsTrailingFailures | src/flop_bench/state.py:833-834 | over any run of any number of instances the stored count is the trailing failure run of the recorded outcomes |
| WorkerRuns.RowTellsLastGrant | src/flop_bench/state.py:757-864 | over any run the row tells the time and the expiry of the last grant |
| WorkerRuns.RowTellsLastOutcome | src/flop_bench/state.py:805-864 | and the last outcome: a success clears failure and backoff, a failure leaves its own |
| WorkerRuns.RunsWhileHeld | src/flop_bench/state.py:757-878 | the worker reads as running exactly while an instance holds the lease |
| WorkerRuns.StoredBackoffBounded | src/flop_bench/state.py:835-836 | in every interleaving the stored backoff is 0 without failures and else within the interval and the cap of the instance that recorded the last outcome |
| WorkerRuns.StoredBackoffExact | src/flop_bench/worker.py:343-359 | with one worker polling at a time the stored backoff is the delay of that instance for the stored failure count |
| WorkerRuns.TakeoverNeedsExpiry | src/flop_bench/state.py:768-783 | another instance gets the lease only after its holder released it or it was found expired |
| WorkerRuns.Fenced | src/flop_bench/state.py:820-878 | after a takeover every update and release of the old instance fails without changing the row |
| WorkerRuns.LeasesDisjoint | src/flop_bench/state.py:757-878 | with one nondecreasing clock, unexpired leases of different instances never overlap unless released early |
| Ledger.VerifyLedger | src/flop_bench/ledger.py:56-76 | the loop accepts exactly the readable chains, with count and last hash, and else names the first bad line and its defect |
| Ledger.StrCases | src/flop_bench/ledger.py:25-25 | the text of a recorded hash that is no string |
| Ledger.LedgerFile.PreviousHash | src/flop_bench/ledger.py:17-25 | the hash behind the last line that is not blank, unless some line is not JSON |
| Ledger.LedgerFile.Append | src/flop_bench/ledger.py:33-53 | one sealed record is appended, or nothing when the last record cannot be read |
| Ledger.LedgerFile.Verify | src/flop_bench/ledger.py:56-76 | a missing file verifies with no records, an existing one by its lines |
| Ledger.SealedIsSound | src/flop_bench/ledger.py:33-36 | a sealed record carries its own hash and the right link and is otherwise the given record |
| Ledger.AppendsVerify | src/flop_bench/ledger.py:33-76 | every sequence of appends makes a ledger that verifies, with the right count and contents |
| Ledger.LastHashFixesLedger | src/flop_bench/ledger.py:28-76 | two accepted chains with the same last hash are the same records, or two texts with equal hash are exhibited |
| Ledger.MiddleDeletionCollides | src/flop_bench/ledger.py:56-76 | deleting records from the middle or the front while the rest stays accepted exhibits a collision or is impossible |
| Ledger.TailTruncationAccepted | src/flop_bench/ledger.py:56-76 | a truncated tail stays accepted, but with another last hash or a collision |
| LedgerRuns.VerifiesIffUninterrupted | src/flop_bench/ledger.py:33-76 | a run of appends of any number of processes leaves a ledger that verifies exactly when no record is written between the look and the write of another append, unless a collision is exhibited |
| LedgerRuns.OverlappingAppendsReject | src/flop_bench/ledger.py:33-53 | two appends that both look before either writes leave a ledger that no longer verifies |
| Provenance.VerifiedOfflineIffSigned | src/flop_bench/provenance.py:152-193 | a record counts as verified exactly under a good signature of its own room, nonce and text by an uncontradicted DID, which is the text Bench signs when it posts |
| Provenance.SignedTextPinsRecord | src/flop_bench/provenance.py:48-49 | records with the same signed text have the same room, nonce and text, when no bar is in their rooms and in their nonces as they are signed |
| Provenance.OwnRecordsPinned | src/flop_bench/provenance.py:170-180 | so they have for the nonces that Bench uses and the rooms that it may write |
| Provenance.OneReadingIff | src/flop_bench/provenance.py:48-49 | within its room a signed text has one reading exactly when neither nonce nor text contains a bar |
| Provenance.OneSignatureTwoRecords | src/flop_bench/provenance.py:170-182 | two accepted records of one room and sender with different nonces and texts that always get the same status under one signature, verified when it is good |
| Provenance.StatusCases | src/flop_bench/provenance.py:170-193 | what each of the six statuses says about the record: the first three are the outcomes of the signature check, the others say what is missing for one |
| Provenance.AcceptedCases | src/flop_bench/provenance.py:92-147 | which records are accepted, and what is taken from them |
| Provenance.NonceTextCases | src/flop_bench/provenance.py:172-172 | the nonces that can be signed, and their texts |
| Provenance.FieldMeans | src/flop_bench/provenance.py:71-75 | a value with several names is that of the first name present |
| Provenance.StrCases | src/flop_bench/provenance.py:107-107 | Python's text of a value, as generations and nonces use it |
| Provenance.TruthyCases | src/flop_bench/provenance.py:186-186 | which values count as true |
| Provenance.OwnPostVerifies | src/flop_bench/provenance.py:152-193 | the record of a post with a good signature over the text that Bench signs verifies under its own room, number and text, and one with a bad signature reads as invalid |
| Export.TallyLines | src/flop_bench/provenance.py:276-307 | the loop's counters, sets and location map against the list of all accepted records |
| Export.NoConflictsIffConflictFree | src/flop_bench/provenance.py:303-307 | the streaming conflict count is 0 exactly when no two accepted records at one room, generation and number differ in hash |
| Export.VerifyExportFile | src/flop_bench/provenance.py:255-361 | the refusals in their order, then the report, equal to a specification over all lines at once |
| Export.ReportMeans | src/flop_bench/provenance.py:308-339 | records and malformed lines add up to the nonempty lines, status counts to the records; FAIL, MANIFEST_MISMATCH and PASS mean what they say about all lines |
| Export.ForgedExportFails | src/flop_bench/provenance.py:276-339 | an export that can be read fails exactly when the signature of an accepted record fails its check, a line is malformed or two records at one place differ |
| Export.RefusalCases | src/flop_bench/provenance.py:255-275 | when each refusal is made |
| Export.MismatchMeans | src/flop_bench/provenance.py:236-252 | a mismatch is reported exactly for the six counts that the manifest gives as another integer |
| Export.ManifestBindsFile | src/flop_bench/provenance.py:228-264 | a digest under any of the four names, prefixed or not and in any case, binds the file: with another hash the export is refused |
| Export.ExportRoom | src/flop_bench/provenance.py:405-487 | the manifest that an export writes gives room, generation, digest and all six counts, and verifies its own file with the same report and no count mismatch |
| Numerals.ConvertRoundTrip | src/flop_bench/identity.py:36-57 | converting a digit string to another base and back is the identity, leading zeros included |
| Base58.B58Encode | src/flop_bench/identity.py:36-44 | the loop computes the Base58 text of draft-msporny-base58-03, section 3 |
| Base58.B58Decode | src/flop_bench/identity.py:47-57 | the loop decodes exactly the Base58 texts and refuses every other |
| Base58.SymbolsInOrder | src/flop_bench/identity.py:28-28 | the symbols increase in character order |
| Base58.SymbolsAreAlphabet | src/flop_bench/identity.py:28-28 | the symbols are exactly the ASCII digits and letters but 0, O, I and l |
| Base58.DecodeInvertsEncode | src/flop_bench/identity.py:36-57 | decoding inverts encoding for all byte strings |
| Base58.EncodeInvertsDecode | src/flop_bench/identity.py:36-57 | encoding inverts decoding for all Base58 texts |
| Base58.ValidDidsAreImagesOfKeys | src/flop_bench/identity.py:64-76 | the accepted identifiers are exactly the images of 32-byte keys |
| Base58.KeyRoundTrip | src/flop_bench/protocol.py:30-36 | the key read from an identifier is the key it was made from |
| Preimage.DecimalReads | src/flop_bench/posting.py:244-246 | the decimal text of an integer is a numeral without superfluous zeros that denotes it in base ten, behind a minus sign for a negative one |
| Preimage.NumeralReads | src/flop_bench/posting.py:244-246 | there is no other such numeral |
| Preimage.DecimalInjective | src/flop_bench/posting.py:244-246 | the decimal text of an integer nonce determines it |
| Preimage.PostPreimageUnambiguous | src/flop_bench/posting.py:236-246 | for accepted rooms and integer nonces the signed bytes determine room, nonce and text, even when the text contains bars |
| Preimage.PostPreimageReads | src/flop_bench/posting.py:244-246 | read at its first two bars, what is signed for a post is the room, a numeral that denotes the nonce, and the text |
| Preimage.SignedExactlyFor | src/flop_bench/posting.py:236-246 | posts are signed for the agent's own room and for mailbox rooms, and for no other |
| Preimage.ClaimPreimageReads | src/flop_bench/activation.py:215-220 | the same for a room-owner note: namespace, room, nonce and DID |
| Preimage.EnvelopePreimageReads | src/flop_bench/protocol.py:43-44 | the same for an envelope: the protocol's name, the kind, and the canonical text |
| Preimage.MailboxRoomsMatch | src/flop_bench/posting.py:52-52 | the mailbox rooms are those that match the pattern |
| Preimage.SigningFormatsSeparate | src/flop_bench/activation.py:215-220 | no room post has the preimage of a room-owner note or of a protocol envelope |
| Preimage.CommutingWords | src/flop_bench/verification.py:86-88 | two words commute exactly when they are powers of one word |
| Preimage.OrdersIndistinguishable | src/flop_bench/verification.py:83-98 | the two field orders give the same text exactly when text and nonce, each with a bar, are powers of one word |
| Preimage.OrdersIndistinguishableNoBar | src/flop_bench/verification.py:83-98 | for a nonce without bar that is exactly when the text is one or more copies of the nonce joined by bars |
| Preimage.PassIff | src/flop_bench/verification.py:73-99 | PASS holds exactly when the order string and both payloads are as required and text and nonce, each with a bar, share no root word; for a nonce without bar, when the text is no chain of nonces |
| Preimage.VerdictCases | src/flop_bench/verification.py:76-99 | which requests are refused with which message, and which score and findings go with PASS and FAIL |
| NoteFrame.ParseInvertsFraming | src/flop_bench/identity_note.py:95-126 | for every banner line the parser returns a value exactly on the framings of that value within the size limits, and every such framing parses back |
| NoteFrame.NoteResponseExact | src/flop_bench/identity_note.py:95-126 | the same for the banner of the service |
| NoteFrame.BodyCases | src/flop_bench/identity_note.py:95-103 | what a response without text means |
| NoteFrame.RejectionCases | src/flop_bench/identity_note.py:95-126 | why a response is refused: for size and newlines first, then for its lines |
| NoteFrame.Utf8Carries | src/flop_bench/identity_note.py:98-122 | the bytes of a character carry its code point |
| NoteFrame.SizeCountsBytes | src/flop_bench/identity_note.py:98-122 | sizes count the bytes of the UTF-8 encoding of RFC 3629 |
| NoteFrame.FramingUnambiguous | src/flop_bench/identity_note.py:95-126 | no response carries two values or two tags |

## Left out

- Reconcile.TransitionsAgreeIff: the agreement that the design intends is false on the inputs named there, so the lemma gives the exact condition.
- Reconcile.SettleMonotone: is about serialized reconciliations of one row; for overlapping ones Downgrades.WeakensIffStale gives the condition.
- SerialDelivery.SerialSendsNeverDuplicate: is about serial sends; for all others NoDuplicatesIff gives the condition.
- IntakeRuns.SerialCursorNeverFalls: is about polls that do not overlap; for all others CursorNeverFallsIff gives the condition.
- Provenance.SignedTextPinsRecord: for nonce texts with a bar it is false, as OneSignatureTwoRecords shows; OneReadingIff gives the condition.
- AuditStore.Store.Send: the method runs without interference and with an honest server that serves the room in full; interleavings, dishonest pages and rooms that grow during a scan are in Delivery and ServedScans. The same holds for Preflight, Deliver and ReconcileAttempt.
- Execution.ExecutionDb.ExecutePassive: runs without interference; interleavings and crashes are the steps of ExecutionRuns.
- Worker.WorkerDb.RunWorker: runs a finite list of turns; a rival acts while the worker sleeps or polls, and all other interleavings are in WorkerRuns.
- Ledger.LedgerFile.Append: appends whole lines without interference; short writes and file errors are not modelled, and appends of several processes are in LedgerRuns.
- Backoff.DelayBounds: arithmetic is over the reals; float rounding and the overflow of the power of two past about 1024 failures are not modelled. The same holds for the other Backoff lemmas.
- Export.ExportRoom: file names, times and the two file writes are left out, and the file hash is taken to be 64 lower-case hexadecimal digits, as SHA-256 prints them.
- Both audit tables share one row numbering in Delivery; their ids are only names there.
- A message's "from" value that is not a string is treated like a missing one.
- One poll parses envelopes with one parser, fixed for its time; envelope parsing, JSON Schema and timestamps are an abstract classifier.
- Columns that no decision depends on (untrusted text, remote timestamp, provenance, received_at, message_id) are left out of the mailbox rows.
- Evidence ids and hashes are arbitrary in ExecutionRuns, and the evidence file and the run table are written together with the ledger record.
- Schema migration and database-missing blockers of eligibility, and all SQLite lock waits: only atomic steps and unique constraints remain.
- Live gates, note ownership lookups, router-linked results and delivery destinations before the scan: represented by one ownership check or left out.
- Procedure parsing and its size bounds are an abstract loader.
- A posted record's "seq" that is a boolean is treated like a missing one.
- `validate_verification_result` and delivery preparation: field checks and single inserts.
- JSON text, UTF-8, regular expressions, Ed25519 and SHA-256: abstract functions or character predicates.
- CLI, HTTP client, logging, signal handlers, file modes, schema migrations, `create_service`, activation previews and DID-note bookkeeping: plumbing or single guarded inserts.
