# Safety-confirmation cycle: a verified model

The repository runs a phone-based safety check. A *cycle* dials every employee on a limited number of
lines, records and classifies the answers, retries, and ends as COMPLETED or TIMEOUT. This project
models the parts of it whose correctness does not show in any single function, and proves what they
promise, for all inputs, all runs or all interleavings.

* **Scheduler** (`SchedulerModel`, `SchedulerSafety`, `SchedulerBounds`, `SchedulerOrder`, `Scheduler`):
  the discrete-event replay of phase lists under a cap on simultaneous calls. Safety, deadlock
  exactly when it can occur, termination, first-come-first-served order, and completion bounds.
* **Response rows and the retry loop** (`VoiceStatuses`, `ResponseRows`, `RowLedger`, `RetryLoop`): the conditional
  and unconditional updates of one row by all its writers as a ledger, and one employee's whole
  retry loop, whose phases feed the scheduler and give a deadline for the cycle.
* **The end of a cycle** (`CycleSummary`, `CycleProtocol`, `CycleSafety`, `CycleMetric`, `CycleSweep`, `CycleFinalizer`): the aggregates, the
  finalizer as a protocol whose every step is one table call, freely interleaved, duplicated and
  crashing, and the three handlers as methods of a class, each a run of the protocol.
* **Employees** (`PhoneNumbers`, `EmployeeCsv`, `EmployeeTable`, `EmployeeHistory`, `Anonymize`): the CSV gate and parser,
  import in batches with rollback, uniqueness of active numbers, and resumable anonymisation.
* **Dictionary** (`Classifier`, `Dictionary`, `DictionaryProtocol`, `DictionaryStability`): versions by
  compare-and-swap, exactly when a snapshot is final, and a classification that does not depend on when it is made.
* **Lockout** (`Lockout`): the lock predicate and why removing expired rows cannot be observed.
* **Time and selection** (`Timestamps`, `InboundSelection`, `InboundRead`, `InboundLaws`): printed UTC timestamps
  (section 5.6 of RFC 3339) and their order (section 5.1), and the choice of the cycle an incoming call belongs to.
* **Parsers and printers** (`RecordingKeys`, `ConditionEval`, `ConditionExact`, with `Strings`, `Digits`, `Sorting`, `Wrappers`):
  object keys that route back to their row, and the evaluator of condition expressions.

`dafny verify dfyconfig.toml` checks everything.

## How the source is represented

* A DynamoDB call is one atomic step. Clocks, identifiers, random outcomes, answers of other services
  and the choice of a call that fails are parameters, so every law holds for all of them.
* Code that changes state is a class or a loop proved against a function of the old state; the laws
  are lemmas about those functions. Event times and durations are real numbers, timestamps strings.
* A heap is a set of events whose sequence numbers differ; employees of the scheduler are named by position.

## Where the code and its documentation differ

The model follows the code.

* The lock is documented as lasting 30 minutes. It ends when the fifth newest failure leaves the
  window (`Lockout.LockEnds`), so it lasts 30 minutes from the newest failure exactly when the newest five
  fall on the same second (`Lockout.LastsWindowIff`, `Lockout.LockShorter`). And a threshold of zero does
  not lock always (`Lockout.ThresholdZero`).
* The timeout metric is documented as emitted exactly once. It is emitted at most once
  (`CycleSafety.OneFlipOneMetric`), and once exactly when the run that made the flip gets past its next step
  (`CycleMetric.EmittedIff`); a run that stops in between loses it (`CycleMetric.MetricLost`,
  `CycleMetric.MetricCanBeLost`).
* String comparison of timestamps is documented as chronological. It is so on the canonical form; with
  fractions there is one exception (`Timestamps.StringOrderIff`, `Timestamps.SecondOrder`). The selection is wrong
  exactly when it falls into the latest second of the group that decides (`InboundLaws.DecisionIff`), as in
  `InboundLaws.OneSecondFails`.
* A condition on an attribute named OR can be cut at the name. The evaluator is exact on all others, and on
  these exactly when the answer is settled before (`ConditionExact.EvalExactIff`, `ConditionExact.EvalFaithfulIff`).
* An anonymisation batch is documented as up to 25 operations; it has at most 24.
* A dictionary request rejected after its version bump leaves a version whose snapshot is empty
  (`Dictionary.EmptySnapshotIff`, `Dictionary.SnapshotExactIff`).

## Model

| member | source | states |
|---|---|---|
| `SchedulerSafety.RunInv` | backend/tests/integration/test_sla_300_mock.py:206-266 | In every reachable state each employee is in exactly one of heap, parked queue and completed, the busy slots are the pending ends of dispatches and never exceed the cap, and a non-empty queue means that every slot is busy. |
| `SchedulerSafety.MeasureDrops` | backend/tests/integration/test_sla_300_mock.py:223-263 | Each iteration lowers the pair (remaining phases, pending ready events), although a wake re-queues every parked employee. |
| `SchedulerSafety.DeadlockIff` | backend/tests/integration/test_sla_300_mock.py:268-272 | A run that has emptied the heap leaves somebody parked exactly when the cap is zero or less and some employee has a dispatch; otherwise everybody has completed. |
| `SchedulerSafety.PeakIsMaximum` | backend/tests/integration/test_sla_300_mock.py:236-237 | The reported peak is the largest number of slots ever busy in the run, and is reached. |
| `SchedulerBounds.RunTimeInv` | backend/tests/integration/test_sla_300_mock.py:223-263 | In every reachable state each employee has waited, times the number of slots, no more than the dispatch work the others have done. |
| `SchedulerOrder.ParkedServedInOrder` | backend/tests/integration/test_sla_300_mock.py:242-258 | Of two employees parked together the one parked first is the first to get a slot. |
| `SchedulerOrder.ParkedBeforeEnding` | backend/tests/integration/test_sla_300_mock.py:254-259 | Parked employees get a slot before the one whose dispatch has just ended. |
| `SchedulerOrder.DialledInListOrder` | backend/tests/integration/test_sla_300_mock.py:219-221 | Of two employees that begin with a dispatch the one earlier in the list is first dialled no later than the other. |
| `SchedulerOrder.RunFirstFits` | backend/tests/integration/test_sla_300_mock.py:231-252 | The first dispatch ends exactly its duration after the recorded start, and start and end are recorded once. |
| `Scheduler.EmployeeInTime` | backend/tests/integration/test_sla_300_mock.py:223-278 | Each employee completes, and ends its first dispatch, no earlier than its own phases take and no later than that plus the dispatch work of the others divided by the slots. |
| `Scheduler.TotalTimeBound` | backend/tests/integration/test_sla_300_mock.py:225-277 | The total time is at least all dispatch work divided by the slots. |
| `Scheduler.TotalTimeAttained` | backend/tests/integration/test_sla_300_mock.py:225-277 | The total time is the completion time of some employee. |
| `Scheduler.PoppedInOrder` | backend/tests/integration/test_sla_300_mock.py:223-225 | Popped times never decrease and the clock stands at the last one. |
| `Scheduler.Simulation.constructor` | backend/tests/integration/test_sla_300_mock.py:194-221 | Employee e is queued at time zero as the one pushed after e others. |
| `Scheduler.Simulation.OnNextPhase` | backend/tests/integration/test_sla_300_mock.py:228-246 | Completion, start of a dispatch, parking, or start of a wait. |
| `Scheduler.Simulation.WakeParked` | backend/tests/integration/test_sla_300_mock.py:255-258 | Waking while a slot is free wakes the whole queue in order, or nobody. |
| `Scheduler.Simulation.OnEndDispatch` | backend/tests/integration/test_sla_300_mock.py:248-259 | Frees the slot, notes the first dispatch, wakes the queue, and queues the employee after them. |
| `Scheduler.Simulation.Iterate` | backend/tests/integration/test_sla_300_mock.py:223-263 | One iteration of the loop is one step of a run. |
| `Scheduler.SimulateWorkflows` | backend/tests/integration/test_sla_300_mock.py:163-278 | The loop ends; its result is that of a complete run, and all the bounds above hold of it. |
| `RowLedger.Ledger` | backend/lambdas/connect_dispatcher/handler.py:294-353 | For every order of updates by all row writers, with duplicates, the result code, the attempt counter and the inbound list are determined by the history: first code wins, a recorded call may become a transcription failure, attempts are dispatch successes plus the dispatch error whose condition held. |
| `RowLedger.LedgerOnlyGrows` | backend/lambdas/call_end_handler/handler.py:215-251 | A code once set changes only from RECORDED to TRANSCRIBE_FAILED, and the attempt counter never decreases. |
| `RowLedger.LedgerCodeStep` | backend/lambdas/transcribe_starter/handler.py:312-344 | One more update changes the ledger of codes only by setting a missing code or relabelling a recorded one. |
| `RowLedger.StatusLedger` | backend/lambdas/keyword_matcher/handler.py:436-481 | For every order of updates the status is what the last unconditional writer stored, else that of the creation, and UNREACHABLE once forced after it while pending or unclassified. |
| `CycleSummary.IsCycleCompleted` | backend/shared/cycle/finalize.py:137-165 | Complete exactly when every row is terminal. |
| `CycleSummary.ComputeSummary` | backend/shared/cycle/finalize.py:191-249 | The counters count their rows and the dictionary is the histogram of statuses; the first malformed counter is reported instead. |
| `CycleSummary.ApplyTimeout` | backend/shared/cycle/finalize.py:252-293 | The rewrites of the pending and unclassified rows in row order, or the first row that cannot be addressed. |
| `CycleSummary.IsFirstDispatchIncomplete` | backend/shared/cycle/finalize.py:296-329 | True, false or an error, each exactly when it should be, for the row where the scan stops. |
| `CycleSummary.RewritesExact` | backend/shared/cycle/finalize.py:280-293 | An employee is on the rewrite list exactly when one of its rows is pending or unclassified, one entry for each such row. |
| `CycleSummary.Partition` | backend/shared/cycle/finalize.py:160-188 | Responded, unreachable and pending rows together are all rows, and none is pending exactly when every row is terminal. |
| `CycleSummary.SummaryConserves` | backend/shared/cycle/finalize.py:221-249 | The histogram adds up to the target total, which is responded plus unreachable plus pending. |
| `CycleSafety.ExecutionInv` | backend/lambdas/cycle_finalizer/handler.py:352-460 | The invariant of the finalizer protocol under every interleaving of duplicated and crashing runs with each other and with the row writers. |
| `CycleSafety.OneFlipOneMetric` | backend/lambdas/cycle_finalizer/handler.py:148-186 | The cycle leaves RUNNING at most once, to COMPLETED or TIMEOUT but not both; the timeout metric is emitted at most once and only by the run that won the flip to TIMEOUT; rules are removed only by a winning run. |
| `CycleSafety.StatusStable` | backend/lambdas/cycle_finalizer/handler.py:148-186 | A status other than RUNNING never changes again. |
| `CycleMetric.EmittedIff` | backend/lambdas/cycle_finalizer/handler.py:434-440 | In every execution the metric of a timed-out cycle is in the log exactly when the run that made the flip is no longer about to emit it. |
| `CycleMetric.MetricLost` | backend/lambdas/cycle_finalizer/handler.py:434-440 | A run that stops between its flip and its metric leaves the cycle without the metric in every later world. |
| `CycleMetric.MetricCanBeLost` | backend/lambdas/cycle_finalizer/handler.py:413-440 | Such an execution exists, given step by step. |
| `CycleSweep.AnswersSurvive` | backend/lambdas/cycle_finalizer/handler.py:217-249 | Between writes by others to a row, every interleaving of finalizer runs leaves it alone or turns it once from pending or unclassified to unreachable, never an answer. |
| `CycleSweep.QueryStartsSweep` | backend/lambdas/cycle_finalizer/handler.py:429-430 | After the query every row not yet terminal is on the rewrite list. |
| `CycleSweep.Sweep` | backend/lambdas/cycle_finalizer/handler.py:429-438 | From the query on, while other writers store only answers, every row is terminal or still to be rewritten, and answers stay answers. |
| `CycleSweep.SweepEndState` | backend/lambdas/cycle_finalizer/handler.py:429-445 | When the sweep has ended every queried row is terminal, confirmed answers are still confirmed, and every summary has responded plus unreachable equal to the target total; the same for a completion run that found nothing pending. |
| `CycleFinalizer.Finalizer.PutStatus` | backend/lambdas/cycle_finalizer/handler.py:148-186 | The guarded status write tells whether it took effect. |
| `CycleFinalizer.Finalizer.PutSlaFlag` | backend/lambdas/cycle_finalizer/handler.py:189-214 | The guarded warning flag tells whether it took effect. |
| `CycleFinalizer.Finalizer.ForceResponseUnreachable` | backend/lambdas/cycle_finalizer/handler.py:217-249 | The guarded row rewrite. |
| `CycleFinalizer.Finalizer.QueryResponses` | backend/lambdas/cycle_finalizer/handler.py:118-139 | Lists every row of the cycle once. |
| `CycleFinalizer.Finalizer.DeleteTimerRules` | backend/lambdas/cycle_finalizer/handler.py:252-283 | Two calls for each of the two rules. |
| `CycleFinalizer.Finalizer.HandleMapCompleted` | backend/lambdas/cycle_finalizer/handler.py:352-374 | Uninterrupted, it is a run of the protocol; it completes a running cycle exactly when every row is terminal, and only then removes the rules. |
| `CycleFinalizer.Finalizer.HandleTimer30Min` | backend/lambdas/cycle_finalizer/handler.py:377-410 | Uninterrupted, it is a run of the protocol; it warns exactly when the cycle is running and some row was never dialled. |
| `CycleFinalizer.Finalizer.HandleTimer60Min` | backend/lambdas/cycle_finalizer/handler.py:413-460 | Uninterrupted, it is a run of the protocol; a running cycle becomes TIMEOUT with every pending or unclassified row unreachable and all other rows untouched, and the metric, notice and rule calls follow in order. |
| `CycleFinalizer.Finalizer.SweepRows` | backend/lambdas/cycle_finalizer/handler.py:429-432 | The rewrite loop leaves exactly the pending and unclassified rows unreachable. |
| `RetryLoop.PlaceCall` | backend/tests/integration/test_sla_300_mock.py:413-500 | One attempt: row created if missing, dispatch counted, code stored if none was, recording classified; and its phases. |
| `RetryLoop.RunOneEmployee` | backend/tests/integration/test_sla_300_mock.py:385-539 | For every stored row, every sequence of call outcomes and every retry count the loop stops by its decision, never by exhaustion; it fails only on an unknown stored status; row and phases are those of the calls made. |
| `RetryLoop.RowAfterExact` | backend/tests/integration/test_sla_300_mock.py:413-495 | Attempts grow by the number of calls, the code stays that of the first call, the status is the last classification. |
| `RetryLoop.FinalStatusIsFirstAnswer` | backend/shared/retry/evaluator.py:153-158 | For every starting row, unless it is decided and the first call is not recorded: at most max(1, retry count) calls; the final status is the first answer among the calls made, which is then the last call, or UNREACHABLE with the budget used up. |
| `RetryLoop.TerminalRowIsKept` | backend/shared/retry/evaluator.py:153-156 | A row already terminal is finalized as it is after one unrecorded call. |
| `RetryLoop.PhasesInTurn` | backend/tests/integration/test_sla_300_mock.py:446-519 | The phases are, position by position and without anything else, the dispatch of each call with its seconds, a transcription right after exactly the recorded ones, and one retry interval between each two calls. |
| `RetryLoop.TurnsUnique` | backend/tests/integration/test_sla_300_mock.py:446-519 | That description determines the phases. |
| `RetryLoop.PhasesTake` | backend/tests/integration/test_sla_300_mock.py:102-109 | Their time is exactly that of the calls, of the transcriptions and of the waits between calls. |
| `RetryLoop.PhasesBounded` | backend/tests/integration/test_sla_300_mock.py:102-109 | The phases of n calls start with a dispatch, are non-negative, and take at most a linear time. |
| `RetryLoop.LoopWithinBudget` | backend/tests/integration/test_sla_300_mock.py:412-539 | The phases of a finished loop are those of at most max(1, retry count) calls and keep within the time of so many. |
| `RetryLoop.CycleDeadline` | backend/tests/integration/test_sla_300_mock.py:552-640 | Replaying finished loops, whatever the calls came to: the replay finishes, everybody within the longest own time plus the share of the lines taken by the others, and every first call within one call plus that share. |
| `PhoneNumbers.PhoneRoundTrip` | frontend/src/employees/validation.ts:73-90 | The two phone conversions are inverse between domestic and Japanese E.164 numbers, in both directions. |
| `PhoneNumbers.DomesticInjective` | backend/shared/employee/validate.py:48-56 | Distinct domestic numbers have distinct E.164 forms. |
| `PhoneNumbers.Normalised` | backend/shared/employee/validate.py:33-56 | Accepted numbers are stored in E.164 form, storing is idempotent, and two accepted numbers coincide only if equal or one the domestic form of the other. |
| `EmployeeCsv.AcceptCsvFile` | backend/shared/employee/csv_constraints.py:72-112 | True exactly for files within the limits, with the right header, readable to the end, with 1 to 300 data rows. |
| `EmployeeCsv.CheckRow` | backend/shared/employee/csv_parser.py:120-151 | Why a data row is refused, each reason with its own condition, and the first line for a repeated number. |
| `EmployeeCsv.ParseRows` | backend/shared/employee/csv_parser.py:101-156 | Every faulty line up to the point of reading is reported in order; a row-count or reader error comes last. |
| `EmployeeCsv.ParseEmployeeCsv` | backend/shared/employee/csv_parser.py:61-166 | Rows or errors, never both, never neither; a file-level error, with its reason, exactly when the gate refuses the file; otherwise exactly the faulty lines, each with its reason. |
| `EmployeeCsv.NoFaultIff` | backend/shared/employee/csv_parser.py:120-151 | No line is faulty exactly when every data row is well formed and the numbers as written are pairwise distinct. |
| `EmployeeCsv.FaultyLineIff` | backend/shared/employee/csv_parser.py:107-151 | A line is reported exactly when its row is malformed or repeats an earlier number. |
| `EmployeeCsv.RowsAddUp` | backend/shared/employee/csv_parser.py:107-166 | Every data row is either accepted or reported. |
| `EmployeeCsv.AcceptedAre` | backend/shared/employee/csv_parser.py:107-166 | Without a faulty line the accepted rows are the data rows in order, with the trimmed name and the number as written. |
| `EmployeeCsv.AcceptedDistinct` | backend/shared/employee/csv_parser.py:140-151 | Accepted rows are valid, in E.164 form, with pairwise distinct numbers. |
| `EmployeeTable.EmployeeStore.PhoneAlreadyRegistered` | backend/lambdas/employee_api/handler.py:170-192 | True exactly when an active row has the number. |
| `EmployeeTable.EmployeeStore.CreateEmployee` | backend/lambdas/employee_api/handler.py:233-287 | The new table and the answer for valid, malformed, duplicate and identity-provider failure cases. |
| `EmployeeTable.EmployeeStore.UpdateEmployee` | backend/lambdas/employee_api/handler.py:373-411 | The new table and the answer, with defaults for missing fields. |
| `EmployeeTable.EmployeeStore.DeleteEmployee` | backend/lambdas/employee_api/handler.py:419-443 | Logical deletion that empties the number. |
| `EmployeeTable.EmployeeStore.ImportCsv` | backend/lambdas/employee_api/handler.py:457-531 | Refused, conflicting, complete, or rolled back, with the table of each case. |
| `EmployeeTable.EmployeeStore.InsertBatches` | backend/lambdas/employee_api/handler.py:485-518 | Batches of 25; the rejected batch is followed by the clean-up of the rows before it. |
| `EmployeeTable.EmployeeStore.RollbackInserted` | backend/lambdas/employee_api/handler.py:545-564 | Every row with one of the numbers goes, except where the clean-up call failed. |
| `EmployeeTable.RollbackExact` | backend/lambdas/employee_api/handler.py:513-518 | Whichever batch fails, the clean-up restores exactly the table from before, plus exactly the inserted rows whose clean-up failed. |
| `EmployeeTable.SerialRunValid` | backend/lambdas/employee_api/handler.py:392-443 | In every serial run active numbers are valid and pairwise distinct and deleted rows hold an empty number. |
| `EmployeeTable.ImportAllOrNothing` | backend/lambdas/employee_api/handler.py:468-531 | In every serial run an import that does not succeed and cleans up changes nothing, and no import alters an existing row. |
| `EmployeeTable.DeletedStaysDeleted` | backend/lambdas/employee_api/handler.py:373-445 | A deleted row is never changed again. |
| `EmployeeHistory.RowByHistory` | backend/lambdas/employee_api/handler.py:373-445 | At any later point of a serial run a row holds the name and number given last, its role, and after a deletion neither number nor identity. |
| `EmployeeHistory.RegisteredRow` | backend/lambdas/employee_api/handler.py:236-287 | A registered employee is stored with the given name, number in stored form, role and identity, and at any later point the row holds these and what has happened to them since. |
| `EmployeeHistory.Registration` | backend/lambdas/employee_api/handler.py:236-287 | A registration succeeds exactly if it is well formed, nobody active has the number and the provider agrees; it adds one row and changes no other. |
| `EmployeeHistory.ChangeAnswered` | backend/lambdas/employee_api/handler.py:373-445 | When an update and a deletion succeed, and that a refused one changes nothing. |
| `EmployeeHistory.NewRowFrom` | backend/lambdas/employee_api/handler.py:274-287 | A new row comes from a registration or from a line of an imported file, as an employee. |
| `EmployeeHistory.ImportAnswered` | backend/lambdas/employee_api/handler.py:448-541 | An import succeeds exactly if the file is faultless, no number of it is taken, and no batch is rejected. |
| `EmployeeHistory.ImportedRow` | backend/lambdas/employee_api/handler.py:486-512 | After a completed import every line of the file has its row, as an employee, and at any later point what has happened to it since. |
| `EmployeeHistory.NumberStaysTaken` | backend/lambdas/employee_api/handler.py:256-257 | Until the employee is updated or deleted, another registration of its number is a conflict, and so is a change to it or a file with it. |
| `EmployeeHistory.DeletedByHistory` | backend/lambdas/employee_api/handler.py:419-445 | A row is deleted exactly if a deletion of it has succeeded. |
| `EmployeeTable.InsertedExact` | backend/lambdas/employee_api/handler.py:489-512 | An import keeps every old row and adds one row for each line of the file. |
| `Anonymize.BatchIsTransaction` | backend/lambdas/employee_api/handler.py:615-650 | A batch of up to twelve rows has at most 24 operations and touches no key twice. |
| `Anonymize.BatchRekeys` | backend/lambdas/employee_api/handler.py:615-650 | Applying the operations of a batch moves exactly its rows. |
| `Anonymize.RekeyedCompose` | backend/lambdas/employee_api/handler.py:782-796 | Moving cycles in two portions, in any order and with overlaps, is moving them at once. |
| `Anonymize.RekeyedContents` | backend/lambdas/employee_api/handler.py:598-650 | Moved rows keep their contents, other rows their key and contents, and nothing else appears. |
| `Anonymize.CountPreservedIff` | backend/lambdas/employee_api/handler.py:615-650 | The number of rows is preserved exactly when no row is stored under the new identifier in a cycle of the employee. |
| `Anonymize.CompleteRun` | backend/lambdas/employee_api/handler.py:782-796 | A run that is not stopped moves exactly the rows of the listed cycles. |
| `Anonymize.ResumeEqualsFull` | backend/lambdas/employee_api/handler.py:782-796 | Any number of runs, each stopped after any of its batches, followed by a complete one over the same cycles in any order, end in the table one uninterrupted run leaves. |
| `Anonymize.ResponseStore.CollectRows` | backend/lambdas/employee_api/handler.py:784-786 | Exactly the rows stored for the employee in the listed cycles. |
| `Anonymize.ResponseStore.MoveRows` | backend/lambdas/employee_api/handler.py:790-796 | A rejected batch leaves exactly the rows of the batches before it moved. |
| `Anonymize.ResponseStore.AnonymizeEmployee` | backend/lambdas/employee_api/handler.py:742-796 | Each refusal has its own reason and changes nothing; an admitted call is a run over the listed cycles, complete or stopped at the rejected batch, and tells how many rows it found. |
| `Anonymize.OnlyDeletedMove` | backend/lambdas/employee_api/handler.py:752-777 | Over every serial run of employee requests, rows move only for an employee whose deletion has succeeded, on the order of an administrator, and nobody else loses or gains a row. |
| `Classifier.ToSnapshot` | backend/shared/dictionary/snapshot.py:55-68 | The three sorted keyword lists. |
| `Classifier.SnapshotExact` | backend/shared/dictionary/snapshot.py:38-68 | Each list is sorted and holds every non-empty keyword as often as a row names it. |
| `Classifier.SnapshotCanonical` | backend/shared/dictionary/snapshot.py:38-68 | The snapshot does not depend on the order of the rows. |
| `Classifier.MatchCategory` | backend/shared/keyword/matcher.py:86-104 | Exactly the distinct non-empty keywords that occur, in list order. |
| `Classifier.ClassifyVoiceStatus` | backend/shared/keyword/matcher.py:77-108 | The status is the first category in priority order with a keyword in the lower-cased text, with that category's matches; otherwise OTHER with none. |
| `Classifier.MatchUnique` | backend/shared/keyword/matcher.py:86-104 | The matched list is determined by that description. |
| `Classifier.ClassificationCanonical` | backend/shared/keyword/matcher.py:77-108 | Through the snapshot, status and matched list are independent of the order of the history rows. |
| `Dictionary.DictionaryStore.IncrementVersion` | backend/lambdas/dictionary_api/handler.py:119-138 | The compare-and-swap, which also accepts a missing counter for version 0. |
| `Dictionary.DictionaryStore.WriteHistorySnapshot` | backend/lambdas/dictionary_api/handler.py:172-188 | Adds every active keyword under the version. |
| `Dictionary.DictionaryStore.CreateKeyword` | backend/lambdas/dictionary_api/handler.py:191-214 | The new tables and the answer, including a duplicate found after the bump. |
| `Dictionary.DictionaryStore.UpdateKeyword` | backend/lambdas/dictionary_api/handler.py:217-255 | The new tables and the answer; existence is checked before the bump. |
| `Dictionary.DictionaryStore.DeleteKeyword` | backend/lambdas/dictionary_api/handler.py:258-283 | The new tables and the answer, including a missing row found after the bump. |
| `Dictionary.HistoryKeyInjective` | backend/lambdas/dictionary_api/handler.py:182-186 | Distinct keyword rows never share a history key. |
| `Dictionary.SnapshotStable` | backend/shared/dictionary/snapshot.py:71-104 | In serial runs a snapshot once taken never changes. |
| `Dictionary.SnapshotExactIff` | backend/lambdas/dictionary_api/handler.py:144-188 | The snapshot of a version, at any later time, is the active set just after the request that produced it exactly when that request was accepted or left no keyword. |
| `Dictionary.EmptySnapshotIff` | backend/lambdas/dictionary_api/handler.py:202-206 | The snapshot of a version is empty, at any later time, exactly if it was produced by a duplicate creation or the deletion of a missing keyword, or no keyword was left. |
| `Dictionary.ActiveByHistory` | backend/lambdas/dictionary_api/handler.py:191-279 | A keyword is active exactly if the last accepted request naming it is not a deletion, or there is none and it was active at the start; its stamp is the version of that request. |
| `Dictionary.VersionByHistory` | backend/lambdas/dictionary_api/handler.py:119-141 | The version counts the requests accepted or refused after the bump, and an accepted request is answered with the version it produced. |
| `Dictionary.PinnedSnapshot` | backend/lambdas/cycle_api/handler.py:252-263 | The snapshot a cycle pins is the same whenever and in whatever order it is read, and holds exactly the keywords active at the start if it was recorded faithfully. |
| `Dictionary.ClassificationFixed` | backend/lambdas/keyword_matcher/handler.py:337-342 | In serial runs neither the status nor the matched keywords of a transcript depend on when the matcher runs. |
| `DictionaryProtocol.OneWriterPerVersion` | backend/lambdas/dictionary_api/handler.py:119-138 | Under every interleaving at most one writer with the same expected version wins, and all history of a new version is written by one request. |
| `DictionaryProtocol.HistoryHasAuthor` | backend/lambdas/dictionary_api/handler.py:172-188 | Every new history row was written by the winner of its version. |
| `DictionaryProtocol.UninterruptedIsSerial` | backend/lambdas/dictionary_api/handler.py:191-283 | A request whose calls are not interleaved has the effect of the serial model. |
| `DictionaryProtocol.UnfinishedSnapshotGrows` | backend/lambdas/dictionary_api/handler.py:202-207 | Outside serial runs a version can be read before its history is complete: a concrete run. |
| `DictionaryStability.SettledStable` | backend/lambdas/dictionary_api/handler.py:172-188 | Under every interleaving the snapshot of a version whose producing request has finished never changes again. |
| `DictionaryStability.FinalIff` | backend/lambdas/dictionary_api/handler.py:119-188 | A version already reached is final, whatever requests follow in whatever interleaving, exactly when it is older than the execution or its producing request has finished or has nothing left to write. |
| `DictionaryStability.InterleavedPinned` | backend/lambdas/cycle_api/handler.py:252-263 | A cycle that pins a final version reads the same snapshot whenever and in whatever order, and exactly the keywords active at the start if it was recorded faithfully. |
| `DictionaryStability.InterleavedClassification` | backend/lambdas/keyword_matcher/handler.py:337-342 | Then neither the status nor the matched keywords of a transcript depend on when the matcher runs, however requests interleave. |
| `Lockout.LockedIff` | backend/shared/auth/lockout.py:57-61 | For a threshold of at least one: locked exactly when at least that many failures are within the window. |
| `Lockout.ThresholdZero` | backend/shared/auth/lockout.py:57-61 | A threshold of zero locks only if every failure is within the window. |
| `Lockout.LockEnds` | backend/shared/auth/lockout.py:57-61 | The lock ends exactly when the threshold-th newest failure leaves the window. |
| `Lockout.LastsWindowIff` | backend/shared/auth/lockout.py:57-61 | The lock lasts a whole window after the newest failure exactly when the newest threshold failures fall on the same second. |
| `Lockout.LockShorter` | backend/shared/auth/lockout.py:57-61 | Five failures, four of them a second earlier, whose lock is shorter than the window. |
| `Lockout.OrderIrrelevant` | backend/shared/auth/lockout.py:57-61 | The stored order is irrelevant. |
| `Lockout.LockoutTable.RecordFailure` | backend/lambdas/auth_failure_reporter/handler.py:90-111 | One failure more in the table of accounts, for well-formed identifiers only. |
| `Lockout.LockoutTable.ClearLockout` | backend/lambdas/auth_post_auth/handler.py:51-60 | One clearance more in the table of accounts. |
| `Lockout.LockoutTable.CheckLockout` | backend/lambdas/auth_pre_auth/handler.py:70-81 | The verdict over the stored failures, none for a missing row. |
| `Lockout.CollectionUnobservable` | backend/lambdas/auth_failure_reporter/handler.py:96-111 | Over every history with a clock that never goes back, removing expired rows changes no verdict, now or later. |
| `Lockout.LockedByHistory` | backend/lambdas/auth_failure_reporter/handler.py:96-111 | Over every such history an account is locked exactly when at least the threshold of failures have been recorded since the last clearance within the window. |
| `Lockout.VerdictByHistory` | backend/lambdas/auth_failure_reporter/handler.py:74-111 | The same of every account of a table, from the accesses to all accounts; expired rows may be removed. |
| `Lockout.IllFormedNeverLocked` | backend/lambdas/auth_failure_reporter/handler.py:82-86 | An identifier that is not an email address is never locked. |
| `Timestamps.EarlierIff` | backend/shared/inbound/cycle_selection.py:225-237 | Fields compared from the year down order valid stamps as time does, across month ends and leap years. |
| `Timestamps.FromInstantInverse` | backend/shared/retry/evaluator.py:188-192 | Every valid stamp is the stamp of its instant. |
| `Timestamps.FromInstantIff` | backend/shared/retry/evaluator.py:188-192 | An instant has a stamp exactly when the stamp is valid and has that instant. |
| `Timestamps.FormatRoundTrip` | backend/shared/retry/evaluator.py:164-192 | Printing and parsing a UTC stamp returns it, with or without fraction, in either UTC suffix. |
| `Timestamps.CanonicalOrder` | backend/shared/inbound/cycle_selection.py:230-237 | On the canonical form string order is the order of instants. |
| `Timestamps.StringOrderIff` | backend/shared/inbound/cycle_selection.py:230-237 | With fractions the two orders agree except within one second between a stamp with and one without a fraction. |
| `Timestamps.SecondsDecide` | backend/shared/inbound/cycle_selection.py:131-159 | Texts that parse and lie in different seconds are ordered as their instants, whatever their fractions and suffixes. |
| `Timestamps.SecondOrder` | backend/shared/inbound/cycle_selection.py:131-159 | Within one second, in every accepted form, a whole second with a Z sorts last although it is the earliest, and all other texts are ordered as their instants. |
| `Timestamps.NextDispatchExact` | backend/shared/retry/evaluator.py:226-234 | The printed next dispatch is exactly the interval after the previous end. |
| `Timestamps.NextDispatchFields` | backend/shared/retry/evaluator.py:226-234 | It reads as the previous end with the interval added to the minutes, carried into the hour and the date, and nothing else changed. |
| `Timestamps.WaitExact` | backend/shared/retry/evaluator.py:272-279 | The computed wait ends at most a second before the next dispatch and never after it; it is zero once that has passed. |
| `InboundLaws.LatestInIff` | backend/shared/inbound/cycle_selection.py:225-237 | For valid records in any accepted form, the maximum by string comparison is the latest of its group exactly unless the latest second holds both a whole second with a Z and a fraction. |
| `InboundLaws.DecisionIff` | backend/shared/inbound/cycle_selection.py:335-359 | The decision meets its specification over instants unless the deciding group is so mixed; with distinct identifiers exactly then. |
| `InboundLaws.DecisionExact` | backend/shared/inbound/cycle_selection.py:313-359 | For every caller, list and window: an inadmissible window and an invalid record are errors, an unknown caller is told so, and a known one gets a decision that is right exactly as above and, with distinct times, the only right one. |
| `InboundLaws.FlowOnCalendar` | backend/shared/inbound/cycle_selection.py:208-359 | Which way a known caller goes, the window being the given number of dates after the end at the same time of day. |
| `InboundLaws.OneSecondFails` | backend/shared/inbound/cycle_selection.py:225-237 | An instance of the failure: of two cycles completed within one second the one without a fraction is chosen although the other ended later. |
| `InboundLaws.OrderIndependent` | backend/shared/inbound/cycle_selection.py:327-359 | For every list with distinct times, valid or not, and every window, the answer does not depend on the order of the list. |
| `InboundLaws.FlowOnlyAdvances` | backend/shared/inbound/cycle_selection.py:335-359 | For valid records the flow only moves from active to terminated to none as time passes, and, unless the latest second of the group that decides first is mixed, the selected cycle stays while the flow does. |
| `InboundRead.QueryRecentCycles` | backend/lambdas/inbound_handler/handler.py:303-320 | At most ten cycles of each status; whatever is left out has ten later-started ones of its status in the result. |
| `InboundLaws.BoundedReadRefines` | backend/lambdas/inbound_handler/handler.py:303-320 | When cycles do not overlap and the latest second of the deciding group is not mixed, the bounded read decides as reading every cycle would. |
| `RecordingKeys.RecogniseOutbound` | backend/shared/recording/s3_keys.py:44-53 | A key is recognised as outbound exactly when it is the printed form of its components, which it determines. |
| `RecordingKeys.RecogniseInbound` | backend/shared/recording/s3_keys.py:47-54 | The same for inbound keys. |
| `RecordingKeys.TargetKeyRoundTrip` | backend/shared/recording/connect_key.py:122-166 | The printed target key parses to exactly its cycle, employee and number. |
| `RecordingKeys.TranscriptRoutesBack` | backend/shared/recording/s3_keys.py:116-145 | The transcript key of every parseable recording parses to the same record, hence the same metadata keys. |
| `RecordingKeys.MetaKeysDistinct` | backend/shared/recording/s3_keys.py:119-143 | Outbound recordings share metadata keys only if they are the same key, and share them with inbound ones only for cycles named like an inbound contact. |
| `RecordingKeys.ContactUnique` | backend/shared/recording/connect_key.py:66-69 | However a native key is matched, date and contact are the same; the contact is the last path component up to its first underscore. |
| `RecordingKeys.NativeParseIff` | backend/shared/recording/connect_key.py:95-119 | The parser succeeds exactly on the keys that match and returns a match. |
| `ConditionEval.SplitExpression` | backend/tests/integration/_fakes.py:140-159 | The splitting loop computes the pieces at the top level of parentheses, stripped, without blank ones. |
| `ConditionEval.PartsShorter` | backend/tests/integration/_fakes.py:101-108 | Splitting in two or more yields strictly shorter parts, so the recursion ends. |
| `ConditionEval.SplitOr` | backend/tests/integration/_fakes.py:140-159 | The text of a disjunction splits into exactly the texts of its conjunctions. |
| `ConditionEval.SplitAnd` | backend/tests/integration/_fakes.py:140-159 | The text of a conjunction splits into exactly the texts of its leaves. |
| `ConditionEval.EvalPrinted` | backend/tests/integration/_fakes.py:77-137 | Evaluating the text of any disjunction of conjunctions gives its left-to-right meaning, errors and early exit included. |
| `ConditionEval.EvalFaithful` | backend/tests/integration/_fakes.py:77-137 | With everything bound, the text is true exactly when all leaves of some conjunction hold, for present and absent rows. |
| `ConditionExact.EvalExactIff` | backend/tests/integration/_fakes.py:77-137 | A condition with an equality on a name spelled OR right after an AND is evaluated to its meaning exactly when the conjunctions before settle the answer or an earlier leaf is in error; otherwise it is unsupported. |
| `ConditionExact.EvalFaithfulIff` | backend/tests/integration/_fakes.py:77-137 | For every condition with everything bound: the text is true exactly when all leaves of some conjunction hold, if and only if each conjunction with such a name comes after one that holds. |
| `ConditionExact.OrAsName` | backend/tests/integration/_fakes.py:140-159 | One such text, which is unsupported whatever the row. |

## Left out

- CycleSweep.SweepEndState: assumes that from the query on other writers store only confirmed answers on known rows, because the keyword matcher writes the status without a condition and may store OTHER late.
- CycleSweep.QueryStartsSweep: assumes that the queried rows hold one of the six statuses; a row with another status is neither terminal nor rewritten.
- CycleFinalizer.Finalizer.QueryResponses: a paged query is one atomic read; changes between two pages are not modelled.
- CycleFinalizer.Finalizer.HandleTimer60Min: errors raised by the AWS calls appear in the protocol as crashed runs, not as results of the handler.
- InboundLaws.BoundedReadRefines: assumes cycles that do not overlap, because the check for a running cycle and the creation of the next are separate calls and exclude each other only in serial runs; and that the decision over all cycles is right in the sense of `InboundLaws.DecisionIff`.
- InboundLaws.DecisionExact: a START_FAILED cycle is stored without an end time, and one such record makes the decision fail with an error; only with distinct identifiers is a mixed latest second sure to make it wrong.
- Dictionary.PinnedSnapshot: holds for serial runs; DictionaryStability.InterleavedPinned is the form for interleaved requests, which assumes that the pinned version is final.
- EmployeeTable.RollbackExact: assumes fresh identifiers and a valid table, which every serial run keeps; two concurrent creations of one number are not excluded by the code.
- Timestamps.FormatRoundTrip: parsing covers the two UTC suffixes and fractions of six digits; other offsets and other ISO 8601 forms are never written by the system.
- ConditionEval.EvalFaithful: the conditions it excludes are those of `ConditionExact.EvalFaithfulIff`; names are ASCII word characters; the evaluator of update expressions and the in-memory table around it are not part of this model.
- PhoneNumbers.Normalised: digits are ASCII, and the patterns match the whole text.
- RecordingKeys.NativeParseIff: the patterns match the whole text; a key with a line break is not considered.
- The encryption of stored fields and the blind index: stored numbers are compared as plain text.
- The Step Functions definition; the order of an employee's steps is that of the integration test.
- Unknown phase types of the replay, which raise an error in the source, do not exist in the model.
- The base64 layer and the CSV reader: the model starts from the stream of records, which may end in an error.
- The CSV pre-check in the browser, which counts lines instead of CSV records.
- The creation of a cycle beyond the version it pins, the idempotency key, and the START_FAILED write.
- Three-try retry loops with backoff around single calls, the Transcribe job name, audit records, HTTP responses, authorization tables: each settled by reading one function.
