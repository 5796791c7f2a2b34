# Quorum read operation of a BookKeeper client

This project models `PendingReadOp` in Dafny. `PendingReadOp` is the client-side operation that reads a range of entries of a ledger from its replicas ("bookies").

The operation builds one per-entry request for each entry id in the range, in increasing order. It re-reads the ensemble only at an ensemble change, then dispatches every request. Each request reads from the replicas of its entry's write set with one of two strategies:

- **parallel**: send to every write-set replica at once;
- **sequence**: send to one replica at a time, and possibly also to the next replica speculatively, when none of the replicas asked so far has been heard from.

The errors a request's replicas report are folded into one code by the first-error priority rule. "Unavailable" is promoted to NoSuchEntry once more replicas than the slack W − A have said "not found". Each request completes or fails at most once. The operation counts the entries still pending and invokes the read callback exactly once: with OK when every entry succeeded, or with the first failure code submitted.

Modules:

- `Options`: an optional value (a Java reference that may be null).
- `ReadCodes`: the result codes, the first-error rule, the fold of a run of reported errors, and the promotion. It also proves what the rule achieves:
  - the first concrete failure wins;
  - failing that, "unavailable";
  - failing that, the last "not found".
- `Replicas`: `List.indexOf` and the sequence strategy's queries `getReplicaIndex`, `getSentToBitSet`, `getHeardFromBitSet` and `readsOutstanding`. The request's `sentReplicas` and `erroredReplicas` are sets of write-set positions. The bitsets that `getSentToBitSet` and `getHeardFromBitSet` build are sets of ensemble positions.
- `EntryRequests`: the class `LedgerEntryRequest`. The parallel and sequence subclasses become a strategy tag on one class. Each send appends its write-set position to a ghost log `sends`. Each reported error is appended to a ghost log `errors`. The class invariant ties `numMissedEntryReads` to that log at all times, and `firstError` only while the request is pending: once it has failed, `firstError` may hold the promoted code. For the sequence strategy, the invariant also says that with distinct replica addresses every errored position was sent to, and that at most one read plus one per speculative send (ghost `speculativeSends`) is outstanding.
- `PendingRead`: the class `PendingReadOp`. It has the queue `seq`, `heardFromHosts`, `numPendingEntries`, the completion flag and the speculative task flag. Ghost state records:
  - every request built (`requests`, which enumeration never drains);
  - the code each request submitted (`codes`);
  - the read callbacks made (`callbacks`).

  Its invariant says the callback has run at most once, and only with a code some request earned.

Where the source's `fail()` calls `submitCallback` directly, a request method here returns the code it failed with (`notify`), and the operation submits it in the same atomic step (`Post`). Nothing happens to the request between the two, so the order of effects is the same.

Replies to sends and firings of the speculative timer are the event methods `ReadEntryComplete` and `SpeculativeRun`. Once `Initiate` has returned, they can be called in any order, any number of times. A reply names the request and a replica that request sent to.

The transport's `InterruptedException` (raised by the throttler) becomes a parameter naming which send is interrupted. Digest verification becomes a boolean parameter `verified` together with the payload.

The speculative task cancels itself as soon as one incomplete request sends nothing (`PendingReadOp.java:433-436`), not only after a pass in which every request sent nothing. The pass still visits the remaining requests.

## Model

| member | source | states |
|---|---|---|
| ReadCodes.NextFirstError | bookkeeper-server/src/main/java/org/apache/bookkeeper/client/PendingReadOp.java:159-170 | The new first error is the old one or the new code. A concrete failure is never replaced. An error never leaves it OK. After "unavailable", an error leaves neither OK nor "not found". |
| ReadCodes.FirstErrorPriority | bookkeeper-server/src/main/java/org/apache/bookkeeper/client/PendingReadOp.java:159-174 | After any run of error reports, firstError is: the first concrete failure reported, if any; else "unavailable" if any replica said so; else the last "not found" code; else OK for no report. |
| ReadCodes.CountMissed | bookkeeper-server/src/main/java/org/apache/bookkeeper/client/PendingReadOp.java:171-174 | numMissedEntryReads never exceeds the number of errors reported. |
| ReadCodes.PromoteNotFound | bookkeeper-server/src/main/java/org/apache/bookkeeper/client/PendingReadOp.java:246-249 | Once the missed reads exceed the slack, the code is never "unavailable". The only change ever made is to NoSuchEntry. Within the slack, the code is unchanged; PromoteKeeps gives the converse. |
| ReadCodes.PromoteKeeps | bookkeeper-server/src/main/java/org/apache/bookkeeper/client/PendingReadOp.java:246-249 | The promotion changes the code if and only if it is "unavailable" and the missed reads exceed the slack. |
| ReadCodes.FailureVerdict | bookkeeper-server/src/main/java/org/apache/bookkeeper/client/PendingReadOp.java:245-251 | The code a request gives up with, after at least one error, is never OK. Beyond the slack it is never "unavailable", and without a concrete failure it is then a "not found" code. It is the first concrete failure whenever there was one. |
| Replicas.IndexOf | bookkeeper-server/src/main/java/org/apache/bookkeeper/client/PendingReadOp.java:277 | indexOf returns -1 exactly when the element is absent. Otherwise it returns a position holding the element, with no earlier occurrence. |
| Replicas.ReplicaIndex | bookkeeper-server/src/main/java/org/apache/bookkeeper/client/PendingReadOp.java:276-282 | getReplicaIndex is NOT_FOUND exactly when the host is not in the ensemble or its ensemble position is not in the write set. Otherwise it is the write-set position naming that ensemble position, which maps back to the host. |
| Replicas.ReplicaIndexOfTarget | bookkeeper-server/src/main/java/org/apache/bookkeeper/client/PendingReadOp.java:276-282 | With distinct addresses and write-set positions, an error from the replica a write-set position names is charged to exactly that position. |
| Replicas.SentToBitSet | bookkeeper-server/src/main/java/org/apache/bookkeeper/client/PendingReadOp.java:284-293 | getSentToBitSet: every write-set position sent to sets its ensemble position, and only ensemble positions named by the write set are set. SentToBitSetExact gives the equivalence. |
| Replicas.SentToBitSetExact | bookkeeper-server/src/main/java/org/apache/bookkeeper/client/PendingReadOp.java:284-293 | getSentToBitSet holds an ensemble position if and only if some write-set position sent to names it. |
| Replicas.HeardFromBitSet | bookkeeper-server/src/main/java/org/apache/bookkeeper/client/PendingReadOp.java:295-304 | getHeardFromBitSet: every position set holds a host heard from, and with distinct addresses every position holding a host heard from is set. |
| Replicas.ReadsOutstanding | bookkeeper-server/src/main/java/org/apache/bookkeeper/client/PendingReadOp.java:306-308 | readsOutstanding holds only when some position sent to has not reported an error; the converse, when every errored position was sent to, is ReadsOutstandingIff. |
| Replicas.SpeculationBlockedIff | bookkeeper-server/src/main/java/org/apache/bookkeeper/client/PendingReadOp.java:284-304 | The sent-to and heard-from bitsets meet if and only if some write-set replica already sent to is among the hosts heard from. |
| Replicas.ReadsOutstandingIff | bookkeeper-server/src/main/java/org/apache/bookkeeper/client/PendingReadOp.java:306-308 | When every errored position was sent to, readsOutstanding holds if and only if some sent position has not errored. |
| Replicas.AddSent | bookkeeper-server/src/main/java/org/apache/bookkeeper/client/PendingReadOp.java:355-363 | Marking a new position sent keeps every errored position sent to, and adds exactly one read to those outstanding. |
| Replicas.ErrorKeepsBound | bookkeeper-server/src/main/java/org/apache/bookkeeper/client/PendingReadOp.java:376-381 | Marking a sent position errored keeps every errored position sent to, and never adds to the reads outstanding. |
| EntryRequests.LedgerEntryRequest.constructor | bookkeeper-server/src/main/java/org/apache/bookkeeper/client/PendingReadOp.java:86-91 | A new request is pending with OK codes, no sends, no errors, every write-set reply pending, and empty bitsets. |
| EntryRequests.LedgerEntryRequest.SentOnce | bookkeeper-server/src/main/java/org/apache/bookkeeper/client/PendingReadOp.java:226-238 | A valid request has never sent to the same write-set position twice, under either strategy. |
| EntryRequests.SequenceSendStep | bookkeeper-server/src/main/java/org/apache/bookkeeper/client/PendingReadOp.java:355-363 | A send to the next position keeps the sequence strategy's record: the positions sent to, below the next index, with every errored position sent to and at most one read outstanding beyond the speculative sends, provided a non-speculative send is made only when no read is outstanding. |
| EntryRequests.SequenceErrorStep | bookkeeper-server/src/main/java/org/apache/bookkeeper/client/PendingReadOp.java:376-383 | Marking the position of a host sent to as errored keeps that record, and leaves no read outstanding only when every position sent to has errored. |
| EntryRequests.LedgerEntryRequest.OutstandingBound | bookkeeper-server/src/main/java/org/apache/bookkeeper/client/PendingReadOp.java:306-308 | With distinct replica addresses, every errored position was sent to, at most one read plus one per speculative send is outstanding, and readsOutstanding holds exactly when some sent read has not failed. |
| EntryRequests.LedgerEntryRequest.ChargedToSent | bookkeeper-server/src/main/java/org/apache/bookkeeper/client/PendingReadOp.java:376-381 | With distinct replica addresses, an error from a replica the request sent to is charged to a write-set position it sent to. |
| EntryRequests.LedgerEntryRequest.Fail | bookkeeper-server/src/main/java/org/apache/bookkeeper/client/PendingReadOp.java:139-147 | Afterwards the request is complete. The call wins, records the code and reports it if and only if the request was not yet complete. A losing call changes nothing. |
| EntryRequests.LedgerEntryRequest.FailWithFirstError | bookkeeper-server/src/main/java/org/apache/bookkeeper/client/PendingReadOp.java:246-251 | The first error is promoted by the slack rule, and the request fails with it, reporting it only if it was pending. |
| EntryRequests.LedgerEntryRequest.LogError | bookkeeper-server/src/main/java/org/apache/bookkeeper/client/PendingReadOp.java:159-174 | The first error moves by the priority rule. The missed count grows by one exactly for a "not found" code. The code is appended to the error log. |
| EntryRequests.LedgerEntryRequest.Complete | bookkeeper-server/src/main/java/org/apache/bookkeeper/client/PendingReadOp.java:108-130 | An unverified reply has exactly the effect of a DigestMatch error from that host, by strategy (ErrorEffect). A verified reply wins if and only if the request was pending: it then completes with OK and keeps the payload, changing no bitset or counter. A losing verified reply changes nothing. |
| EntryRequests.LedgerEntryRequest.LogErrorAndReattemptRead | bookkeeper-server/src/main/java/org/apache/bookkeeper/client/PendingReadOp.java:159-174 | Every error is logged, with the whole effect of its strategy on the request: ParallelErrorEffect for a parallel request, SequenceErrorEffect for a sequence request (together, ErrorEffect). The request reports a failure exactly when this error failed it. The code is Interrupted or the promoted first error of all errors so far. |
| EntryRequests.LedgerEntryRequest.ParallelLogErrorAndReattemptRead | bookkeeper-server/src/main/java/org/apache/bookkeeper/client/PendingReadOp.java:241-253 | The request's whole new state is ParallelErrorEffect: the error is logged and one fewer reply is pending. The request gives up exactly when no reply is pending or the missed reads exceed the slack, and then fails with the promoted first error of all errors reported. Its sends, bitsets and payload are unchanged. |
| EntryRequests.LedgerEntryRequest.SendNextRead | bookkeeper-server/src/main/java/org/apache/bookkeeper/client/PendingReadOp.java:339-370 | With the write set exhausted, the request fails with the promoted first error and sends nothing. Otherwise the next index advances by one, and the call either sends to exactly that write-set replica and marks it sent, or is interrupted and fails with Interrupted. |
| EntryRequests.LedgerEntryRequest.SendTo | bookkeeper-server/src/main/java/org/apache/bookkeeper/client/PendingReadOp.java:355-363 | A send to the next write-set position advances the index and marks exactly that position as sent. |
| EntryRequests.LedgerEntryRequest.SequenceLogErrorAndReattemptRead | bookkeeper-server/src/main/java/org/apache/bookkeeper/client/PendingReadOp.java:372-386 | The error is logged. From a host outside the ensemble or write set it marks nothing; otherwise its position is marked errored. With a read still outstanding nothing else changes and firstError follows the priority rule. Otherwise the next replica is tried exactly as SendNextRead does from the logged state: the first error is kept on a send, an interrupted send fails with Interrupted, an exhausted write set fails with the promoted first error. |
| EntryRequests.LedgerEntryRequest.MarkErrored | bookkeeper-server/src/main/java/org/apache/bookkeeper/client/PendingReadOp.java:376-383 | The host's write-set position, if it has one, is marked errored and nothing else. The next replica is to be tried exactly when the host has a position and no read is then outstanding, which with distinct addresses means every send has failed. |
| EntryRequests.LedgerEntryRequest.MaybeSendSpeculativeRead | bookkeeper-server/src/main/java/org/apache/bookkeeper/client/PendingReadOp.java:316-332 | The call speculates exactly when the request is sequential, a replica is left, and no replica sent to was heard from. It then sends to exactly the next write-set replica, returning that host unless interrupted. Otherwise it returns null and changes nothing. |
| EntryRequests.LedgerEntryRequest.Read | bookkeeper-server/src/main/java/org/apache/bookkeeper/client/PendingReadOp.java:226-238 | A fresh request ends up as Dispatched says. The parallel read() is lines 226-238; the sequence read() at lines 334-337 calls sendNextRead. A parallel request has sent to the write set up to an interrupted send, which fails it with Interrupted. A sequence request has sent to its first write-set replica. It reports exactly when it failed. |
| EntryRequests.LedgerEntryRequest.ParallelRead | bookkeeper-server/src/main/java/org/apache/bookkeeper/client/PendingReadOp.java:226-238 | The loop sends to write-set positions 0, 1, … in order, every one unless a send is interrupted. An interrupted send fails the request with Interrupted and stops the loop. |
| PendingRead.SubmitStep | bookkeeper-server/src/main/java/org/apache/bookkeeper/client/PendingReadOp.java:524-545 | A new entry's submission keeps the bookkeeping. OK counts one more entry and fires only when none is pending. Another code fires at once. Only the first firing calls back and cancels. |
| PendingRead.PendingReadOp.constructor | bookkeeper-server/src/main/java/org/apache/bookkeeper/client/PendingReadOp.java:389-403 | numPendingEntries is the range's size, maxMissedReadsAllowed is W − A, and the queue and heard-from set are empty. No callback has run. |
| PendingRead.PendingReadOp.CancelSpeculativeTask | bookkeeper-server/src/main/java/org/apache/bookkeeper/client/PendingReadOp.java:409-414 | The speculative task is no longer scheduled. |
| PendingRead.PendingReadOp.SubmitCallback | bookkeeper-server/src/main/java/org/apache/bookkeeper/client/PendingReadOp.java:524-545 | OK decrements numPendingEntries. The callback fires if and only if the operation was not complete and the code is a failure or the last success. It then runs once with that code and the speculative task is cancelled. Otherwise nothing else changes. |
| PendingRead.PendingReadOp.Post | bookkeeper-server/src/main/java/org/apache/bookkeeper/client/PendingReadOp.java:139-143 | A request's completion or failure is submitted once, with the request's code. A completed operation never calls back again. |
| PendingRead.PendingReadOp.CallbackMeaning | bookkeeper-server/src/main/java/org/apache/bookkeeper/client/PendingReadOp.java:524-545 | The callback has run at most once, and has run if and only if the operation is complete. With OK, every entry's request completed with OK. With a failure code, some request failed with that code. |
| PendingRead.PendingReadOp.AllCompleteCalledBack | bookkeeper-server/src/main/java/org/apache/bookkeeper/client/PendingReadOp.java:524-545 | Once every entry's request is complete, the callback has run. |
| PendingRead.PendingReadOp.PendingCount | bookkeeper-server/src/main/java/org/apache/bookkeeper/client/PendingReadOp.java:519-529 | numPendingEntries stays between zero and the range's size. It reaches zero only once the callback has run with OK. |
| PendingRead.PendingReadOp.Initiate | bookkeeper-server/src/main/java/org/apache/bookkeeper/client/PendingReadOp.java:421-472 | One request is built and queued per entry id, in order, with its entry's ensemble and write set and the configured strategy. Every request is dispatched. The speculative task is scheduled exactly when a timeout is set, reads are sequential and the operation did not already finish. |
| PendingRead.PendingReadOp.BuildRequests | bookkeeper-server/src/main/java/org/apache/bookkeeper/client/PendingReadOp.java:454-467 | The do-while builds fresh requests for entry ids start..end in order. Each uses the ensemble in force at its entry, although the ensemble is looked up only at ensemble changes. |
| PendingRead.PendingReadOp.DispatchRequests | bookkeeper-server/src/main/java/org/apache/bookkeeper/client/PendingReadOp.java:468-471 | Every queued request is read(), and those its read() fails are submitted. The speculative task is cancelled only by completion. |
| PendingRead.PendingReadOp.ReadOne | bookkeeper-server/src/main/java/org/apache/bookkeeper/client/PendingReadOp.java:469-471 | read() of a fresh queued request leaves it as Dispatched says and leaves the operation's bookkeeping waiting only for that request's submission. |
| PendingRead.PendingReadOp.ReadEntryComplete | bookkeeper-server/src/main/java/org/apache/bookkeeper/client/PendingReadOp.java:503-522 | The request's whole new state is ReplyEffect against its state before the reply. An error reply has exactly its strategy's error effect on its request (ErrorEffect). An OK reply adds the host to heardFromHosts. An unverified OK reply is a DigestMatch error. A verified one on a pending entry completes it with OK and its payload and changes nothing else about it; on a complete entry it changes nothing. A completed operation never calls back again. |
| PendingRead.PendingReadOp.Deliver | bookkeeper-server/src/main/java/org/apache/bookkeeper/client/PendingReadOp.java:507-516 | The request's half of a reply, stated as ReplyEffect against its state before the reply: an error has its strategy's error effect, an unverified OK reply is a DigestMatch error, a verified one completes a pending entry with OK and its payload and nothing else, and leaves a complete one as it was. The completion it causes is due for submission exactly when the request became complete in this step. |
| PendingRead.PendingReadOp.SpeculativeRun | bookkeeper-server/src/main/java/org/apache/bookkeeper/client/PendingReadOp.java:427-451 | The task must be scheduled. Only the requests still in the queue can change: those already drained are unchanged. Each queued request is Visited against its state when the pass began. Complete ones are skipped and unchanged. An incomplete one sends to its next write-set replica exactly when it is sequential, a replica is left, no replica it sent to was heard from, and the send is not interrupted; it then stays pending with its codes, error log and counters, its index one further. Otherwise it is untouched, or fails with Interrupted. The task stays scheduled if and only if it was, the operation is not complete, and no request sent nothing. |
| PendingRead.PendingReadOp.SpeculateOne | bookkeeper-server/src/main/java/org/apache/bookkeeper/client/PendingReadOp.java:431-442 | One request's turn: skipped exactly when complete. It sends exactly when it would speculate and is not interrupted, to its next write-set position, whose host is returned. Its whole new state is maybeSendSpeculativeRead's effect (SpeculativeEffect): a send advances the index by one and keeps it pending with its codes, error log and counters; otherwise it is untouched when it would not speculate, and fails with Interrupted when its send was interrupted, and the task is cancelled. |
| PendingRead.PendingReadOp.Speculate | bookkeeper-server/src/main/java/org/apache/bookkeeper/client/PendingReadOp.java:433 | maybeSendSpeculativeRead on an incomplete request sends exactly when it would speculate and the send is not interrupted, to its next write-set replica. The request's new state is SpeculativeEffect: sendNextRead's effect with errors, errored bitset, counters and payload kept, or no change when it would not speculate. |
| PendingRead.PendingReadOp.Settle | bookkeeper-server/src/main/java/org/apache/bookkeeper/client/PendingReadOp.java:433-436 | The operation's half of one speculative step: afterwards the invariant holds again, so the request's completion, if any, has been submitted. The task is unscheduled when the request sent nothing. Otherwise it stays scheduled while the operation is not complete. It is never rescheduled, and a completed operation never calls back again. |
| PendingRead.PendingReadOp.StopSpeculation | bookkeeper-server/src/main/java/org/apache/bookkeeper/client/PendingReadOp.java:433-436 | The speculative task cancelling itself leaves the operation consistent and the task unscheduled. |
| PendingRead.PendingReadOp.Size | bookkeeper-server/src/main/java/org/apache/bookkeeper/client/PendingReadOp.java:556-558 | The number of entries not yet enumerated is at most the range's size. The head of the queue is the entry that many ids before the end. |
| PendingRead.PendingReadOp.HasMoreElements | bookkeeper-server/src/main/java/org/apache/bookkeeper/client/PendingReadOp.java:547-549 | There are more elements exactly when the size is positive. |
| PendingRead.PendingReadOp.NextElement | bookkeeper-server/src/main/java/org/apache/bookkeeper/client/PendingReadOp.java:551-554 | The head of the queue is removed and returned. It is the entry after the last one enumerated. An empty queue yields NoSuchElementException (None). |

## Left out

- Concurrency: every `synchronized` method and every compare-and-set is one atomic step, and `Initiate` is one step as a whole. Interleavings are the arbitrary order in which the event methods are called after it. Real threads, the scheduler's executor and the cancellation race are not modelled.
- PendingRead.PendingReadOp.SpeculativeRun: requires the speculative task to be scheduled. A firing that `cancelSpeculativeTask` has already cancelled, which the executor can still start, is not modelled.
- The transport and the throttler: `sendReadTo` is an append to the request's ghost send log. The throttler's `InterruptedException` is an input naming which send is interrupted. Replies arrive only through `ReadEntryComplete`.
- The digest: `verifyDigestAndReturnData` becomes the `verified` flag and the payload. The entry `length` read from the buffer's metadata is not modelled.
- `lh.updateLastConfirmed` on a winning reply, with the piggybacked last-add-confirmed: not modelled, and no monotonicity claim is made.
- Statistics, latency measurement (`requestTimeMillis`, `MathUtils.now`), `LOG` calls, and the speculative task's `x` counter, which only feeds a debug log.
- Ensemble and write-set computation: the ledger metadata (`getEnsemble`, `getNextEnsembleChange`, `getWriteSet`) is an input layout, assumed consistent over the range.
- `parallelRead(boolean)`: the builder setter is a constructor argument.
- BKException values: the codes use BookKeeper's `BKException.Code` values. `BKException` is not part of this model.
- PendingRead.PendingReadOp.Initiate: requires a fresh operation (no requests, no scheduled task), because `initiate` is called once per operation.
- PendingRead.PendingReadOp.Initiate: its schedule, build and dispatch run as one atomic step. No reply and no firing of the speculative task is modelled between its `read()` calls, although in the source a reply to an early request, or the task once its delay has passed, can run while later requests are still being dispatched. The request and queue invariants are stated for a fully built queue.
- PendingRead.PendingReadOp.constructor: requires only `startEntryId <= endEntryId`. An empty range makes the `ArrayBlockingQueue` constructor throw, which is not modelled.
- PendingRead.PendingReadOp.constructor: the queue's capacity is `(int) ((endEntryId + 1) - startEntryId)` (line 391). A range of more than 2^31 − 1 entries wraps to a wrong or negative capacity in the source. The model's queue is an unbounded sequence, so this truncation is not modelled.
- PendingRead.PendingReadOp.ReadEntryComplete: requires that the reply's request belongs to this operation and that its host is a replica that request sent to, as every `ReadContext` that `sendReadTo` creates records (lines 474-500). It states the request's whole new state for every kind of reply, and the heard-from set, but not the exact callback transition; `Post`, `SubmitCallback` and `CallbackMeaning` state that.
