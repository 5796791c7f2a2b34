/**
 * The per-entry read request of PendingReadOp: the state machine shared by both
 * strategies (complete, fail, logErrorAndReattemptRead) and the two strategies,
 * parallel (send to the whole write set) and sequence (one replica at a time, with
 * speculative reads). The strategy is a tag on one class rather than a subclass.
 *
 * Where the source's fail() calls the operation's submitCallback, a method here
 * returns the code it failed with (`notify`) and the operation submits it in the same
 * step. A send is an append of the write-set position to the ghost log `sends`; the
 * replica it goes to is Target(position). The transport may throw InterruptedException
 * before a send: that is the `interrupted` / `interruptAt` oracle.
 */
module EntryRequests {
  import opened Options
  import opened ReadCodes
  import opened Replicas

  /** Which subclass of LedgerEntryRequest the operation builds. */
  datatype Strategy = Parallel | Sequence

  /** The mutable fields of a request at one moment, ghost logs included. */
  datatype EntryState = EntryState(
    complete: bool, rc: int, firstError: int, numMissedEntryReads: int, data: seq<bv8>,
    numPendings: int, nextReplicaIndexToReadFrom: int, sentReplicas: set<int>, erroredReplicas: set<int>,
    sends: seq<int>, errors: seq<int>, speculativeSends: int)

  /**
   * The parallel strategy's sends: the write set in order, and one pending reply for each
   * of the W write-set replicas that has not reported an error.
   */
  ghost predicate ParallelSends(sends: seq<int>, numErrors: int, numPendings: int, w: int)
  {
    numPendings == w - numErrors &&
    forall i :: 0 <= i < |sends| ==> sends[i] == i && sends[i] < w
  }

  /**
   * The sequence strategy's sends: positions below the next index `next`, as many as
   * the positions recorded in `sent`, which are exactly these; errored positions lie
   * in the write set. With distinct replica addresses every errored position was sent
   * to, and at most one read is outstanding besides the `speculative` ones.
   */
  ghost predicate SequenceSends(sends: seq<int>, next: int, sent: set<int>, errored: set<int>, speculative: nat,
                                w: int, distinctEnsemble: bool)
  {
    0 <= next <= w &&
    (forall i :: 0 <= i < |sends| ==> 0 <= sends[i] < next) &&
    (forall p :: p in sent <==> p in sends) && |sent| == |sends| &&
    (forall p :: p in errored ==> 0 <= p < w) &&
    (distinctEnsemble ==> errored <= sent && |sent - errored| <= 1 + speculative)
  }

  /**
   * A send to the next position keeps the sequence invariant; unless speculative, it is
   * made with no read outstanding.
   */
  lemma SequenceSendStep(sends: seq<int>, next: int, sent: set<int>, errored: set<int>, speculative: nat,
                         w: int, distinctEnsemble: bool, isSpeculative: bool)
    requires SequenceSends(sends, next, sent, errored, speculative, w, distinctEnsemble) && next < w
    requires !isSpeculative && distinctEnsemble ==> sent <= errored
    ensures SequenceSends(sends + [next], next + 1, sent + {next}, errored,
                          speculative + (if isSpeculative then 1 else 0), w, distinctEnsemble)
  {
    var sends', sent', speculative' := sends + [next], sent + {next}, speculative + (if isSpeculative then 1 else 0);
    forall i | 0 <= i < |sends'|
      ensures 0 <= sends'[i] < next + 1
    {
      if i < |sends| {
        assert sends'[i] == sends[i];
      }
    }
    forall p
      ensures p in sent' <==> p in sends'
    {
      if p in sends' && p != next {
        var i :| 0 <= i < |sends'| && sends'[i] == p;
        assert sends'[i] == sends[i];
      }
    }
    assert next !in sends;
    assert |sent'| == |sent| + 1;
    if distinctEnsemble {
      AddSent(sent, errored, next);
      if !isSpeculative {
        assert sent - errored == {};
      }
      assert |sent' - errored| <= 1 + speculative';
    }
  }

  /** An error charged to a write-set position keeps the sequence invariant, provided that position was sent to. */
  lemma SequenceErrorStep(sends: seq<int>, next: int, sent: set<int>, errored: set<int>, speculative: nat,
                          w: int, distinctEnsemble: bool, p: int)
    requires SequenceSends(sends, next, sent, errored, speculative, w, distinctEnsemble) && 0 <= p < w
    requires distinctEnsemble ==> p in sent
    ensures SequenceSends(sends, next, sent, errored + {p}, speculative, w, distinctEnsemble)
    ensures distinctEnsemble && !ReadsOutstanding(sent, errored + {p}) ==> sent <= errored + {p}
  {
    if distinctEnsemble {
      ErrorKeepsBound(sent, errored, p, 1 + speculative);
      ReadsOutstandingIff(sent, errored + {p});
    }
  }

  class LedgerEntryRequest {
    const entryId: int
    const ensemble: seq<Host>
    const writeSet: seq<int>
    const strategy: Strategy
    const writeQuorumSize: nat
    const maxMissedReadsAllowed: int

    // State shared by both strategies.
    var complete: bool
    var rc: int
    var firstError: int
    var numMissedEntryReads: nat
    var data: seq<bv8>  // the verified payload of the winning response

    // ParallelReadRequest.
    var numPendings: int

    // SequenceReadRequest; the BitSets are sets of write-set positions.
    var nextReplicaIndexToReadFrom: nat
    var sentReplicas: set<int>
    var erroredReplicas: set<int>

    ghost var sends: seq<int>   // write-set positions dispatched to, in order
    ghost var errors: seq<int>  // codes reported through logErrorAndReattemptRead, in order
    ghost var speculativeSends: nat  // sends made by maybeSendSpeculativeRead

    /** The request's invariant: its error record and its dispatch record. */
    ghost predicate Valid()
      reads this
    {
      ErrorsValid() && SendsValid()
    }

    /** firstError and numMissedEntryReads are what the errors reported so far make them, while pending. */
    ghost predicate ErrorsValid()
      reads this`errors, this`numMissedEntryReads, this`complete, this`rc, this`firstError
    {
      Logged() && (!complete ==> rc == OK && firstError == FoldFirstError(errors))
    }

    /** The part of ErrorsValid that completing the request does not touch. */
    ghost predicate Logged()
      reads this`errors, this`numMissedEntryReads
    {
      |writeSet| == writeQuorumSize && WriteSetFits(writeSet, |ensemble|) &&
      NoOk(errors) && numMissedEntryReads == CountMissed(errors)
    }

    /** The sends made so far, by strategy; see ParallelSends and SequenceSends. */
    ghost predicate SendsValid()
      reads this`sends, this`errors, this`numPendings, this`nextReplicaIndexToReadFrom, this`sentReplicas,
            this`erroredReplicas, this`speculativeSends
    {
      match strategy
      case Parallel => ParallelSends(sends, |errors|, numPendings, writeQuorumSize)
      case Sequence =>
        SequenceSends(sends, nextReplicaIndexToReadFrom, sentReplicas, erroredReplicas, speculativeSends,
                      writeQuorumSize, Distinct(ensemble))
    }

    /** The request's mutable state, as a value: what a step started from. */
    ghost function State(): EntryState
      reads this
    {
      EntryState(complete, rc, firstError, numMissedEntryReads, data, numPendings, nextReplicaIndexToReadFrom,
                 sentReplicas, erroredReplicas, sends, errors, speculativeSends)
    }

    /**
     * `host` is a replica this request has sent a read to. Every reply the transport
     * delivers comes from one: the ReadContext of a reply names the host of its send.
     */
    ghost predicate SentTo(host: Host)
      reads this
    {
      exists p :: p in sends && 0 <= p < |writeSet| && 0 <= writeSet[p] < |ensemble| && ensemble[writeSet[p]] == host
    }

    /**
     * The sequence strategy keeps at most one read outstanding, plus one for each
     * speculative send: every error is charged to a replica that was sent to, and the
     * next replica is tried only once no read is outstanding. readsOutstanding's
     * cardinality test then means exactly that some sent read has not failed.
     */
    lemma OutstandingBound()
      requires Valid() && strategy == Sequence && Distinct(ensemble)
      ensures erroredReplicas <= sentReplicas
      ensures |sentReplicas - erroredReplicas| <= 1 + speculativeSends
      ensures ReadsOutstanding(sentReplicas, erroredReplicas) <==> sentReplicas - erroredReplicas != {}
    {
      ReadsOutstandingIff(sentReplicas, erroredReplicas);
    }

    /** With distinct replica addresses, an error from a replica sent to is charged to a position sent to. */
    lemma ChargedToSent(host: Host)
      requires Valid() && strategy == Sequence && Distinct(ensemble) && SentTo(host)
      ensures ReplicaIndex(ensemble, writeSet, host) in sentReplicas
    {
      var q :| q in sends && 0 <= q < |writeSet| && 0 <= writeSet[q] < |ensemble| && ensemble[writeSet[q]] == host;
      ReplicaIndexOfTarget(ensemble, writeSet, q);
      var i :| 0 <= i < |sends| && sends[i] == q;
    }

    /**
     * The sequence strategy speculates from state `w`: a replica is left, and none of
     * the replicas already sent to appears among the hosts heard from.
     */
    predicate WouldSpeculate(w: EntryState, heardFromHosts: set<Host>)
    {
      strategy == Sequence && w.nextReplicaIndexToReadFrom < writeQuorumSize &&
      SentToBitSet(w.sentReplicas, writeSet) * HeardFromBitSet(heardFromHosts, ensemble) == {}
    }

    /**
     * The parallel strategy's handling of an error `code` reported from state `w`: one
     * fewer reply is pending, and the request gives up, failing with the promoted first
     * error, once no reply is pending or the missed reads exceed the slack.
     */
    ghost predicate ParallelErrorEffect(code: int, w: EntryState)
      reads this
    {
      errors == w.errors + [code] &&
      numMissedEntryReads == w.numMissedEntryReads + (if IsNotFound(code) then 1 else 0) &&
      numPendings == w.numPendings - 1 &&
      nextReplicaIndexToReadFrom == w.nextReplicaIndexToReadFrom && sends == w.sends &&
      sentReplicas == w.sentReplicas && erroredReplicas == w.erroredReplicas &&
      speculativeSends == w.speculativeSends && data == w.data &&
      var giveUp := numMissedEntryReads > maxMissedReadsAllowed || numPendings == 0;
      (giveUp ==>
         && complete
         && firstError == PromoteNotFound(NextFirstError(w.firstError, code), numMissedEntryReads,
                                          maxMissedReadsAllowed)
         && rc == (if w.complete then w.rc else firstError)) &&
      (!giveUp ==> complete == w.complete && rc == w.rc && firstError == NextFirstError(w.firstError, code))
    }

    /**
     * What sendNextRead does from a state whose index, sends, sent bitset, first error,
     * completion flag and code were `next0`, `sends0`, `sent0`, `firstError0`, `complete0`
     * and `rc0`: with the write set exhausted, fail with the first error, promoted when the
     * missed reads exceed the slack; otherwise advance the index and either send to that
     * write-set position or, when the send is interrupted, fail with InterruptedException.
     * A request that was already complete keeps its code.
     */
    ghost predicate NextReadEffect(interrupted: bool, next0: int, sends0: seq<int>, sent0: set<int>, firstError0: int,
                                   complete0: bool, rc0: int)
      reads this
    {
      (next0 >= writeQuorumSize ==>
         && complete && nextReplicaIndexToReadFrom == next0
         && sends == sends0 && sentReplicas == sent0
         && firstError == PromoteNotFound(firstError0, numMissedEntryReads, maxMissedReadsAllowed)
         && rc == (if complete0 then rc0 else firstError)) &&
      (next0 < writeQuorumSize ==>
         && nextReplicaIndexToReadFrom == next0 + 1
         && firstError == firstError0
         && (!interrupted ==>
               && sends == sends0 + [next0]
               && sentReplicas == sent0 + {next0}
               && complete == complete0 && rc == rc0)
         && (interrupted ==>
               && complete && sends == sends0 && sentReplicas == sent0
               && rc == (if complete0 then rc0 else InterruptedException)))
    }

    /**
     * The sequence strategy's handling of an error `code` from `host`, reported from
     * state `w`: the error is logged; the host's write-set position, if it has one, is
     * marked errored; and when no read is then outstanding the next replica is tried,
     * exactly as sendNextRead does from the logged state.
     */
    ghost predicate SequenceErrorEffect(host: Host, code: int, interrupted: bool, w: EntryState)
      reads this
    {
      errors == w.errors + [code] &&
      numMissedEntryReads == w.numMissedEntryReads + (if IsNotFound(code) then 1 else 0) &&
      numPendings == w.numPendings && speculativeSends == w.speculativeSends && data == w.data &&
      var p := ReplicaIndex(ensemble, writeSet, host);
      erroredReplicas == (if p == -1 then w.erroredReplicas else w.erroredReplicas + {p}) &&
      var retry := p != -1 && !ReadsOutstanding(w.sentReplicas, erroredReplicas);
      (!retry ==>
         && nextReplicaIndexToReadFrom == w.nextReplicaIndexToReadFrom
         && sends == w.sends && sentReplicas == w.sentReplicas
         && complete == w.complete && rc == w.rc
         && firstError == NextFirstError(w.firstError, code)) &&
      (retry ==>
         NextReadEffect(interrupted, w.nextReplicaIndexToReadFrom, w.sends, w.sentReplicas,
                        NextFirstError(w.firstError, code), w.complete, w.rc))
    }

    /**
     * maybeSendSpeculativeRead's effect from state `w`: a request that would not speculate
     * is left as it was; one that would goes through sendNextRead, counting one more
     * speculative send unless that send is interrupted, and keeps its error log, errored
     * bitset, missed count, pending count and payload.
     */
    ghost predicate SpeculativeEffect(heardFromHosts: set<Host>, interrupted: bool, w: EntryState)
      reads this
    {
      (!WouldSpeculate(w, heardFromHosts) ==> State() == w) &&
      (WouldSpeculate(w, heardFromHosts) ==>
         && NextReadEffect(interrupted, w.nextReplicaIndexToReadFrom, w.sends, w.sentReplicas, w.firstError,
                           w.complete, w.rc)
         && errors == w.errors && erroredReplicas == w.erroredReplicas
         && numMissedEntryReads == w.numMissedEntryReads && numPendings == w.numPendings && data == w.data
         && speculativeSends == w.speculativeSends + (if interrupted then 0 else 1))
    }

    /**
     * readEntryComplete's effect on the request from state `w`: an error reply is that
     * error from `host`, an unverified OK reply is a DigestMatch error from `host`, and a
     * verified OK reply completes a pending request with OK and its payload and leaves a
     * complete one as it was.
     */
    ghost predicate ReplyEffect(code: int, host: Host, verified: bool, payload: seq<bv8>, interrupted: bool,
                                w: EntryState)
      reads this
    {
      (code != OK ==> ErrorEffect(host, code, interrupted, w)) &&
      (code == OK && !verified ==> ErrorEffect(host, DigestMatchException, interrupted, w)) &&
      (code == OK && verified ==>
         State() == if w.complete then w else w.(complete := true, rc := OK, data := payload))
    }

    /** logErrorAndReattemptRead's effect from state `w`, by strategy. */
    ghost predicate ErrorEffect(host: Host, code: int, interrupted: bool, w: EntryState)
      reads this
    {
      match strategy
      case Parallel => ParallelErrorEffect(code, w)
      case Sequence => SequenceErrorEffect(host, code, interrupted, w)
    }

    /**
     * No write-set position is sent to twice: the parallel strategy sends to each once,
     * in order, and the sequence strategy to a new position each time.
     */
    lemma SentOnce()
      requires Valid()
      ensures Distinct(sends)
    {
      if strategy == Sequence {
        ElementsSize(sends, sentReplicas);
      }
    }

    /** The state right after construction. */
    ghost predicate Initial()
      reads this
    {
      !complete && rc == OK && firstError == OK && numMissedEntryReads == 0 && data == [] &&
      numPendings == writeQuorumSize && nextReplicaIndexToReadFrom == 0 &&
      sentReplicas == {} && erroredReplicas == {} && sends == [] && errors == [] && speculativeSends == 0
    }

    /** The replica a write-set position names. */
    function Target(p: int): (host: Host)
      requires 0 <= p < |writeSet| && InEnsemble(writeSet, |ensemble|)
    {
      ensemble[writeSet[p]]
    }

    constructor (strategy: Strategy, ensemble: seq<Host>, writeSet: seq<int>, entryId: int,
                 writeQuorumSize: nat, maxMissedReadsAllowed: int)
      requires |writeSet| == writeQuorumSize && WriteSetFits(writeSet, |ensemble|)
      ensures this.strategy == strategy && this.ensemble == ensemble && this.writeSet == writeSet
      ensures this.entryId == entryId && this.writeQuorumSize == writeQuorumSize
      ensures this.maxMissedReadsAllowed == maxMissedReadsAllowed
      ensures Valid() && Initial()
    {
      this.strategy := strategy;
      this.ensemble := ensemble;
      this.writeSet := writeSet;
      this.entryId := entryId;
      this.writeQuorumSize := writeQuorumSize;
      this.maxMissedReadsAllowed := maxMissedReadsAllowed;
      complete := false;
      rc := OK;
      firstError := OK;
      numMissedEntryReads := 0;
      data := [];
      numPendings := |writeSet|;
      nextReplicaIndexToReadFrom := 0;
      sentReplicas := {};
      erroredReplicas := {};
      sends := [];
      errors := [];
      speculativeSends := 0;
    }

    /**
     * fail: the compare-and-set on `complete`; only the first completion or failure wins,
     * and only the winner reports `code` to the operation.
     */
    method Fail(code: int) returns (notify: Option<int>)
      requires Logged()
      modifies this`complete, this`rc
      ensures ErrorsValid()
      ensures complete
      ensures notify.Some? <==> !old(complete)
      ensures notify.Some? ==> rc == notify.value == code
      ensures notify.None? ==> rc == old(rc)
    {
      notify := None;
      if !complete {
        complete := true;
        rc := code;
        notify := Some(code);
      }
    }

    /**
     * How both strategies give up on an entry: "unavailable" is promoted to NoSuchEntry
     * once more replicas than the slack have said "not found", and the request fails
     * with the first error.
     */
    method FailWithFirstError() returns (notify: Option<int>)
      requires Logged()
      modifies this`firstError, this`complete, this`rc
      ensures ErrorsValid()
      ensures complete
      ensures firstError == PromoteNotFound(old(firstError), numMissedEntryReads, maxMissedReadsAllowed)
      ensures notify.Some? <==> !old(complete)
      ensures notify.Some? ==> rc == notify.value == firstError
      ensures notify.None? ==> rc == old(rc)
    {
      if firstError == BookieHandleNotAvailableException && numMissedEntryReads > maxMissedReadsAllowed {
        firstError := NoSuchEntryException;
      }
      notify := Fail(firstError);
    }

    /** The shared part of logErrorAndReattemptRead: the first-error rule and the missed-read count. */
    method LogError(code: int)
      requires ErrorsValid() && code != OK
      modifies this`firstError, this`numMissedEntryReads, this`errors
      ensures ErrorsValid()
      ensures firstError == NextFirstError(old(firstError), code)
      ensures numMissedEntryReads == old(numMissedEntryReads) + (if IsNotFound(code) then 1 else 0)
      ensures errors == old(errors) + [code]
    {
      if firstError == OK || IsNotFound(firstError) {
        firstError := code;
      } else if firstError == BookieHandleNotAvailableException && !IsNotFound(code) {
        firstError := code;
      }
      if IsNotFound(code) {
        numMissedEntryReads := numMissedEntryReads + 1;
      }
      errors := errors + [code];
      assert errors[..|errors| - 1] == old(errors);
    }

    /**
     * complete(host, buffer): a response whose digest does not verify is an error from
     * that host; a verified response wins only if the entry is neither completed nor
     * failed, and a losing response changes nothing.
     */
    method Complete(host: Host, verified: bool, payload: seq<bv8>, interrupted: bool)
      returns (won: bool, notify: Option<int>)
      requires Valid() && SentTo(host)
      modifies this
      ensures Valid()
      ensures won <==> verified && !old(complete)
      ensures won ==> complete && rc == OK && data == payload && notify == None
      ensures won ==> unchanged(this`sends, this`errors, this`firstError, this`numMissedEntryReads,
                                this`numPendings, this`nextReplicaIndexToReadFrom,
                                this`sentReplicas, this`erroredReplicas, this`speculativeSends)
      ensures verified && !won ==> unchanged(this) && notify == None
      ensures old(complete) ==> complete && rc == old(rc) && data == old(data)
      ensures !verified ==> ErrorEffect(host, DigestMatchException, interrupted, old(State()))
      ensures notify.Some? <==> !verified && !old(complete) && complete
      ensures notify.Some? ==> rc == notify.value
      ensures !won && notify.None? ==> complete == old(complete) && rc == old(rc)
    {
      if !verified {
        notify := LogErrorAndReattemptRead(host, DigestMatchException, interrupted);
        won := false;
        return;
      }
      notify := None;
      if !complete {
        complete := true;
        rc := OK;
        data := payload;
        won := true;
      } else {
        won := false;
      }
    }

    /** logErrorAndReattemptRead, dispatched on the strategy. */
    method LogErrorAndReattemptRead(host: Host, code: int, interrupted: bool) returns (notify: Option<int>)
      requires Valid() && code != OK && SentTo(host)
      modifies this`firstError, this`numMissedEntryReads, this`errors, this`numPendings, this`complete,
               this`rc, this`erroredReplicas, this`nextReplicaIndexToReadFrom, this`sentReplicas, this`sends,
               this`speculativeSends
      ensures Valid()
      ensures strategy == Parallel ==> ParallelErrorEffect(code, old(State()))
      ensures strategy == Sequence ==> SequenceErrorEffect(host, code, interrupted, old(State()))
      ensures notify.Some? <==> !old(complete) && complete
      ensures notify.Some? ==>
        && rc == notify.value
        && (notify.value == InterruptedException ||
            notify.value == PromoteNotFound(FoldFirstError(errors), CountMissed(errors), maxMissedReadsAllowed))
      ensures notify.None? ==> complete == old(complete) && rc == old(rc)
    {
      ghost var w := State();
      match strategy
      case Parallel =>
        notify := ParallelLogErrorAndReattemptRead(code);
      case Sequence =>
        notify := SequenceLogErrorAndReattemptRead(host, code, interrupted);
        SequenceErrorShown(host, code, interrupted, w);
    }

    /** The sequence strategy's step, stated field by field, is its SequenceErrorEffect. */
    lemma SequenceErrorShown(host: Host, code: int, interrupted: bool, w: EntryState)
      requires numPendings == w.numPendings && data == w.data
      requires errors == w.errors + [code]
      requires numMissedEntryReads == w.numMissedEntryReads + (if IsNotFound(code) then 1 else 0)
      requires speculativeSends == w.speculativeSends
      requires erroredReplicas == if ReplicaIndex(ensemble, writeSet, host) == -1 then w.erroredReplicas
                                  else w.erroredReplicas + {ReplicaIndex(ensemble, writeSet, host)}
      requires ReplicaIndex(ensemble, writeSet, host) == -1 || ReadsOutstanding(w.sentReplicas, erroredReplicas)
        ==> && nextReplicaIndexToReadFrom == w.nextReplicaIndexToReadFrom
            && sends == w.sends && sentReplicas == w.sentReplicas
            && complete == w.complete && rc == w.rc
            && firstError == NextFirstError(w.firstError, code)
      requires ReplicaIndex(ensemble, writeSet, host) != -1 && !ReadsOutstanding(w.sentReplicas, erroredReplicas)
        ==> NextReadEffect(interrupted, w.nextReplicaIndexToReadFrom, w.sends, w.sentReplicas,
                           NextFirstError(w.firstError, code), w.complete, w.rc)
      ensures SequenceErrorEffect(host, code, interrupted, w)
    {
    }

    /**
     * ParallelReadRequest.logErrorAndReattemptRead: every error uses up one pending
     * reply; the request fails with the (promoted) first error once no reply is pending
     * or more replicas than the slack have said "not found".
     */
    method ParallelLogErrorAndReattemptRead(code: int) returns (notify: Option<int>)
      requires Valid() && strategy == Parallel && code != OK
      modifies this`firstError, this`numMissedEntryReads, this`errors, this`numPendings, this`complete, this`rc
      ensures Valid()
      ensures ParallelErrorEffect(code, old(State()))
      ensures notify.Some? <==> !old(complete) && complete
      ensures notify.Some? ==>
        && rc == notify.value
        && notify.value == PromoteNotFound(FoldFirstError(errors), CountMissed(errors), maxMissedReadsAllowed)
      ensures notify.None? ==> rc == old(rc)
    {
      ghost var w := State();  // the fields this strategy leaves alone
      assert && w.nextReplicaIndexToReadFrom == nextReplicaIndexToReadFrom && w.sends == sends
             && w.sentReplicas == sentReplicas && w.erroredReplicas == erroredReplicas
             && w.speculativeSends == speculativeSends && w.data == data;
      LogError(code);
      numPendings := numPendings - 1;
      notify := None;
      if numMissedEntryReads > maxMissedReadsAllowed || numPendings == 0 {
        notify := FailWithFirstError();
      }
    }

    /**
     * SequenceReadRequest.sendNextRead: send to the next write-set replica, or, once the
     * write set is exhausted, fail with the first error (promoted to NoSuchEntry when
     * "unavailable" hid more "not found" answers than the slack).
     */
    method SendNextRead(interrupted: bool, ghost speculative: bool) returns (to: Option<Host>, notify: Option<int>)
      requires Valid() && strategy == Sequence
      requires !speculative && Distinct(ensemble) ==> sentReplicas <= erroredReplicas
      modifies this`nextReplicaIndexToReadFrom, this`sentReplicas, this`sends, this`firstError,
               this`complete, this`rc, this`speculativeSends
      ensures Valid()
      ensures speculativeSends == old(speculativeSends) + (if speculative && to.Some? then 1 else 0)
      ensures NextReadEffect(interrupted, old(nextReplicaIndexToReadFrom), old(sends), old(sentReplicas),
                             old(firstError), old(complete), old(rc))
      ensures to == if old(nextReplicaIndexToReadFrom) < writeQuorumSize && !interrupted
                    then Some(Target(old(nextReplicaIndexToReadFrom))) else None
      ensures notify.Some? <==> !old(complete) && complete
      ensures notify.Some? ==> rc == notify.value
      ensures notify.None? ==> rc == old(rc)
    {
      notify := None;
      if nextReplicaIndexToReadFrom >= writeQuorumSize {
        notify := FailWithFirstError();
        to := None;
        return;
      }
      var replica := nextReplicaIndexToReadFrom;
      if interrupted {
        nextReplicaIndexToReadFrom := nextReplicaIndexToReadFrom + 1;
        notify := Fail(InterruptedException);
        to := None;
        return;
      }
      SendTo(replica, speculative);
      to := Some(Target(replica));
    }

    /**
     * The sequence strategy's send to the next write-set replica: it is marked as sent to.
     * A send that is not speculative is made only when no read is outstanding.
     */
    method SendTo(replica: int, ghost speculative: bool)
      requires Valid() && strategy == Sequence && replica == nextReplicaIndexToReadFrom < writeQuorumSize
      requires !speculative && Distinct(ensemble) ==> sentReplicas <= erroredReplicas
      modifies this`nextReplicaIndexToReadFrom, this`sentReplicas, this`sends, this`speculativeSends
      ensures Valid()
      ensures nextReplicaIndexToReadFrom == replica + 1
      ensures sends == old(sends) + [replica] && sentReplicas == old(sentReplicas) + {replica}
      ensures speculativeSends == old(speculativeSends) + (if speculative then 1 else 0)
    {
      SequenceSendStep(sends, nextReplicaIndexToReadFrom, sentReplicas, erroredReplicas, speculativeSends,
                       writeQuorumSize, Distinct(ensemble), speculative);
      nextReplicaIndexToReadFrom := nextReplicaIndexToReadFrom + 1;
      sends := sends + [replica];
      sentReplicas := sentReplicas + {replica};
      speculativeSends := speculativeSends + (if speculative then 1 else 0);
    }

    /**
     * SequenceReadRequest.logErrorAndReattemptRead: an error from a host outside the
     * ensemble or the write set changes no bitset; otherwise its position is marked
     * errored, and the next replica is tried only if no read is outstanding.
     */
    method SequenceLogErrorAndReattemptRead(host: Host, code: int, interrupted: bool) returns (notify: Option<int>)
      requires Valid() && strategy == Sequence && code != OK && SentTo(host)
      modifies this`firstError, this`numMissedEntryReads, this`errors, this`erroredReplicas,
               this`nextReplicaIndexToReadFrom, this`sentReplicas, this`sends, this`complete, this`rc,
               this`speculativeSends
      ensures Valid()
      ensures errors == old(errors) + [code]
      ensures numMissedEntryReads == old(numMissedEntryReads) + (if IsNotFound(code) then 1 else 0)
      ensures speculativeSends == old(speculativeSends)
      ensures var p := ReplicaIndex(ensemble, writeSet, host);
        erroredReplicas == (if p == -1 then old(erroredReplicas) else old(erroredReplicas) + {p})
      ensures var p := ReplicaIndex(ensemble, writeSet, host);
        var retry := p != -1 && !ReadsOutstanding(old(sentReplicas), erroredReplicas);
        (!retry ==>
          && nextReplicaIndexToReadFrom == old(nextReplicaIndexToReadFrom)
          && sends == old(sends) && sentReplicas == old(sentReplicas)
          && complete == old(complete) && rc == old(rc)
          && firstError == NextFirstError(old(firstError), code)) &&
        (retry ==>
          NextReadEffect(interrupted, old(nextReplicaIndexToReadFrom), old(sends), old(sentReplicas),
                         NextFirstError(old(firstError), code), old(complete), old(rc)))
      ensures notify.Some? <==> !old(complete) && complete
      ensures notify.Some? ==>
        && rc == notify.value
        && (notify.value == InterruptedException ||
            notify.value == PromoteNotFound(FoldFirstError(errors), CountMissed(errors), maxMissedReadsAllowed))
    {
      LogError(code);
      notify := None;
      var retry := MarkErrored(host);
      assert retry == (ReplicaIndex(ensemble, writeSet, host) != -1 &&
                       !ReadsOutstanding(old(sentReplicas), erroredReplicas));
      if retry {
        var _, n := SendNextRead(interrupted, false);
        notify := n;
      }
    }

    /**
     * The bitset half of logErrorAndReattemptRead: the write-set position of `host`, if it
     * has one, is marked errored, and the next replica is to be tried when no read is then
     * outstanding, which with distinct replica addresses means every send has failed.
     */
    method MarkErrored(host: Host) returns (retry: bool)
      requires Valid() && strategy == Sequence && SentTo(host)
      modifies this`erroredReplicas
      ensures Valid()
      ensures var p := ReplicaIndex(ensemble, writeSet, host);
        && erroredReplicas == (if p == -1 then old(erroredReplicas) else old(erroredReplicas) + {p})
        && retry == (p != -1 && !ReadsOutstanding(sentReplicas, erroredReplicas))
      ensures retry && Distinct(ensemble) ==> sentReplicas <= erroredReplicas
    {
      if Distinct(ensemble) {
        ChargedToSent(host);
      }
      var replica := ReplicaIndex(ensemble, writeSet, host);
      if replica == -1 {
        return false;
      }
      SequenceErrorStep(sends, nextReplicaIndexToReadFrom, sentReplicas, erroredReplicas, speculativeSends,
                        writeQuorumSize, Distinct(ensemble), replica);
      erroredReplicas := erroredReplicas + {replica};
      retry := !ReadsOutstanding(sentReplicas, erroredReplicas);
    }

    /**
     * maybeSendSpeculativeRead: the parallel strategy never speculates. The sequence
     * strategy sends to exactly the next write-set replica when one is left and none of
     * the replicas it already sent to appears among the hosts heard from.
     */
    method MaybeSendSpeculativeRead(heardFromHosts: set<Host>, interrupted: bool)
      returns (to: Option<Host>, notify: Option<int>)
      requires Valid()
      modifies this`nextReplicaIndexToReadFrom, this`sentReplicas, this`sends, this`firstError,
               this`complete, this`rc, this`speculativeSends
      ensures Valid()
      ensures var speculate := WouldSpeculate(old(State()), heardFromHosts);
        && (!speculate ==> to == None && notify == None && unchanged(this))
        && (speculate ==>
              && NextReadEffect(interrupted, old(nextReplicaIndexToReadFrom), old(sends), old(sentReplicas),
                                old(firstError), old(complete), old(rc))
              && to == (if interrupted then None else Some(Target(old(nextReplicaIndexToReadFrom))))
              && speculativeSends == old(speculativeSends) + (if interrupted then 0 else 1))
      ensures notify.Some? <==> !old(complete) && complete
      ensures notify.Some? ==> rc == notify.value == InterruptedException
      ensures notify.None? ==> rc == old(rc)
    {
      to, notify := None, None;
      if strategy == Parallel || nextReplicaIndexToReadFrom >= writeQuorumSize {
        return;
      }
      var sentTo := SentToBitSet(sentReplicas, writeSet);
      var heardFrom := HeardFromBitSet(heardFromHosts, ensemble);
      if sentTo * heardFrom == {} {
        to, notify := SendNextRead(interrupted, true);
      }
    }

    /**
     * The state read() leaves a fresh request in. Parallel: the write set was sent to in
     * write-set order up to the first interrupted send, which fails the request.
     * Sequence: the first write-set replica was sent to; an interrupted send or an empty
     * write set fails the request.
     */
    ghost predicate Dispatched(interruptAt: int)
      reads this
    {
      errors == [] && firstError == OK && numMissedEntryReads == 0 && data == [] &&
      numPendings == writeQuorumSize && erroredReplicas == {} && speculativeSends == 0 &&
      match strategy
      case Parallel =>
        nextReplicaIndexToReadFrom == 0 && sentReplicas == {} &&
        if 0 <= interruptAt < writeQuorumSize then
          |sends| == interruptAt && complete && rc == InterruptedException
        else
          |sends| == writeQuorumSize && !complete && rc == OK
      case Sequence =>
        if writeQuorumSize == 0 then
          sends == [] && nextReplicaIndexToReadFrom == 0 && sentReplicas == {} && complete && rc == OK
        else if interruptAt == 0 then
          sends == [] && nextReplicaIndexToReadFrom == 1 && sentReplicas == {} &&
          complete && rc == InterruptedException
        else
          sends == [0] && nextReplicaIndexToReadFrom == 1 && sentReplicas == {0} && !complete && rc == OK
    }

    /**
     * read(): dispatch a fresh request. `interruptAt` is the index of the send (in the
     * order this call makes them) at which the transport throws InterruptedException.
     */
    method Read(interruptAt: int) returns (notify: Option<int>)
      requires Valid() && Initial()
      modifies this`sends, this`complete, this`rc, this`nextReplicaIndexToReadFrom, this`sentReplicas,
               this`firstError, this`speculativeSends
      ensures Valid() && Dispatched(interruptAt)
      ensures notify.Some? <==> complete
      ensures notify.Some? ==> rc == notify.value
    {
      match strategy
      case Parallel =>
        notify := ParallelRead(interruptAt);
      case Sequence =>
        var _, n := SendNextRead(interruptAt == 0, false);
        notify := n;
    }

    /** ParallelReadRequest.read: send to every write-set replica, in write-set order. */
    method ParallelRead(interruptAt: int) returns (notify: Option<int>)
      requires Valid() && Initial() && strategy == Parallel
      modifies this`sends, this`complete, this`rc
      ensures Valid() && Dispatched(interruptAt)
      ensures notify.Some? <==> complete
      ensures notify.Some? ==> rc == notify.value
    {
      notify := None;
      var k := 0;
      while k < |writeSet|
        invariant 0 <= k <= |writeSet|
        invariant |sends| == k && forall i :: 0 <= i < k ==> sends[i] == i
        invariant !complete && rc == OK
        invariant 0 <= interruptAt < |writeSet| ==> k <= interruptAt
      {
        if k == interruptAt {
          notify := Fail(InterruptedException);
          return;
        }
        sends := sends + [k];  // sendReadTo(ensemble.get(writeSet.get(k)))
        k := k + 1;
      }
    }
  }
}
