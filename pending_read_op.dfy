/**
 * PendingReadOp: one read of the entries startEntryId..endEntryId of a ledger. It builds
 * one request per entry, routes replica replies to them, counts the entries still
 * pending and invokes the read callback exactly once. Every synchronized method and
 * every compare-and-set is one step of a method here; replies and timer firings are
 * the event methods ReadEntryComplete and SpeculativeRun, callable in any order.
 */
module PendingRead {
  import opened Options
  import opened ReadCodes
  import opened Replicas
  import opened EntryRequests

  /**
   * The ledger metadata the operation consults: getEnsemble(i), getNextEnsembleChange(i)
   * and the distribution schedule's getWriteSet(i).
   */
  datatype LedgerLayout = LedgerLayout(
    ensembleAt: int -> seq<Host>,
    nextEnsembleChange: int -> int,
    writeSetOf: int -> seq<int>)

  /**
   * What the metadata promises over the range: an ensemble applies from the entry it is
   * looked up at until the next ensemble change, which lies beyond that entry, and every
   * write set names W distinct positions of its entry's ensemble.
   */
  ghost predicate LayoutConsistent(layout: LedgerLayout, first: int, last: int, writeQuorumSize: nat)
  {
    (forall i :: first <= i <= last ==> layout.nextEnsembleChange(i) > i) &&
    (forall i, j :: first <= i <= j <= last && j < layout.nextEnsembleChange(i) ==>
       layout.ensembleAt(j) == layout.ensembleAt(i)) &&
    (forall i :: first <= i <= last ==>
       |layout.writeSetOf(i)| == writeQuorumSize && WriteSetFits(layout.writeSetOf(i), |layout.ensembleAt(i)|))
  }

  /** A set of positions below n has at most n elements, and exactly n just when it holds them all. */
  lemma {:induction false} BoundedSetSize(s: set<int>, n: nat)
    requires forall k :: k in s ==> 0 <= k < n
    ensures |s| <= n
    ensures |s| == n <==> forall k :: 0 <= k < n ==> k in s
    decreases n
  {
    if n == 0 {
      assert forall k :: k !in s;
      assert s == {};
    } else {
      var rest := s - {n - 1};
      BoundedSetSize(rest, n - 1);
      if n - 1 in s {
        assert s == rest + {n - 1};
      } else {
        assert s == rest;
      }
    }
  }

  /**
   * The callback bookkeeping of an operation over `count` entries: the callback has run
   * at most once; it has run with OK only if every entry succeeded, and with a failure
   * code only if some entry failed with it; a failed entry or the last success has run
   * it; and numPendingEntries counts the entries not yet succeeded.
   */
  ghost predicate Books(count: int, numPending: int, complete: bool, scheduled: bool,
                        codes: map<int, int>, succeeded: set<int>, callbacks: seq<int>)
  {
    (forall k :: k in codes ==> 0 <= k < count && (k in succeeded <==> codes[k] == OK)) &&
    succeeded <= codes.Keys &&
    numPending == count - |succeeded| &&
    |callbacks| <= 1 && (complete <==> |callbacks| == 1) &&
    (complete ==> codes != map[] && !scheduled) &&
    (|succeeded| == count ==> complete) &&
    (forall k :: k in codes && codes[k] != OK ==> complete) &&
    (callbacks == [OK] ==> |succeeded| == count) &&
    (|callbacks| == 1 && callbacks[0] != OK ==> exists k :: k in codes && codes[k] == callbacks[0])
  }

  /**
   * Submitting a new entry's code keeps the bookkeeping: an OK code counts one more entry
   * done and fires the callback only when none is left; any other code fires it at once;
   * only the first firing calls back and cancels the speculative task.
   */
  lemma SubmitStep(count: int, numPending: int, complete: bool, scheduled: bool,
                   codes: map<int, int>, succeeded: set<int>, callbacks: seq<int>, k: int, code: int)
    requires Books(count, numPending, complete, scheduled, codes, succeeded, callbacks)
    requires 0 <= k < count && k !in codes
    ensures var pending := numPending - (if code == OK then 1 else 0);
      var fires := !complete && (code != OK || pending == 0);
      Books(count, pending, complete || fires, scheduled && !fires, codes[k := code],
            if code == OK then succeeded + {k} else succeeded,
            if fires then callbacks + [code] else callbacks)
  {
    var pending := numPending - (if code == OK then 1 else 0);
    var fires := !complete && (code != OK || pending == 0);
    var succeeded' := if code == OK then succeeded + {k} else succeeded;
    var codes' := codes[k := code];
    var callbacks' := if fires then callbacks + [code] else callbacks;
    BoundedSetSize(succeeded', count);
    assert |succeeded'| == |succeeded| + (if code == OK then 1 else 0);
    assert k in codes' && codes'[k] == code;
    if fires {
      assert callbacks == [] && callbacks' == [code];
    } else if |callbacks'| == 1 && callbacks'[0] != OK {
      var j :| j in codes && codes[j] == callbacks[0];
      assert j in codes' && codes'[j] == callbacks'[0];
    }
  }

  /** The send of entry id's read() at which the transport throws InterruptedException; -1 for none. */
  function InterruptAt(interrupts: map<int, int>, id: int): (at: int)
  {
    if id in interrupts then interrupts[id] else -1
  }

  /** What one pass of the speculative task did with one queued request. */
  datatype SpeculationOutcome = Skipped | NotSent | Sent(host: Host)

  /**
   * What the speculative pass did to `r`, whose state was `w` when the pass reached it,
   * with `heard` the hosts heard from and `interrupted` the entry ids whose send is
   * interrupted: a complete request is skipped and left alone; an incomplete one sends
   * to its next write-set replica exactly when it would speculate from `w` and the send
   * is not interrupted. Otherwise it sends nothing: it is left alone when it would not
   * speculate, and fails with InterruptedException when its send is interrupted. The
   * rest of an incomplete request's new state is maybeSendSpeculativeRead's effect: a
   * send advances the index by one and leaves the request pending with its codes and
   * error log.
   */
  ghost predicate Visited(r: LedgerEntryRequest, outcome: SpeculationOutcome, w: EntryState, heard: set<Host>,
                          interrupted: set<int>)
    reads r
  {
    r.Valid() &&
    (outcome.Skipped? <==> w.complete) &&
    (outcome.Skipped? ==> r.State() == w) &&
    (outcome.Sent? <==> !w.complete && r.WouldSpeculate(w, heard) && r.entryId !in interrupted) &&
    (outcome.Sent? ==>
       && 0 <= w.nextReplicaIndexToReadFrom < |r.writeSet|
       && r.sends == w.sends + [w.nextReplicaIndexToReadFrom]
       && outcome.host == r.Target(w.nextReplicaIndexToReadFrom)) &&
    (outcome.NotSent? ==> r.sends == w.sends) &&
    (outcome.NotSent? && !r.WouldSpeculate(w, heard) ==> r.State() == w) &&
    (outcome.NotSent? && r.WouldSpeculate(w, heard) ==> r.complete && r.rc == InterruptedException) &&
    (!w.complete ==> r.SpeculativeEffect(heard, r.entryId in interrupted, w))
  }

  /** `r` is still as the speculative pass found it. */
  ghost predicate Untouched(r: LedgerEntryRequest, w: EntryState)
    reads r
  {
    r.Valid() && r.State() == w
  }

  class PendingReadOp {
    const startEntryId: int
    const endEntryId: int
    const writeQuorumSize: nat
    const maxMissedReadsAllowed: int
    const speculativeReadTimeout: int
    const parallelRead: bool
    const layout: LedgerLayout

    var queue: seq<LedgerEntryRequest>  // the queue `seq`
    var heardFromHosts: set<Host>
    var numPendingEntries: int
    var complete: bool
    var speculativeTaskScheduled: bool  // speculativeTask != null

    ghost var requests: seq<LedgerEntryRequest>  // every request initiate built, in order; never drained
    ghost var codes: map<int, int>  // position in `requests` -> the code its completion or failure was submitted with
    ghost var succeeded: set<int>   // the submitted positions whose code was OK
    ghost var callbacks: seq<int>   // the codes cb.readComplete was invoked with

    /** The number of entries in the range. */
    function Count(): (n: int)
    {
      endEntryId - startEntryId + 1
    }

    /** The requests: one per entry id, in order, each valid; the queue is what is left of them. */
    ghost predicate Shape()
      reads this`requests, this`queue, requests
    {
      startEntryId <= endEntryId &&
      (|requests| == 0 || |requests| == Count()) &&
      (forall k :: 0 <= k < |requests| ==>
         && requests[k].entryId == startEntryId + k
         && requests[k].Valid()
         && requests[k].writeQuorumSize == writeQuorumSize
         && requests[k].maxMissedReadsAllowed == maxMissedReadsAllowed) &&
      |queue| <= |requests| &&
      (forall i :: 0 <= i < |queue| ==> queue[i] == requests[|requests| - |queue| + i])
    }

    /**
     * The submitted codes are those of the completed requests, except maybe the one at
     * `except`, whose step has not been submitted yet.
     */
    ghost predicate TrackedBut(except: int)
      reads this`requests, this`codes, requests
    {
      (forall k :: k in codes ==> 0 <= k < |requests| && codes[k] == requests[k].rc) &&
      (forall k :: 0 <= k < |requests| && k != except ==> (k in codes <==> requests[k].complete))
    }

    /** The callback bookkeeping of this operation; see Books. */
    ghost predicate Accounting()
      reads this`numPendingEntries, this`complete, this`speculativeTaskScheduled, this`codes,
            this`succeeded, this`callbacks
    {
      Books(Count(), numPendingEntries, complete, speculativeTaskScheduled, codes, succeeded, callbacks)
    }

    /** The operation's invariant. */
    ghost predicate Valid()
      reads this, requests
    {
      Shape() && TrackedBut(-1) && Accounting()
    }

    constructor (startEntryId: int, endEntryId: int, writeQuorumSize: nat, ackQuorumSize: int,
                 speculativeReadTimeout: int, parallelRead: bool, layout: LedgerLayout)
      requires startEntryId <= endEntryId
      ensures Valid()
      ensures this.startEntryId == startEntryId && this.endEntryId == endEntryId
      ensures this.writeQuorumSize == writeQuorumSize && this.speculativeReadTimeout == speculativeReadTimeout
      ensures this.parallelRead == parallelRead && this.layout == layout
      ensures numPendingEntries == endEntryId - startEntryId + 1
      ensures maxMissedReadsAllowed == writeQuorumSize - ackQuorumSize
      ensures queue == [] && requests == [] && heardFromHosts == {}
      ensures !complete && !speculativeTaskScheduled && callbacks == []
    {
      this.startEntryId := startEntryId;
      this.endEntryId := endEntryId;
      this.writeQuorumSize := writeQuorumSize;
      this.speculativeReadTimeout := speculativeReadTimeout;
      this.parallelRead := parallelRead;
      this.layout := layout;
      numPendingEntries := endEntryId - startEntryId + 1;
      maxMissedReadsAllowed := writeQuorumSize - ackQuorumSize;
      heardFromHosts := {};
      queue := [];
      complete := false;
      speculativeTaskScheduled := false;
      requests := [];
      codes := map[];
      succeeded := {};
      callbacks := [];
    }

    /** cancelSpeculativeTask: the speculative task no longer fires. */
    method CancelSpeculativeTask()
      modifies this`speculativeTaskScheduled
      ensures !speculativeTaskScheduled
    {
      speculativeTaskScheduled := false;
    }

    /** The speculative task cancelling itself, cancelSpeculativeTask(false), on a consistent operation. */
    method StopSpeculation()
      requires Valid()
      modifies this`speculativeTaskScheduled
      ensures Valid() && !speculativeTaskScheduled
    {
      CancelSpeculativeTask();
    }

    /**
     * submitCallback for the request at position k: an OK code counts one more entry
     * done and finalises only when none is left; any other code finalises at once.
     * Finalising is a compare-and-set on `complete`: only its first winner cancels the
     * speculative task and calls back.
     */
    method SubmitCallback(ghost k: int, code: int)
      requires Accounting() && 0 <= k < Count() && k !in codes
      modifies this`numPendingEntries, this`complete, this`callbacks, this`speculativeTaskScheduled,
               this`codes, this`succeeded
      ensures Accounting()
      ensures codes == old(codes)[k := code]
      ensures numPendingEntries == old(numPendingEntries) - (if code == OK then 1 else 0)
      ensures var fires := !old(complete) && (code != OK || numPendingEntries == 0);
        && (fires ==> complete && callbacks == old(callbacks) + [code] && !speculativeTaskScheduled)
        && (!fires ==>
              && complete == old(complete) && callbacks == old(callbacks)
              && speculativeTaskScheduled == old(speculativeTaskScheduled))
    {
      SubmitStep(Count(), numPendingEntries, complete, speculativeTaskScheduled, codes, succeeded, callbacks, k, code);
      codes := codes[k := code];
      if code == OK {
        succeeded := succeeded + {k};
        numPendingEntries := numPendingEntries - 1;
      }
      // An OK code with entries still pending returns here; so does a lost compare-and-set.
      if (code != OK || numPendingEntries == 0) && !complete {
        complete := true;
        CancelSpeculativeTask();
        callbacks := callbacks + [code];  // cb.readComplete(code, lh, this, ctx)
      }
    }

    /**
     * The invariant after a step of the request at position k, before its completion
     * event: only k's submission is missing, and `notify` says whether it is due.
     */
    ghost predicate Settling(k: int, notify: Option<int>)
      reads this, requests
    {
      Shape() && Accounting() && TrackedBut(k) && 0 <= k < |requests| &&
      (k in codes ==> requests[k].complete) &&
      (notify.Some? <==> k !in codes && requests[k].complete) &&
      (notify.Some? ==> requests[k].rc == notify.value)
    }

    /**
     * The completion event of the request at position k, if its last step completed or
     * failed it (`notify`): submit its code.
     */
    method Post(ghost k: int, notify: Option<int>)
      requires Settling(k, notify)
      modifies this`numPendingEntries, this`complete, this`callbacks, this`speculativeTaskScheduled,
               this`codes, this`succeeded
      ensures Valid()
      ensures old(complete) ==> complete && callbacks == old(callbacks)
      ensures speculativeTaskScheduled ==> old(speculativeTaskScheduled)
      ensures !complete ==> speculativeTaskScheduled == old(speculativeTaskScheduled)
    {
      if notify.Some? {
        SubmitCallback(k, notify.value);
      }
    }

    /**
     * A step of the request at position k, which changed no other request and nothing
     * of the operation's bookkeeping, keeps the invariant except for k's submission.
     */
    twostate lemma EntryStep(k: int)
      requires old(Shape()) && old(TrackedBut(-1)) && 0 <= k < |old(requests)|
      requires unchanged(this`requests, this`queue, this`codes)
      requires forall j :: 0 <= j < |requests| && j != k ==> unchanged(requests[j])
      requires requests[k].Valid()
      requires old(requests[k].complete) ==> requests[k].complete && requests[k].rc == old(requests[k].rc)
      ensures Shape() && TrackedBut(k)
      ensures k in codes ==> requests[k].complete
    {
    }

    /** No request was built twice: the requests are for distinct entry ids. */
    lemma BuiltOnce(k: int)
      requires Shape() && 0 <= k < |requests|
      ensures forall j :: 0 <= j < |requests| && j != k ==> requests[j] != requests[k]
    {
    }

    /** A queued request is none of the requests already taken off the queue. */
    lemma DrainedApart()
      requires Shape()
      ensures forall j :: 0 <= j < |requests| - |queue| ==> requests[j] !in queue
    {
      forall j | 0 <= j < |requests| - |queue|
        ensures requests[j] !in queue
      {
        forall i | 0 <= i < |queue|
          ensures queue[i] != requests[j]
        {
          assert queue[i] == requests[|requests| - |queue| + i];
        }
      }
    }

    /** No request is queued twice: the queued requests are for distinct entry ids. */
    lemma QueuedOnce(i: int)
      requires Shape() && 0 <= i < |queue|
      ensures forall j :: 0 <= j < |queue| && j != i ==> queue[j] != queue[i]
    {
      var drained := |requests| - |queue|;
      forall j | 0 <= j < |queue| && j != i
        ensures queue[j] != queue[i]
      {
        assert queue[j] == requests[drained + j] && queue[i] == requests[drained + i];
      }
    }

    /** Every queued request is one of the operation's requests, and so is in a valid state. */
    lemma QueueValid()
      requires Shape()
      ensures forall j :: 0 <= j < |queue| ==> queue[j].Valid()
    {
      forall j | 0 <= j < |queue|
        ensures queue[j].Valid()
      {
        assert queue[j] == requests[|requests| - |queue| + j];
      }
    }

    /**
     * What the read callback means: it runs at most once, and only once the operation is
     * complete; with OK only when every entry's request completed with OK, and with a
     * failure code only when some entry's request failed with that code.
     */
    lemma CallbackMeaning()
      requires Valid()
      ensures |callbacks| <= 1 && (complete <==> |callbacks| == 1)
      ensures callbacks == [OK] ==>
        |requests| == Count() && forall k :: 0 <= k < |requests| ==> requests[k].complete && requests[k].rc == OK
      ensures |callbacks| == 1 && callbacks[0] != OK ==>
        exists k :: 0 <= k < |requests| && requests[k].complete && requests[k].rc == callbacks[0]
    {
      if callbacks == [OK] {
        BoundedSetSize(succeeded, Count());
        assert 0 in codes;
        forall k | 0 <= k < |requests|
          ensures requests[k].complete && requests[k].rc == OK
        {
          assert k in succeeded;
        }
      }
      if |callbacks| == 1 && callbacks[0] != OK {
        var k :| k in codes && codes[k] == callbacks[0];
        assert 0 <= k < |requests| && requests[k].complete && requests[k].rc == callbacks[0];
      }
    }

    /** Once every entry's request is complete, the callback has run. */
    lemma AllCompleteCalledBack()
      requires Valid() && |requests| == Count()
      requires forall k :: 0 <= k < |requests| ==> requests[k].complete
      ensures complete && |callbacks| == 1
    {
      if !complete {
        forall k | 0 <= k < Count()
          ensures k in succeeded
        {
          assert k in codes;
        }
        BoundedSetSize(succeeded, Count());
      }
    }

    /**
     * numPendingEntries counts the entries whose request has not succeeded: it never
     * goes below zero, and it reaches zero only once the callback has run.
     */
    lemma PendingCount()
      requires Valid()
      ensures 0 <= numPendingEntries <= Count()
      ensures numPendingEntries == 0 ==> complete && callbacks == [OK]
    {
      BoundedSetSize(succeeded, Count());
      if numPendingEntries == 0 {
        forall k | k in codes
          ensures codes[k] == OK
        {
          assert k in succeeded;
        }
      }
    }

    /** The position in `requests` of a request of this operation. */
    lemma PositionOf(entry: LedgerEntryRequest) returns (k: int)
      requires Shape() && entry in requests
      ensures 0 <= k < |requests| && requests[k] == entry && k == entry.entryId - startEntryId
    {
      k :| 0 <= k < |requests| && requests[k] == entry;
    }

    /**
     * initiate: build one request per entry id in increasing order, looking the ensemble
     * up again only at an ensemble change, then dispatch every request. The speculative
     * task is scheduled when a timeout is configured and reads are sequential.
     * `interrupts` maps an entry id to the send of its read() that is interrupted.
     */
    method Initiate(interrupts: map<int, int>)
      requires Valid() && requests == [] && !speculativeTaskScheduled
      requires LayoutConsistent(layout, startEntryId, endEntryId, writeQuorumSize)
      modifies this`queue, this`requests, this`numPendingEntries, this`complete, this`callbacks,
               this`speculativeTaskScheduled, this`codes, this`succeeded
      ensures Valid()
      ensures |requests| == Count() && queue == requests && heardFromHosts == old(heardFromHosts)
      ensures forall k :: 0 <= k < |requests| ==>
        && fresh(requests[k])
        && requests[k].strategy == (if parallelRead then Parallel else Sequence)
        && requests[k].ensemble == layout.ensembleAt(startEntryId + k)
        && requests[k].writeSet == layout.writeSetOf(startEntryId + k)
        && requests[k].Dispatched(InterruptAt(interrupts, startEntryId + k))
      ensures speculativeTaskScheduled <==> speculativeReadTimeout > 0 && !parallelRead && !complete
    {
      assert codes == map[] by {
        assert forall k :: k !in codes;
      }
      if speculativeReadTimeout > 0 && !parallelRead {
        speculativeTaskScheduled := true;
      }
      BuildRequests();
      ghost var heard := heardFromHosts;
      DispatchRequests(interrupts);
      assert heardFromHosts == heard;
    }

    /** The building loop of initiate. */
    method BuildRequests()
      requires Valid() && requests == []
      requires LayoutConsistent(layout, startEntryId, endEntryId, writeQuorumSize)
      modifies this`queue, this`requests
      ensures Valid()
      ensures |requests| == Count() && queue == requests
      ensures forall k :: 0 <= k < |requests| ==>
        && fresh(requests[k]) && requests[k].Initial()
        && requests[k].strategy == (if parallelRead then Parallel else Sequence)
        && requests[k].ensemble == layout.ensembleAt(startEntryId + k)
        && requests[k].writeSet == layout.writeSetOf(startEntryId + k)
    {
      var strategy := if parallelRead then Parallel else Sequence;
      // The source's do-while: the range is not empty, so the body runs at least once.
      var i := startEntryId;
      var nextEnsembleChange := startEntryId;
      var ensemble: seq<Host> := [];
      ghost var boundary := startEntryId;
      while i <= endEntryId
        invariant startEntryId <= i <= endEntryId + 1
        invariant i <= nextEnsembleChange || i == endEntryId + 1
        invariant i < nextEnsembleChange ==>
          && startEntryId <= boundary <= i && boundary <= endEntryId
          && nextEnsembleChange == layout.nextEnsembleChange(boundary)
          && ensemble == layout.ensembleAt(boundary)
        invariant |requests| == i - startEntryId && queue == requests
        invariant forall k :: 0 <= k < |requests| ==>
          && fresh(requests[k])
          && requests[k].entryId == startEntryId + k
          && requests[k].Valid() && requests[k].Initial()
          && requests[k].strategy == strategy
          && requests[k].ensemble == layout.ensembleAt(startEntryId + k)
          && requests[k].writeSet == layout.writeSetOf(startEntryId + k)
          && requests[k].writeQuorumSize == writeQuorumSize
          && requests[k].maxMissedReadsAllowed == maxMissedReadsAllowed
      {
        if i == nextEnsembleChange {
          ensemble := layout.ensembleAt(i);
          nextEnsembleChange := layout.nextEnsembleChange(i);
          boundary := i;
        }
        var entry := new LedgerEntryRequest(strategy, ensemble, layout.writeSetOf(i), i,
                                            writeQuorumSize, maxMissedReadsAllowed);
        queue := queue + [entry];
        requests := requests + [entry];
        i := i + 1;
      }
    }

    /** The dispatching loop of initiate: read() every request, submitting those it fails. */
    method DispatchRequests(interrupts: map<int, int>)
      requires Valid() && |queue| == |requests|
      requires forall k :: 0 <= k < |requests| ==> requests[k].Initial()
      modifies this`numPendingEntries, this`complete, this`callbacks, this`speculativeTaskScheduled,
               this`codes, this`succeeded, requests
      ensures Valid()
      ensures forall k :: 0 <= k < |requests| ==> requests[k].Dispatched(InterruptAt(interrupts, startEntryId + k))
      ensures !complete ==> speculativeTaskScheduled == old(speculativeTaskScheduled)
      ensures speculativeTaskScheduled ==> old(speculativeTaskScheduled)
    {
      var idx := 0;
      while idx < |queue|
        invariant Dispatching(idx, interrupts, old(speculativeTaskScheduled))
      {
        DispatchOne(idx, interrupts, old(speculativeTaskScheduled));
        idx := idx + 1;
      }
    }

    /**
     * The dispatching loop's invariant: the requests before idx were read(), those from
     * idx on are untouched, and the speculative task was only cancelled on completion.
     */
    ghost predicate Dispatching(idx: int, interrupts: map<int, int>, scheduled: bool)
      reads this, requests
    {
      Valid() && |queue| == |requests| && 0 <= idx <= |requests| &&
      (forall k :: idx <= k < |requests| ==> requests[k].Initial()) &&
      (forall k :: 0 <= k < idx ==> requests[k].Dispatched(InterruptAt(interrupts, startEntryId + k))) &&
      (!complete ==> speculativeTaskScheduled == scheduled) &&
      (speculativeTaskScheduled ==> scheduled)
    }

    /** One iteration of the dispatching loop. */
    method DispatchOne(idx: int, interrupts: map<int, int>, ghost scheduled: bool)
      requires Dispatching(idx, interrupts, scheduled) && idx < |requests|
      modifies this`numPendingEntries, this`complete, this`callbacks, this`speculativeTaskScheduled,
               this`codes, this`succeeded, requests[idx]
      ensures Dispatching(idx + 1, interrupts, scheduled)
    {
      BuiltOnce(idx);
      var notify := ReadOne(idx, InterruptAt(interrupts, startEntryId + idx));
      Post(idx, notify);
    }

    /** read() of the request at the queue's position idx, which nothing has dispatched yet. */
    method ReadOne(idx: int, interruptAt: int) returns (notify: Option<int>)
      requires Valid() && |queue| == |requests| && 0 <= idx < |requests| && requests[idx].Initial()
      modifies requests[idx]
      ensures Settling(idx, notify) && requests[idx].Dispatched(interruptAt)
    {
      var entry := queue[idx];
      label before:
      notify := entry.Read(interruptAt);
      EntryStep@before(idx);
    }

    /**
     * readEntryComplete: an error reply goes to the request's logErrorAndReattemptRead; an
     * OK reply adds the host to heardFromHosts and, if it wins the entry, counts it. A
     * reply's context names the request and the host its read was sent to.
     */
    method ReadEntryComplete(rc: int, entry: LedgerEntryRequest, to: Host, verified: bool, payload: seq<bv8>,
                             interrupted: bool)
      requires Valid() && entry in requests && entry.SentTo(to)
      modifies this`heardFromHosts, this`numPendingEntries, this`complete, this`callbacks,
               this`speculativeTaskScheduled, this`codes, this`succeeded, entry
      ensures Valid()
      ensures heardFromHosts == if rc == OK then old(heardFromHosts) + {to} else old(heardFromHosts)
      ensures old(complete) ==> callbacks == old(callbacks)
      ensures rc == OK && verified && !old(entry.complete) ==>
        entry.complete && entry.rc == OK && entry.data == payload
      ensures old(entry.complete) ==> entry.complete && entry.rc == old(entry.rc) && entry.data == old(entry.data)
      ensures entry.ReplyEffect(rc, to, verified, payload, interrupted, old(entry.State()))
    {
      ghost var k := PositionOf(entry);
      ghost var w := entry.State();
      if rc == OK {
        HeardFrom(to);
      }
      var notify := Deliver(k, w, rc, entry, to, verified, payload, interrupted);
      Post(k, notify);
    }

    /** An OK reply records its host among those heard from. */
    method HeardFrom(to: Host)
      requires Valid()
      modifies this`heardFromHosts
      ensures Valid() && heardFromHosts == old(heardFromHosts) + {to}
    {
      heardFromHosts := heardFromHosts + {to};
    }

    /**
     * The request's half of readEntryComplete: an error reply is logged and may trigger a
     * retry; an OK reply completes the request unless its digest fails or it lost the
     * race. `notify` is the code the request completed or failed with in this step.
     */
    method Deliver(ghost k: int, ghost w: EntryState, rc: int, entry: LedgerEntryRequest, to: Host, verified: bool,
                   payload: seq<bv8>, interrupted: bool)
        returns (notify: Option<int>)
      requires Valid() && 0 <= k < |requests| && requests[k] == entry && entry.SentTo(to) && w == entry.State()
      modifies entry
      ensures Settling(k, notify)
      ensures rc == OK && verified && !old(entry.complete) ==>
        entry.complete && entry.rc == OK && entry.data == payload
      ensures old(entry.complete) ==> entry.complete && entry.rc == old(entry.rc) && entry.data == old(entry.data)
      ensures entry.ReplyEffect(rc, to, verified, payload, interrupted, w)
    {
      label before:
      if rc != OK {
        notify := entry.LogErrorAndReattemptRead(to, rc, interrupted);
      } else {
        var won;
        won, notify := entry.Complete(to, verified, payload, interrupted);
        if won {
          // lh.updateLastConfirmed(...) is not part of this model
          notify := Some(OK);
        }
      }
      EntryStep@before(k);
    }

    /**
     * One firing of the speculative task: every incomplete queued request is asked to
     * send speculatively; the task is cancelled as soon as one of them sends nothing.
     * `interrupted` holds the entry ids whose speculative send is interrupted.
     */
    method SpeculativeRun(interrupted: set<int>) returns (ghost outcomes: seq<SpeculationOutcome>)
      requires Valid() && speculativeTaskScheduled
      modifies this`numPendingEntries, this`complete, this`callbacks, this`speculativeTaskScheduled,
               this`codes, this`succeeded, queue
      ensures Valid()
      ensures forall j :: 0 <= j < |requests| - |queue| ==> unchanged(requests[j])
      ensures |outcomes| == |queue|
      ensures forall i :: 0 <= i < |queue| ==>
        Visited(queue[i], outcomes[i], old(queue[i].State()), heardFromHosts, interrupted)
      ensures speculativeTaskScheduled ==>
        old(speculativeTaskScheduled) && forall i :: 0 <= i < |queue| ==> !outcomes[i].NotSent?
      ensures old(speculativeTaskScheduled) && !complete && (forall i :: 0 <= i < |queue| ==> !outcomes[i].NotSent?)
        ==> speculativeTaskScheduled
      ensures old(complete) ==> callbacks == old(callbacks)
    {
      ghost var q := queue;
      ghost var was := seq(|q|, j requires 0 <= j < |q| reads q => q[j].State());
      outcomes := [];
      QueueValid();
      var i := 0;
      while i < |queue|
        invariant Valid()
        invariant Speculating(i, outcomes, was, interrupted, old(speculativeTaskScheduled), old(complete),
                              old(callbacks))
      {
        var outcome := SpeculateStep(i, interrupted, outcomes, was, old(speculativeTaskScheduled), old(complete),
                                     old(callbacks));
        outcomes := outcomes + [outcome];
        i := i + 1;
      }
      DrainedApart();
    }

    /**
     * The speculative loop's invariant, against a snapshot of the queued requests' states and
     * of the operation's flags taken when the pass began: the requests before i were visited,
     * those from i on are as they were, and the task was cancelled exactly when a visited
     * request sent nothing.
     */
    ghost predicate Speculating(i: int, outcomes: seq<SpeculationOutcome>, was: seq<EntryState>, interrupted: set<int>,
                                wasScheduled: bool, wasDone: bool, wasCallbacks: seq<int>)
      reads this, queue
    {
      |was| == |queue| && 0 <= i <= |queue| && |outcomes| == i &&
      (forall j :: 0 <= j < i ==> Visited(queue[j], outcomes[j], was[j], heardFromHosts, interrupted)) &&
      (forall j :: i <= j < |queue| ==> Untouched(queue[j], was[j])) &&
      (speculativeTaskScheduled ==> wasScheduled && forall j :: 0 <= j < i ==> !outcomes[j].NotSent?) &&
      (wasScheduled && !complete && (forall j :: 0 <= j < i ==> !outcomes[j].NotSent?) ==> speculativeTaskScheduled) &&
      (wasDone ==> complete && callbacks == wasCallbacks)
    }

    /** One iteration of the speculative loop. */
    method SpeculateStep(i: int, interrupted: set<int>, ghost outcomes: seq<SpeculationOutcome>,
                         ghost was: seq<EntryState>, ghost wasScheduled: bool, ghost wasDone: bool,
                         ghost wasCallbacks: seq<int>)
        returns (outcome: SpeculationOutcome)
      requires Valid() && Speculating(i, outcomes, was, interrupted, wasScheduled, wasDone, wasCallbacks) && i < |queue|
      modifies this`numPendingEntries, this`complete, this`callbacks, this`speculativeTaskScheduled,
               this`codes, this`succeeded, queue[i]
      ensures Valid() && Speculating(i + 1, outcomes + [outcome], was, interrupted, wasScheduled, wasDone, wasCallbacks)
    {
      QueuedOnce(i);
      outcome := SpeculateOne(queue[i], |requests| - |queue| + i, was[i], interrupted);
      QueueValid();
    }

    /**
     * The speculative task's step for the request at position k: a complete request is
     * skipped; otherwise it may send speculatively, and when it sends nothing the task
     * is cancelled.
     */
    method SpeculateOne(r: LedgerEntryRequest, ghost k: int, ghost w: EntryState, interrupted: set<int>)
        returns (outcome: SpeculationOutcome)
      requires Valid() && 0 <= k < |requests| && requests[k] == r && r.Valid() && w == r.State()
      modifies this`numPendingEntries, this`complete, this`callbacks, this`speculativeTaskScheduled,
               this`codes, this`succeeded, r
      ensures Valid() && r.Valid()
      ensures outcome.Skipped? <==> w.complete
      ensures outcome.Skipped? ==> r.State() == w
      ensures outcome.Sent? <==> !w.complete && r.WouldSpeculate(w, heardFromHosts) && r.entryId !in interrupted
      ensures outcome.Sent? ==>
        && r.sends == w.sends + [w.nextReplicaIndexToReadFrom]
        && outcome.host == r.Target(w.nextReplicaIndexToReadFrom)
      ensures outcome.NotSent? ==> r.sends == w.sends
      ensures outcome.NotSent? && !r.WouldSpeculate(w, heardFromHosts) ==> r.State() == w
      ensures outcome.NotSent? && r.WouldSpeculate(w, heardFromHosts) ==> r.complete && r.rc == InterruptedException
      ensures !w.complete ==> r.SpeculativeEffect(heardFromHosts, r.entryId in interrupted, w)
      ensures outcome.NotSent? ==> !speculativeTaskScheduled
      ensures speculativeTaskScheduled ==> old(speculativeTaskScheduled)
      ensures !outcome.NotSent? && !complete ==> speculativeTaskScheduled == old(speculativeTaskScheduled)
      ensures old(complete) ==> complete && callbacks == old(callbacks)
    {
      if r.complete {
        return Skipped;
      }
      var to, notify := Speculate(k, w, r, interrupted);
      Settle(k, notify, to.None?);
      outcome := if to.Some? then Sent(to.value) else NotSent;
    }

    /**
     * The operation's half of the speculative step: the request's completion, if any, is
     * submitted, and the task cancels itself when the request sent nothing.
     */
    method Settle(ghost k: int, notify: Option<int>, stop: bool)
      requires Settling(k, notify)
      modifies this`numPendingEntries, this`complete, this`callbacks, this`speculativeTaskScheduled,
               this`codes, this`succeeded
      ensures Valid()
      ensures stop ==> !speculativeTaskScheduled
      ensures speculativeTaskScheduled ==> old(speculativeTaskScheduled)
      ensures !stop && !complete ==> speculativeTaskScheduled == old(speculativeTaskScheduled)
      ensures old(complete) ==> complete && callbacks == old(callbacks)
    {
      Post(k, notify);
      if stop {
        StopSpeculation();
      }
    }

    /**
     * The request's half of the speculative step, from its state `w`: maybeSendSpeculativeRead
     * sends to the next write-set replica exactly when the request would speculate and
     * the send is not interrupted. `notify` is the code it failed with in this step.
     */
    method Speculate(ghost k: int, ghost w: EntryState, r: LedgerEntryRequest, interrupted: set<int>)
        returns (to: Option<Host>, notify: Option<int>)
      requires Valid() && 0 <= k < |requests| && requests[k] == r && !r.complete && w == r.State()
      modifies r
      ensures Settling(k, notify) && r.Valid()
      ensures to.Some? <==> r.WouldSpeculate(w, heardFromHosts) && r.entryId !in interrupted
      ensures to.Some? ==>
        && 0 <= w.nextReplicaIndexToReadFrom < |r.writeSet|
        && r.sends == w.sends + [w.nextReplicaIndexToReadFrom]
        && to.value == r.Target(w.nextReplicaIndexToReadFrom)
      ensures to.None? ==> r.sends == w.sends
      ensures to.None? && !r.WouldSpeculate(w, heardFromHosts) ==> r.State() == w
      ensures to.None? && r.WouldSpeculate(w, heardFromHosts) ==> r.complete && r.rc == InterruptedException
      ensures r.SpeculativeEffect(heardFromHosts, r.entryId in interrupted, w)
    {
      label before:
      to, notify := r.MaybeSendSpeculativeRead(heardFromHosts, r.entryId in interrupted);
      EntryStep@before(k);
    }

    /** The number of requests not yet enumerated: the entries from the head of the queue to the end of the range. */
    function Size(): (n: nat)
      reads this, requests
      requires Valid()
      ensures n <= Count()
      ensures |requests| == Count() && queue != [] ==> queue[0].entryId == endEntryId + 1 - n
    {
      |queue|
    }

    function HasMoreElements(): (more: bool)
      reads this, requests
      requires Valid()
      ensures more <==> Size() > 0
    {
      queue != []
    }

    /**
     * nextElement: remove the head of the queue, which is the entry after the last one
     * enumerated; an empty queue is NoSuchElementException.
     */
    method NextElement() returns (e: Option<LedgerEntryRequest>)
      requires Valid()
      modifies this`queue
      ensures Valid()
      ensures old(queue) == [] ==> e == None && queue == old(queue)
      ensures old(queue) != [] ==>
        && e == Some(old(queue)[0]) && queue == old(queue)[1..]
        && e.value.entryId == endEntryId + 1 - |old(queue)|
    {
      if queue == [] {
        e := None;
        return;
      }
      e := Some(queue[0]);
      queue := queue[1..];
    }
  }
}
