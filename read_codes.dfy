/**
 * Result codes of the client read path and the rule by which one entry request
 * folds the error codes its replicas report into a single verdict.
 */
module ReadCodes {

  // Result codes, with the values BookKeeper's BKException.Code gives them.
  const OK: int := 0
  const DigestMatchException: int := -5
  const NoSuchLedgerExistsException: int := -7
  const BookieHandleNotAvailableException: int := -8
  const NoSuchEntryException: int := -13
  const InterruptedException: int := -15

  /** The two answers of a replica that does not hold the entry. */
  predicate IsNotFound(rc: int)
  {
    rc == NoSuchEntryException || rc == NoSuchLedgerExistsException
  }

  /** A code that names a concrete failure: not success, not "not found", not "unavailable". */
  predicate IsConcrete(rc: int)
  {
    rc != OK && !IsNotFound(rc) && rc != BookieHandleNotAvailableException
  }

  /**
   * The first-error priority rule of logErrorAndReattemptRead: the recorded error is
   * replaced when it is still OK or a "not found" code, or when it is "unavailable"
   * and the new code is not a "not found" code.
   */
  function NextFirstError(firstError: int, rc: int): (r: int)
    ensures r == firstError || r == rc
    ensures IsConcrete(firstError) ==> r == firstError
    ensures rc != OK ==> r != OK
    ensures firstError == BookieHandleNotAvailableException && rc != OK ==> r != OK && !IsNotFound(r)
  {
    if firstError == OK || IsNotFound(firstError) then rc
    else if firstError == BookieHandleNotAvailableException && !IsNotFound(rc) then rc
    else firstError
  }

  /** The value of firstError after the codes `errors` were reported, in order, to a fresh request. */
  function FoldFirstError(errors: seq<int>): (firstError: int)
  {
    if errors == [] then OK
    else NextFirstError(FoldFirstError(errors[..|errors| - 1]), errors[|errors| - 1])
  }

  /** numMissedEntryReads after the codes `errors` were reported: the number of "not found" answers. */
  function CountMissed(errors: seq<int>): (n: nat)
    ensures n <= |errors|
  {
    if errors == [] then 0
    else CountMissed(errors[..|errors| - 1]) + (if IsNotFound(errors[|errors| - 1]) then 1 else 0)
  }

  /**
   * The promotion both strategies apply before failing: "unavailable" becomes
   * NoSuchEntry once more replicas than the slack W - A have said "not found".
   */
  function PromoteNotFound(firstError: int, missed: int, maxMissedReadsAllowed: int): (r: int)
    ensures missed > maxMissedReadsAllowed ==> r != BookieHandleNotAvailableException
    ensures r != firstError ==> r == NoSuchEntryException
    ensures missed <= maxMissedReadsAllowed ==> r == firstError
  {
    if firstError == BookieHandleNotAvailableException && missed > maxMissedReadsAllowed
    then NoSuchEntryException
    else firstError
  }

  /** The promotion changes the code exactly when it is "unavailable" beyond the slack. */
  lemma PromoteKeeps(firstError: int, missed: int, maxMissedReadsAllowed: int)
    ensures PromoteNotFound(firstError, missed, maxMissedReadsAllowed) != firstError <==>
      firstError == BookieHandleNotAvailableException && missed > maxMissedReadsAllowed
  {
  }

  predicate NoOk(errors: seq<int>)
  {
    OK !in errors
  }

  predicate HasConcrete(errors: seq<int>)
  {
    exists i :: 0 <= i < |errors| && IsConcrete(errors[i])
  }

  /** `i` is the position of the first concrete failure in `errors`. */
  predicate FirstConcreteAt(errors: seq<int>, i: int)
  {
    0 <= i < |errors| && IsConcrete(errors[i]) &&
    forall j :: 0 <= j < i ==> !IsConcrete(errors[j])
  }

  /**
   * The priority the rule achieves, stated independently of the rule: after a run of
   * error reports, firstError is the first concrete failure reported, if any; else
   * "unavailable" if any replica said so; else the last "not found" code; OK if nothing
   * was reported.
   */
  lemma {:induction false} FirstErrorPriority(errors: seq<int>)
    requires NoOk(errors)
    ensures errors == [] ==> FoldFirstError(errors) == OK
    ensures HasConcrete(errors) ==>
      exists i :: FirstConcreteAt(errors, i) && FoldFirstError(errors) == errors[i]
    ensures !HasConcrete(errors) && BookieHandleNotAvailableException in errors ==>
      FoldFirstError(errors) == BookieHandleNotAvailableException
    ensures !HasConcrete(errors) && BookieHandleNotAvailableException !in errors && errors != [] ==>
      FoldFirstError(errors) == errors[|errors| - 1] && IsNotFound(FoldFirstError(errors))
  {
    if errors != [] {
      var front, e := errors[..|errors| - 1], errors[|errors| - 1];
      assert errors == front + [e];
      FirstErrorPriority(front);
      var f := FoldFirstError(front);
      assert FoldFirstError(errors) == NextFirstError(f, e);
      if HasConcrete(front) {
        var i :| FirstConcreteAt(front, i) && f == front[i];
        assert FirstConcreteAt(errors, i);
      } else {
        assert !IsConcrete(f);
        if IsConcrete(e) {
          assert FirstConcreteAt(errors, |errors| - 1);
        } else {
          assert !HasConcrete(errors) by {
            forall j | 0 <= j < |errors| ensures !IsConcrete(errors[j]) {
              if j < |front| { assert errors[j] == front[j]; }
            }
          }
          if BookieHandleNotAvailableException in front {
            assert f == BookieHandleNotAvailableException;
          } else {
            assert BookieHandleNotAvailableException in errors ==> e == BookieHandleNotAvailableException;
          }
        }
      }
    }
  }

  /**
   * The code a request fails with once its replicas have reported `errors` and the
   * promotion is applied: never OK after an error, never "unavailable" once the missed
   * reads exceed the slack, and the first concrete failure whenever there was one.
   */
  lemma FailureVerdict(errors: seq<int>, maxMissedReadsAllowed: int)
    requires NoOk(errors) && errors != []
    ensures PromoteNotFound(FoldFirstError(errors), CountMissed(errors), maxMissedReadsAllowed) != OK
    ensures CountMissed(errors) > maxMissedReadsAllowed ==>
      PromoteNotFound(FoldFirstError(errors), CountMissed(errors), maxMissedReadsAllowed)
        != BookieHandleNotAvailableException
    ensures HasConcrete(errors) ==>
      exists i :: FirstConcreteAt(errors, i) &&
        PromoteNotFound(FoldFirstError(errors), CountMissed(errors), maxMissedReadsAllowed) == errors[i]
    ensures !HasConcrete(errors) && CountMissed(errors) > maxMissedReadsAllowed ==>
      IsNotFound(PromoteNotFound(FoldFirstError(errors), CountMissed(errors), maxMissedReadsAllowed))
  {
    FirstErrorPriority(errors);
  }
}
