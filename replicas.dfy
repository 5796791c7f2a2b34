/**
 * Replica addresses, ensembles and write sets, and the pure queries a sequential
 * entry request makes over them: getReplicaIndex, getSentToBitSet,
 * getHeardFromBitSet and readsOutstanding. Java's BitSets are sets of positions.
 */
module Replicas {

  /** The network address of a replica ("bookie"). */
  type Host = int

  /** List.indexOf: the first position of `x` in `s`, or -1. */
  function IndexOf<T(==)>(s: seq<T>, x: T): (r: int)
    ensures -1 <= r < |s|
    ensures r == -1 <==> x !in s
    ensures 0 <= r ==> s[r] == x && x !in s[..r]
  {
    if s == [] then -1
    else if s[0] == x then 0
    else
      var t := IndexOf(s[1..], x);
      assert s[1..][..t + 1] == s[1..t + 2] by { assert t >= 0 ==> s[1..][..t] == s[1..t + 1]; }
      if t == -1 then -1 else t + 1
  }

  predicate Distinct<T(==)>(s: seq<T>)
  {
    forall i, j :: 0 <= i < j < |s| ==> s[i] != s[j]
  }

  /**
   * A sequence has at most as many distinct elements as it is long, and exactly as many
   * only when it repeats none.
   */
  lemma {:induction false} ElementsSize(s: seq<int>, e: set<int>)
    requires forall x :: x in e <==> x in s
    ensures |e| <= |s|
    ensures |e| == |s| ==> Distinct(s)
  {
    if s == [] {
      assert forall y :: y !in e;
      assert e == {};
    } else {
      var front, x := s[..|s| - 1], s[|s| - 1];
      assert s == front + [x];
      assert forall y :: y in s <==> y in front || y == x;
      if x in front {
        ElementsSize(front, e);
      } else {
        assert x in e;
        ElementsSize(front, e - {x});
        if |e| == |s| {
          forall i, j | 0 <= i < j < |s|
            ensures s[i] != s[j]
          {
            assert s[i] == front[i];
            if j < |front| {
              assert s[j] == front[j];
            }
          }
        }
      }
    }
  }

  /** In a sequence without repetitions, the position of an element is where it stands. */
  lemma IndexOfDistinct<T>(s: seq<T>, p: int)
    requires Distinct(s) && 0 <= p < |s|
    ensures IndexOf(s, s[p]) == p
  {
    assert forall j :: 0 <= j < |s| && s[j] == s[p] ==> j == p;
  }

  /** Every write-set entry is a position of an ensemble of `ensembleSize` replicas. */
  predicate InEnsemble(writeSet: seq<int>, ensembleSize: nat)
  {
    forall i :: 0 <= i < |writeSet| ==> 0 <= writeSet[i] < ensembleSize
  }

  /** The write set names distinct positions of an ensemble of `ensembleSize` replicas. */
  predicate WriteSetFits(writeSet: seq<int>, ensembleSize: nat)
  {
    Distinct(writeSet) && InEnsemble(writeSet, ensembleSize)
  }

  /**
   * getReplicaIndex: the write-set position of `host`, or -1 (NOT_FOUND) when the host
   * is not in the ensemble or its ensemble position is not in the write set.
   */
  function ReplicaIndex(ensemble: seq<Host>, writeSet: seq<int>, host: Host): (r: int)
    ensures -1 <= r < |writeSet|
    ensures r == -1 <==> host !in ensemble || IndexOf(ensemble, host) !in writeSet
    ensures 0 <= r ==> writeSet[r] == IndexOf(ensemble, host)
    ensures 0 <= r && InEnsemble(writeSet, |ensemble|) ==> ensemble[writeSet[r]] == host
  {
    var bookieIndex := IndexOf(ensemble, host);
    if bookieIndex == -1 then -1 else IndexOf(writeSet, bookieIndex)
  }

  /**
   * An error from the replica a write-set position names is charged to that position,
   * when the ensemble has no repeated address.
   */
  lemma ReplicaIndexOfTarget(ensemble: seq<Host>, writeSet: seq<int>, p: int)
    requires Distinct(ensemble) && WriteSetFits(writeSet, |ensemble|) && 0 <= p < |writeSet|
    ensures ReplicaIndex(ensemble, writeSet, ensemble[writeSet[p]]) == p
  {
    IndexOfDistinct(ensemble, writeSet[p]);
    IndexOfDistinct(writeSet, p);
  }

  /**
   * getSentToBitSet: the ensemble positions of the write-set positions already sent to.
   * Every position sent to contributes its ensemble position, and nothing outside the
   * write set is set.
   */
  function SentToBitSet(sentReplicas: set<int>, writeSet: seq<int>): (bits: set<int>)
    ensures forall i :: i in sentReplicas && 0 <= i < |writeSet| ==> writeSet[i] in bits
    ensures forall e :: e in bits ==> e in writeSet
  {
    set i | i in sentReplicas && 0 <= i < |writeSet| :: writeSet[i]
  }

  /** The sent-to bitset holds exactly the ensemble positions of the write-set positions sent to. */
  lemma SentToBitSetExact(sentReplicas: set<int>, writeSet: seq<int>)
    ensures forall e :: e in SentToBitSet(sentReplicas, writeSet) <==>
      exists i :: i in sentReplicas && 0 <= i < |writeSet| && writeSet[i] == e
  {
  }

  /**
   * getHeardFromBitSet: the ensemble positions of the hosts heard from; unknown hosts are
   * ignored. Every position set holds a host heard from, and with distinct addresses
   * every position holding a host heard from is set.
   */
  function HeardFromBitSet(heardFromHosts: set<Host>, ensemble: seq<Host>): (bits: set<int>)
    ensures forall e :: e in bits ==> 0 <= e < |ensemble| && ensemble[e] in heardFromHosts
    ensures Distinct(ensemble) ==> forall p :: 0 <= p < |ensemble| && ensemble[p] in heardFromHosts ==> p in bits
  {
    var bits := set h | h in heardFromHosts && h in ensemble :: IndexOf(ensemble, h);
    PositionsHeardFrom(heardFromHosts, ensemble, bits);
    bits
  }

  /** With distinct addresses, a set holding the position of every host heard from holds each such position. */
  lemma PositionsHeardFrom(heardFromHosts: set<Host>, ensemble: seq<Host>, bits: set<int>)
    requires forall h :: h in heardFromHosts && h in ensemble ==> IndexOf(ensemble, h) in bits
    ensures Distinct(ensemble) ==> forall p :: 0 <= p < |ensemble| && ensemble[p] in heardFromHosts ==> p in bits
  {
    if Distinct(ensemble) {
      forall p | 0 <= p < |ensemble| && ensemble[p] in heardFromHosts
        ensures p in bits
      {
        var h := ensemble[p];
        assert h in heardFromHosts && h in ensemble;
        assert IndexOf(ensemble, h) in bits;
        IndexOfDistinct(ensemble, p);
      }
    }
  }

  /**
   * The test maybeSendSpeculativeRead makes, read in terms of hosts: the sent-to and
   * heard-from bitsets meet exactly when some replica already asked for this entry has
   * answered something, for any entry of the operation.
   */
  lemma SpeculationBlockedIff(sentReplicas: set<int>, writeSet: seq<int>, heardFromHosts: set<Host>,
                              ensemble: seq<Host>)
    requires Distinct(ensemble) && WriteSetFits(writeSet, |ensemble|)
    ensures SentToBitSet(sentReplicas, writeSet) * HeardFromBitSet(heardFromHosts, ensemble) != {} <==>
      exists i :: i in sentReplicas && 0 <= i < |writeSet| && ensemble[writeSet[i]] in heardFromHosts
  {
    var sentTo := SentToBitSet(sentReplicas, writeSet);
    var heardFrom := HeardFromBitSet(heardFromHosts, ensemble);
    if sentTo * heardFrom != {} {
      var e :| e in sentTo * heardFrom;
      var i :| i in sentReplicas && 0 <= i < |writeSet| && writeSet[i] == e;
      var h :| h in heardFromHosts && h in ensemble && IndexOf(ensemble, h) == e;
      assert ensemble[writeSet[i]] == h;
    }
    if exists i :: i in sentReplicas && 0 <= i < |writeSet| && ensemble[writeSet[i]] in heardFromHosts {
      var i :| i in sentReplicas && 0 <= i < |writeSet| && ensemble[writeSet[i]] in heardFromHosts;
      var h := ensemble[writeSet[i]];
      IndexOfDistinct(ensemble, writeSet[i]);
      assert h in heardFromHosts && h in ensemble && IndexOf(ensemble, h) == writeSet[i];
      assert writeSet[i] in sentTo;
      assert writeSet[i] in heardFrom;
      assert writeSet[i] in sentTo * heardFrom;
    }
  }

  /**
   * readsOutstanding: more positions were sent to than have reported an error, so some
   * position sent to has not reported one.
   */
  function ReadsOutstanding(sentReplicas: set<int>, erroredReplicas: set<int>): (outstanding: bool)
    ensures outstanding ==> sentReplicas - erroredReplicas != {}
  {
    SubsetSize(sentReplicas, erroredReplicas);
    |sentReplicas| - |erroredReplicas| > 0
  }

  /** A set with nothing outside `b` is no larger than `b`. */
  lemma SubsetSize(a: set<int>, b: set<int>)
    ensures a - b == {} ==> |a| <= |b|
  {
    if a - b == {} {
      forall x | x in a
        ensures x in b
      {
        assert x !in a - b;
      }
      assert b == a + (b - a);
    }
  }

  /**
   * When every errored position was also sent to, readsOutstanding holds exactly when
   * some read sent for the entry has not come back with an error.
   */
  lemma ReadsOutstandingIff(sentReplicas: set<int>, erroredReplicas: set<int>)
    requires erroredReplicas <= sentReplicas
    ensures ReadsOutstanding(sentReplicas, erroredReplicas) <==> sentReplicas - erroredReplicas != {}
  {
    var rest := sentReplicas - erroredReplicas;
    assert sentReplicas == rest + erroredReplicas;
    assert |sentReplicas| == |rest| + |erroredReplicas|;
  }

  /** A send to a new position adds exactly one read to those outstanding. */
  lemma AddSent(sent: set<int>, errored: set<int>, r: int)
    requires errored <= sent && r !in sent
    ensures errored <= sent + {r}
    ensures |(sent + {r}) - errored| == |sent - errored| + 1
  {
    assert (sent + {r}) - errored == (sent - errored) + {r};
  }

  /** An error charged to a position sent to removes at most one read from those outstanding. */
  lemma ErrorKeepsBound(sent: set<int>, errored: set<int>, p: int, bound: int)
    requires errored <= sent && p in sent && |sent - errored| <= bound
    ensures errored + {p} <= sent
    ensures |sent - (errored + {p})| <= bound
  {
    if p !in errored {
      assert sent - errored == (sent - (errored + {p})) + {p};
    } else {
      assert errored + {p} == errored;
    }
  }
}
