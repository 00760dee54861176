/**
 * The commit candidate of raft.go's updateCommit: element `majority()-1` of
 * the ascending-sorted matchIndex vector. The leader's own slot is part of
 * that vector, but the leader never sets it, so it stays 0 while the leader
 * holds its whole log.
 */
module Commit {
  import opened Quorum
  import opened IntSort

  /** The index updateCommit proposes to commit: the greatest value that at
      least FailCount(n) slots of matchIndex (n - n/2 of them) have reached. */
  function CommitCandidate(matchIndex: seq<int>): (c: int)
    requires |matchIndex| >= 1
    ensures c in matchIndex
    ensures CountAtLeast(matchIndex, c) >= FailCount(|matchIndex|)
    ensures forall v :: CountAtLeast(matchIndex, v) >= FailCount(|matchIndex|) ==> v <= c
  {
    var sorted := SortInts(matchIndex);
    var k := Majority(|matchIndex|) - 1;
    SortedCountAtLeast(sorted, k);
    SortCount(matchIndex, sorted[k]);
    SortedIsGreatestReached(matchIndex, k);
    assert sorted[k] in multiset(sorted);
    sorted[k]
  }

  /** Counting the leader, which holds its own entries although its slot stays
      0, a positive candidate is on a majority of the peers for every cluster
      size: the followers whose slot reached it, plus the leader. */
  lemma CandidateHeldByMajority(matchIndex: seq<int>, me: nat)
    requires me < |matchIndex| && matchIndex[me] == 0
    requires CommitCandidate(matchIndex) > 0
    ensures CountAtLeast(matchIndex[..me] + matchIndex[me + 1..], CommitCandidate(matchIndex)) + 1
            >= Majority(|matchIndex|)
  {
    CountAtLeastRemove(matchIndex, me, CommitCandidate(matchIndex));
  }

  /** In a cluster of odd size the candidate is reached by a majority of the
      slots. The leader's slot is 0, so a positive candidate needs a majority of
      followers, one more follower than a majority of peers calls for. */
  lemma OddClusterCandidateHasMajority(matchIndex: seq<int>)
    requires |matchIndex| % 2 == 1
    ensures CountAtLeast(matchIndex, CommitCandidate(matchIndex)) >= Majority(|matchIndex|)
  {
  }

  /** For an odd cluster size, with the leader's slot at 0, a positive
      candidate is reached by a majority of the other n - 1 slots, the
      followers, rather than by the n/2 followers that with the leader make a
      majority of peers. */
  lemma OddClusterNeedsFollowerMajority(m: seq<int>, me: nat)
    requires |m| % 2 == 1 && me < |m| && m[me] == 0
    requires CommitCandidate(m) > 0
    ensures CountAtLeast(m[..me] + m[me + 1..], CommitCandidate(m)) >= Majority(|m| - 1)
  {
    OddClusterCandidateHasMajority(m);
    CountAtLeastRemove(m, me, CommitCandidate(m));
  }

  /** In a cluster of three with leader 0, matchIndex [0, 0, 5]: index 5 is on
      the leader and on follower 2, a majority of three, yet the candidate is 0,
      so updateCommit does not commit it until follower 1 catches up. */
  lemma OddClusterWaitsForExtraFollower(m: seq<int>)
    requires m == [0, 0, 5]
    ensures CountAtLeast(m[1..], 5) + 1 >= Majority(|m|)
    ensures CommitCandidate(m) == 0
  {
    ExampleCounts(m);
  }

  lemma ExampleCounts(m: seq<int>)
    requires m == [0, 0, 5]
    ensures CountAtLeast(m, 5) == 1 && CountAtLeast(m[1..], 5) == 1
  {
    var s1, s2 := m[1..], m[1..][1..];
    assert s2[1..] == [];
    assert CountAtLeast(s2, 5) == 1;
    assert CountAtLeast(s1, 5) == 1;
  }
}
