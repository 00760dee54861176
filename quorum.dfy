/**
 * Quorum arithmetic of a Raft peer (raft.go `majority`, `failCount`, `min`).
 * Peer counts are lengths of the peer list, so they are never negative.
 */
module Quorum {

  /** The number of votes (or replicas) that makes a majority of `peerCount`
      peers: the least count that is more than half of them. */
  function Majority(peerCount: nat): (m: nat)
    ensures 2 * m > peerCount
    ensures 2 * (m - 1) <= peerCount
  {
    peerCount / 2 + 1
  }

  /** The number of refusals after which a majority can no longer be reached:
      with `f` refusals at most `peerCount - f` votes remain, fewer than a
      majority, while with one refusal less a majority is still possible. */
  function FailCount(peerCount: nat): (f: nat)
    ensures peerCount - f < Majority(peerCount) <= peerCount - f + 1
  {
    peerCount - Majority(peerCount) + 1
  }

  /** The smaller of two integers. */
  function Min(a: int, b: int): (r: int)
    ensures r <= a && r <= b
    ensures r == a || r == b
  {
    if a < b then a else b
  }

  /** The identities of the peers 0 .. n-1 of a cluster of n. */
  function Peers(n: nat): (ids: set<int>)
    ensures forall x :: x in ids <==> 0 <= x < n
  {
    if n == 0 then {} else Peers(n - 1) + {n - 1}
  }

  /** The peers 0 .. n-1 are n distinct identities. */
  lemma {:induction false} PeersCardinality(n: nat)
    ensures |Peers(n)| == n
  {
    if n > 0 {
      PeersCardinality(n - 1);
      assert n - 1 !in Peers(n - 1);
    }
  }

  /** A set of peer identities drawn from 0 .. n-1 has at most n members. */
  lemma {:induction false} PeerSetBounded(s: set<int>, n: nat)
    requires forall x :: x in s ==> 0 <= x < n
    ensures |s| <= n
  {
    var all := Peers(n);
    PeersCardinality(n);
    assert all == (all - s) + s;
    assert |all - s| + |s| == |all|;
  }

  /** Any two majorities of the same peer set share at least one peer. Two
      candidates of one term could therefore not both collect a majority if
      every voter voted once per term; raft.go's RequestVote does not keep that
      premise (see RaftNode.DelayedRequestReopensTerm). */
  lemma QuorumsIntersect(n: nat, a: set<int>, b: set<int>)
    requires forall x :: x in a ==> 0 <= x < n
    requires forall x :: x in b ==> 0 <= x < n
    requires |a| >= Majority(n) && |b| >= Majority(n)
    ensures a * b != {}
  {
    PeerSetBounded(a + b, n);
    assert |a + b| + |a * b| == |a| + |b|;
  }
}
