/**
 * The vote tally of raft.go's startElection. The candidate counts its own vote,
 * then reads one reply per other peer from the vote channel, in the order they
 * arrive, and stops at the first reply after which it has a majority (win) or
 * enough refusals that a majority is out of reach (loss). The replies are an
 * input sequence: their arrival order is whatever the network produced.
 */
module Election {
  import opened Quorum

  datatype Decision = Undecided | Won | Lost

  /** Number of granted votes among the replies. */
  function Granted(rs: seq<bool>): (g: nat)
    ensures g <= |rs|
  {
    if rs == [] then 0 else Granted(rs[..|rs| - 1]) + (if rs[|rs| - 1] then 1 else 0)
  }

  /** Number of refusals among the replies (a lost RPC reads as a refusal). */
  function Denied(rs: seq<bool>): (d: nat)
    ensures d <= |rs|
  {
    if rs == [] then 0 else Denied(rs[..|rs| - 1]) + (if rs[|rs| - 1] then 0 else 1)
  }

  /** The decision after reading the replies `rs` one at a time and stopping at
      the first threshold: the win threshold is tested before the loss one. */
  function Tallied(peerCount: nat, rs: seq<bool>): (d: Decision)
    ensures d != Undecided ==> rs != []
    ensures d == Undecided && rs != [] ==>
              1 + Granted(rs) < Majority(peerCount) && Denied(rs) < FailCount(peerCount)
  {
    if rs == [] then Undecided
    else if Tallied(peerCount, rs[..|rs| - 1]) != Undecided then Tallied(peerCount, rs[..|rs| - 1])
    else if 1 + Granted(rs) >= Majority(peerCount) then Won
    else if Denied(rs) >= FailCount(peerCount) then Lost
    else Undecided
  }

  /** Every reply is either a grant or a refusal. */
  lemma {:induction false} GrantedPlusDenied(rs: seq<bool>)
    ensures Granted(rs) + Denied(rs) == |rs|
  {
    if rs != [] {
      GrantedPlusDenied(rs[..|rs| - 1]);
    }
  }

  /** Counts only grow as more replies arrive. */
  lemma {:induction false} CountsMonotone(rs: seq<bool>, k: nat)
    requires k <= |rs|
    ensures Granted(rs[..k]) <= Granted(rs) && Denied(rs[..k]) <= Denied(rs)
    decreases |rs| - k
  {
    if k < |rs| {
      var p := rs[..|rs| - 1];
      assert rs[..k] == p[..k];
      CountsMonotone(p, k);
    } else {
      assert rs[..k] == rs;
    }
  }

  /** A decision, once taken, is final: later replies are never read. */
  lemma {:induction false} DecisionIsFinal(peerCount: nat, rs: seq<bool>, k: nat)
    requires k <= |rs|
    requires Tallied(peerCount, rs[..k]) != Undecided
    ensures Tallied(peerCount, rs) == Tallied(peerCount, rs[..k])
    decreases |rs| - k
  {
    if k < |rs| {
      var p := rs[..|rs| - 1];
      assert rs[..k] == p[..k];
      DecisionIsFinal(peerCount, p, k);
    } else {
      assert rs[..k] == rs;
    }
  }

  /** Win and loss thresholds never hold together while at most one reply per
      other peer has been read. */
  lemma ThresholdsExclusive(peerCount: nat, rs: seq<bool>)
    requires |rs| + 1 <= peerCount
    ensures !(1 + Granted(rs) >= Majority(peerCount) && Denied(rs) >= FailCount(peerCount))
  {
    GrantedPlusDenied(rs);
  }

  /** A won election has a majority of grants counting the candidate's own. */
  lemma {:induction false} WonHasMajority(peerCount: nat, rs: seq<bool>)
    requires Tallied(peerCount, rs) == Won
    ensures 1 + Granted(rs) >= Majority(peerCount)
  {
    var p := rs[..|rs| - 1];
    if Tallied(peerCount, p) == Won {
      WonHasMajority(peerCount, p);
      CountsMonotone(rs, |rs| - 1);
    }
  }

  /** A lost election has collected FailCount refusals. */
  lemma {:induction false} LostHasFailCount(peerCount: nat, rs: seq<bool>)
    requires Tallied(peerCount, rs) == Lost
    ensures Denied(rs) >= FailCount(peerCount)
  {
    var p := rs[..|rs| - 1];
    if Tallied(peerCount, p) == Lost {
      LostHasFailCount(peerCount, p);
      CountsMonotone(rs, |rs| - 1);
    }
  }

  /** With one reply per other peer, stopping early decides exactly as counting
      every reply would: the candidate wins iff it holds a majority of all
      votes, and otherwise it loses. With two or more peers there is always a
      decision; with a single peer the loop reads nothing and stays undecided. */
  lemma TallyMatchesFullCount(peerCount: nat, rs: seq<bool>)
    requires |rs| + 1 == peerCount
    ensures Tallied(peerCount, rs) == Won <==> 1 + Granted(rs) >= Majority(peerCount) && peerCount >= 2
    ensures Tallied(peerCount, rs) == Lost <==> 1 + Granted(rs) < Majority(peerCount)
    ensures Tallied(peerCount, rs) == Undecided <==> peerCount == 1
  {
    GrantedPlusDenied(rs);
    match Tallied(peerCount, rs)
    case Won => WonHasMajority(peerCount, rs);
    case Lost =>
      LostHasFailCount(peerCount, rs);
      ThresholdsExclusive(peerCount, rs);
    case Undecided =>
  }

  /** The tally loop of raft.go's startElection: reads the replies in order,
      stops at the first threshold, and reports how many replies it read. */
  method Tally(peerCount: nat, replies: seq<bool>) returns (d: Decision, consumed: nat)
    requires |replies| + 1 == peerCount
    ensures d == Tallied(peerCount, replies)
    ensures consumed <= |replies| && d == Tallied(peerCount, replies[..consumed])
    ensures forall k :: 0 <= k < consumed ==> Tallied(peerCount, replies[..k]) == Undecided
    ensures d == Undecided <==> peerCount == 1
  {
    var granted, deny := 1, 0;
    var winCount := Majority(peerCount);
    var loseCount := peerCount - winCount + 1;
    var i := 0;
    while i < peerCount - 1
      invariant 0 <= i <= |replies|
      invariant granted == 1 + Granted(replies[..i]) && deny == Denied(replies[..i])
      invariant forall k :: 0 <= k <= i ==> Tallied(peerCount, replies[..k]) == Undecided
    {
      assert replies[..i + 1][..i] == replies[..i];
      if replies[i] {
        granted := granted + 1;
      } else {
        deny := deny + 1;
      }
      if granted >= winCount {
        d, consumed := Won, i + 1;
        DecisionIsFinal(peerCount, replies, consumed);
        TallyMatchesFullCount(peerCount, replies);
        return;
      }
      if deny >= loseCount {
        d, consumed := Lost, i + 1;
        DecisionIsFinal(peerCount, replies, consumed);
        TallyMatchesFullCount(peerCount, replies);
        return;
      }
      i := i + 1;
    }
    assert replies[..i] == replies;
    d, consumed := Undecided, i;
    TallyMatchesFullCount(peerCount, replies);
  }
}
