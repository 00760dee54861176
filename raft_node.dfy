/**
 * The per-peer state machine of raft.go. Every RPC handler and every leader
 * step runs entirely under the peer's mutex, so each is one atomic transition
 * of the peer's fields. Each transition is specified by a pure `...Step`
 * function over a `NodeState` value, whose contract states what the source
 * promises; the class `Raft` holds the fields and its methods change them in
 * place, proved equal to the step functions.
 */
module RaftNode {
  import opened Wrappers
  import opened Quorum
  import opened RaftLog
  import opened IntSort
  import opened Commit
  import opened Election

  /** raft.go `electionTimeout`, in milliseconds. */
  const ElectionTimeout: int := 400

  datatype Role = Follower | Candidate | Leader

  datatype RequestVoteArgs = RequestVoteArgs(term: int, candidateId: int, lastLogIndex: int, lastLogTerm: int)
  datatype RequestVoteReply = RequestVoteReply(term: int, voteGranted: bool)

  /** An empty `entries` is a heartbeat. */
  datatype AppendEntriesArgs<C> = AppendEntriesArgs(
    term: int, leaderId: int, prevLogIndex: int, prevLogTerm: int,
    entries: seq<LogEntry<C>>, leaderCommit: int)
  datatype AppendEntriesReply = AppendEntriesReply(term: int, success: bool)

  /** The mutable fields of raft.go's `Raft` struct, as one value. */
  datatype NodeState<C> = NodeState(
    currentTerm: int, votedFor: int, lastVoteTerm: int, role: Role,
    log: seq<C>, logTerm: seq<int>, commitIndex: int, lastApplied: int,
    nextIndex: seq<int>, matchIndex: seq<int>, lastHeartBeat: int)

  /** What every transition keeps: the term list covers the log; one nextIndex
      per peer, never negative; matchIndex is empty until the first election
      win and then has one slot per peer; every matchIndex value is 0 or a
      position of the term list. */
  predicate Wf<C>(s: NodeState<C>, peerCount: nat)
  {
    && |s.logTerm| >= |s.log|
    && |s.nextIndex| == peerCount
    && (forall p :: 0 <= p < |s.nextIndex| ==> s.nextIndex[p] >= 0)
    && (|s.matchIndex| == 0 || |s.matchIndex| == peerCount)
    && (s.role == Leader ==> |s.matchIndex| == peerCount)
    && (forall p :: 0 <= p < |s.matchIndex| ==>
          0 <= s.matchIndex[p] && (s.matchIndex[p] == 0 || s.matchIndex[p] < |s.logTerm|))
  }

  /** The state raft.go's `Make` creates (before any persisted state is read):
      a follower in term 0 with an empty log; `lastApplied` is -1 and the zero
      values of Go stand for the rest (votedFor 0, commitIndex 0, no matchIndex). */
  function Initial<C>(peerCount: nat, now: int): (s: NodeState<C>)
    ensures Wf(s, peerCount)
    ensures s.role == Follower && s.log == [] && s.currentTerm == 0
  {
    NodeState(0, 0, 0, Follower, [], [], 0, -1, seq(peerCount, _ => 0), [], now)
  }

  // ---------------------------------------------------------------- RequestVote

  /** raft.go `RequestVote`. The reply always carries the receiver's term, which
      the handler never changes. A vote is granted only to a candidate whose
      term is not behind and whose log is at least as up to date, and only when
      the peer has recorded no vote in that term or a later one, or has recorded
      it for this same candidate. A grant records the candidate and the
      request's term; a refusal changes nothing. */
  function RequestVoteStep<C>(s: NodeState<C>, args: RequestVoteArgs): (r: (NodeState<C>, RequestVoteReply))
    requires |s.logTerm| >= |s.log|
    ensures r.1.term == s.currentTerm && r.0.currentTerm == s.currentTerm
    ensures args.term < s.currentTerm ==> !r.1.voteGranted
    ensures r.1.voteGranted ==> IsUpToDate(s.log, s.logTerm, args.lastLogIndex, args.lastLogTerm)
    ensures r.1.voteGranted ==> r.0 == s.(votedFor := args.candidateId, lastVoteTerm := args.term)
    ensures !r.1.voteGranted ==> r.0 == s
    ensures args.term <= s.lastVoteTerm && args.candidateId != s.votedFor ==> !r.1.voteGranted
    ensures (s.votedFor == args.candidateId && s.currentTerm <= args.term
             && IsUpToDate(s.log, s.logTerm, args.lastLogIndex, args.lastLogTerm))
            ==> r.1.voteGranted
  {
    if (s.lastVoteTerm < args.term || s.votedFor == args.candidateId) && s.currentTerm <= args.term
       && IsUpToDate(s.log, s.logTerm, args.lastLogIndex, args.lastLogTerm)
    then (s.(votedFor := args.candidateId, lastVoteTerm := args.term), RequestVoteReply(s.currentTerm, true))
    else (s, RequestVoteReply(s.currentTerm, false))
  }

  /** A peer that has not voted in a term yet grants a vote in that term to any
      up-to-date candidate whose term is not behind its own. */
  lemma FreshTermVoteGranted<C>(s: NodeState<C>, args: RequestVoteArgs)
    requires |s.logTerm| >= |s.log|
    requires s.lastVoteTerm < args.term && s.currentTerm <= args.term
    requires IsUpToDate(s.log, s.logTerm, args.lastLogIndex, args.lastLogTerm)
    ensures RequestVoteStep(s, args).1.voteGranted
  {
  }

  /** Once a vote for a candidate is recorded for term t, a different candidate
      asking with a term up to t is refused. */
  lemma VoteForRivalRefused<C>(s: NodeState<C>, granted: RequestVoteArgs, rival: RequestVoteArgs)
    requires |s.logTerm| >= |s.log|
    requires RequestVoteStep(s, granted).1.voteGranted
    requires rival.candidateId != granted.candidateId && rival.term <= granted.term
    ensures !RequestVoteStep(RequestVoteStep(s, granted).0, rival).1.voteGranted
  {
  }

  /** Repeating a granted request is granted again and changes nothing more. */
  lemma RepeatedVoteIsIdempotent<C>(s: NodeState<C>, args: RequestVoteArgs)
    requires |s.logTerm| >= |s.log|
    requires RequestVoteStep(s, args).1.voteGranted
    ensures RequestVoteStep(RequestVoteStep(s, args).0, args) == RequestVoteStep(s, args)
  {
  }

  /** As written, the "already voted for this candidate" clause also accepts an
      older, delayed request of the same candidate, which lowers lastVoteTerm;
      a rival then obtains a second vote in the term of the first grant. */
  lemma DelayedRequestReopensTerm<C>(s: NodeState<C>, first: RequestVoteArgs, delayed: RequestVoteArgs,
                                     rival: RequestVoteArgs)
    requires |s.logTerm| >= |s.log|
    requires RequestVoteStep(s, first).1.voteGranted
    requires delayed.candidateId == first.candidateId && s.currentTerm <= delayed.term < first.term
    requires IsUpToDate(s.log, s.logTerm, delayed.lastLogIndex, delayed.lastLogTerm)
    requires rival.candidateId != first.candidateId && rival.term == first.term
    requires IsUpToDate(s.log, s.logTerm, rival.lastLogIndex, rival.lastLogTerm)
    ensures var s1 := RequestVoteStep(s, first).0;
            var s2 := RequestVoteStep(s1, delayed).0;
            RequestVoteStep(s1, delayed).1.voteGranted && RequestVoteStep(s2, rival).1.voteGranted
  {
  }

  // -------------------------------------------------------------- AppendEntries

  /** raft.go `AppendEntries`. A request from an older term is refused with the
      receiver's term and changes nothing. Otherwise it succeeds exactly when
      the consistency check passes. A heartbeat (no entries) adopts the
      request's term, becomes follower and restarts the election timer whatever
      the check says; a request with entries changes neither term nor role. On
      success with entries, the log is cut after `prevLogIndex` and the entries
      appended, while their terms are appended to the end of the term list,
      which is never cut. On any success the commit index becomes the smaller
      of the leader's and the new last index, even when that is lower. */
  function AppendEntriesStep<C>(s: NodeState<C>, args: AppendEntriesArgs<C>, now: int)
    : (r: (NodeState<C>, AppendEntriesReply))
    requires |s.logTerm| >= |s.log|
    requires args.entries == [] || args.prevLogIndex >= -1
    ensures |r.0.logTerm| >= |r.0.log| && |r.0.logTerm| >= |s.logTerm|
    ensures r.0.currentTerm >= s.currentTerm
    ensures r == (s, AppendEntriesReply(s.currentTerm, false)) <== args.term < s.currentTerm
    ensures r.1.success <==>
              s.currentTerm <= args.term && PrevCorrect(s.log, s.logTerm, args.prevLogIndex, args.prevLogTerm)
    ensures !r.1.success ==> r.0.log == s.log && r.0.logTerm == s.logTerm && r.0.commitIndex == s.commitIndex
    ensures r.1.success ==> r.0.commitIndex == Min(args.leaderCommit, LastLogIndex(r.0.log))
    ensures r.1.success && args.entries != [] ==>
              && r.0.log == s.log[..args.prevLogIndex + 1] + Values(args.entries)
              && r.0.logTerm == s.logTerm + Terms(args.entries)
    ensures args.entries != [] ==>
              r.0.currentTerm == s.currentTerm && r.0.role == s.role && r.1.term == s.currentTerm
              && r.0.lastHeartBeat == s.lastHeartBeat
    ensures args.entries == [] ==> r.0.log == s.log && r.0.logTerm == s.logTerm
    ensures args.entries == [] && s.currentTerm <= args.term ==>
              r.0.currentTerm == args.term && r.0.role == Follower && r.0.lastHeartBeat == now
              && r.1.term == args.term
    ensures r.0 == s.(currentTerm := r.0.currentTerm, role := r.0.role, log := r.0.log, logTerm := r.0.logTerm,
                      commitIndex := r.0.commitIndex, lastHeartBeat := r.0.lastHeartBeat)
  {
    if args.term < s.currentTerm then
      (s, AppendEntriesReply(s.currentTerm, false))
    else if args.entries == [] then
      var h := s.(lastHeartBeat := now, currentTerm := args.term, role := Follower);
      if PrevCorrect(s.log, s.logTerm, args.prevLogIndex, args.prevLogTerm) then
        (h.(commitIndex := Min(args.leaderCommit, LastLogIndex(s.log))), AppendEntriesReply(args.term, true))
      else
        (h, AppendEntriesReply(args.term, false))
    else if !PrevCorrect(s.log, s.logTerm, args.prevLogIndex, args.prevLogTerm) then
      (s, AppendEntriesReply(s.currentTerm, false))
    else
      var log' := s.log[..args.prevLogIndex + 1] + Values(args.entries);
      (s.(log := log', logTerm := s.logTerm + Terms(args.entries),
          commitIndex := Min(args.leaderCommit, LastLogIndex(log'))),
       AppendEntriesReply(s.currentTerm, true))
  }

  /** The commit index drops when a successful request leaves the log shorter
      than the old commit index. */
  lemma CommitIndexCanDecrease<C>(s: NodeState<C>, args: AppendEntriesArgs<C>, now: int)
    requires |s.logTerm| >= |s.log| && args.entries != [] && args.prevLogIndex >= -1
    requires AppendEntriesStep(s, args, now).1.success
    requires args.prevLogIndex + |args.entries| < s.commitIndex
    ensures AppendEntriesStep(s, args, now).0.commitIndex < s.commitIndex
  {
  }

  /** After a request that cuts the log, the last log term is read from the old
      term list at the new last index, not from the entries just received. */
  lemma AppendedTermsNotRead<C>(s: NodeState<C>, args: AppendEntriesArgs<C>, now: int)
    requires |s.logTerm| >= |s.log| && args.entries != [] && args.prevLogIndex >= -1
    requires AppendEntriesStep(s, args, now).1.success
    requires args.prevLogIndex + |args.entries| < |s.logTerm|
    ensures var r := AppendEntriesStep(s, args, now).0;
            LastLogTerm(r.log, r.logTerm) == s.logTerm[args.prevLogIndex + |args.entries|]
  {
    var r := AppendEntriesStep(s, args, now).0;
    assert |r.log| == args.prevLogIndex + 1 + |args.entries|;
    assert r.logTerm[|r.log| - 1] == s.logTerm[|r.log| - 1];
  }

  // ------------------------------------------------------------------ Start

  /** raft.go `Start`. A non-leader answers (-1, -1, false) and changes nothing.
      A leader answers (old last index + 1, its term, true) and appends the
      command to the log and its term to the term list, keeping every earlier
      entry; nothing else changes. */
  function StartStep<C>(s: NodeState<C>, command: C): (r: (NodeState<C>, int, int, bool))
    ensures r.3 <==> s.role == Leader
    ensures !r.3 ==> r.0 == s && r.1 == -1 && r.2 == -1
    ensures r.3 ==> r.1 == LastLogIndex(s.log) + 1 && r.2 == s.currentTerm
    ensures r.3 ==> |r.0.log| == |s.log| + 1 && r.0.log[..|s.log|] == s.log && r.0.log[r.1] == command
    ensures r.3 ==> |r.0.logTerm| == |s.logTerm| + 1 && r.0.logTerm[..|s.logTerm|] == s.logTerm
                    && r.0.logTerm[|s.logTerm|] == s.currentTerm
    ensures r.0 == s.(log := r.0.log, logTerm := r.0.logTerm)
  {
    if s.role == Leader then
      (s.(log := s.log + [command], logTerm := s.logTerm + [s.currentTerm]),
       LastLogIndex(s.log) + 1, s.currentTerm, true)
    else
      (s, -1, -1, false)
  }

  /** The term read back for the entry Start adds is the leader's term only when
      the term list was as long as the log; otherwise it is the stale term left
      at that position by an earlier cut. */
  lemma StartEntryTerm<C>(s: NodeState<C>, command: C)
    requires |s.logTerm| >= |s.log| && s.role == Leader
    ensures var r := StartStep(s, command);
            LastLogTerm(r.0.log, r.0.logTerm)
              == if |s.logTerm| == |s.log| then s.currentTerm else s.logTerm[|s.log|]
  {
  }

  // ------------------------------------------------------- elections and timers

  /** What an election attempt comes to. `Exhausted`: every reply was read
      without reaching either threshold, where the source calls os.Exit(-1). */
  datatype ElectionOutcome<C> =
    | Stale
    | Elected(request: RequestVoteArgs, heartbeat: AppendEntriesArgs<C>)
    | Defeated(request: RequestVoteArgs)
    | Exhausted(request: RequestVoteArgs)

  /** The empty AppendEntries a leader broadcasts (raft.go `sendHeartbeats`):
      only term and leader id are set, the rest keep Go's zero values. */
  function HeartbeatArgs<C>(term: int, me: nat): (a: AppendEntriesArgs<C>)
    ensures a.entries == [] && a.term == term && a.leaderId == me
    ensures a.prevLogIndex == 0 && a.prevLogTerm == 0 && a.leaderCommit == 0
  {
    AppendEntriesArgs(term, me, 0, 0, [], 0)
  }

  /** raft.go `sendHeartbeats`: a leader restarts its own election timer and
      sends the heartbeat; any other role does nothing. */
  function HeartbeatStep<C>(s: NodeState<C>, me: nat, now: int): (r: (NodeState<C>, Option<AppendEntriesArgs<C>>))
    ensures r.1.Some? <==> s.role == Leader
    ensures r.1.Some? ==> r.0 == s.(lastHeartBeat := now) && r.1.value == HeartbeatArgs(s.currentTerm, me)
    ensures r.1.None? ==> r.0 == s
  {
    if s.role == Leader then (s.(lastHeartBeat := now), Some(HeartbeatArgs(s.currentTerm, me)))
    else (s, None)
  }

  /** A leader's heartbeat names position 0 with term 0, so a receiver not
      behind in term accepts it exactly when its first recorded term is 0;
      either way the receiver adopts the leader's term. */
  lemma HeartbeatAcceptance<C>(s: NodeState<C>, leaderTerm: int, leader: nat, now: int)
    requires |s.logTerm| >= |s.log| && s.currentTerm <= leaderTerm
    ensures var r := AppendEntriesStep(s, HeartbeatArgs(leaderTerm, leader), now);
            && (r.1.success <==> |s.log| > 0 && s.logTerm[0] == 0)
            && r.0.currentTerm == leaderTerm && r.0.role == Follower
  {
  }

  /** The timeout check of raft.go's `ticker`: a non-leader that has not heard
      from a leader for longer than ElectionTimeout becomes candidate and
      starts an election for its current term. */
  function TickStep<C>(s: NodeState<C>, now: int): (r: (NodeState<C>, Option<int>))
    ensures r.1.Some? <==> s.role != Leader && now - s.lastHeartBeat > ElectionTimeout
    ensures r.1.Some? ==> r.0 == s.(role := Candidate) && r.1.value == s.currentTerm
    ensures r.1.None? ==> r.0 == s
  {
    if s.role != Leader && now - s.lastHeartBeat > ElectionTimeout then (s.(role := Candidate), Some(s.currentTerm))
    else (s, None)
  }

  /** raft.go `startElection` with the replies of the other peers in arrival
      order. A stale call (term moved on or no longer candidate) changes
      nothing. Otherwise the term goes up by exactly one and the peer votes for
      itself in it; it wins exactly when its own vote and the granted replies
      make a majority (which needs two or more peers), loses otherwise, and
      with a single peer reads no reply and exits. A win makes it leader with
      every nextIndex at its last index + 1 and every matchIndex at 0. */
  function ElectionStep<C>(s: NodeState<C>, me: nat, peerCount: nat, oldTerm: int, replies: seq<bool>, now: int)
    : (r: (NodeState<C>, ElectionOutcome<C>))
    requires Wf(s, peerCount) && me < peerCount && |replies| + 1 == peerCount
    ensures Wf(r.0, peerCount)
    ensures r.1.Stale? <==> oldTerm != s.currentTerm || s.role != Candidate
    ensures r.1.Stale? ==> r.0 == s
    ensures !r.1.Stale? ==>
              && r.0.currentTerm == s.currentTerm + 1 && r.0.votedFor == me && r.0.lastVoteTerm == r.0.currentTerm
              && r.0.log == s.log && r.0.logTerm == s.logTerm && r.0.commitIndex == s.commitIndex
              && r.1.request == RequestVoteArgs(r.0.currentTerm, me, LastLogIndex(s.log), LastLogTerm(s.log, s.logTerm))
    ensures r.1.Elected? <==> !r.1.Stale? && peerCount >= 2 && 1 + Granted(replies) >= Majority(peerCount)
    ensures r.1.Elected? ==>
              && r.0.role == Leader && r.0.lastHeartBeat == now
              && r.1.heartbeat == HeartbeatArgs(r.0.currentTerm, me)
              && |r.0.matchIndex| == peerCount
              && (forall p :: 0 <= p < peerCount ==> r.0.nextIndex[p] == |s.log| && r.0.matchIndex[p] == 0)
    ensures r.1.Defeated? <==> !r.1.Stale? && 1 + Granted(replies) < Majority(peerCount)
    ensures r.1.Defeated? ==> r.0.role == Follower
    ensures r.1.Exhausted? <==> !r.1.Stale? && peerCount == 1
    ensures r.1.Exhausted? ==> r.0.role == Candidate
    ensures !r.1.Stale? ==>
              r.0 == s.(currentTerm := r.0.currentTerm, votedFor := me, lastVoteTerm := r.0.currentTerm,
                        role := r.0.role, nextIndex := r.0.nextIndex, matchIndex := r.0.matchIndex,
                        lastHeartBeat := r.0.lastHeartBeat)
    ensures !r.1.Elected? ==>
              r.0.nextIndex == s.nextIndex && r.0.matchIndex == s.matchIndex && r.0.lastHeartBeat == s.lastHeartBeat
  {
    if oldTerm != s.currentTerm || s.role != Candidate then (s, Stale)
    else
      var t := s.currentTerm + 1;
      var c := s.(currentTerm := t, votedFor := me, lastVoteTerm := t, role := Candidate);
      var request := RequestVoteArgs(t, me, LastLogIndex(s.log), LastLogTerm(s.log, s.logTerm));
      TallyMatchesFullCount(peerCount, replies);
      match Tallied(peerCount, replies)
      case Won =>
        var leader := c.(role := Leader, nextIndex := seq(peerCount, _ => LastLogIndex(s.log) + 1),
                         matchIndex := seq(peerCount, _ => 0));
        (leader.(lastHeartBeat := now), Elected(request, HeartbeatArgs(t, me)))
      case Lost => (c.(role := Follower), Defeated(request))
      case Undecided => (c, Exhausted(request))
  }

  /** A timeout always leads to an election that is not stale. */
  lemma TimeoutStartsElection<C>(s: NodeState<C>, me: nat, peerCount: nat, now: int, replies: seq<bool>, later: int)
    requires Wf(s, peerCount) && me < peerCount && |replies| + 1 == peerCount
    requires TickStep(s, now).1.Some?
    ensures !ElectionStep(TickStep(s, now).0, me, peerCount, TickStep(s, now).1.value, replies, later).1.Stale?
  {
  }

  // ------------------------------------------------------------- replication

  /** A leader sends to peer `p` when `p` is not itself and `nextIndex[p]` is
      within its log. */
  function NeedsSync<C>(s: NodeState<C>, me: nat, p: nat): (b: bool)
    requires p < |s.nextIndex|
    ensures p == me ==> !b
    ensures b ==> s.nextIndex[p] < |s.log|
    ensures p != me && s.nextIndex[p] < |s.log| ==> b
  {
    p != me && s.nextIndex[p] <= LastLogIndex(s.log)
  }

  /** The AppendEntries syncLog builds for peer `p` when makeEntries does not
      panic: the entry before nextIndex[p] as the previous one (term 0 before
      the log), the entries from nextIndex[p] to the end, the commit index. */
  function SyncArgs<C>(s: NodeState<C>, me: nat, p: nat): (a: AppendEntriesArgs<C>)
    requires |s.logTerm| >= |s.log| && p < |s.nextIndex| && 0 <= s.nextIndex[p] <= LastLogIndex(s.log)
    ensures a.prevLogIndex + 1 == s.nextIndex[p] && |a.entries| == |s.log| - s.nextIndex[p]
    ensures a.prevLogTerm == TermAt(s.log, s.logTerm, a.prevLogIndex)
    ensures a.entries == Entries(s.log, s.logTerm, s.nextIndex[p], |s.log|)
    ensures a.term == s.currentTerm && a.leaderId == me && a.leaderCommit == s.commitIndex
  {
    var prev := s.nextIndex[p] - 1;
    AppendEntriesArgs(s.currentTerm, me, prev, TermAt(s.log, s.logTerm, prev),
                      Entries(s.log, s.logTerm, s.nextIndex[p], |s.log|), s.commitIndex)
  }

  /** One AppendEntries of syncLog, with the `next` index its reply handler
      captured (the leader's last index + 1 at send time). */
  datatype Outgoing<C> = Outgoing(args: AppendEntriesArgs<C>, next: int)

  /** What one round of syncLog does: nothing on a non-leader, a crash when
      makeEntries panics for some peer, or else the message (if any) for each
      peer, indexed by peer. */
  datatype SyncPlan<C> = NotLeader | Crash | Send(out: seq<Option<Outgoing<C>>>)

  /** raft.go `syncLog`, argument construction. As written, makeEntries panics
      whenever a peer that needs entries has nextIndex above 0. */
  function SyncPlanOf<C>(s: NodeState<C>, me: nat, peerCount: nat): (r: SyncPlan<C>)
    requires Wf(s, peerCount)
    ensures r.NotLeader? <==> s.role != Leader
    ensures r.Crash? <==> s.role == Leader && exists p :: 0 <= p < peerCount && NeedsSync(s, me, p) && s.nextIndex[p] > 0
    ensures r.Send? ==> |r.out| == peerCount
    ensures r.Send? ==> forall p :: 0 <= p < peerCount ==>
              (r.out[p].Some? <==> NeedsSync(s, me, p))
              && (r.out[p].Some? ==> r.out[p].value.args == SyncArgs(s, me, p) && r.out[p].value.next == |s.log|)
  {
    if s.role != Leader then NotLeader
    else if exists p :: 0 <= p < peerCount && NeedsSync(s, me, p) && EntriesPanic(s.nextIndex[p], |s.log|) then Crash
    else Send(seq(peerCount, p requires 0 <= p < peerCount =>
                    if NeedsSync(s, me, p) then Some(Outgoing(SyncArgs(s, me, p), LastLogIndex(s.log) + 1)) else None))
  }

  /** Every message syncLog sends without crashing carries the whole log after
      the "no previous entry" index -1; a send to a peer whose nextIndex is past
      0 never happens. */
  lemma SyncSendsWholeLog<C>(s: NodeState<C>, me: nat, peerCount: nat, p: nat)
    requires Wf(s, peerCount) && p < peerCount
    requires SyncPlanOf(s, me, peerCount).Send? && SyncPlanOf(s, me, peerCount).out[p].Some?
    ensures var a := SyncPlanOf(s, me, peerCount).out[p].value.args;
            a.prevLogIndex == -1 && a.entries == Entries(s.log, s.logTerm, 0, |s.log|)
  {
    assert NeedsSync(s, me, p);
  }

  /** A follower not ahead in term that receives such a message from the leader
      ends with exactly the leader's log, and the leader's terms appended to its
      term list. */
  lemma ReplicaAdoptsLeaderLog<C>(leader: NodeState<C>, f: NodeState<C>, me: nat, peerCount: nat, p: nat, now: int)
    requires Wf(leader, peerCount) && p < peerCount && |f.logTerm| >= |f.log|
    requires SyncPlanOf(leader, me, peerCount).Send? && SyncPlanOf(leader, me, peerCount).out[p].Some?
    requires f.currentTerm <= leader.currentTerm
    ensures var a := SyncPlanOf(leader, me, peerCount).out[p].value.args;
            var r := AppendEntriesStep(f, a, now);
            r.1.success && r.0.log == leader.log && r.0.logTerm == f.logTerm + leader.logTerm[..|leader.log|]
  {
    SyncSendsWholeLog(leader, me, peerCount, p);
    SplitEntriesRoundTrip(leader.log, leader.logTerm, 0, |leader.log|);
    assert NeedsSync(leader, me, p);
    assert leader.log[0..|leader.log|] == leader.log;
    assert f.log[..0] == [];
  }

  /** The reply handler of syncLog for peer `from`, which only runs for
      messages a leader sent, so matchIndex has a slot per peer and `next` is
      at least 1 and within the term list (which only grows). A success moves
      nextIndex to `next` and matchIndex to `next - 1`; a failure (a lost RPC
      included) moves nextIndex one back, never below 0. Nothing else changes,
      and the reply's term is not looked at. */
  function SyncReplyStep<C>(s: NodeState<C>, me: nat, peerCount: nat, from: nat, next: int, success: bool)
    : (r: NodeState<C>)
    requires Wf(s, peerCount) && from < peerCount && from != me
    requires |s.matchIndex| == peerCount && 1 <= next <= |s.logTerm|
    ensures Wf(r, peerCount) && |r.matchIndex| == peerCount
    ensures success ==> r.nextIndex[from] == next && r.matchIndex[from] == next - 1
    ensures !success ==> r.nextIndex[from] == (if s.nextIndex[from] > 0 then s.nextIndex[from] - 1 else 0)
                         && r.matchIndex == s.matchIndex
    ensures forall p :: 0 <= p < peerCount && p != from ==>
              r.nextIndex[p] == s.nextIndex[p] && r.matchIndex[p] == s.matchIndex[p]
    ensures r == s.(nextIndex := r.nextIndex, matchIndex := r.matchIndex)
  {
    if success then
      s.(nextIndex := s.nextIndex[from := next], matchIndex := s.matchIndex[from := next - 1])
    else if s.nextIndex[from] > 0 then
      s.(nextIndex := s.nextIndex[from := s.nextIndex[from] - 1])
    else
      s
  }

  /** raft.go `updateCommit`. Only a leader with a non-empty log acts. It
      adopts the commit candidate exactly when its recorded term is the
      leader's current term and it is above the commit index, so the commit
      index never goes down here; the adopted index is held by at least
      FailCount peers. Nothing else changes. */
  function UpdateCommitStep<C>(s: NodeState<C>, peerCount: nat): (r: NodeState<C>)
    requires Wf(s, peerCount) && peerCount >= 1
    ensures Wf(r, peerCount)
    ensures r == s.(commitIndex := r.commitIndex)
    ensures r.commitIndex >= s.commitIndex
    ensures r.commitIndex != s.commitIndex <==>
              && s.role == Leader && |s.log| > 0
              && s.logTerm[CommitCandidate(s.matchIndex)] == s.currentTerm
              && s.commitIndex < CommitCandidate(s.matchIndex)
    ensures r.commitIndex != s.commitIndex ==>
              && r.commitIndex == CommitCandidate(s.matchIndex)
              && CountAtLeast(s.matchIndex, r.commitIndex) >= FailCount(peerCount)
  {
    if s.role != Leader || |s.log| == 0 then s
    else
      var c := CommitCandidate(s.matchIndex);
      if s.logTerm[c] == s.currentTerm && s.commitIndex < c then s.(commitIndex := c) else s
  }

  // ------------------------------------------------------------------ the peer

  /** One Raft peer: raft.go's `Raft` struct without its mutex, RPC endpoints,
      persister, apply channel and kill flag. */
  class Raft<C> {
    const me: nat
    const peerCount: nat
    var currentTerm: int
    var votedFor: int
    var lastVoteTerm: int
    var role: Role
    var log: seq<C>
    var logTerm: seq<int>
    var commitIndex: int
    var lastApplied: int
    var nextIndex: seq<int>
    var matchIndex: seq<int>
    var lastHeartBeat: int

    function State(): NodeState<C>
      reads this
    {
      NodeState(currentTerm, votedFor, lastVoteTerm, role, log, logTerm, commitIndex, lastApplied,
                nextIndex, matchIndex, lastHeartBeat)
    }

    predicate Valid()
      reads this
    {
      1 <= peerCount && me < peerCount && Wf(State(), peerCount)
    }

    /** raft.go `Make`, without the goroutines and the persisted state. */
    constructor (peerCount: nat, me: nat, now: int)
      requires me < peerCount
      ensures Valid() && this.me == me && this.peerCount == peerCount
      ensures State() == Initial(peerCount, now)
    {
      this.me := me;
      this.peerCount := peerCount;
      currentTerm := 0;
      votedFor := 0;
      lastVoteTerm := 0;
      role := Follower;
      log := [];
      logTerm := [];
      commitIndex := 0;
      lastApplied := -1;
      nextIndex := seq(peerCount, _ => 0);
      matchIndex := [];
      lastHeartBeat := now;
    }

    /** raft.go `GetState`: the current term and whether this peer is leader. */
    function GetState(): (r: (int, bool))
      reads this
      ensures r.0 == State().currentTerm && (r.1 <==> State().role == Leader)
    {
      (currentTerm, role == Leader)
    }

    method RequestVote(args: RequestVoteArgs) returns (reply: RequestVoteReply)
      requires Valid()
      modifies this
      ensures Valid()
      ensures (State(), reply) == RequestVoteStep(old(State()), args)
    {
      reply := RequestVoteReply(currentTerm, false);
      if (lastVoteTerm < args.term || votedFor == args.candidateId) && currentTerm <= args.term {
        if IsUpToDate(log, logTerm, args.lastLogIndex, args.lastLogTerm) {
          reply := reply.(voteGranted := true);
          votedFor := args.candidateId;
          lastVoteTerm := args.term;
          return;
        }
      }
    }

    method AppendEntries(args: AppendEntriesArgs<C>, now: int) returns (reply: AppendEntriesReply)
      requires Valid()
      requires args.entries == [] || args.prevLogIndex >= -1
      modifies this
      ensures Valid()
      ensures (State(), reply) == AppendEntriesStep(old(State()), args, now)
    {
      reply := AppendEntriesReply(currentTerm, false);
      if args.term < currentTerm {
        return;
      }
      if args.entries == [] {
        lastHeartBeat := now;
        currentTerm := args.term;
        role := Follower;
        reply := reply.(term := currentTerm);
        if PrevCorrect(log, logTerm, args.prevLogIndex, args.prevLogTerm) {
          commitIndex := Min(args.leaderCommit, LastLogIndex(log));
          reply := reply.(success := true);
        }
        return;
      }
      if args.prevLogIndex > LastLogIndex(log) {
        return;
      }
      var myPrevTerm := if args.prevLogIndex < 0 then 0 else logTerm[args.prevLogIndex];
      if myPrevTerm != args.prevLogTerm {
        return;
      }
      var newLog, newLogTerm := SplitEntries(args.entries);
      log := log[..args.prevLogIndex + 1] + newLog;
      logTerm := logTerm + newLogTerm;
      commitIndex := Min(args.leaderCommit, LastLogIndex(log));
      reply := reply.(success := true);
    }

    method Start(command: C) returns (index: int, term: int, isLeader: bool)
      requires Valid()
      modifies this
      ensures Valid()
      ensures (State(), index, term, isLeader) == StartStep(old(State()), command)
    {
      index, term := -1, -1;
      isLeader := role == Leader;
      if isLeader {
        index := LastLogIndex(log) + 1;
        term := currentTerm;
        log := log + [command];
        logTerm := logTerm + [term];
      }
    }

    method SendHeartbeats(now: int) returns (heartbeat: Option<AppendEntriesArgs<C>>)
      requires Valid()
      modifies this
      ensures Valid()
      ensures (State(), heartbeat) == HeartbeatStep(old(State()), me, now)
    {
      heartbeat := None;
      if role == Leader {
        lastHeartBeat := now;
        heartbeat := Some(HeartbeatArgs(currentTerm, me));
      }
    }

    method Tick(now: int) returns (election: Option<int>)
      requires Valid()
      modifies this
      ensures Valid()
      ensures (State(), election) == TickStep(old(State()), now)
    {
      election := None;
      if role != Leader && now - lastHeartBeat > ElectionTimeout {
        role := Candidate;
        election := Some(currentTerm);
      }
    }

    method StartElection(oldTerm: int, replies: seq<bool>, now: int) returns (outcome: ElectionOutcome<C>)
      requires Valid() && |replies| + 1 == peerCount
      modifies this
      ensures Valid()
      ensures (State(), outcome) == ElectionStep(old(State()), me, peerCount, oldTerm, replies, now)
    {
      if oldTerm != currentTerm || role != Candidate {
        return Stale;
      }
      currentTerm := currentTerm + 1;
      votedFor := me;
      lastVoteTerm := currentTerm;
      role := Candidate;
      var request := RequestVoteArgs(currentTerm, me, LastLogIndex(log), LastLogTerm(log, logTerm));
      var decision, _ := Tally(peerCount, replies);
      match decision
      case Won =>
        role := Leader;
        var first := LastLogIndex(log) + 1;
        var next: seq<int> := seq(peerCount, _ => 0);
        var remote := 0;
        while remote < peerCount
          invariant 0 <= remote <= peerCount && |next| == peerCount
          invariant forall p :: 0 <= p < peerCount ==> next[p] == if p < remote then first else 0
        {
          next := next[remote := first];
          remote := remote + 1;
        }
        assert next == seq(peerCount, _ => first);
        nextIndex := next;
        matchIndex := seq(peerCount, _ => 0);
        var heartbeat := SendHeartbeats(now);
        outcome := Elected(request, heartbeat.value);
      case Lost =>
        role := Follower;
        outcome := Defeated(request);
      case Undecided =>
        outcome := Exhausted(request);
    }

    /** The argument construction of raft.go `syncLog`: state is only read. */
    method SyncLog() returns (plan: SyncPlan<C>)
      requires Valid()
      ensures plan == SyncPlanOf(State(), me, peerCount)
    {
      if role != Leader {
        return NotLeader;
      }
      var out: seq<Option<Outgoing<C>>> := [];
      var remote := 0;
      while remote < peerCount
        invariant 0 <= remote <= peerCount && |out| == remote
        invariant forall p :: 0 <= p < remote ==>
                    !(NeedsSync(State(), me, p) && EntriesPanic(nextIndex[p], |log|))
        invariant forall p :: 0 <= p < remote ==>
                    out[p] == if NeedsSync(State(), me, p)
                              then Some(Outgoing(SyncArgs(State(), me, p), LastLogIndex(log) + 1))
                              else None
      {
        if remote == me || nextIndex[remote] > LastLogIndex(log) {
          out := out + [None];
          remote := remote + 1;
          continue;
        }
        var prev := nextIndex[remote] - 1;
        var prevTerm := if prev < 0 then 0 else logTerm[prev];
        var entries := MakeEntries(log, logTerm, nextIndex[remote], |log|);
        if entries.None? {
          return Crash;
        }
        var args := AppendEntriesArgs(currentTerm, me, prev, prevTerm, entries.value, commitIndex);
        out := out + [Some(Outgoing(args, LastLogIndex(log) + 1))];
        remote := remote + 1;
      }
      return Send(out);
    }

    /** The reply closure of raft.go `syncLog`. */
    method HandleAppendReply(from: nat, next: int, success: bool)
      requires Valid() && from < peerCount && from != me
      requires |matchIndex| == peerCount && 1 <= next <= |logTerm|
      modifies this
      ensures Valid()
      ensures State() == SyncReplyStep(old(State()), me, peerCount, from, next, success)
    {
      if success {
        nextIndex := nextIndex[from := next];
        matchIndex := matchIndex[from := next - 1];
      } else {
        if nextIndex[from] > 0 {
          nextIndex := nextIndex[from := nextIndex[from] - 1];
        }
      }
    }

    method UpdateCommit()
      requires Valid()
      modifies this
      ensures Valid()
      ensures State() == UpdateCommitStep(old(State()), peerCount)
    {
      if role != Leader || |log| == 0 {
        return;
      }
      // a sorted copy of matchIndex, element majority()-1
      var newCommit := CommitCandidate(matchIndex);
      assert newCommit < |logTerm| by {
        var p :| 0 <= p < |matchIndex| && matchIndex[p] == newCommit;
      }
      if logTerm[newCommit] == currentTerm && commitIndex < newCommit {
        commitIndex := newCommit;
      }
    }
  }
}
