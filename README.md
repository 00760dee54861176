# Raft peer state machine (Dafny model)

This project models one peer of the Raft consensus implementation in
`src/raft/raft.go`. Each RPC handler and each leader step in that file runs
entirely under the peer's mutex, so the model treats each one as a single
atomic transition of the peer's fields. The peer's fields are `currentTerm`,
`votedFor`, `lastVoteTerm`, `role`, `log`, `logTerm`, `commitIndex`,
`lastApplied`, `nextIndex`, `matchIndex` and `lastHeartBeat`. The peer also has
its own id `me` and the peer count.

Modules:

- `Quorum` (quorum.dfy): `majority` (n/2+1), `failCount` (n − majority + 1) and `min`. It also proves that two majorities of one peer set always share a peer.
- `RaftLog` (raft_log.dfy): `lastLogIndex` (−1 for an empty log), `lastLogTerm` (0 for an empty log), `isUpToDate`, the `prevCorrect` consistency check, `makeEntries` and the loop that splits received entries.
- `IntSort` (int_sort.dfy): an ascending sort that stands in for Go's `sort.Ints`. Every sorted permutation of a sequence is the same sequence, so any correct sort gives the same result.
- `Commit` (commit.dfy): the commit candidate that `updateCommit` picks. This is element `majority()-1` of the sorted `matchIndex`.
- `Election` (election.dfy): the vote tally of `startElection`. The other peers' replies come in as a `seq<bool>` in arrival order. `Tallied` is the reference definition, and the `Tally` loop is proved equal to it.
- `RaftNode` (raft_node.dfy): the request and reply records and a `NodeState` value holding the peer's fields. Each locked region has a pure `...Step` function. The class `Raft` holds the fields, and its methods update them in place. Each method proves `State() == XStep(old(State()), ...)`.

The model follows the code as written, including where the code departs from
the Raft paper (Figure 2 of "In Search of an Understandable Consensus Algorithm"):

- `AppendEntries` cuts `log` but only appends to `logTerm`. So `logTerm` can be longer than `log`, and `lastLogTerm` can then read a term left over from a cut (`AppendedTermsNotRead`, `StartEntryTerm`).
- Only a heartbeat (empty `entries`) adopts the leader's term and becomes follower. A request with entries changes neither.
- After any successful `AppendEntries`, `commitIndex` becomes `min(leaderCommit, lastLogIndex)`. This can lower it (`CommitIndexCanDecrease`).
- `RequestVote` never changes `currentTerm`. Its "already voted for this candidate" clause also accepts an older, delayed request from the same candidate. That lowers `lastVoteTerm`, and a rival can then get a second vote in the same term (`DelayedRequestReopensTerm`).
- `makeEntries` writes slot `i` rather than `i - start`. So it panics whenever `0 < start < end`, and `syncLog` can only send the whole log (`SyncPlan.Crash`, `SyncSendsWholeLog`).
- The leader never sets `matchIndex[me]`, so its own slot stays 0 although the leader holds its whole log. `updateCommit` takes element `n/2` of the sorted vector. That is the greatest index reached by n − n/2 slots. Counting the leader, a positive candidate is always on a majority of peers (`CandidateHeldByMajority`). For an odd cluster size, though, the candidate needs one follower more than a majority calls for. In a cluster of three, index 5 on the leader and one follower is not committed (`OddClusterWaitsForExtraFollower`).
- If the tally reads every reply without reaching either threshold, the source calls `os.Exit(-1)`. The model's outcome for this is `Exhausted`. It happens exactly when the peer is alone (`TallyMatchesFullCount`).
- `persist` is never called, and `checkApply` never applies anything, because `lastApplied` stays −1.

## Model

| member | source | states |
|---|---|---|
| Quorum.Majority | src/raft/raft.go:104-106 | a majority is the least count above half the peers |
| Quorum.FailCount | src/raft/raft.go:108-110 | after failCount refusals a majority is out of reach, one refusal fewer it is not |
| Quorum.Min | src/raft/raft.go:323-330 | the result is one of the two arguments and not above either |
| Quorum.QuorumsIntersect | src/raft/raft.go:104-106 | any two majorities of the same n peers share a peer |
| RaftLog.LastLogIndex | src/raft/raft.go:588-591 | last index is len(log)−1, −1 exactly for an empty log |
| RaftLog.TermAt | src/raft/raft.go:260-265 | the term recorded at an index, 0 for any negative index |
| RaftLog.LastLogTerm | src/raft/raft.go:593-600 | 0 for an empty log, otherwise logTerm at the last index |
| RaftLog.IsUpToDate | src/raft/raft.go:339-341 | a candidate log with a higher last term is up to date and one with a lower last term is not; with equal last terms it is up to date iff it is at least as long |
| RaftLog.PrevCorrect | src/raft/raft.go:256-271 | fails for a position past the log; for a position in the log, holds iff the recorded term matches; for a negative position, holds iff the given term is 0 |
| RaftLog.OwnLogIsUpToDate | src/raft/raft.go:339-341 | a peer's own last index and term pass its up-to-date check |
| RaftLog.UpToDateIsTotal | src/raft/raft.go:339-341 | of two logs at least one is as up to date as the other |
| RaftLog.MakeEntries | src/raft/raft.go:390-400 | panics exactly when end < start or 0 < start < end; otherwise returns the entries start..end−1 with their terms |
| RaftLog.SplitEntries | src/raft/raft.go:304-310 | the split-out commands and terms are those of the received entries, in order |
| RaftLog.SplitEntriesRoundTrip | src/raft/raft.go:304-312 | splitting the entries of a log range gives back that range of log and logTerm |
| IntSort.SortInts | src/raft/raft.go:459-461 | the sorted copy is ascending and a permutation of matchIndex |
| IntSort.SortCount | src/raft/raft.go:459-461 | sorting keeps how many values reach any bound |
| IntSort.SortedCountAtLeast | src/raft/raft.go:461-462 | in an ascending vector, element k is reached by at least len−k elements |
| Commit.CommitCandidate | src/raft/raft.go:459-462 | the candidate is a matchIndex value reached by at least failCount slots, and no greater value is |
| Commit.CandidateHeldByMajority | src/raft/raft.go:459-462 | with the leader's slot at 0, a positive candidate is reached by followers that, with the leader, make a majority |
| Commit.OddClusterCandidateHasMajority | src/raft/raft.go:459-462 | for an odd cluster size the candidate is reached by a majority of the slots |
| Commit.OddClusterNeedsFollowerMajority | src/raft/raft.go:459-462 | for an odd cluster size with the leader's slot at 0, a positive candidate is reached by a majority of the n−1 followers |
| Commit.OddClusterWaitsForExtraFollower | src/raft/raft.go:459-462 | for matchIndex [0,0,5] with leader 0, index 5 is on a majority (leader and follower 2) yet the candidate is 0 |
| Election.Tallied | src/raft/raft.go:643-674 | a decision needs at least one reply; an undecided tally after some replies has reached neither the win nor the loss threshold |
| Election.ThresholdsExclusive | src/raft/raft.go:639-673 | the win and lose thresholds never both hold within n−1 replies |
| Election.DecisionIsFinal | src/raft/raft.go:657-673 | once a threshold is reached, later replies do not change the decision |
| Election.WonHasMajority | src/raft/raft.go:657-668 | a won tally has a majority of grants counting the candidate's own vote |
| Election.LostHasFailCount | src/raft/raft.go:669-673 | a lost tally has collected failCount refusals |
| Election.TallyMatchesFullCount | src/raft/raft.go:639-675 | with one reply per other peer: win iff own vote plus grants is a majority, lose otherwise, undecided (the exit) iff the peer is alone |
| Election.Tally | src/raft/raft.go:639-675 | the loop's decision equals the reference tally; it stops at the first reply that reaches a threshold |
| RaftNode.Initial | src/raft/raft.go:689-705 | a new peer is a well-formed follower in term 0 with an empty log |
| RaftNode.RequestVoteStep | src/raft/raft.go:205-225 | term never changes and is always replied; a stale term is refused; a vote already recorded for another candidate in the request's term or later forces a refusal; the candidate already voted for is granted when its term is not behind and its log is up to date; a grant needs an up-to-date log and records candidate and term; a refusal changes nothing |
| RaftNode.FreshTermVoteGranted | src/raft/raft.go:209-213 | with no vote yet in a term that is not behind, an up-to-date candidate is granted |
| RaftNode.VoteForRivalRefused | src/raft/raft.go:209-213 | after a grant for term t, another candidate asking with a term ≤ t is refused |
| RaftNode.RepeatedVoteIsIdempotent | src/raft/raft.go:209-213 | repeating a granted request is granted again with no further change |
| RaftNode.DelayedRequestReopensTerm | src/raft/raft.go:209-213 | a delayed older request from the same candidate lets a rival get a second vote in the same term |
| RaftNode.AppendEntriesStep | src/raft/raft.go:246-321 | a stale term changes nothing; success iff term is not behind and prevCorrect; failure keeps log, logTerm and commitIndex; success cuts log after prevLogIndex and appends entries, appends terms to logTerm and sets commitIndex to min(leaderCommit, last index); only a heartbeat adopts term and becomes follower |
| RaftNode.CommitIndexCanDecrease | src/raft/raft.go:311-313 | a success that leaves the log shorter than commitIndex lowers commitIndex |
| RaftNode.AppendedTermsNotRead | src/raft/raft.go:311-313 | after a cut, lastLogTerm reads the old logTerm at the new last index |
| RaftNode.StartStep | src/raft/raft.go:498-515 | a non-leader returns (−1,−1,false) and changes nothing; a leader returns (old last index+1, term, true) and grows log and logTerm by exactly the command and its term, earlier entries untouched |
| RaftNode.StartEntryTerm | src/raft/raft.go:506-509 | the new entry reads back the leader's term only when logTerm was as long as log |
| RaftNode.HeartbeatArgs | src/raft/raft.go:571-574 | a heartbeat carries no entries, the leader's term and its id, and Go's zero values for prevLogIndex, prevLogTerm and leaderCommit |
| RaftNode.HeartbeatStep | src/raft/raft.go:569-586 | only a leader restarts its timer and sends a heartbeat |
| RaftNode.HeartbeatAcceptance | src/raft/raft.go:273-287 | a receiver not ahead in term accepts a leader heartbeat iff its first recorded term is 0, and adopts the term and becomes follower either way |
| RaftNode.TickStep | src/raft/raft.go:547-555 | a non-leader silent for more than electionTimeout becomes candidate for its current term |
| RaftNode.ElectionStep | src/raft/raft.go:603-676 | stale calls change nothing; otherwise term+1 with a self-vote; wins iff own vote plus grants is a majority; a win sets leader, every nextIndex to last index+1 and every matchIndex to 0; a loss sets follower; a lone peer exits; only term, vote, role, nextIndex, matchIndex and lastHeartBeat can change, and the last three only on a win |
| RaftNode.TimeoutStartsElection | src/raft/raft.go:548-552 | the election started by a timeout always passes its guard |
| RaftNode.NeedsSync | src/raft/raft.go:408-412 | a peer is sent entries iff it is not the leader itself and its nextIndex lies within the leader's log |
| RaftNode.SyncArgs | src/raft/raft.go:415-429 | prevLogIndex is nextIndex−1 with its recorded term; the entries are those from nextIndex to the end with their terms; term, leader id and leaderCommit are the leader's |
| RaftNode.SyncPlanOf | src/raft/raft.go:402-434 | nothing on a non-leader; a crash iff some peer that needs entries has nextIndex above 0; otherwise exactly the peers that need entries get SyncArgs, with the next index the leader's log length |
| RaftNode.SyncSendsWholeLog | src/raft/raft.go:412-429 | every message syncLog sends has prevLogIndex −1 and carries the whole log |
| RaftNode.ReplicaAdoptsLeaderLog | src/raft/raft.go:415-429 | a follower not ahead in term that accepts such a message ends with the leader's log |
| RaftNode.SyncReplyStep | src/raft/raft.go:435-447 | success sets nextIndex[from] to the captured next and matchIndex[from] to next−1; failure decrements nextIndex[from] but never below 0; nothing else changes |
| RaftNode.UpdateCommitStep | src/raft/raft.go:453-467 | commitIndex never goes down; it changes iff the peer is a leader with a non-empty log and the candidate is above commitIndex with logTerm equal to currentTerm |
| RaftNode.Raft.constructor | src/raft/raft.go:689-705 | the new peer's fields are the initial state |
| RaftNode.Raft.GetState | src/raft/raft.go:97-102 | returns the current term and whether the role is leader |
| RaftNode.Raft.RequestVote | src/raft/raft.go:205-225 | updates the fields as RequestVoteStep and returns its reply |
| RaftNode.Raft.AppendEntries | src/raft/raft.go:246-321 | updates the fields as AppendEntriesStep and returns its reply |
| RaftNode.Raft.Start | src/raft/raft.go:498-515 | updates the fields as StartStep and returns its (index, term, isLeader) |
| RaftNode.Raft.SendHeartbeats | src/raft/raft.go:569-586 | updates the fields as HeartbeatStep |
| RaftNode.Raft.Tick | src/raft/raft.go:545-556 | updates the fields as TickStep |
| RaftNode.Raft.StartElection | src/raft/raft.go:603-676 | updates the fields as ElectionStep; its nextIndex loop fills every slot with last index+1 |
| RaftNode.Raft.SyncLog | src/raft/raft.go:402-434 | returns what SyncPlanOf gives: nothing on a non-leader, a crash if makeEntries panics for some peer, else one message per peer that needs one |
| RaftNode.Raft.HandleAppendReply | src/raft/raft.go:435-447 | updates the fields as SyncReplyStep |
| RaftNode.Raft.UpdateCommit | src/raft/raft.go:453-467 | updates the fields as UpdateCommitStep |

## Left out

- Goroutines, channels and the mutex: the `ticker` and `heartbeat` loops, the loop started in `Make`, and the per-RPC goroutines of `startElection`, `syncLog` and `sendHeartbeats`. Each locked region is one atomic method, and the vote channel is an input sequence.
- RaftNode.Raft.StartElection: the election runs as one step, so the re-check after each reply (raft.go:649) always passes. Aborting because another handler changed role or term while the peer waited for a reply is not modelled.
- Time and randomness: `time.Now` is a `now` parameter, and the randomised sleeps are not modelled.
- `sendRequestVote`, `sendAppendEntries` and labrpc `Call` are network I/O. Their results enter the model as inputs: vote replies, the success flag of an AppendEntries reply, where a lost RPC reads as failure.
- `persist`/`readPersist`: encoding goes through labgob, which is not part of this model. `persist` is never called. Restoring a non-empty log without its `logTerm` would break the `|logTerm| >= |log|` invariant.
- `CondInstallSnapshot` and `Snapshot` are stubs. `Kill`/`killed` are atomics outside the mutex. `debug` only prints.
- `checkApply`/`apply` and `ApplyMsg`: `apply` only prints. Its guard `lastApplied >= 0` never holds, because `lastApplied` starts at −1 and nothing writes it.
- Go's 64-bit `int` wrap-around: terms and indices are unbounded integers.
- RaftNode.Raft.AppendEntries: a request with entries and `prevLogIndex` below −1 is excluded by its precondition. If such a request is not stale and has `prevLogTerm` 0, Go panics slicing `log[:prevLogIndex+1]`; otherwise it is refused. No leader sends one, because `nextIndex` never drops below 0.
- RaftNode.Raft.HandleAppendReply: its precondition assumes what `syncLog` guarantees for every reply it awaits: `from` is another peer, `matchIndex` has one slot per peer, and `next` lies between 1 and the length of `logTerm`. `logTerm` only grows.
