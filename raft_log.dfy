/**
 * The replicated log of a Raft peer as raft.go keeps it: the commands in `log`
 * and, beside them, their terms in `logTerm`. Indices are 0-based and -1 stands
 * for "empty log" or "no previous entry". `logTerm` is only ever appended to,
 * so it may be longer than `log`. Most readers index it below `|log|`;
 * updateCommit reads it at a matchIndex value, which may lie past a log that
 * a later AppendEntries cut.
 */
module RaftLog {
  import opened Wrappers

  /** One entry of an AppendEntries request (raft.go `LogEntry`). */
  datatype LogEntry<C> = LogEntry(term: int, val: C)

  /** Index of the last entry, -1 for an empty log (raft.go `lastLogIndex`). */
  function LastLogIndex<C>(log: seq<C>): (i: int)
    ensures -1 <= i < |log|
    ensures i == -1 <==> log == []
    ensures i + 1 == |log|
  {
    |log| - 1
  }

  /** The term recorded for position `index`, 0 for any negative index (the
      "no previous entry" case of raft.go's AppendEntries and syncLog). */
  function TermAt<C>(log: seq<C>, logTerm: seq<int>, index: int): (t: int)
    requires |logTerm| >= |log| && index < |log|
    ensures index < 0 ==> t == 0
    ensures 0 <= index ==> t == logTerm[index]
  {
    if index < 0 then 0 else logTerm[index]
  }

  /** Term of the last entry, 0 for an empty log (raft.go `lastLogTerm`). */
  function LastLogTerm<C>(log: seq<C>, logTerm: seq<int>): (t: int)
    requires |logTerm| >= |log|
    ensures log == [] ==> t == 0
    ensures log != [] ==> t == logTerm[|log| - 1]
  {
    TermAt(log, logTerm, LastLogIndex(log))
  }

  /** The election restriction (raft.go `isUpToDate`): a log that ends at
      (`lastTerm`, `lastIndex`) is at least as up to date as this one when it
      is not smaller in the lexicographic order on (term, index). */
  function IsUpToDate<C>(log: seq<C>, logTerm: seq<int>, lastIndex: int, lastTerm: int): (b: bool)
    requires |logTerm| >= |log|
    ensures lastTerm > LastLogTerm(log, logTerm) ==> b
    ensures lastTerm < LastLogTerm(log, logTerm) ==> !b
    ensures lastTerm == LastLogTerm(log, logTerm) ==> (b <==> lastIndex + 1 >= |log|)
  {
    lastTerm > LastLogTerm(log, logTerm)
    || (lastTerm == LastLogTerm(log, logTerm) && lastIndex >= LastLogIndex(log))
  }

  /** The consistency check of AppendEntries (raft.go `prevCorrect`): the
      position `prevIndex` exists (or is negative) and carries `prevTerm`. */
  function PrevCorrect<C>(log: seq<C>, logTerm: seq<int>, prevIndex: int, prevTerm: int): (b: bool)
    requires |logTerm| >= |log|
    ensures prevIndex >= |log| ==> !b
    ensures 0 <= prevIndex < |log| ==> (b <==> logTerm[prevIndex] == prevTerm)
    ensures prevIndex < 0 ==> (b <==> prevTerm == 0)
  {
    prevIndex <= LastLogIndex(log) && TermAt(log, logTerm, prevIndex) == prevTerm
  }

  /** The entries at positions start .. end-1, each with its recorded term: what
      syncLog means to send a follower. */
  function Entries<C>(log: seq<C>, logTerm: seq<int>, start: int, end: int): (es: seq<LogEntry<C>>)
    requires 0 <= start <= end <= |log| <= |logTerm|
    ensures |es| == end - start
    ensures forall j :: 0 <= j < |es| ==> es[j] == LogEntry(logTerm[start + j], log[start + j])
  {
    seq(end - start, j requires 0 <= j < end - start => LogEntry(logTerm[start + j], log[start + j]))
  }

  /** The commands carried by a sequence of entries. */
  function Values<C>(es: seq<LogEntry<C>>): (vs: seq<C>)
    ensures |vs| == |es|
    ensures forall j :: 0 <= j < |es| ==> vs[j] == es[j].val
  {
    seq(|es|, j requires 0 <= j < |es| => es[j].val)
  }

  /** The terms carried by a sequence of entries. */
  function Terms<C>(es: seq<LogEntry<C>>): (ts: seq<int>)
    ensures |ts| == |es|
    ensures forall j :: 0 <= j < |es| ==> ts[j] == es[j].term
  {
    seq(|es|, j requires 0 <= j < |es| => es[j].term)
  }

  /** Whether raft.go's `makeEntries(start, end)` panics. It allocates
      `end - start` slots (a negative length panics) and then writes slot `i`
      for every `i` in start .. end-1, so the last write is out of range as soon
      as `start > 0` and the range is not empty. */
  predicate EntriesPanic(start: int, end: int)
  {
    end < start || (0 < start && start < end)
  }

  /** raft.go `makeEntries` as written: fills slot `i` (not `i - start`) of a
      slice of `end - start` entries; `None` is the run-time panic. When it does
      not panic, the result is exactly the entries start .. end-1. */
  method MakeEntries<C>(log: seq<C>, logTerm: seq<int>, start: int, end: int)
    returns (r: Option<seq<LogEntry<C>>>)
    requires 0 <= start && end <= |log| <= |logTerm|
    ensures r.None? <==> EntriesPanic(start, end)
    ensures r.Some? ==> r.value == Entries(log, logTerm, start, end)
  {
    var len := end - start;
    if len < 0 {
      return None;
    }
    var slots: seq<Option<LogEntry<C>>> := seq(len, _ => None);
    var i := start;
    while i < end
      invariant start <= i <= end
      invariant |slots| == len
      invariant 0 < start ==> i == start || i <= len
      invariant start == 0 ==> forall j :: 0 <= j < len ==>
          slots[j] == if j < i then Some(LogEntry(logTerm[j], log[j])) else None
    {
      if i >= len {
        return None;
      }
      slots := slots[i := Some(LogEntry(logTerm[i], log[i]))];
      i := i + 1;
    }
    r := Some(seq(len, j requires 0 <= j < len && slots[j].Some? => slots[j].value));
  }

  /** The loop of raft.go's AppendEntries that splits the received entries
      into their commands and their terms. */
  method SplitEntries<C>(entries: seq<LogEntry<C>>) returns (vals: seq<C>, terms: seq<int>)
    ensures vals == Values(entries) && terms == Terms(entries)
  {
    vals, terms := [], [];
    var i := 0;
    while i < |entries|
      invariant 0 <= i <= |entries|
      invariant vals == Values(entries[..i]) && terms == Terms(entries[..i])
    {
      vals := vals + [entries[i].val];
      terms := terms + [entries[i].term];
      i := i + 1;
    }
    assert entries[..i] == entries;
  }

  /** Splitting the entries start .. end-1 gives back the commands and terms
      of that range: sending entries and splitting them on receipt round-trips. */
  lemma {:induction false} SplitEntriesRoundTrip<C>(log: seq<C>, logTerm: seq<int>, start: int, end: int)
    requires 0 <= start <= end <= |log| <= |logTerm|
    ensures Values(Entries(log, logTerm, start, end)) == log[start..end]
    ensures Terms(Entries(log, logTerm, start, end)) == logTerm[start..end]
  {
    var es := Entries(log, logTerm, start, end);
    assert forall j :: 0 <= j < end - start ==> Values(es)[j] == log[start..end][j];
    assert forall j :: 0 <= j < end - start ==> Terms(es)[j] == logTerm[start..end][j];
  }

  /** A peer's own last index and term always pass its own up-to-date check. */
  lemma OwnLogIsUpToDate<C>(log: seq<C>, logTerm: seq<int>)
    requires |logTerm| >= |log|
    ensures IsUpToDate(log, logTerm, LastLogIndex(log), LastLogTerm(log, logTerm))
  {
  }

  /** Of any two logs, at least one is as up to date as the other, so of two
      candidates at least one passes the other's election restriction. */
  lemma UpToDateIsTotal<C>(a: seq<C>, aTerm: seq<int>, b: seq<C>, bTerm: seq<int>)
    requires |aTerm| >= |a| && |bTerm| >= |b|
    ensures IsUpToDate(a, aTerm, LastLogIndex(b), LastLogTerm(b, bTerm))
         || IsUpToDate(b, bTerm, LastLogIndex(a), LastLogTerm(a, aTerm))
  {
  }
}
