/** The AppendEntries handler, and Log Matching over runs of a cluster that uses it. */
module Raft {
  datatype Role = Follower | Candidate | Leader

  datatype LogEntry = LogEntry(index: int, term: int, data: string)

  datatype AppendEntries = AppendEntries(term: int, leaderId: string, prevLogIndex: int, prevLogTerm: int,
                                         entries: seq<LogEntry>, leaderCommit: int)

  datatype Reply = Reply(term: int, success: bool)

  /** What a node remembers. */
  datatype Node = Node(currentTerm: int, votedFor: string, role: Role, log: seq<LogEntry>, commitIndex: int)

  function Min(a: int, b: int): int {
    if a < b then a else b
  }

  // ------------------------------------------------------------------ merging entries into a log

  /** The log holds entry `i` already, judged by term. */
  predicate Held(log: seq<LogEntry>, at: nat, entries: seq<LogEntry>, i: nat) {
    i < |entries| && at + i < |log| && log[at + i].term == entries[i].term
  }

  /** The first entry from `i` on that the log does not hold at its place. */
  function FirstMissing(log: seq<LogEntry>, at: nat, entries: seq<LogEntry>, i: nat): (r: nat)
    requires i <= |entries|
    ensures i <= r <= |entries| && !Held(log, at, entries, r)
    ensures forall j: nat :: i <= j < r ==> Held(log, at, entries, j)
    decreases |entries| - i
  {
    if Held(log, at, entries, i) then FirstMissing(log, at, entries, i + 1) else i
  }

  /** Keep the log if it holds every entry; else cut it at the first conflict and append the rest. */
  function Merged(log: seq<LogEntry>, at: nat, entries: seq<LogEntry>): seq<LogEntry> {
    var r := FirstMissing(log, at, entries, 0);
    if r == |entries| then log
    else log[..Min(at + r, |log|)] + entries[r..]
  }

  predicate Accepts(n: Node, m: AppendEntries) {
    && n.currentTerm <= m.term
    && !(0 <= m.prevLogIndex < |n.log| && n.log[m.prevLogIndex].term != m.prevLogTerm)
  }

  /** No entry is looked up at a negative index. */
  predicate InRange(n: Node, m: AppendEntries) {
    m.term >= n.currentTerm && m.entries != [] ==> m.prevLogIndex >= -1
  }

  /** Hearing from the current or a newer term makes the node a follower of that term. */
  function Heard(n: Node, term: int): Node {
    if term > n.currentTerm || n.role != Follower
    then n.(currentTerm := term, role := Follower, votedFor := "") else n
  }

  function NewLog(log: seq<LogEntry>, prev: int, entries: seq<LogEntry>): seq<LogEntry>
    requires entries != [] ==> prev >= -1
  {
    if entries == [] then log else Merged(log, prev + 1, entries)
  }

  function NewCommit(n: Node, m: AppendEntries, length: nat): int {
    if m.leaderCommit > n.commitIndex then Min(m.leaderCommit, length - 1) else n.commitIndex
  }

  /** The node after one message. */
  function After(n: Node, m: AppendEntries): Node
    requires InRange(n, m)
  {
    if m.term < n.currentTerm then n
    else if !Accepts(n, m) then Heard(n, m.term)
    else
      var log := NewLog(n.log, m.prevLogIndex, m.entries);
      Heard(n, m.term).(log := log, commitIndex := NewCommit(n, m, |log|))
  }

  class RaftNode {
    var id: string
    var currentTerm: int
    var votedFor: string
    var role: Role
    var log: seq<LogEntry>
    var commitIndex: int

    function Value(): Node
      reads this
    {
      Node(currentTerm, votedFor, role, log, commitIndex)
    }

    method HandleAppendEntries(m: AppendEntries) returns (reply: Reply)
      requires InRange(Value(), m)
      modifies this
      ensures Value() == After(old(Value()), m) && id == old(id)
      ensures reply == Reply(currentTerm, Accepts(old(Value()), m))
    {
      if m.term < currentTerm {
        return Reply(currentTerm, false);
      }
      if m.term > currentTerm || role != Follower {
        currentTerm, role, votedFor := m.term, Follower, "";
      }
      if 0 <= m.prevLogIndex < |log| {
        if log[m.prevLogIndex].term != m.prevLogTerm {
          return Reply(currentTerm, false);
        }
      }
      Replicate(m.prevLogIndex, m.entries);
      if m.leaderCommit > commitIndex {
        commitIndex := Min(m.leaderCommit, |log| - 1);
      }
      reply := Reply(currentTerm, true);
    }

    /** The replication loop. */
    method Replicate(prev: int, entries: seq<LogEntry>)
      requires entries != [] ==> prev >= -1
      modifies this`log
      ensures log == NewLog(old(log), prev, entries)
    {
      ghost var before := log;
      for i := 0 to |entries|
        invariant log == Partly(before, prev, entries, i)
      {
        var target := prev + 1 + i;
        OneMore(before, prev, entries, i);
        if target < |log| {
          if log[target].term != entries[i].term {
            log := log[..target];
            log := log + [entries[i]];
          }
        } else {
          log := log + [entries[i]];
        }
      }
    }
  }

  /** The log after the first `i` entries: untouched up to the first missing one, then rebuilt from there. */
  ghost function Partly(log: seq<LogEntry>, prev: int, entries: seq<LogEntry>, i: nat): seq<LogEntry>
    requires i <= |entries| && (entries != [] ==> prev >= -1)
  {
    if entries == [] then log
    else
      var r := FirstMissing(log, prev + 1, entries, 0);
      if i <= r then log else log[..Min(prev + 1 + r, |log|)] + entries[r..i]
  }

  /** What one turn of the replication loop must do. */
  lemma OneMore(log: seq<LogEntry>, prev: int, entries: seq<LogEntry>, i: nat)
    requires i < |entries| && prev >= -1
    ensures var now, target := Partly(log, prev, entries, i), prev + 1 + i;
      Partly(log, prev, entries, i + 1) ==
        if target >= |now| then now + [entries[i]]
        else if now[target].term != entries[i].term then now[..target] + [entries[i]]
        else now
  {
    var r := FirstMissing(log, prev + 1, entries, 0);
    assert i <= r ==> (Held(log, prev + 1, entries, i) <==> i < r);
    if i >= r {
      var kept := log[..Min(prev + 1 + r, |log|)];
      assert entries[r..i + 1] == entries[r..i] + [entries[i]];
      assert kept + entries[r..i + 1] == (kept + entries[r..i]) + [entries[i]];
      assert i == r ==> kept + entries[r..i] == kept;
    }
  }

  // ------------------------------------------------------------------ what one message does

  /** Position `k` of the log holds an entry of another term than the message brings for it. */
  ghost predicate Differs(n: Node, m: AppendEntries, k: nat) {
    && m.prevLogIndex < k < |n.log| && k - m.prevLogIndex <= |m.entries|
    && n.log[k].term != m.entries[k - m.prevLogIndex - 1].term
  }

  ghost predicate SameUpTo(n: Node, m: AppendEntries, i: int) {
    forall k: nat :: k <= i ==> !Differs(n, m, k)
  }

  lemma AfterLog(n: Node, m: AppendEntries)
    requires InRange(n, m)
    ensures After(n, m).log ==
            if Accepts(n, m) && m.entries != [] then Merged(n.log, m.prevLogIndex + 1, m.entries) else n.log
  {
  }

  /** The first missing entry is where the log ends or differs. */
  lemma MissingDiffers(n: Node, m: AppendEntries, r: nat)
    requires m.prevLogIndex >= -1 && r == FirstMissing(n.log, m.prevLogIndex + 1, m.entries, 0) < |m.entries|
    ensures m.prevLogIndex + 1 + r >= |n.log| || Differs(n, m, m.prevLogIndex + 1 + r)
    ensures SameUpTo(n, m, m.prevLogIndex + r)
  {
    forall k: nat | k <= m.prevLogIndex + r ensures !Differs(n, m, k) {
      if k > m.prevLogIndex {
        assert Held(n.log, m.prevLogIndex + 1, m.entries, k - m.prevLogIndex - 1);
      }
    }
  }

  lemma NoneMissing(n: Node, m: AppendEntries)
    requires m.prevLogIndex >= -1 && m.entries != [] && FirstMissing(n.log, m.prevLogIndex + 1, m.entries, 0) == |m.entries|
    ensures m.prevLogIndex + |m.entries| < |n.log| && SameUpTo(n, m, |n.log|)
  {
    assert Held(n.log, m.prevLogIndex + 1, m.entries, |m.entries| - 1);
    forall k: nat | k <= |n.log| ensures !Differs(n, m, k) {
      if m.prevLogIndex < k && k - m.prevLogIndex <= |m.entries| {
        assert Held(n.log, m.prevLogIndex + 1, m.entries, k - m.prevLogIndex - 1);
      }
    }
  }

  /** No message removes or changes an entry unless the log differs there or before. */
  lemma EntrySurvives(n: Node, m: AppendEntries, i: nat)
    requires InRange(n, m) && i < |n.log| && SameUpTo(n, m, i)
    ensures i < |After(n, m).log| && After(n, m).log[i] == n.log[i]
  {
    AfterLog(n, m);
    if Accepts(n, m) && m.entries != [] {
      var r := FirstMissing(n.log, m.prevLogIndex + 1, m.entries, 0);
      if r < |m.entries| {
        MissingDiffers(n, m, r);
      }
    }
  }

  /** A message all of whose entries are held leaves the log alone. */
  lemma HeldChangesNothing(n: Node, m: AppendEntries)
    requires InRange(n, m) && SameUpTo(n, m, |n.log|) && m.prevLogIndex + |m.entries| < |n.log|
    ensures After(n, m).log == n.log
  {
    AfterLog(n, m);
    if Accepts(n, m) && m.entries != [] {
      var r := FirstMissing(n.log, m.prevLogIndex + 1, m.entries, 0);
      if r < |m.entries| {
        MissingDiffers(n, m, r);
      }
    }
  }

  /** The entry at `i` after an accepted message: the old one up to where the log differs, the message's from there on. */
  ghost predicate EntryIs(n: Node, m: AppendEntries, log: seq<LogEntry>, i: nat)
    requires i < |log|
  {
    if i < |n.log| && SameUpTo(n, m, i) then log[i] == n.log[i]
    else 0 <= i - m.prevLogIndex - 1 < |m.entries| && log[i] == m.entries[i - m.prevLogIndex - 1]
  }

  lemma CutThere(n: Node, m: AppendEntries, r: nat)
    requires InRange(n, m) && Accepts(n, m) && m.prevLogIndex < |n.log|
    requires m.entries != [] && r == FirstMissing(n.log, m.prevLogIndex + 1, m.entries, 0) < |m.entries|
    ensures var cut := m.prevLogIndex + 1 + r;
      && cut <= |n.log| && After(n, m).log == n.log[..cut] + m.entries[r..]
      && SameUpTo(n, m, cut - 1) && (cut < |n.log| ==> Differs(n, m, cut))
  {
    AfterLog(n, m);
    MissingDiffers(n, m, r);
    assert r > 0 ==> Held(n.log, m.prevLogIndex + 1, m.entries, r - 1);
  }

  lemma EntryAfterCut(n: Node, m: AppendEntries, r: nat, log: seq<LogEntry>, i: nat)
    requires m.prevLogIndex >= -1 && r < |m.entries| && i < |log|
    requires var cut := m.prevLogIndex + 1 + r;
      && cut <= |n.log| && log == n.log[..cut] + m.entries[r..]
      && SameUpTo(n, m, cut - 1) && (cut < |n.log| ==> Differs(n, m, cut))
    ensures EntryIs(n, m, log, i)
  {
    var cut := m.prevLogIndex + 1 + r;
    if i < cut {
      assert SameUpTo(n, m, i);
    } else {
      assert log[i] == m.entries[r..][i - cut];
    }
  }

  /** Exactly the log an accepted message without a gap leaves behind. */
  lemma LogExact(n: Node, m: AppendEntries)
    requires InRange(n, m) && Accepts(n, m) && m.entries != [] && m.prevLogIndex < |n.log|
    ensures var log, end := After(n, m).log, m.prevLogIndex + 1 + |m.entries|;
      && |log| == (if SameUpTo(n, m, |n.log|) && |n.log| > end then |n.log| else end)
      && forall i: nat :: i < |log| ==> EntryIs(n, m, log, i)
  {
    AfterLog(n, m);
    var log := After(n, m).log;
    var r := FirstMissing(n.log, m.prevLogIndex + 1, m.entries, 0);
    if r == |m.entries| {
      NoneMissing(n, m);
    } else {
      CutThere(n, m, r);
      forall i: nat | i < |log| ensures EntryIs(n, m, log, i) {
        EntryAfterCut(n, m, r, log, i);
      }
    }
  }

  /** Exactly when the commit index falls: when the log is cut below it by a message that announces a later commit. */
  lemma CommitFalls(n: Node, m: AppendEntries)
    requires InRange(n, m)
    ensures After(n, m).commitIndex < n.commitIndex
       <==> Accepts(n, m) && n.commitIndex < m.leaderCommit && |After(n, m).log| <= n.commitIndex
    ensures Accepts(n, m) && n.commitIndex < m.leaderCommit < |After(n, m).log| ==> After(n, m).commitIndex == m.leaderCommit
  {
  }

  /** And exactly when it is left pointing behind the log: when that is cut and no later commit is announced. */
  lemma CommitInLog(n: Node, m: AppendEntries)
    requires InRange(n, m) && n.commitIndex < |n.log|
    ensures After(n, m).commitIndex < |After(n, m).log|
       <==> !(Accepts(n, m) && m.leaderCommit <= n.commitIndex && |After(n, m).log| <= n.commitIndex)
  {
    AfterLog(n, m);
  }

  /** Hearing a message of its own or a later term makes any node a follower of that term. */
  lemma HeardFollows(n: Node, m: AppendEntries)
    requires InRange(n, m)
    ensures if m.term < n.currentTerm then After(n, m) == n
            else After(n, m).currentTerm == m.term && After(n, m).role == Follower
    ensures m.term > n.currentTerm ==> After(n, m).votedFor == ""
  {
  }

  /** Within a term a vote is kept if and only if the node was a follower already. */
  lemma VoteKept(n: Node, m: AppendEntries)
    requires InRange(n, m) && m.term == n.currentTerm && n.votedFor != ""
    ensures After(n, m).votedFor == n.votedFor <==> n.role == Follower
  {
  }

  // ------------------------------------------------------------------ redelivery

  /** Without a gap, a merged log holds every entry. */
  lemma MergedHolds(log: seq<LogEntry>, at: nat, entries: seq<LogEntry>, i: nat)
    requires at <= |log| && i < |entries|
    ensures Held(Merged(log, at, entries), at, entries, i)
  {
    var r := FirstMissing(log, at, entries, 0);
    if i < r {
      assert Held(log, at, entries, i);
    }
    if 0 < r {
      assert Held(log, at, entries, r - 1);
    }
  }

  /** Merging the same entries twice is merging them once, exactly when there was no gap. */
  lemma MergeTwice(log: seq<LogEntry>, at: nat, entries: seq<LogEntry>)
    ensures Merged(Merged(log, at, entries), at, entries) == Merged(log, at, entries) <==> entries == [] || at <= |log|
  {
    var once := Merged(log, at, entries);
    var s := FirstMissing(once, at, entries, 0);
    if entries != [] && at <= |log| {
      if s < |entries| {
        MergedHolds(log, at, entries, s);
      }
    } else if entries != [] {
      assert once == log + entries;
      if s > 0 {
        assert Held(once, at, entries, s - 1);
      }
      assert |Merged(once, at, entries)| > |once|;
    }
  }

  lemma AcceptsAgain(n: Node, m: AppendEntries)
    requires InRange(n, m) && m.prevLogIndex < |n.log| && Accepts(n, m)
    ensures Accepts(After(n, m), m)
  {
    if m.entries != [] {
      var r := FirstMissing(n.log, m.prevLogIndex + 1, m.entries, 0);
      assert 0 < r ==> Held(n.log, m.prevLogIndex + 1, m.entries, r - 1);
    }
  }

  /** Handling the same message again changes nothing. */
  lemma Redelivery(n: Node, m: AppendEntries)
    requires InRange(n, m) && m.prevLogIndex < |n.log|
    ensures After(After(n, m), m) == After(n, m)
  {
    if Accepts(n, m) {
      AcceptsAgain(n, m);
      assert NewLog(After(n, m).log, m.prevLogIndex, m.entries) == After(n, m).log by {
        if m.entries != [] {
          MergeTwice(n.log, m.prevLogIndex + 1, m.entries);
        }
      }
    }
  }

  // ------------------------------------------------------------------ runs

  /** The nodes, and for each term that had a leader the log that leader built. */
  datatype Cluster = Cluster(nodes: seq<Node>, leaders: map<int, seq<LogEntry>>)

  datatype Event =
    | Elected(node: nat, term: int)
    | Proposed(term: int, data: string)
    | Delivered(node: nat, m: AppendEntries)
    | Stirred(node: nat, as_: Node)

  /** The message carries a slice of the log its term's leader built. */
  ghost predicate Slice(leaders: map<int, seq<LogEntry>>, m: AppendEntries) {
    && m.term in leaders
    && -1 <= m.prevLogIndex && m.prevLogIndex + 1 + |m.entries| <= |leaders[m.term]|
    && m.entries == leaders[m.term][m.prevLogIndex + 1..m.prevLogIndex + 1 + |m.entries|]
    && (m.prevLogIndex >= 0 && m.prevLogIndex < |leaders[m.term]| ==>
          m.prevLogTerm == leaders[m.term][m.prevLogIndex].term)
  }

  /** The message brings no entry beyond the end of the log, or is rejected. */
  ghost predicate Lands(n: Node, m: AppendEntries) {
    m.prevLogIndex < |n.log| || m.entries == [] || !Accepts(n, m)
  }

  /**
   * One step. A node may become the leader of a term that has none, taking its log along; a leader
   * may append; any slice of any leader's log may reach any node at any time, however often, unless
   * its entries would land beyond the end of the receiver's log; and a node may change term (upwards), vote and role by itself.
   */
  ghost predicate Step(c: Cluster, e: Event, d: Cluster) {
    match e
    case Elected(i, term) =>
      && i < |c.nodes| && term !in c.leaders && term >= c.nodes[i].currentTerm
      && d == Cluster(c.nodes[i := c.nodes[i].(currentTerm := term, role := Leader)],
                      c.leaders[term := c.nodes[i].log])
    case Proposed(term, data) =>
      && term in c.leaders
      && d == c.(leaders := c.leaders[term := c.leaders[term] + [LogEntry(|c.leaders[term]|, term, data)]])
    case Delivered(i, m) =>
      && i < |c.nodes| && Slice(c.leaders, m) && Lands(c.nodes[i], m)
      && d == c.(nodes := c.nodes[i := After(c.nodes[i], m)])
    case Stirred(i, n) =>
      && i < |c.nodes| && n.currentTerm >= c.nodes[i].currentTerm
      && n.log == c.nodes[i].log && n.commitIndex == c.nodes[i].commitIndex
      && d == c.(nodes := c.nodes[i := n])
  }

  ghost predicate Initial(c: Cluster) {
    c.leaders == map[] && forall i :: 0 <= i < |c.nodes| ==> c.nodes[i].log == []
  }

  ghost predicate StepAt(run: seq<Cluster>, events: seq<Event>, i: nat)
    requires i < |events| && |run| == |events| + 1
  {
    Step(run[i], events[i], run[i + 1])
  }

  ghost predicate IsRun(run: seq<Cluster>, events: seq<Event>) {
    && |run| == |events| + 1 && Initial(run[0])
    && forall i: nat :: i < |events| ==> StepAt(run, events, i)
  }

  // ------------------------------------------------------------------ the invariant

  /** Up to its entry at `i`, the log is what the leader of that entry's term built. */
  ghost predicate AnchoredAt(log: seq<LogEntry>, leaders: map<int, seq<LogEntry>>, i: nat)
    requires i < |log|
  {
    log[i].term in leaders && i < |leaders[log[i].term]| && log[..i + 1] == leaders[log[i].term][..i + 1]
  }

  ghost predicate Anchored(log: seq<LogEntry>, leaders: map<int, seq<LogEntry>>) {
    forall i: nat :: i < |log| ==> AnchoredAt(log, leaders, i)
  }

  /** Entries know their own position. */
  ghost predicate Indexed(log: seq<LogEntry>) {
    forall i :: 0 <= i < |log| ==> log[i].index == i
  }

  ghost predicate LogOk(log: seq<LogEntry>, leaders: map<int, seq<LogEntry>>) {
    Anchored(log, leaders) && Indexed(log)
  }

  ghost predicate NodeOk(c: Cluster, i: nat)
    requires i < |c.nodes|
  {
    LogOk(c.nodes[i].log, c.leaders)
  }

  ghost predicate LeaderOk(c: Cluster, t: int) {
    t in c.leaders ==> LogOk(c.leaders[t], c.leaders)
  }

  ghost predicate ClusterOk(c: Cluster) {
    && (forall i: nat :: i < |c.nodes| ==> NodeOk(c, i))
    && (forall t :: LeaderOk(c, t))
  }

  /** Two logs that agree on a term agree up to there. */
  ghost predicate Match(a: seq<LogEntry>, b: seq<LogEntry>, i: nat) {
    i < |a| && i < |b| && a[i].term == b[i].term ==> a[..i + 1] == b[..i + 1]
  }

  lemma AnchoredMatch(a: seq<LogEntry>, b: seq<LogEntry>, leaders: map<int, seq<LogEntry>>, i: nat)
    requires Anchored(a, leaders) && Anchored(b, leaders)
    ensures Match(a, b, i)
  {
    if i < |a| && i < |b| {
      assert AnchoredAt(a, leaders, i) && AnchoredAt(b, leaders, i);
    }
  }

  lemma PrefixOk(log: seq<LogEntry>, leaders: map<int, seq<LogEntry>>, k: nat)
    requires LogOk(log, leaders) && k <= |log|
    ensures LogOk(log[..k], leaders)
  {
    forall i: nat | i < k ensures AnchoredAt(log[..k], leaders, i) {
      assert AnchoredAt(log, leaders, i);
      assert log[..k][..i + 1] == log[..i + 1];
    }
  }

  /** What a gap-free slice leaves behind: the old log, or a prefix of the leader's. */
  lemma MergedSlice(log: seq<LogEntry>, leaders: map<int, seq<LogEntry>>, lead: seq<LogEntry>, at: nat, count: nat)
    requires LogOk(log, leaders) && LogOk(lead, leaders)
    requires at <= |log| && at + count <= |lead| && log[..at] == lead[..at]
    ensures var merged := Merged(log, at, lead[at..at + count]);
      merged == log || merged == lead[..at + count]
  {
    var entries := lead[at..at + count];
    var r := FirstMissing(log, at, entries, 0);
    if r > 0 {
      assert Held(log, at, entries, r - 1);
      AnchoredMatch(log, lead, leaders, at + r - 1);
    }
    assert log[..at + r] == lead[..at + r];
    if r < count {
      assert entries[r..] == lead[at + r..at + count];
    }
  }

  /** A gap-free slice merged where the two logs agree on the term before it. */
  lemma MergeOk(log: seq<LogEntry>, leaders: map<int, seq<LogEntry>>, lead: seq<LogEntry>, at: nat, count: nat)
    requires LogOk(log, leaders) && LogOk(lead, leaders)
    requires at <= |log| && at + count <= |lead| && (at > 0 ==> log[at - 1].term == lead[at - 1].term)
    ensures LogOk(Merged(log, at, lead[at..at + count]), leaders)
  {
    if at > 0 {
      AnchoredMatch(log, lead, leaders, at - 1);
    }
    MergedSlice(log, leaders, lead, at, count);
    PrefixOk(lead, leaders, at + count);
  }

  lemma SliceOk(log: seq<LogEntry>, leaders: map<int, seq<LogEntry>>, m: AppendEntries)
    requires LogOk(log, leaders) && Slice(leaders, m) && LogOk(leaders[m.term], leaders)
    requires m.prevLogIndex < |log| && (m.prevLogIndex >= 0 ==> log[m.prevLogIndex].term == m.prevLogTerm)
    ensures LogOk(Merged(log, m.prevLogIndex + 1, m.entries), leaders)
  {
    var lead, at := leaders[m.term], m.prevLogIndex + 1;
    assert m.entries == lead[at..at + |m.entries|];
    MergeOk(log, leaders, lead, at, |m.entries|);
  }

  lemma DeliveredOk(n: Node, leaders: map<int, seq<LogEntry>>, m: AppendEntries)
    requires LogOk(n.log, leaders) && Slice(leaders, m) && LogOk(leaders[m.term], leaders) && Lands(n, m)
    ensures LogOk(After(n, m).log, leaders)
  {
    AfterLog(n, m);
    if Accepts(n, m) && m.entries != [] {
      SliceOk(n.log, leaders, m);
    }
  }

  ghost predicate Grown(leaders: map<int, seq<LogEntry>>, more: map<int, seq<LogEntry>>) {
    forall t :: t in leaders ==> t in more && leaders[t] <= more[t]
  }

  /** Logs stay sound when a leader log is added or extended. */
  lemma LeadersGrow(log: seq<LogEntry>, leaders: map<int, seq<LogEntry>>, more: map<int, seq<LogEntry>>)
    requires LogOk(log, leaders)
    requires Grown(leaders, more)
    ensures LogOk(log, more)
  {
    forall i: nat | i < |log| ensures AnchoredAt(log, more, i) {
      assert AnchoredAt(log, leaders, i);
      var t := log[i].term;
      assert leaders[t][..i + 1] == more[t][..i + 1];
    }
  }

  lemma ProposedOk(leaders: map<int, seq<LogEntry>>, term: int, data: string)
    requires term in leaders && LogOk(leaders[term], leaders)
    ensures var log := leaders[term] + [LogEntry(|leaders[term]|, term, data)];
      LogOk(log, leaders[term := log])
  {
    var log := leaders[term] + [LogEntry(|leaders[term]|, term, data)];
    var more := leaders[term := log];
    LeadersGrow(leaders[term], leaders, more);
    forall i: nat | i < |log| ensures AnchoredAt(log, more, i) {
      if i < |leaders[term]| {
        assert AnchoredAt(leaders[term], more, i);
        assert log[..i + 1] == leaders[term][..i + 1];
      }
    }
  }

  /** Only the leader logs change, and only the one of term `term` in a new way. */
  lemma LeadersOk(c: Cluster, d: Cluster, term: int)
    requires ClusterOk(c) && Grown(c.leaders, d.leaders)
    requires |d.nodes| == |c.nodes| && forall i :: 0 <= i < |d.nodes| ==> d.nodes[i].log == c.nodes[i].log
    requires forall t :: t in d.leaders && t != term ==> t in c.leaders && d.leaders[t] == c.leaders[t]
    requires term in d.leaders ==> LogOk(d.leaders[term], d.leaders)
    ensures ClusterOk(d)
  {
    forall i: nat | i < |d.nodes| ensures NodeOk(d, i) {
      assert NodeOk(c, i);
      LeadersGrow(c.nodes[i].log, c.leaders, d.leaders);
    }
    forall t ensures LeaderOk(d, t) {
      if t in d.leaders && t != term {
        assert LeaderOk(c, t);
        LeadersGrow(c.leaders[t], c.leaders, d.leaders);
      }
    }
  }

  /** Only one node changes, and its log stays sound. */
  lemma NodeChangeOk(c: Cluster, i: nat, n: Node)
    requires ClusterOk(c) && i < |c.nodes| && LogOk(n.log, c.leaders)
    ensures ClusterOk(c.(nodes := c.nodes[i := n]))
  {
    var d := c.(nodes := c.nodes[i := n]);
    forall j: nat | j < |d.nodes| ensures NodeOk(d, j) {
      assert NodeOk(c, j);
    }
    forall t ensures LeaderOk(d, t) {
      assert LeaderOk(c, t);
    }
  }

  lemma ElectedOk(c: Cluster, i: nat, n: Node, term: int)
    requires ClusterOk(c) && i < |c.nodes| && term !in c.leaders && n.log == c.nodes[i].log
    ensures ClusterOk(Cluster(c.nodes[i := n], c.leaders[term := n.log]))
  {
    assert NodeOk(c, i);
    LeadersGrow(n.log, c.leaders, c.leaders[term := n.log]);
    LeadersOk(c, Cluster(c.nodes[i := n], c.leaders[term := n.log]), term);
  }

  lemma LeaderAppends(c: Cluster, term: int, data: string)
    requires ClusterOk(c) && term in c.leaders
    ensures ClusterOk(c.(leaders := c.leaders[term := c.leaders[term] + [LogEntry(|c.leaders[term]|, term, data)]]))
  {
    assert LeaderOk(c, term);
    ProposedOk(c.leaders, term, data);
    LeadersOk(c, c.(leaders := c.leaders[term := c.leaders[term] + [LogEntry(|c.leaders[term]|, term, data)]]), term);
  }

  lemma DeliveryOk(c: Cluster, i: nat, m: AppendEntries)
    requires ClusterOk(c) && i < |c.nodes| && Slice(c.leaders, m) && Lands(c.nodes[i], m)
    ensures ClusterOk(c.(nodes := c.nodes[i := After(c.nodes[i], m)]))
  {
    assert NodeOk(c, i) && LeaderOk(c, m.term);
    DeliveredOk(c.nodes[i], c.leaders, m);
    NodeChangeOk(c, i, After(c.nodes[i], m));
  }

  lemma StepOk(c: Cluster, e: Event, d: Cluster)
    requires ClusterOk(c) && Step(c, e, d)
    ensures ClusterOk(d)
  {
    match e
    case Elected(i, term) =>
      ElectedOk(c, i, d.nodes[i], term);
    case Proposed(term, data) =>
      LeaderAppends(c, term, data);
    case Delivered(i, m) =>
      DeliveryOk(c, i, m);
    case Stirred(i, n) =>
      assert NodeOk(c, i);
      NodeChangeOk(c, i, n);
  }

  lemma {:induction false} RunOk(run: seq<Cluster>, events: seq<Event>, k: nat)
    requires IsRun(run, events) && k < |run|
    ensures ClusterOk(run[k])
  {
    if k > 0 {
      RunOk(run, events, k - 1);
      assert StepAt(run, events, k - 1);
      StepOk(run[k - 1], events[k - 1], run[k]);
    }
  }

  /** Log Matching: at every point of every run, any two nodes' logs match at every index. */
  lemma LogMatching(run: seq<Cluster>, events: seq<Event>, k: nat, i: nat, j: nat, x: nat)
    requires IsRun(run, events) && k < |run| && i < |run[k].nodes| && j < |run[k].nodes|
    ensures Match(run[k].nodes[i].log, run[k].nodes[j].log, x)
    ensures x < |run[k].nodes[i].log| ==> run[k].nodes[i].log[x].index == x
  {
    RunOk(run, events, k);
    assert NodeOk(run[k], i) && NodeOk(run[k], j);
    AnchoredMatch(run[k].nodes[i].log, run[k].nodes[j].log, run[k].leaders, x);
  }

  lemma HeardTerm(n: Node, m: AppendEntries)
    requires InRange(n, m)
    ensures n.currentTerm <= After(n, m).currentTerm
  {
  }

  /** Node `j` is as before or has become a node of no smaller term. */
  ghost predicate OneMoves(c: Cluster, d: Cluster, j: nat) {
    && j < |c.nodes| == |d.nodes| && d.nodes == c.nodes[j := d.nodes[j]]
    && c.nodes[j].currentTerm <= d.nodes[j].currentTerm
  }

  lemma StepMoves(c: Cluster, e: Event, d: Cluster)
    requires Step(c, e, d)
    ensures d.nodes == c.nodes || exists j: nat :: OneMoves(c, d, j)
  {
    match e
    case Elected(i, term) =>
      assert OneMoves(c, d, i);
    case Proposed(term, data) =>
    case Delivered(i, m) =>
      HeardTerm(c.nodes[i], m);
      assert OneMoves(c, d, i);
    case Stirred(i, n) =>
      assert OneMoves(c, d, i);
  }

  /** No node's term ever decreases. */
  lemma {:induction false} TermsGrow(run: seq<Cluster>, events: seq<Event>, j: nat, k: nat, i: nat)
    requires IsRun(run, events) && j <= k < |run| && i < |run[j].nodes|
    ensures |run[k].nodes| == |run[j].nodes| && run[j].nodes[i].currentTerm <= run[k].nodes[i].currentTerm
    decreases k - j
  {
    if j < k {
      TermsGrow(run, events, j, k - 1, i);
      assert StepAt(run, events, k - 1);
      StepMoves(run[k - 1], events[k - 1], run[k]);
    }
  }

  // ------------------------------------------------------------------ gaps

  /**
   * The handler itself accepts messages that leave a gap. For a slice of a leader's log, the
   * receiver's log stays sound exactly when no entry lands beyond its end.
   */
  lemma GapExact(n: Node, leaders: map<int, seq<LogEntry>>, m: AppendEntries)
    requires LogOk(n.log, leaders) && Slice(leaders, m) && LogOk(leaders[m.term], leaders)
    ensures LogOk(After(n, m).log, leaders) <==> Lands(n, m)
  {
    AfterLog(n, m);
    if Lands(n, m) {
      DeliveredOk(n, leaders, m);
    } else {
      Appended(n.log, m.prevLogIndex + 1, m.entries);
      assert m.entries[0] == leaders[m.term][m.prevLogIndex + 1];
      assert (n.log + m.entries)[|n.log|].index != |n.log|;
    }
  }

  lemma Appended(log: seq<LogEntry>, at: nat, entries: seq<LogEntry>)
    requires at >= |log|
    ensures Merged(log, at, entries) == log + entries
  {
    assert FirstMissing(log, at, entries, 0) == 0;
    assert log[..|log|] == log && entries[0..] == entries;
  }

  /** And a gap really breaks Log Matching: two nodes with the same term but different entries at index 0. */
  lemma GapBreaksMatching()
    ensures exists c: Cluster, m ::
      && ClusterOk(c) && |c.nodes| == 2 && Slice(c.leaders, m) && Accepts(c.nodes[1], m)
      && m.prevLogIndex >= |c.nodes[1].log|
      && !Match(c.nodes[0].log, After(c.nodes[1], m).log, 0)
  {
    var a, b := LogEntry(0, 1, "a"), LogEntry(1, 1, "b");
    var x, y := Node(1, "", Follower, [a], 0), Node(1, "", Follower, [], -1);
    var c := Cluster([x, y], map[1 := [a, b]]);
    var m := AppendEntries(1, "leader", 0, 1, [b], 0);
    assert AnchoredAt([a], c.leaders, 0) && AnchoredAt([a, b], c.leaders, 0) && AnchoredAt([a, b], c.leaders, 1);
    assert NodeOk(c, 0) && NodeOk(c, 1);
    forall t ensures LeaderOk(c, t) {
    }
    assert After(y, m).log == [b];
    assert [a][..1] == [a] && [b][..1] == [b];
    assert !Match(c.nodes[0].log, After(c.nodes[1], m).log, 0);
  }
}
