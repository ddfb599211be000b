/** One Raft node as a value, and what each handler does to it. Logs and log indices are unbounded numbers; the places
    where the source's `uint64_t` or `int` wraps are written out. */
module RaftNode {
  import opened Bytes

  const U64: int := 0x1_0000_0000_0000_0000
  const INT_RANGE: int := 0x1_0000_0000

  type Term = t: int | 0 <= t < 0x1_0000_0000_0000_0000

  type PeerId = nat

  datatype Role = Follower | Leader | Candidate

  datatype Entry = Entry(command: seq<Byte>, term: Term, committed: bool)

  /** `votedFor` is None where the source holds the default `Peer()`. */
  datatype Node = Node(term: Term, votedFor: Option<PeerId>, commitIndex: nat, lastApplied: nat, log: seq<Entry>,
                       role: Role)

  const Fresh: Node := Node(0, None, 0, 0, [], Follower)

  /** `set_current_term`: the vote is forgotten. */
  function AdoptTerm(n: Node, t: Term): (r: Node)
  {
    n.(term := t, votedFor := None)
  }

  /** `increment_current_term`: no vote for oneself, and the old vote stays. */
  function IncrementTerm(n: Node): (r: Node)
  {
    n.(term := (n.term + 1) % U64)
  }

  // ----- votes

  /** The conditions under which `try_grant_vote` grants. */
  predicate Grants(n: Node, candidate: PeerId, commitIndex: nat, term: Term, lastApplied: nat)
  {
    && n.term <= term
    && (n.votedFor == None || n.votedFor == Some(candidate))
    && n.lastApplied <= lastApplied && n.commitIndex <= commitIndex
  }

  function GrantVote(n: Node, candidate: PeerId, term: Term): (r: Node)
  {
    AdoptTerm(n, term).(votedFor := Some(candidate))
  }

  /** Both client callbacks: a peer with a higher term turns the node into a follower of that term. */
  function OnReply(n: Node, term: Term): (r: Node)
  {
    if term > n.term then AdoptTerm(n, term).(role := Follower) else n
  }

  /** A lost election clears the vote. */
  function LoseElection(n: Node): (r: Node)
  {
    n.(votedFor := None, role := Candidate)
  }

  // ----- the log

  /** `log.size() - 1`, which is unsigned. */
  function LastIndex(log: seq<Entry>): (i: nat)
  {
    if log == [] then U64 - 1 else |log| - 1
  }

  predicate NoneCommitted(log: seq<Entry>)
  {
    forall i :: 0 <= i < |log| ==> !log[i].committed
  }

  /** `int i = log.size() - 1`. */
  function LastAsInt(log: seq<Entry>): (i: int)
    ensures i < |log|
  {
    var low := (|log| - 1) % INT_RANGE;
    if low < INT_RANGE / 2 then low else low - INT_RANGE
  }

  /** `get_previous_log_index` on a log without committed entries. */
  function PreviousIndex(log: seq<Entry>): (i: nat)
    ensures log != [] ==> i < |log|
    ensures 0 < |log| <= INT_RANGE / 2 ==> i == |log| - 1
  {
    if LastAsInt(log) < 0 then 0 else LastAsInt(log)
  }

  function PreviousTerm(log: seq<Entry>): (t: Term)
  {
    if LastAsInt(log) < 0 then 0 else log[LastAsInt(log)].term
  }

  datatype Appended = Appended(log: seq<Entry>, aborted: bool)

  /** The loop of `try_replicate_log`. When the guard's first test holds, `log.at(prevIndex)` is past the end and
      throws; an empty log passes the test because its `size() - 1` is the largest number. */
  function AppendAll(log: seq<Entry>, entries: seq<Entry>, prevIndex: nat): (r: Appended)
    decreases |entries|
  {
    if entries == [] then Appended(log, false)
    else if LastIndex(log) < prevIndex then Appended(log, true)
    else AppendAll(log + [entries[0]], entries[1..], prevIndex)
  }

  function Min(a: nat, b: nat): (m: nat) { if a <= b then a else b }

  /** `try_apply`. */
  function Apply(n: Node): (r: Node)
  {
    if n.commitIndex > n.lastApplied then n.(lastApplied := n.lastApplied + 1) else n
  }

  datatype AppendRequest = AppendRequest(entries: seq<Entry>, leaderCommit: nat, prevIndex: nat, prevTerm: Term,
                                         term: Term)

  datatype Verdict = Rejected | Accepted(success: bool) | Aborted

  /** `try_replicate_log`. */
  function ReplicateVerdict(n: Node, m: AppendRequest): (v: Verdict)
  {
    if m.term < n.term then Rejected
    else if AppendAll(n.log, m.entries, m.prevIndex).aborted then Aborted
    else Accepted(m.entries != [])
  }

  function Replicate(n: Node, leader: PeerId, m: AppendRequest): (r: Node)
  {
    var log := AppendAll(n.log, m.entries, m.prevIndex).log;
    match ReplicateVerdict(n, m)
    case Rejected => n
    case Aborted => n.(log := log)
    case Accepted(_) =>
      var commit := if m.leaderCommit > n.commitIndex then Min(m.leaderCommit, LastIndex(log)) else n.commitIndex;
      Apply(n.(log := log, commitIndex := commit, term := m.term, role := Follower, votedFor := Some(leader)))
  }

  /** The leader's side of `send_append_entries`: the request is built from the log before the entries are added. */
  function BuildRequest(n: Node, entries: seq<Entry>): (m: AppendRequest)
  {
    AppendRequest(entries, n.commitIndex, PreviousIndex(n.log), PreviousTerm(n.log), n.term)
  }

  function AppendOwn(n: Node, entries: seq<Entry>): (r: Node)
  {
    n.(log := n.log + entries)
  }

  /** The end of `send_append_entries` when enough peers answered. */
  function CommitAll(n: Node): (r: Node)
  {
    Apply(if |n.log| > 1 then n.(commitIndex := |n.log| - 1) else n)
  }

  // ----- facts about single handlers

  /** Once the guard lets the first entry through a non-empty log, it lets all of them through. */
  lemma {:induction false} AppendAllAppends(log: seq<Entry>, entries: seq<Entry>, prevIndex: nat)
    requires log != [] || prevIndex == 0
    ensures var r := AppendAll(log, entries, prevIndex);
            && (r.aborted <==> entries != [] && log != [] && |log| <= prevIndex)
            && r.log == if r.aborted then log else log + entries
    decreases |entries|
  {
    if entries != [] && !(LastIndex(log) < prevIndex) {
      AppendAllAppends(log + [entries[0]], entries[1..], prevIndex);
      assert log + [entries[0]] + entries[1..] == log + entries;
    }
  }

  /** With an empty log and a positive previous index the first entry goes in and the second one throws. */
  lemma {:induction false} EmptyLogTakesOne(entries: seq<Entry>, prevIndex: nat)
    requires 0 < prevIndex < U64 && entries != []
    ensures AppendAll([], entries, prevIndex) == Appended([entries[0]], |entries| > 1)
  {
    assert [] + [entries[0]] == [entries[0]];
    var r := AppendAll([entries[0]], entries[1..], prevIndex);
    assert AppendAll([], entries, prevIndex) == r;
  }

  /** The request is not outdated, carries entries, and passes the guard with its previous index inside the log. */
  predicate AppendsInFull(n: Node, m: AppendRequest)
  {
    m.entries != [] && n.term <= m.term && (m.prevIndex < |n.log| || (n.log == [] && m.prevIndex == 0))
  }

  lemma {:induction false} FullAppend(n: Node, leader: PeerId, m: AppendRequest)
    requires AppendsInFull(n, m)
    ensures var r := Replicate(n, leader, m); r.log == n.log + m.entries && r.term == m.term && AppendsInFull(r, m)
  {
    AppendAllAppends(n.log, m.entries, m.prevIndex);
  }

  /** Otherwise nothing goes in the second time, whatever went in the first time. */
  lemma {:induction false} NoFullAppend(n: Node, leader: PeerId, m: AppendRequest)
    requires !AppendsInFull(n, m)
    ensures var r := Replicate(n, leader, m); Replicate(r, leader, m).log == r.log
  {
    if m.entries != [] && n.term <= m.term {
      if n.log != [] {
        AppendAllAppends(n.log, m.entries, m.prevIndex);
      } else if m.prevIndex < U64 {
        EmptyLogTakesOne(m.entries, m.prevIndex);
        AppendAllAppends([m.entries[0]], m.entries, m.prevIndex);
      }
    }
  }

  /** Nothing is deleted and nothing is recognised: a request that is delivered a second time changes the log again if
      and only if it was appended in full the first time, and then its entries are there twice. */
  lemma {:induction false} RedeliveryRepeats(n: Node, leader: PeerId, m: AppendRequest)
    ensures var r := Replicate(n, leader, m);
            && (Replicate(r, leader, m).log == r.log <==> !AppendsInFull(n, m))
            && (AppendsInFull(n, m) ==> Replicate(r, leader, m).log == n.log + m.entries + m.entries)
  {
    if AppendsInFull(n, m) {
      FullAppend(n, leader, m);
      FullAppend(Replicate(n, leader, m), leader, m);
    } else {
      NoFullAppend(n, leader, m);
    }
  }

  lemma {:induction false} AppendAllExtends(log: seq<Entry>, entries: seq<Entry>, prevIndex: nat)
    ensures log <= AppendAll(log, entries, prevIndex).log
    decreases |entries|
  {
    if entries != [] && !(LastIndex(log) < prevIndex) {
      AppendAllExtends(log + [entries[0]], entries[1..], prevIndex);
    }
  }

  lemma {:induction false} AppendAllStaysUncommitted(log: seq<Entry>, entries: seq<Entry>, prevIndex: nat)
    requires NoneCommitted(log) && NoneCommitted(entries)
    ensures NoneCommitted(AppendAll(log, entries, prevIndex).log)
    decreases |entries|
  {
    if entries != [] && !(LastIndex(log) < prevIndex) {
      AppendAllStaysUncommitted(log + [entries[0]], entries[1..], prevIndex);
    }
  }

  // ----- the indices of one node

  /** What the indices of a node are meant to satisfy. */
  predicate IndicesValid(n: Node)
  {
    n.lastApplied <= n.commitIndex && (n.commitIndex == 0 || n.commitIndex < |n.log|)
  }

  /** From `a` to `b` nothing went backwards. */
  predicate Grew(a: Node, b: Node)
  {
    |a.log| <= |b.log| && a.commitIndex <= b.commitIndex && a.lastApplied <= b.lastApplied
  }

  /** A request whose positive commit index meets a log that is still empty when the cap is computed. */
  predicate UncappedCommit(n: Node, m: AppendRequest)
  {
    n.log == [] && m.entries == [] && m.leaderCommit > n.commitIndex
  }

  /** Handling AppendEntries moves no index backwards, and it leaves the indices valid exactly when it does not take
      over a commit index that an empty log failed to cap. */
  lemma {:induction false} ReplicateKeepsIndices(n: Node, leader: PeerId, m: AppendRequest)
    requires IndicesValid(n)
    ensures var r := Replicate(n, leader, m);
            && Grew(n, r)
            && (IndicesValid(r) <==> !(ReplicateVerdict(n, m).Accepted? && UncappedCommit(n, m)))
  {
    AppendAllExtends(n.log, m.entries, m.prevIndex);
    if n.log == [] && m.entries != [] {
      AppendAllExtends([] + [m.entries[0]], m.entries[1..], m.prevIndex);
    }
  }

  /** What an accepted request does to the commit index: it takes over the leader's as far as the log reaches, and never
      more than that. A request that is not accepted leaves it alone. */
  lemma {:induction false} ReplicateCommits(n: Node, leader: PeerId, m: AppendRequest)
    ensures var r := Replicate(n, leader, m);
            && (n.commitIndex == 0 || n.commitIndex < |n.log| ==> n.commitIndex <= r.commitIndex)
            && (r.commitIndex > n.commitIndex ==> ReplicateVerdict(n, m).Accepted? && r.commitIndex <= m.leaderCommit)
            && (ReplicateVerdict(n, m).Accepted? && m.leaderCommit < |r.log| ==> r.commitIndex >= m.leaderCommit)
            && (r.commitIndex > n.commitIndex && r.log != [] ==> r.commitIndex < |r.log|)
  {
    var log := AppendAll(n.log, m.entries, m.prevIndex).log;
    AppendAllExtends(n.log, m.entries, m.prevIndex);
    if ReplicateVerdict(n, m).Accepted? && m.leaderCommit > n.commitIndex {
      assert Replicate(n, leader, m).commitIndex == Min(m.leaderCommit, LastIndex(log));
    }
  }

  /** The rest of it: the node becomes a follower of the sender in its term. */
  lemma ReplicateFollows(n: Node, leader: PeerId, m: AppendRequest)
    ensures var r := Replicate(n, leader, m);
            if ReplicateVerdict(n, m).Accepted? then
              r.term == m.term >= n.term && r.votedFor == Some(leader) && r.role == Follower
            else r.term == n.term && r.votedFor == n.votedFor && r.role == n.role
  {
  }

  // ----- single handlers and votes

  /** A node without a vote grants any request of no lower term whose indices are not behind its own; and whoever is
      granted is not behind. */
  lemma FreeNodeGrants(n: Node, candidate: PeerId, commitIndex: nat, term: Term, lastApplied: nat)
    ensures n.votedFor == None && term >= n.term && commitIndex >= n.commitIndex && lastApplied >= n.lastApplied ==>
              Grants(n, candidate, commitIndex, term, lastApplied)
    ensures term < n.term || commitIndex < n.commitIndex || lastApplied < n.lastApplied ==>
              !Grants(n, candidate, commitIndex, term, lastApplied)
    ensures n.votedFor.Some? && n.votedFor.value != candidate ==> !Grants(n, candidate, commitIndex, term, lastApplied)
  {
  }

  /** A reply of a higher term frees the vote: the node is then a follower of that term that grants any candidate of it
      who is not behind. A reply of no higher term changes nothing. */
  lemma HigherTermFreesVote(n: Node, t: Term, candidate: PeerId, commitIndex: nat, lastApplied: nat)
    requires commitIndex >= n.commitIndex && lastApplied >= n.lastApplied
    ensures t > n.term ==> Grants(OnReply(n, t), candidate, commitIndex, t, lastApplied)
    ensures t > n.term ==> OnReply(n, t).role == Follower && OnReply(n, t).log == n.log && OnReply(n, t).term == t
    ensures t <= n.term ==> OnReply(n, t) == n
  {
  }

  /** The `int` that the scans of the log start from: the 32-bit two's complement of the last index. */
  lemma LastAsIntIsInt32(log: seq<Entry>)
    ensures -0x8000_0000 <= LastAsInt(log) < 0x8000_0000 && (|log| - 1 - LastAsInt(log)) % 0x1_0000_0000 == 0
  {
  }
}
