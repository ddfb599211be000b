/** `GallocyLog`, `GallocyState` and the client callbacks as objects that change in place. Each method is proved to do
    to the node what the function of the same handler in RaftNode says. Every handler is one atomic step. */
module RaftState {
  import opened Bytes
  import opened RaftNode

  class GallocyLog {
    var log: seq<Entry>

    constructor ()
      ensures log == []
    {
      log := [];
    }

    method AppendEntry(entry: Entry) returns (index: nat)
      modifies this
      ensures log == old(log) + [entry] && index == |old(log)|
    {
      log := log + [entry];
      index := |log| - 1;
    }

    /** Some entry at or above the place where the scans below start is uncommitted; they count upwards, so without one
        they would run off the end of the log. */
    ghost predicate ScanStops()
      reads this
    {
      LastAsInt(log) >= 0 ==> exists j :: LastAsInt(log) <= j < |log| && !log[j].committed
    }

    method GetPreviousLogIndex() returns (index: nat)
      requires ScanStops()
      ensures LastAsInt(log) < 0 ==> index == 0
      ensures LastAsInt(log) >= 0 ==> LastAsInt(log) <= index < |log| && !log[index].committed
      ensures LastAsInt(log) >= 0 ==> forall k :: LastAsInt(log) <= k < index ==> log[k].committed
    {
      var i := LastAsInt(log);
      while i >= 0
        invariant LastAsInt(log) <= i
        invariant LastAsInt(log) < 0 ==> i == LastAsInt(log)
        invariant forall k :: LastAsInt(log) <= k < i && 0 <= k ==> k < |log| && log[k].committed
        decreases |log| - i
      {
        if !log[i].committed {
          return i;
        }
        i := i + 1;
      }
      index := 0;
    }

    method GetPreviousLogTerm() returns (term: Term)
      requires ScanStops()
      ensures LastAsInt(log) < 0 ==> term == 0
      ensures LastAsInt(log) >= 0 ==>
                exists i :: LastAsInt(log) <= i < |log| && !log[i].committed && term == log[i].term
                            && forall k :: LastAsInt(log) <= k < i ==> log[k].committed
    {
      var i := LastAsInt(log);
      while i >= 0
        invariant LastAsInt(log) <= i
        invariant LastAsInt(log) < 0 ==> i == LastAsInt(log)
        invariant forall k :: LastAsInt(log) <= k < i && 0 <= k ==> k < |log| && log[k].committed
        decreases |log| - i
      {
        if !log[i].committed {
          return log[i].term;
        }
        i := i + 1;
      }
      term := 0;
    }
  }

  class GallocyState {
    var currentTerm: Term
    var votedFor: Option<PeerId>
    var commitIndex: nat
    var lastApplied: nat
    var state: Role
    const log: GallocyLog

    /** The node that this object holds. */
    ghost function View(): (n: Node)
      reads this, log
    {
      Node(currentTerm, votedFor, commitIndex, lastApplied, log.log, state)
    }

    constructor ()
      ensures View() == Fresh && fresh(log)
    {
      currentTerm, votedFor, commitIndex, lastApplied, state := 0, None, 0, 0, Follower;
      log := new GallocyLog();
    }

    method SetCurrentTerm(value: Term)
      modifies this
      ensures View() == AdoptTerm(old(View()), value)
    {
      currentTerm := value;
      votedFor := None;
    }

    method SetVotedFor(value: Option<PeerId>)
      modifies this`votedFor
      ensures View() == old(View()).(votedFor := value)
    {
      votedFor := value;
    }

    method SetState(value: Role)
      modifies this`state
      ensures View() == old(View()).(role := value)
    {
      state := value;
    }

    method IncrementCurrentTerm() returns (term: Term)
      modifies this`currentTerm
      ensures View() == IncrementTerm(old(View())) && term == currentTerm
    {
      currentTerm := (currentTerm + 1) % U64;
      term := currentTerm;
    }

    method TryGrantVote(candidate: PeerId, candidateCommit: nat, candidateTerm: Term, candidateApplied: nat)
      returns (granted: bool)
      modifies this
      ensures granted == Grants(old(View()), candidate, candidateCommit, candidateTerm, candidateApplied)
      ensures View() == if granted then GrantVote(old(View()), candidate, candidateTerm) else old(View())
    {
      if candidateTerm < currentTerm {
        return false;
      } else if votedFor == None || votedFor == Some(candidate) {
        if candidateApplied >= lastApplied && candidateCommit >= commitIndex {
          SetCurrentTerm(candidateTerm);
          SetVotedFor(Some(candidate));
          return true;
        } else {
          return false;
        }
      }
      return false;
    }

    method TryApply() returns (applied: bool)
      modifies this`lastApplied
      ensures View() == Apply(old(View())) && (applied <==> old(commitIndex > lastApplied))
    {
      if commitIndex > lastApplied {
        lastApplied := lastApplied + 1;
        return true;
      }
      return false;
    }

    /** The loop over the leader's entries; `false` stands for the exception that leaves the handler. */
    method AppendEntries(entries: seq<Entry>, prevIndex: nat) returns (completed: bool)
      modifies log
      ensures AppendAll(old(log.log), entries, prevIndex) == Appended(log.log, !completed)
    {
      var i := 0;
      assert entries[0..] == entries;
      while i < |entries|
        invariant i <= |entries|
        invariant AppendAll(old(log.log), entries, prevIndex) == AppendAll(log.log, entries[i..], prevIndex)
      {
        if LastIndex(log.log) < prevIndex {
          return false;
        }
        assert entries[i..][1..] == entries[i + 1..];
        var _ := log.AppendEntry(entries[i]);
        i := i + 1;
      }
      return true;
    }

    method TryReplicateLog(leader: PeerId, m: AppendRequest) returns (verdict: Verdict)
      modifies this, log
      ensures verdict == ReplicateVerdict(old(View()), m)
      ensures View() == Replicate(old(View()), leader, m)
    {
      if m.term < currentTerm {
        return Rejected;
      }
      var completed := AppendEntries(m.entries, m.prevIndex);
      if !completed {
        return Aborted;
      }
      if m.leaderCommit > commitIndex {
        commitIndex := Min(m.leaderCommit, LastIndex(log.log));
      }
      SetCurrentTerm(m.term);
      SetState(Follower);
      SetVotedFor(Some(leader));
      var _ := TryApply();
      return Accepted(m.entries != []);
    }

    /** `request_vote_callback` on a response with status 200: does the reply count? */
    method RequestVoteCallback(granted: bool, supporterTerm: Term) returns (counted: bool)
      modifies this
      ensures View() == OnReply(old(View()), supporterTerm) && counted == granted
    {
      if supporterTerm > currentTerm {
        SetCurrentTerm(supporterTerm);
        SetState(Follower);
      }
      counted := granted;
    }

    /** `append_entries_callback`, the bookkeeping of next and match indices aside. */
    method AppendEntriesCallback(success: bool, supporterTerm: Term) returns (counted: bool)
      modifies this
      ensures View() == OnReply(old(View()), supporterTerm)
      ensures counted <==> success && supporterTerm <= old(currentTerm)
    {
      if supporterTerm > currentTerm {
        SetState(Follower);
        SetCurrentTerm(supporterTerm);
        return false;
      }
      return success;
    }

    /** The first half of `send_append_entries`: build the request, then append the entries to the own log. */
    method PrepareAppend(entries: seq<Entry>) returns (m: AppendRequest)
      requires NoneCommitted(log.log)
      modifies log
      ensures m == BuildRequest(old(View()), entries)
      ensures View() == AppendOwn(old(View()), entries)
    {
      assert LastAsInt(log.log) >= 0 ==> !log.log[LastAsInt(log.log)].committed;
      var prevIndex := log.GetPreviousLogIndex();
      var prevTerm := log.GetPreviousLogTerm();
      m := AppendRequest(entries, commitIndex, prevIndex, prevTerm, currentTerm);
      for i := 0 to |entries|
        invariant log.log == old(log.log) + entries[..i]
      {
        var _ := log.AppendEntry(entries[i]);
      }
      assert entries[..|entries|] == entries;
    }

    /** The second half: what happens once enough peers answered. */
    method FinishAppend()
      modifies this
      ensures View() == CommitAll(old(View()))
    {
      var idx := |log.log| - 1;
      if idx > 0 {
        commitIndex := idx;
      }
      var _ := TryApply();
    }

    /** `state_candidate` after a lost election, and the `set_state` in `work`. */
    method AbandonElection()
      modifies this
      ensures View() == LoseElection(old(View()))
    {
      SetVotedFor(None);
      SetState(Candidate);
    }
  }
}
