/** Log replication with one sender: followers keep prefixes of its log, and committed entries agree, as long as no
    empty log takes a request out of turn. */
module RaftReplication {
  import opened Bytes
  import opened RaftNode
  import opened RaftCluster

  /** A packet that carries entries. Heartbeats carry none. */
  predicate Loaded(p: Packet) { p.body.AppendEntries? && p.body.request.entries != [] }

  /** The length of the log of `l` in the state of the history `cs` whose clock shows `stamp`: where the entries of a
      request with that stamp start. */
  ghost function Start(cs: seq<Cluster>, l: PeerId, stamp: nat): (n: nat)
  {
    if cs != [] && cs[0].clock <= stamp < cs[0].clock + |cs| && l in cs[stamp - cs[0].clock].nodes then
      |cs[stamp - cs[0].clock].nodes[l].log|
    else 0
  }

  ghost function End(cs: seq<Cluster>, l: PeerId, p: Packet): (n: nat)
    requires Loaded(p)
  {
    Start(cs, l, p.stamp) + |p.body.request.entries|
  }

  ghost predicate LogsArePrefixes(c: Cluster, l: PeerId)
  {
    l in c.nodes && forall n :: n in c.nodes ==> c.nodes[n].log <= c.nodes[l].log
  }

  /** The packet carries a stretch of the sender's log, and nothing that its receiver already has. */
  ghost predicate Fits(cs: seq<Cluster>, c: Cluster, l: PeerId, p: Packet)
    requires l in c.nodes
  {
    Loaded(p) ==>
      var start := Start(cs, l, p.stamp);
      && p.from == l && p.to != l
      && p.body.request.prevIndex == (if start == 0 then 0 else start - 1)
      && End(cs, l, p) <= |c.nodes[l].log| && p.body.request.entries == c.nodes[l].log[start..End(cs, l, p)]
      && (p.to in c.nodes ==> |c.nodes[p.to].log| <= start)
  }

  /** Two packets to one node carry different stretches. */
  ghost predicate Apart(cs: seq<Cluster>, l: PeerId, p: Packet, q: Packet)
  {
    Loaded(p) && Loaded(q) && p != q && p.to == q.to ==>
      End(cs, l, p) <= Start(cs, l, q.stamp) || End(cs, l, q) <= Start(cs, l, p.stamp)
  }

  ghost predicate Replicating(cs: seq<Cluster>, c: Cluster, l: PeerId)
  {
    && LogsArePrefixes(c, l)
    && (forall p :: p in c.net ==> Fits(cs, c, l, p))
    && (forall p, q :: p in c.net && q in c.net ==> Apart(cs, l, p, q))
  }

  /** A node whose log is still empty takes entries that were sent when the sender's log was not. Its guard lets them
      through because `size() - 1` is unsigned. */
  ghost predicate OutOfTurn(cs: seq<Cluster>, c: Cluster, ev: Event, l: PeerId)
  {
    && ev.AnswerAppend? && Loaded(ev.packet) && !ev.verdict.Rejected?
    && ev.packet.to in c.nodes && c.nodes[ev.packet.to].log == [] && Start(cs, l, ev.packet.stamp) > 0
  }

  // ----- one step

  lemma {:induction false} OnlySendLoads(c: Cluster, ev: Event, p: Packet)
    requires Enabled(c, ev) && p in Sent(c, ev) && Loaded(p)
    ensures ev.Send? && p.from == ev.node && p.to in c.nodes && p.to != ev.node
    ensures p == Packet(c.clock, ev.node, p.to, AppendEntries(BuildRequest(c.nodes[ev.node], ev.entries)))
  {
  }

  lemma {:induction false} OtherLogsStay(c: Cluster, ev: Event)
    requires Enabled(c, ev) && !ev.Send? && !(ev.AnswerAppend? && Loaded(ev.packet))
    ensures ActorAfter(c, ev).log == c.nodes[Actor(ev)].log
  {
  }

  lemma JoinPrefix(whole: seq<Entry>, a: seq<Entry>, b: seq<Entry>, end: nat)
    requires a <= whole && |a| <= end <= |whole| && b == whole[|a|..end]
    ensures a + b == whole[..end]
  {
  }

  /** A loaded request is either refused, with the log unchanged, or extends the log by just its entries. */
  lemma {:induction false} LoadedAppends(cs: seq<Cluster>, c: Cluster, l: PeerId, ev: Event)
    requires Enabled(c, ev) && ev.AnswerAppend? && Loaded(ev.packet) && !OutOfTurn(cs, c, ev, l)
    requires LogsArePrefixes(c, l) && Fits(cs, c, l, ev.packet)
    ensures var p, log := ev.packet, c.nodes[ev.packet.to].log;
            || ActorAfter(c, ev).log == log
            || (|log| == Start(cs, l, p.stamp) && ActorAfter(c, ev).log == c.nodes[l].log[..End(cs, l, p)])
  {
    var p, log := ev.packet, c.nodes[ev.packet.to].log;
    var m := p.body.request;
    if !ev.verdict.Rejected? {
      AppendAllAppends(log, m.entries, m.prevIndex);
      if |log| == Start(cs, l, p.stamp) {
        JoinPrefix(c.nodes[l].log, log, m.entries, End(cs, l, p));
      }
    }
  }

  lemma PrefixGrows(a: seq<Entry>, b: seq<Entry>, c: seq<Entry>)
    requires a <= b
    ensures a <= b + c
  {
  }

  lemma StretchGrows(b: seq<Entry>, c: seq<Entry>, i: nat, j: nat)
    requires i <= j <= |b|
    ensures (b + c)[i..j] == b[i..j]
  {
  }

  /** Steps that touch no log. */
  lemma {:induction false} QuietStepReplicates(cs: seq<Cluster>, c: Cluster, ev: Event, l: PeerId)
    requires Enabled(c, ev) && Replicating(cs, c, l) && !ev.Send? && !(ev.AnswerAppend? && Loaded(ev.packet))
    ensures Replicating(cs, Step(c, ev), l)
  {
    var r := Step(c, ev);
    OtherLogsStay(c, ev);
    assert forall n :: n in r.nodes ==> r.nodes[n].log == c.nodes[n].log;
    forall p | p in r.net && Loaded(p)
      ensures p in c.net
    {
      if p in Sent(c, ev) {
        OnlySendLoads(c, ev, p);
      }
    }
    SameLogsFit(cs, c, r, l);
  }

  /** What matters are the logs and the loaded packets. */
  lemma {:induction false} SameLogsFit(cs: seq<Cluster>, c: Cluster, r: Cluster, l: PeerId)
    requires Replicating(cs, c, l) && r.nodes.Keys == c.nodes.Keys
    requires forall n :: n in r.nodes ==> r.nodes[n].log == c.nodes[n].log
    requires forall p :: p in r.net && Loaded(p) ==> p in c.net
    ensures Replicating(cs, r, l)
  {
    forall p | p in r.net
      ensures Fits(cs, r, l, p)
    {
      assert Loaded(p) ==> Fits(cs, c, l, p);
    }
    forall p, q | p in r.net && q in r.net
      ensures Apart(cs, l, p, q)
    {
      assert Loaded(p) && Loaded(q) ==> Apart(cs, l, p, q);
    }
  }

  /** The sender adds entries and sends them out; the history shows where they start. */
  ghost predicate Sends(cs: seq<Cluster>, c: Cluster, ev: Event, l: PeerId)
  {
    && Enabled(c, ev) && ev.Send? && ev.node == l
    && |c.nodes[l].log| <= INT_RANGE / 2 && Start(cs, l, c.clock) == |c.nodes[l].log|
  }

  lemma {:induction false} SendFits(cs: seq<Cluster>, c: Cluster, ev: Event, l: PeerId, p: Packet)
    requires Replicating(cs, c, l) && Sends(cs, c, ev, l) && p in Step(c, ev).net
    ensures Fits(cs, Step(c, ev), l, p)
    ensures Loaded(p) && p !in c.net ==> Start(cs, l, p.stamp) == |c.nodes[l].log|
  {
    var log := c.nodes[l].log;
    if Loaded(p) {
      if p in c.net {
        assert Fits(cs, c, l, p);
        StretchGrows(log, ev.entries, Start(cs, l, p.stamp), End(cs, l, p));
      } else {
        OnlySendLoads(c, ev, p);
        assert (log + ev.entries)[|log|..|log| + |ev.entries|] == ev.entries;
      }
    }
  }

  lemma {:induction false} SendApart(cs: seq<Cluster>, c: Cluster, ev: Event, l: PeerId, p: Packet, q: Packet)
    requires Replicating(cs, c, l) && Sends(cs, c, ev, l) && p in Step(c, ev).net && q in Step(c, ev).net
    ensures Apart(cs, l, p, q)
  {
    if Loaded(p) && Loaded(q) && p.to == q.to {
      SendFits(cs, c, ev, l, p);
      SendFits(cs, c, ev, l, q);
      if p in c.net && q in c.net {
        assert Apart(cs, l, p, q);
      } else if p in c.net {
        assert Fits(cs, c, l, p);
      } else if q in c.net {
        assert Fits(cs, c, l, q);
      } else {
        OnlySendLoads(c, ev, p);
        OnlySendLoads(c, ev, q);
      }
    }
  }

  lemma {:induction false} SendReplicates(cs: seq<Cluster>, c: Cluster, ev: Event, l: PeerId)
    requires Replicating(cs, c, l) && Sends(cs, c, ev, l)
    ensures Replicating(cs, Step(c, ev), l)
  {
    var r := Step(c, ev);
    forall n | n in r.nodes
      ensures r.nodes[n].log <= r.nodes[l].log
    {
      PrefixGrows(c.nodes[n].log, c.nodes[l].log, ev.entries);
    }
    forall p | p in r.net
      ensures Fits(cs, r, l, p)
    {
      SendFits(cs, c, ev, l, p);
    }
    forall p, q | p in r.net && q in r.net
      ensures Apart(cs, l, p, q)
    {
      SendApart(cs, c, ev, l, p, q);
    }
  }

  /** A follower takes a loaded request. */
  lemma {:induction false} DeliveryFits(cs: seq<Cluster>, c: Cluster, ev: Event, l: PeerId, q: Packet)
    requires Enabled(c, ev) && Replicating(cs, c, l)
    requires ev.AnswerAppend? && Loaded(ev.packet) && !OutOfTurn(cs, c, ev, l)
    requires q in Step(c, ev).net
    ensures Fits(cs, Step(c, ev), l, q)
    ensures Loaded(q) ==> q in c.net
  {
    var p := ev.packet;
    assert Fits(cs, c, l, p);
    LoadedAppends(cs, c, l, ev);
    if Loaded(q) {
      if q in Sent(c, ev) {
        OnlySendLoads(c, ev, q);
      }
      assert Fits(cs, c, l, q) && Apart(cs, l, p, q);
    }
  }

  lemma {:induction false} DeliveryReplicates(cs: seq<Cluster>, c: Cluster, ev: Event, l: PeerId)
    requires Enabled(c, ev) && Replicating(cs, c, l)
    requires ev.AnswerAppend? && Loaded(ev.packet) && !OutOfTurn(cs, c, ev, l)
    ensures Replicating(cs, Step(c, ev), l)
  {
    var r := Step(c, ev);
    assert Fits(cs, c, l, ev.packet);
    LoadedAppends(cs, c, l, ev);
    forall q | q in r.net
      ensures Fits(cs, r, l, q) && (Loaded(q) ==> q in c.net)
    {
      DeliveryFits(cs, c, ev, l, q);
    }
    forall p, q | p in r.net && q in r.net
      ensures Apart(cs, l, p, q)
    {
      assert Loaded(p) && Loaded(q) ==> Apart(cs, l, p, q);
    }
  }

  // ----- whole runs

  /** Only `l` ever sends AppendEntries. */
  ghost predicate OnlySender(evs: seq<Event>, l: PeerId)
  {
    forall i :: 0 <= i < |evs| && evs[i].Send? ==> evs[i].node == l
  }

  /** The sender's log stays within the range of the `int` that get_previous_log_index counts with. */
  ghost predicate LogFitsInt(cs: seq<Cluster>, l: PeerId)
  {
    forall i :: 0 <= i < |cs| && l in cs[i].nodes ==> |cs[i].nodes[l].log| <= INT_RANGE / 2
  }

  /** Everybody starts with a prefix of the sender's log, and no AppendEntries with entries is under way. */
  ghost predicate ReadyToReplicate(c: Cluster, l: PeerId)
  {
    LogsArePrefixes(c, l) && c.elections.Keys == c.nodes.Keys && forall p :: p in c.net ==> !Loaded(p)
  }

  /** A cluster that has just started is ready. */
  lemma InitialIsReady(c: Cluster, l: PeerId)
    requires Initial(c) && l in c.nodes
    ensures ReadyToReplicate(c, l) && forall n :: n in c.nodes ==> IndicesValid(c.nodes[n])
  {
  }

  /** The runs that are looked at here. */
  ghost predicate OneSenderRun(cs: seq<Cluster>, evs: seq<Event>, l: PeerId)
  {
    IsRun(cs, evs) && OnlySender(evs, l) && LogFitsInt(cs, l) && ReadyToReplicate(cs[0], l)
  }

  /** No step before `j` is out of turn. */
  ghost predicate InTurn(cs: seq<Cluster>, evs: seq<Event>, j: nat, l: PeerId)
    requires j <= |evs| <= |cs|
  {
    forall k :: 0 <= k < j ==> !OutOfTurn(cs, cs[k], evs[k], l)
  }

  lemma {:induction false} ClockCounts(cs: seq<Cluster>, evs: seq<Event>, k: nat)
    requires IsRun(cs, evs) && k < |cs|
    ensures cs[k].clock == cs[0].clock + k
  {
    if k > 0 {
      ClockCounts(cs, evs, k - 1);
      assert StepsAt(cs, evs, k - 1);
    }
  }

  lemma {:induction false} StepReplicates(cs: seq<Cluster>, evs: seq<Event>, k: nat, l: PeerId)
    requires OneSenderRun(cs, evs, l) && k < |evs| && Replicating(cs, cs[k], l) && !OutOfTurn(cs, cs[k], evs[k], l)
    ensures Replicating(cs, cs[k + 1], l)
  {
    assert StepsAt(cs, evs, k);
    if evs[k].Send? {
      ClockCounts(cs, evs, k);
      SendReplicates(cs, cs[k], evs[k], l);
    } else if evs[k].AnswerAppend? && Loaded(evs[k].packet) {
      DeliveryReplicates(cs, cs[k], evs[k], l);
    } else {
      QuietStepReplicates(cs, cs[k], evs[k], l);
    }
  }

  lemma {:induction false} RunReplicates(cs: seq<Cluster>, evs: seq<Event>, j: nat, l: PeerId)
    requires OneSenderRun(cs, evs, l) && j < |cs| && InTurn(cs, evs, j, l)
    ensures Replicating(cs, cs[j], l)
  {
    if j > 0 {
      RunReplicates(cs, evs, j - 1, l);
      StepReplicates(cs, evs, j - 1, l);
    }
  }

  /** If only one node ever sends AppendEntries and each message is delivered at most once, in any order or not at all,
      every node keeps a prefix of that node's log, as long as no empty log takes a request out of turn. */
  lemma {:induction false} FollowersKeepPrefixes(cs: seq<Cluster>, evs: seq<Event>, j: nat, l: PeerId)
    requires OneSenderRun(cs, evs, l) && j < |cs| && InTurn(cs, evs, j, l)
    ensures LogsArePrefixes(cs[j], l) && cs[j].nodes.Keys == cs[0].nodes.Keys
  {
    RunReplicates(cs, evs, j, l);
    SameNodes(cs, evs, j);
  }

  /** In particular on every run from a fresh start. */
  lemma {:induction false} FreshFollowersKeepPrefixes(cs: seq<Cluster>, evs: seq<Event>, j: nat, l: PeerId)
    requires IsRun(cs, evs) && Initial(cs[0]) && l in cs[0].nodes && OnlySender(evs, l) && LogFitsInt(cs, l)
    requires j < |cs| && InTurn(cs, evs, j, l)
    ensures LogsArePrefixes(cs[j], l) && cs[j].nodes.Keys == cs[0].nodes.Keys
  {
    InitialIsReady(cs[0], l);
    FollowersKeepPrefixes(cs, evs, j, l);
  }

  /** What an empty log takes out of turn: the first entry of the request, or all of them if its previous index is 0. */
  function Misplaced(m: AppendRequest): (log: seq<Entry>)
    requires m.entries != []
  {
    if m.prevIndex > 0 then [m.entries[0]] else m.entries
  }

  lemma {:induction false} TakesMisplaced(cs: seq<Cluster>, c: Cluster, ev: Event, l: PeerId)
    requires Enabled(c, ev) && OutOfTurn(cs, c, ev, l) && ev.packet.body.request.prevIndex < U64
    ensures ActorAfter(c, ev).log == Misplaced(ev.packet.body.request)
  {
    var m := ev.packet.body.request;
    if m.prevIndex > 0 {
      EmptyLogTakesOne(m.entries, m.prevIndex);
    } else {
      AppendAllAppends([], m.entries, 0);
    }
  }

  /** The first step out of turn leaves prefixes behind exactly when the misplaced entries happen to be those that the
      sender's log starts with; so it breaks them whenever the first one differs. */
  lemma {:induction false} OutOfTurnBreaks(cs: seq<Cluster>, evs: seq<Event>, k: nat, l: PeerId)
    requires OneSenderRun(cs, evs, l) && k < |evs| && InTurn(cs, evs, k, l) && OutOfTurn(cs, cs[k], evs[k], l)
    ensures l in cs[k].nodes
    ensures var log, taken := cs[k].nodes[l].log, Misplaced(evs[k].packet.body.request);
            && (LogsArePrefixes(cs[k + 1], l) <==> taken <= log)
            && log != [] && (taken[0] != log[0] ==> !LogsArePrefixes(cs[k + 1], l))
  {
    RunReplicates(cs, evs, k, l);
    assert StepsAt(cs, evs, k);
    var c, ev := cs[k], evs[k];
    assert Fits(cs, c, l, ev.packet);
    TakesMisplaced(cs, c, ev, l);
    assert cs[k + 1].nodes[l] == c.nodes[l];
    assert cs[k + 1].nodes[ev.packet.to].log == Misplaced(ev.packet.body.request);
  }

  // ----- runs that start with non-empty logs

  ghost predicate NoLogEmpty(c: Cluster) { forall n :: n in c.nodes ==> c.nodes[n].log != [] }

  lemma {:induction false} NonEmptyStaysInTurn(cs: seq<Cluster>, evs: seq<Event>, j: nat, l: PeerId)
    requires IsRun(cs, evs) && j <= |evs| && NoLogEmpty(cs[0])
    ensures InTurn(cs, evs, j, l)
  {
    forall k | 0 <= k < j
      ensures !OutOfTurn(cs, cs[k], evs[k], l)
    {
      SameNodes(cs, evs, k);
      if evs[k].AnswerAppend? && evs[k].packet.to in cs[0].nodes {
        RunExtendsLog(cs, evs, 0, k, evs[k].packet.to);
      }
    }
  }

  /** If every log is non-empty at the start, nothing else is needed. */
  lemma {:induction false} NonEmptyFollowersKeepPrefixes(cs: seq<Cluster>, evs: seq<Event>, j: nat, l: PeerId)
    requires OneSenderRun(cs, evs, l) && j < |cs| && NoLogEmpty(cs[0])
    ensures LogsArePrefixes(cs[j], l) && cs[j].nodes.Keys == cs[0].nodes.Keys
  {
    NonEmptyStaysInTurn(cs, evs, j, l);
    FollowersKeepPrefixes(cs, evs, j, l);
  }

  // ----- committed entries

  /** On runs in turn, any two nodes whose commit indices are properly capped agree on every entry at or below both
      commit indices; index 0 may name no entry yet, if a log is still empty. */
  lemma {:induction false} CommittedEntriesAgree(cs: seq<Cluster>, evs: seq<Event>, j: nat, l: PeerId, a: PeerId,
                                                 b: PeerId,
                                                 i: nat)
    requires OneSenderRun(cs, evs, l) && j < |cs| && InTurn(cs, evs, j, l)
    requires a in cs[0].nodes && b in cs[0].nodes && IndicesValid(cs[0].nodes[a]) && IndicesValid(cs[0].nodes[b])
    requires forall k :: 0 <= k < j ==> !TakesUncapped(cs[k], evs[k], a) && !TakesUncapped(cs[k], evs[k], b)
    requires a in cs[j].nodes && b in cs[j].nodes
    requires i <= cs[j].nodes[a].commitIndex && i <= cs[j].nodes[b].commitIndex
    ensures var la, lb := cs[j].nodes[a].log, cs[j].nodes[b].log;
            i > 0 || (la != [] && lb != []) ==> i < |la| && i < |lb| && la[i] == lb[i]
  {
    RunKeepsIndices(cs, evs, j, j, a);
    RunKeepsIndices(cs, evs, j, j, b);
    FollowersKeepPrefixes(cs, evs, j, l);
  }

  lemma {:induction false} NonEmptyIsCapped(cs: seq<Cluster>, evs: seq<Event>, j: nat, v: PeerId)
    requires IsRun(cs, evs) && j < |evs| && v in cs[0].nodes && NoLogEmpty(cs[0])
    ensures !TakesUncapped(cs[j], evs[j], v)
  {
    RunExtendsLog(cs, evs, 0, j, v);
  }

  /** If every log is non-empty at the start, any two nodes agree on every entry at or below both commit indices. */
  lemma {:induction false} NonEmptyCommittedAgree(cs: seq<Cluster>, evs: seq<Event>, j: nat, l: PeerId, a: PeerId,
                                                  b: PeerId,
                                                  i: nat)
    requires OneSenderRun(cs, evs, l) && j < |cs| && NoLogEmpty(cs[0])
    requires a in cs[0].nodes && b in cs[0].nodes && IndicesValid(cs[0].nodes[a]) && IndicesValid(cs[0].nodes[b])
    requires a in cs[j].nodes && b in cs[j].nodes
    requires i <= cs[j].nodes[a].commitIndex && i <= cs[j].nodes[b].commitIndex
    ensures i < |cs[j].nodes[a].log| && i < |cs[j].nodes[b].log| && cs[j].nodes[a].log[i] == cs[j].nodes[b].log[i]
  {
    NonEmptyStaysInTurn(cs, evs, j, l);
    forall k | 0 <= k < j
      ensures !TakesUncapped(cs[k], evs[k], a) && !TakesUncapped(cs[k], evs[k], b)
    {
      NonEmptyIsCapped(cs, evs, k, a);
      NonEmptyIsCapped(cs, evs, k, b);
    }
    RunExtendsLog(cs, evs, 0, j, a);
    RunExtendsLog(cs, evs, 0, j, b);
    CommittedEntriesAgree(cs, evs, j, l, a, b, i);
  }

  // ----- the commit index of the sender bounds all others

  /** Only `l` ever commits on its own account. */
  ghost predicate OnlyCommitter(evs: seq<Event>, l: PeerId)
  {
    forall i :: 0 <= i < |evs| && evs[i].Commit? ==> evs[i].node == l
  }

  ghost predicate CommitBounded(c: Cluster, l: PeerId)
  {
    && l in c.nodes && (c.nodes[l].commitIndex == 0 || c.nodes[l].commitIndex < |c.nodes[l].log|)
    && (forall n :: n in c.nodes ==> c.nodes[n].commitIndex <= c.nodes[l].commitIndex)
    && (forall p :: p in c.net && p.body.AppendEntries? ==>
          p.to != l && p.body.request.leaderCommit <= c.nodes[l].commitIndex)
  }

  lemma {:induction false} ActorCommitBounded(c: Cluster, ev: Event, l: PeerId)
    requires Enabled(c, ev) && CommitBounded(c, l) && (ev.Commit? ==> ev.node == l)
    ensures var a, b := c.nodes[Actor(ev)], ActorAfter(c, ev);
            if Actor(ev) == l then
              a.commitIndex <= b.commitIndex && (b.commitIndex == 0 || b.commitIndex < |b.log|)
            else b.commitIndex <= c.nodes[l].commitIndex
  {
    if ev.AnswerAppend? {
      ReplicateCommits(c.nodes[ev.packet.to], ev.packet.from, ev.packet.body.request);
    }
  }

  lemma {:induction false} SentCommitBounded(c: Cluster, ev: Event, l: PeerId, p: Packet)
    requires Enabled(c, ev) && (ev.Send? ==> ev.node == l) && p in Sent(c, ev) && p.body.AppendEntries?
    ensures p.to != l && l in c.nodes && p.body.request.leaderCommit == c.nodes[l].commitIndex
    ensures ActorAfter(c, ev).commitIndex == c.nodes[l].commitIndex && Actor(ev) == l
  {
  }

  lemma {:induction false} StepCommitBounded(c: Cluster, ev: Event, l: PeerId)
    requires Enabled(c, ev) && CommitBounded(c, l) && (ev.Commit? ==> ev.node == l) && (ev.Send? ==> ev.node == l)
    ensures CommitBounded(Step(c, ev), l)
  {
    var r := Step(c, ev);
    ActorCommitBounded(c, ev, l);
    assert c.nodes[l].commitIndex <= r.nodes[l].commitIndex;
    forall p | p in r.net && p.body.AppendEntries?
      ensures p.to != l && p.body.request.leaderCommit <= r.nodes[l].commitIndex
    {
      if p !in c.net {
        SentCommitBounded(c, ev, l, p);
      }
    }
  }

  lemma {:induction false} RunCommitBounded(cs: seq<Cluster>, evs: seq<Event>, j: nat, l: PeerId)
    requires IsRun(cs, evs) && j < |cs| && OnlySender(evs, l) && OnlyCommitter(evs, l) && CommitBounded(cs[0], l)
    ensures CommitBounded(cs[j], l)
  {
    if j > 0 {
      RunCommitBounded(cs, evs, j - 1, l);
      assert StepsAt(cs, evs, j - 1);
      StepCommitBounded(cs[j - 1], evs[j - 1], l);
    }
  }

  /** On every run from a fresh start with one sender, who alone commits, no node's commit index ever exceeds the
      sender's. */
  lemma {:induction false} NobodyCommitsBeyondSender(cs: seq<Cluster>, evs: seq<Event>, j: nat, l: PeerId, n: PeerId)
    requires IsRun(cs, evs) && j < |cs| && Initial(cs[0]) && l in cs[0].nodes
    requires OnlySender(evs, l) && OnlyCommitter(evs, l) && n in cs[j].nodes
    ensures l in cs[j].nodes && cs[j].nodes[n].commitIndex <= cs[j].nodes[l].commitIndex
  {
    RunCommitBounded(cs, evs, j, l);
  }

  /** And a node that accepts a request commits as much of its log as the sender had committed when it sent it. */
  lemma {:induction false} AcceptingCatchesUp(cs: seq<Cluster>, evs: seq<Event>, k: nat)
    requires IsRun(cs, evs) && k < |evs| && evs[k].AnswerAppend? && evs[k].verdict.Accepted?
    ensures var v, m := evs[k].packet.to, evs[k].packet.body;
            && m.AppendEntries? && v in cs[k + 1].nodes
            && (m.request.leaderCommit < |cs[k + 1].nodes[v].log| ==>
                  cs[k + 1].nodes[v].commitIndex >= m.request.leaderCommit)
  {
    assert StepsAt(cs, evs, k);
    var p := evs[k].packet;
    ReplicateCommits(cs[k].nodes[p.to], p.from, p.body.request);
  }
}
