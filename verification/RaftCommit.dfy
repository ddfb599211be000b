/** What stands behind a commit: `send_append_entries` commits once enough peers answered its requests. */
module RaftCommit {
  import opened Bytes
  import opened RaftNode
  import opened RaftCluster
  import opened RaftVotes
  import opened RaftReplication

  // ----- requests and replies go back to what their senders did

  /** No AppendEntries and no reply to one is under way. */
  ghost predicate NoAppends(c: Cluster)
  {
    forall p :: p in c.net ==> !p.body.AppendEntries? && !p.body.AppendReply?
  }

  lemma {:induction false} SentAppend(c: Cluster, ev: Event, p: Packet)
    requires Enabled(c, ev) && p in Sent(c, ev) && p.body.AppendEntries?
    ensures ev == Send(p.from, p.body.request.entries) && p.stamp == c.clock && p.from in c.nodes
    ensures p.to in c.nodes && p.to != p.from && p.body.request == BuildRequest(c.nodes[p.from], p.body.request.entries)
  {
  }

  /** Every AppendEntries in flight carries its sender's term and commit index, and the index and the term of the last
      entry of its log, as they were when it was sent. */
  lemma {:induction false} AppendIsHonest(cs: seq<Cluster>, evs: seq<Event>, j: nat, p: Packet) returns (s: nat)
    requires IsRun(cs, evs) && NoAppends(cs[0]) && j < |cs| && p in cs[j].net && p.body.AppendEntries?
    ensures s < j && evs[s] == Send(p.from, p.body.request.entries) && cs[s].clock == p.stamp
    ensures p.from in cs[s].nodes && p.to in cs[s].nodes && p.to != p.from
    ensures var m, n := p.body.request, cs[s].nodes[p.from];
            && m.term == n.term && m.leaderCommit == n.commitIndex
            && (n.log == [] ==> m.prevIndex == 0 && m.prevTerm == 0)
            && (0 < |n.log| <= INT_RANGE / 2 ==>
                  m.prevIndex == |n.log| - 1 && m.prevTerm == n.log[|n.log| - 1].term)
  {
    assert StepsAt(cs, evs, j - 1);
    if p in cs[j - 1].net {
      s := AppendIsHonest(cs, evs, j - 1, p);
    } else {
      s := j - 1;
      SentAppend(cs[s], evs[s], p);
    }
  }

  lemma {:induction false} SentAppendReply(c: Cluster, ev: Event, p: Packet)
    requires Enabled(c, ev) && p in Sent(c, ev) && p.body.AppendReply?
    ensures ev.AnswerAppend? && ev.packet.to == p.from && ev.packet.from == p.to && ev.packet.stamp == p.stamp
    ensures p.body.success <==> ev.verdict == Accepted(true)
    ensures p.body.term == ActorAfter(c, ev).term && p.from in c.nodes
  {
  }

  /** Every reply to one carries the verdict of its sender on that very request, and its term behind it. */
  lemma {:induction false} ReplyIsHonest(cs: seq<Cluster>, evs: seq<Event>, j: nat, p: Packet) returns (d: nat)
    requires IsRun(cs, evs) && NoAppends(cs[0]) && j < |cs| && p in cs[j].net && p.body.AppendReply?
    ensures d < j && evs[d].AnswerAppend? && evs[d].packet.stamp == p.stamp
    ensures evs[d].packet.to == p.from && evs[d].packet.from == p.to
    ensures p.body.success <==> evs[d].verdict == Accepted(true)
    ensures p.from in cs[d + 1].nodes && p.body.term == cs[d + 1].nodes[p.from].term
  {
    assert StepsAt(cs, evs, j - 1);
    if p in cs[j - 1].net {
      d := ReplyIsHonest(cs, evs, j - 1, p);
    } else {
      d := j - 1;
      SentAppendReply(cs[d], evs[d], p);
    }
  }

  // ----- the answers that are counted

  /** Event `i` counts an answer of peer `q` to the requests that event `s` sent. */
  ghost predicate Counted(cs: seq<Cluster>, evs: seq<Event>, s: nat, i: nat, q: PeerId)
  {
    && s < i < |evs| < |cs| && evs[s].Send? && evs[i].CountAppend?
    && var p := evs[i].packet;
       && p.stamp == cs[s].clock && p.from == q && p.to == evs[s].node && p.to in cs[i].nodes
       && p.body.AppendReply? && p.body.success && p.body.term <= cs[i].nodes[p.to].term
  }

  /** An answer of `q` is counted before position `k`. */
  ghost predicate Supports(cs: seq<Cluster>, evs: seq<Event>, s: nat, k: nat, q: PeerId)
  {
    exists i: nat :: i < k && Counted(cs, evs, s, i, q)
  }

  ghost function Supporters(cs: seq<Cluster>, evs: seq<Event>, s: nat, k: nat): (qs: set<PeerId>)
    requires s < |cs|
  {
    set q | q in cs[s].nodes && Supports(cs, evs, s, k, q)
  }

  lemma {:induction false} UnbrokenAppend(log: seq<Entry>, entries: seq<Entry>, prevIndex: nat)
    requires !AppendAll(log, entries, prevIndex).aborted
    ensures AppendAll(log, entries, prevIndex).log == log + entries
    decreases |entries|
  {
    if entries == [] {
      assert log + entries == log;
    } else {
      UnbrokenAppend(log + [entries[0]], entries[1..], prevIndex);
      assert log + [entries[0]] + entries[1..] == log + entries;
    }
  }

  /** A counted peer has appended all entries of that send at once, and there were some: heartbeats are never
      counted. */
  lemma {:induction false} CountedAppended(cs: seq<Cluster>, evs: seq<Event>, s: nat, i: nat,
                                           q: PeerId) returns (d: nat)
    requires IsRun(cs, evs) && NoAppends(cs[0]) && Counted(cs, evs, s, i, q)
    ensures s < d < i && evs[d].AnswerAppend? && evs[d].packet.to == q && evs[d].packet.stamp == cs[s].clock
    ensures evs[d].packet in cs[d].net && Loaded(evs[d].packet) && q in cs[d].nodes && q in cs[d + 1].nodes
    ensures q != evs[s].node && evs[d].packet.body.request.entries == evs[s].entries != []
    ensures cs[d + 1].nodes[q].log == cs[d].nodes[q].log + evs[s].entries
  {
    assert StepsAt(cs, evs, i);
    d := ReplyIsHonest(cs, evs, i, evs[i].packet);
    assert StepsAt(cs, evs, d);
    var s' := AppendIsHonest(cs, evs, d, evs[d].packet);
    ClockCounts(cs, evs, s);
    ClockCounts(cs, evs, s');
    var m := evs[d].packet.body.request;
    UnbrokenAppend(cs[d].nodes[q].log, m.entries, m.prevIndex);
  }

  // ----- each peer is counted once

  /** The packet is the request with stamp `x` to `q`, or the reply to it. */
  predicate About(p: Packet, x: nat, q: PeerId)
  {
    p.stamp == x && ((p.body.AppendEntries? && p.to == q) || (p.body.AppendReply? && p.from == q))
  }

  /** At most one such packet is under way. */
  ghost predicate OneAbout(c: Cluster, x: nat, q: PeerId)
  {
    forall p, p' :: p in c.net && p' in c.net && About(p, x, q) && About(p', x, q) ==> p == p'
  }

  ghost predicate NoneAbout(c: Cluster, x: nat, q: PeerId)
  {
    forall p :: p in c.net ==> !About(p, x, q)
  }

  lemma {:induction false} NewAbout(c: Cluster, ev: Event, p: Packet, x: nat, q: PeerId)
    requires Enabled(c, ev) && p in Sent(c, ev) && About(p, x, q)
    ensures (ev.Send? && c.clock == x) || (ev.AnswerAppend? && About(ev.packet, x, q))
    ensures forall p' :: p' in Sent(c, ev) && About(p', x, q) ==> p' == p
  {
  }

  lemma {:induction false} StepKeepsOne(c: Cluster, ev: Event, x: nat, q: PeerId)
    requires Enabled(c, ev) && OneAbout(c, x, q) && (c.clock == x ==> NoneAbout(c, x, q))
    ensures OneAbout(Step(c, ev), x, q)
    ensures NoneAbout(c, x, q) && c.clock != x ==> NoneAbout(Step(c, ev), x, q)
    ensures ev.CountAppend? && About(ev.packet, x, q) ==> NoneAbout(Step(c, ev), x, q)
  {
    forall p | p in Sent(c, ev) && About(p, x, q)
      ensures (c.clock == x && NoneAbout(c, x, q)) || (ev.AnswerAppend? && About(ev.packet, x, q))
      ensures forall p' :: p' in Sent(c, ev) && About(p', x, q) ==> p' == p
    {
      NewAbout(c, ev, p, x, q);
    }
  }

  lemma {:induction false} NoneYet(cs: seq<Cluster>, evs: seq<Event>, j: nat, x: nat, q: PeerId)
    requires IsRun(cs, evs) && NoAppends(cs[0]) && j < |cs| && cs[j].clock <= x
    ensures NoneAbout(cs[j], x, q)
  {
    if j > 0 {
      ClockCounts(cs, evs, j);
      ClockCounts(cs, evs, j - 1);
      NoneYet(cs, evs, j - 1, x, q);
      assert StepsAt(cs, evs, j - 1);
      StepKeepsOne(cs[j - 1], evs[j - 1], x, q);
    }
  }

  lemma {:induction false} RunKeepsOne(cs: seq<Cluster>, evs: seq<Event>, j: nat, x: nat, q: PeerId)
    requires IsRun(cs, evs) && NoAppends(cs[0]) && j < |cs|
    ensures OneAbout(cs[j], x, q) && (cs[j].clock == x ==> NoneAbout(cs[j], x, q))
  {
    if cs[j].clock <= x {
      NoneYet(cs, evs, j, x, q);
    }
    if j > 0 {
      RunKeepsOne(cs, evs, j - 1, x, q);
      assert StepsAt(cs, evs, j - 1);
      StepKeepsOne(cs[j - 1], evs[j - 1], x, q);
    }
  }

  lemma {:induction false} NoneAgain(cs: seq<Cluster>, evs: seq<Event>, i: nat, j: nat, x: nat, q: PeerId)
    requires IsRun(cs, evs) && NoAppends(cs[0]) && i <= j < |cs| && cs[i].clock > x && NoneAbout(cs[i], x, q)
    ensures NoneAbout(cs[j], x, q)
    decreases j
  {
    if i < j {
      NoneAgain(cs, evs, i, j - 1, x, q);
      ClockCounts(cs, evs, i);
      ClockCounts(cs, evs, j - 1);
      RunKeepsOne(cs, evs, j - 1, x, q);
      assert StepsAt(cs, evs, j - 1);
      StepKeepsOne(cs[j - 1], evs[j - 1], x, q);
    }
  }

  /** No peer is counted twice, so `rsp_count` is the number of supporters. */
  lemma {:induction false} CountedOnce(cs: seq<Cluster>, evs: seq<Event>, s: nat, i: nat, j: nat, q: PeerId)
    requires IsRun(cs, evs) && NoAppends(cs[0]) && Counted(cs, evs, s, i, q) && Counted(cs, evs, s, j, q)
    ensures i == j
  {
    if i > j {
      CountedOnce(cs, evs, s, j, i, q);
    } else if i < j {
      var x := cs[s].clock;
      assert StepsAt(cs, evs, i) && StepsAt(cs, evs, j);
      ClockCounts(cs, evs, s);
      ClockCounts(cs, evs, i + 1);
      RunKeepsOne(cs, evs, i, x, q);
      StepKeepsOne(cs[i], evs[i], x, q);
      NoneAgain(cs, evs, i + 1, j, x, q);
      assert About(evs[j].packet, x, q);
    }
  }

  // ----- what a commit guarantees

  /** `raft_request` saw enough answers to the send `s`, and its caller then commits. */
  ghost predicate EndsRound(cs: seq<Cluster>, evs: seq<Event>, s: nat, k: nat)
  {
    && s < k < |evs| < |cs| && evs[s].Send? && evs[k] == Commit(evs[s].node)
    && |Supporters(cs, evs, s, k)| >= Majority(cs[s], evs[s].node)
  }

  /** No entries were sent from `i` to before `j`. */
  ghost predicate NothingSent(evs: seq<Event>, i: nat, j: nat)
    requires j <= |evs|
  {
    forall k :: i <= k < j && evs[k].Send? ==> evs[k].entries == []
  }

  lemma {:induction false} SenderIsNotAsked(cs: seq<Cluster>, evs: seq<Event>, k: nat, l: PeerId)
    requires IsRun(cs, evs) && NoAppends(cs[0]) && OnlySender(evs, l) && k < |evs|
    ensures evs[k].AnswerAppend? ==> evs[k].packet.to != l
  {
    assert StepsAt(cs, evs, k);
    if evs[k].AnswerAppend? {
      var s := AppendIsHonest(cs, evs, k, evs[k].packet);
    }
  }

  /** The sender's log grows at its own sends only. */
  lemma {:induction false} SenderLogStays(cs: seq<Cluster>, evs: seq<Event>, i: nat, j: nat, l: PeerId)
    requires IsRun(cs, evs) && NoAppends(cs[0]) && OnlySender(evs, l) && i <= j <= |evs| && l in cs[0].nodes
    ensures l in cs[i].nodes && l in cs[j].nodes
    ensures cs[j].nodes[l].log == cs[i].nodes[l].log <==> NothingSent(evs, i, j)
    decreases j
  {
    RunExtendsLog(cs, evs, i, j, l);
    if i < j {
      SenderLogStays(cs, evs, i, j - 1, l);
      RunExtendsLog(cs, evs, i, j - 1, l);
      RunStep(cs, evs, j - 1, l);
      SenderIsNotAsked(cs, evs, j - 1, l);
      if !evs[j - 1].Send? && Actor(evs[j - 1]) == l {
        OtherLogsStay(cs[j - 1], evs[j - 1]);
      }
    }
  }

  /** A node that takes a loaded packet in turn has the sender's log up to the end of the packet's entries. */
  lemma {:induction false} TakesStretch(cs: seq<Cluster>, evs: seq<Event>, d: nat, l: PeerId)
    requires OneSenderRun(cs, evs, l) && d < |evs| && InTurn(cs, evs, d + 1, l)
    requires evs[d].AnswerAppend? && Loaded(evs[d].packet)
    ensures var p := evs[d].packet;
            && p.to in cs[d].nodes && p.to in cs[d + 1].nodes && l in cs[d].nodes
            && End(cs, l, p) <= |cs[d].nodes[l].log|
            && (cs[d + 1].nodes[p.to].log == cs[d].nodes[p.to].log
                || cs[d + 1].nodes[p.to].log == cs[d].nodes[l].log[..End(cs, l, p)])
  {
    assert StepsAt(cs, evs, d);
    RunReplicates(cs, evs, d, l);
    assert Fits(cs, cs[d], l, evs[d].packet);
    LoadedAppends(cs, cs[d], l, evs[d]);
  }

  /** The entries of send `s` end where the sender's log ends behind it. */
  lemma {:induction false} SendEnds(cs: seq<Cluster>, evs: seq<Event>, s: nat, d: nat, l: PeerId, p: Packet)
    requires IsRun(cs, evs) && OnlySender(evs, l) && l in cs[0].nodes && s < d < |cs| && s < |evs| && evs[s].Send?
    requires Loaded(p) && p.stamp == cs[s].clock && p.body.request.entries == evs[s].entries
    ensures l in cs[s + 1].nodes && l in cs[d].nodes && End(cs, l, p) == |cs[s + 1].nodes[l].log|
    ensures cs[s + 1].nodes[l].log <= cs[d].nodes[l].log
  {
    ClockCounts(cs, evs, s);
    RunStep(cs, evs, s, l);
    RunExtendsLog(cs, evs, s + 1, d, l);
  }

  /** With one sender and in turn, a counted peer had just the sender's log as it was behind that send, and so has at
      least that ever after. */
  lemma {:induction false} CountedCaughtUp(cs: seq<Cluster>, evs: seq<Event>, s: nat, i: nat, j: nat, q: PeerId,
                                           l: PeerId)
    requires OneSenderRun(cs, evs, l) && NoAppends(cs[0]) && Counted(cs, evs, s, i, q) && i <= j < |cs|
    requires InTurn(cs, evs, i, l)
    ensures q in cs[j].nodes && l in cs[s + 1].nodes && cs[s + 1].nodes[l].log <= cs[j].nodes[q].log
  {
    var d := CountedAppended(cs, evs, s, i, q);
    TakesStretch(cs, evs, d, l);
    SendEnds(cs, evs, s, d, l, evs[d].packet);
    SameNodes(cs, evs, d);
    RunExtendsLog(cs, evs, d + 1, j, q);
  }

  /** Whatever is sent meanwhile: at every later time, all supporters still have the whole log of the sender as it was
      behind that send. */
  lemma {:induction false} SupportersHaveLog(cs: seq<Cluster>, evs: seq<Event>, s: nat, k: nat, j: nat, q: PeerId,
                                             l: PeerId)
    requires OneSenderRun(cs, evs, l) && NoAppends(cs[0]) && s < k <= j < |cs| && k <= |evs| && InTurn(cs, evs, k, l)
    requires q in Supporters(cs, evs, s, k)
    ensures q in cs[j].nodes && l in cs[s + 1].nodes && cs[s + 1].nodes[l].log <= cs[j].nodes[q].log
    ensures q != l
  {
    var i: nat :| i < k && Counted(cs, evs, s, i, q);
    CountedCaughtUp(cs, evs, s, i, j, q, l);
    var d := CountedAppended(cs, evs, s, i, q);
  }

  lemma {:induction false} SenderStaysValid(cs: seq<Cluster>, evs: seq<Event>, k: nat, l: PeerId)
    requires IsRun(cs, evs) && NoAppends(cs[0]) && OnlySender(evs, l) && l in cs[0].nodes && k < |cs|
    requires IndicesValid(cs[0].nodes[l])
    ensures l in cs[k].nodes && IndicesValid(cs[k].nodes[l])
  {
    forall i | 0 <= i < k
      ensures !TakesUncapped(cs[i], evs[i], l)
    {
      SenderIsNotAsked(cs, evs, i, l);
    }
    RunKeepsIndices(cs, evs, k, k, l);
  }

  /** The commit index then covers no more than what the supporters have if and only if no entries were sent since: the
      source commits up to the end of the log as it is after the wait. */
  lemma {:induction false} CommitCoversRound(cs: seq<Cluster>, evs: seq<Event>, s: nat, k: nat, l: PeerId)
    requires IsRun(cs, evs) && NoAppends(cs[0]) && OnlySender(evs, l) && l in cs[0].nodes
    requires IndicesValid(cs[0].nodes[l])
    requires s < k < |evs| && evs[s].Send? && evs[s].node == l && evs[s].entries != [] && evs[k] == Commit(l)
    ensures l in cs[s + 1].nodes && l in cs[k + 1].nodes
    ensures cs[k + 1].nodes[l].commitIndex == |cs[k + 1].nodes[l].log| - 1
    ensures cs[k + 1].nodes[l].commitIndex < |cs[s + 1].nodes[l].log| <==> NothingSent(evs, s + 1, k)
  {
    RunStep(cs, evs, s, l);
    RunStep(cs, evs, k, l);
    RunExtendsLog(cs, evs, s + 1, k, l);
    SenderLogStays(cs, evs, s + 1, k, l);
    SenderStaysValid(cs, evs, k, l);
  }

  /** Half of an even number of peers and the sender are more than half of the cluster. */
  lemma SupportIsMajority(c: Cluster, l: PeerId, qs: set<PeerId>)
    requires l in c.nodes && |qs| >= Majority(c, l) && l !in qs && OddSize(c)
    ensures 2 * |qs + {l}| > |c.nodes.Keys|
  {
    assert c.nodes.Keys == Peers(c, l) + {l};
    assert |qs + {l}| == |qs| + 1;
  }

  /** If nothing was sent meanwhile, the log that is committed is the one that was sent. */
  lemma {:induction false} CommitsWhatWasSent(cs: seq<Cluster>, evs: seq<Event>, s: nat, k: nat, l: PeerId)
    requires IsRun(cs, evs) && NoAppends(cs[0]) && OnlySender(evs, l) && l in cs[0].nodes
    requires IndicesValid(cs[0].nodes[l])
    requires s < k < |evs| && evs[k] == Commit(l) && NothingSent(evs, s + 1, k)
    ensures l in cs[s + 1].nodes && l in cs[k + 1].nodes
    ensures var n := cs[k + 1].nodes[l];
            n.log == cs[s + 1].nodes[l].log && IndicesValid(n) && (|n.log| > 1 ==> n.commitIndex == |n.log| - 1)
  {
    SenderStaysValid(cs, evs, k + 1, l);
    SenderLogStays(cs, evs, s + 1, k, l);
    RunStep(cs, evs, k, l);
  }

  lemma {:induction false} HoldersHaveLog(cs: seq<Cluster>, evs: seq<Event>, s: nat, k: nat, j: nat, l: PeerId)
    requires OneSenderRun(cs, evs, l) && NoAppends(cs[0]) && s < k < j < |cs| && InTurn(cs, evs, k, l)
    ensures l in cs[s + 1].nodes && l !in Supporters(cs, evs, s, k)
    ensures forall q :: q in Supporters(cs, evs, s, k) + {l} ==>
              q in cs[j].nodes && cs[s + 1].nodes[l].log <= cs[j].nodes[q].log
  {
    RunExtendsLog(cs, evs, s + 1, j, l);
    forall q | q in Supporters(cs, evs, s, k)
      ensures q in cs[j].nodes && q != l && cs[s + 1].nodes[l].log <= cs[j].nodes[q].log
    {
      SupportersHaveLog(cs, evs, s, k, j, q, l);
    }
  }

  /** In a cluster of odd size, with one sender and in turn: if a round ends with a commit and no entries were sent
      meanwhile, everything up to the new commit index is, then and ever after, in the logs of more than half of the
      nodes. */
  lemma {:induction false} CommitIsOnMajority(cs: seq<Cluster>, evs: seq<Event>, s: nat, k: nat, j: nat, l: PeerId)
    returns (holders: set<PeerId>)
    requires OneSenderRun(cs, evs, l) && NoAppends(cs[0]) && OddSize(cs[0]) && IndicesValid(cs[0].nodes[l])
    requires EndsRound(cs, evs, s, k) && NothingSent(evs, s + 1, k) && InTurn(cs, evs, k, l) && k < j < |cs|
    ensures l in cs[k + 1].nodes && 2 * |holders| > |cs[0].nodes.Keys|
    ensures var n := cs[k + 1].nodes[l];
            && IndicesValid(n) && (|n.log| > 1 ==> n.commitIndex == |n.log| - 1)
            && forall q :: q in holders ==> q in cs[j].nodes && n.log <= cs[j].nodes[q].log
  {
    holders := Supporters(cs, evs, s, k) + {l};
    SameNodes(cs, evs, s);
    CommitsWhatWasSent(cs, evs, s, k, l);
    HoldersHaveLog(cs, evs, s, k, j, l);
    SupportIsMajority(cs[0], l, Supporters(cs, evs, s, k));
  }
}
