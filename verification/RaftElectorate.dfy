/** Who votes for a winner: on every run, each counted voter was not ahead of the winner. */
module RaftElectorate {
  import opened Bytes
  import opened RaftNode
  import opened RaftCluster
  import opened RaftVotes

  /** Event `c` starts the election `id` of node `a` for term `t`. */
  ghost predicate Starts(cs: seq<Cluster>, evs: seq<Event>, c: nat, a: PeerId, id: nat, t: Term)
  {
    c < |evs| && c < |cs| && CampaignsIn(cs[c], evs[c], a, t) && cs[c].clock == id
  }

  /** In state `x`, node `v` is not ahead of what node `a` is in state `y`. */
  ghost predicate NotAhead(x: Cluster, v: PeerId, y: Cluster, a: PeerId)
  {
    v in x.nodes && a in y.nodes
    && x.nodes[v].commitIndex <= y.nodes[a].commitIndex && x.nodes[v].lastApplied <= y.nodes[a].lastApplied
  }

  /** Event `i` grants `a` the vote of `v` for the election that event `c` started, and `v` was not ahead then. */
  ghost predicate GrantsAt(cs: seq<Cluster>, evs: seq<Event>, c: nat, i: nat, v: PeerId, a: PeerId, id: nat, t: Term)
  {
    c < i < |evs| && i < |cs| && Starts(cs, evs, c, a, id, t) && GrantsTo(evs[i], v, a, t)
    && evs[i].packet.body.election == id && NotAhead(cs[i], v, cs[c], a)
  }

  /** Such a grant lies before position `j`. */
  ghost predicate Backed(cs: seq<Cluster>, evs: seq<Event>, j: nat, v: PeerId, a: PeerId, id: nat, t: Term)
  {
    exists c: nat, i: nat :: i < j && GrantsAt(cs, evs, c, i, v, a, id, t)
  }

  lemma BackedLater(cs: seq<Cluster>, evs: seq<Event>, j: nat, v: PeerId, a: PeerId, id: nat, t: Term)
    requires Backed(cs, evs, j, v, a, id, t)
    ensures Backed(cs, evs, j + 1, v, a, id, t)
  {
  }

  /** No election is under way and no vote is asked for or promised. */
  ghost predicate Unasked(c: Cluster) { Quiet(c) && forall p :: p in c.net ==> !p.body.VoteRequest? }

  lemma {:induction false} SentRequest(c: Cluster, ev: Event, p: Packet)
    requires Enabled(c, ev) && p in Sent(c, ev) && p.body.VoteRequest?
    ensures ev == Campaign(p.from) && p.from in c.nodes && p.body.election == c.clock
    ensures CampaignsIn(c, ev, p.from, p.body.term)
    ensures p.body.commitIndex == c.nodes[p.from].commitIndex && p.body.lastApplied == c.nodes[p.from].lastApplied
  {
  }

  /** Every vote request in flight carries the indices that its sender had when it started the election. */
  lemma {:induction false} RequestIsHonest(cs: seq<Cluster>, evs: seq<Event>, j: nat, p: Packet) returns (c: nat)
    requires IsRun(cs, evs) && Unasked(cs[0]) && j < |cs| && p in cs[j].net && p.body.VoteRequest?
    ensures c < j && Starts(cs, evs, c, p.from, p.body.election, p.body.term)
    ensures p.body.commitIndex == cs[c].nodes[p.from].commitIndex
    ensures p.body.lastApplied == cs[c].nodes[p.from].lastApplied
  {
    assert StepsAt(cs, evs, j - 1);
    if p in cs[j - 1].net {
      c := RequestIsHonest(cs, evs, j - 1, p);
    } else {
      c := j - 1;
      SentRequest(cs[c], evs[c], p);
    }
  }

  /** Every grant of a run goes to a candidate whose indices were not behind when it started the election. */
  lemma {:induction false} GrantIsBacked(cs: seq<Cluster>, evs: seq<Event>, i: nat, v: PeerId, a: PeerId, t: Term)
    requires IsRun(cs, evs) && Unasked(cs[0]) && i < |evs| && GrantsTo(evs[i], v, a, t)
    ensures Backed(cs, evs, i + 1, v, a, evs[i].packet.body.election, t)
  {
    assert StepsAt(cs, evs, i);
    var p := evs[i].packet;
    var c := RequestIsHonest(cs, evs, i, p);
    FreeNodeGrants(cs[i].nodes[v], a, p.body.commitIndex, t, p.body.lastApplied);
    assert GrantsAt(cs, evs, c, i, v, a, p.body.election, t);
  }

  lemma {:induction false} SentGrant(c: Cluster, ev: Event, p: Packet)
    requires Enabled(c, ev) && p in Sent(c, ev) && p.body.VoteReply? && p.body.granted
    ensures GrantsTo(ev, p.from, p.to, p.body.asked) && ev.packet.body.election == p.body.election
  {
  }

  lemma {:induction false} ReplyIsBacked(cs: seq<Cluster>, evs: seq<Event>, j: nat, p: Packet)
    requires IsRun(cs, evs) && Unasked(cs[0]) && j < |cs| && p in cs[j].net && p.body.VoteReply? && p.body.granted
    ensures Backed(cs, evs, j, p.from, p.to, p.body.election, p.body.asked)
  {
    assert StepsAt(cs, evs, j - 1);
    if p in cs[j - 1].net {
      ReplyIsBacked(cs, evs, j - 1, p);
      BackedLater(cs, evs, j - 1, p.from, p.to, p.body.election, p.body.asked);
    } else {
      SentGrant(cs[j - 1], evs[j - 1], p);
      GrantIsBacked(cs, evs, j - 1, p.from, p.to, p.body.asked);
    }
  }

  lemma {:induction false} CountedVoter(c: Cluster, ev: Event, v: PeerId)
    requires Enabled(c, ev) && ElectionAfter(c, ev).Running? && v in ElectionAfter(c, ev).voters
    ensures var e, f := c.elections[Actor(ev)], ElectionAfter(c, ev);
            || (e.Running? && v in e.voters && e.id == f.id && e.term == f.term)
            || (ev.CountVote? && ev.packet.body.VoteReply? && ev.packet.body.granted && ev.packet.from == v
                && ev.packet.body.election == f.id && ev.packet.body.asked == f.term)
  {
  }

  lemma {:induction false} VoterIsBacked(cs: seq<Cluster>, evs: seq<Event>, j: nat, a: PeerId, v: PeerId)
    requires IsRun(cs, evs) && Unasked(cs[0]) && j < |cs| && a in cs[j].elections
    requires cs[j].elections[a].Running? && v in cs[j].elections[a].voters
    ensures Backed(cs, evs, j, v, a, cs[j].elections[a].id, cs[j].elections[a].term)
  {
    assert StepsAt(cs, evs, j - 1);
    var c, ev, e := cs[j - 1], evs[j - 1], cs[j].elections[a];
    if a != Actor(ev) {
      VoterIsBacked(cs, evs, j - 1, a, v);
      BackedLater(cs, evs, j - 1, v, a, e.id, e.term);
    } else {
      CountedVoter(c, ev, v);
      var d := c.elections[a];
      if d.Running? && v in d.voters && d.id == e.id && d.term == e.term {
        VoterIsBacked(cs, evs, j - 1, a, v);
      } else {
        ReplyIsBacked(cs, evs, j - 1, ev.packet);
      }
      BackedLater(cs, evs, j - 1, v, a, e.id, e.term);
    }
  }

  /** Every counted voter of a winner of term `t`, at least half of the winner's peers, had, when it granted, a commit
      index and a last applied index no greater than the winner's when it started that very election. */
  lemma {:induction false} WinnersVotersWereNotAhead(cs: seq<Cluster>, evs: seq<Event>, j: nat, a: PeerId, t: Term)
    requires IsRun(cs, evs) && Unasked(cs[0]) && j < |evs| && WinsIn(cs[j], evs[j], a, t)
    ensures a in cs[j].nodes && cs[j].elections[a].count >= Majority(cs[j], a)
    ensures cs[j].elections[a].count == |cs[j].elections[a].voters|
    ensures forall v :: v in cs[j].elections[a].voters ==> Backed(cs, evs, j, v, a, cs[j].elections[a].id, t)
  {
    assert StepsAt(cs, evs, j);
    SameNodes(cs, evs, j);
    RunKeepsElectionReal(cs, evs, j, a);
    forall v | v in cs[j].elections[a].voters
      ensures Backed(cs, evs, j, v, a, cs[j].elections[a].id, t)
    {
      VoterIsBacked(cs, evs, j, a, v);
    }
  }

  /** Conversely, a node without a vote, in no higher term and not ahead of the request, can only answer with a
      grant. */
  lemma {:induction false} FreeVoterGrants(c: Cluster, p: Packet, granted: bool)
    requires Enabled(c, AnswerVote(p, granted))
    requires var n := c.nodes[p.to];
             && n.votedFor == None && n.term <= p.body.term
             && n.commitIndex <= p.body.commitIndex && n.lastApplied <= p.body.lastApplied
    ensures granted && Step(c, AnswerVote(p, granted)).nodes[p.to].votedFor == Some(p.from)
    ensures Packet(p.stamp, p.to, p.from, VoteReply(p.body.election, p.body.term, true, p.body.term))
            in Step(c, AnswerVote(p, granted)).net
  {
    FreeNodeGrants(c.nodes[p.to], p.from, p.body.commitIndex, p.body.term, p.body.lastApplied);
  }
}
