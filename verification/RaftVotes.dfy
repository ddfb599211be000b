/** Votes: how long a grant binds a node, and when a term has at most one winner. The source's rules are weaker than
    section 5.2 of the Raft paper asks for, so both results name what has to stay away; RaftRuns shows that none of it
    can be left out. */
module RaftVotes {
  import opened Bytes
  import opened RaftNode
  import opened RaftCluster
  import Sets

  /** Node `v` grants its vote to `a` in term `t`. */
  predicate GrantsTo(ev: Event, v: PeerId, a: PeerId, t: Term)
  {
    ev.AnswerVote? && ev.granted && ev.packet.to == v && ev.packet.from == a
    && ev.packet.body.VoteRequest? && ev.packet.body.term == t
  }

  /** A vote of `v` for `a` in term `t` is overwritten by an accepted AppendEntries of that term from another node. */
  predicate TakesRival(ev: Event, v: PeerId, a: PeerId, t: Term)
  {
    ev.AnswerAppend? && ev.packet.to == v && ev.verdict.Accepted? && ev.packet.from != a
    && ev.packet.body.AppendEntries? && ev.packet.body.request.term == t
  }

  /** It is cleared when `v` loses an election while it is still in that term. */
  predicate LosesIn(c: Cluster, ev: Event, v: PeerId, t: Term)
  {
    ev == Lose(v) && v in c.nodes && c.nodes[v].term == t
  }

  /** The steps after which that vote no longer binds; a wrapped term leaves it behind. */
  predicate Unbinds(c: Cluster, ev: Event, v: PeerId, a: PeerId, t: Term)
  {
    TakesRival(ev, v, a, t) || LosesIn(c, ev, v, t) || WrapsTerm(c, ev, v)
  }

  /** The node still stands by its vote for `a` in term `t`, or has moved past that term. */
  predicate Bound(n: Node, a: PeerId, t: Term)
  {
    t < n.term || (t == n.term && n.votedFor == Some(a))
  }

  lemma {:induction false} ActorStaysBound(c: Cluster, ev: Event, a: PeerId, t: Term)
    requires Enabled(c, ev) && Bound(c.nodes[Actor(ev)], a, t) && !Unbinds(c, ev, Actor(ev), a, t)
    ensures Bound(ActorAfter(c, ev), a, t)
    ensures forall b :: GrantsTo(ev, Actor(ev), b, t) ==> b == a
  {
  }

  lemma {:induction false} GrantBinds(cs: seq<Cluster>, evs: seq<Event>, i: nat, v: PeerId, a: PeerId, t: Term)
    requires IsRun(cs, evs) && i < |evs| && GrantsTo(evs[i], v, a, t) && v in cs[0].nodes
    ensures v in cs[i + 1].nodes && Bound(cs[i + 1].nodes[v], a, t)
  {
    RunStep(cs, evs, i, v);
  }

  lemma {:induction false} StepStaysBound(cs: seq<Cluster>, evs: seq<Event>, k: nat, v: PeerId, a: PeerId, t: Term)
    requires IsRun(cs, evs) && k < |evs| && v in cs[0].nodes && v in cs[k].nodes && Bound(cs[k].nodes[v], a, t)
    requires !Unbinds(cs[k], evs[k], v, a, t)
    ensures v in cs[k + 1].nodes && Bound(cs[k + 1].nodes[v], a, t)
  {
    RunStep(cs, evs, k, v);
    if v == Actor(evs[k]) {
      ActorStaysBound(cs[k], evs[k], a, t);
    }
  }

  /** Some step from `i` to before `j` unbinds the vote. */
  ghost predicate Unbound(cs: seq<Cluster>, evs: seq<Event>, i: nat, j: nat, v: PeerId, a: PeerId, t: Term)
    requires j <= |evs| <= |cs|
  {
    exists k :: i <= k < j && Unbinds(cs[k], evs[k], v, a, t)
  }

  lemma {:induction false} UnboundLater(cs: seq<Cluster>, evs: seq<Event>, i: nat, j: nat, v: PeerId, a: PeerId,
                                        t: Term)
    requires i <= j < |evs| <= |cs|
    requires Unbound(cs, evs, i, j, v, a, t) || Unbinds(cs[j], evs[j], v, a, t)
    ensures Unbound(cs, evs, i, j + 1, v, a, t)
  {
  }

  lemma {:induction false} StaysBound(cs: seq<Cluster>, evs: seq<Event>, i: nat, j: nat, v: PeerId, a: PeerId, t: Term)
    requires IsRun(cs, evs) && i < j < |cs| && GrantsTo(evs[i], v, a, t) && v in cs[0].nodes
    ensures v in cs[j].nodes && (Bound(cs[j].nodes[v], a, t) || Unbound(cs, evs, i + 1, j, v, a, t))
    decreases j
  {
    if j == i + 1 {
      GrantBinds(cs, evs, i, v, a, t);
    } else {
      StaysBound(cs, evs, i, j - 1, v, a, t);
      SameNodes(cs, evs, j);
      if Unbound(cs, evs, i + 1, j - 1, v, a, t) || Unbinds(cs[j - 1], evs[j - 1], v, a, t) {
        UnboundLater(cs, evs, i + 1, j - 1, v, a, t);
      } else {
        StepStaysBound(cs, evs, j - 1, v, a, t);
      }
    }
  }

  /** On every run, two grants of one node in one term go to the same candidate unless between them the node accepts an
      AppendEntries of that term from another node, loses an election in that term, or wraps its term around. */
  lemma {:induction false} GrantsAgree(cs: seq<Cluster>, evs: seq<Event>, i: nat, j: nat, v: PeerId, a: PeerId,
                                       b: PeerId,
                                       t: Term)
    requires IsRun(cs, evs) && i < j < |evs| && GrantsTo(evs[i], v, a, t) && GrantsTo(evs[j], v, b, t)
    ensures a == b || Unbound(cs, evs, i + 1, j, v, a, t)
  {
    assert StepsAt(cs, evs, i) && StepsAt(cs, evs, j);
    SameNodes(cs, evs, i);
    StaysBound(cs, evs, i, j, v, a, t);
    if Bound(cs[j].nodes[v], a, t) {
      BoundGrants(cs[j], evs[j], v, a, b, t);
    }
  }

  lemma {:induction false} BoundGrants(c: Cluster, ev: Event, v: PeerId, a: PeerId, b: PeerId, t: Term)
    requires Enabled(c, ev) && GrantsTo(ev, v, b, t) && Bound(c.nodes[v], a, t)
    ensures a == b
  {
  }

  // ----- elections

  /** A grant of `v` to `a` in term `t` lies before position `j`. */
  ghost predicate Granted(evs: seq<Event>, j: nat, v: PeerId, a: PeerId, t: Term)
  {
    exists i :: 0 <= i < j && i < |evs| && GrantsTo(evs[i], v, a, t)
  }

  /** `a` has started an election for term `t` before position `j`. */
  ghost predicate Campaigned(cs: seq<Cluster>, evs: seq<Event>, j: nat, a: PeerId, t: Term)
  {
    exists i :: 0 <= i < j && i < |evs| && i < |cs| && CampaignsIn(cs[i], evs[i], a, t)
  }

  predicate CampaignsIn(c: Cluster, ev: Event, a: PeerId, t: Term)
  {
    ev == Campaign(a) && a in c.nodes && IncrementTerm(c.nodes[a]).term == t
  }

  /** Candidate `a` ends its election for term `t` with a majority. */
  predicate WinsIn(c: Cluster, ev: Event, a: PeerId, t: Term)
  {
    ev == Win(a) && a in c.elections && c.elections[a].Running? && c.elections[a].term == t
  }

  /** `rsp_count` is the number of distinct peers that were counted. */
  ghost predicate Tallied(e: Election, peers: set<PeerId>)
  {
    e.Running? ==> e.count == |e.voters| && e.voters !! e.pending && e.voters <= peers && e.pending <= peers
  }

  /** What counting the reply `p` makes of an election. */
  lemma CountKeepsTally(e: Election, x: PeerId, peers: set<PeerId>)
    requires e.Running? && Tallied(e, peers) && x in e.pending
    ensures Tallied(e.(pending := e.pending - {x}, count := e.count + 1, voters := e.voters + {x}), peers)
    ensures Tallied(e.(pending := e.pending - {x}), peers)
  {
  }

  /** Every counted vote and every positive reply under way goes back to a grant of the run. */
  ghost predicate ElectionIsReal(cs: seq<Cluster>, evs: seq<Event>, j: nat, a: PeerId)
    requires j < |cs|
  {
    a in cs[j].elections && (cs[j].elections[a].Running? ==>
      var e := cs[j].elections[a];
      && Tallied(e, Peers(cs[j], a))
      && (forall v :: v in e.voters ==> Granted(evs, j, v, a, e.term))
      && Campaigned(cs, evs, j, a, e.term))
  }

  ghost predicate RepliesAreReal(c: Cluster, evs: seq<Event>, j: nat)
  {
    forall p :: p in c.net && p.body.VoteReply? && p.body.granted ==> Granted(evs, j, p.from, p.to, p.body.asked)
  }

  /** No election is under way and no old positive reply is in the network. */
  ghost predicate Quiet(c: Cluster)
  {
    && (forall a :: a in c.elections ==> c.elections[a].Idle?)
    && (forall p :: p in c.net && p.body.VoteReply? ==> !p.body.granted)
    && c.elections.Keys == c.nodes.Keys
  }

  lemma GrantedLater(evs: seq<Event>, j: nat, v: PeerId, a: PeerId, t: Term)
    requires Granted(evs, j, v, a, t)
    ensures Granted(evs, j + 1, v, a, t)
  {
  }

  lemma CampaignedLater(cs: seq<Cluster>, evs: seq<Event>, j: nat, a: PeerId, t: Term)
    requires Campaigned(cs, evs, j, a, t)
    ensures Campaigned(cs, evs, j + 1, a, t)
  {
  }

  lemma {:induction false} SentReplyIsReal(c: Cluster, evs: seq<Event>, j: nat, p: Packet)
    requires j < |evs| && Enabled(c, evs[j]) && p in Sent(c, evs[j]) && p.body.VoteReply? && p.body.granted
    ensures Granted(evs, j + 1, p.from, p.to, p.body.asked)
  {
    assert GrantsTo(evs[j], p.from, p.to, p.body.asked);
  }

  lemma {:induction false} RunKeepsRepliesReal(cs: seq<Cluster>, evs: seq<Event>, j: nat)
    requires IsRun(cs, evs) && j < |cs| && Quiet(cs[0])
    ensures RepliesAreReal(cs[j], evs, j)
  {
    if j > 0 {
      RunKeepsRepliesReal(cs, evs, j - 1);
      var c, ev := cs[j - 1], evs[j - 1];
      assert StepsAt(cs, evs, j - 1);
      forall p | p in cs[j].net && p.body.VoteReply? && p.body.granted
        ensures Granted(evs, j, p.from, p.to, p.body.asked)
      {
        if p in c.net {
          GrantedLater(evs, j - 1, p.from, p.to, p.body.asked);
        } else {
          SentReplyIsReal(c, evs, j - 1, p);
        }
      }
    }
  }

  /** An election that the step leaves alone stays real. */
  lemma {:induction false} UntouchedStaysReal(cs: seq<Cluster>, evs: seq<Event>, j: nat, a: PeerId)
    requires j + 1 < |cs| && ElectionIsReal(cs, evs, j, a)
    requires a in cs[j + 1].elections && cs[j + 1].elections[a] == cs[j].elections[a]
    requires cs[j + 1].nodes.Keys == cs[j].nodes.Keys
    ensures ElectionIsReal(cs, evs, j + 1, a)
  {
    if cs[j].elections[a].Running? {
      var e := cs[j].elections[a];
      CampaignedLater(cs, evs, j, a, e.term);
      forall v | v in e.voters
        ensures Granted(evs, j + 1, v, a, e.term)
      {
        GrantedLater(evs, j, v, a, e.term);
      }
    }
  }

  /** Counting a positive reply adds one voter, who was not counted before. */
  lemma {:induction false} CountedStaysReal(cs: seq<Cluster>, evs: seq<Event>, j: nat, p: Packet)
    requires j + 1 < |cs| && j < |evs| && ElectionIsReal(cs, evs, j, p.to) && Counts(cs[j].elections[p.to], p)
    requires p.body.granted ==> Granted(evs, j, p.from, p.to, p.body.asked)
    requires Enabled(cs[j], CountVote(p)) && cs[j + 1] == Step(cs[j], CountVote(p))
    ensures ElectionIsReal(cs, evs, j + 1, p.to)
  {
    var a := p.to;
    var e, f := cs[j].elections[a], cs[j + 1].elections[a];
    assert f == ElectionAfter(cs[j], CountVote(p));
    CountKeepsTally(e, p.from, Peers(cs[j], a));
    CampaignedLater(cs, evs, j, a, e.term);
    forall v | v in f.voters
      ensures Granted(evs, j + 1, v, a, f.term)
    {
      GrantedLater(evs, j, v, a, e.term);
    }
  }

  lemma {:induction false} CampaignIsReal(cs: seq<Cluster>, evs: seq<Event>, j: nat, a: PeerId)
    requires j + 1 < |cs| && j < |evs| && evs[j] == Campaign(a)
    requires Enabled(cs[j], evs[j]) && cs[j + 1] == Step(cs[j], evs[j])
    ensures ElectionIsReal(cs, evs, j + 1, a)
  {
    assert CampaignsIn(cs[j], evs[j], a, cs[j + 1].elections[a].term);
  }

  lemma {:induction false} RunKeepsElectionReal(cs: seq<Cluster>, evs: seq<Event>, j: nat, a: PeerId)
    requires IsRun(cs, evs) && j < |cs| && Quiet(cs[0]) && a in cs[0].nodes
    ensures ElectionIsReal(cs, evs, j, a)
  {
    if j > 0 {
      RunKeepsElectionReal(cs, evs, j - 1, a);
      RunKeepsRepliesReal(cs, evs, j - 1);
      var c, ev := cs[j - 1], evs[j - 1];
      assert StepsAt(cs, evs, j - 1);
      if cs[j].elections[a] == c.elections[a] {
        UntouchedStaysReal(cs, evs, j - 1, a);
      } else if ev.Campaign? {
        CampaignIsReal(cs, evs, j - 1, a);
      } else if ev.CountVote? {
        CountedStaysReal(cs, evs, j - 1, ev.packet);
      }
    }
  }

  /** No voter of `a` in term `t` later accepts an AppendEntries of that term from another node. */
  ghost predicate NoRivals(evs: seq<Event>, a: PeerId, t: Term)
  {
    forall i, k, v {:trigger GrantsTo(evs[i], v, a, t), evs[k]} ::
      0 <= i < k < |evs| && GrantsTo(evs[i], v, a, t) ==> !TakesRival(evs[k], v, a, t)
  }

  /** No voter of `a` in term `t` later loses an election while it is in that term. */
  ghost predicate NoLosers(cs: seq<Cluster>, evs: seq<Event>, a: PeerId, t: Term)
    requires |evs| <= |cs|
  {
    forall i, k, v {:trigger GrantsTo(evs[i], v, a, t), evs[k]} ::
      0 <= i < k < |evs| && GrantsTo(evs[i], v, a, t) ==> !LosesIn(cs[k], evs[k], v, t)
  }

  /** No voter of `a` in term `t` later wraps its term around. */
  ghost predicate NoWraps(cs: seq<Cluster>, evs: seq<Event>, a: PeerId, t: Term)
    requires |evs| <= |cs|
  {
    forall i, k, v {:trigger GrantsTo(evs[i], v, a, t), evs[k]} ::
      0 <= i < k < |evs| && GrantsTo(evs[i], v, a, t) ==> !WrapsTerm(cs[k], evs[k], v)
  }

  /** Neither of the two grants the other one's request in term `t`. */
  ghost predicate Strangers(evs: seq<Event>, a: PeerId, b: PeerId, t: Term)
  {
    !Granted(evs, |evs|, a, b, t) && !Granted(evs, |evs|, b, a, t)
  }

  predicate OddSize(c: Cluster) { |c.nodes.Keys| % 2 == 1 }

  lemma {:induction false} VotesOnce(cs: seq<Cluster>, evs: seq<Event>, i: nat, j: nat, v: PeerId, a: PeerId,
                                     b: PeerId, t: Term)
    requires IsRun(cs, evs) && NoRivals(evs, a, t) && NoLosers(cs, evs, a, t) && NoWraps(cs, evs, a, t)
    requires i < j < |evs| && GrantsTo(evs[i], v, a, t) && GrantsTo(evs[j], v, b, t)
    ensures a == b
  {
    GrantsAgree(cs, evs, i, j, v, a, b, t);
  }

  lemma {:induction false} NobodyVotesTwice(cs: seq<Cluster>, evs: seq<Event>, v: PeerId, a: PeerId, b: PeerId, t: Term)
    requires IsRun(cs, evs)
    requires NoRivals(evs, a, t) && NoLosers(cs, evs, a, t) && NoWraps(cs, evs, a, t)
    requires NoRivals(evs, b, t) && NoLosers(cs, evs, b, t) && NoWraps(cs, evs, b, t)
    requires Granted(evs, |evs|, v, a, t) && Granted(evs, |evs|, v, b, t)
    ensures a == b
  {
    var i :| 0 <= i < |evs| && GrantsTo(evs[i], v, a, t);
    var j :| 0 <= j < |evs| && GrantsTo(evs[j], v, b, t);
    if i < j {
      VotesOnce(cs, evs, i, j, v, a, b, t);
    } else if j < i {
      VotesOnce(cs, evs, j, i, v, b, a, t);
    }
  }

  lemma GrantedByEnd(evs: seq<Event>, j: nat, v: PeerId, a: PeerId, t: Term)
    requires Granted(evs, j, v, a, t)
    ensures Granted(evs, |evs|, v, a, t)
  {
  }

  /** The voters of a winner: at least half of its peers, each with a grant in the run, and the winner had
      campaigned. */
  lemma {:induction false} WinnerHasVoters(cs: seq<Cluster>, evs: seq<Event>, i: nat, a: PeerId, t: Term)
    returns (voters: set<PeerId>)
    requires IsRun(cs, evs) && Quiet(cs[0]) && i < |evs| && WinsIn(cs[i], evs[i], a, t)
    ensures a in cs[0].nodes && voters <= cs[0].nodes.Keys - {a} && |voters| >= |cs[0].nodes.Keys - {a}| / 2
    ensures forall v :: v in voters ==> Granted(evs, |evs|, v, a, t)
    ensures Campaigned(cs, evs, |evs|, a, t)
  {
    assert StepsAt(cs, evs, i);
    SameNodes(cs, evs, i);
    RunKeepsElectionReal(cs, evs, i, a);
    voters := cs[i].elections[a].voters;
    forall v | v in voters
      ensures Granted(evs, |evs|, v, a, t)
    {
      GrantedByEnd(evs, i, v, a, t);
    }
  }

  lemma Pigeonhole(all: set<PeerId>, a: PeerId, b: PeerId, va: set<PeerId>, vb: set<PeerId>)
    requires a in all && b in all && a != b && |all| % 2 == 1
    requires va <= all - {a, b} && vb <= all - {a, b}
    requires |va| >= |all - {a}| / 2 && |vb| >= |all - {b}| / 2
    ensures va * vb != {}
  {
    assert |all - {a}| == |all| - 1 && |all - {b}| == |all| - 1;
    assert all - {a, b} == all - {a} - {b};
    assert |all - {a, b}| == |all| - 2;
    if va * vb == {} {
      assert |va + vb| == |va| + |vb|;
      Sets.SubsetSize(va + vb, all - {a, b});
    }
  }

  /** In a cluster of odd size, two winners of one term are the same node unless one of them granted the other in that
      term or a voter of one of them was unbound afterwards. A voter may accept its winner's requests, and anything of
      other terms. */
  lemma {:induction false} OneWinnerPerTerm(cs: seq<Cluster>, evs: seq<Event>, i: nat, j: nat, a: PeerId, b: PeerId,
                                            t: Term)
    requires IsRun(cs, evs) && Quiet(cs[0])
    requires i < |evs| && j < |evs| && WinsIn(cs[i], evs[i], a, t) && WinsIn(cs[j], evs[j], b, t)
    requires OddSize(cs[0]) && (a != b ==> Strangers(evs, a, b, t))
    requires NoRivals(evs, a, t) && NoLosers(cs, evs, a, t) && NoWraps(cs, evs, a, t)
    requires NoRivals(evs, b, t) && NoLosers(cs, evs, b, t) && NoWraps(cs, evs, b, t)
    ensures a == b
  {
    if a != b {
      var va := WinnerHasVoters(cs, evs, i, a, t);
      var vb := WinnerHasVoters(cs, evs, j, b, t);
      Pigeonhole(cs[0].nodes.Keys, a, b, va, vb);
      var v :| v in va * vb;
      NobodyVotesTwice(cs, evs, v, a, b, t);
    }
  }
}
