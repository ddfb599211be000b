/** Roles, votes, terms and applied entries over whole runs. */
module RaftProgress {
  import opened Bytes
  import opened RaftNode
  import opened RaftCluster
  import opened RaftVotes

  // ----- roles

  /** The role that an event gives to node `v`, if it decides about it: an election is started, won or lost, a request
      of no lower term is accepted, or a peer answers with a higher term. */
  function NewRole(c: Cluster, ev: Event, v: PeerId): (r: Option<Role>)
    requires v in c.nodes
  {
    match ev
    case Campaign(n) => if n == v then Some(Candidate) else None
    case Win(n) => if n == v then Some(Leader) else None
    case Lose(n) => if n == v then Some(Candidate) else None
    case AnswerAppend(p, verdict) => if p.to == v && verdict.Accepted? then Some(Follower) else None
    case CountVote(p) =>
      if p.to == v && p.body.VoteReply? && p.body.term > c.nodes[v].term then Some(Follower) else None
    case CountAppend(p) =>
      if p.to == v && p.body.AppendReply? && p.body.term > c.nodes[v].term then Some(Follower) else None
    case _ => None
  }

  /** Event `i` decided about the role of `v`, and none after it and before `j` did. */
  ghost predicate DecidedAt(cs: seq<Cluster>, evs: seq<Event>, i: nat, j: nat, v: PeerId)
    requires j <= |evs| < |cs|
  {
    && i < j && v in cs[i].nodes && NewRole(cs[i], evs[i], v).Some?
    && forall k :: i < k < j ==> v in cs[k].nodes && NewRole(cs[k], evs[k], v) == None
  }

  lemma {:induction false} StepChangesRole(cs: seq<Cluster>, evs: seq<Event>, k: nat, v: PeerId)
    requires IsRun(cs, evs) && k < |evs| && v in cs[0].nodes
    ensures v in cs[k].nodes && v in cs[k + 1].nodes
    ensures var r := NewRole(cs[k], evs[k], v);
            cs[k + 1].nodes[v].role == if r.Some? then r.value else cs[k].nodes[v].role
  {
    RunStep(cs, evs, k, v);
    if evs[k].AnswerAppend? && evs[k].packet.to == v {
      ReplicateFollows(cs[k].nodes[v], evs[k].packet.from, evs[k].packet.body.request);
    }
  }

  /** On every run a node's role is the one that the last deciding event gave it; without one it is the first role. */
  lemma {:induction false} RoleIsLastDecided(cs: seq<Cluster>, evs: seq<Event>, i: nat, j: nat, v: PeerId)
    requires IsRun(cs, evs) && j <= |evs| && v in cs[0].nodes && DecidedAt(cs, evs, i, j, v)
    ensures v in cs[j].nodes && cs[j].nodes[v].role == NewRole(cs[i], evs[i], v).value
    decreases j
  {
    StepChangesRole(cs, evs, j - 1, v);
    if i < j - 1 {
      RoleIsLastDecided(cs, evs, i, j - 1, v);
    }
  }

  lemma {:induction false} RoleWasDecided(cs: seq<Cluster>, evs: seq<Event>, j: nat, v: PeerId) returns (i: nat)
    requires IsRun(cs, evs) && j <= |evs| && v in cs[0].nodes && v in cs[j].nodes
    requires cs[j].nodes[v].role != cs[0].nodes[v].role
    ensures DecidedAt(cs, evs, i, j, v) && NewRole(cs[i], evs[i], v) == Some(cs[j].nodes[v].role)
  {
    StepChangesRole(cs, evs, j - 1, v);
    if NewRole(cs[j - 1], evs[j - 1], v).Some? {
      i := j - 1;
    } else {
      i := RoleWasDecided(cs, evs, j - 1, v);
    }
  }

  /** After a fresh start, a leader has won an election, and has since started none, lost none, accepted no request and
      heard of no higher term. */
  lemma {:induction false} LeaderHasWon(cs: seq<Cluster>, evs: seq<Event>, j: nat, v: PeerId) returns (i: nat)
    requires IsRun(cs, evs) && Initial(cs[0]) && j <= |evs| && v in cs[0].nodes && v in cs[j].nodes
    requires cs[j].nodes[v].role == Leader
    ensures DecidedAt(cs, evs, i, j, v) && evs[i] == Win(v)
  {
    i := RoleWasDecided(cs, evs, j, v);
  }

  // ----- votes

  /** The vote that an event leaves node `v` with, if it decides about it: a vote is granted, a request is accepted,
      which counts as a vote for its sender, or the vote is cleared by a lost election or a higher term in a reply.
      Starting or winning an election decides nothing. */
  function NewVote(c: Cluster, ev: Event, v: PeerId): (r: Option<Option<PeerId>>)
    requires v in c.nodes
  {
    match ev
    case AnswerVote(p, granted) => if p.to == v && granted then Some(Some(p.from)) else None
    case AnswerAppend(p, verdict) => if p.to == v && verdict.Accepted? then Some(Some(p.from)) else None
    case Lose(n) => if n == v then Some(None) else None
    case CountVote(p) =>
      if p.to == v && p.body.VoteReply? && p.body.term > c.nodes[v].term then Some(None) else None
    case CountAppend(p) =>
      if p.to == v && p.body.AppendReply? && p.body.term > c.nodes[v].term then Some(None) else None
    case _ => None
  }

  /** Event `i` decided about the vote of `v`, and none after it and before `j` did. */
  ghost predicate VoteDecidedAt(cs: seq<Cluster>, evs: seq<Event>, i: nat, j: nat, v: PeerId)
    requires j <= |evs| < |cs|
  {
    && i < j && v in cs[i].nodes && NewVote(cs[i], evs[i], v).Some?
    && forall k :: i < k < j ==> v in cs[k].nodes && NewVote(cs[k], evs[k], v) == None
  }

  lemma {:induction false} StepChangesVote(cs: seq<Cluster>, evs: seq<Event>, k: nat, v: PeerId)
    requires IsRun(cs, evs) && k < |evs| && v in cs[0].nodes
    ensures v in cs[k].nodes && v in cs[k + 1].nodes
    ensures var r := NewVote(cs[k], evs[k], v);
            cs[k + 1].nodes[v].votedFor == if r.Some? then r.value else cs[k].nodes[v].votedFor
  {
    RunStep(cs, evs, k, v);
    if evs[k].AnswerAppend? && evs[k].packet.to == v {
      ReplicateFollows(cs[k].nodes[v], evs[k].packet.from, evs[k].packet.body.request);
    }
  }

  /** On every run a node's vote is the one that the last deciding event left. */
  lemma {:induction false} VoteIsLastDecided(cs: seq<Cluster>, evs: seq<Event>, i: nat, j: nat, v: PeerId)
    requires IsRun(cs, evs) && j <= |evs| && v in cs[0].nodes && VoteDecidedAt(cs, evs, i, j, v)
    ensures v in cs[j].nodes && cs[j].nodes[v].votedFor == NewVote(cs[i], evs[i], v).value
    decreases j
  {
    StepChangesVote(cs, evs, j - 1, v);
    if i < j - 1 {
      VoteIsLastDecided(cs, evs, i, j - 1, v);
    }
  }

  /** So a node that backs `a` has granted `a` a vote or accepted a request of its, and nothing has taken that back. */
  lemma {:induction false} VoteWasDecided(cs: seq<Cluster>, evs: seq<Event>, j: nat, v: PeerId) returns (i: nat)
    requires IsRun(cs, evs) && j <= |evs| && v in cs[0].nodes && v in cs[j].nodes
    requires cs[j].nodes[v].votedFor != cs[0].nodes[v].votedFor
    ensures VoteDecidedAt(cs, evs, i, j, v) && NewVote(cs[i], evs[i], v) == Some(cs[j].nodes[v].votedFor)
  {
    StepChangesVote(cs, evs, j - 1, v);
    if NewVote(cs[j - 1], evs[j - 1], v).Some? {
      i := j - 1;
    } else {
      i := VoteWasDecided(cs, evs, j - 1, v);
    }
  }

  // ----- terms

  /** The term that a packet tells its receiver. */
  function TermOf(p: Packet): (t: Term)
  {
    match p.body
    case VoteRequest(_, term, _, _) => term
    case VoteReply(_, _, _, term) => term
    case AppendEntries(request) => request.term
    case AppendReply(_, term) => term
  }

  /** Term `t` is the first one, or somebody started an election for it before position `j`. */
  ghost predicate Opened(cs: seq<Cluster>, evs: seq<Event>, j: nat, t: Term)
  {
    t == 0 || exists a :: Campaigned(cs, evs, j, a, t)
  }

  ghost predicate TermsOpened(cs: seq<Cluster>, evs: seq<Event>, j: nat)
    requires j < |cs|
  {
    && (forall n :: n in cs[j].nodes ==> Opened(cs, evs, j, cs[j].nodes[n].term))
    && (forall p :: p in cs[j].net ==> Opened(cs, evs, j, TermOf(p)))
  }

  /** Where the terms of a step come from. */
  lemma {:induction false} StepTerms(c: Cluster, ev: Event)
    requires Enabled(c, ev)
    ensures var t := ActorAfter(c, ev).term;
            || t == c.nodes[Actor(ev)].term || CampaignsIn(c, ev, Actor(ev), t)
            || (exists p :: p in c.net && t == TermOf(p))
    ensures forall p :: p in Sent(c, ev) ==> TermOf(p) == ActorAfter(c, ev).term
  {
    match ev
    case AnswerVote(p, _) => assert p in c.net && TermOf(p) == p.body.term;
    case CountVote(p) => assert p in c.net && TermOf(p) == p.body.term;
    case AnswerAppend(p, _) => assert p in c.net && TermOf(p) == p.body.request.term;
    case CountAppend(p) => assert p in c.net && TermOf(p) == p.body.term;
    case _ =>
  }

  lemma {:induction false} OpenedLater(cs: seq<Cluster>, evs: seq<Event>, j: nat, t: Term)
    requires Opened(cs, evs, j, t)
    ensures Opened(cs, evs, j + 1, t)
  {
    if t != 0 {
      var a :| Campaigned(cs, evs, j, a, t);
      CampaignedLater(cs, evs, j, a, t);
    }
  }

  /** On every run from a fresh start, every term that a node is in or that a packet carries, except the first, was
      opened by a node that started an election for it. */
  lemma {:induction false} TermsAreOpened(cs: seq<Cluster>, evs: seq<Event>, j: nat)
    requires IsRun(cs, evs) && Initial(cs[0]) && j < |cs|
    ensures TermsOpened(cs, evs, j)
  {
    if j > 0 {
      TermsAreOpened(cs, evs, j - 1);
      assert StepsAt(cs, evs, j - 1);
      StepOpensTerms(cs, evs, j - 1);
    }
  }

  lemma {:induction false} ActorTermOpened(cs: seq<Cluster>, evs: seq<Event>, k: nat)
    requires k < |evs| < |cs| && StepsAt(cs, evs, k) && TermsOpened(cs, evs, k)
    ensures Opened(cs, evs, k + 1, ActorAfter(cs[k], evs[k]).term)
  {
    var t, a := ActorAfter(cs[k], evs[k]).term, Actor(evs[k]);
    StepTerms(cs[k], evs[k]);
    if CampaignsIn(cs[k], evs[k], a, t) {
      assert Campaigned(cs, evs, k + 1, a, t);
    } else {
      OpenedLater(cs, evs, k, t);
    }
  }

  lemma {:induction false} StepOpensTerms(cs: seq<Cluster>, evs: seq<Event>, k: nat)
    requires k < |evs| < |cs| && StepsAt(cs, evs, k) && TermsOpened(cs, evs, k)
    ensures TermsOpened(cs, evs, k + 1)
  {
    ActorTermOpened(cs, evs, k);
    StepTerms(cs[k], evs[k]);
    var d := cs[k + 1];
    forall n | n in d.nodes
      ensures Opened(cs, evs, k + 1, d.nodes[n].term)
    {
      if n != Actor(evs[k]) {
        OpenedLater(cs, evs, k, cs[k].nodes[n].term);
      }
    }
    forall p | p in d.net
      ensures Opened(cs, evs, k + 1, TermOf(p))
    {
      if p in cs[k].net {
        OpenedLater(cs, evs, k, TermOf(p));
      }
    }
  }

  // ----- applied entries

  /** A step that applies an entry applies the next one, which is then committed; accepted requests and commits of the
      node's own do so whenever its commit index is ahead, and nothing else does. */
  lemma {:induction false} StepAppliesNext(c: Cluster, ev: Event)
    requires Enabled(c, ev)
    ensures var a, b := c.nodes[Actor(ev)], ActorAfter(c, ev);
            var applies := ev.Commit? || (ev.AnswerAppend? && ev.verdict.Accepted?);
            b.lastApplied == a.lastApplied + if applies && b.commitIndex > a.lastApplied then 1 else 0
  {
  }

  /** Event `i` raises the last applied index of `v` to `x`. */
  ghost predicate AppliesAt(cs: seq<Cluster>, evs: seq<Event>, i: nat, v: PeerId, x: nat)
    requires i < |evs| < |cs|
  {
    && v in cs[i].nodes && v in cs[i + 1].nodes
    && cs[i + 1].nodes[v].lastApplied == x == cs[i].nodes[v].lastApplied + 1 && x <= cs[i + 1].nodes[v].commitIndex
  }

  /** On every run entries are applied one by one, in order and without gaps: each index up to the last applied one was
      reached by a step of its own, from the index before it and not before it was committed. */
  lemma {:induction false} AppliedInOrder(cs: seq<Cluster>, evs: seq<Event>, j: nat, v: PeerId, x: nat) returns (i: nat)
    requires IsRun(cs, evs) && j < |cs| && v in cs[0].nodes && v in cs[j].nodes
    requires cs[0].nodes[v].lastApplied < x <= cs[j].nodes[v].lastApplied
    ensures i < j && AppliesAt(cs, evs, i, v, x)
  {
    RunStep(cs, evs, j - 1, v);
    if v == Actor(evs[j - 1]) {
      StepAppliesNext(cs[j - 1], evs[j - 1]);
    }
    if x <= cs[j - 1].nodes[v].lastApplied {
      i := AppliedInOrder(cs, evs, j - 1, v, x);
    } else {
      i := j - 1;
    }
  }
}
