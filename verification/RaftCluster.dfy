/** A cluster of nodes and the messages between them. A run is any interleaving of handler steps; a message may be
    delivered late, out of order or never, but at most once. */
module RaftCluster {
  import opened Bytes
  import opened RaftNode

  datatype Body =
    | VoteRequest(election: nat, term: Term, commitIndex: nat, lastApplied: nat)
    | VoteReply(election: nat, asked: Term, granted: bool, term: Term)
    | AppendEntries(request: AppendRequest)
    | AppendReply(success: bool, term: Term)

  /** `stamp` tells apart the packets of different sends; it is not part of the message. */
  datatype Packet = Packet(stamp: nat, from: PeerId, to: PeerId, body: Body)

  /** The state of `raft_request` while a candidate waits: `count` is `rsp_count`; `voters` remembers who was
      counted. */
  datatype Election = Idle | Running(id: nat, term: Term, pending: set<PeerId>, count: nat, voters: set<PeerId>)

  datatype Cluster = Cluster(nodes: map<PeerId, Node>, net: set<Packet>, elections: map<PeerId, Election>, clock: nat)

  datatype Event =
    | Campaign(node: PeerId)                                // the timer fires: send_request_vote
    | AnswerVote(packet: Packet, granted: bool)             // route_request_vote
    | CountVote(packet: Packet)                             // request_vote_callback
    | Win(node: PeerId)                                     // a majority answered in time
    | Lose(node: PeerId)                                    // the wait timed out
    | Send(node: PeerId, entries: seq<Entry>)               // send_append_entries
    | AnswerAppend(packet: Packet, verdict: Verdict)        // route_append_entries
    | CountAppend(packet: Packet)                           // append_entries_callback
    | Commit(node: PeerId)                                  // a majority answered send_append_entries

  /** The peer list of a node does not hold the node itself. */
  function Peers(c: Cluster, n: PeerId): (s: set<PeerId>) { c.nodes.Keys - {n} }

  function Majority(c: Cluster, n: PeerId): (k: nat) { |Peers(c, n)| / 2 }

  function Broadcast(c: Cluster, n: PeerId, body: Body): (ps: set<Packet>)
  {
    set q | q in Peers(c, n) :: Packet(c.clock, n, q, body)
  }

  predicate Enabled(c: Cluster, ev: Event)
  {
    c.elections.Keys == c.nodes.Keys &&
    match ev
    case Campaign(n) => n in c.nodes && c.elections[n].Idle?
    case AnswerVote(p, granted) =>
      p in c.net && p.to in c.nodes && p.body.VoteRequest? &&
      granted == Grants(c.nodes[p.to], p.from, p.body.commitIndex, p.body.term, p.body.lastApplied)
    case CountVote(p) => p in c.net && p.to in c.nodes && p.body.VoteReply?
    case Win(n) => n in c.nodes && c.elections[n].Running? && c.elections[n].count >= Majority(c, n)
    case Lose(n) => n in c.nodes && c.elections[n].Running? && c.elections[n].count < Majority(c, n)
    case Send(n, entries) => n in c.nodes && NoneCommitted(entries)
    case AnswerAppend(p, verdict) =>
      p in c.net && p.to in c.nodes && p.body.AppendEntries? &&
      verdict == ReplicateVerdict(c.nodes[p.to], p.body.request)
    case CountAppend(p) => p in c.net && p.to in c.nodes && p.body.AppendReply?
    case Commit(n) => n in c.nodes
  }

  /** The node that an event changes. */
  function Actor(ev: Event): (n: PeerId)
  {
    match ev
    case Campaign(n) => n
    case AnswerVote(p, _) => p.to
    case CountVote(p) => p.to
    case Win(n) => n
    case Lose(n) => n
    case Send(n, _) => n
    case AnswerAppend(p, _) => p.to
    case CountAppend(p) => p.to
    case Commit(n) => n
  }

  /** What the event makes of that node. */
  function ActorAfter(c: Cluster, ev: Event): (r: Node)
    requires Enabled(c, ev)
  {
    var n := c.nodes[Actor(ev)];
    match ev
    case Campaign(_) => IncrementTerm(n).(role := Candidate)
    case AnswerVote(p, granted) => if granted then GrantVote(n, p.from, p.body.term) else n
    case CountVote(p) => OnReply(n, p.body.term)
    case Win(_) => n.(role := Leader)
    case Lose(_) => LoseElection(n)
    case Send(_, entries) => AppendOwn(n, entries)
    case AnswerAppend(p, _) => Replicate(n, p.from, p.body.request)
    case CountAppend(p) => OnReply(n, p.body.term)
    case Commit(_) => CommitAll(n)
  }

  /** The packets it takes out of the network and the ones it puts in. */
  function Taken(ev: Event): (ps: set<Packet>)
  {
    match ev
    case AnswerVote(p, _) => {p}
    case CountVote(p) => {p}
    case AnswerAppend(p, _) => {p}
    case CountAppend(p) => {p}
    case _ => {}
  }

  function Sent(c: Cluster, ev: Event): (ps: set<Packet>)
    requires Enabled(c, ev)
  {
    var n := ActorAfter(c, ev);
    match ev
    case Campaign(i) => Broadcast(c, i, VoteRequest(c.clock, n.term, n.commitIndex, n.lastApplied))
    case AnswerVote(p, granted) =>
      {Packet(p.stamp, p.to, p.from, VoteReply(p.body.election, p.body.term, granted, n.term))}
    case Send(i, entries) => Broadcast(c, i, AppendEntries(BuildRequest(c.nodes[i], entries)))
    case AnswerAppend(p, verdict) =>
      if verdict.Aborted? then {} else {Packet(p.stamp, p.to, p.from, AppendReply(verdict == Accepted(true), n.term))}
    case _ => {}
  }

  /** The reply answers a request of this very election, and that request is still open. */
  predicate Counts(e: Election, p: Packet)
  {
    p.body.VoteReply? && e.Running? && p.body.election == e.id && p.body.asked == e.term && p.from in e.pending
  }

  function ElectionAfter(c: Cluster, ev: Event): (e: Election)
    requires Enabled(c, ev)
  {
    var e := c.elections[Actor(ev)];
    match ev
    case Campaign(n) => Running(c.clock, ActorAfter(c, ev).term, Peers(c, n), 0, {})
    case CountVote(p) =>
      if !Counts(e, p) then e
      else if p.body.granted then
        e.(pending := e.pending - {p.from}, count := e.count + 1, voters := e.voters + {p.from})
      else e.(pending := e.pending - {p.from})
    case Win(_) => Idle
    case Lose(_) => Idle
    case _ => e
  }

  function Step(c: Cluster, ev: Event): (r: Cluster)
    requires Enabled(c, ev)
    ensures r.nodes.Keys == c.nodes.Keys && r.elections.Keys == c.elections.Keys
  {
    var i := Actor(ev);
    Cluster(c.nodes[i := ActorAfter(c, ev)], c.net - Taken(ev) + Sent(c, ev), c.elections[i := ElectionAfter(c, ev)],
            c.clock + 1)
  }

  /** `cs` are the states that the events `evs` lead through. */
  ghost predicate IsRun(cs: seq<Cluster>, evs: seq<Event>)
  {
    |cs| == |evs| + 1 && forall i :: 0 <= i < |evs| ==> StepsAt(cs, evs, i)
  }

  /** Event `i` leads from state `i` to the next one. */
  ghost predicate StepsAt(cs: seq<Cluster>, evs: seq<Event>, i: nat)
    requires i < |evs| < |cs|
  {
    Enabled(cs[i], evs[i]) && cs[i + 1] == Step(cs[i], evs[i])
  }

  /** A cluster that has just started. */
  ghost predicate Initial(c: Cluster)
  {
    && c.elections.Keys == c.nodes.Keys && c.net == {}
    && forall n :: n in c.nodes ==> c.nodes[n] == Fresh && c.elections[n] == Idle
  }

  lemma {:induction false} SameNodes(cs: seq<Cluster>, evs: seq<Event>, j: nat)
    requires IsRun(cs, evs) && j < |cs|
    ensures cs[j].nodes.Keys == cs[0].nodes.Keys
  {
    if j > 0 {
      SameNodes(cs, evs, j - 1);
      assert StepsAt(cs, evs, j - 1);
    }
  }

  // ----- terms and indices over whole runs

  /** The one step that lowers a term: an increment that wraps around. */
  predicate WrapsTerm(c: Cluster, ev: Event, v: PeerId)
  {
    ev == Campaign(v) && v in c.nodes && c.nodes[v].term == U64 - 1
  }

  /** The step that breaks the indices: an empty log takes over a positive commit index. */
  predicate TakesUncapped(c: Cluster, ev: Event, v: PeerId)
  {
    ev.AnswerAppend? && ev.packet.to == v && ev.verdict.Accepted? && v in c.nodes && ev.packet.body.AppendEntries?
    && UncappedCommit(c.nodes[v], ev.packet.body.request)
  }

  lemma {:induction false} ActorMovesForward(c: Cluster, ev: Event)
    requires Enabled(c, ev)
    ensures var a, b := c.nodes[Actor(ev)], ActorAfter(c, ev);
            a.log <= b.log && (a.term <= b.term <==> !WrapsTerm(c, ev, Actor(ev)))
  {
    if ev.AnswerAppend? {
      var m := ev.packet.body.request;
      AppendAllExtends(c.nodes[Actor(ev)].log, m.entries, m.prevIndex);
    }
  }

  lemma {:induction false} ActorKeepsIndices(c: Cluster, ev: Event)
    requires Enabled(c, ev) && IndicesValid(c.nodes[Actor(ev)])
    ensures var a, b := c.nodes[Actor(ev)], ActorAfter(c, ev);
            Grew(a, b) && (IndicesValid(b) <==> !TakesUncapped(c, ev, Actor(ev)))
  {
    if ev.AnswerAppend? {
      ReplicateKeepsIndices(c.nodes[Actor(ev)], ev.packet.from, ev.packet.body.request);
    }
  }

  /** One step of a run, seen by one node. */
  lemma {:induction false} RunStep(cs: seq<Cluster>, evs: seq<Event>, k: nat, v: PeerId)
    requires IsRun(cs, evs) && k < |evs| && v in cs[0].nodes
    ensures v in cs[k].nodes && v in cs[k + 1].nodes && Enabled(cs[k], evs[k])
    ensures cs[k + 1].nodes[v] == if v == Actor(evs[k]) then ActorAfter(cs[k], evs[k]) else cs[k].nodes[v]
  {
    SameNodes(cs, evs, k);
    assert StepsAt(cs, evs, k);
  }

  lemma {:induction false} StepMovesForward(cs: seq<Cluster>, evs: seq<Event>, k: nat, v: PeerId)
    requires IsRun(cs, evs) && k < |evs| && v in cs[0].nodes
    ensures v in cs[k].nodes && v in cs[k + 1].nodes && cs[k].nodes[v].log <= cs[k + 1].nodes[v].log
    ensures cs[k].nodes[v].term <= cs[k + 1].nodes[v].term <==> !WrapsTerm(cs[k], evs[k], v)
  {
    RunStep(cs, evs, k, v);
    if v == Actor(evs[k]) {
      ActorMovesForward(cs[k], evs[k]);
    }
  }

  lemma {:induction false} StepKeepsIndices(cs: seq<Cluster>, evs: seq<Event>, k: nat, v: PeerId)
    requires IsRun(cs, evs) && k < |evs| && v in cs[0].nodes && v in cs[k].nodes && IndicesValid(cs[k].nodes[v])
    ensures v in cs[k + 1].nodes && Grew(cs[k].nodes[v], cs[k + 1].nodes[v])
    ensures IndicesValid(cs[k + 1].nodes[v]) <==> !TakesUncapped(cs[k], evs[k], v)
  {
    RunStep(cs, evs, k, v);
    if v == Actor(evs[k]) {
      ActorKeepsIndices(cs[k], evs[k]);
    }
  }

  /** On every run the log of a node is only ever extended. */
  lemma {:induction false} RunExtendsLog(cs: seq<Cluster>, evs: seq<Event>, i: nat, j: nat, v: PeerId)
    requires IsRun(cs, evs) && i <= j < |cs| && v in cs[0].nodes
    ensures v in cs[i].nodes && v in cs[j].nodes && cs[i].nodes[v].log <= cs[j].nodes[v].log
    decreases j - i
  {
    SameNodes(cs, evs, i);
    if i < j {
      RunExtendsLog(cs, evs, i, j - 1, v);
      StepMovesForward(cs, evs, j - 1, v);
    }
  }

  /** Some step from `i` to before `j` wraps the term of `v` around. */
  ghost predicate Wrapped(cs: seq<Cluster>, evs: seq<Event>, i: nat, j: nat, v: PeerId)
    requires j <= |evs| <= |cs|
  {
    exists k :: i <= k < j && WrapsTerm(cs[k], evs[k], v)
  }

  lemma {:induction false} WrappedLater(cs: seq<Cluster>, evs: seq<Event>, i: nat, j: nat, v: PeerId)
    requires i <= j < |evs| <= |cs|
    requires Wrapped(cs, evs, i, j, v) || WrapsTerm(cs[j], evs[j], v)
    ensures Wrapped(cs, evs, i, j + 1, v)
  {
  }

  /** The term of a node never decreases, unless its increment wraps around on the way. */
  lemma {:induction false} RunRaisesTerm(cs: seq<Cluster>, evs: seq<Event>, i: nat, j: nat, v: PeerId)
    requires IsRun(cs, evs) && i <= j < |cs| && v in cs[0].nodes
    ensures v in cs[i].nodes && v in cs[j].nodes
    ensures cs[i].nodes[v].term <= cs[j].nodes[v].term || Wrapped(cs, evs, i, j, v)
    decreases j - i
  {
    SameNodes(cs, evs, i);
    if i < j {
      RunRaisesTerm(cs, evs, i, j - 1, v);
      StepMovesForward(cs, evs, j - 1, v);
      if Wrapped(cs, evs, i, j - 1, v) || WrapsTerm(cs[j - 1], evs[j - 1], v) {
        WrappedLater(cs, evs, i, j - 1, v);
      }
    }
  }

  /** As long as no positive leader commit meets a log that is still empty, every reachable state has
      `lastApplied <= commitIndex`, a commit index that is 0 or a valid log index, and no index ever goes back. */
  lemma {:induction false} RunKeepsIndices(cs: seq<Cluster>, evs: seq<Event>, i: nat, j: nat, v: PeerId)
    requires IsRun(cs, evs) && i <= j < |cs| && v in cs[0].nodes && IndicesValid(cs[0].nodes[v])
    requires forall k :: 0 <= k < j ==> !TakesUncapped(cs[k], evs[k], v)
    ensures v in cs[i].nodes && v in cs[j].nodes
    ensures IndicesValid(cs[j].nodes[v]) && Grew(cs[i].nodes[v], cs[j].nodes[v])
    decreases j
  {
    if j > 0 {
      RunKeepsIndices(cs, evs, if i < j then i else j - 1, j - 1, v);
      StepKeepsIndices(cs, evs, j - 1, v);
    }
  }

  /** The condition cannot be dropped: the first such step breaks them. */
  lemma {:induction false} UncappedBreaks(cs: seq<Cluster>, evs: seq<Event>, j: nat, v: PeerId)
    requires IsRun(cs, evs) && j < |evs| && v in cs[0].nodes && IndicesValid(cs[0].nodes[v])
    requires forall k :: 0 <= k < j ==> !TakesUncapped(cs[k], evs[k], v)
    requires TakesUncapped(cs[j], evs[j], v)
    ensures v in cs[j + 1].nodes && !IndicesValid(cs[j + 1].nodes[v])
  {
    RunKeepsIndices(cs, evs, j, j, v);
    StepKeepsIndices(cs, evs, j, v);
  }

  // ----- no entry is ever marked committed

  ghost predicate AllUncommitted(c: Cluster)
  {
    && (forall n :: n in c.nodes ==> NoneCommitted(c.nodes[n].log))
    && (forall p :: p in c.net && p.body.AppendEntries? ==> NoneCommitted(p.body.request.entries))
  }

  lemma {:induction false} ActorStaysUncommitted(c: Cluster, ev: Event)
    requires Enabled(c, ev) && AllUncommitted(c)
    ensures NoneCommitted(ActorAfter(c, ev).log)
  {
    if ev.AnswerAppend? {
      var m := ev.packet.body.request;
      AppendAllStaysUncommitted(c.nodes[ev.packet.to].log, m.entries, m.prevIndex);
    }
  }

  lemma {:induction false} SentIsUncommitted(c: Cluster, ev: Event, p: Packet)
    requires Enabled(c, ev) && p in Sent(c, ev) && p.body.AppendEntries?
    ensures NoneCommitted(p.body.request.entries)
  {
  }

  lemma {:induction false} StepKeepsUncommitted(c: Cluster, ev: Event)
    requires Enabled(c, ev) && AllUncommitted(c)
    ensures AllUncommitted(Step(c, ev))
  {
    var r := Step(c, ev);
    ActorStaysUncommitted(c, ev);
    forall p | p in r.net && p.body.AppendEntries?
      ensures NoneCommitted(p.body.request.entries)
    {
      if p !in c.net {
        SentIsUncommitted(c, ev, p);
      }
    }
  }

  /** This is what lets the upward-counting scans of log.cpp stop at their first entry. */
  lemma {:induction false} RunKeepsUncommitted(cs: seq<Cluster>, evs: seq<Event>, j: nat)
    requires IsRun(cs, evs) && j < |cs| && AllUncommitted(cs[0])
    ensures AllUncommitted(cs[j])
  {
    if j > 0 {
      RunKeepsUncommitted(cs, evs, j - 1);
      assert StepsAt(cs, evs, j - 1);
      StepKeepsUncommitted(cs[j - 1], evs[j - 1]);
    }
  }
}
