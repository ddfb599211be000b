/** Runs that show what the cluster does not keep. Each is built from pieces of two steps. */
module RaftRuns {
  import opened Bytes
  import opened RaftNode
  import opened RaftCluster
  import opened RaftVotes
  import opened RaftReplication

  // ----- putting runs together

  lemma {:induction false} RunSnoc(cs: seq<Cluster>, evs: seq<Event>, ev: Event, c: Cluster)
    requires IsRun(cs, evs) && Enabled(cs[|evs|], ev) && c == Step(cs[|evs|], ev)
    ensures IsRun(cs + [c], evs + [ev])
  {
    forall i | 0 <= i < |evs|
      ensures StepsAt(cs + [c], evs + [ev], i)
    {
      assert StepsAt(cs, evs, i);
    }
  }

  /** `d` is reached from `c` by two events. */
  ghost predicate InTwo(c: Cluster, e1: Event, e2: Event, d: Cluster)
  {
    Enabled(c, e1) && Enabled(Step(c, e1), e2) && d == Step(Step(c, e1), e2)
  }

  /** A run goes on with two more events. */
  lemma {:induction false} TwoMore(cs: seq<Cluster>, evs: seq<Event>, e1: Event, e2: Event, d: Cluster)
    returns (cs': seq<Cluster>, evs': seq<Event>)
    requires IsRun(cs, evs) && InTwo(cs[|evs|], e1, e2, d)
    ensures IsRun(cs', evs') && cs <= cs' && evs' == evs + [e1, e2]
    ensures cs'[|evs| + 1] == Step(cs[|evs|], e1) && cs'[|evs'|] == d
  {
    var c := Step(cs[|evs|], e1);
    RunSnoc(cs, evs, e1, c);
    RunSnoc(cs + [c], evs + [e1], e2, d);
    cs', evs' := cs + [c] + [d], evs + [e1] + [e2];
    assert evs' == evs + [e1, e2];
  }

  // ----- a heartbeat that overtakes the entries it commits

  const TwoNodes: Cluster := Cluster(map[0 := Fresh, 1 := Fresh], {}, map[0 := Idle, 1 := Idle], 0)

  const Hello: Entry := Entry([0x68], 1, false)

  /** The leader of two nodes, in term 1 and with `log`, and a follower that has heard nothing of it. */
  ghost predicate Leads(c: Cluster, log: seq<Entry>, commitIndex: nat, clock: nat)
  {
    && c.nodes.Keys == c.elections.Keys == {0, 1} && c.clock == clock
    && c.nodes[0] == Node(1, None, commitIndex, commitIndex, log, Leader) && c.nodes[1] == Fresh
  }

  lemma TwoStart()
    ensures Initial(TwoNodes) && TwoNodes.nodes.Keys == {0, 1} && TwoNodes.clock == 0
  {
  }

  lemma HalfOfOne(c: Cluster)
    requires c.nodes.Keys == {0, 1}
    ensures Majority(c, 0) == Majority(c, 1) == 0
  {
    assert Peers(c, 0) == {1} && Peers(c, 1) == {0};
  }

  /** With one peer, `peer_count / 2` is 0 and an election is won at once. */
  lemma {:induction false} WinsAtOnce(c: Cluster) returns (d: Cluster)
    requires Initial(c) && c.nodes.Keys == {0, 1} && c.clock == 0
    ensures InTwo(c, Campaign(0), Win(0), d) && Leads(d, [], 0, 2)
  {
    var c1 := Step(c, Campaign(0));
    HalfOfOne(c1);
    assert c1.nodes[0] == Node(1, None, 0, 0, [], Candidate) && c1.nodes[1] == Fresh;
    assert c1.elections[0].Running? && c1.elections[0].count == 0;
    d := Step(c1, Win(0));
  }

  lemma {:induction false} BecomesLeader() returns (cs: seq<Cluster>, evs: seq<Event>)
    ensures IsRun(cs, evs) && evs == [Campaign(0), Win(0)] && Initial(cs[0]) && Leads(cs[2], [], 0, 2)
  {
    TwoStart();
    var d := WinsAtOnce(TwoNodes);
    cs, evs := TwoMore([TwoNodes], [], Campaign(0), Win(0), d);
    assert [] + [Campaign(0), Win(0)] == [Campaign(0), Win(0)];
  }

  /** The second request of a leader, which names the same previous index as the first. */
  function Second(a: Entry, b: Entry): (p: Packet)
  {
    Packet(3, 0, 1, AppendEntries(AppendRequest([b], 0, 0, a.term, 1)))
  }

  lemma {:induction false} SendsTwo(c: Cluster, a: Entry, b: Entry) returns (d: Cluster)
    requires Leads(c, [], 0, 2) && !a.committed && !b.committed
    ensures InTwo(c, Send(0, [a]), Send(0, [b]), d) && Leads(d, [a, b], 0, 4)
    ensures Second(a, b) in d.net
  {
    var c1 := Step(c, Send(0, [a]));
    d := Step(c1, Send(0, [b]));
    assert c1.nodes[0].log == [a] && d.nodes[0].log == [a, b];
    assert 1 in Peers(c1, 0);
    assert BuildRequest(c1.nodes[0], [b]) == AppendRequest([b], 0, 0, a.term, 1);
  }

  /** Two entries are sent, one after the other. */
  lemma {:induction false} LeaderSends(a: Entry, b: Entry) returns (cs: seq<Cluster>, evs: seq<Event>)
    requires !a.committed && !b.committed
    ensures IsRun(cs, evs) && evs == [Campaign(0), Win(0), Send(0, [a]), Send(0, [b])] && Initial(cs[0])
    ensures Leads(cs[2], [], 0, 2)
    ensures Leads(cs[4], [a, b], 0, 4) && Second(a, b) in cs[4].net
  {
    cs, evs := BecomesLeader();
    var d := SendsTwo(cs[2], a, b);
    cs, evs := TwoMore(cs, evs, Send(0, [a]), Send(0, [b]), d);
  }

  /** The heartbeat of a leader that has committed the second of its two entries. */
  const Heartbeat: Packet := Packet(5, 0, 1, AppendEntries(AppendRequest([], 1, 1, 1, 1)))

  lemma {:induction false} CommitsAndBeats(c: Cluster) returns (d: Cluster)
    requires Leads(c, [Hello, Hello], 0, 4)
    ensures InTwo(c, Commit(0), Send(0, []), d) && Leads(d, [Hello, Hello], 1, 6) && Heartbeat in d.net
  {
    var c1 := Step(c, Commit(0));
    d := Step(c1, Send(0, []));
    assert [Hello, Hello] + [] == [Hello, Hello];
    assert 1 in Peers(c1, 0);
    assert BuildRequest(c1.nodes[0], []) == Heartbeat.body.request;
  }

  lemma {:induction false} UpToTheHeartbeat() returns (cs: seq<Cluster>, evs: seq<Event>)
    ensures IsRun(cs, evs) && |evs| == 6 && Initial(cs[0])
    ensures Leads(cs[6], [Hello, Hello], 1, 6) && Heartbeat in cs[6].net
  {
    cs, evs := LeaderSends(Hello, Hello);
    var d := CommitsAndBeats(cs[4]);
    cs, evs := TwoMore(cs, evs, Commit(0), Send(0, []), d);
  }

  lemma {:induction false} HeartbeatBreaks(c: Cluster)
    requires Leads(c, [Hello, Hello], 1, 6) && Heartbeat in c.net
    ensures var ev := AnswerAppend(Heartbeat, Accepted(false));
            Enabled(c, ev) && TakesUncapped(c, ev, 1) && 1 in Step(c, ev).nodes && !IndicesValid(Step(c, ev).nodes[1])
  {
  }

  /** It does happen after a fresh start: a heartbeat that overtakes the entries it commits. */
  lemma {:induction false} UncappedHappens() returns (cs: seq<Cluster>, evs: seq<Event>)
    ensures IsRun(cs, evs) && Initial(cs[0]) && |evs| == 7 && TakesUncapped(cs[6], evs[6], 1)
    ensures 1 in cs[7].nodes && !IndicesValid(cs[7].nodes[1])
  {
    var cs6, evs6 := UpToTheHeartbeat();
    var ev := AnswerAppend(Heartbeat, Accepted(false));
    HeartbeatBreaks(cs6[6]);
    RunSnoc(cs6, evs6, ev, Step(cs6[6], ev));
    cs, evs := cs6 + [Step(cs6[6], ev)], evs6 + [ev];
  }

  // ----- a request that overtakes the one before it

  lemma {:induction false} SecondIsTaken(c: Cluster, a: Entry, b: Entry)
    requires Leads(c, [a, b], 0, 4) && Second(a, b) in c.net
    ensures var ev := AnswerAppend(Second(a, b), Accepted(true));
            && Enabled(c, ev) && Step(c, ev).nodes.Keys == {0, 1}
            && Step(c, ev).nodes[0].log == [a, b] && Step(c, ev).nodes[1].log == [b]
  {
    AppendAllAppends([], [b], 0);
  }

  lemma {:induction false} OneEntryWasThere(cs: seq<Cluster>, evs: seq<Event>, a: Entry, b: Entry)
    requires IsRun(cs, evs) && |evs| >= 4 && Leads(cs[2], [], 0, 2) && evs[2] == Send(0, [a]) && !a.committed
    ensures Start(cs, 0, 3) == 1
  {
    assert StepsAt(cs, evs, 2);
    assert cs[3].nodes[0].log == [a];
    ClockCounts(cs, evs, 2);
  }

  /** After a fresh start, with one sender: the follower that gets the second request first takes it, and its log is no
      prefix of the sender's. */
  lemma {:induction false} OvertakenRequest(a: Entry, b: Entry) returns (cs: seq<Cluster>, evs: seq<Event>)
    requires !a.committed && !b.committed && a != b
    ensures IsRun(cs, evs) && |evs| == 5 && Initial(cs[0]) && OnlySender(evs, 0) && OutOfTurn(cs, cs[4], evs[4], 0)
    ensures cs[5].nodes.Keys == {0, 1} && cs[5].nodes[0].log == [a, b] && cs[5].nodes[1].log == [b]
    ensures !LogsArePrefixes(cs[5], 0)
  {
    var cs4, evs4 := LeaderSends(a, b);
    var ev := AnswerAppend(Second(a, b), Accepted(true));
    SecondIsTaken(cs4[4], a, b);
    RunSnoc(cs4, evs4, ev, Step(cs4[4], ev));
    cs, evs := cs4 + [Step(cs4[4], ev)], evs4 + [ev];
    OneEntryWasThere(cs, evs, a, b);
  }

  // ----- two winners of one term: the pieces

  const ThreeNodes: Cluster :=
    Cluster(map[0 := Fresh, 1 := Fresh, 2 := Fresh], {}, map[0 := Idle, 1 := Idle, 2 := Idle], 0)

  /** A node in term `t` that has not voted in it and has no log. */
  predicate Blank(n: Node, t: int)
  {
    n.term == t && n.votedFor == None && n.commitIndex == n.lastApplied == 0 && n.log == []
  }

  /** Three such nodes, none of which is campaigning. */
  ghost predicate Level(c: Cluster, t0: int, t1: int, t2: int)
  {
    && c.nodes.Keys == c.elections.Keys == {0, 1, 2}
    && Blank(c.nodes[0], t0) && Blank(c.nodes[1], t1) && Blank(c.nodes[2], t2)
    && c.elections[0] == c.elections[1] == c.elections[2] == Idle
  }

  lemma ThreeStart()
    ensures var c := ThreeNodes; Initial(c) && Quiet(c) && OddSize(c) && Level(c, 0, 0, 0) && c.clock == 0
  {
    assert |{0, 1, 2}| == 3;
    assert ThreeNodes.nodes.Keys == {0, 1, 2};
  }

  lemma HalfOfTwo(c: Cluster, n: PeerId)
    requires c.nodes.Keys == {0, 1, 2} && n in c.nodes
    ensures Majority(c, n) == 1
  {
    assert |Peers(c, n)| == 2;
  }

  // ----- any term can be reached

  /** From `c` to `d` only node `n` and its election changed. */
  ghost predicate OnlyNode(c: Cluster, d: Cluster, n: PeerId)
  {
    && c.nodes.Keys == c.elections.Keys == d.nodes.Keys == d.elections.Keys == {0, 1, 2} && n in c.nodes
    && forall v :: v in c.nodes && v != n ==> d.nodes[v] == c.nodes[v] && d.elections[v] == c.elections[v]
  }

  lemma {:induction false} ClimbAsks(c: Cluster, n: PeerId, t: int) returns (d: Cluster)
    requires c.nodes.Keys == c.elections.Keys == {0, 1, 2} && n in c.nodes
    requires Blank(c.nodes[n], t) && t + 1 < U64 && c.elections[n] == Idle
    ensures Enabled(c, Campaign(n)) && d == Step(c, Campaign(n)) && d.clock == c.clock + 1 && OnlyNode(c, d, n)
    ensures Blank(d.nodes[n], t + 1) && d.elections[n].Running? && d.elections[n].count == 0
  {
    d := Step(c, Campaign(n));
  }

  lemma {:induction false} ClimbLoses(c: Cluster, n: PeerId, t: int) returns (d: Cluster)
    requires c.nodes.Keys == c.elections.Keys == {0, 1, 2} && n in c.nodes
    requires Blank(c.nodes[n], t) && c.elections[n].Running? && c.elections[n].count == 0
    ensures Enabled(c, Lose(n)) && d == Step(c, Lose(n)) && d.clock == c.clock + 1 && OnlyNode(c, d, n)
    ensures Blank(d.nodes[n], t) && d.elections[n] == Idle
  {
    HalfOfTwo(c, n);
    d := Step(c, Lose(n));
  }

  /** An election that nobody answers takes a node to the next term. */
  lemma {:induction false} ClimbOne(c: Cluster, n: PeerId, t: int) returns (d: Cluster)
    requires c.nodes.Keys == c.elections.Keys == {0, 1, 2} && n in c.nodes
    requires Blank(c.nodes[n], t) && t + 1 < U64 && c.elections[n] == Idle
    ensures InTwo(c, Campaign(n), Lose(n), d) && d.clock == c.clock + 2 && OnlyNode(c, d, n)
    ensures Blank(d.nodes[n], t + 1) && d.elections[n] == Idle
  {
    var c1 := ClimbAsks(c, n, t);
    d := ClimbLoses(c1, n, t + 1);
  }

  /** Nothing but elections that are started and lost. */
  ghost predicate OnlyClimbs(evs: seq<Event>)
  {
    forall k :: 0 <= k < |evs| ==> evs[k].Campaign? || evs[k].Lose?
  }

  lemma {:induction false} ClimbMore(cs: seq<Cluster>, evs: seq<Event>, n: PeerId, t: int)
    returns (cs': seq<Cluster>, evs': seq<Event>)
    requires IsRun(cs, evs) && OnlyClimbs(evs)
    requires var c := cs[|evs|];
             && c.nodes.Keys == c.elections.Keys == {0, 1, 2} && n in c.nodes
             && Blank(c.nodes[n], t) && t + 1 < U64 && c.elections[n] == Idle
    ensures IsRun(cs', evs') && OnlyClimbs(evs') && |evs'| == |evs| + 2 && cs <= cs'
    ensures var c, d := cs[|evs|], cs'[|evs'|];
            OnlyNode(c, d, n) && Blank(d.nodes[n], t + 1) && d.elections[n] == Idle && d.clock == c.clock + 2
  {
    var d := ClimbOne(cs[|evs|], n, t);
    cs', evs' := TwoMore(cs, evs, Campaign(n), Lose(n), d);
  }

  /** From a fresh start, three nodes get to any term. */
  lemma {:induction false} Climb(t: nat) returns (cs: seq<Cluster>, evs: seq<Event>)
    requires t < U64
    ensures IsRun(cs, evs) && cs[0] == ThreeNodes && OnlyClimbs(evs) && |evs| == 6 * t
    ensures Level(cs[|evs|], t, t, t) && cs[|evs|].clock == 6 * t
  {
    if t == 0 {
      ThreeStart();
      cs, evs := [ThreeNodes], [];
    } else {
      cs, evs := Climb(t - 1);
      cs, evs := ClimbMore(cs, evs, 0, t - 1);
      cs, evs := ClimbMore(cs, evs, 1, t - 1);
      cs, evs := ClimbMore(cs, evs, 2, t - 1);
    }
  }

  // ----- two candidates of one term

  /** What the clock shows when three nodes have climbed to the term before `t`. */
  function Base(t: Term): (b: nat) { if t == 0 then 0 else 6 * (t - 1) }

  /** The requests of the two candidates 0 and 1, and the positive replies to them. */
  function AskFor0(v: PeerId, t: Term): (p: Packet) { Packet(Base(t), 0, v, VoteRequest(Base(t), t, 0, 0)) }
  function AskFor1(v: PeerId, t: Term): (p: Packet) { Packet(Base(t) + 1, 1, v, VoteRequest(Base(t) + 1, t, 0, 0)) }
  function YesTo0(v: PeerId, t: Term): (p: Packet) { Packet(Base(t), v, 0, VoteReply(Base(t), t, true, t)) }
  function YesTo1(v: PeerId, t: Term): (p: Packet) { Packet(Base(t) + 1, v, 1, VoteReply(Base(t) + 1, t, true, t)) }

  /** Both candidates wait for votes. */
  ghost predicate Rivals(c: Cluster, t: Term)
  {
    && c.nodes.Keys == c.elections.Keys == {0, 1, 2}
    && c.elections[0] == Running(Base(t), t, {1, 2}, 0, {}) && c.elections[1] == Running(Base(t) + 1, t, {0, 2}, 0, {})
  }

  ghost predicate Asked(c: Cluster, t: Term)
  {
    && Rivals(c, t) && c.clock == Base(t) + 2 && c.elections[2] == Idle
    && AskFor0(1, t) in c.net && AskFor0(2, t) in c.net && AskFor1(0, t) in c.net && AskFor1(2, t) in c.net
    && c.nodes[0] == c.nodes[1] == Node(t, None, 0, 0, [], Candidate) && Blank(c.nodes[2], t - 1)
  }

  lemma {:induction false} FirstAsks(c: Cluster, t: Term) returns (d: Cluster)
    requires t > 0 && Level(c, t - 1, t - 1, t - 1) && c.clock == Base(t)
    ensures Enabled(c, Campaign(0)) && d == Step(c, Campaign(0))
    ensures d.nodes.Keys == d.elections.Keys == {0, 1, 2} && d.clock == Base(t) + 1
    ensures d.nodes[0] == Node(t, None, 0, 0, [], Candidate) && Blank(d.nodes[1], t - 1) && Blank(d.nodes[2], t - 1)
    ensures d.elections[0] == Running(Base(t), t, {1, 2}, 0, {}) && d.elections[1] == d.elections[2] == Idle
    ensures AskFor0(1, t) in d.net && AskFor0(2, t) in d.net
  {
    assert Peers(c, 0) == {1, 2};
    d := Step(c, Campaign(0));
  }

  lemma {:induction false} SecondAsks(c: Cluster, t: Term) returns (d: Cluster)
    requires t > 0 && c.nodes.Keys == c.elections.Keys == {0, 1, 2} && c.clock == Base(t) + 1
    requires c.nodes[0] == Node(t, None, 0, 0, [], Candidate) && Blank(c.nodes[1], t - 1) && Blank(c.nodes[2], t - 1)
    requires c.elections[0] == Running(Base(t), t, {1, 2}, 0, {}) && c.elections[1] == c.elections[2] == Idle
    requires AskFor0(1, t) in c.net && AskFor0(2, t) in c.net
    ensures Enabled(c, Campaign(1)) && d == Step(c, Campaign(1)) && Asked(d, t)
  {
    assert Peers(c, 1) == {0, 2};
    d := Step(c, Campaign(1));
  }

  lemma {:induction false} BothAskFrom(cs: seq<Cluster>, evs: seq<Event>, t: Term)
    returns (cs': seq<Cluster>, evs': seq<Event>)
    requires t > 0 && IsRun(cs, evs) && Level(cs[|evs|], t - 1, t - 1, t - 1) && cs[|evs|].clock == Base(t)
    ensures IsRun(cs', evs') && evs' == evs + [Campaign(0), Campaign(1)] && cs <= cs' && Asked(cs'[|evs'|], t)
  {
    var c1 := FirstAsks(cs[|evs|], t);
    var c2 := SecondAsks(c1, t);
    cs', evs' := TwoMore(cs, evs, Campaign(0), Campaign(1), c2);
  }

  /** At once after the start. */
  lemma {:induction false} BothAsk() returns (cs: seq<Cluster>, evs: seq<Event>)
    ensures IsRun(cs, evs) && evs == [Campaign(0), Campaign(1)] && cs[0] == ThreeNodes && Asked(cs[2], 1)
  {
    ThreeStart();
    cs, evs := BothAskFrom([ThreeNodes], [], 1);
    assert [] + [Campaign(0), Campaign(1)] == [Campaign(0), Campaign(1)];
  }

  /** One vote for each of them is on its way. */
  ghost predicate BothVoted(c: Cluster, x: PeerId, y: PeerId, t: Term)
  {
    Rivals(c, t) && (x == 1 || x == 2) && (y == 0 || y == 2) && YesTo0(x, t) in c.net && YesTo1(y, t) in c.net
  }

  lemma {:induction false} BothCount(c: Cluster, x: PeerId, y: PeerId, t: Term) returns (d: Cluster)
    requires BothVoted(c, x, y, t)
    ensures InTwo(c, CountVote(YesTo0(x, t)), CountVote(YesTo1(y, t)), d)
    ensures d.nodes.Keys == d.elections.Keys == {0, 1, 2}
    ensures d.elections[0].Running? && d.elections[0].count == 1 && d.elections[0].term == t
    ensures d.elections[1].Running? && d.elections[1].count == 1 && d.elections[1].term == t
  {
    var c1 := Step(c, CountVote(YesTo0(x, t)));
    assert YesTo1(y, t) in c1.net;
    d := Step(c1, CountVote(YesTo1(y, t)));
  }

  lemma {:induction false} BothWin(c: Cluster, t: Term) returns (d: Cluster)
    requires c.nodes.Keys == c.elections.Keys == {0, 1, 2}
    requires c.elections[0].Running? && c.elections[0].count == 1 && c.elections[0].term == t
    requires c.elections[1].Running? && c.elections[1].count == 1 && c.elections[1].term == t
    ensures InTwo(c, Win(0), Win(1), d) && WinsIn(c, Win(0), 0, t) && WinsIn(Step(c, Win(0)), Win(1), 1, t)
  {
    HalfOfTwo(c, 0);
    HalfOfTwo(Step(c, Win(0)), 1);
    d := Step(Step(c, Win(0)), Win(1));
  }

  /** Candidates 0 and 1 win term `t` with the last two events. */
  ghost predicate EndsWithTwoWinners(cs: seq<Cluster>, evs: seq<Event>, t: Term)
  {
    var n := |evs|;
    IsRun(cs, evs) && n >= 2 && WinsIn(cs[n - 2], evs[n - 2], 0, t) && WinsIn(cs[n - 1], evs[n - 1], 1, t)
  }

  /** One counted vote is half of two peers. */
  lemma {:induction false} VotesWin(cs: seq<Cluster>, evs: seq<Event>, x: PeerId, y: PeerId, t: Term)
    returns (cs': seq<Cluster>, evs': seq<Event>)
    requires IsRun(cs, evs) && BothVoted(cs[|evs|], x, y, t)
    ensures EndsWithTwoWinners(cs', evs', t) && cs <= cs'
    ensures evs' == evs + [CountVote(YesTo0(x, t)), CountVote(YesTo1(y, t))] + [Win(0), Win(1)]
  {
    var c := BothCount(cs[|evs|], x, y, t);
    cs', evs' := TwoMore(cs, evs, CountVote(YesTo0(x, t)), CountVote(YesTo1(y, t)), c);
    var d := BothWin(c, t);
    cs', evs' := TwoMore(cs', evs', Win(0), Win(1), d);
  }

  // ----- one of the winners grants the other

  lemma {:induction false} BothGrant(c: Cluster, t: Term) returns (d: Cluster)
    requires Asked(c, t)
    ensures InTwo(c, AnswerVote(AskFor0(1, t), true), AnswerVote(AskFor1(0, t), true), d) && BothVoted(d, 1, 0, t)
  {
    var c1 := Step(c, AnswerVote(AskFor0(1, t), true));
    assert YesTo0(1, t) in c1.net && AskFor1(0, t) in c1.net && c1.nodes[0] == c.nodes[0];
    d := Step(c1, AnswerVote(AskFor1(0, t), true));
    assert d.elections == c.elections;
  }

  // ----- a voter loses an election of that term

  ghost predicate VoterAsks(c: Cluster, t: Term)
  {
    && Rivals(c, t) && c.nodes[2] == Node(t, Some(0), 0, 0, [], Candidate)
    && c.elections[2].Running? && c.elections[2].count == 0
    && YesTo0(2, t) in c.net && AskFor1(2, t) in c.net
  }

  lemma {:induction false} AsksThenGrants(c: Cluster, t: Term) returns (d: Cluster)
    requires Asked(c, t)
    ensures InTwo(c, Campaign(2), AnswerVote(AskFor0(2, t), true), d) && VoterAsks(d, t)
  {
    var c1 := Step(c, Campaign(2));
    assert AskFor0(2, t) in c1.net && AskFor1(2, t) in c1.net;
    assert c1.nodes[2] == Node(t, None, 0, 0, [], Candidate);
    d := Step(c1, AnswerVote(AskFor0(2, t), true));
  }

  lemma {:induction false} LosesThenGrants(c: Cluster, t: Term) returns (d: Cluster)
    requires VoterAsks(c, t)
    ensures InTwo(c, Lose(2), AnswerVote(AskFor1(2, t), true), d) && BothVoted(d, 2, 2, t)
  {
    HalfOfTwo(c, 2);
    var c1 := Step(c, Lose(2));
    assert c1.nodes[2] == Node(t, None, 0, 0, [], Candidate);
    d := Step(c1, AnswerVote(AskFor1(2, t), true));
  }

  // ----- a voter accepts an AppendEntries of that term from the other candidate

  /** A client of candidate 1 hands in a command while the election is under way. */
  function EarlyRequest(t: Term): (p: Packet)
  {
    Packet(Base(t) + 3, 1, 2, AppendEntries(AppendRequest([Hello], 0, 0, 0, t)))
  }

  /** A node that has voted for candidate 0 and has no log. */
  predicate BacksFirst(n: Node, t: Term)
  {
    n.term == t && n.votedFor == Some(0) && n.commitIndex == n.lastApplied == 0 && n.log == []
  }

  ghost predicate RequestUnderWay(c: Cluster, t: Term)
  {
    && Rivals(c, t) && BacksFirst(c.nodes[2], t)
    && YesTo0(2, t) in c.net && AskFor1(2, t) in c.net && EarlyRequest(t) in c.net
  }

  lemma {:induction false} GrantsThenIsSent(c: Cluster, t: Term) returns (d: Cluster)
    requires Asked(c, t)
    ensures InTwo(c, AnswerVote(AskFor0(2, t), true), Send(1, [Hello]), d) && RequestUnderWay(d, t)
  {
    var c1 := Step(c, AnswerVote(AskFor0(2, t), true));
    assert BacksFirst(c1.nodes[2], t) && c1.nodes[1] == c.nodes[1];
    assert 2 in Peers(c1, 1) && BuildRequest(c1.nodes[1], [Hello]) == EarlyRequest(t).body.request;
    d := Step(c1, Send(1, [Hello]));
  }

  lemma {:induction false} AcceptsThenGrants(c: Cluster, t: Term) returns (d: Cluster)
    requires RequestUnderWay(c, t)
    ensures InTwo(c, AnswerAppend(EarlyRequest(t), Accepted(true)), AnswerVote(AskFor1(2, t), true), d)
    ensures BothVoted(d, 2, 2, t)
  {
    AppendAllAppends([], [Hello], 0);
    var c1 := Step(c, AnswerAppend(EarlyRequest(t), Accepted(true)));
    var n := c1.nodes[2];
    assert n.term == t && n.votedFor == Some(1) && n.commitIndex == n.lastApplied == 0;
    assert YesTo0(2, t) in c1.net && AskFor1(2, t) in c1.net;
    d := Step(c1, AnswerVote(AskFor1(2, t), true));
  }

  // ----- a voter wraps its term around

  const LAST: Term := 0xFFFF_FFFF_FFFF_FFFF

  ghost predicate VoterWrapped(c: Cluster)
  {
    && Rivals(c, LAST) && c.nodes[2] == Node(0, Some(0), 0, 0, [], Candidate)
    && c.elections[2].Running? && c.elections[2].count == 0
    && YesTo0(2, LAST) in c.net && AskFor1(2, LAST) in c.net
  }

  lemma {:induction false} GrantsThenWraps(c: Cluster) returns (d: Cluster)
    requires Asked(c, LAST)
    ensures InTwo(c, AnswerVote(AskFor0(2, LAST), true), Campaign(2), d) && VoterWrapped(d)
  {
    var c1 := Step(c, AnswerVote(AskFor0(2, LAST), true));
    assert BacksFirst(c1.nodes[2], LAST) && c1.elections == c.elections;
    assert YesTo0(2, LAST) in c1.net && AskFor1(2, LAST) in c1.net;
    d := Step(c1, Campaign(2));
  }

  lemma {:induction false} LosesLaterThenGrants(c: Cluster) returns (d: Cluster)
    requires VoterWrapped(c)
    ensures InTwo(c, Lose(2), AnswerVote(AskFor1(2, LAST), true), d) && BothVoted(d, 2, 2, LAST)
  {
    HalfOfTwo(c, 2);
    var c1 := Step(c, Lose(2));
    assert c1.nodes[2] == Node(0, None, 0, 0, [], Candidate);
    d := Step(c1, AnswerVote(AskFor1(2, LAST), true));
  }

  // ----- two winners of one term: the runs

  /** Nobody grants before event `i`. */
  ghost predicate NoGrantBefore(evs: seq<Event>, i: nat)
  {
    forall k :: 0 <= k < |evs| && evs[k].AnswerVote? ==> i <= k
  }

  lemma RivalsNeedAppends(evs: seq<Event>, a: PeerId, t: Term)
    requires forall k :: 0 <= k < |evs| ==> !evs[k].AnswerAppend?
    ensures NoRivals(evs, a, t)
  {
  }

  lemma LosersNeedLosses(cs: seq<Cluster>, evs: seq<Event>, a: PeerId, t: Term)
    requires |evs| <= |cs| && forall k :: 0 <= k < |evs| ==> !evs[k].Lose?
    ensures NoLosers(cs, evs, a, t)
  {
  }

  lemma WrapsNeedCampaigns(cs: seq<Cluster>, evs: seq<Event>, i: nat, a: PeerId, t: Term)
    requires |evs| <= |cs| && NoGrantBefore(evs, i) && forall k :: i < k < |evs| ==> !evs[k].Campaign?
    ensures NoWraps(cs, evs, a, t)
  {
  }

  /** All conditions of OneWinnerPerTerm for one of two candidates that are about its voters. */
  ghost predicate VotersKeep(cs: seq<Cluster>, evs: seq<Event>, a: PeerId, t: Term)
    requires |evs| <= |cs|
  {
    NoRivals(evs, a, t) && NoLosers(cs, evs, a, t) && NoWraps(cs, evs, a, t)
  }

  function MutualGrants(): (evs: seq<Event>)
  {
    [Campaign(0), Campaign(1), AnswerVote(AskFor0(1, 1), true), AnswerVote(AskFor1(0, 1), true),
     CountVote(YesTo0(1, 1)), CountVote(YesTo1(0, 1)), Win(0), Win(1)]
  }

  lemma {:induction false} MutualRun() returns (cs: seq<Cluster>)
    ensures EndsWithTwoWinners(cs, MutualGrants(), 1) && cs[0] == ThreeNodes
  {
    var evs;
    cs, evs := BothAsk();
    var d := BothGrant(cs[2], 1);
    cs, evs := TwoMore(cs, evs, AnswerVote(AskFor0(1, 1), true), AnswerVote(AskFor1(0, 1), true), d);
    cs, evs := VotesWin(cs, evs, 1, 0, 1);
    assert evs == MutualGrants();
  }

  /** A campaigning node has not voted for itself, so two candidates can elect each other. Nothing else goes wrong. */
  lemma {:induction false} WinnersGrantEachOther() returns (cs: seq<Cluster>, evs: seq<Event>)
    ensures EndsWithTwoWinners(cs, evs, 1) && Initial(cs[0]) && OddSize(cs[0])
    ensures VotersKeep(cs, evs, 0, 1) && VotersKeep(cs, evs, 1, 1)
  {
    ThreeStart();
    cs := MutualRun();
    evs := MutualGrants();
    forall a
      ensures VotersKeep(cs, evs, a, 1)
    {
      RivalsNeedAppends(evs, a, 1);
      LosersNeedLosses(cs, evs, a, 1);
      WrapsNeedCampaigns(cs, evs, 2, a, 1);
    }
  }

  function LossBetween(): (evs: seq<Event>)
  {
    [Campaign(0), Campaign(1), Campaign(2), AnswerVote(AskFor0(2, 1), true), Lose(2), AnswerVote(AskFor1(2, 1), true),
     CountVote(YesTo0(2, 1)), CountVote(YesTo1(2, 1)), Win(0), Win(1)]
  }

  lemma {:induction false} LossRun4() returns (cs: seq<Cluster>)
    ensures IsRun(cs, LossBetween()[..4]) && cs[0] == ThreeNodes && VoterAsks(cs[4], 1)
  {
    var evs;
    cs, evs := BothAsk();
    var c := AsksThenGrants(cs[2], 1);
    cs, evs := TwoMore(cs, evs, Campaign(2), AnswerVote(AskFor0(2, 1), true), c);
    assert evs == LossBetween()[..4];
  }

  lemma {:induction false} LossRun6() returns (cs: seq<Cluster>)
    ensures IsRun(cs, LossBetween()[..6]) && cs[0] == ThreeNodes && BothVoted(cs[6], 2, 2, 1)
  {
    cs := LossRun4();
    var evs := LossBetween()[..4];
    var d := LosesThenGrants(cs[4], 1);
    cs, evs := TwoMore(cs, evs, Lose(2), AnswerVote(AskFor1(2, 1), true), d);
    assert evs == LossBetween()[..6];
  }

  lemma {:induction false} LossRun() returns (cs: seq<Cluster>)
    ensures EndsWithTwoWinners(cs, LossBetween(), 1) && cs[0] == ThreeNodes
  {
    cs := LossRun6();
    var evs := LossBetween()[..6];
    cs, evs := VotesWin(cs, evs, 2, 2, 1);
    assert evs == LossBetween();
  }

  lemma {:induction false} LossConditions(cs: seq<Cluster>)
    requires |cs| >= 10
    ensures var evs := LossBetween();
            Strangers(evs, 0, 1, 1) && NoRivals(evs, 0, 1) && NoWraps(cs, evs, 0, 1) && VotersKeep(cs, evs, 1, 1)
  {
    var evs := LossBetween();
    RivalsNeedAppends(evs, 0, 1);
    RivalsNeedAppends(evs, 1, 1);
    WrapsNeedCampaigns(cs, evs, 3, 0, 1);
    WrapsNeedCampaigns(cs, evs, 3, 1, 1);
  }

  /** The third node votes for the first candidate, loses an election of its own, and votes for the second one. */
  lemma {:induction false} LossFreesTheVote() returns (cs: seq<Cluster>, evs: seq<Event>)
    ensures EndsWithTwoWinners(cs, evs, 1) && Initial(cs[0]) && OddSize(cs[0]) && Strangers(evs, 0, 1, 1)
    ensures NoRivals(evs, 0, 1) && NoWraps(cs, evs, 0, 1) && VotersKeep(cs, evs, 1, 1)
  {
    ThreeStart();
    cs := LossRun();
    evs := LossBetween();
    LossConditions(cs);
  }

  function RivalBetween(): (evs: seq<Event>)
  {
    [Campaign(0), Campaign(1), AnswerVote(AskFor0(2, 1), true), Send(1, [Hello]),
     AnswerAppend(EarlyRequest(1), Accepted(true)), AnswerVote(AskFor1(2, 1), true),
     CountVote(YesTo0(2, 1)), CountVote(YesTo1(2, 1)), Win(0), Win(1)]
  }

  lemma {:induction false} RivalRun4() returns (cs: seq<Cluster>)
    ensures IsRun(cs, RivalBetween()[..4]) && cs[0] == ThreeNodes && RequestUnderWay(cs[4], 1)
  {
    var evs;
    cs, evs := BothAsk();
    var c := GrantsThenIsSent(cs[2], 1);
    cs, evs := TwoMore(cs, evs, AnswerVote(AskFor0(2, 1), true), Send(1, [Hello]), c);
    assert evs == RivalBetween()[..4];
  }

  lemma {:induction false} RivalRun6() returns (cs: seq<Cluster>)
    ensures IsRun(cs, RivalBetween()[..6]) && cs[0] == ThreeNodes && BothVoted(cs[6], 2, 2, 1)
  {
    cs := RivalRun4();
    var evs := RivalBetween()[..4];
    var d := AcceptsThenGrants(cs[4], 1);
    cs, evs := TwoMore(cs, evs, AnswerAppend(EarlyRequest(1), Accepted(true)), AnswerVote(AskFor1(2, 1), true), d);
    assert evs == RivalBetween()[..6];
  }

  lemma {:induction false} RivalRun() returns (cs: seq<Cluster>)
    ensures EndsWithTwoWinners(cs, RivalBetween(), 1) && cs[0] == ThreeNodes
  {
    cs := RivalRun6();
    var evs := RivalBetween()[..6];
    cs, evs := VotesWin(cs, evs, 2, 2, 1);
    assert evs == RivalBetween();
  }

  lemma {:induction false} RivalConditions(cs: seq<Cluster>)
    requires |cs| >= 10
    ensures var evs := RivalBetween();
            Strangers(evs, 0, 1, 1) && NoLosers(cs, evs, 0, 1) && NoWraps(cs, evs, 0, 1) && VotersKeep(cs, evs, 1, 1)
  {
    var evs := RivalBetween();
    LosersNeedLosses(cs, evs, 0, 1);
    LosersNeedLosses(cs, evs, 1, 1);
    WrapsNeedCampaigns(cs, evs, 2, 0, 1);
    WrapsNeedCampaigns(cs, evs, 2, 1, 1);
  }

  /** The third node votes for the first candidate, accepts an AppendEntries of the second one, and votes for that. */
  lemma {:induction false} RivalTakesTheVote() returns (cs: seq<Cluster>, evs: seq<Event>)
    ensures EndsWithTwoWinners(cs, evs, 1) && Initial(cs[0]) && OddSize(cs[0]) && Strangers(evs, 0, 1, 1)
    ensures NoLosers(cs, evs, 0, 1) && NoWraps(cs, evs, 0, 1) && VotersKeep(cs, evs, 1, 1)
  {
    ThreeStart();
    cs := RivalRun();
    evs := RivalBetween();
    RivalConditions(cs);
  }

  /** What follows when all three nodes have climbed to the last term but one. */
  function WrapBetween(): (evs: seq<Event>)
  {
    [Campaign(0), Campaign(1), AnswerVote(AskFor0(2, LAST), true), Campaign(2), Lose(2),
     AnswerVote(AskFor1(2, LAST), true), CountVote(YesTo0(2, LAST)), CountVote(YesTo1(2, LAST)), Win(0), Win(1)]
  }

  lemma {:induction false} WrapRun2() returns (cs: seq<Cluster>, pre: seq<Event>)
    ensures OnlyClimbs(pre) && IsRun(cs, pre + WrapBetween()[..2]) && cs[0] == ThreeNodes && Asked(cs[|pre| + 2], LAST)
  {
    cs, pre := Climb(LAST - 1);
    var evs;
    cs, evs := BothAskFrom(cs, pre, LAST);
    assert evs == pre + WrapBetween()[..2];
  }

  lemma {:induction false} WrapRun4() returns (cs: seq<Cluster>, pre: seq<Event>)
    ensures OnlyClimbs(pre) && IsRun(cs, pre + WrapBetween()[..4]) && cs[0] == ThreeNodes && VoterWrapped(cs[|pre| + 4])
  {
    cs, pre := WrapRun2();
    var evs := pre + WrapBetween()[..2];
    var c := GrantsThenWraps(cs[|pre| + 2]);
    cs, evs := TwoMore(cs, evs, AnswerVote(AskFor0(2, LAST), true), Campaign(2), c);
    assert evs == pre + WrapBetween()[..4];
  }

  lemma {:induction false} WrapRun6() returns (cs: seq<Cluster>, pre: seq<Event>)
    ensures OnlyClimbs(pre) && IsRun(cs, pre + WrapBetween()[..6]) && cs[0] == ThreeNodes
    ensures VoterWrapped(cs[|pre| + 4]) && BothVoted(cs[|pre| + 6], 2, 2, LAST)
  {
    cs, pre := WrapRun4();
    var evs := pre + WrapBetween()[..4];
    var d := LosesLaterThenGrants(cs[|pre| + 4]);
    cs, evs := TwoMore(cs, evs, Lose(2), AnswerVote(AskFor1(2, LAST), true), d);
    assert evs == pre + WrapBetween()[..6];
  }

  lemma {:induction false} WrapRun() returns (cs: seq<Cluster>, pre: seq<Event>)
    ensures OnlyClimbs(pre) && EndsWithTwoWinners(cs, pre + WrapBetween(), LAST) && cs[0] == ThreeNodes
    ensures 2 in cs[|pre| + 4].nodes && cs[|pre| + 4].nodes[2].term == 0
  {
    cs, pre := WrapRun6();
    var evs := pre + WrapBetween()[..6];
    cs, evs := VotesWin(cs, evs, 2, 2, LAST);
    assert evs == pre + WrapBetween();
  }

  /** The events behind `pre`, one by one. */
  lemma {:induction false} WrapShape(pre: seq<Event>)
    requires OnlyClimbs(pre)
    ensures var evs, n := pre + WrapBetween(), |pre|;
            && (forall k :: 0 <= k < |evs| ==> !evs[k].AnswerAppend?)
            && (forall k :: 0 <= k < |evs| && evs[k].AnswerVote? ==> k == n + 2 || k == n + 5)
            && (forall k :: n + 2 < k < |evs| && evs[k].Lose? ==> k == n + 4)
            && (forall k :: n + 5 < k < |evs| ==> !evs[k].Campaign?)
            && evs[n + 2] == AnswerVote(AskFor0(2, LAST), true) && evs[n + 4] == Lose(2)
            && evs[n + 5] == AnswerVote(AskFor1(2, LAST), true)
  {
    var evs, n, w := pre + WrapBetween(), |pre|, WrapBetween();
    assert forall k :: n <= k < |evs| ==> evs[k] == w[k - n];
    assert forall k :: 0 <= k < n ==> evs[k] == pre[k];
  }

  lemma {:induction false} WrapConditions(cs: seq<Cluster>, pre: seq<Event>)
    requires |cs| >= |pre| + 10 && 2 in cs[|pre| + 4].nodes && cs[|pre| + 4].nodes[2].term == 0 && OnlyClimbs(pre)
    ensures var evs := pre + WrapBetween();
            && Strangers(evs, 0, 1, LAST) && VotersKeep(cs, evs, 1, LAST)
            && NoRivals(evs, 0, LAST) && NoLosers(cs, evs, 0, LAST)
  {
    var evs := pre + WrapBetween();
    WrapShape(pre);
    RivalsNeedAppends(evs, 0, LAST);
    RivalsNeedAppends(evs, 1, LAST);
  }

  /** After a fresh start and many lost elections, the third node votes for the first candidate, wraps its term, loses
      that election, and votes for the second one. */
  lemma {:induction false} WrapFreesTheVote() returns (cs: seq<Cluster>, evs: seq<Event>)
    ensures EndsWithTwoWinners(cs, evs, LAST) && Initial(cs[0]) && OddSize(cs[0]) && Strangers(evs, 0, 1, LAST)
    ensures NoRivals(evs, 0, LAST) && NoLosers(cs, evs, 0, LAST) && VotersKeep(cs, evs, 1, LAST)
  {
    ThreeStart();
    var pre;
    cs, pre := WrapRun();
    evs := pre + WrapBetween();
    WrapConditions(cs, pre);
  }

  ghost predicate TwoCandidates(c: Cluster)
  {
    && c.nodes.Keys == c.elections.Keys == {0, 1}
    && c.elections[0].Running? && c.elections[0].count == 0 && c.elections[0].term == 1
    && c.elections[1].Running? && c.elections[1].count == 0 && c.elections[1].term == 1
  }

  lemma {:induction false} TwoCampaign(c: Cluster) returns (d: Cluster)
    requires Initial(c) && c.nodes.Keys == {0, 1}
    ensures InTwo(c, Campaign(0), Campaign(1), d) && TwoCandidates(d)
  {
    var c1 := Step(c, Campaign(0));
    assert c1.nodes[1] == Fresh && c1.elections[1] == Idle;
    d := Step(c1, Campaign(1));
  }

  lemma {:induction false} TwoWinAtOnce(c: Cluster) returns (d: Cluster)
    requires TwoCandidates(c)
    ensures InTwo(c, Win(0), Win(1), d) && WinsIn(c, Win(0), 0, 1) && WinsIn(Step(c, Win(0)), Win(1), 1, 1)
  {
    HalfOfOne(c);
    HalfOfOne(Step(c, Win(0)));
    d := Step(Step(c, Win(0)), Win(1));
  }

  lemma {:induction false} EvenRun2() returns (cs: seq<Cluster>, evs: seq<Event>)
    ensures IsRun(cs, evs) && evs == [Campaign(0), Campaign(1)] && Initial(cs[0]) && TwoCandidates(cs[2])
  {
    TwoStart();
    var c := TwoCampaign(TwoNodes);
    cs, evs := TwoMore([TwoNodes], [], Campaign(0), Campaign(1), c);
    assert [] + [Campaign(0), Campaign(1)] == [Campaign(0), Campaign(1)];
  }

  lemma {:induction false} EvenRun() returns (cs: seq<Cluster>)
    ensures EndsWithTwoWinners(cs, [Campaign(0), Campaign(1), Win(0), Win(1)], 1) && Initial(cs[0])
  {
    var evs;
    cs, evs := EvenRun2();
    var d := TwoWinAtOnce(cs[2]);
    cs, evs := TwoMore(cs, evs, Win(0), Win(1), d);
    assert evs == [Campaign(0), Campaign(1), Win(0), Win(1)];
  }

  /** In a cluster of two, `peer_count / 2` is 0: both win without a single vote. */
  lemma {:induction false} EvenSizeHasTwoWinners() returns (cs: seq<Cluster>, evs: seq<Event>)
    ensures EndsWithTwoWinners(cs, evs, 1) && Initial(cs[0]) && Strangers(evs, 0, 1, 1)
    ensures VotersKeep(cs, evs, 0, 1) && VotersKeep(cs, evs, 1, 1)
  {
    cs := EvenRun();
    evs := [Campaign(0), Campaign(1), Win(0), Win(1)];
  }
}
