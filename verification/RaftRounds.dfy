/** A run on which a commit is ahead of what a majority has. */
module RaftRounds {
  import opened Bytes
  import opened RaftNode
  import opened RaftCluster
  import opened RaftVotes
  import opened RaftReplication
  import opened RaftCommit
  import opened RaftRuns

  /** Three nodes in term 0; the first has `log`, the second `half`, the third nothing, and `p` is under way. */
  ghost predicate Round(c: Cluster, log: seq<Entry>, half: seq<Entry>, vote: Option<PeerId>, p: Packet)
  {
    && c.nodes.Keys == c.elections.Keys == {0, 1, 2} && p in c.net
    && c.nodes[0] == Fresh.(log := log) && c.nodes[1] == Fresh.(log := half, votedFor := vote) && c.nodes[2] == Fresh
  }

  /** The last entry is only at the sender. */
  ghost predicate Behind(c: Cluster, a: Entry, b: Entry, e: Entry)
  {
    && c.nodes.Keys == c.elections.Keys == {0, 1, 2} && c.nodes[0] == Fresh.(log := [a, b, e])
    && c.nodes[1].log == [a, b] && c.nodes[2].log == []
  }

  function Batch(a: Entry, b: Entry): (p: Packet)
  {
    Packet(0, 0, 1, AppendEntries(AppendRequest([a, b], 0, 0, 0, 0)))
  }

  const Ack: Packet := Packet(0, 1, 0, AppendReply(true, 0))

  lemma {:induction false} BatchIsTaken(c: Cluster, a: Entry, b: Entry) returns (d: Cluster)
    requires c == ThreeNodes && !a.committed && !b.committed
    ensures InTwo(c, Send(0, [a, b]), AnswerAppend(Batch(a, b), Accepted(true)), d)
    ensures Round(d, [a, b], [a, b], Some(0), Ack)
  {
    var c1 := Step(c, Send(0, [a, b]));
    assert 1 in Peers(c, 0);
    assert BuildRequest(c.nodes[0], [a, b]) == Batch(a, b).body.request;
    assert [] + [a, b] == [a, b];
    assert Round(c1, [a, b], [], None, Batch(a, b));
    AppendAllAppends([], [a, b], 0);
    d := Step(c1, AnswerAppend(Batch(a, b), Accepted(true)));
  }

  lemma {:induction false} MoreIsSent(c: Cluster, a: Entry, b: Entry, e: Entry) returns (d: Cluster)
    requires Round(c, [a, b], [a, b], Some(0), Ack) && !e.committed
    ensures InTwo(c, Send(0, [e]), CountAppend(Ack), d)
    ensures d.nodes == Step(c, Send(0, [e])).nodes && Behind(d, a, b, e)
  {
    var c1 := Step(c, Send(0, [e]));
    assert [a, b] + [e] == [a, b, e];
    assert Round(c1, [a, b, e], [a, b], Some(0), Ack);
    d := Step(c1, CountAppend(Ack));
  }

  lemma {:induction false} RoundIsOver(cs: seq<Cluster>, evs: seq<Event>)
    requires |evs| == 5 && |cs| == 6 && cs[0] == ThreeNodes && 0 in cs[3].nodes && cs[3].nodes[0].term == 0
    requires evs[0].Send? && evs[0].node == 0 && evs[3] == CountAppend(Ack) && evs[4] == Commit(0)
    ensures EndsRound(cs, evs, 0, 4)
  {
    assert Counted(cs, evs, 0, 3, 1);
    assert Supports(cs, evs, 0, 4, 1);
    assert ThreeNodes.nodes.Keys == {0, 1, 2};
    assert 1 in Supporters(cs, evs, 0, 4);
    assert Peers(ThreeNodes, 0) == {1, 2};
    assert |Supporters(cs, evs, 0, 4)| > 0;
  }

  lemma {:induction false} FirstRound(a: Entry, b: Entry) returns (cs: seq<Cluster>, evs: seq<Event>)
    requires !a.committed && !b.committed
    ensures IsRun(cs, evs) && cs[0] == ThreeNodes
    ensures evs == [Send(0, [a, b]), AnswerAppend(Batch(a, b), Accepted(true))]
    ensures Round(cs[2], [a, b], [a, b], Some(0), Ack)
  {
    var c := BatchIsTaken(ThreeNodes, a, b);
    assert IsRun([ThreeNodes], []);
    cs, evs := TwoMore([ThreeNodes], [], Send(0, [a, b]), AnswerAppend(Batch(a, b), Accepted(true)), c);
  }

  lemma {:induction false} UpToTheAnswer(a: Entry, b: Entry, e: Entry) returns (cs: seq<Cluster>, evs: seq<Event>)
    requires !a.committed && !b.committed && !e.committed
    ensures IsRun(cs, evs) && cs[0] == ThreeNodes
    ensures evs == [Send(0, [a, b]), AnswerAppend(Batch(a, b), Accepted(true)), Send(0, [e]), CountAppend(Ack)]
    ensures cs[3].nodes == cs[4].nodes && Behind(cs[4], a, b, e)
  {
    cs, evs := FirstRound(a, b);
    var c := MoreIsSent(cs[2], a, b, e);
    cs, evs := TwoMore(cs, evs, Send(0, [e]), CountAppend(Ack), c);
  }

  /** And yet it is committed. */
  ghost predicate Outruns(c: Cluster, a: Entry, b: Entry, e: Entry)
  {
    && c.nodes.Keys == {0, 1, 2} && c.nodes[0].commitIndex == 2 && c.nodes[0].log == [a, b, e]
    && c.nodes[1].log == [a, b] && c.nodes[2].log == []
  }

  lemma {:induction false} CommitsAll(c: Cluster, a: Entry, b: Entry, e: Entry) returns (d: Cluster)
    requires Behind(c, a, b, e)
    ensures Enabled(c, Commit(0)) && d == Step(c, Commit(0)) && Outruns(d, a, b, e)
  {
    d := Step(c, Commit(0));
  }

  lemma {:induction false} BatchIsInTurn(cs: seq<Cluster>, evs: seq<Event>, a: Entry, b: Entry)
    requires |evs| == 5 && |cs| == 6 && cs[0] == ThreeNodes && evs[1] == AnswerAppend(Batch(a, b), Accepted(true))
    requires !evs[0].AnswerAppend? && !evs[2].AnswerAppend? && !evs[3].AnswerAppend? && !evs[4].AnswerAppend?
    ensures InTurn(cs, evs, 5, 0)
  {
    assert Start(cs, 0, 0) == 0;
  }

  lemma {:induction false} UpToTheCommit(a: Entry, b: Entry, e: Entry) returns (cs: seq<Cluster>, evs: seq<Event>)
    requires !a.committed && !b.committed && !e.committed
    ensures IsRun(cs, evs) && cs[0] == ThreeNodes && Outruns(cs[|evs|], a, b, e)
    ensures evs == [Send(0, [a, b]), AnswerAppend(Batch(a, b), Accepted(true)), Send(0, [e]), CountAppend(Ack),
                    Commit(0)]
    ensures 0 in cs[3].nodes && cs[3].nodes[0].term == 0
  {
    var cs4, evs4 := UpToTheAnswer(a, b, e);
    var c := CommitsAll(cs4[4], a, b, e);
    RunSnoc(cs4, evs4, Commit(0), c);
    cs, evs := cs4 + [c], evs4 + [Commit(0)];
  }

  /** After a fresh start, with one sender and everything in turn: a round ends with a commit that covers an entry which
      was sent meanwhile and which no other node has. */
  lemma {:induction false} CommitOutrunsRound(a: Entry, b: Entry, e: Entry)
    returns (cs: seq<Cluster>, evs: seq<Event>)
    requires !a.committed && !b.committed && !e.committed
    ensures IsRun(cs, evs) && |evs| == 5 && Initial(cs[0]) && OddSize(cs[0]) && OnlySender(evs, 0)
    ensures InTurn(cs, evs, 5, 0) && EndsRound(cs, evs, 0, 4) && !NothingSent(evs, 1, 4)
    ensures Outruns(cs[5], a, b, e)
  {
    cs, evs := UpToTheCommit(a, b, e);
    assert Initial(cs[0]) && OddSize(cs[0]) by {
      ThreeStart();
    }
    BatchIsInTurn(cs, evs, a, b);
    RoundIsOver(cs, evs);
    assert evs[2] == Send(0, [e]);
  }
}
