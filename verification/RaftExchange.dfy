/** The messages of a run as texts: on the runs below, exchanging texts is exchanging the messages. */
module RaftExchange {
  import opened Bytes
  import opened RaftNode
  import opened RaftCluster
  import W = RaftWire
  import D = JsonDump

  /** The body of the HTTP request or response that carries a message. */
  function Text(b: Body): (s: seq<Byte>)
  {
    D.DumpText(match b
               case VoteRequest(_, term, commitIndex, lastApplied) =>
                 W.EncodeVote(W.VoteRequest(term, lastApplied, commitIndex))
               case VoteReply(_, _, granted, term) => W.EncodeReply(W.Reply(term, granted), W.VOTE_GRANTED)
               case AppendEntries(request) => W.EncodeAppend(request)
               case AppendReply(success, term) => W.EncodeReply(W.Reply(term, success), W.SUCCESS), -1)
  }

  /** The receiver decodes from the text just what the message says. */
  ghost predicate Arrives(b: Body)
  {
    var v := W.Received(Text(b));
    v.Some? &&
    match b
    case VoteRequest(_, term, commitIndex, lastApplied) =>
      W.DecodeVote(v.value) == Some(W.VoteRequest(term, lastApplied, commitIndex))
    case VoteReply(_, _, granted, term) =>
      W.DecodeReply(v.value, W.VOTE_GRANTED) == Some(W.Reply(term, granted))
    case AppendEntries(request) =>
      W.DecodeAppend(v.value) == Some(request)
    case AppendReply(success, term) =>
      W.DecodeReply(v.value, W.SUCCESS) == Some(W.Reply(term, success))
  }

  predicate CanTravel(b: Body)
  {
    (b.AppendEntries? ==> W.Travels(b.request)) && (b.VoteRequest? ==> b.commitIndex < U64 && b.lastApplied < U64)
  }

  lemma {:induction false} TravellersArrive(b: Body)
    requires CanTravel(b)
    ensures Arrives(b)
  {
    match b
    case VoteRequest(_, term, commitIndex, lastApplied) =>
      W.VoteArrives(W.VoteRequest(term, lastApplied, commitIndex), -1);
      W.FitsU64(lastApplied);
      W.FitsU64(commitIndex);
    case VoteReply(_, _, granted, term) => W.ReplyArrives(W.Reply(term, granted), W.VOTE_GRANTED, -1);
    case AppendEntries(request) => W.AppendArrivesIntact(request, -1);
    case AppendReply(success, term) => W.ReplyArrives(W.Reply(term, success), W.SUCCESS, -1);
  }

  // ----- along a run

  predicate IndicesFit(n: Node) { n.commitIndex < U64 && n.lastApplied < U64 }

  ghost predicate Exchanging(c: Cluster)
  {
    (forall n :: n in c.nodes ==> IndicesFit(c.nodes[n])) && (forall p :: p in c.net ==> CanTravel(p.body))
  }

  /** The event sends no command with a NUL. */
  predicate SendsText(ev: Event) { ev.Send? ==> W.CommandsAreText(ev.entries) }

  lemma {:induction false} ActorFits(c: Cluster, ev: Event)
    requires Enabled(c, ev) && Exchanging(c) && |c.nodes[Actor(ev)].log| <= U64
    ensures IndicesFit(ActorAfter(c, ev))
  {
    if ev.AnswerAppend? {
      assert CanTravel(ev.packet.body);
    }
  }

  lemma {:induction false} SentCanTravel(c: Cluster, ev: Event, p: Packet)
    requires Enabled(c, ev) && Exchanging(c) && SendsText(ev) && p in Sent(c, ev)
    ensures CanTravel(p.body)
  {
  }

  lemma {:induction false} StepKeepsExchanging(c: Cluster, ev: Event)
    requires Enabled(c, ev) && Exchanging(c) && SendsText(ev) && |c.nodes[Actor(ev)].log| <= U64
    ensures Exchanging(Step(c, ev))
  {
    var r := Step(c, ev);
    ActorFits(c, ev);
    forall p | p in r.net
      ensures CanTravel(p.body)
    {
      if p in Sent(c, ev) {
        SentCanTravel(c, ev, p);
      }
    }
  }

  /** No log grows beyond 2^64 entries. */
  ghost predicate LogsFit(cs: seq<Cluster>)
  {
    forall i, n :: 0 <= i < |cs| && n in cs[i].nodes ==> |cs[i].nodes[n].log| <= U64
  }

  lemma {:induction false} RunKeepsExchanging(cs: seq<Cluster>, evs: seq<Event>, j: nat)
    requires IsRun(cs, evs) && j < |cs| && Exchanging(cs[0]) && LogsFit(cs)
    requires forall i :: 0 <= i < |evs| ==> SendsText(evs[i])
    ensures Exchanging(cs[j])
  {
    if j > 0 {
      RunKeepsExchanging(cs, evs, j - 1);
      assert StepsAt(cs, evs, j - 1);
      StepKeepsExchanging(cs[j - 1], evs[j - 1]);
    }
  }

  /** On every run from a fresh start with commands that hold no NUL, every message under way is decoded from its text
      exactly as it was sent. */
  lemma {:induction false} EveryMessageArrives(cs: seq<Cluster>, evs: seq<Event>, j: nat, p: Packet)
    requires IsRun(cs, evs) && Initial(cs[0]) && LogsFit(cs) && (forall i :: 0 <= i < |evs| ==> SendsText(evs[i]))
    requires j < |cs| && p in cs[j].net
    ensures Arrives(p.body)
  {
    RunKeepsExchanging(cs, evs, j);
    TravellersArrive(p.body);
  }
}
