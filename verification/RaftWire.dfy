/** Raft messages as JSON text: what the sender prints, and what the receiver gets back out of it. */
module RaftWire {
  import opened Bytes
  import opened JsonValue
  import opened JsonNumber
  import opened JsonTokens
  import D = JsonDump
  import E = JsonEscape
  import G = JsonGrammar
  import L = JsonLex
  import N = RaftNode

  // ----- building and reading objects

  /** A key of a message, as bytes. */
  function Ascii(s: string): (r: seq<Byte>)
    requires forall i :: 0 <= i < |s| ==> s[i] as int < 0x80
    ensures |r| == |s| && forall i :: 0 <= i < |s| ==> r[i] == s[i] as int
  {
    seq(|s|, i requires 0 <= i < |s| => s[i] as int)
  }

  /** The keys of the flag in the two kinds of replies. */
  const VOTE_GRANTED: seq<Byte> := Ascii("vote_granted")
  const SUCCESS: seq<Byte> := Ascii("success")

  /** The object that an initializer list builds: its pairs, inserted one after the other. */
  function Inserted(fields: seq<Member>): (ms: seq<Member>)
  {
    if fields == [] then []
    else
      var last := fields[|fields| - 1];
      Put(Inserted(fields[..|fields| - 1]), last.key, last.value)
  }

  predicate Distinct(fields: seq<Member>)
  {
    forall i, j :: 0 <= i < j < |fields| ==> fields[i].key != fields[j].key
  }

  /** What can be stored, and dumped without loss. */
  predicate Plain(v: Value) { Stored(v) && D.Exact(v) }

  predicate AllPlain(fields: seq<Member>)
  {
    forall i :: 0 <= i < |fields| ==> Plain(fields[i].value)
  }

  lemma {:induction false} PutIsExact(ms: seq<Member>, k: seq<Byte>, v: Value)
    requires D.ExactMembers(ms) && D.Exact(v)
    ensures D.ExactMembers(Put(ms, k, v))
  {
    if ms != [] {
      if ms[0].key == k {
        assert Put(ms, k, v)[1..] == ms[1..];
      } else if Less(k, ms[0].key) {
        assert Put(ms, k, v)[1..] == ms;
      } else {
        PutIsExact(ms[1..], k, v);
        assert Put(ms, k, v)[1..] == Put(ms[1..], k, v);
      }
    }
  }

  lemma {:induction false} InsertedIsPlain(fields: seq<Member>)
    requires AllPlain(fields)
    ensures Sorted(Inserted(fields)) && Plain(Obj(Inserted(fields)))
    decreases |fields|
  {
    if fields != [] {
      var first, last := fields[..|fields| - 1], fields[|fields| - 1];
      InsertedIsPlain(first);
      PutUpdates(Inserted(first), last.key, last.value, []);
      PutIsStored(Inserted(first), last.key, last.value);
      PutIsExact(Inserted(first), last.key, last.value);
    }
  }

  lemma {:induction false} InsertedFinds(fields: seq<Member>, i: nat)
    requires AllPlain(fields) && Distinct(fields) && i < |fields|
    ensures Lookup(Inserted(fields), fields[i].key) == Some(fields[i].value)
    decreases |fields|
  {
    var first, last := fields[..|fields| - 1], fields[|fields| - 1];
    InsertedIsPlain(first);
    PutUpdates(Inserted(first), last.key, last.value, fields[i].key);
    if i < |first| {
      InsertedFinds(first, i);
    }
  }

  // ----- numbers and strings

  /** A `uint64_t` stored as an `int64_t`. */
  function PutU64(u: nat): (v: Value)
  {
    var low := u % N.U64;
    Int(if low < N.U64 / 2 then low else low - N.U64)
  }

  /** An `int64_t` read as a `uint64_t`; the conversion refuses what is no number. */
  function GetU64(v: Option<Value>): (r: Option<N.Term>)
  {
    match v
    case Some(Int(n)) => Some(n % N.U64)
    case _ => None
  }

  lemma U64Survives(u: nat)
    ensures Plain(PutU64(u)) && GetU64(Some(PutU64(u))) == Some(u % N.U64)
  {
  }

  lemma FitsU64(u: nat)
    ensures u % N.U64 == u <==> u < N.U64
  {
  }

  /** `c_str()`: the bytes before the first NUL. */
  function CText(s: seq<Byte>): (r: seq<Byte>)
    ensures r <= s && NUL !in r
    ensures r == s <==> NUL !in s
  {
    if s == [] || s[0] == NUL then [] else
      assert s == [s[0]] + s[1..];
      [s[0]] + CText(s[1..])
  }

  function Field(v: Value, key: seq<Byte>): (r: Option<Value>)
  {
    match v
    case Obj(ms) => Lookup(ms, key)
    case _ => None
  }

  // ----- AppendEntries

  function EntryFields(e: N.Entry): (fields: seq<Member>)
  {
    [Member(Ascii("term"), PutU64(e.term)), Member(Ascii("command"), Str(CText(e.command)))]
  }

  /** `LogEntry::to_json` */
  function EncodeEntry(e: N.Entry): (v: Value) { Obj(Inserted(EntryFields(e))) }

  function EncodeEntries(es: seq<N.Entry>): (vs: seq<Value>)
  {
    if es == [] then [] else [EncodeEntry(es[0])] + EncodeEntries(es[1..])
  }

  function AppendFields(m: N.AppendRequest): (fields: seq<Member>)
  {
    [ Member(Ascii("entries"), Arr(EncodeEntries(m.entries))),
      Member(Ascii("leader_commit"), PutU64(m.leaderCommit)),
      Member(Ascii("previous_log_index"), PutU64(m.prevIndex)),
      Member(Ascii("previous_log_term"), PutU64(m.prevTerm)),
      Member(Ascii("term"), PutU64(m.term)) ]
  }

  /** The payload of `send_append_entries`. */
  function EncodeAppend(m: N.AppendRequest): (v: Value) { Obj(Inserted(AppendFields(m))) }

  function DecodeEntry(v: Value): (r: Option<N.Entry>)
  {
    var term := GetU64(Field(v, Ascii("term")));
    match Field(v, Ascii("command"))
    case Some(Str(command)) => if term.Some? then Some(N.Entry(command, term.value, false)) else None
    case _ => None
  }

  function DecodeEntries(vs: seq<Value>): (r: Option<seq<N.Entry>>)
  {
    if vs == [] then Some([])
    else
      var first, more := DecodeEntry(vs[0]), DecodeEntries(vs[1..]);
      if first.Some? && more.Some? then Some([first.value] + more.value) else None
  }

  function Values(ms: seq<Member>): (vs: seq<Value>)
  {
    if ms == [] then [] else [ms[0].value] + Values(ms[1..])
  }

  /** The values that a range-based loop visits: none for null or a missing key, one for a scalar. */
  function Iterated(v: Option<Value>): (vs: seq<Value>)
  {
    match v
    case Some(Arr(es)) => es
    case Some(Obj(ms)) => Values(ms)
    case Some(Null) => []
    case None => []
    case Some(scalar) => [scalar]
  }

  /** The first half of `route_append_entries`; None where a conversion throws. */
  function DecodeAppend(v: Value): (r: Option<N.AppendRequest>)
  {
    var commit := GetU64(Field(v, Ascii("leader_commit")));
    var prevIndex := GetU64(Field(v, Ascii("previous_log_index")));
    var prevTerm := GetU64(Field(v, Ascii("previous_log_term")));
    var term := GetU64(Field(v, Ascii("term")));
    var entries := DecodeEntries(Iterated(Field(v, Ascii("entries"))));
    if commit.Some? && prevIndex.Some? && prevTerm.Some? && term.Some? && entries.Some? then
      Some(N.AppendRequest(entries.value, commit.value, prevIndex.value, prevTerm.value, term.value))
    else None
  }

  // ----- votes and replies

  datatype VoteRequest = VoteRequest(term: N.Term, lastApplied: nat, commitIndex: nat)

  /** The reply to either request: `flag` is `vote_granted` or `success`. */
  datatype Reply = Reply(term: N.Term, flag: bool)

  function VoteFields(m: VoteRequest): (fields: seq<Member>)
  {
    [ Member(Ascii("term"), PutU64(m.term)),
      Member(Ascii("last_applied"), PutU64(m.lastApplied)),
      Member(Ascii("commit_index"), PutU64(m.commitIndex)) ]
  }

  function EncodeVote(m: VoteRequest): (v: Value) { Obj(Inserted(VoteFields(m))) }

  function DecodeVote(v: Value): (r: Option<VoteRequest>)
  {
    var term := GetU64(Field(v, Ascii("term")));
    var lastApplied := GetU64(Field(v, Ascii("last_applied")));
    var commitIndex := GetU64(Field(v, Ascii("commit_index")));
    if term.Some? && lastApplied.Some? && commitIndex.Some? then
      Some(VoteRequest(term.value, lastApplied.value, commitIndex.value))
    else None
  }

  function ReplyFields(m: Reply, flag: seq<Byte>): (fields: seq<Member>)
  {
    [Member(Ascii("term"), PutU64(m.term)), Member(flag, Bool(m.flag))]
  }

  function EncodeReply(m: Reply, flag: seq<Byte>): (v: Value) { Obj(Inserted(ReplyFields(m, flag))) }

  function DecodeReply(v: Value, flag: seq<Byte>): (r: Option<Reply>)
  {
    var term := GetU64(Field(v, Ascii("term")));
    match Field(v, flag)
    case Some(Bool(b)) => if term.Some? then Some(Reply(term.value, b)) else None
    case _ => None
  }

  // ----- the text on the wire

  /** What the receiver parses: the body as a C string. */
  function Received(body: seq<Byte>): (v: Option<Value>) { G.Parse(Tokens(CText(body))) }

  lemma Join(a: seq<Byte>, b: seq<Byte>)
    requires NUL !in a && NUL !in b
    ensures NUL !in a + b
  {
  }

  lemma {:induction false} EscapeHasNoNul(s: seq<Byte>)
    ensures NUL !in E.Escape(s)
  {
    if s != [] {
      EscapeHasNoNul(s[1..]);
      Join(E.EscapeByte(s[0]), E.Escape(s[1..]));
    }
  }

  lemma QuotedHasNoNul(s: seq<Byte>)
    ensures NUL !in D.Quoted(s)
  {
    EscapeHasNoNul(s);
  }

  lemma {:induction false} NatTextHasNoNul(n: nat)
    ensures NUL !in NatText(n)
  {
    NatTextDigits(n);
  }

  /** A compact dump holds no NUL byte, so a C string carries it whole. */
  lemma {:induction false} DumpHasNoNul(v: Value, st: D.Style, indent: nat)
    requires D.Exact(v)
    ensures NUL !in D.Dump(v, st, indent)
    decreases v, 0
  {
    match v
    case Null =>
    case Bool(_) =>
    case Int(n) => NatTextHasNoNul(if n < 0 then 0 - n else n);
    case Real(_) =>
    case Str(s) => QuotedHasNoNul(s);
    case Arr(es) =>
      if es != [] {
        ElemsHaveNoNul(es, st, D.Deeper(st, indent));
        BracketsHaveNoNul(LBRACKET, D.DumpElems(es, st, D.Deeper(st, indent)), RBRACKET, st, indent);
      }
    case Obj(ms) =>
      if ms != [] {
        MembersHaveNoNul(ms, st, D.Deeper(st, indent));
        BracketsHaveNoNul(LBRACE, D.DumpMembers(ms, st, D.Deeper(st, indent)), RBRACE, st, indent);
      }
  }

  lemma BracketsHaveNoNul(open: Byte, inner: seq<Byte>, close: Byte, st: D.Style, indent: nat)
    requires open != NUL && close != NUL && NUL !in inner
    ensures NUL !in [open] + (D.Newline(st) + (inner + (D.Newline(st) + D.Spaces(indent) + [close])))
  {
  }

  lemma {:induction false} ElemsHaveNoNul(es: seq<Value>, st: D.Style, indent: nat)
    requires es != [] && D.ExactElems(es)
    ensures NUL !in D.DumpElems(es, st, indent)
    decreases es, 1
  {
    DumpHasNoNul(es[0], st, indent);
    if |es| > 1 {
      ElemsHaveNoNul(es[1..], st, indent);
    }
  }

  lemma {:induction false} MembersHaveNoNul(ms: seq<Member>, st: D.Style, indent: nat)
    requires ms != [] && D.ExactMembers(ms)
    ensures NUL !in D.DumpMembers(ms, st, indent)
    decreases ms, 1
  {
    QuotedHasNoNul(ms[0].key);
    DumpHasNoNul(ms[0].value, st, indent);
    if |ms| > 1 {
      MembersHaveNoNul(ms[1..], st, indent);
    }
  }

  /** Every message body is received as the value that was sent. */
  lemma {:induction false} BodyArrives(v: Value, indent: int)
    requires Plain(v)
    ensures Received(D.DumpText(v, indent)) == Some(v)
  {
    DumpHasNoNul(v, if indent >= 0 then D.Style(true, indent) else D.Style(false, 0), 0);
    D.DumpRoundTrip(v, indent);
  }

  // ----- what arrives

  function ArrivingEntries(es: seq<N.Entry>): (r: seq<N.Entry>)
    ensures |r| == |es|
    ensures forall i :: 0 <= i < |es| ==> r[i] == N.Entry(CText(es[i].command), es[i].term, false)
  {
    if es == [] then [] else [N.Entry(CText(es[0].command), es[0].term, false)] + ArrivingEntries(es[1..])
  }

  /** The request as the follower sees it: commands cut at a NUL, entries not committed, indices modulo 2^64. */
  function Arriving(m: N.AppendRequest): (r: N.AppendRequest)
  {
    m.(entries := ArrivingEntries(m.entries), leaderCommit := m.leaderCommit % N.U64, prevIndex := m.prevIndex % N.U64)
  }

  lemma {:induction false} EntryArrives(e: N.Entry)
    ensures Plain(EncodeEntry(e))
    ensures DecodeEntry(EncodeEntry(e)) == Some(N.Entry(CText(e.command), e.term, false))
  {
    var fields := EntryFields(e);
    U64Survives(e.term);
    InsertedIsPlain(fields);
    InsertedFinds(fields, 0);
    InsertedFinds(fields, 1);
  }

  lemma {:induction false} EntriesArrive(es: seq<N.Entry>)
    ensures Plain(Arr(EncodeEntries(es)))
    ensures DecodeEntries(EncodeEntries(es)) == Some(ArrivingEntries(es))
  {
    if es != [] {
      var vs := EncodeEntries(es);
      EntryArrives(es[0]);
      EntriesArrive(es[1..]);
      assert vs[1..] == EncodeEntries(es[1..]);
    }
  }

  lemma {:induction false} AppendFieldsArePlain(m: N.AppendRequest)
    ensures AllPlain(AppendFields(m)) && Distinct(AppendFields(m))
  {
    EntriesArrive(m.entries);
    U64Survives(m.leaderCommit);
    U64Survives(m.prevIndex);
    U64Survives(m.prevTerm);
    U64Survives(m.term);
  }

  lemma {:induction false} AppendFieldsAreFound(m: N.AppendRequest)
    ensures var v := EncodeAppend(m);
            && Field(v, Ascii("entries")) == Some(Arr(EncodeEntries(m.entries)))
            && Field(v, Ascii("leader_commit")) == Some(PutU64(m.leaderCommit))
            && Field(v, Ascii("previous_log_index")) == Some(PutU64(m.prevIndex))
            && Field(v, Ascii("previous_log_term")) == Some(PutU64(m.prevTerm))
            && Field(v, Ascii("term")) == Some(PutU64(m.term))
  {
    var fields := AppendFields(m);
    AppendFieldsArePlain(m);
    InsertedFinds(fields, 0);
    InsertedFinds(fields, 1);
    InsertedFinds(fields, 2);
    InsertedFinds(fields, 3);
    InsertedFinds(fields, 4);
  }

  lemma {:induction false} AppendDecodes(m: N.AppendRequest)
    ensures DecodeAppend(EncodeAppend(m)) == Some(Arriving(m))
  {
    AppendFieldsAreFound(m);
    EntriesArrive(m.entries);
    U64Survives(m.leaderCommit);
    U64Survives(m.prevIndex);
    U64Survives(m.prevTerm);
    U64Survives(m.term);
  }

  /** The AppendEntries request that the handler decodes from the sender's body. */
  lemma {:induction false} AppendArrives(m: N.AppendRequest, indent: int)
    ensures Received(D.DumpText(EncodeAppend(m), indent)) == Some(EncodeAppend(m))
    ensures DecodeAppend(EncodeAppend(m)) == Some(Arriving(m))
  {
    AppendFieldsArePlain(m);
    InsertedIsPlain(AppendFields(m));
    BodyArrives(EncodeAppend(m), indent);
    AppendDecodes(m);
  }

  predicate CommandsAreText(es: seq<N.Entry>)
  {
    forall i :: 0 <= i < |es| ==> NUL !in es[i].command
  }

  /** A request that can travel: no NUL in a command, no entry marked committed, 64-bit indices. */
  predicate Travels(m: N.AppendRequest)
  {
    m.leaderCommit < N.U64 && m.prevIndex < N.U64 && N.NoneCommitted(m.entries) && CommandsAreText(m.entries)
  }

  lemma {:induction false} EntriesUnchanged(es: seq<N.Entry>)
    ensures ArrivingEntries(es) == es <==> N.NoneCommitted(es) && CommandsAreText(es)
  {
    var r := ArrivingEntries(es);
    if r == es {
      forall i | 0 <= i < |es|
        ensures !es[i].committed && NUL !in es[i].command
      {
        assert r[i] == N.Entry(CText(es[i].command), es[i].term, false);
      }
    }
  }

  lemma {:induction false} ArrivingUnchanged(m: N.AppendRequest)
    ensures Arriving(m) == m <==> Travels(m)
  {
    EntriesUnchanged(m.entries);
    FitsU64(m.leaderCommit);
    FitsU64(m.prevIndex);
  }

  /** The follower handles the very request that was sent exactly when it can travel. */
  lemma {:induction false} AppendArrivesIntact(m: N.AppendRequest, indent: int)
    ensures var v := Received(D.DumpText(EncodeAppend(m), indent));
            v.Some? && (DecodeAppend(v.value) == Some(m) <==> Travels(m))
  {
    AppendArrives(m, indent);
    ArrivingUnchanged(m);
  }

  lemma {:induction false} VoteDecodes(m: VoteRequest)
    ensures Plain(EncodeVote(m))
    ensures DecodeVote(EncodeVote(m)) == Some(VoteRequest(m.term, m.lastApplied % N.U64, m.commitIndex % N.U64))
  {
    var fields := VoteFields(m);
    U64Survives(m.term);
    U64Survives(m.lastApplied);
    U64Survives(m.commitIndex);
    assert Ascii("last_applied")[0] == 0x6C && Ascii("commit_index")[0] == 0x63;
    InsertedIsPlain(fields);
    InsertedFinds(fields, 0);
    InsertedFinds(fields, 1);
    InsertedFinds(fields, 2);
  }

  /** The RequestVote request that the handler decodes from the candidate's body. */
  lemma {:induction false} VoteArrives(m: VoteRequest, indent: int)
    ensures var v := Received(D.DumpText(EncodeVote(m), indent));
            v.Some? && DecodeVote(v.value) == Some(VoteRequest(m.term, m.lastApplied % N.U64, m.commitIndex % N.U64))
  {
    VoteDecodes(m);
    BodyArrives(EncodeVote(m), indent);
  }

  lemma {:induction false} ReplyDecodes(m: Reply, flag: seq<Byte>)
    requires flag == VOTE_GRANTED || flag == SUCCESS
    ensures Plain(EncodeReply(m, flag)) && DecodeReply(EncodeReply(m, flag), flag) == Some(m)
  {
    var fields := ReplyFields(m, flag);
    U64Survives(m.term);
    InsertedIsPlain(fields);
    InsertedFinds(fields, 0);
    InsertedFinds(fields, 1);
  }

  /** The reply that a callback decodes from the peer's body is the one that was sent. */
  lemma {:induction false} ReplyArrives(m: Reply, flag: seq<Byte>, indent: int)
    requires flag == VOTE_GRANTED || flag == SUCCESS
    ensures var v := Received(D.DumpText(EncodeReply(m, flag), indent));
            v.Some? && DecodeReply(v.value, flag) == Some(m)
  {
    ReplyDecodes(m, flag);
    BodyArrives(EncodeReply(m, flag), indent);
  }

  // ----- the objects on the wire, key by key

  lemma KeysInOrder(a: seq<Byte>, b: seq<Byte>, i: nat)
    requires i < |a| && i < |b| && a[..i] == b[..i] && a[i] < b[i]
    ensures Less(a, b)
  {
    LessIsLexicographic(a, b);
  }

  lemma {:induction false} InsertedLast(fields: seq<Member>, last: Member)
    requires Inserted(fields) == fields && Below(fields, last.key)
    ensures Inserted(fields + [last]) == fields + [last]
  {
    assert (fields + [last])[..|fields|] == fields;
    PutAtEnd(fields, last.key, last.value);
  }

  lemma {:induction false} InsertedOne(m: Member)
    ensures Inserted([m]) == [m]
  {
    assert [m][..0] == [];
  }

  /** `{"command":...,"term":...}` */
  lemma {:induction false} EntryObject(e: N.Entry)
    ensures EncodeEntry(e) ==
            Obj([Member(Ascii("command"), Str(CText(e.command))), Member(Ascii("term"), PutU64(e.term))])
  {
    var fields := EntryFields(e);
    InsertedOne(fields[0]);
    assert fields[..1] == [fields[0]];
    assert Ascii("command")[0] == 0x63 && Ascii("term")[0] == 0x74;
    KeysInOrder(Ascii("command"), Ascii("term"), 0);
    LessIsTotal(Ascii("command"), Ascii("term"));
  }

  /** `{"commit_index":...,"last_applied":...,"term":...}` */
  lemma {:induction false} VoteObject(m: VoteRequest)
    ensures EncodeVote(m) ==
            Obj([Member(Ascii("commit_index"), PutU64(m.commitIndex)),
                 Member(Ascii("last_applied"), PutU64(m.lastApplied)), Member(Ascii("term"), PutU64(m.term))])
  {
    var fields := VoteFields(m);
    InsertedOne(fields[0]);
    assert fields[..1] == [fields[0]] && fields[..2][..1] == fields[..1];
    assert Ascii("commit_index")[0] == 0x63 && Ascii("last_applied")[0] == 0x6C && Ascii("term")[0] == 0x74;
    KeysInOrder(Ascii("last_applied"), Ascii("term"), 0);
    KeysInOrder(Ascii("commit_index"), Ascii("last_applied"), 0);
    LessIsTotal(Ascii("last_applied"), Ascii("term"));
    LessIsTotal(Ascii("commit_index"), Ascii("last_applied"));
    assert Inserted(fields[..2]) == [fields[1], fields[0]];
  }

  /** `{"term":...,"vote_granted":...}` and `{"success":...,"term":...}` */
  lemma {:induction false} ReplyObject(m: Reply)
    ensures EncodeReply(m, VOTE_GRANTED) ==
            Obj([Member(Ascii("term"), PutU64(m.term)), Member(Ascii("vote_granted"), Bool(m.flag))])
    ensures EncodeReply(m, SUCCESS) ==
            Obj([Member(Ascii("success"), Bool(m.flag)), Member(Ascii("term"), PutU64(m.term))])
  {
    var term := Member(Ascii("term"), PutU64(m.term));
    InsertedOne(term);
    assert ReplyFields(m, VOTE_GRANTED)[..1] == [term] && ReplyFields(m, SUCCESS)[..1] == [term];
    assert Ascii("success")[0] == 0x73 && Ascii("term")[0] == 0x74 && Ascii("vote_granted")[0] == 0x76;
    KeysInOrder(Ascii("success"), Ascii("term"), 0);
    KeysInOrder(Ascii("term"), Ascii("vote_granted"), 0);
    LessIsTotal(Ascii("success"), Ascii("term"));
    var granted := Member(Ascii("vote_granted"), Bool(m.flag));
    BelowNext([], term, granted.key);
    assert [] + [term] == [term];
    InsertedLast([term], granted);
    assert ReplyFields(m, VOTE_GRANTED) == [term] + [granted];
  }

  lemma AppendKeysInOrder()
    ensures Less(Ascii("entries"), Ascii("leader_commit")) && Less(Ascii("leader_commit"), Ascii("previous_log_index"))
    ensures Less(Ascii("previous_log_index"), Ascii("previous_log_term"))
    ensures Less(Ascii("previous_log_term"), Ascii("term"))
  {
    KeysInOrder(Ascii("entries"), Ascii("leader_commit"), 0);
    KeysInOrder(Ascii("leader_commit"), Ascii("previous_log_index"), 0);
    LogKeysInOrder();
    KeysInOrder(Ascii("previous_log_term"), Ascii("term"), 0);
  }

  lemma LogKeysInOrder()
    ensures Less(Ascii("previous_log_index"), Ascii("previous_log_term"))
  {
    var i, t := Ascii("previous_log_index"), Ascii("previous_log_term");
    assert i[13] == 0x69 && t[13] == 0x74;
    assert i[..13] == t[..13];
    KeysInOrder(i, t, 13);
  }

  /** `{"entries":[...],"leader_commit":...,"previous_log_index":...,"previous_log_term":...,"term":...}` */
  lemma {:induction false} AppendObject(m: N.AppendRequest)
    ensures EncodeAppend(m) ==
            Obj([Member(Ascii("entries"), Arr(EncodeEntries(m.entries))),
                 Member(Ascii("leader_commit"), PutU64(m.leaderCommit)),
                 Member(Ascii("previous_log_index"), PutU64(m.prevIndex)),
                 Member(Ascii("previous_log_term"), PutU64(m.prevTerm)), Member(Ascii("term"), PutU64(m.term))])
    ensures |EncodeEntries(m.entries)| == |m.entries|
    ensures forall i :: 0 <= i < |m.entries| ==> EncodeEntries(m.entries)[i] == EncodeEntry(m.entries[i])
  {
    var f := AppendFields(m);
    AppendKeysInOrder();
    SortedInserts(f);
    EncodeEach(m.entries);
  }

  lemma {:induction false} SortedInserts(f: seq<Member>)
    requires |f| == 5 && Less(f[0].key, f[1].key) && Less(f[1].key, f[2].key)
    requires Less(f[2].key, f[3].key) && Less(f[3].key, f[4].key)
    ensures Inserted(f) == f
  {
    InsertedOne(f[0]);
    BelowNext([], f[0], f[1].key);
    InsertedLast([f[0]], f[1]);
    BelowNext([f[0]], f[1], f[2].key);
    InsertedLast([f[0]] + [f[1]], f[2]);
    BelowNext([f[0]] + [f[1]], f[2], f[3].key);
    InsertedLast([f[0]] + [f[1]] + [f[2]], f[3]);
    BelowNext([f[0]] + [f[1]] + [f[2]], f[3], f[4].key);
    InsertedLast([f[0]] + [f[1]] + [f[2]] + [f[3]], f[4]);
    assert f == [f[0]] + [f[1]] + [f[2]] + [f[3]] + [f[4]];
  }

  lemma {:induction false} EncodeEach(es: seq<N.Entry>)
    ensures |EncodeEntries(es)| == |es| && forall i :: 0 <= i < |es| ==> EncodeEntries(es)[i] == EncodeEntry(es[i])
  {
    if es != [] {
      EncodeEach(es[1..]);
    }
  }

  /** A request without entries, or with null for them, is a heartbeat; anything that is no list of entries is
      refused. */
  lemma {:induction false} EntriesThatAreNone(v: Value)
    requires GetU64(Field(v, Ascii("leader_commit"))).Some? && GetU64(Field(v, Ascii("previous_log_index"))).Some?
    requires GetU64(Field(v, Ascii("previous_log_term"))).Some? && GetU64(Field(v, Ascii("term"))).Some?
    ensures var es, r := Field(v, Ascii("entries")), DecodeAppend(v);
            && (es == None || es == Some(Null) || es == Some(Arr([])) ==> r.Some? && r.value.entries == [])
            && (es.Some? && (es.value.Bool? || es.value.Int? || es.value.Str?) ==> r == None)
  {
  }
}
