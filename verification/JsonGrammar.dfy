/** The grammar of sections 2-5 of RFC 7159 over tokens, and the recursive-descent parser as a function. A derivation is
    a value whose objects may repeat keys; its tokens are its yield. */
module JsonGrammar {
  import opened Bytes
  import S = Seqs
  import opened JsonLex
  import opened JsonString
  import opened JsonValue

  /** A token with the value that the parser asks the lexer for. `Number(None)` is a number that `get_number`
      refuses. */
  datatype Token = Plain(kind: Kind) | Text(text: JsonString.Text) | Number(number: Option<Value>)

  predicate IsNumberValue(v: Value) { v.Int? || v.Real? }

  // ----- the grammar

  function Yield(v: Value): (ts: seq<Token>)
    ensures ts != []
    decreases v, 0
  {
    match v
    case Null => [Plain(LiteralNull)]
    case Bool(b) => [Plain(if b then LiteralTrue else LiteralFalse)]
    case Int(_) => [Number(Some(v))]
    case Real(_) => [Number(Some(v))]
    case Str(s) => [Text(Bytes(s))]
    case Arr(es) =>
      if es == [] then [Plain(BeginArray), Plain(EndArray)]
      else [Plain(BeginArray)] + YieldElems(es) + [Plain(EndArray)]
    case Obj(ms) =>
      if ms == [] then [Plain(BeginObject), Plain(EndObject)]
      else [Plain(BeginObject)] + YieldMembers(ms) + [Plain(EndObject)]
  }

  function YieldElems(es: seq<Value>): (ts: seq<Token>)
    requires es != []
    ensures ts != []
    decreases es, 1
  {
    Yield(es[0]) + if |es| == 1 then [] else [Plain(ValueSeparator)] + YieldElems(es[1..])
  }

  function YieldMembers(ms: seq<Member>): (ts: seq<Token>)
    requires ms != []
    ensures ts != []
    decreases ms, 1
  {
    [Text(Bytes(ms[0].key)), Plain(NameSeparator)] + Yield(ms[0].value) +
    if |ms| == 1 then [] else [Plain(ValueSeparator)] + YieldMembers(ms[1..])
  }

  // ----- the parser

  datatype Parsed = Ok(value: Value, rest: seq<Token>) | Fail

  function ParseValue(ts: seq<Token>): (r: Parsed)
    ensures r.Ok? ==> |r.rest| < |ts|
    decreases |ts|, 0
  {
    if ts == [] then Fail
    else
      match ts[0]
      case Text(Bytes(s)) => Ok(Str(s), ts[1..])
      case Text(Refused) => Fail
      case Text(Unread) => Fail
      case Number(Some(v)) => if IsNumberValue(v) then Ok(v, ts[1..]) else Fail
      case Number(None) => Fail
      case Plain(k) =>
        if k == LiteralNull then Ok(Null, ts[1..])
        else if k == LiteralTrue then Ok(Bool(true), ts[1..])
        else if k == LiteralFalse then Ok(Bool(false), ts[1..])
        else if k == BeginArray then
          if |ts| >= 2 && ts[1] == Plain(EndArray) then Ok(Arr([]), ts[2..])
          else if |ts| >= 2 && ts[1] == Plain(ValueSeparator) then Fail
          else ParseElems(ts[1..], [])
        else if k == BeginObject then
          if |ts| >= 2 && ts[1] == Plain(EndObject) then Ok(Obj([]), ts[2..])
          else if |ts| >= 2 && ts[1] == Plain(ValueSeparator) then Fail
          else ParseMembers(ts[1..], [])
        else Fail
  }

  function ParseElems(ts: seq<Token>, acc: seq<Value>): (r: Parsed)
    ensures r.Ok? ==> |r.rest| < |ts|
    decreases |ts|, 1
  {
    match ParseValue(ts)
    case Fail => Fail
    case Ok(v, rest) =>
      if rest == [] then Fail
      else if rest[0] == Plain(ValueSeparator) then ParseElems(rest[1..], acc + [v])
      else if rest[0] == Plain(EndArray) then Ok(Arr(acc + [v]), rest[1..])
      else Fail
  }

  function ParseMembers(ts: seq<Token>, acc: seq<Member>): (r: Parsed)
    ensures r.Ok? ==> |r.rest| < |ts|
    decreases |ts|, 1
  {
    if |ts| < 2 || !ts[0].Text? || !ts[0].text.Bytes? || ts[1] != Plain(NameSeparator) then Fail
    else
      match ParseValue(ts[2..])
      case Fail => Fail
      case Ok(v, rest) =>
        var acc' := Put(acc, ts[0].text.bytes, v);
        if rest == [] then Fail
        else if rest[0] == Plain(ValueSeparator) then ParseMembers(rest[1..], acc')
        else if rest[0] == Plain(EndObject) then Ok(Obj(acc'), rest[1..])
        else Fail
  }

  /** `parser::parse`: a value, and then the end of the input. */
  function Parse(ts: seq<Token>): (r: Option<Value>)
  {
    match ParseValue(ts)
    case Fail => None
    case Ok(v, rest) => if rest != [] && rest[0] == Plain(EndOfInput) then Some(v) else None
  }

  // ----- the parser accepts every derivation

  lemma {:induction false} FirstToken(v: Value)
    ensures Yield(v)[0] != Plain(EndArray) && Yield(v)[0] != Plain(EndObject) && Yield(v)[0] != Plain(ValueSeparator)
  {
  }

  lemma {:induction false} ParseYield(v: Value, rest: seq<Token>)
    ensures ParseValue(Yield(v) + rest) == Ok(Normalize(v), rest)
    decreases v, 0
  {
    match v
    case Arr(es) => ParseYieldArray(es, rest);
    case Obj(ms) => ParseYieldObject(ms, rest);
    case _ => S.Cons(Yield(v)[0], rest);
  }

  lemma {:induction false} ParseYieldArray(es: seq<Value>, rest: seq<Token>)
    ensures ParseValue(Yield(Arr(es)) + rest) == Ok(Normalize(Arr(es)), rest)
    decreases es, 2
  {
    if es == [] {
      S.Cons2(Plain(BeginArray), Plain(EndArray), rest);
    } else {
      var inner := YieldElems(es) + ([Plain(EndArray)] + rest);
      S.Bracketed(Plain(BeginArray), YieldElems(es), Plain(EndArray), rest);
      S.Cons(Plain(BeginArray), inner);
      FirstToken(es[0]);
      ParseYieldElems(es, [], rest);
      S.Empty(NormalizeElems(es));
    }
  }

  lemma {:induction false} ParseYieldObject(ms: seq<Member>, rest: seq<Token>)
    ensures ParseValue(Yield(Obj(ms)) + rest) == Ok(Normalize(Obj(ms)), rest)
    decreases ms, 2
  {
    if ms == [] {
      S.Cons2(Plain(BeginObject), Plain(EndObject), rest);
    } else {
      var inner := YieldMembers(ms) + ([Plain(EndObject)] + rest);
      S.Bracketed(Plain(BeginObject), YieldMembers(ms), Plain(EndObject), rest);
      S.Cons(Plain(BeginObject), inner);
      ParseYieldMembers(ms, [], rest);
    }
  }

  lemma {:induction false} ParseYieldElems(es: seq<Value>, acc: seq<Value>, rest: seq<Token>)
    requires es != []
    ensures ParseElems(YieldElems(es) + ([Plain(EndArray)] + rest), acc) == Ok(Arr(acc + NormalizeElems(es)), rest)
    decreases es, 1
  {
    var tail := [Plain(EndArray)] + rest;
    var v := Normalize(es[0]);
    S.Cons(Plain(EndArray), rest);
    S.Assoc(acc, [v], NormalizeElems(es[1..]));
    if |es| == 1 {
      S.Empty(Yield(es[0]));
      ParseYield(es[0], tail);
      S.Empty([v]);
    } else {
      var next := YieldElems(es[1..]);
      S.Assoc4(Yield(es[0]), [Plain(ValueSeparator)], next, tail);
      ParseYield(es[0], [Plain(ValueSeparator)] + (next + tail));
      S.Cons(Plain(ValueSeparator), next + tail);
      ParseYieldElems(es[1..], acc + [v], rest);
    }
  }

  /** The tokens of the first member, its separator aside, as the parser meets them. */
  lemma {:induction false} MemberTokens(ms: seq<Member>, tail: seq<Token>)
    requires ms != []
    ensures var more := if |ms| == 1 then [] else [Plain(ValueSeparator)] + YieldMembers(ms[1..]);
            var ts := YieldMembers(ms) + tail;
            && |ts| >= 2 && ts[0] == Text(Bytes(ms[0].key)) && ts[1] == Plain(NameSeparator)
            && ts[2..] == Yield(ms[0].value) + (more + tail)
  {
    var head := [Text(Bytes(ms[0].key)), Plain(NameSeparator)];
    var more := if |ms| == 1 then [] else [Plain(ValueSeparator)] + YieldMembers(ms[1..]);
    S.Assoc(head, Yield(ms[0].value), more);
    S.Assoc4(head, Yield(ms[0].value), more, tail);
    S.Cons2(head[0], head[1], Yield(ms[0].value) + (more + tail));
  }

  lemma {:induction false} ParseYieldMembers(ms: seq<Member>, acc: seq<Member>, rest: seq<Token>)
    requires ms != []
    ensures ParseMembers(YieldMembers(ms) + ([Plain(EndObject)] + rest), acc) == Ok(Obj(Assign(acc, ms)), rest)
    decreases ms, 1
  {
    var tail := [Plain(EndObject)] + rest;
    var acc' := Put(acc, ms[0].key, Normalize(ms[0].value));
    MemberTokens(ms, tail);
    if |ms| == 1 {
      S.Empty(tail);
      ParseYield(ms[0].value, tail);
      S.Cons(Plain(EndObject), rest);
      assert Assign(acc', ms[1..]) == acc';
    } else {
      var next := YieldMembers(ms[1..]);
      S.Assoc([Plain(ValueSeparator)], next, tail);
      ParseYield(ms[0].value, [Plain(ValueSeparator)] + (next + tail));
      S.Cons(Plain(ValueSeparator), next + tail);
      ParseYieldMembers(ms[1..], acc', rest);
    }
  }

  // ----- the parser accepts nothing else

  lemma {:induction false} ParseIsDerived(ts: seq<Token>) returns (v: Value)
    requires ParseValue(ts).Ok?
    ensures ts == Yield(v) + ParseValue(ts).rest && Normalize(v) == ParseValue(ts).value
    decreases |ts|, 0
  {
    var r := ParseValue(ts);
    if ts[0] == Plain(BeginArray) && ts[1] != Plain(EndArray) {
      var es := ParseElemsIsDerived(ts[1..], []);
      v := Arr(es);
      S.Empty(NormalizeElems(es));
      S.Uncons(ts);
      S.Bracketed(Plain(BeginArray), YieldElems(es), Plain(EndArray), r.rest);
    } else if ts[0] == Plain(BeginObject) && ts[1] != Plain(EndObject) {
      var ms := ParseMembersIsDerived(ts[1..], []);
      v := Obj(ms);
      S.Uncons(ts);
      S.Bracketed(Plain(BeginObject), YieldMembers(ms), Plain(EndObject), r.rest);
    } else {
      v := r.value;
      S.Uncons(ts);
      if |Yield(v)| == 2 {
        S.Uncons2(ts);
      }
    }
  }

  lemma {:induction false} ParseElemsIsDerived(ts: seq<Token>, acc: seq<Value>) returns (es: seq<Value>)
    requires ParseElems(ts, acc).Ok?
    ensures es != [] && ts == YieldElems(es) + ([Plain(EndArray)] + ParseElems(ts, acc).rest)
    ensures ParseElems(ts, acc).value == Arr(acc + NormalizeElems(es))
    decreases |ts|, 1
  {
    var v := ParseIsDerived(ts);
    var Ok(w, rest) := ParseValue(ts);
    S.Uncons(rest);
    if rest[0] == Plain(ValueSeparator) {
      var es' := ParseElemsIsDerived(rest[1..], acc + [w]);
      es := [v] + es';
      S.Cons(v, es');
      S.Assoc4(Yield(v), [Plain(ValueSeparator)], YieldElems(es'), [Plain(EndArray)] + ParseElems(ts, acc).rest);
      S.Assoc(acc, [w], NormalizeElems(es'));
    } else {
      es := [v];
      S.Empty(Yield(v));
      S.Empty([w]);
      assert NormalizeElems(es[1..]) == [];
    }
  }

  lemma {:induction false} ParseMembersIsDerived(ts: seq<Token>, acc: seq<Member>) returns (ms: seq<Member>)
    requires ParseMembers(ts, acc).Ok?
    ensures ms != [] && ts == YieldMembers(ms) + ([Plain(EndObject)] + ParseMembers(ts, acc).rest)
    ensures ParseMembers(ts, acc).value == Obj(Assign(acc, ms))
    decreases |ts|, 1
  {
    var v := ParseIsDerived(ts[2..]);
    var Ok(w, rest) := ParseValue(ts[2..]);
    var m := Member(ts[0].text.bytes, v);
    var tail := [Plain(EndObject)] + ParseMembers(ts, acc).rest;
    S.Uncons2(ts);
    S.Uncons(rest);
    if rest[0] == Plain(ValueSeparator) {
      var ms' := ParseMembersIsDerived(rest[1..], Put(acc, m.key, w));
      ms := [m] + ms';
      S.Cons(m, ms');
      MemberTokens(ms, tail);
      S.Assoc([Plain(ValueSeparator)], YieldMembers(ms'), tail);
    } else {
      ms := [m];
      MemberTokens(ms, tail);
      S.Empty(tail);
      assert Assign(Put(acc, m.key, w), ms[1..]) == Put(acc, m.key, w);
    }
    S.Uncons2(YieldMembers(ms) + tail);
  }

  // ----- the two directions together

  /** The parser succeeds exactly on the tokens of a derivation followed by the end of the input, and returns the value
      of that derivation, in which later duplicate keys win. */
  lemma {:induction false} ParseIsTheGrammar(ts: seq<Token>, w: Value)
    ensures Parse(ts) == Some(w) <==>
            exists v: Value, tail: seq<Token> :: ts == Yield(v) + ([Plain(EndOfInput)] + tail) && Normalize(v) == w
  {
    if Parse(ts) == Some(w) {
      var v := ParseIsDerived(ts);
      var rest := ParseValue(ts).rest;
      S.Uncons(rest);
      assert ts == Yield(v) + ([Plain(EndOfInput)] + rest[1..]) && Normalize(v) == w;
    }
    forall v: Value, tail: seq<Token> | ts == Yield(v) + ([Plain(EndOfInput)] + tail) && Normalize(v) == w
      ensures Parse(ts) == Some(w)
    {
      ParseYield(v, [Plain(EndOfInput)] + tail);
    }
  }

  /** One token list has one value. */
  lemma DerivedValueIsUnique(v: Value, w: Value)
    requires Yield(v) == Yield(w)
    ensures Normalize(v) == Normalize(w)
  {
    ParseYield(v, []);
    ParseYield(w, []);
  }
}
