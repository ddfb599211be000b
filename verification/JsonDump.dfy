/** `dump`, compact and indented, and its round trip through the scanner and the parser. */
module JsonDump {
  import opened Bytes
  import S = Seqs
  import opened JsonLex
  import opened JsonEscape
  import opened JsonString
  import opened JsonValue
  import opened JsonNumber
  import opened JsonGrammar
  import opened JsonTokens

  const UINT_RANGE: nat := 0x1_0000_0000

  /** The parameters that `dump` hands down unchanged. */
  datatype Style = Style(pretty: bool, step: nat)

  function Spaces(n: nat): (w: seq<Byte>)
    ensures |w| == n && forall i :: 0 <= i < n ==> w[i] == SPACE
  {
    seq(n, _ => SPACE)
  }

  function Newline(st: Style): (w: seq<Byte>)
  {
    if st.pretty then [LF] else []
  }

  function Quoted(s: seq<Byte>): (t: seq<Byte>)
  {
    [QUOTE] + Escape(s) + [QUOTE]
  }

  /** `new_indent`, an `unsigned int`. */
  function Deeper(st: Style, indent: nat): (n: nat)
  {
    if st.pretty then (indent + st.step) % UINT_RANGE else indent
  }

  function Dump(v: Value, st: Style, indent: nat): (s: seq<Byte>)
    decreases v, 0
  {
    match v
    case Null => NULL_TEXT
    case Bool(b) => if b then TRUE_TEXT else FALSE_TEXT
    case Int(n) => IntText(n)
    case Real(lexeme) => lexeme
    case Str(s) => Quoted(s)
    case Arr(es) =>
      if es == [] then [LBRACKET, RBRACKET]
      else
        [LBRACKET] +
        (Newline(st) + (DumpElems(es, st, Deeper(st, indent)) + (Newline(st) + Spaces(indent) + [RBRACKET])))
    case Obj(ms) =>
      if ms == [] then [LBRACE, RBRACE]
      else
        [LBRACE] + (Newline(st) + (DumpMembers(ms, st, Deeper(st, indent)) + (Newline(st) + Spaces(indent) + [RBRACE])))
  }

  function DumpElems(es: seq<Value>, st: Style, indent: nat): (s: seq<Byte>)
    requires es != []
    decreases es, 1
  {
    Spaces(indent) + (Dump(es[0], st, indent) +
    if |es| == 1 then [] else [COMMA] + (Newline(st) + DumpElems(es[1..], st, indent)))
  }

  function DumpMembers(ms: seq<Member>, st: Style, indent: nat): (s: seq<Byte>)
    requires ms != []
    decreases ms, 1
  {
    Spaces(indent) + (Quoted(ms[0].key) + ([COLON] + ((if st.pretty then [SPACE] else []) +
    (Dump(ms[0].value, st, indent) +
    if |ms| == 1 then [] else [COMMA] + (Newline(st) + DumpMembers(ms[1..], st, indent))))))
  }

  /** The public `dump(indent)`. */
  function DumpText(v: Value, indent: int): (s: seq<Byte>)
  {
    if indent >= 0 then Dump(v, Style(true, indent), 0) else Dump(v, Style(false, 0), 0)
  }

  /** Values built from null, booleans, 64-bit integers, strings, arrays and objects. */
  predicate Exact(v: Value)
    decreases v, 0
  {
    match v
    case Int(n) => IsInt64(n)
    case Real(_) => false
    case Arr(es) => ExactElems(es)
    case Obj(ms) => ExactMembers(ms)
    case _ => true
  }

  predicate ExactElems(es: seq<Value>)
    decreases es, 1
  {
    es == [] || (Exact(es[0]) && ExactElems(es[1..]))
  }

  predicate ExactMembers(ms: seq<Member>)
    decreases ms, 1
  {
    ms == [] || (Exact(ms[0].value) && ExactMembers(ms[1..]))
  }

  // ----- the tokens of one lexeme

  lemma {:induction false} TokensOfMark(b: Byte, rest: seq<Byte>)
    requires b == LBRACKET || b == RBRACKET || b == LBRACE || b == RBRACE || b == COMMA || b == COLON
    ensures Tokens([b] + rest) == [Plain(Lex([b] + rest).kind)] + Tokens(rest)
    ensures Lex([b] + rest).kind ==
            if b == LBRACKET then BeginArray
            else if b == RBRACKET then EndArray
            else if b == LBRACE then BeginObject
            else if b == RBRACE then EndObject
            else if b == COMMA then ValueSeparator
            else NameSeparator
  {
    var s := [b] + rest;
    assert Peek(s, 0) == b;
    TokensCons([b], rest, Lex(s).kind);
  }

  lemma {:induction false} TokensOfWord(word: seq<Byte>, rest: seq<Byte>)
    requires word == NULL_TEXT || word == TRUE_TEXT || word == FALSE_TEXT
    ensures Tokens(word + rest) ==
            [Plain(if word == NULL_TEXT then LiteralNull else if word == TRUE_TEXT then LiteralTrue else LiteralFalse)]
            + Tokens(rest)
  {
    var s := word + rest;
    assert word <= s && s[0] == word[0];
    LexByFirstByte(s);
    TokensCons(word, rest, Lex(s).kind);
  }

  lemma {:induction false} TokensOfInt(n: int, rest: seq<Byte>)
    requires IsInt64(n) && EndsNumber(Peek(rest, 0))
    ensures Tokens(IntText(n) + rest) == [Number(Some(Int(n)))] + Tokens(rest)
  {
    var t := IntText(n);
    var s := t + rest;
    IntTextIsOneToken(n, rest);
    IntTextValue(n);
    assert IsDigit(t[0]) || t[0] == MINUS by {
      NatTextDigits(if n < 0 then -n else n);
    }
    assert s[0] == t[0];
    LexByFirstByte(s);
    assert s[..|t|] == t;
    TokensCons(t, rest, ValueNumber);
  }

  lemma {:induction false} TokenOfString(s: seq<Byte>, rest: seq<Byte>)
    ensures Lex(Quoted(s) + rest) == Lexed(ValueString, |Quoted(s)|)
    ensures TokenOf(Quoted(s) + rest) == Text(Bytes(s))
  {
    var t := Quoted(s);
    EscapedIsOneToken(s, rest);
    UnescapeUndoesEscape(s);
    assert (t + rest)[1..|t| - 1] == t[1..|t| - 1];
  }

  lemma {:induction false} TokensOfString(s: seq<Byte>, rest: seq<Byte>)
    ensures Tokens(Quoted(s) + rest) == [Text(Bytes(s))] + Tokens(rest)
  {
    TokenOfString(s, rest);
    TokensCons(Quoted(s), rest, ValueString);
  }

  lemma {:induction false} TokensOfNewline(st: Style, rest: seq<Byte>)
    ensures Tokens(Newline(st) + rest) == Tokens(rest)
  {
    TokensSkipSpace(Newline(st), rest);
  }

  /** Closing a non-empty array or object. */
  lemma {:induction false} TokensOfEnd(st: Style, indent: nat, close: Byte, rest: seq<Byte>)
    requires close == RBRACKET || close == RBRACE
    ensures Tokens(Newline(st) + Spaces(indent) + [close] + rest) ==
            [Plain(if close == RBRACKET then EndArray else EndObject)] + Tokens(rest)
  {
    var w := Newline(st) + Spaces(indent);
    S.Assoc(w, [close], rest);
    TokensSkipSpace(w, [close] + rest);
    TokensOfMark(close, rest);
  }

  lemma EndStops(st: Style, indent: nat, close: Byte, rest: seq<Byte>)
    requires close == RBRACKET || close == RBRACE
    ensures EndsNumber(Peek(Newline(st) + Spaces(indent) + [close] + rest, 0))
  {
    var s := Newline(st) + Spaces(indent) + [close] + rest;
    assert s[0] == LF || s[0] == SPACE || s[0] == close;
  }

  // ----- the tokens of a whole value

  /** Scanning what `dump` prints gives the tokens of the value, and then whatever the rest gives; behind an integer,
      the rest must not go on with the number. */
  lemma {:induction false} TokensOfDump(v: Value, st: Style, indent: nat, rest: seq<Byte>)
    requires Exact(v) && (v.Int? ==> EndsNumber(Peek(rest, 0)))
    ensures Tokens(Dump(v, st, indent) + rest) == Yield(v) + Tokens(rest)
    decreases v, 0
  {
    match v
    case Null => TokensOfWord(NULL_TEXT, rest);
    case Bool(b) => TokensOfWord(if b then TRUE_TEXT else FALSE_TEXT, rest);
    case Int(n) => TokensOfInt(n, rest);
    case Str(s) => TokensOfString(s, rest);
    case Arr(es) => TokensOfArray(es, st, indent, rest);
    case Obj(ms) => TokensOfObject(ms, st, indent, rest);
  }

  lemma {:induction false} TokensOfBrackets(open: Byte, close: Byte, inner: seq<Byte>, ts: seq<Token>, st: Style,
                                            indent: nat, rest: seq<Byte>)
    requires (open == LBRACKET && close == RBRACKET) || (open == LBRACE && close == RBRACE)
    requires var end := Newline(st) + Spaces(indent) + [close] + rest;
             Tokens(inner + end) == ts + Tokens(end)
    ensures Tokens([open] + (Newline(st) + (inner + (Newline(st) + Spaces(indent) + [close]))) + rest) ==
            [Plain(if open == LBRACKET then BeginArray else BeginObject)] + ts
            + [Plain(if open == LBRACKET then EndArray else EndObject)] + Tokens(rest)
  {
    var end := Newline(st) + Spaces(indent) + [close];
    TokensOfEnd(st, indent, close, rest);
    TokensOfNewline(st, inner + (end + rest));
    TokensOfMark(open, Newline(st) + (inner + (end + rest)));
    S.Assoc5([open], Newline(st), inner, end, rest);
    S.Bracketed(Plain(if open == LBRACKET then BeginArray else BeginObject), ts,
                Plain(if open == LBRACKET then EndArray else EndObject), Tokens(rest));
  }

  lemma {:induction false} TokensOfEmpty(open: Byte, close: Byte, rest: seq<Byte>)
    requires (open == LBRACKET && close == RBRACKET) || (open == LBRACE && close == RBRACE)
    ensures Tokens([open, close] + rest) ==
            [Plain(if open == LBRACKET then BeginArray else BeginObject),
             Plain(if open == LBRACKET then EndArray else EndObject)] + Tokens(rest)
  {
    TokensOfMark(open, [close] + rest);
    TokensOfMark(close, rest);
    S.Cons2(open, close, rest);
    S.Cons2(Plain(if open == LBRACKET then BeginArray else BeginObject),
            Plain(if open == LBRACKET then EndArray else EndObject), Tokens(rest));
  }

  lemma {:induction false} TokensOfArray(es: seq<Value>, st: Style, indent: nat, rest: seq<Byte>)
    requires ExactElems(es)
    ensures Tokens(Dump(Arr(es), st, indent) + rest) == Yield(Arr(es)) + Tokens(rest)
    decreases es, 2
  {
    if es == [] {
      TokensOfEmpty(LBRACKET, RBRACKET, rest);
    } else {
      EndStops(st, indent, RBRACKET, rest);
      TokensOfElems(es, st, Deeper(st, indent), Newline(st) + Spaces(indent) + [RBRACKET] + rest);
      TokensOfBrackets(LBRACKET, RBRACKET, DumpElems(es, st, Deeper(st, indent)), YieldElems(es), st, indent, rest);
    }
  }

  lemma {:induction false} TokensOfObject(ms: seq<Member>, st: Style, indent: nat, rest: seq<Byte>)
    requires ExactMembers(ms)
    ensures Tokens(Dump(Obj(ms), st, indent) + rest) == Yield(Obj(ms)) + Tokens(rest)
    decreases ms, 2
  {
    if ms == [] {
      TokensOfEmpty(LBRACE, RBRACE, rest);
    } else {
      EndStops(st, indent, RBRACE, rest);
      TokensOfMembers(ms, st, Deeper(st, indent), Newline(st) + Spaces(indent) + [RBRACE] + rest);
      TokensOfBrackets(LBRACE, RBRACE, DumpMembers(ms, st, Deeper(st, indent)), YieldMembers(ms), st, indent, rest);
    }
  }

  lemma {:induction false} TokensOfElems(es: seq<Value>, st: Style, indent: nat, rest: seq<Byte>)
    requires es != [] && ExactElems(es) && EndsNumber(Peek(rest, 0))
    ensures Tokens(DumpElems(es, st, indent) + rest) == YieldElems(es) + Tokens(rest)
    decreases es, 1
  {
    var first := Dump(es[0], st, indent);
    if |es| == 1 {
      TokensSkipSpace(Spaces(indent), first + rest);
      TokensOfDump(es[0], st, indent, rest);
      S.Assoc(Spaces(indent), first + [], rest);
      S.Empty(first);
      S.Empty(Yield(es[0]));
    } else {
      var next := DumpElems(es[1..], st, indent);
      var after := [COMMA] + (Newline(st) + (next + rest));
      TokensOfElems(es[1..], st, indent, rest);
      TokensOfNewline(st, next + rest);
      TokensOfMark(COMMA, Newline(st) + (next + rest));
      TokensOfDump(es[0], st, indent, after);
      TokensSkipSpace(Spaces(indent), first + after);
      S.Assoc6(Spaces(indent), first, [COMMA], Newline(st), next, rest);
      S.Assoc4(Yield(es[0]), [Plain(ValueSeparator)], YieldElems(es[1..]), Tokens(rest));
    }
  }

  /** The text behind the first member: nothing, or a comma and the other members. */
  function MoreMembers(ms: seq<Member>, st: Style, indent: nat): (s: seq<Byte>)
    requires ms != []
    decreases ms, 0
  {
    if |ms| == 1 then [] else [COMMA] + (Newline(st) + DumpMembers(ms[1..], st, indent))
  }

  function MoreMemberTokens(ms: seq<Member>): (ts: seq<Token>)
    requires ms != []
  {
    if |ms| == 1 then [] else [Plain(ValueSeparator)] + YieldMembers(ms[1..])
  }

  lemma {:induction false} TokensOfMore(ms: seq<Member>, st: Style, indent: nat, rest: seq<Byte>)
    requires ms != [] && ExactMembers(ms) && EndsNumber(Peek(rest, 0))
    ensures EndsNumber(Peek(MoreMembers(ms, st, indent) + rest, 0))
    ensures Tokens(MoreMembers(ms, st, indent) + rest) == MoreMemberTokens(ms) + Tokens(rest)
    decreases ms, 0
  {
    if |ms| == 1 {
      S.Empty(rest);
      S.Empty(Tokens(rest));
    } else {
      var next := DumpMembers(ms[1..], st, indent);
      TokensOfMembers(ms[1..], st, indent, rest);
      TokensOfNewline(st, next + rest);
      TokensOfMark(COMMA, Newline(st) + (next + rest));
      S.Assoc4([COMMA], Newline(st), next, rest);
      S.Cons(COMMA, Newline(st) + (next + rest));
      S.Assoc([Plain(ValueSeparator)], YieldMembers(ms[1..]), Tokens(rest));
    }
  }

  lemma {:induction false} TokensOfMembers(ms: seq<Member>, st: Style, indent: nat, rest: seq<Byte>)
    requires ms != [] && ExactMembers(ms) && EndsNumber(Peek(rest, 0))
    ensures Tokens(DumpMembers(ms, st, indent) + rest) == YieldMembers(ms) + Tokens(rest)
    decreases ms, 1
  {
    var m, more := ms[0], MoreMemberTokens(ms);
    TokensOfMore(ms, st, indent, rest);
    TokensOfMember(m, st, indent, MoreMembers(ms, st, indent), rest);
    MemberGlue(Text(Bytes(m.key)), Plain(NameSeparator), Yield(m.value), more, Tokens(rest));
  }

  lemma MemberGlue(k: Token, c: Token, v: seq<Token>, more: seq<Token>, rest: seq<Token>)
    ensures [k] + ([c] + (v + (more + rest))) == [k, c] + v + more + rest
  {
  }

  lemma {:induction false} TokensOfMember(m: Member, st: Style, indent: nat, more: seq<Byte>, rest: seq<Byte>)
    requires Exact(m.value) && EndsNumber(Peek(more + rest, 0))
    ensures Tokens(Spaces(indent) + (Quoted(m.key) + ([COLON] + ((if st.pretty then [SPACE] else []) +
                   (Dump(m.value, st, indent) + more)))) + rest) ==
            [Text(Bytes(m.key))] + ([Plain(NameSeparator)] + (Yield(m.value) + Tokens(more + rest)))
    decreases m.value, 1
  {
    var gap := if st.pretty then [SPACE] else [];
    var text := Dump(m.value, st, indent);
    var after := text + (more + rest);
    TokensOfDump(m.value, st, indent, more + rest);
    TokensSkipSpace(gap, after);
    TokensOfMark(COLON, gap + after);
    TokensOfString(m.key, [COLON] + (gap + after));
    TokensSkipSpace(Spaces(indent), Quoted(m.key) + ([COLON] + (gap + after)));
    S.Assoc7(Spaces(indent), Quoted(m.key), [COLON], gap, text, more, rest);
  }

  lemma TokensOfNothing()
    ensures Tokens([]) == [Plain(EndOfInput)]
  {
  }

  lemma {:induction false} StoredParses(v: Value)
    requires Stored(v)
    ensures Parse(Yield(v) + [Plain(EndOfInput)]) == Some(v)
  {
    ParseYield(v, [Plain(EndOfInput)]);
    StoredIsNormal(v);
  }

  /** For every value that the library can hold (floats aside) and every indent setting, scanning and parsing the dumped
      text gives back an equal value. */
  lemma {:induction false} DumpRoundTrip(v: Value, indent: int)
    requires Stored(v) && Exact(v)
    ensures Parse(Tokens(DumpText(v, indent))) == Some(v)
  {
    var st := if indent >= 0 then Style(true, indent) else Style(false, 0);
    TokensOfDump(v, st, 0, []);
    S.Empty(DumpText(v, indent));
    TokensOfNothing();
    StoredParses(v);
  }
}
