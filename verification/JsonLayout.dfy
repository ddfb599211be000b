/** The text that `dump` prints, token by token: what stands between two tokens, on which lines, and how far
    indented. */
module JsonLayout {
  import opened Bytes
  import S = Seqs
  import opened JsonLex
  import opened JsonEscape
  import opened JsonString
  import opened JsonValue
  import opened JsonNumber
  import opened JsonGrammar
  import opened JsonDump

  // ----- tokens

  predicate Opens(t: Token) { t == Plain(BeginArray) || t == Plain(BeginObject) }
  predicate Closes(t: Token) { t == Plain(EndArray) || t == Plain(EndObject) }

  /** Each token's own text; nothing for tokens that `dump` never prints. */
  function Lexeme(t: Token): (s: seq<Byte>)
  {
    match t
    case Text(text) => if text.Bytes? then [0x22] + Escape(text.bytes) + [0x22] else []
    case Number(n) =>
      if n.None? then [] else if n.value.Int? then IntText(n.value.n) else if n.value.Real? then n.value.lexeme else []
    case Plain(k) =>
      if k == BeginArray then [0x5B]                               // [
      else if k == EndArray then [0x5D]                            // ]
      else if k == BeginObject then [0x7B]                         // {
      else if k == EndObject then [0x7D]                           // }
      else if k == NameSeparator then [0x3A]                       // :
      else if k == ValueSeparator then [0x2C]                      // ,
      else if k == LiteralNull then [0x6E, 0x75, 0x6C, 0x6C]       // null
      else if k == LiteralTrue then [0x74, 0x72, 0x75, 0x65]       // true
      else if k == LiteralFalse then [0x66, 0x61, 0x6C, 0x73, 0x65] // false
      else []
  }

  /** The lexemes one after the other, with no byte between them. */
  function Lexemes(ts: seq<Token>): (s: seq<Byte>)
  {
    if ts == [] then [] else Lexeme(ts[0]) + Lexemes(ts[1..])
  }

  // ----- the layout

  /** How far a line at nesting depth `d` is indented, in an `unsigned int`. */
  function Margin(d: int, k: nat): (n: nat)
    requires d >= 0
  {
    d * k % 0x1_0000_0000
  }

  /** A new line at depth `d`. */
  function NewLine(d: int, k: nat): (s: seq<Byte>)
    requires d >= 0
  {
    [0x0A] + Spaces(Margin(d, k))
  }

  /** What stands between two neighbouring tokens when `d` brackets are open behind the first of them. */
  function Gap(a: Token, b: Token, d: int, k: Option<nat>): (s: seq<Byte>)
  {
    if k.None? || (Opens(a) && Closes(b)) || d < 0 then []
    else if Closes(b) then (if d > 0 then NewLine(d - 1, k.value) else [])
    else if Opens(a) || a == Plain(ValueSeparator) then NewLine(d, k.value)
    else if a == Plain(NameSeparator) then [0x20]
    else []
  }

  function DepthBehind(d: int, t: Token): (n: int) { if Opens(t) then d + 1 else if Closes(t) then d - 1 else d }

  /** The tokens with their gaps, where `d` brackets are already open. Without an indent there are no gaps. */
  function Laid(ts: seq<Token>, d: int, k: Option<nat>): (s: seq<Byte>)
  {
    if ts == [] then []
    else
      var d' := DepthBehind(d, ts[0]);
      Lexeme(ts[0]) + ((if |ts| == 1 then [] else Gap(ts[0], ts[1], d', k)) + Laid(ts[1..], d', k))
  }

  lemma {:induction false} LaidWithoutIndent(ts: seq<Token>, d: int)
    ensures Laid(ts, d, None) == Lexemes(ts)
  {
    if ts != [] {
      LaidWithoutIndent(ts[1..], DepthBehind(d, ts[0]));
      S.Empty(Lexemes(ts[1..]));
    }
  }

  // ----- `dump` prints this layout

  function StyleOf(k: Option<nat>): (st: Style) { if k.Some? then Style(true, k.value) else Style(false, 0) }

  function IndentAt(d: int, k: Option<nat>): (n: nat)
    requires d >= 0
  {
    if k.Some? then Margin(d, k.value) else 0
  }

  lemma DeeperByOne(d: int, k: Option<nat>)
    requires d >= 0
    ensures Deeper(StyleOf(k), IndentAt(d, k)) == IndentAt(d + 1, k)
  {
    if k.Some? {
      var a := d * k.value;
      assert (d + 1) * k.value == a + k.value;
      assert (a % 0x1_0000_0000 + k.value) % 0x1_0000_0000 == (a + k.value) % 0x1_0000_0000;
    }
  }

  /** What follows a whole value at depth `d`. */
  function Following(ts: seq<Token>, d: int, k: Option<nat>): (s: seq<Byte>)
  {
    (if ts != [] && Closes(ts[0]) && k.Some? && d > 0 then NewLine(d - 1, k.value) else []) + Laid(ts, d, k)
  }

  /** A token that ends a value has no gap of its own behind it. */
  lemma {:induction false} LaidScalar(t: Token, ts: seq<Token>, d: int, k: Option<nat>)
    requires d >= 0
    requires t.Text? || t.Number? || t == Plain(LiteralNull) || t == Plain(LiteralTrue) || t == Plain(LiteralFalse)
    ensures Laid([t] + ts, d, k) == Lexeme(t) + Following(ts, d, k)
  {
    S.Cons(t, ts);
    if ts == [] {
      S.Empty(Laid(ts, d, k));
    }
  }

  lemma {:induction false} LaidClose(t: Token, ts: seq<Token>, d: int, k: Option<nat>)
    requires Closes(t) && d > 0
    ensures Laid([t] + ts, d, k) == Lexeme(t) + Following(ts, d - 1, k)
  {
    S.Cons(t, ts);
    if ts == [] {
      S.Empty(Laid(ts, d - 1, k));
    }
  }

  /** A first token and its gap. */
  lemma {:induction false} LaidCons(t: Token, ts: seq<Token>, d: int, k: Option<nat>)
    requires ts != []
    ensures var d' := DepthBehind(d, t);
            Laid([t] + ts, d, k) == Lexeme(t) + (Gap(t, ts[0], d', k) + Laid(ts, d', k))
  {
    S.Cons(t, ts);
  }

  lemma {:induction false} FirstOfValue(v: Value)
    ensures !Closes(Yield(v)[0])
  {
    FirstToken(v);
  }

  lemma {:induction false} FirstOfElems(es: seq<Value>)
    requires es != []
    ensures YieldElems(es) != [] && !Closes(YieldElems(es)[0])
  {
    FirstOfValue(es[0]);
    assert YieldElems(es)[0] == Yield(es[0])[0];
  }

  lemma {:induction false} FirstOfMembers(ms: seq<Member>)
    requires ms != []
    ensures YieldMembers(ms) != [] && !Closes(YieldMembers(ms)[0])
  {
    var ts := YieldMembers(ms);
    MemberTokens(ms, []);
    S.Empty(ts);
    assert ts[0] == Text(Bytes(ms[0].key));
  }

  /** The line break that both descriptions share. */
  function Break(d: int, k: Option<nat>): (s: seq<Byte>)
    requires d >= 0
    ensures s == Newline(StyleOf(k)) + Spaces(IndentAt(d, k))
  {
    if k.Some? then NewLine(d, k.value) else []
  }

  /** The tokens `inner`, printed as `text` on lines of their own, in brackets. */
  lemma {:induction false} LaidBrackets(open: Token, inner: seq<Token>, text: seq<Byte>, close: Token, us: seq<Token>,
                                        d: int, k: Option<nat>)
    requires Opens(open) && Closes(close) && inner != [] && !Closes(inner[0]) && d >= 0
    requires Spaces(IndentAt(d + 1, k)) + Laid(inner + ([close] + us), d + 1, k) ==
             text + Following([close] + us, d + 1, k)
    ensures Laid([open] + inner + [close] + us, d, k) ==
            InBrackets(open, text, close, d, k) + Following(us, d, k)
  {
    var st, rest, after := StyleOf(k), inner + ([close] + us), Following(us, d, k);
    S.Bracketed(open, inner, close, us);
    LaidCons(open, rest, d, k);
    LaidClose(close, us, d + 1, k);
    S.Cons(close, us);
    assert Gap(open, rest[0], d + 1, k) == Break(d + 1, k);
    assert Following([close] + us, d + 1, k) == Break(d, k) + (Lexeme(close) + after);
    S.Assoc(Newline(st), Spaces(IndentAt(d + 1, k)), Laid(rest, d + 1, k));
    S.Assoc(Break(d, k), Lexeme(close), after);
    S.Assoc5(Lexeme(open), Newline(st), text, Break(d, k) + Lexeme(close), after);
  }

  /** `v`, followed by the tokens `us`, is laid out as `dump` prints it. */
  ghost predicate Prints(v: Value, us: seq<Token>, d: int, k: Option<nat>)
    requires d >= 0
  {
    Laid(Yield(v) + us, d, k) == Dump(v, StyleOf(k), IndentAt(d, k)) + Following(us, d, k)
  }

  /** A text on lines of its own, in brackets. */
  function InBrackets(open: Token, text: seq<Byte>, close: Token, d: int, k: Option<nat>): (s: seq<Byte>)
    requires d >= 0
  {
    var st := StyleOf(k);
    Lexeme(open) + (Newline(st) + (text + (Newline(st) + Spaces(IndentAt(d, k)) + Lexeme(close))))
  }

  lemma {:induction false} BracketsPrint(v: Value, open: Token, inner: seq<Token>, text: seq<Byte>, close: Token,
                                         us: seq<Token>, d: int, k: Option<nat>)
    requires Opens(open) && Closes(close) && inner != [] && !Closes(inner[0]) && d >= 0
    requires Spaces(IndentAt(d + 1, k)) + Laid(inner + ([close] + us), d + 1, k) ==
             text + Following([close] + us, d + 1, k)
    requires Yield(v) == [open] + inner + [close]
    requires Dump(v, StyleOf(k), IndentAt(d, k)) == InBrackets(open, text, close, d, k)
    ensures Prints(v, us, d, k)
  {
    LaidBrackets(open, inner, text, close, us, d, k);
  }

  lemma {:induction false} ScalarText(v: Value, st: Style, i: nat)
    requires !v.Arr? && !v.Obj?
    ensures |Yield(v)| == 1 && Lexeme(Yield(v)[0]) == Dump(v, st, i)
    ensures !Closes(Yield(v)[0]) && !Opens(Yield(v)[0])
  {
  }

  lemma {:induction false} ScalarPrints(v: Value, us: seq<Token>, d: int, k: Option<nat>)
    requires d >= 0 && !v.Arr? && !v.Obj?
    ensures Prints(v, us, d, k)
  {
    ScalarText(v, StyleOf(k), IndentAt(d, k));
    LaidScalar(Yield(v)[0], us, d, k);
  }

  lemma {:induction false} LaidValue(v: Value, us: seq<Token>, d: int, k: Option<nat>)
    requires d >= 0
    ensures Prints(v, us, d, k)
    decreases v, 0
  {
    if v.Arr? {
      LaidArray(v.elems, us, d, k);
    } else if v.Obj? {
      LaidObject(v.members, us, d, k);
    } else {
      ScalarPrints(v, us, d, k);
    }
  }

  lemma {:induction false} LaidEmpty(open: Token, close: Token, us: seq<Token>, d: int, k: Option<nat>)
    requires Opens(open) && Closes(close) && d >= 0
    ensures Laid([open, close] + us, d, k) == Lexeme(open) + Lexeme(close) + Following(us, d, k)
  {
    S.Cons2(open, close, us);
    LaidClose(close, us, d + 1, k);
    LaidCons(open, [close] + us, d, k);
    S.Cons(close, us);
    S.Empty(Laid([close] + us, d + 1, k));
    S.Assoc(Lexeme(open), Lexeme(close), Following(us, d, k));
  }

  lemma {:induction false} EmptyArrayPrints(us: seq<Token>, d: int, k: Option<nat>)
    requires d >= 0
    ensures Prints(Arr([]), us, d, k)
  {
    LaidEmpty(Plain(BeginArray), Plain(EndArray), us, d, k);
  }

  lemma {:induction false} LaidArray(es: seq<Value>, us: seq<Token>, d: int, k: Option<nat>)
    requires d >= 0
    ensures Prints(Arr(es), us, d, k)
    decreases es, 3
  {
    if es == [] {
      EmptyArrayPrints(us, d, k);
    } else {
      LaidFullArray(es, us, d, k);
    }
  }

  lemma {:induction false} LaidFullArray(es: seq<Value>, us: seq<Token>, d: int, k: Option<nat>)
    requires es != [] && d >= 0
    ensures Prints(Arr(es), us, d, k)
    decreases es, 2
  {
    LaidElems(es, [Plain(EndArray)] + us, d + 1, k);
    FullArrayPrints(es, us, d, k);
  }

  lemma {:induction false} EmptyObjectPrints(us: seq<Token>, d: int, k: Option<nat>)
    requires d >= 0
    ensures Prints(Obj([]), us, d, k)
  {
    LaidEmpty(Plain(BeginObject), Plain(EndObject), us, d, k);
  }

  lemma {:induction false} LaidObject(ms: seq<Member>, us: seq<Token>, d: int, k: Option<nat>)
    requires d >= 0
    ensures Prints(Obj(ms), us, d, k)
    decreases ms, 3
  {
    if ms == [] {
      EmptyObjectPrints(us, d, k);
    } else {
      LaidFullObject(ms, us, d, k);
    }
  }

  lemma {:induction false} LaidFullObject(ms: seq<Member>, us: seq<Token>, d: int, k: Option<nat>)
    requires ms != [] && d >= 0
    ensures Prints(Obj(ms), us, d, k)
    decreases ms, 2
  {
    LaidMembers(ms, [Plain(EndObject)] + us, d + 1, k);
    FullObjectPrints(ms, us, d, k);
  }

  lemma {:induction false} FullObjectPrints(ms: seq<Member>, us: seq<Token>, d: int, k: Option<nat>)
    requires ms != [] && d >= 0
    requires Spaces(IndentAt(d + 1, k)) + Laid(YieldMembers(ms) + ([Plain(EndObject)] + us), d + 1, k) ==
             DumpMembers(ms, StyleOf(k), IndentAt(d + 1, k)) + Following([Plain(EndObject)] + us, d + 1, k)
    ensures Prints(Obj(ms), us, d, k)
  {
    FirstOfMembers(ms);
    ObjectUnfolds(ms, d, k);
    BracketsPrint(Obj(ms), Plain(BeginObject), YieldMembers(ms), DumpMembers(ms, StyleOf(k), IndentAt(d + 1, k)),
                  Plain(EndObject), us, d, k);
  }

  lemma {:induction false} ObjectUnfolds(ms: seq<Member>, d: int, k: Option<nat>)
    requires ms != [] && d >= 0
    ensures Yield(Obj(ms)) == [Plain(BeginObject)] + YieldMembers(ms) + [Plain(EndObject)]
    ensures Dump(Obj(ms), StyleOf(k), IndentAt(d, k)) ==
            InBrackets(Plain(BeginObject), DumpMembers(ms, StyleOf(k), IndentAt(d + 1, k)), Plain(EndObject), d, k)
  {
    DeeperByOne(d, k);
  }

  lemma {:induction false} FullArrayPrints(es: seq<Value>, us: seq<Token>, d: int, k: Option<nat>)
    requires es != [] && d >= 0
    requires Spaces(IndentAt(d + 1, k)) + Laid(YieldElems(es) + ([Plain(EndArray)] + us), d + 1, k) ==
             DumpElems(es, StyleOf(k), IndentAt(d + 1, k)) + Following([Plain(EndArray)] + us, d + 1, k)
    ensures Prints(Arr(es), us, d, k)
  {
    FirstOfElems(es);
    ArrayUnfolds(es, d, k);
    BracketsPrint(Arr(es), Plain(BeginArray), YieldElems(es), DumpElems(es, StyleOf(k), IndentAt(d + 1, k)),
                  Plain(EndArray), us, d, k);
  }

  lemma {:induction false} ArrayUnfolds(es: seq<Value>, d: int, k: Option<nat>)
    requires es != [] && d >= 0
    ensures Yield(Arr(es)) == [Plain(BeginArray)] + YieldElems(es) + [Plain(EndArray)]
    ensures Dump(Arr(es), StyleOf(k), IndentAt(d, k)) ==
            InBrackets(Plain(BeginArray), DumpElems(es, StyleOf(k), IndentAt(d + 1, k)), Plain(EndArray), d, k)
  {
    DeeperByOne(d, k);
  }

  /** Nothing is printed between a value and the comma behind it. */
  lemma {:induction false} CommaFollows(ts: seq<Token>, d: int, k: Option<nat>)
    ensures Following([Plain(ValueSeparator)] + ts, d, k) == Laid([Plain(ValueSeparator)] + ts, d, k)
  {
    S.Cons(Plain(ValueSeparator), ts);
    S.Empty(Laid([Plain(ValueSeparator)] + ts, d, k));
  }

  lemma CommaBreaks(t: Token, d: int, k: Option<nat>)
    requires !Closes(t) && d >= 0
    ensures Gap(Plain(ValueSeparator), t, d, k) == Newline(StyleOf(k)) + Spaces(IndentAt(d, k))
  {
    assert Break(d, k) == Gap(Plain(ValueSeparator), t, d, k);
  }

  /** A comma, a new line, and more. */
  lemma {:induction false} LaidComma(ts: seq<Token>, d: int, k: Option<nat>)
    requires ts != [] && !Closes(ts[0]) && d >= 0
    ensures Following([Plain(ValueSeparator)] + ts, d, k) ==
            [COMMA] + (Newline(StyleOf(k)) + (Spaces(IndentAt(d, k)) + Laid(ts, d, k)))
  {
    CommaFollows(ts, d, k);
    LaidCons(Plain(ValueSeparator), ts, d, k);
    CommaBreaks(ts[0], d, k);
    S.Assoc(Newline(StyleOf(k)), Spaces(IndentAt(d, k)), Laid(ts, d, k));
  }

  lemma {:induction false} LaidElems(es: seq<Value>, tail: seq<Token>, d: int, k: Option<nat>)
    requires es != [] && tail != [] && Closes(tail[0]) && d >= 0
    ensures Spaces(IndentAt(d, k)) + Laid(YieldElems(es) + tail, d, k) ==
            DumpElems(es, StyleOf(k), IndentAt(d, k)) + Following(tail, d, k)
    decreases es, 1
  {
    var st, i := StyleOf(k), IndentAt(d, k);
    var first := Dump(es[0], st, i);
    if |es| == 1 {
      S.Empty(Yield(es[0]));
      S.Empty(first);
      LaidValue(es[0], tail, d, k);
      S.Assoc(Spaces(i), first, Following(tail, d, k));
    } else {
      var comma, more := Plain(ValueSeparator), YieldElems(es[1..]);
      LaidElems(es[1..], tail, d, k);
      FirstOfValue(es[1]);
      LaidComma(more + tail, d, k);
      LaidValue(es[0], [comma] + (more + tail), d, k);
      S.Assoc4(Yield(es[0]), [comma], more, tail);
      ElemsText(Spaces(i), first, Newline(st), Laid(more + tail, d, k), DumpElems(es[1..], st, i),
                Following(tail, d, k));
    }
  }

  lemma ElemsText(a: seq<Byte>, first: seq<Byte>, nl: seq<Byte>, laid: seq<Byte>, more: seq<Byte>, tail: seq<Byte>)
    requires a + laid == more + tail
    ensures a + (first + ([COMMA] + (nl + (a + laid)))) == a + (first + ([COMMA] + (nl + more))) + tail
  {
    S.Assoc6(a, first, [COMMA], nl, more, tail);
  }

  lemma {:induction false} LaidMembers(ms: seq<Member>, tail: seq<Token>, d: int, k: Option<nat>)
    requires ms != [] && tail != [] && Closes(tail[0]) && d >= 0
    ensures Spaces(IndentAt(d, k)) + Laid(YieldMembers(ms) + tail, d, k) ==
            DumpMembers(ms, StyleOf(k), IndentAt(d, k)) + Following(tail, d, k)
    decreases ms, 1
  {
    var st, i, m := StyleOf(k), IndentAt(d, k), ms[0];
    var text := Dump(m.value, st, i);
    if |ms| == 1 {
      S.Empty(tail);
      LaidMember(m, [], tail, d, k);
      MembersEnd(Spaces(i), Quoted(m.key), if st.pretty then [SPACE] else [], text, Following(tail, d, k));
    } else {
      var comma, more := Plain(ValueSeparator), YieldMembers(ms[1..]);
      LaidMembers(ms[1..], tail, d, k);
      FirstOfMembers(ms[1..]);
      LaidComma(more + tail, d, k);
      LaidMember(m, [comma] + more, tail, d, k);
      S.Assoc([comma], more, tail);
      MembersText(Spaces(i), Quoted(m.key), if st.pretty then [SPACE] else [], text, Newline(st),
                  Laid(more + tail, d, k), DumpMembers(ms[1..], st, i), Following(tail, d, k));
    }
  }

  /** Key, colon and value. */
  lemma {:induction false} LaidMember(m: Member, more: seq<Token>, tail: seq<Token>, d: int, k: Option<nat>)
    requires d >= 0
    ensures Laid([Text(Bytes(m.key)), Plain(NameSeparator)] + Yield(m.value) + more + tail, d, k) ==
            Quoted(m.key) + ([COLON] + ((if k.Some? then [SPACE] else []) +
            (Dump(m.value, StyleOf(k), IndentAt(d, k)) + Following(more + tail, d, k))))
    decreases m, 3
  {
    var key, colon, y := Text(Bytes(m.key)), Plain(NameSeparator), Yield(m.value);
    var rest := y + (more + tail);
    LaidValue(m.value, more + tail, d, k);
    FirstOfValue(m.value);
    assert rest[0] == y[0];
    LaidKey(m.key, rest, d, k);
    MemberGlue(key, colon, y, more, tail);
  }

  /** A key and its colon, with one space behind it if there is an indent. */
  lemma {:induction false} LaidKey(key: seq<Byte>, rest: seq<Token>, d: int, k: Option<nat>)
    requires rest != [] && !Closes(rest[0]) && d >= 0
    ensures Laid([Text(Bytes(key))] + ([Plain(NameSeparator)] + rest), d, k) ==
            Quoted(key) + ([COLON] + ((if k.Some? then [SPACE] else []) + Laid(rest, d, k)))
  {
    var colon := Plain(NameSeparator);
    LaidCons(colon, rest, d, k);
    S.Cons(colon, rest);
    LaidCons(Text(Bytes(key)), [colon] + rest, d, k);
    S.Empty(Laid([colon] + rest, d, k));
  }

  lemma MembersEnd(a: seq<Byte>, key: seq<Byte>, space: seq<Byte>, text: seq<Byte>, tail: seq<Byte>)
    ensures a + (key + ([COLON] + (space + (text + tail)))) == a + (key + ([COLON] + (space + (text + [])))) + tail
  {
    S.Empty(text);
    S.Assoc6(a, key, [COLON], space, text, tail);
  }

  lemma MembersText(a: seq<Byte>, key: seq<Byte>, space: seq<Byte>, text: seq<Byte>, nl: seq<Byte>, laid: seq<Byte>,
                    more: seq<Byte>, tail: seq<Byte>)
    requires a + laid == more + tail
    ensures a + (key + ([COLON] + (space + (text + ([COMMA] + (nl + (a + laid))))))) ==
            a + (key + ([COLON] + (space + (text + ([COMMA] + (nl + more)))))) + tail
  {
    S.Assoc4([COMMA], nl, more, tail);
    S.Assoc7(a, key, [COLON], space, text, [COMMA] + (nl + more), tail);
  }

  // ----- the texts

  /** With an indent of `k`, `dump` prints the tokens of the value with exactly these gaps; without one, it prints the
      tokens with no byte between them. */
  lemma {:induction false} DumpIsLaid(v: Value, indent: int)
    ensures DumpText(v, indent) == Laid(Yield(v), 0, if indent >= 0 then Some(indent) else None)
    ensures indent < 0 ==> DumpText(v, indent) == Lexemes(Yield(v))
  {
    WholeIsLaid(v, if indent >= 0 then Some(indent) else None);
    LaidWithoutIndent(Yield(v), 0);
  }

  lemma {:induction false} WholeIsLaid(v: Value, k: Option<nat>)
    ensures Laid(Yield(v), 0, k) == Dump(v, StyleOf(k), 0)
  {
    LaidValue(v, [], 0, k);
    assert Following([], 0, k) == [] && IndentAt(0, k) == 0;
    S.Empty(Yield(v));
    S.Empty(Dump(v, StyleOf(k), 0));
  }

  // ----- dropping white space

  /** The text without the white space outside its strings. */
  function Squeezed(s: seq<Byte>): (r: seq<Byte>)
    decreases |s|
  {
    if s == [] then []
    else if s[0] == 0x20 || s[0] == 0x0A || s[0] == 0x09 || s[0] == 0x0D then Squeezed(s[1..])
    else if s[0] == 0x22 then [0x22] + SqueezedString(s[1..])
    else [s[0]] + Squeezed(s[1..])
  }

  /** The same from inside a string; a backslash keeps the byte behind it from ending the string. */
  function SqueezedString(s: seq<Byte>): (r: seq<Byte>)
    decreases |s|
  {
    if s == [] then []
    else if s[0] == 0x5C && |s| >= 2 then [s[0], s[1]] + SqueezedString(s[2..])
    else if s[0] == 0x22 then [0x22] + Squeezed(s[1..])
    else [s[0]] + SqueezedString(s[1..])
  }

  predicate Solid(s: seq<Byte>)
  {
    forall i :: 0 <= i < |s| ==> s[i] != 0x20 && s[i] != 0x0A && s[i] != 0x09 && s[i] != 0x0D && s[i] != 0x22
  }

  lemma {:induction false} SqueezedSolid(s: seq<Byte>, rest: seq<Byte>)
    requires Solid(s)
    ensures Squeezed(s + rest) == s + Squeezed(rest)
  {
    if s == [] {
      S.Empty(rest);
      S.Empty(Squeezed(rest));
    } else {
      S.Uncons(s);
      S.Assoc([s[0]], s[1..], rest);
      S.Cons(s[0], s[1..] + rest);
      SqueezedSolid(s[1..], rest);
      S.Assoc([s[0]], s[1..], Squeezed(rest));
    }
  }

  lemma {:induction false} SqueezedBlank(w: seq<Byte>, rest: seq<Byte>)
    requires forall i :: 0 <= i < |w| ==> w[i] == 0x20 || w[i] == 0x0A
    ensures Squeezed(w + rest) == Squeezed(rest)
  {
    if w == [] {
      S.Empty(rest);
    } else {
      S.Uncons(w);
      S.Assoc([w[0]], w[1..], rest);
      S.Cons(w[0], w[1..] + rest);
      SqueezedBlank(w[1..], rest);
    }
  }

  /** Bytes that stay as they are inside a string. */
  lemma {:induction false} SqueezedInside(s: seq<Byte>, rest: seq<Byte>)
    requires forall i :: 0 <= i < |s| ==> s[i] != 0x5C && s[i] != 0x22
    ensures SqueezedString(s + rest) == s + SqueezedString(rest)
  {
    if s == [] {
      S.Empty(rest);
      S.Empty(SqueezedString(rest));
    } else {
      S.Uncons(s);
      S.Assoc([s[0]], s[1..], rest);
      S.Cons(s[0], s[1..] + rest);
      SqueezedInside(s[1..], rest);
      S.Assoc([s[0]], s[1..], SqueezedString(rest));
    }
  }

  lemma {:induction false} SqueezedByte(c: Byte, rest: seq<Byte>)
    ensures SqueezedString(EscapeByte(c) + rest) == EscapeByte(c) + SqueezedString(rest)
  {
    var e := EscapeByte(c);
    if |e| == 1 {
      SqueezedInside(e, rest);
    } else {
      S.Uncons2(e);
      S.Assoc([e[0], e[1]], e[2..], rest);
      S.Cons2(e[0], e[1], e[2..] + rest);
      SqueezedInside(e[2..], rest);
      S.Assoc([e[0], e[1]], e[2..], SqueezedString(rest));
    }
  }

  lemma {:induction false} SqueezedEscape(s: seq<Byte>, rest: seq<Byte>)
    ensures SqueezedString(Escape(s) + rest) == Escape(s) + SqueezedString(rest)
  {
    if s == [] {
      S.Empty(rest);
      S.Empty(SqueezedString(rest));
    } else {
      var e, more := EscapeByte(s[0]), Escape(s[1..]);
      S.Assoc(e, more, rest);
      SqueezedByte(s[0], more + rest);
      SqueezedEscape(s[1..], rest);
      S.Assoc(e, more, SqueezedString(rest));
    }
  }

  lemma {:induction false} SqueezedQuoted(s: seq<Byte>, rest: seq<Byte>)
    ensures Squeezed(Quoted(s) + rest) == Quoted(s) + Squeezed(rest)
  {
    S.Bracketed(QUOTE, Escape(s), QUOTE, rest);
    S.Cons(QUOTE, Escape(s) + ([QUOTE] + rest));
    SqueezedEscape(s, [QUOTE] + rest);
    S.Cons(QUOTE, rest);
    S.Bracketed(QUOTE, Escape(s), QUOTE, Squeezed(rest));
  }

  /** Tokens other than a number that is no integer, whose text is not known. */
  predicate Known(t: Token) { t.Number? && t.number.Some? ==> !t.number.value.Real? }

  predicate AllKnown(ts: seq<Token>) { forall i :: 0 <= i < |ts| ==> Known(ts[i]) }

  lemma {:induction false} SqueezedLexeme(t: Token, rest: seq<Byte>)
    requires Known(t)
    ensures Squeezed(Lexeme(t) + rest) == Lexeme(t) + Squeezed(rest)
  {
    if t.Text? && t.text.Bytes? {
      SqueezedQuoted(t.text.bytes, rest);
    } else {
      LexemeIsSolid(t);
      SqueezedSolid(Lexeme(t), rest);
    }
  }

  lemma {:induction false} LexemeIsSolid(t: Token)
    requires Known(t) && !(t.Text? && t.text.Bytes?)
    ensures Solid(Lexeme(t))
  {
    if t.Number? && t.number.Some? && t.number.value.Int? {
      IntIsSolid(t.number.value.n);
    }
  }

  lemma {:induction false} IntIsSolid(n: int)
    ensures Solid(IntText(n))
  {
    NatTextDigits(if n < 0 then 0 - n else n);
  }

  lemma {:induction false} SqueezedLaid(ts: seq<Token>, d: int, k: Option<nat>)
    requires AllKnown(ts)
    ensures Squeezed(Laid(ts, d, k)) == Lexemes(ts)
  {
    if ts != [] {
      var d' := DepthBehind(d, ts[0]);
      var gap := if |ts| == 1 then [] else Gap(ts[0], ts[1], d', k);
      SqueezedLaid(ts[1..], d', k);
      SqueezedBlank(gap, Laid(ts[1..], d', k));
      SqueezedLexeme(ts[0], gap + Laid(ts[1..], d', k));
    }
  }

  lemma {:induction false} ExactIsKnown(v: Value)
    requires Exact(v)
    ensures AllKnown(Yield(v))
    decreases v, 0
  {
    match v
    case Arr(es) => if es != [] { ExactElemsAreKnown(es); }
    case Obj(ms) => if ms != [] { ExactMembersAreKnown(ms); }
    case _ =>
  }

  lemma {:induction false} ExactElemsAreKnown(es: seq<Value>)
    requires es != [] && ExactElems(es)
    ensures AllKnown(YieldElems(es))
    decreases es, 1
  {
    ExactIsKnown(es[0]);
    if |es| > 1 {
      ExactElemsAreKnown(es[1..]);
    }
  }

  lemma {:induction false} ExactMembersAreKnown(ms: seq<Member>)
    requires ms != [] && ExactMembers(ms)
    ensures AllKnown(YieldMembers(ms))
    decreases ms, 1
  {
    ExactIsKnown(ms[0].value);
    if |ms| > 1 {
      ExactMembersAreKnown(ms[1..]);
    }
  }

  /** Dropping the white space outside strings from any dump gives the compact one. */
  lemma {:induction false} SqueezedDump(v: Value, indent: int)
    requires Exact(v)
    ensures Squeezed(DumpText(v, indent)) == DumpText(v, -1)
  {
    DumpIsLaid(v, indent);
    DumpIsLaid(v, -1);
    ExactIsKnown(v);
    SqueezedLaid(Yield(v), 0, if indent >= 0 then Some(indent) else None);
  }

  // ----- lines

  /** The number of spaces in front. */
  function Leading(s: seq<Byte>): (n: nat)
    ensures n <= |s|
  {
    if s != [] && s[0] == 0x20 then 1 + Leading(s[1..]) else 0
  }

  predicate StartsWithClose(s: seq<Byte>) { s != [] && (s[0] == 0x5D || s[0] == 0x7D) }

  /** Every line of the text, in front of which `d` brackets are open, starts with `k` spaces for each bracket that is
      open on it; a line that starts with a closing bracket counts as outside of it. */
  predicate Ruled(s: seq<Byte>, d: int, k: nat)
    decreases |s|
  {
    if s == [] then true
    else if s[0] == 0x0A then
      var n := Leading(s[1..]);
      var depth := if StartsWithClose(s[1 + n..]) then d - 1 else d;
      depth >= 0 && n == Margin(depth, k) && Ruled(s[1..], d, k)
    else if s[0] == 0x22 then RuledString(s[1..], d, k)
    else if s[0] == 0x5B || s[0] == 0x7B then Ruled(s[1..], d + 1, k)
    else if s[0] == 0x5D || s[0] == 0x7D then Ruled(s[1..], d - 1, k)
    else Ruled(s[1..], d, k)
  }

  predicate RuledString(s: seq<Byte>, d: int, k: nat)
    decreases |s|
  {
    if s == [] then true
    else if s[0] == 0x5C && |s| >= 2 then RuledString(s[2..], d, k)
    else if s[0] == 0x22 then Ruled(s[1..], d, k)
    else RuledString(s[1..], d, k)
  }

  lemma {:induction false} RuledInside(s: seq<Byte>, rest: seq<Byte>, d: int, k: nat)
    requires forall i :: 0 <= i < |s| ==> s[i] != 0x5C && s[i] != 0x22
    ensures RuledString(s + rest, d, k) == RuledString(rest, d, k)
  {
    if s == [] {
      S.Empty(rest);
    } else {
      S.Uncons(s);
      S.Assoc([s[0]], s[1..], rest);
      S.Cons(s[0], s[1..] + rest);
      RuledInside(s[1..], rest, d, k);
    }
  }

  lemma {:induction false} RuledEscape(s: seq<Byte>, rest: seq<Byte>, d: int, k: nat)
    ensures RuledString(Escape(s) + rest, d, k) == RuledString(rest, d, k)
  {
    if s == [] {
      S.Empty(rest);
    } else {
      var e, more := EscapeByte(s[0]), Escape(s[1..]);
      S.Assoc(e, more, rest);
      RuledByte(s[0], more + rest, d, k);
      RuledEscape(s[1..], rest, d, k);
    }
  }

  lemma {:induction false} RuledByte(c: Byte, rest: seq<Byte>, d: int, k: nat)
    ensures RuledString(EscapeByte(c) + rest, d, k) == RuledString(rest, d, k)
  {
    var e := EscapeByte(c);
    if |e| == 1 {
      RuledInside(e, rest, d, k);
    } else {
      S.Uncons2(e);
      S.Assoc([e[0], e[1]], e[2..], rest);
      S.Cons2(e[0], e[1], e[2..] + rest);
      RuledInside(e[2..], rest, d, k);
    }
  }

  /** Bytes that mean nothing for the lines. */
  predicate Inert(s: seq<Byte>)
  {
    forall i :: 0 <= i < |s| ==>
      s[i] != 0x0A && s[i] != 0x22 && s[i] != 0x5B && s[i] != 0x5D && s[i] != 0x7B && s[i] != 0x7D
  }

  lemma {:induction false} RuledInert(s: seq<Byte>, rest: seq<Byte>, d: int, k: nat)
    requires Inert(s)
    ensures Ruled(s + rest, d, k) == Ruled(rest, d, k)
  {
    if s == [] {
      S.Empty(rest);
    } else {
      S.Uncons(s);
      S.Assoc([s[0]], s[1..], rest);
      S.Cons(s[0], s[1..] + rest);
      RuledInert(s[1..], rest, d, k);
    }
  }

  lemma {:induction false} RuledLexeme(t: Token, rest: seq<Byte>, d: int, k: nat)
    requires Known(t)
    ensures Ruled(Lexeme(t) + rest, d, k) == Ruled(rest, DepthBehind(d, t), k)
  {
    if t.Text? && t.text.Bytes? {
      var e := Escape(t.text.bytes);
      S.Bracketed(QUOTE, e, QUOTE, rest);
      S.Cons(QUOTE, e + ([QUOTE] + rest));
      RuledEscape(t.text.bytes, [QUOTE] + rest, d, k);
      S.Cons(QUOTE, rest);
    } else if Opens(t) || Closes(t) {
      S.Cons(Lexeme(t)[0], rest);
    } else {
      LexemeIsInert(t);
      RuledInert(Lexeme(t), rest, d, k);
    }
  }

  lemma {:induction false} LexemeIsInert(t: Token)
    requires Known(t) && !(t.Text? && t.text.Bytes?) && !Opens(t) && !Closes(t)
    ensures Inert(Lexeme(t))
  {
    if t.Number? && t.number.Some? && t.number.value.Int? {
      IntIsInert(t.number.value.n);
    }
  }

  lemma {:induction false} IntIsInert(n: int)
    ensures Inert(IntText(n))
  {
    NatTextDigits(if n < 0 then 0 - n else n);
  }

  lemma {:induction false} LeadingSpaces(n: nat, rest: seq<Byte>)
    requires rest == [] || rest[0] != 0x20
    ensures Leading(Spaces(n) + rest) == n
  {
    if n == 0 {
      S.Empty(rest);
    } else {
      assert Spaces(n) == [0x20] + Spaces(n - 1);
      S.Assoc([0x20], Spaces(n - 1), rest);
      S.Cons(0x20, Spaces(n - 1) + rest);
      LeadingSpaces(n - 1, rest);
    }
  }

  lemma {:induction false} RuledNewLine(depth: int, rest: seq<Byte>, d: int, k: nat)
    requires depth >= 0 && rest != [] && rest[0] != 0x20 && depth == if StartsWithClose(rest) then d - 1 else d
    ensures Ruled(NewLine(depth, k) + rest, d, k) == Ruled(rest, d, k)
  {
    var spaces := Spaces(Margin(depth, k));
    S.Assoc([0x0A], spaces, rest);
    S.Cons(0x0A, spaces + rest);
    LeadingSpaces(|spaces|, rest);
    S.DropAppend(spaces, rest);
    S.DropDrop([0x0A] + (spaces + rest), 1, |spaces|);
    RuledInert(spaces, rest, d, k);
  }

  /** What a token's text starts with. */
  lemma {:induction false} LexemeStarts(t: Token, rest: seq<Byte>)
    requires Known(t) && Lexeme(t) != []
    ensures (Lexeme(t) + rest)[0] != 0x20 && (StartsWithClose(Lexeme(t) + rest) <==> Closes(t))
  {
    if t.Number? && t.number.Some? && t.number.value.Int? {
      var n := t.number.value.n;
      NatTextDigits(if n < 0 then 0 - n else n);
    }
  }

  /** At no point are more brackets closed than opened, and every token has a text. */
  predicate Nested(ts: seq<Token>, d: int)
  {
    ts == [] ||
    (Known(ts[0]) && Lexeme(ts[0]) != [] && DepthBehind(d, ts[0]) >= 0 && Nested(ts[1..], DepthBehind(d, ts[0])))
  }

  function GapBehind(ts: seq<Token>, d: int, k: Option<nat>): (s: seq<Byte>)
    requires ts != []
  {
    if |ts| == 1 then [] else Gap(ts[0], ts[1], d, k)
  }

  lemma {:induction false} RuledLaid(ts: seq<Token>, d: int, k: nat)
    requires Nested(ts, d) && d >= 0
    ensures Ruled(Laid(ts, d, Some(k)), d, k)
  {
    if ts != [] {
      var d' := DepthBehind(d, ts[0]);
      var rest := Laid(ts[1..], d', Some(k));
      RuledLaid(ts[1..], d', k);
      RuledLexeme(ts[0], GapBehind(ts, d', Some(k)) + rest, d, k);
      if |ts| == 1 {
        S.Empty(rest);
      } else {
        RuledGap(ts[0], ts[1..], d', k);
      }
    }
  }

  lemma {:induction false} RuledGap(a: Token, ts: seq<Token>, d: int, k: nat)
    requires ts != [] && Nested(ts, d) && d >= 0
    ensures var rest := Laid(ts, d, Some(k)); Ruled(Gap(a, ts[0], d, Some(k)) + rest, d, k) == Ruled(rest, d, k)
  {
    var rest := Laid(ts, d, Some(k));
    LaidStarts(ts, d, k);
    if Opens(a) && Closes(ts[0]) {
      RuledInert([], rest, d, k);
    } else if Closes(ts[0]) {
      RuledNewLine(d - 1, rest, d, k);
    } else if Opens(a) || a == Plain(ValueSeparator) {
      RuledNewLine(d, rest, d, k);
    } else {
      RuledInert(Gap(a, ts[0], d, Some(k)), rest, d, k);
    }
  }

  lemma {:induction false} LaidStarts(ts: seq<Token>, d: int, k: nat)
    requires ts != [] && Nested(ts, d)
    ensures var rest := Laid(ts, d, Some(k));
            rest != [] && rest[0] != 0x20 && (StartsWithClose(rest) <==> Closes(ts[0]))
  {
    var d' := DepthBehind(d, ts[0]);
    LexemeStarts(ts[0], GapBehind(ts, d', Some(k)) + Laid(ts[1..], d', Some(k)));
  }

  lemma {:induction false} NestedCons(t: Token, us: seq<Token>, d: int)
    requires Known(t) && Lexeme(t) != [] && DepthBehind(d, t) >= 0 && Nested(us, DepthBehind(d, t))
    ensures Nested([t] + us, d)
  {
    S.Cons(t, us);
  }

  lemma {:induction false} NestedValue(v: Value, us: seq<Token>, d: int)
    requires Exact(v) && Nested(us, d) && d >= 0
    ensures Nested(Yield(v) + us, d)
    decreases v, 0
  {
    match v
    case Arr(es) => NestedArray(es, us, d);
    case Obj(ms) => NestedObject(ms, us, d);
    case Int(n) =>
      NatTextDigits(if n < 0 then 0 - n else n);
      NestedCons(Number(Some(v)), us, d);
    case Str(s) => NestedCons(Text(Bytes(s)), us, d);
    case Null => NestedCons(Plain(LiteralNull), us, d);
    case Bool(b) => NestedCons(Plain(if b then LiteralTrue else LiteralFalse), us, d);
  }

  lemma {:induction false} NestedBrackets(open: Token, inner: seq<Token>, close: Token, us: seq<Token>, d: int)
    requires Opens(open) && Closes(close) && Nested(inner + ([close] + us), d + 1) && d >= 0
    ensures Nested([open] + inner + [close] + us, d)
  {
    NestedCons(open, inner + ([close] + us), d);
    S.Bracketed(open, inner, close, us);
  }

  lemma {:induction false} NestedEmpty(open: Token, close: Token, us: seq<Token>, d: int)
    requires Opens(open) && Closes(close) && Nested(us, d) && d >= 0
    ensures Nested([open, close] + us, d)
  {
    NestedCons(close, us, d + 1);
    NestedCons(open, [close] + us, d);
    S.Cons2(open, close, us);
  }

  lemma {:induction false} NestedArray(es: seq<Value>, us: seq<Token>, d: int)
    requires ExactElems(es) && Nested(us, d) && d >= 0
    ensures Nested(Yield(Arr(es)) + us, d)
    decreases es, 2
  {
    var open, close := Plain(BeginArray), Plain(EndArray);
    if es == [] {
      NestedEmpty(open, close, us, d);
    } else {
      NestedCons(close, us, d + 1);
      NestedElems(es, [close] + us, d + 1);
      NestedBrackets(open, YieldElems(es), close, us, d);
      ArrayUnfolds(es, d, None);
    }
  }

  lemma {:induction false} NestedObject(ms: seq<Member>, us: seq<Token>, d: int)
    requires ExactMembers(ms) && Nested(us, d) && d >= 0
    ensures Nested(Yield(Obj(ms)) + us, d)
    decreases ms, 2
  {
    var open, close := Plain(BeginObject), Plain(EndObject);
    if ms == [] {
      NestedEmpty(open, close, us, d);
    } else {
      NestedCons(close, us, d + 1);
      NestedMembers(ms, [close] + us, d + 1);
      NestedBrackets(open, YieldMembers(ms), close, us, d);
      ObjectUnfolds(ms, d, None);
    }
  }

  lemma {:induction false} NestedElems(es: seq<Value>, us: seq<Token>, d: int)
    requires es != [] && ExactElems(es) && Nested(us, d) && d >= 0
    ensures Nested(YieldElems(es) + us, d)
    decreases es, 1
  {
    if |es| == 1 {
      S.Empty(Yield(es[0]));
      NestedValue(es[0], us, d);
    } else {
      var comma, more := Plain(ValueSeparator), YieldElems(es[1..]);
      NestedElems(es[1..], us, d);
      NestedCons(comma, more + us, d);
      NestedValue(es[0], [comma] + (more + us), d);
      S.Assoc4(Yield(es[0]), [comma], more, us);
    }
  }

  lemma {:induction false} NestedMembers(ms: seq<Member>, us: seq<Token>, d: int)
    requires ms != [] && ExactMembers(ms) && Nested(us, d) && d >= 0
    ensures Nested(YieldMembers(ms) + us, d)
    decreases ms, 1
  {
    var comma := Plain(ValueSeparator);
    var more := if |ms| == 1 then [] else [comma] + YieldMembers(ms[1..]);
    if |ms| == 1 {
      S.Empty(us);
    } else {
      NestedMembers(ms[1..], us, d);
      NestedCons(comma, YieldMembers(ms[1..]) + us, d);
      S.Assoc([comma], YieldMembers(ms[1..]), us);
    }
    NestedMember(ms[0], more, us, d);
  }

  lemma {:induction false} NestedMember(m: Member, more: seq<Token>, us: seq<Token>, d: int)
    requires Exact(m.value) && Nested(more + us, d) && d >= 0
    ensures Nested([Text(Bytes(m.key)), Plain(NameSeparator)] + Yield(m.value) + more + us, d)
    decreases m, 3
  {
    var key, colon, y := Text(Bytes(m.key)), Plain(NameSeparator), Yield(m.value);
    NestedValue(m.value, more + us, d);
    NestedCons(colon, y + (more + us), d);
    NestedCons(key, [colon] + (y + (more + us)), d);
    MemberGlue(key, colon, y, more, us);
  }

  /** Every line of an indented dump at nesting depth `d` starts with exactly `d * k` spaces. */
  lemma {:induction false} LinesAreIndented(v: Value, k: nat)
    requires Exact(v)
    ensures Ruled(DumpText(v, k), 0, k)
  {
    DumpIsLaid(v, k);
    NestedValue(v, [], 0);
    S.Empty(Yield(v));
    RuledLaid(Yield(v), 0, k);
  }
}
