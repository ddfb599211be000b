/** `lexer::scan` and `lexer::get_string`. The generated automaton is kept: a variable holds the label that the next
    `goto` jumps to, each block advances the cursor and looks at one byte, and a dead end goes back to the marker. */
module JsonScanner {
  import opened Bytes
  import S = Seqs
  import opened JsonLex
  import opened JsonString
  import U = Utf8

  /** Labels of the source, without the ones that only fall through. */
  datatype Label =
    | L23 | L24 | L25 | L26 | L30 | L32 | L33 | L34 | L36 | L37 | L38 | L39
    | L40 | L42 | L43 | L44 | L45 | L47 | L49

  // ----- the number blocks, 23-25 and 40-49

  predicate IsNumberLabel(l: Label)
  {
    l == L23 || l == L25 || l == L40 || l == L42 || l == L43 || l == L44 || l == L45 || l == L47 || l == L49
  }

  /** The blocks that move the marker: the text up to the cursor is a number there. */
  predicate Marks(l: Label) { l == L23 || l == L25 || l == L40 || l == L47 || l == L49 }

  function NumberGoto(l: Label, yych: Byte): (next: Label)
    requires IsNumberLabel(l)
  {
    if l == L42 then (if IsDigit(yych) then L47 else L32)
    else if l == L43 then (if IsSign(yych) then L44 else if IsDigit(yych) then L45 else L32)
    else if l == L44 then (if IsDigit(yych) then L45 else L32)
    else if l == L45 then (if IsDigit(yych) then L45 else L24)
    else if l == L47 then (if IsDigit(yych) then L47 else if IsExpMark(yych) then L43 else L24)
    else if (l == L25 || l == L40) && IsDigit(yych) then L40
    else if yych == DOT then L42
    else if IsExpMark(yych) then L43
    else L24
  }

  /** What led to a block: the byte under the cursor, and where the marker is. */
  ghost predicate AtNumberLabel(l: Label, s: seq<Byte>, i: nat, m: nat)
  {
    i < |s| && m <= |s| &&
    if l == L42 then m == i && s[i] == DOT
    else if l == L43 then m == i && IsExpMark(s[i])
    else if l == L44 then IsSign(s[i])
    else if l == L23 || l == L49 then s[i] == ZERO
    else IsDigit(s[i])
  }

  /** Where the number ends when the automaton enters block `l` with its cursor at `i` and its marker at `m`. */
  ghost function NumberFrom(l: Label, s: seq<Byte>, i: nat, m: nat): (e: nat)
    requires i <= |s|
  {
    if l == L42 then (if IsDigit(Peek(s, i + 1)) then ExpEnd(s, DigitEnd(s, i + 1)) else m)
    else if l == L43 then ExpEnd(s, i)
    else if l == L44 then (if IsDigit(Peek(s, i + 1)) then DigitEnd(s, i + 1) else m)
    else if l == L45 then DigitEnd(s, i)
    else if l == L47 then ExpEnd(s, DigitEnd(s, i))
    else if l == L25 || l == L40 then ExpEnd(s, FracEnd(s, DigitEnd(s, i)))
    else if l == L32 then m
    else if l == L24 || i == |s| then i
    else ExpEnd(s, FracEnd(s, i + 1))
  }

  /** One block keeps the end that the automaton is heading for. */
  ghost predicate NumberBlockKeeps(l: Label, s: seq<Byte>, i: nat, m: nat)
    requires IsNumberLabel(l) && i < |s|
  {
    var m' := if Marks(l) then i + 1 else m;
    var next := NumberGoto(l, Peek(s, i + 1));
    && NumberFrom(next, s, i + 1, m') == NumberFrom(l, s, i, m)
    && (IsNumberLabel(next) ==> AtNumberLabel(next, s, i + 1, m'))
    && (IsNumberLabel(next) || next == L24 || next == L32)
  }

  lemma {:induction false} ZeroBlocksKeep(l: Label, s: seq<Byte>, i: nat, m: nat)
    requires AtNumberLabel(l, s, i, m) && (l == L23 || l == L49)
    ensures NumberBlockKeeps(l, s, i, m)
  {
  }

  lemma {:induction false} IntegerBlocksKeep(l: Label, s: seq<Byte>, i: nat, m: nat)
    requires AtNumberLabel(l, s, i, m) && (l == L25 || l == L40)
    ensures NumberBlockKeeps(l, s, i, m)
  {
    assert DigitEnd(s, i) == DigitEnd(s, i + 1);
    if IsDigit(Peek(s, i + 1)) {
      assert NumberGoto(l, Peek(s, i + 1)) == L40;
    } else {
      assert DigitEnd(s, i + 1) == i + 1;
    }
  }

  lemma {:induction false} FractionBlocksKeep(l: Label, s: seq<Byte>, i: nat, m: nat)
    requires AtNumberLabel(l, s, i, m) && (l == L42 || l == L47)
    ensures NumberBlockKeeps(l, s, i, m)
  {
    assert l == L47 ==> DigitEnd(s, i) == DigitEnd(s, i + 1);
    assert !IsDigit(Peek(s, i + 1)) ==> DigitEnd(s, i + 1) == i + 1;
  }

  lemma {:induction false} ExponentBlocksKeep(l: Label, s: seq<Byte>, i: nat, m: nat)
    requires AtNumberLabel(l, s, i, m) && (l == L43 || l == L44 || l == L45)
    ensures NumberBlockKeeps(l, s, i, m)
  {
    assert l == L45 ==> DigitEnd(s, i) == DigitEnd(s, i + 1);
    assert !IsDigit(Peek(s, i + 1)) ==> DigitEnd(s, i + 1) == i + 1;
  }

  lemma {:induction false} NumberBlocksKeep(l: Label, s: seq<Byte>, i: nat, m: nat)
    requires IsNumberLabel(l) && AtNumberLabel(l, s, i, m)
    ensures NumberBlockKeeps(l, s, i, m)
  {
    if l == L42 || l == L47 {
      FractionBlocksKeep(l, s, i, m);
    } else if l == L43 || l == L44 || l == L45 {
      ExponentBlocksKeep(l, s, i, m);
    } else if l == L23 || l == L49 {
      ZeroBlocksKeep(l, s, i, m);
    } else {
      IntegerBlocksKeep(l, s, i, m);
    }
  }

  lemma {:induction false} DigitEndShifts(s: seq<Byte>, b: nat, i: nat)
    requires b + i <= |s|
    ensures DigitEnd(s[b..], i) + b == DigitEnd(s, b + i)
    decreases |s| - i
  {
    if b + i < |s| && IsDigit(s[b + i]) {
      DigitEndShifts(s, b, i + 1);
    }
  }

  lemma {:induction false} PeekShifts(s: seq<Byte>, b: nat, i: nat)
    requires b <= |s|
    ensures Peek(s[b..], i) == Peek(s, b + i)
  {
  }

  lemma {:induction false} FracEndShifts(s: seq<Byte>, b: nat, i: nat)
    requires b + i <= |s|
    ensures FracEnd(s[b..], i) + b == FracEnd(s, b + i)
  {
    PeekShifts(s, b, i);
    PeekShifts(s, b, i + 1);
    if b + i + 1 <= |s| {
      DigitEndShifts(s, b, i + 1);
    }
  }

  lemma {:induction false} ExpEndShifts(s: seq<Byte>, b: nat, i: nat)
    requires b + i <= |s|
    ensures ExpEnd(s[b..], i) + b == ExpEnd(s, b + i)
  {
    PeekShifts(s, b, i);
    PeekShifts(s, b, i + 1);
    PeekShifts(s, b, i + 2);
    if b + i + 1 <= |s| {
      DigitEndShifts(s, b, i + 1);
    }
    if b + i + 2 <= |s| {
      DigitEndShifts(s, b, i + 2);
    }
  }

  /** The number token of the text left at `b`, in absolute positions. */
  lemma {:induction false} NumberLenAt(s: seq<Byte>, b: nat)
    requires b < |s|
    ensures var d := if s[b] == MINUS then b + 1 else b;
            NumberLen(s[b..]) ==
            if IsDigit(Peek(s, d)) then ExpEnd(s, FracEnd(s, IntEnd(s, d))) - b else 0
  {
    var d := if s[b] == MINUS then 1 else 0;
    var t := s[b..];
    PeekShifts(s, b, 0);
    PeekShifts(s, b, d);
    if IsDigit(Peek(t, d)) {
      DigitEndShifts(s, b, d);
      FracEndShifts(s, b, IntEnd(t, d));
      ExpEndShifts(s, b, FracEnd(t, IntEnd(t, d)));
    }
  }

  // ----- the string blocks, 26 and 30-39

  predicate IsStringLabel(l: Label)
  {
    l == L26 || l == L30 || l == L33 || l == L36 || l == L37 || l == L38 || l == L39
  }

  function StringGoto(l: Label, yych: Byte): (next: Label)
    requires IsStringLabel(l)
  {
    if l == L33 then (if IsEscapeLetter(yych) then L30 else if yych == 0x75 then L36 else L32)
    else if l == L36 then (if IsHexDigit(yych) then L37 else L32)
    else if l == L37 then (if IsHexDigit(yych) then L38 else L32)
    else if l == L38 then (if IsHexDigit(yych) then L39 else L32)
    else if l == L39 then (if IsHexDigit(yych) then L30 else L32)
    else if IsPlain(yych) then L30
    else if yych <= 0x0F then L32
    else if yych <= QUOTE then L34
    else L33
  }

  /** How far the cursor is from the start of the character it is in; -1 on a character's last byte. */
  function Depth(l: Label): (d: int)
  {
    if l == L26 || l == L30 then -1
    else if l == L36 then 1
    else if l == L37 then 2
    else if l == L38 then 3
    else if l == L39 then 4
    else 0
  }

  ghost predicate AtStringLabel(l: Label, s: seq<Byte>, i: nat)
  {
    var d := Depth(l);
    var b := i - d;
    && 0 <= b && i < |s|
    && (l == L33 || d >= 1 ==> s[b] == BACKSLASH)
    && (d >= 1 ==> s[b + 1] == 0x75)
    && (d >= 2 ==> IsHexDigit(s[b + 2]))
    && (d >= 3 ==> IsHexDigit(s[b + 3]))
    && (d >= 4 ==> IsHexDigit(s[b + 4]))
  }

  lemma {:induction false} CharLenShifts(s: seq<Byte>, b: nat, i: nat)
    requires b <= |s|
    ensures CharLen(s[b..], i) == CharLen(s, b + i)
  {
    PeekShifts(s, b, i);
    PeekShifts(s, b, i + 1);
    PeekShifts(s, b, i + 2);
    PeekShifts(s, b, i + 3);
    PeekShifts(s, b, i + 4);
    PeekShifts(s, b, i + 5);
  }

  lemma {:induction false} ClosingQuoteShifts(s: seq<Byte>, b: nat, i: nat)
    requires b + i <= |s|
    ensures var q := ClosingQuote(s[b..], i); ClosingQuote(s, b + i) == if q.Some? then Some(b + q.value) else None
    decreases |s| - i
  {
    PeekShifts(s, b, i);
    CharLenShifts(s, b, i);
    if Peek(s, b + i) != QUOTE && CharLen(s, b + i) > 0 {
      ClosingQuoteShifts(s, b, i + CharLen(s, b + i));
    }
  }

  /** The automaton is at block `l` with its cursor at `i`, on its way to the closing quote `q`. */
  ghost predicate StringRun(l: Label, s: seq<Byte>, i: nat, q: Option<nat>)
  {
    if l == L34 then q == Some(i)
    else if l == L32 then q == None
    else IsStringLabel(l) && AtStringLabel(l, s, i) && ClosingQuote(s, i - Depth(l)) == q
  }

  lemma {:induction false} PlainBlocksKeep(l: Label, s: seq<Byte>, i: nat, q: Option<nat>)
    requires StringRun(l, s, i, q) && (l == L26 || l == L30)
    ensures StringRun(StringGoto(l, Peek(s, i + 1)), s, i + 1, q)
  {
  }

  lemma {:induction false} BackslashBlockKeeps(s: seq<Byte>, i: nat, q: Option<nat>)
    requires StringRun(L33, s, i, q)
    ensures StringRun(StringGoto(L33, Peek(s, i + 1)), s, i + 1, q)
  {
    assert Peek(s, i) == BACKSLASH && !IsPlain(BACKSLASH);
    if IsEscapeLetter(Peek(s, i + 1)) {
      assert CharLen(s, i) == 2 && Depth(L30) == -1;
    } else if Peek(s, i + 1) != 0x75 {
      assert CharLen(s, i) == 0;
    }
  }

  /** A `\u` escape is read whole or not at all. */
  lemma {:induction false} ClosingQuoteAfterU(s: seq<Byte>, b: nat)
    requires b + 1 < |s| && s[b] == BACKSLASH && s[b + 1] == 0x75
    ensures ClosingQuote(s, b) == if HexQuad(s, b + 2) then ClosingQuote(s, b + 6) else None
  {
    assert !IsPlain(BACKSLASH) && !IsEscapeLetter(0x75);
    assert CharLen(s, b) == if HexQuad(s, b + 2) then 6 else 0;
  }

  lemma {:induction false} HexBlocksStop(l: Label, s: seq<Byte>, i: nat, q: Option<nat>)
    requires StringRun(l, s, i, q) && (l == L36 || l == L37 || l == L38 || l == L39)
    requires !IsHexDigit(Peek(s, i + 1))
    ensures q == None
  {
    ClosingQuoteAfterU(s, i - Depth(l));
  }

  lemma {:induction false} LastHexBlockKeeps(s: seq<Byte>, i: nat, q: Option<nat>)
    requires StringRun(L39, s, i, q) && IsHexDigit(Peek(s, i + 1))
    ensures StringRun(L30, s, i + 1, q)
  {
    ClosingQuoteAfterU(s, i - 4);
    assert Peek(s, i + 1) != 0;
  }

  lemma {:induction false} MiddleHexBlocksKeep(l: Label, s: seq<Byte>, i: nat, q: Option<nat>)
    requires StringRun(l, s, i, q) && (l == L36 || l == L37 || l == L38) && IsHexDigit(Peek(s, i + 1))
    ensures StringRun(StringGoto(l, Peek(s, i + 1)), s, i + 1, q)
  {
    assert Depth(StringGoto(l, Peek(s, i + 1))) == Depth(l) + 1;
  }

  lemma {:induction false} HexBlocksKeep(l: Label, s: seq<Byte>, i: nat, q: Option<nat>)
    requires StringRun(l, s, i, q) && (l == L36 || l == L37 || l == L38 || l == L39)
    ensures StringRun(StringGoto(l, Peek(s, i + 1)), s, i + 1, q)
  {
    if !IsHexDigit(Peek(s, i + 1)) {
      HexBlocksStop(l, s, i, q);
    } else if l == L39 {
      LastHexBlockKeeps(s, i, q);
    } else {
      MiddleHexBlocksKeep(l, s, i, q);
    }
  }

  /** One block keeps the closing quote that the automaton is heading for. */
  lemma {:induction false} StringBlocksKeep(l: Label, s: seq<Byte>, i: nat, q: Option<nat>)
    requires IsStringLabel(l) && StringRun(l, s, i, q)
    ensures i < |s| && StringRun(StringGoto(l, Peek(s, i + 1)), s, i + 1, q)
  {
    if l == L26 || l == L30 {
      PlainBlocksKeep(l, s, i, q);
    } else if l == L33 {
      BackslashBlockKeeps(s, i, q);
    } else {
      HexBlocksKeep(l, s, i, q);
    }
  }

  /** Blocks 23-25 and 40-49, from the block `first`: the end of the number. */
  method RunNumber(text: seq<Byte>, first: Label, begin: nat) returns (cursor: nat)
    requires IsNumberLabel(first) && AtNumberLabel(first, text, begin, begin)
    ensures cursor == NumberFrom(first, text, begin, begin)
  {
    cursor := begin;
    var marker := begin;
    var next := first;
    while IsNumberLabel(next)
      invariant IsNumberLabel(next) ==> AtNumberLabel(next, text, cursor, marker)
      invariant cursor <= |text|
      invariant NumberFrom(next, text, cursor, marker) == NumberFrom(first, text, begin, begin)
      invariant IsNumberLabel(next) || next == L24 || next == L32
      decreases |text| - cursor
    {
      NumberBlocksKeep(next, text, cursor, marker);
      cursor := cursor + 1;
      if Marks(next) {
        marker := cursor;
      }
      next := NumberGoto(next, Peek(text, cursor));
    }
    if next == L32 {
      cursor := marker;
    }
  }

  /** Blocks 26 and 30-39, from the opening quote: the closing quote, if the automaton gets there. */
  method RunString(text: seq<Byte>, begin: nat) returns (found: bool, cursor: nat)
    requires begin < |text|
    ensures ClosingQuote(text, begin + 1) == if found then Some(cursor) else None
  {
    ghost var q := ClosingQuote(text, begin + 1);
    cursor := begin;
    var next := L26;
    while IsStringLabel(next)
      invariant StringRun(next, text, cursor, q)
      decreases |text| - cursor
    {
      StringBlocksKeep(next, text, cursor, q);
      cursor := cursor + 1;
      next := StringGoto(next, Peek(text, cursor));
    }
    StringRunEnds(next, text, cursor, q);
    found := next == L34;
  }

  lemma {:induction false} StringRunEnds(l: Label, s: seq<Byte>, i: nat, q: Option<nat>)
    requires StringRun(l, s, i, q) && !IsStringLabel(l)
    ensures q == if l == L34 then Some(i) else None
  {
  }

  /** Labels 18-21 and 50-59: the rest of a literal, or back to the marker. */
  method RunWord(text: seq<Byte>, begin: nat, word: seq<Byte>) returns (found: bool)
    requires begin < |text| && |word| > 0 && text[begin] == word[0] && NUL !in word
    ensures found <==> word <= text[begin..]
  {
    var i := 1;
    while i < |word|
      invariant 1 <= i <= |word| && begin + i <= |text|
      invariant word[..i] == text[begin..begin + i]
    {
      if Peek(text, begin + i) != word[i] {
        assert begin + i < |text| ==> text[begin..][i] != word[i];
        return false;
      }
      assert word[i] in word;
      i := i + 1;
    }
    found := true;
  }

  /** The number token at `begin`. */
  method ScanNumber(text: seq<Byte>, begin: nat) returns (token: Lexed)
    requires begin < |text| && (text[begin] == MINUS || IsDigit(text[begin]))
    ensures var n := NumberLen(text[begin..]);
            token == if n > 0 then Lexed(ValueNumber, n) else Lexed(ParseError, 1)
  {
    NumberLenAt(text, begin);
    var end;
    if text[begin] == MINUS {
      if !IsDigit(Peek(text, begin + 1)) {
        return Lexed(ParseError, 1);
      }
      end := RunNumber(text, if text[begin + 1] == ZERO then L49 else L40, begin + 1);
    } else {
      end := RunNumber(text, if text[begin] == ZERO then L23 else L25, begin);
    }
    return Lexed(ValueNumber, end - begin);
  }

  /** The string token at `begin`. */
  method ScanString(text: seq<Byte>, begin: nat) returns (token: Lexed)
    requires begin < |text| && text[begin] == QUOTE
    ensures var n := StringLen(text[begin..]);
            token == if n > 0 then Lexed(ValueString, n) else Lexed(ParseError, 1)
  {
    ClosingQuoteShifts(text, begin, 1);
    var found, end := RunString(text, begin);
    return if found then Lexed(ValueString, end + 1 - begin) else Lexed(ParseError, 1);
  }

  /** The dispatch on the first byte of a token, which is not white space. */
  method ScanToken(text: seq<Byte>, begin: nat) returns (token: Lexed)
    requires begin <= |text| && !IsSpace(Peek(text, begin))
    ensures token == Lex(text[begin..])
  {
    var yych := Peek(text, begin);
    PeekShifts(text, begin, 0);
    LexByFirstByte(text[begin..]);
    if yych == QUOTE {
      token := ScanString(text, begin);
    } else if yych == MINUS || IsDigit(yych) {
      token := ScanNumber(text, begin);
    } else if yych == 0x66 {
      var found := RunWord(text, begin, FALSE_TEXT);
      token := if found then Lexed(LiteralFalse, 5) else Lexed(ParseError, 1);
    } else if yych == 0x6E {
      var found := RunWord(text, begin, NULL_TEXT);
      token := if found then Lexed(LiteralNull, 4) else Lexed(ParseError, 1);
    } else if yych == 0x74 {
      var found := RunWord(text, begin, TRUE_TEXT);
      token := if found then Lexed(LiteralTrue, 4) else Lexed(ParseError, 1);
    } else {
      token := Lexed(
        if yych == NUL then EndOfInput
        else if yych == COMMA then ValueSeparator
        else if yych == COLON then NameSeparator
        else if yych == LBRACKET then BeginArray
        else if yych == RBRACKET then EndArray
        else if yych == LBRACE then BeginObject
        else if yych == RBRACE then EndObject
        else ParseError, 1);
    }
  }

  class Lexer {
    const text: seq<Byte>
    var start: nat
    var cursor: nat

    constructor (text: seq<Byte>)
      ensures this.text == text && start == 0 && cursor == 0
    {
      this.text := text;
      start, cursor := 0, 0;
    }

    /** One token. White space is skipped by starting over behind it. */
    method Scan() returns (kind: Kind)
      requires cursor <= |text|
      modifies this
      ensures start == old(cursor) + SpaceRun(text[old(cursor)..])
      ensures start <= cursor && Lexed(kind, cursor - start) == Lex(text[start..])
      decreases |text| - cursor
    {
      start := cursor;
      ghost var begin := cursor;
      PeekShifts(text, start, 0);
      if IsSpace(Peek(text, cursor)) {
        while IsSpace(Peek(text, cursor))
          invariant start == begin <= cursor <= |text|
          invariant SpaceRun(text[begin..]) == cursor - start + SpaceRun(text[cursor..])
          invariant cursor == start ==> IsSpace(Peek(text, cursor))
          decreases |text| - cursor
        {
          SpaceRunSteps(text, cursor);
          cursor := cursor + 1;
        }
        kind := Scan();
      } else {
        var token := ScanToken(text, start);
        cursor := start + token.len;
        kind := token.kind;
      }
    }

    /** `get_string`, called while the current token is a string. */
    method GetString() returns (r: Text)
      requires start <= |text| && start <= cursor && Lex(text[start..]) == Lexed(ValueString, cursor - start)
      ensures start + 2 <= cursor <= |text| && r == TextOf(text[start..], cursor - start)
    {
      r := TokenText(text, start, cursor);
    }
  }

  method TokenText(text: seq<Byte>, start: nat, cursor: nat) returns (r: Text)
    requires start <= |text| && start <= cursor && Lex(text[start..]) == Lexed(ValueString, cursor - start)
    ensures start + 2 <= cursor <= |text| && r == TextOf(text[start..], cursor - start)
  {
    StringTokenIsBody(text, start, cursor);
    r := DecodeBody(text[start + 1..cursor - 1]);
  }

  lemma {:induction false} StringTokenIsBody(text: seq<Byte>, start: nat, cursor: nat)
    requires start <= |text| && start <= cursor && Lex(text[start..]) == Lexed(ValueString, cursor - start)
    ensures start + 2 <= cursor <= |text| && IsBody(text[start + 1..cursor - 1])
    ensures Unescape(text[start + 1..cursor - 1]) == TextOf(text[start..], cursor - start)
  {
    var s := text[start..];
    StringLenIsToken(s, cursor - start);
    assert s[1..cursor - start - 1] == text[start + 1..cursor - 1];
  }

  /** The loop of `get_string` stands at `i`; the next character starts at `e`, and what lies between is copied. */
  ghost predicate Decoding(body: seq<Byte>, result: seq<Byte>, i: nat, e: nat)
    requires IsBody(body)
  {
    && i <= e <= |body| && IsBodyFrom(body, e) && (forall k :: i <= k < e ==> body[k] != BACKSLASH)
    && Unescape(body) == Prepend(result + body[i..e], UnescapeFrom(body, e))
  }

  /** A byte that is no backslash is copied. */
  lemma {:induction false} CopySteps(body: seq<Byte>, result: seq<Byte>, i: nat, e: nat)
    requires IsBody(body) && Decoding(body, result, i, e) && i < |body| && body[i] != BACKSLASH
    ensures Decoding(body, result + [body[i]], i + 1, if i < e then e else i + 1)
  {
    if i < e {
      assert result + [body[i]] + body[i + 1..e] == result + body[i..e];
    } else {
      S.Empty(result);
      S.Empty(result + [body[i]]);
      assert RoundAt(body, i) == Took([body[i]], i + 1);
      PrependTwice(result, [body[i]], UnescapeFrom(body, i + 1));
    }
  }

  /** A round at a backslash. */
  lemma {:induction false} EscapeSteps(body: seq<Byte>, result: seq<Byte>, i: nat, e: nat)
    requires IsBody(body) && Decoding(body, result, i, e) && i < |body| && body[i] == BACKSLASH
    ensures i == e && CharLen(body, i) > 0
    ensures match RoundAt(body, i)
            case Took(bytes, next) => Unescape(body) == Prepend(result + bytes, UnescapeFrom(body, next))
            case Stop(text) => Unescape(body) == text
  {
    S.Empty(result);
    match RoundAt(body, i)
    case Took(bytes, next) => PrependTwice(result, bytes, UnescapeFrom(body, next));
    case Stop(_) =>
  }

  lemma {:induction false} TookAll(body: seq<Byte>, result: seq<Byte>, next: nat)
    requires IsBody(body) && next <= |body| && IsBodyFrom(body, next)
    requires Unescape(body) == Prepend(result, UnescapeFrom(body, next))
    ensures Decoding(body, result, next, next)
    ensures next == |body| ==> Unescape(body) == Bytes(result)
  {
    S.Empty(result);
  }

  lemma {:induction false} NoSecondBackslash(s: seq<Byte>, k: nat)
    requires k < |s| && CharLen(s, k) > 0 && !EscapedBackslash(s, k)
    ensures forall j :: k < j < k + CharLen(s, k) ==> s[j] != BACKSLASH
  {
  }

  /** The loop stands behind the first byte of the character at `k`, which is lost. */
  ghost predicate Lost(body: seq<Byte>, result: seq<Byte>, k: nat)
    requires IsBody(body)
  {
    k < |body| && IsBodyFrom(body, k) &&
    var r := OutOfStep(body, k);
    r.Took? && Unescape(body) == Prepend(result + r.bytes, UnescapeFrom(body, r.next))
  }

  /** The loop stands at `i` in one of three ways: out of step behind the first byte of an escaped backslash at `e`, in
      step with a character to start at `e`, or behind the end. */
  ghost predicate Reading(body: seq<Byte>, result: seq<Byte>, i: nat, e: nat, lost: bool)
    requires IsBody(body)
  {
    if lost then i == e + 1 && EscapedBackslash(body, e) && Lost(body, result, e)
    else (i <= |body| ==> Decoding(body, result, i, e)) && (i >= |body| ==> Unescape(body) == Bytes(result))
  }

  lemma {:induction false} InStep(body: seq<Byte>, result: seq<Byte>, next: nat)
    requires IsBody(body) && next <= |body| && IsBodyFrom(body, next)
    requires Unescape(body) == Prepend(result, UnescapeFrom(body, next))
    ensures Reading(body, result, next, next, false)
  {
    TookAll(body, result, next);
  }

  /** Unless the character that lost its first byte is an escaped backslash, the rest of it is copied. */
  lemma {:induction false} BehindFirst(body: seq<Byte>, result: seq<Byte>, k: nat) returns (e: nat, lost: bool)
    requires IsBody(body) && Lost(body, result, k)
    ensures Reading(body, result, k + 1, e, lost)
  {
    lost := EscapedBackslash(body, k);
    e := if lost then k else k + CharLen(body, k);
    if !lost {
      NoSecondBackslash(body, k);
      EndsDecoding(body, result, k + 1, e);
    }
  }

  /** An escaped backslash that lost its first byte, and another escape behind it: that one loses its first byte too. */
  lemma {:induction false} LostAgain(body: seq<Byte>, result: seq<Byte>, k: nat)
    requires IsBody(body) && Lost(body, result, k) && EscapedBackslash(body, k)
    requires k + 2 < |body| && body[k + 2] == BACKSLASH
    ensures Lost(body, result + [BACKSLASH], k + 2)
  {
    S.Assoc(result, [BACKSLASH], OutOfStep(body, k + 2).bytes);
  }

  /** With a plain byte behind it, reading is back in step. */
  lemma {:induction false} FoundAgain(body: seq<Byte>, result: seq<Byte>, k: nat)
    requires IsBody(body) && Lost(body, result, k) && EscapedBackslash(body, k)
    requires k + 2 < |body| && body[k + 2] != BACKSLASH
    ensures body[k + 2] != 0x75 && Reading(body, result + Letter(body[k + 2]), k + 3, k + 3, false)
  {
    InStep(body, result + Letter(body[k + 2]), k + 3);
  }

  lemma {:induction false} LostAtEnd(body: seq<Byte>, result: seq<Byte>, k: nat)
    requires IsBody(body) && Lost(body, result, k) && EscapedBackslash(body, k) && k + 2 == |body|
    ensures Reading(body, result + Letter(QUOTE), k + 3, k + 3, false)
  {
    TookAll(body, result + [QUOTE], k + 2);
  }

  /** Out of step, the second half of an escaped backslash takes the byte behind it. */
  lemma {:induction false} LostSteps(body: seq<Byte>, result: seq<Byte>, k: nat, x: Byte) returns (e: nat, lost: bool)
    requires IsBody(body) && Lost(body, result, k) && EscapedBackslash(body, k)
    requires x == if k + 2 < |body| then body[k + 2] else QUOTE
    ensures x != 0x75 && Reading(body, result + Letter(x), k + 3, e, lost)
  {
    if k + 2 == |body| {
      LostAtEnd(body, result, k);
      e, lost := k + 3, false;
    } else if x == BACKSLASH {
      LostAgain(body, result, k);
      assert Letter(x) == [BACKSLASH];
      e, lost := BehindFirst(body, result + [BACKSLASH], k + 2);
    } else {
      FoundAgain(body, result, k);
      e, lost := k + 3, false;
    }
  }

  /** A backslash and the byte behind it, if that is no `u`. */
  lemma {:induction false} LetterSteps(body: seq<Byte>, result: seq<Byte>, i: nat, e: nat, lost: bool, x: Byte)
    returns (e': nat, lost': bool)
    requires IsBody(body) && Reading(body, result, i, e, lost) && i < |body| && body[i] == BACKSLASH
    requires x == (if i + 1 < |body| then body[i + 1] else QUOTE) && x != 0x75
    ensures Reading(body, result + Letter(x), i + 2, e', lost')
  {
    if lost {
      e', lost' := LostSteps(body, result, e, x);
    } else {
      EscapeSteps(body, result, i, e);
      assert RoundAt(body, i) == Took(Letter(x), i + 2);
      InStep(body, result + Letter(x), i + 2);
      e', lost' := i + 2, false;
    }
  }

  /** A `\u` escape, after which `next` is where the loop goes on. */
  lemma {:induction false} UnicodeSteps(body: seq<Byte>, result: seq<Byte>, i: nat, bytes: seq<Byte>, next: nat)
    returns (e: nat, lost: bool)
    requires IsBody(body) && Decoding(body, result, i, i) && i < |body| && body[i] == BACKSLASH
    requires next != i + 13 ==> RoundAt(body, i) == Took(bytes, next)
    requires next == i + 13 ==>
               && i + 12 <= |body| && IsBodyFrom(body, i + 12) && OutOfStep(body, i + 12).Took?
               && RoundAt(body, i) == After(bytes, OutOfStep(body, i + 12))
    ensures Reading(body, result + bytes, next, e, lost)
  {
    EscapeSteps(body, result, i, i);
    e, lost := next, false;
    if next != i + 13 {
      InStep(body, result + bytes, next);
    } else {
      S.Assoc(result, bytes, OutOfStep(body, i + 12).bytes);
      if i + 12 < |body| {
        e, lost := BehindFirst(body, result + bytes, i + 12);
      } else {
        S.Empty(result + bytes);
        TookAll(body, result + bytes, i + 12);
      }
    }
  }

  /** The `\u` case of `get_string`, with `i` at the backslash. It looks ahead only to know where the model stops. */
  method DecodeUnicode(body: seq<Byte>, i: nat) returns (r: Text, next: nat)
    requires i < |body| && IsBodyFrom(body, i) && StartsU(body, i)
    ensures !r.Bytes? ==> RoundAt(body, i) == Stop(r)
    ensures r.Bytes? && next != i + 13 ==> RoundAt(body, i) == Took(r.bytes, next)
    ensures r.Bytes? && next == i + 13 ==>
              && i + 12 <= |body| && IsBodyFrom(body, i + 12) && OutOfStep(body, i + 12).Took?
              && RoundAt(body, i) == After(r.bytes, OutOfStep(body, i + 12))
  {
    next := i;
    var codepoint := CodeAt(body, i);
    if IsHigh(codepoint) {
      if !StartsU(body, i + 6) {
        return Refused, next;
      }
      BodyOfPair(body, i);
      var codepoint2 := CodeAt(body, i + 6);
      var u := U.ToUnicode(codepoint, codepoint2);
      if !u.Utf8? {
        return Refused, next;
      }
      var behind := OutOfStep(body, i + 12);
      if behind.Stop? {
        return behind.text, next;
      }
      r, next := Bytes(u.bytes), i + 1 + 11 + 1;
    } else {
      r, next := Bytes(U.ToUnicode(codepoint, 0).bytes), i + 1 + 4 + 1;
    }
  }

  /** The loop of `get_string`, between the quotes; behind the last byte stands the closing one. */
  method DecodeBody(body: seq<Byte>) returns (r: Text)
    requires IsBody(body)
    ensures r == Unescape(body)
  {
    var result: seq<Byte> := [];
    var i := 0;
    ghost var e: nat, lost := 0, false;
    TookStart(body);
    while i < |body|
      invariant Reading(body, result, i, e, lost)
      decreases |body| - i
    {
      if body[i] != BACKSLASH {
        CopySteps(body, result, i, e);
        result := result + [body[i]];
        i := i + 1;
        e := if i <= e then e else i;
        EndsDecoding(body, result, i, e);
      } else {
        var x := if i + 1 < |body| then body[i + 1] else QUOTE;
        if x == 0x75 {
          NotLost(body, result, i, e, lost);
          var c, next := DecodeUnicode(body, i);
          if !c.Bytes? {
            EscapeSteps(body, result, i, e);
            return c;
          }
          e, lost := UnicodeSteps(body, result, i, c.bytes, next);
          result := result + c.bytes;
          i := next;
        } else {
          e, lost := LetterSteps(body, result, i, e, lost, x);
          result := result + Letter(x);
          i := i + 2;
        }
      }
    }
    return Bytes(result);
  }

  /** Out of step the loop never meets a `u`. */
  lemma {:induction false} NotLost(body: seq<Byte>, result: seq<Byte>, i: nat, e: nat, lost: bool)
    requires IsBody(body) && Reading(body, result, i, e, lost) && i + 1 < |body|
    requires body[i] == BACKSLASH && body[i + 1] == 0x75
    ensures !lost && i == e && IsBodyFrom(body, i) && StartsU(body, i)
  {
  }

  lemma TookStart(body: seq<Byte>)
    requires IsBody(body)
    ensures Reading(body, [], 0, 0, false)
  {
    S.Empty(if Unescape(body).Bytes? then Unescape(body).bytes else []);
  }

  lemma EndsDecoding(body: seq<Byte>, result: seq<Byte>, i: nat, e: nat)
    requires IsBody(body) && Decoding(body, result, i, e)
    ensures Reading(body, result, i, e, false)
  {
    S.Empty(result);
  }
}
