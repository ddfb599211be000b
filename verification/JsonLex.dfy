/** What one call of the JSON scanner recognises, stated on the text that is left. The buffer is NUL-terminated
    (`c_str()`), so reading at the end of the text gives 0. */
module JsonLex {
  import opened Bytes

  datatype Kind =
    | LiteralTrue | LiteralFalse | LiteralNull
    | ValueString | ValueNumber
    | BeginArray | BeginObject | EndArray | EndObject
    | NameSeparator | ValueSeparator
    | ParseError | EndOfInput

  /** The parser never asks for a token after one of these. */
  predicate Final(k: Kind) { k.ParseError? || k.EndOfInput? }

  function Peek(s: seq<Byte>, i: nat): (b: Byte)
  {
    if i < |s| then s[i] else NUL
  }

  // ----- white space, section 2 of RFC 7159

  predicate IsSpace(b: Byte) { b == TAB || b == LF || b == CR || b == SPACE }

  function SpaceRun(s: seq<Byte>): (n: nat)
    ensures n <= |s|
  {
    if s != [] && IsSpace(s[0]) then 1 + SpaceRun(s[1..]) else 0
  }

  lemma {:induction false} SpaceRunSkips(w: seq<Byte>, s: seq<Byte>)
    requires forall i :: 0 <= i < |w| ==> IsSpace(w[i])
    ensures SpaceRun(w + s) == |w| + SpaceRun(s)
  {
    if w == [] {
      assert w + s == s;
    } else {
      assert (w + s)[1..] == w[1..] + s;
      SpaceRunSkips(w[1..], s);
    }
  }

  lemma {:induction false} SpaceRunSteps(s: seq<Byte>, i: nat)
    requires i < |s| && IsSpace(s[i])
    ensures SpaceRun(s[i..]) == 1 + SpaceRun(s[i + 1..])
  {
    assert s[i..][1..] == s[i + 1..];
  }

  // ----- numbers, section 6 of RFC 7159

  predicate Digits(s: seq<Byte>) { |s| >= 1 && forall i :: 0 <= i < |s| ==> IsDigit(s[i]) }
  predicate IsExpMark(b: Byte) { b == 0x45 || b == 0x65 }
  predicate IsSign(b: Byte) { b == 0x2B || b == 0x2D }

  predicate IsInt(s: seq<Byte>) { Digits(s) && (s[0] == ZERO ==> |s| == 1) }
  predicate IsFrac(s: seq<Byte>) { |s| >= 2 && s[0] == DOT && Digits(s[1..]) }
  predicate IsExp(s: seq<Byte>) {
    |s| >= 2 && IsExpMark(s[0]) && (Digits(s[1..]) || (IsSign(s[1]) && Digits(s[2..])))
  }

  /** `s` is [ minus ] int [ frac ] [ exp ], cut at `m`, `a` and `b`. */
  predicate NumberParts(s: seq<Byte>, m: nat, a: nat, b: nat)
  {
    m <= a <= b <= |s| && (m == 0 || (m == 1 && s[0] == MINUS))
    && IsInt(s[m..a]) && (a == b || IsFrac(s[a..b])) && (b == |s| || IsExp(s[b..]))
  }

  ghost predicate IsNumber(s: seq<Byte>) { exists m, a, b :: NumberParts(s, m, a, b) }

  /** The scanner's greedy reading of each part. */
  function DigitEnd(s: seq<Byte>, i: nat): (e: nat)
    requires i <= |s|
    ensures i <= e <= |s|
    decreases |s| - i
  {
    if i < |s| && IsDigit(s[i]) then DigitEnd(s, i + 1) else i
  }

  lemma {:induction false} DigitEndIsRun(s: seq<Byte>, i: nat)
    requires i <= |s|
    ensures forall k :: i <= k < DigitEnd(s, i) ==> IsDigit(s[k])
    ensures DigitEnd(s, i) < |s| ==> !IsDigit(s[DigitEnd(s, i)])
    decreases |s| - i
  {
    if i < |s| && IsDigit(s[i]) {
      DigitEndIsRun(s, i + 1);
    }
  }

  function IntEnd(s: seq<Byte>, i: nat): (e: nat)
    requires i < |s| && IsDigit(s[i])
    ensures i < e <= |s|
  {
    if s[i] == ZERO then i + 1 else DigitEnd(s, i)
  }

  function FracEnd(s: seq<Byte>, i: nat): (e: nat)
    requires i <= |s|
    ensures i <= e <= |s|
  {
    if Peek(s, i) == DOT && IsDigit(Peek(s, i + 1)) then DigitEnd(s, i + 1) else i
  }

  function ExpEnd(s: seq<Byte>, i: nat): (e: nat)
    requires i <= |s|
    ensures i <= e <= |s|
  {
    if !IsExpMark(Peek(s, i)) then i
    else
      var j := if IsSign(Peek(s, i + 1)) then i + 2 else i + 1;
      if IsDigit(Peek(s, j)) then DigitEnd(s, j) else i
  }

  function MinusLen(s: seq<Byte>): (m: nat) { if Peek(s, 0) == MINUS then 1 else 0 }

  /** The length of the number token at the front of `s`, 0 if there is none. */
  function NumberLen(s: seq<Byte>): (n: nat)
    ensures n <= |s|
  {
    var m := MinusLen(s);
    if IsDigit(Peek(s, m)) then ExpEnd(s, FracEnd(s, IntEnd(s, m))) else 0
  }

  lemma {:induction false} RunIsDigits(s: seq<Byte>, i: nat)
    requires i < |s| && IsDigit(s[i])
    ensures Digits(s[i..DigitEnd(s, i)])
  {
    DigitEndIsRun(s, i);
  }

  lemma {:induction false} FracEndIsFrac(s: seq<Byte>, a: nat)
    requires a <= |s| && a < FracEnd(s, a)
    ensures IsFrac(s[a..FracEnd(s, a)])
  {
    RunIsDigits(s, a + 1);
    assert s[a..FracEnd(s, a)][1..] == s[a + 1..FracEnd(s, a)];
  }

  lemma {:induction false} ExpEndIsExp(s: seq<Byte>, b: nat)
    requires b <= |s| && b < ExpEnd(s, b)
    ensures IsExp(s[b..ExpEnd(s, b)])
  {
    var j := if IsSign(s[b + 1]) then 2 else 1;
    RunIsDigits(s, b + j);
    assert s[b..ExpEnd(s, b)][j..] == s[b + j..ExpEnd(s, b)];
  }

  lemma {:induction false} GreedyPartsAreParts(s: seq<Byte>)
    requires NumberLen(s) > 0
    ensures IsNumber(s[..NumberLen(s)])
  {
    var m := MinusLen(s);
    var a := IntEnd(s, m);
    var b := FracEnd(s, a);
    var e := ExpEnd(s, b);
    RunIsDigits(s, m);
    if a < b {
      FracEndIsFrac(s, a);
    }
    if b < e {
      ExpEndIsExp(s, b);
    }
    SliceOfPrefix(s, e, m, a);
    SliceOfPrefix(s, e, a, b);
    SliceOfPrefix(s, e, b, e);
    assert NumberParts(s[..e], m, a, b);
  }

  lemma {:induction false} DigitsBound(s: seq<Byte>, i: nat, j: nat)
    requires i <= j <= |s| && Digits(s[i..j])
    ensures i < j <= DigitEnd(s, i) && IsDigit(s[i])
    ensures j < DigitEnd(s, i) ==> IsDigit(s[j])
  {
    assert forall k :: i <= k < j ==> s[i..j][k - i] == s[k];
    DigitEndIsRun(s, i);
  }

  lemma {:induction false} IntBound(s: seq<Byte>, m: nat, a: nat)
    requires m <= a <= |s| && IsInt(s[m..a])
    ensures m < |s| && IsDigit(s[m]) && m < a <= IntEnd(s, m)
    ensures a < IntEnd(s, m) ==> IsDigit(s[a])
  {
    DigitsBound(s, m, a);
    assert s[m..a][0] == s[m];
  }

  lemma {:induction false} FracBound(s: seq<Byte>, a: nat, b: nat)
    requires a <= b <= |s| && IsFrac(s[a..b])
    ensures s[a] == DOT && b <= FracEnd(s, a)
    ensures b < FracEnd(s, a) ==> IsDigit(s[b])
  {
    assert s[a..b][1..] == s[a + 1..b];
    DigitsBound(s, a + 1, b);
  }

  lemma {:induction false} ExpBound(s: seq<Byte>, b: nat, k: nat)
    requires b <= k <= |s| && IsExp(s[b..k])
    ensures IsExpMark(s[b]) && k <= ExpEnd(s, b)
  {
    assert s[b..k][1] == s[b + 1];
    if Digits(s[b..k][1..]) {
      assert s[b..k][1..] == s[b + 1..k];
      DigitsBound(s, b + 1, k);
    } else {
      assert s[b..k][2..] == s[b + 2..k];
      DigitsBound(s, b + 2, k);
    }
  }

  lemma {:induction false} SliceOfPrefix(s: seq<Byte>, k: nat, i: nat, j: nat)
    requires i <= j <= k <= |s|
    ensures s[..k][i..j] == s[i..j]
  {
  }

  lemma {:induction false} GreedyIsLongest(s: seq<Byte>, k: nat, m: nat, a: nat, b: nat)
    requires k <= |s| && NumberParts(s[..k], m, a, b)
    ensures NumberLen(s) >= k > 0
  {
    SliceOfPrefix(s, k, m, a);
    SliceOfPrefix(s, k, a, b);
    SliceOfPrefix(s, k, b, k);
    IntBound(s, m, a);
    assert m == MinusLen(s);
    if a < b {
      FracBound(s, a, b);
    }
    if b < k {
      ExpBound(s, b, k);
    }
  }

  /** A number is found exactly when some prefix is a number of the grammar, and the token is the longest one. */
  lemma {:induction false} NumberLenIsLongest(s: seq<Byte>)
    ensures NumberLen(s) > 0 <==> exists k :: 0 <= k <= |s| && IsNumber(s[..k])
    ensures NumberLen(s) > 0 ==> IsNumber(s[..NumberLen(s)])
    ensures forall k :: 0 <= k <= |s| && IsNumber(s[..k]) ==> 0 < k <= NumberLen(s)
  {
    forall k | 0 <= k <= |s| && IsNumber(s[..k])
      ensures 0 < k <= NumberLen(s)
    {
      var m, a, b :| NumberParts(s[..k], m, a, b);
      GreedyIsLongest(s, k, m, a, b);
    }
    if NumberLen(s) > 0 {
      GreedyPartsAreParts(s);
    }
  }

  /** The token alone is read whole. */
  lemma {:induction false} NumberIsWhole(s: seq<Byte>)
    ensures NumberLen(s[..NumberLen(s)]) == NumberLen(s)
  {
    var t := s[..NumberLen(s)];
    if NumberLen(s) > 0 {
      NumberLenIsLongest(s);
      NumberLenIsLongest(t);
      assert t[..|t|] == t;
    }
  }

  // ----- strings, section 7 of RFC 7159, with the scanner's reading of `unescaped`

  /** The scanner lets the raw bytes 0x10-0x1F through. */
  predicate IsPlain(b: Byte) { b >= 0x10 && b != QUOTE && b != BACKSLASH }

  predicate IsEscapeLetter(b: Byte) { 
    b == QUOTE || b == 0x2F || b == BACKSLASH || b == 0x62 || b == 0x66 || b == 0x6E || b == 0x72 || b == 0x74
  }

  predicate HexQuad(s: seq<Byte>, i: nat)
  {
    IsHexDigit(Peek(s, i)) && IsHexDigit(Peek(s, i + 1)) && IsHexDigit(Peek(s, i + 2)) && IsHexDigit(Peek(s, i + 3))
  }

  /** The length of the character (raw or escaped) at position `i`, 0 if there is none. */
  function CharLen(s: seq<Byte>, i: nat): (n: nat)
    ensures n == 0 || i + n <= |s|
  {
    if IsPlain(Peek(s, i)) then 1
    else if Peek(s, i) == BACKSLASH && IsEscapeLetter(Peek(s, i + 1)) then 2
    else if Peek(s, i) == BACKSLASH && Peek(s, i + 1) == 0x75 && HexQuad(s, i + 2) then 6
    else 0
  }

  /** From position `i` on, `s` is any number of characters. */
  predicate IsBodyFrom(s: seq<Byte>, i: nat)
    requires i <= |s|
    decreases |s| - i
  {
    i == |s| || (CharLen(s, i) > 0 && IsBodyFrom(s, i + CharLen(s, i)))
  }

  /** The inside of a string. */
  predicate IsBody(s: seq<Byte>) { IsBodyFrom(s, 0) }

  /** The closing quote that the characters from position `i` on run up to, if they do. */
  function ClosingQuote(s: seq<Byte>, i: nat): (q: Option<nat>)
    requires i <= |s|
    ensures q.Some? ==> i <= q.value < |s| && s[q.value] == QUOTE
    decreases |s| - i
  {
    if Peek(s, i) == QUOTE then Some(i)
    else if CharLen(s, i) == 0 then None
    else ClosingQuote(s, i + CharLen(s, i))
  }

  lemma {:induction false} CharLenLocal(s: seq<Byte>, t: seq<Byte>, o: nat, i: nat)
    requires o + |t| <= |s| && s[o..o + |t|] == t && CharLen(t, i) > 0
    ensures CharLen(s, o + i) == CharLen(t, i)
  {
    var n := CharLen(t, i);
    assert forall k :: i <= k < i + n ==> t[k] == s[o..o + |t|][k] == s[o + k];
    assert t[i] == s[o + i];
    if n > 1 {
      assert t[i + 1] == s[o + i + 1];
    }
    if n > 2 {
      assert t[i + 2] == s[o + i + 2] && t[i + 3] == s[o + i + 3];
      assert t[i + 4] == s[o + i + 4] && t[i + 5] == s[o + i + 5];
    }
  }

  /** A body that stands at `o` and is followed by a quote is read up to that quote, whatever comes after. */
  lemma {:induction false} BodyIsRead(s: seq<Byte>, b: seq<Byte>, o: nat, i: nat)
    requires i <= |b| && o + |b| < |s| && s[o..o + |b|] == b && s[o + |b|] == QUOTE
    requires IsBodyFrom(b, i)
    ensures ClosingQuote(s, o + i) == Some(o + |b|)
    decreases |b| - i
  {
    if i < |b| {
      var n := CharLen(b, i);
      CharLenLocal(s, b, o, i);
      BodyIsRead(s, b, o, i + n);
      assert Peek(b, i) != QUOTE;
      assert s[o + i] == s[o..o + |b|][i] == b[i];
    }
  }

  lemma {:induction false} CharLenCut(s: seq<Byte>, o: nat, k: nat, i: nat)
    requires o <= i && i + CharLen(s, i) <= k <= |s| && CharLen(s, i) > 0
    ensures CharLen(s[o..k], i - o) == CharLen(s, i)
  {
    var t := s[o..k];
    var n := CharLen(s, i);
    assert t[i - o] == s[i];
    if n > 1 {
      assert t[i - o + 1] == s[i + 1];
    }
    if n > 2 {
      assert t[i - o + 2] == s[i + 2] && t[i - o + 3] == s[i + 3];
      assert t[i - o + 4] == s[i + 4] && t[i - o + 5] == s[i + 5];
    }
  }

  lemma {:induction false} ReadIsBody(s: seq<Byte>, o: nat, i: nat)
    requires o <= i <= |s| && ClosingQuote(s, i).Some?
    ensures IsBodyFrom(s[o..ClosingQuote(s, i).value], i - o)
    decreases |s| - i
  {
    if Peek(s, i) != QUOTE {
      ReadIsBody(s, o, i + CharLen(s, i));
      CharLenCut(s, o, ClosingQuote(s, i).value, i);
    }
  }

  /** The length of the string token at the front of `s`, 0 if there is none. */
  function StringLen(s: seq<Byte>): (n: nat)
    requires s != [] && s[0] == QUOTE
    ensures n <= |s|
  {
    var q := ClosingQuote(s, 1);
    if q.Some? then q.value + 1 else 0
  }

  /** A string token is found exactly when the text starts with a quoted body, and it is that one. */
  lemma StringLenIsToken(s: seq<Byte>, n: nat)
    requires s != [] && s[0] == QUOTE
    ensures StringLen(s) == n > 0 <==> 2 <= n <= |s| && s[n - 1] == QUOTE && IsBody(s[1..n - 1])
  {
    if StringLen(s) == n > 0 {
      ReadIsBody(s, 1, 1);
    }
    if 2 <= n <= |s| && s[n - 1] == QUOTE && IsBody(s[1..n - 1]) {
      BodyIsRead(s, s[1..n - 1], 1, 0);
    }
  }

  // ----- whole tokens

  const TRUE_TEXT: seq<Byte> := [0x74, 0x72, 0x75, 0x65]
  const FALSE_TEXT: seq<Byte> := [0x66, 0x61, 0x6C, 0x73, 0x65]
  const NULL_TEXT: seq<Byte> := [0x6E, 0x75, 0x6C, 0x6C]

  datatype Lexed = Lexed(kind: Kind, len: nat)

  /** The token at the front of `s`, which does not start with white space. A scan that fails leaves the cursor one
      byte further; the end of the input is a NUL, the terminator's or one inside the text. */
  function Lex(s: seq<Byte>): (r: Lexed)
    ensures !Final(r.kind) ==> 1 <= r.len <= |s|
    ensures r.kind.ValueNumber? <==> NumberLen(s) > 0
    ensures r.kind.ValueNumber? ==> r.len == NumberLen(s)
    ensures r.kind.ValueString? ==> Peek(s, 0) == QUOTE && r.len == StringLen(s) > 0
  {
    var c := Peek(s, 0);
    if c == NUL then Lexed(EndOfInput, 1)
    else if c == LBRACKET then Lexed(BeginArray, 1)
    else if c == RBRACKET then Lexed(EndArray, 1)
    else if c == LBRACE then Lexed(BeginObject, 1)
    else if c == RBRACE then Lexed(EndObject, 1)
    else if c == COMMA then Lexed(ValueSeparator, 1)
    else if c == COLON then Lexed(NameSeparator, 1)
    else if TRUE_TEXT <= s then Lexed(LiteralTrue, 4)
    else if FALSE_TEXT <= s then Lexed(LiteralFalse, 5)
    else if NULL_TEXT <= s then Lexed(LiteralNull, 4)
    else if c == QUOTE && StringLen(s) > 0 then Lexed(ValueString, StringLen(s))
    else if NumberLen(s) > 0 then Lexed(ValueNumber, NumberLen(s))
    else Lexed(ParseError, 1)
  }

  lemma {:induction false} LexByFirstByte(s: seq<Byte>)
    ensures var c := Peek(s, 0);
            && (c == QUOTE ==>
                Lex(s) == if StringLen(s) > 0 then Lexed(ValueString, StringLen(s)) else Lexed(ParseError, 1))
            && (c == MINUS || IsDigit(c) ==>
                Lex(s) == if NumberLen(s) > 0 then Lexed(ValueNumber, NumberLen(s)) else Lexed(ParseError, 1))
            && (c == 0x66 ==> Lex(s) == if FALSE_TEXT <= s then Lexed(LiteralFalse, 5) else Lexed(ParseError, 1))
            && (c == 0x6E ==> Lex(s) == if NULL_TEXT <= s then Lexed(LiteralNull, 4) else Lexed(ParseError, 1))
            && (c == 0x74 ==> Lex(s) == if TRUE_TEXT <= s then Lexed(LiteralTrue, 4) else Lexed(ParseError, 1))
  {
  }
}
