/** The token stream that a text gives to the parser. */
module JsonTokens {
  import opened Bytes
  import S = Seqs
  import opened JsonLex
  import opened JsonString
  import opened JsonNumber
  import opened JsonGrammar

  /** The token at the front of `s`, which does not start with white space, with its value. */
  function TokenOf(s: seq<Byte>): (t: Token)
  {
    var l := Lex(s);
    if l.kind == ValueString then Text(TextOf(s, l.len))
    else if l.kind == ValueNumber then
      NumberIsWhole(s);
      Number(if StrtoldEnd(s) == l.len then Some(NumberValue(s[..l.len])) else None)
    else Plain(l.kind)
  }

  /** All tokens, up to the first one after which the parser asks for no other. */
  function Tokens(s: seq<Byte>): (ts: seq<Token>)
    ensures ts != []
    decreases |s|
  {
    var t := s[SpaceRun(s)..];
    if Final(Lex(t).kind) then [Plain(Lex(t).kind)] else [TokenOf(t)] + Tokens(t[Lex(t).len..])
  }

  ghost predicate EndsOnce(ts: seq<Token>)
  {
    forall i :: 0 <= i < |ts| ==> ((i == |ts| - 1) <==> (ts[i].Plain? && Final(ts[i].kind)))
  }

  /** The end of the input or an error is the last token and only that, so a parser that stops there reads no
      further. */
  lemma {:induction false} OnlyTheLastIsFinal(s: seq<Byte>)
    ensures EndsOnce(Tokens(s))
    decreases |s|
  {
    var t := s[SpaceRun(s)..];
    if !Final(Lex(t).kind) {
      OnlyTheLastIsFinal(t[Lex(t).len..]);
      EndsOnceCons(TokenOf(t), Tokens(t[Lex(t).len..]));
    }
  }

  lemma EndsOnceCons(t: Token, ts: seq<Token>)
    requires ts != [] && EndsOnce(ts) && !(t.Plain? && Final(t.kind))
    ensures EndsOnce([t] + ts)
  {
    var us := [t] + ts;
    assert forall i :: 0 < i < |us| ==> us[i] == ts[i - 1];
  }

  /** The definition of Tokens, with the white space, the token and the rest given. */
  lemma {:induction false} TokensStep(s: seq<Byte>, t: seq<Byte>, kind: Kind, rest: seq<Byte>)
    requires t == s[SpaceRun(s)..] && Lex(t).kind == kind
    requires !Final(kind) ==> rest == t[Lex(t).len..]
    ensures Tokens(s) == if Final(kind) then [Plain(kind)] else [TokenOf(t)] + Tokens(rest)
  {
  }

  /** White space in front changes nothing. */
  lemma {:induction false} TokensSkipSpace(w: seq<Byte>, s: seq<Byte>)
    requires forall i :: 0 <= i < |w| ==> IsSpace(w[i])
    ensures Tokens(w + s) == Tokens(s)
  {
    SpaceRunSkips(w, s);
    assert (w + s)[SpaceRun(w + s)..] == s[SpaceRun(s)..];
  }

  /** A lexeme in front, read as one token, gives one token more. */
  lemma {:induction false} TokensCons(lexeme: seq<Byte>, rest: seq<Byte>, kind: Kind)
    requires lexeme != [] && !IsSpace(lexeme[0]) && !Final(kind)
    requires Lex(lexeme + rest) == Lexed(kind, |lexeme|)
    ensures Tokens(lexeme + rest) == [TokenOf(lexeme + rest)] + Tokens(rest)
  {
    var s := lexeme + rest;
    assert SpaceRun(s) == 0;
    assert s[0..] == s;
    assert s[|lexeme|..] == rest;
  }

  /** White space by section 2 of RFC 7159. */
  predicate IsWhite(b: Byte) { b == 0x20 || b == 0x09 || b == 0x0A || b == 0x0D }

  /** Those four bytes in front of a text, in any number and order, and no others, are ignored. */
  lemma {:induction false} WhiteSpaceIsIgnored(w: seq<Byte>, s: seq<Byte>)
    requires forall i :: 0 <= i < |w| ==> IsWhite(w[i])
    ensures Tokens(w + s) == Tokens(s)
    ensures s != [] && !IsWhite(s[0]) ==> SpaceRun(w + s) == |w|
  {
    TokensSkipSpace(w, s);
    SpaceRunSkips(w, s);
  }

  /** A single raw byte between quotes: from 0x10 on it stands for itself, below it is an error. */
  lemma {:induction false} RawByteIsRead(b: Byte, rest: seq<Byte>)
    requires b != 0x22 && b != 0x5C
    ensures var s := [0x22, b, 0x22] + rest;
            if b >= 0x10 then Lex(s) == Lexed(ValueString, 3) && TokenOf(s) == Text(Bytes([b]))
            else Lex(s).kind == ParseError
  {
    var s := [0x22, b, 0x22] + rest;
    LexByFirstByte(s);
    assert s[1] == b && s[2] == 0x22;
    if b >= 0x10 {
      assert s[1..2] == [b];
      assert CharLen([b], 0) == 1 && IsBodyFrom([b], 1) && IsBody([b]);
      StringLenIsToken(s, 3);
      assert RoundAt([b], 0) == Took([b], 1);
      assert UnescapeFrom([b], 1) == Bytes([]);
      S.Empty([b]);
    } else {
      assert CharLen(s, 1) == 0;
    }
  }

  /** What a letter behind a backslash stands for, section 7 of RFC 7159. */
  function LetterMeaning(x: Byte): (c: Option<Byte>)
  {
    if x == 0x22 || x == 0x5C || x == 0x2F then Some(x)
    else if x == 0x62 then Some(0x08)
    else if x == 0x66 then Some(0x0C)
    else if x == 0x6E then Some(0x0A)
    else if x == 0x72 then Some(0x0D)
    else if x == 0x74 then Some(0x09)
    else None
  }

  /** A backslash and a byte between quotes: one of the eight letters stands for its character; any other byte but `u`
      is an error in step, and nothing out of step. */
  lemma {:induction false} EscapedByteIsRead(x: Byte, rest: seq<Byte>)
    requires x != 0x75
    ensures var s, m := [0x22, 0x5C, x, 0x22] + rest, LetterMeaning(x);
            if m.Some? then Lex(s) == Lexed(ValueString, 4) && TokenOf(s) == Text(Bytes([m.value]))
            else Lex(s).kind == ParseError
    ensures Letter(x) == if LetterMeaning(x).Some? then [LetterMeaning(x).value] else []
  {
    var s := [0x22, 0x5C, x, 0x22] + rest;
    LexByFirstByte(s);
    assert s[1] == 0x5C && s[2] == x && s[3] == 0x22;
    if LetterMeaning(x).Some? {
      LetterBody(x);
      assert s[1..3] == [0x5C, x];
      StringLenIsToken(s, 4);
    } else {
      assert CharLen(s, 1) == 0;
    }
  }

  lemma LetterBody(x: Byte)
    requires LetterMeaning(x).Some?
    ensures var b := [0x5C, x]; IsBody(b) && Unescape(b) == Bytes([LetterMeaning(x).value])
  {
    var b := [0x5C, x];
    assert CharLen(b, 0) == 2 && IsBodyFrom(b, 2);
    assert RoundAt(b, 0) == Took([LetterMeaning(x).value], 2);
    assert UnescapeFrom(b, 2) == Bytes([]);
    S.Empty([LetterMeaning(x).value]);
  }
}
