/** The value of a string token: the inverse of escaping. */
module JsonString {
  import opened Bytes
  import S = Seqs
  import opened JsonLex
  import opened JsonEscape
  import U = Utf8

  /** The result of `get_string`: the text, an exception, or the one place where the model stops reading (escaped
      backslashes right behind a surrogate pair, and then a `u`). */
  datatype Text = Bytes(bytes: seq<Byte>) | Refused | Unread

  function Prepend(p: seq<Byte>, t: Text): (r: Text)
  {
    if t.Bytes? then Bytes(p + t.bytes) else t
  }

  lemma PrependTwice(p: seq<Byte>, q: seq<Byte>, t: Text)
    ensures Prepend(p, Prepend(q, t)) == Prepend(p + q, t)
  {
    if t.Bytes? {
      assert p + (q + t.bytes) == p + q + t.bytes;
    }
  }

  function EscapeLetterValue(b: Byte): (c: Byte)
    requires IsEscapeLetter(b)
  {
    if b == 0x74 then TAB
    else if b == 0x62 then BS
    else if b == 0x66 then FF
    else if b == 0x6E then LF
    else if b == 0x72 then CR
    else b
  }

  predicate HexDigits(q: seq<Byte>) { forall i :: 0 <= i < |q| ==> IsHexDigit(q[i]) }

  /** `strtoul` in base 16 on at most four hexadecimal digits. */
  function HexNumber(q: seq<Byte>): (v: nat)
    requires |q| <= 4 && HexDigits(q)
    ensures v < [1, 0x10, 0x100, 0x1000, 0x10000][|q|]
  {
    if q == [] then 0 else HexNumber(q[..|q| - 1]) * 16 + HexValue(q[|q| - 1])
  }

  predicate IsHigh(c: nat) { U.IsHighSurrogate(c) }

  /** A `\u` escape stands at position `i`. */
  predicate StartsU(s: seq<Byte>, i: nat) { i + 1 < |s| && s[i] == BACKSLASH && s[i + 1] == 0x75 }

  /** Its four digits. */
  function CodeAt(s: seq<Byte>, i: nat): (c: nat)
    requires StartsU(s, i) && CharLen(s, i) > 0
    ensures c <= 0xFFFF
  {
    assert HexDigits(s[i + 2..i + 6]);
    HexNumber(s[i + 2..i + 6])
  }

  /** One round of the loop: the bytes it adds, or the end of it; `next` is where a character starts again. */
  datatype Round = Took(bytes: seq<Byte>, next: nat) | Stop(text: Text)

  function RoundAt(s: seq<Byte>, i: nat): (r: Round)
    requires i < |s| && IsBodyFrom(s, i)
    ensures r.Took? ==> i < r.next <= |s| && IsBodyFrom(s, r.next)
    ensures r.Stop? ==> !r.text.Bytes?
  {
    if s[i] != BACKSLASH then Took([s[i]], i + 1)
    else if s[i + 1] != 0x75 then Took([EscapeLetterValue(s[i + 1])], i + 2)
    else if !IsHigh(CodeAt(s, i)) then Took(U.ToUnicode(CodeAt(s, i), 0).bytes, i + 6)
    else if !StartsU(s, i + 6) then Stop(Refused)
    else PairRound(s, i)
  }

  /** Two `\u` escapes, the first a high surrogate. The source steps over one byte too many. */
  function PairRound(s: seq<Byte>, i: nat): (r: Round)
    requires i < |s| && IsBodyFrom(s, i) && StartsU(s, i) && StartsU(s, i + 6)
    ensures r.Took? ==> i < r.next <= |s| && IsBodyFrom(s, r.next)
    ensures r.Stop? ==> !r.text.Bytes?
  {
    BodyOfPair(s, i);
    var u := U.ToUnicode(CodeAt(s, i), CodeAt(s, i + 6));
    if !u.Utf8? then Stop(Refused) else After(u.bytes, OutOfStep(s, i + 12))
  }

  /** What comes after bytes that are already read. */
  function After(bytes: seq<Byte>, r: Round): (q: Round)
  {
    if r.Took? then Took(bytes + r.bytes, r.next) else r
  }

  /** An escaped backslash stands at position `k`. */
  predicate EscapedBackslash(s: seq<Byte>, k: nat) { k + 1 < |s| && s[k] == BACKSLASH && s[k + 1] == BACKSLASH }

  /** What is read from the character at `k`, whose first byte is lost, until a character starts again. The rest of an
      escape is copied as it stands; but the second half of an escaped backslash makes an escape with whatever follows,
      be it the backslash of the next escape, which is then lost in turn, a byte that is no escape letter, which
      disappears, or the closing quote. Where it meets a `u`, the model stops. */
  function OutOfStep(s: seq<Byte>, k: nat): (r: Round)
    requires k <= |s| && IsBodyFrom(s, k)
    ensures r.Took? ==> k <= r.next <= |s| && IsBodyFrom(s, r.next)
    ensures r.Stop? ==> !r.text.Bytes?
    decreases |s| - k
  {
    if k == |s| then Took([], k)
    else if !EscapedBackslash(s, k) then Took(s[k + 1..k + CharLen(s, k)], k + CharLen(s, k))
    else if k + 2 == |s| then Took([QUOTE], k + 2)
    else if s[k + 2] == BACKSLASH then After([BACKSLASH], OutOfStep(s, k + 2))
    else if s[k + 2] == 0x75 then Stop(Unread)
    else
      BodyBehindBackslash(s, k);
      Took(Letter(s[k + 2]), k + 3)
  }

  lemma {:induction false} BodyBehindBackslash(s: seq<Byte>, k: nat)
    requires k <= |s| && IsBodyFrom(s, k) && EscapedBackslash(s, k) && k + 2 < |s| && s[k + 2] != BACKSLASH
    ensures IsBodyFrom(s, k + 2) && CharLen(s, k + 2) == 1 && IsBodyFrom(s, k + 3)
  {
    assert CharLen(s, k) == 2;
    assert IsBodyFrom(s, k + 2);
    assert CharLen(s, k + 2) == 1;
  }

  /** The `switch` over the byte behind a backslash, without its `u` case. */
  function Letter(b: Byte): (bytes: seq<Byte>) { if IsEscapeLetter(b) then [EscapeLetterValue(b)] else [] }

  lemma {:induction false} BodyOfPair(s: seq<Byte>, i: nat)
    requires i < |s| && IsBodyFrom(s, i) && StartsU(s, i) && StartsU(s, i + 6)
    ensures CharLen(s, i) == CharLen(s, i + 6) == 6 && i + 12 <= |s| && IsBodyFrom(s, i + 6) && IsBodyFrom(s, i + 12)
    ensures i + 12 < |s| ==> CharLen(s, i + 12) > 0 && IsBodyFrom(s, i + 12 + CharLen(s, i + 12))
  {
  }

  /** The value of the characters from position `i` on. */
  function UnescapeFrom(s: seq<Byte>, i: nat): (r: Text)
    requires i <= |s| && IsBodyFrom(s, i)
    decreases |s| - i
  {
    if i == |s| then Bytes([])
    else
      match RoundAt(s, i)
      case Took(bytes, next) => Prepend(bytes, UnescapeFrom(s, next))
      case Stop(text) => text
  }

  function Unescape(s: seq<Byte>): (r: Text)
    requires IsBody(s)
  {
    UnescapeFrom(s, 0)
  }

  /** The text of the string token of length `n` at the front of `s`. */
  function TextOf(s: seq<Byte>, n: nat): (r: Text)
    requires s != [] && s[0] == QUOTE && StringLen(s) == n > 0
  {
    StringLenIsToken(s, n);
    Unescape(s[1..n - 1])
  }

  lemma HexNumberOfByte(q: seq<Byte>, c: Byte)
    requires q == [0x30, 0x30, HexDigit(c / 16), HexDigit(c % 16)]
    ensures HexDigits(q) && HexNumber(q) == c
  {
    assert q[..3] == [0x30, 0x30, HexDigit(c / 16)];
    assert q[..3][..2] == [0x30, 0x30];
    assert q[..3][..2][..1] == [0x30];
    assert HexNumber([0x30]) == 0;
    assert HexNumber([0x30, 0x30]) == 0;
    assert HexNumber(q[..3]) == c / 16;
  }

  lemma {:induction false} EscapedByteIsChar(s: seq<Byte>, i: nat, c: Byte)
    requires i + |EscapeByte(c)| <= |s| && s[i..i + |EscapeByte(c)|] == EscapeByte(c)
    ensures CharLen(s, i) == |EscapeByte(c)|
    ensures IsBodyFrom(s, i + |EscapeByte(c)|) ==> RoundAt(s, i) == Took([c], i + |EscapeByte(c)|)
  {
    var e := EscapeByte(c);
    assert s[i] == e[0];
    if |e| > 1 {
      assert s[i + 1] == e[1];
    }
    if |e| == 6 {
      assert s[i + 2] == e[2] && s[i + 3] == e[3] && s[i + 4] == e[4] && s[i + 5] == e[5];
      HexNumberOfByte(s[i + 2..i + 6], c);
    }
  }

  /** The bytes of `t` from `i` to `i + n` are what `c` becomes. */
  ghost predicate EscapedHere(t: seq<Byte>, i: nat, n: nat, c: Byte)
  {
    i + n <= |t| && t[i..i + n] == EscapeByte(c)
  }

  lemma {:induction false} SplitEscape(t: seq<Byte>, i: nat, s: seq<Byte>) returns (n: nat)
    requires i <= |t| && t[i..] == Escape(s) && s != []
    ensures n > 0 && EscapedHere(t, i, n, s[0]) && t[i + n..] == Escape(s[1..])
  {
    n := |EscapeByte(s[0])|;
    S.SplitAt(t, i, EscapeByte(s[0]), Escape(s[1..]));
  }

  /** From position `i` on, `t` is a body whose value is `s`. */
  ghost predicate ReadsAs(t: seq<Byte>, i: nat, s: seq<Byte>)
  {
    i <= |t| && IsBodyFrom(t, i) && UnescapeFrom(t, i) == Bytes(s)
  }

  lemma {:induction false} UnescapeFirst(t: seq<Byte>, i: nat, n: nat, s: seq<Byte>)
    requires s != [] && EscapedHere(t, i, n, s[0]) && ReadsAs(t, i + n, s[1..])
    ensures ReadsAs(t, i, s)
  {
    EscapedByteIsChar(t, i, s[0]);
    S.Uncons(s);
  }

  lemma {:induction false} UnescapeEnd(t: seq<Byte>, i: nat)
    requires i <= |t| && t[i..] == []
    ensures ReadsAs(t, i, [])
  {
    assert i == |t|;
  }

  lemma {:induction false} UnescapeAt(t: seq<Byte>, i: nat, s: seq<Byte>)
    requires i <= |t| && t[i..] == Escape(s)
    ensures ReadsAs(t, i, s)
    decreases |s|, 1
  {
    if s == [] {
      UnescapeEnd(t, i);
    } else {
      var n := SplitEscape(t, i, s);
      UnescapeNext(t, i, n, s);
    }
  }

  lemma {:induction false} UnescapeNext(t: seq<Byte>, i: nat, n: nat, s: seq<Byte>)
    requires s != [] && EscapedHere(t, i, n, s[0]) && t[i + n..] == Escape(s[1..])
    ensures ReadsAs(t, i, s)
    decreases |s|, 0
  {
    UnescapeAt(t, i + n, s[1..]);
    UnescapeFirst(t, i, n, s);
  }

  /** Whatever bytes a string holds, its printed form is a legal body and its value is the string. */
  lemma UnescapeUndoesEscape(s: seq<Byte>)
    ensures IsBody(Escape(s)) && Unescape(Escape(s)) == Bytes(s)
  {
    assert Escape(s)[0..] == Escape(s);
    UnescapeAt(Escape(s), 0, s);
  }

  lemma {:induction false} EscapedIsQuoted(s: seq<Byte>, u: seq<Byte>)
    requires var e := Escape(s);
             |u| >= |e| + 2 && u[0] == QUOTE && u[1..1 + |e|] == e && u[1 + |e|] == QUOTE
    ensures StringLen(u) == |Escape(s)| + 2
  {
    UnescapeUndoesEscape(s);
    BodyIsRead(u, Escape(s), 1, 0);
  }

  /** The scanner reads the quoted form as one string token that ends at its own closing quote, whatever follows. */
  lemma {:induction false} EscapedIsOneToken(s: seq<Byte>, rest: seq<Byte>)
    ensures var t := [QUOTE] + Escape(s) + [QUOTE];
            Lex(t + rest) == Lexed(ValueString, |t|) && t[1..|t| - 1] == Escape(s)
  {
    var e := Escape(s);
    var u := [QUOTE] + e + [QUOTE] + rest;
    assert u[1..1 + |e|] == e;
    EscapedIsQuoted(s, u);
    LexByFirstByte(u);
  }

  // ----- no printed form is longer than it has to be

  /** In a body that is too short for a `\u`, every character stands for one byte. */
  lemma {:induction false} ShortBody(b: seq<Byte>, i: nat)
    requires i < |b| < i + 6 && IsBodyFrom(b, i)
    ensures UnescapeFrom(b, i).Bytes? && UnescapeFrom(b, i).bytes != []
    ensures |UnescapeFrom(b, i).bytes| == 1 ==>
              CharLen(b, i) == |b| - i && RoundAt(b, i) == Took(UnescapeFrom(b, i).bytes, |b|)
    decreases |b| - i
  {
    var n := CharLen(b, i);
    assert RoundAt(b, i).Took? && RoundAt(b, i).next == i + n && |RoundAt(b, i).bytes| == 1;
    if i + n < |b| {
      ShortBody(b, i + n);
    } else {
      S.Empty(RoundAt(b, i).bytes);
    }
  }

  /** Among all legal bodies without control characters that are read as the byte `c`, none is shorter than the one that
      is printed. */
  lemma {:induction false} EscapeIsShortest(b: seq<Byte>, c: Byte)
    requires IsBody(b) && Unescape(b) == Bytes([c]) && forall i :: 0 <= i < |b| ==> b[i] >= 0x20
    ensures |EscapeByte(c)| <= |b|
  {
    if 0 < |b| < 6 {
      ShortBody(b, 0);
      assert RoundAt(b, 0) == Took([c], |b|);
    }
  }
}
