/** `lexer::to_unicode`: a code point, or a surrogate pair, becomes UTF-8 bytes. */
module Utf8 {
  import opened Bytes

  datatype Encoded =
    | Utf8(bytes: seq<Byte>)
    | BadLowSurrogate   // std::invalid_argument
    | OutOfRange        // std::out_of_range

  predicate IsHighSurrogate(c: nat) { 0xD800 <= c <= 0xDBFF }
  predicate IsLowSurrogate(c: nat) { 0xDC00 <= c <= 0xDFFF }

  /** The four branches that write one to four bytes. The source builds each byte with shifts and masks;
      ShiftsAndMasks shows that they are the divisions and remainders used here. */
  function Encode(c: nat): (bytes: seq<Byte>)
    requires c <= 0x10FFFF
  {
    if c < 0x80 then [c]
    else if c <= 0x7FF then [0xC0 + c / 64, 0x80 + c % 64]
    else if c <= 0xFFFF then [0xE0 + c / 4096, 0x80 + c / 64 % 64, 0x80 + c % 64]
    else [0xF0 + c / 0x40000, 0x80 + c / 4096 % 64, 0x80 + c / 64 % 64, 0x80 + c % 64]
  }

  lemma ShiftsAndMasks(c: bv32)
    requires c <= 0x10FFFF
    ensures c <= 0x7FF ==> 0xC0 | ((c >> 6) & 0x1F) == 0xC0 + c / 64
    ensures c <= 0xFFFF ==> 0xE0 | ((c >> 12) & 0x0F) == 0xE0 + c / 4096
    ensures 0xF0 | ((c >> 18) & 0x07) == 0xF0 + c / 0x40000
    ensures 0x80 | ((c >> 12) & 0x3F) == 0x80 + c / 4096 % 64
    ensures 0x80 | ((c >> 6) & 0x3F) == 0x80 + c / 64 % 64
    ensures 0x80 | (c & 0x3F) == 0x80 + c % 64
  {
  }

  /** The surrogate-pair formula, with the source's constant. */
  function Combine(high: nat, low: nat): (c: int)
  {
    high * 0x400 + low - 0x35FDC00
  }

  function ToUnicode(c1: nat, c2: nat): (r: Encoded)
  {
    if IsHighSurrogate(c1) then
      if IsLowSurrogate(c2) then
        assert 0x10000 <= Combine(c1, c2) <= 0x10FFFF;
        Utf8(Encode(Combine(c1, c2)))
      else BadLowSurrogate
    else if c1 <= 0x10FFFF then Utf8(Encode(c1))
    else OutOfRange
  }

  /** A continuation octet, section 3 of RFC 3629. */
  predicate Tail(b: Byte) { 0x80 <= b <= 0xBF }

  /** The bit table of section 3 of RFC 3629 alone: the number at the front of `s` and the octets it takes. Overlong
      forms are refused, surrogates are not. */
  function DecodeBits(s: seq<Byte>): (r: Option<(nat, nat)>)
  {
    if |s| >= 1 && s[0] <= 0x7F then Some((s[0], 1))
    else if |s| >= 2 && 0xC2 <= s[0] <= 0xDF && Tail(s[1]) then
      Some(((s[0] as int - 0xC0) * 0x40 + (s[1] as int - 0x80), 2))
    else if |s| >= 3 && 0xE0 <= s[0] <= 0xEF && Tail(s[1]) && Tail(s[2]) && (s[0] == 0xE0 ==> s[1] >= 0xA0) then
      Some(((s[0] as int - 0xE0) * 0x1000 + (s[1] as int - 0x80) * 0x40 + (s[2] as int - 0x80), 3))
    else if |s| >= 4 && 0xF0 <= s[0] <= 0xF4 && Tail(s[1]) && Tail(s[2]) && Tail(s[3])
            && (s[0] == 0xF0 ==> s[1] >= 0x90) && (s[0] == 0xF4 ==> s[1] <= 0x8F) then
      Some(((s[0] as int - 0xF0) * 0x40000 + (s[1] as int - 0x80) * 0x1000
            + (s[2] as int - 0x80) * 0x40 + (s[3] as int - 0x80), 4))
    else None
  }

  /** The decoder of section 3 of RFC 3629: the octets 0xED 0xA0-0xBF, which would start a surrogate, are prohibited. */
  function Decode(s: seq<Byte>): (r: Option<(nat, nat)>)
  {
    if |s| >= 2 && s[0] == 0xED && s[1] >= 0xA0 then None else DecodeBits(s)
  }

  predicate IsSurrogate(c: nat) { IsHighSurrogate(c) || IsLowSurrogate(c) }

  /** Splitting a number into base-64 digits and putting it back. */
  lemma Base64(c: nat)
    ensures c == c / 64 * 64 + c % 64
    ensures c == c / 4096 * 4096 + c / 64 % 64 * 64 + c % 64
    ensures c == c / 0x40000 * 0x40000 + c / 4096 % 64 * 4096 + c / 64 % 64 * 64 + c % 64
  {
    assert c / 64 / 64 == c / 4096;
    assert c / 4096 / 64 == c / 0x40000;
  }

  lemma BitsDecode(c: nat, rest: seq<Byte>)
    requires c <= 0x10FFFF
    ensures DecodeBits(Encode(c) + rest) == Some((c, |Encode(c)|))
  {
    var e := Encode(c);
    var s := e + rest;
    Base64(c);
    assert s[0] == e[0];
    if |e| >= 2 {
      assert s[1] == e[1];
    }
    if |e| >= 3 {
      assert s[2] == e[2];
    }
    if |e| >= 4 {
      assert s[3] == e[3];
    }
  }

  /** The surrogates are exactly the numbers whose octets start like that. */
  lemma SurrogateOctets(c: nat)
    requires c <= 0x10FFFF
    ensures IsSurrogate(c) <==> var e := Encode(c); |e| >= 2 && e[0] == 0xED && e[1] >= 0xA0
  {
    Base64(c);
  }

  /** Every code point that is no surrogate decodes back, whatever octets follow, and no surrogate decodes. */
  lemma EncodeDecodes(c: nat, rest: seq<Byte>)
    requires c <= 0x10FFFF
    ensures Decode(Encode(c) + rest) == if IsSurrogate(c) then None else Some((c, |Encode(c)|))
  {
    var e := Encode(c);
    BitsDecode(c, rest);
    SurrogateOctets(c);
    assert (e + rest)[0] == e[0];
    if |e| >= 2 {
      assert (e + rest)[1] == e[1];
    }
  }

  lemma Encode3(z: nat, y: nat, x: nat)
    requires z < 16 && y < 64 && x < 64 && (z == 0 ==> y >= 32)
    ensures Encode(z * 0x1000 + y * 0x40 + x) == [0xE0 + z, 0x80 + y, 0x80 + x]
  {
    var c := z * 0x1000 + y * 0x40 + x;
    assert c / 64 == z * 64 + y && c / 4096 == z;
  }

  lemma Encode4(u: nat, z: nat, y: nat, x: nat)
    requires u <= 4 && z < 64 && y < 64 && x < 64 && (u == 0 ==> z >= 16) && (u == 4 ==> z < 16)
    ensures u * 0x40000 + z * 0x1000 + y * 0x40 + x <= 0x10FFFF
    ensures Encode(u * 0x40000 + z * 0x1000 + y * 0x40 + x) == [0xF0 + u, 0x80 + z, 0x80 + y, 0x80 + x]
  {
    var c := u * 0x40000 + z * 0x1000 + y * 0x40 + x;
    assert c / 64 == u * 0x1000 + z * 0x40 + y && c / 4096 == u * 64 + z && c / 0x40000 == u;
  }

  lemma BitsEncode(s: seq<Byte>)
    requires DecodeBits(s).Some?
    ensures var (c, n) := DecodeBits(s).value; c <= 0x10FFFF && n <= |s| && Encode(c) == s[..n]
  {
    var (c, n) := DecodeBits(s).value;
    if n == 3 {
      Encode3(s[0] - 0xE0, s[1] - 0x80, s[2] - 0x80);
    } else if n == 4 {
      Encode4(s[0] - 0xF0, s[1] - 0x80, s[2] - 0x80, s[3] - 0x80);
    }
  }

  /** The other direction: whatever the decoder accepts is exactly what Encode prints, and no surrogate. */
  lemma DecodeEncodes(s: seq<Byte>)
    requires Decode(s).Some?
    ensures var (c, n) := Decode(s).value; c <= 0x10FFFF && !IsSurrogate(c) && n <= |s| && Encode(c) == s[..n]
  {
    BitsEncode(s);
    var (c, n) := Decode(s).value;
    SurrogateOctets(c);
  }

  /** No encoding is a proper prefix of another: an encoding that starts another one is that one. */
  lemma PrefixFree(c: nat, d: nat)
    requires c <= 0x10FFFF && d <= 0x10FFFF
    requires Encode(c) <= Encode(d)
    ensures c == d
  {
    BitsDecode(c, Encode(d)[|Encode(c)|..]);
    BitsDecode(d, []);
    assert Encode(c) + Encode(d)[|Encode(c)|..] == Encode(d) == Encode(d) + [];
  }

  /** The surrogate-pair formula is a bijection onto 0x10000-0x10FFFF. */
  lemma CombineIsOnto(c: nat) returns (high: nat, low: nat)
    requires 0x10000 <= c <= 0x10FFFF
    ensures IsHighSurrogate(high) && IsLowSurrogate(low) && Combine(high, low) == c
    ensures forall h, l :: IsHighSurrogate(h) && IsLowSurrogate(l) && Combine(h, l) == c ==> h == high && l == low
  {
    high, low := 0xD800 + (c - 0x10000) / 0x400, 0xDC00 + (c - 0x10000) % 0x400;
  }

  lemma CombineIsInto(high: nat, low: nat)
    requires IsHighSurrogate(high) && IsLowSurrogate(low)
    ensures 0x10000 <= Combine(high, low) <= 0x10FFFF
  {
  }

  /** The code point that the arguments stand for. */
  function Meant(c1: nat, c2: nat): (c: int)
  {
    if IsHighSurrogate(c1) then 0x10000 + (c1 - 0xD800) * 0x400 + (c2 - 0xDC00) else c1
  }

  /** The whole operation: it succeeds exactly on a code point that is no high surrogate or on a full pair. Its bytes
      are UTF-8, and then decode to the code point that is meant whatever follows, exactly when the argument is no lone
      low surrogate. */
  lemma ToUnicodeMeaning(c1: nat, c2: nat, rest: seq<Byte>)
    ensures ToUnicode(c1, c2).Utf8? <==>
            if IsHighSurrogate(c1) then IsLowSurrogate(c2) else c1 <= 0x10FFFF
    ensures ToUnicode(c1, c2).BadLowSurrogate? <==> IsHighSurrogate(c1) && !IsLowSurrogate(c2)
    ensures ToUnicode(c1, c2).Utf8? ==>
              var b := ToUnicode(c1, c2).bytes;
              && (Decode(b + rest) == Some((Meant(c1, c2), |b|)) <==> !IsLowSurrogate(c1))
              && (Decode(b + rest) == None <==> IsLowSurrogate(c1))
  {
    if ToUnicode(c1, c2).Utf8? {
      if IsHighSurrogate(c1) {
        CombineIsInto(c1, c2);
        EncodeDecodes(Combine(c1, c2), rest);
      } else {
        EncodeDecodes(c1, rest);
      }
    }
  }
}
