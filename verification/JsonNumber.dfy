/** Integers as text: `operator<<` on an `int64_t`, and what `get_number` makes of a number token. */
module JsonNumber {
  import opened Bytes
  import opened JsonLex
  import S = Seqs
  import opened JsonValue

  predicate IsInt64(n: int) { -0x8000_0000_0000_0000 <= n <= 0x7FFF_FFFF_FFFF_FFFF }

  // ----- printing

  function NatText(n: nat): (s: seq<Byte>)
    ensures s != []
  {
    if n < 10 then [ZERO + n] else NatText(n / 10) + [ZERO + n % 10]
  }

  function IntText(n: int): (s: seq<Byte>)
  {
    if n < 0 then [MINUS] + NatText(-n) else NatText(n)
  }

  // ----- reading

  function DigitsValue(s: seq<Byte>): (n: nat)
    requires forall i :: 0 <= i < |s| ==> IsDigit(s[i])
  {
    if s == [] then 0
    else
      var d := s[|s| - 1];
      assert IsDigit(d);
      DigitsValue(s[..|s| - 1]) * 10 + (d - ZERO)
  }

  function Pow10(k: nat): (n: nat)
    ensures n > 0
  {
    if k == 0 then 1 else 10 * Pow10(k - 1)
  }

  predicate AllDigits(s: seq<Byte>) { forall i :: 0 <= i < |s| ==> IsDigit(s[i]) }

  /** `mantissa * 10 ^ scale`, if that is an integer. */
  function Scaled(mantissa: nat, scale: int): (n: Option<nat>)
  {
    if scale >= 0 then Some(mantissa * Pow10(scale))
    else if mantissa % Pow10(-scale) == 0 then Some(mantissa / Pow10(-scale))
    else None
  }

  /** The digits of the exponent that starts at `b`, with their sign; 0 if there is none. */
  function ExponentValue(s: seq<Byte>, b: nat): (e: int)
    requires b <= |s| == ExpEnd(s, b)
  {
    if b == |s| then 0
    else
      var j := if IsSign(s[b + 1]) then b + 2 else b + 1;
      DigitEndIsRun(s, j);
      if s[b + 1] == MINUS then 0 - DigitsValue(s[j..]) else DigitsValue(s[j..])
  }

  /** The digits of the fraction that starts at `a`; none if there is none. */
  function FractionDigits(s: seq<Byte>, a: nat): (d: seq<Byte>)
    requires a <= |s|
    ensures AllDigits(d)
  {
    if FracEnd(s, a) == a then []
    else
      DigitEndIsRun(s, a + 1);
      s[a + 1..FracEnd(s, a)]
  }

  /** The digits of the integer part that starts at `m`. */
  function IntegerDigits(s: seq<Byte>, m: nat): (d: seq<Byte>)
    requires m < |s| && IsDigit(s[m])
    ensures AllDigits(d)
  {
    DigitEndIsRun(s, m);
    s[m..IntEnd(s, m)]
  }

  /** The exact value of a whole number lexeme (integer part, fraction, exponent), if that is an integer. */
  function DecimalValue(s: seq<Byte>): (n: Option<int>)
    requires NumberLen(s) == |s| > 0
  {
    var m := MinusLen(s);
    var a := IntEnd(s, m);
    var frac := FractionDigits(s, a);
    var abs := Scaled(DigitsValue(IntegerDigits(s, m) + frac), ExponentValue(s, FracEnd(s, a)) - |frac|);
    if abs.None? then None else Some(if m == 1 then 0 - abs.value else abs.value)
  }

  /** The value of a number lexeme. The source goes through `long double`, which is exact on 64-bit integers however
      they are written; every other number stays text here. */
  function NumberValue(s: seq<Byte>): (v: Value)
    requires NumberLen(s) == |s| > 0
  {
    var n := DecimalValue(s);
    if n.Some? && IsInt64(n.value) then Int(n.value) else Real(s)
  }

  // ----- how far `strtold` reads

  function HexEnd(s: seq<Byte>, i: nat): (e: nat)
    requires i <= |s|
    ensures i <= e <= |s|
    decreases |s| - i
  {
    if i < |s| && IsHexDigit(s[i]) then HexEnd(s, i + 1) else i
  }

  /** `0x` and at least one hexadecimal digit, before or after the point. */
  predicate StartsHex(s: seq<Byte>, i: nat)
  {
    Peek(s, i) == ZERO && (Peek(s, i + 1) == 0x78 || Peek(s, i + 1) == 0x58)
    && (IsHexDigit(Peek(s, i + 2)) || (Peek(s, i + 2) == DOT && IsHexDigit(Peek(s, i + 3))))
  }

  function BinaryExpEnd(s: seq<Byte>, i: nat): (e: nat)
    requires i <= |s|
    ensures i <= e <= |s|
  {
    if Peek(s, i) != 0x70 && Peek(s, i) != 0x50 then i
    else
      var j := if IsSign(Peek(s, i + 1)) then i + 2 else i + 1;
      if IsDigit(Peek(s, j)) then DigitEnd(s, j) else i
  }

  /** Where `strtold` stops on text that starts with an optional minus and a digit. */
  function StrtoldEnd(s: seq<Byte>): (e: nat)
    requires IsDigit(Peek(s, MinusLen(s)))
  {
    var m := MinusLen(s);
    if StartsHex(s, m) then
      var a := HexEnd(s, m + 2);
      var b := if Peek(s, a) == DOT then HexEnd(s, a + 1) else a;
      BinaryExpEnd(s, b)
    else
      var a := DigitEnd(s, m);
      var b := if Peek(s, a) == DOT then DigitEnd(s, a + 1) else a;
      ExpEnd(s, b)
  }

  /** `get_number` refuses a number token exactly when `strtold` reads past it: a leading zero runs on into more digits
      or a hexadecimal number, or a point has no digit behind it. */
  lemma {:induction false} StrtoldReadsTheToken(s: seq<Byte>)
    requires NumberLen(s) > 0
    ensures var m := MinusLen(s);
            var a := IntEnd(s, m);
            && StrtoldEnd(s) >= NumberLen(s)
            && (StrtoldEnd(s) == NumberLen(s) <==>
                && (s[m] == ZERO ==> !IsDigit(Peek(s, a)) && !StartsHex(s, m))
                && (Peek(s, a) == DOT ==> IsDigit(Peek(s, a + 1))))
  {
    var m := MinusLen(s);
    assert DigitEnd(s, m) == DigitEnd(s, m + 1);
  }

  // ----- the two together

  lemma {:induction false} NatTextDigits(n: nat)
    ensures Digits(NatText(n)) && DigitsValue(NatText(n)) == n
    ensures n > 0 ==> NatText(n)[0] != ZERO
    ensures n == 0 ==> NatText(n) == [ZERO]
  {
    if n >= 10 {
      NatTextDigits(n / 10);
      assert NatText(n)[..|NatText(n)| - 1] == NatText(n / 10);
    }
  }

  /** A byte that can follow a number without being read into it. */
  predicate EndsNumber(b: Byte)
  {
    !IsDigit(b) && b != DOT && !IsExpMark(b) && b != 0x78 && b != 0x58
  }

  lemma {:induction false} DigitsRun(s: seq<Byte>, i: nat, j: nat)
    requires i <= j <= |s| && (forall k :: i <= k < j ==> IsDigit(s[k])) && !IsDigit(Peek(s, j))
    ensures DigitEnd(s, i) == j
    decreases j - i
  {
    if i < j {
      DigitsRun(s, i + 1, j);
    }
  }

  /** A printed integer is one number token up to its own end, and `strtold` reads just that. */
  lemma {:induction false} IntTextIsOneToken(n: int, rest: seq<Byte>)
    requires EndsNumber(Peek(rest, 0))
    ensures var s := IntText(n) + rest;
            NumberLen(s) == |IntText(n)| == StrtoldEnd(s)
  {
    var t := IntText(n);
    var s := t + rest;
    var m := if n < 0 then 1 else 0;
    var abs := if n < 0 then -n else n;
    NatTextDigits(abs);
    assert t[m..] == NatText(abs);
    assert forall k :: m <= k < |t| ==> s[k] == NatText(abs)[k - m];
    assert Peek(s, |t|) == Peek(rest, 0);
    DigitsRun(s, m, |t|);
    assert MinusLen(s) == m;
    assert IntEnd(s, m) == |t|;
  }

  /** The parts of a number that is written as an integer and `tail`. */
  lemma {:induction false} IntTextParts(n: int, tail: seq<Byte>)
    requires !IsDigit(Peek(tail, 0)) && Peek(tail, 0) != 0x78 && Peek(tail, 0) != 0x58
    ensures var s, m := IntText(n) + tail, if n < 0 then 1 else 0;
            && MinusLen(s) == m && |IntText(n)| > m && IsDigit(s[m]) && IntEnd(s, m) == |IntText(n)|
            && AllDigits(s[m..|IntText(n)|]) && DigitsValue(s[m..|IntText(n)|]) == (if n < 0 then -n else n)
  {
    var t := IntText(n);
    var s := t + tail;
    var m := if n < 0 then 1 else 0;
    var abs := if n < 0 then -n else n;
    NatTextDigits(abs);
    assert t[m..] == NatText(abs);
    assert s[m..|t|] == NatText(abs);
    assert forall k :: m <= k < |t| ==> s[k] == NatText(abs)[k - m];
    assert Peek(s, |t|) == Peek(tail, 0);
    DigitsRun(s, m, |t|);
  }

  /** Printing an integer and reading it gives it back. */
  lemma {:induction false} IntTextValue(n: int)
    ensures NumberLen(IntText(n)) == |IntText(n)| > 0 && DecimalValue(IntText(n)) == Some(n)
    ensures IsInt64(n) ==> NumberValue(IntText(n)) == Int(n)
  {
    var s := IntText(n);
    S.Empty(s);
    IntTextParts(n, []);
    IntTextIsOneToken(n, []);
    var m := MinusLen(s);
    S.Empty(s[m..|s|]);
  }

  /** So does an integer with a fraction of zero ... */
  lemma {:induction false} WholeFractionValue(n: int)
    ensures var s := IntText(n) + [DOT, ZERO]; NumberLen(s) == |s| && DecimalValue(s) == Some(n)
  {
    var t := IntText(n);
    var s := t + [DOT, ZERO];
    IntTextParts(n, [DOT, ZERO]);
    var m := MinusLen(s);
    assert s[|t|] == DOT && s[|t| + 1] == ZERO;
    DigitsRun(s, |t| + 1, |t| + 2);
    var whole := s[m..|t|];
    assert s[|t| + 1..|t| + 2] == [ZERO];
    assert (whole + [ZERO])[..|whole|] == whole && (whole + [ZERO])[|whole|] == ZERO;
    assert Pow10(1) == 10;
  }

  lemma {:induction false} ExponentParts(n: int, k: nat)
    ensures var t, s := IntText(n), IntText(n) + ([0x65] + NatText(k));
            && NumberLen(s) == |s| && FracEnd(s, |t|) == |t| && ExpEnd(s, |t|) == |s| && ExponentValue(s, |t|) == k
  {
    var t, x := IntText(n), NatText(k);
    var s := t + ([0x65] + x);
    IntTextParts(n, [0x65] + x);
    NatTextDigits(k);
    assert s[|t|] == 0x65 && s[|t| + 1..] == x && s[|t| + 1] == x[0];
    assert forall i :: |t| + 1 <= i < |s| ==> s[i] == x[i - |t| - 1];
    DigitsRun(s, |t| + 1, |s|);
  }

  lemma NegativeTimes(a: int, p: int)
    ensures 0 - a * p == (0 - a) * p
  {
  }

  /** ... and one with an exponent is that power of ten times the integer. */
  lemma {:induction false} ExponentScales(n: int, k: nat)
    ensures var s := IntText(n) + ([0x65] + NatText(k)); NumberLen(s) == |s| && DecimalValue(s) == Some(n * Pow10(k))
  {
    var t := IntText(n);
    var s := t + ([0x65] + NatText(k));
    IntTextParts(n, [0x65] + NatText(k));
    ExponentParts(n, k);
    var m := MinusLen(s);
    S.Empty(s[m..|t|]);
    assert FractionDigits(s, |t|) == [];
    var abs := if n < 0 then -n else n;
    assert Scaled(abs, k) == Some(abs * Pow10(k));
    NegativeTimes(abs, Pow10(k));
  }

  // ----- the value of any number

  /** The bytes of section 6 of RFC 7159 that the grammar is built from. */
  lemma NumberAlphabet(b: Byte)
    ensures IsExpMark(b) <==> b == 0x45 || b == 0x65
    ensures IsSign(b) <==> b == 0x2B || b == 0x2D
    ensures IsDigit(b) <==> 0x30 <= b <= 0x39
  {
  }

  /** The greedy parts of a number are its parts. */
  lemma {:induction false} PartsAreGreedy(s: seq<Byte>, m: nat, a: nat, b: nat)
    requires NumberParts(s, m, a, b)
    ensures MinusLen(s) == m < |s| && IsDigit(s[m]) && IntEnd(s, m) == a && FracEnd(s, a) == b && ExpEnd(s, b) == |s|
    ensures NumberLen(s) == |s|
  {
    IntBound(s, m, a);
    assert s[m..a][0] == s[m];
    if a < b {
      FracBound(s, a, b);
    }
    if b < |s| {
      assert s[b..|s|] == s[b..];
      ExpBound(s, b, |s|);
    }
  }

  /** The exponent that is written from `b` on. */
  function WrittenExponent(s: seq<Byte>, b: nat): (e: int)
    requires b <= |s| && (b == |s| || IsExp(s[b..]))
  {
    if b == |s| then 0
    else
      ExponentDigits(s, b);
      if s[b + 1] == 0x2D then 0 - DigitsValue(s[b + 2..])
      else if s[b + 1] == 0x2B then DigitsValue(s[b + 2..])
      else DigitsValue(s[b + 1..])
  }

  lemma ExponentDigits(s: seq<Byte>, b: nat)
    requires b < |s| && IsExp(s[b..])
    ensures b + 1 < |s| && AllDigits(s[if s[b + 1] == 0x2D || s[b + 1] == 0x2B then b + 2 else b + 1..])
  {
    assert s[b..][1] == s[b + 1] && s[b..][1..] == s[b + 1..] && s[b..][2..] == s[b + 2..];
    if Digits(s[b..][1..]) {
      assert IsDigit(s[b..][1..][0]);
    }
  }

  /** The digits in front of and behind the point. */
  function WrittenFraction(s: seq<Byte>, a: nat, b: nat): (d: seq<Byte>)
    requires a <= b <= |s|
  {
    if a < b then s[a + 1..b] else []
  }

  lemma {:induction false} ScaledSolves(mantissa: nat, scale: int, n: int)
    requires n >= 0
    ensures Scaled(mantissa, scale) == Some(n) <==>
            n * Pow10(if scale < 0 then -scale else 0) == mantissa * Pow10(if scale > 0 then scale else 0)
  {
    if scale < 0 {
      var p := Pow10(-scale);
      Divides(mantissa, p, n);
    }
  }

  lemma Multiples(d: int, p: nat)
    ensures d >= 1 ==> d * p >= p
    ensures d <= -1 ==> d * p <= 0 - p
  {
    if d >= 1 {
      assert d * p == p + (d - 1) * p;
    } else if d <= -1 {
      assert d * p == (d + 1) * p - p;
    }
  }

  lemma SmallMultiple(d: int, p: nat, r: nat)
    requires d * p == r < p
    ensures d == 0 && r == 0
  {
    Multiples(d, p);
  }

  lemma Divides(a: nat, p: nat, n: nat)
    requires p > 0
    ensures (a % p == 0 && a / p == n) <==> n * p == a
  {
    var q, r := a / p, a % p;
    assert a == q * p + r;
    if n * p == a {
      assert (n - q) * p == n * p - q * p;
      SmallMultiple(n - q, p, r);
    }
  }

  /** A number, cut into its parts by the grammar, is the integer `n` if and only if `n` is its digits, with their sign,
      times ten to the power of its exponent less the digits behind the point. */
  lemma {:induction false} DecimalMeaning(s: seq<Byte>, m: nat, a: nat, b: nat, n: int)
    requires NumberParts(s, m, a, b)
    ensures NumberLen(s) == |s| > 0 && AllDigits(s[m..a] + WrittenFraction(s, a, b))
    ensures var frac := WrittenFraction(s, a, b);
            var digits, scale := DigitsValue(s[m..a] + frac), WrittenExponent(s, b) - |frac|;
            DecimalValue(s) == Some(n) <==>
            n * Pow10(if scale < 0 then -scale else 0) ==
            (if m == 1 then 0 - digits else digits) * Pow10(if scale > 0 then scale else 0)
  {
    PartsAreGreedy(s, m, a, b);
    var frac := WrittenFraction(s, a, b);
    assert frac == FractionDigits(s, a) && s[m..a] == IntegerDigits(s, m);
    SameExponent(s, b);
    var digits, scale := DigitsValue(s[m..a] + frac), WrittenExponent(s, b) - |frac|;
    SignedSolves(digits, scale, n, m == 1);
  }

  lemma SameExponent(s: seq<Byte>, b: nat)
    requires b <= |s| == ExpEnd(s, b) && (b == |s| || IsExp(s[b..]))
    ensures WrittenExponent(s, b) == ExponentValue(s, b)
  {
    if b < |s| {
      ExponentDigits(s, b);
    }
  }

  /** The sign goes to either side of the equation. */
  lemma {:induction false} SignedSolves(digits: nat, scale: int, n: int, negative: bool)
    ensures var abs := Scaled(digits, scale);
            var value := if abs.None? then None else Some(if negative then 0 - abs.value else abs.value);
            value == Some(n) <==>
            n * Pow10(if scale < 0 then -scale else 0) ==
            (if negative then 0 - digits else digits) * Pow10(if scale > 0 then scale else 0)
  {
    var p, q := Pow10(if scale < 0 then -scale else 0), Pow10(if scale > 0 then scale else 0);
    var k := if negative then 0 - n else n;
    assert digits * q >= 0;
    if negative {
      NegativeTimes(n, p);
      NegativeTimes(digits, q);
    }
    if k >= 0 {
      ScaledSolves(digits, scale, k);
    } else {
      NegativeTimes(0 - k, p);
      assert (0 - k) * p > 0;
    }
  }

  /** Exactly the integers from -2^63 to 2^63 - 1 are kept as such. */
  lemma {:induction false} IntegersAreKept(n: int)
    ensures NumberLen(IntText(n)) == |IntText(n)| > 0
    ensures NumberValue(IntText(n)) == Int(n) <==> -0x8000_0000_0000_0000 <= n < 0x8000_0000_0000_0000
  {
    IntTextValue(n);
  }

  // ----- the shape of a number token

  /** A number token starts with a digit behind an optional minus, does not go on with a digit behind a first zero, and
      ends with a digit: a point or an exponent mark without digits behind it is left outside. */
  lemma {:induction false} NumberShape(s: seq<Byte>)
    ensures var n, m := NumberLen(s), if s != [] && s[0] == 0x2D then 1 else 0;
            && (n > 0 <==> m < |s| && 0x30 <= s[m] <= 0x39)
            && (n > 0 ==> 0x30 <= s[n - 1] <= 0x39)
            && (n > m + 1 && s[m] == 0x30 ==> s[m + 1] == 0x2E || s[m + 1] == 0x45 || s[m + 1] == 0x65)
  {
    var m := MinusLen(s);
    if IsDigit(Peek(s, m)) {
      var a := IntEnd(s, m);
      var b := FracEnd(s, a);
      DigitEndIsRun(s, m);
      if b > a {
        DigitEndIsRun(s, a + 1);
      }
      ExpEndsInDigit(s, b);
    }
  }

  lemma {:induction false} ExpEndsInDigit(s: seq<Byte>, b: nat)
    requires b <= |s|
    ensures ExpEnd(s, b) > b ==> IsDigit(s[ExpEnd(s, b) - 1]) && IsExpMark(s[b])
  {
    if ExpEnd(s, b) > b {
      var j := if IsSign(Peek(s, b + 1)) then b + 2 else b + 1;
      DigitEndIsRun(s, j);
    }
  }
}
