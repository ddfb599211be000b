/** What a string token means by sections 7 and 8.2 of RFC 7159, and when `get_string` gives that. */
module JsonMeaning {
  import opened Bytes
  import S = Seqs
  import opened JsonLex
  import opened JsonString
  import U = Utf8

  /** Two `\u` escapes that make a surrogate pair. */
  predicate IsPair(s: seq<Byte>, i: nat)
  {
    && StartsU(s, i) && CharLen(s, i) > 0 && U.IsHighSurrogate(CodeAt(s, i))
    && StartsU(s, i + 6) && CharLen(s, i + 6) > 0 && U.IsLowSurrogate(CodeAt(s, i + 6))
  }

  function PairCode(s: seq<Byte>, i: nat): (c: nat)
    requires IsPair(s, i)
    ensures 0x10000 <= c <= 0x10FFFF
  {
    0x10000 + (CodeAt(s, i) - 0xD800) * 0x400 + (CodeAt(s, i + 6) - 0xDC00)
  }

  function Onto(p: seq<Byte>, m: Option<seq<Byte>>): (r: Option<seq<Byte>>)
  {
    if m.Some? then Some(p + m.value) else None
  }

  /** The meaning of the characters from position `i` on, in UTF-8. A surrogate without its partner has none. */
  function MeaningFrom(s: seq<Byte>, i: nat): (m: Option<seq<Byte>>)
    requires i <= |s| && IsBodyFrom(s, i)
    decreases |s| - i
  {
    if i == |s| then Some([])
    else if s[i] != BACKSLASH then Onto([s[i]], MeaningFrom(s, i + 1))
    else if s[i + 1] != 0x75 then Onto([EscapeLetterValue(s[i + 1])], MeaningFrom(s, i + 2))
    else if IsPair(s, i) then
      BodyOfPair(s, i);
      Onto(U.Encode(PairCode(s, i)), MeaningFrom(s, i + 12))
    else if U.IsSurrogate(CodeAt(s, i)) then None
    else Onto(U.Encode(CodeAt(s, i)), MeaningFrom(s, i + 6))
  }

  /** Losing the byte at position `k` does no harm to the characters there: they are any number of escaped backslashes
      and then an escaped quote or slash. */
  predicate LosesNothing(s: seq<Byte>, k: nat)
    decreases if k <= |s| then |s| - k else 0
  {
    k + 1 < |s| && s[k] == BACKSLASH &&
    (s[k + 1] == QUOTE || s[k + 1] == 0x2F || (s[k + 1] == BACKSLASH && LosesNothing(s, k + 2)))
  }

  predicate Harmless(s: seq<Byte>, k: nat) { k == |s| || LosesNothing(s, k) }

  /** Nothing that would miss its first byte follows any surrogate pair. */
  predicate PairsEndWell(s: seq<Byte>, i: nat)
    requires i <= |s| && IsBodyFrom(s, i)
    decreases |s| - i
  {
    if i == |s| then true
    else if IsPair(s, i) then
      BodyOfPair(s, i);
      Harmless(s, i + 12) && PairsEndWell(s, i + 12)
    else PairsEndWell(s, i + CharLen(s, i))
  }

  /** The bytes of a character that is no half of a pair. */
  function Piece(s: seq<Byte>, i: nat): (p: seq<Byte>)
    requires i < |s| && IsBodyFrom(s, i)
    requires StartsU(s, i) ==> !U.IsSurrogate(CodeAt(s, i))
  {
    if s[i] != BACKSLASH then [s[i]]
    else if s[i + 1] != 0x75 then [EscapeLetterValue(s[i + 1])]
    else U.Encode(CodeAt(s, i))
  }

  /** Such a character is read as it is meant. */
  lemma {:induction false} PieceIsRead(s: seq<Byte>, i: nat)
    requires i < |s| && IsBodyFrom(s, i) && !IsPair(s, i) && MeaningFrom(s, i).Some?
    ensures StartsU(s, i) ==> !U.IsSurrogate(CodeAt(s, i))
    ensures var n := CharLen(s, i);
            && i + n <= |s| && IsBodyFrom(s, i + n)
            && RoundAt(s, i) == Took(Piece(s, i), i + n)
            && MeaningFrom(s, i) == Onto(Piece(s, i), MeaningFrom(s, i + n))
            && PairsEndWell(s, i) == PairsEndWell(s, i + n)
  {
  }

  /** Such a character adds the same bytes to what is read and to what is meant. */
  lemma {:induction false} PieceReading(s: seq<Byte>, i: nat) returns (p: seq<Byte>, n: nat)
    requires i < |s| && IsBodyFrom(s, i) && !IsPair(s, i) && MeaningFrom(s, i).Some?
    ensures i < n <= |s| && IsBodyFrom(s, n)
    ensures UnescapeFrom(s, i) == Prepend(p, UnescapeFrom(s, n)) && MeaningFrom(s, i) == Onto(p, MeaningFrom(s, n))
    ensures PairsEndWell(s, i) == PairsEndWell(s, n)
  {
    PieceIsRead(s, i);
    p, n := Piece(s, i), i + CharLen(s, i);
  }

  lemma {:induction false} PairIsRead(s: seq<Byte>, i: nat)
    requires i < |s| && IsBodyFrom(s, i) && IsPair(s, i)
    ensures i + 12 <= |s| && IsBodyFrom(s, i + 12)
    ensures MeaningFrom(s, i) == Onto(U.Encode(PairCode(s, i)), MeaningFrom(s, i + 12))
    ensures RoundAt(s, i) == After(U.Encode(PairCode(s, i)), OutOfStep(s, i + 12))
    ensures PairsEndWell(s, i) == (Harmless(s, i + 12) && PairsEndWell(s, i + 12))
  {
    BodyOfPair(s, i);
  }

  /** An escaped backslash is a character of its own. */
  lemma {:induction false} BackslashIsRead(s: seq<Byte>, k: nat)
    requires k < |s| && IsBodyFrom(s, k) && EscapedBackslash(s, k)
    ensures k + 2 <= |s| && IsBodyFrom(s, k + 2) && MeaningFrom(s, k) == Onto([BACKSLASH], MeaningFrom(s, k + 2))
    ensures PairsEndWell(s, k) == PairsEndWell(s, k + 2)
  {
    assert CharLen(s, k) == 2 && !IsPair(s, k);
  }

  /** Where nothing is lost, reading out of step gives what is meant. */
  lemma {:induction false} HarmlessIsRead(s: seq<Byte>, k: nat)
    requires k < |s| && IsBodyFrom(s, k) && LosesNothing(s, k)
    ensures var r := OutOfStep(s, k);
            && r.Took? && k < r.next && MeaningFrom(s, k) == Onto(r.bytes, MeaningFrom(s, r.next))
            && PairsEndWell(s, k) == PairsEndWell(s, r.next)
    decreases |s| - k
  {
    if EscapedBackslash(s, k) {
      BackslashIsRead(s, k);
      HarmlessIsRead(s, k + 2);
      var r := OutOfStep(s, k + 2);
      if MeaningFrom(s, r.next).Some? {
        S.Assoc([BACKSLASH], r.bytes, MeaningFrom(s, r.next).value);
      }
    } else {
      assert CharLen(s, k) == 2 && !IsPair(s, k);
      assert s[k + 1..k + 2] == [s[k + 1]];
    }
  }

  /** A body in which every pair ends well is read as it is meant. */
  lemma {:induction false} MeaningIsRead(s: seq<Byte>, i: nat)
    requires i <= |s| && IsBodyFrom(s, i) && MeaningFrom(s, i).Some? && PairsEndWell(s, i)
    ensures UnescapeFrom(s, i) == Bytes(MeaningFrom(s, i).value)
    decreases |s| - i, 1
  {
    if i < |s| {
      if IsPair(s, i) {
        PairMeaningIsRead(s, i);
      } else {
        var p, n := PieceReading(s, i);
        MeaningIsRead(s, n);
      }
    }
  }

  lemma {:induction false} PairMeaningIsRead(s: seq<Byte>, i: nat)
    requires i < |s| && IsBodyFrom(s, i) && IsPair(s, i) && MeaningFrom(s, i).Some? && PairsEndWell(s, i)
    ensures UnescapeFrom(s, i) == Bytes(MeaningFrom(s, i).value)
    decreases |s| - i, 0
  {
    PairIsRead(s, i);
    var bytes, k := U.Encode(PairCode(s, i)), i + 12;
    var r := OutOfStep(s, k);
    if k < |s| {
      HarmlessIsRead(s, k);
    }
    MeaningIsRead(s, r.next);
    S.Assoc(bytes, r.bytes, MeaningFrom(s, r.next).value);
    S.Empty(bytes);
  }

  // ----- byte strings that differ near their end, whatever stands before

  function FromBack(x: seq<Byte>, j: nat): (b: Byte)
    requires j < |x|
  {
    x[|x| - 1 - j]
  }

  ghost predicate Clash(x: seq<Byte>, y: seq<Byte>)
  {
    exists j :: 0 <= j < |x| && j < |y| && FromBack(x, j) != FromBack(y, j)
  }

  lemma ClashAt(x: seq<Byte>, y: seq<Byte>, j: nat)
    requires j < |x| && j < |y| && FromBack(x, j) != FromBack(y, j)
    ensures Clash(x, y)
  {
  }

  lemma ClashPrepend(p: seq<Byte>, q: seq<Byte>, x: seq<Byte>, y: seq<Byte>)
    requires Clash(x, y)
    ensures Clash(p + x, q + y)
  {
    var j :| 0 <= j < |x| && j < |y| && FromBack(x, j) != FromBack(y, j);
    ClashAt(p + x, q + y, j);
  }

  lemma ClashAppend(x: seq<Byte>, y: seq<Byte>, t: seq<Byte>)
    requires Clash(x, y)
    ensures Clash(x + t, y + t)
  {
    var j :| 0 <= j < |x| && j < |y| && FromBack(x, j) != FromBack(y, j);
    ClashAt(x + t, y + t, j + |t|);
  }

  lemma ClashDiffers(x: seq<Byte>, y: seq<Byte>)
    requires Clash(x, y)
    ensures x != y
  {
  }

  // ----- what a lost byte does

  /** A four-byte encoding. */
  predicate IsQuad(p: seq<Byte>) { |p| == 4 && p[0] >= 0xF0 && U.Tail(p[1]) && U.Tail(p[2]) && U.Tail(p[3]) }

  lemma PairCodeIsQuad(s: seq<Byte>, i: nat)
    requires IsPair(s, i)
    ensures IsQuad(U.Encode(PairCode(s, i)))
  {
    var c := PairCode(s, i);
    assert c / 64 % 64 < 64 && c % 64 < 64 && c / 4096 % 64 < 64;
  }

  /** The pair that was read and the backslashes behind it, which reading out of step and the meaning share. */
  function Shared(p: seq<Byte>, m: nat): (z: seq<Byte>)
    ensures |z| == |p| + m
  {
    if m == 0 then p else Shared(p, m - 1) + [BACKSLASH]
  }

  lemma {:induction false} SharedFromBack(p: seq<Byte>, m: nat, j: nat)
    requires j < |p| + m
    ensures FromBack(Shared(p, m), j) == if j < m then BACKSLASH else FromBack(p, j - m)
  {
    if m > 0 && j > 0 {
      SharedFromBack(p, m - 1, j - 1);
    }
  }

  lemma ByteLost(p: seq<Byte>, c: Byte)
    requires IsQuad(p)
    ensures Clash(p + [], p + [c])
  {
    var x, y := p + [], p + [c];
    assert x == p;
    var j := if c != p[3] then 0 else if p[3] != p[2] then 1 else if p[2] != p[1] then 2 else 3;
    ClashAt(x, y, j);
  }

  lemma LetterKept(z: seq<Byte>, x: Byte, v: Byte)
    requires x != v
    ensures Clash(z + [x], z + [v])
  {
    ClashAt(z + [x], z + [v], 0);
  }

  lemma DigitsKept(p: seq<Byte>, m: nat, copied: seq<Byte>, c: nat)
    requires IsQuad(p) && |copied| == 5 && IsHexDigit(copied[3]) && IsHexDigit(copied[4]) && c <= 0x10FFFF
    ensures Clash(Shared(p, m) + copied, Shared(p, m) + U.Encode(c))
  {
    var z, e := Shared(p, m), U.Encode(c);
    SharedFromBack(p, m, 0);
    if |e| == 1 && e[0] == copied[4] {
      ClashAt(z + copied, z + e, 1);
    } else {
      assert |e| > 1 ==> e[|e| - 1] >= 0x80;
      ClashAt(z + copied, z + e, 0);
    }
  }

  lemma HalfKept(z: seq<Byte>, copied: seq<Byte>, low: seq<Byte>, q: seq<Byte>)
    requires |low| == 3 && low[0] == 0xED && IsQuad(q)
    ensures Clash(z + (copied + low), z + q)
  {
    ClashAt(z + (copied + low), z + q, 2);
  }

  lemma PlainTaken(p: seq<Byte>, m: nat, c: Byte)
    requires IsQuad(p) && IsPlain(c)
    ensures Clash(Shared(p, m) + Letter(c), Shared(p, m) + [BACKSLASH, c])
  {
    var z := Shared(p, m);
    var x, y := z + Letter(c), z + [BACKSLASH, c];
    SharedFromBack(p, m, 0);
    SharedFromBack(p, m, 1);
    SharedFromBack(p, m, m);
    if m > 0 {
      SharedFromBack(p, m, m - 1);
    }
    if !IsEscapeLetter(c) {
      assert x == z;
      ClashAt(x, y, if FromBack(z, 0) != c then 0 else 1);
    } else if EscapeLetterValue(c) != c {
      ClashAt(x, y, 0);
    } else {
      assert FromBack(x, m + 1) == FromBack(z, m);
      assert FromBack(y, m + 1) == if m == 0 then BACKSLASH else FromBack(z, m - 1);
      ClashAt(x, y, m + 1);
    }
  }

  /** After the piece at which they part, reading and meaning go on from the same place. */
  lemma {:induction false} PartAt(z: seq<Byte>, read: seq<Byte>, meant: seq<Byte>, s: seq<Byte>, n: nat)
    requires n <= |s| && IsBodyFrom(s, n) && MeaningFrom(s, n).Some? && UnescapeFrom(s, n).Bytes?
    requires PairsEndWell(s, n) ==> Clash(z + read, z + meant)
    ensures Clash(z + (read + UnescapeFrom(s, n).bytes), z + (meant + MeaningFrom(s, n).value))
    decreases |s| - n, 5
  {
    var u, m := UnescapeFrom(s, n).bytes, MeaningFrom(s, n).value;
    S.Assoc(z, read, u);
    S.Assoc(z, meant, m);
    if PairsEndWell(s, n) {
      MeaningIsRead(s, n);
      ClashAppend(z + read, z + meant, u);
    } else {
      BadPairShows(s, n);
      ClashPrepend(z + read, z + meant, u, m);
    }
  }

  /** All that is read from the character at `k`, whose first byte is lost. */
  function ReadOutOfStep(s: seq<Byte>, k: nat): (t: Text)
    requires k <= |s| && IsBodyFrom(s, k)
  {
    var r := OutOfStep(s, k);
    if r.Took? then Prepend(r.bytes, UnescapeFrom(s, r.next)) else r.text
  }

  /** The lost byte shows behind the pair `p` and `m` backslashes. */
  ghost predicate Shows(s: seq<Byte>, k: nat, p: seq<Byte>, m: nat)
    requires k <= |s| && IsBodyFrom(s, k) && MeaningFrom(s, k).Some? && ReadOutOfStep(s, k).Bytes?
  {
    Clash(Shared(p, m) + ReadOutOfStep(s, k).bytes, Shared(p, m) + MeaningFrom(s, k).value)
  }

  lemma {:induction false} PlainShows(s: seq<Byte>, k: nat, p: seq<Byte>)
    requires k < |s| && IsBodyFrom(s, k) && MeaningFrom(s, k).Some? && ReadOutOfStep(s, k).Bytes?
    requires s[k] != BACKSLASH && IsQuad(p)
    ensures Shows(s, k, p, 0)
    decreases |s| - k, 0
  {
    PieceIsRead(s, k);
    ByteLost(p, s[k]);
    assert CharLen(s, k) == 1 && s[k + 1..k + 1] == [];
    assert OutOfStep(s, k) == Took([], k + 1);
    PartAt(p, [], [s[k]], s, k + 1);
  }

  lemma {:induction false} LetterPiece(s: seq<Byte>, k: nat)
    requires k < |s| && IsBodyFrom(s, k) && s[k] == BACKSLASH && !StartsU(s, k) && !EscapedBackslash(s, k)
    ensures CharLen(s, k) == 2 && IsEscapeLetter(s[k + 1])
    ensures OutOfStep(s, k) == Took([s[k + 1]], k + 2) && Piece(s, k) == [EscapeLetterValue(s[k + 1])]
  {
    assert CharLen(s, k) == 2 && s[k + 1..k + 2] == [s[k + 1]];
  }

  lemma {:induction false} LetterShows(s: seq<Byte>, k: nat, p: seq<Byte>, m: nat)
    requires k < |s| && IsBodyFrom(s, k) && MeaningFrom(s, k).Some? && ReadOutOfStep(s, k).Bytes?
    requires s[k] == BACKSLASH && !StartsU(s, k) && !EscapedBackslash(s, k)
    requires !(LosesNothing(s, k) && PairsEndWell(s, k))
    ensures Shows(s, k, p, m)
    decreases |s| - k, 0
  {
    PieceIsRead(s, k);
    LetterPiece(s, k);
    var z, x := Shared(p, m), s[k + 1];
    if !LosesNothing(s, k) {
      LetterKept(z, x, EscapeLetterValue(x));
    }
    PartAt(z, [x], [EscapeLetterValue(x)], s, k + 2);
  }

  lemma {:induction false} UnicodeShows(s: seq<Byte>, k: nat, p: seq<Byte>, m: nat)
    requires k < |s| && IsBodyFrom(s, k) && MeaningFrom(s, k).Some? && ReadOutOfStep(s, k).Bytes?
    requires StartsU(s, k) && !IsPair(s, k) && IsQuad(p)
    ensures Shows(s, k, p, m)
    decreases |s| - k, 0
  {
    PieceIsRead(s, k);
    var copied := s[k + 1..k + 6];
    assert CharLen(s, k) == 6 && copied[3] == s[k + 4] && copied[4] == s[k + 5];
    DigitsKept(p, m, copied, CodeAt(s, k));
    PartAt(Shared(p, m), copied, U.Encode(CodeAt(s, k)), s, k + 6);
  }

  lemma LowOctets(c: nat)
    requires U.IsLowSurrogate(c)
    ensures |U.Encode(c)| == 3 && U.Encode(c)[0] == 0xED
  {
  }

  lemma {:induction false} PairShows(s: seq<Byte>, k: nat, p: seq<Byte>, m: nat)
    requires k < |s| && IsBodyFrom(s, k) && MeaningFrom(s, k).Some? && ReadOutOfStep(s, k).Bytes? && IsPair(s, k)
    ensures Shows(s, k, p, m)
    decreases |s| - k, 0
  {
    HalfIsRead(s, k);
    PairCodeIsQuad(s, k);
    var copied, low, q := s[k + 1..k + 6], U.Encode(CodeAt(s, k + 6)), U.Encode(PairCode(s, k));
    LowOctets(CodeAt(s, k + 6));
    HalfKept(Shared(p, m), copied, low, q);
    PartAt(Shared(p, m), copied + low, q, s, k + 12);
  }

  lemma {:induction false} EndShows(s: seq<Byte>, k: nat, p: seq<Byte>, m: nat)
    requires k < |s| && IsBodyFrom(s, k) && MeaningFrom(s, k).Some? && ReadOutOfStep(s, k).Bytes?
    requires EscapedBackslash(s, k) && k + 2 == |s|
    ensures Shows(s, k, p, m)
    decreases |s| - k, 0
  {
    BackslashIsRead(s, k);
    LetterKept(Shared(p, m), QUOTE, BACKSLASH);
    PartAt(Shared(p, m), [QUOTE], [BACKSLASH], s, k + 2);
  }

  /** An escaped backslash and a plain byte, out of step and as they are meant. */
  lemma {:induction false} TakenReading(s: seq<Byte>, k: nat)
    requires k < |s| && IsBodyFrom(s, k) && MeaningFrom(s, k).Some?
    requires EscapedBackslash(s, k) && k + 2 < |s| && s[k + 2] != BACKSLASH && s[k + 2] != 0x75
    ensures IsPlain(s[k + 2]) && IsBodyFrom(s, k + 3)
    ensures ReadOutOfStep(s, k) == Prepend(Letter(s[k + 2]), UnescapeFrom(s, k + 3))
    ensures MeaningFrom(s, k) == Onto([BACKSLASH, s[k + 2]], MeaningFrom(s, k + 3))
  {
    var c := s[k + 2];
    BackslashIsRead(s, k);
    BodyBehindBackslash(s, k);
    assert MeaningFrom(s, k + 2) == Onto([c], MeaningFrom(s, k + 3));
    S.Assoc([BACKSLASH], [c], MeaningFrom(s, k + 3).value);
    assert [BACKSLASH] + [c] == [BACKSLASH, c];
  }

  lemma {:induction false} TakenShows(s: seq<Byte>, k: nat, p: seq<Byte>, m: nat)
    requires k < |s| && IsBodyFrom(s, k) && MeaningFrom(s, k).Some? && ReadOutOfStep(s, k).Bytes? && IsQuad(p)
    requires EscapedBackslash(s, k) && k + 2 < |s| && s[k + 2] != BACKSLASH && s[k + 2] != 0x75
    ensures Shows(s, k, p, m)
    decreases |s| - k, 0
  {
    var c := s[k + 2];
    TakenReading(s, k);
    PlainTaken(p, m, c);
    PartAt(Shared(p, m), Letter(c), [BACKSLASH, c], s, k + 3);
  }

  /** Behind an escaped backslash the next escape is lost in turn; both sides have one more backslash in common. */
  lemma {:induction false} OneMoreShared(s: seq<Byte>, k: nat, p: seq<Byte>, m: nat)
    requires k < |s| && IsBodyFrom(s, k) && MeaningFrom(s, k).Some? && ReadOutOfStep(s, k).Bytes?
    requires EscapedBackslash(s, k) && k + 2 < |s| && s[k + 2] == BACKSLASH
    ensures IsBodyFrom(s, k + 2) && MeaningFrom(s, k + 2).Some? && ReadOutOfStep(s, k + 2).Bytes?
    ensures Shared(p, m) + ReadOutOfStep(s, k).bytes == Shared(p, m + 1) + ReadOutOfStep(s, k + 2).bytes
    ensures Shared(p, m) + MeaningFrom(s, k).value == Shared(p, m + 1) + MeaningFrom(s, k + 2).value
    ensures LosesNothing(s, k) == LosesNothing(s, k + 2) && PairsEndWell(s, k) == PairsEndWell(s, k + 2)
  {
    BackslashIsRead(s, k);
    var z, r := Shared(p, m), OutOfStep(s, k + 2);
    var t := UnescapeFrom(s, r.next);
    S.Assoc([BACKSLASH], r.bytes, t.bytes);
    S.Assoc(z, [BACKSLASH], ReadOutOfStep(s, k + 2).bytes);
    S.Assoc(z, [BACKSLASH], MeaningFrom(s, k + 2).value);
  }

  lemma {:induction false} BackslashShows(s: seq<Byte>, k: nat, p: seq<Byte>, m: nat)
    requires k < |s| && IsBodyFrom(s, k) && MeaningFrom(s, k).Some? && ReadOutOfStep(s, k).Bytes? && IsQuad(p)
    requires EscapedBackslash(s, k) && !(LosesNothing(s, k) && PairsEndWell(s, k))
    ensures Shows(s, k, p, m)
    decreases |s| - k, 1
  {
    if k + 2 == |s| {
      EndShows(s, k, p, m);
    } else if s[k + 2] == BACKSLASH {
      NextBackslashShows(s, k, p, m);
    } else {
      TakenShows(s, k, p, m);
    }
  }

  lemma {:induction false} NextBackslashShows(s: seq<Byte>, k: nat, p: seq<Byte>, m: nat)
    requires k + 2 < |s| && IsBodyFrom(s, k) && MeaningFrom(s, k).Some? && ReadOutOfStep(s, k).Bytes? && IsQuad(p)
    requires EscapedBackslash(s, k) && s[k + 2] == BACKSLASH && !(LosesNothing(s, k) && PairsEndWell(s, k))
    ensures Shows(s, k, p, m)
    decreases |s| - k, 0
  {
    OneMoreShared(s, k, p, m);
    LostByteShows(s, k + 2, p, m + 1);
  }

  /** Behind a pair, and backslashes if any, a lost byte shows unless it is harmless and all later pairs end well. */
  lemma {:induction false} LostByteShows(s: seq<Byte>, k: nat, p: seq<Byte>, m: nat)
    requires k <= |s| && IsBodyFrom(s, k) && MeaningFrom(s, k).Some? && ReadOutOfStep(s, k).Bytes? && IsQuad(p)
    requires !(Harmless(s, k) && PairsEndWell(s, k)) && (m > 0 ==> k < |s| && s[k] == BACKSLASH)
    ensures Shows(s, k, p, m)
    decreases |s| - k, 2
  {
    if s[k] != BACKSLASH {
      PlainShows(s, k, p);
    } else if EscapedBackslash(s, k) {
      BackslashShows(s, k, p, m);
    } else if !StartsU(s, k) {
      LetterShows(s, k, p, m);
    } else if IsPair(s, k) {
      PairShows(s, k, p, m);
    } else {
      UnicodeShows(s, k, p, m);
    }
  }

  /** If some pair does not end well, what is read and what is meant differ near their ends. */
  lemma {:induction false} BadPairShows(s: seq<Byte>, i: nat)
    requires i <= |s| && IsBodyFrom(s, i) && MeaningFrom(s, i).Some? && UnescapeFrom(s, i).Bytes? && !PairsEndWell(s, i)
    ensures Clash(UnescapeFrom(s, i).bytes, MeaningFrom(s, i).value)
    decreases |s| - i, 4
  {
    if IsPair(s, i) {
      BadEndShows(s, i);
    } else {
      var p, n := PieceReading(s, i);
      BadPairShows(s, n);
      ClashPrepend(p, p, UnescapeFrom(s, n).bytes, MeaningFrom(s, n).value);
    }
  }

  lemma {:induction false} BadEndShows(s: seq<Byte>, i: nat)
    requires i < |s| && IsBodyFrom(s, i) && MeaningFrom(s, i).Some? && UnescapeFrom(s, i).Bytes? && !PairsEndWell(s, i)
    requires IsPair(s, i)
    ensures Clash(UnescapeFrom(s, i).bytes, MeaningFrom(s, i).value)
    decreases |s| - i, 3
  {
    PairReading(s, i);
    PairCodeIsQuad(s, i);
    LostByteShows(s, i + 12, U.Encode(PairCode(s, i)), 0);
  }

  /** Reading and meaning of a pair and what follows it. */
  lemma {:induction false} PairReading(s: seq<Byte>, i: nat)
    requires i < |s| && IsBodyFrom(s, i) && IsPair(s, i)
    ensures i + 12 <= |s| && IsBodyFrom(s, i + 12)
    ensures MeaningFrom(s, i) == Onto(U.Encode(PairCode(s, i)), MeaningFrom(s, i + 12))
    ensures UnescapeFrom(s, i) == Prepend(U.Encode(PairCode(s, i)), ReadOutOfStep(s, i + 12))
    ensures PairsEndWell(s, i) == (Harmless(s, i + 12) && PairsEndWell(s, i + 12))
  {
    PairIsRead(s, i);
    var r := OutOfStep(s, i + 12);
    if r.Took? {
      PrependTwice(U.Encode(PairCode(s, i)), r.bytes, UnescapeFrom(s, r.next));
    }
  }

  // ----- a body with a meaning is not refused

  lemma {:induction false} MeantIsNotRefused(s: seq<Byte>, i: nat)
    requires i <= |s| && IsBodyFrom(s, i) && MeaningFrom(s, i).Some?
    ensures UnescapeFrom(s, i) != Refused
    decreases |s| - i, 1
  {
    if i < |s| {
      if IsPair(s, i) {
        PairReading(s, i);
        LostIsNotRefused(s, i + 12);
      } else {
        var p, n := PieceReading(s, i);
        MeantIsNotRefused(s, n);
      }
    }
  }

  /** Behind a pair, the first half of another one is copied and its second half is read alone. */
  lemma {:induction false} HalfIsRead(s: seq<Byte>, k: nat)
    requires k < |s| && IsBodyFrom(s, k) && IsPair(s, k)
    ensures k + 12 <= |s| && IsBodyFrom(s, k + 12)
    ensures MeaningFrom(s, k) == Onto(U.Encode(PairCode(s, k)), MeaningFrom(s, k + 12))
    ensures var copied, low := s[k + 1..k + 6], U.Encode(CodeAt(s, k + 6));
            ReadOutOfStep(s, k) == Prepend(copied + low, UnescapeFrom(s, k + 12))
  {
    BodyOfPair(s, k);
    PairIsRead(s, k);
    var copied, low := s[k + 1..k + 6], U.Encode(CodeAt(s, k + 6));
    assert RoundAt(s, k + 6) == Took(low, k + 12);
    PrependTwice(copied, low, UnescapeFrom(s, k + 12));
  }

  /** The rest of a character that is no half of a pair and no escaped backslash is copied. */
  lemma {:induction false} CopyReading(s: seq<Byte>, k: nat) returns (n: nat)
    requires k < |s| && IsBodyFrom(s, k) && MeaningFrom(s, k).Some? && !IsPair(s, k) && !EscapedBackslash(s, k)
    ensures k < n <= |s| && IsBodyFrom(s, n) && MeaningFrom(s, n).Some?
    ensures ReadOutOfStep(s, k) == Prepend(s[k + 1..n], UnescapeFrom(s, n))
  {
    PieceIsRead(s, k);
    n := k + CharLen(s, k);
  }

  lemma {:induction false} LostIsNotRefused(s: seq<Byte>, k: nat)
    requires k <= |s| && IsBodyFrom(s, k) && MeaningFrom(s, k).Some?
    ensures ReadOutOfStep(s, k) != Refused
    decreases |s| - k, 0
  {
    if k < |s| {
      if EscapedBackslash(s, k) {
        BackslashIsNotRefused(s, k);
      } else if IsPair(s, k) {
        HalfIsRead(s, k);
        MeantIsNotRefused(s, k + 12);
      } else {
        var n := CopyReading(s, k);
        MeantIsNotRefused(s, n);
      }
    }
  }

  lemma {:induction false} BackslashIsNotRefused(s: seq<Byte>, k: nat)
    requires k < |s| && IsBodyFrom(s, k) && MeaningFrom(s, k).Some? && EscapedBackslash(s, k)
    ensures ReadOutOfStep(s, k) != Refused
    decreases |s| - k - 1, 2
  {
    if k + 2 < |s| {
      if s[k + 2] == BACKSLASH {
        BackslashIsRead(s, k);
        LostIsNotRefused(s, k + 2);
      } else if s[k + 2] != 0x75 {
        TakenReading(s, k);
        MeantIsNotRefused(s, k + 3);
      }
    }
  }

  /** A body that has a meaning, and at which the model does not stop, is read as it is meant if and only if every
      surrogate pair ends well. */
  lemma {:induction false} ReadAsMeantIff(s: seq<Byte>, i: nat)
    requires i <= |s| && IsBodyFrom(s, i) && MeaningFrom(s, i).Some? && UnescapeFrom(s, i) != Unread
    ensures UnescapeFrom(s, i) == Bytes(MeaningFrom(s, i).value) <==> PairsEndWell(s, i)
  {
    MeantIsNotRefused(s, i);
    if PairsEndWell(s, i) {
      MeaningIsRead(s, i);
    } else {
      BadPairShows(s, i);
      ClashDiffers(UnescapeFrom(s, i).bytes, MeaningFrom(s, i).value);
    }
  }

  lemma HexNumberOf4(a: Byte, b: Byte, c: Byte, d: Byte)
    requires IsHexDigit(a) && IsHexDigit(b) && IsHexDigit(c) && IsHexDigit(d)
    ensures HexDigits([a, b, c, d])
    ensures HexNumber([a, b, c, d]) == ((HexValue(a) * 16 + HexValue(b)) * 16 + HexValue(c)) * 16 + HexValue(d)
  {
    var q := [a, b, c, d];
    assert q[..3] == [a, b, c] && q[..3][..2] == [a, b] && q[..3][..2][..1] == [a];
    assert HexNumber([a]) == HexValue(a);
    assert HexNumber([a, b]) == HexValue(a) * 16 + HexValue(b);
    assert HexNumber([a, b, c]) == (HexValue(a) * 16 + HexValue(b)) * 16 + HexValue(c);
  }

  /** What a pair at position `i` does to the last character behind it: its first byte is gone, so nothing is left of a
      plain byte, and of an escape what is behind its backslash; but an escaped backslash turns into the closing
      quote. */
  lemma {:induction false} LastBehindPair(s: seq<Byte>, i: nat)
    requires i < |s| && IsBodyFrom(s, i) && IsPair(s, i)
    ensures |s| == i + 13 ==> UnescapeFrom(s, i) == Bytes(U.Encode(PairCode(s, i)))
    ensures |s| == i + 14 && EscapedBackslash(s, i + 12) ==>
              UnescapeFrom(s, i) == Bytes(U.Encode(PairCode(s, i)) + [0x22])
    ensures i + 12 < |s| == i + 12 + CharLen(s, i + 12) && !EscapedBackslash(s, i + 12) ==>
              UnescapeFrom(s, i) == Bytes(U.Encode(PairCode(s, i)) + s[i + 13..])
  {
    PairReading(s, i);
    var p := U.Encode(PairCode(s, i));
    if |s| == i + 13 {
      assert OutOfStep(s, i + 12) == Took([], i + 13);
      S.Empty(p);
    } else if |s| == i + 14 && EscapedBackslash(s, i + 12) {
      assert OutOfStep(s, i + 12) == Took([0x22], i + 14);
    } else if i + 12 < |s| == i + 12 + CharLen(s, i + 12) && !EscapedBackslash(s, i + 12) {
      assert s[i + 13..|s|] == s[i + 13..];
      assert OutOfStep(s, i + 12) == Took(s[i + 13..], |s|);
    }
  }

  // ----- every code point, written in either letter case

  /** The digit for `d` in base 16. */
  function Digit16(d: nat, upper: bool): (b: Byte)
    requires d < 16
    ensures IsHexDigit(b) && HexValue(b) == d
  {
    if d < 10 then 0x30 + d else if upper then 0x41 + (d - 10) else 0x61 + (d - 10)
  }

  /** The escape of a 16-bit code, each digit in the letter case that `u` asks for. */
  function EscapeText(c: nat, u: (bool, bool, bool, bool)): (s: seq<Byte>)
    requires c <= 0xFFFF
  {
    [0x5C, 0x75, Digit16(c / 4096, u.0), Digit16(c / 256 % 16, u.1), Digit16(c / 16 % 16, u.2), Digit16(c % 16, u.3)]
  }

  lemma Base16(c: nat)
    requires c <= 0xFFFF
    ensures ((c / 4096 * 16 + c / 256 % 16) * 16 + c / 16 % 16) * 16 + c % 16 == c
  {
    assert c / 16 / 16 == c / 256 && c / 256 / 16 == c / 4096;
  }

  lemma {:induction false} EscapeTextCode(s: seq<Byte>, i: nat, c: nat, u: (bool, bool, bool, bool))
    requires c <= 0xFFFF && i + 6 <= |s| && s[i..i + 6] == EscapeText(c, u)
    ensures StartsU(s, i) && CharLen(s, i) == 6 && CodeAt(s, i) == c
  {
    var e := EscapeText(c, u);
    assert s[i] == e[0] && s[i + 1] == e[1];
    assert s[i + 2] == e[2] && s[i + 3] == e[3] && s[i + 4] == e[4] && s[i + 5] == e[5];
    assert s[i + 2..i + 6] == [e[2], e[3], e[4], e[5]];
    HexNumberOf4(e[2], e[3], e[4], e[5]);
    Base16(c);
  }

  /** Every code that is no surrogate, written as an escape in either letter case, is read as its encoding. */
  lemma {:induction false} EscapeTextIsRead(c: nat, u: (bool, bool, bool, bool))
    requires c <= 0xFFFF && !U.IsSurrogate(c)
    ensures var s := EscapeText(c, u);
            IsBody(s) && Unescape(s) == Bytes(U.Encode(c)) && MeaningFrom(s, 0) == Some(U.Encode(c))
  {
    var s := EscapeText(c, u);
    assert s[0..6] == s;
    EscapeTextCode(s, 0, c, u);
    assert IsBodyFrom(s, 6) && UnescapeFrom(s, 6) == Bytes([]);
    S.Empty(U.Encode(c));
    assert RoundAt(s, 0) == Took(U.Encode(c), 6);
    assert MeaningFrom(s, 6) == Some([]);
  }

  /** So is every code point above 0xFFFF, written as a pair of escapes. */
  lemma {:induction false} PairTextIsRead(high: nat, low: nat, u: (bool, bool, bool, bool), w: (bool, bool, bool, bool))
    requires U.IsHighSurrogate(high) && U.IsLowSurrogate(low)
    ensures var s, c := EscapeText(high, u) + EscapeText(low, w), 0x10000 + (high - 0xD800) * 0x400 + (low - 0xDC00);
            IsBody(s) && Unescape(s) == Bytes(U.Encode(c)) && MeaningFrom(s, 0) == Some(U.Encode(c))
  {
    var s := EscapeText(high, u) + EscapeText(low, w);
    assert s[0..6] == EscapeText(high, u) && s[6..12] == EscapeText(low, w);
    EscapeTextCode(s, 0, high, u);
    EscapeTextCode(s, 6, low, w);
    assert IsBodyFrom(s, 12);
    assert IsBodyFrom(s, 6);
    assert MeaningFrom(s, 12) == Some([]) && PairsEndWell(s, 12);
    PairIsRead(s, 0);
    S.Empty(U.Encode(PairCode(s, 0)));
    MeaningIsRead(s, 0);
  }

  // ----- a pair that ends well although escaped backslashes follow

  /** The text `\ud83d\ude00`, and then an escaped backslash and an escaped quote. */
  const GrinAndQuote: seq<Byte> :=
    [BACKSLASH, 0x75, 0x64, 0x38, 0x33, 0x64, BACKSLASH, 0x75, 0x64, 0x65, 0x30, 0x30,
     BACKSLASH, BACKSLASH, BACKSLASH, QUOTE]

  lemma GrinLens()
    ensures var s := GrinAndQuote;
            CharLen(s, 0) == 6 && CharLen(s, 6) == 6 && CharLen(s, 12) == 2 && CharLen(s, 14) == 2
  {
    var s := GrinAndQuote;
    assert HexQuad(s, 2) && HexQuad(s, 8);
  }

  lemma GrinIsBody()
    ensures var s := GrinAndQuote; IsBody(s) && IsBodyFrom(s, 12)
  {
    var s := GrinAndQuote;
    GrinLens();
    assert IsBodyFrom(s, 16);
    assert IsBodyFrom(s, 14);
    assert IsBodyFrom(s, 12);
    assert IsBodyFrom(s, 6);
  }

  lemma GrinCodes()
    ensures IsPair(GrinAndQuote, 0) && PairCode(GrinAndQuote, 0) == 0x1F600
  {
    var s := GrinAndQuote;
    GrinLens();
    HexNumberOf4(0x64, 0x38, 0x33, 0x64);
    HexNumberOf4(0x64, 0x65, 0x30, 0x30);
    assert s[2..6] == [0x64, 0x38, 0x33, 0x64] && s[8..12] == [0x64, 0x65, 0x30, 0x30];
    assert CodeAt(s, 0) == 0xD83D && CodeAt(s, 6) == 0xDE00;
  }

  /** An escaped backslash and an escaped quote at the end. */
  lemma {:induction false} BackslashQuote(s: seq<Byte>, k: nat)
    requires |s| == k + 4 && IsBodyFrom(s, k) && EscapedBackslash(s, k) && s[k + 2] == BACKSLASH && s[k + 3] == QUOTE
    ensures LosesNothing(s, k) && PairsEndWell(s, k) && MeaningFrom(s, k) == Some([BACKSLASH, QUOTE])
  {
    BackslashIsRead(s, k);
    assert CharLen(s, k + 2) == 2 && !IsPair(s, k + 2);
    assert MeaningFrom(s, k + 4) == Some([]) && PairsEndWell(s, k + 4);
    S.Empty([QUOTE]);
    assert MeaningFrom(s, k + 2) == Some([QUOTE]);
    assert LosesNothing(s, k + 2);
    assert [BACKSLASH] + [QUOTE] == [BACKSLASH, QUOTE];
  }

  lemma GrinBytes()
    ensures U.Encode(0x1F600) + [BACKSLASH, QUOTE] == [0xF0, 0x9F, 0x98, 0x80, BACKSLASH, QUOTE]
  {
  }

  /** The pair loses the first byte behind it, and yet the text is read as it is meant: the emoji, a backslash, a
      quote. */
  lemma GrinIsRead()
    ensures IsBody(GrinAndQuote) && PairsEndWell(GrinAndQuote, 0)
    ensures Unescape(GrinAndQuote) == Bytes([0xF0, 0x9F, 0x98, 0x80, BACKSLASH, QUOTE])
    ensures MeaningFrom(GrinAndQuote, 0) == Some([0xF0, 0x9F, 0x98, 0x80, BACKSLASH, QUOTE])
  {
    var s := GrinAndQuote;
    GrinIsBody();
    GrinCodes();
    PairIsRead(s, 0);
    BackslashQuote(s, 12);
    GrinBytes();
    MeaningIsRead(s, 0);
  }

  // ----- a low surrogate alone

  /** The text `\udc00`. */
  const LoneLow: seq<Byte> := [BACKSLASH, 0x75, 0x64, 0x63, 0x30, 0x30]

  /** It is a legal body, it has no meaning, and what is read for it is no UTF-8. */
  lemma LoneLowIsRead()
    ensures IsBody(LoneLow) && MeaningFrom(LoneLow, 0) == None
    ensures Unescape(LoneLow) == Bytes([0xED, 0xB0, 0x80]) && U.Decode([0xED, 0xB0, 0x80]) == None
  {
    var s := LoneLow;
    assert CharLen(s, 0) == 6 && s[2..6] == [0x64, 0x63, 0x30, 0x30];
    HexNumberOf4(0x64, 0x63, 0x30, 0x30);
    assert CodeAt(s, 0) == 0xDC00;
    assert RoundAt(s, 0) == Took([0xED, 0xB0, 0x80], 6);
    assert UnescapeFrom(s, 6) == Bytes([]);
    S.Empty([0xED, 0xB0, 0x80]);
  }
}
