/** `extra_space` and `escape_string`: how a JSON string is printed between its quotes. */
module JsonEscape {
  import opened Bytes

  /** What one byte becomes. */
  function EscapeByte(c: Byte): (r: seq<Byte>)
  {
    if c == QUOTE then [BACKSLASH, QUOTE]
    else if c == BACKSLASH then [BACKSLASH, BACKSLASH]
    else if c == BS then [BACKSLASH, 0x62]
    else if c == FF then [BACKSLASH, 0x66]
    else if c == LF then [BACKSLASH, 0x6E]
    else if c == CR then [BACKSLASH, 0x72]
    else if c == TAB then [BACKSLASH, 0x74]
    else if c <= 0x1F then [BACKSLASH, 0x75, 0x30, 0x30, HexDigit(c / 16), HexDigit(c % 16)]
    else [c]
  }

  function Escape(s: seq<Byte>): (r: seq<Byte>)
  {
    if s == [] then [] else EscapeByte(s[0]) + Escape(s[1..])
  }

  lemma {:induction false} EscapeAppends(s: seq<Byte>, t: seq<Byte>)
    ensures Escape(s + t) == Escape(s) + Escape(t)
  {
    if s == [] {
      assert s + t == t;
    } else {
      assert (s + t)[1..] == s[1..] + t;
      EscapeAppends(s[1..], t);
    }
  }

  lemma EscapeSplits(s: seq<Byte>, i: nat)
    requires i < |s|
    ensures Escape(s[..i + 1]) == Escape(s[..i]) + EscapeByte(s[i])
    ensures |Escape(s[..i + 1])| <= |Escape(s)|
  {
    assert s[..i + 1] == s[..i] + [s[i]];
    EscapeAppends(s[..i], [s[i]]);
    assert Escape([s[i]]) == EscapeByte(s[i]) + Escape([]);
    assert s == s[..i + 1] + s[i + 1..];
    EscapeAppends(s[..i + 1], s[i + 1..]);
  }

  /** Escaping never shrinks, and it leaves a string alone exactly when no byte of it needs an escape. */
  lemma {:induction false} EscapeLength(s: seq<Byte>)
    ensures |s| <= |Escape(s)|
    ensures |Escape(s)| == |s| <==> Escape(s) == s
  {
    if s != [] {
      EscapeLength(s[1..]);
      if |Escape(s)| == |s| {
        assert EscapeByte(s[0]) == [s[0]];
        assert s == [s[0]] + s[1..];
      }
    }
  }

  method ExtraSpace(s: seq<Byte>) returns (result: nat)
    ensures |s| + result == |Escape(s)|
  {
    result := 0;
    for i := 0 to |s|
      invariant i + result == |Escape(s[..i])|
    {
      EscapeSplits(s, i);
      var c := s[i];
      if c == QUOTE || c == BACKSLASH || c == BS || c == FF || c == LF || c == CR || c == TAB {
        result := result + 1;
      } else if c <= 0x1F {
        result := result + 5;
      }
    }
    assert s[..|s|] == s;
  }

  /** The buffer is filled with backslashes and carries one more cell than its size: `sprintf` writes a NUL there
      when an escape is the last thing printed, and the source then overwrites it. */
  method EscapeString(s: seq<Byte>) returns (r: seq<Byte>)
    ensures r == Escape(s)
  {
    var space := ExtraSpace(s);
    if space == 0 {
      EscapeLength(s);
      return s;
    }
    var size := |s| + space;
    var result := new Byte[size + 1](_ => BACKSLASH);
    result[size] := NUL;
    var pos := 0;
    for i := 0 to |s|
      invariant 0 <= pos == |Escape(s[..i])| <= size
      invariant result[..pos] == Escape(s[..i])
      invariant forall k :: pos <= k < size ==> result[k] == BACKSLASH
    {
      EscapeSplits(s, i);
      pos := PutEscaped(result, pos, s[i]);
    }
    assert s[..|s|] == s;
    r := result[..size];
  }

  /** One round of the loop in `escape_string`. */
  method PutEscaped(result: array<Byte>, pos: nat, c: Byte) returns (next: nat)
    requires pos + |EscapeByte(c)| < result.Length
    requires forall k :: pos <= k < result.Length - 1 ==> result[k] == BACKSLASH
    modifies result
    ensures next == pos + |EscapeByte(c)|
    ensures result[..next] == old(result[..pos]) + EscapeByte(c)
    ensures forall k :: next <= k < result.Length - 1 ==> result[k] == BACKSLASH
  {
    ghost var before := result[..pos];
    if c == QUOTE || c == BACKSLASH || c == BS || c == FF || c == LF || c == CR || c == TAB {
      if c == QUOTE {
        result[pos + 1] := QUOTE;
      } else if c == BS {
        result[pos + 1] := 0x62;
      } else if c == FF {
        result[pos + 1] := 0x66;
      } else if c == LF {
        result[pos + 1] := 0x6E;
      } else if c == CR {
        result[pos + 1] := 0x72;
      } else if c == TAB {
        result[pos + 1] := 0x74;
      }
      next := pos + 2;
      assert result[..next] == before + [result[pos], result[pos + 1]];
    } else if c <= 0x1F {
      PrintHex(result, pos, c);
      next := pos + 6;
      result[next] := BACKSLASH;
    } else {
      result[pos] := c;
      next := pos + 1;
      assert result[..next] == before + [c];
    }
  }

  /** `sprintf(&result[pos + 1], "u%04x", c)`, with its trailing NUL. */
  method PrintHex(result: array<Byte>, pos: nat, c: Byte)
    requires pos + 6 < result.Length && c <= 0x1F && result[pos] == BACKSLASH
    modifies result
    ensures result[..pos + 6] == old(result[..pos]) + [BACKSLASH, 0x75, 0x30, 0x30, HexDigit(c / 16), HexDigit(c % 16)]
    ensures result[pos + 7..] == old(result[pos + 7..])
  {
    result[pos + 1], result[pos + 2], result[pos + 3] := 0x75, 0x30, 0x30;
    result[pos + 4], result[pos + 5], result[pos + 6] := HexDigit(c / 16), HexDigit(c % 16), NUL;
  }

  /** Whatever the string holds, no control character is printed. */
  lemma {:induction false} EscapeHasNoControl(s: seq<Byte>, i: nat)
    requires i < |Escape(s)|
    ensures Escape(s)[i] >= 0x20
  {
    var e := EscapeByte(s[0]);
    if i >= |e| {
      EscapeHasNoControl(s[1..], i - |e|);
    }
  }

  /** A control character without a short form becomes `\u00` and two base-16 digits, in lower case. */
  lemma ControlForm(c: Byte)
    requires c < 0x20 && c !in [0x08, 0x09, 0x0A, 0x0C, 0x0D]
    ensures EscapeByte(c) ==
            [0x5C, 0x75, 0x30, 0x30, 0x30 + c / 16, if c % 16 < 10 then 0x30 + c % 16 else 0x57 + c % 16]
  {
  }
}
