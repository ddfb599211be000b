/** The loops of the sqlite shell that write and read CSV, proved against CsvFormat. */
module Csv {
  import opened Bytes
  import opened CsvFormat
  import S = Seqs

  // ----- writing

  /** The text between the quotes, written byte by byte. */
  method PutDoubled(z: seq<Byte>) returns (out: seq<Byte>)
    ensures out == Doubled(z)
  {
    out := [];
    var i := 0;
    S.Empty(Doubled(z));
    while i < |z|
      invariant 0 <= i <= |z|
      invariant out + Doubled(z[i..]) == Doubled(z)
    {
      S.DropDrop(z, i, 1);
      var tail := Doubled(z[i + 1..]);
      if z[i] == QUOTE {
        S.Assoc(out, [QUOTE, QUOTE], tail);
        S.Assoc(out, [QUOTE], [QUOTE]);
        out := out + [QUOTE];
      } else {
        S.Assoc(out, [z[i]], tail);
      }
      out := out + [z[i]];
      i := i + 1;
    }
    S.Empty(out);
  }

  /** `output_csv`: a null pointer prints as the null value; text is quoted if it is empty, or if the scan met a byte
      that needs it and restarted the counter. */
  method OutputCsv(z: Cell, nullvalue: seq<Byte>, sep: Byte, bSep: bool) returns (out: seq<Byte>)
    ensures out == CellText(z, nullvalue, sep) + if bSep then [sep] else []
  {
    if z.None? {
      out := nullvalue;
    } else {
      var text := z.value;
      var i := 0;
      while i < |text|
        invariant 0 <= i <= |text|
        invariant forall k :: 0 <= k < i ==> !NeedsQuote(text[k]) && text[k] != sep
      {
        if NeedsQuote(text[i]) || text[i] == sep {
          assert MustQuote(text, sep);
          i := 0;
          break;
        }
        i := i + 1;
      }
      if i == 0 {
        var inner := PutDoubled(text);
        out := [QUOTE] + (inner + [QUOTE]);
      } else {
        out := text;
      }
    }
    S.Empty(out);
    if bSep {
      out := out + [sep];
    }
  }

  /** The loop over one row, and the newline behind it. */
  method OutputRow(cells: seq<Cell>, nullvalue: seq<Byte>, sep: Byte) returns (out: seq<Byte>)
    ensures out == CellsText(cells, nullvalue, sep)
  {
    out := [];
    var i := 0;
    ghost var whole := CellsText(cells, nullvalue, sep);
    S.Empty(whole);
    assert cells[0..] == cells;
    while i < |cells|
      invariant 0 <= i <= |cells|
      invariant out + CellsText(cells[i..], nullvalue, sep) == whole
    {
      var cell := OutputCsv(cells[i], nullvalue, sep, i < |cells| - 1);
      RowStep(out, cells, i, nullvalue, sep);
      out := out + cell;
      i := i + 1;
    }
    out := out + [LF];
  }

  lemma RowStep(out: seq<Byte>, cells: seq<Cell>, i: nat, nullvalue: seq<Byte>, sep: Byte)
    requires i < |cells|
    ensures out + (CellText(cells[i], nullvalue, sep) + if i < |cells| - 1 then [sep] else [])
            + CellsText(cells[i + 1..], nullvalue, sep) == out + CellsText(cells[i..], nullvalue, sep)
  {
    var first, more := CellText(cells[i], nullvalue, sep), CellsText(cells[i + 1..], nullvalue, sep);
    S.DropDrop(cells, i, 1);
    S.Empty(first);
    if i < |cells| - 1 {
      S.Assoc4(out, first, [sep], more);
    } else {
      S.Assoc(out, first, [LF]);
    }
  }

  /** A column without a name prints as the empty text. */
  function Names(columns: seq<Cell>): (cells: seq<Cell>)
    ensures |cells| == |columns| && forall i :: 0 <= i < |cells| ==> cells[i].Some?
  {
    if columns == [] then [] else [Some(if columns[0].Some? then columns[0].value else [])] + Names(columns[1..])
  }

  /** The header line reads back as the names, with the empty text for a column without one. */
  lemma {:induction false} HeaderIsRead(columns: seq<Cell>, nullvalue: seq<Byte>, rest: seq<Byte>, sep: Byte)
    requires GoodSeparator(sep) && columns != []
    ensures ReadRow(CellsText(Names(columns), nullvalue, sep) + rest, sep) == Row(Shown(columns, []), LF, rest)
  {
    NamesAreShown(columns);
    CellsOfFields(Names(columns), Shown(columns, []), nullvalue, sep);
    RowRoundTrip(Shown(columns, []), rest, sep);
  }

  lemma {:induction false} NamesAreShown(columns: seq<Cell>)
    ensures forall i :: 0 <= i < |columns| ==> Names(columns)[i] == Some(Shown(columns, [])[i])
  {
    if columns != [] {
      NamesAreShown(columns[1..]);
    }
  }

  /** The CSV mode of the row callback: the header line before the first row, if it is wanted, then the row, if there is
      one. `rows` counts the calls. */
  method ShowRow(rows: nat, showHeader: bool, columns: seq<Cell>, args: Option<seq<Cell>>, nullvalue: seq<Byte>,
                 sep: Byte)
    returns (out: seq<Byte>, count: nat)
    ensures count == rows + 1
    ensures out == (if rows == 0 && showHeader then CellsText(Names(columns), nullvalue, sep) else [])
                   + if args.Some? then CellsText(args.value, nullvalue, sep) else []
  {
    out, count := [], rows + 1;
    if rows == 0 && showHeader {
      out := OutputRow(Names(columns), nullvalue, sep);
    }
    S.Empty(out);
    if args.Some? {
      var row := OutputRow(args.value, nullvalue, sep);
      out := out + row;
    }
  }

  // ----- reading

  /** What the history says about the bytes collected: there is a quote for the backward search to stop at. */
  predicate QuoteBehind(z: seq<Byte>, pc: Code, ppc: Code)
  {
    (pc == QUOTE ==> z != [] && z[|z| - 1] == QUOTE) &&
    (pc == CR && ppc == QUOTE ==> |z| >= 2 && z[|z| - 2] == QUOTE)
  }

  lemma EndsBehindQuote(z: seq<Byte>, c: Code, pc: Code, ppc: Code, sep: Byte)
    requires QuoteBehind(z, pc, ppc) && Ends(c, pc, ppc, sep)
    ensures QUOTE in z
  {
    assert pc == QUOTE ==> z[|z| - 1] == QUOTE;
    assert pc != QUOTE ==> z[|z| - 2] == QUOTE;
  }

  /** The stream before its next byte was taken. */
  function Unread(c: Code, s: seq<Byte>): (r: seq<Byte>) { if c == EOF then [] else [c] + s }

  lemma UnreadNext(s: seq<Byte>)
    ensures Unread(Next(s), Skip(s)) == s
  {
    if s != [] {
      S.Uncons(s);
    }
  }

  lemma PlainStep(c: Byte, s: seq<Byte>, z: seq<Byte>, sep: Byte)
    requires c != sep && c != LF
    ensures var next := Unread(Next(s), Skip(s));
            ReadPlain(Unread(c, s), z, sep) == ReadPlain(next, z + [c], sep) &&
            Lines(Unread(c, s)) == Lines(next) && |next| < |Unread(c, s)|
  {
    S.Cons(c, s);
    UnreadNext(s);
  }

  lemma PlainStop(c: Code, s: seq<Byte>, z: seq<Byte>, sep: Byte)
    requires c == EOF || c == sep || c == LF
    requires c == EOF ==> s == []
    ensures ReadPlain(Unread(c, s), z, sep) == Field(if c == LF then WithoutCr(z) else z, c, s)
    ensures Lines(Unread(c, s)) == (if c == LF then 1 else 0) + Lines(s)
  {
    if c != EOF {
      S.Cons(c, s);
    }
  }

  /** `CSVReader`; `input` is the part of the stream that is still unread. */
  class CsvReader {
    var input: seq<Byte>
    var z: array<Byte>
    var n: nat
    var nLine: nat
    var cTerm: Code
    const cSeparator: Byte

    /** There is room for the terminating NUL. */
    ghost predicate Valid()
      reads this
    {
      n < z.Length
    }

    ghost function Text(): (s: seq<Byte>)
      requires Valid()
      reads this, z
    {
      z[..n]
    }

    /** The reader as the import command sets it up, with its buffer allocated. */
    constructor (stream: seq<Byte>, sep: Byte)
      ensures Valid() && fresh(z)
      ensures input == stream && cSeparator == sep && nLine == 0
    {
      input, cSeparator, nLine, cTerm := stream, sep, 0, 0;
      z := new Byte[100];
      n := 1;
    }

    /** `fgetc` */
    method GetByte() returns (c: Code)
      modifies this`input
      ensures c == Next(old(input)) && input == Skip(old(input))
    {
      if input == [] {
        c := EOF;
      } else {
        c := input[0];
        input := input[1..];
      }
    }

    /** `csv_append_char`: the buffer grows when there would be no room for the NUL. */
    method AppendChar(c: Byte)
      requires Valid()
      modifies this`z, this`n, z
      ensures Valid() && (z == old(z) || fresh(z))
      ensures Text() == old(Text()) + [c]
    {
      if n + 1 >= z.Length {
        var bigger := new Byte[z.Length + z.Length + 100];
        forall i | 0 <= i < n {
          bigger[i] := z[i];
        }
        assert bigger[..n] == z[..n];
        z := bigger;
      }
      z[n] := c;
      n := n + 1;
    }

    /** `do n--; while (z[n] != quote)` */
    method DropToQuote()
      requires Valid() && QUOTE in Text()
      modifies this`n
      ensures Valid() && Text() == BeforeLastQuote(old(Text()))
    {
      n := n - 1;
      assert old(Text())[..n] == Text();
      while z[n] != QUOTE
        invariant 0 <= n < old(n)
        invariant exists i :: 0 <= i <= n && z[i] == QUOTE
        invariant BeforeLastQuote(z[..n + 1]) == BeforeLastQuote(old(Text()))
        decreases n
      {
        assert z[..n + 1][..n] == z[..n];
        n := n - 1;
      }
      assert z[..n + 1][..n] == z[..n];
    }

    /** The loop over a quoted field, after its opening quote. */
    method ReadQuotedField()
      requires Valid() && n == 0
      modifies this, z
      ensures Valid() && (z == old(z) || fresh(z))
      ensures Field(Text(), cTerm, input) == ReadQuoted(old(input), [], 0, 0, cSeparator)
      ensures nLine + Lines(input) == old(nLine + Lines(input))
    {
      var pc: Code, ppc: Code := 0, 0;
      ghost var all := ReadQuoted(input, [], 0, 0, cSeparator);
      ghost var lines := nLine + Lines(input);
      while true
        invariant Valid() && (z == old(z) || fresh(z))
        invariant QuoteBehind(Text(), pc, ppc)
        invariant ReadQuoted(input, Text(), pc, ppc, cSeparator) == all
        invariant nLine + Lines(input) == lines
        decreases |input|
      {
        ghost var was := Text();
        var c := GetByte();
        if c == LF {
          nLine := nLine + 1;
        }
        if c == QUOTE && pc == QUOTE {
          pc := 0;
        } else if Ends(c, pc, ppc, cSeparator) {
          EndsBehindQuote(was, c, pc, ppc, cSeparator);
          assert z[..n] == was;
          DropToQuote();
          cTerm := c;
          break;
        } else if c == EOF {
          cTerm := EOF;
          break;
        } else {
          AppendChar(c);
          ppc := pc;
          pc := c;
        }
      }
    }

    /** The end of a field without quotes: a newline is counted, and loses the carriage return before it. */
    method EndPlainField(c: Code)
      requires Valid()
      modifies this`n, this`nLine, this`cTerm
      ensures Valid() && cTerm == c && nLine == old(nLine) + if c == LF then 1 else 0
      ensures Text() == if c == LF then WithoutCr(old(Text())) else old(Text())
    {
      if c == LF {
        nLine := nLine + 1;
        if n > 0 && z[n - 1] == CR {
          assert z[..n][..n - 1] == z[..n - 1];
          n := n - 1;
        }
      }
      cTerm := c;
    }

    /** The loop over a field without quotes, whose first byte is already read. */
    method ReadPlainField(first: Byte)
      requires Valid() && n == 0
      modifies this, z
      ensures Valid() && (z == old(z) || fresh(z))
      ensures Field(Text(), cTerm, input) == ReadPlain([first] + old(input), [], cSeparator)
      ensures nLine + Lines(input) == old(nLine + Lines([first] + input))
    {
      var c: Code := first;
      ghost var all := [first] + input;
      while c != EOF && c != cSeparator && c != LF
        invariant Valid() && (z == old(z) || fresh(z))
        invariant nLine == old(nLine) && (c == EOF ==> input == [])
        invariant ReadPlain(Unread(c, input), Text(), cSeparator) == ReadPlain(all, [], cSeparator)
        invariant Lines(Unread(c, input)) == Lines(all)
        decreases |Unread(c, input)|
      {
        PlainStep(c, input, Text(), cSeparator);
        AppendChar(c);
        c := GetByte();
      }
      PlainStop(c, input, Text(), cSeparator);
      EndPlainField(c);
    }

    /** `csv_read_one_field`: the field, its terminator and the rest of the stream are those of the format, and the line
        number advances by the newlines consumed. */
    method ReadOneField() returns (found: bool)
      requires Valid()
      modifies this, z
      ensures Valid() && (z == old(z) || fresh(z))
      ensures ReadField(old(input), cSeparator) == if found then Field(Text(), cTerm, input) else NoField
      ensures !found ==> cTerm == EOF && input == []
      ensures found ==> z[n] == NUL
      ensures nLine + Lines(input) == old(nLine + Lines(input))
    {
      n := 0;
      var c := GetByte();
      if c == EOF {
        cTerm := EOF;
        return false;
      }
      S.Uncons(old(input));
      if c == QUOTE {
        ReadQuotedField();
      } else {
        ReadPlainField(c);
      }
      ghost var text := Text();
      z[n] := NUL;
      assert Text() == text;
      return true;
    }

    /** The loop that reads the header line: fields until one is not ended by the separator. */
    method ReadFields() returns (fields: seq<seq<Byte>>)
      requires Valid()
      modifies this, z
      ensures Valid() && (z == old(z) || fresh(z))
      ensures var r := ReadRow(old(input), cSeparator);
              if fields == [] then r.NoRow? else r.Row? && r.fields == fields && r.rest == input && r.term == cTerm
      ensures nLine + Lines(input) == old(nLine + Lines(input))
    {
      fields := [];
      while true
        invariant Valid() && (z == old(z) || fresh(z))
        invariant Prepended(fields, ReadRow(input, cSeparator), input) == ReadRow(old(input), cSeparator)
        invariant nLine + Lines(input) == old(nLine + Lines(input))
        decreases |input|
      {
        ghost var before, was := fields, input;
        FieldConsumes(input, cSeparator);
        var found := ReadOneField();
        if !found {
          break;
        }
        fields := fields + [z[..n]];
        if cTerm != cSeparator {
          PrependLast(before, was, cSeparator);
          break;
        }
        PrependMore(before, was, cSeparator);
      }
    }
  }

  /** The row that starts with the fields already read. */
  function Prepended(fields: seq<seq<Byte>>, more: Row, input: seq<Byte>): (r: Row)
  {
    match more
    case Row(rest, t, after) => Row(fields + rest, t, after)
    case NoRow => if fields == [] then NoRow else Row(fields, EOF, input)
  }

  lemma PrependLast(fields: seq<seq<Byte>>, s: seq<Byte>, sep: Byte)
    requires var f := ReadField(s, sep); f.Field? && f.term != sep
    ensures var f := ReadField(s, sep);
            Prepended(fields, ReadRow(s, sep), s) == Row(fields + [f.text], f.term, f.rest)
  {
  }

  lemma PrependMore(fields: seq<seq<Byte>>, s: seq<Byte>, sep: Byte)
    requires var f := ReadField(s, sep); f.Field? && f.term == sep
    ensures var f := ReadField(s, sep);
            Prepended(fields, ReadRow(s, sep), s) == Prepended(fields + [f.text], ReadRow(f.rest, sep), f.rest)
  {
    var f := ReadField(s, sep);
    match ReadRow(f.rest, sep)
    case NoRow =>
    case Row(more, t, after) => S.Assoc(fields, [f.text], more);
  }
}
