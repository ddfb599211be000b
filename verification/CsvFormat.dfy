/** CSV text as the sqlite shell writes and reads it, on values. */
module CsvFormat {
  import opened Bytes
  import S = Seqs

  /** The result of `fgetc`: a byte, or EOF. */
  type Code = c: int | -1 <= c < 256

  const EOF: Code := -1

  // ----- writing

  /** The table `needCsvQuote`. */
  predicate NeedsQuote(b: Byte) { b <= 0x20 || b == QUOTE || b == 0x27 || b >= 0x7F }

  predicate MustQuote(z: seq<Byte>, sep: Byte)
  {
    z == [] || exists i :: 0 <= i < |z| && (NeedsQuote(z[i]) || z[i] == sep)
  }

  /** Every quote twice. */
  function Doubled(z: seq<Byte>): (s: seq<Byte>)
  {
    if z == [] then [] else (if z[0] == QUOTE then [QUOTE, QUOTE] else [z[0]]) + Doubled(z[1..])
  }

  function FieldText(z: seq<Byte>, sep: Byte): (s: seq<Byte>)
  {
    if MustQuote(z, sep) then [QUOTE] + (Doubled(z) + [QUOTE]) else z
  }

  /** Fields with separators between them and a newline at the end. */
  function RowText(fields: seq<seq<Byte>>, sep: Byte): (s: seq<Byte>)
    requires fields != []
  {
    FieldText(fields[0], sep) + if |fields| == 1 then [LF] else [sep] + RowText(fields[1..], sep)
  }

  /** A cell of a result row: text, or the null pointer, which prints as the null value. */
  type Cell = Option<seq<Byte>>

  function CellText(cell: Cell, nullvalue: seq<Byte>, sep: Byte): (s: seq<Byte>)
  {
    if cell.None? then nullvalue else FieldText(cell.value, sep)
  }

  function CellsText(cells: seq<Cell>, nullvalue: seq<Byte>, sep: Byte): (s: seq<Byte>)
  {
    if cells == [] then [LF]
    else
      CellText(cells[0], nullvalue, sep) +
      if |cells| == 1 then [LF] else [sep] + CellsText(cells[1..], nullvalue, sep)
  }

  /** Without null cells that is the text of the fields. */
  lemma {:induction false} CellsOfFields(cells: seq<Cell>, fields: seq<seq<Byte>>, nullvalue: seq<Byte>, sep: Byte)
    requires |cells| == |fields| > 0 && forall i :: 0 <= i < |cells| ==> cells[i] == Some(fields[i])
    ensures CellsText(cells, nullvalue, sep) == RowText(fields, sep)
    decreases |cells|
  {
    if |cells| > 1 {
      CellsOfFields(cells[1..], fields[1..], nullvalue, sep);
    }
  }

  predicate Rows(rows: seq<seq<seq<Byte>>>) { forall i :: 0 <= i < |rows| ==> rows[i] != [] }

  function TableText(rows: seq<seq<seq<Byte>>>, sep: Byte): (s: seq<Byte>)
    requires Rows(rows)
  {
    if rows == [] then [] else RowText(rows[0], sep) + TableText(rows[1..], sep)
  }

  // ----- reading one field

  /** `NoField` is the null pointer that is returned at the end of the file. */
  datatype Field = NoField | Field(text: seq<Byte>, term: Code, rest: seq<Byte>)

  function Next(s: seq<Byte>): (c: Code) { if s == [] then EOF else s[0] }

  function Skip(s: seq<Byte>): (r: seq<Byte>) { if s == [] then [] else s[1..] }

  /** The byte, after the two before it, ends a quoted field. */
  predicate Ends(c: Code, pc: Code, ppc: Code, sep: Byte)
  {
    || (c == sep && pc == QUOTE)
    || (c == LF && pc == QUOTE)
    || (c == LF && pc == CR && ppc == QUOTE)
    || (c == EOF && pc == QUOTE)
  }

  /** `do n--; while (z[n] != quote)`: everything before the last quote. */
  function BeforeLastQuote(z: seq<Byte>): (r: seq<Byte>)
  {
    if z == [] then [] else if z[|z| - 1] == QUOTE then z[..|z| - 1] else BeforeLastQuote(z[..|z| - 1])
  }

  /** The loop over a quoted field, with what is collected so far and the last two bytes. */
  function ReadQuoted(s: seq<Byte>, z: seq<Byte>, pc: Code, ppc: Code, sep: Byte): (f: Field)
    decreases |s|
  {
    var c := Next(s);
    if c == QUOTE && pc == QUOTE then ReadQuoted(s[1..], z, 0, ppc, sep)
    else if Ends(c, pc, ppc, sep) then Field(BeforeLastQuote(z), c, Skip(s))
    else if c == EOF then Field(z, EOF, [])
    else ReadQuoted(s[1..], z + [s[0]], c, pc, sep)
  }

  function WithoutCr(z: seq<Byte>): (r: seq<Byte>)
  {
    if z != [] && z[|z| - 1] == CR then z[..|z| - 1] else z
  }

  /** The loop over a field without quotes. */
  function ReadPlain(s: seq<Byte>, z: seq<Byte>, sep: Byte): (f: Field)
    decreases |s|
  {
    var c := Next(s);
    if c == EOF || c == sep || c == LF then Field(if c == LF then WithoutCr(z) else z, c, Skip(s))
    else ReadPlain(s[1..], z + [s[0]], sep)
  }

  /** `csv_read_one_field`. */
  function ReadField(s: seq<Byte>, sep: Byte): (f: Field)
  {
    if s == [] then NoField
    else if s[0] == QUOTE then ReadQuoted(s[1..], [], 0, 0, sep)
    else ReadPlain(s, [], sep)
  }

  lemma {:induction false} QuotedConsumes(s: seq<Byte>, z: seq<Byte>, pc: Code, ppc: Code, sep: Byte)
    ensures var f := ReadQuoted(s, z, pc, ppc, sep);
            f.Field? && |f.rest| <= |s| && (f.term != EOF ==> |f.rest| < |s|)
    decreases |s|
  {
    if s != [] {
      QuotedConsumes(s[1..], z, 0, ppc, sep);
      QuotedConsumes(s[1..], z + [s[0]], s[0], pc, sep);
    }
  }

  lemma {:induction false} PlainConsumes(s: seq<Byte>, z: seq<Byte>, sep: Byte)
    ensures var f := ReadPlain(s, z, sep);
            f.Field? && |f.rest| <= |s| && (f.term != EOF ==> |f.rest| < |s|)
    decreases |s|
  {
    if s != [] {
      PlainConsumes(s[1..], z + [s[0]], sep);
    }
  }

  lemma {:induction false} FieldConsumes(s: seq<Byte>, sep: Byte)
    ensures var f := ReadField(s, sep); if s == [] then f.NoField? else f.Field? && |f.rest| < |s|
  {
    if s != [] {
      if s[0] == QUOTE {
        QuotedConsumes(s[1..], [], 0, 0, sep);
      } else if s[0] != sep && s[0] != LF {
        PlainConsumes(s[1..], [] + [s[0]], sep);
      }
    }
  }

  // ----- reading rows

  datatype Row = NoRow | Row(fields: seq<seq<Byte>>, term: Code, rest: seq<Byte>)

  /** Fields up to one that is not ended by a separator. */
  function ReadRow(s: seq<Byte>, sep: Byte): (r: Row)
    ensures r.Row? ==> |r.rest| < |s| && r.fields != []
    decreases |s|
  {
    FieldConsumes(s, sep);
    match ReadField(s, sep)
    case NoField => NoRow
    case Field(text, term, rest) =>
      if term != sep then Row([text], term, rest)
      else
        match ReadRow(rest, sep)
        case NoRow => Row([text], EOF, rest)
        case Row(fields, t, after) => Row([text] + fields, t, after)
  }

  function ReadTable(s: seq<Byte>, sep: Byte): (rows: seq<seq<seq<Byte>>>)
    decreases |s|
  {
    match ReadRow(s, sep)
    case NoRow => []
    case Row(fields, term, rest) => [fields] + ReadTable(rest, sep)
  }

  // ----- reading what was written

  /** The separators for which the format works: one 7-bit byte other than NUL, quote or LF. */
  predicate GoodSeparator(sep: Byte) { 0 < sep < 0x80 && sep != QUOTE && sep != LF }

  /** The history does not make the next byte special. */
  predicate Neutral(pc: Code, ppc: Code) { pc != QUOTE && !(pc == CR && ppc == QUOTE) }

  lemma LastQuote(z: seq<Byte>)
    ensures BeforeLastQuote(z + [QUOTE]) == z
  {
    assert (z + [QUOTE])[..|z|] == z;
  }

  /** From a neutral history, the doubled text and its closing quote are read back whole. */
  lemma {:induction false} QuotedIsRead(z: seq<Byte>, acc: seq<Byte>, pc: Code, ppc: Code, t: Byte, rest: seq<Byte>,
                                        sep: Byte)
    requires GoodSeparator(sep) && Neutral(pc, ppc) && (t == sep || t == LF)
    ensures ReadQuoted(Doubled(z) + ([QUOTE] + ([t] + rest)), acc, pc, ppc, sep) == Field(acc + z, t, rest)
    decreases |z|
  {
    var tail := [QUOTE] + ([t] + rest);
    if z == [] {
      S.Empty(tail);
      S.Cons(QUOTE, [t] + rest);
      S.Cons(t, rest);
      LastQuote(acc);
      S.Empty(acc);
    } else {
      var more := Doubled(z[1..]) + tail;
      S.MoveFirst(acc, z);
      if z[0] == QUOTE {
        S.Assoc([QUOTE, QUOTE], Doubled(z[1..]), tail);
        S.Cons2(QUOTE, QUOTE, more);
        S.Cons(QUOTE, [QUOTE] + more);
        S.Cons(QUOTE, more);
        QuotedIsRead(z[1..], acc + [QUOTE], 0, pc, t, rest, sep);
      } else {
        S.Assoc([z[0]], Doubled(z[1..]), tail);
        S.Cons(z[0], more);
        QuotedIsRead(z[1..], acc + [z[0]], z[0], pc, t, rest, sep);
      }
    }
  }

  lemma {:induction false} PlainIsRead(z: seq<Byte>, acc: seq<Byte>, t: Byte, rest: seq<Byte>, sep: Byte)
    requires t == sep || t == LF
    requires forall i :: 0 <= i < |z| ==> z[i] != sep && z[i] != LF
    requires t == LF ==> WithoutCr(acc + z) == acc + z
    ensures ReadPlain(z + ([t] + rest), acc, sep) == Field(acc + z, t, rest)
    decreases |z|
  {
    if z == [] {
      S.Empty([t] + rest);
      S.Cons(t, rest);
      S.Empty(acc);
    } else {
      S.Uncons(z);
      S.Assoc([z[0]], z[1..], [t] + rest);
      S.Cons(z[0], z[1..] + ([t] + rest));
      S.MoveFirst(acc, z);
      PlainIsRead(z[1..], acc + [z[0]], t, rest, sep);
    }
  }

  /** A written field, ended by a separator or a newline, is read back as it was, and nothing more is consumed. */
  lemma {:induction false} FieldRoundTrip(z: seq<Byte>, t: Byte, rest: seq<Byte>, sep: Byte)
    requires GoodSeparator(sep) && (t == sep || t == LF)
    ensures ReadField(FieldText(z, sep) + ([t] + rest), sep) == Field(z, t, rest)
  {
    var tail := [t] + rest;
    S.Empty(z);
    if MustQuote(z, sep) {
      S.Assoc4([QUOTE], Doubled(z), [QUOTE], tail);
      S.Cons(QUOTE, Doubled(z) + ([QUOTE] + tail));
      QuotedIsRead(z, [], 0, 0, t, rest, sep);
    } else {
      assert (z + tail)[0] == z[0];
      assert !NeedsQuote(z[0]) && !NeedsQuote(z[|z| - 1]);
      PlainIsRead(z, [], t, rest, sep);
    }
  }

  lemma {:induction false} RowRoundTrip(fields: seq<seq<Byte>>, rest: seq<Byte>, sep: Byte)
    requires GoodSeparator(sep) && fields != []
    ensures ReadRow(RowText(fields, sep) + rest, sep) == Row(fields, LF, rest)
    decreases |fields|
  {
    var first := FieldText(fields[0], sep);
    if |fields| == 1 {
      S.Assoc(first, [LF], rest);
      FieldRoundTrip(fields[0], LF, rest, sep);
    } else {
      var more := RowText(fields[1..], sep);
      S.Assoc4(first, [sep], more, rest);
      FieldRoundTrip(fields[0], sep, more + rest, sep);
      RowRoundTrip(fields[1..], rest, sep);
      S.Uncons(fields);
    }
  }

  /** Writing a table and reading it back gives the same fields and row breaks and consumes exactly the written text. */
  lemma {:induction false} TableRoundTrip(rows: seq<seq<seq<Byte>>>, sep: Byte)
    requires GoodSeparator(sep) && Rows(rows)
    ensures ReadTable(TableText(rows, sep), sep) == rows
    decreases |rows|
  {
    if rows != [] {
      RowRoundTrip(rows[0], TableText(rows[1..], sep), sep);
      TableRoundTrip(rows[1..], sep);
    }
  }

  // ----- separators for which it goes wrong

  lemma OneRow(fields: seq<seq<Byte>>, sep: Byte)
    requires fields != []
    ensures Rows([fields]) && TableText([fields], sep) == RowText(fields, sep)
  {
    assert [fields][1..] == [];
    S.Empty(RowText(fields, sep));
  }

  lemma QuoteSeparatorText()
    ensures RowText([[], [0x62]], QUOTE) == [QUOTE, QUOTE, QUOTE, 0x62, LF]
  {
    var row: seq<seq<Byte>> := [[], [0x62]];
    assert row[1..] == [[0x62]];
    assert !MustQuote([0x62], QUOTE) by {
      assert !NeedsQuote(0x62);
    }
    assert RowText([[0x62]], QUOTE) == [0x62, LF];
    assert FieldText([], QUOTE) == [QUOTE, QUOTE];
    assert RowText(row, QUOTE) == [QUOTE, QUOTE] + ([QUOTE] + [0x62, LF]);
  }

  lemma QuoteSeparatorRead()
    ensures ReadField([QUOTE, QUOTE, QUOTE, 0x62, LF], QUOTE) == Field([QUOTE, 0x62, LF], EOF, [])
  {
    S.Cons(QUOTE, [QUOTE, QUOTE, 0x62, LF]);
    calc {
      ReadQuoted([QUOTE, QUOTE, 0x62, LF], [], 0, 0, QUOTE);
      { S.Cons(QUOTE, [QUOTE, 0x62, LF]); S.Empty([QUOTE]); }
      ReadQuoted([QUOTE, 0x62, LF], [QUOTE], QUOTE, 0, QUOTE);
      { S.Cons(QUOTE, [0x62, LF]); }
      ReadQuoted([0x62, LF], [QUOTE], 0, 0, QUOTE);
      { S.Cons(0x62, [LF]); assert [QUOTE] + [0x62] == [QUOTE, 0x62]; }
      ReadQuoted([LF], [QUOTE, 0x62], 0x62, 0, QUOTE);
      { assert [LF][1..] == [] && [QUOTE, 0x62] + [LF] == [QUOTE, 0x62, LF]; }
      ReadQuoted([], [QUOTE, 0x62, LF], LF, 0x62, QUOTE);
    }
  }

  /** A quote as separator: an empty field and its separator read as the start of a longer quoted field. */
  lemma QuoteSeparatorFails()
    ensures ReadTable(TableText([[[], [0x62]]], QUOTE), QUOTE) != [[[], [0x62]]]
  {
    var row: seq<seq<Byte>> := [[], [0x62]];
    OneRow(row, QUOTE);
    QuoteSeparatorText();
    QuoteSeparatorRead();
    assert ReadRow(RowText(row, QUOTE), QUOTE).fields == [[QUOTE, 0x62, LF]];
    assert ReadTable(TableText([row], QUOTE), QUOTE)[0] == [[QUOTE, 0x62, LF]];
    assert |row| == 2;
  }

  /** A newline as separator: two rows read as one. */
  lemma NewlineSeparatorFails()
    ensures ReadTable(TableText([[[0x61]], [[0x62]]], LF), LF) != [[[0x61]], [[0x62]]]
  {
    var rows: seq<seq<seq<Byte>>> := [[[0x61]], [[0x62]]];
    var text := TableText(rows, LF);
    assert rows[1..] == [[[0x62]]] && rows[1..][1..] == [];
    assert !MustQuote([0x61], LF) && !MustQuote([0x62], LF) by {
      assert !NeedsQuote(0x61) && !NeedsQuote(0x62);
    }
    assert text == [0x61, LF, 0x62, LF];
    assert ReadPlain([0x62, LF], [], LF) == ReadPlain([LF], [0x62], LF) == Field([0x62], LF, []);
    assert ReadPlain(text, [], LF) == ReadPlain([LF, 0x62, LF], [0x61], LF) == Field([0x61], LF, [0x62, LF]);
    assert ReadRow(text, LF).fields == [[0x61]] + ReadRow([0x62, LF], LF).fields;
    assert |ReadRow(text, LF).fields| >= 2;
  }

  /** Every table survives writing and reading exactly when the separator is neither a quote nor a newline. */
  lemma {:induction false} SeparatorsThatWork(sep: Byte)
    requires 0 < sep < 0x80
    ensures (forall rows | Rows(rows) :: ReadTable(TableText(rows, sep), sep) == rows) <==> sep != QUOTE && sep != LF
  {
    if sep == QUOTE {
      QuoteSeparatorFails();
      assert Rows([[[], [0x62]]]);
    } else if sep == LF {
      NewlineSeparatorFails();
      assert Rows([[[0x61]], [[0x62]]]);
    } else {
      forall rows | Rows(rows)
        ensures ReadTable(TableText(rows, sep), sep) == rows
      {
        TableRoundTrip(rows, sep);
      }
    }
  }

  // ----- lines

  /** The number of newlines. */
  function Lines(s: seq<Byte>): (k: nat)
  {
    if s == [] then 0 else (if s[0] == LF then 1 else 0) + Lines(s[1..])
  }

  // ----- which fields are quoted

  /** A field is printed as it stands exactly when it is not empty and all its bytes are printable ASCII other than the
      space, both kinds of quotes and the separator. */
  lemma {:induction false} PlainFields(z: seq<Byte>, sep: Byte)
    ensures FieldText(z, sep) == z <==>
            z != [] && forall i :: 0 <= i < |z| ==> 0x21 <= z[i] <= 0x7E && z[i] != 0x22 && z[i] != 0x27 && z[i] != sep
  {
    DoubledLength(z);
    if MustQuote(z, sep) {
      assert |FieldText(z, sep)| > |z|;
    }
  }

  lemma {:induction false} DoubledLength(z: seq<Byte>)
    ensures |z| <= |Doubled(z)|
  {
    if z != [] {
      DoubledLength(z[1..]);
    }
  }

  // ----- other ends of a field

  /** The same field at the end of the file. */
  lemma {:induction false} FieldAtEnd(z: seq<Byte>, sep: Byte)
    requires GoodSeparator(sep)
    ensures ReadField(FieldText(z, sep), sep) == Field(z, EOF, [])
  {
    S.Empty(z);
    if MustQuote(z, sep) {
      S.Cons(QUOTE, Doubled(z) + [QUOTE]);
      QuotedAtEnd(z, [], 0, 0, sep);
    } else {
      assert !NeedsQuote(z[0]);
      PlainAtEnd(z, [], sep);
    }
  }

  lemma {:induction false} QuotedAtEnd(z: seq<Byte>, acc: seq<Byte>, pc: Code, ppc: Code, sep: Byte)
    requires GoodSeparator(sep) && Neutral(pc, ppc)
    ensures ReadQuoted(Doubled(z) + [QUOTE], acc, pc, ppc, sep) == Field(acc + z, EOF, [])
    decreases |z|
  {
    if z == [] {
      assert [] + [QUOTE] == [QUOTE] && [QUOTE][1..] == [];
      assert ReadQuoted([QUOTE], acc, pc, ppc, sep) == ReadQuoted([], acc + [QUOTE], QUOTE, pc, sep);
      LastQuote(acc);
      S.Empty(acc);
    } else {
      var more := Doubled(z[1..]) + [QUOTE];
      S.MoveFirst(acc, z);
      if z[0] == QUOTE {
        S.Assoc([QUOTE, QUOTE], Doubled(z[1..]), [QUOTE]);
        S.Cons2(QUOTE, QUOTE, more);
        S.Cons(QUOTE, [QUOTE] + more);
        S.Cons(QUOTE, more);
        QuotedAtEnd(z[1..], acc + [QUOTE], 0, pc, sep);
      } else {
        S.Assoc([z[0]], Doubled(z[1..]), [QUOTE]);
        S.Cons(z[0], more);
        QuotedAtEnd(z[1..], acc + [z[0]], z[0], pc, sep);
      }
    }
  }

  lemma {:induction false} PlainAtEnd(z: seq<Byte>, acc: seq<Byte>, sep: Byte)
    requires forall i :: 0 <= i < |z| ==> z[i] != sep && z[i] != LF
    ensures ReadPlain(z, acc, sep) == Field(acc + z, EOF, [])
    decreases |z|
  {
    if z == [] {
      S.Empty(acc);
    } else {
      S.MoveFirst(acc, z);
      PlainAtEnd(z[1..], acc + [z[0]], sep);
    }
  }

  /** Before a carriage return and a newline, as section 2 of RFC 4180 ends a line, the carriage return is dropped. */
  lemma {:induction false} FieldBeforeCrLf(z: seq<Byte>, rest: seq<Byte>, sep: Byte)
    requires GoodSeparator(sep) && sep != CR
    ensures ReadField(FieldText(z, sep) + ([CR, LF] + rest), sep) == Field(z, LF, rest)
  {
    var tail := [CR, LF] + rest;
    S.Empty(z);
    if MustQuote(z, sep) {
      S.Assoc4([QUOTE], Doubled(z), [QUOTE], tail);
      S.Cons(QUOTE, Doubled(z) + ([QUOTE] + tail));
      QuotedBeforeCrLf(z, [], 0, 0, rest, sep);
    } else {
      assert (z + tail)[0] == z[0];
      assert !NeedsQuote(z[0]);
      PlainBeforeCrLf(z, [], rest, sep);
    }
  }

  lemma {:induction false} QuotedBeforeCrLf(z: seq<Byte>, acc: seq<Byte>, pc: Code, ppc: Code, rest: seq<Byte>,
                                            sep: Byte)
    requires GoodSeparator(sep) && sep != CR && Neutral(pc, ppc)
    ensures ReadQuoted(Doubled(z) + ([QUOTE] + ([CR, LF] + rest)), acc, pc, ppc, sep) == Field(acc + z, LF, rest)
    decreases |z|
  {
    var tail := [QUOTE] + ([CR, LF] + rest);
    if z == [] {
      S.Empty(tail);
      S.Cons(QUOTE, [CR, LF] + rest);
      S.Cons2(CR, LF, rest);
      S.Cons(CR, [LF] + rest);
      S.Cons(LF, rest);
      assert ReadQuoted(tail, acc, pc, ppc, sep) == ReadQuoted([CR] + ([LF] + rest), acc + [QUOTE], QUOTE, pc, sep);
      assert ReadQuoted([CR] + ([LF] + rest), acc + [QUOTE], QUOTE, pc, sep) ==
             ReadQuoted([LF] + rest, acc + [QUOTE] + [CR], CR, QUOTE, sep);
      QuoteAndCr(acc);
      S.Empty(acc);
    } else {
      var more := Doubled(z[1..]) + tail;
      S.MoveFirst(acc, z);
      if z[0] == QUOTE {
        S.Assoc([QUOTE, QUOTE], Doubled(z[1..]), tail);
        S.Cons2(QUOTE, QUOTE, more);
        S.Cons(QUOTE, [QUOTE] + more);
        S.Cons(QUOTE, more);
        QuotedBeforeCrLf(z[1..], acc + [QUOTE], 0, pc, rest, sep);
      } else {
        S.Assoc([z[0]], Doubled(z[1..]), tail);
        S.Cons(z[0], more);
        QuotedBeforeCrLf(z[1..], acc + [z[0]], z[0], pc, rest, sep);
      }
    }
  }

  lemma QuoteAndCr(z: seq<Byte>)
    ensures BeforeLastQuote(z + [QUOTE] + [CR]) == z
  {
    assert (z + [QUOTE] + [CR])[..|z| + 1] == z + [QUOTE];
    LastQuote(z);
  }

  lemma {:induction false} PlainBeforeCrLf(z: seq<Byte>, acc: seq<Byte>, rest: seq<Byte>, sep: Byte)
    requires sep != CR && forall i :: 0 <= i < |z| ==> z[i] != sep && z[i] != LF
    ensures ReadPlain(z + ([CR, LF] + rest), acc, sep) == Field(acc + z, LF, rest)
    decreases |z|
  {
    if z == [] {
      S.Empty([CR, LF] + rest);
      S.Cons2(CR, LF, rest);
      S.Cons(CR, [LF] + rest);
      S.Cons(LF, rest);
      assert (acc + [CR])[..|acc|] == acc;
      S.Empty(acc);
    } else {
      S.Uncons(z);
      S.Assoc([z[0]], z[1..], [CR, LF] + rest);
      S.Cons(z[0], z[1..] + ([CR, LF] + rest));
      S.MoveFirst(acc, z);
      PlainBeforeCrLf(z[1..], acc + [z[0]], rest, sep);
    }
  }

  /** A quoted field that is never closed is all the rest of the file. */
  lemma {:induction false} UnterminatedIsRead(z: seq<Byte>, sep: Byte)
    requires QUOTE !in z
    ensures ReadField([QUOTE] + z, sep) == Field(z, EOF, [])
  {
    S.Cons(QUOTE, z);
    InsideIsRead(z, [], 0, 0, sep);
    S.Empty(z);
  }

  lemma {:induction false} InsideIsRead(z: seq<Byte>, acc: seq<Byte>, pc: Code, ppc: Code, sep: Byte)
    requires QUOTE !in z && pc != QUOTE && ppc != QUOTE
    ensures ReadQuoted(z, acc, pc, ppc, sep) == Field(acc + z, EOF, [])
    decreases |z|
  {
    if z == [] {
      S.Empty(acc);
    } else {
      S.MoveFirst(acc, z);
      InsideIsRead(z[1..], acc + [z[0]], z[0], pc, sep);
    }
  }

  /** Each quote in `z` is followed by a byte that makes it neither a doubled nor a closing one. */
  predicate LooseQuotes(z: seq<Byte>, sep: Byte)
  {
    forall i :: 0 <= i < |z| && z[i] == QUOTE ==> i + 1 < |z| && z[i + 1] !in [0x22, 0x0A, 0x0D, sep]
  }

  lemma {:induction false} LooseIsRead(z: seq<Byte>, acc: seq<Byte>, pc: Code, ppc: Code, t: Byte, rest: seq<Byte>,
                                       sep: Byte)
    requires GoodSeparator(sep) && LooseQuotes(z, sep) && Neutral(pc, ppc) && (t == sep || t == LF)
    ensures ReadQuoted(z + ([QUOTE] + ([t] + rest)), acc, pc, ppc, sep) == Field(acc + z, t, rest)
    decreases |z|
  {
    var tail := [QUOTE] + ([t] + rest);
    if z == [] {
      QuotedIsRead([], acc, pc, ppc, t, rest, sep);
    } else {
      S.Uncons(z);
      S.Assoc([z[0]], z[1..], tail);
      S.Cons(z[0], z[1..] + tail);
      S.MoveFirst(acc, z);
      if z[0] == QUOTE {
        var y := z[1..];
        S.Uncons(y);
        S.Assoc([y[0]], y[1..], tail);
        S.Cons(y[0], y[1..] + tail);
        S.MoveFirst(acc + [QUOTE], y);
        LooseIsRead(y[1..], acc + [QUOTE] + [y[0]], y[0], QUOTE, t, rest, sep);
      } else {
        LooseIsRead(z[1..], acc + [z[0]], z[0], pc, t, rest, sep);
      }
    }
  }

  /** Such quotes in a quoted field draw a warning and are kept. */
  lemma {:induction false} LooseQuotesAreKept(z: seq<Byte>, t: Byte, rest: seq<Byte>, sep: Byte)
    requires GoodSeparator(sep) && LooseQuotes(z, sep) && (t == sep || t == LF)
    ensures ReadField([QUOTE] + (z + ([QUOTE] + ([t] + rest))), sep) == Field(z, t, rest)
  {
    S.Cons(QUOTE, z + ([QUOTE] + ([t] + rest)));
    S.Empty(z);
    LooseIsRead(z, [], 0, 0, t, rest, sep);
  }

  // ----- rows with null cells

  /** What the cells of a row read as: the null value stands for a null cell. */
  function Shown(cells: seq<Cell>, nullvalue: seq<Byte>): (fields: seq<seq<Byte>>)
    ensures |fields| == |cells|
    ensures forall i :: 0 <= i < |cells| ==> fields[i] == if cells[i].Some? then cells[i].value else nullvalue
  {
    if cells == [] then []
    else [if cells[0].Some? then cells[0].value else nullvalue] + Shown(cells[1..], nullvalue)
  }

  /** The null value is printed as it stands, so it must not hold a separator or a newline, nor start with a quote, nor
      end with a carriage return, which a newline may follow. */
  predicate SafeNull(z: seq<Byte>, sep: Byte)
  {
    (forall i :: 0 <= i < |z| ==> z[i] != sep && z[i] != 0x0A) && (z == [] || (z[0] != 0x22 && z[|z| - 1] != 0x0D))
  }

  lemma {:induction false} NullIsRead(z: seq<Byte>, t: Byte, rest: seq<Byte>, sep: Byte)
    requires GoodSeparator(sep) && SafeNull(z, sep) && (t == sep || t == LF)
    ensures ReadField(z + ([t] + rest), sep) == Field(z, t, rest)
  {
    var s := z + ([t] + rest);
    assert s[0] == if z == [] then t else z[0];
    S.Empty(z);
    PlainIsRead(z, [], t, rest, sep);
  }

  lemma {:induction false} CellIsRead(cell: Cell, nullvalue: seq<Byte>, t: Byte, rest: seq<Byte>, sep: Byte)
    requires GoodSeparator(sep) && SafeNull(nullvalue, sep) && (t == sep || t == LF)
    ensures ReadField(CellText(cell, nullvalue, sep) + ([t] + rest), sep) ==
            Field(if cell.Some? then cell.value else nullvalue, t, rest)
  {
    if cell.Some? {
      FieldRoundTrip(cell.value, t, rest, sep);
    } else {
      NullIsRead(nullvalue, t, rest, sep);
    }
  }

  /** With such a null value, every row of cells reads back. */
  lemma {:induction false} CellsRoundTrip(cells: seq<Cell>, nullvalue: seq<Byte>, rest: seq<Byte>, sep: Byte)
    requires GoodSeparator(sep) && SafeNull(nullvalue, sep) && cells != []
    ensures ReadRow(CellsText(cells, nullvalue, sep) + rest, sep) == Row(Shown(cells, nullvalue), LF, rest)
    decreases |cells|
  {
    var first := CellText(cells[0], nullvalue, sep);
    if |cells| == 1 {
      S.Assoc(first, [LF], rest);
      CellIsRead(cells[0], nullvalue, LF, rest, sep);
      assert Shown(cells[1..], nullvalue) == [];
    } else {
      var more := CellsText(cells[1..], nullvalue, sep);
      S.Assoc4(first, [sep], more, rest);
      CellIsRead(cells[0], nullvalue, sep, more + rest, sep);
      CellsRoundTrip(cells[1..], nullvalue, rest, sep);
    }
  }

  /** A plain field ends at the first separator or newline at the latest. */
  lemma {:induction false} PlainStops(s: seq<Byte>, acc: seq<Byte>, sep: Byte, i: nat)
    requires i < |s| && (s[i] == sep || s[i] == LF)
    ensures ReadPlain(s, acc, sep).Field? && |ReadPlain(s, acc, sep).text| <= |acc| + i
    decreases i
  {
    if i > 0 && s[0] != sep && s[0] != LF {
      PlainStops(s[1..], acc + [s[0]], sep, i - 1);
    }
  }

  /** Any other null value that does not start with a quote is not read back from a row of one null cell. */
  lemma {:induction false} UnsafeNullIsLost(z: seq<Byte>, sep: Byte)
    requires GoodSeparator(sep) && z != [] && z[0] != QUOTE && !SafeNull(z, sep)
    ensures ReadRow(CellsText([None], z, sep), sep) != Row([z], LF, [])
  {
    var s := z + [LF];
    assert CellsText([None], z, sep) == s;
    assert s[0] == z[0];
    if i :| 0 <= i < |z| && (z[i] == sep || z[i] == LF) {
      assert s[i] == z[i];
      PlainStops(s, [], sep, i);
      FirstIsShort(s, sep, z);
    } else {
      PlainBeforeLf(z, [], sep);
      FirstIsShort(s, sep, z);
    }
  }

  lemma {:induction false} FirstIsShort(s: seq<Byte>, sep: Byte, z: seq<Byte>)
    requires ReadField(s, sep).Field? && |ReadField(s, sep).text| < |z|
    ensures ReadRow(s, sep) != Row([z], LF, [])
  {
    assert ReadRow(s, sep).Row? && ReadRow(s, sep).fields[0] == ReadField(s, sep).text;
  }

  lemma {:induction false} PlainBeforeLf(z: seq<Byte>, acc: seq<Byte>, sep: Byte)
    requires forall i :: 0 <= i < |z| ==> z[i] != sep && z[i] != LF
    ensures ReadPlain(z + [LF], acc, sep) == Field(WithoutCr(acc + z), LF, []) || sep == LF
    decreases |z|
  {
    if z == [] {
      S.Empty(acc);
      assert [] + [LF] == [LF] && [LF][1..] == [];
    } else {
      S.MoveFirst(acc, z);
      assert (z + [LF])[1..] == z[1..] + [LF];
      PlainBeforeLf(z[1..], acc + [z[0]], sep);
    }
  }

  /** So a null value that does not start with a quote survives in every row exactly when it is safe. */
  lemma {:induction false} NullsThatWork(nullvalue: seq<Byte>, sep: Byte)
    requires GoodSeparator(sep) && (nullvalue == [] || nullvalue[0] != QUOTE)
    ensures (forall cells: seq<Cell> | cells != [] ::
               ReadRow(CellsText(cells, nullvalue, sep), sep) == Row(Shown(cells, nullvalue), LF, []))
            <==> SafeNull(nullvalue, sep)
  {
    if SafeNull(nullvalue, sep) {
      forall cells: seq<Cell> | cells != []
        ensures ReadRow(CellsText(cells, nullvalue, sep), sep) == Row(Shown(cells, nullvalue), LF, [])
      {
        S.Empty(CellsText(cells, nullvalue, sep));
        CellsRoundTrip(cells, nullvalue, [], sep);
      }
    } else {
      UnsafeNullIsLost(nullvalue, sep);
      assert Shown([None], nullvalue) == [nullvalue];
      var one: seq<Cell> := [None];
      assert one != [];
    }
  }
}
