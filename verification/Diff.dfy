/** `diff`: the table is filled in place, the traceback is followed once for its length and once to write the rows. A
    traceback pointer is the direction of the neighbour it points to. */
module Diff {
  import opened Bytes
  import opened Alignment

  /** The two fields of the matrix elements, one array each. */
  class Table {
    const s: seq<Byte>
    const t: seq<Byte>
    const value: array2<int>
    const trace: array2<Direction>

    constructor (s: seq<Byte>, t: seq<Byte>)
      ensures this.s == s && this.t == t && Shaped() && fresh(value) && fresh(trace)
    {
      this.s, this.t := s, t;
      value := new int[|s| + 1, |t| + 1];
      trace := new Direction[|s| + 1, |t| + 1];
    }

    predicate Shaped()
    {
      value.Length0 == trace.Length0 == |s| + 1 && value.Length1 == trace.Length1 == |t| + 1
    }

    /** The cell holds the best score of its prefixes and the direction that explains it. */
    ghost predicate Done(y: nat, x: nat)
      requires Shaped() && y <= |s| && x <= |t|
      reads value, trace
    {
      value[y, x] == Best(s, t, y, x) && trace[y, x] == Choice(s, t, y, x)
    }

    /** All cells of the first `rows` rows. */
    ghost predicate RowsDone(rows: nat)
      requires Shaped() && rows <= |s| + 1
      reads value, trace
    {
      forall y, x {:trigger value[y, x]} {:trigger trace[y, x]} ::
        0 <= y < rows && 0 <= x <= |t| ==> value[y, x] == Best(s, t, y, x) && trace[y, x] == Choice(s, t, y, x)
    }

    ghost predicate FirstColumnDone()
      requires Shaped()
      reads value, trace
    {
      forall y {:trigger value[y, 0]} {:trigger trace[y, 0]} ::
        0 <= y <= |s| ==> value[y, 0] == Best(s, t, y, 0) && trace[y, 0] == Choice(s, t, y, 0)
    }

    /** The first row and the first column. */
    method FillBorders()
      requires Shaped()
      modifies value, trace
      ensures RowsDone(1) && FirstColumnDone()
    {
      value[0, 0], trace[0, 0] := 0, Stop;
      for x := 1 to |t| + 1
        invariant forall k {:trigger value[0, k]} {:trigger trace[0, k]} ::
                    0 <= k < x ==> value[0, k] == Best(s, t, 0, k) && trace[0, k] == Choice(s, t, 0, k)
      {
        value[0, x], trace[0, x] := 0 - x, Left;
      }
      for y := 1 to |s| + 1
        invariant forall k {:trigger value[0, k]} {:trigger trace[0, k]} ::
                    0 <= k <= |t| ==> value[0, k] == Best(s, t, 0, k) && trace[0, k] == Choice(s, t, 0, k)
        invariant forall k {:trigger value[k, 0]} {:trigger trace[k, 0]} ::
                    0 <= k < y ==> value[k, 0] == Best(s, t, k, 0) && trace[k, 0] == Choice(s, t, k, 0)
      {
        value[y, 0], trace[y, 0] := 0 - y, Up;
      }
    }

    /** One cell from its three neighbours; on a tie the diagonal goes before the left and the left before the upper. */
    method FillCell(y: nat, x: nat)
      requires Shaped() && 0 < y <= |s| && 0 < x <= |t|
      requires Done(y - 1, x - 1) && Done(y, x - 1) && Done(y - 1, x)
      modifies value, trace
      ensures Done(y, x)
      ensures forall i: nat, j: nat :: i <= |s| && j <= |t| && (i != y || j != x) ==>
                value[i, j] == old(value[i, j]) && trace[i, j] == old(trace[i, j])
    {
      var diag := value[y - 1, x - 1] + if s[y - 1] == t[x - 1] then 1 else 0;
      var left := value[y, x - 1] - 1;
      var up := value[y - 1, x] - 1;
      var max := Max3(diag, left, up);
      if diag == max {
        trace[y, x] := Diagonal;
      } else if left == max {
        trace[y, x] := Left;
      } else if up == max {
        trace[y, x] := Up;
      }
      value[y, x] := max;
    }

    method FillRow(y: nat)
      requires Shaped() && 0 < y <= |s| && RowsDone(y) && FirstColumnDone()
      modifies value, trace
      ensures RowsDone(y + 1) && FirstColumnDone()
    {
      for x := 1 to |t| + 1
        invariant RowsDone(y) && FirstColumnDone()
        invariant forall j {:trigger value[y, j]} {:trigger trace[y, j]} ::
                    0 <= j < x ==> value[y, j] == Best(s, t, y, j) && trace[y, j] == Choice(s, t, y, j)
      {
        FillCell(y, x);
      }
    }

    method Fill()
      requires Shaped()
      modifies value, trace
      ensures RowsDone(|s| + 1)
    {
      FillBorders();
      for y := 1 to |s| + 1
        invariant RowsDone(y) && FirstColumnDone()
      {
        FillRow(y);
      }
    }

    /** The first walk along the traceback. */
    method TraceLength() returns (longest: nat)
      requires Shaped() && RowsDone(|s| + 1)
      ensures longest == |Path(s, t, |s|, |t|)|
    {
      var y, x := |s|, |t|;
      longest := 0;
      while trace[y, x] != Stop
        invariant 0 <= y <= |s| && 0 <= x <= |t|
        invariant longest + |Path(s, t, y, x)| == |Path(s, t, |s|, |t|)|
        decreases y + x
      {
        y, x := Next(y, x);
        longest := longest + 1;
      }
    }

    /** The cell that the traceback of (y, x) points to. */
    method Next(y: nat, x: nat) returns (y': nat, x': nat)
      requires Shaped() && y <= |s| && x <= |t| && Done(y, x) && trace[y, x] != Stop
      ensures y' <= y && x' <= x && y' + x' < y + x
      ensures Path(s, t, y, x) == Path(s, t, y', x') + [StepColumn(y, x)]
      ensures |Path(s, t, y, x)| == |Path(s, t, y', x')| + 1
    {
      y' := if trace[y, x] == Left then y else y - 1;
      x' := if trace[y, x] == Up then x else x - 1;
    }

    /** The column that the step back from (y, x) stands for. */
    ghost function StepColumn(y: nat, x: nat): (c: Column)
      requires y <= |s| && x <= |t| && Choice(s, t, y, x) != Stop
    {
      match Choice(s, t, y, x)
      case Diagonal => Pair(s[y - 1], t[x - 1])
      case Left => Insert(t[x - 1])
      case Up => Delete(s[y - 1])
    }

    /** One column of the rows. */
    method PutColumn(row1: array<Byte>, row2: array<Byte>, idx: nat, y: nat, x: nat)
      requires Shaped() && y <= |s| && x <= |t| && Done(y, x) && trace[y, x] != Stop
      requires row1 != row2 && idx < row1.Length == row2.Length
      modifies row1, row2
      ensures row1[..] == old(row1[..])[idx := UpperAt(StepColumn(y, x))]
      ensures row2[..] == old(row2[..])[idx := LowerAt(StepColumn(y, x))]
    {
      if trace[y, x] == Diagonal {
        row1[idx], row2[idx] := s[y - 1], t[x - 1];
      } else if trace[y, x] == Left {
        row1[idx], row2[idx] := GAP, t[x - 1];
      } else {
        row1[idx], row2[idx] := s[y - 1], GAP;
      }
    }

    /** The second walk: the rows are written from their ends. They have `longest + 1` cells, the last one for a NUL. */
    method WriteRows(longest: nat) returns (row1: array<Byte>, row2: array<Byte>)
      requires Shaped() && longest == |Path(s, t, |s|, |t|)| && RowsDone(|s| + 1)
      ensures fresh(row1) && fresh(row2) && row1.Length == row2.Length == longest + 1
      ensures row1[..longest] == Upper(Path(s, t, |s|, |t|)) && row1[longest] == NUL
      ensures row2[..longest] == Lower(Path(s, t, |s|, |t|)) && row2[longest] == NUL
    {
      row1 := new Byte[longest + 1](_ => NUL);
      row2 := new Byte[longest + 1](_ => NUL);
      ghost var path := Path(s, t, |s|, |t|);
      var y, x, idx := |s|, |t|, longest - 1;
      while trace[y, x] != Stop
        invariant 0 <= y <= |s| && 0 <= x <= |t| && -1 <= idx < longest
        invariant Path(s, t, y, x) == path[..idx + 1]
        invariant forall k :: idx < k < longest ==> row1[..][k] == UpperAt(path[k]) && row2[..][k] == LowerAt(path[k])
        invariant row1[..][longest] == row2[..][longest] == NUL
        invariant fresh(row1) && fresh(row2) && row1 != row2
        decreases y + x
      {
        ghost var c := StepColumn(y, x);
        PutColumn(row1, row2, idx, y, x);
        y, x := Next(y, x);
        LastColumn(path, idx, Path(s, t, y, x), c);
        idx := idx - 1;
      }
      RowsByColumn(path, row1[..longest], row2[..longest]);
    }
  }

  lemma LastColumn(path: seq<Column>, idx: nat, p: seq<Column>, c: Column)
    requires idx < |path| && path[..idx + 1] == p + [c]
    ensures p == path[..idx] && c == path[idx]
  {
    assert path[..idx + 1][..idx] == path[..idx];
    assert (p + [c])[..|p|] == p && |p| == idx;
    assert path[..idx + 1][idx] == path[idx];
  }

  function UpperAt(c: Column): (b: Byte) { if c.Insert? then GAP else c.a }
  function LowerAt(c: Column): (b: Byte) { if c.Delete? then GAP else c.b }

  lemma {:induction false} RowsByColumn(path: seq<Column>, row1: seq<Byte>, row2: seq<Byte>)
    requires |row1| == |row2| == |path|
    requires forall k :: 0 <= k < |path| ==> row1[k] == UpperAt(path[k]) && row2[k] == LowerAt(path[k])
    ensures row1 == Upper(path) && row2 == Lower(path)
  {
    forall k | 0 <= k < |path|
      ensures row1[k] == Upper(path)[k] && row2[k] == Lower(path)[k]
    {
      RowsAt(path, k);
    }
  }

  method Compute(s: seq<Byte>, t: seq<Byte>) returns (longest: nat, row1: array<Byte>, row2: array<Byte>)
    ensures longest == |Path(s, t, |s|, |t|)|
    ensures row1.Length == row2.Length == longest + 1
    ensures row1[..longest] == Upper(Path(s, t, |s|, |t|)) && row1[longest] == NUL
    ensures row2[..longest] == Lower(Path(s, t, |s|, |t|)) && row2[longest] == NUL
  {
    var table := new Table(s, t);
    table.Fill();
    longest := table.TraceLength();
    row1, row2 := table.WriteRows(longest);
  }

  /** What the two rows are: the rows of an optimal alignment of the inputs, of equal length between that of the longer
      input and that of both together, whose columns are an edit script from the first input to the second. */
  lemma {:induction false} RowsMeaning(s: seq<Byte>, t: seq<Byte>)
    ensures var path := Path(s, t, |s|, |t|);
            && (forall cols :: Aligns(cols, s, t) ==> Score(cols) <= Score(path))
            && |s| <= |path| && |t| <= |path| <= |s| + |t|
            && Edit(path, s) == Some(t)
            && (WithoutGaps(Upper(path)) == s <==> GAP !in s)
            && (WithoutGaps(Lower(path)) == t <==> GAP !in t)
            && (GAP !in s && GAP !in t ==>
                  forall i :: 0 <= i < |path| ==> !(Upper(path)[i] == GAP && Lower(path)[i] == GAP))
  {
    var path := Path(s, t, |s|, |t|);
    LastCellIsOptimal(s, t);
    AlignmentLength(path);
    EditIsAlignment(path, s, t);
    RowsRestoreInputs(path, s, t);
    if GAP !in s && GAP !in t {
      forall i | 0 <= i < |path|
        ensures !(Upper(path)[i] == GAP && Lower(path)[i] == GAP)
      {
        NoDoubleGap(path, i);
      }
    }
  }
}
