/** Alignments of two byte strings, their scores, and the best score, independent of how it is computed. */
module Alignment {
  import opened Bytes
  import S = Seqs

  const GAP: Byte := 0x2D   // '-'

  /** A column of an alignment: a byte over a byte, a gap over a byte, or a byte over a gap. No column holds two
      gaps. */
  datatype Column = Pair(a: Byte, b: Byte) | Insert(b: Byte) | Delete(a: Byte)

  /** The score the source uses: the conditional at the diagonal yields the comparison itself, so a mismatch costs 0. */
  function ColumnScore(c: Column): (n: int)
  {
    match c
    case Pair(a, b) => if a == b then 1 else 0
    case Insert(_) => -1
    case Delete(_) => -1
  }

  function Score(cols: seq<Column>): (n: int)
  {
    if cols == [] then 0 else ColumnScore(cols[0]) + Score(cols[1..])
  }

  function Above(c: Column): (s: seq<Byte>) { if c.Insert? then [] else [c.a] }
  function Below(c: Column): (s: seq<Byte>) { if c.Delete? then [] else [c.b] }

  /** The upper row without its gaps. */
  function Source(cols: seq<Column>): (s: seq<Byte>)
  {
    if cols == [] then [] else Above(cols[0]) + Source(cols[1..])
  }

  /** The lower row without its gaps. */
  function Target(cols: seq<Column>): (s: seq<Byte>)
  {
    if cols == [] then [] else Below(cols[0]) + Target(cols[1..])
  }

  predicate Aligns(cols: seq<Column>, s: seq<Byte>, t: seq<Byte>)
  {
    Source(cols) == s && Target(cols) == t
  }

  lemma {:induction false} Snoc(cols: seq<Column>, c: Column)
    ensures Score(cols + [c]) == Score(cols) + ColumnScore(c)
    ensures Source(cols + [c]) == Source(cols) + Above(c)
    ensures Target(cols + [c]) == Target(cols) + Below(c)
  {
    if cols == [] {
      S.Empty([c]);
      S.Empty(Above(c));
      S.Empty(Below(c));
      assert Source([c][1..]) == [] && Target([c][1..]) == [] && Score([c][1..]) == 0;
    } else {
      S.Uncons(cols);
      S.Assoc([cols[0]], cols[1..], [c]);
      S.Cons(cols[0], cols[1..] + [c]);
      Snoc(cols[1..], c);
      S.Assoc(Above(cols[0]), Source(cols[1..]), Above(c));
      S.Assoc(Below(cols[0]), Target(cols[1..]), Below(c));
    }
  }

  lemma {:induction false} Unsnoc(cols: seq<Column>)
    requires cols != []
    ensures var p, c := cols[..|cols| - 1], cols[|cols| - 1];
            && Score(cols) == Score(p) + ColumnScore(c)
            && Source(cols) == Source(p) + Above(c) && Target(cols) == Target(p) + Below(c)
  {
    var p, c := cols[..|cols| - 1], cols[|cols| - 1];
    assert cols == p + [c];
    Snoc(p, c);
  }

  // ----- the best score of two prefixes

  function Max3(a: int, b: int, c: int): (m: int)
    ensures m >= a && m >= b && m >= c && (m == a || m == b || m == c)
  {
    if a >= b && a >= c then a else if b >= c then b else c
  }

  function Match(s: seq<Byte>, t: seq<Byte>, y: nat, x: nat): (n: int)
    requires 0 < y <= |s| && 0 < x <= |t|
  {
    if s[y - 1] == t[x - 1] then 1 else 0
  }

  /** The recurrence that the table is filled by. */
  function Best(s: seq<Byte>, t: seq<Byte>, y: nat, x: nat): (n: int)
    requires y <= |s| && x <= |t|
    decreases y + x
  {
    if y == 0 then 0 - x
    else if x == 0 then 0 - y
    else Max3(Best(s, t, y - 1, x - 1) + Match(s, t, y, x), Best(s, t, y, x - 1) - 1, Best(s, t, y - 1, x) - 1)
  }

  lemma PrefixUnsnoc(s: seq<Byte>, y: nat, p: seq<Byte>, a: Byte)
    requires y <= |s| && p + [a] == s[..y]
    ensures y > 0 && p == s[..y - 1] && a == s[y - 1]
  {
    assert |s[..y]| == |p| + 1;
    assert s[..y][..y - 1] == s[..y - 1];
    S.DropAppend(p, [a]);
    assert s[..y][y - 1] == s[y - 1];
  }

  /** A cell is worth at least what each of its neighbours gives it. */
  lemma {:induction false} BestAtLeast(s: seq<Byte>, t: seq<Byte>, y: nat, x: nat)
    requires y <= |s| && x <= |t|
    ensures y > 0 && x > 0 ==> Best(s, t, y, x) >= Best(s, t, y - 1, x - 1) + Match(s, t, y, x)
    ensures x > 0 ==> Best(s, t, y, x) >= Best(s, t, y, x - 1) - 1
    ensures y > 0 ==> Best(s, t, y, x) >= Best(s, t, y - 1, x) - 1
  {
  }

  /** The two prefixes without what the last column holds of them. */
  lemma {:induction false} WithoutLast(s: seq<Byte>, t: seq<Byte>, y: nat, x: nat, cols: seq<Column>)
    requires y <= |s| && x <= |t| && cols != [] && Aligns(cols, s[..y], t[..x])
    ensures var p, c := cols[..|cols| - 1], cols[|cols| - 1];
            && Score(cols) == Score(p) + ColumnScore(c)
            && (!c.Insert? ==> y > 0 && c.a == s[y - 1]) && (!c.Delete? ==> x > 0 && c.b == t[x - 1])
            && Aligns(p, s[..if c.Insert? then y else y - 1], t[..if c.Delete? then x else x - 1])
  {
    var p, c := cols[..|cols| - 1], cols[|cols| - 1];
    Unsnoc(cols);
    S.Empty(Source(p));
    S.Empty(Target(p));
    if !c.Insert? {
      PrefixUnsnoc(s, y, Source(p), c.a);
    }
    if !c.Delete? {
      PrefixUnsnoc(t, x, Target(p), c.b);
    }
  }

  /** No alignment of the two prefixes scores more. */
  lemma {:induction false} BestIsUpperBound(s: seq<Byte>, t: seq<Byte>, y: nat, x: nat, cols: seq<Column>)
    requires y <= |s| && x <= |t| && Aligns(cols, s[..y], t[..x])
    ensures Score(cols) <= Best(s, t, y, x)
    decreases |cols|
  {
    if cols == [] {
      assert y == 0 && x == 0;
    } else {
      var p, c := cols[..|cols| - 1], cols[|cols| - 1];
      WithoutLast(s, t, y, x, cols);
      BestAtLeast(s, t, y, x);
      BestIsUpperBound(s, t, if c.Insert? then y else y - 1, if c.Delete? then x else x - 1, p);
    }
  }

  // ----- the alignment that the traceback reads off

  datatype Direction = Stop | Diagonal | Left | Up

  function Choice(s: seq<Byte>, t: seq<Byte>, y: nat, x: nat): (d: Direction)
    requires y <= |s| && x <= |t|
  {
    if y == 0 then (if x == 0 then Stop else Left)
    else if x == 0 then Up
    else if Best(s, t, y, x) == Best(s, t, y - 1, x - 1) + Match(s, t, y, x) then Diagonal
    else if Best(s, t, y, x) == Best(s, t, y, x - 1) - 1 then Left
    else Up
  }

  function Path(s: seq<Byte>, t: seq<Byte>, y: nat, x: nat): (cols: seq<Column>)
    requires y <= |s| && x <= |t|
    decreases y + x
  {
    match Choice(s, t, y, x)
    case Stop => []
    case Diagonal => Path(s, t, y - 1, x - 1) + [Pair(s[y - 1], t[x - 1])]
    case Left => Path(s, t, y, x - 1) + [Insert(t[x - 1])]
    case Up => Path(s, t, y - 1, x) + [Delete(s[y - 1])]
  }

  lemma PrefixSnoc(s: seq<Byte>, y: nat)
    requires 0 < y <= |s|
    ensures s[..y - 1] + [s[y - 1]] == s[..y]
  {
  }

  /** What the direction of a cell says about its value. */
  lemma {:induction false} ChoiceExplains(s: seq<Byte>, t: seq<Byte>, y: nat, x: nat)
    requires y <= |s| && x <= |t|
    ensures match Choice(s, t, y, x)
            case Stop => y == 0 && x == 0 && Best(s, t, y, x) == 0
            case Diagonal => y > 0 && x > 0 && Best(s, t, y, x) == Best(s, t, y - 1, x - 1) + Match(s, t, y, x)
            case Left => x > 0 && Best(s, t, y, x) == Best(s, t, y, x - 1) - 1
            case Up => y > 0 && Best(s, t, y, x) == Best(s, t, y - 1, x) - 1
  {
  }

  /** The path from a cell is an alignment of the two prefixes that attains the value of the cell. */
  ghost predicate Traced(s: seq<Byte>, t: seq<Byte>, y: nat, x: nat)
    requires y <= |s| && x <= |t|
  {
    Aligns(Path(s, t, y, x), s[..y], t[..x]) && Score(Path(s, t, y, x)) == Best(s, t, y, x)
  }

  lemma {:induction false} DiagonalIsTraced(s: seq<Byte>, t: seq<Byte>, y: nat, x: nat)
    requires 0 < y <= |s| && 0 < x <= |t| && Choice(s, t, y, x) == Diagonal && Traced(s, t, y - 1, x - 1)
    ensures Traced(s, t, y, x)
  {
    ChoiceExplains(s, t, y, x);
    Snoc(Path(s, t, y - 1, x - 1), Pair(s[y - 1], t[x - 1]));
    PrefixSnoc(s, y);
    PrefixSnoc(t, x);
  }

  lemma {:induction false} LeftIsTraced(s: seq<Byte>, t: seq<Byte>, y: nat, x: nat)
    requires y <= |s| && 0 < x <= |t| && Choice(s, t, y, x) == Left && Traced(s, t, y, x - 1)
    ensures Traced(s, t, y, x)
  {
    ChoiceExplains(s, t, y, x);
    Snoc(Path(s, t, y, x - 1), Insert(t[x - 1]));
    PrefixSnoc(t, x);
    S.Empty(s[..y]);
  }

  lemma {:induction false} UpIsTraced(s: seq<Byte>, t: seq<Byte>, y: nat, x: nat)
    requires 0 < y <= |s| && x <= |t| && Choice(s, t, y, x) == Up && Traced(s, t, y - 1, x)
    ensures Traced(s, t, y, x)
  {
    ChoiceExplains(s, t, y, x);
    Snoc(Path(s, t, y - 1, x), Delete(s[y - 1]));
    PrefixSnoc(s, y);
    S.Empty(t[..x]);
  }

  lemma {:induction false} PathIsTraced(s: seq<Byte>, t: seq<Byte>, y: nat, x: nat)
    requires y <= |s| && x <= |t|
    ensures Traced(s, t, y, x)
    decreases y + x
  {
    var d := Choice(s, t, y, x);
    if d == Diagonal {
      PathIsTraced(s, t, y - 1, x - 1);
      DiagonalIsTraced(s, t, y, x);
    } else if d == Left {
      PathIsTraced(s, t, y, x - 1);
      LeftIsTraced(s, t, y, x);
    } else if d == Up {
      PathIsTraced(s, t, y - 1, x);
      UpIsTraced(s, t, y, x);
    }
  }

  /** The traced columns are an alignment of the two prefixes. */
  lemma {:induction false} PathAligns(s: seq<Byte>, t: seq<Byte>, y: nat, x: nat)
    requires y <= |s| && x <= |t|
    ensures Aligns(Path(s, t, y, x), s[..y], t[..x])
  {
    PathIsTraced(s, t, y, x);
  }

  /** The traceback attains the value of the cell it starts from. */
  lemma {:induction false} PathAttainsBest(s: seq<Byte>, t: seq<Byte>, y: nat, x: nat)
    requires y <= |s| && x <= |t|
    ensures Score(Path(s, t, y, x)) == Best(s, t, y, x)
  {
    PathIsTraced(s, t, y, x);
  }

  /** The last cell holds the maximum score over all alignments of the two strings, and the traceback attains it. */
  lemma {:induction false} LastCellIsOptimal(s: seq<Byte>, t: seq<Byte>)
    ensures var path := Path(s, t, |s|, |t|);
            && Aligns(path, s, t) && Score(path) == Best(s, t, |s|, |t|)
            && forall cols :: Aligns(cols, s, t) ==> Score(cols) <= Best(s, t, |s|, |t|)
  {
    assert s[..|s|] == s && t[..|t|] == t;
    PathAligns(s, t, |s|, |t|);
    PathAttainsBest(s, t, |s|, |t|);
    forall cols | Aligns(cols, s, t)
      ensures Score(cols) <= Best(s, t, |s|, |t|)
    {
      BestIsUpperBound(s, t, |s|, |t|, cols);
    }
  }

  // ----- which of the optimal alignments it is

  ghost predicate IsOptimal(cols: seq<Column>, s: seq<Byte>, t: seq<Byte>)
  {
    Aligns(cols, s, t) && forall others :: Aligns(others, s, t) ==> Score(others) <= Score(cols)
  }

  predicate EndsWithPair(cols: seq<Column>) { cols != [] && cols[|cols| - 1].Pair? }
  predicate EndsWithInsert(cols: seq<Column>) { cols != [] && cols[|cols| - 1].Insert? }
  predicate EndsWithDelete(cols: seq<Column>) { cols != [] && cols[|cols| - 1].Delete? }

  ghost predicate SomeOptimalEndsWithPair(s: seq<Byte>, t: seq<Byte>)
  {
    exists cols :: IsOptimal(cols, s, t) && EndsWithPair(cols)
  }

  ghost predicate SomeOptimalEndsWithInsert(s: seq<Byte>, t: seq<Byte>)
  {
    exists cols :: IsOptimal(cols, s, t) && EndsWithInsert(cols)
  }

  lemma {:induction false} OptimalScoresBest(cols: seq<Column>, s: seq<Byte>, t: seq<Byte>, y: nat, x: nat)
    requires y <= |s| && x <= |t|
    ensures IsOptimal(cols, s[..y], t[..x]) <==> Aligns(cols, s[..y], t[..x]) && Score(cols) == Best(s, t, y, x)
  {
    PathIsTraced(s, t, y, x);
    forall others | Aligns(others, s[..y], t[..x])
      ensures Score(others) <= Best(s, t, y, x)
    {
      BestIsUpperBound(s, t, y, x, others);
    }
  }

  /** An optimal alignment without its last column is worth what the neighbouring cell is. */
  lemma {:induction false} OptimalLast(cols: seq<Column>, s: seq<Byte>, t: seq<Byte>, y: nat, x: nat)
    requires y <= |s| && x <= |t| && IsOptimal(cols, s[..y], t[..x]) && cols != []
    ensures EndsWithPair(cols) ==> y > 0 && x > 0 && Best(s, t, y, x) == Best(s, t, y - 1, x - 1) + Match(s, t, y, x)
    ensures EndsWithInsert(cols) ==> x > 0 && Best(s, t, y, x) == Best(s, t, y, x - 1) - 1
    ensures EndsWithDelete(cols) ==> y > 0 && Best(s, t, y, x) == Best(s, t, y - 1, x) - 1
  {
    var p, c := cols[..|cols| - 1], cols[|cols| - 1];
    OptimalScoresBest(cols, s, t, y, x);
    WithoutLast(s, t, y, x, cols);
    BestAtLeast(s, t, y, x);
    BestIsUpperBound(s, t, if c.Insert? then y else y - 1, if c.Delete? then x else x - 1, p);
  }

  /** The traced alignment of the neighbouring prefixes and one more column. */
  lemma {:induction false} PairExtends(s: seq<Byte>, t: seq<Byte>, y: nat, x: nat)
    requires 0 < y <= |s| && 0 < x <= |t|
    ensures var cols := Path(s, t, y - 1, x - 1) + [Pair(s[y - 1], t[x - 1])];
            Aligns(cols, s[..y], t[..x]) && Score(cols) == Best(s, t, y - 1, x - 1) + Match(s, t, y, x)
  {
    PathIsTraced(s, t, y - 1, x - 1);
    Snoc(Path(s, t, y - 1, x - 1), Pair(s[y - 1], t[x - 1]));
    PrefixSnoc(s, y);
    PrefixSnoc(t, x);
  }

  lemma {:induction false} OneMorePair(s: seq<Byte>, t: seq<Byte>, y: nat, x: nat)
    requires 0 < y <= |s| && 0 < x <= |t| && Best(s, t, y, x) == Best(s, t, y - 1, x - 1) + Match(s, t, y, x)
    ensures SomeOptimalEndsWithPair(s[..y], t[..x])
  {
    var cols := Path(s, t, y - 1, x - 1) + [Pair(s[y - 1], t[x - 1])];
    PairExtends(s, t, y, x);
    OptimalScoresBest(cols, s, t, y, x);
    assert EndsWithPair(cols);
  }

  lemma {:induction false} InsertExtends(s: seq<Byte>, t: seq<Byte>, y: nat, x: nat)
    requires y <= |s| && 0 < x <= |t|
    ensures var cols := Path(s, t, y, x - 1) + [Insert(t[x - 1])];
            Aligns(cols, s[..y], t[..x]) && Score(cols) == Best(s, t, y, x - 1) - 1
  {
    PathIsTraced(s, t, y, x - 1);
    Snoc(Path(s, t, y, x - 1), Insert(t[x - 1]));
    S.Empty(s[..y]);
    PrefixSnoc(t, x);
  }

  lemma {:induction false} OneMoreInsert(s: seq<Byte>, t: seq<Byte>, y: nat, x: nat)
    requires y <= |s| && 0 < x <= |t| && Best(s, t, y, x) == Best(s, t, y, x - 1) - 1
    ensures SomeOptimalEndsWithInsert(s[..y], t[..x])
  {
    var cols := Path(s, t, y, x - 1) + [Insert(t[x - 1])];
    InsertExtends(s, t, y, x);
    OptimalScoresBest(cols, s, t, y, x);
    assert EndsWithInsert(cols);
  }

  lemma {:induction false} PairIsPossible(s: seq<Byte>, t: seq<Byte>, y: nat, x: nat)
    requires y <= |s| && x <= |t|
    ensures SomeOptimalEndsWithPair(s[..y], t[..x]) <==>
            y > 0 && x > 0 && Best(s, t, y, x) == Best(s, t, y - 1, x - 1) + Match(s, t, y, x)
  {
    if SomeOptimalEndsWithPair(s[..y], t[..x]) {
      var cols :| IsOptimal(cols, s[..y], t[..x]) && EndsWithPair(cols);
      OptimalLast(cols, s, t, y, x);
    }
    if y > 0 && x > 0 && Best(s, t, y, x) == Best(s, t, y - 1, x - 1) + Match(s, t, y, x) {
      OneMorePair(s, t, y, x);
    }
  }

  lemma {:induction false} InsertIsPossible(s: seq<Byte>, t: seq<Byte>, y: nat, x: nat)
    requires y <= |s| && x <= |t|
    ensures SomeOptimalEndsWithInsert(s[..y], t[..x]) <==> x > 0 && Best(s, t, y, x) == Best(s, t, y, x - 1) - 1
  {
    if SomeOptimalEndsWithInsert(s[..y], t[..x]) {
      var cols :| IsOptimal(cols, s[..y], t[..x]) && EndsWithInsert(cols);
      OptimalLast(cols, s, t, y, x);
    }
    if x > 0 && Best(s, t, y, x) == Best(s, t, y, x - 1) - 1 {
      OneMoreInsert(s, t, y, x);
    }
  }

  /** At every cell the traced alignment ends with a pair if any optimal one does, else with a gap in the upper row if
      any optimal one does, and only else with a gap in the lower row. */
  lemma {:induction false} PathPrefersPairs(s: seq<Byte>, t: seq<Byte>, y: nat, x: nat)
    requires y <= |s| && x <= |t|
    ensures var path, u, w := Path(s, t, y, x), s[..y], t[..x];
            && (path == [] <==> y == 0 && x == 0)
            && (EndsWithPair(path) <==> SomeOptimalEndsWithPair(u, w))
            && (EndsWithInsert(path) <==> !SomeOptimalEndsWithPair(u, w) && SomeOptimalEndsWithInsert(u, w))
  {
    PairIsPossible(s, t, y, x);
    InsertIsPossible(s, t, y, x);
  }

  /** All alignments that prefer columns in this order at each of their ends. */
  ghost predicate Prefers(cols: seq<Column>)
  {
    cols == [] ||
    var u, w := Source(cols), Target(cols);
    && IsOptimal(cols, u, w) && Prefers(cols[..|cols| - 1])
    && (EndsWithPair(cols) <==> SomeOptimalEndsWithPair(u, w))
    && (EndsWithInsert(cols) <==> !SomeOptimalEndsWithPair(u, w) && SomeOptimalEndsWithInsert(u, w))
  }

  /** A path and its last column. */
  lemma {:induction false} PathSplits(s: seq<Byte>, t: seq<Byte>, y: nat, x: nat)
    requires y <= |s| && x <= |t|
    ensures var path := Path(s, t, y, x);
            && (EndsWithPair(path) ==> y > 0 && x > 0 && path == Path(s, t, y - 1, x - 1) + [Pair(s[y - 1], t[x - 1])])
            && (EndsWithInsert(path) ==> x > 0 && path == Path(s, t, y, x - 1) + [Insert(t[x - 1])])
            && (EndsWithDelete(path) ==> y > 0 && path == Path(s, t, y - 1, x) + [Delete(s[y - 1])])
  {
  }

  lemma {:induction false} SameEnd(s: seq<Byte>, t: seq<Byte>, y: nat, x: nat, cols: seq<Column>)
    requires y <= |s| && x <= |t| && Aligns(cols, s[..y], t[..x]) && Prefers(cols)
    ensures var path := Path(s, t, y, x);
            && (cols == [] <==> path == [])
            && (EndsWithPair(cols) <==> EndsWithPair(path)) && (EndsWithInsert(cols) <==> EndsWithInsert(path))
  {
    PathPrefersPairs(s, t, y, x);
    AlignmentLength(cols);
  }

  /** What is left of the prefix lengths without the last column. */
  function Before(cols: seq<Column>, y: nat, x: nat): (r: (int, int))
    requires cols != []
  {
    (if cols[|cols| - 1].Insert? then y else y - 1, if cols[|cols| - 1].Delete? then x else x - 1)
  }

  lemma {:induction false} LastAgrees(s: seq<Byte>, t: seq<Byte>, y: nat, x: nat, cols: seq<Column>)
    requires y <= |s| && x <= |t| && Aligns(cols, s[..y], t[..x]) && Prefers(cols) && cols != []
    ensures var (y', x') := Before(cols, y, x);
            && 0 <= y' <= |s| && 0 <= x' <= |t| && Aligns(cols[..|cols| - 1], s[..y'], t[..x'])
            && Path(s, t, y, x) == Path(s, t, y', x') + [cols[|cols| - 1]]
  {
    SameEnd(s, t, y, x, cols);
    WithoutLast(s, t, y, x, cols);
    PathSplits(s, t, y, x);
  }

  /** There is one such alignment of two strings, and it is the traced one. */
  lemma {:induction false} PathIsTheOne(s: seq<Byte>, t: seq<Byte>, y: nat, x: nat, cols: seq<Column>)
    requires y <= |s| && x <= |t| && Aligns(cols, s[..y], t[..x]) && Prefers(cols)
    ensures cols == Path(s, t, y, x)
    decreases |cols|
  {
    if cols == [] {
      SameEnd(s, t, y, x, cols);
    } else {
      var (y', x') := Before(cols, y, x);
      LastAgrees(s, t, y, x, cols);
      PathIsTheOne(s, t, y', x', cols[..|cols| - 1]);
    }
  }

  // ----- symmetry and bounds

  lemma {:induction false} BestIsSymmetric(s: seq<Byte>, t: seq<Byte>, y: nat, x: nat)
    requires y <= |s| && x <= |t|
    ensures Best(s, t, y, x) == Best(t, s, x, y)
    decreases y + x
  {
    if y > 0 && x > 0 {
      BestIsSymmetric(s, t, y - 1, x - 1);
      BestIsSymmetric(s, t, y, x - 1);
      BestIsSymmetric(s, t, y - 1, x);
    }
  }

  function Abs(n: int): (m: nat) { if n < 0 then -n else n }
  function Min(a: nat, b: nat): (m: nat) { if a < b then a else b }

  lemma {:induction false} BestIsBounded(s: seq<Byte>, t: seq<Byte>, y: nat, x: nat)
    requires y <= |s| && x <= |t|
    ensures 0 - Abs(y - x) <= Best(s, t, y, x) <= Min(y, x) - Abs(y - x)
    decreases y + x
  {
    if y > 0 && x > 0 {
      BestIsBounded(s, t, y - 1, x - 1);
      BestIsBounded(s, t, y, x - 1);
      BestIsBounded(s, t, y - 1, x);
    }
  }

  lemma {:induction false} BestOfItself(s: seq<Byte>, y: nat)
    requires y <= |s|
    ensures Best(s, s, y, y) == y
  {
    BestIsBounded(s, s, y, y);
    if y > 0 {
      BestOfItself(s, y - 1);
    }
  }

  // ----- the two rows

  function Upper(cols: seq<Column>): (row: seq<Byte>)
    ensures |row| == |cols|
  {
    if cols == [] then [] else [if cols[0].Insert? then GAP else cols[0].a] + Upper(cols[1..])
  }

  function Lower(cols: seq<Column>): (row: seq<Byte>)
    ensures |row| == |cols|
  {
    if cols == [] then [] else [if cols[0].Delete? then GAP else cols[0].b] + Lower(cols[1..])
  }

  lemma {:induction false} RowsAt(cols: seq<Column>, i: nat)
    requires i < |cols|
    ensures Upper(cols)[i] == if cols[i].Insert? then 0x2D else cols[i].a
    ensures Lower(cols)[i] == if cols[i].Delete? then 0x2D else cols[i].b
  {
    if i > 0 {
      RowsAt(cols[1..], i - 1);
    }
  }

  /** The rows are as long as the alignment, which is at least as long as each string and at most as long as both. */
  lemma {:induction false} AlignmentLength(cols: seq<Column>)
    ensures |Source(cols)| <= |cols| && |Target(cols)| <= |cols| <= |Source(cols)| + |Target(cols)|
  {
    if cols != [] {
      AlignmentLength(cols[1..]);
    }
  }

  function WithoutGaps(row: seq<Byte>): (s: seq<Byte>)
  {
    if row == [] then [] else (if row[0] == GAP then [] else [row[0]]) + WithoutGaps(row[1..])
  }

  lemma {:induction false} WithoutGapsOfRows(cols: seq<Column>)
    ensures WithoutGaps(Upper(cols)) == WithoutGaps(Source(cols))
    ensures WithoutGaps(Lower(cols)) == WithoutGaps(Target(cols))
  {
    if cols != [] {
      WithoutGapsOfRows(cols[1..]);
      S.Cons(Upper(cols)[0], Upper(cols[1..]));
      S.Cons(Lower(cols)[0], Lower(cols[1..]));
      if !cols[0].Insert? {
        S.Cons(cols[0].a, Source(cols[1..]));
      } else {
        S.Empty(Source(cols[1..]));
      }
      if !cols[0].Delete? {
        S.Cons(cols[0].b, Target(cols[1..]));
      } else {
        S.Empty(Target(cols[1..]));
      }
    }
  }

  lemma {:induction false} WithoutGapsIsIdentity(s: seq<Byte>)
    ensures |WithoutGaps(s)| <= |s|
    ensures WithoutGaps(s) == s <==> GAP !in s
  {
    if s != [] {
      WithoutGapsIsIdentity(s[1..]);
      S.Uncons(s);
      if s[0] == GAP {
        assert |WithoutGaps(s)| < |s|;
      }
    }
  }

  /** Deleting the gap characters from a row gives the input back exactly when the input holds no gap character
      itself. */
  lemma {:induction false} RowsRestoreInputs(cols: seq<Column>, s: seq<Byte>, t: seq<Byte>)
    requires Aligns(cols, s, t)
    ensures WithoutGaps(Upper(cols)) == s <==> GAP !in s
    ensures WithoutGaps(Lower(cols)) == t <==> GAP !in t
  {
    WithoutGapsOfRows(cols);
    WithoutGapsIsIdentity(s);
    WithoutGapsIsIdentity(t);
  }

  /** A column shows two gaps exactly when its own bytes are gap characters of the inputs. */
  lemma {:induction false} DoubleGapIsInput(cols: seq<Column>, i: nat)
    requires i < |cols|
    ensures Upper(cols)[i] == GAP && Lower(cols)[i] == GAP <==>
            cols[i] == Pair(GAP, GAP) || cols[i] == Insert(GAP) || cols[i] == Delete(GAP)
  {
    RowsAt(cols, i);
  }

  lemma {:induction false} ColumnsHoldInputs(cols: seq<Column>, i: nat)
    requires i < |cols|
    ensures !cols[i].Insert? ==> cols[i].a in Source(cols)
    ensures !cols[i].Delete? ==> cols[i].b in Target(cols)
  {
    if i > 0 {
      ColumnsHoldInputs(cols[1..], i - 1);
    }
  }

  /** So if neither input holds the gap character, no column shows two gaps. */
  lemma {:induction false} NoDoubleGap(cols: seq<Column>, i: nat)
    requires GAP !in Source(cols) && GAP !in Target(cols) && i < |cols|
    ensures !(Upper(cols)[i] == GAP && Lower(cols)[i] == GAP)
  {
    DoubleGapIsInput(cols, i);
    ColumnsHoldInputs(cols, i);
  }

  // ----- columns as an edit script

  /** Run the columns over `s`: check what is kept or deleted, write what is inserted or replaced. */
  function Edit(cols: seq<Column>, s: seq<Byte>): (r: Option<seq<Byte>>)
  {
    if cols == [] then (if s == [] then Some([]) else None)
    else
      var c := cols[0];
      if !(Above(c) <= s) then None
      else
        var rest := Edit(cols[1..], s[|Above(c)|..]);
        if rest.None? then None else Some(Below(c) + rest.value)
  }

  /** The script turns `s` into `t` exactly when the columns align them. */
  lemma {:induction false} EditIsAlignment(cols: seq<Column>, s: seq<Byte>, t: seq<Byte>)
    ensures Edit(cols, s) == Some(t) <==> Aligns(cols, s, t)
  {
    if cols != [] {
      var c := cols[0];
      var rest := s[if Above(c) <= s then |Above(c)| else 0..];
      if Above(c) <= s {
        EditIsAlignment(cols[1..], rest, Target(cols[1..]));
        assert s == Above(c) + rest;
        if Edit(cols[1..], rest).Some? {
          EditIsAlignment(cols[1..], rest, Edit(cols[1..], rest).value);
        }
        S.DropAppend(Above(c), Source(cols[1..]));
      } else {
        S.DropAppend(Above(c), Source(cols[1..]));
        assert Above(c) <= Source(cols);
      }
    }
  }

  // ----- a string aligned with itself

  function Pairs(cols: seq<Column>): (n: nat)
  {
    if cols == [] then 0 else (if cols[0].Pair? then 1 else 0) + Pairs(cols[1..])
  }

  lemma {:induction false} ScoreByPairs(cols: seq<Column>)
    ensures Score(cols) <= 3 * Pairs(cols) - |Source(cols)| - |Target(cols)|
    ensures Pairs(cols) <= |Source(cols)| && Pairs(cols) <= |Target(cols)|
    ensures |cols| == |Source(cols)| + |Target(cols)| - Pairs(cols)
  {
    if cols != [] {
      ScoreByPairs(cols[1..]);
    }
  }

  lemma {:induction false} AllPairs(cols: seq<Column>)
    requires Pairs(cols) == |cols|
    ensures Upper(cols) == Source(cols) && Lower(cols) == Target(cols)
  {
    if cols != [] {
      ScoreByPairs(cols[1..]);
      PairsBound(cols[1..]);
      AllPairs(cols[1..]);
    }
  }

  lemma {:induction false} PairsBound(cols: seq<Column>)
    ensures Pairs(cols) <= |cols|
  {
    if cols != [] {
      PairsBound(cols[1..]);
    }
  }

  /** Aligning a string with itself reaches the upper bound, so both rows are the string, without a gap. */
  lemma {:induction false} SelfAlignment(s: seq<Byte>)
    ensures var path := Path(s, s, |s|, |s|);
            Score(path) == |s| && Upper(path) == s && Lower(path) == s
  {
    var path := Path(s, s, |s|, |s|);
    LastCellIsOptimal(s, s);
    BestOfItself(s, |s|);
    ScoreByPairs(path);
    AllPairs(path);
  }
}
