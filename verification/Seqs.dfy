/** Facts about concatenation, kept apart so that each proof names the ones it needs. */
module Seqs {

  lemma Assoc<T>(a: seq<T>, b: seq<T>, c: seq<T>)
    ensures a + b + c == a + (b + c)
  {
  }

  lemma Assoc4<T>(a: seq<T>, b: seq<T>, c: seq<T>, d: seq<T>)
    ensures a + (b + c) + d == a + (b + (c + d))
  {
  }

  lemma Assoc5<T>(a: seq<T>, b: seq<T>, c: seq<T>, d: seq<T>, e: seq<T>)
    ensures a + (b + (c + d)) + e == a + (b + (c + (d + e)))
  {
  }

  lemma Assoc6<T>(a: seq<T>, b: seq<T>, c: seq<T>, d: seq<T>, e: seq<T>, f: seq<T>)
    ensures a + (b + (c + (d + e))) + f == a + (b + (c + (d + (e + f))))
  {
  }

  lemma Assoc7<T>(a: seq<T>, b: seq<T>, c: seq<T>, d: seq<T>, e: seq<T>, f: seq<T>, g: seq<T>)
    ensures a + (b + (c + (d + (e + f)))) + g == a + (b + (c + (d + (e + (f + g)))))
  {
  }

  lemma Bracketed<T>(open: T, inner: seq<T>, close: T, rest: seq<T>)
    ensures [open] + inner + [close] + rest == [open] + (inner + ([close] + rest))
  {
  }

  lemma Empty<T>(a: seq<T>)
    ensures a + [] == a && [] + a == a
  {
  }

  lemma Cons<T>(x: T, s: seq<T>)
    ensures ([x] + s)[0] == x && ([x] + s)[1..] == s
  {
  }

  lemma Cons2<T>(x: T, y: T, s: seq<T>)
    ensures ([x, y] + s)[0] == x && ([x, y] + s)[1] == y && ([x, y] + s)[2..] == s
    ensures [x] + ([y] + s) == [x, y] + s
  {
  }

  lemma Uncons<T>(s: seq<T>)
    requires s != []
    ensures s == [s[0]] + s[1..]
  {
  }

  lemma Uncons2<T>(s: seq<T>)
    requires |s| >= 2
    ensures s == [s[0], s[1]] + s[2..]
  {
  }

  lemma MoveFirst<T>(a: seq<T>, s: seq<T>)
    requires s != []
    ensures a + [s[0]] + s[1..] == a + s
  {
  }

  lemma SplitAt<T>(t: seq<T>, i: nat, e: seq<T>, r: seq<T>)
    requires i <= |t| && t[i..] == e + r
    ensures i + |e| <= |t| && t[i..i + |e|] == e && t[i + |e|..] == r
  {
    assert t[i..i + |e|] == t[i..][..|e|];
    assert t[i + |e|..] == t[i..][|e|..];
  }

  lemma DropAppend<T>(a: seq<T>, b: seq<T>)
    ensures (a + b)[|a|..] == b && (a + b)[..|a|] == a
  {
  }

  lemma DropDrop<T>(s: seq<T>, i: nat, j: nat)
    requires i + j <= |s|
    ensures s[i..][j..] == s[i + j..]
  {
  }
}
