/** JSON values as the library stores them: an object is a `std::map` from strings to values, kept here as the list of
    its members in key order, which is the order in which `dump` visits them. */
module JsonValue {
  import opened Bytes
  import S = Seqs

  datatype Value =
    | Null
    | Bool(b: bool)
    | Int(n: int)
    | Real(lexeme: seq<Byte>)   // a number that is no 64-bit integer, carried as its text
    | Str(bytes: seq<Byte>)
    | Arr(elems: seq<Value>)
    | Obj(members: seq<Member>)

  datatype Member = Member(key: seq<Byte>, value: Value)

  /** `std::less<std::string>`: byte-wise lexicographic order. */
  predicate Less(a: seq<Byte>, b: seq<Byte>)
  {
    b != [] && (a == [] || a[0] < b[0] || (a[0] == b[0] && Less(a[1..], b[1..])))
  }

  lemma {:induction false} LessIsTotal(a: seq<Byte>, b: seq<Byte>)
    ensures Less(a, b) || a == b || Less(b, a)
    ensures !(Less(a, b) && Less(b, a))
    decreases |a|
  {
    if a != [] && b != [] {
      LessIsTotal(a[1..], b[1..]);
      assert a == [a[0]] + a[1..] && b == [b[0]] + b[1..];
    }
  }

  lemma {:induction false} LessIsTransitive(a: seq<Byte>, b: seq<Byte>, c: seq<Byte>)
    requires Less(a, b) && Less(b, c)
    ensures Less(a, c)
    decreases |a|
  {
    if a != [] && a[0] == b[0] == c[0] {
      LessIsTransitive(a[1..], b[1..], c[1..]);
    }
  }

  /** The members of a `std::map`: strictly ascending keys. */
  predicate Sorted(ms: seq<Member>)
  {
    |ms| <= 1 || (Less(ms[0].key, ms[1].key) && Sorted(ms[1..]))
  }

  function Lookup(ms: seq<Member>, k: seq<Byte>): (r: Option<Value>)
  {
    if ms == [] then None else if ms[0].key == k then Some(ms[0].value) else Lookup(ms[1..], k)
  }

  /** `result[key] = value`. */
  function Put(ms: seq<Member>, k: seq<Byte>, v: Value): (r: seq<Member>)
    ensures r != [] && (r[0].key == k || (ms != [] && r[0].key == ms[0].key))
  {
    if ms == [] then [Member(k, v)]
    else if ms[0].key == k then [Member(k, v)] + ms[1..]
    else if Less(k, ms[0].key) then [Member(k, v)] + ms
    else [ms[0]] + Put(ms[1..], k, v)
  }

  /** Assignment keeps the members in order and is map update. */
  lemma {:induction false} PutUpdates(ms: seq<Member>, k: seq<Byte>, v: Value, x: seq<Byte>)
    requires Sorted(ms)
    ensures Sorted(Put(ms, k, v))
    ensures Lookup(Put(ms, k, v), x) == if x == k then Some(v) else Lookup(ms, x)
  {
    if ms != [] {
      LessIsTotal(k, ms[0].key);
      if ms[0].key == k {
        assert Put(ms, k, v)[1..] == ms[1..];
      } else if Less(k, ms[0].key) {
        assert Put(ms, k, v)[1..] == ms;
      } else {
        PutUpdates(ms[1..], k, v, x);
        assert Put(ms, k, v)[1..] == Put(ms[1..], k, v);
      }
    }
  }

  predicate Below(ms: seq<Member>, k: seq<Byte>)
  {
    ms == [] || (Less(ms[0].key, k) && Below(ms[1..], k))
  }

  /** A key above all the others goes to the end. */
  lemma {:induction false} PutAtEnd(ms: seq<Member>, k: seq<Byte>, v: Value)
    requires Below(ms, k)
    ensures Put(ms, k, v) == ms + [Member(k, v)]
  {
    if ms != [] {
      LessIsTotal(k, ms[0].key);
      PutAtEnd(ms[1..], k, v);
      assert ms == [ms[0]] + ms[1..];
    }
  }

  lemma {:induction false} BelowNext(ms: seq<Member>, m: Member, k: seq<Byte>)
    requires Below(ms, m.key) && Less(m.key, k)
    ensures Below(ms + [m], k)
  {
    if ms != [] {
      LessIsTransitive(ms[0].key, m.key, k);
      BelowNext(ms[1..], m, k);
      assert (ms + [m])[1..] == ms[1..] + [m];
    }
  }

  // ----- a value written with repeated keys, and the value it stands for

  /** Later members with the same key win. */
  function Normalize(v: Value): (r: Value)
    decreases v, 0
  {
    match v
    case Arr(es) => Arr(NormalizeElems(es))
    case Obj(ms) => Obj(Assign([], ms))
    case _ => v
  }

  function NormalizeElems(es: seq<Value>): (r: seq<Value>)
    ensures |r| == |es|
    decreases es, 1
  {
    if es == [] then [] else [Normalize(es[0])] + NormalizeElems(es[1..])
  }

  /** Assign the members of `ms` one after the other to an object that holds `acc`. */
  function Assign(acc: seq<Member>, ms: seq<Member>): (r: seq<Member>)
    decreases ms, 1
  {
    if ms == [] then acc
    else Assign(Put(acc, ms[0].key, Normalize(ms[0].value)), ms[1..])
  }

  /** A value that the library can hold: every object has its keys once and in order. */
  predicate Stored(v: Value)
    decreases v, 0
  {
    match v
    case Arr(es) => StoredElems(es)
    case Obj(ms) => Sorted(ms) && StoredMembers(ms)
    case _ => true
  }

  predicate StoredElems(es: seq<Value>)
    decreases es, 1
  {
    es == [] || (Stored(es[0]) && StoredElems(es[1..]))
  }

  predicate StoredMembers(ms: seq<Member>)
    decreases ms, 1
  {
    ms == [] || (Stored(ms[0].value) && StoredMembers(ms[1..]))
  }

  /** A stored value stands for itself. */
  lemma {:induction false} StoredIsNormal(v: Value)
    requires Stored(v)
    ensures Normalize(v) == v
    decreases v, 0
  {
    match v
    case Arr(es) => StoredElemsAreNormal(es);
    case Obj(ms) =>
      StoredMembersAreAssigned([], ms);
      assert [] + ms == ms;
    case _ =>
  }

  lemma {:induction false} StoredElemsAreNormal(es: seq<Value>)
    requires StoredElems(es)
    ensures NormalizeElems(es) == es
    decreases es, 1
  {
    if es != [] {
      StoredIsNormal(es[0]);
      StoredElemsAreNormal(es[1..]);
    }
  }

  lemma {:induction false} StoredMembersAreAssigned(acc: seq<Member>, ms: seq<Member>)
    requires Sorted(ms) && StoredMembers(ms)
    requires ms != [] ==> Below(acc, ms[0].key)
    ensures Assign(acc, ms) == acc + ms
    decreases ms, 1
  {
    if ms != [] {
      var m, tail := ms[0], ms[1..];
      if tail != [] {
        BelowNext(acc, m, tail[0].key);
      }
      StoredMembersAreAssigned(acc + [m], tail);
      assert Put(acc, m.key, Normalize(m.value)) == acc + [m] by {
        StoredIsNormal(m.value);
        PutAtEnd(acc, m.key, m.value);
      }
      S.MoveFirst(acc, ms);
    }
  }

  /** What the assignments leave is stored, so every normalised value is one the library can hold. */
  lemma {:induction false} NormalIsStored(v: Value)
    ensures Stored(Normalize(v))
    decreases v, 0
  {
    match v
    case Arr(es) => NormalElemsAreStored(es);
    case Obj(ms) => AssignedAreStored([], ms);
    case _ =>
  }

  lemma {:induction false} NormalElemsAreStored(es: seq<Value>)
    ensures StoredElems(NormalizeElems(es))
    decreases es, 1
  {
    if es != [] {
      NormalIsStored(es[0]);
      NormalElemsAreStored(es[1..]);
      assert NormalizeElems(es)[1..] == NormalizeElems(es[1..]);
    }
  }

  lemma {:induction false} PutIsStored(ms: seq<Member>, k: seq<Byte>, v: Value)
    requires StoredMembers(ms) && Stored(v)
    ensures StoredMembers(Put(ms, k, v))
  {
    if ms != [] {
      if ms[0].key == k {
        assert Put(ms, k, v)[1..] == ms[1..];
      } else if Less(k, ms[0].key) {
        assert Put(ms, k, v)[1..] == ms;
      } else {
        PutIsStored(ms[1..], k, v);
        assert Put(ms, k, v)[1..] == Put(ms[1..], k, v);
      }
    }
  }

  lemma {:induction false} AssignedAreStored(acc: seq<Member>, ms: seq<Member>)
    requires Sorted(acc) && StoredMembers(acc)
    ensures Sorted(Assign(acc, ms)) && StoredMembers(Assign(acc, ms))
    decreases ms, 1
  {
    if ms != [] {
      NormalIsStored(ms[0].value);
      PutUpdates(acc, ms[0].key, Normalize(ms[0].value), []);
      PutIsStored(acc, ms[0].key, Normalize(ms[0].value));
      AssignedAreStored(Put(acc, ms[0].key, Normalize(ms[0].value)), ms[1..]);
    }
  }

  /** The value that a list of written members gives to a key: the last one. */
  function LastOf(ms: seq<Member>, k: seq<Byte>): (r: Option<Value>)
  {
    if ms == [] then None
    else
      var later := LastOf(ms[1..], k);
      if later.Some? then later else if ms[0].key == k then Some(ms[0].value) else None
  }

  /** "Later duplicate keys win", said without the order of the assignments. */
  lemma {:induction false} AssignKeepsLast(acc: seq<Member>, ms: seq<Member>, k: seq<Byte>)
    requires Sorted(acc)
    ensures var last := LastOf(ms, k);
            Lookup(Assign(acc, ms), k) == if last.Some? then Some(Normalize(last.value)) else Lookup(acc, k)
    decreases ms
  {
    if ms != [] {
      var v := Normalize(ms[0].value);
      PutUpdates(acc, ms[0].key, v, k);
      AssignKeepsLast(Put(acc, ms[0].key, v), ms[1..], k);
    }
  }

  /** The first place where two keys differ decides; otherwise the shorter one comes first. */
  ghost predicate Lexicographic(a: seq<Byte>, b: seq<Byte>)
  {
    || (|a| < |b| && a == b[..|a|])
    || exists i :: 0 <= i < |a| && i < |b| && a[..i] == b[..i] && a[i] < b[i]
  }

  /** The order of the keys is the lexicographic order of their bytes. */
  lemma {:induction false} LessIsLexicographic(a: seq<Byte>, b: seq<Byte>)
    ensures Less(a, b) <==> Lexicographic(a, b)
    decreases |a|
  {
    if b != [] && a != [] {
      if a[0] == b[0] {
        LessIsLexicographic(a[1..], b[1..]);
        TailsOrder(a, b);
      } else {
        assert a[..0] == b[..0];
        assert forall i :: 0 < i <= |a| && i <= |b| ==> a[..i][0] != b[..i][0];
      }
    }
  }

  lemma {:induction false} TailsOrder(a: seq<Byte>, b: seq<Byte>)
    requires a != [] && b != [] && a[0] == b[0]
    ensures Lexicographic(a, b) <==> Lexicographic(a[1..], b[1..])
  {
    S.Uncons(a);
    S.Uncons(b);
    if |a| < |b| {
      assert a == b[..|a|] <==> a[1..] == b[1..][..|a| - 1] by {
        assert b[..|a|] == [b[0]] + b[1..][..|a| - 1];
      }
    }
    forall i | 0 < i < |a| && i < |b|
      ensures a[..i] == b[..i] <==> a[1..][..i - 1] == b[1..][..i - 1]
    {
      assert a[..i] == [a[0]] + a[1..][..i - 1] && b[..i] == [b[0]] + b[1..][..i - 1];
      assert a[1..][..i - 1] == a[..i][1..] && b[1..][..i - 1] == b[..i][1..];
    }
    if exists i :: 0 <= i < |a| && i < |b| && a[..i] == b[..i] && a[i] < b[i] {
      var i :| 0 <= i < |a| && i < |b| && a[..i] == b[..i] && a[i] < b[i];
      assert a[1..][i - 1] < b[1..][i - 1];
    }
    if exists i :: 0 <= i < |a| - 1 && i < |b| - 1 && a[1..][..i] == b[1..][..i] && a[1..][i] < b[1..][i] {
      var i :| 0 <= i < |a| - 1 && i < |b| - 1 && a[1..][..i] == b[1..][..i] && a[1..][i] < b[1..][i];
      assert a[i + 1] < b[i + 1] && a[..i + 1] == b[..i + 1];
    }
  }
}
