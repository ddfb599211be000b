/** A chained hash table as a value, and the map it stands for. */
module ChainTable {
  import opened Bytes

  /** The pairs of one bin, first node first. */
  type Chain<K, V> = seq<(K, V)>

  datatype Table<!K(==), V> = Table(hash: K -> nat, bins: seq<Chain<K, V>>)

  function Bin<K(==), V>(t: Table<K, V>, k: K): (b: nat)
    requires t.bins != []
    ensures b < |t.bins|
  {
    t.hash(k) % |t.bins|
  }

  // ----- one chain

  /** The traversal loop: the first node with this key. */
  function Find<K(==), V>(c: Chain<K, V>, k: K): (i: nat)
    ensures i <= |c| && (i < |c| ==> c[i].0 == k) && forall j :: 0 <= j < i ==> c[j].0 != k
  {
    if c == [] || c[0].0 == k then 0 else 1 + Find(c[1..], k)
  }

  predicate KeysOnce<K(==), V>(c: Chain<K, V>)
  {
    forall i, j :: 0 <= i < j < |c| ==> c[i].0 != c[j].0
  }

  function Fetch<K(==), V>(c: Chain<K, V>, k: K): (r: Option<V>)
  {
    if Find(c, k) < |c| then Some(c[Find(c, k)].1) else None
  }

  /** A new key goes to the front. */
  function Store<K(==), V>(c: Chain<K, V>, k: K, v: V): (r: Chain<K, V>)
  {
    var i := Find(c, k);
    if i < |c| then c[i := (k, v)] else [(k, v)] + c
  }

  function Drop<K(==), V>(c: Chain<K, V>, k: K): (r: Chain<K, V>)
  {
    var i := Find(c, k);
    if i < |c| then c[..i] + c[i + 1..] else c
  }

  lemma {:induction false} FindIs<K, V>(c: Chain<K, V>, k: K, i: nat)
    requires KeysOnce(c) && i < |c| && c[i].0 == k
    ensures Find(c, k) == i
  {
  }

  lemma {:induction false} FindNone<K, V>(c: Chain<K, V>, k: K)
    requires forall i :: 0 <= i < |c| ==> c[i].0 != k
    ensures Find(c, k) == |c|
  {
  }

  lemma {:induction false} StoreIsUpdate<K, V>(c: Chain<K, V>, k: K, v: V, x: K)
    requires KeysOnce(c)
    ensures KeysOnce(Store(c, k, v)) && Fetch(Store(c, k, v), x) == if x == k then Some(v) else Fetch(c, x)
    ensures |Store(c, k, v)| == |c| + if Fetch(c, k).Some? then 0 else 1
  {
    var i, r := Find(c, k), Store(c, k, v);
    var j := Find(c, x);
    if i < |c| {
      assert forall n :: 0 <= n < |c| ==> r[n].0 == c[n].0;
      if j < |c| {
        FindIs(r, x, j);
      } else {
        FindNone(r, x);
      }
    } else {
      assert forall n :: 0 < n < |r| ==> r[n] == c[n - 1];
      if x == k {
        FindIs(r, x, 0);
      } else if j < |c| {
        FindIs(r, x, j + 1);
      } else {
        FindNone(r, x);
      }
    }
  }

  lemma {:induction false} DropAt<K, V>(c: Chain<K, V>, i: nat)
    requires KeysOnce(c) && i < |c|
    ensures var r := c[..i] + c[i + 1..];
            KeysOnce(r) && forall n :: 0 <= n < |r| ==> r[n] == if n < i then c[n] else c[n + 1]
  {
  }

  lemma {:induction false} DropIsRemoval<K, V>(c: Chain<K, V>, k: K, x: K)
    requires KeysOnce(c)
    ensures KeysOnce(Drop(c, k)) && Fetch(Drop(c, k), x) == if x == k then None else Fetch(c, x)
    ensures |Drop(c, k)| == |c| - if Fetch(c, k).Some? then 1 else 0
  {
    var i, r := Find(c, k), Drop(c, k);
    var j := Find(c, x);
    if i < |c| {
      DropAt(c, i);
      if x == k || j == |c| {
        FindNone(r, x);
      } else {
        FindIs(r, x, if j < i then j else j - 1);
      }
    }
  }

  // ----- the table

  /** Every key sits in its own bin, once. */
  ghost predicate Valid<K, V>(t: Table<K, V>)
  {
    t.bins != [] &&
    forall b :: 0 <= b < |t.bins| ==> BinValid(t, b)
  }

  ghost predicate BinValid<K, V>(t: Table<K, V>, b: nat)
    requires b < |t.bins|
  {
    KeysOnce(t.bins[b]) && forall i :: 0 <= i < |t.bins[b]| ==> Bin(t, t.bins[b][i].0) == b
  }

  function Lookup<K(==), V>(t: Table<K, V>, k: K): (r: Option<V>)
    requires t.bins != []
  {
    Fetch(t.bins[Bin(t, k)], k)
  }

  function Set<K(==), V>(t: Table<K, V>, k: K, v: V): (r: Table<K, V>)
    requires t.bins != []
  {
    t.(bins := t.bins[Bin(t, k) := Store(t.bins[Bin(t, k)], k, v)])
  }

  function Erase<K(==), V>(t: Table<K, V>, k: K): (r: Table<K, V>)
    requires t.bins != []
  {
    t.(bins := t.bins[Bin(t, k) := Drop(t.bins[Bin(t, k)], k)])
  }

  function Size<K(==), V>(bins: seq<Chain<K, V>>): (n: nat)
  {
    if bins == [] then 0 else |bins[0]| + Size(bins[1..])
  }

  lemma {:induction false} SizeUpdate<K, V>(bins: seq<Chain<K, V>>, b: nat, c: Chain<K, V>)
    requires b < |bins|
    ensures Size(bins[b := c]) == Size(bins) - |bins[b]| + |c|
  {
    if b == 0 {
      assert bins[b := c][1..] == bins[1..];
    } else {
      assert bins[b := c][1..] == bins[1..][b - 1 := c];
      SizeUpdate(bins[1..], b - 1, c);
    }
  }

  /** The table stands for the map `m`. */
  ghost predicate Represents<K(!new), V>(t: Table<K, V>, m: map<K, V>)
  {
    && Valid(t) && Size(t.bins) == |m|
    && forall k :: Lookup(t, k) == if k in m then Some(m[k]) else None
  }

  lemma {:induction false} SetIsUpdate<K(!new), V>(t: Table<K, V>, m: map<K, V>, k: K, v: V)
    requires Represents(t, m)
    ensures Represents(Set(t, k, v), m[k := v])
  {
    var b, r := Bin(t, k), Set(t, k, v);
    var c := t.bins[b];
    assert BinValid(t, b);
    StoreIsUpdate(c, k, v, k);
    SizeUpdate(t.bins, b, Store(c, k, v));
    assert Lookup(t, k) == if k in m then Some(m[k]) else None;
    CardAfterUpdate(m, k, v);
    forall x
      ensures Lookup(r, x) == if x in m[k := v] then Some(m[k := v][x]) else None
    {
      StoreIsUpdate(c, k, v, x);
      assert Lookup(t, x) == if x in m then Some(m[x]) else None;
    }
    forall n | 0 <= n < |r.bins|
      ensures BinValid(r, n)
    {
      assert BinValid(t, n);
      StoreKeepsBin(t, k, v, n);
    }
  }

  lemma {:induction false} StoreKeepsBin<K, V>(t: Table<K, V>, k: K, v: V, n: nat)
    requires t.bins != [] && n < |t.bins| && BinValid(t, n)
    ensures BinValid(Set(t, k, v), n)
  {
    if n == Bin(t, k) {
      var c := t.bins[n];
      StoreIsUpdate(c, k, v, k);
      var r := Store(c, k, v);
      assert forall i :: 0 <= i < |r| ==> r[i].0 == k || exists j :: 0 <= j < |c| && c[j].0 == r[i].0;
    }
  }

  lemma CardAfterUpdate<K, V>(m: map<K, V>, k: K, v: V)
    ensures |m[k := v]| == |m| + if k in m then 0 else 1
  {
    assert m[k := v].Keys == m.Keys + {k};
    assert |m.Keys| == |m| && |m[k := v].Keys| == |m[k := v]|;
  }

  lemma CardAfterRemoval<K, V>(m: map<K, V>, k: K)
    ensures |m - {k}| == |m| - if k in m then 1 else 0
  {
    assert (m - {k}).Keys == m.Keys - {k};
    assert |m.Keys| == |m| && |(m - {k}).Keys| == |m - {k}|;
  }

  lemma {:induction false} EraseIsRemoval<K(!new), V>(t: Table<K, V>, m: map<K, V>, k: K)
    requires Represents(t, m)
    ensures Represents(Erase(t, k), m - {k})
  {
    var b, r := Bin(t, k), Erase(t, k);
    var c := t.bins[b];
    assert BinValid(t, b);
    DropIsRemoval(c, k, k);
    SizeUpdate(t.bins, b, Drop(c, k));
    assert Lookup(t, k) == if k in m then Some(m[k]) else None;
    CardAfterRemoval(m, k);
    forall x
      ensures Lookup(r, x) == if x in m - {k} then Some((m - {k})[x]) else None
    {
      assert Lookup(t, x) == if x in m then Some(m[x]) else None;
      EraseDropsOne(t, k, x);
    }
    forall n | 0 <= n < |r.bins|
      ensures BinValid(r, n)
    {
      assert BinValid(t, n);
      DropKeepsBin(t, k, n);
    }
  }

  lemma {:induction false} EraseDropsOne<K, V>(t: Table<K, V>, k: K, x: K)
    requires t.bins != [] && BinValid(t, Bin(t, k))
    ensures Lookup(Erase(t, k), x) == if x == k then None else Lookup(t, x)
  {
    DropIsRemoval(t.bins[Bin(t, k)], k, x);
  }

  lemma {:induction false} DropKeepsBin<K, V>(t: Table<K, V>, k: K, n: nat)
    requires t.bins != [] && n < |t.bins| && BinValid(t, n)
    ensures BinValid(Erase(t, k), n)
  {
    if n == Bin(t, k) {
      var c := t.bins[n];
      DropIsRemoval(c, k, k);
      var r := Drop(c, k);
      assert forall i :: 0 <= i < |r| ==> r[i] == if i < Find(c, k) then c[i] else c[i + 1];
    }
  }

  lemma {:induction false} EmptyTable<K(!new), V>(t: Table<K, V>)
    requires t.bins != [] && forall b :: 0 <= b < |t.bins| ==> t.bins[b] == []
    ensures Represents(t, map[])
  {
    SizeOfEmpty(t.bins);
  }

  lemma {:induction false} SizeOfEmpty<K, V>(bins: seq<Chain<K, V>>)
    requires forall b :: 0 <= b < |bins| ==> bins[b] == []
    ensures Size(bins) == 0
  {
    if bins != [] {
      SizeOfEmpty(bins[1..]);
    }
  }

  // ----- sequences of operations

  datatype Op<K, V> = Assign(key: K, value: V) | Delete(key: K)

  function RunTable<K(==), V>(t: Table<K, V>, ops: seq<Op<K, V>>): (r: Table<K, V>)
    requires t.bins != []
    ensures r.bins != []
    decreases |ops|
  {
    if ops == [] then t
    else RunTable(match ops[0] case Assign(k, v) => Set(t, k, v) case Delete(k) => Erase(t, k), ops[1..])
  }

  function RunMap<K(==), V>(m: map<K, V>, ops: seq<Op<K, V>>): (r: map<K, V>)
    decreases |ops|
  {
    if ops == [] then m
    else RunMap(match ops[0] case Assign(k, v) => m[k := v] case Delete(k) => m - {k}, ops[1..])
  }

  /** What the operations leave under a key: the value of its last assignment, unless it was deleted after that. */
  function LastValue<K(==), V>(m: map<K, V>, ops: seq<Op<K, V>>, k: K): (r: Option<V>)
    decreases |ops|
  {
    if ops == [] then (if k in m then Some(m[k]) else None)
    else
      var last := ops[|ops| - 1];
      if last.key == k then (if last.Assign? then Some(last.value) else None)
      else LastValue(m, ops[..|ops| - 1], k)
  }

  /** The table stands for the abstract map after every sequence of operations, whatever the hash function and however
      many bins there are. */
  lemma {:induction false} RunRepresents<K(!new), V>(t: Table<K, V>, m: map<K, V>, ops: seq<Op<K, V>>)
    requires Represents(t, m)
    ensures Represents(RunTable(t, ops), RunMap(m, ops))
    decreases |ops|
  {
    if ops != [] {
      match ops[0]
      case Assign(k, v) =>
        SetIsUpdate(t, m, k, v);
        RunRepresents(Set(t, k, v), m[k := v], ops[1..]);
      case Delete(k) =>
        EraseIsRemoval(t, m, k);
        RunRepresents(Erase(t, k), m - {k}, ops[1..]);
    }
  }

  lemma {:induction false} RunMapSnoc<K, V>(m: map<K, V>, ops: seq<Op<K, V>>, op: Op<K, V>)
    ensures RunMap(m, ops + [op]) ==
            var r := RunMap(m, ops); match op case Assign(k, v) => r[k := v] case Delete(k) => r - {k}
    decreases |ops|
  {
    if ops == [] {
      assert ([op] + [])[1..] == [];
      assert ops + [op] == [op];
    } else {
      assert (ops + [op])[1..] == ops[1..] + [op];
      RunMapSnoc(match ops[0] case Assign(k, v) => m[k := v] case Delete(k) => m - {k}, ops[1..], op);
    }
  }

  lemma {:induction false} RunMapKeepsLast<K, V>(m: map<K, V>, ops: seq<Op<K, V>>, k: K)
    ensures LastValue(m, ops, k) == if k in RunMap(m, ops) then Some(RunMap(m, ops)[k]) else None
    decreases |ops|
  {
    if ops != [] {
      var p, op := ops[..|ops| - 1], ops[|ops| - 1];
      assert ops == p + [op];
      RunMapSnoc(m, p, op);
      RunMapKeepsLast(m, p, k);
    }
  }

  /** A lookup after any sequence of operations finds the last value set. */
  lemma {:induction false} LookupFindsLast<K(!new), V>(t: Table<K, V>, m: map<K, V>, ops: seq<Op<K, V>>, k: K)
    requires Represents(t, m)
    ensures Lookup(RunTable(t, ops), k) == LastValue(m, ops, k)
    ensures Size(RunTable(t, ops).bins) == |RunMap(m, ops)|
  {
    RunRepresents(t, m, ops);
    RunMapKeepsLast(m, ops, k);
  }

  /** Every pair sits in the bin of its hash value modulo the number of bins, once, and in no other bin. */
  lemma {:induction false} KeySitsInItsBin<K(!new), V>(t: Table<K, V>, m: map<K, V>, k: K)
    requires Represents(t, m) && k in m
    ensures t.bins != [] && (k, m[k]) in t.bins[t.hash(k) % |t.bins|]
    ensures forall b, i :: 0 <= b < |t.bins| && 0 <= i < |t.bins[b]| && t.bins[b][i].0 == k ==>
              b == t.hash(k) % |t.bins| && i == Find(t.bins[b], k)
  {
    var b := t.hash(k) % |t.bins|;
    var c := t.bins[b];
    assert Lookup(t, k) == Some(m[k]);
    assert c[Find(c, k)] == (k, m[k]);
    forall b', i | 0 <= b' < |t.bins| && 0 <= i < |t.bins[b']| && t.bins[b'][i].0 == k
      ensures b' == b && i == Find(t.bins[b'], k)
    {
      assert BinValid(t, b');
      FindIs(t.bins[b'], k, i);
    }
  }

  /** A key that is new goes in front of its bin; one that is there keeps its place, and so do all others. */
  lemma {:induction false} NewestFirst<K, V>(t: Table<K, V>, k: K, v: V)
    requires t.bins != []
    ensures var b, r := t.hash(k) % |t.bins|, Set(t, k, v);
            && |r.bins| == |t.bins| && (forall n :: 0 <= n < |r.bins| && n != b ==> r.bins[n] == t.bins[n])
            && (Lookup(t, k).None? ==> r.bins[b] == [(k, v)] + t.bins[b])
            && (Lookup(t, k).Some? ==>
                  |r.bins[b]| == |t.bins[b]| && forall i :: 0 <= i < |r.bins[b]| ==> r.bins[b][i].0 == t.bins[b][i].0)
  {
  }
}
