/** `MyHashMap`: an array of linked chains that `set`, `insert` and `erase` change in place. The allocator is a pair of
    counters. */
module HashMap {
  import opened Bytes
  import T = ChainTable

  class ListNode<K, V> {
    const key: K
    var value: V
    var next: ListNode?<K, V>

    constructor (key: K, value: V, next: ListNode?<K, V>)
      ensures this.key == key && this.value == value && this.next == next
    {
      this.key, this.value, this.next := key, value, next;
    }
  }

  ghost function At<K, V>(nodes: seq<ListNode<K, V>>, i: nat): (p: ListNode?<K, V>)
  {
    if i < |nodes| then nodes[i] else null
  }

  /** Following `next` from `head` runs through `nodes`, which hold the pairs of `chain`. */
  ghost predicate Holds<K, V>(head: ListNode?<K, V>, nodes: seq<ListNode<K, V>>, chain: T.Chain<K, V>)
    reads nodes
  {
    && head == At(nodes, 0) && |nodes| == |chain|
    && (forall i {:trigger nodes[i].next} :: 0 <= i < |nodes| ==> nodes[i].next == At(nodes, i + 1))
    && (forall i {:trigger nodes[i].value} {:trigger chain[i]} ::
          0 <= i < |nodes| ==> chain[i] == (nodes[i].key, nodes[i].value))
  }

  /** Different keys make different nodes. */
  lemma HeldNodesDiffer<K, V>(head: ListNode?<K, V>, nodes: seq<ListNode<K, V>>, chain: T.Chain<K, V>)
    requires Holds(head, nodes, chain) && T.KeysOnce(chain)
    ensures forall i, j :: 0 <= i < j < |nodes| ==> nodes[i] != nodes[j]
  {
    forall i, j | 0 <= i < j < |nodes|
      ensures nodes[i] != nodes[j]
    {
      assert chain[i].0 != chain[j].0;
    }
  }

  lemma HoldsCons<K, V>(l: ListNode<K, V>, nodes: seq<ListNode<K, V>>, chain: T.Chain<K, V>)
    requires Holds(l.next, nodes, chain)
    ensures Holds(l, [l] + nodes, [(l.key, l.value)] + chain)
  {
    var ns, c := [l] + nodes, [(l.key, l.value)] + chain;
    forall i | 0 <= i < |ns|
      ensures ns[i].next == At(ns, i + 1) && c[i] == (ns[i].key, ns[i].value)
    {
      if i > 0 {
        assert ns[i] == nodes[i - 1] && c[i] == chain[i - 1];
        assert nodes[i - 1].next == At(nodes, i);
      }
    }
  }

  class MyHashMap<K(==, !new), V> {
    const hash: K -> nat
    const zero: V
    const bins: array<ListNode?<K, V>>
    var nodesTaken: nat
    var nodesFreed: nat
    ghost var chains: seq<seq<ListNode<K, V>>>   // the nodes of each bin
    ghost var table: T.Table<K, V>
    ghost var contents: map<K, V>

    ghost function Nodes(): (s: set<ListNode<K, V>>)
      reads this`chains
    {
      set b, i | 0 <= b < |chains| && 0 <= i < |chains[b]| :: chains[b][i]
    }

    ghost predicate BinHolds(b: nat)
      requires b < |chains| && |table.bins| == |chains| == bins.Length
      reads this`chains, this`table, bins, Nodes()
    {
      Holds(bins[b], chains[b], table.bins[b])
    }

    /** The pointers hold the table. */
    ghost predicate AllHold()
      reads this`chains, this`table, bins, Nodes()
    {
      |table.bins| == |chains| == bins.Length && forall b :: 0 <= b < |chains| ==> BinHolds(b)
    }

    ghost predicate Wired()
      reads this`chains, this`table, bins, Nodes()
    {
      AllHold() && table.hash == hash && T.Valid(table)
    }

    /** The table stands for the map, and there is one node for each of its keys. */
    ghost predicate Valid()
      reads this, bins, Nodes()
    {
      AllHold() && table.hash == hash && T.Represents(table, contents) && nodesTaken - nodesFreed == |contents|
    }

    constructor (size: nat, hash: K -> nat, zero: V)
      requires size > 0
      ensures Valid() && contents == map[] && fresh(bins) && this.hash == hash && this.zero == zero
      ensures bins.Length == size && nodesTaken == nodesFreed == 0
    {
      this.hash, this.zero := hash, zero;
      bins := new ListNode?<K, V>[size](_ => null);
      nodesTaken, nodesFreed := 0, 0;
      chains := seq(size, _ => []);
      table := T.Table(hash, seq(size, _ => []));
      contents := map[];
      new;
      T.EmptyTable(table);
    }

    function BinOf(k: K): (b: nat)
      requires bins.Length > 0
      ensures b < bins.Length
    {
      hash(k) % bins.Length
    }

    /** The traversal that `set`, `get` and `erase` start with. */
    method Search(b: nat, k: K) returns (curr: ListNode?<K, V>, prev: ListNode?<K, V>)
      requires b < bins.Length == |chains| == |table.bins| && BinHolds(b)
      ensures var i := T.Find(table.bins[b], k);
              curr == At(chains[b], i) && prev == if i == 0 then null else chains[b][i - 1]
    {
      curr, prev := bins[b], null;
      ghost var i := 0;
      while curr != null && curr.key != k
        invariant i <= |chains[b]| && curr == At(chains[b], i) && prev == if i == 0 then null else chains[b][i - 1]
        invariant forall j :: 0 <= j < i ==> table.bins[b][j].0 != k
        decreases |chains[b]| - i
      {
        prev := curr;
        curr := curr.next;
        i := i + 1;
      }
      FindIsFirst(table.bins[b], k, i);
    }

    lemma FindIsFirst(c: T.Chain<K, V>, k: K, i: nat)
      requires i <= |c| && (forall j :: 0 <= j < i ==> c[j].0 != k) && (i < |c| ==> c[i].0 == k)
      ensures T.Find(c, k) == i
    {
    }

    /** The last value that was set, or 0. */
    method Get(k: K) returns (v: V)
      requires Valid()
      ensures v == if k in contents then contents[k] else zero
    {
      var b := BinOf(k);
      assert BinHolds(b);
      var curr, _ := Search(b, k);
      assert T.Lookup(table, k) == if k in contents then Some(contents[k]) else None;
      v := if curr == null then zero else curr.value;
    }

    /** A node of one bin is in no other bin, because its key belongs to one bin. */
    lemma BinsApart(b: nat, i: nat, other: nat)
      requires Wired() && b < |chains| && i < |chains[b]| && other < |chains| && other != b
      ensures chains[b][i] !in chains[other]
    {
      assert BinHolds(b) && BinHolds(other) && T.BinValid(table, b) && T.BinValid(table, other);
      forall j | 0 <= j < |chains[other]|
        ensures chains[other][j] != chains[b][i]
      {
        assert T.Bin(table, table.bins[b][i].0) == b && T.Bin(table, table.bins[other][j].0) == other;
      }
    }

    method Set(k: K, v: V)
      requires Valid()
      modifies this, bins, Nodes()
      ensures Valid() && contents == old(contents)[k := v]
      ensures nodesFreed == old(nodesFreed) && fresh(Nodes() - old(Nodes()))
    {
      T.SetIsUpdate(table, contents, k, v);
      assert T.Lookup(table, k) == if k in contents then Some(contents[k]) else None;
      T.CardAfterUpdate(contents, k, v);
      Update(k, v);
      contents := contents[k := v];
    }

    /** The work of `set` on the chains. */
    method Update(k: K, v: V)
      requires Wired()
      modifies this`table, this`chains, this`nodesTaken, bins, Nodes()
      ensures table == T.Set(old(table), k, v) && AllHold() && fresh(Nodes() - old(Nodes()))
      ensures nodesTaken == old(nodesTaken) + if T.Lookup(old(table), k).Some? then 0 else 1
    {
      var b := BinOf(k);
      assert BinHolds(b);
      var l, _ := Search(b, k);
      if l != null {
        Overwrite(b, l, v, T.Find(table.bins[b], k));
      } else {
        Insert(k, v);
      }
    }

    /** `l->value = v`, on the node at position `i` of bin `b`. */
    method Overwrite(b: nat, l: ListNode<K, V>, v: V, ghost i: nat)
      requires Wired() && b < bins.Length && i < |chains[b]| && i < |table.bins[b]| && l == chains[b][i]
      modifies this`table, l`value
      ensures table == old(table).(bins := old(table).bins[b := old(table).bins[b][i := (l.key, v)]]) && AllHold()
    {
      assert BinHolds(b) && T.BinValid(table, b);
      HeldNodesDiffer(bins[b], chains[b], table.bins[b]);
      forall n | 0 <= n < |chains| && n != b
        ensures l !in chains[n] && BinHolds(n)
      {
        BinsApart(b, i, n);
      }
      l.value := v;
      table := table.(bins := table.bins[b := table.bins[b][i := (l.key, v)]]);
    }

    method Insert(k: K, v: V)
      requires Wired() && T.Find(table.bins[T.Bin(table, k)], k) == |table.bins[T.Bin(table, k)]|
      modifies this`table, this`chains, this`nodesTaken, bins
      ensures table == T.Set(old(table), k, v) && AllHold() && nodesTaken == old(nodesTaken) + 1
      ensures fresh(Nodes() - old(Nodes()))
    {
      var b := BinOf(k);
      assert BinHolds(b);
      var l := new ListNode(k, v, bins[b]);
      HoldsCons(l, chains[b], table.bins[b]);
      nodesTaken := nodesTaken + 1;
      ghost var was, wasTable := chains, table;
      bins[b] := l;
      chains := chains[b := [l] + chains[b]];
      table := table.(bins := table.bins[b := [(k, v)] + table.bins[b]]);
      forall n | 0 <= n < |chains|
        ensures BinHolds(n)
      {
        if n != b {
          assert old(BinHolds(n));
          assert Holds(bins[n], was[n], wasTable.bins[n]);
        }
      }
    }

    method Erase(k: K)
      requires Valid()
      modifies this, bins, Nodes()
      ensures Valid() && contents == old(contents) - {k}
      ensures nodesTaken == old(nodesTaken) && Nodes() <= old(Nodes())
    {
      ghost var before, after := contents, contents - {k};
      T.EraseIsRemoval(table, before, k);
      assert T.Lookup(table, k).Some? == (k in before);
      assert |after| == |before| - if k in before then 1 else 0 by {
        T.CardAfterRemoval(before, k);
      }
      Remove(k);
      contents := after;
    }

    /** The work of `erase` on the chains. */
    method Remove(k: K)
      requires Wired()
      modifies this`table, this`chains, this`nodesFreed, bins, Nodes()
      ensures table == T.Erase(old(table), k) && AllHold() && Nodes() <= old(Nodes())
      ensures nodesFreed == old(nodesFreed) + if T.Lookup(old(table), k).Some? then 1 else 0
    {
      var b := BinOf(k);
      assert BinHolds(b);
      var curr, prev := Search(b, k);
      if curr != null {
        nodesFreed := nodesFreed + 1;
        Unlink(b, curr, prev, T.Find(table.bins[b], k));
      } else {
        assert table.bins[b := table.bins[b]] == table.bins;
      }
    }

    /** Take the node at position `i` out of the chain of bin `b`. */
    method Unlink(b: nat, curr: ListNode<K, V>, prev: ListNode?<K, V>, ghost i: nat)
      requires Wired() && b < bins.Length && i < |chains[b]| && i < |table.bins[b]| && curr == chains[b][i]
      requires prev == if i == 0 then null else chains[b][i - 1]
      modifies this`table, this`chains, bins, prev
      ensures table == old(table).(bins := old(table).bins[b := old(table).bins[b][..i] + old(table).bins[b][i + 1..]])
      ensures AllHold() && Nodes() <= old(Nodes())
    {
      assert BinHolds(b) && T.BinValid(table, b);
      HeldNodesDiffer(bins[b], chains[b], table.bins[b]);
      forall n | 0 <= n < |chains| && n != b
        ensures (i > 0 ==> prev !in chains[n]) && BinHolds(n)
      {
        if i > 0 {
          BinsApart(b, i - 1, n);
        }
      }
      ghost var nodes, chain := chains[b], table.bins[b];
      if curr != bins[b] {
        prev.next := prev.next.next;
      } else {
        bins[b] := bins[b].next;
      }
      chains := chains[b := nodes[..i] + nodes[i + 1..]];
      table := table.(bins := table.bins[b := chain[..i] + chain[i + 1..]]);
      assert BinHolds(b) by {
        ghost var ns, c := chains[b], table.bins[b];
        forall n | 0 <= n < |ns|
          ensures ns[n].next == At(ns, n + 1) && c[n] == (ns[n].key, ns[n].value)
        {
          assert ns[n] == if n < i then nodes[n] else nodes[n + 1];
        }
      }
    }
  }
}
