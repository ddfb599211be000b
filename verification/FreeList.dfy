/** The first-fit heap as a value: an address-ordered list of free blocks, the live blocks, and everything that was ever
    taken from the superclass heap. */
module FreeList {
  import opened Bytes
  import Sets

  datatype Block = Block(addr: nat, size: nat)

  datatype Heap = Heap(free: seq<Block>, live: set<Block>, taken: set<Block>)

  predicate Sorted(bs: seq<Block>)
  {
    forall i, j :: 0 <= i < j < |bs| ==> bs[i].addr < bs[j].addr
  }

  function Elements(bs: seq<Block>): (s: set<Block>) { set b | b in bs }

  /** The two blocks share no byte. */
  predicate Apart(a: Block, b: Block) { a.addr + a.size <= b.addr || b.addr + b.size <= a.addr }

  /** What the superclass heap promises of the blocks it hands out: room for a pointer, and no overlap. */
  predicate Proper(bs: set<Block>)
  {
    (forall b :: b in bs ==> b.size >= 8) && forall a, b :: a in bs && b in bs && a != b ==> Apart(a, b)
  }

  /** The free list is sorted by address, and free and live blocks partition everything taken. */
  predicate Valid(h: Heap)
  {
    && Sorted(h.free) && Elements(h.free) !! h.live && Elements(h.free) + h.live == h.taken && Proper(h.taken)
  }

  const Empty: Heap := Heap([], {}, {})

  // ----- malloc

  /** The search loop of `malloc`: the first block of the list that is large enough. */
  function FitIndex(free: seq<Block>, sz: nat): (i: nat)
    ensures i <= |free| && (i < |free| ==> free[i].size >= sz)
    ensures forall j :: 0 <= j < i ==> free[j].size < sz
  {
    if free == [] || free[0].size >= sz then 0 else 1 + FitIndex(free[1..], sz)
  }

  function RemoveAt(bs: seq<Block>, i: nat): (r: seq<Block>)
    requires i < |bs|
  {
    bs[..i] + bs[i + 1..]
  }

  /** What the superclass heap may answer to a request: nothing, or a block that is large enough and apart from all
      others. */
  predicate Supplies(h: Heap, sz: nat, supplied: Option<Block>)
  {
    supplied.Some? ==>
      var b := supplied.value;
      b.size >= sz && b.size >= 8 && b !in h.taken && forall a :: a in h.taken ==> Apart(a, b)
  }

  function MallocResult(h: Heap, sz: nat, supplied: Option<Block>): (p: Option<Block>)
  {
    var i := FitIndex(h.free, sz);
    if i < |h.free| then Some(h.free[i]) else supplied
  }

  function Malloc(h: Heap, sz: nat, supplied: Option<Block>): (r: Heap)
  {
    var i := FitIndex(h.free, sz);
    if i < |h.free| then Heap(RemoveAt(h.free, i), h.live + {h.free[i]}, h.taken)
    else if supplied.Some? then Heap(h.free, h.live + {supplied.value}, h.taken + {supplied.value})
    else h
  }

  lemma {:induction false} MallocKeepsValid(h: Heap, sz: nat, supplied: Option<Block>)
    requires Valid(h) && Supplies(h, sz, supplied)
    ensures Valid(Malloc(h, sz, supplied))
  {
    var i := FitIndex(h.free, sz);
    if i < |h.free| {
      RemoveKeepsSorted(h.free, i);
      assert h.free[i] in h.free;
      assert Malloc(h, sz, supplied).taken == Elements(RemoveAt(h.free, i)) + (h.live + {h.free[i]});
    }
  }

  /** The heap stays valid, and the result is a block that was not live, is large enough and is, if any free block fits,
      the lowest-addressed one that does; only otherwise is the superclass heap asked. */
  lemma {:induction false} MallocIsFirstFit(h: Heap, sz: nat, supplied: Option<Block>)
    requires Valid(h) && Supplies(h, sz, supplied)
    ensures var r, p := Malloc(h, sz, supplied), MallocResult(h, sz, supplied);
            && Valid(r)
            && (p.Some? ==> p.value !in h.live && p.value.size >= sz && r.live == h.live + {p.value})
            && (p.None? ==> r == h)
            && ((exists b :: b in h.free && b.size >= sz) ==>
                  p.Some? && p.value in h.free && r.taken == h.taken
                  && forall b :: b in h.free && b.size >= sz ==> p.value.addr <= b.addr)
            && (!(exists b :: b in h.free && b.size >= sz) ==> p == supplied && r.free == h.free)
  {
    MallocKeepsValid(h, sz, supplied);
    var i := FitIndex(h.free, sz);
    if i < |h.free| {
      assert h.free[i] in h.free && h.free[i] in Elements(h.free);
    }
  }

  /** Giving all free blocks back leaves just the live ones. */
  lemma {:induction false} LiveIsValid(h: Heap)
    requires Valid(h)
    ensures Valid(Heap([], h.live, h.live))
  {
    assert Elements([]) == {};
  }

  lemma {:induction false} RemoveKeepsSorted(bs: seq<Block>, i: nat)
    requires Sorted(bs) && i < |bs|
    ensures Sorted(RemoveAt(bs, i)) && Elements(RemoveAt(bs, i)) == Elements(bs) - {bs[i]}
  {
    var r := RemoveAt(bs, i);
    assert forall j :: 0 <= j < |r| ==> r[j] == if j < i then bs[j] else bs[j + 1];
    forall b | b in Elements(bs) - {bs[i]}
      ensures b in r
    {
      var j :| 0 <= j < |bs| && bs[j] == b;
      assert r[if j < i then j else j - 1] == b;
    }
  }

  // ----- free

  /** The search loop of `free`: past every block at or below the address. */
  function InsertIndex(free: seq<Block>, addr: nat): (i: nat)
    ensures i <= |free| && (i < |free| ==> free[i].addr > addr)
    ensures forall j :: 0 <= j < i ==> free[j].addr <= addr
  {
    if free == [] || free[0].addr > addr then 0 else 1 + InsertIndex(free[1..], addr)
  }

  function InsertAt(bs: seq<Block>, i: nat, b: Block): (r: seq<Block>)
    requires i <= |bs|
  {
    bs[..i] + [b] + bs[i..]
  }

  function Free(h: Heap, b: Block): (r: Heap)
  {
    Heap(InsertAt(h.free, InsertIndex(h.free, b.addr), b), h.live - {b}, h.taken)
  }

  lemma {:induction false} InsertKeepsSorted(bs: seq<Block>, i: nat, b: Block)
    requires Sorted(bs) && i <= |bs|
    requires (forall j :: 0 <= j < i ==> bs[j].addr < b.addr) && (i < |bs| ==> b.addr < bs[i].addr)
    ensures Sorted(InsertAt(bs, i, b)) && Elements(InsertAt(bs, i, b)) == Elements(bs) + {b}
  {
    var r := InsertAt(bs, i, b);
    assert forall j :: 0 <= j < |r| ==> r[j] == if j < i then bs[j] else if j == i then b else bs[j - 1];
    forall x | x in Elements(bs) + {b}
      ensures x in r
    {
      if x != b {
        var j :| 0 <= j < |bs| && bs[j] == x;
        assert r[if j < i then j else j + 1] == x;
      } else {
        assert r[i] == b;
      }
    }
  }

  /** Freeing a live block puts it in its place in the list and changes nothing else. */
  lemma {:induction false} FreeReturnsBlock(h: Heap, b: Block)
    requires Valid(h) && b in h.live
    ensures Valid(Free(h, b)) && Elements(Free(h, b).free) == Elements(h.free) + {b}
  {
    var i := InsertIndex(h.free, b.addr);
    forall j | 0 <= j < |h.free|
      ensures h.free[j].addr != b.addr
    {
      assert h.free[j] in Elements(h.free);
      assert h.free[j] in h.taken && b in h.taken && Apart(h.free[j], b);
    }
    InsertKeepsSorted(h.free, i, b);
  }

  /** A block that was just freed is handed out again to the next request that it fits and nothing below it does. */
  lemma {:induction false} FreeThenMalloc(h: Heap, b: Block, sz: nat)
    requires Valid(h) && b in h.live && b.size >= sz
    requires forall a :: a in h.free && a.size >= sz ==> b.addr < a.addr
    ensures MallocResult(Free(h, b), sz, None) == Some(b)
    ensures Malloc(Free(h, b), sz, None).live == h.live
  {
    FreeReturnsBlock(h, b);
    var g := Free(h, b);
    assert b in Elements(g.free);
    MallocIsFirstFit(g, sz, None);
    var p := MallocResult(g, sz, None).value;
    assert p in Elements(g.free);
    assert p == b || p in h.free;
    assert h.live - {b} + {b} == h.live;
  }

  // ----- whole histories

  datatype Op = Request(sz: nat, supplied: Option<Block>) | Release(block: Block)

  predicate Allowed(h: Heap, op: Op)
  {
    match op
    case Request(sz, supplied) => Supplies(h, sz, supplied)
    case Release(b) => b in h.live
  }

  function Step(h: Heap, op: Op): (r: Heap)
  {
    match op
    case Request(sz, supplied) => Malloc(h, sz, supplied)
    case Release(b) => Free(h, b)
  }

  ghost predicate IsHistory(hs: seq<Heap>, ops: seq<Op>)
  {
    |hs| == |ops| + 1 && hs[0] == Empty &&
    forall i :: 0 <= i < |ops| ==> Allowed(hs[i], ops[i]) && hs[i + 1] == Step(hs[i], ops[i])
  }

  lemma {:induction false} StepKeepsValid(h: Heap, op: Op)
    requires Valid(h) && Allowed(h, op)
    ensures Valid(Step(h, op))
  {
    match op
    case Request(sz, supplied) => MallocIsFirstFit(h, sz, supplied);
    case Release(b) => FreeReturnsBlock(h, b);
  }

  /** After any sequence of mallocs and frees of live blocks the heap is valid. */
  lemma {:induction false} HistoryKeepsValid(hs: seq<Heap>, ops: seq<Op>, j: nat)
    requires IsHistory(hs, ops) && j < |hs|
    ensures Valid(hs[j])
  {
    if j > 0 {
      HistoryKeepsValid(hs, ops, j - 1);
      assert Allowed(hs[j - 1], ops[j - 1]) && hs[j - 1 + 1] == Step(hs[j - 1], ops[j - 1]);
      StepKeepsValid(hs[j - 1], ops[j - 1]);
    }
  }

  /** The largest number of live blocks in the first `j + 1` states. */
  ghost function Peak(hs: seq<Heap>, j: nat): (n: nat)
    requires j < |hs|
  {
    if j == 0 then |hs[0].live|
    else if Peak(hs, j - 1) >= |hs[j].live| then Peak(hs, j - 1)
    else |hs[j].live|
  }

  ghost predicate OneSize(ops: seq<Op>, sz: nat)
  {
    forall i :: 0 <= i < |ops| && ops[i].Request? ==> ops[i].sz == sz
  }

  lemma {:induction false} AllFit(hs: seq<Heap>, ops: seq<Op>, j: nat, sz: nat)
    requires IsHistory(hs, ops) && j < |hs| && OneSize(ops, sz)
    ensures forall b :: b in hs[j].taken ==> b.size >= sz
  {
    if j > 0 {
      AllFit(hs, ops, j - 1, sz);
      assert Allowed(hs[j - 1], ops[j - 1]) && hs[j - 1 + 1] == Step(hs[j - 1], ops[j - 1]);
    }
  }

  /** One step of a history with one request size: a block is taken only when every block is live. */
  lemma {:induction false} TakesOnlyWhenAllLive(h: Heap, op: Op, sz: nat)
    requires Valid(h) && Allowed(h, op) && (op.Request? ==> op.sz == sz) && forall b :: b in h.taken ==> b.size >= sz
    ensures var r := Step(h, op); r.taken == h.taken || (r.live == r.taken && |r.taken| == |h.taken| + 1)
  {
    if op.Request? && h.free == [] {
      assert Elements(h.free) == {};
    } else if op.Request? {
      assert h.free[0] in Elements(h.free);
      assert FitIndex(h.free, sz) == 0;
    }
  }

  lemma {:induction false} LiveAreTaken(h: Heap)
    requires Valid(h)
    ensures |h.live| <= |h.taken|
  {
    Sets.SubsetSize(h.live, h.taken);
  }

  lemma {:induction false} TakenGrowsWithPeak(hs: seq<Heap>, ops: seq<Op>, j: nat, sz: nat)
    requires IsHistory(hs, ops) && j < |ops| && OneSize(ops, sz)
    ensures hs[j + 1].taken == hs[j].taken ||
            (hs[j + 1].live == hs[j + 1].taken && |hs[j + 1].taken| == |hs[j].taken| + 1)
  {
    HistoryKeepsValid(hs, ops, j);
    AllFit(hs, ops, j, sz);
    TakesOnlyWhenAllLive(hs[j], ops[j], sz);
  }

  /** If all requests have one size, the number of blocks ever taken from the superclass heap is the largest number of
      blocks that were live at one time. */
  lemma {:induction false} TakenIsPeak(hs: seq<Heap>, ops: seq<Op>, j: nat, sz: nat)
    requires IsHistory(hs, ops) && j < |hs| && OneSize(ops, sz)
    ensures |hs[j].taken| == Peak(hs, j)
  {
    if j > 0 {
      TakenIsPeak(hs, ops, j - 1, sz);
      TakenGrowsWithPeak(hs, ops, j - 1, sz);
      HistoryKeepsValid(hs, ops, j);
      LiveAreTaken(hs[j]);
    }
  }
}
