/** `FirstFitHeap`: a singly linked free list that is spliced in place. The superclass heap is a parameter: what it
    would answer is passed to `Malloc`, and what it is given back is recorded. */
module FirstFit {
  import opened Bytes
  import L = FreeList

  /** A block of memory, seen as the `freeObject` that lives in it while it is free. */
  class FreeObject {
    const block: L.Block
    var next: FreeObject?

    constructor (block: L.Block)
      ensures this.block == block
    {
      this.block := block;
      next := null;
    }
  }

  ghost function Blocks(list: seq<FreeObject>): (bs: seq<L.Block>)
    ensures |bs| == |list| && forall i :: 0 <= i < |bs| ==> bs[i] == list[i].block
  {
    seq(|list|, i requires 0 <= i < |list| => list[i].block)
  }

  /** The object at position `k` of the list, null behind its end. */
  ghost function At(list: seq<FreeObject>, k: nat): (p: FreeObject?)
  {
    if k < |list| then list[k] else null
  }

  ghost predicate Linked(list: seq<FreeObject>)
    reads list
  {
    forall i {:trigger list[i].next} :: 0 <= i < |list| ==> list[i].next == At(list, i + 1)
  }

  ghost predicate Distinct(list: seq<FreeObject>)
  {
    forall i, j :: 0 <= i < j < |list| ==> list[i] != list[j]
  }

  lemma SortedIsDistinct(list: seq<FreeObject>)
    requires L.Sorted(Blocks(list))
    ensures Distinct(list)
  {
    forall i, j | 0 <= i < j < |list|
      ensures list[i] != list[j]
    {
      assert Blocks(list)[i].addr < Blocks(list)[j].addr;
    }
  }

  lemma BlocksRemove(list: seq<FreeObject>, k: nat)
    requires k < |list|
    ensures Blocks(list[..k] + list[k + 1..]) == L.RemoveAt(Blocks(list), k)
  {
  }

  lemma BlocksInsert(list: seq<FreeObject>, k: nat, p: FreeObject)
    requires k <= |list|
    ensures Blocks(list[..k] + [p] + list[k..]) == L.InsertAt(Blocks(list), k, p.block)
  {
  }

  class Heap {
    var freeList: FreeObject?
    var nObjects: int
    ghost var list: seq<FreeObject>       // the free list, first object first
    ghost var view: L.Heap                // the heap that this object holds
    ghost var returned: seq<L.Block>      // what was given back to the superclass heap

    /** The pointers form the list and the count is its length. */
    ghost predicate Chained()
      reads this, list
    {
      freeList == At(list, 0) && Linked(list) && nObjects == |list|
    }

    /** The list holds the free blocks; it is acyclic because they are sorted. */
    ghost predicate Valid()
      reads this, list
    {
      Chained() && view.free == Blocks(list) && L.Valid(view)
    }

    constructor ()
      ensures Valid() && view == L.Empty && returned == []
    {
      freeList, nObjects := null, 0;
      list, view, returned := [], L.Empty, [];
      new;
      assert L.Elements([]) == {};
    }

    /** `fromSuper` is what `Super::malloc(sz)` answers if it is asked. */
    method Malloc(sz: nat, fromSuper: FreeObject?) returns (ptr: FreeObject?)
      requires Valid() && L.Supplies(view, sz, BlockOf(fromSuper))
      modifies this, list
      ensures Valid() && view == L.Malloc(old(view), sz, BlockOf(fromSuper)) && returned == old(returned)
      ensures BlockOf(ptr) == L.MallocResult(old(view), sz, BlockOf(fromSuper))
    {
      L.MallocKeepsValid(view, sz, BlockOf(fromSuper));
      ptr := TakeFit(sz, fromSuper);
      view := L.Malloc(view, sz, BlockOf(fromSuper));
    }

    /** The list without its first fitting block, which is the result, or else the list as it is. */
    method TakeFit(sz: nat, fromSuper: FreeObject?) returns (ptr: FreeObject?)
      requires Chained() && L.Sorted(Blocks(list)) && view.free == Blocks(list)
      modifies this`freeList, this`nObjects, this`list, list
      ensures Chained()
      ensures Blocks(list) == L.Malloc(view, sz, BlockOf(fromSuper)).free
      ensures BlockOf(ptr) == L.MallocResult(view, sz, BlockOf(fromSuper))
    {
      var p, prev := FindFit(sz);
      if p == null {
        return fromSuper;
      }
      ghost var k := L.FitIndex(Blocks(list), sz);
      BlocksRemove(list, k);
      Unlink(p, prev, k);
      return p;
    }

    /** The search loop of `malloc`. */
    method FindFit(sz: nat) returns (p: FreeObject?, prev: FreeObject?)
      requires Chained()
      ensures var k := L.FitIndex(Blocks(list), sz); p == At(list, k) && prev == if k == 0 then null else list[k - 1]
    {
      p, prev := freeList, null;
      ghost var k := 0;
      while p != null && p.block.size < sz
        invariant k <= |list| && p == At(list, k) && prev == if k == 0 then null else list[k - 1]
        invariant forall j :: 0 <= j < k ==> Blocks(list)[j].size < sz
        decreases |list| - k
      {
        prev := p;
        p := p.next;
        k := k + 1;
      }
      FitIsUnique(Blocks(list), sz, k);
    }

    /** The search loop of `free`. */
    method FindPlace(addr: nat) returns (prev: FreeObject?)
      requires Chained()
      ensures var k := L.InsertIndex(Blocks(list), addr); prev == if k == 0 then null else list[k - 1]
    {
      var p := freeList;
      prev := null;
      ghost var k := 0;
      while p != null && p.block.addr <= addr
        invariant k <= |list| && p == At(list, k) && prev == if k == 0 then null else list[k - 1]
        invariant forall j :: 0 <= j < k ==> Blocks(list)[j].addr <= addr
        decreases |list| - k
      {
        prev := p;
        p := p.next;
        k := k + 1;
      }
      InsertIsUnique(Blocks(list), addr, k);
    }

    ghost function BlockOf(p: FreeObject?): (b: Option<L.Block>)
    {
      if p == null then None else Some(p.block)
    }

    lemma FitIsUnique(bs: seq<L.Block>, sz: nat, k: nat)
      requires k <= |bs| && (forall j :: 0 <= j < k ==> bs[j].size < sz) && (k < |bs| ==> bs[k].size >= sz)
      ensures L.FitIndex(bs, sz) == k
    {
    }

    /** Take the object at position `k` out of the chain. */
    method Unlink(p: FreeObject, prev: FreeObject?, ghost k: nat)
      requires Chained() && L.Sorted(Blocks(list))
      requires k < |list| && p == list[k] && prev == if k == 0 then null else list[k - 1]
      modifies this`freeList, this`nObjects, this`list, prev
      ensures list == old(list)[..k] + old(list)[k + 1..] && Chained()
    {
      SortedIsDistinct(list);
      ghost var before := list;
      if prev == null {
        freeList := p.next;
      } else {
        prev.next := p.next;
      }
      nObjects := nObjects - 1;
      list := list[..k] + list[k + 1..];
      forall i | 0 <= i < |list|
        ensures list[i].next == At(list, i + 1)
      {
        if i < k {
          assert list[i] == before[i];
        } else {
          assert list[i] == before[i + 1];
        }
      }
    }

    method Free(ptr: FreeObject?)
      requires Valid() && (ptr != null ==> ptr.block in view.live)
      modifies this, list, ptr
      ensures Valid() && returned == old(returned)
      ensures view == if ptr == null then old(view) else L.Free(old(view), ptr.block)
    {
      if ptr == null {
        return;
      }
      L.FreeReturnsBlock(view, ptr.block);
      NotFree(ptr);
      PutBack(ptr);
      view := L.Free(view, ptr.block);
    }

    /** The list with the block in its place. */
    method PutBack(ptr: FreeObject)
      requires Chained() && L.Sorted(Blocks(list)) && ptr !in list
      modifies this`freeList, this`nObjects, this`list, list, ptr
      ensures Chained()
      ensures var bs := old(Blocks(list)); Blocks(list) == L.InsertAt(bs, L.InsertIndex(bs, ptr.block.addr), ptr.block)
    {
      var prev := FindPlace(ptr.block.addr);
      ghost var k := L.InsertIndex(Blocks(list), ptr.block.addr);
      BlocksInsert(list, k, ptr);
      Link(ptr, prev, k);
    }

    lemma NotFree(ptr: FreeObject)
      requires Valid() && ptr.block in view.live
      ensures ptr !in list
    {
      forall i | 0 <= i < |list|
        ensures list[i] != ptr
      {
        assert Blocks(list)[i] in L.Elements(Blocks(list));
      }
    }

    lemma InsertIsUnique(bs: seq<L.Block>, addr: nat, k: nat)
      requires k <= |bs| && (forall j :: 0 <= j < k ==> bs[j].addr <= addr) && (k < |bs| ==> bs[k].addr > addr)
      ensures L.InsertIndex(bs, addr) == k
    {
    }

    /** Put an object into the chain at position `k`. */
    method Link(ptr: FreeObject, prev: FreeObject?, ghost k: nat)
      requires Chained() && L.Sorted(Blocks(list)) && ptr !in list
      requires k <= |list| && prev == if k == 0 then null else list[k - 1]
      modifies this`freeList, this`nObjects, this`list, prev, ptr
      ensures list == old(list)[..k] + [ptr] + old(list)[k..] && Chained()
    {
      SortedIsDistinct(list);
      ghost var before := list;
      nObjects := nObjects + 1;
      if prev == null {
        ptr.next := freeList;
        freeList := ptr;
      } else {
        ptr.next := prev.next;
        prev.next := ptr;
      }
      list := list[..k] + [ptr] + list[k..];
      forall i | 0 <= i < |list|
        ensures list[i].next == At(list, i + 1)
      {
        if i < k {
          assert list[i] == before[i];
        } else if i > k {
          assert list[i] == before[i - 1];
        }
      }
    }

    /** `__reset`: every free block goes back to the superclass heap, lowest address first, and the list is empty. */
    method Reset()
      requires Valid()
      modifies this
      ensures Valid() && view == L.Heap([], old(view.live), old(view.live)) && list == [] && nObjects == 0
      ensures returned == old(returned) + old(view.free)
    {
      L.LiveIsValid(view);
      ReturnAll();
      freeList, nObjects := null, 0;
      list, view := [], L.Heap([], view.live, view.live);
    }

    /** The loop of `__reset`. */
    method ReturnAll()
      requires Chained() && view.free == Blocks(list)
      modifies this`returned, this`nObjects
      ensures returned == old(returned) + view.free && nObjects == 0
    {
      var ptr := freeList;
      ghost var k := 0;
      while ptr != null
        invariant k <= |list| && ptr == At(list, k) && nObjects == |list| - k
        invariant returned == old(returned) + view.free[..k]
        decreases |list| - k
      {
        var oldptr := ptr;
        ptr := ptr.next;
        returned := returned + [oldptr.block];
        nObjects := nObjects - 1;
        k := k + 1;
      }
      assert view.free[..k] == view.free;
    }
  }
}
