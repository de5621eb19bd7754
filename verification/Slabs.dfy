/** The slab allocator at work inside its own heap bytes. */
module Slabs {
  import opened SlabState
  import opened Words

  class Heap {
    const base: nat
    const heap: array<u8>
    var ptr: nat
    var slabs: seq<Slab>
    ghost var book: Book

    ghost predicate Valid()
      reads this, heap
    {
      && heap.Length == HEAP_SIZE && base + HEAP_SIZE < 0x1_0000_0000_0000_0000
      && BookOk(slabs, book, base, ptr) && AllLinked(heap[..], base, book.lists)
    }

    /** mem_init. */
    constructor (base: nat)
      requires 0 < base && base + HEAP_SIZE < 0x1_0000_0000_0000_0000
      ensures Valid() && fresh(heap) && this.base == base && book.owner == map[]
    {
      this.base, ptr := base, base;
      heap := new u8[HEAP_SIZE](i => 0);
      slabs := seq(NUM_SLABS, i => Slab(0, 0, 0, 0, 0));
      book := Book(seq(NUM_SLABS, i => []), seq(NUM_SLABS, i => {}), seq(NUM_SLABS, i => {}), map[]);
    }

    /** A 64-bit store to the heap. */
    method Put64(a: nat, v: u64)
      requires base <= a && a - base + 8 <= heap.Length
      modifies heap
      ensures Le64(heap[..], a - base) == v
      ensures forall k :: 0 <= k < heap.Length && !(a - base <= k < a - base + 8) ==> heap[k] == old(heap[k])
    {
      hide Le, Bytes;
      Copy(heap, a - base, Bytes(v, 8));
      assert heap[..][a - base..a - base + 8] == Bytes(v, 8);
      Le64Reads(heap[..], a - base, v);
    }

    method BuildList(blk: nat, i: nat)
      requires i < NUM_SLABS && base <= blk && blk - base + CHUNK * Size(i) <= heap.Length
      requires blk + CHUNK * Size(i) < 0x1_0000_0000_0000_0000
      modifies heap
      ensures Linked(heap[..], base, NewBlocks(blk, Size(i)))
      ensures Chained(heap[..], blk - base, base, Size(i))
      ensures forall k :: 0 <= k < heap.Length && k < blk - base ==> heap[k] == old(heap[k])
    {
      hide Le64, Size, NewBlocks, NextOf;
      var bs := Size(i);
      Sized(i);
      ghost var list := NewBlocks(blk, bs);
      ListLength(blk, bs);
      var k := 0;
      while k < CHUNK
        invariant 0 <= k <= CHUNK
        invariant forall x :: 0 <= x < heap.Length && x < blk - base ==> heap[x] == old(heap[x])
        invariant LinkedUpTo(heap[..], base, list, k)
      {
        ListSteps(blk, bs, k);
        var b := blk + k * bs;
        ghost var was := heap[..];
        Put64(b, if k < CHUNK - 1 then b + bs else 0);
        OneMoreLinked(was, heap[..], base, list, k);
        k := k + 1;
      }
      InOrder(heap[..], base, blk, bs);
    }

    method SlabGrow(i: nat)
      requires Valid() && i < NUM_SLABS && book.lists[i] == []
      modifies heap, `ptr, `slabs, `book
      ensures Valid()
      ensures if old(ptr) + CHUNK * Size(i) > base + HEAP_SIZE then book == old(book) && heap[..] == old(heap[..])
              else book == Grown(old(book), i, old(ptr))
      ensures slabs[i].freeList == 0 <==> book.lists[i] == []
      ensures BlocksKept(old(book), base, old(heap[..]), heap[..], 0)
    {
      hide Le64, Size, SlabOk, BlocksOk, Linked, BlocksKept;
      var bs := Size(i);
      var needed := bs * CHUNK;
      HeadIsNull(slabs, book, base, ptr, i);
      NothingTouched(slabs, book, base, ptr, heap[..], 0);
      if ptr + needed > base + HEAP_SIZE { return; }
      ghost var was := heap[..];
      GrowKeeps(slabs, book, base, ptr, i);
      var blk := ptr;
      var s := slabs[i];
      BuildList(blk, i);
      WritesAbove(slabs, book, base, ptr, was, heap[..]);
      OldUntouched(slabs, book, base, ptr, was, heap[..]);
      OneListLinked(heap[..], base, book.lists, i, NewBlocks(blk, bs));
      ptr := ptr + needed;
      slabs := slabs[i := Slab(blk, blk + needed, blk, s.total + CHUNK, s.free + CHUNK)];
      book := Grown(book, i, blk);
      HeadIsNull(slabs, book, base, ptr, i);
    }

    method TakeHead(i: nat) returns (a: nat)
      requires Valid() && i < NUM_SLABS && book.lists[i] != []
      modifies `slabs, `book
      ensures Valid() && old(book).lists[i] != [] && a == old(book).lists[i][0] != 0 && book == Popped(old(book), i)
    {
      hide Le64, Size, SlabOk, BlocksOk, Linked;
      HeadIsNull(slabs, book, base, ptr, i);
      a := slabs[i].freeList;
      TailLinked(heap[..], base, book.lists[i]);
      OneListLinked(heap[..], base, book.lists, i, book.lists[i][1..]);
      PopKeeps(slabs, book, base, ptr, i);
      var next := Le64(heap[..], a - base);
      slabs := slabs[i := slabs[i].(freeList := next, free := slabs[i].free - 1)];
      book := Popped(book, i);
    }

    /** kmalloc: null exactly when the size fits no slab, or the slab's list is empty and the heap
        has no room for another chunk; else the head of the list, grown if it was empty. */
    method Kmalloc(size: nat) returns (a: nat)
      requires Valid()
      modifies heap, `ptr, `slabs, `book
      ensures Valid()
      ensures var i := SlabIndex(size);
        if i == NUM_SLABS || (old(book.lists[i]) == [] && old(ptr) + CHUNK * Size(i) > base + HEAP_SIZE) then
          a == 0 && book == old(book) && heap[..] == old(heap[..])
        else
          var ready := if old(book.lists[i]) == [] then Grown(old(book), i, old(ptr)) else old(book);
          ready.lists[i] != [] && a == ready.lists[i][0] && book == Popped(ready, i)
      ensures a != 0 ==> a in book.owner && book.owner[a] == Block(SlabIndex(size), Live)
      ensures BlocksKept(old(book), base, old(heap[..]), heap[..], 0)
    {
      hide Le64, Size, SlabOk, BlocksOk, Linked, BlocksKept;
      NothingTouched(slabs, book, base, ptr, heap[..], 0);
      var si := FindSlab(size);
      if si < 0 { return 0; }
      HeadIsNull(slabs, book, base, ptr, si);
      if slabs[si].freeList == 0 { SlabGrow(si); }
      if slabs[si].freeList == 0 { return 0; }
      a := TakeHead(si);
    }

    /** kfree of null, of a block in use, or of an address that is no block of a current chunk. */
    method Kfree(a: nat)
      requires Valid() && (a == 0 || (a in book.owner && book.owner[a].use == Live) || ForAllChunksForeign(slabs, a))
      modifies heap, `slabs, `book
      ensures Valid()
      ensures if a in old(book.owner) && old(book.owner[a].use) == Live then
          var i := old(book.owner[a].slab);
          i < NUM_SLABS && i < |old(slabs)| &&
          (if old(slabs)[i].start <= a < old(slabs)[i].end then book == Pushed(old(book), i, a)
           else book == Dropped(old(book), i, a) && slabs == old(slabs) && heap[..] == old(heap[..]))
        else book == old(book) && slabs == old(slabs) && heap[..] == old(heap[..])
      ensures BlocksKept(old(book), base, old(heap[..]), heap[..], a)
    {
      hide Le64, Size, SlabOk, BlocksOk, Linked, Distinct, BlocksKept;
      NothingTouched(slabs, book, base, ptr, heap[..], a);
      if a == 0 {
        NullIsNoBlock(slabs, book, base, ptr);
        return;
      }
      ghost var inUse := a in book.owner && book.owner[a].use == Live;
      if inUse { LivePlace(slabs, book, base, ptr, a); }
      var i := 0;
      while i < NUM_SLABS
        invariant 0 <= i <= NUM_SLABS
        invariant forall j :: 0 <= j < i ==> !(slabs[j].start <= a < slabs[j].end)
      {
        var s := slabs[i];
        if s.start <= a < s.end {
          var bs := Size(i);
          if (a - s.start) % bs != 0 { return; }
          ghost var was := heap[..];
          PushKeeps(slabs, book, base, ptr, i, a);
          HeadIsNull(slabs, book, base, ptr, i);
          Put64(a, s.freeList);
          WritesInBlock(slabs, book, base, ptr, was, heap[..], a);
          OthersUntouched(slabs, book, base, ptr, was, heap[..], a);
          ConsLinked(heap[..], base, a, book.lists[i]);
          OneListLinked(heap[..], base, book.lists, i, [a] + book.lists[i]);
          slabs := slabs[i := s.(freeList := a, free := s.free + 1)];
          book := Pushed(book, i, a);
          return;
        }
        i := i + 1;
      }
      if inUse {
        DropKeeps(slabs, book, base, ptr, book.owner[a].slab, a);
        book := Dropped(book, book.owner[a].slab, a);
      }
    }

    /** The holder of a block writes into it. */
    method Store(a: nat, off: nat, bytes: seq<u8>)
      requires Valid() && a in book.owner && book.owner[a].use == Live && book.owner[a].slab < NUM_SLABS
      requires off + |bytes| <= Size(book.owner[a].slab)
      modifies heap
      ensures Valid() && book == old(book) && slabs == old(slabs)
      ensures base <= a && a - base + off + |bytes| <= heap.Length
      ensures heap[..] == Splice(old(heap[..]), a - base + off, bytes)
      ensures BlocksKept(book, base, old(heap[..]), heap[..], a)
    {
      hide Le64, Size, SlabOk, Linked, BlocksKept;
      ghost var was := heap[..];
      Copy(heap, a - base + off, bytes);
      WritesInBlock(slabs, book, base, ptr, was, heap[..], a);
      OthersUntouched(slabs, book, base, ptr, was, heap[..], a);
    }
  }

  /** Every block in use but that at `a` holds the bytes it held. */
  predicate BlocksKept(book: Book, base: nat, heap: seq<u8>, heap2: seq<u8>, a: nat) {
    && |heap2| == |heap|
    && forall b :: b in book.owner && book.owner[b].use == Live && b != a && book.owner[b].slab < NUM_SLABS ==>
         base <= b && b - base + Size(book.owner[b].slab) <= |heap|
         && heap2[b - base..b - base + Size(book.owner[b].slab)] == heap[b - base..b - base + Size(book.owner[b].slab)]
  }

  lemma NothingTouched(slabs: seq<Slab>, book: Book, base: nat, ptr: nat, heap: seq<u8>, a: nat)
    requires |heap| == HEAP_SIZE && BookOk(slabs, book, base, ptr)
    ensures BlocksKept(book, base, heap, heap, a)
  {
    hide SlabOk;
  }

  lemma OldUntouched(slabs: seq<Slab>, book: Book, base: nat, ptr: nat, heap: seq<u8>, heap2: seq<u8>)
    requires BookOk(slabs, book, base, ptr) && |heap2| == |heap| == HEAP_SIZE
    requires forall k :: 0 <= k < |heap| && k < ptr - base ==> heap2[k] == heap[k]
    ensures BlocksKept(book, base, heap, heap2, 0)
  {
    hide SlabOk;
  }

  lemma OthersUntouched(slabs: seq<Slab>, book: Book, base: nat, ptr: nat, heap: seq<u8>, heap2: seq<u8>, a: nat)
    requires BookOk(slabs, book, base, ptr) && |heap2| == |heap| == HEAP_SIZE && a in book.owner
    requires forall k :: 0 <= k < |heap| && !(a - base <= k < a - base + Size(book.owner[a].slab)) ==>
      heap2[k] == heap[k]
    ensures BlocksKept(book, base, heap, heap2, a)
  {
    hide SlabOk;
  }

  /** The first slab whose blocks are large enough; NUM_SLABS when there is none. */
  function SlabIndex(size: nat): (i: nat)
    ensures i <= NUM_SLABS && (i < NUM_SLABS ==> size <= Size(i)) && (i > 0 ==> size > Size(i - 1))
  {
    if size <= 16 then 0 else if size <= 32 then 1 else if size <= 64 then 2 else if size <= 128 then 3
    else if size <= 256 then 4 else if size <= 512 then 5 else if size <= 1024 then 6 else 7
  }

  /** slab_index. */
  method FindSlab(size: nat) returns (i: int)
    ensures if SlabIndex(size) == NUM_SLABS then i == -1 else i == SlabIndex(size)
  {
    i := 0;
    while i < NUM_SLABS
      invariant 0 <= i <= NUM_SLABS && forall j :: 0 <= j < i ==> size > Size(j)
    {
      if size <= Size(i) { return; }
      i := i + 1;
    }
    return -1;
  }

  predicate ForAllChunksForeign(slabs: seq<Slab>, a: nat) {
    forall i :: 0 <= i < |slabs| && i < NUM_SLABS && slabs[i].start <= a < slabs[i].end ==>
      (a - slabs[i].start) % Size(i) != 0
  }

  /** 64 blocks of bs bytes from byte `at` of the heap on, each holding the address of the next, the last null. */
  predicate Chained(heap: seq<u8>, at: nat, base: nat, bs: nat) {
    forall k {:trigger Word(heap, at, bs, k)} :: 0 <= k < 64 ==>
      Word(heap, at, bs, k) == if k < 63 then base + at + (k + 1) * bs else 0
  }

  function Word(heap: seq<u8>, at: nat, bs: nat, k: nat): int {
    if at + k * bs + 8 <= |heap| then Le64(heap, at + k * bs) else -1
  }

  lemma InOrder(heap: seq<u8>, base: nat, blk: nat, bs: nat)
    requires base <= blk && Linked(heap, base, NewBlocks(blk, bs)) && bs >= 16
    ensures Chained(heap, blk - base, base, bs)
  {
    hide Le64, NewBlocks, NextOf;
    var list := NewBlocks(blk, bs);
    ListLength(blk, bs);
    forall k {:trigger Word(heap, blk - base, bs, k)} | 0 <= k < 64
      ensures Word(heap, blk - base, bs, k) == if k < 63 then blk + (k + 1) * bs else 0
    {
      ListSteps(blk, bs, k);
      assert list[k] - base == blk - base + k * bs && (k + 1) * bs == k * bs + bs;
    }
  }

  predicate LinkedUpTo(heap: seq<u8>, base: nat, list: seq<nat>, n: nat) {
    forall k {:trigger list[k]} :: 0 <= k < n && k < |list| ==>
      base <= list[k] && list[k] - base + 8 <= |heap| && Le64(heap, list[k] - base) == NextOf(list, k)
  }

  lemma Sized(i: nat)
    requires i < NUM_SLABS
    ensures Size(i) >= 16
  {
  }

  lemma ListLength(blk: nat, bs: nat)
    ensures |NewBlocks(blk, bs)| == CHUNK
  {
  }

  lemma ListSteps(blk: nat, bs: nat, k: nat)
    requires k < CHUNK && bs >= 16
    ensures var list := NewBlocks(blk, bs);
      && list[k] == blk + k * bs && blk <= list[k] && list[k] + bs <= blk + CHUNK * bs
      && (forall l {:trigger list[l]} :: 0 <= l < k ==> blk <= list[l] && list[l] + 8 <= list[k])
      && NextOf(list, k) == if k < CHUNK - 1 then list[k] + bs else 0
  {
    var list := NewBlocks(blk, bs);
    Steps(k, CHUNK, bs);
    forall l {:trigger list[l]} | 0 <= l < k ensures blk <= list[l] && list[l] + 8 <= list[k] { Steps(l, k, bs); }
    assert (k + 1) * bs == k * bs + bs;
  }

  lemma OneMoreLinked(heap: seq<u8>, heap2: seq<u8>, base: nat, list: seq<nat>, k: nat)
    requires k < |list| && LinkedUpTo(heap, base, list, k) && |heap2| == |heap|
    requires forall l {:trigger list[l]} :: 0 <= l < k ==> list[l] + 8 <= list[k]
    requires base <= list[k] && list[k] - base + 8 <= |heap| && Le64(heap2, list[k] - base) == NextOf(list, k)
    requires forall x :: 0 <= x < |heap| && !(list[k] - base <= x < list[k] - base + 8) ==> heap2[x] == heap[x]
    ensures LinkedUpTo(heap2, base, list, k + 1)
  {
    hide Le64, NextOf;
    forall l {:trigger list[l]} | 0 <= l < k ensures Le64(heap2, list[l] - base) == NextOf(list, l) {
      SameWord(heap, heap2, list[l] - base);
    }
  }

  /** The list head is null exactly when there are no free blocks. */
  lemma HeadIsNull(slabs: seq<Slab>, book: Book, base: nat, ptr: nat, i: nat)
    requires BookOk(slabs, book, base, ptr) && i < NUM_SLABS
    ensures slabs[i].freeList == (if book.lists[i] == [] then 0 else book.lists[i][0])
    ensures slabs[i].freeList == 0 <==> book.lists[i] == []
    ensures slabs[i].freeList < base + HEAP_SIZE
  {
    hide Distinct;
    assert SlabOk(i, slabs[i], book.lists[i], book.live[i], book.leaked[i], book.owner, base, ptr);
    if book.lists[i] != [] { assert book.lists[i][0] in book.lists[i]; }
  }

  lemma NullIsNoBlock(slabs: seq<Slab>, book: Book, base: nat, ptr: nat)
    requires BookOk(slabs, book, base, ptr)
    ensures 0 !in book.owner
  {
  }

  /** A block in use is in its slab's view and in no other slab's chunk, and lies on its raster in its own. */
  lemma LivePlace(slabs: seq<Slab>, book: Book, base: nat, ptr: nat, a: nat)
    requires BookOk(slabs, book, base, ptr) && a in book.owner && book.owner[a].use == Live
    ensures book.owner[a].slab < NUM_SLABS && a in book.live[book.owner[a].slab]
    ensures base <= a && a - base + 8 <= HEAP_SIZE
    ensures forall j :: 0 <= j < NUM_SLABS && slabs[j].start <= a < slabs[j].end ==>
      book.owner[a].slab == j && (a - slabs[j].start) % Size(j) == 0
  {
    hide Distinct;
    var i := book.owner[a].slab;
    assert SlabOk(i, slabs[i], book.lists[i], book.live[i], book.leaked[i], book.owner, base, ptr);
    forall j | 0 <= j < NUM_SLABS && slabs[j].start <= a < slabs[j].end
      ensures i == j && (a - slabs[j].start) % Size(j) == 0 {
      assert SlabOk(j, slabs[j], book.lists[j], book.live[j], book.leaked[j], book.owner, base, ptr);
    }
  }
}
