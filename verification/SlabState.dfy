/**
 The book-keeping behind the kernel's slab allocator: who holds which block of the heap. Free
 blocks are chained through their own first eight bytes; a slab remembers only the chunk it
 carved last, so a block of an earlier chunk that is given back belongs to nobody from then on.
 */
module SlabState {
  import opened Words

  const NUM_SLABS := 7
  const HEAP_SIZE := 2 * 1024 * 1024
  const CHUNK := 64

  function Size(i: nat): (n: nat)
    requires i < NUM_SLABS
    ensures 16 <= n <= 1024
  {
    [16, 32, 64, 128, 256, 512, 1024][i]
  }

  /** A struct Slab but for its block size, which is Size of its index; addresses are numbers, 0 is null. */
  datatype Slab = Slab(start: nat, end: nat, freeList: nat, total: nat, free: nat)

  datatype Use = Free | Live | Leaked
  datatype Block = Block(slab: nat, use: Use)

  /** For each slab its free blocks in list order, the blocks handed out and the blocks lost. */
  datatype Book = Book(lists: seq<seq<nat>>, live: seq<set<nat>>, leaked: seq<set<nat>>, owner: map<nat, Block>)

  predicate Distinct(list: seq<nat>) {
    forall k, l :: 0 <= k < l < |list| ==> list[k] != list[l]
  }

  /** Blocks lie in the used part of the heap and do not overlap. */
  predicate BlocksOk(owner: map<nat, Block>, base: nat, ptr: nat) {
    && (forall a :: a in owner ==> owner[a].slab < NUM_SLABS && base <= a && a + Size(owner[a].slab) <= ptr)
    && (forall a, b :: a in owner && b in owner && a < b ==> a + Size(owner[a].slab) <= b)
  }

  /** The views of one slab agree with the owners, its counters with the views; its free blocks
      lie in its chunk, and its chunk holds no other slab's blocks. */
  ghost predicate SlabOk(i: nat, s: Slab, list: seq<nat>, live: set<nat>, leaked: set<nat>, owner: map<nat, Block>,
      base: nat, ptr: nat)
    requires i < NUM_SLABS
  {
    && s.freeList == (if list == [] then 0 else list[0])
    && s.free == |list| && s.total == |list| + |live| + |leaked|
    && Distinct(list)
    && (forall a :: a in list ==> s.start <= a < s.end)
    && (forall a :: a in list <==> a in owner && owner[a] == Block(i, Free))
    && (forall a :: a in live <==> a in owner && owner[a] == Block(i, Live))
    && (forall a :: a in leaked <==> a in owner && owner[a] == Block(i, Leaked))
    && (forall a :: a in owner && s.start <= a < s.end ==> owner[a].slab == i && (a - s.start) % Size(i) == 0)
    && (s.start == s.end == 0 || base <= s.start <= s.end <= ptr)
  }

  predicate Shaped(slabs: seq<Slab>, book: Book) {
    |slabs| == NUM_SLABS == |book.lists| == |book.live| == |book.leaked|
  }

  ghost predicate BookOk(slabs: seq<Slab>, book: Book, base: nat, ptr: nat) {
    && Shaped(slabs, book) && 0 < base <= ptr <= base + HEAP_SIZE
    && BlocksOk(book.owner, base, ptr)
    && forall i :: 0 <= i < NUM_SLABS ==>
         SlabOk(i, slabs[i], book.lists[i], book.live[i], book.leaked[i], book.owner, base, ptr)
  }

  function NextOf(list: seq<nat>, k: nat): nat {
    if k + 1 < |list| then list[k + 1] else 0
  }

  /** The chain from block to block in the heap bytes, ending in null. */
  predicate Linked(heap: seq<u8>, base: nat, list: seq<nat>) {
    forall k {:trigger list[k]} :: 0 <= k < |list| ==>
      base <= list[k] && list[k] - base + 8 <= |heap| && Le64(heap, list[k] - base) == NextOf(list, k)
  }

  // ---------- what the operations do to the book ----------

  /** The head of the list of slab i handed out. */
  function Popped(book: Book, i: nat): Book
    requires i < |book.lists| == |book.live| && book.lists[i] != []
  {
    var a := book.lists[i][0];
    book.(lists := book.lists[i := book.lists[i][1..]], live := book.live[i := book.live[i] + {a}],
          owner := book.owner[a := Block(i, Live)])
  }

  /** A live block of slab i put back at the head of its list. */
  function Pushed(book: Book, i: nat, a: nat): Book
    requires i < |book.lists| == |book.live|
  {
    book.(lists := book.lists[i := [a] + book.lists[i]], live := book.live[i := book.live[i] - {a}],
          owner := book.owner[a := Block(i, Free)])
  }

  /** A live block of slab i given back to nobody. */
  function Dropped(book: Book, i: nat, a: nat): Book
    requires i < |book.live| == |book.leaked|
  {
    book.(live := book.live[i := book.live[i] - {a}], leaked := book.leaked[i := book.leaked[i] + {a}],
          owner := book.owner[a := Block(i, Leaked)])
  }

  function NewBlocks(blk: nat, bs: nat): (list: seq<nat>)
    ensures |list| == CHUNK && forall k :: 0 <= k < CHUNK ==> list[k] == blk + k * bs
  {
    seq(CHUNK, k requires 0 <= k < CHUNK => blk + k * bs)
  }

  /** A new chunk of slab i at blk, all of it free. */
  function Grown(book: Book, i: nat, blk: nat): Book
    requires i < NUM_SLABS && i < |book.lists|
  {
    book.(lists := book.lists[i := NewBlocks(blk, Size(i))],
          owner := book.owner + map a | a in NewBlocks(blk, Size(i)) :: Block(i, Free))
  }

  /** A block given back and asked for again is the one handed out, and all books are as before. */
  lemma PopUndoesPush(book: Book, i: nat, a: nat)
    requires i < |book.lists| == |book.live| && a in book.live[i] && a in book.owner && book.owner[a] == Block(i, Live)
    ensures Pushed(book, i, a).lists[i] != [] && Pushed(book, i, a).lists[i][0] == a
    ensures Popped(Pushed(book, i, a), i) == book
  {
    var b2 := Popped(Pushed(book, i, a), i);
    assert ([a] + book.lists[i])[1..] == book.lists[i];
    assert b2.lists == book.lists && b2.live[i] == book.live[i];
    assert b2.live == book.live && b2.owner == book.owner;
  }

  /** Owners that differ only in blocks of slab i leave the other slabs' views alone. */
  lemma OtherSlab(i: nat, j: nat, s: Slab, list: seq<nat>, live: set<nat>, leaked: set<nat>,
                  owner: map<nat, Block>, owner2: map<nat, Block>, base: nat, ptr: nat, ptr2: nat)
    requires i < NUM_SLABS && j < NUM_SLABS && i != j && ptr <= ptr2
    requires SlabOk(j, s, list, live, leaked, owner, base, ptr)
    requires forall a :: a in owner ==> a in owner2
    requires forall a :: a in owner2 && (a !in owner || owner2[a] != owner[a]) ==> owner2[a].slab == i
    requires forall a :: a in owner && owner2[a] != owner[a] ==> owner[a].slab == i
    requires forall a :: a in owner2 && a !in owner ==> a >= ptr && base <= a
    ensures SlabOk(j, s, list, live, leaked, owner2, base, ptr2)
  {
    hide Distinct;
  }

  /** book2 differs from book only in slab i and in the owners of its blocks, of which it may have more. */
  predicate OnlySlab(i: nat, book: Book, book2: Book, ptr: nat) {
    && |book.lists| == |book2.lists| && |book.live| == |book2.live| && |book.leaked| == |book2.leaked|
    && (forall j :: 0 <= j < |book.lists| && j != i ==> book2.lists[j] == book.lists[j])
    && (forall j :: 0 <= j < |book.live| && j != i ==> book2.live[j] == book.live[j])
    && (forall j :: 0 <= j < |book.leaked| && j != i ==> book2.leaked[j] == book.leaked[j])
    && (forall a :: a in book.owner ==> a in book2.owner)
    && (forall a :: a in book2.owner && (a !in book.owner || book2.owner[a] != book.owner[a]) ==>
      book2.owner[a].slab == i)
    && (forall a :: a in book.owner && book2.owner[a] != book.owner[a] ==> book.owner[a].slab == i)
    && (forall a :: a in book2.owner && a !in book.owner ==> a >= ptr)
  }

  lemma Rebuilt(i: nat, slabs: seq<Slab>, s2: Slab, book: Book, book2: Book, base: nat, ptr: nat, ptr2: nat)
    requires BookOk(slabs, book, base, ptr) && i < NUM_SLABS && ptr <= ptr2 <= base + HEAP_SIZE
    requires OnlySlab(i, book, book2, ptr) && BlocksOk(book2.owner, base, ptr2)
    requires SlabOk(i, s2, book2.lists[i], book2.live[i], book2.leaked[i], book2.owner, base, ptr2)
    ensures BookOk(slabs[i := s2], book2, base, ptr2)
  {
    hide SlabOk, BlocksOk;
    forall j | 0 <= j < NUM_SLABS && j != i
      ensures SlabOk(j, slabs[j], book2.lists[j], book2.live[j], book2.leaked[j], book2.owner, base, ptr2) {
      OtherSlab(i, j, slabs[j], book.lists[j], book.live[j], book.leaked[j], book.owner, book2.owner, base, ptr, ptr2);
    }
  }

  lemma PopKeeps(slabs: seq<Slab>, book: Book, base: nat, ptr: nat, i: nat)
    requires BookOk(slabs, book, base, ptr) && i < NUM_SLABS && book.lists[i] != []
    ensures slabs[i].free > 0
    ensures BookOk(slabs[i := slabs[i].(freeList := NextOf(book.lists[i], 0), free := slabs[i].free - 1)],
      Popped(book, i), base, ptr)
  {
    hide SlabOk, BlocksOk;
    PopSlab(i, slabs[i], book.lists[i], book.live[i], book.leaked[i], book.owner, base, ptr);
    SameSlabs(book.owner, Popped(book, i).owner, base, ptr);
    Rebuilt(i, slabs, slabs[i].(freeList := NextOf(book.lists[i], 0), free := slabs[i].free - 1), book,
      Popped(book, i), base, ptr, ptr);
  }

  lemma SameSlabs(owner: map<nat, Block>, owner2: map<nat, Block>, base: nat, ptr: nat)
    requires BlocksOk(owner, base, ptr) && owner2.Keys == owner.Keys
    requires forall a :: a in owner ==> owner2[a].slab == owner[a].slab
    ensures BlocksOk(owner2, base, ptr)
  {
  }

  lemma PopSlab(i: nat, s: Slab, list: seq<nat>, live: set<nat>, leaked: set<nat>, owner: map<nat, Block>, base: nat,
      ptr: nat)
    requires i < NUM_SLABS && SlabOk(i, s, list, live, leaked, owner, base, ptr) && list != []
    ensures s.free > 0 && list[0] in owner && owner[list[0]].slab == i
    ensures SlabOk(i, s.(freeList := NextOf(list, 0), free := s.free - 1), list[1..], live + {list[0]}, leaked,
                   owner[list[0] := Block(i, Live)], base, ptr)
  {
    var a := list[0];
    assert a in list && a !in live;
    assert forall b :: b in list <==> b == a || b in list[1..];
    assert forall k :: 0 <= k < |list[1..]| ==> list[1..][k] == list[k + 1];
  }

  /** Giving back a block that lies in its slab's chunk. */
  lemma PushKeeps(slabs: seq<Slab>, book: Book, base: nat, ptr: nat, i: nat, a: nat)
    requires BookOk(slabs, book, base, ptr) && i < NUM_SLABS && a in book.live[i] && slabs[i].start <= a < slabs[i].end
    ensures BookOk(slabs[i := slabs[i].(freeList := a, free := slabs[i].free + 1)], Pushed(book, i, a), base, ptr)
  {
    hide SlabOk, BlocksOk;
    PushSlab(i, slabs[i], book.lists[i], book.live[i], book.leaked[i], book.owner, base, ptr, a);
    SameSlabs(book.owner, Pushed(book, i, a).owner, base, ptr);
    Rebuilt(i, slabs, slabs[i].(freeList := a, free := slabs[i].free + 1), book, Pushed(book, i, a), base, ptr, ptr);
  }

  lemma PushSlab(i: nat, s: Slab, list: seq<nat>, live: set<nat>, leaked: set<nat>, owner: map<nat, Block>, base: nat,
      ptr: nat, a: nat)
    requires i < NUM_SLABS && SlabOk(i, s, list, live, leaked, owner, base, ptr) && a in live && s.start <= a < s.end
    ensures a in owner && owner[a].slab == i
    ensures SlabOk(i, s.(freeList := a, free := s.free + 1), [a] + list, live - {a}, leaked,
      owner[a := Block(i, Free)], base, ptr)
  {
    assert a !in list && a !in leaked;
    assert forall b :: b in [a] + list <==> b == a || b in list;
  }

  /** Giving back a block of an earlier chunk. */
  lemma DropKeeps(slabs: seq<Slab>, book: Book, base: nat, ptr: nat, i: nat, a: nat)
    requires BookOk(slabs, book, base, ptr) && i < NUM_SLABS && a in book.live[i]
    ensures BookOk(slabs, Dropped(book, i, a), base, ptr)
  {
    hide SlabOk, BlocksOk;
    DropSlab(i, slabs[i], book.lists[i], book.live[i], book.leaked[i], book.owner, base, ptr, a);
    SameSlabs(book.owner, Dropped(book, i, a).owner, base, ptr);
    Rebuilt(i, slabs, slabs[i], book, Dropped(book, i, a), base, ptr, ptr);
    assert slabs[i := slabs[i]] == slabs;
  }

  lemma DropSlab(i: nat, s: Slab, list: seq<nat>, live: set<nat>, leaked: set<nat>, owner: map<nat, Block>, base: nat,
      ptr: nat, a: nat)
    requires i < NUM_SLABS && SlabOk(i, s, list, live, leaked, owner, base, ptr) && a in live
    ensures a in owner && owner[a].slab == i
    ensures SlabOk(i, s, list, live - {a}, leaked + {a}, owner[a := Block(i, Leaked)], base, ptr)
  {
    hide Distinct;
    assert a !in list && a !in leaked;
  }

  /** Carving a new chunk for a slab without free blocks. */
  lemma GrowKeeps(slabs: seq<Slab>, book: Book, base: nat, ptr: nat, i: nat)
    requires BookOk(slabs, book, base, ptr) && i < NUM_SLABS && book.lists[i] == []
    requires ptr + CHUNK * Size(i) <= base + HEAP_SIZE
    ensures var needed := CHUNK * Size(i);
      BookOk(slabs[i := Slab(ptr, ptr + needed, ptr, slabs[i].total + CHUNK, slabs[i].free + CHUNK)],
        Grown(book, i, ptr), base, ptr + needed)
  {
    hide SlabOk, BlocksOk, Size;
    var needed := CHUNK * Size(i);
    var book2 := Grown(book, i, ptr);
    NewBlocksApart(ptr, i);
    OldBlocksBelow(book.owner, base, ptr);
    GrowSlab(i, slabs[i], book.live[i], book.leaked[i], book.owner, base, ptr);
    GrowBlocks(i, book.owner, base, ptr);
    Rebuilt(i, slabs, Slab(ptr, ptr + needed, ptr, slabs[i].total + CHUNK, slabs[i].free + CHUNK), book, book2, base,
      ptr, ptr + needed);
  }

  lemma OldBlocksBelow(owner: map<nat, Block>, base: nat, ptr: nat)
    requires BlocksOk(owner, base, ptr)
    ensures forall a :: a in owner ==> base <= a && a < ptr
  {
  }

  lemma NewBlocksApart(blk: nat, i: nat)
    requires i < NUM_SLABS
    ensures Distinct(NewBlocks(blk, Size(i)))
    ensures forall a :: a in NewBlocks(blk, Size(i)) ==>
      blk <= a && a + Size(i) <= blk + CHUNK * Size(i) && (a - blk) % Size(i) == 0
    ensures forall a, b :: a in NewBlocks(blk, Size(i)) && b in NewBlocks(blk, Size(i)) && a < b ==> a + Size(i) <= b
  {
    hide Size;
    var bs := Size(i);
    var list := NewBlocks(blk, bs);
    forall k, l | 0 <= k < l < CHUNK ensures list[k] + bs <= list[l] { Steps(k, l, bs); }
    forall k | 0 <= k < CHUNK ensures list[k] + bs <= blk + CHUNK * bs && (list[k] - blk) % bs == 0 && blk <= list[k] {
      Steps(k, CHUNK, bs);
      Multiple(i, k);
      assert list[k] - blk == k * bs;
    }
  }

  lemma {:induction false} Steps(k: nat, l: nat, bs: nat)
    requires k < l
    ensures 0 <= k * bs && k * bs + bs <= l * bs
    decreases l
  {
    assert l * bs == (l - 1) * bs + bs;
    if k < l - 1 { Steps(k, l - 1, bs); }
  }

  lemma Multiple(i: nat, k: nat)
    requires i < NUM_SLABS
    ensures k * Size(i) % Size(i) == 0
  {
    match i
    case 0 => assert k * 16 % 16 == 0;
    case 1 => assert k * 32 % 32 == 0;
    case 2 => assert k * 64 % 64 == 0;
    case 3 => assert k * 128 % 128 == 0;
    case 4 => assert k * 256 % 256 == 0;
    case 5 => assert k * 512 % 512 == 0;
    case 6 => assert k * 1024 % 1024 == 0;
  }

  lemma GrowBlocks(i: nat, owner: map<nat, Block>, base: nat, ptr: nat)
    requires i < NUM_SLABS && BlocksOk(owner, base, ptr) && base <= ptr
    ensures BlocksOk(owner + map a | a in NewBlocks(ptr, Size(i)) :: Block(i, Free), base, ptr + CHUNK * Size(i))
  {
    hide NewBlocks;
    NewBlocksApart(ptr, i);
  }

  lemma GrowSlab(i: nat, s: Slab, live: set<nat>, leaked: set<nat>, owner: map<nat, Block>, base: nat, ptr: nat)
    requires i < NUM_SLABS && SlabOk(i, s, [], live, leaked, owner, base, ptr) && BlocksOk(owner, base, ptr)
    requires 0 < base <= ptr
    ensures var needed := CHUNK * Size(i);
      SlabOk(i, Slab(ptr, ptr + needed, ptr, s.total + CHUNK, s.free + CHUNK), NewBlocks(ptr, Size(i)), live, leaked,
             owner + map a | a in NewBlocks(ptr, Size(i)) :: Block(i, Free), base, ptr + needed)
  {
    hide BlocksOk, Size, Distinct;
    OldBlocksBelow(owner, base, ptr);
    NewBlocksApart(ptr, i);
    assert NewBlocks(ptr, Size(i))[0] == ptr;
  }

  // ---------- the chains in the heap bytes ----------

  predicate AllLinked(heap: seq<u8>, base: nat, lists: seq<seq<nat>>) {
    forall i :: 0 <= i < |lists| ==> Linked(heap, base, lists[i])
  }

  lemma SameWord(heap: seq<u8>, heap2: seq<u8>, at: nat)
    requires |heap2| == |heap| && at + 8 <= |heap| && forall k :: at <= k < at + 8 ==> heap2[k] == heap[k]
    ensures Le64(heap2, at) == Le64(heap, at)
  {
    hide Le;
    assert heap2[at..at + 8] == heap[at..at + 8];
  }

  lemma StaysLinked(heap: seq<u8>, heap2: seq<u8>, base: nat, list: seq<nat>, lo: nat, hi: nat)
    requires |heap2| == |heap| && forall k :: 0 <= k < |heap| && !(lo <= k < hi) ==> heap2[k] == heap[k]
    requires Linked(heap, base, list) && forall a :: a in list ==> a - base + 8 <= lo || hi <= a - base
    ensures Linked(heap2, base, list)
  {
    hide Le64;
    forall k {:trigger list[k]} | 0 <= k < |list| ensures Le64(heap2, list[k] - base) == NextOf(list, k) {
      assert list[k] in list;
      SameWord(heap, heap2, list[k] - base);
    }
  }

  /** Whatever the holder of a block writes into it, every chain stays as it was. */
  lemma WritesInBlock(slabs: seq<Slab>, book: Book, base: nat, ptr: nat, heap: seq<u8>, heap2: seq<u8>, a: nat)
    requires BookOk(slabs, book, base, ptr) && a in book.owner && book.owner[a].use != Free
    requires |heap2| == |heap| && forall k ::
      0 <= k < |heap| && !(a - base <= k < a - base + Size(book.owner[a].slab)) ==> heap2[k] == heap[k]
    requires AllLinked(heap, base, book.lists)
    ensures AllLinked(heap2, base, book.lists)
  {
    hide Linked;
    forall i | 0 <= i < NUM_SLABS ensures Linked(heap2, base, book.lists[i]) {
      assert SlabOk(i, slabs[i], book.lists[i], book.live[i], book.leaked[i], book.owner, base, ptr);
      StaysLinked(heap, heap2, base, book.lists[i], a - base, a - base + Size(book.owner[a].slab));
    }
  }

  /** Writes above the blocks so far leave their chains. */
  lemma WritesAbove(slabs: seq<Slab>, book: Book, base: nat, ptr: nat, heap: seq<u8>, heap2: seq<u8>)
    requires BookOk(slabs, book, base, ptr)
    requires |heap2| == |heap| && forall k :: 0 <= k < |heap| && k < ptr - base ==> heap2[k] == heap[k]
    requires AllLinked(heap, base, book.lists)
    ensures AllLinked(heap2, base, book.lists)
  {
    hide Linked;
    forall i | 0 <= i < NUM_SLABS ensures Linked(heap2, base, book.lists[i]) {
      assert SlabOk(i, slabs[i], book.lists[i], book.live[i], book.leaked[i], book.owner, base, ptr);
      StaysLinked(heap, heap2, base, book.lists[i], ptr - base, if |heap| > ptr - base then |heap| else ptr - base);
    }
  }

  lemma OneListLinked(heap: seq<u8>, base: nat, lists: seq<seq<nat>>, i: nat, list: seq<nat>)
    requires AllLinked(heap, base, lists) && i < |lists| && Linked(heap, base, list)
    ensures AllLinked(heap, base, lists[i := list])
  {
    hide Linked;
  }

  lemma TailLinked(heap: seq<u8>, base: nat, list: seq<nat>)
    requires Linked(heap, base, list) && list != []
    ensures Linked(heap, base, list[1..]) && base <= list[0] && list[0] - base + 8 <= |heap|
    ensures Le64(heap, list[0] - base) == NextOf(list, 0)
  {
    hide Le64;
    forall k {:trigger list[1..][k]} | 0 <= k < |list[1..]|
      ensures base <= list[1..][k] && list[1..][k] - base + 8 <= |heap|
      ensures Le64(heap, list[1..][k] - base) == NextOf(list[1..], k) {
      assert list[1..][k] == list[k + 1];
    }
  }

  lemma ConsLinked(heap: seq<u8>, base: nat, a: nat, list: seq<nat>)
    requires Linked(heap, base, list) && base <= a && a - base + 8 <= |heap|
    requires Le64(heap, a - base) == if list == [] then 0 else list[0]
    ensures Linked(heap, base, [a] + list)
  {
    hide Le64;
    forall k {:trigger ([a] + list)[k]} | 0 < k < |[a] + list|
      ensures base <= ([a] + list)[k] && ([a] + list)[k] - base + 8 <= |heap|
        && Le64(heap, ([a] + list)[k] - base) == NextOf([a] + list, k) {
      assert ([a] + list)[k] == list[k - 1];
    }
  }

  // ---------- what the book says ----------

  /** The block reached from a by following n next pointers; stays at null. */
  function Walk(heap: seq<u8>, base: nat, a: nat, n: nat): nat
    decreases n
  {
    if n == 0 || a < base || a - base + 8 > |heap| then a else Walk(heap, base, Le64(heap, a - base), n - 1)
  }

  /** Following the pointers in the heap from a slab's list head gives its free blocks one after
      the other, all different, and then null: the chain has no cycle. */
  lemma {:induction false} ChainHolds(heap: seq<u8>, base: nat, list: seq<nat>, n: nat)
    requires Linked(heap, base, list) && n <= |list| && base > 0
    ensures Walk(heap, base, if list == [] then 0 else list[0], n) == if n < |list| then list[n] else 0
    decreases |list|
  {
    hide Le64;
    if n > 0 {
      TailLinked(heap, base, list);
      ChainHolds(heap, base, list[1..], n - 1);
    }
  }

  /** Free blocks of different slabs are different, no free block is in use, and the blocks of a
      slab are all accounted for. */
  lemma Accounted(slabs: seq<Slab>, book: Book, base: nat, ptr: nat, i: nat, j: nat)
    requires BookOk(slabs, book, base, ptr) && i < NUM_SLABS && j < NUM_SLABS
    ensures i != j ==> forall a :: a in book.lists[i] ==> a !in book.lists[j]
    ensures forall a :: a in book.lists[i] ==> a !in book.live[j] && slabs[i].start <= a < slabs[i].end
    ensures |book.lists[i]| == slabs[i].free && slabs[i].total == slabs[i].free + |book.live[i]| + |book.leaked[i]|
  {
    hide BlocksOk, Distinct;
    assert SlabOk(i, slabs[i], book.lists[i], book.live[i], book.leaked[i], book.owner, base, ptr);
    assert SlabOk(j, slabs[j], book.lists[j], book.live[j], book.leaked[j], book.owner, base, ptr);
  }

  /** Two blocks in use never share a byte, nor does one with a free block. */
  lemma BlocksApart(slabs: seq<Slab>, book: Book, base: nat, ptr: nat, i: nat, a: nat, j: nat, b: nat)
    requires BookOk(slabs, book, base, ptr) && i < NUM_SLABS && j < NUM_SLABS && a != b
    requires a in book.live[i] && (b in book.live[j] || b in book.lists[j])
    ensures a + Size(i) <= b || b + Size(j) <= a
    ensures base <= a && a + Size(i) <= base + HEAP_SIZE
  {
    assert SlabOk(i, slabs[i], book.lists[i], book.live[i], book.leaked[i], book.owner, base, ptr);
    assert SlabOk(j, slabs[j], book.lists[j], book.live[j], book.leaked[j], book.owner, base, ptr);
  }
}
