/**
 The page allocator: a pool of 4 KB pages and a bitmap, eight pages to a byte, handed out as
 contiguous runs, lowest first.
 */
module PagePool {
  import opened Bits
  import opened Orders
  import opened Words

  const PAGE_SIZE := 4096
  const PAGE_MAX := 16384
  const BMP_SIZE := PAGE_MAX / 8

  predicate UsedAt(bmp: seq<u8>, i: nat)
    requires i < 8 * |bmp|
  {
    Bit(bmp[i / 8], i % 8)
  }

  /** Bit k of byte i stands for page 8i + k. */
  lemma UsedIs(bmp: seq<u8>, i: nat, k: nat)
    requires i < |bmp| && k < 8
    ensures UsedAt(bmp, 8 * i + k) <==> Bit(bmp[i], k)
  {
  }

  /** How many of the first m pages are free. */
  function FreeCount(bmp: seq<u8>, m: nat): (n: nat)
    requires m <= 8 * |bmp|
    ensures n <= m
  {
    if m == 0 then 0 else FreeCount(bmp, m - 1) + if UsedAt(bmp, m - 1) then 0 else 1
  }

  /** n free pages from `base` on, below `pages`. */
  predicate RunFree(bmp: seq<u8>, pages: nat, base: nat, n: nat)
    requires pages <= 8 * |bmp|
  {
    base + n <= pages && forall k {:trigger UsedAt(bmp, k)} :: base <= k < base + n ==> !UsedAt(bmp, k)
  }

  predicate AllUsed(bmp: seq<u8>, base: nat, n: nat) {
    base + n <= 8 * |bmp| && forall k {:trigger UsedAt(bmp, k)} :: base <= k < base + n ==> UsedAt(bmp, k)
  }

  /** bmp2 has the pages from lo to hi marked as `on` says, and else is bmp. */
  predicate Marks(bmp: seq<u8>, bmp2: seq<u8>, lo: nat, hi: nat, on: bool) {
    |bmp2| == |bmp| && forall i :: 0 <= i < 8 * |bmp| ==>
      (UsedAt(bmp2, i) <==> if lo <= i < hi then on else UsedAt(bmp, i))
  }

  lemma {:induction false} CountMarks(bmp: seq<u8>, bmp2: seq<u8>, i: nat, on: bool, m: nat)
    requires m <= 8 * |bmp| && i < 8 * |bmp| && Marks(bmp, bmp2, i, i + 1, on) && UsedAt(bmp, i) != on
    ensures i >= m ==> FreeCount(bmp2, m) == FreeCount(bmp, m)
    ensures i < m ==> FreeCount(bmp2, m) == if on then FreeCount(bmp, m) - 1 else FreeCount(bmp, m) + 1
  {
    hide UsedAt;
    if m > 0 { CountMarks(bmp, bmp2, i, on, m - 1); }
  }

  lemma {:induction false} RunCounts(bmp: seq<u8>, pages: nat, base: nat, n: nat, m: nat)
    requires pages <= 8 * |bmp| && RunFree(bmp, pages, base, n) && base <= m <= pages
    ensures FreeCount(bmp, m) >= if m <= base + n then m - base else n
    decreases m
  {
    hide UsedAt;
    if m > base { RunCounts(bmp, pages, base, n, m - 1); }
  }

  /** Bitmaps that mark the same pages are the same bytes. */
  lemma {:induction false} SameBitmap(bmp: seq<u8>, bmp2: seq<u8>)
    requires |bmp2| == |bmp| && forall i :: 0 <= i < 8 * |bmp| ==> (UsedAt(bmp2, i) <==> UsedAt(bmp, i))
    ensures bmp2 == bmp
  {
    forall b | 0 <= b < |bmp| ensures bmp2[b] == bmp[b] {
      forall j | 0 <= j < 8 ensures Bit(bmp2[b], j) == Bit(bmp[b], j) {
        assert (8 * b + j) / 8 == b && (8 * b + j) % 8 == j;
        assert UsedAt(bmp2, 8 * b + j) <==> UsedAt(bmp, 8 * b + j);
      }
      assert Pow2(8) == 0x100 by { assert Pow2(4) == 16; }
      BitsDetermine(bmp2[b], bmp[b], 8);
    }
  }

  lemma MarksOne(bmp: seq<u8>, i: nat, on: bool)
    requires i < 8 * |bmp|
    ensures Marks(bmp, bmp[i / 8 := PutBit(bmp[i / 8], i % 8, on)], i, i + 1, on)
  {
    var bmp2 := bmp[i / 8 := PutBit(bmp[i / 8], i % 8, on)];
    forall k | 0 <= k < 8 * |bmp| ensures UsedAt(bmp2, k) <==> if k == i then on else UsedAt(bmp, k) {
      assert 0 <= k % 8 < 8;
      if k / 8 == i / 8 { assert k == i <==> k % 8 == i % 8; }
    }
  }

  // ---------- who holds what ----------

  datatype Range = Range(base: nat, n: nat)

  function Total(live: seq<Range>): nat {
    if live == [] then 0 else live[0].n + Total(live[1..])
  }

  predicate Covered(live: seq<Range>, i: nat) {
    exists k :: 0 <= k < |live| && live[k].base <= i < live[k].base + live[k].n
  }

  predicate Apart(r: Range, s: Range) {
    r.base + r.n <= s.base || s.base + s.n <= r.base
  }

  /** The ranges handed out and not given back are disjoint, in the pool, and just the used pages. */
  predicate Held(live: seq<Range>, bmp: seq<u8>, pages: nat)
    requires pages <= 8 * |bmp|
  {
    && (forall k :: 0 <= k < |live| ==> live[k].n > 0 && live[k].base + live[k].n <= pages)
    && (forall k, l :: 0 <= k < l < |live| ==> Apart(live[k], live[l]))
    && (forall i :: 0 <= i < pages ==> (UsedAt(bmp, i) <==> Covered(live, i)))
  }

  lemma {:induction false} TotalOfBoth(a: seq<Range>, b: seq<Range>)
    ensures Total(a + b) == Total(a) + Total(b)
  {
    if a == [] {
      assert a + b == b;
    } else {
      FirstOfBoth(a, b);
      TotalOfBoth(a[1..], b);
    }
  }

  lemma FirstOfBoth(a: seq<Range>, b: seq<Range>)
    requires a != []
    ensures (a + b)[0] == a[0] && (a + b)[1..] == a[1..] + b
  {
  }

  lemma TotalWithout(live: seq<Range>, k: nat)
    requires k < |live|
    ensures Total(Without(live, k)) + live[k].n == Total(live)
  {
    hide Total, Without;
    AroundPosition(live, k);
    TotalOfBoth(live[..k], live[k + 1..]);
    TotalOfBoth(live[..k], [live[k]] + live[k + 1..]);
    TotalOfBoth([live[k]], live[k + 1..]);
    TotalOfOne(live[k]);
  }

  lemma TotalOfOne(r: Range)
    ensures Total([r]) == r.n
  {
    var one := [r];
    assert |one[1..]| == 0;
  }

  lemma TotalWith(live: seq<Range>, r: Range)
    ensures Total(live + [r]) == Total(live) + r.n
  {
    TotalOfBoth(live, [r]);
    TotalOfOne(r);
  }

  /** A run of free pages handed out. */
  lemma HeldMore(live: seq<Range>, bmp: seq<u8>, bmp2: seq<u8>, pages: nat, r: Range)
    requires pages <= 8 * |bmp| && Held(live, bmp, pages) && r.n > 0 && RunFree(bmp, pages, r.base, r.n)
    requires Marks(bmp, bmp2, r.base, r.base + r.n, true)
    ensures Held(live + [r], bmp2, pages)
  {
    hide UsedAt;
    var now := live + [r];
    forall k | 0 <= k < |live| ensures Apart(live[k], r) {
      var at := if live[k].base <= r.base then r.base else live[k].base;
      assert at < live[k].base + live[k].n ==> Covered(live, at);
    }
    forall i | 0 <= i < pages ensures UsedAt(bmp2, i) <==> Covered(now, i) { CoveredMore(live, r, i); }
  }

  lemma CoveredMore(live: seq<Range>, r: Range, i: nat)
    ensures Covered(live + [r], i) <==> Covered(live, i) || r.base <= i < r.base + r.n
  {
    var now := live + [r];
    assert now[|live|] == r;
    assert forall k :: 0 <= k < |live| ==> now[k] == live[k];
  }

  lemma CoveredLess(live: seq<Range>, g: nat, i: nat)
    requires g < |live| && forall k, l :: 0 <= k < l < |live| ==> Apart(live[k], live[l])
    ensures Covered(Without(live, g), i) <==> Covered(live, i) && !(live[g].base <= i < live[g].base + live[g].n)
  {
    hide Without;
    var now := Without(live, g);
    WithoutLength(live, g);
    if Covered(live, i) && !(live[g].base <= i < live[g].base + live[g].n) {
      var k :| 0 <= k < |live| && live[k].base <= i < live[k].base + live[k].n;
      WithoutFrom(live, g, if k < g then k else k - 1);
      assert now[if k < g then k else k - 1] == live[k];
    }
    if Covered(now, i) {
      var k :| 0 <= k < |now| && now[k].base <= i < now[k].base + now[k].n;
      WithoutFrom(live, g, k);
      var l := if k < g then k else k + 1;
      assert live[l] == now[k];
      assert Apart(live[g], live[l]) || Apart(live[l], live[g]);
    }
  }

  /** One of the ranges given back. */
  lemma HeldLess(live: seq<Range>, bmp: seq<u8>, bmp2: seq<u8>, pages: nat, g: nat)
    requires pages <= 8 * |bmp| && Held(live, bmp, pages) && g < |live|
    requires Marks(bmp, bmp2, live[g].base, live[g].base + live[g].n, false)
    ensures Held(Without(live, g), bmp2, pages)
  {
    hide UsedAt;
    var now := Without(live, g);
    forall k | 0 <= k < |now| ensures now[k] == live[if k < g then k else k + 1] { }
    forall i | 0 <= i < pages ensures UsedAt(bmp2, i) <==> Covered(now, i) { CoveredLess(live, g, i); }
  }

  // ---------- the allocator ----------

  class Pages {
    var pool: nat
    var pages: nat
    const bmp: array<u8>
    var freeCnt: nat
    ghost var live: seq<Range>

    /** The counter counts the clear bits. */
    ghost predicate Counted()
      reads `pool, `pages, `freeCnt, bmp
    {
      && bmp.Length == BMP_SIZE && pages <= PAGE_MAX && 0 < pool && pool % PAGE_SIZE == 0
      && freeCnt == FreeCount(bmp[..], pages)
    }

    /** And the ranges handed out are known. */
    ghost predicate Valid()
      reads this, bmp
    {
      Counted() && Held(live, bmp[..], pages) && Total(live) == pages - freeCnt
    }

    ghost function Now(): State
      reads `live, bmp
    {
      State(bmp[..], live)
    }

    /** The small built-in pool. */
    constructor (pool: nat)
      requires 0 < pool && pool % PAGE_SIZE == 0
      ensures Valid() && fresh(bmp) && live == [] && pages == 8 && freeCnt == 8
    {
      this.pool, pages, freeCnt := pool, 8, 8;
      bmp := new u8[BMP_SIZE](i => 0);
      live := [];
      new;
      AllFree(bmp[..], 8);
    }

    /** page_init: the page count is cut to 32 bits before it is limited to what the bitmap holds. */
    method Init(at: nat, bytes: nat) returns (code: int)
      requires Valid()
      modifies this, bmp
      ensures Valid()
      ensures code == -1 <==> at == 0 || at % 4096 != 0 || bytes < 4096
      ensures code == -1 ==> pool == old(pool) && pages == old(pages) && live == old(live) && bmp[..] == old(bmp[..])
      ensures code != -1 ==> code == 0 && pool == at && live == [] && freeCnt == pages
      ensures code != -1 ==>
        pages == if bytes / 4096 % 4294967296 > 16384 then 16384 else bytes / 4096 % 4294967296
    {
      if at == 0 || at % 0x1000 != 0 || bytes < PAGE_SIZE { return -1; }
      var n := bytes / PAGE_SIZE % U32_MOD;
      if n > PAGE_MAX { n := PAGE_MAX; }
      pool := at;
      pages := n;
      var i := 0;
      while i < BMP_SIZE
        invariant 0 <= i <= BMP_SIZE && forall k :: 0 <= k < i ==> bmp[k] == 0
        modifies bmp
      {
        bmp[i] := 0;
        i := i + 1;
      }
      freeCnt := n;
      live := [];
      AllFree(bmp[..], n);
      return 0;
    }

    /** page_set or page_clr. */
    method Mark(i: nat, on: bool)
      requires bmp.Length == BMP_SIZE && i < PAGE_MAX
      modifies bmp
      ensures Marks(old(bmp[..]), bmp[..], i, i + 1, on)
    {
      MarksOne(bmp[..], i, on);
      bmp[i / 8] := PutBit(bmp[i / 8], i % 8, on);
    }

    /** The first i at which a run of n free pages ends; pages when there is none. */
    method FindRun(n: nat) returns (i: nat)
      requires Valid() && n > 0
      ensures i <= pages
      ensures i < pages ==> n <= i + 1 && RunFree(bmp[..], pages, i + 1 - n, n)
      ensures forall b :: 0 <= b && b + n <= i ==> !RunFree(bmp[..], pages, b, n)
    {
      hide UsedAt, Held, FreeCount;
      var run := 0;
      i := 0;
      while i < pages
        invariant 0 <= i <= pages && 0 <= run < n && run <= i
        invariant forall k {:trigger UsedAt(bmp[..], k)} :: i - run <= k < i ==> !UsedAt(bmp[..], k)
        invariant run < i ==> UsedAt(bmp[..], i - run - 1)
        invariant forall b :: 0 <= b && b + n <= i ==> !RunFree(bmp[..], pages, b, n)
      {
        var used := Bit(bmp[i / 8], i % 8);
        assert used == UsedAt(bmp[..], i) by { BitIs(bmp[..], i); }
        if used {
          run := 0;
        } else {
          run := run + 1;
          if run == n { return; }
          assert run < i + 1 ==> UsedAt(bmp[..], i - run);
        }
        i := i + 1;
      }
    }

    /** Marks the n pages from base on. */
    method SetRun(base: nat, n: nat)
      requires bmp.Length == BMP_SIZE && pages <= PAGE_MAX && RunFree(bmp[..], pages, base, n)
      modifies bmp
      ensures Marks(old(bmp[..]), bmp[..], base, base + n, true)
      ensures FreeCount(bmp[..], pages) == FreeCount(old(bmp[..]), pages) - n
    {
      hide UsedAt, FreeCount;
      ghost var was := bmp[..];
      var k := 0;
      while k < n
        invariant 0 <= k <= n && Marks(was, bmp[..], base, base + k, true)
        invariant FreeCount(bmp[..], pages) == FreeCount(was, pages) - k
      {
        ghost var now := bmp[..];
        assert !UsedAt(was, base + k) && !UsedAt(now, base + k);
        Mark(base + k, true);
        CountMarks(now, bmp[..], base + k, true, pages);
        k := k + 1;
      }
    }

    /** page_alloc: 0 exactly when no n contiguous pages are free; else the lowest such run. */
    method PageAlloc(n: nat) returns (a: nat)
      requires Valid()
      modifies `freeCnt, `live, bmp
      ensures Valid()
      ensures a == 0 <==> n == 0 || forall b: nat :: !RunFree(old(bmp[..]), pages, b, n)
      ensures a == 0 ==> bmp[..] == old(bmp[..]) && live == old(live) && freeCnt == old(freeCnt)
      ensures a != 0 ==>
        var base := (a - pool) / 4096;
        && a >= pool && a == pool + 4096 * base && a % 4096 == 0
        && RunFree(old(bmp[..]), pages, base, n) && (forall b: nat :: b < base ==> !RunFree(old(bmp[..]), pages, b, n))
        && Marks(old(bmp[..]), bmp[..], base, base + n, true)
        && live == old(live) + [Range(base, n)] && freeCnt == old(freeCnt) - n
      ensures Call(old(Now()), Now(), pages)
    {
      hide UsedAt, Held, FreeCount, Call;
      SameIsCall(Now(), pages);
      ghost var was := bmp[..];
      if n == 0 { return 0; }
      if n > freeCnt {
        forall b: nat ensures !RunFree(was, pages, b, n) {
          if RunFree(was, pages, b, n) { RunCounts(was, pages, b, n, pages); }
        }
        return 0;
      }
      var i := FindRun(n);
      if i == pages {
        assert forall b: nat :: RunFree(was, pages, b, n) ==> b + n <= pages;
        return 0;
      }
      var base := i + 1 - n;
      SetRun(base, n);
      freeCnt := freeCnt - n;
      HeldMore(live, was, bmp[..], pages, Range(base, n));
      TotalWith(live, Range(base, n));
      AllocIsCall(was, bmp[..], live, pages, Range(base, n));
      live := live + [Range(base, n)];
      PageAddress(base);
      return pool + base * PAGE_SIZE;
    }

    /** Clears those of the n pages from base on that are used, counting them. */
    method ClearRun(base: nat, n: nat)
      requires Counted() && base + n <= pages
      modifies bmp, `freeCnt
      ensures Counted() && Marks(old(bmp[..]), bmp[..], base, base + n, false)
      ensures AllUsed(old(bmp[..]), base, n) ==> freeCnt == old(freeCnt) + n
    {
      hide UsedAt, FreeCount;
      ghost var was := bmp[..];
      var k := 0;
      while k < n
        invariant 0 <= k <= n && Marks(was, bmp[..], base, base + k, false)
        invariant freeCnt == FreeCount(bmp[..], pages)
        invariant AllUsed(was, base, n) ==> freeCnt == old(freeCnt) + k
      {
        ghost var now := bmp[..];
        BitIs(now, base + k);
        assert UsedAt(now, base + k) == UsedAt(was, base + k);
        if Bit(bmp[(base + k) / 8], (base + k) % 8) {
          Mark(base + k, false);
          freeCnt := freeCnt + 1;
          CountMarks(now, bmp[..], base + k, false, pages);
        }
        k := k + 1;
      }
    }

    /** page_free of an address of the pool. Null, an address off the page raster and a range that ends
        beyond the pool change nothing; else exactly the used pages of the range are cleared and counted.
        If the range is one that was handed out, g being its place among those held, the books are right
        again without it. */
    method PageFree(a: nat, n: nat, ghost g: nat)
      requires Counted() && (a == 0 || (a >= pool && (a - pool) / PAGE_SIZE + n < U32_MOD))
      modifies `freeCnt, `live, bmp
      ensures Counted()
      ensures a == 0 || (a - pool) % 4096 != 0 || (a - pool) / 4096 + n > pages ==>
        bmp[..] == old(bmp[..]) && live == old(live) && freeCnt == old(freeCnt)
      ensures a != 0 && (a - pool) % 4096 == 0 && (a - pool) / 4096 + n <= pages ==>
        Marks(old(bmp[..]), bmp[..], (a - pool) / 4096, (a - pool) / 4096 + n, false)
      ensures old(Valid()) && g < |old(live)| && a == pool + 4096 * old(live)[g].base && n == old(live)[g].n ==>
        Valid() && live == Without(old(live), g) && freeCnt == old(freeCnt) + n && Call(old(Now()), Now(), pages)
    {
      hide UsedAt, Held, FreeCount, Call;
      ghost var was, known := bmp[..], Valid() && g < |live| && a == pool + 4096 * live[g].base && n == live[g].n;
      if known { HeldUsed(live, was, pages, g); }
      if a == 0 { return; }
      var off := a - pool;
      if off % PAGE_SIZE != 0 { return; }
      var base := off / PAGE_SIZE;
      if base + n > pages { return; }
      ClearRun(base, n);
      if known {
        assert live[g] == Range(base, n);
        HeldLess(live, was, bmp[..], pages, g);
        TotalWithout(live, g);
        FreeIsCall(was, bmp[..], live, pages, g);
        live := Without(live, g);
      }
    }
  }

  lemma PageAddress(base: nat)
    ensures base * PAGE_SIZE % PAGE_SIZE == 0 && base * PAGE_SIZE / PAGE_SIZE == base
  {
  }

  lemma HeldUsed(live: seq<Range>, bmp: seq<u8>, pages: nat, g: nat)
    requires pages <= 8 * |bmp| && Held(live, bmp, pages) && g < |live|
    ensures live[g].base + live[g].n <= pages && AllUsed(bmp, live[g].base, live[g].n)
  {
    hide UsedAt;
    forall i {:trigger UsedAt(bmp, i)} | live[g].base <= i < live[g].base + live[g].n ensures UsedAt(bmp, i) {
      assert Covered(live, i);
    }
  }

  // ---------- histories ----------

  /** What a call can change: the bitmap, and which ranges are held. */
  datatype State = State(bmp: seq<u8>, live: seq<Range>)

  /** A run of free pages was handed out. */
  ghost predicate Handed(s: State, t: State, pages: nat, r: Range) {
    && pages <= 8 * |s.bmp| && r.n > 0 && RunFree(s.bmp, pages, r.base, r.n)
    && Marks(s.bmp, t.bmp, r.base, r.base + r.n, true) && t.live == s.live + [r]
  }

  /** A range held was given back. */
  ghost predicate Returned(s: State, t: State, pages: nat, g: nat) {
    && pages <= 8 * |s.bmp| && g < |s.live|
    && Marks(s.bmp, t.bmp, s.live[g].base, s.live[g].base + s.live[g].n, false) && t.live == Without(s.live, g)
  }

  ghost predicate Call(s: State, t: State, pages: nat) {
    t == s || (exists r :: Handed(s, t, pages, r)) || (exists g :: Returned(s, t, pages, g))
  }

  ghost predicate Calls(trace: seq<State>, pages: nat) {
    forall k {:trigger trace[k]} :: 0 < k < |trace| ==> Call(trace[k - 1], trace[k], pages)
  }

  lemma SameIsCall(s: State, pages: nat)
    ensures Call(s, s, pages)
  {
  }

  lemma AllocIsCall(bmp: seq<u8>, bmp2: seq<u8>, live: seq<Range>, pages: nat, r: Range)
    requires Handed(State(bmp, live), State(bmp2, live + [r]), pages, r)
    ensures Call(State(bmp, live), State(bmp2, live + [r]), pages)
  {
    hide RunFree, Marks;
  }

  lemma FreeIsCall(bmp: seq<u8>, bmp2: seq<u8>, live: seq<Range>, pages: nat, g: nat)
    requires pages <= 8 * |bmp| && g < |live| && Marks(bmp, bmp2, live[g].base, live[g].base + live[g].n, false)
    ensures Call(State(bmp, live), State(bmp2, Without(live, g)), pages)
  {
    hide Marks, Without;
    assert Returned(State(bmp, live), State(bmp2, Without(live, g)), pages, g);
  }

  /** One call keeps the books right and touches no bit at or beyond `pages`. */
  lemma CallKeeps(s: State, t: State, pages: nat)
    requires pages <= 8 * |s.bmp| && Held(s.live, s.bmp, pages) && Call(s, t, pages)
    ensures |t.bmp| == |s.bmp| && Held(t.live, t.bmp, pages) && SameFrom(s.bmp, t.bmp, pages)
  {
    hide UsedAt;
    if t != s {
      if r :| Handed(s, t, pages, r) {
        HeldMore(s.live, s.bmp, t.bmp, pages, r);
      } else {
        var g :| Returned(s, t, pages, g);
        HeldUsed(s.live, s.bmp, pages, g);
        HeldLess(s.live, s.bmp, t.bmp, pages, g);
      }
    }
  }

  predicate SameFrom(bmp: seq<u8>, bmp2: seq<u8>, from: nat) {
    |bmp2| == |bmp| && forall i :: from <= i < 8 * |bmp| ==> (UsedAt(bmp2, i) <==> UsedAt(bmp, i))
  }

  lemma {:induction false} CallsKeep(trace: seq<State>, pages: nat)
    requires trace != [] && pages <= 8 * |trace[0].bmp| && Held(trace[0].live, trace[0].bmp, pages)
    requires Calls(trace, pages)
    ensures var first, last := trace[0], trace[|trace| - 1];
      |last.bmp| == |first.bmp| && Held(last.live, last.bmp, pages) && SameFrom(first.bmp, last.bmp, pages)
    decreases |trace|
  {
    hide UsedAt, Held, Call;
    if |trace| > 1 {
      var front := trace[..|trace| - 1];
      assert forall k {:trigger front[k]} :: 0 < k < |front| ==> front[k] == trace[k] && front[k - 1] == trace[k - 1];
      CallsKeep(front, pages);
      CallKeeps(trace[|trace| - 2], trace[|trace| - 1], pages);
    }
  }

  /** Whatever was handed out and given back in between, when the same ranges are held again the
      bitmap is the same again, byte by byte. */
  lemma FreesUndoAllocs(trace: seq<State>, pages: nat)
    requires trace != [] && pages <= 8 * |trace[0].bmp| && Held(trace[0].live, trace[0].bmp, pages)
    requires Calls(trace, pages)
    requires forall r :: r in trace[0].live <==> r in trace[|trace| - 1].live
    ensures trace[|trace| - 1].bmp == trace[0].bmp
  {
    hide UsedAt, Held, Call;
    var first, last := trace[0], trace[|trace| - 1];
    CallsKeep(trace, pages);
    forall i | 0 <= i < 8 * |first.bmp| ensures UsedAt(last.bmp, i) <==> UsedAt(first.bmp, i) {
      if i < pages { HeldDecides(first.live, first.bmp, last.live, last.bmp, pages, i); }
    }
    SameBitmap(first.bmp, last.bmp);
  }

  /** Giving back what was just handed out restores the bitmap byte by byte, whatever was handed
      out before: pages marked and cleared again are as they were. */
  lemma FreeUndoesAlloc(bmp: seq<u8>, bmp1: seq<u8>, bmp2: seq<u8>, pages: nat, base: nat, n: nat)
    requires pages <= 8 * |bmp| && RunFree(bmp, pages, base, n)
    requires Marks(bmp, bmp1, base, base + n, true) && Marks(bmp1, bmp2, base, base + n, false)
    ensures bmp2 == bmp
  {
    hide UsedAt;
    forall i | 0 <= i < 8 * |bmp| ensures UsedAt(bmp2, i) <==> UsedAt(bmp, i) {
      assert UsedAt(bmp1, i) <==> if base <= i < base + n then true else UsedAt(bmp, i);
    }
    SameBitmap(bmp, bmp2);
  }

  /** The pages in use depend only on the ranges held, not on the order in which they came and
      went: any history that gives back what it took ends with the bits it began with. */
  lemma HeldDecides(live: seq<Range>, bmp: seq<u8>, live2: seq<Range>, bmp2: seq<u8>, pages: nat, i: nat)
    requires pages <= 8 * |bmp| && |bmp2| == |bmp| && Held(live, bmp, pages) && Held(live2, bmp2, pages) && i < pages
    requires forall r :: r in live <==> r in live2
    ensures UsedAt(bmp, i) <==> UsedAt(bmp2, i)
  {
    hide UsedAt;
    if Covered(live, i) {
      var k :| 0 <= k < |live| && live[k].base <= i < live[k].base + live[k].n;
      assert live[k] in live2;
    }
    if Covered(live2, i) {
      var k :| 0 <= k < |live2| && live2[k].base <= i < live2[k].base + live2[k].n;
      assert live2[k] in live;
    }
  }

  lemma BitIs(bmp: seq<u8>, i: nat)
    requires i < 8 * |bmp|
    ensures Bit(bmp[i / 8], i % 8) == UsedAt(bmp, i)
  {
  }

  lemma {:induction false} AllFree(bmp: seq<u8>, n: nat)
    requires n <= 8 * |bmp| && forall k :: 0 <= k < |bmp| ==> bmp[k] == 0
    ensures FreeCount(bmp, n) == n && Held([], bmp, n)
  {
    if n > 0 { AllFree(bmp, n - 1); }
    forall i | 0 <= i < n ensures !UsedAt(bmp, i) { NoBits(i % 8); }
  }
}
