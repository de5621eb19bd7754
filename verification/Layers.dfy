/**
 What a stack of sheets means, one screen pixel at a time.

 A Layer is the value of one sheet; a stack is the sequence of visible layers,
 bottom first.  The compositor keeps two caches of a stack, an ownership map and a
 frame; Owned and Shown say what those caches should hold, without mentioning any
 rectangle or height range.
 */
module Layers {
  import opened Orders
  import opened Words

  const OPAQUE_KEY: u32 := 0xFFFF_FFFF   // col_inv == -1: every pixel counts
  const SHADE_BIT := 0x100_0000          // a pixel with a non-zero top byte is a shadow

  datatype Layer = Layer(sid: u8, x: int, y: int, w: int, h: int, key: u32, buf: seq<u32>)

  type Stack = seq<Layer>

  // ---------- row-major pixel buffers ----------

  function Cell(width: int, x: int, y: int): int {
    y * width + x
  }

  lemma CellInRange(width: int, height: int, x: int, y: int)
    requires 0 <= x < width && 0 <= y < height
    ensures 0 <= Cell(width, x, y) < width * height
  {
    assert y * width <= (height - 1) * width;
  }

  lemma RowsApart(width: nat, x: int, y: int, x2: int, y2: int)
    requires 0 <= x < width && 0 <= x2 < width && y < y2
    ensures Cell(width, x, y) < Cell(width, x2, y2)
  {
    var d := y2 - y - 1;
    assert 0 <= d * width;
    assert (y + 1 + d) * width == y * width + width + d * width;
  }

  lemma CellsApart(width: int, x: int, y: int, x2: int, y2: int)
    requires 0 <= x < width && 0 <= x2 < width && Cell(width, x, y) == Cell(width, x2, y2)
    ensures x == x2 && y == y2
  {
    if y < y2 {
      RowsApart(width, x, y, x2, y2);
    } else if y2 < y {
      RowsApart(width, x2, y2, x, y);
    }
  }

  // ---------- one layer at one pixel ----------

  predicate Covers(l: Layer, x: int, y: int) {
    0 <= x - l.x < l.w && 0 <= y - l.y < l.h
  }

  /** The buffer pixel under a screen pixel. */
  function Pix(l: Layer, x: int, y: int): u32 {
    var i := Cell(l.w, x - l.x, y - l.y);
    if 0 <= i < |l.buf| then l.buf[i] else 0
  }

  predicate IsShade(p: u32) {
    p >= SHADE_BIT
  }

  /** The pixel counts as content: it hides what is below. */
  predicate Solid(l: Layer, x: int, y: int) {
    Covers(l, x, y) && (l.key == OPAQUE_KEY || (Pix(l, x, y) != l.key && !IsShade(Pix(l, x, y))))
  }

  predicate Shaded(l: Layer, x: int, y: int) {
    Covers(l, x, y) && IsShade(Pix(l, x, y))
  }

  // ---------- colours ----------

  function Red(c: u32): u8 { c / 0x1_0000 % 0x100 }
  function Green(c: u32): u8 { c / 0x100 % 0x100 }
  function Blue(c: u32): u8 { c % 0x100 }

  function Rgb(r: u8, g: u8, b: u8): (c: u32)
    ensures Red(c) == r && Green(c) == g && Blue(c) == b && !IsShade(c)
  {
    var c: u32 := r * 0x1_0000 + g * 0x100 + b;
    assert c / 0x1_0000 == r;
    assert c / 0x100 == r * 0x100 + g;
    c
  }

  function Less(channel: u8, depth: nat): u8 {
    if channel > depth then channel - depth else 0
  }

  function Darken(c: u32, depth: nat): u32 {
    Rgb(Less(Red(c), depth), Less(Green(c), depth), Less(Blue(c), depth))
  }

  lemma DarkenTellsApart(depth: nat)
    requires depth < 255
    ensures Darken(0, depth) != Darken(255, depth)
  {
    hide Rgb;
    assert Blue(0) == 0 && Blue(255) == 255;
    assert Blue(Darken(0, depth)) == 0 && Blue(Darken(255, depth)) == 255 - depth;
  }

  function Depth(p: u32): u8 { p % 0x100 }

  lemma ColourIsItsChannels(c: u32)
    requires !IsShade(c)
    ensures c == Rgb(Red(c), Green(c), Blue(c))
  {
    var q := c / 0x100;
    var t := q / 0x100;
    assert c == 0x100 * q + Blue(c) && q == 0x100 * t + Green(c);
    assert t == c / 0x1_0000 == Red(c);
  }

  /** Saturating darkening composes by adding depths, so it also commutes. */
  lemma DarkenAdds(c: u32, a: nat, b: nat)
    ensures Darken(Darken(c, a), b) == Darken(c, a + b)
  {
    hide Rgb;
    assert Less(Less(Red(c), a), b) == Less(Red(c), a + b);
  }

  lemma DarkenByNothing(c: u32)
    requires !IsShade(c)
    ensures Darken(c, 0) == c
  {
    hide Rgb;
    ColourIsItsChannels(c);
  }

  lemma DarkenSaturates(c: u32, depth: nat)
    requires depth >= 255
    ensures Darken(c, depth) == 0
  {
  }

  // ---------- the two passes, as the code runs them ----------

  /** The owner cell after the map pass has gone over heights from..to. */
  function MapPass(st: Stack, x: int, y: int, from: nat, to: nat, owner: u8): u8
    requires to <= |st|
  {
    if to <= from then owner
    else if Solid(st[to - 1], x, y) then st[to - 1].sid
    else MapPass(st, x, y, from, to - 1, owner)
  }

  /** What drawing one layer does to a frame cell whose owner cell is `owner`. */
  function Draw(l: Layer, x: int, y: int, owner: u8, cell: u32): u32 {
    if !Covers(l, x, y) || (owner != l.sid && !IsShade(Pix(l, x, y))) then cell
    else if IsShade(Pix(l, x, y)) then Darken(cell, Depth(Pix(l, x, y)))
    else Pix(l, x, y)
  }

  /** The same for a layer drawn at a height that may not be its own: then its shadow pixels count
      only where the owner cell names it. */
  function DrawAt(l: Layer, x: int, y: int, owner: u8, cell: u32, own: bool): u32 {
    if own || owner == l.sid then Draw(l, x, y, owner, cell) else cell
  }

  /** The frame cell after the draw pass has gone over heights from..to. */
  function DrawPass(st: Stack, x: int, y: int, from: nat, to: nat, owner: u8, cell: u32): u32
    requires to <= |st|
  {
    if to <= from then cell
    else Draw(st[to - 1], x, y, owner, DrawPass(st, x, y, from, to - 1, owner, cell))
  }

  /** The same layer drawn n times over, as n refreshes of the sheet do. */
  function DrawTimes(l: Layer, x: int, y: int, owner: u8, cell: u32, n: nat): u32 {
    if n == 0 then cell else Draw(l, x, y, owner, DrawTimes(l, x, y, owner, cell, n - 1))
  }

  /** Refreshing a shadow in place is not idempotent: every refresh darkens again by its depth. */
  lemma {:induction false} ShadowsDrift(l: Layer, x: int, y: int, owner: u8, cell: u32, n: nat)
    requires Shaded(l, x, y) && !IsShade(cell)
    ensures DrawTimes(l, x, y, owner, cell, n) == Darken(cell, n * Depth(Pix(l, x, y)))
  {
    hide Darken;
    var d := Depth(Pix(l, x, y));
    if n == 0 {
      DarkenByNothing(cell);
    } else {
      ShadowsDrift(l, x, y, owner, cell, n - 1);
      DarkenAdds(cell, (n - 1) * d, d);
      assert (n - 1) * d + d == n * d;
    }
  }

  // ---------- what the caches mean ----------

  /** Layer t is the topmost one with content at the pixel. */
  ghost predicate IsTop(st: Stack, x: int, y: int, t: nat) {
    t < |st| && Solid(st[t], x, y) && forall k :: t < k < |st| ==> !Solid(st[k], x, y)
  }

  /** That very layer is the topmost one with content at the pixel. */
  ghost predicate WasTop(st: Stack, x: int, y: int, l: Layer) {
    exists t: nat :: IsTop(st, x, y, t) && st[t] == l
  }

  ghost predicate NoShade(st: Stack, x: int, y: int) {
    forall k :: 0 <= k < |st| ==> !Shaded(st[k], x, y)
  }

  ghost predicate DistinctSids(st: Stack) {
    forall j, k :: 0 <= j < k < |st| ==> st[j].sid != st[k].sid
  }

  /** The owner cell names the topmost layer with content here, if there is one. */
  ghost predicate Owned(st: Stack, x: int, y: int, owner: u8) {
    forall t: nat :: IsTop(st, x, y, t) ==> owner == st[t].sid
  }

  /** The frame cell shows the topmost layer with content here, if there is one. */
  ghost predicate Shown(st: Stack, x: int, y: int, cell: u32) {
    forall t: nat :: IsTop(st, x, y, t) ==> cell == Pix(st[t], x, y)
  }

  lemma {:induction false} MapPassFindsTop(st: Stack, x: int, y: int, from: nat, to: nat, owner: u8, t: nat)
    requires from <= t < to <= |st| && Solid(st[t], x, y)
    requires forall k :: t < k < to ==> !Solid(st[k], x, y)
    ensures MapPass(st, x, y, from, to, owner) == st[t].sid
  {
    if t + 1 < to { MapPassFindsTop(st, x, y, from, to - 1, owner, t); }
  }

  lemma {:induction false} MapPassKeeps(st: Stack, x: int, y: int, from: nat, to: nat, owner: u8)
    requires to <= |st| && forall k :: from <= k < to ==> !Solid(st[k], x, y)
    ensures MapPass(st, x, y, from, to, owner) == owner
  {
    if from < to { MapPassKeeps(st, x, y, from, to - 1, owner); }
  }

  /** With no shadow at the pixel, a draw pass over a right owner cell shows the owner or leaves the cell alone. */
  lemma {:induction false} DrawPassShowsTop(st: Stack, x: int, y: int, from: nat, to: nat, cell: u32, t: nat)
    requires to <= |st| && IsTop(st, x, y, t) && NoShade(st, x, y) && DistinctSids(st)
    ensures DrawPass(st, x, y, from, to, st[t].sid, cell) == if from <= t < to then Pix(st[t], x, y) else cell
  {
    if from < to {
      DrawPassShowsTop(st, x, y, from, to - 1, cell, t);
      assert st[to - 1].sid == st[t].sid ==> to - 1 == t;
      assert !Shaded(st[to - 1], x, y);
    }
  }

  /**
   The heart of every incremental update.  One pixel, a stack that changes from st to st2;
   the map is recomputed from height `from` and the frame redrawn over lo..hi.  If the new
   topmost layer either lies in the recomputed range or already was the topmost one, both
   caches end up right.
   */
  lemma UpdatePixel(st: Stack, st2: Stack, x: int, y: int, from: nat, lo: nat, hi: nat, owner: u8, cell: u32)
    requires hi <= |st2| && DistinctSids(st2)
    requires Owned(st, x, y, owner)
    requires forall t2: nat :: IsTop(st2, x, y, t2) && t2 < from ==> WasTop(st, x, y, st2[t2])
    requires forall t2: nat :: IsTop(st2, x, y, t2) && !(lo <= t2 < hi) ==> WasTop(st, x, y, st2[t2])
    ensures var owner2 := MapPass(st2, x, y, from, |st2|, owner);
            && Owned(st2, x, y, owner2)
            && (NoShade(st2, x, y) && Shown(st, x, y, cell)
                ==> Shown(st2, x, y, DrawPass(st2, x, y, lo, hi, owner2, cell)))
  {
    var owner2 := MapPass(st2, x, y, from, |st2|, owner);
    forall t2: nat | IsTop(st2, x, y, t2)
      ensures owner2 == st2[t2].sid
      ensures NoShade(st2, x, y) && Shown(st, x, y, cell)
              ==> DrawPass(st2, x, y, lo, hi, owner2, cell) == Pix(st2[t2], x, y)
    {
      if from <= t2 {
        MapPassFindsTop(st2, x, y, from, |st2|, owner, t2);
      } else {
        MapPassKeeps(st2, x, y, from, |st2|, owner);
      }
      if NoShade(st2, x, y) {
        DrawPassShowsTop(st2, x, y, lo, hi, cell, t2);
      }
    }
  }

  // ---------- restacking ----------

  /** Take the element at `was` out of the order (-1: it was not there), put it back at `now` (-1: leave it out). */
  function Restack<T>(order: seq<T>, e: T, was: int, now: int): (r: seq<T>)
    requires -1 <= was < |order| && -1 <= now <= |Without(order, was)|
    ensures |r| == |Without(order, was)| + if now < 0 then 0 else 1
  {
    var rest := Without(order, was);
    if now < 0 then rest else Insert(rest, e, now)
  }

  /** The order order2 is such a restacking. */
  ghost predicate Restacked<T>(order: seq<T>, order2: seq<T>, e: T, was: int, now: int) {
    -1 <= was < |order| && -1 <= now <= |Without(order, was)| && order2 == Restack(order, e, was, now)
  }

  /** Where the element now at position k (not `now`) stood before. */
  function Origin(k: int, was: int, now: int): int {
    var r := if 0 <= now < k then k - 1 else k;
    if 0 <= was <= r then r + 1 else r
  }

  /** The heights a restacking recomputes: the map from RedoLow up, the frame over RedoLow..RedoHigh. */
  function RedoLow(was: int, now: int): nat
    requires -1 <= now
  {
    if now < 0 then 0 else if now < was then now + 1 else now
  }

  function RedoHigh(was: int, now: int): nat
    requires -1 <= now && -1 <= was && was != now
  {
    if now < 0 then was else if now < was then was + 1 else now + 1
  }

  lemma RestackedFrom<T>(order: seq<T>, e: T, was: int, now: int, k: nat)
    requires -1 <= was < |order| && -1 <= now <= |Without(order, was)| && k < |Restack(order, e, was, now)|
    ensures k != now ==> 0 <= Origin(k, was, now) < |order| && Origin(k, was, now) != was
    ensures k != now ==> Restack(order, e, was, now)[k] == order[Origin(k, was, now)]
    ensures k == now ==> Restack(order, e, was, now)[k] == e
  {
    hide Without, Insert;
    if k != now {
      WithoutFrom(order, was, if 0 <= now < k then k - 1 else k);
    }
    if now >= 0 {
      InsertFrom(Without(order, was), e, now, k);
    }
  }

  lemma RestackIs<T>(order: seq<T>, e: T, was: int, now: int, a: seq<T>)
    requires -1 <= was < |order| && -1 <= now <= |Without(order, was)| && |a| == |Restack(order, e, was, now)|
    requires forall k :: 0 <= k < |a| ==>
      a[k] == if k == now then e else if 0 <= Origin(k, was, now) < |order| then order[Origin(k, was, now)] else e
    ensures a == Restack(order, e, was, now)
  {
    hide Restack, Without;
    forall k | 0 <= k < |a| ensures a[k] == Restack(order, e, was, now)[k] {
      RestackedFrom(order, e, was, now, k);
    }
  }

  lemma RestackInPlace<T>(order: seq<T>, e: T, was: int)
    requires -1 <= was < |order| && (was >= 0 ==> order[was] == e)
    ensures Restack(order, e, was, was) == order
  {
    hide Restack, Without;
    assert was <= |Without(order, was)|;
    RestackIs(order, e, was, was, order);
  }

  // The four ways sheet_updown shifts its array are all restackings.

  lemma LoweredIs<T>(order: seq<T>, was: int, now: int, a: seq<T>)
    requires 0 <= now < was < |order| == |a|
    requires forall k {:trigger a[k]} :: 0 <= k < |a| ==>
      a[k] == if k == now then order[was] else if now < k <= was then order[k - 1] else order[k]
    ensures a == Restack(order, order[was], was, now)
  {
    hide Restack, Without;
    RestackIs(order, order[was], was, now, a);
  }

  lemma ConcealedIs<T>(order: seq<T>, was: int, a: seq<T>)
    requires 0 <= was < |order| == |a| + 1
    requires forall k {:trigger a[k]} :: 0 <= k < |a| ==> a[k] == if was <= k then order[k + 1] else order[k]
    ensures a == Restack(order, order[was], was, -1)
  {
    hide Restack, Without;
    RestackIs(order, order[was], was, -1, a);
  }

  lemma RaisedIs<T>(order: seq<T>, was: int, now: int, a: seq<T>)
    requires 0 <= was < now < |order| == |a|
    requires forall k {:trigger a[k]} :: 0 <= k < |a| ==>
      a[k] == if k == now then order[was] else if was <= k < now then order[k + 1] else order[k]
    ensures a == Restack(order, order[was], was, now)
  {
    hide Restack, Without;
    RestackIs(order, order[was], was, now, a);
  }

  lemma ShownIs<T>(order: seq<T>, e: T, now: int, a: seq<T>)
    requires 0 <= now <= |order| == |a| - 1
    requires forall k {:trigger a[k]} :: 0 <= k < |a| ==>
      a[k] == if k == now then e else if now < k then order[k - 1] else order[k]
    ensures a == Restack(order, e, -1, now)
  {
    hide Restack, Without;
    RestackIs(order, e, -1, now, a);
  }

  /** The array after the raising loop of sheet_updown, whatever height it is given. */
  function RaiseLoop<T>(slots: seq<T>, was: nat, now: nat): seq<T>
    requires was < now < |slots|
  {
    seq(|slots|, k requires 0 <= k < |slots| =>
      if k == now then slots[was] else if was <= k < now then slots[k + 1] else slots[k])
  }

  lemma RaiseLoopIs<T>(slots: seq<T>, was: nat, now: nat, a: seq<T>)
    requires was < now < |slots| == |a|
    requires forall k {:trigger a[k]} :: 0 <= k < |a| ==>
      a[k] == if k == now then slots[was] else if was <= k < now then slots[k + 1] else slots[k]
    ensures a == RaiseLoop(slots, was, now)
  {
  }

  /**
   Asked to raise a visible sheet above the top, sheet_updown reads the stale entry above the
   top and does not grow the order: the result is the wanted order exactly when that stale
   entry happens to be the sheet itself.
   */
  lemma RaisingPastTop<T>(slots: seq<T>, top: nat, was: nat)
    requires was <= top && top + 1 < |slots|
    ensures RaiseLoop(slots, was, top + 1)[..top + 1] == Restack(slots[..top + 1], slots[was], was, top) <==>
      slots[top + 1] == slots[was]
  {
    var order, got := slots[..top + 1], RaiseLoop(slots, was, top + 1)[..top + 1];
    hide Restack, Without;
    if was < top {
      RaisedIs(order, was, top, got[top := slots[was]]);
    } else {
      RestackInPlace(order, slots[was], was);
    }
    assert got[top] == slots[top + 1];
    RestackedFrom(order, slots[was], was, top, top);
    assert slots[top + 1] == slots[was] ==> got[top := slots[was]] == got;
  }

  /**
   Even when the order comes out right, the map is not recomputed and the sheet is drawn only
   where the map already names it.  The map is then right at a pixel exactly when the sheet has no
   content there or had none above it; the frame, where no shadow lies, exactly when one of these
   holds or the pixel had the sheet's colour already.
   */
  lemma PastTopPixel(st: Stack, was: nat, x: int, y: int, owner: u8, cell: u32)
    requires was < |st| && DistinctSids(st) && Owned(st, x, y, owner)
    ensures var l, st2 := st[was], Restack(st, st[was], was, |st| - 1);
      var uncovered := Solid(l, x, y) && exists j :: was < j < |st| && Solid(st[j], x, y);
      && (Owned(st2, x, y, owner) <==> !uncovered)
      && (NoShade(st, x, y) && Shown(st, x, y, cell) ==>
            (Shown(st2, x, y, DrawAt(l, x, y, owner, cell, false)) <==> !uncovered || cell == Pix(l, x, y)))
  {
    hide Restack, Without, Solid, Darken, NoShade, DistinctSids, IsTop, Owned, Shown, Shaded, IsShade, Pix;
    var l, st2, n := st[was], Restack(st, st[was], was, |st| - 1), |st| - 1;
    RestackedFrom(st, l, was, n, n);
    if Solid(l, x, y) {
      PastTopSolid(st, was, n, x, y);
      TopDecides(st2, x, y, n, owner, DrawAt(l, x, y, owner, cell, false));
      if exists j :: was < j < |st| && Solid(st[j], x, y) {
        var t := HighestAbove(st, x, y, was, |st|);
        TopDecides(st, x, y, t, owner, cell);
        SidsDiffer(st, was, t);
      } else {
        OnTop(st, x, y, was);
        TopDecides(st, x, y, was, owner, cell);
        if NoShade(st, x, y) { OwnIsDrawn(st, was, x, y, cell); }
      }
    } else {
      PastTopEmpty(st, was, n, x, y, owner, cell);
    }
  }

  /** The topmost content decides what both caches should hold. */
  lemma TopDecides(st: Stack, x: int, y: int, t: nat, owner: u8, cell: u32)
    requires IsTop(st, x, y, t)
    ensures Owned(st, x, y, owner) <==> owner == st[t].sid
    ensures Shown(st, x, y, cell) <==> cell == Pix(st[t], x, y)
  {
    hide Solid, Pix;
  }

  lemma OnTop(st: Stack, x: int, y: int, t: nat)
    requires t < |st| && Solid(st[t], x, y) && forall j :: t < j < |st| ==> !Solid(st[j], x, y)
    ensures IsTop(st, x, y, t)
  {
  }

  lemma OwnIsDrawn(st: Stack, k: nat, x: int, y: int, cell: u32)
    requires NoShade(st, x, y) && k < |st| && Solid(st[k], x, y)
    ensures DrawAt(st[k], x, y, st[k].sid, cell, false) == Pix(st[k], x, y)
  {
    hide Pix, Darken;
    assert !Shaded(st[k], x, y);
  }

  lemma SidsDiffer(st: Stack, j: nat, k: nat)
    requires DistinctSids(st) && j < |st| && k < |st| && j != k
    ensures st[j].sid != st[k].sid
  {
  }

  lemma PastTopSolid(st: Stack, was: nat, now: nat, x: int, y: int)
    requires was < |st| && now == |st| - 1 && Solid(st[was], x, y)
    ensures IsTop(Restack(st, st[was], was, now), x, y, now)
  {
    hide Restack, Without, Solid;
    RestackedFrom(st, st[was], was, now, now);
  }

  lemma PastTopEmpty(st: Stack, was: nat, now: nat, x: int, y: int, owner: u8, cell: u32)
    requires was < |st| && now == |st| - 1 && !Solid(st[was], x, y) && DistinctSids(st) && Owned(st, x, y, owner)
    ensures var st2 := Restack(st, st[was], was, now);
      Owned(st2, x, y, owner) && (Shown(st, x, y, cell) ==> Shown(st2, x, y, DrawAt(st[was], x, y, owner, cell, false)))
  {
    hide Restack, Without, Solid, Draw, DistinctSids, Pix;
    var st2 := Restack(st, st[was], was, now);
    forall t2: nat | IsTop(st2, x, y, t2)
      ensures owner == st2[t2].sid && owner != st[was].sid && (Shown(st, x, y, cell) ==> cell == Pix(st2[t2], x, y))
    {
      RestackedFrom(st, st[was], was, now, t2);
      TopWas(st, st[was], was, now, x, y, t2);
      SidsDiffer(st, was, Origin(t2, was, now));
    }
  }

  lemma {:induction false} HighestAbove(st: Stack, x: int, y: int, from: nat, n: nat) returns (t: nat)
    requires n <= |st| && (exists j :: from < j < n && Solid(st[j], x, y))
    requires forall j :: n <= j < |st| ==> !Solid(st[j], x, y)
    ensures IsTop(st, x, y, t) && from < t < |st|
  {
    hide Solid;
    if Solid(st[n - 1], x, y) {
      t := n - 1;
    } else {
      t := HighestAbove(st, x, y, from, n - 1);
    }
  }

  lemma RestackKeepsSids(st: Stack, l: Layer, was: int, now: int)
    requires DistinctSids(st) && -1 <= was < |st| && -1 <= now <= |Without(st, was)|
    requires if was >= 0 then st[was] == l else forall k :: 0 <= k < |st| ==> st[k].sid != l.sid
    ensures DistinctSids(Restack(st, l, was, now))
  {
    var st2 := Restack(st, l, was, now);
    hide Restack;
    forall j, k | 0 <= j < k < |st2| ensures st2[j].sid != st2[k].sid {
      RestackedFrom(st, l, was, now, j);
      RestackedFrom(st, l, was, now, k);
    }
  }

  /** A topmost layer other than the moved one was topmost before, unless the moved one had content above it. */
  lemma TopWas(st: Stack, l: Layer, was: int, now: int, x: int, y: int, t2: nat)
    requires -1 <= was < |st| && -1 <= now <= |Without(st, was)| && (was >= 0 ==> st[was] == l)
    requires IsTop(Restack(st, l, was, now), x, y, t2)
    requires t2 != now && (was < Origin(t2, was, now) || !Solid(l, x, y))
    ensures Origin(t2, was, now) >= 0 && IsTop(st, x, y, Origin(t2, was, now))
    ensures st[Origin(t2, was, now)] == Restack(st, l, was, now)[t2]
  {
    hide Solid, Restack;
    var st2 := Restack(st, l, was, now);
    RestackedFrom(st, l, was, now, t2);
    var t := Origin(t2, was, now);
    forall j | t < j < |st| ensures !Solid(st[j], x, y) {
      if j != was {
        var r := if 0 <= was < j then j - 1 else j;
        var j2 := if 0 <= now <= r then r + 1 else r;
        RestackedFrom(st, l, was, now, j2);
      }
    }
  }

  /**
   sheet_updown at one pixel.  Where the moved sheet lies over the pixel, redoing only the
   heights RedoLow.. makes both caches right for the new order; elsewhere they were right already.
   */
  lemma RestackPixel(st: Stack, l: Layer, was: int, now: int, x: int, y: int, owner: u8, cell: u32)
    requires -1 <= was < |st| && -1 <= now <= |Without(st, was)| && was != now
    requires if was >= 0 then st[was] == l else forall k :: 0 <= k < |st| ==> st[k].sid != l.sid
    requires DistinctSids(st) && Owned(st, x, y, owner)
    ensures var st2 := Restack(st, l, was, now);
            var redone := Covers(l, x, y);
            var owner2 := if redone then MapPass(st2, x, y, RedoLow(was, now), |st2|, owner) else owner;
            && RedoHigh(was, now) <= |st2|
            && Owned(st2, x, y, owner2)
            && (NoShade(st2, x, y) && Shown(st, x, y, cell) ==>
                Shown(st2, x, y,
                  if redone then DrawPass(st2, x, y, RedoLow(was, now), RedoHigh(was, now), owner2, cell) else cell))
  {
    var st2 := Restack(st, l, was, now);
    RestackKeepsSids(st, l, was, now);
    hide Covers, Solid, Shaded, Pix, Draw, IsShade, Restack, IsTop, WasTop, Shown, Owned, NoShade, DistinctSids,
      MapPass, DrawPass;
    forall t2: nat | IsTop(st2, x, y, t2) && (!Covers(l, x, y) || t2 < RedoLow(was, now) || RedoHigh(was, now) <= t2)
      ensures WasTop(st, x, y, st2[t2])
    {
      RestackTop(st, l, was, now, x, y, t2);
    }
    if Covers(l, x, y) {
      UpdatePixel(st, st2, x, y, RedoLow(was, now), RedoLow(was, now), RedoHigh(was, now), owner, cell);
    } else {
      UpdatePixel(st, st2, x, y, |st2|, 0, 0, owner, cell);
      NothingToDo(st2, x, y, owner, cell);
    }
  }

  lemma NothingToDo(st: Stack, x: int, y: int, owner: u8, cell: u32)
    ensures MapPass(st, x, y, |st|, |st|, owner) == owner && DrawPass(st, x, y, 0, 0, owner, cell) == cell
  {
  }

  /** Outside the redone heights, or where the moved sheet does not lie, the topmost layer was topmost before. */
  lemma RestackTop(st: Stack, l: Layer, was: int, now: int, x: int, y: int, t2: nat)
    requires -1 <= was < |st| && -1 <= now <= |Without(st, was)| && was != now && (was >= 0 ==> st[was] == l)
    requires IsTop(Restack(st, l, was, now), x, y, t2)
    requires !Covers(l, x, y) || t2 < RedoLow(was, now) || RedoHigh(was, now) <= t2
    ensures WasTop(st, x, y, Restack(st, l, was, now)[t2])
  {
    hide Pix, IsShade, Restack;
    RestackedFrom(st, l, was, now, t2);
    if t2 == now {
      forall j | was < j < |st| ensures !Solid(st[j], x, y) {
        RestackedFrom(st, l, was, now, j);
      }
      assert IsTop(st, x, y, was);
    } else {
      if t2 < now { RestackedFrom(st, l, was, now, now); }
      TopWas(st, l, was, now, x, y, t2);
    }
  }

  // ---------- sliding ----------

  /**
   sheet_slide at one pixel: layer k moves.  Four passes run, two over its old rectangle and
   two over its new one; a pass that does not reach the pixel leaves the cell alone.
   */
  lemma SlidePixel(st: Stack, k: nat, l: Layer, x: int, y: int, owner: u8, cell: u32)
    requires k < |st| && DistinctSids(st) && l.sid == st[k].sid
    requires Owned(st, x, y, owner)
    ensures Owned(st[k := l], x, y, SlidOwner(st, k, l, x, y, owner))
    ensures NoShade(st[k := l], x, y) && Shown(st, x, y, cell)
            ==> Shown(st[k := l], x, y, SlidCell(st, k, l, x, y, SlidOwner(st, k, l, x, y, owner), cell))
  {
    hide SlidOwner, SlidCell, Pix, Solid;
    var st2 := st[k := l];
    forall t2: nat | IsTop(st2, x, y, t2)
      ensures SlidOwner(st, k, l, x, y, owner) == st2[t2].sid
      ensures NoShade(st2, x, y) && Shown(st, x, y, cell)
              ==> SlidCell(st, k, l, x, y, st2[t2].sid, cell) == Pix(st2[t2], x, y)
    {
      SlideOwner(st, k, l, x, y, owner, t2);
      if NoShade(st2, x, y) && Shown(st, x, y, cell) { SlideShows(st, k, l, x, y, cell, t2); }
    }
  }

  /** The owner cell after the two map passes of a slide. */
  function SlidOwner(st: Stack, k: nat, l: Layer, x: int, y: int, owner: u8): u8
    requires k < |st|
  {
    var st2 := st[k := l];
    var owner1 := if Covers(st[k], x, y) then MapPass(st2, x, y, 0, |st2|, owner) else owner;
    if Covers(l, x, y) then MapPass(st2, x, y, k, |st2|, owner1) else owner1
  }

  /** The frame cell after the two draw passes of a slide. */
  function SlidCell(st: Stack, k: nat, l: Layer, x: int, y: int, owner: u8, cell: u32): u32
    requires k < |st|
  {
    var st2 := st[k := l];
    var cell1 := if Covers(st[k], x, y) then DrawPass(st2, x, y, 0, k, owner, cell) else cell;
    if Covers(l, x, y) then DrawPass(st2, x, y, k, k + 1, owner, cell1) else cell1
  }

  /** A top of the new stack that is not the slid sheet, nor seen through where it was, was the top before. */
  lemma SameTop(st: Stack, k: nat, l: Layer, x: int, y: int, t2: nat)
    requires k < |st| && IsTop(st[k := l], x, y, t2) && (t2 > k || (t2 < k && !Covers(st[k], x, y)))
    ensures IsTop(st, x, y, t2) && st[k := l][t2] == st[t2]
  {
    hide Pix;
    var st2 := st[k := l];
    forall j | t2 < j < |st| ensures !Solid(st[j], x, y) {
      assert j != k ==> st2[j] == st[j];
    }
  }

  lemma SlideOwner(st: Stack, k: nat, l: Layer, x: int, y: int, owner: u8, t2: nat)
    requires k < |st| && DistinctSids(st) && l.sid == st[k].sid
    requires Owned(st, x, y, owner) && IsTop(st[k := l], x, y, t2)
    ensures SlidOwner(st, k, l, x, y, owner) == st[k := l][t2].sid
  {
    hide Pix, Draw, Darken, IsShade, MapPass, DrawPass;
    var st2 := st[k := l];
    MapPassFindsTop(st2, x, y, 0, |st2|, owner, t2);
    var owner1 := if Covers(st[k], x, y) then MapPass(st2, x, y, 0, |st2|, owner) else owner;
    if k <= t2 {
      MapPassFindsTop(st2, x, y, k, |st2|, owner1, t2);
    } else {
      MapPassKeeps(st2, x, y, k, |st2|, owner1);
    }
    if t2 > k || (t2 < k && !Covers(st[k], x, y)) { SameTop(st, k, l, x, y, t2); }
  }

  lemma TopCovers(st: Stack, x: int, y: int, t: nat)
    requires IsTop(st, x, y, t)
    ensures t < |st| && Covers(st[t], x, y)
  {
    hide Pix;
  }

  lemma TopShows(st: Stack, x: int, y: int, t: nat, cell: u32)
    requires IsTop(st, x, y, t) && Shown(st, x, y, cell)
    ensures cell == Pix(st[t], x, y)
  {
    hide Pix;
  }

  lemma SlideShows(st: Stack, k: nat, l: Layer, x: int, y: int, cell: u32, t2: nat)
    requires k < |st| && DistinctSids(st) && l.sid == st[k].sid && IsTop(st[k := l], x, y, t2)
    requires NoShade(st[k := l], x, y) && Shown(st, x, y, cell)
    ensures SlidCell(st, k, l, x, y, st[k := l][t2].sid, cell) == Pix(st[k := l][t2], x, y)
  {
    hide Pix, IsTop, NoShade, Shown, Covers, DrawPass;
    var st2 := st[k := l];
    TopCovers(st2, x, y, t2);
    if t2 > k || (t2 < k && !Covers(st[k], x, y)) {
      SameTop(st, k, l, x, y, t2);
      TopShows(st, x, y, t2, cell);
    }
    SidsKept(st, k, l);
    var cell1 := if Covers(st[k], x, y) then DrawPass(st2, x, y, 0, k, st2[t2].sid, cell) else cell;
    DrawPassShowsTop(st2, x, y, 0, k, cell, t2);
    DrawPassShowsTop(st2, x, y, k, k + 1, cell1, t2);
  }

  lemma SidsKept(st: Stack, k: nat, l: Layer)
    requires k < |st| && DistinctSids(st) && l.sid == st[k].sid
    ensures DistinctSids(st[k := l])
  {
  }

  // ---------- full recomposition, shadows included ----------

  /** The painter's algorithm: bottom to top, content overwrites and shadow darkens. */
  function Painter(st: Stack, x: int, y: int, to: nat, cell: u32): u32
    requires to <= |st|
  {
    if to == 0 then cell
    else
      var below := Painter(st, x, y, to - 1, cell);
      if Shaded(st[to - 1], x, y) then Darken(below, Depth(Pix(st[to - 1], x, y)))
      else if Solid(st[to - 1], x, y) then Pix(st[to - 1], x, y)
      else below
  }

  /** Total shadow depth of the layers at heights from..to. */
  function ShadeDepth(st: Stack, x: int, y: int, from: nat, to: nat): nat
    requires to <= |st|
  {
    if to <= from then 0
    else ShadeDepth(st, x, y, from, to - 1) +
         (if Shaded(st[to - 1], x, y) then Depth(Pix(st[to - 1], x, y)) else 0)
  }

  /** Below the topmost content the two folds may differ, from it upwards they agree. */
  lemma {:induction false} DrawPassClosedForm(st: Stack, x: int, y: int, to: nat, cell: u32, t: nat)
    requires t < to <= |st| && IsTop(st, x, y, t) && DistinctSids(st)
    requires !IsShade(Pix(st[t], x, y))
    ensures DrawPass(st, x, y, 0, to, st[t].sid, cell) == Darken(Pix(st[t], x, y), ShadeDepth(st, x, y, t, to))
    ensures Painter(st, x, y, to, cell) == Darken(Pix(st[t], x, y), ShadeDepth(st, x, y, t, to))
  {
    hide Darken;
    if to == t + 1 {
      DarkenByNothing(Pix(st[t], x, y));
    } else {
      DrawPassClosedForm(st, x, y, to - 1, cell, t);
      assert st[to - 1].sid != st[t].sid;
      var d := ShadeDepth(st, x, y, t, to - 1);
      if Shaded(st[to - 1], x, y) {
        DarkenAdds(Pix(st[t], x, y), d, Depth(Pix(st[to - 1], x, y)));
      }
    }
  }

  /** If the topmost content is itself a shadow pixel, a full draw pass only ever darkens the old frame. */
  lemma {:induction false} DrawPassOnlyDarkens(st: Stack, x: int, y: int, to: nat, cell: u32, t: nat)
    requires to <= |st| && IsTop(st, x, y, t) && DistinctSids(st) && IsShade(Pix(st[t], x, y))
    ensures var out := DrawPass(st, x, y, 0, to, st[t].sid, cell);
            && Darken(out, 0) == Darken(cell, ShadeDepth(st, x, y, 0, to))
            && (t < to ==> out == Darken(cell, ShadeDepth(st, x, y, 0, to)))
  {
    hide Darken;
    if to > 0 {
      DrawPassOnlyDarkens(st, x, y, to - 1, cell, t);
      var before, l := DrawPass(st, x, y, 0, to - 1, st[t].sid, cell), st[to - 1];
      var d := Depth(Pix(l, x, y));
      if Shaded(l, x, y) {
        assert Darken(before, d) == Darken(Darken(before, 0), d) by { DarkenAdds(before, 0, d); }
        DarkenAdds(cell, ShadeDepth(st, x, y, 0, to - 1), d);
        DarkenAdds(before, d, 0);
      } else {
        assert to - 1 != t && l.sid != st[t].sid;
      }
    }
  }

  /** Full refresh shows the painter's picture, and a closed form of it, whatever the frame held before. */
  lemma FullRefreshIsPainter(st: Stack, x: int, y: int, owner: u8, cell: u32, t: nat)
    requires DistinctSids(st) && IsTop(st, x, y, t) && !IsShade(Pix(st[t], x, y))
    ensures var owner2 := MapPass(st, x, y, 0, |st|, owner);
            && owner2 == st[t].sid
            && DrawPass(st, x, y, 0, |st|, owner2, cell) == Painter(st, x, y, |st|, cell)
            && Painter(st, x, y, |st|, cell) == Darken(Pix(st[t], x, y), ShadeDepth(st, x, y, t, |st|))
  {
    MapPassFindsTop(st, x, y, 0, |st|, owner, t);
    DrawPassClosedForm(st, x, y, |st|, cell, t);
  }

  /** The cell of a painted screen: where the topmost content is a plain pixel, the painter's colour. */
  ghost predicate PaintedCell(st: Stack, x: int, y: int, cell: u32) {
    forall t: nat :: IsTop(st, x, y, t) && !IsShade(Pix(st[t], x, y)) ==>
      cell == Darken(Pix(st[t], x, y), ShadeDepth(st, x, y, t, |st|))
  }

  lemma {:induction false} SameShade(st: Stack, st2: Stack, x: int, y: int, from: nat, to: nat)
    requires to <= |st| && to <= |st2| && forall j :: from <= j < to ==> st2[j] == st[j]
    ensures ShadeDepth(st2, x, y, from, to) == ShadeDepth(st, x, y, from, to)
  {
    if from < to { SameShade(st, st2, x, y, from, to - 1); }
  }

  /** Drawing one more layer on top of a painted cell: it stays painted, shadows included. */
  lemma OneOnTop(st: Stack, l: Layer, x: int, y: int, cell: u32, t: nat)
    requires IsTop(st + [l], x, y, t) && !IsShade(Pix((st + [l])[t], x, y)) && DistinctSids(st + [l])
    requires t < |st| ==> cell == Darken(Pix(st[t], x, y), ShadeDepth(st, x, y, t, |st|))
    ensures Draw(l, x, y, (st + [l])[t].sid, cell)
      == Darken(Pix((st + [l])[t], x, y), ShadeDepth(st + [l], x, y, t, |st| + 1))
  {
    hide Darken, Pix, IsShade;
    var st2, n := st + [l], |st|;
    SameShade(st, st2, x, y, t, n);
    if t == n {
      assert ShadeDepth(st2, x, y, n, n) == 0 && !Shaded(l, x, y);
      DarkenByNothing(Pix(l, x, y));
    } else {
      assert st2[n] == l && st2[t].sid != l.sid;
      if Shaded(l, x, y) { DarkenAdds(Pix(st[t], x, y), ShadeDepth(st, x, y, t, n), Depth(Pix(l, x, y))); }
    }
  }

  /** Showing a hidden layer on top of everything keeps a painted cell painted. */
  lemma ShowOnTop(st: Stack, l: Layer, x: int, y: int, cell: u32, t: nat)
    requires PaintedCell(st, x, y, cell) && DistinctSids(st + [l])
    requires IsTop(st + [l], x, y, t) && !IsShade(Pix((st + [l])[t], x, y))
    ensures Draw(l, x, y, (st + [l])[t].sid, cell)
      == Darken(Pix((st + [l])[t], x, y), ShadeDepth(st + [l], x, y, t, |st| + 1))
  {
    hide Darken, Pix, IsShade, Draw, ShadeDepth;
    if t < |st| {
      StillTop(st, [l], x, y, t);
      assert (st + [l])[t] == st[t];
    }
    OneOnTop(st, l, x, y, cell, t);
  }

  lemma StillTop(st: Stack, more: Stack, x: int, y: int, t: nat)
    requires t < |st| && IsTop(st + more, x, y, t)
    ensures IsTop(st, x, y, t)
  {
    hide Solid;
    forall j | t < j < |st| ensures !Solid(st[j], x, y) { assert (st + more)[j] == st[j]; }
    assert (st + more)[t] == st[t];
  }

  /** Sliding the topmost layer keeps a painted cell painted: what it covered is drawn from the bottom up,
      and it is drawn once where it goes. */
  lemma SlideOnTop(st: Stack, l: Layer, x: int, y: int, cell: u32, t: nat)
    requires st != [] && DistinctSids(st) && l.sid == st[|st| - 1].sid && PaintedCell(st, x, y, cell)
    requires IsTop(st[|st| - 1 := l], x, y, t) && !IsShade(Pix(st[|st| - 1 := l][t], x, y))
    ensures SlidCell(st, |st| - 1, l, x, y, st[|st| - 1 := l][t].sid, cell)
      == Darken(Pix(st[|st| - 1 := l][t], x, y), ShadeDepth(st[|st| - 1 := l], x, y, t, |st|))
  {
    hide Darken, Pix, IsShade, Draw, ShadeDepth, PaintedCell, IsTop;
    var k := |st| - 1;
    TopCovers(st[k := l], x, y, t);
    var below, st2, owner := st[..k], st[k := l], st[k := l][t].sid;
    assert st2 == below + [l];
    SidsKept(st, k, l);
    var cell1 := if Covers(st[k], x, y) then DrawPass(st2, x, y, 0, k, owner, cell) else cell;
    if t < k { CellBelow(st, l, x, y, cell, t); }
    OneOnTop(below, l, x, y, cell1, t);
    OneDrawn(st2, x, y, k, owner, cell1);
    if !Covers(l, x, y) { NotDrawn(l, x, y, owner, cell1); }
  }

  lemma OneDrawn(st: Stack, x: int, y: int, k: nat, owner: u8, cell: u32)
    requires k < |st|
    ensures DrawPass(st, x, y, k, k + 1, owner, cell) == Draw(st[k], x, y, owner, cell)
  {
    assert DrawPass(st, x, y, k, k, owner, cell) == cell;
  }

  lemma NotDrawn(l: Layer, x: int, y: int, owner: u8, cell: u32)
    requires !Covers(l, x, y)
    ensures Draw(l, x, y, owner, cell) == cell
  {
  }

  /** What lies below the slid layer, before it is drawn again. */
  lemma CellBelow(st: Stack, l: Layer, x: int, y: int, cell: u32, t: nat)
    requires st != [] && t < |st| - 1 && DistinctSids(st) && PaintedCell(st, x, y, cell)
    requires IsTop(st[|st| - 1 := l], x, y, t) && !IsShade(Pix(st[t], x, y))
    ensures var k := |st| - 1;
      (if Covers(st[k], x, y) then DrawPass(st[k := l], x, y, 0, k, st[t].sid, cell) else cell)
      == Darken(Pix(st[t], x, y), ShadeDepth(st[..k], x, y, t, k))
  {
    hide Darken, Pix, IsShade, Draw;
    var k := |st| - 1;
    var below, st2 := st[..k], st[k := l];
    assert st2 == below + [l] && st == below + [st[k]];
    StillTop(below, [l], x, y, t);
    if Covers(st[k], x, y) {
      SameDraws(below, st2, x, y, k, below[t].sid, cell);
      DrawPassClosedForm(below, x, y, k, cell, t);
    } else {
      assert IsTop(st, x, y, t) by {
        forall j | t < j < |st| ensures !Solid(st[j], x, y) { assert j < k ==> st[j] == below[j]; }
      }
      SameShade(st, below, x, y, t, k);
      assert !Shaded(st[k], x, y);
      assert ShadeDepth(st, x, y, t, k + 1) == ShadeDepth(st, x, y, t, k);
    }
  }

  lemma {:induction false} SameDraws(st: Stack, st2: Stack, x: int, y: int, to: nat, owner: u8, cell: u32)
    requires to <= |st| && to <= |st2| && forall j :: 0 <= j < to ==> st2[j] == st[j]
    ensures DrawPass(st2, x, y, 0, to, owner, cell) == DrawPass(st, x, y, 0, to, owner, cell)
  {
    hide Draw;
    if to > 0 { SameDraws(st, st2, x, y, to - 1, owner, cell); }
  }

  /**
   A full refresh erases the old frame at a pixel exactly when the topmost content there is
   not a shadow pixel, or the shadows are so deep that everything saturates to black.
   (Only a layer with the opaque key can own a pixel through a shadow value.)
   */
  lemma FullRefreshErasesOldFrame(st: Stack, x: int, y: int, t: nat)
    requires DistinctSids(st) && IsTop(st, x, y, t)
    ensures (forall a: u32, b: u32 ::
              DrawPass(st, x, y, 0, |st|, st[t].sid, a) == DrawPass(st, x, y, 0, |st|, st[t].sid, b))
            <==> (!IsShade(Pix(st[t], x, y)) || ShadeDepth(st, x, y, 0, |st|) >= 255)
  {
    hide Darken;
    var d := ShadeDepth(st, x, y, 0, |st|);
    if !IsShade(Pix(st[t], x, y)) {
      forall a: u32, b: u32
        ensures DrawPass(st, x, y, 0, |st|, st[t].sid, a) == DrawPass(st, x, y, 0, |st|, st[t].sid, b)
      {
        DrawPassClosedForm(st, x, y, |st|, a, t);
        DrawPassClosedForm(st, x, y, |st|, b, t);
      }
    } else {
      forall a: u32
        ensures DrawPass(st, x, y, 0, |st|, st[t].sid, a) == Darken(a, d)
      {
        DrawPassOnlyDarkens(st, x, y, |st|, a, t);
      }
      if d >= 255 {
        forall a: u32 ensures Darken(a, d) == 0 { DarkenSaturates(a, d); }
      } else {
        DarkenTellsApart(d);
        assert DrawPass(st, x, y, 0, |st|, st[t].sid, 0) != DrawPass(st, x, y, 0, |st|, st[t].sid, 255);
      }
    }
  }

  // ---------- the same in numbers ----------

  /** Red, green and blue, bits 16 to 23, 8 to 15 and 0 to 7, are each less by d, but not below 0. */
  predicate Lowered(was: u32, now: u32, d: nat) {
    && now < 0x100_0000
    && now / 0x1_0000 == (if was / 0x1_0000 % 0x100 > d then was / 0x1_0000 % 0x100 - d else 0)
    && now / 0x100 % 0x100 == (if was / 0x100 % 0x100 > d then was / 0x100 % 0x100 - d else 0)
    && now % 0x100 == (if was % 0x100 > d then was % 0x100 - d else 0)
  }

  lemma DarkenLowers(c: u32, d: nat)
    ensures Lowered(c, Darken(c, d), d)
  {
    hide Rgb;
    var now := Darken(c, d);
    assert now / 0x1_0000 == Red(now);
  }

  /** What drawing a layer does to a cell its rectangle covers: a pixel whose top byte is not zero
      lowers the cell by its low byte; any other is put there if the layer owns the cell. */
  lemma DrawnPixel(l: Layer, x: int, y: int, owner: u8, cell: u32)
    requires 0 <= x - l.x < l.w && 0 <= y - l.y < l.h && 0 <= (y - l.y) * l.w + (x - l.x) < |l.buf|
    ensures var p := l.buf[(y - l.y) * l.w + (x - l.x)];
      if p / 0x100_0000 != 0 then Lowered(cell, Draw(l, x, y, owner, cell), p % 0x100)
      else Draw(l, x, y, owner, cell) == if owner == l.sid then p else cell
  {
    hide Darken, Lowered;
    var p := l.buf[(y - l.y) * l.w + (x - l.x)];
    assert Pix(l, x, y) == p;
    DarkenLowers(cell, p % 0x100);
  }
}
