/**
 A whole screen: the owner map and the frame as values, the two refresh passes over a
 rectangle, and what sequences of such passes keep true of every pixel at once.
 */
module Screens {
  import opened Words
  import opened Layers
  import opened Orders

  datatype Rect = Rect(x0: int, y0: int, x1: int, y1: int) {
    predicate Has(x: int, y: int) {
      x0 <= x < x1 && y0 <= y < y1
    }
  }

  datatype Screen = Screen(w: int, h: int, owners: seq<u8>, frame: seq<u32>) {
    predicate On(x: int, y: int) {
      0 <= x < w && 0 <= y < h
    }

    function Owner(x: int, y: int): u8 {
      var i := Cell(w, x, y);
      if 0 <= i < |owners| then owners[i] else 0
    }

    function Pixel(x: int, y: int): u32 {
      var i := Cell(w, x, y);
      if 0 <= i < |frame| then frame[i] else 0
    }
  }

  function RectOf(l: Layer): Rect {
    Rect(l.x, l.y, l.x + l.w, l.y + l.h)
  }

  /** sheet_refreshmap as a relation between screens, for heights from..to-1. */
  ghost predicate MapRedone(c: Screen, c2: Screen, st: Stack, r: Rect, from: nat, to: nat)
    requires to <= |st|
  {
    && c2 == c.(owners := c2.owners)
    && forall x, y :: c.On(x, y) ==>
         c2.Owner(x, y) == if r.Has(x, y) then MapPass(st, x, y, from, to, c.Owner(x, y)) else c.Owner(x, y)
  }

  /** sheet_refreshsub as a relation between screens, for heights from..to-1. */
  ghost predicate FrameRedone(c: Screen, c2: Screen, st: Stack, r: Rect, from: nat, to: nat)
    requires to <= |st|
  {
    && c2 == c.(frame := c2.frame)
    && forall x, y :: c.On(x, y) ==>
         c2.Pixel(x, y) == if r.Has(x, y) then DrawPass(st, x, y, from, to, c.Owner(x, y), c.Pixel(x, y))
           else c.Pixel(x, y)
  }

  /** One layer of each. */
  ghost predicate LayerRegistered(c: Screen, c2: Screen, l: Layer, r: Rect) {
    && c2 == c.(owners := c2.owners)
    && forall x, y :: c.On(x, y) ==>
         c2.Owner(x, y) == if r.Has(x, y) && Solid(l, x, y) then l.sid else c.Owner(x, y)
  }

  ghost predicate LayerDrawn(c: Screen, c2: Screen, l: Layer, r: Rect, own: bool) {
    && c2 == c.(frame := c2.frame)
    && forall x, y :: c.On(x, y) ==>
         c2.Pixel(x, y) == if r.Has(x, y) then DrawAt(l, x, y, c.Owner(x, y), c.Pixel(x, y), own) else c.Pixel(x, y)
  }

  /** Two disjoint rectangles that together take in the layer's share of a third. */
  ghost predicate Split(c: Screen, l: Layer, r: Rect, r1: Rect, r2: Rect) {
    forall x, y :: c.On(x, y) && Covers(l, x, y) ==>
      (r.Has(x, y) <==> r1.Has(x, y) || r2.Has(x, y)) && !(r1.Has(x, y) && r2.Has(x, y))
  }

  lemma RegisterJoin(c: Screen, c1: Screen, c2: Screen, l: Layer, r: Rect, r1: Rect, r2: Rect)
    requires Split(c, l, r, r1, r2) && LayerRegistered(c, c1, l, r1) && LayerRegistered(c1, c2, l, r2)
    ensures LayerRegistered(c, c2, l, r)
  {
    hide Rect.Has, Pix;
    forall x, y | c.On(x, y)
      ensures c2.Owner(x, y) == if r.Has(x, y) && Solid(l, x, y) then l.sid else c.Owner(x, y)
    {
      assert c1.On(x, y) && c1.Owner(x, y) == if r1.Has(x, y) && Solid(l, x, y) then l.sid else c.Owner(x, y);
    }
  }

  lemma DrawJoin(c: Screen, c1: Screen, c2: Screen, l: Layer, r: Rect, r1: Rect, r2: Rect, own: bool)
    requires Split(c, l, r, r1, r2) && LayerDrawn(c, c1, l, r1, own) && LayerDrawn(c1, c2, l, r2, own)
    ensures LayerDrawn(c, c2, l, r, own)
  {
    hide Rect.Has, Pix, Darken;
    forall x, y | c.On(x, y)
      ensures c2.Pixel(x, y) == if r.Has(x, y) then DrawAt(l, x, y, c.Owner(x, y), c.Pixel(x, y), own)
        else c.Pixel(x, y)
    {
      assert c1.On(x, y) && c1.Owner(x, y) == c.Owner(x, y);
      assert c1.Pixel(x, y) == if r1.Has(x, y) then DrawAt(l, x, y, c.Owner(x, y), c.Pixel(x, y), own)
        else c.Pixel(x, y);
    }
  }

  /** One pixel of a layer. */
  lemma RegisterOne(c: Screen, l: Layer, x: int, y: int)
    requires c.On(x, y) && |c.owners| == c.w * c.h
    ensures 0 <= Cell(c.w, x, y) < |c.owners|
    ensures LayerRegistered(c, if Solid(l, x, y) then c.(owners := c.owners[Cell(c.w, x, y) := l.sid]) else c, l,
      Rect(x, y, x + 1, y + 1))
  {
    CellInRange(c.w, c.h, x, y);
    forall x2, y2 | c.On(x2, y2) && Cell(c.w, x2, y2) == Cell(c.w, x, y) ensures x2 == x && y2 == y {
      CellsApart(c.w, x2, y2, x, y);
    }
    hide Cell, Pix;
  }

  lemma DrawOne(c: Screen, l: Layer, x: int, y: int, own: bool)
    requires c.On(x, y) && |c.owners| == |c.frame| == c.w * c.h
    ensures 0 <= Cell(c.w, x, y) < |c.frame|
    ensures LayerDrawn(c, c.(frame := c.frame[Cell(c.w, x, y) := DrawAt(l, x, y, c.Owner(x, y), c.Pixel(x, y), own)]),
      l, Rect(x, y, x + 1, y + 1), own)
  {
    CellInRange(c.w, c.h, x, y);
    forall x2, y2 | c.On(x2, y2) && Cell(c.w, x2, y2) == Cell(c.w, x, y) ensures x2 == x && y2 == y {
      CellsApart(c.w, x2, y2, x, y);
    }
    hide Cell, Pix, Draw, DrawAt;
  }

  lemma NothingInside(c: Screen, l: Layer, r: Rect)
    requires forall x, y :: c.On(x, y) && Covers(l, x, y) ==> !r.Has(x, y)
    ensures LayerRegistered(c, c, l, r) && forall own :: LayerDrawn(c, c, l, r, own)
  {
  }

  lemma MapOneMore(c: Screen, c1: Screen, c2: Screen, st: Stack, r: Rect, from: nat, h: nat)
    requires from <= h < |st|
    requires MapRedone(c, c1, st, r, from, h) && LayerRegistered(c1, c2, st[h], r)
    ensures MapRedone(c, c2, st, r, from, h + 1)
  {
    hide Solid;
  }

  lemma FrameOneMore(c: Screen, c1: Screen, c2: Screen, st: Stack, r: Rect, from: nat, h: nat)
    requires from <= h < |st|
    requires FrameRedone(c, c1, st, r, from, h) && LayerDrawn(c1, c2, st[h], r, true)
    ensures FrameRedone(c, c2, st, r, from, h + 1)
  {
    hide Draw;
    forall x, y | c.On(x, y) ensures c1.Owner(x, y) == c.Owner(x, y) {}
  }

  lemma NothingRedone(c: Screen, st: Stack, r: Rect, from: nat, to: nat)
    requires to <= from && to <= |st|
    ensures MapRedone(c, c, st, r, from, to) && FrameRedone(c, c, st, r, from, to)
  {
  }

  lemma ClippedLayer(c: Screen, c2: Screen, l: Layer, r: Rect, r2: Rect, own: bool)
    requires forall x, y :: c.On(x, y) ==> (r.Has(x, y) <==> r2.Has(x, y))
    requires LayerDrawn(c, c2, l, r, own)
    ensures LayerDrawn(c, c2, l, r2, own)
  {
    hide DrawAt, Rect.Has;
  }

  /** Cutting a rectangle to the screen changes nothing that can be seen. */
  lemma ClippedAlike(c: Screen, c2: Screen, st: Stack, r: Rect, r2: Rect, from: nat, to: nat)
    requires to <= |st|
    requires forall x, y :: c.On(x, y) ==> (r.Has(x, y) <==> r2.Has(x, y))
    ensures MapRedone(c, c2, st, r, from, to) ==> MapRedone(c, c2, st, r2, from, to)
    ensures FrameRedone(c, c2, st, r, from, to) ==> FrameRedone(c, c2, st, r2, from, to)
  {
    hide MapPass, DrawPass, Rect.Has;
  }

  // ---------- agreement of a screen with a stack ----------

  ghost predicate OwnedAt(st: Stack, c: Screen, x: int, y: int) {
    Owned(st, x, y, c.Owner(x, y))
  }

  ghost predicate ShownAt(st: Stack, c: Screen, x: int, y: int) {
    Shown(st, x, y, c.Pixel(x, y))
  }

  /**
   One operation took stack and screen from (st, c) to (st2, c2).  Wherever the owner map was
   right it still is; wherever the frame was right too, and no shadow now lies over the pixel,
   the frame still is.
   */
  ghost predicate StillRight(st: Stack, c: Screen, st2: Stack, c2: Screen) {
    && c2.w == c.w && c2.h == c.h
    && forall x, y :: c.On(x, y) && OwnedAt(st, c, x, y) ==>
         && OwnedAt(st2, c2, x, y)
         && (ShownAt(st, c, x, y) && NoShade(st2, x, y) ==> ShownAt(st2, c2, x, y))
  }

  /** The map is right at every pixel, the frame at every pixel outside `shaded`. */
  ghost predicate Agree(st: Stack, c: Screen, shaded: iset<(int, int)>) {
    forall x, y :: c.On(x, y) ==> OwnedAt(st, c, x, y) && ((x, y) !in shaded ==> ShownAt(st, c, x, y))
  }

  ghost function ShadedNow(st: Stack): iset<(int, int)> {
    iset x: int, y: int | !NoShade(st, x, y) :: (x, y)
  }

  lemma AgreesOn(st: Stack, c: Screen, st2: Stack, c2: Screen, shaded: iset<(int, int)>)
    requires StillRight(st, c, st2, c2) && Agree(st, c, shaded)
    ensures Agree(st2, c2, shaded + ShadedNow(st2))
  {
    hide OwnedAt, ShownAt, NoShade;
    forall x, y | c2.On(x, y)
      ensures OwnedAt(st2, c2, x, y) && ((x, y) !in shaded + ShadedNow(st2) ==> ShownAt(st2, c2, x, y))
    {
      assert c.On(x, y) && OwnedAt(st, c, x, y);
    }
  }

  /** No pixel of the buffer is a shadow pixel. */
  ghost predicate Plain(buf: seq<u32>) {
    forall i :: 0 <= i < |buf| ==> !IsShade(buf[i])
  }

  lemma PlainCastsNoShade(st: Stack)
    requires forall k :: 0 <= k < |st| ==> Plain(st[k].buf)
    ensures ShadedNow(st) == iset{}
  {
    forall x: int, y: int ensures NoShade(st, x, y) {
      forall k | 0 <= k < |st| ensures !Shaded(st[k], x, y) {
        assert Plain(st[k].buf);
      }
    }
  }

  ghost predicate AllOwned(st: Stack, c: Screen) {
    forall x, y :: c.On(x, y) ==> OwnedAt(st, c, x, y)
  }

  /** The same over several operations: the frame stays right where no shadow lies before or after. */
  ghost predicate Carries(st: Stack, c: Screen, st2: Stack, c2: Screen) {
    && c2.w == c.w && c2.h == c.h
    && forall x, y :: c.On(x, y) && OwnedAt(st, c, x, y) ==>
         && OwnedAt(st2, c2, x, y)
         && (ShownAt(st, c, x, y) && NoShade(st, x, y) && NoShade(st2, x, y) ==> ShownAt(st2, c2, x, y))
  }

  lemma StillRightCarries(st: Stack, c: Screen, st2: Stack, c2: Screen)
    requires StillRight(st, c, st2, c2)
    ensures Carries(st, c, st2, c2)
  {
    hide OwnedAt, ShownAt, NoShade;
  }

  /** Every layer of st1 is one of st or of st2. */
  ghost predicate Between(st: Stack, st1: Stack, st2: Stack) {
    forall k {:trigger st1[k]} :: 0 <= k < |st1| ==> st1[k] in st || st1[k] in st2
  }

  lemma NoShadeBetween(st: Stack, st1: Stack, st2: Stack, x: int, y: int)
    requires Between(st, st1, st2) && NoShade(st, x, y) && NoShade(st2, x, y)
    ensures NoShade(st1, x, y)
  {
    hide Shaded;
  }

  lemma CarriesOn(st: Stack, c: Screen, st1: Stack, c1: Screen, st2: Stack, c2: Screen)
    requires Carries(st, c, st1, c1) && Carries(st1, c1, st2, c2) && Between(st, st1, st2)
    ensures Carries(st, c, st2, c2)
  {
    hide OwnedAt, ShownAt, NoShade, Between;
    forall x, y | c.On(x, y) && OwnedAt(st, c, x, y)
      ensures OwnedAt(st2, c2, x, y)
      ensures ShownAt(st, c, x, y) && NoShade(st, x, y) && NoShade(st2, x, y) ==> ShownAt(st2, c2, x, y)
    {
      assert c1.On(x, y) && OwnedAt(st1, c1, x, y);
      if NoShade(st, x, y) && NoShade(st2, x, y) { NoShadeBetween(st, st1, st2, x, y); }
    }
  }

  lemma CarriesOwned(st: Stack, c: Screen, st2: Stack, c2: Screen)
    requires Carries(st, c, st2, c2) && AllOwned(st, c)
    ensures AllOwned(st2, c2)
  {
    hide OwnedAt, ShownAt, NoShade;
    forall x, y | c2.On(x, y) ensures OwnedAt(st2, c2, x, y) {
      assert c.On(x, y) && OwnedAt(st, c, x, y);
    }
  }

  lemma AgreesCarried(st: Stack, c: Screen, st2: Stack, c2: Screen, shaded: iset<(int, int)>)
    requires Carries(st, c, st2, c2) && Agree(st, c, shaded) && ShadedNow(st) <= shaded
    ensures Agree(st2, c2, shaded + ShadedNow(st2))
  {
    hide OwnedAt, ShownAt, NoShade;
    forall x, y | c2.On(x, y)
      ensures OwnedAt(st2, c2, x, y) && ((x, y) !in shaded + ShadedNow(st2) ==> ShownAt(st2, c2, x, y))
    {
      assert c.On(x, y) && OwnedAt(st, c, x, y);
      assert (x, y) !in ShadedNow(st) ==> NoShade(st, x, y);
      assert (x, y) !in ShadedNow(st2) ==> NoShade(st2, x, y);
    }
  }

  lemma NothingChanges(st: Stack, c: Screen)
    ensures StillRight(st, c, st, c)
  {
  }

  /** sheet_updown: the restacked sheet's own rectangle is redone over RedoLow..RedoHigh. */
  lemma UpdownKeeps(st: Stack, l: Layer, was: int, now: int, c: Screen, c1: Screen, c2: Screen)
    requires -1 <= was < |st| && -1 <= now <= |Without(st, was)| && was != now
    requires if was >= 0 then st[was] == l else forall k :: 0 <= k < |st| ==> st[k].sid != l.sid
    requires DistinctSids(st) && RedoHigh(was, now) <= |Restack(st, l, was, now)|
    requires MapRedone(c, c1, Restack(st, l, was, now), RectOf(l), RedoLow(was, now), |Restack(st, l, was, now)|)
    requires FrameRedone(c1, c2, Restack(st, l, was, now), RectOf(l), RedoLow(was, now), RedoHigh(was, now))
    ensures StillRight(st, c, Restack(st, l, was, now), c2)
  {
    var st2 := Restack(st, l, was, now);
    hide Restack, Without, DistinctSids, Solid, Draw, MapPass, DrawPass;
    forall x, y | c.On(x, y) && OwnedAt(st, c, x, y)
      ensures OwnedAt(st2, c2, x, y)
      ensures ShownAt(st, c, x, y) && NoShade(st2, x, y) ==> ShownAt(st2, c2, x, y)
    {
      RestackPixel(st, l, was, now, x, y, c.Owner(x, y), c.Pixel(x, y));
      assert RectOf(l).Has(x, y) <==> Covers(l, x, y);
      assert c2.Owner(x, y) == c1.Owner(x, y);
    }
  }

  /** sheet_updown asked to raise a visible sheet above the top, where the order comes out right all the same. */
  lemma PastTopScreen(st: Stack, was: nat, c: Screen, c2: Screen, x: int, y: int)
    requires was < |st| && DistinctSids(st) && c.On(x, y) && OwnedAt(st, c, x, y)
    requires c2.owners == c.owners && LayerDrawn(c, c2, st[was], RectOf(st[was]), false)
    ensures var st2 := Restack(st, st[was], was, |st| - 1);
      var uncovered := Solid(st[was], x, y) && exists j :: was < j < |st| && Solid(st[j], x, y);
      && (OwnedAt(st2, c2, x, y) <==> !uncovered)
      && (NoShade(st, x, y) && ShownAt(st, c, x, y) ==>
            (ShownAt(st2, c2, x, y) <==> !uncovered || c.Pixel(x, y) == Pix(st[was], x, y)))
  {
    hide Restack, DistinctSids, Owned, Shown, NoShade, Solid, Pix;
    PastTopPixel(st, was, x, y, c.Owner(x, y), c.Pixel(x, y));
    assert c2.Owner(x, y) == c.Owner(x, y);
    assert RectOf(st[was]).Has(x, y) <==> Covers(st[was], x, y);
  }

  /** sheet_slide of layer k to the place of l: map over both rectangles, then frame over both. */
  lemma SlideKeeps(st: Stack, k: nat, l: Layer, c: Screen, c1: Screen, c2: Screen, c3: Screen, c4: Screen)
    requires k < |st| && DistinctSids(st) && l.sid == st[k].sid
    requires MapRedone(c, c1, st[k := l], RectOf(st[k]), 0, |st|) && MapRedone(c1, c2, st[k := l], RectOf(l), k, |st|)
    requires FrameRedone(c2, c3, st[k := l], RectOf(st[k]), 0, k)
    requires FrameRedone(c3, c4, st[k := l], RectOf(l), k, k + 1)
    ensures StillRight(st, c, st[k := l], c4)
  {
    hide DistinctSids, Solid, Draw, MapPass, DrawPass;
    forall x, y | c.On(x, y) && OwnedAt(st, c, x, y)
      ensures OwnedAt(st[k := l], c4, x, y)
      ensures ShownAt(st, c, x, y) && NoShade(st[k := l], x, y) ==> ShownAt(st[k := l], c4, x, y)
    {
      SlidePixel(st, k, l, x, y, c.Owner(x, y), c.Pixel(x, y));
      assert RectOf(l).Has(x, y) <==> Covers(l, x, y);
      assert RectOf(st[k]).Has(x, y) <==> Covers(st[k], x, y);
      assert c4.Owner(x, y) == c3.Owner(x, y) == c2.Owner(x, y);
    }
  }

  /** Exactly what a restacking redoes: inside one rectangle, the map from height lo up and then the
      frame over the heights from lo to hi - 1. */
  ghost predicate RedoneIn(st: Stack, c: Screen, c2: Screen, r: Rect, lo: nat, hi: nat)
    requires lo <= |st| && hi <= |st|
  {
    && c2.w == c.w && c2.h == c.h && |c2.owners| == |c.owners| && |c2.frame| == |c.frame|
    && forall x, y :: c.On(x, y) ==>
         if r.Has(x, y) then
           && c2.Owner(x, y) == MapPass(st, x, y, lo, |st|, c.Owner(x, y))
           && c2.Pixel(x, y) == DrawPass(st, x, y, lo, hi, c2.Owner(x, y), c.Pixel(x, y))
         else c2.Owner(x, y) == c.Owner(x, y) && c2.Pixel(x, y) == c.Pixel(x, y)
  }

  /** What sheet_updown redoes when a sheet goes from height `was` to height `now`, -1 for hidden: downwards
      the heights above the new one up to the old, into hiding all below the old one, upwards its own. */
  ghost predicate RestackRedone(c: Screen, c2: Screen, st: Stack, r: Rect, was: int, now: int) {
    var lo := if was > now then now + 1 else now;
    var hi := if was > now then (if now >= 0 then was + 1 else was) else now + 1;
    0 <= lo <= |st| && 0 <= hi <= |st| && RedoneIn(st, c, c2, r, lo, hi)
  }

  lemma BothRedone(st: Stack, c: Screen, c1: Screen, c2: Screen, r: Rect, lo: nat, hi: nat)
    requires lo <= |st| && hi <= |st| && MapRedone(c, c1, st, r, lo, |st|) && FrameRedone(c1, c2, st, r, lo, hi)
    requires |c1.owners| == |c.owners| && |c2.frame| == |c1.frame|
    ensures RedoneIn(st, c, c2, r, lo, hi)
  {
    hide MapPass, DrawPass, Rect.Has;
    forall x, y | c.On(x, y) ensures c2.Owner(x, y) == c1.Owner(x, y) && c1.Pixel(x, y) == c.Pixel(x, y) {}
  }

  /** Exactly what a slide redoes. */
  ghost predicate SlidIn(st: Stack, k: nat, l: Layer, c: Screen, c2: Screen)
    requires k < |st|
  {
    && c2.w == c.w && c2.h == c.h && |c2.owners| == |c.owners| && |c2.frame| == |c.frame|
    && forall x, y :: c.On(x, y) ==>
         && c2.Owner(x, y) == SlidOwner(st, k, l, x, y, c.Owner(x, y))
         && c2.Pixel(x, y) == SlidCell(st, k, l, x, y, c2.Owner(x, y), c.Pixel(x, y))
  }

  lemma AllSlid(st: Stack, k: nat, l: Layer, c: Screen, c1: Screen, c2: Screen, c3: Screen, c4: Screen)
    requires k < |st|
    requires MapRedone(c, c1, st[k := l], RectOf(st[k]), 0, |st|) && MapRedone(c1, c2, st[k := l], RectOf(l), k, |st|)
    requires FrameRedone(c2, c3, st[k := l], RectOf(st[k]), 0, k)
    requires FrameRedone(c3, c4, st[k := l], RectOf(l), k, k + 1)
    requires |c1.owners| == |c.owners| == |c2.owners| && |c3.frame| == |c2.frame| == |c4.frame|
    ensures SlidIn(st, k, l, c, c4)
  {
    hide MapPass, DrawPass;
    forall x, y | c.On(x, y)
      ensures c4.Owner(x, y) == SlidOwner(st, k, l, x, y, c.Owner(x, y))
      ensures c4.Pixel(x, y) == SlidCell(st, k, l, x, y, c4.Owner(x, y), c.Pixel(x, y))
    {
      assert RectOf(l).Has(x, y) <==> Covers(l, x, y);
      assert RectOf(st[k]).Has(x, y) <==> Covers(st[k], x, y);
      assert c4.Owner(x, y) == c3.Owner(x, y) == c2.Owner(x, y) && c2.Pixel(x, y) == c1.Pixel(x, y) == c.Pixel(x, y);
    }
  }

  // ---------- redrawing one sheet in place ----------

  /** Inside a rectangle, the cells layer k owns show it (shadowed cells aside). */
  ghost predicate RegionShown(st: Stack, c: Screen, k: nat, r: Rect) {
    forall x, y :: c.On(x, y) && r.Has(x, y) && IsTop(st, x, y, k) && NoShade(st, x, y) && OwnedAt(st, c, x, y) ==>
      ShownAt(st, c, x, y)
  }

  /** sheet_refresh, and any other single-height redraw: right cells stay right. */
  lemma RedrawOneKeeps(st: Stack, c: Screen, c2: Screen, r: Rect, k: nat)
    requires k < |st| && DistinctSids(st) && FrameRedone(c, c2, st, r, k, k + 1)
    ensures StillRight(st, c, st, c2)
  {
    hide DistinctSids, Solid, Draw, DrawPass, Rect.Has;
    forall x, y | c.On(x, y) && OwnedAt(st, c, x, y)
      ensures OwnedAt(st, c2, x, y)
      ensures NoShade(st, x, y) && ShownAt(st, c, x, y) ==> ShownAt(st, c2, x, y)
    {
      assert c2.Owner(x, y) == c.Owner(x, y);
      if NoShade(st, x, y) && ShownAt(st, c, x, y) {
        forall t: nat | IsTop(st, x, y, t) ensures c2.Pixel(x, y) == Pix(st[t], x, y) {
          DrawPassShowsTop(st, x, y, k, k + 1, c.Pixel(x, y), t);
        }
      }
    }
  }

  /** And the redrawn sheet's own cells become right. */
  lemma RedrawOneShows(st: Stack, c: Screen, c2: Screen, r: Rect, k: nat)
    requires k < |st| && DistinctSids(st) && FrameRedone(c, c2, st, r, k, k + 1)
    ensures StillRight(st, c, st, c2) && RegionShown(st, c2, k, r)
  {
    RedrawOneKeeps(st, c, c2, r, k);
    hide DistinctSids, Solid, Draw, DrawPass, Rect.Has;
    forall x, y | c2.On(x, y) && r.Has(x, y) && IsTop(st, x, y, k) && NoShade(st, x, y) && OwnedAt(st, c2, x, y)
      ensures ShownAt(st, c2, x, y)
    {
      assert c.On(x, y) && c2.Owner(x, y) == c.Owner(x, y);
      DrawPassShowsTop(st, x, y, k, k + 1, c.Pixel(x, y), k);
    }
  }

  lemma RegionStaysShown(st: Stack, c: Screen, c2: Screen, k: nat, r: Rect)
    requires RegionShown(st, c, k, r) && StillRight(st, c, st, c2) && c2.owners == c.owners
    ensures RegionShown(st, c2, k, r)
  {
    hide IsTop, NoShade, Rect.Has;
    forall x, y | c2.On(x, y) && OwnedAt(st, c2, x, y) ensures c.On(x, y) && OwnedAt(st, c, x, y) {
      assert c2.Owner(x, y) == c.Owner(x, y);
    }
  }

  lemma StillRightChains(st: Stack, c: Screen, c2: Screen, c3: Screen)
    requires StillRight(st, c, st, c2) && StillRight(st, c2, st, c3)
    ensures StillRight(st, c, st, c3)
  {
    hide OwnedAt, ShownAt, NoShade;
  }

  /**
   sheet_refresh does not look at the owner map.  After a sheet's buffer has been edited the map
   is still right at a pixel exactly when the edit left the sheet's content mask alone there, or
   something above hides the sheet, or nothing has content there any more.
   */
  lemma EditNeedsSameMask(st: Stack, k: nat, l: Layer, c: Screen, x: int, y: int, t: nat)
    requires k < |st| && DistinctSids(st) && l.sid == st[k].sid
    requires c.On(x, y) && OwnedAt(st, c, x, y) && IsTop(st, x, y, t)
    ensures OwnedAt(st[k := l], c, x, y) <==>
      || (Solid(l, x, y) <==> Solid(st[k], x, y))
      || (exists j :: k < j < |st| && Solid(st[j], x, y))
      || (forall j :: 0 <= j < |st| ==> j == k || !Solid(st[j], x, y))
  {
    hide Solid;
    var st2 := st[k := l];
    assert forall j :: 0 <= j < |st| && j != k ==> st2[j] == st[j];
    if (Solid(l, x, y) <==> Solid(st[k], x, y)) || (exists j :: k < j < |st| && Solid(st[j], x, y)) {
      assert IsTop(st2, x, y, t);
    } else if forall j :: 0 <= j < |st| ==> j == k || !Solid(st[j], x, y) {
      assert t == k && !Solid(l, x, y);
    } else if Solid(l, x, y) {
      assert IsTop(st2, x, y, k) && t < k;
    } else {
      var j := TopBelow(st2, x, y, |st|);
      assert t == k && IsTop(st2, x, y, j) && j != k;
    }
  }

  lemma {:induction false} TopBelow(st: Stack, x: int, y: int, n: nat) returns (t: nat)
    requires n <= |st| && (exists j :: 0 <= j < n && Solid(st[j], x, y))
    requires forall j :: n <= j < |st| ==> !Solid(st[j], x, y)
    ensures IsTop(st, x, y, t)
  {
    if Solid(st[n - 1], x, y) {
      t := n - 1;
    } else {
      t := TopBelow(st, x, y, n - 1);
    }
  }

  // ---------- the desktop's own pixels ----------

  /** The desktop's colour in row y: teal, with a black strip of 40 rows at the bottom (bh - 40 is unsigned). */
  function DesktopRow(y: int, bh: int): u32 {
    if y >= (bh - 40) % 0x1_0000_0000 then 0 else 0x8080
  }

  /** A buffer after the background fill of shtctl_refresh_all. */
  function DesktopPixels(before: seq<u32>, bw: int, bh: int): (after: seq<u32>)
    ensures |after| == |before|
  {
    seq(|before|, i requires 0 <= i < |before| => if bw > 0 && i < bh * bw then DesktopRow(i / bw, bh) else before[i])
  }

  /** Teal down to the last 40 rows, black there; what lies behind the last row stays. */
  lemma DesktopIs(before: seq<u32>, bw: int, bh: int, x: int, y: int)
    requires 0 <= x < bw && 0 <= y && y * bw + x < |before| && bh < 0x1_0000_0000
    ensures 0 <= y * bw + x
    ensures DesktopPixels(before, bw, bh)[y * bw + x]
      == if y >= bh then before[y * bw + x] else if bh >= 40 && y >= bh - 40 then 0 else 0x0000_8080
  {
    RowNumber(bw, x, y);
    RowsBelow(bw, bh, x, y);
    var i := y * bw + x;
    assert DesktopPixels(before, bw, bh)[i] == if i < bh * bw then DesktopRow(i / bw, bh) else before[i];
  }

  lemma RowsUp(bw: nat, y: int, to: int)
    requires y <= to
    ensures y * bw <= to * bw
  {
    var n := to - y;
    assert to * bw == (y + n) * bw == y * bw + n * bw && n * bw >= 0;
  }

  lemma RowsBelow(bw: int, bh: int, x: int, y: int)
    requires 0 <= x < bw
    ensures y * bw + x < bh * bw <==> y < bh
  {
    if y < bh { RowsUp(bw, y + 1, bh); } else { RowsUp(bw, bh, y); }
    assert (y + 1) * bw == y * bw + bw;
  }

  lemma RowNumber(bw: int, x: int, y: int)
    requires 0 <= x < bw && 0 <= y
    ensures 0 <= y * bw + x && (y * bw + x) / bw == y
  {
    var i := y * bw + x;
    assert y * bw >= 0;
    assert i == bw * (i / bw) + i % bw;
    CellsApart(bw, x, y, i % bw, i / bw);
  }

  /** New pixels for a layer: none outside a rectangle, and what counted as content still does. */
  ghost predicate EditOk(l: Layer, pixels: seq<u32>, r: Rect) {
    forall x, y {:trigger Covers(l, x, y)} :: Covers(l, x, y) ==>
      && (Solid(l.(buf := pixels), x, y) <==> Solid(l, x, y))
      && (!r.Has(x, y) ==> Pix(l.(buf := pixels), x, y) == Pix(l, x, y))
  }

  lemma EditAt(l: Layer, pixels: seq<u32>, r: Rect, x: int, y: int)
    requires EditOk(l, pixels, r)
    ensures Solid(l.(buf := pixels), x, y) <==> Solid(l, x, y)
    ensures Covers(l, x, y) && !r.Has(x, y) ==> Pix(l.(buf := pixels), x, y) == Pix(l, x, y)
  {
    hide Rect.Has, Pix;
    assert Covers(l.(buf := pixels), x, y) <==> Covers(l, x, y);
  }

  /** A layer gets new pixels inside a rectangle, and that rectangle of it is then redrawn. */
  lemma SheetRepainted(st: Stack, k: nat, pixels: seq<u32>, r: Rect, c: Screen, c2: Screen)
    requires k < |st| && DistinctSids(st) && EditOk(st[k], pixels, r)
    requires var st2 := st[k := st[k].(buf := pixels)]; StillRight(st2, c, st2, c2) && RegionShown(st2, c2, k, r)
    ensures StillRight(st, c, st[k := st[k].(buf := pixels)], c2)
  {
    var st2 := st[k := st[k].(buf := pixels)];
    hide Pix, Rect.Has, DistinctSids, RegionShown, EditOk;
    forall x, y | c.On(x, y) && OwnedAt(st, c, x, y)
      ensures OwnedAt(st2, c2, x, y)
      ensures ShownAt(st, c, x, y) && NoShade(st2, x, y) ==> ShownAt(st2, c2, x, y)
    {
      SameTops(st, k, pixels, r, x, y);
      assert OwnedAt(st2, c, x, y);
      if ShownAt(st, c, x, y) && NoShade(st2, x, y) {
        if IsTop(st2, x, y, k) {
          if r.Has(x, y) {
            RegionAt(st2, c2, k, r, x, y);
          } else {
            EditAt(st[k], pixels, r, x, y);
            TopShows(st, c, st2, x, y, k);
          }
        } else {
          forall t: nat | IsTop(st2, x, y, t) ensures c.Pixel(x, y) == Pix(st2[t], x, y) { assert st2[t] == st[t]; }
        }
      }
    }
  }

  lemma SameTops(st: Stack, k: nat, pixels: seq<u32>, r: Rect, x: int, y: int)
    requires k < |st| && EditOk(st[k], pixels, r)
    ensures forall t: nat :: IsTop(st[k := st[k].(buf := pixels)], x, y, t) <==> IsTop(st, x, y, t)
  {
    hide EditOk, Solid;
    EditAt(st[k], pixels, r, x, y);
    var st2 := st[k := st[k].(buf := pixels)];
    assert forall i :: 0 <= i < |st| ==> (Solid(st2[i], x, y) <==> Solid(st[i], x, y));
  }

  /** The same for the bottom layer when every pixel of it counts. */
  lemma BottomRepainted(st: Stack, buf: seq<u32>, r: Rect, c: Screen, c2: Screen)
    requires st != [] && st[0].key == OPAQUE_KEY && DistinctSids(st)
    requires var st2 := st[0 := st[0].(buf := buf)];
      && StillRight(st2, c, st2, c2) && RegionShown(st2, c2, 0, r)
      && forall x, y :: Covers(st[0], x, y) && !r.Has(x, y) ==> Pix(st2[0], x, y) == Pix(st[0], x, y)
    ensures Carries(st, c, st[0 := st[0].(buf := buf)], c2)
  {
    hide StillRight, RegionShown, DistinctSids, Carries;
    OpaqueEdit(st[0], buf, r);
    SheetRepainted(st, 0, buf, r, c, c2);
    StillRightCarries(st, c, st[0 := st[0].(buf := buf)], c2);
  }

  lemma OpaqueEdit(l: Layer, pixels: seq<u32>, r: Rect)
    requires l.key == OPAQUE_KEY
    requires forall x, y :: Covers(l, x, y) && !r.Has(x, y) ==> Pix(l.(buf := pixels), x, y) == Pix(l, x, y)
    ensures EditOk(l, pixels, r)
  {
    hide Pix, Rect.Has;
  }

  lemma RegionAt(st: Stack, c: Screen, k: nat, r: Rect, x: int, y: int)
    requires RegionShown(st, c, k, r) && c.On(x, y) && r.Has(x, y) && IsTop(st, x, y, k) && NoShade(st, x, y)
    requires OwnedAt(st, c, x, y)
    ensures ShownAt(st, c, x, y)
  {
    hide IsTop, NoShade;
  }

  lemma TopShows(st: Stack, c: Screen, st2: Stack, x: int, y: int, t: nat)
    requires ShownAt(st, c, x, y) && IsTop(st, x, y, t) && IsTop(st2, x, y, t) && Pix(st2[t], x, y) == Pix(st[t], x, y)
    ensures ShownAt(st2, c, x, y)
  {
    hide Pix, Solid;
  }

  // ---------- several redraws of single heights ----------

  datatype Redrawn = Redrawn(r: Rect, k: nat)

  /** A frame cell after these redraws, in order. */
  function CellAfter(st: Stack, x: int, y: int, owner: u8, cell: u32, steps: seq<Redrawn>): u32 {
    if steps == [] then cell
    else
      var s, before := steps[|steps| - 1], CellAfter(st, x, y, owner, cell, steps[..|steps| - 1]);
      if s.r.Has(x, y) && s.k < |st| then Draw(st[s.k], x, y, owner, before) else before
  }

  ghost predicate FrameAfter(st: Stack, c: Screen, c2: Screen, steps: seq<Redrawn>) {
    && c2 == c.(frame := c2.frame) && |c2.frame| == |c.frame|
    && forall x, y :: c.On(x, y) ==> c2.Pixel(x, y) == CellAfter(st, x, y, c.Owner(x, y), c.Pixel(x, y), steps)
  }

  lemma NoRedraw(st: Stack, c: Screen)
    ensures FrameAfter(st, c, c, [])
  {
  }

  lemma OneMoreRedraw(st: Stack, c: Screen, c1: Screen, c2: Screen, steps: seq<Redrawn>, r: Rect, k: nat)
    requires k < |st| && FrameAfter(st, c, c1, steps) && FrameRedone(c1, c2, st, r, k, k + 1)
    requires |c2.frame| == |c1.frame|
    ensures FrameAfter(st, c, c2, steps + [Redrawn(r, k)])
  {
    hide Draw, DrawPass, Rect.Has;
    var now := steps + [Redrawn(r, k)];
    assert now[..|steps|] == steps;
    forall x, y | c.On(x, y) ensures c2.Pixel(x, y) == CellAfter(st, x, y, c.Owner(x, y), c.Pixel(x, y), now) {
      assert c1.Owner(x, y) == c.Owner(x, y);
      OneDrawn(st, x, y, k, c1.Owner(x, y), c1.Pixel(x, y));
    }
  }

  /** The shadow depth a redraw adds at a place. */
  function DepthOf(st: Stack, x: int, y: int, s: Redrawn): nat {
    if s.k < |st| && s.r.Has(x, y) && Shaded(st[s.k], x, y) then Depth(Pix(st[s.k], x, y)) else 0
  }

  function DepthsOf(st: Stack, x: int, y: int, steps: seq<Redrawn>): nat {
    if steps == [] then 0
    else DepthsOf(st, x, y, steps[..|steps| - 1]) + DepthOf(st, x, y, steps[|steps| - 1])
  }

  /** Redraws of sheets that do not own the cell darken it by the depths of their shadows, in whatever order. */
  lemma {:induction false} OthersDarken(st: Stack, x: int, y: int, owner: u8, cell: u32, steps: seq<Redrawn>)
    requires !IsShade(cell)
    requires forall i :: 0 <= i < |steps| && steps[i].k < |st| ==> st[steps[i].k].sid != owner
    ensures CellAfter(st, x, y, owner, cell, steps) == Darken(cell, DepthsOf(st, x, y, steps))
  {
    hide Darken, Pix, IsShade, Rect.Has;
    if steps == [] {
      DarkenByNothing(cell);
    } else {
      var n := |steps| - 1;
      OthersDarken(st, x, y, owner, cell, steps[..n]);
      var d := DepthsOf(st, x, y, steps[..n]);
      if steps[n].k < |st| && steps[n].r.Has(x, y) && Shaded(st[steps[n].k], x, y) {
        DarkenAdds(cell, d, DepthOf(st, x, y, steps[n]));
      }
    }
  }

  lemma {:induction false} DepthsOfBoth(st: Stack, x: int, y: int, a: seq<Redrawn>, b: seq<Redrawn>)
    ensures DepthsOf(st, x, y, a + b) == DepthsOf(st, x, y, a) + DepthsOf(st, x, y, b)
  {
    hide DepthOf;
    if b == [] {
      assert a + b == a;
    } else {
      assert (a + b)[..|a + b| - 1] == a + b[..|b| - 1];
      DepthsOfBoth(st, x, y, a, b[..|b| - 1]);
    }
  }

  lemma DepthsWithout(st: Stack, x: int, y: int, steps: seq<Redrawn>, i: nat)
    requires i < |steps|
    ensures DepthsOf(st, x, y, steps)
      == DepthsOf(st, x, y, steps[..i] + steps[i + 1..]) + DepthOf(st, x, y, steps[i])
  {
    hide DepthOf;
    var one := [steps[i]];
    assert steps == steps[..i] + (one + steps[i + 1..]);
    DepthsOfBoth(st, x, y, steps[..i], one + steps[i + 1..]);
    DepthsOfBoth(st, x, y, one, steps[i + 1..]);
    DepthsOfBoth(st, x, y, steps[..i], steps[i + 1..]);
    assert one[..0] == [] && DepthsOf(st, x, y, one) == DepthsOf(st, x, y, []) + DepthOf(st, x, y, steps[i]);
  }

  /** The redraws redo each shadow that lies at a place between heights t and to, once, whole, and no other. */
  ghost predicate Complete(st: Stack, x: int, y: int, t: nat, to: nat, steps: seq<Redrawn>)
    requires to <= |st|
  {
    && (forall i, j :: 0 <= i < j < |steps| ==> steps[i].k != steps[j].k)
    && (forall i :: 0 <= i < |steps| && t < steps[i].k < to ==> steps[i].r == RectOf(st[steps[i].k]))
    && (forall i :: 0 <= i < |steps| && !(t < steps[i].k < to) ==> DepthOf(st, x, y, steps[i]) == 0)
    && (forall k :: t < k < to && Shaded(st[k], x, y) ==> exists i :: 0 <= i < |steps| && steps[i].k == k)
  }

  lemma {:induction false} DepthsComplete(st: Stack, x: int, y: int, t: nat, end: nat, steps: seq<Redrawn>)
    requires t < end <= |st| && Complete(st, x, y, t, end, steps) && !Shaded(st[t], x, y)
    ensures DepthsOf(st, x, y, steps) == ShadeDepth(st, x, y, t, end)
    decreases end
  {
    hide Shaded, Pix;
    if end == t + 1 {
      NoDepths(st, x, y, steps);
      assert ShadeDepth(st, x, y, t, t) == 0;
    } else if exists i :: 0 <= i < |steps| && steps[i].k == end - 1 {
      var i :| 0 <= i < |steps| && steps[i].k == end - 1;
      var rest := steps[..i] + steps[i + 1..];
      DepthsWithout(st, x, y, steps, i);
      CompleteWithout(st, x, y, t, end, steps, i);
      DepthsComplete(st, x, y, t, end - 1, rest);
      WholeDepth(st, x, y, steps[i]);
    } else {
      DepthsComplete(st, x, y, t, end - 1, steps);
    }
  }

  lemma WholeDepth(st: Stack, x: int, y: int, s: Redrawn)
    requires s.k < |st| && s.r == RectOf(st[s.k])
    ensures DepthOf(st, x, y, s) == if Shaded(st[s.k], x, y) then Depth(Pix(st[s.k], x, y)) else 0
  {
    hide Pix;
  }

  lemma CompleteWithout(st: Stack, x: int, y: int, t: nat, to: nat, steps: seq<Redrawn>, i: nat)
    requires t + 1 < to <= |st| && Complete(st, x, y, t, to, steps) && i < |steps| && steps[i].k == to - 1
    ensures Complete(st, x, y, t, to - 1, steps[..i] + steps[i + 1..])
  {
    hide Shaded, DepthOf, RectOf;
    var rest := steps[..i] + steps[i + 1..];
    forall j | 0 <= j < |rest| ensures rest[j] == steps[if j < i then j else j + 1] {}
    forall k | t < k < to - 1 && Shaded(st[k], x, y) ensures exists j :: 0 <= j < |rest| && rest[j].k == k {
      var j :| 0 <= j < |steps| && steps[j].k == k;
      assert rest[if j < i then j else j - 1].k == k;
    }
  }

  lemma {:induction false} NoDepths(st: Stack, x: int, y: int, steps: seq<Redrawn>)
    requires forall i :: 0 <= i < |steps| ==> DepthOf(st, x, y, steps[i]) == 0
    ensures DepthsOf(st, x, y, steps) == 0
  {
    hide DepthOf;
    if steps != [] { NoDepths(st, x, y, steps[..|steps| - 1]); }
  }

  lemma {:induction false} FirstThenRest(st: Stack, x: int, y: int, owner: u8, cell: u32, s: Redrawn,
      rest: seq<Redrawn>)
    ensures CellAfter(st, x, y, owner, cell, [s] + rest)
      == CellAfter(st, x, y, owner, CellAfter(st, x, y, owner, cell, [s]), rest)
  {
    hide Draw, Rect.Has;
    if rest == [] {
      assert [s] + rest == [s];
    } else {
      assert ([s] + rest)[..|[s] + rest| - 1] == [s] + rest[..|rest| - 1];
      FirstThenRest(st, x, y, owner, cell, s, rest[..|rest| - 1]);
    }
  }

  /** sheet_refresh with its linked shadows: in the redrawn part every place whose topmost content is the
      sheet's own pixel shows that pixel under all shadows, as a full refresh would, if the shadows above
      it are each redrawn once and no other sheet redrawn casts a shadow there. */
  lemma LinkedShadowsPaint(st: Stack, c: Screen, c2: Screen, k: nat, r: Rect, rest: seq<Redrawn>, x: int, y: int)
    requires FrameAfter(st, c, c2, [Redrawn(r, k)] + rest) && DistinctSids(st)
    requires c.On(x, y) && r.Has(x, y) && OwnedAt(st, c, x, y)
    requires IsTop(st, x, y, k) && !IsShade(Pix(st[k], x, y))
    requires Complete(st, x, y, k, |st|, rest) && forall i :: 0 <= i < |rest| ==> rest[i].k != k
    ensures c2.Pixel(x, y) == Darken(Pix(st[k], x, y), ShadeDepth(st, x, y, k, |st|))
    ensures PaintedAt(st, x, y, c2.Owner(x, y), c2.Pixel(x, y))
  {
    hide Darken, Pix, Painter, ShadeDepth, DepthOf;
    var p, owner, cell, one := Pix(st[k], x, y), c.Owner(x, y), c.Pixel(x, y), [Redrawn(r, k)];
    FirstThenRest(st, x, y, owner, cell, Redrawn(r, k), rest);
    assert one[..0] == [] && CellAfter(st, x, y, owner, cell, one) == Draw(st[k], x, y, owner, cell) == p;
    OthersDarken(st, x, y, owner, p, rest);
    DepthsComplete(st, x, y, k, |st|, rest);
    PainterOf(st, x, y, k);
    assert c2.Owner(x, y) == owner;
    assert forall t: nat :: IsTop(st, x, y, t) ==> t == k;
  }

  /** Where the topmost content is a plain pixel, the caches hold its owner and the painter's picture of the stack. */
  ghost predicate PaintedAt(st: Stack, x: int, y: int, owner: u8, cell: u32) {
    forall t: nat :: IsTop(st, x, y, t) ==>
      && owner == st[t].sid
      && (!IsShade(Pix(st[t], x, y)) ==>
            cell == Painter(st, x, y, |st|, 0) && cell == Darken(Pix(st[t], x, y), ShadeDepth(st, x, y, t, |st|)))
  }

  ghost predicate Painted(st: Stack, c: Screen) {
    forall x, y :: c.On(x, y) ==> PaintedAt(st, x, y, c.Owner(x, y), c.Pixel(x, y))
  }

  /** After a full refresh only shadows can keep the frame from being right. */
  lemma PaintedAgrees(st: Stack, c: Screen)
    requires Painted(st, c)
    ensures Agree(st, c, ShadedNow(st))
  {
    hide PaintedAt, NoShade;
    forall x, y | c.On(x, y)
      ensures OwnedAt(st, c, x, y) && ((x, y) !in ShadedNow(st) ==> ShownAt(st, c, x, y))
    {
      PaintedIsRight(st, x, y, c.Owner(x, y), c.Pixel(x, y));
      assert (x, y) !in ShadedNow(st) ==> NoShade(st, x, y);
    }
  }

  /** A painted screen is right, whatever came before. */
  lemma PaintedCarries(st: Stack, c: Screen, st2: Stack, c2: Screen)
    requires Painted(st2, c2) && c2.w == c.w && c2.h == c.h
    ensures Carries(st, c, st2, c2)
  {
    hide PaintedAt, NoShade;
    forall x, y | c.On(x, y)
      ensures OwnedAt(st2, c2, x, y) && (NoShade(st2, x, y) ==> ShownAt(st2, c2, x, y))
    {
      assert c2.On(x, y);
      PaintedIsRight(st2, x, y, c2.Owner(x, y), c2.Pixel(x, y));
    }
  }

  lemma CellOfPainted(st: Stack, x: int, y: int, owner: u8, cell: u32)
    requires PaintedAt(st, x, y, owner, cell)
    ensures PaintedCell(st, x, y, cell) && Owned(st, x, y, owner)
  {
    hide Pix, Darken, ShadeDepth, Painter, IsTop;
  }

  lemma SlidPaints(st: Stack, l: Layer, x: int, y: int, owner: u8, cell: u32)
    requires st != [] && DistinctSids(st) && l.sid == st[|st| - 1].sid && PaintedAt(st, x, y, owner, cell)
    ensures var k := |st| - 1; var owner2 := SlidOwner(st, k, l, x, y, owner);
      PaintedAt(st[k := l], x, y, owner2, SlidCell(st, k, l, x, y, owner2, cell))
  {
    hide Pix, Darken, ShadeDepth, SlidCell, SlidOwner, Solid, DistinctSids, Painter, PaintedAt, PaintedCell, Owned;
    var k := |st| - 1;
    var st2, owner2 := st[k := l], SlidOwner(st, k, l, x, y, owner);
    SidsKept(st, k, l);
    CellOfPainted(st, x, y, owner, cell);
    forall t: nat | IsTop(st2, x, y, t)
      ensures owner2 == st2[t].sid
      ensures !IsShade(Pix(st2[t], x, y)) ==> PaintedBy(st2, x, y, t, SlidCell(st, k, l, x, y, owner2, cell))
    {
      SlideOwner(st, k, l, x, y, owner, t);
      if !IsShade(Pix(st2[t], x, y)) {
        SlideOnTop(st, l, x, y, cell, t);
        PainterOf(st2, x, y, t);
      }
    }
    PaintedFrom(st2, x, y, owner2, SlidCell(st, k, l, x, y, owner2, cell));
  }

  ghost predicate PaintedBy(st: Stack, x: int, y: int, t: nat, cell: u32)
    requires t < |st|
  {
    cell == Painter(st, x, y, |st|, 0) && cell == Darken(Pix(st[t], x, y), ShadeDepth(st, x, y, t, |st|))
  }

  lemma PaintedFrom(st: Stack, x: int, y: int, owner: u8, cell: u32)
    requires forall t: nat :: IsTop(st, x, y, t) ==>
      owner == st[t].sid && (!IsShade(Pix(st[t], x, y)) ==> PaintedBy(st, x, y, t, cell))
    ensures PaintedAt(st, x, y, owner, cell)
  {
    hide Pix, Darken, ShadeDepth, Painter, Solid;
  }

  /** Sliding the topmost sheet of a painted screen leaves it painted, shadows included. */
  lemma SlideTopPaints(st: Stack, l: Layer, c: Screen, c2: Screen)
    requires st != [] && DistinctSids(st) && l.sid == st[|st| - 1].sid
    requires Painted(st, c) && SlidIn(st, |st| - 1, l, c, c2)
    ensures Painted(st[|st| - 1 := l], c2)
  {
    hide SlidCell, SlidOwner, DistinctSids, PaintedAt;
    forall x, y | c2.On(x, y) ensures PaintedAt(st[|st| - 1 := l], x, y, c2.Owner(x, y), c2.Pixel(x, y)) {
      assert c.On(x, y);
      SlidPaints(st, l, x, y, c.Owner(x, y), c.Pixel(x, y));
    }
  }

  lemma ShownPaints(st: Stack, l: Layer, x: int, y: int, owner: u8, cell: u32)
    requires DistinctSids(st + [l]) && PaintedAt(st, x, y, owner, cell)
    ensures var st2, n := st + [l], |st|;
      var owner2 := if Covers(l, x, y) then MapPass(st2, x, y, n, n + 1, owner) else owner;
      PaintedAt(st2, x, y, owner2, Draw(l, x, y, owner2, cell))
  {
    hide Pix, Darken, ShadeDepth, DistinctSids, Painter, PaintedAt, PaintedCell, Owned, Draw;
    var st2, n := st + [l], |st|;
    var owner2 := if Covers(l, x, y) then MapPass(st2, x, y, n, n + 1, owner) else owner;
    CellOfPainted(st, x, y, owner, cell);
    forall t: nat | IsTop(st2, x, y, t)
      ensures owner2 == st2[t].sid
      ensures !IsShade(Pix(st2[t], x, y)) ==> PaintedBy(st2, x, y, t, Draw(l, x, y, owner2, cell))
    {
      OwnerOnTop(st, l, x, y, owner, t);
      if !IsShade(Pix(st2[t], x, y)) {
        ShowOnTop(st, l, x, y, cell, t);
        PainterOf(st2, x, y, t);
      }
    }
    PaintedFrom(st2, x, y, owner2, Draw(l, x, y, owner2, cell));
  }

  lemma OwnerOnTop(st: Stack, l: Layer, x: int, y: int, owner: u8, t: nat)
    requires Owned(st, x, y, owner) && IsTop(st + [l], x, y, t)
    ensures var st2, n := st + [l], |st|;
      (if Covers(l, x, y) then MapPass(st2, x, y, n, n + 1, owner) else owner) == st2[t].sid
  {
    hide Pix;
    var st2, n := st + [l], |st|;
    assert MapPass(st2, x, y, n, n, owner) == owner;
    if t < n { StillTop(st, [l], x, y, t); }
  }

  /** Showing a sheet on top of a painted screen leaves it painted, shadows included. */
  lemma ShowTopPaints(st: Stack, l: Layer, c: Screen, c2: Screen)
    requires DistinctSids(st + [l]) && Painted(st, c) && RedoneIn(st + [l], c, c2, RectOf(l), |st|, |st| + 1)
    ensures Painted(st + [l], c2)
  {
    hide DistinctSids, PaintedAt, MapPass, DrawPass;
    forall x, y | c2.On(x, y) ensures PaintedAt(st + [l], x, y, c2.Owner(x, y), c2.Pixel(x, y)) {
      assert c.On(x, y) && (RectOf(l).Has(x, y) <==> Covers(l, x, y));
      OneDrawn(st + [l], x, y, |st|, c2.Owner(x, y), c.Pixel(x, y));
      if !Covers(l, x, y) { NotDrawn(l, x, y, c2.Owner(x, y), c.Pixel(x, y)); }
      ShownPaints(st, l, x, y, c.Owner(x, y), c.Pixel(x, y));
    }
  }

  lemma PainterOf(st: Stack, x: int, y: int, t: nat)
    requires DistinctSids(st) && IsTop(st, x, y, t) && !IsShade(Pix(st[t], x, y))
    ensures Painter(st, x, y, |st|, 0) == Darken(Pix(st[t], x, y), ShadeDepth(st, x, y, t, |st|))
  {
    DrawPassClosedForm(st, x, y, |st|, 0, t);
  }

  lemma PaintedIsRight(st: Stack, x: int, y: int, owner: u8, cell: u32)
    requires PaintedAt(st, x, y, owner, cell)
    ensures Owned(st, x, y, owner) && (NoShade(st, x, y) ==> Shown(st, x, y, cell))
  {
    hide Darken, Painter, ShadeDepth, Pix;
    if NoShade(st, x, y) {
      forall t: nat | IsTop(st, x, y, t) ensures cell == Pix(st[t], x, y) {
        assert !Shaded(st[t], x, y);
        NoShadeNoDepth(st, x, y, t, |st|);
        DarkenByNothing(Pix(st[t], x, y));
      }
    }
  }

  lemma {:induction false} NoShadeNoDepth(st: Stack, x: int, y: int, from: nat, to: nat)
    requires to <= |st| && NoShade(st, x, y)
    ensures ShadeDepth(st, x, y, from, to) == 0
  {
    hide Shaded;
    if from < to { NoShadeNoDepth(st, x, y, from, to - 1); }
  }

  lemma RefreshPaintsPixel(st: Stack, x: int, y: int, owner: u8, cell: u32)
    requires DistinctSids(st)
    ensures var owner2 := MapPass(st, x, y, 0, |st|, owner);
            PaintedAt(st, x, y, owner2, DrawPass(st, x, y, 0, |st|, owner2, cell))
  {
    hide DistinctSids, Draw, Pix, Painter, ShadeDepth, Darken;
    forall t: nat | IsTop(st, x, y, t)
      ensures var owner2 := MapPass(st, x, y, 0, |st|, owner);
              && owner2 == st[t].sid
              && (!IsShade(Pix(st[t], x, y)) ==>
                    && DrawPass(st, x, y, 0, |st|, owner2, cell) == Painter(st, x, y, |st|, 0)
                    && Painter(st, x, y, |st|, 0) == Darken(Pix(st[t], x, y), ShadeDepth(st, x, y, t, |st|)))
    {
      MapPassFindsTop(st, x, y, 0, |st|, owner, t);
      if !IsShade(Pix(st[t], x, y)) {
        FullRefreshIsPainter(st, x, y, owner, cell, t);
        FullRefreshIsPainter(st, x, y, owner, 0, t);
      }
    }
  }

  /** shtctl_refresh_all: whatever the caches held, one pass of each kind over the screen paints the stack. */
  lemma RefreshAllPaints(st: Stack, c: Screen, c1: Screen, c2: Screen)
    requires DistinctSids(st)
    requires MapRedone(c, c1, st, Rect(0, 0, c.w, c.h), 0, |st|)
    requires FrameRedone(c1, c2, st, Rect(0, 0, c.w, c.h), 0, |st|)
    ensures Painted(st, c2)
  {
    hide DistinctSids, PaintedAt, MapPass, DrawPass;
    forall x, y | c.On(x, y)
      ensures PaintedAt(st, x, y, c2.Owner(x, y), c2.Pixel(x, y))
    {
      assert c2.Owner(x, y) == c1.Owner(x, y);
      RefreshPaintsPixel(st, x, y, c.Owner(x, y), c.Pixel(x, y));
    }
  }

  // ---------- the same in numbers ----------

  /** The pixel of a buffer that lies at (x, y) of the screen when its sheet covers that place. */
  predicate BufferHas(l: Layer, x: int, y: int, p: u32) {
    && l.x <= x < l.x + l.w && l.y <= y < l.y + l.h
    && 0 <= (y - l.y) * l.w + (x - l.x) < |l.buf| && l.buf[(y - l.y) * l.w + (x - l.x)] == p
  }

  /** Nothing of the layer is there but a shadow of depth d, or nothing at all (then d is 0): the place
      lies outside, or under a pixel of the transparent colour, or under 0xFF000000 + d. */
  predicate Casts(l: Layer, x: int, y: int, d: nat) {
    || (d == 0 && !(l.x <= x < l.x + l.w && l.y <= y < l.y + l.h))
    || (d == 0 && l.key < 0x100_0000 && BufferHas(l, x, y, l.key))
    || (d < 0x100 && l.key != 0xFFFF_FFFF && BufferHas(l, x, y, 0xFF00_0000 + d))
  }

  /** The pixel p counts as content of the layer. */
  predicate ContentAt(l: Layer, x: int, y: int, p: u32) {
    BufferHas(l, x, y, p) && p < 0x100_0000 && (l.key == 0xFFFF_FFFF || p != l.key)
  }

  function Sum(depths: seq<nat>): nat {
    if depths == [] then 0 else Sum(depths[..|depths| - 1]) + depths[|depths| - 1]
  }

  lemma ContentIsTop(st: Stack, x: int, y: int, t: nat, p: u32, depths: seq<nat>)
    requires t < |st| && ContentAt(st[t], x, y, p) && |depths| == |st| - t - 1
    requires forall k {:trigger depths[k]} :: 0 <= k < |depths| ==> Casts(st[t + 1 + k], x, y, depths[k])
    ensures IsTop(st, x, y, t) && Pix(st[t], x, y) == p && !IsShade(p)
  {
    hide Cell;
    PixIs(st[t], x, y, p);
    forall j | t < j < |st| ensures !Solid(st[j], x, y) {
      CastsDepth(st[j], x, y, depths[j - t - 1]);
    }
  }

  lemma PixIs(l: Layer, x: int, y: int, p: u32)
    requires BufferHas(l, x, y, p)
    ensures Pix(l, x, y) == p && Covers(l, x, y)
  {
  }

  lemma CastsDepth(l: Layer, x: int, y: int, d: nat)
    requires Casts(l, x, y, d)
    ensures !Solid(l, x, y) && d == if Shaded(l, x, y) then Depth(Pix(l, x, y)) else 0
  {
    hide Pix, BufferHas;
    if d < 0x100 && l.key != 0xFFFF_FFFF && BufferHas(l, x, y, 0xFF00_0000 + d) {
      PixIs(l, x, y, 0xFF00_0000 + d);
    } else if l.key < 0x100_0000 && BufferHas(l, x, y, l.key) {
      PixIs(l, x, y, l.key);
    }
  }

  lemma {:induction false} DepthsAddUp(st: Stack, x: int, y: int, t: nat, to: nat, depths: seq<nat>)
    requires t < to <= |st| && |depths| == to - t - 1 && !Shaded(st[t], x, y)
    requires forall k {:trigger depths[k]} :: 0 <= k < |depths| ==> Casts(st[t + 1 + k], x, y, depths[k])
    ensures ShadeDepth(st, x, y, t, to) == Sum(depths)
  {
    hide Casts, Shaded, Pix;
    if to > t + 1 {
      var n := |depths| - 1;
      assert depths[n] == depths[to - t - 2] && Casts(st[to - 1], x, y, depths[n]);
      CastsDepth(st[to - 1], x, y, depths[n]);
      DepthsAddUp(st, x, y, t, to - 1, depths[..n]);
    } else {
      assert ShadeDepth(st, x, y, t, t) == 0;
    }
  }

  /** What a full refresh leaves at a place whose topmost content is a pixel p with shadows of these
      depths over it: p with red, green and blue lowered by the sum of the depths. */
  lemma RefreshShows(st: Stack, c: Screen, x: int, y: int, t: nat, p: u32, depths: seq<nat>)
    requires Painted(st, c) && 0 <= x < c.w && 0 <= y < c.h && |c.frame| == |c.owners| == c.w * c.h
    requires t < |st| && ContentAt(st[t], x, y, p) && |depths| == |st| - t - 1
    requires forall k {:trigger depths[k]} :: 0 <= k < |depths| ==> Casts(st[t + 1 + k], x, y, depths[k])
    ensures 0 <= y * c.w + x < |c.frame| && c.owners[y * c.w + x] == st[t].sid
    ensures Lowered(p, c.frame[y * c.w + x], Sum(depths))
  {
    hide Painter, Darken, Pix, IsTop, Lowered, ContentAt, Casts;
    CellInRange(c.w, c.h, x, y);
    ContentIsTop(st, x, y, t, p, depths);
    assert !Shaded(st[t], x, y);
    DepthsAddUp(st, x, y, t, |st|, depths);
    DarkenLowers(p, Sum(depths));
    assert c.Owner(x, y) == c.owners[y * c.w + x] && c.Pixel(x, y) == c.frame[y * c.w + x];
  }

  /** What agreement of the caches with a stack means for one place: the topmost content is there to
      be seen, and the map names its sheet, unless the place is excepted from the frame claim. */
  lemma AgreementShows(st: Stack, c: Screen, shaded: iset<(int, int)>, x: int, y: int, t: nat, p: u32,
      depths: seq<nat>)
    requires Agree(st, c, shaded) && 0 <= x < c.w && 0 <= y < c.h && |c.frame| == |c.owners| == c.w * c.h
    requires t < |st| && ContentAt(st[t], x, y, p) && |depths| == |st| - t - 1
    requires forall k {:trigger depths[k]} :: 0 <= k < |depths| ==> Casts(st[t + 1 + k], x, y, depths[k])
    ensures 0 <= y * c.w + x < |c.frame| && c.owners[y * c.w + x] == st[t].sid
    ensures (x, y) !in shaded ==> c.frame[y * c.w + x] == p
  {
    hide Pix, IsTop, ContentAt, Casts;
    CellInRange(c.w, c.h, x, y);
    ContentIsTop(st, x, y, t, p, depths);
    assert c.On(x, y);
    assert c.Owner(x, y) == c.owners[y * c.w + x] && c.Pixel(x, y) == c.frame[y * c.w + x];
  }
}
