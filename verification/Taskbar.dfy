/**
 The taskbar painted into the desktop's buffer: a button for every titled entry of the table, and
 on it the entry's title.  What is seen on a button is what a click there will toggle.
 */
module Taskbar {
  import opened Bits
  import opened Desktop
  import opened Draw
  import opened Layers
  import opened Screens
  import opened Words

  const WHITE: u32 := 0x00FF_FFFF
  const LIT: u32 := 0x004A_4A4A
  const DIM: u32 := 0x0020_2020

  /** 16 rows of 8 dots for each character. */
  type Font = f: seq<seq<u8>> | |f| == 0x100 && forall i :: 0 <= i < 0x100 ==> |f[i]| == 16
    witness seq(0x100, _ => seq<u8>(16, _ => 0))

  // ---------- several drawings, one over the other ----------

  /** The colour at a pixel after all the drawings, the last on top. */
  function Over(inks: seq<Ink>, px: int, py: int, below: u32): u32 {
    if inks == [] then below
    else
      match Color(inks[|inks| - 1], px, py)
      case Some(color) => color
      case None => Over(inks[..|inks| - 1], px, py, below)
  }

  /** A buffer after all the drawings. */
  function Picture(c: Canvas, buf: seq<u32>, inks: seq<Ink>): (p: seq<u32>)
    requires c.stride > 0
    ensures |p| == |buf|
  {
    seq(|buf|, i requires 0 <= i < |buf| =>
      if c.On(i % c.stride, i / c.stride) then Over(inks, i % c.stride, i / c.stride, buf[i]) else buf[i])
  }

  lemma PictureAt(c: Canvas, buf: seq<u32>, inks: seq<Ink>, px: int, py: int)
    requires 0 <= px < c.stride && 0 <= py
    ensures At(Picture(c, buf, inks), c, px, py)
      == if c.On(px, py) && Cell(c.stride, px, py) < |buf| then Over(inks, px, py, At(buf, c, px, py))
         else At(buf, c, px, py)
  {
    hide Over, Color;
    var i := Cell(c.stride, px, py);
    CellParts(c.stride, px, py);
    assert 0 <= i < |buf| ==> Picture(c, buf, inks)[i] == At(Picture(c, buf, inks), c, px, py);
  }

  lemma CellParts(stride: int, px: int, py: int)
    requires 0 <= px < stride && 0 <= py
    ensures var i := Cell(stride, px, py); 0 <= i && i % stride == px && i / stride == py
  {
    var i := Cell(stride, px, py);
    assert i == stride * (i / stride) + i % stride;
    CellsApart(stride, px, py, i % stride, i / stride);
  }

  lemma PartsCell(stride: int, i: nat)
    requires stride > 0
    ensures 0 <= i % stride < stride && 0 <= i / stride && Cell(stride, i % stride, i / stride) == i
  {
  }

  lemma OverOne(ink: Ink, px: int, py: int, below: u32)
    ensures Over([ink], px, py, below) == if Color(ink, px, py).Some? then Color(ink, px, py).value else below
  {
    hide Color;
    assert [ink][..0] == [];
  }

  /** A drawing done is the picture of that drawing. */
  lemma DrawnIs(c: Canvas, was: seq<u32>, now: seq<u32>, ink: Ink)
    requires c.stride > 0 && Drawn(c, was, now, ink)
    ensures now == Picture(c, was, [ink])
  {
    hide Color, Over, Cell;
    forall i | 0 <= i < |was| ensures now[i] == Picture(c, was, [ink])[i] {
      var px, py := i % c.stride, i / c.stride;
      PartsCell(c.stride, i);
      OverOne(ink, px, py, was[i]);
      assert At(was, c, px, py) == was[i];
      assert At(now, c, px, py) == now[i];
    }
  }

  /** A drawing that has nothing at a pixel may be left out there. */
  lemma {:induction false} OverNone(inks: seq<Ink>, px: int, py: int, below: u32)
    requires forall k :: 0 <= k < |inks| ==> Color(inks[k], px, py).None?
    ensures Over(inks, px, py, below) == below
  {
    hide Color;
    if inks != [] { OverNone(inks[..|inks| - 1], px, py, below); }
  }

  lemma {:induction false} OverBoth(inks: seq<Ink>, more: seq<Ink>, px: int, py: int, below: u32)
    ensures Over(inks + more, px, py, below) == Over(more, px, py, Over(inks, px, py, below))
  {
    hide Color;
    if more == [] {
      assert inks + more == inks;
    } else {
      assert (inks + more)[..|inks + more| - 1] == inks + more[..|more| - 1];
      OverBoth(inks, more[..|more| - 1], px, py, below);
    }
  }

  lemma PictureBoth(c: Canvas, buf: seq<u32>, inks: seq<Ink>, more: seq<Ink>)
    requires c.stride > 0
    ensures Picture(c, Picture(c, buf, inks), more) == Picture(c, buf, inks + more)
  {
    hide Over;
    forall i | 0 <= i < |buf| ensures Picture(c, Picture(c, buf, inks), more)[i] == Picture(c, buf, inks + more)[i] {
      OverBoth(inks, more, i % c.stride, i / c.stride, buf[i]);
    }
  }

  /** Doing all the drawings again changes nothing. */
  lemma {:induction false} OverTwice(inks: seq<Ink>, px: int, py: int, below: u32)
    ensures Over(inks, px, py, Over(inks, px, py, below)) == Over(inks, px, py, below)
  {
    if forall k :: 0 <= k < |inks| ==> Color(inks[k], px, py).None? {
      OverNone(inks, px, py, below);
    } else {
      OverSome(inks, px, py, below, Over(inks, px, py, below));
    }
  }

  lemma {:induction false} OverSome(inks: seq<Ink>, px: int, py: int, below: u32, below2: u32)
    requires exists k :: 0 <= k < |inks| && Color(inks[k], px, py).Some?
    ensures Over(inks, px, py, below) == Over(inks, px, py, below2)
  {
    hide Color;
    if Color(inks[|inks| - 1], px, py).None? {
      var k :| 0 <= k < |inks| && Color(inks[k], px, py).Some?;
      assert inks[..|inks| - 1][k] == inks[k];
      OverSome(inks[..|inks| - 1], px, py, below, below2);
    }
  }

  // ---------- the drawings of the taskbar ----------

  /** The letters of a text, each 8 pixels right of the one before. */
  function Letters(font: Font, text: seq<u8>, x: int, y: int, color: u32): (inks: seq<Ink>)
    ensures |inks| == |text|
  {
    seq(|text|, i requires 0 <= i < |text| => Glyph(x + 8 * i, y, font[text[i]], color, 1))
  }

  /** Entry i on a screen of height h: a filled button with the title on it, if it has one. */
  function ButtonInks(font: Font, slot: Slot, i: nat, h: int): seq<Ink> {
    match slot.title
    case None => []
    case Some(title) =>
      var x, y := 8 + i * 148, h - TASKBAR + 7;
      [Fill(Rect(x, y, x + 140, y + 26), if slot.min then DIM else LIT)]
      + Letters(font, CStr(title), x + 6, y + 6, WHITE)
  }

  /** All entries, in order. */
  function BarInks(font: Font, slots: seq<Slot>, h: int): seq<Ink> {
    if slots == [] then []
    else
      var n := |slots| - 1;
      BarInks(font, slots[..n], h) + ButtonInks(font, slots[n], n, h)
  }

  /** What painting the taskbar makes of a buffer of w by h pixels. */
  function BarOf(font: Font, w: int, h: int): (seq<Slot>, seq<u32>) -> seq<u32>
    requires w > 0
  {
    (slots, buf) => Picture(Canvas(w, w, h), buf, BarInks(font, slots, h))
  }

  // ---------- painting it ----------

  /** put_str_c. */
  method PutStr(fb: array<u32>, c: Canvas, font: Font, x: int, y: int, s: seq<u8>, color: u32)
    requires c.Fits(fb.Length) && c.stride > 0
    modifies fb
    ensures fb[..] == Picture(c, old(fb[..]), Letters(font, CStr(s), x, y, color))
  {
    hide Picture, Over, Drawn, CStr;
    ghost var was, inks := fb[..], Letters(font, CStr(s), x, y, color);
    PictureNone(c, was);
    assert inks[..0] == [];
    var i, at := 0, x;
    InCStr(s, 0);
    while i < |s| && s[i] != 0
      invariant 0 <= i <= |CStr(s)| && at == x + 8 * i
      invariant fb[..] == Picture(c, was, inks[..i])
    {
      InCStr(s, i);
      ghost var before := fb[..];
      PutChar(fb, c, at, y, font[s[i]], color);
      DrawnIs(c, before, fb[..], inks[i]);
      PictureBoth(c, was, inks[..i], [inks[i]]);
      assert inks[..i] + [inks[i]] == inks[..i + 1];
      i, at := i + 1, at + 8;
    }
    InCStr(s, i);
    assert inks[..i] == inks;
  }

  lemma PictureNone(c: Canvas, buf: seq<u32>)
    requires c.stride > 0
    ensures Picture(c, buf, []) == buf
  {
  }

  /** The buffer holds the screen. */
  predicate Fits(length: nat, w: int, h: int) {
    w > 0 && Canvas(w, w, h).Fits(length)
  }

  /** One entry's part of taskbar_paint. */
  method PaintButton(fb: array<u32>, font: Font, slot: Slot, i: nat, w: int, h: int)
    requires Fits(fb.Length, w, h)
    modifies fb
    ensures fb[..] == Picture(Canvas(w, w, h), old(fb[..]), ButtonInks(font, slot, i, h))
  {
    hide Picture, Over, Drawn, CStr;
    ghost var c, was := Canvas(w, w, h), fb[..];
    var x, y := 8 + i * 148, h - TASKBAR + 7;
    if slot.title.None? {
      PictureNone(c, was);
      return;
    }
    var bg := if slot.min then DIM else LIT;
    ghost var ground := Fill(Rect(x, y, x + 140, y + 26), bg);
    FillRect(fb, Canvas(w, w, h), x, y, 140, 26, bg);
    DrawnIs(c, was, fb[..], ground);
    PutStr(fb, Canvas(w, w, h), font, x + 6, y + 6, slot.title.value, WHITE);
    PictureBoth(c, was, [ground], Letters(font, CStr(slot.title.value), x + 6, y + 6, WHITE));
  }

  /** taskbar_paint. */
  method Paint(fb: array<u32>, font: Font, slots: seq<Slot>, w: int, h: int)
    requires Fits(fb.Length, w, h)
    modifies fb
    ensures fb[..] == BarOf(font, w, h)(slots, old(fb[..]))
  {
    hide Picture, Over, ButtonInks;
    ghost var c, was := Canvas(w, w, h), fb[..];
    PictureNone(c, was);
    var i := 0;
    while i < |slots|
      invariant 0 <= i <= |slots| && fb[..] == Picture(c, was, BarInks(font, slots[..i], h))
    {
      PaintButton(fb, font, slots[i], i, w, h);
      PictureBoth(c, was, BarInks(font, slots[..i], h), ButtonInks(font, slots[i], i, h));
      assert slots[..i + 1][..i] == slots[..i];
      i := i + 1;
    }
    assert slots[..i] == slots;
  }

  // ---------- what is seen ----------

  /** Dot (dx, dy) of a text is on; its letters are 8 dots wide and 16 high. */
  predicate HasDot(font: Font, text: seq<u8>, dx: int, dy: int) {
    0 <= dx < 8 * |text| && 0 <= dy < 16 && Bit(font[text[dx / 8]][dy], 7 - dx % 8)
  }

  lemma GlyphDot(x: int, y: int, rows: seq<u8>, color: u32, px: int, py: int)
    requires |rows| == 16
    ensures Color(Glyph(x, y, rows, color, 1), px, py)
      == if 0 <= px - x < 8 && 0 <= py - y < 16 && Bit(rows[py - y], 7 - (px - x)) then Some(color) else None
  {
  }

  /** A text shows its dots. */
  lemma {:induction false} LettersShow(font: Font, text: seq<u8>, x: int, y: int, color: u32, px: int, py: int,
      below: u32)
    ensures Over(Letters(font, text, x, y, color), px, py, below)
      == if HasDot(font, text, px - x, py - y) then color else below
  {
    hide Color, Bit;
    if text != [] {
      var n := |text| - 1;
      LettersShow(font, text[..n], x, y, color, px, py, below);
      assert Letters(font, text, x, y, color)[..n] == Letters(font, text[..n], x, y, color);
      GlyphDot(x + 8 * n, y, font[text[n]], color, px, py);
    }
  }

  /** Pixel (dx, dy) of an entry's button. */
  function ButtonPixel(font: Font, slot: Slot, dx: int, dy: int): u32 {
    if slot.title.Some? && HasDot(font, CStr(slot.title.value), dx - 6, dy - 6) then WHITE
    else if slot.min then DIM else LIT
  }

  /** Some entry's title has a dot at a pixel; a title of more than 16 letters runs on past its button. */
  predicate OnTitle(font: Font, slots: seq<Slot>, h: int, px: int, py: int) {
    exists k :: 0 <= k < |slots| && TitleDot(font, slots[k], k, h, px, py)
  }

  predicate TitleDot(font: Font, slot: Slot, k: nat, h: int, px: int, py: int) {
    slot.title.Some? && HasDot(font, CStr(slot.title.value), px - (8 + k * 148) - 6, py - (h - TASKBAR + 7) - 6)
  }

  lemma EntryShows(font: Font, slot: Slot, i: nat, h: int, px: int, py: int, below: u32)
    ensures Over(ButtonInks(font, slot, i, h), px, py, below)
      == if TitleDot(font, slot, i, h, px, py) then WHITE
         else if slot.title.Some? && 0 <= px - (8 + i * 148) < 140 && 0 <= py - (h - TASKBAR + 7) < 26 then
           if slot.min then DIM else LIT
         else below
  {
    hide HasDot, CStr, Over;
    if slot.title.Some? {
      var x, y := 8 + i * 148, h - TASKBAR + 7;
      var ground, letters := ButtonInks(font, slot, i, h)[0], ButtonInks(font, slot, i, h)[1..];
      OverOne(ground, px, py, below);
      OverBoth([ground], letters, px, py, below);
      LettersShow(font, CStr(slot.title.value), x + 6, y + 6, WHITE, px, py, Over([ground], px, py, below));
    } else {
      OverNone([], px, py, below);
    }
  }

  /** What is seen at a pixel after painting: on a button, that entry's button, whose entry is the one
      a click there will find; elsewhere, a dot of a title that runs on, or what was there before. */
  lemma {:induction false} BarShows(font: Font, slots: seq<Slot>, h: int, px: int, py: int, below: u32)
    ensures var b := ButtonAt(slots, px, 0);
      Over(BarInks(font, slots, h), px, py, below)
      == if b != -1 && 0 <= py - (h - TASKBAR + 7) < 26 then
           ButtonPixel(font, slots[b], px - (8 + b * 148), py - (h - TASKBAR + 7))
         else if OnTitle(font, slots, h, px, py) then WHITE
         else below
  {
    hide HasDot, CStr, Over, ButtonInks;
    if slots == [] {
      OverNone([], px, py, below);
    } else {
      var n := |slots| - 1;
      BarShows(font, slots[..n], h, px, py, below);
      OverBoth(BarInks(font, slots[..n], h), ButtonInks(font, slots[n], n, h), px, py, below);
      EntryShows(font, slots[n], n, h, px, py, Over(BarInks(font, slots[..n], h), px, py, below));
      LastButton(slots, px);
      LastTitle(font, slots, h, px, py);
    }
  }

  /** Buttons do not overlap: under x is the last one, or what is among the others. */
  lemma LastButton(slots: seq<Slot>, x: int)
    requires slots != []
    ensures ButtonAt(slots, x, 0) == if OnButton(slots, |slots| - 1, x) then |slots| - 1
                                     else ButtonAt(slots[..|slots| - 1], x, 0)
  {
    var n := |slots| - 1;
    var b, c := ButtonAt(slots, x, 0), ButtonAt(slots[..n], x, 0);
    assert forall k :: 0 <= k < n ==> (OnButton(slots[..n], k, x) <==> OnButton(slots, k, x));
  }

  /** A title's dots lie right of all buttons before its own. */
  lemma LastTitle(font: Font, slots: seq<Slot>, h: int, px: int, py: int)
    requires slots != []
    ensures var n := |slots| - 1;
      && (OnTitle(font, slots, h, px, py) <==>
          OnTitle(font, slots[..n], h, px, py) || TitleDot(font, slots[n], n, h, px, py))
      && (TitleDot(font, slots[n], n, h, px, py) ==>
          ButtonAt(slots[..n], px, 0) == -1 && 0 <= py - (h - TASKBAR + 7) < 26)
  {
  }

  /** Titles of up to 16 letters stay on their buttons. */
  lemma TitlesFit(font: Font, slots: seq<Slot>, h: int, px: int, py: int)
    requires forall k :: 0 <= k < |slots| && slots[k].title.Some? ==> |CStr(slots[k].title.value)| <= 16
    requires OnTitle(font, slots, h, px, py)
    ensures ButtonAt(slots, px, 0) != -1
  {
    var k :| 0 <= k < |slots| && TitleDot(font, slots[k], k, h, px, py);
    assert OnButton(slots, k, px);
  }

  // ---------- what painting keeps ----------

  /** Painting again changes nothing. */
  lemma BarTwice(font: Font, w: int, h: int, slots: seq<Slot>, buf: seq<u32>)
    requires w > 0
    ensures var bar := BarOf(font, w, h); bar(slots, bar(slots, buf)) == bar(slots, buf)
  {
    hide Over, BarInks;
    var bar, inks := BarOf(font, w, h), BarInks(font, slots, h);
    forall i | 0 <= i < |buf| ensures bar(slots, bar(slots, buf))[i] == bar(slots, buf)[i] {
      OverTwice(inks, i % w, i / w, buf[i]);
    }
  }

  /** On a sheet as wide as the screen, only the bar is painted. */
  lemma InTheBar(font: Font, l: Layer, w: int, h: int)
    requires w > 0 && l.w == w
    ensures BarOnly(BarOf(font, w, h), l, w, h)
  {
    hide Over, BarInks, At, Picture, Cell;
    forall slots: seq<Slot>, buf: seq<u32>, x, y | Covers(l, x, y) && !BarRect(l, w, h).Has(x, y)
      ensures Pix(l.(buf := BarOf(font, w, h)(slots, buf)), x, y) == Pix(l.(buf := buf), x, y)
    {
      var c, px, py := Canvas(w, w, h), x - l.x, y - l.y;
      PictureAt(c, buf, BarInks(font, slots, h), px, py);
      BarShows(font, slots, h, px, py, At(buf, c, px, py));
      PixAt(l, buf, c, x, y);
      PixAt(l, BarOf(font, w, h)(slots, buf), c, x, y);
    }
  }

  lemma PixAt(l: Layer, buf: seq<u32>, c: Canvas, x: int, y: int)
    requires l.w == c.stride
    ensures Pix(l.(buf := buf), x, y) == At(buf, c, x - l.x, y - l.y)
  {
    hide Cell;
  }

  lemma BarRepaints(font: Font, w: int, h: int)
    requires w > 0
    ensures Repaints(BarOf(font, w, h))
  {
    hide BarOf;
    forall slots: seq<Slot>, buf: seq<u32>
      ensures var bar := BarOf(font, w, h); bar(slots, bar(slots, buf)) == bar(slots, buf)
    {
      BarTwice(font, w, h, slots, buf);
    }
  }

  /** The desktop's own pixel under a button is that of the entry a click there will find. */
  lemma ButtonSeen(font: Font, v: View, w: int, h: int, x: int, y: int)
    requires w > 0 && v.bar == BarOf(font, w, h) && BarShown(v)
    requires v.faces[v.back].w == w && w * h <= |v.faces[v.back].buf|
    requires 0 <= x < w && 0 <= y && 0 <= y - (h - TASKBAR + 7) < 26 && ButtonAt(v.slots, x, 0) != -1
    ensures var l, b := v.faces[v.back], ButtonAt(v.slots, x, 0);
      Pix(l, l.x + x, l.y + y) == ButtonPixel(font, v.slots[b], x - (8 + b * 148), y - (h - TASKBAR + 7))
  {
    hide Over, BarInks, At, Picture, Cell, ButtonPixel, OnTitle;
    var l, c, inks := v.faces[v.back], Canvas(w, w, h), BarInks(font, v.slots, h);
    PictureAt(c, l.buf, inks, x, y);
    CellInRange(w, h, x, y);
    BarShows(font, v.slots, h, x, y, At(l.buf, c, x, y));
    PixAt(l, l.buf, c, l.x + x, l.y + y);
  }

  /** A button is lit exactly when its window is on the screen. */
  lemma LitMeansShown(font: Font, v: View, w: int, h: int, b: nat)
    requires w > 0 && v.bar == BarOf(font, w, h) && BarShown(v) && Sound(v)
    requires v.faces[v.back].w == w && w * h <= |v.faces[v.back].buf|
    requires b < |v.slots| && v.slots[b].title.Some? && 8 + b * 148 < w && TASKBAR <= h
    ensures var l := v.faces[v.back]; var p := Pix(l, l.x + 8 + b * 148, l.y + h - TASKBAR + 7);
      p == (if v.slots[b].sht in v.order then LIT else DIM)
  {
    hide Pix, BarOf, Framed;
    var x, l := 8 + b * 148, v.faces[v.back];
    assert OnButton(v.slots, b, x);
    assert ButtonAt(v.slots, x, 0) == b;
    ButtonSeen(font, v, w, h, x, h - TASKBAR + 7);
  }
}
