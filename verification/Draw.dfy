/**
 The clipped drawing primitives. An Ink says which colour a drawing has at a pixel, if any; a
 primitive must put exactly that on every pixel of the canvas and leave the rest of the buffer.
 */
module Draw {
  import opened Bits
  import opened Layers
  import opened Screens
  import opened Words

  const NO_KEY: u32 := 0xFFFF_FFFF

  /** A frame buffer of rows `stride` apart of which fw by fh pixels may be drawn on. */
  datatype Canvas = Canvas(stride: int, fw: int, fh: int) {
    predicate On(px: int, py: int) {
      0 <= px < fw && 0 <= py < fh
    }

    predicate Fits(length: nat) {
      fw <= stride && 0 <= stride && stride * fh <= length
    }
  }

  /** A filled rectangle; an image with its top left corner at the rectangle's, less the pixels of
      the key colour; a glyph of 16 rows of 8 bits, leftmost highest, blown up `scale` times. */
  datatype Ink =
    | Fill(r: Rect, color: u32)
    | Image(r: Rect, src: seq<u32>, sstride: int, key: u32)
    | Glyph(x: int, y: int, rows: seq<u8>, color: u32, scale: int)

  /** The colour of the drawing at a pixel. */
  function Color(ink: Ink, px: int, py: int): Option<u32> {
    match ink
    case Fill(r, color) => if r.Has(px, py) then Some(color) else None
    case Image(r, src, sstride, key) =>
      var i := Cell(sstride, px - r.x0, py - r.y0);
      if r.Has(px, py) && 0 <= i < |src| && (key == NO_KEY || src[i] != key) then Some(src[i]) else None
    case Glyph(x, y, rows, color, scale) =>
      if scale > 0 && Rect(x, y, x + 8 * scale, y + 16 * scale).Has(px, py)
        && (py - y) / scale < |rows| && 7 - (px - x) / scale >= 0 && Bit(rows[(py - y) / scale], 7 - (px - x) / scale)
      then Some(color) else None
  }

  function At(buf: seq<u32>, c: Canvas, px: int, py: int): u32 {
    var i := Cell(c.stride, px, py);
    if 0 <= i < |buf| then buf[i] else 0
  }

  /** now is was with the part of the drawing that lies in r and on the canvas; the pixels right of
      and below the canvas are part of what stays. */
  ghost predicate Inked(c: Canvas, was: seq<u32>, now: seq<u32>, ink: Ink, r: Rect) {
    && |now| == |was|
    && forall px, py :: 0 <= px < c.stride && 0 <= py ==>
         At(now, c, px, py)
         == if r.Has(px, py) && c.On(px, py) && Color(ink, px, py).Some? then Color(ink, px, py).value
            else At(was, c, px, py)
  }

  /** All of it. */
  ghost predicate Drawn(c: Canvas, was: seq<u32>, now: seq<u32>, ink: Ink) {
    Inked(c, was, now, ink, Rect(0, 0, c.fw, c.fh))
  }

  /** Two disjoint rectangles that share out a third, as far as anything is drawn there. */
  ghost predicate Shares(c: Canvas, ink: Ink, r: Rect, r1: Rect, r2: Rect) {
    forall px, py :: c.On(px, py) && Color(ink, px, py).Some? ==>
      (r.Has(px, py) <==> r1.Has(px, py) || r2.Has(px, py)) && !(r1.Has(px, py) && r2.Has(px, py))
  }

  lemma InkJoin(c: Canvas, a: seq<u32>, b: seq<u32>, d: seq<u32>, ink: Ink, r: Rect, r1: Rect, r2: Rect)
    requires Inked(c, a, b, ink, r1) && Inked(c, b, d, ink, r2) && Shares(c, ink, r, r1, r2)
    ensures Inked(c, a, d, ink, r)
  {
    hide Color, At, Rect.Has;
    forall px, py | 0 <= px < c.stride && 0 <= py
      ensures At(d, c, px, py)
        == if r.Has(px, py) && c.On(px, py) && Color(ink, px, py).Some? then Color(ink, px, py).value
           else At(a, c, px, py) {
      assert At(b, c, px, py)
        == if r1.Has(px, py) && c.On(px, py) && Color(ink, px, py).Some? then Color(ink, px, py).value
           else At(a, c, px, py);
    }
  }

  /** Nothing to draw in r. */
  lemma InkNothing(c: Canvas, a: seq<u32>, ink: Ink, r: Rect)
    requires forall px, py :: r.Has(px, py) && c.On(px, py) ==> Color(ink, px, py).None?
    ensures Inked(c, a, a, ink, r)
  {
    hide Color, At;
  }

  /** One pixel drawn. */
  lemma InkPixel(c: Canvas, a: seq<u32>, ink: Ink, px: int, py: int)
    requires c.Fits(|a|) && c.On(px, py) && Color(ink, px, py).Some?
    ensures 0 <= Cell(c.stride, px, py) < |a|
    ensures Inked(c, a, a[Cell(c.stride, px, py) := Color(ink, px, py).value], ink, Rect(px, py, px + 1, py + 1))
  {
    hide Color, Cell;
    CellOn(c, |a|, px, py);
    var b := a[Cell(c.stride, px, py) := Color(ink, px, py).value];
    forall qx, qy | 0 <= qx < c.stride && 0 <= qy
      ensures At(b, c, qx, qy) == if qx == px && qy == py then Color(ink, px, py).value else At(a, c, qx, qy) {
      if Cell(c.stride, qx, qy) == Cell(c.stride, px, py) { CellsApart(c.stride, qx, qy, px, py); }
    }
  }

  lemma CellOn(c: Canvas, length: nat, px: int, py: int)
    requires c.Fits(length) && c.On(px, py)
    ensures 0 <= Cell(c.stride, px, py) < length
  {
    CellInRange(c.stride, c.fh, px, py);
  }

  /** The rest of the canvas has nothing of the drawing. */
  lemma InkAll(c: Canvas, a: seq<u32>, b: seq<u32>, ink: Ink, r: Rect)
    requires Inked(c, a, b, ink, r)
    requires forall px, py :: c.On(px, py) && Color(ink, px, py).Some? ==> r.Has(px, py)
    ensures Drawn(c, a, b, ink)
  {
    hide Color, At;
  }

  // ---------- the primitives ----------

  /** clip_rect: whether anything of the rectangle is on the canvas, and then which part. */
  method ClipRect(c: Canvas, x: int, y: int, w: int, h: int) returns (some: bool, r: Rect)
    ensures some <==> exists px, py :: Rect(x, y, x + w, y + h).Has(px, py) && c.On(px, py)
    ensures some ==> forall px, py :: r.Has(px, py) <==> Rect(x, y, x + w, y + h).Has(px, py) && c.On(px, py)
    ensures some ==> 0 <= r.x0 < r.x1 <= c.fw && 0 <= r.y0 < r.y1 <= c.fh
  {
    var x0, y0, x1, y1 := x, y, x + w, y + h;
    if x0 < 0 { x0 := 0; }
    if y0 < 0 { y0 := 0; }
    if x1 > c.fw { x1 := c.fw; }
    if y1 > c.fh { y1 := c.fh; }
    r := Rect(x0, y0, x1, y1);
    if x1 <= x0 || y1 <= y0 { return false, r; }
    assert Rect(x, y, x + w, y + h).Has(x0, y0) && c.On(x0, y0);
    return true, r;
  }

  /** fill_rect_c. */
  method FillRect(fb: array<u32>, c: Canvas, x: int, y: int, w: int, h: int, color: u32)
    requires c.Fits(fb.Length)
    modifies fb
    ensures Drawn(c, old(fb[..]), fb[..], Fill(Rect(x, y, x + w, y + h), color))
  {
    hide Inked, Shares, At, Cell;
    ghost var was, ink := fb[..], Fill(Rect(x, y, x + w, y + h), color);
    var some, r := ClipRect(c, x, y, w, h);
    if !some {
      InkNothing(c, was, ink, Rect(0, 0, c.fw, c.fh));
      return;
    }
    var dy := r.y0;
    InkNothing(c, was, ink, Rect(r.x0, r.y0, r.x1, r.y0));
    while dy < r.y1
      invariant r.y0 <= dy <= r.y1 && Inked(c, was, fb[..], ink, Rect(r.x0, r.y0, r.x1, dy))
    {
      ghost var row := fb[..];
      var dx := r.x0;
      InkNothing(c, row, ink, Rect(r.x0, dy, r.x0, dy + 1));
      while dx < r.x1
        invariant r.x0 <= dx <= r.x1 && Inked(c, row, fb[..], ink, Rect(r.x0, dy, dx, dy + 1))
      {
        ghost var now := fb[..];
        assert r.Has(dx, dy);
        CellOn(c, fb.Length, dx, dy);
        fb[Cell(c.stride, dx, dy)] := color;
        InkStep(c, row, now, fb[..], ink, r.x0, dx, dy);
        dx := dx + 1;
      }
      SharesRows(c, ink, r, dy);
      InkJoin(c, was, row, fb[..], ink, Rect(r.x0, r.y0, r.x1, dy + 1), Rect(r.x0, r.y0, r.x1, dy),
        Rect(r.x0, dy, r.x1, dy + 1));
      dy := dy + 1;
    }
    InkAll(c, was, fb[..], ink, r);
  }

  /** blit_c: an image with transparent key pixels. The image is given where it would lie unclipped. */
  method Blit(dst: array<u32>, c: Canvas, src: array<u32>, sstride: int, x: int, y: int, w: int, h: int, key: u32)
    requires c.Fits(dst.Length) && src != dst && Canvas(sstride, w, h).Fits(src.Length)
    modifies dst
    ensures Drawn(c, old(dst[..]), dst[..], Image(Rect(x, y, x + w, y + h), src[..], sstride, key))
  {
    hide Inked, Shares, At, Cell;
    ghost var was, ink := dst[..], Image(Rect(x, y, x + w, y + h), src[..], sstride, key);
    var sx, sy := 0, 0;
    var x1, y1, w1, h1 := x, y, w, h;
    if x1 < 0 { sx := -x1; w1 := w1 + x1; x1 := 0; }
    if y1 < 0 { sy := -y1; h1 := h1 + y1; y1 := 0; }
    if x1 + w1 > c.fw { w1 := c.fw - x1; }
    if y1 + h1 > c.fh { h1 := c.fh - y1; }
    if w1 <= 0 || h1 <= 0 {
      InkNothing(c, was, ink, Rect(0, 0, c.fw, c.fh));
      return;
    }
    var i := 0;
    InkNothing(c, was, ink, Rect(x1, y1, x1 + w1, y1));
    while i < h1
      invariant 0 <= i <= h1 && Inked(c, was, dst[..], ink, Rect(x1, y1, x1 + w1, y1 + i))
    {
      ghost var row := dst[..];
      BlitRow(dst, c, src, sstride, sx, sy + i, x1, y1 + i, w1, key, ink);
      SharesRows(c, ink, Rect(x1, y1, x1 + w1, y1 + h1), y1 + i);
      InkJoin(c, was, row, dst[..], ink, Rect(x1, y1, x1 + w1, y1 + i + 1), Rect(x1, y1, x1 + w1, y1 + i),
        Rect(x1, y1 + i, x1 + w1, y1 + i + 1));
      i := i + 1;
    }
    InkAll(c, was, dst[..], ink, Rect(x1, y1, x1 + w1, y1 + h1));
  }

  /** One row of it, from column sx of row sy of the source on. */
  method BlitRow(dst: array<u32>, c: Canvas, src: array<u32>, sstride: int, sx: int, sy: int, x: int, y: int, w: int,
      key: u32, ghost ink: Ink)
    requires c.Fits(dst.Length) && src != dst && c.On(x, y) && 0 < w && x + w <= c.fw
    requires ink.Image? && ink.src == src[..] && ink.sstride == sstride && ink.key == key
    requires ink.r.x0 == x - sx && ink.r.y0 == y - sy && 0 <= sx && 0 <= sy && x + w <= ink.r.x1 && y < ink.r.y1
    requires Canvas(sstride, ink.r.x1 - ink.r.x0, ink.r.y1 - ink.r.y0).Fits(src.Length)
    modifies dst
    ensures Inked(c, old(dst[..]), dst[..], ink, Rect(x, y, x + w, y + 1))
  {
    hide Inked, Shares, At, Cell;
    ghost var row := dst[..];
    ghost var from := Canvas(sstride, ink.r.x1 - ink.r.x0, ink.r.y1 - ink.r.y0);
    InkNothing(c, row, ink, Rect(x, y, x, y + 1));
    var j := 0;
    while j < w
      invariant 0 <= j <= w && Inked(c, row, dst[..], ink, Rect(x, y, x + j, y + 1))
    {
      ghost var now := dst[..];
      CellOn(from, src.Length, sx + j, sy);
      CellOn(c, dst.Length, x + j, y);
      var p := src[Cell(sstride, sx + j, sy)];
      if key == NO_KEY || p != key { dst[Cell(c.stride, x + j, y)] := p; }
      InkStep(c, row, now, dst[..], ink, x, x + j, y);
      j := j + 1;
    }
  }

  /** One pixel further along a row. */
  lemma InkStep(c: Canvas, row: seq<u32>, now: seq<u32>, next: seq<u32>, ink: Ink, x0: int, px: int, py: int)
    requires c.Fits(|now|) && c.On(px, py) && x0 <= px && Inked(c, row, now, ink, Rect(x0, py, px, py + 1))
    requires 0 <= Cell(c.stride, px, py) < |now|
    requires next == if Color(ink, px, py).Some? then now[Cell(c.stride, px, py) := Color(ink, px, py).value] else now
    ensures Inked(c, row, next, ink, Rect(x0, py, px + 1, py + 1))
  {
    hide Inked, Shares, At, Cell, Color;
    if Color(ink, px, py).Some? {
      InkPixel(c, now, ink, px, py);
    } else {
      InkNothing(c, now, ink, Rect(px, py, px + 1, py + 1));
    }
    SharesRow(c, ink, x0, py, px);
    InkJoin(c, row, now, next, ink, Rect(x0, py, px + 1, py + 1), Rect(x0, py, px, py + 1),
      Rect(px, py, px + 1, py + 1));
  }

  lemma SharesRow(c: Canvas, ink: Ink, x0: int, row: int, px: int)
    requires x0 <= px
    ensures Shares(c, ink, Rect(x0, row, px + 1, row + 1), Rect(x0, row, px, row + 1), Rect(px, row, px + 1, row + 1))
  {
    hide Color;
  }

  lemma SharesRows(c: Canvas, ink: Ink, r: Rect, row: int)
    requires r.y0 <= row
    ensures Shares(c, ink, Rect(r.x0, r.y0, r.x1, row + 1), Rect(r.x0, r.y0, r.x1, row), Rect(r.x0, row, r.x1, row + 1))
  {
    hide Color;
  }

  /** Pixel (u, v) of an image, u pixels right of its left edge and v below its top, comes from element
      v * sstride + u of the source, unless that is the key colour. */
  lemma ImagePixel(x: int, y: int, w: int, h: int, src: seq<u32>, sstride: int, key: u32, u: int, v: int)
    requires 0 <= u < w && 0 <= v < h && 0 <= v * sstride + u < |src|
    ensures var p := src[v * sstride + u];
      Color(Image(Rect(x, y, x + w, y + h), src, sstride, key), x + u, y + v)
      == if key == 0xFFFF_FFFF || p != key then Some(p) else None
  {
    assert (x + u) - x == u && (y + v) - y == v;
  }

  /** Drawing sets element py * stride + px of the buffer for each pixel of the canvas that has a colour. */
  lemma DrawnElement(c: Canvas, was: seq<u32>, now: seq<u32>, ink: Ink, px: int, py: int)
    requires Drawn(c, was, now, ink) && c.Fits(|was|) && 0 <= px < c.stride && 0 <= py < c.fh
    ensures 0 <= py * c.stride + px < |was| == |now|
    ensures now[py * c.stride + px]
      == if px < c.fw && Color(ink, px, py).Some? then Color(ink, px, py).value else was[py * c.stride + px]
  {
    hide Color;
    CellInRange(c.stride, c.fh, px, py);
    assert At(now, c, px, py) == now[py * c.stride + px] && At(was, c, px, py) == was[py * c.stride + px];
  }

  // ---------- letters ----------

  /** put_char_c: the 8 by 16 glyph. */
  method PutChar(fb: array<u32>, c: Canvas, x: int, y: int, g: seq<u8>, color: u32)
    requires c.Fits(fb.Length) && |g| == 16
    modifies fb
    ensures Drawn(c, old(fb[..]), fb[..], Glyph(x, y, g, color, 1))
  {
    hide Inked, Shares, At, Cell, Color;
    ghost var was, ink := fb[..], Glyph(x, y, g, color, 1);
    InkNothing(c, was, ink, Rect(x, y, x + 8, y));
    var dy := 0;
    while dy < 16
      invariant 0 <= dy <= 16 && Inked(c, was, fb[..], ink, Rect(x, y, x + 8, y + dy))
    {
      ghost var row := fb[..];
      var py := y + dy;
      if py >= 0 && py < c.fh && g[dy] != 0 {
        PutCharRow(fb, c, x, py, g[dy], color, ink);
      } else {
        BlankRow(c, ink, dy);
        InkNothing(c, row, ink, Rect(x, py, x + 8, py + 1));
      }
      SharesRows(c, ink, Rect(x, y, x + 8, y + 16), py);
      InkJoin(c, was, row, fb[..], ink, Rect(x, y, x + 8, py + 1), Rect(x, y, x + 8, py), Rect(x, py, x + 8, py + 1));
      dy := dy + 1;
    }
    GlyphInside(c, ink);
    InkAll(c, was, fb[..], ink, Rect(x, y, x + 8, y + 16));
  }

  method PutCharRow(fb: array<u32>, c: Canvas, x: int, py: int, bits: u8, color: u32, ghost ink: Ink)
    requires c.Fits(fb.Length) && 0 <= py < c.fh
    requires ink.Glyph? && ink.scale == 1 && ink.x == x && ink.y <= py < ink.y + 16 && |ink.rows| == 16
    requires ink.rows[py - ink.y] == bits && ink.color == color
    modifies fb
    ensures Inked(c, old(fb[..]), fb[..], ink, Rect(x, py, x + 8, py + 1))
  {
    hide Inked, Shares, At, Cell, Color;
    ghost var row := fb[..];
    InkNothing(c, row, ink, Rect(x, py, x, py + 1));
    var dx := 0;
    while dx < 8
      invariant 0 <= dx <= 8 && Inked(c, row, fb[..], ink, Rect(x, py, x + dx, py + 1))
    {
      ghost var now := fb[..];
      var px := x + dx;
      DotColor(ink, dx, py - ink.y, px, py);
      if px >= 0 && px < c.fw {
        CellOn(c, fb.Length, px, py);
        if Bit(bits, 7 - dx) { fb[Cell(c.stride, px, py)] := color; }
        InkStep(c, row, now, fb[..], ink, x, px, py);
      } else {
        InkNothing(c, now, ink, Rect(px, py, px + 1, py + 1));
        SharesRow(c, ink, x, py, px);
        InkJoin(c, row, now, now, ink, Rect(x, py, px + 1, py + 1), Rect(x, py, px, py + 1),
          Rect(px, py, px + 1, py + 1));
      }
      dx := dx + 1;
    }
  }

  lemma Quotient(q: int, s: int, d: int)
    requires s > 0 && d >= 0 && d * s <= q < d * s + s
    ensures q / s == d
  {
    var e := q / s;
    Times(d, s);
    assert e * s + q % s == q && e >= 0;
    if e < d {
      MultiplesGrow(e, d, s);
    } else if d < e {
      MultiplesGrow(d, e, s);
    }
  }

  lemma {:induction false} MultiplesGrow(d: int, n: int, s: int)
    requires s > 0 && 0 <= d < n
    ensures 0 <= d * s && d * s + s <= n * s
    decreases n
  {
    Times(n - 1, s);
    if d < n - 1 { MultiplesGrow(d, n - 1, s); }
  }

  /** Every pixel of the square for dot (dx, dy) of the glyph has that dot's colour. */
  lemma DotColor(ink: Ink, dx: int, dy: int, px: int, py: int)
    requires ink.Glyph? && ink.scale > 0 && |ink.rows| == 16 && 0 <= dx < 8 && 0 <= dy < 16
    requires Rect(ink.x + dx * ink.scale, ink.y + dy * ink.scale,
                  ink.x + dx * ink.scale + ink.scale, ink.y + dy * ink.scale + ink.scale).Has(px, py)
    ensures Color(ink, px, py) == if Bit(ink.rows[dy], 7 - dx) then Some(ink.color) else None
  {
    hide Bit;
    var s, u, v := ink.scale, px - ink.x, py - ink.y;
    Quotient(u, s, dx);
    Quotient(v, s, dy);
    MultiplesGrow(dx, 8, s);
    MultiplesGrow(dy, 16, s);
    Dot(ink, u, v, dx, dy);
  }

  lemma Dot(ink: Ink, u: int, v: int, dx: int, dy: int)
    requires ink.Glyph? && ink.scale > 0 && |ink.rows| == 16 && 0 <= dx < 8 && 0 <= dy < 16
    requires 0 <= u < 8 * ink.scale && 0 <= v < 16 * ink.scale && u / ink.scale == dx && v / ink.scale == dy
    ensures Color(ink, ink.x + u, ink.y + v) == if Bit(ink.rows[dy], 7 - dx) then Some(ink.color) else None
  {
    hide Bit;
    assert ink.x + u - ink.x == u && ink.y + v - ink.y == v;
  }

  lemma BlankRow(c: Canvas, ink: Ink, dy: int)
    requires ink.Glyph? && ink.scale == 1 && |ink.rows| == 16 && 0 <= dy < 16
    requires !(0 <= ink.y + dy < c.fh) || ink.rows[dy] == 0
    ensures forall px, py :: Rect(ink.x, ink.y + dy, ink.x + 8, ink.y + dy + 1).Has(px, py) && c.On(px, py) ==>
      Color(ink, px, py).None?
  {
    hide Color;
    forall px, py | Rect(ink.x, ink.y + dy, ink.x + 8, ink.y + dy + 1).Has(px, py) && c.On(px, py)
      ensures Color(ink, px, py).None? {
      DotColor(ink, px - ink.x, dy, px, py);
      NoBits(7 - (px - ink.x));
    }
  }

  lemma GlyphInside(c: Canvas, ink: Ink)
    requires ink.Glyph?
    ensures forall px, py :: c.On(px, py) && Color(ink, px, py).Some? ==>
      Rect(ink.x, ink.y, ink.x + 8 * ink.scale, ink.y + 16 * ink.scale).Has(px, py)
  {
    hide Bit;
  }

  /** put_char_cs: each dot of the glyph a square of s by s pixels, cut off at the canvas. */
  method PutCharScaled(fb: array<u32>, c: Canvas, x: int, y: int, g: seq<u8>, color: u32, s: int)
    requires c.Fits(fb.Length) && |g| == 16
    modifies fb
    ensures Drawn(c, old(fb[..]), fb[..], Glyph(x, y, g, color, if s <= 1 then 1 else s))
  {
    hide Inked, Shares, At, Cell, Color;
    if s <= 1 {
      PutChar(fb, c, x, y, g, color);
      return;
    }
    ghost var was, ink := fb[..], Glyph(x, y, g, color, s);
    InkNothing(c, was, ink, Rect(x, y, x + 8 * s, y));
    var dy := 0;
    while dy < 16
      invariant 0 <= dy <= 16 && Inked(c, was, fb[..], ink, Rect(x, y, x + 8 * s, y + dy * s))
    {
      ghost var row := fb[..];
      var py := y + dy * s;
      Times(dy, s);
      DotRow(fb, c, x, py, g[dy], color, s, dy, ink);
      SharesBands(c, ink, x, x + 8 * s, y, py, py + s);
      InkJoin(c, was, row, fb[..], ink, Rect(x, y, x + 8 * s, py + s), Rect(x, y, x + 8 * s, py),
        Rect(x, py, x + 8 * s, py + s));
      dy := dy + 1;
    }
    GlyphInside(c, ink);
    InkAll(c, was, fb[..], ink, Rect(x, y, x + 8 * s, y + 16 * s));
  }

  lemma Times(d: int, s: int)
    requires d >= 0 && s > 0
    ensures d * s >= 0 && (d + 1) * s == d * s + s
  {
  }

  lemma SharesBands(c: Canvas, ink: Ink, x0: int, x1: int, y0: int, y1: int, y2: int)
    requires y0 <= y1 <= y2
    ensures Shares(c, ink, Rect(x0, y0, x1, y2), Rect(x0, y0, x1, y1), Rect(x0, y1, x1, y2))
  {
    hide Color;
  }

  lemma SharesColumns(c: Canvas, ink: Ink, x0: int, x1: int, x2: int, y0: int, y1: int)
    requires x0 <= x1 <= x2
    ensures Shares(c, ink, Rect(x0, y0, x2, y1), Rect(x0, y0, x1, y1), Rect(x1, y0, x2, y1))
  {
    hide Color;
  }

  /** One row of dots. */
  method DotRow(fb: array<u32>, c: Canvas, x: int, py: int, bits: u8, color: u32, s: int, ghost dy: int, ghost ink: Ink)
    requires c.Fits(fb.Length) && s > 0 && ink.Glyph? && ink.scale == s && ink.x == x && |ink.rows| == 16
    requires ink.color == color
    requires 0 <= dy < 16 && py == ink.y + dy * s && ink.rows[dy] == bits
    modifies fb
    ensures Inked(c, old(fb[..]), fb[..], ink, Rect(x, py, x + 8 * s, py + s))
  {
    hide Inked, Shares, At, Cell, Color;
    ghost var row := fb[..];
    InkNothing(c, row, ink, Rect(x, py, x, py + s));
    var dx := 0;
    while dx < 8
      invariant 0 <= dx <= 8 && Inked(c, row, fb[..], ink, Rect(x, py, x + dx * s, py + s))
    {
      ghost var now := fb[..];
      var px := x + dx * s;
      Times(dx, s);
      ghost var dot := Rect(px, py, px + s, py + s);
      forall qx, qy | dot.Has(qx, qy) ensures Color(ink, qx, qy) == if Bit(bits, 7 - dx) then Some(color) else None {
        DotColor(ink, dx, dy, qx, qy);
      }
      if Bit(bits, 7 - dx) {
        Square(fb, c, px, py, s, color, ink);
      } else {
        InkNothing(c, now, ink, dot);
      }
      SharesColumns(c, ink, x, px, px + s, py, py + s);
      InkJoin(c, row, now, fb[..], ink, Rect(x, py, px + s, py + s), Rect(x, py, px, py + s), dot);
      dx := dx + 1;
    }
  }

  /** The square of one dot that is on. */
  method Square(fb: array<u32>, c: Canvas, px: int, py: int, s: int, color: u32, ghost ink: Ink)
    requires c.Fits(fb.Length) && s > 0
    requires forall qx, qy :: Rect(px, py, px + s, py + s).Has(qx, qy) ==> Color(ink, qx, qy) == Some(color)
    modifies fb
    ensures Inked(c, old(fb[..]), fb[..], ink, Rect(px, py, px + s, py + s))
  {
    hide Inked, Shares, At, Cell, Color;
    ghost var was := fb[..];
    InkNothing(c, was, ink, Rect(px, py, px + s, py));
    var sy := 0;
    while sy < s
      invariant 0 <= sy <= s && Inked(c, was, fb[..], ink, Rect(px, py, px + s, py + sy))
    {
      ghost var row := fb[..];
      var ry := py + sy;
      if ry >= 0 && ry < c.fh {
        SquareRow(fb, c, px, ry, s, color, ink);
      } else {
        InkNothing(c, row, ink, Rect(px, ry, px + s, ry + 1));
      }
      SharesRows(c, ink, Rect(px, py, px + s, py + s), ry);
      InkJoin(c, was, row, fb[..], ink, Rect(px, py, px + s, ry + 1), Rect(px, py, px + s, ry),
        Rect(px, ry, px + s, ry + 1));
      sy := sy + 1;
    }
  }

  method SquareRow(fb: array<u32>, c: Canvas, px: int, ry: int, s: int, color: u32, ghost ink: Ink)
    requires c.Fits(fb.Length) && s > 0 && 0 <= ry < c.fh
    requires forall qx :: px <= qx < px + s ==> Color(ink, qx, ry) == Some(color)
    modifies fb
    ensures Inked(c, old(fb[..]), fb[..], ink, Rect(px, ry, px + s, ry + 1))
  {
    hide Inked, Shares, At, Cell, Color;
    ghost var row := fb[..];
    InkNothing(c, row, ink, Rect(px, ry, px, ry + 1));
    var sx := 0;
    while sx < s
      invariant 0 <= sx <= s && Inked(c, row, fb[..], ink, Rect(px, ry, px + sx, ry + 1))
    {
      ghost var now := fb[..];
      var rx := px + sx;
      if rx >= 0 && rx < c.fw {
        CellOn(c, fb.Length, rx, ry);
        fb[Cell(c.stride, rx, ry)] := color;
        InkStep(c, row, now, fb[..], ink, px, rx, ry);
      } else {
        InkNothing(c, now, ink, Rect(rx, ry, rx + 1, ry + 1));
        SharesRow(c, ink, px, ry, rx);
        InkJoin(c, row, now, now, ink, Rect(px, ry, rx + 1, ry + 1), Rect(px, ry, rx, ry + 1),
          Rect(rx, ry, rx + 1, ry + 1));
      }
      sx := sx + 1;
    }
  }
}
