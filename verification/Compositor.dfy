/**
 The sheet compositor: the controller, its sheets, and the operations that move them about.
 Each operation recomputes only small rectangles and height ranges of the owner map and the
 frame; its contract says that both caches still agree with the whole stack.
 */
module Compositor {
  import opened Words
  import opened Layers
  import opened Orders
  import opened Screens

  const MAX_SHEETS := 16
  const SHEET_USE := 1

  /** Distinct numbers below n: there are at most n of them. */
  lemma {:induction false} Pigeonhole(ids: seq<int>, n: nat)
    requires forall i :: 0 <= i < |ids| ==> 0 <= ids[i] < n
    requires forall i, j :: 0 <= i < j < |ids| ==> ids[i] != ids[j]
    ensures |ids| <= n
    decreases |ids|
  {
    if ids != [] {
      var last := ids[|ids| - 1];
      Pigeonhole(seq(|ids| - 1, k requires 0 <= k < |ids| - 1 => if ids[k] == n - 1 then last else ids[k]), n - 1);
    }
  }

  /** The first `rows` rows of a buffer bw wide hold the desktop's colours, the rest is as before. */
  ghost predicate Filled(before: seq<u32>, after: seq<u32>, bw: nat, bh: nat, rows: nat) {
    && |after| == |before|
    && forall i :: 0 <= i < |after| ==>
      after[i] == if bw > 0 && i < rows * bw then DesktopRow(i / bw, bh) else before[i]
  }

  lemma AllFilled(before: seq<u32>, after: seq<u32>, bw: nat, bh: nat)
    requires Filled(before, after, bw, bh, bh)
    ensures after == DesktopPixels(before, bw, bh)
  {
    hide DesktopRow;
  }

  lemma OneMoreRow(before: seq<u32>, mid: seq<u32>, after: seq<u32>, bw: nat, bh: nat, y: nat)
    requires Filled(before, mid, bw, bh, y) && |after| == |mid|
    requires forall i :: 0 <= i < |mid| ==> after[i] == if y * bw <= i < y * bw + bw then DesktopRow(y, bh) else mid[i]
    ensures Filled(before, after, bw, bh, y + 1)
  {
    hide DesktopRow;
    assert (y + 1) * bw == y * bw + bw;
    forall i | y * bw <= i < y * bw + bw ensures i / bw == y { RowOf(i, bw, y); }
  }

  lemma NoRows(before: seq<u32>, bw: nat, bh: nat)
    ensures Filled(before, before, bw, bh, 0)
  {
  }

  lemma RowInside(bw: nat, bh: nat, y: nat)
    requires y < bh
    ensures y * bw + bw <= bw * bh
  {
    var d := bh - y - 1;
    assert 0 <= d * bw;
    assert bh == y + 1 + d;
    assert (y + 1 + d) * bw == y * bw + bw + d * bw;
  }

  lemma RowOf(i: int, bw: nat, y: nat)
    requires y * bw <= i < y * bw + bw
    ensures i / bw == y
  {
    CellsApart(bw, i % bw, i / bw, i - y * bw, y);
  }

  /** The entries up to top and the heights of the sheets in use say the same. */
  ghost predicate Sorted(slots: seq<int>, heights: seq<int>, flags: seq<int>, top: int) {
    && |slots| == |heights| == |flags| == MAX_SHEETS && -1 <= top < MAX_SHEETS
    && (forall h :: 0 <= h <= top ==>
      0 <= slots[h] < MAX_SHEETS && heights[slots[h]] == h && flags[slots[h]] == SHEET_USE)
    && (forall i :: 0 <= i < MAX_SHEETS && flags[i] == SHEET_USE ==>
          -1 <= heights[i] <= top && (heights[i] >= 0 ==> slots[heights[i]] == i))
  }

  ghost predicate OthersKept(flags: seq<int>, heights: seq<int>, heights2: seq<int>) {
    |flags| == |heights| == |heights2| && forall i :: 0 <= i < |flags| && flags[i] != SHEET_USE ==>
      heights2[i] == heights[i]
  }

  lemma FreedSorted(slots: seq<int>, heights: seq<int>, flags: seq<int>, top: int, sid: int)
    requires Sorted(slots, heights, flags, top) && 0 <= sid < MAX_SHEETS && heights[sid] < 0
    ensures Sorted(slots, heights, flags[sid := 0], top)
  {
  }

  lemma LoweredSorted(slots: seq<int>, heights: seq<int>, flags: seq<int>, top: int, sid: int, now: int,
      slots2: seq<int>, heights2: seq<int>)
    requires Sorted(slots, heights, flags, top) && 0 <= sid < MAX_SHEETS && flags[sid] == SHEET_USE
    requires 0 <= now < heights[sid]
    requires |slots2| == |heights2| == MAX_SHEETS
    requires forall k {:trigger slots2[k]} :: 0 <= k < MAX_SHEETS ==>
      slots2[k] == if k == now then sid else if now < k <= heights[sid] then slots[k - 1] else slots[k]
    requires forall i {:trigger heights2[i]} :: 0 <= i < MAX_SHEETS ==>
      heights2[i] == if i == sid then now
        else if now <= heights[i] < heights[sid] && slots[heights[i]] == i then heights[i] + 1 else heights[i]
    ensures Sorted(slots2, heights2, flags, top) && OthersKept(flags, heights, heights2)
  {
  }

  lemma ConcealedSorted(slots: seq<int>, heights: seq<int>, flags: seq<int>, top: int, sid: int, slots2: seq<int>,
      heights2: seq<int>)
    requires Sorted(slots, heights, flags, top) && 0 <= sid < MAX_SHEETS && flags[sid] == SHEET_USE && 0 <= heights[sid]
    requires |slots2| == |heights2| == MAX_SHEETS
    requires forall k {:trigger slots2[k]} :: 0 <= k < MAX_SHEETS ==>
      slots2[k] == if heights[sid] <= k < top then slots[k + 1] else slots[k]
    requires forall i {:trigger heights2[i]} :: 0 <= i < MAX_SHEETS ==>
      heights2[i] == if i == sid then -1
        else if heights[sid] < heights[i] <= top && slots[heights[i]] == i then heights[i] - 1 else heights[i]
    ensures Sorted(slots2, heights2, flags, top - 1) && OthersKept(flags, heights, heights2)
  {
  }

  lemma RaisedSorted(slots: seq<int>, heights: seq<int>, flags: seq<int>, top: int, sid: int, now: int,
      slots2: seq<int>, heights2: seq<int>)
    requires Sorted(slots, heights, flags, top) && 0 <= sid < MAX_SHEETS && flags[sid] == SHEET_USE
    requires 0 <= heights[sid] < now <= top
    requires |slots2| == |heights2| == MAX_SHEETS
    requires forall k {:trigger slots2[k]} :: 0 <= k < MAX_SHEETS ==>
      slots2[k] == if k == now then sid else if heights[sid] <= k < now then slots[k + 1] else slots[k]
    requires forall i {:trigger heights2[i]} :: 0 <= i < MAX_SHEETS ==>
      heights2[i] == if i == sid then now
        else if heights[sid] < heights[i] <= now && slots[heights[i]] == i then heights[i] - 1 else heights[i]
    ensures Sorted(slots2, heights2, flags, top) && OthersKept(flags, heights, heights2)
  {
  }

  lemma ShownSorted(slots: seq<int>, heights: seq<int>, flags: seq<int>, top: int, sid: int, now: int,
      slots2: seq<int>, heights2: seq<int>)
    requires Sorted(slots, heights, flags, top) && 0 <= sid < MAX_SHEETS && flags[sid] == SHEET_USE
    requires heights[sid] < 0 <= now <= top + 1 < MAX_SHEETS
    requires |slots2| == |heights2| == MAX_SHEETS
    requires forall k {:trigger slots2[k]} :: 0 <= k < MAX_SHEETS ==>
      slots2[k] == if k == now then sid else if now < k <= top + 1 then slots[k - 1] else slots[k]
    requires forall i {:trigger heights2[i]} :: 0 <= i < MAX_SHEETS ==>
      heights2[i] == if i == sid then now
        else if now <= heights[i] < top + 1 && slots[heights[i]] == i then heights[i] + 1 else heights[i]
    ensures Sorted(slots2, heights2, flags, top + 1) && OthersKept(flags, heights, heights2)
  {
  }

  /** What the source's struct SHEET says about pixels. */
  datatype Sheet = Sheet(buf: array<u32>, bxsize: int, bysize: int, vx0: int, vy0: int, colInv: u32) {

    /** The buffer holds every pixel of the sheet. */
    ghost predicate Fits() {
      0 <= bxsize && 0 <= bysize && bxsize * bysize <= buf.Length
    }
  }

  /** What the kernel may ask of the compositor.  A refresh comes with the pixels its owner has put
      into the buffer before; the full refresh with what the taskbar makes of the desktop's pixels. */
  datatype Command =
    | Alloc
    | SetBuf(sid: int, buf: array<u32>, xsize: int, ysize: int, colInv: u32)
    | Updown(sid: int, want: int)
    | Slide(sid: int, vx0: int, vy0: int)
    | Free(sid: int)
    | Refresh(sid: int, pixels: seq<u32>, bx0: int, by0: int, bx1: int, by1: int, shadows: seq<int>)
    | RefreshAll(hook: seq<u32> -> seq<u32>)

  /** The state of the controller as a value: the visible sids, bottom first, the pool with its flags,
      and the pixels of every buffer. */
  datatype Pool = Pool(order: seq<int>, flags: seq<int>, sheets: seq<Sheet>, mem: map<array<u32>, seq<u32>>) {
    predicate Ok() {
      && |flags| == |sheets| == MAX_SHEETS
      && (forall i :: 0 <= i < |order| ==> 0 <= order[i] < MAX_SHEETS)
      && (forall i :: 0 <= i < MAX_SHEETS ==> sheets[i].buf in mem)
    }

    predicate InUse(sid: int) {
      0 <= sid < |flags| && flags[sid] == SHEET_USE
    }

    /** The pixels in a sheet's buffer. */
    function Pixels(sid: int): seq<u32>
      requires Ok() && 0 <= sid < MAX_SHEETS
    {
      mem[sheets[sid].buf]
    }

    /** What a sheet would paint. */
    function Face(sid: int): Layer
      requires Ok() && 0 <= sid < MAX_SHEETS
    {
      var s := sheets[sid];
      Layer(sid, s.vx0, s.vy0, s.bxsize, s.bysize, s.colInv, Pixels(sid))
    }
  }

  /** The stack a screen should show. */
  function StackOf(p: Pool): (st: Stack)
    requires p.Ok()
    ensures |st| == |p.order| && forall h :: 0 <= h < |st| ==> st[h] == p.Face(p.order[h])
  {
    seq(|p.order|, h requires 0 <= h < |p.order| => p.Face(p.order[h]))
  }

  lemma StackAt(p: Pool, h: nat)
    requires p.Ok() && h < |p.order|
    ensures |StackOf(p)| == |p.order| && StackOf(p)[h] == p.Face(p.order[h])
  {
  }

  /** The first free entry from i on; |flags| when there is none. */
  function FreeSlot(flags: seq<int>, i: nat): (k: nat)
    requires i <= |flags|
    ensures i <= k <= |flags| && (k < |flags| ==> flags[k] == 0) && forall j :: i <= j < k ==> flags[j] != 0
    decreases |flags| - i
  {
    if i == |flags| || flags[i] == 0 then i else FreeSlot(flags, i + 1)
  }

  /** A height asked for, cut to what the order has room for. */
  function Within(want: int, top: int): (h: int)
    requires -1 <= top
    ensures -1 <= h <= top + 1
  {
    if want > top + 1 then top + 1 else if want < -1 then -1 else want
  }

  lemma WithinIs(want: int, top: int)
    requires -1 <= top
    ensures Within(want, top) == if want > top + 1 then top + 1 else if want < -1 then -1 else want
  {
  }

  lemma RedoHeights(was: int, now: int)
    requires -1 <= was && -1 <= now
    ensures was > now >= 0 ==> RedoLow(was, now) == now + 1 && RedoHigh(was, now) == was + 1
    ensures was > now == -1 ==> RedoLow(was, now) == 0 && RedoHigh(was, now) == was
    ensures was < now ==> RedoLow(was, now) == now && RedoHigh(was, now) == now + 1
  {
  }

  /** The order with a sheet taken out and put back at a height asked for, cut to the room there is. */
  function Raised(order: seq<int>, sid: int, want: int): (r: seq<int>)
    requires sid in order ==> want < |order|
    requires 0 <= sid < MAX_SHEETS && forall i :: 0 <= i < |order| ==> 0 <= order[i] < MAX_SHEETS
    ensures forall i :: 0 <= i < |r| ==> 0 <= r[i] < MAX_SHEETS
  {
    var was, now := IndexOf(order, sid), Within(want, |order| - 1);
    RestackInRange(order, sid, was, now);
    Restack(order, sid, was, now)
  }

  lemma RestackInRange(order: seq<int>, sid: int, was: int, now: int)
    requires -1 <= was < |order| && -1 <= now <= |Without(order, was)| && 0 <= sid < MAX_SHEETS
    requires forall i :: 0 <= i < |order| ==> 0 <= order[i] < MAX_SHEETS
    ensures forall i :: 0 <= i < |Restack(order, sid, was, now)| ==> 0 <= Restack(order, sid, was, now)[i] < MAX_SHEETS
  {
    hide Restack, Without;
    forall i | 0 <= i < |Restack(order, sid, was, now)| ensures 0 <= Restack(order, sid, was, now)[i] < MAX_SHEETS {
      RestackedFrom(order, sid, was, now, i);
    }
  }

  /** Raising moves one sheet, to the height asked for as far as there is room; the others keep
      their order. */
  lemma RaisedPlaces(order: seq<int>, sid: int, want: int)
    requires sid in order ==> want < |order|
    requires 0 <= sid < MAX_SHEETS && forall i :: 0 <= i < |order| ==> 0 <= order[i] < MAX_SHEETS
    requires forall i, j :: 0 <= i < j < |order| ==> order[i] != order[j]
    ensures Remove(Raised(order, sid, want), sid) == Remove(order, sid)
    ensures IndexOf(Raised(order, sid, want), sid) == if want > |order| then |order| else if want < 0 then -1 else want
  {
    hide Without, Insert, IndexOf, Remove;
    IndexInOrder(order, sid);
    RaisedIsRestack(order, sid, want);
    RemoveLeavesNone(order, sid);
    var rest, now := Remove(order, sid), Within(want, |order| - 1);
    assert rest == Without(order, IndexOf(order, sid)) by { RemoveIs(order, sid); }
    if now < 0 {
      IndexInOrder(rest, sid);
      RemoveIs(rest, sid);
      WithoutNone(rest);
    } else {
      RemoveInserted(rest, sid, now);
    }
  }

  /** The state a command leaves.  Nothing happens when the sheet is not in use, when a visible
      sheet is to get a new buffer, or when one is to go above the top. */
  function After(p: Pool, cmd: Command): (p2: Pool)
    requires p.Ok()
    ensures p2.Ok()
  {
    match cmd
    case Alloc =>
      var i := FreeSlot(p.flags, 0);
      if i < |p.flags| then p.(flags := p.flags[i := SHEET_USE]) else p
    case SetBuf(sid, buf, w, h, key) =>
      if p.InUse(sid) && sid !in p.order && buf in p.mem && 0 <= w && 0 <= h && w * h <= |p.mem[buf]| then
        p.(sheets := p.sheets[sid := p.sheets[sid].(buf := buf, bxsize := w, bysize := h, colInv := key)])
      else p
    case Updown(sid, want) =>
      if p.InUse(sid) && (sid in p.order ==> want < |p.order|) then p.(order := Raised(p.order, sid, want)) else p
    case Slide(sid, x, y) =>
      if p.InUse(sid) then p.(sheets := p.sheets[sid := p.sheets[sid].(vx0 := x, vy0 := y)]) else p
    case Free(sid) =>
      if p.InUse(sid) then p.(order := Raised(p.order, sid, -1), flags := p.flags[sid := 0]) else p
    case Refresh(sid, pixels, _, _, _, _, _) =>
      if p.InUse(sid) && |pixels| == |p.Pixels(sid)| then p.(mem := p.mem[p.sheets[sid].buf := pixels]) else p
    case RefreshAll(hook) =>
      if p.order == [] then p
      else
        var s := p.sheets[p.order[0]];
        p.(mem := p.mem[s.buf := hook(DesktopPixels(p.mem[s.buf], s.bxsize, s.bysize))])
  }

  lemma AfterEdit(p: Pool, sid: int, pixels: seq<u32>, bx0: int, by0: int, bx1: int, by1: int, shadows: seq<int>)
    requires p.Ok() && p.InUse(sid) && |pixels| == |p.Pixels(sid)|
    ensures After(p, Command.Refresh(sid, pixels, bx0, by0, bx1, by1, shadows))
      == p.(mem := p.mem[p.sheets[sid].buf := pixels])
  {
  }

  /** Command by command: which sheet it is for, what becomes of it, and that no other sheet is touched,
      only a buffer that several sheets share. */
  lemma CommandDoes(p: Pool, cmd: Command, i: nat)
    requires p.Ok() && i < MAX_SHEETS && forall j, k :: 0 <= j < k < |p.order| ==> p.order[j] != p.order[k]
    ensures var p2 := After(p, cmd);
      match cmd
      case Alloc =>
        p2 == p.(flags := p2.flags) &&
        p2.flags[i] == if p.flags[i] == 0 && (forall k :: 0 <= k < i ==> p.flags[k] != 0) then 1 else p.flags[i]
      case SetBuf(sid, buf, w, h, key) =>
        p2 == p.(sheets := p2.sheets) && (i != sid ==> p2.sheets[i] == p.sheets[i]) &&
        (i == sid && p.flags[i] == 1 && i !in p.order && buf in p.mem && 0 <= w && 0 <= h && w * h <= |p.mem[buf]| ==>
           p2.sheets[i] == Sheet(buf, w, h, p.sheets[i].vx0, p.sheets[i].vy0, key))
      case Updown(sid, want) =>
        p2 == p.(order := p2.order) && Remove(p2.order, sid) == Remove(p.order, sid)
      case Slide(sid, x, y) =>
        p2 == p.(sheets := p2.sheets) &&
        p2.sheets[i] == if i == sid && p.flags[i] == 1 then p.sheets[i].(vx0 := x, vy0 := y) else p.sheets[i]
      case Free(sid) =>
        p2 == p.(order := p2.order, flags := p2.flags) && Remove(p2.order, sid) == Remove(p.order, sid) &&
        (p.InUse(sid) ==> sid !in p2.order && p2.flags[i] == if i == sid then 0 else p.flags[i])
      case Refresh(sid, pixels, _, _, _, _, _) =>
        p2 == p.(mem := p2.mem) && (i != sid && p.InUse(sid) && p.sheets[i].buf != p.sheets[sid].buf ==>
          p2.Pixels(i) == p.Pixels(i)) &&
        (i == sid && p.flags[i] == 1 && |pixels| == |p.Pixels(i)| ==> p2.Pixels(i) == pixels)
      case RefreshAll(hook) =>
        p2 == p.(mem := p2.mem) && (p.order != [] && p.sheets[i].buf != p.sheets[p.order[0]].buf ==>
          p2.Pixels(i) == p.Pixels(i))
  {
    hide Raised, Remove, IndexOf;
    match cmd
    case Updown(sid, want) =>
      if p.InUse(sid) && (sid in p.order ==> want < |p.order|) { RaisedPlaces(p.order, sid, want); }
    case Free(sid) =>
      if p.InUse(sid) {
        RaisedPlaces(p.order, sid, -1);
        IndexInOrder(Raised(p.order, sid, -1), sid);
      }
    case _ =>
  }

  /** What a caller of sheet_refresh answers for: the shadowed sheets it names are in use, no other
      visible sheet has that buffer, and if the sheet shows, pixels have changed only in the part to be
      redrawn and what counted as content still does. */
  ghost predicate Proper(p: Pool, cmd: Command)
    requires p.Ok()
  {
    cmd.Refresh? && p.InUse(cmd.sid) && |cmd.pixels| == |p.Pixels(cmd.sid)| ==>
      && (forall k :: 0 <= k < |cmd.shadows| ==> cmd.shadows[k] == -1 || p.InUse(cmd.shadows[k]))
      && NotShared(p, cmd.sid)
      && (cmd.sid in p.order ==>
            var s := p.sheets[cmd.sid];
            EditOk(p.Face(cmd.sid), cmd.pixels,
              Rect(s.vx0 + cmd.bx0, s.vy0 + cmd.by0, s.vx0 + cmd.bx1, s.vy0 + cmd.by1)))
  }

  /** New pixels in a buffer that no other visible sheet has. */
  lemma SceneRedrawn(p: Pool, sid: int, pixels: seq<u32>)
    requires p.Ok() && 0 <= sid < MAX_SHEETS && NotShared(p, sid)
    requires forall i, j :: 0 <= i < j < |p.order| ==> p.order[i] != p.order[j]
    ensures var st, st2, k := StackOf(p), StackOf(p.(mem := p.mem[p.sheets[sid].buf := pixels])), IndexOf(p.order, sid);
      st2 == if k < 0 then st else st[k := st[k].(buf := pixels)]
  {
    hide IndexOf;
    IndexInOrder(p.order, sid);
  }

  ghost predicate NotShared(p: Pool, sid: int)
    requires p.Ok() && 0 <= sid < MAX_SHEETS
  {
    forall h :: 0 <= h < |p.order| && p.order[h] != sid ==> p.sheets[p.order[h]].buf != p.sheets[sid].buf
  }

  lemma AfterRaise(p: Pool, sid: int, want: int)
    requires p.Ok()
    ensures After(p, Updown(sid, want)) == if p.InUse(sid) && (sid in p.order ==> want < |p.order|) then
        p.(order := Restack(p.order, sid, IndexOf(p.order, sid), Within(want, |p.order| - 1)))
      else p
  {
    hide Restack, IndexOf, Within;
    if p.InUse(sid) && (sid in p.order ==> want < |p.order|) { RaisedIsRestack(p.order, sid, want); }
  }

  lemma RaisedIsRestack(order: seq<int>, sid: int, want: int)
    requires sid in order ==> want < |order|
    requires 0 <= sid < MAX_SHEETS && forall i :: 0 <= i < |order| ==> 0 <= order[i] < MAX_SHEETS
    ensures -1 <= IndexOf(order, sid) < |order| && Within(want, |order| - 1) <= |Without(order, IndexOf(order, sid))|
    ensures Raised(order, sid, want) == Restack(order, sid, IndexOf(order, sid), Within(want, |order| - 1))
  {
    hide Restack;
  }

  function AfterAll(p: Pool, commands: seq<Command>): (p2: Pool)
    requires p.Ok()
    ensures p2.Ok()
  {
    if commands == [] then p else After(AfterAll(p, commands[..|commands| - 1]), commands[|commands| - 1])
  }

  /** The pixels outside of which the frame is right after a run that began with `shaded`: a full
      refresh leaves only those under a shadow then, any other command adds those under one after it. */
  ghost function ShadedAlong(p: Pool, commands: seq<Command>, shaded: iset<(int, int)>): iset<(int, int)>
    requires p.Ok()
  {
    if commands == [] then shaded
    else
      var n := |commands| - 1;
      var before, now := AfterAll(p, commands[..n]), ShadedNow(StackOf(AfterAll(p, commands)));
      if commands[n].RefreshAll? && before.order != [] then now else ShadedAlong(p, commands[..n], shaded) + now
  }

  ghost predicate PlainPool(p: Pool) {
    forall b :: b in p.mem ==> Plain(p.mem[b])
  }

  ghost predicate PlainCommand(cmd: Command) {
    && (cmd.Refresh? ==> Plain(cmd.pixels))
    && (cmd.RefreshAll? ==> forall pixels {:trigger cmd.hook(pixels)} :: Plain(pixels) ==> Plain(cmd.hook(pixels)))
  }

  /** As long as no buffer holds a shadow pixel no pixel is ever shaded. */
  lemma {:induction false} PlainRunsCastNoShade(p: Pool, commands: seq<Command>, shaded: iset<(int, int)>)
    requires p.Ok() && PlainPool(p) && forall k :: 0 <= k < |commands| ==> PlainCommand(commands[k])
    ensures PlainPool(AfterAll(p, commands)) && ShadedAlong(p, commands, shaded) <= shaded
  {
    hide Plain, ShadedNow, PlainCommand, PlainPool, After;
    if commands != [] {
      PlainRunsCastNoShade(p, commands[..|commands| - 1], shaded);
      PlainAfter(AfterAll(p, commands[..|commands| - 1]), commands[|commands| - 1]);
      PlainStack(AfterAll(p, commands));
    }
  }

  lemma PlainStack(p: Pool)
    requires p.Ok() && PlainPool(p)
    ensures ShadedNow(StackOf(p)) == iset{}
  {
    hide Plain, ShadedNow;
    PlainCastsNoShade(StackOf(p));
  }

  lemma PlainAfter(p: Pool, cmd: Command)
    requires p.Ok() && PlainPool(p) && PlainCommand(cmd)
    ensures PlainPool(After(p, cmd))
  {
    hide Plain, Raised, DesktopPixels;
    if cmd.RefreshAll? && p.order != [] {
      var s := p.sheets[p.order[0]];
      PlainDesktop(p.mem[s.buf], s.bxsize, s.bysize);
      assert Plain(cmd.hook(DesktopPixels(p.mem[s.buf], s.bxsize, s.bysize)));
    }
  }

  lemma PlainDesktop(before: seq<u32>, bw: int, bh: int)
    requires Plain(before)
    ensures Plain(DesktopPixels(before, bw, bh))
  {
  }

  /** Two rectangles have a pixel in common, if neither is empty. */
  predicate Meet(r: Rect, q: Rect) {
    r.x0 < q.x1 && q.x0 < r.x1 && r.y0 < q.y1 && q.y0 < r.y1
  }

  /** What is redrawn of shadowed sheet g after part r of sheet sid: all of g, if it shows and its rectangle meets r. */
  function LinkedOne(sid: int, r: Rect, g: int, heights: seq<int>, sheets: seq<Sheet>): seq<Redrawn>
    requires |heights| == |sheets| && (g == -1 || 0 <= g < |sheets|)
  {
    if g == -1 || g == sid || heights[g] < 0 then []
    else
      var s := sheets[g];
      var q := Rect(s.vx0, s.vy0, s.vx0 + s.bxsize, s.vy0 + s.bysize);
      if Meet(r, q) then [Redrawn(q, heights[g])] else []
  }

  /** The same of a list of shadowed sheets, one after the other. */
  function Linked(sid: int, r: Rect, shadows: seq<int>, heights: seq<int>, sheets: seq<Sheet>): seq<Redrawn>
    requires |heights| == |sheets| && forall i :: 0 <= i < |shadows| ==> shadows[i] == -1 || 0 <= shadows[i] < |sheets|
  {
    if shadows == [] then []
    else
      var n := |shadows| - 1;
      Linked(sid, r, shadows[..n], heights, sheets) + LinkedOne(sid, r, shadows[n], heights, sheets)
  }

  lemma LinkedNext(sid: int, r: Rect, shadows: seq<int>, si: nat, heights: seq<int>, sheets: seq<Sheet>,
                   first: seq<Redrawn>)
    requires si < |shadows| && |heights| == |sheets|
    requires forall i :: 0 <= i < |shadows| ==> shadows[i] == -1 || 0 <= shadows[i] < |sheets|
    ensures first + Linked(sid, r, shadows[..si], heights, sheets) + LinkedOne(sid, r, shadows[si], heights, sheets)
      == first + Linked(sid, r, shadows[..si + 1], heights, sheets)
  {
    assert shadows[..si + 1][..si] == shadows[..si];
  }

  lemma NoneForNone(sid: int, r: Rect, heights: seq<int>, sheets: seq<Sheet>)
    requires |heights| == |sheets|
    ensures LinkedOne(sid, r, -1, heights, sheets) == []
  {
  }

  lemma CompleteFrom(st: Stack, x: int, y: int, t: nat, l: seq<Redrawn>)
    requires EachOnce(l) && forall j :: 0 <= j < |l| ==> l[j].k < |st| && l[j].k != t && l[j].r == RectOf(st[l[j].k])
    requires forall j :: 0 <= j < |l| && l[j].k < t ==> !Shaded(st[l[j].k], x, y)
    requires forall k :: t < k < |st| && Shaded(st[k], x, y) ==> exists j :: 0 <= j < |l| && l[j].k == k
    ensures Complete(st, x, y, t, |st|, l)
  {
    hide Shaded, Pix;
  }

  lemma ShadedMeets(l: Layer, r: Rect, x: int, y: int)
    requires Shaded(l, x, y) && r.Has(x, y)
    ensures Meet(r, RectOf(l))
  {
    hide Pix;
  }

  /** Each redraw of the list is what one of the shadowed sheets adds. */
  lemma {:induction false} LinkedFrom(sid: int, r: Rect, shadows: seq<int>, heights: seq<int>, sheets: seq<Sheet>,
      j: nat)
    returns (i: nat)
    requires |heights| == |sheets|
    requires forall i :: 0 <= i < |shadows| ==> shadows[i] == -1 || 0 <= shadows[i] < |sheets|
    requires j < |Linked(sid, r, shadows, heights, sheets)|
    ensures i < |shadows| && LinkedOne(sid, r, shadows[i], heights, sheets)
      == [Linked(sid, r, shadows, heights, sheets)[j]]
  {
    var n := |shadows| - 1;
    if j < |Linked(sid, r, shadows[..n], heights, sheets)| {
      i := LinkedFrom(sid, r, shadows[..n], heights, sheets, j);
    } else {
      i := n;
    }
  }

  /** What a shadowed sheet of the list adds is in the list of redraws. */
  lemma {:induction false} LinkedHas(sid: int, r: Rect, shadows: seq<int>, heights: seq<int>, sheets: seq<Sheet>,
      i: nat)
    returns (j: nat)
    requires |heights| == |sheets| && i < |shadows|
    requires forall i :: 0 <= i < |shadows| ==> shadows[i] == -1 || 0 <= shadows[i] < |sheets|
    requires LinkedOne(sid, r, shadows[i], heights, sheets) != []
    ensures j < |Linked(sid, r, shadows, heights, sheets)|
    ensures LinkedOne(sid, r, shadows[i], heights, sheets) == [Linked(sid, r, shadows, heights, sheets)[j]]
  {
    var n := |shadows| - 1;
    if i < n {
      j := LinkedHas(sid, r, shadows[..n], heights, sheets, i);
    } else {
      j := |Linked(sid, r, shadows[..n], heights, sheets)|;
    }
  }

  ghost predicate EachOnce(l: seq<Redrawn>) {
    forall i, j :: 0 <= i < j < |l| ==> l[i].k != l[j].k
  }

  /** No sheet is redrawn twice, if no sheet is listed twice and no two sheets that show have the same height. */
  lemma {:induction false} LinkedOnce(sid: int, r: Rect, shadows: seq<int>, heights: seq<int>, sheets: seq<Sheet>)
    requires |heights| == |sheets|
    requires forall i :: 0 <= i < |shadows| ==> shadows[i] == -1 || 0 <= shadows[i] < |sheets|
    requires forall i, j :: 0 <= i < j < |shadows| && shadows[i] != -1 ==> shadows[i] != shadows[j]
    requires forall i, j :: 0 <= i < j < |shadows| && shadows[i] != -1 && shadows[j] != -1 ==>
      heights[shadows[i]] < 0 || heights[shadows[i]] != heights[shadows[j]]
    ensures EachOnce(Linked(sid, r, shadows, heights, sheets))
  {
    if shadows == [] {
      assert Linked(sid, r, shadows, heights, sheets) == [];
    } else {
      var n := |shadows| - 1;
      var before := Linked(sid, r, shadows[..n], heights, sheets);
      LinkedOnce(sid, r, shadows[..n], heights, sheets);
      forall i | 0 <= i < |before| && LinkedOne(sid, r, shadows[n], heights, sheets) != []
        ensures before[i].k != heights[shadows[n]]
      {
        var m := LinkedFrom(sid, r, shadows[..n], heights, sheets, i);
        assert shadows[..n][m] == shadows[m];
      }
      assert EachOnce(before + LinkedOne(sid, r, shadows[n], heights, sheets));
    }
  }

  /**
   The controller.  The source's pool holds its structs by value, so a sheet is known by its
   index in the pool, its sid; the struct's height and flags are kept in arrays of their own.
   */
  class Ctl {
    const vram: array<u32>
    const owners: array<u8>        // the source calls it map
    const xsize: int
    const ysize: int
    const sheets: array<int>       // sids by height; entries above top are stale
    const sheets0: array<Sheet>
    const height: array<int>
    const flags: array<int>
    var top: int

    /** shtctl_init: no sheet in use, nothing visible. */
    constructor (vram: array<u32>, xsize: int, ysize: int, owners: array<u8>)
      requires 0 <= xsize && 0 <= ysize && vram.Length == owners.Length == xsize * ysize && owners as object != vram
      ensures Valid() && this.vram == vram && this.owners == owners && this.xsize == xsize && this.ysize == ysize
      ensures Faces() == [] && flags[..] == seq(MAX_SHEETS, _ => 0)
      ensures Agree(Faces(), Cache(), iset{}) && World(Own()) && PlainPool(Now(Own()))
      ensures fresh(sheets) && fresh(sheets0) && fresh(height) && fresh(flags)
    {
      this.vram, this.owners, this.xsize, this.ysize := vram, owners, xsize, ysize;
      sheets := new int[MAX_SHEETS];
      height := new int[MAX_SHEETS];
      flags := new int[MAX_SHEETS](_ => 0);
      var none := new u32[0];
      sheets0 := new Sheet[MAX_SHEETS](_ => Sheet(none, 0, 0, 0, 0, 0));
      top := -1;
    }

    // ---------- the state, abstractly ----------

    ghost predicate Shape() {
      && sheets.Length == height.Length == flags.Length == sheets0.Length == MAX_SHEETS
      && sheets != height && sheets != flags && height != flags
      && owners as object != vram && owners as object != sheets0 && vram as object != sheets0
      && owners as object !in {sheets, height, flags} && vram as object !in {sheets, height, flags}
      && sheets0 as object !in {sheets, height, flags}
      && 0 <= xsize && 0 <= ysize
      && owners.Length == xsize * ysize && vram.Length == xsize * ysize
    }

    /** The order and the heights agree. */
    ghost predicate Ordered()
      requires Shape()
      reads `top, sheets, height, flags
    {
      Sorted(sheets[..], height[..], flags[..], top)
    }

    /** Every sheet has its pixels, in a buffer that is neither the map nor the frame. */
    ghost predicate Backed()
      requires Shape()
      reads sheets0
    {
      forall i :: 0 <= i < MAX_SHEETS ==>
        sheets0[i].Fits() && sheets0[i].buf != vram &&
        sheets0[i].buf as object !in {owners as object, sheets, height, flags}
    }

    ghost predicate Valid()
      reads `top, sheets, height, flags, sheets0
    {
      Shape() && -1 <= top < MAX_SHEETS && Ordered() && Backed()
    }

    ghost function Bufs(): set<object>
      reads sheets0
    {
      set i | 0 <= i < sheets0.Length :: sheets0[i].buf as object
    }

    /** What a sheet would paint. */
    ghost function Face(i: int): Layer
      requires 0 <= i < sheets0.Length && i < 0x100
      reads sheets0, Bufs()
    {
      var s := sheets0[i];
      assert s.buf in Bufs();
      Layer(i, s.vx0, s.vy0, s.bxsize, s.bysize, s.colInv, s.buf[..])
    }

    /** The visible sheets, bottom first. */
    ghost function Visible(): seq<int>
      requires -1 <= top < sheets.Length
      reads `top, sheets
    {
      sheets[..top + 1]
    }

    /** Sids as the layers they would paint. */
    ghost function FacesOf(order: seq<int>): (st: Stack)
      requires sheets0.Length == MAX_SHEETS && forall i :: 0 <= i < |order| ==> 0 <= order[i] < MAX_SHEETS
      reads sheets0, Bufs()
      ensures |st| == |order| && forall h :: 0 <= h < |st| ==> st[h] == Face(order[h])
    {
      if order == [] then [] else FacesOf(order[..|order| - 1]) + [Face(order[|order| - 1])]
    }

    /** What the screen should show: the visible sheets as layers, bottom first. */
    ghost function Faces(): (st: Stack)
      requires Valid()
      reads `top, sheets, height, flags, sheets0, Bufs()
      ensures |st| == top + 1 && forall h :: 0 <= h <= top ==> st[h] == Face(sheets[h])
      ensures DistinctSids(st)
    {
      assert forall h :: 0 <= h <= top ==> height[sheets[h]] == h;
      FacesOf(Visible())
    }

    ghost function Cache(): Screen
      reads owners, vram
    {
      Screen(xsize, ysize, owners[..], vram[..])
    }

    /** What every sheet of the pool would paint. */
    ghost function AllFaces(): (st: Stack)
      requires sheets0.Length == MAX_SHEETS
      reads sheets0, Bufs()
      ensures |st| == MAX_SHEETS && forall i :: 0 <= i < MAX_SHEETS ==> st[i] == Face(i)
    {
      FacesOf(seq(MAX_SHEETS, i => i))
    }

    /** The buffers of the pool's sheets. */
    ghost function Own(): set<array<u32>>
      reads sheets0
    {
      set i | 0 <= i < sheets0.Length :: sheets0[i].buf
    }

    /** Enough buffers to speak of: those of the sheets, and perhaps more, but not the frame. */
    ghost predicate World(world: set<array<u32>>)
      reads sheets0
    {
      Own() <= world && vram !in world
    }

    ghost function Memory(world: set<array<u32>>): map<array<u32>, seq<u32>>
      reads world
    {
      map b | b in world :: b[..]
    }

    /** The whole state as a value. */
    ghost function Now(world: set<array<u32>>): (p: Pool)
      requires Valid() && World(world)
      reads `top, sheets, height, flags, sheets0, world
      ensures p.Ok() && p.order == Visible() && p.flags == flags[..] && p.sheets == sheets0[..]
    {
      OwnIn(world);
      OrderInRange();
      Pool(Visible(), flags[..], sheets0[..], Memory(world))
    }

    lemma OwnIn(world: set<array<u32>>)
      requires Shape() && World(world)
      ensures forall i :: 0 <= i < MAX_SHEETS ==> sheets0[i].buf in world
    {
      assert forall i :: 0 <= i < MAX_SHEETS ==> sheets0[i].buf in Own();
    }

    lemma OrderInRange()
      requires Valid()
      ensures forall k :: 0 <= k <= top ==> 0 <= sheets[k] < MAX_SHEETS && flags[sheets[k]] == SHEET_USE
    {
    }

    lemma FacesDistinct()
      requires Valid()
      ensures DistinctSids(Faces())
    {
    }

    lemma FacesDecided()
      requires Valid()
      ensures |Faces()| == |Visible()| && forall h :: 0 <= h < |Faces()| ==>
        0 <= Visible()[h] < MAX_SHEETS && Faces()[h] == AllFaces()[Visible()[h]]
    {
    }

    lemma FacesAreNow(world: set<array<u32>>)
      requires Valid() && World(world)
      ensures Faces() == StackOf(Now(world))
    {
      OwnIn(world);
    }

    /** A sheet in use stands in the order at its height. */
    lemma HeightIs(sid: int)
      requires Valid() && 0 <= sid < MAX_SHEETS && flags[sid] == SHEET_USE
      ensures -1 <= height[sid] <= top && height[sid] == IndexOf(Visible(), sid)
    {
      OrderedAt(sid);
      var k := IndexOf(Visible(), sid);
      if k >= 0 { assert height[sheets[k]] == k; }
    }

    lemma BufsApart()
      requires Shape() && Backed()
      ensures owners !in Bufs() && vram !in Bufs() && sheets !in Bufs() && height !in Bufs() && flags !in Bufs()
    {
    }

    // ---------- the two passes ----------

    /** One row of one layer of sheet_refreshmap: columns bx0..bx1 of buffer row `row`. */
    method RegisterRow(sid: int, ghost l: Layer, row: int, bx0: int, bx1: int)
      requires Shape() && Backed() && 0 <= sid < MAX_SHEETS && l == Face(sid)
      requires 0 <= row < l.h && 0 <= l.y + row < ysize && 0 <= bx0 && bx1 <= l.w
      modifies owners
      ensures LayerRegistered(old(Cache()), Cache(), l, Rect(l.x + bx0, l.y + row, l.x + bx1, l.y + row + 1))
    {
      hide LayerRegistered, Cell;
      var sht := sheets0[sid];
      var vy := sht.vy0 + row;
      ghost var c := Cache();
      NothingInside(c, l, Rect(l.x + bx0, vy, l.x + bx0, vy + 1));
      var col := bx0;
      while col < bx1
        invariant col == bx0 || bx0 <= col <= bx1
        invariant col == bx0 ==> Cache() == c
        invariant LayerRegistered(c, Cache(), l, Rect(l.x + bx0, vy, l.x + col, vy + 1))
      {
        var vx := sht.vx0 + col;
        ghost var c1 := Cache();
        if vx >= 0 && vx < xsize {
          CellInRange(sht.bxsize, sht.bysize, col, row);
          var pcol := sht.buf[Cell(sht.bxsize, col, row)];
          assert pcol == Pix(l, vx, vy) && Covers(l, vx, vy);
          RegisterOne(c1, l, vx, vy);
          if sht.colInv == OPAQUE_KEY || (pcol != sht.colInv && !IsShade(pcol)) {
            owners[Cell(xsize, vx, vy)] := sid;
          }
        } else {
          NothingInside(c1, l, Rect(vx, vy, vx + 1, vy + 1));
        }
        RegisterJoin(c, c1, Cache(), l, Rect(l.x + bx0, vy, l.x + col + 1, vy + 1),
          Rect(l.x + bx0, vy, l.x + col, vy + 1), Rect(vx, vy, vx + 1, vy + 1));
        col := col + 1;
      }
      if bx1 < bx0 {
        NothingInside(c, l, Rect(l.x + bx0, vy, l.x + bx1, vy + 1));
      }
    }

    /** One layer of sheet_refreshmap, over a rectangle already clipped to the screen. */
    method RegisterLayer(sid: int, ghost l: Layer, vx0: int, vy0: int, vx1: int, vy1: int)
      requires Shape() && Backed() && 0 <= sid < MAX_SHEETS && l == Face(sid)
      requires 0 <= vx0 && 0 <= vy0 && vx1 <= xsize && vy1 <= ysize
      modifies owners
      ensures LayerRegistered(old(Cache()), Cache(), l, Rect(vx0, vy0, vx1, vy1))
    {
      hide LayerRegistered;
      var sht := sheets0[sid];
      var bx0, by0 := vx0 - sht.vx0, vy0 - sht.vy0;
      var bx1, by1 := vx1 - sht.vx0, vy1 - sht.vy0;
      if bx0 < 0 { bx0 := 0; }
      if by0 < 0 { by0 := 0; }
      if bx1 > sht.bxsize { bx1 := sht.bxsize; }
      if by1 > sht.bysize { by1 := sht.bysize; }
      ghost var c := Cache();
      NothingInside(c, l, Rect(vx0, vy0, vx1, l.y + by0));
      var row := by0;
      while row < by1
        invariant row == by0 || by0 <= row <= by1
        invariant row == by0 ==> Cache() == c
        invariant LayerRegistered(c, Cache(), l, Rect(vx0, vy0, vx1, l.y + row))
      {
        var vy := sht.vy0 + row;
        ghost var c1 := Cache();
        if vy >= 0 && vy < ysize {
          RegisterRow(sid, l, row, bx0, bx1);
        } else {
          NothingInside(c1, l, Rect(l.x + bx0, vy, l.x + bx1, vy + 1));
        }
        RegisterJoin(c, c1, Cache(), l, Rect(vx0, vy0, vx1, vy + 1), Rect(vx0, vy0, vx1, vy),
          Rect(l.x + bx0, vy, l.x + bx1, vy + 1));
        row := row + 1;
      }
      NothingInside(Cache(), l, Rect(vx0, l.y + row, vx1, vy1));
      RegisterJoin(c, Cache(), Cache(), l, Rect(vx0, vy0, vx1, vy1), Rect(vx0, vy0, vx1, l.y + row),
        Rect(vx0, l.y + row, vx1, vy1));
    }

    /** sheet_refreshmap: recompute the owners inside a rectangle from height h0 upwards. */
    method RefreshMap(vx0: int, vy0: int, vx1: int, vy1: int, h0: int)
      requires Valid() && 0 <= h0 <= top + 1
      modifies owners
      ensures Valid() && Faces() == old(Faces())
      ensures MapRedone(old(Cache()), Cache(), Faces(), Rect(vx0, vy0, vx1, vy1), h0, top + 1)
    {
      hide LayerRegistered, MapRedone, Faces, FacesOf, Face, Backed, AllFaces, Ordered, DistinctSids, MapPass, Visible;
      BufsApart();
      var x0, y0, x1, y1 := vx0, vy0, vx1, vy1;
      if x0 < 0 { x0 := 0; }
      if y0 < 0 { y0 := 0; }
      if x1 > xsize { x1 := xsize; }
      if y1 > ysize { y1 := ysize; }
      ghost var st, c, r := Faces(), Cache(), Rect(x0, y0, x1, y1);
      NothingRedone(c, st, r, h0, h0);
      var h := h0;
      while h <= top
        invariant h0 <= h <= top + 1
        invariant Valid() && Faces() == st
        invariant MapRedone(c, Cache(), st, r, h0, h)
      {
        ghost var c1 := Cache();
        OrderKnown(h);
        assert st[h] == Face(sheets[h]);
        RegisterLayer(sheets[h], st[h], x0, y0, x1, y1);
        MapOneMore(c, c1, Cache(), st, r, h0, h);
        h := h + 1;
      }
      ClippedAlike(c, Cache(), st, r, Rect(vx0, vy0, vx1, vy1), h0, top + 1);
    }

    /** One row of one layer of sheet_refreshsub. */
    method DrawRow(sid: int, ghost l: Layer, h: int, row: int, bx0: int, bx1: int)
      requires Shape() && Backed() && 0 <= sid < MAX_SHEETS && l == Face(sid)
      requires 0 <= row < l.h && 0 <= l.y + row < ysize && 0 <= bx0 && bx1 <= l.w
      modifies vram
      ensures LayerDrawn(old(Cache()), Cache(), l, Rect(l.x + bx0, l.y + row, l.x + bx1, l.y + row + 1),
        height[sid] == h)
    {
      hide LayerDrawn, Cell, Darken;
      var sht := sheets0[sid];
      var vy := sht.vy0 + row;
      ghost var c, own := Cache(), height[sid] == h;
      NothingInside(c, l, Rect(l.x + bx0, vy, l.x + bx0, vy + 1));
      var col := bx0;
      while col < bx1
        invariant col == bx0 || bx0 <= col <= bx1
        invariant col == bx0 ==> Cache() == c
        invariant LayerDrawn(c, Cache(), l, Rect(l.x + bx0, vy, l.x + col, vy + 1), own)
      {
        var vx := sht.vx0 + col;
        ghost var c1 := Cache();
        if vx >= 0 && vx < xsize {
          CellInRange(sht.bxsize, sht.bysize, col, row);
          var pix := sht.buf[Cell(sht.bxsize, col, row)];
          assert pix == Pix(l, vx, vy) && Covers(l, vx, vy);
          DrawOne(c1, l, vx, vy, own);
          var at := Cell(xsize, vx, vy);
          if owners[at] == sid || (h == height[sid] && IsShade(pix)) {
            if IsShade(pix) {
              vram[at] := Darken(vram[at], Depth(pix));
            } else {
              vram[at] := pix;
            }
          }
          assert Cache().frame == c1.frame[at := DrawAt(l, vx, vy, c1.Owner(vx, vy), c1.Pixel(vx, vy), own)];
        } else {
          NothingInside(c1, l, Rect(vx, vy, vx + 1, vy + 1));
        }
        DrawJoin(c, c1, Cache(), l, Rect(l.x + bx0, vy, l.x + col + 1, vy + 1), Rect(l.x + bx0, vy, l.x + col, vy + 1),
          Rect(vx, vy, vx + 1, vy + 1), own);
        col := col + 1;
      }
      if bx1 < bx0 {
        NothingInside(c, l, Rect(l.x + bx0, vy, l.x + bx1, vy + 1));
      }
    }

    /** One layer of sheet_refreshsub, over a rectangle already clipped to the screen. */
    method DrawLayer(sid: int, ghost l: Layer, h: int, vx0: int, vy0: int, vx1: int, vy1: int)
      requires Shape() && Backed() && 0 <= sid < MAX_SHEETS && l == Face(sid)
      requires 0 <= vx0 && 0 <= vy0 && vx1 <= xsize && vy1 <= ysize
      modifies vram
      ensures LayerDrawn(old(Cache()), Cache(), l, Rect(vx0, vy0, vx1, vy1), height[sid] == h)
    {
      hide LayerDrawn;
      var sht := sheets0[sid];
      var bx0, by0 := vx0 - sht.vx0, vy0 - sht.vy0;
      var bx1, by1 := vx1 - sht.vx0, vy1 - sht.vy0;
      if bx0 < 0 { bx0 := 0; }
      if by0 < 0 { by0 := 0; }
      if bx1 > sht.bxsize { bx1 := sht.bxsize; }
      if by1 > sht.bysize { by1 := sht.bysize; }
      ghost var c, own := Cache(), height[sid] == h;
      NothingInside(c, l, Rect(vx0, vy0, vx1, l.y + by0));
      var row := by0;
      while row < by1
        invariant row == by0 || by0 <= row <= by1
        invariant row == by0 ==> Cache() == c
        invariant LayerDrawn(c, Cache(), l, Rect(vx0, vy0, vx1, l.y + row), own)
      {
        var vy := sht.vy0 + row;
        ghost var c1 := Cache();
        if vy >= 0 && vy < ysize {
          DrawRow(sid, l, h, row, bx0, bx1);
        } else {
          NothingInside(c1, l, Rect(l.x + bx0, vy, l.x + bx1, vy + 1));
        }
        DrawJoin(c, c1, Cache(), l, Rect(vx0, vy0, vx1, vy + 1), Rect(vx0, vy0, vx1, vy),
          Rect(l.x + bx0, vy, l.x + bx1, vy + 1), own);
        row := row + 1;
      }
      NothingInside(Cache(), l, Rect(vx0, l.y + row, vx1, vy1));
      DrawJoin(c, Cache(), Cache(), l, Rect(vx0, vy0, vx1, vy1), Rect(vx0, vy0, vx1, l.y + row),
        Rect(vx0, l.y + row, vx1, vy1), own);
    }

    /** sheet_refreshsub: redraw heights h0..h1 (inclusive) inside a rectangle, each sheet where it is the owner. */
    method RefreshSub(vx0: int, vy0: int, vx1: int, vy1: int, h0: int, h1: int)
      requires Valid() && 0 <= h0 <= h1 + 1 <= top + 1
      modifies vram
      ensures Valid() && Faces() == old(Faces())
      ensures FrameRedone(old(Cache()), Cache(), Faces(), Rect(vx0, vy0, vx1, vy1), h0, h1 + 1)
    {
      hide LayerDrawn, FrameRedone, Faces, FacesOf, Face, Backed;
      BufsApart();
      var x0, y0, x1, y1 := vx0, vy0, vx1, vy1;
      if x0 < 0 { x0 := 0; }
      if y0 < 0 { y0 := 0; }
      if x1 > xsize { x1 := xsize; }
      if y1 > ysize { y1 := ysize; }
      ghost var st, c, r := Faces(), Cache(), Rect(x0, y0, x1, y1);
      NothingRedone(c, st, r, h0, h0);
      var h := h0;
      while h <= h1
        invariant h0 <= h <= h1 + 1
        invariant Valid() && Faces() == st
        invariant FrameRedone(c, Cache(), st, r, h0, h)
      {
        ghost var c1 := Cache();
        assert st[h] == Face(sheets[h]);
        DrawLayer(sheets[h], st[h], h, x0, y0, x1, y1);
        FrameOneMore(c, c1, Cache(), st, r, h0, h);
        h := h + 1;
      }
      ClippedAlike(c, Cache(), st, r, Rect(vx0, vy0, vx1, vy1), h0, h1 + 1);
    }

    // ---------- restacking ----------

    /** A sheet that is not visible leaves at least one slot of the order free. */
    lemma RoomForOneMore(sid: int)
      requires Shape() && Ordered() && 0 <= sid < MAX_SHEETS && sid !in Visible()
      ensures top + 1 < MAX_SHEETS
    {
      Pigeonhole(Visible() + [sid], MAX_SHEETS);
    }

    /** Entries to..from-1 move up one place, last first; their sheets are told. */
    method ShiftUp(from: int, to: int)
      requires Shape() && 0 <= to <= from < MAX_SHEETS
      requires forall k :: to <= k < from ==> 0 <= sheets[k] < MAX_SHEETS && height[sheets[k]] == k
      modifies sheets, height
      ensures forall k {:trigger sheets[k]} :: 0 <= k < MAX_SHEETS ==>
        sheets[k] == if to < k <= from then old(sheets[k - 1]) else old(sheets[k])
      ensures forall i {:trigger height[i]} :: 0 <= i < MAX_SHEETS ==>
        height[i] == if to <= old(height[i]) < from && old(sheets[height[i]]) == i then old(height[i]) + 1
          else old(height[i])
    {
      var h := from;
      while h > to
        invariant to <= h <= from
        invariant forall k {:trigger sheets[k]} :: 0 <= k < MAX_SHEETS ==>
          sheets[k] == if h < k <= from then old(sheets[k - 1]) else old(sheets[k])
        invariant forall i {:trigger height[i]} :: 0 <= i < MAX_SHEETS ==>
          height[i] == if h <= old(height[i]) < from && old(sheets[height[i]]) == i then old(height[i]) + 1
            else old(height[i])
      {
        sheets[h] := sheets[h - 1];
        height[sheets[h]] := h;
        h := h - 1;
      }
    }

    /** Entries from+1..to move down one place, first first; their sheets are told. */
    method ShiftDown(from: int, to: int)
      requires Shape() && 0 <= from <= to < MAX_SHEETS
      requires forall k :: from < k <= to ==> 0 <= sheets[k] < MAX_SHEETS && height[sheets[k]] == k
      modifies sheets, height
      ensures forall k {:trigger sheets[k]} :: 0 <= k < MAX_SHEETS ==>
        sheets[k] == if from <= k < to then old(sheets[k + 1]) else old(sheets[k])
      ensures forall i {:trigger height[i]} :: 0 <= i < MAX_SHEETS ==>
        height[i] == if from < old(height[i]) <= to && old(sheets[height[i]]) == i then old(height[i]) - 1
          else old(height[i])
    {
      var h := from;
      while h < to
        invariant from <= h <= to
        invariant forall k {:trigger sheets[k]} :: 0 <= k < MAX_SHEETS ==>
          sheets[k] == if from <= k < h then old(sheets[k + 1]) else old(sheets[k])
        invariant forall i {:trigger height[i]} :: 0 <= i < MAX_SHEETS ==>
          height[i] == if from < old(height[i]) <= h && old(sheets[height[i]]) == i then old(height[i]) - 1
            else old(height[i])
      {
        sheets[h] := sheets[h + 1];
        height[sheets[h]] := h;
        h := h + 1;
      }
    }

    /** Every entry up to top knows its place. */
    lemma Seats()
      requires Shape() && Ordered()
      ensures -1 <= top < MAX_SHEETS
      ensures forall k :: 0 <= k <= top ==> 0 <= sheets[k] < MAX_SHEETS && height[sheets[k]] == k
    {
    }

    // The array shuffles of sheet_updown, with the heights they store, one branch each.

    method LowerTo(sid: int, now: int)
      requires Shape() && Ordered() && 0 <= sid < MAX_SHEETS && flags[sid] == SHEET_USE && 0 <= now < height[sid]
      modifies sheets, height
      ensures Ordered() && height[sid] == now
      ensures forall i :: 0 <= i < MAX_SHEETS && flags[i] != SHEET_USE ==> height[i] == old(height[i])
      ensures forall k {:trigger sheets[k]} :: 0 <= k <= top ==>
        sheets[k] == if k == now then sid else if now < k <= old(height[sid]) then old(sheets[k - 1])
          else old(sheets[k])
    {
      hide Sorted;
      Seats();
      ghost var slots, heights := sheets[..], height[..];
      SeatAt(sid);
      ShiftUp(height[sid], now);
      height[sid] := now;
      sheets[now] := sid;
      LoweredSorted(slots, heights, flags[..], top, sid, now, sheets[..], height[..]);
    }

    method Conceal(sid: int)
      requires Shape() && Ordered() && 0 <= sid < MAX_SHEETS && flags[sid] == SHEET_USE && 0 <= height[sid]
      modifies `top, sheets, height
      ensures Ordered() && height[sid] == -1 && top == old(top) - 1
      ensures forall i :: 0 <= i < MAX_SHEETS && flags[i] != SHEET_USE ==> height[i] == old(height[i])
      ensures forall k {:trigger sheets[k]} :: 0 <= k <= top ==>
        sheets[k] == if old(height[sid]) <= k then old(sheets[k + 1]) else old(sheets[k])
    {
      hide Sorted;
      Seats();
      ghost var slots, heights := sheets[..], height[..];
      SeatAt(sid);
      if top > height[sid] {
        ShiftDown(height[sid], top);
      }
      height[sid] := -1;
      ConcealedSorted(slots, heights, flags[..], top, sid, sheets[..], height[..]);
      top := top - 1;
    }

    method RaiseTo(sid: int, now: int)
      requires Shape() && Ordered() && 0 <= sid < MAX_SHEETS && flags[sid] == SHEET_USE && 0 <= height[sid] < now <= top
      modifies sheets, height
      ensures Ordered() && height[sid] == now
      ensures forall i :: 0 <= i < MAX_SHEETS && flags[i] != SHEET_USE ==> height[i] == old(height[i])
      ensures forall k {:trigger sheets[k]} :: 0 <= k <= top ==>
        sheets[k] == if k == now then sid else if old(height[sid]) <= k < now then old(sheets[k + 1])
          else old(sheets[k])
    {
      hide Sorted;
      Seats();
      ghost var slots, heights := sheets[..], height[..];
      SeatAt(sid);
      ShiftDown(height[sid], now);
      height[sid] := now;
      sheets[now] := sid;
      RaisedSorted(slots, heights, flags[..], top, sid, now, sheets[..], height[..]);
    }

    method ShowAt(sid: int, now: int)
      requires Shape() && Ordered() && 0 <= sid < MAX_SHEETS && flags[sid] == SHEET_USE
      requires height[sid] < 0 <= now <= top + 1
      modifies `top, sheets, height
      ensures Ordered() && height[sid] == now && top == old(top) + 1
      ensures forall i :: 0 <= i < MAX_SHEETS && flags[i] != SHEET_USE ==> height[i] == old(height[i])
      ensures forall k {:trigger sheets[k]} :: 0 <= k <= top ==>
        sheets[k] == if k == now then sid else if now < k then old(sheets[k - 1]) else old(sheets[k])
    {
      hide Sorted;
      Seats();
      ghost var slots, heights := sheets[..], height[..];
      RoomFor(sid);
      ShiftUp(top + 1, now);
      height[sid] := now;
      sheets[now] := sid;
      ShownSorted(slots, heights, flags[..], top, sid, now, sheets[..], height[..]);
      top := top + 1;
    }

    lemma RoomFor(sid: int)
      requires Shape() && Ordered() && 0 <= sid < MAX_SHEETS && height[sid] < 0
      ensures top + 1 < MAX_SHEETS
    {
      RoomForOneMore(sid);
    }

    // ---------- the operations ----------

    lemma FacesRestack(order: seq<int>, sid: int, was: int, now: int)
      requires sheets0.Length == MAX_SHEETS && 0 <= sid < MAX_SHEETS
      requires forall i :: 0 <= i < |order| ==> 0 <= order[i] < MAX_SHEETS
      requires -1 <= was < |order| && -1 <= now <= |Without(order, was)|
      ensures var order2 := Restack(order, sid, was, now);
              && (forall i :: 0 <= i < |order2| ==> 0 <= order2[i] < MAX_SHEETS)
              && FacesOf(order2) == Restack(FacesOf(order), Face(sid), was, now)
    {
      hide Restack, Without;
      var order2 := Restack(order, sid, was, now);
      forall i | 0 <= i < |order2| ensures 0 <= order2[i] < MAX_SHEETS {
        RestackedFrom(order, sid, was, now, i);
      }
      forall i | 0 <= i < |order2| ensures FacesOf(order2)[i] == Restack(FacesOf(order), Face(sid), was, now)[i] {
        RestackedFrom(order, sid, was, now, i);
        RestackedFrom(FacesOf(order), Face(sid), was, now, i);
      }
    }

    lemma FacesAreVisible()
      requires Valid()
      ensures Faces() == FacesOf(Visible()) && forall k :: 0 <= k <= top ==> 0 <= sheets[k] < MAX_SHEETS
    {
    }

    lemma OrderedAt(sid: int)
      requires Shape() && Ordered() && 0 <= sid < MAX_SHEETS && (flags[sid] == SHEET_USE || height[sid] < 0)
      ensures height[sid] <= top && (flags[sid] == SHEET_USE ==> -1 <= height[sid])
      ensures if height[sid] >= 0 then Visible()[height[sid]] == sid else sid !in Visible()
    {
      assert forall k :: 0 <= k <= top ==> height[sheets[k]] == k;
    }

    lemma SeatedAt(sid: int)
      requires Valid() && 0 <= sid < MAX_SHEETS && (flags[sid] == SHEET_USE || height[sid] < 0)
      ensures height[sid] <= top && (flags[sid] == SHEET_USE ==> -1 <= height[sid])
      ensures if height[sid] >= 0 then Faces()[height[sid]] == Face(sid) else forall k :: 0 <= k <= top ==>
        Faces()[k].sid != sid
    {
      OrderedAt(sid);
    }

    /** The four shuffles are one restacking of the order. */
    method Shuffle(sid: int, now: int)
      requires Shape() && Ordered() && 0 <= sid < MAX_SHEETS && flags[sid] == SHEET_USE
      requires -1 <= now <= (if height[sid] < 0 then top + 1 else top) && now != height[sid]
      modifies `top, sheets, height
      ensures Ordered() && height[sid] == now && now <= |Without(old(Visible()), old(height[sid]))|
      ensures forall i :: 0 <= i < MAX_SHEETS && flags[i] != SHEET_USE ==> height[i] == old(height[i])
      ensures Visible() == Restack(old(Visible()), sid, old(height[sid]), now)
    {
      hide Restack, Without, Ordered;
      Seats();
      var was := height[sid];
      ghost var order := Visible();
      OrderedAt(sid);
      if was > now {
        if now >= 0 {
          LowerTo(sid, now);
          LoweredIs(order, was, now, Visible());
        } else {
          Conceal(sid);
          ConcealedIs(order, was, Visible());
        }
      } else {
        if was >= 0 {
          RaiseTo(sid, now);
          RaisedIs(order, was, now, Visible());
        } else {
          ShowAt(sid, now);
          Seats();
          ShownIs(order, sid, now, Visible());
        }
      }
    }

    method Reorder(sid: int, now: int)
      requires Valid() && 0 <= sid < MAX_SHEETS && flags[sid] == SHEET_USE
      requires -1 <= now <= (if height[sid] < 0 then top + 1 else top) && now != height[sid]
      modifies `top, sheets, height
      ensures Valid() && height[sid] == now && now <= |Without(old(Visible()), old(height[sid]))|
      ensures forall i :: 0 <= i < MAX_SHEETS && flags[i] != SHEET_USE ==> height[i] == old(height[i])
      ensures Visible() == Restack(old(Visible()), sid, old(height[sid]), now)
      ensures Restacked(old(Faces()), Faces(), Face(sid), old(height[sid]), now)
    {
      hide Restack, Without, Face, FacesOf, Faces, Backed;
      BufsApart();
      ghost var order, was := Visible(), height[sid];
      FacesAreVisible();
      Shuffle(sid, now);
      FacesAreVisible();
      FacesRestack(order, sid, was, now);
    }

    /** After a restacking: redo the sheet's own rectangle, the map from height lo up, the frame over lo..hi-1. */
    method Redo(sid: int, lo: int, hi: int, ghost st: Stack, ghost was: int)
      requires Valid() && 0 <= sid < MAX_SHEETS && DistinctSids(st)
      requires -1 <= was < |st| && -1 <= height[sid] <= |Without(st, was)| && was != height[sid]
      requires if was >= 0 then st[was] == Face(sid) else forall k :: 0 <= k < |st| ==> st[k].sid != sid
      requires Faces() == Restack(st, Face(sid), was, height[sid])
      requires lo == RedoLow(was, height[sid]) && hi == RedoHigh(was, height[sid])
      modifies owners, vram
      ensures Valid() && Faces() == old(Faces()) && StillRight(st, old(Cache()), Faces(), Cache())
      ensures RestackRedone(old(Cache()), Cache(), Faces(), RectOf(Face(sid)), was, height[sid])
    {
      hide Restack, Without, DistinctSids, MapRedone, FrameRedone, StillRight, Ordered, Backed, FacesOf, Faces,
        RedoneIn;
      var s := sheets0[sid];
      ghost var l, c := Face(sid), Cache();
      RefreshMap(s.vx0, s.vy0, s.vx0 + s.bxsize, s.vy0 + s.bysize, lo);
      ghost var c1 := Cache();
      RefreshSub(s.vx0, s.vy0, s.vx0 + s.bxsize, s.vy0 + s.bysize, lo, hi - 1);
      UpdownKeeps(st, l, was, height[sid], c, c1, Cache());
      BothRedone(Faces(), c, c1, Cache(), RectOf(l), lo, hi);
    }

    /**
     sheet_updown: take a sheet out of the order and put it back at a height (-1 hides it).
     A visible sheet must not be asked above the top: the order would be shifted past its end.
     */
    method Updown(sid: int, want: int)
      requires Valid() && 0 <= sid < MAX_SHEETS && flags[sid] == SHEET_USE
      requires height[sid] >= 0 ==> want <= top
      modifies `top, sheets, height, owners, vram
      ensures Valid() && height[sid] == Within(want, old(top))
      ensures height[sid] == if want > old(top) + 1 then old(top) + 1 else if want < -1 then -1 else want
      ensures forall i :: 0 <= i < MAX_SHEETS && flags[i] != SHEET_USE ==> height[i] == old(height[i])
      ensures -1 <= old(height[sid]) < |old(Visible())| && height[sid] <= |Without(old(Visible()), old(height[sid]))|
      ensures Visible() == Restack(old(Visible()), sid, old(height[sid]), height[sid])
      ensures height[sid] == old(height[sid]) ==> height[..] == old(height[..]) && Cache() == old(Cache())
      ensures StillRight(old(Faces()), old(Cache()), Faces(), Cache()) && AllFaces() == old(AllFaces())
      ensures height[sid] != old(height[sid]) ==>
        RestackRedone(old(Cache()), Cache(), Faces(), RectOf(Face(sid)), old(height[sid]), height[sid])
    {
      hide Restack, Without, MapRedone, FrameRedone, StillRight, Backed, Face, FacesOf, Faces, DistinctSids, AllFaces,
        RestackRedone, RedoLow, RedoHigh, Within;
      BufsApart();
      var now := want;
      if now > top + 1 { now := top + 1; }
      if now < -1 { now := -1; }
      var was := height[sid];
      ghost var order, st, c := Visible(), Faces(), Cache();
      SeatedAt(sid);
      WithinIs(want, top);
      RedoHeights(was, now);
      if was > now {
        Reorder(sid, now);
        if now >= 0 {
          Redo(sid, now + 1, was + 1, st, was);
        } else {
          Redo(sid, 0, was, st, was);
        }
      } else if was < now {
        Reorder(sid, now);
        Redo(sid, now, now + 1, st, was);
      } else {
        RestackInPlace(order, sid, was);
        NothingChanges(st, c);
      }
    }

    lemma OrderIsInjective()
      requires Valid()
      ensures forall i, j :: 0 <= i < j <= top ==> sheets[i] != sheets[j]
      ensures forall i :: 0 <= i <= top ==> 0 <= sheets[i] < MAX_SHEETS && Faces()[i] == Face(sheets[i])
    {
      assert forall k :: 0 <= k <= top ==> height[sheets[k]] == k;
    }

    lemma FacesAfterMove(sid: int, st: Stack, order: seq<int>)
      requires sheets0.Length == MAX_SHEETS && 0 <= sid < MAX_SHEETS && |st| == |order|
      requires forall i :: 0 <= i < |order| ==>
        0 <= order[i] < MAX_SHEETS && (order[i] != sid ==> st[i] == Face(order[i]))
      requires forall i, j :: 0 <= i < j < |order| ==> order[i] != order[j]
      ensures forall k :: 0 <= k < |order| && order[k] == sid ==> FacesOf(order) == st[k := Face(sid)]
      ensures sid !in order ==> FacesOf(order) == st
    {
    }

    /** A plain store to the fields of one sheet, with no refresh. */
    method Store(sid: int, s: Sheet)
      requires Valid() && 0 <= sid < MAX_SHEETS && s.Fits()
      requires s.buf != vram && s.buf as object !in {owners as object, sheets, height, flags}
      modifies sheets0
      ensures Valid() && sheets0[..] == old(sheets0[..])[sid := s]
      ensures forall i :: 0 <= i < MAX_SHEETS && i != sid ==> Face(i) == old(Face(i))
    {
      hide Ordered;
      sheets0[sid] := s;
    }

    method Rewrite(sid: int, s: Sheet)
      requires Valid() && 0 <= sid < MAX_SHEETS && (flags[sid] == SHEET_USE || height[sid] < 0) && s.Fits()
      requires s.buf != vram && s.buf as object !in {owners as object, sheets, height, flags}
      modifies sheets0
      ensures Valid() && sheets0[..] == old(sheets0[..])[sid := s]
      ensures Faces() == if height[sid] >= 0 then old(Faces())[height[sid] := Face(sid)] else old(Faces())
      ensures forall i :: 0 <= i < MAX_SHEETS && i != sid ==> Face(i) == old(Face(i))
    {
      hide Backed, FacesOf, Faces, DistinctSids, Face;
      BufsApart();
      OrderedAt(sid);
      OrderIsInjective();
      ghost var st, order := Faces(), Visible();
      Store(sid, s);
      FacesAfterMove(sid, st, order);
      FacesAreVisible();
    }

    lemma BackedAt(sid: int)
      requires Valid() && 0 <= sid < MAX_SHEETS
      ensures sheets0[sid].Fits() && sheets0[sid].buf != vram
      ensures sheets0[sid].buf as object !in {owners as object, sheets, height, flags}
    {
    }

    lemma FaceIs(sid: int)
      requires Shape() && 0 <= sid < MAX_SHEETS
      ensures var s := sheets0[sid]; Face(sid) == Layer(sid, s.vx0, s.vy0, s.bxsize, s.bysize, s.colInv, s.buf[..])
    {
    }

    lemma RectOfFace(sid: int)
      requires Valid() && 0 <= sid < MAX_SHEETS
      ensures Face(sid).sid == sid
      ensures var s := sheets0[sid]; RectOf(Face(sid)) == Rect(s.vx0, s.vy0, s.vx0 + s.bxsize, s.vy0 + s.bysize)
    {
    }

    /** After a visible sheet has moved: redo the old rectangle and the new one, the map first. */
    method RedoMoved(was: Rect, now: Rect, h: int, ghost st: Stack)
      requires Valid() && 0 <= h <= top && |st| == top + 1 && DistinctSids(st) && Faces() == st[h := Faces()[h]]
      requires Faces()[h].sid == st[h].sid && RectOf(st[h]) == was && RectOf(Faces()[h]) == now
      modifies owners, vram
      ensures Valid() && Faces() == old(Faces()) && StillRight(st, old(Cache()), Faces(), Cache())
      ensures SlidIn(st, h, Faces()[h], old(Cache()), Cache())
    {
      hide MapRedone, FrameRedone, StillRight, FacesOf, Faces, DistinctSids, Ordered, Backed, RectOf, SlidIn;
      ghost var st2, c := Faces(), Cache();
      RefreshMap(was.x0, was.y0, was.x1, was.y1, 0);
      ghost var c1 := Cache();
      RefreshMap(now.x0, now.y0, now.x1, now.y1, h);
      ghost var c2 := Cache();
      RefreshSub(was.x0, was.y0, was.x1, was.y1, 0, h - 1);
      ghost var c3 := Cache();
      RefreshSub(now.x0, now.y0, now.x1, now.y1, h, h);
      SlideKeeps(st, h, st2[h], c, c1, c2, c3, Cache());
      AllSlid(st, h, st2[h], c, c1, c2, c3, Cache());
    }

    /** sheet_slide: move a sheet; if it shows, redo its old and its new rectangle.
      A freed sheet may still be moved.
     */
    method Slide(sid: int, vx0: int, vy0: int)
      requires Valid() && 0 <= sid < MAX_SHEETS && (flags[sid] == SHEET_USE || height[sid] < 0)
      modifies sheets0, owners, vram
      ensures Valid() && sheets0[..] == old(sheets0[..])[sid := old(sheets0[sid]).(vx0 := vx0, vy0 := vy0)]
      ensures Faces() == if height[sid] >= 0 then old(Faces())[height[sid] := Face(sid)] else old(Faces())
      ensures Face(sid) == old(Face(sid)).(x := vx0, y := vy0)
      ensures forall i :: 0 <= i < MAX_SHEETS && i != sid ==> Face(i) == old(Face(i))
      ensures AllFaces() == old(AllFaces())[sid := old(Face(sid)).(x := vx0, y := vy0)]
      ensures StillRight(old(Faces()), old(Cache()), Faces(), Cache())
      ensures height[sid] < 0 ==> Cache() == old(Cache())
      ensures height[sid] >= 0 ==>
        height[sid] < |old(Faces())| && SlidIn(old(Faces()), height[sid], Face(sid), old(Cache()), Cache())
    {
      hide StillRight, Backed, FacesOf, Faces, Face, Ordered, RectOf, DistinctSids, SlidIn;
      BufsApart();
      SeatedAt(sid);
      FacesDistinct();
      RectOfFace(sid);
      var s := sheets0[sid];
      ghost var st, c := Faces(), Cache();
      BackedAt(sid);
      FaceIs(sid);
      Rewrite(sid, s.(vx0 := vx0, vy0 := vy0));
      RectOfFace(sid);
      BufsApart();
      FaceIs(sid);
      if height[sid] >= 0 {
        RedoMoved(Rect(s.vx0, s.vy0, s.vx0 + s.bxsize, s.vy0 + s.bysize),
          Rect(vx0, vy0, vx0 + s.bxsize, vy0 + s.bysize), height[sid], st);
      } else {
        NothingChanges(st, c);
      }
    }

    // ---------- raising a visible sheet above the top ----------

    /** The heights after the loop has come to h: sid was sent above the top before it started, and
        the last step gives the stale entry's sheet the height top. */
    ghost predicate Lifted(slots: seq<int>, heights: seq<int>, was: int, top: int, h: int, now: seq<int>) {
      && |heights| == |now| == |slots| == MAX_SHEETS && 0 <= was <= top < MAX_SHEETS - 1
      && forall i {:trigger now[i]} :: 0 <= i < MAX_SHEETS ==>
           now[i] == if h == top + 1 && i == slots[top + 1] then top
                     else if was < heights[i] <= h && heights[i] <= top && slots[heights[i]] == i then heights[i] - 1
                     else if i == slots[was] then top + 1
                     else heights[i]
    }

    /** The entries when the shift has come to h. */
    ghost predicate ShiftedTo(slots: seq<int>, was: int, h: int, now: seq<int>) {
      && |now| == |slots| == MAX_SHEETS && 0 <= was <= h < MAX_SHEETS
      && forall k {:trigger now[k]} :: 0 <= k < MAX_SHEETS ==> now[k] == if was <= k < h then slots[k + 1] else slots[k]
    }

    lemma ShiftStarts(slots: seq<int>, was: int)
      requires |slots| == MAX_SHEETS && 0 <= was < MAX_SHEETS
      ensures ShiftedTo(slots, was, was, slots)
    {
    }

    lemma ShiftStep(slots: seq<int>, was: int, h: int, now: seq<int>)
      requires ShiftedTo(slots, was, h, now) && h + 1 < MAX_SHEETS
      ensures now[h + 1] == slots[h + 1] && ShiftedTo(slots, was, h + 1, now[h := now[h + 1]])
    {
    }

    lemma ShiftEnds(slots: seq<int>, was: int, h: int, now: seq<int>)
      requires ShiftedTo(slots, was, h, now) && was < h
      ensures now[h := slots[was]] == RaiseLoop(slots, was, h)
    {
      RaiseLoopIs(slots, was, h, now[h := slots[was]]);
    }

    lemma LiftStarts(slots: seq<int>, heights: seq<int>, was: int, top: int)
      requires |slots| == |heights| == MAX_SHEETS && 0 <= was <= top < MAX_SHEETS - 1
      requires 0 <= slots[was] < MAX_SHEETS && heights[slots[was]] == was
      ensures Lifted(slots, heights, was, top, was, heights[slots[was] := top + 1])
    {
    }

    lemma LiftStep(slots: seq<int>, heights: seq<int>, was: int, top: int, h: int, now: seq<int>)
      requires Lifted(slots, heights, was, top, h, now) && was <= h <= top && 0 <= slots[h + 1] < MAX_SHEETS
      requires forall k :: 0 <= k <= top ==> 0 <= slots[k] < MAX_SHEETS && heights[slots[k]] == k
      ensures Lifted(slots, heights, was, top, h + 1, now[slots[h + 1] := h])
    {
      var now2 := now[slots[h + 1] := h];
      forall i {:trigger now2[i]} | 0 <= i < MAX_SHEETS
        ensures now2[i] == if h + 1 == top + 1 && i == slots[top + 1] then top
                           else if was < heights[i] <= h + 1 && heights[i] <= top && slots[heights[i]] == i then
                             heights[i] - 1
                           else if i == slots[was] then top + 1
                           else heights[i]
      {
        assert now[i] == now[i];
      }
    }

    /** The array part of sheet_updown for a visible sheet asked above the top: the shift goes one
        slot too far and reads the stale entry there. */
    method LiftPastTop(sid: int)
      requires Shape() && Ordered() && 0 <= sid < MAX_SHEETS && flags[sid] == SHEET_USE && 0 <= height[sid]
      requires top + 1 < MAX_SHEETS && 0 <= sheets[top + 1] < MAX_SHEETS
      modifies sheets, height
      ensures sheets[..] == RaiseLoop(old(sheets[..]), old(height[sid]), top + 1)
      ensures Lifted(old(sheets[..]), old(height[..]), old(height[sid]), top, top + 1, height[..])
      ensures Ordered() <==> old(sheets[top + 1]) == sid
    {
      hide Ordered, Lifted, RaiseLoop, ShiftedTo;
      SeatAt(sid);
      var now := top + 1;
      var was := height[sid];
      ghost var slots, heights := sheets[..], height[..];
      height[sid] := now;
      LiftStarts(slots, heights, was, top);
      ShiftStarts(slots, was);
      var h := was;
      while h < now
        invariant was <= h <= now
        invariant ShiftedTo(slots, was, h, sheets[..])
        invariant Lifted(slots, heights, was, top, h, height[..])
      {
        ShiftStep(slots, was, h, sheets[..]);
        LiftStep(slots, heights, was, top, h, height[..]);
        sheets[h] := sheets[h + 1];
        height[sheets[h]] := h;
        h := h + 1;
      }
      ShiftEnds(slots, was, now, sheets[..]);
      sheets[now] := sid;
      LiftedOrder(slots, heights, was);
    }

    /**
     sheet_updown asked for more than the top of a visible sheet.  The entry read above the top
     must name a sheet of the pool.  The order does not grow and the map is not recomputed; the
     sheet is drawn at a height that is its own only if it left the order.
     */
    method UpdownPastTop(sid: int, want: int)
      requires Valid() && 0 <= sid < MAX_SHEETS && flags[sid] == SHEET_USE && 0 <= height[sid]
      requires top < want && top + 1 < MAX_SHEETS && 0 <= sheets[top + 1] < MAX_SHEETS
      modifies sheets, height, vram
      ensures Shape() && Backed() && sheets[..] == RaiseLoop(old(sheets[..]), old(height[sid]), top + 1)
      ensures Lifted(old(sheets[..]), old(height[..]), old(height[sid]), top, top + 1, height[..])
      ensures Ordered() <==> old(sheets[top + 1]) == sid
      ensures Face(sid) == old(Face(sid))
      ensures LayerDrawn(old(Cache()), Cache(), Face(sid), RectOf(Face(sid)), old(sheets[top + 1]) != sid)
    {
      hide LayerDrawn, Face, Ordered, Backed;
      BufsApart();
      FaceIs(sid);
      SeatAt(sid);
      var s := sheets0[sid];
      ghost var l := Face(sid);
      LiftPastTop(sid);
      var x0, y0, x1, y1 := s.vx0, s.vy0, s.vx0 + s.bxsize, s.vy0 + s.bysize;
      if x0 < 0 { x0 := 0; }
      if y0 < 0 { y0 := 0; }
      if x1 > xsize { x1 := xsize; }
      if y1 > ysize { y1 := ysize; }
      ghost var c := Cache();
      assert height[sid] == height[..][sid];
      DrawLayer(sheets[top + 1], l, top + 1, x0, y0, x1, y1);
      ClippedLayer(c, Cache(), l, Rect(x0, y0, x1, y1), RectOf(l), height[sid] == top + 1);
    }

    lemma SeatAt(sid: int)
      requires Shape() && Ordered() && 0 <= sid < MAX_SHEETS && flags[sid] == SHEET_USE && 0 <= height[sid]
      ensures height[sid] <= top && sheets[height[sid]] == sid
      ensures forall k :: 0 <= k <= top ==>
        0 <= sheets[k] < MAX_SHEETS && height[sheets[k]] == k && flags[sheets[k]] == SHEET_USE
      ensures forall i :: 0 <= i < MAX_SHEETS && flags[i] == SHEET_USE ==>
        -1 <= height[i] <= top && (height[i] >= 0 ==> sheets[height[i]] == i)
    {
    }

    /** The order is in order again exactly when the stale entry was the sheet itself. */
    lemma LiftedOrder(slots: seq<int>, heights: seq<int>, was: int)
      requires Shape() && 0 <= was <= top < MAX_SHEETS - 1 && |slots| == |heights| == MAX_SHEETS
      requires forall k :: 0 <= k <= top ==>
        0 <= slots[k] < MAX_SHEETS && heights[slots[k]] == k && flags[slots[k]] == SHEET_USE
      requires forall i :: 0 <= i < MAX_SHEETS && flags[i] == SHEET_USE ==>
        -1 <= heights[i] <= top && (heights[i] >= 0 ==> slots[heights[i]] == i)
      requires sheets[..] == RaiseLoop(slots, was, top + 1) && Lifted(slots, heights, was, top, top + 1, height[..])
      ensures Ordered() <==> slots[top + 1] == slots[was]
    {
      if slots[top + 1] != slots[was] {
        assert height[..][slots[was]] == top + 1;
      } else {
        forall k | 0 <= k <= top
          ensures 0 <= sheets[k] < MAX_SHEETS && height[sheets[k]] == k && flags[sheets[k]] == SHEET_USE
        {
          assert height[..][sheets[k]] == height[sheets[k]];
        }
        forall i | 0 <= i < MAX_SHEETS && flags[i] == SHEET_USE
          ensures -1 <= height[i] <= top && (height[i] >= 0 ==> sheets[height[i]] == i)
        {
          assert height[..][i] == height[i];
        }
      }
    }

    // ---------- the pool ----------

    /** sheet_alloc: the first free slot of the pool, or -1 (the source's null) when it is full. */
    method Alloc() returns (sid: int)
      requires Valid()
      modifies flags, height
      ensures Valid() && Visible() == old(Visible()) && Faces() == old(Faces())
      ensures sid == -1 <==> forall i :: 0 <= i < MAX_SHEETS ==> old(flags[i]) != 0
      ensures sid == -1 ==> flags[..] == old(flags[..]) && height[..] == old(height[..])
      ensures sid != -1 ==> 0 <= sid < MAX_SHEETS && old(flags[sid]) == 0 && forall i :: 0 <= i < sid ==>
        old(flags[i]) != 0
      ensures sid != -1 ==> flags[..] == old(flags[..])[sid := SHEET_USE] && height[..] == old(height[..])[sid := -1]
    {
      hide Faces, FacesOf, Face, Backed;
      BufsApart();
      var i := 0;
      while i < MAX_SHEETS
        invariant 0 <= i <= MAX_SHEETS
        invariant forall k :: 0 <= k < i ==> flags[k] != 0
      {
        if flags[i] == 0 {
          FacesAreVisible();
          flags[i] := SHEET_USE;
          height[i] := -1;
          FacesAreVisible();
          return i;
        }
        i := i + 1;
      }
      return -1;
    }

    /** sheet_setbuf: give a sheet its pixels.  Nothing is redrawn, so on a hidden sheet nothing visible changes. */
    method SetBuf(sid: int, buf: array<u32>, xsize0: int, ysize0: int, colInv: u32)
      requires Valid() && 0 <= sid < MAX_SHEETS && flags[sid] == SHEET_USE
      requires 0 <= xsize0 && 0 <= ysize0 && xsize0 * ysize0 <= buf.Length
      requires buf != vram && buf as object !in {owners as object, sheets, height, flags}
      modifies sheets0
      ensures Valid()
      ensures sheets0[..] == old(sheets0[..])[sid := old(sheets0[sid]).(buf := buf, bxsize := xsize0, bysize := ysize0,
        colInv := colInv)]
      ensures height[sid] < 0 ==> Faces() == old(Faces())
      ensures Face(sid) == old(Face(sid)).(w := xsize0, h := ysize0, key := colInv, buf := buf[..])
      ensures forall i :: 0 <= i < MAX_SHEETS && i != sid ==> Face(i) == old(Face(i))
    {
      Rewrite(sid, sheets0[sid].(buf := buf, bxsize := xsize0, bysize := ysize0, colInv := colInv));
    }

    /** The sheet taken off the screen, if it shows. */
    method TakeDown(sid: int)
      requires Valid() && 0 <= sid < MAX_SHEETS && flags[sid] == SHEET_USE
      modifies `top, sheets, height, owners, vram
      ensures Valid() && height[sid] == -1
      ensures forall i :: 0 <= i < MAX_SHEETS && flags[i] != SHEET_USE ==> height[i] == old(height[i])
      ensures -1 <= old(height[sid]) < |old(Visible())| && Visible() == Without(old(Visible()), old(height[sid]))
      ensures StillRight(old(Faces()), old(Cache()), Faces(), Cache()) && AllFaces() == old(AllFaces())
    {
      hide StillRight, Faces, FacesOf, Face, Backed, Without, AllFaces;
      OrderedAt(sid);
      WithoutNone(Visible());
      NothingChanges(Faces(), Cache());
      if height[sid] >= 0 {
        Updown(sid, -1);
      }
    }

    /** sheet_free: hide the sheet if it shows, then give its slot back. */
    method Free(sid: int)
      requires Valid() && 0 <= sid < MAX_SHEETS && flags[sid] == SHEET_USE
      modifies `top, sheets, height, flags, owners, vram
      ensures Valid() && flags[..] == old(flags[..])[sid := 0] && height[sid] == -1
      ensures forall i :: 0 <= i < MAX_SHEETS && old(flags[i]) != SHEET_USE ==> height[i] == old(height[i])
      ensures -1 <= old(height[sid]) < |old(Visible())| && Visible() == Without(old(Visible()), old(height[sid]))
      ensures StillRight(old(Faces()), old(Cache()), Faces(), Cache()) && AllFaces() == old(AllFaces())
    {
      hide StillRight, Faces, FacesOf, Face, Backed, Without, AllFaces, Sorted;
      BufsApart();
      TakeDown(sid);
      FacesAreVisible();
      FreedSorted(sheets[..], height[..], flags[..], top, sid);
      flags[sid] := 0;
      FacesAreVisible();
    }

    /** The body of sheet_refresh's loop: shadowed sheet gs, redrawn whole if it shows and meets the part redrawn. */
    method RefreshLinked(sid: int, h: int, r: Rect, gs: int, ghost c: Screen, ghost steps: seq<Redrawn>)
      requires Valid() && 0 <= h <= top && (gs == -1 || 0 <= gs < MAX_SHEETS)
      requires gs != -1 ==> flags[gs] == SHEET_USE || height[gs] < 0
      requires Cache().owners == c.owners && StillRight(Faces(), c, Faces(), Cache())
      requires RegionShown(Faces(), Cache(), h, r) && FrameAfter(Faces(), c, Cache(), steps)
      modifies vram
      ensures Valid() && Faces() == old(Faces()) && AllFaces() == old(AllFaces())
      ensures Cache().owners == c.owners && StillRight(Faces(), c, Faces(), Cache())
      ensures RegionShown(Faces(), Cache(), h, r)
      ensures FrameAfter(Faces(), c, Cache(), steps + LinkedOne(sid, r, gs, height[..], sheets0[..]))
    {
      hide StillRight, Faces, FacesOf, Face, Backed, FrameRedone, RegionShown, DistinctSids, AllFaces, FrameAfter;
      ghost var st, c1 := Faces(), Cache();
      assert steps + [] == steps;
      if gs != -1 && gs != sid && height[gs] >= 0 {
        BufsApart();
        OrderedAt(gs);
        var g := sheets0[gs];
        var sx0, sy0 := g.vx0, g.vy0;
        var sx1, sy1 := sx0 + g.bxsize, sy0 + g.bysize;
        if r.x0 < sx1 && r.x1 > sx0 && r.y0 < sy1 && r.y1 > sy0 {
          RefreshSub(sx0, sy0, sx1, sy1, height[gs], height[gs]);
          RedrawOneKeeps(st, c1, Cache(), Rect(sx0, sy0, sx1, sy1), height[gs]);
          OneMoreRedraw(st, c, c1, Cache(), steps, Rect(sx0, sy0, sx1, sy1), height[gs]);
          StillRightChains(st, c, c1, Cache());
          RegionStaysShown(st, c1, Cache(), h, r);
        }
      }
    }

    /**
     sheet_refresh: redraw part of a sheet after its buffer changed, then every shadowed sheet
     (`shadows`, -1 for an empty entry) whose rectangle meets that part.  The map is not touched.
     */
    method Refresh(sid: int, bx0: int, by0: int, bx1: int, by1: int, shadows: seq<int>)
      requires Valid() && 0 <= sid < MAX_SHEETS && flags[sid] == SHEET_USE
      requires forall i :: 0 <= i < |shadows| ==>
        shadows[i] == -1 || (0 <= shadows[i] < MAX_SHEETS && (flags[shadows[i]] == SHEET_USE || height[shadows[i]] < 0))
      modifies vram
      ensures Valid() && Faces() == old(Faces()) && owners[..] == old(owners[..]) && AllFaces() == old(AllFaces())
      ensures StillRight(Faces(), old(Cache()), Faces(), Cache())
      ensures height[sid] >= 0 ==> RegionShown(Faces(), Cache(), height[sid],
        Rect(sheets0[sid].vx0 + bx0, sheets0[sid].vy0 + by0, sheets0[sid].vx0 + bx1, sheets0[sid].vy0 + by1))
      ensures height[sid] < 0 ==> Cache() == old(Cache())
      ensures height[sid] >= 0 ==>
        var s := sheets0[sid];
        var r := Rect(s.vx0 + bx0, s.vy0 + by0, s.vx0 + bx1, s.vy0 + by1);
        FrameAfter(Faces(), old(Cache()), Cache(),
          [Redrawn(r, height[sid])] + Linked(sid, r, shadows, height[..], sheets0[..]))
    {
      hide StillRight, Faces, FacesOf, Face, Backed, FrameRedone, RegionShown, DistinctSids, AllFaces, FrameAfter,
        LinkedOne;
      BufsApart();
      ghost var st, c := Faces(), Cache();
      NothingChanges(st, c);
      OrderedAt(sid);
      var h := height[sid];
      if h >= 0 {
        var s := sheets0[sid];
        var rx0, ry0, rx1, ry1 := s.vx0 + bx0, s.vy0 + by0, s.vx0 + bx1, s.vy0 + by1;
        ghost var r := Rect(rx0, ry0, rx1, ry1);
        RefreshSub(rx0, ry0, rx1, ry1, h, h);
        RedrawOneShows(st, c, Cache(), r, h);
        ghost var first := [Redrawn(r, h)];
        NoRedraw(st, c);
        OneMoreRedraw(st, c, c, Cache(), [], r, h);
        assert [] + first == first && first + [] == first && shadows[..0] == [];
        var si := 0;
        while si < |shadows|
          invariant 0 <= si <= |shadows|
          invariant Valid() && Faces() == st && AllFaces() == old(AllFaces()) && Cache().owners == c.owners
          invariant StillRight(st, c, st, Cache()) && RegionShown(st, Cache(), h, r)
          invariant FrameAfter(st, c, Cache(), first + Linked(sid, r, shadows[..si], height[..], sheets0[..]))
        {
          ghost var steps := first + Linked(sid, r, shadows[..si], height[..], sheets0[..]);
          RefreshLinked(sid, h, Rect(rx0, ry0, rx1, ry1), shadows[si], c, steps);
          LinkedNext(sid, r, shadows, si, height[..], sheets0[..], first);
          si := si + 1;
        }
        assert shadows[..si] == shadows;
      }
    }

    /** What a listed sheet adds is one redraw of the whole of it, at its height. */
    lemma LinkedAt(sid: int, r: Rect, g: int)
      requires Valid() && 0 <= g < MAX_SHEETS && flags[g] == SHEET_USE
      ensures height[g] <= top && (height[g] >= 0 ==> sheets[height[g]] == g)
      ensures var one := LinkedOne(sid, r, g, height[..], sheets0[..]);
        if g == sid || height[g] < 0 then one == []
        else one == if Meet(r, RectOf(Faces()[height[g]])) then [Redrawn(RectOf(Faces()[height[g]]), height[g])] else []
    {
      hide AllFaces, Backed, Ordered, Meet;
      OrderedAt(g);
      RectOfFace(g);
    }

    /**
     When sheet_refresh's redraws are complete at a place of the redrawn part: every sheet above that casts a
     shadow there is in the list, no sheet is in it twice, and no listed sheet below casts one there.
     */
    lemma LinkedComplete(sid: int, r: Rect, shadows: seq<int>, x: int, y: int)
      requires Valid() && 0 <= sid < MAX_SHEETS && flags[sid] == SHEET_USE && height[sid] >= 0 && r.Has(x, y)
      requires forall i :: 0 <= i < |shadows| ==>
        shadows[i] == -1 || (0 <= shadows[i] < MAX_SHEETS && flags[shadows[i]] == SHEET_USE)
      requires forall i, j :: 0 <= i < j < |shadows| && shadows[i] != -1 ==> shadows[i] != shadows[j]
      requires forall k :: height[sid] < k <= top && Shaded(Faces()[k], x, y) ==> sheets[k] in shadows
      requires forall i :: 0 <= i < |shadows| && shadows[i] != -1 && 0 <= height[shadows[i]] < height[sid] ==>
        !Shaded(Faces()[height[shadows[i]]], x, y)
      ensures var l := Linked(sid, r, shadows, height[..], sheets0[..]);
        Complete(Faces(), x, y, height[sid], top + 1, l) && forall i :: 0 <= i < |l| ==> l[i].k != height[sid]
    {
      hide Shaded, Linked, LinkedOne, FacesOf, Backed, AllFaces, Ordered, Depth, Pix, DistinctSids, Face, Meet,
        Rect.Has,
        RectOf;
      var l, st, h := Linked(sid, r, shadows, height[..], sheets0[..]), Faces(), height[sid];
      OrderIsInjective();
      LinkedAt(sid, r, sid);
      forall i | 0 <= i < |shadows| && shadows[i] != -1
        ensures height[shadows[i]] >= 0 ==> height[shadows[i]] <= top && sheets[height[shadows[i]]] == shadows[i]
      {
        LinkedAt(sid, r, shadows[i]);
      }
      LinkedOnce(sid, r, shadows, height[..], sheets0[..]);
      forall j | 0 <= j < |l|
        ensures 0 <= l[j].k <= top && l[j].k != h && l[j].r == RectOf(st[l[j].k])
        ensures l[j].k < h ==> !Shaded(st[l[j].k], x, y)
      {
        var i := LinkedFrom(sid, r, shadows, height[..], sheets0[..], j);
        NoneForNone(sid, r, height[..], sheets0[..]);
        LinkedAt(sid, r, shadows[i]);
      }
      forall k | h < k < top + 1 && Shaded(st[k], x, y) ensures exists j :: 0 <= j < |l| && l[j].k == k {
        var i :| 0 <= i < |shadows| && shadows[i] == sheets[k];
        LinkedAt(sid, r, shadows[i]);
        assert height[sheets[k]] == k by { OrderKnown(k); }
        ShadedMeets(st[k], r, x, y);
        var j := LinkedHas(sid, r, shadows, height[..], sheets0[..], i);
      }
      CompleteFrom(st, x, y, h, l);
    }

    lemma OrderKnown(k: int)
      requires Valid() && 0 <= k <= top
      ensures 0 <= sheets[k] < MAX_SHEETS && height[sheets[k]] == k
    {
    }

    /** A sheet's owner draws into its buffer. */
    method Draw(sid: int, pixels: seq<u32>, ghost world: set<array<u32>>)
      requires Valid() && World(world) && 0 <= sid < MAX_SHEETS && |pixels| == sheets0[sid].buf.Length
      modifies sheets0[sid].buf
      ensures Valid() && World(world) && Cache() == old(Cache())
      ensures Now(world) == old(Now(world)).(mem := old(Now(world)).mem[sheets0[sid].buf := pixels])
    {
      hide Ordered, Backed;
      OwnIn(world);
      BackedAt(sid);
      ghost var mem := Memory(world);
      var buf := sheets0[sid].buf;
      Fill(buf, pixels);
      assert Memory(world) == mem[buf := pixels];
    }

    /** What a proper refresh means for the stack. */
    lemma EditIsProper(sid: int, pixels: seq<u32>, bx0: int, by0: int, bx1: int, by1: int, shadows: seq<int>,
                       world: set<array<u32>>)
      requires Valid() && World(world) && 0 <= sid < MAX_SHEETS && flags[sid] == SHEET_USE
      requires |pixels| == sheets0[sid].buf.Length
      requires Proper(Now(world), Command.Refresh(sid, pixels, bx0, by0, bx1, by1, shadows))
      ensures var p, s, h, st := Now(world), sheets0[sid], height[sid], Faces();
        && s.buf in p.mem && p.(mem := p.mem[s.buf := pixels]).Ok() && -1 <= h < |st|
        && StackOf(p.(mem := p.mem[s.buf := pixels])) == (if h < 0 then st else st[h := st[h].(buf := pixels)])
        && (h >= 0 ==> EditOk(st[h], pixels, Rect(s.vx0 + bx0, s.vy0 + by0, s.vx0 + bx1, s.vy0 + by1)))
      ensures forall i :: 0 <= i < |shadows| ==>
        shadows[i] == -1 || (0 <= shadows[i] < MAX_SHEETS && flags[shadows[i]] == SHEET_USE)
    {
      hide Faces, FacesOf, AllFaces, EditOk, DistinctSids, Backed, StackOf, NotShared, IndexOf;
      OwnIn(world);
      HeightIs(sid);
      OrderIsInjective();
      FacesAreNow(world);
      var p, h := Now(world), height[sid];
      SceneRedrawn(p, sid, pixels);
      IndexInOrder(Visible(), sid);
      if h >= 0 { StackAt(p, h); }
    }

    method Fill(buf: array<u32>, pixels: seq<u32>)
      requires |pixels| == buf.Length
      modifies buf
      ensures buf[..] == pixels
    {
      forall i | 0 <= i < buf.Length { buf[i] := pixels[i]; }
      assert buf[..] == pixels;
    }

    /** A sheet's buffer filled with new pixels, then the part that changed redrawn. */
    method Redraw(sid: int, pixels: seq<u32>, bx0: int, by0: int, bx1: int, by1: int, shadows: seq<int>,
                  ghost world: set<array<u32>>)
      requires Valid() && World(world) && 0 <= sid < MAX_SHEETS && flags[sid] == SHEET_USE
      requires |pixels| == sheets0[sid].buf.Length
      requires Proper(Now(world), Command.Refresh(sid, pixels, bx0, by0, bx1, by1, shadows))
      modifies sheets0[sid].buf, vram
      ensures Valid() && World(world)
      ensures Now(world) == After(old(Now(world)), Command.Refresh(sid, pixels, bx0, by0, bx1, by1, shadows))
      ensures StillRight(old(Faces()), old(Cache()), Faces(), Cache())
    {
      hide StillRight, Backed, Faces, FacesOf, AllFaces, Face, RegionShown, EditOk, DistinctSids, Ordered, StackOf,
        NotShared, IndexOf, Proper, Restack, FrameAfter, Linked, PlainPool, After;
      OwnIn(world);
      HeightIs(sid);
      FacesDistinct();
      ghost var p, st, c := Now(world), Faces(), Cache();
      var s := sheets0[sid];
      AfterEdit(p, sid, pixels, bx0, by0, bx1, by1, shadows);
      EditIsProper(sid, pixels, bx0, by0, bx1, by1, shadows, world);
      Draw(sid, pixels, world);
      FacesAreNow(world);
      Refresh(sid, bx0, by0, bx1, by1, shadows);
      if height[sid] >= 0 {
        SheetRepainted(st, height[sid], pixels, Rect(s.vx0 + bx0, s.vy0 + by0, s.vx0 + bx1, s.vy0 + by1), c, Cache());
      }
    }

    /** The background fill of shtctl_refresh_all. */
    method FillDesktop(bp: array<u32>, bw: nat, bh: nat)
      requires bw * bh <= bp.Length
      modifies bp
      ensures bp[..] == DesktopPixels(old(bp[..]), bw, bh)
    {
      hide Filled, DesktopRow, DesktopPixels;
      NoRows(bp[..], bw, bh);
      var y := 0;
      while y < bh
        invariant 0 <= y <= bh && Filled(old(bp[..]), bp[..], bw, bh, y)
      {
        RowInside(bw, bh, y);
        ghost var was := bp[..];
        FillRow(bp, y * bw, bw, DesktopRow(y, bh));
        OneMoreRow(old(bp[..]), was, bp[..], bw, bh, y);
        y := y + 1;
      }
      AllFilled(old(bp[..]), bp[..], bw, bh);
    }

    method FillRow(bp: array<u32>, base: nat, bw: nat, bg: u32)
      requires base + bw <= bp.Length
      modifies bp
      ensures forall i :: 0 <= i < bp.Length ==> bp[i] == if base <= i < base + bw then bg else old(bp[i])
    {
      var x := 0;
      while x < bw
        invariant 0 <= x <= bw
        invariant forall i :: 0 <= i < bp.Length ==> bp[i] == if base <= i < base + x then bg else old(bp[i])
      {
        bp[base + x] := bg;
        x := x + 1;
      }
    }

    /**
     shtctl_refresh_all: repaint the background sheet's buffer, let the taskbar hook draw on it,
     then recompute every owner and redraw every sheet.  What the caches held does not matter.
     */
    method RefreshAll(hook: seq<u32> -> seq<u32>)
      requires Valid() && top >= 0 && forall s :: |hook(s)| == |s|
      modifies sheets0[sheets[0]].buf, owners, vram
      ensures Valid() && Visible() == old(Visible())
      ensures var s := sheets0[sheets[0]]; s.buf[..] == hook(DesktopPixels(old(s.buf[..]), s.bxsize, s.bysize))
      ensures Painted(Faces(), Cache())
    {
      hide Painted, FacesOf, Faces, Face, DistinctSids, DesktopPixels;
      BufsApart();
      var s := sheets0[sheets[0]];
      FillDesktop(s.buf, s.bxsize, s.bysize);
      var painted := hook(s.buf[..]);
      forall i | 0 <= i < s.buf.Length { s.buf[i] := painted[i]; }
      assert s.buf[..] == painted;
      BufsApart();
      RedoAll();
    }

    /** Both passes over the whole screen. */
    method RedoAll()
      requires Valid() && top >= 0
      modifies owners, vram
      ensures Valid() && Painted(Faces(), Cache())
    {
      hide Painted, MapRedone, FrameRedone, FacesOf, Faces, Face, DistinctSids;
      ghost var c := Cache();
      RefreshMap(0, 0, xsize, ysize, 0);
      ghost var c1 := Cache();
      RefreshSub(0, 0, xsize, ysize, 0, top);
      RefreshAllPaints(Faces(), c, c1, Cache());
    }

    // ---------- whole runs ----------

    /** A buffer handed over is one of those spoken of; the taskbar's painting keeps the size. */
    ghost predicate Fair(cmd: Command, world: set<array<u32>>) {
      (cmd.SetBuf? ==> cmd.buf in world) && (cmd.RefreshAll? ==> forall pixels :: |cmd.hook(pixels)| == |pixels|)
    }

    // One command each, given only when its caller may: for a sheet in use, no new buffer while it
    // shows, no raising past the top.

    method TryAlloc(ghost world: set<array<u32>>)
      requires Valid() && World(world)
      modifies flags, height
      ensures Valid() && World(world) && Now(world) == After(old(Now(world)), Command.Alloc)
      ensures StillRight(old(Faces()), old(Cache()), Faces(), Cache())
    {
      hide StillRight, Faces, FacesOf, Backed, Restack, Without, Face;
      NothingChanges(Faces(), Cache());
      var sid := Alloc();
    }

    method TrySetBuf(sid: int, buf: array<u32>, xs: int, ys: int, colInv: u32, ghost world: set<array<u32>>)
      requires Valid() && World(world) && buf in world
      modifies sheets0
      ensures Valid() && World(world) && Now(world) == After(old(Now(world)), Command.SetBuf(sid, buf, xs, ys, colInv))
      ensures StillRight(old(Faces()), old(Cache()), Faces(), Cache())
    {
      hide StillRight, Faces, FacesOf, Backed, Restack, Without, Face;
      NothingChanges(Faces(), Cache());
      if 0 <= sid < MAX_SHEETS && flags[sid] == SHEET_USE {
        HeightIs(sid);
        if height[sid] < 0 && 0 <= xs && 0 <= ys && xs * ys <= buf.Length {
          SetBuf(sid, buf, xs, ys, colInv);
        }
      }
    }

    method TryUpdown(sid: int, want: int, ghost world: set<array<u32>>)
      requires Valid() && World(world)
      modifies `top, sheets, height, owners, vram
      ensures Valid() && World(world) && Now(world) == After(old(Now(world)), Command.Updown(sid, want))
      ensures StillRight(old(Faces()), old(Cache()), Faces(), Cache())
    {
      hide StillRight, Faces, FacesOf, Backed, Restack, Without, Face, After;
      NothingChanges(Faces(), Cache());
      AfterRaise(Now(world), sid, want);
      if 0 <= sid < MAX_SHEETS && flags[sid] == SHEET_USE {
        HeightIs(sid);
        if height[sid] < 0 || want <= top {
          Updown(sid, want);
        }
      }
    }

    method TrySlide(sid: int, x: int, y: int, ghost world: set<array<u32>>)
      requires Valid() && World(world)
      modifies sheets0, owners, vram
      ensures Valid() && World(world) && Now(world) == After(old(Now(world)), Command.Slide(sid, x, y))
      ensures StillRight(old(Faces()), old(Cache()), Faces(), Cache())
    {
      hide StillRight, Faces, FacesOf, Backed, Restack, Without, Face;
      NothingChanges(Faces(), Cache());
      if 0 <= sid < MAX_SHEETS && flags[sid] == SHEET_USE {
        Slide(sid, x, y);
      }
    }

    method TryFree(sid: int, ghost world: set<array<u32>>)
      requires Valid() && World(world)
      modifies `top, sheets, height, flags, owners, vram
      ensures Valid() && World(world) && Now(world) == After(old(Now(world)), Command.Free(sid))
      ensures StillRight(old(Faces()), old(Cache()), Faces(), Cache())
    {
      hide StillRight, Faces, FacesOf, Backed, Without, Face;
      NothingChanges(Faces(), Cache());
      if 0 <= sid < MAX_SHEETS && flags[sid] == SHEET_USE {
        HeightIs(sid);
        Free(sid);
      }
    }

    /** The owner of a sheet has drawn into its buffer and asks for part of it to be redrawn. */
    method TryRefresh(sid: int, pixels: seq<u32>, bx0: int, by0: int, bx1: int, by1: int, shadows: seq<int>,
                      ghost world: set<array<u32>>)
      requires Valid() && World(world) && Proper(Now(world), Command.Refresh(sid, pixels, bx0, by0, bx1, by1, shadows))
      modifies world, vram
      ensures Valid() && World(world)
      ensures Now(world) == After(old(Now(world)), Command.Refresh(sid, pixels, bx0, by0, bx1, by1, shadows))
      ensures StillRight(old(Faces()), old(Cache()), Faces(), Cache())
    {
      hide StillRight, Faces, FacesOf, Backed, Restack, Without, Face;
      NothingChanges(Faces(), Cache());
      if 0 <= sid < MAX_SHEETS && flags[sid] == SHEET_USE && |pixels| == sheets0[sid].buf.Length {
        Redraw(sid, pixels, bx0, by0, bx1, by1, shadows, world);
      }
    }

    method TryRefreshAll(hook: seq<u32> -> seq<u32>, ghost world: set<array<u32>>)
      requires Valid() && World(world) && forall pixels :: |hook(pixels)| == |pixels|
      modifies world, owners, vram
      ensures Valid() && World(world) && Now(world) == After(old(Now(world)), Command.RefreshAll(hook))
      ensures top == old(top) && Cache().w == old(Cache().w) && Cache().h == old(Cache().h)
      ensures if top >= 0 then Painted(Faces(), Cache()) else Faces() == old(Faces()) && Cache() == old(Cache())
    {
      hide Faces, FacesOf, Backed, Face, Painted, DesktopPixels;
      OwnIn(world);
      OrderInRange();
      if top >= 0 {
        ghost var p, b := Now(world), sheets0[sheets[0]].buf;
        RefreshAll(hook);
        assert Memory(world) == p.mem[b := b[..]];
      }
    }

    /** One command. */
    method Step(cmd: Command, ghost world: set<array<u32>>)
      requires Valid() && World(world) && Fair(cmd, world) && Proper(Now(world), cmd)
      modifies `top, sheets, sheets0, height, flags, owners, vram, world
      ensures Valid() && World(world) && Now(world) == After(old(Now(world)), cmd)
      ensures if cmd.RefreshAll? && old(top) >= 0 then Painted(Faces(), Cache())
              else StillRight(old(Faces()), old(Cache()), Faces(), Cache())
      ensures Cache().w == old(Cache().w) && Cache().h == old(Cache().h)
    {
      hide StillRight, Faces, FacesOf, Backed, Face, After, Now, Ordered, Proper, Painted;
      NothingChanges(Faces(), Cache());
      match cmd
      case Alloc => TryAlloc(world);
      case SetBuf(sid, buf, xs, ys, colInv) => TrySetBuf(sid, buf, xs, ys, colInv, world);
      case Updown(sid, want) => TryUpdown(sid, want, world);
      case Slide(sid, x, y) => TrySlide(sid, x, y, world);
      case Free(sid) => TryFree(sid, world);
      case Refresh(sid, pixels, bx0, by0, bx1, by1, shadows) =>
        TryRefresh(sid, pixels, bx0, by0, bx1, by1, shadows, world);
      case RefreshAll(hook) => TryRefreshAll(hook, world);
    }

    /**
     Any run of commands.  The order, the pool and all pixels come out as the commands say, one
     after the other.  The map is then right everywhere, and the frame at every pixel that no
     shadow lay over after any command since the last full refresh.
     */
    method Run(commands: seq<Command>, ghost world: set<array<u32>>, ghost shaded0: iset<(int, int)>)
      returns (ghost shaded: iset<(int, int)>)
      requires Valid() && World(world) && Agree(Faces(), Cache(), shaded0)
      requires forall k :: 0 <= k < |commands| ==> Fair(commands[k], world)
      requires forall k :: 0 <= k < |commands| ==> Proper(AfterAll(Now(world), commands[..k]), commands[k])
      modifies `top, sheets, sheets0, height, flags, owners, vram, world
      ensures Valid() && World(world) && Now(world) == AfterAll(old(Now(world)), commands)
      ensures Agree(Faces(), Cache(), shaded) && shaded == ShadedAlong(old(Now(world)), commands, shaded0)
      ensures PlainPool(old(Now(world))) && (forall k :: 0 <= k < |commands| ==> PlainCommand(commands[k])) ==>
        shaded <= shaded0
    {
      hide StillRight, Faces, FacesOf, Face, Backed, Agree, After, PlainPool, PlainCommand, ShadedNow, Proper, Fair,
        Ordered, Now, Painted, StackOf, AllFaces, Visible;
      ghost var p := Now(world);
      shaded := shaded0;
      var i := 0;
      assert commands[..0] == [];
      while i < |commands|
        invariant 0 <= i <= |commands|
        invariant Valid() && World(world) && Agree(Faces(), Cache(), shaded)
        invariant Now(world) == AfterAll(p, commands[..i]) && shaded == ShadedAlong(p, commands[..i], shaded0)
      {
        ghost var st, c, q := Faces(), Cache(), Now(world);
        assert commands[..i + 1][..i] == commands[..i];
        OrderIsVisible(world);
        assert Fair(commands[i], world) && Proper(q, commands[i]);
        Step(commands[i], world);
        FacesAreNow(world);
        if commands[i].RefreshAll? && q.order != [] {
          PaintedAgrees(Faces(), Cache());
          shaded := ShadedNow(Faces());
        } else {
          AgreesOn(st, c, Faces(), Cache(), shaded);
          shaded := shaded + ShadedNow(Faces());
        }
        i := i + 1;
      }
      assert commands[..i] == commands;
      if PlainPool(p) && forall k :: 0 <= k < |commands| ==> PlainCommand(commands[k]) {
        PlainRunsCastNoShade(p, commands, shaded0);
      }
    }

    lemma OrderIsVisible(world: set<array<u32>>)
      requires Valid() && World(world)
      ensures Now(world).Ok() && (Now(world).order != [] <==> top >= 0)
    {
    }
  }
}
