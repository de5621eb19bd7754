/**
 The window manager as a state machine over values: the order of the sheets, the taskbar's
 table, the drag and the cursor, and what each event makes of them.
 */
module Desktop {
  import opened Words
  import opened Layers
  import opened Orders
  import opened Screens

  const SHADOW := 16
  const UI_SCALE := 2
  const CUR_H := 16 * UI_SCALE
  const TASKBAR := 40
  const COL_INV: u32 := 0x00FF_00FF
  const MAX_WINS := 4

  /** One taskbar entry. */
  datatype Slot = Slot(sht: int, title: Option<seq<u8>>, min: bool)

  /** -1 stands for the source's null sheet, a negative mmx for "not dragging". */
  datatype View = View(
    back: int, cur: int,       // the desktop's and the cursor's sheets
    order: seq<int>,           // visible sheets, bottom first
    used: set<int>,            // sheets in use
    slots: seq<Slot>,
    login: int, drag: int,
    mx: int, my: int, mmx: int, mmy: int,
    faces: Stack,              // what every sheet of the pool would paint, by sid
    bar: (seq<Slot>, seq<u32>) -> seq<u32>)   // what the taskbar makes of the desktop's buffer

  datatype Event = Mouse(left: bool, dx: int, dy: int) | MinimizeKey(sid: int)

  // ---------- what the sheets would paint ----------

  function FaceOf(v: View, sid: int): Layer {
    if 0 <= sid < |v.faces| then v.faces[sid] else Layer(0, 0, 0, 0, 0, 0, [])
  }

  /** The layers on the screen, bottom first. */
  function Scene(v: View): (st: Stack)
    ensures |st| == |v.order| && forall k :: 0 <= k < |st| ==> st[k] == FaceOf(v, v.order[k])
  {
    seq(|v.order|, k requires 0 <= k < |v.order| => FaceOf(v, v.order[k]))
  }

  function WithFace(v: View, sid: int, l: Layer): View {
    v.(faces := if 0 <= sid < |v.faces| then v.faces[sid := l] else v.faces)
  }

  /** taskbar_draw: the buttons painted into the desktop's buffer. */
  function BarDrawn(v: View): View {
    var l := FaceOf(v, v.back);
    WithFace(v, v.back, l.(buf := v.bar(v.slots, l.buf)))
  }

  /** shtctl_refresh_all: the desktop filled anew, then the buttons. */
  function Refilled(v: View): View {
    var l := FaceOf(v, v.back);
    WithFace(v, v.back, l.(buf := v.bar(v.slots, DesktopPixels(l.buf, l.w, l.h))))
  }

  function Shifted(v: View, sid: int, dx: int, dy: int): View {
    var l := FaceOf(v, sid);
    WithFace(v, sid, l.(x := l.x + dx, y := l.y + dy))
  }

  function Placed(v: View, sid: int, x: int, y: int): View {
    WithFace(v, sid, FaceOf(v, sid).(x := x, y := y))
  }

  /** Every sheet in use has a face under its number. */
  ghost predicate Known(v: View) {
    forall s :: s in v.used ==> 0 <= s < |v.faces| && v.faces[s].sid == s
  }

  /** Directly below the last one. */
  function BelowLast(order: seq<int>, sid: int): seq<int>
    requires Remove(order, sid) != []
  {
    Insert(Remove(order, sid), sid, |Remove(order, sid)| - 1)
  }

  lemma RemoveShortens(order: seq<int>, sid: int)
    ensures |Remove(order, sid)| == |Without(order, IndexOf(order, sid))|
    ensures |Remove(order, sid)| == if sid in order then |order| - 1 else |order|
  {
    hide Without;
    WithoutLength(order, IndexOf(order, sid));
  }

  /** Putting an element directly below the last one is a restacking of the order. */
  lemma RestackBelow(order: seq<int>, sid: int)
    requires |order| >= 2
    ensures |Remove(order, sid)| == |Without(order, IndexOf(order, sid))|
    ensures |Remove(order, sid)| == if sid in order then |order| - 1 else |order|
    ensures Restack(order, sid, IndexOf(order, sid), |Remove(order, sid)| - 1) == BelowLast(order, sid)
    ensures sid in order && IndexOf(order, sid) == |order| - 2 ==> BelowLast(order, sid) == order
  {
    hide Insert, Without, Restack, BelowLast, IndexOf, Remove;
    IndexInOrder(order, sid);
    RemoveShortens(order, sid);
    BelowLastRestacks(order, sid, IndexOf(order, sid));
    if sid in order { RestackInPlace(order, sid, IndexOf(order, sid)); }
  }

  lemma BelowLastRestacks(order: seq<int>, sid: int, was: int)
    requires was == IndexOf(order, sid) && |Without(order, was)| > 0
    ensures Restack(order, sid, was, |Remove(order, sid)| - 1) == BelowLast(order, sid)
  {
    hide Insert, IndexOf, Without;
  }

  // ---------- where on a window a click falls (x, y inside its buffer, w the buffer's width) ----------

  predicate InClose(x: int, y: int, w: int) {
    w - SHADOW - 21 * UI_SCALE <= x < w - SHADOW - 5 * UI_SCALE && 5 * UI_SCALE + SHADOW <= y < 19 * UI_SCALE + SHADOW
  }

  predicate InMin(x: int, y: int, w: int) {
    w - SHADOW - 37 * UI_SCALE <= x < w - SHADOW - 21 * UI_SCALE && 5 * UI_SCALE + SHADOW <= y < 19 * UI_SCALE + SHADOW
  }

  predicate InTitle(x: int, y: int, w: int) {
    3 * UI_SCALE <= x < w - 3 * UI_SCALE && 3 * UI_SCALE + SHADOW <= y < 21 * UI_SCALE + SHADOW
  }

  /** A click at screen position (x, y) lands on this layer. */
  predicate Hit(l: Layer, x: int, y: int) {
    Covers(l, x, y) && Pix(l, x, y) != COL_INV
  }

  /** The highest layer at height 1..n that a click lands on, leaving out `skip`; 0 if none. */
  function TopHit(st: Stack, skip: int, x: int, y: int, n: nat): (j: nat)
    requires n < |st|
    ensures j <= n
    ensures j > 0 ==> st[j].sid != skip && Hit(st[j], x, y)
    ensures forall k :: j < k <= n ==> st[k].sid == skip || !Hit(st[k], x, y)
  {
    if n == 0 then 0
    else if st[n].sid != skip && Hit(st[n], x, y) then n
    else TopHit(st, skip, x, y, n - 1)
  }

  /** Button k is there and x lies on it. */
  predicate OnButton(slots: seq<Slot>, k: nat, x: int)
    requires k < |slots|
  {
    8 + k * 148 <= x < 8 + k * 148 + 140 && slots[k].title.Some?
  }

  /** The taskbar button at x, from the i-th on: the first titled slot whose 140 pixels hold x, or -1. */
  function ButtonAt(slots: seq<Slot>, x: int, i: nat): (b: int)
    requires i <= |slots|
    ensures b == -1 || (i <= b < |slots| && OnButton(slots, b, x))
    ensures forall k :: i <= k < (if b == -1 then |slots| else b) ==> !OnButton(slots, k, x)
    decreases |slots| - i
  {
    if i == |slots| then -1 else if OnButton(slots, i, x) then i else ButtonAt(slots, x, i + 1)
  }

  /** The first slot of a sheet, or -1. */
  function SlotOf(slots: seq<Slot>, sid: int, i: nat): (b: int)
    requires i <= |slots|
    ensures b == -1 || (i <= b < |slots| && slots[b].sht == sid)
    ensures forall k :: i <= k < (if b == -1 then |slots| else b) ==> slots[k].sht != sid
    decreases |slots| - i
  {
    if i == |slots| then -1 else if slots[i].sht == sid then i else SlotOf(slots, sid, i + 1)
  }

  // ---------- what must always hold ----------

  /** A sheet some variable may point to: neither desktop nor cursor, and visible only if in use. */
  ghost predicate Window(v: View, sid: int) {
    sid != v.back && sid != v.cur && (sid in v.used || sid !in v.order)
  }

  /** Desktop at the bottom, cursor on top, no sheet twice, only sheets in use. */
  ghost predicate Framed(v: View) {
    && |v.order| >= 2 && v.order[0] == v.back && v.order[|v.order| - 1] == v.cur
    && (forall k :: 0 <= k < |v.order| ==> v.order[k] in v.used)
    && (forall j, k :: 0 <= j < k < |v.order| ==> v.order[j] != v.order[k])
  }

  /** Each slot has a window of its own, in use, and is marked minimized exactly when that window is hidden. */
  ghost predicate TableOk(v: View) {
    && (forall i :: 0 <= i < |v.slots| ==>
          var s := v.slots[i].sht;
          s in v.used && s != v.back && s != v.cur && (v.slots[i].min <==> s !in v.order))
    && (forall i, j :: 0 <= i < j < |v.slots| ==> v.slots[i].sht != v.slots[j].sht)
  }

  ghost predicate CursorOn(v: View, w: int, h: int) {
    0 <= v.mx < w && 0 <= v.my < h
  }

  ghost predicate Sound(v: View) {
    && Framed(v) && TableOk(v)
    && (v.drag == -1 || Window(v, v.drag))
    && (v.login == -1 || Window(v, v.login))
  }

  // ---------- events ----------

  /** A slot's window taken out of the order, or put back below the cursor. */
  function SlotHidden(v: View, b: nat): View
    requires b < |v.slots|
  {
    var s := v.slots[b].sht;
    v.(slots := v.slots[b := v.slots[b].(min := true)], order := Remove(v.order, s),
      drag := if v.drag == s then -1 else v.drag)
  }

  function SlotShown(v: View, b: nat): View
    requires b < |v.slots| && Remove(v.order, v.slots[b].sht) != []
  {
    v.(slots := v.slots[b := v.slots[b].(min := false)], order := BelowLast(v.order, v.slots[b].sht))
  }

  function HideSlot(v: View, b: nat): View
    requires b < |v.slots|
  {
    BarDrawn(SlotHidden(v, b))
  }

  function RestoreSlot(v: View, b: nat): View
    requires b < |v.slots| && Remove(v.order, v.slots[b].sht) != []
  {
    BarDrawn(SlotShown(v, b))
  }

  /** win_minimize. */
  function Minimize(v: View, s: int): View {
    var b := SlotOf(v.slots, s, 0);
    if b == -1 || s !in v.order then v else HideSlot(v, b)
  }

  /** taskbar_click. */
  function TaskbarClick(v: View, x: int, y: int, h: int): View
    requires |v.order| >= 2
  {
    var b := if y < h - TASKBAR then -1 else ButtonAt(v.slots, x, 0);
    if b == -1 then v
    else if v.slots[b].min then RestoreSlot(v, b)
    else HideSlot(v, b)
  }

  /** win_remove. */
  function RemoveSlot(v: View, s: int): View {
    var b := SlotOf(v.slots, s, 0);
    if b == -1 then v else v.(slots := Without(v.slots, b), login := if v.login == s then -1 else v.login)
  }

  /** win_closed. */
  function Close(v: View, s: int): View {
    var v1 := RemoveSlot(v, s);
    Refilled(BarDrawn(v1.(order := Remove(v.order, s), used := v.used - {s})))
  }

  function EndDrag(v: View): View {
    v.(drag := -1, mmx := -1)
  }

  /** What the button or the title bar of a pressed window does. */
  function ActOn(v: View, s: int, x: int, y: int, w: int): View {
    if s != v.login && InClose(x, y, w) then EndDrag(Close(v, s))
    else if InMin(x, y, w) then EndDrag(Minimize(v, s))
    else if InTitle(x, y, w) then v.(mmx := v.mx, mmy := v.my, drag := s)
    else v
  }

  /** A press on window s at (x, y) inside it, w its width: it comes up to just below the cursor,
      then its button or title bar acts. */
  function Press(v: View, s: int, x: int, y: int, w: int): View
    requires |v.order| >= 2
  {
    ActOn(v.(order := BelowLast(v.order, s)), s, x, y, w)
  }

  /** The left button while not dragging; h is the height of the screen. */
  function Click(v: View, h: int): View
    requires |v.order| >= 2
  {
    if v.my >= h - TASKBAR then TaskbarClick(v, v.mx, v.my, h)
    else
      var st := Scene(v);
      var j := TopHit(st, v.cur, v.mx, v.my, |st| - 1);
      if j == 0 then v else Press(v, v.order[j], v.mx - st[j].x, v.my - st[j].y, st[j].w)
  }

  lemma ClickIsTaskbar(v: View, h: int)
    requires |v.order| >= 2 && v.my >= h - TASKBAR
    ensures Click(v, h) == TaskbarClick(v, v.mx, v.my, h)
  {
    hide Press, TopHit, TaskbarClick;
  }

  lemma ClickIsPress(v: View, h: int)
    requires |v.order| >= 2 && v.my < h - TASKBAR
    ensures var st := Scene(v);
            var j := TopHit(st, v.cur, v.mx, v.my, |st| - 1);
            && j < |st|
            && Click(v, h) == if j == 0 then v else Press(v, v.order[j], v.mx - st[j].x, v.my - st[j].y, st[j].w)
  {
    hide Press, TaskbarClick;
  }

  /** How far a drag has gone, if far enough to act on. */
  predicate Dragged(v: View) {
    !(-1 <= v.mx - v.mmx <= 1 && -1 <= v.my - v.mmy <= 1)
  }

  function Clamp(m: int, size: int): int {
    var m1 := if m < 0 then 0 else m;
    if m1 > size - CUR_H then size - 1 else m1
  }

  /** The left button while dragging. */
  function DragStep(v: View): View {
    if Dragged(v) then
      (if v.drag == -1 then v else Shifted(v, v.drag, v.mx - v.mmx, v.my - v.mmy)).(mmx := v.mx, mmy := v.my)
    else v
  }

  lemma ShiftIsPlace(v: View, s: int, dx: int, dy: int)
    ensures Shifted(v, s, dx, dy) == Placed(v, s, FaceOf(v, s).x + dx, FaceOf(v, s).y + dy)
  {
  }

  /** What the button of a mouse packet does, before the pointer moves. */
  function AfterButton(v: View, h: int, left: bool): View
    requires |v.order| >= 2
  {
    if !left then EndDrag(v) else if v.mmx < 0 then Click(v, h) else DragStep(v)
  }

  /** The pointer and the cursor's sheet after a movement on a screen of w by h pixels. */
  function PointerMoved(v: View, w: int, h: int, dx: int, dy: int): View {
    var x, y := Clamp(v.mx + dx, w), Clamp(v.my + dy, h);
    Placed(v.(mx := x, my := y), v.cur, x, y)
  }

  /** One mouse packet. */
  function Packet(v: View, w: int, h: int, left: bool, dx: int, dy: int): View
    requires |v.order| >= 2
  {
    PointerMoved(AfterButton(v, h, left), w, h, dx, dy)
  }

  function AfterEvent(v: View, w: int, h: int, e: Event): View {
    match e
    case Mouse(left, dx, dy) => if |v.order| >= 2 then Packet(v, w, h, left, dx, dy) else v
    case MinimizeKey(s) => Minimize(v, s)
  }

  function AfterEvents(v: View, w: int, h: int, events: seq<Event>): View {
    if events == [] then v else AfterEvent(AfterEvents(v, w, h, events[..|events| - 1]), w, h, events[|events| - 1])
  }

  /** The event closes a window, after which the whole screen is drawn anew. */
  predicate Closes(v: View, h: int, e: Event) {
    e.Mouse? && |v.order| >= 2 && AfterButton(v, h, e.left).used != v.used
  }

  /** The pixels outside of which the frame is right after one event, if it was outside of `shaded`. */
  ghost function ShadedBy(v: View, w: int, h: int, e: Event, shaded: iset<(int, int)>): iset<(int, int)> {
    var now := ShadedNow(Scene(AfterEvent(v, w, h, e)));
    if Closes(v, h, e) then now else shaded + now
  }

  /** And after a run of events: what lay under a shadow before or after one of them, counted only
      from the last closing of a window on. */
  ghost function ShadedOver(v: View, w: int, h: int, events: seq<Event>, shaded: iset<(int, int)>): iset<(int, int)> {
    if events == [] then shaded + ShadedNow(Scene(v))
    else
      var n := |events| - 1;
      ShadedBy(AfterEvents(v, w, h, events[..n]), w, h, events[n], ShadedOver(v, w, h, events[..n], shaded))
  }

  /** The event leaves a screen that was painted in full as it was, or paints it in full again. */
  predicate Paints(v: View, h: int, e: Event, painted: bool) {
    Closes(v, h, e) || (painted && e.Mouse? && !e.left)
  }

  /** The screen is painted in full, shadows included, after a run of events: since it last was, or since
      a window was last closed, the pointer has only been moved. */
  predicate PaintedOver(v: View, w: int, h: int, events: seq<Event>, painted: bool) {
    if events == [] then painted
    else
      var n := |events| - 1;
      Paints(AfterEvents(v, w, h, events[..n]), h, events[n], PaintedOver(v, w, h, events[..n], painted))
  }

  // ---------- what the events keep ----------

  /** Right after boot nothing is in the table and nothing is dragged. */
  lemma BareIsSound(v: View)
    requires Framed(v) && v.slots == [] && v.drag == -1 && v.login == -1
    ensures Sound(v)
  {
  }

  /** Order2 has everybody order has, s aside. */
  ghost predicate SameOthers(order: seq<int>, order2: seq<int>, s: int) {
    forall x :: x != s ==> (x in order <==> x in order2)
  }

  /** Taking out a sheet that is neither desktop nor cursor. */
  lemma RemoveKeeps(v: View, s: int)
    requires Framed(v) && s != v.back && s != v.cur
    ensures Framed(v.(order := Remove(v.order, s))) && s !in Remove(v.order, s)
    ensures SameOthers(v.order, Remove(v.order, s), s)
  {
    hide Without;
    var order2, was := Remove(v.order, s), IndexOf(v.order, s);
    forall k | 0 <= k < |order2|
      ensures order2[k] == v.order[if 0 <= was <= k then k + 1 else k] { WithoutFrom(v.order, was, k); }
    forall x | x in v.order && x != s ensures x in order2 {
      var t :| 0 <= t < |v.order| && v.order[t] == x;
      assert order2[if 0 <= was < t then t - 1 else t] == x;
    }
  }

  lemma InsertKeeps(rest: seq<int>, s: int, at: nat)
    requires at <= |rest| && s !in rest
    ensures SameOthers(rest, Insert(rest, s, at), s) && s in Insert(rest, s, at)
    ensures Remove(Insert(rest, s, at), s) == rest
  {
    hide Insert, Without;
    var order2 := Insert(rest, s, at);
    RemoveInserted(rest, s, at);
    forall k {:trigger order2[k]} | 0 <= k < |order2|
      ensures order2[k] == if k < at then rest[k] else if k == at then s else rest[k - 1] {
      InsertFrom(rest, s, at, k);
    }
    assert order2[at] == s;
    forall x | x in rest ensures x in order2 {
      var t :| 0 <= t < |rest| && rest[t] == x;
      assert order2[if t < at then t else t + 1] == x;
    }
  }

  lemma InsertFramed(v: View, s: int)
    requires Framed(v) && s != v.back && s != v.cur && s in v.used && s !in v.order
    ensures var order2 := Insert(v.order, s, |v.order| - 1);
            |order2| >= 3 && order2[|order2| - 2] == s && Framed(v.(order := order2))
  {
    hide Insert;
    var at := |v.order| - 1;
    var order2 := Insert(v.order, s, at);
    forall k {:trigger order2[k]} | 0 <= k < |order2|
      ensures order2[k] == if k < at then v.order[k] else if k == at then s else v.order[k - 1] {
      InsertFrom(v.order, s, at, k);
    }
  }

  /** Bringing a sheet up to just below the cursor: nobody else moves relative to each other. */
  lemma BelowLastKeeps(v: View, s: int)
    requires Framed(v) && s != v.back && s != v.cur && s in v.used
    ensures Remove(v.order, s) != []
    ensures var order2 := BelowLast(v.order, s);
            && Framed(v.(order := order2)) && SameOthers(v.order, order2, s)
            && |order2| >= 3 && order2[|order2| - 2] == s && s in order2 && Remove(order2, s) == Remove(v.order, s)
  {
    hide Remove, Insert;
    RemoveKeeps(v, s);
    var rest := Remove(v.order, s);
    InsertFramed(v.(order := rest), s);
    InsertKeeps(rest, s, |rest| - 1);
  }

  lemma HideSlotKeeps(v: View, b: nat)
    requires Sound(v) && b < |v.slots|
    ensures Sound(HideSlot(v, b)) && v.slots[b].sht !in HideSlot(v, b).order
  {
    hide Remove;
    RemoveKeeps(v, v.slots[b].sht);
  }

  lemma RaiseKeeps(v: View, s: int)
    requires Sound(v) && s in v.order && s != v.back && s != v.cur
    ensures Remove(v.order, s) != [] && Sound(v.(order := BelowLast(v.order, s))) && s in BelowLast(v.order, s)
  {
    hide Remove, BelowLast;
    BelowLastKeeps(v, s);
  }

  lemma RestoreSlotKeeps(v: View, b: nat)
    requires Sound(v) && b < |v.slots|
    ensures Remove(v.order, v.slots[b].sht) != [] && Sound(RestoreSlot(v, b))
    ensures v.slots[b].sht in RestoreSlot(v, b).order
  {
    hide Remove, BelowLast;
    BelowLastKeeps(v, v.slots[b].sht);
  }

  lemma RemoveSlotKeeps(v: View, s: int)
    requires Sound(v)
    ensures Sound(RemoveSlot(v, s))
    ensures forall k :: 0 <= k < |RemoveSlot(v, s).slots| ==> RemoveSlot(v, s).slots[k].sht != s
  {
    hide Without;
    var v1, b := RemoveSlot(v, s), SlotOf(v.slots, s, 0);
    if b != -1 {
      forall k {:trigger v1.slots[k]} | 0 <= k < |v1.slots|
        ensures v1.slots[k] == v.slots[if b <= k then k + 1 else k] && v1.slots[k].sht != s {
        WithoutFrom(v.slots, b, k);
        assert v.slots[b].sht == s;
      }
    }
  }

  lemma CloseKeeps(v: View, s: int)
    requires Sound(v) && s != v.back && s != v.cur
    ensures Sound(Close(v, s)) && s !in Close(v, s).order
  {
    hide Remove, RemoveSlot, Without;
    RemoveSlotKeeps(v, s);
    RemoveKeeps(v, s);
    var v1 := RemoveSlot(v, s);
    assert v1.order == v.order && v1.used == v.used && v1.back == v.back
      && v1.cur == v.cur by { RemoveSlotLeaves(v, s); }
  }

  lemma RemoveSlotLeaves(v: View, s: int)
    ensures RemoveSlot(v, s) == v.(slots := RemoveSlot(v, s).slots, login := RemoveSlot(v, s).login)
  {
  }

  lemma DragKeeps(v: View, s: int, mmx: int, mmy: int)
    requires Sound(v) && (s == -1 || (s in v.used && s != v.back && s != v.cur))
    ensures Sound(v.(drag := s, mmx := mmx, mmy := mmy))
  {
  }

  lemma MinimizeKeeps(v: View, s: int)
    requires Sound(v)
    ensures Sound(Minimize(v, s)) && Remove(Minimize(v, s).order, s) == Remove(v.order, s)
  {
    hide Without, Sound;
    var b := SlotOf(v.slots, s, 0);
    if b != -1 {
      HideSlotKeeps(v, b);
      WithoutNone(Remove(v.order, s));
    }
  }

  lemma InUse(v: View, s: int)
    requires Sound(v)
    ensures s in v.order ==> s in v.used
  {
  }

  lemma PressKeeps(v: View, s: int, x: int, y: int, w: int)
    requires Sound(v) && s in v.order && s != v.back && s != v.cur
    ensures |v.order| >= 2 && Sound(Press(v, s, x, y, w))
  {
    hide Sound, Close, Minimize, BelowLast, Remove, InClose, InMin, InTitle;
    RaiseKeeps(v, s);
    var v1 := v.(order := BelowLast(v.order, s));
    CloseKeeps(v1, s);
    MinimizeKeeps(v1, s);
    InUse(v1, s);
    DragKeeps(v1, s, v.mx, v.my);
    DragKeeps(Close(v1, s), -1, -1, Close(v1, s).mmy);
    DragKeeps(Minimize(v1, s), -1, -1, Minimize(v1, s).mmy);
    assert |v.order| >= 2 by { SoundIsFramed(v); }
  }

  lemma SoundIsFramed(v: View)
    requires Sound(v)
    ensures Framed(v) && |v.order| >= 2
    ensures forall k :: 0 < k < |v.order| && v.order[k] != v.cur ==> v.order[k] != v.back && v.order[k] in v.order
  {
  }

  lemma SceneNames(v: View)
    requires Sound(v) && Known(v)
    ensures forall k :: 0 <= k < |v.order| ==> Scene(v)[k].sid == v.order[k]
  {
  }

  lemma ClickKeeps(v: View, h: int)
    requires Sound(v) && Known(v) && |v.order| >= 2
    ensures Sound(Click(v, h))
  {
    hide Sound, Press, HideSlot, RestoreSlot, ButtonAt, Remove, Known;
    SoundIsFramed(v);
    SceneNames(v);
    var st := Scene(v);
    if v.my >= h - TASKBAR {
      var b := ButtonAt(v.slots, v.mx, 0);
      if b != -1 { HideSlotKeeps(v, b); RestoreSlotKeeps(v, b); }
    } else {
      var j := TopHit(st, v.cur, v.mx, v.my, |st| - 1);
      if j != 0 { PressKeeps(v, v.order[j], v.mx - st[j].x, v.my - st[j].y, st[j].w); }
    }
  }

  lemma DragStepKeeps(v: View)
    requires Sound(v)
    ensures Sound(DragStep(v))
  {
  }

  lemma PointerKeeps(v: View, w: int, h: int, dx: int, dy: int)
    requires Sound(v) && w > 0 && h > 0
    ensures Sound(PointerMoved(v, w, h, dx, dy)) && CursorOn(PointerMoved(v, w, h, dx, dy), w, h)
  {
  }

  /** Every mouse packet keeps the desktop at the bottom, the cursor on top and on screen, and the table true. */
  lemma PacketKeeps(v: View, w: int, h: int, left: bool, dx: int, dy: int)
    requires Sound(v) && Known(v) && w > 0 && h > 0
    ensures |v.order| >= 2 && Sound(Packet(v, w, h, left, dx, dy)) && CursorOn(Packet(v, w, h, left, dx, dy), w, h)
  {
    hide Sound, Click, Known, DragStep, PointerMoved, CursorOn;
    SoundIsFramed(v);
    ClickKeeps(v, h);
    DragStepKeeps(v);
    DragKeeps(v, -1, -1, v.mmy);
    PointerKeeps(AfterButton(v, h, left), w, h, dx, dy);
  }

  /**
   What a press does that lands on a window, its buffer bw pixels wide, at (x, y) of the buffer. On the
   close button, unless it is the login window, the window is destroyed: out of the order, the pool and
   the table. On the minimize button it leaves the order if it is in the table, and its entry says so.
   Elsewhere it ends directly below the cursor, and on the title bar it is dragged from there on.
   Nobody else changes places.
   */
  lemma PressPlacesWindow(v: View, w: int, h: int, dx: int, dy: int)
    requires Sound(v) && Known(v) && |v.order| >= 2
    requires v.mmx < 0 && v.my < h - 40 && TopHit(Scene(v), v.cur, v.mx, v.my, |v.order| - 1) > 0
    ensures var st := Scene(v);
            var j := TopHit(st, v.cur, v.mx, v.my, |st| - 1);
            var s, x, y, bw := v.order[j], v.mx - st[j].x, v.my - st[j].y, st[j].w;
            var v2 := Packet(v, w, h, true, dx, dy);
            PressDid(v, v2, s,
              s != v.login && bw - 58 <= x < bw - 26 && 26 <= y < 54,
              bw - 90 <= x < bw - 58 && 26 <= y < 54,
              6 <= x < bw - 6 && 22 <= y < 58)
  {
    hide Sound, Remove, Known, Press, TopHit, PressDid;
    SoundIsFramed(v);
    SceneNames(v);
    var st := Scene(v);
    var j := TopHit(st, v.cur, v.mx, v.my, |st| - 1);
    HitThere(st, v.cur, v.mx, v.my);
    InUse(v, v.order[j]);
    ClickIsPress(v, h);
    var s, x, y, bw := v.order[j], v.mx - st[j].x, v.my - st[j].y, st[j].w;
    PressLeaves(v, s, x, y, bw);
    StillDid(v, Press(v, s, x, y, bw), w, h, dx, dy, s, s != v.login && InClose(x, y, bw), InMin(x, y, bw),
      InTitle(x, y, bw));
  }

  /** The press was on window s: on its close button, its minimize button, its title bar? */
  ghost predicate PressDid(v: View, v2: View, s: int, close: bool, min: bool, title: bool) {
    var listed := exists b :: 0 <= b < |v.slots| && v.slots[b].sht == s;
    && Remove(v2.order, s) == Remove(v.order, s)
    && (s !in v2.order <==> close || (min && listed))
    && (s in v2.order ==> |v2.order| >= 3 && v2.order[|v2.order| - 2] == s)
    && v2.used == (if close then v.used - {s} else v.used)
    && (close ==> forall b :: 0 <= b < |v2.slots| ==> v2.slots[b].sht != s)
    && (!close ==> |v2.slots| == |v.slots| && forall b :: 0 <= b < |v.slots| ==>
          v2.slots[b] == if v.slots[b].sht == s then v.slots[b].(min := min) else v.slots[b])
    && (close || min ==> v2.drag == -1 && v2.mmx == -1)
    && (!close && !min && title ==> v2.drag == s && v2.mmx == v.mx && v2.mmy == v.my)
    && (!close && !min && !title ==> v2.drag == v.drag && v2.mmx == v.mmx && v2.mmy == v.mmy)
  }

  lemma StillDid(v: View, v1: View, w: int, h: int, dx: int, dy: int, s: int, close: bool, min: bool, title: bool)
    requires PressDid(v, v1, s, close, min, title)
    ensures PressDid(v, PointerMoved(v1, w, h, dx, dy), s, close, min, title)
  {
    hide Remove, Clamp;
  }

  lemma HitThere(st: Stack, skip: int, x: int, y: int)
    requires st != [] && TopHit(st, skip, x, y, |st| - 1) > 0
    ensures TopHit(st, skip, x, y, |st| - 1) < |st| && st[TopHit(st, skip, x, y, |st| - 1)].sid != skip
  {
  }

  lemma PressLeaves(v: View, s: int, x: int, y: int, w: int)
    requires Sound(v) && s in v.order && s in v.used && s != v.back && s != v.cur && |v.order| >= 2
    ensures PressDid(v, Press(v, s, x, y, w), s, s != v.login && InClose(x, y, w), InMin(x, y, w), InTitle(x, y, w))
  {
    hide Sound, BelowLast, InClose, InMin, InTitle, Remove, Close, Minimize, PressDid;
    SoundIsFramed(v);
    BelowLastKeeps(v, s);
    RaiseKeeps(v, s);
    var v1 := v.(order := BelowLast(v.order, s));
    if s != v.login && InClose(x, y, w) {
      CloseDid(v, v1, s, InMin(x, y, w), InTitle(x, y, w));
    } else if InMin(x, y, w) {
      MinimizeDid(v, v1, s, InTitle(x, y, w));
    } else {
      RaiseDid(v, v1, s);
    }
  }

  /** v1 is v with window s raised to just below the cursor. */
  ghost predicate RaisedTo(v: View, v1: View, s: int) {
    && Sound(v) && Sound(v1) && v1 == v.(order := v1.order) && s in v.order && s != v.back && s != v.cur
    && |v1.order| >= 3 && v1.order[|v1.order| - 2] == s && Remove(v1.order, s) == Remove(v.order, s)
  }

  lemma CloseDid(v: View, v1: View, s: int, min: bool, title: bool)
    requires RaisedTo(v, v1, s)
    ensures PressDid(v, EndDrag(Close(v1, s)), s, true, min, title)
  {
    hide Remove, Without, SlotOf, RemoveSlot;
    CloseKeeps(v1, s);
    RemoveSlotKeeps(v1, s);
    RemoveSlotLeaves(v1, s);
    RemoveNone(Remove(v1.order, s), s);
  }

  lemma MinimizeDid(v: View, v1: View, s: int, title: bool)
    requires RaisedTo(v, v1, s)
    ensures PressDid(v, EndDrag(Minimize(v1, s)), s, false, true, title)
  {
    hide Remove;
    assert s in v1.order by { assert v1.order[|v1.order| - 2] == s; }
    MinimizeOrder(v1, s);
    RemoveKeeps(v1, s);
    RemoveNone(Remove(v1.order, s), s);
  }

  lemma RaiseDid(v: View, v1: View, s: int)
    requires RaisedTo(v, v1, s)
    ensures PressDid(v, v1, s, false, false, false)
    ensures PressDid(v, v1.(mmx := v.mx, mmy := v.my, drag := s), s, false, false, true)
  {
    hide Remove;
    assert s in v1.order by { assert v1.order[|v1.order| - 2] == s; }
  }

  lemma MinimizeOrder(v: View, s: int)
    ensures Minimize(v, s).order == if SlotOf(v.slots, s, 0) == -1 || s !in v.order then v.order else Remove(v.order, s)
  {
    hide Remove;
  }

  /** Two clicks on a window's taskbar button: the window is toggled each time, and nobody else changes places. */
  lemma TaskbarToggles(v: View, x: int, y: int, h: int)
    requires Sound(v) && |v.order| >= 2 && y >= h - 40 && ButtonAt(v.slots, x, 0) != -1
    ensures var s := v.slots[ButtonAt(v.slots, x, 0)].sht;
            var v1 := TaskbarClick(v, x, y, h);
            |v1.order| >= 2 && var v2 := TaskbarClick(v1, x, y, h);
            && v2.slots == v.slots && (s in v1.order <==> s !in v.order) && (s in v2.order <==> s in v.order)
            && Remove(v2.order, s) == Remove(v.order, s)
  {
    hide Sound, Remove, BelowLast, ButtonAt;
    var b := ButtonAt(v.slots, x, 0);
    ToggleOnce(v, b);
    var v1 := TaskbarClick(v, x, y, h);
    SameButton(v.slots, v1.slots, x, 0);
    ToggleOnce(v1, b);
    SoundIsFramed(v1);
  }

  lemma ToggleOnce(v: View, b: nat)
    requires Sound(v) && b < |v.slots|
    ensures var s := v.slots[b].sht;
            && (v.slots[b].min <==> s !in v.order)
            && Remove(v.order, s) != []
            && var v1 := if v.slots[b].min then RestoreSlot(v, b) else HideSlot(v, b);
            && Sound(v1) && (s in v1.order <==> s !in v.order) && Remove(v1.order, s) == Remove(v.order, s)
  {
    hide Remove, BelowLast;
    var s := v.slots[b].sht;
    HideSlotKeeps(v, b);
    RestoreSlotKeeps(v, b);
    RemoveKeeps(v, s);
    BelowLastKeeps(v, s);
    RemoveNone(Remove(v.order, s), s);
  }

  lemma {:induction false} SameButton(slots: seq<Slot>, slots2: seq<Slot>, x: int, i: nat)
    requires |slots2| == |slots| && i <= |slots| && forall k :: 0 <= k < |slots| ==> slots2[k].title == slots[k].title
    ensures ButtonAt(slots2, x, i) == ButtonAt(slots, x, i)
    decreases |slots| - i
  {
    if i < |slots| { SameButton(slots, slots2, x, i + 1); }
  }

  // ---------- which faces change ----------

  ghost predicate OnlyFace(v: View, v2: View, sid: int) {
    forall s {:trigger FaceOf(v2, s)} :: s != sid ==> FaceOf(v2, s) == FaceOf(v, s)
  }

  lemma PressOnlyBack(v: View, s: int, x: int, y: int, w: int)
    requires |v.order| >= 2
    ensures OnlyFace(v, Press(v, s, x, y, w), v.back)
  {
    hide BelowLast, InClose, InMin, InTitle, Remove, SlotOf, Without;
  }

  lemma ClickOnlyBack(v: View, h: int)
    requires |v.order| >= 2
    ensures OnlyFace(v, Click(v, h), v.back)
  {
    hide BelowLast, Press, Remove, ButtonAt;
    if v.my < h - TASKBAR {
      ClickIsPress(v, h);
      var st := Scene(v);
      var j := TopHit(st, v.cur, v.mx, v.my, |st| - 1);
      PressOnlyBack(v, v.order[j], v.mx - st[j].x, v.my - st[j].y, st[j].w);
    }
  }

  /** Buttons and drags leave the cursor's face alone. */
  lemma CursorFaceStays(v: View, h: int, left: bool)
    requires Sound(v) && |v.order| >= 2
    ensures FaceOf(AfterButton(v, h, left), v.cur) == FaceOf(v, v.cur) && v.cur in v.order
    ensures AfterButton(v, h, left).cur == v.cur
  {
    hide Click, TableOk;
    ClickOnlyBack(v, h);
    assert v.order[|v.order| - 1] == v.cur && v.order[0] == v.back;
    ClickCursor(v, h);
  }

  lemma ClickCursor(v: View, h: int)
    requires |v.order| >= 2
    ensures Click(v, h).cur == v.cur
  {
    hide BelowLast, InClose, InMin, InTitle, Remove, SlotOf, Without, ButtonAt, TopHit;
  }

  /** Only sheets seen before are seen in between, and they look as before. */
  lemma BetweenFewer(v: View, v1: View, st2: Stack)
    requires v1.faces == v.faces && forall k :: 0 <= k < |v1.order| ==> v1.order[k] in v.order
    ensures Between(Scene(v), Scene(v1), st2)
  {
    var st, st1 := Scene(v), Scene(v1);
    forall k | 0 <= k < |st1| ensures st1[k] in st {
      var j :| 0 <= j < |v.order| && v.order[j] == v1.order[k];
      assert st[j] == st1[k];
    }
  }

  /** The last step changes one face, which had not changed before. */
  lemma BetweenOne(v: View, v1: View, v2: View, sid: int)
    requires v2.order == v1.order && OnlyFace(v1, v2, sid) && sid in v.order && FaceOf(v1, sid) == FaceOf(v, sid)
    ensures Between(Scene(v), Scene(v1), Scene(v2))
  {
    hide FaceOf;
    var st, st1, st2 := Scene(v), Scene(v1), Scene(v2);
    forall k {:trigger st1[k]} | 0 <= k < |st1| ensures st1[k] in st || st1[k] in st2 {
      if v1.order[k] == sid {
        var j :| 0 <= j < |v.order| && v.order[j] == sid;
        assert st[j] == st1[k];
      } else {
        assert st2[k] == FaceOf(v2, v1.order[k]) == st1[k];
      }
    }
  }

  lemma BetweenSelf(st: Stack, st1: Stack)
    ensures Between(st, st1, st1)
  {
  }

  /** The part of the desktop's sheet that shows the taskbar on a screen of w by h pixels. */
  function BarRect(l: Layer, w: int, h: int): Rect {
    Rect(l.x, l.y + h - TASKBAR, l.x + w, l.y + h)
  }

  /** The taskbar paints nowhere else on a sheet of this place and size. */
  ghost predicate BarOnly(bar: (seq<Slot>, seq<u32>) -> seq<u32>, l: Layer, w: int, h: int) {
    forall slots: seq<Slot>, buf: seq<u32>, x, y {:trigger Pix(l.(buf := bar(slots, buf)), x, y)} ::
      Covers(l, x, y) && !BarRect(l, w, h).Has(x, y) ==>
        Pix(l.(buf := bar(slots, buf)), x, y) == Pix(l.(buf := buf), x, y)
  }

  /** The scene after taskbar_draw: the bottom layer has new pixels, in the bar only. */
  lemma SceneOfBar(v: View, w: int, h: int)
    requires Framed(v) && 0 <= v.back < |v.faces| && BarOnly(v.bar, v.faces[v.back].(buf := []), w, h)
    ensures var st, buf := Scene(v), BarDrawn(v).faces[v.back].buf;
      && st != [] && st[0] == v.faces[v.back] && Scene(BarDrawn(v)) == st[0 := st[0].(buf := buf)]
      && forall x, y :: Covers(st[0], x, y) && !BarRect(st[0], w, h).Has(x, y) ==>
           Pix(st[0].(buf := buf), x, y) == Pix(st[0], x, y)
  {
    hide Pix;
    var st, v2 := Scene(v), BarDrawn(v);
    var buf, l := v2.faces[v.back].buf, v.faces[v.back];
    assert st[0] == l && buf == v.bar(v.slots, l.buf);
    forall k | 0 <= k < |v.order| ensures Scene(v2)[k] == st[0 := l.(buf := buf)][k] {
      if k > 0 { assert v.order[k] != v.order[0]; }
    }
    forall x, y | Covers(l, x, y) && !BarRect(l, w, h).Has(x, y)
      ensures Pix(l.(buf := buf), x, y) == Pix(l, x, y)
    {
      var blank := l.(buf := []);
      assert Pix(blank.(buf := v.bar(v.slots, l.buf)), x, y)
        == Pix(blank.(buf := l.buf), x, y) by { assert Covers(blank, x, y); }
      assert blank.(buf := buf) == l.(buf := buf) && blank.(buf := l.buf) == l;
    }
  }

  lemma SoundAlike(v: View, v2: View)
    requires Sound(v) && v2 == v.(faces := v2.faces)
    ensures Sound(v2)
  {
  }

  lemma MinimizeUsed(v: View, s: int)
    ensures Minimize(v, s).used == v.used
  {
    hide SlotOf, Remove;
  }

  lemma TaskbarUsed(v: View, x: int, y: int, h: int)
    requires |v.order| >= 2
    ensures TaskbarClick(v, x, y, h).used == v.used
  {
    hide ButtonAt, Remove, BelowLast;
  }

  lemma MinimizeUnused(v: View, s: int)
    requires Sound(v) && s !in v.used
    ensures Minimize(v, s) == v
  {
    hide Framed;
  }

  // ---------- whole runs ----------

  /** No sheet comes into use, and every face keeps its number. */
  ghost predicate SameNames(v: View, v2: View) {
    v2.used <= v.used && |v2.faces| == |v.faces| && forall i :: 0 <= i < |v.faces| ==> v2.faces[i].sid == v.faces[i].sid
  }

  lemma PressNames(v: View, s: int, x: int, y: int, w: int)
    requires |v.order| >= 2
    ensures SameNames(v, Press(v, s, x, y, w))
  {
    hide BelowLast, InClose, InMin, InTitle, Remove, SlotOf, Without;
  }

  lemma ClickNames(v: View, h: int)
    requires |v.order| >= 2
    ensures SameNames(v, Click(v, h))
  {
    hide BelowLast, Press, Remove, ButtonAt;
    if v.my < h - TASKBAR {
      ClickIsPress(v, h);
      var st := Scene(v);
      var j := TopHit(st, v.cur, v.mx, v.my, |st| - 1);
      PressNames(v, v.order[j], v.mx - st[j].x, v.my - st[j].y, st[j].w);
    }
  }

  lemma EventNames(v: View, w: int, h: int, e: Event)
    ensures SameNames(v, AfterEvent(v, w, h, e))
  {
    hide Click, Clamp, SlotOf, Remove;
    if |v.order| >= 2 { ClickNames(v, h); }
  }

  lemma SameNamesKnown(v: View, v2: View)
    requires Known(v) && SameNames(v, v2)
    ensures Known(v2)
  {
  }

  /** Any run of mouse packets and minimize keys, from any sound state: desktop lowest, cursor
      highest and on the screen, the taskbar's table true, at every moment. */
  lemma {:induction false} RunKeeps(v: View, w: int, h: int, events: seq<Event>)
    requires Sound(v) && Known(v) && CursorOn(v, w, h)
    ensures var v2 := AfterEvents(v, w, h, events); Sound(v2) && Known(v2) && CursorOn(v2, w, h)
  {
    hide Sound, Known, Packet, Minimize, SameNames;
    if events != [] {
      RunKeeps(v, w, h, events[..|events| - 1]);
      var v1, e := AfterEvents(v, w, h, events[..|events| - 1]), events[|events| - 1];
      SoundIsFramed(v1);
      EventNames(v1, w, h, e);
      SameNamesKnown(v1, AfterEvent(v1, w, h, e));
      match e
      case Mouse(left, dx, dy) => PacketKeeps(v1, w, h, left, dx, dy);
      case MinimizeKey(s) =>
        MinimizeKeeps(v1, s);
        MinimizePointer(v1, s);
    }
  }

  lemma MinimizePointer(v: View, s: int)
    ensures Minimize(v, s).mx == v.mx && Minimize(v, s).my == v.my
  {
  }

  // ---------- one event at a time ----------

  /** A click lands on a sheet that covers the place with a pixel other than 0x00FF00FF. */
  lemma HitIs(l: Layer, x: int, y: int, p: u32)
    ensures BufferHas(l, x, y, p) ==> (Hit(l, x, y) <==> p != 0x00FF_00FF)
    ensures !(l.x <= x < l.x + l.w && l.y <= y < l.y + l.h) ==> !Hit(l, x, y)
  {
    hide Pix;
    if BufferHas(l, x, y, p) { PixIs(l, x, y, p); }
  }

  /** Without the button a packet ends a drag and else only moves the pointer. */
  lemma ReleaseEndsDrag(v: View, w: int, h: int, dx: int, dy: int)
    requires |v.order| >= 2
    ensures var v2 := Packet(v, w, h, false, dx, dy);
      && v2.drag == -1 && v2.mmx == -1
      && v2 == v.(drag := v2.drag, mmx := v2.mmx, mx := v2.mx, my := v2.my, faces := v2.faces)
      && OnlyFace(v, v2, v.cur)
  {
    hide Clamp;
  }

  /** A press on the bare desktop, above the taskbar, does nothing; one on the taskbar beside the buttons
      does nothing either. */
  lemma PressOnNothing(v: View, h: int)
    requires |v.order| >= 2 && v.mmx < 0
    requires if v.my < h - 40 then TopHit(Scene(v), v.cur, v.mx, v.my, |v.order| - 1) == 0
             else ButtonAt(v.slots, v.mx, 0) == -1
    ensures AfterButton(v, h, true) == v
  {
    hide Press, TopHit, ButtonAt;
  }

  /** Minimizing: a visible window in the table leaves the order, its entry says so, a drag of it ends, and
      of the pixels only the desktop's change; for any other sheet nothing happens. */
  lemma MinimizeDoes(v: View, s: int)
    requires Sound(v)
    ensures var v2 := Minimize(v, s);
      if s in v.order && exists b :: 0 <= b < |v.slots| && v.slots[b].sht == s then
        && s !in v2.order && Remove(v2.order, s) == Remove(v.order, s) && |v2.slots| == |v.slots|
        && (forall b :: 0 <= b < |v.slots| ==>
              v2.slots[b] == if v.slots[b].sht == s then v.slots[b].(min := true) else v.slots[b])
        && v2.drag == (if v.drag == s then -1 else v.drag) && OnlyFace(v, v2, v.back)
        && v2 == v.(order := v2.order, slots := v2.slots, drag := v2.drag, faces := v2.faces)
      else v2 == v
  {
    hide Remove;
    var b := SlotOf(v.slots, s, 0);
    if b != -1 && s in v.order {
      assert v.slots[b].sht == s;
      WithoutNone(Remove(v.order, s));
      RemoveLeavesNone(v.order, s);
      RemoveNone(Remove(v.order, s), s);
    }
  }

  lemma RemoveNone(order: seq<int>, s: int)
    requires s !in order
    ensures Remove(order, s) == order
  {
    hide Without;
    WithoutNone(order);
  }

  /** Closing: the window leaves order, pool and table, the login window's name is forgotten with its entry,
      and of the pixels only the desktop's change. */
  lemma CloseDoes(v: View, s: int)
    requires Sound(v) && s != v.back && s != v.cur
    ensures var v2 := Close(v, s); var listed := exists b :: 0 <= b < |v.slots| && v.slots[b].sht == s;
      && s !in v2.order && Remove(v2.order, s) == Remove(v.order, s) && v2.used == v.used - {s}
      && (forall b :: 0 <= b < |v2.slots| ==> v2.slots[b].sht != s && v2.slots[b] in v.slots)
      && (forall b :: 0 <= b < |v.slots| && v.slots[b].sht != s ==> v.slots[b] in v2.slots)
      && v2.login == (if listed && v.login == s then -1 else v.login) && OnlyFace(v, v2, v.back)
      && v2 == v.(order := v2.order, used := v2.used, slots := v2.slots, login := v2.login, faces := v2.faces)
  {
    hide Remove, Without, DesktopPixels;
    CloseKeeps(v, s);
    RemoveNone(Remove(v.order, s), s);
    RemoveSlotKeeps(v, s);
    var b := SlotOf(v.slots, s, 0);
    if b != -1 {
      assert v.slots[b].sht == s;
      OthersStay(v.slots, b);
    }
  }

  lemma OthersStay(slots: seq<Slot>, b: nat)
    requires b < |slots|
    ensures forall k :: 0 <= k < |Without(slots, b)| ==> Without(slots, b)[k] in slots
    ensures forall k :: 0 <= k < |slots| && k != b ==> slots[k] in Without(slots, b)
  {
    forall k | 0 <= k < |slots| && k != b ensures slots[k] in Without(slots, b) {
      assert Without(slots, b)[if k < b then k else k - 1] == slots[k];
    }
  }

  // ---------- where the pointer goes ----------

  lemma ButtonLeavesPointer(v: View, h: int, left: bool)
    requires |v.order| >= 2
    ensures var v2 := AfterButton(v, h, left); v2.mx == v.mx && v2.my == v.my && v2.cur == v.cur
  {
    hide BelowLast, InClose, InMin, InTitle, Remove, SlotOf, Without, ButtonAt, TopHit;
  }

  /** The pointer moves by exactly (dx, dy) while that keeps it 32 pixels from the right and the lower
      edge; it stops at 0 on the left and at the top, and jumps to the last pixel on the other sides. */
  lemma PointerGoes(v: View, w: int, h: int, left: bool, dx: int, dy: int)
    requires |v.order| >= 2
    ensures var v2 := Packet(v, w, h, left, dx, dy);
      && (0 <= v.mx + dx <= w - 32 ==> v2.mx == v.mx + dx)
      && (0 <= v.my + dy <= h - 32 ==> v2.my == v.my + dy)
      && (v.mx + dx < 0 ==> v2.mx == if w < 32 then w - 1 else 0)
      && (v.my + dy < 0 ==> v2.my == if h < 32 then h - 1 else 0)
      && (v.mx + dx > w - 32 ==> v2.mx == w - 1)
      && (v.my + dy > h - 32 ==> v2.my == h - 1)
  {
    hide AfterButton;
    ButtonLeavesPointer(v, h, left);
  }

  /** How far a run of events moves the mouse. */
  function Travel(events: seq<Event>): (int, int) {
    if events == [] then (0, 0)
    else
      var (x, y) := Travel(events[..|events| - 1]);
      match events[|events| - 1]
      case Mouse(_, dx, dy) => (x + dx, y + dy)
      case MinimizeKey(_) => (x, y)
  }

  /** As long as it stays that far inside, the pointer is where the mouse has gone. */
  lemma {:induction false} PointerFollows(v: View, w: int, h: int, events: seq<Event>)
    requires Sound(v) && Known(v) && CursorOn(v, w, h)
    requires forall n :: 0 <= n <= |events| ==>
      var (x, y) := Travel(events[..n]); 0 <= v.mx + x <= w - 32 && 0 <= v.my + y <= h - 32
    ensures var v2, (x, y) := AfterEvents(v, w, h, events), Travel(events);
      v2.mx == v.mx + x && v2.my == v.my + y
  {
    hide Sound, Known, Packet, Minimize;
    assert events[..|events|] == events;
    if events != [] {
      var before, e := events[..|events| - 1], events[|events| - 1];
      assert forall n :: 0 <= n <= |before| ==> before[..n] == events[..n];
      PointerFollows(v, w, h, before);
      RunKeeps(v, w, h, before);
      var v1 := AfterEvents(v, w, h, before);
      SoundIsFramed(v1);
      if e.Mouse? {
        PointerGoes(v1, w, h, e.left, e.dx, e.dy);
      } else {
        MinimizeLeavesPointer(v1, e.sid);
      }
    }
  }

  lemma MinimizeLeavesPointer(v: View, s: int)
    ensures Minimize(v, s).mx == v.mx && Minimize(v, s).my == v.my
  {
    hide SlotOf, Remove;
  }

  /** The dragged window, held where it was gripped: as far from the place noted as at the beginning. */
  predicate Holds(v: View, v2: View) {
    && v2.drag == v.drag && v2.cur == v.cur && v2.mmx >= 0 && v2.order == v.order && |v2.faces| == |v.faces|
    && FaceOf(v2, v.drag) == FaceOf(v, v.drag).(x := FaceOf(v, v.drag).x + v2.mmx - v.mmx,
                                               y := FaceOf(v, v.drag).y + v2.mmy - v.mmy)
  }

  lemma DragStepHolds(v: View, w: int, h: int, dx: int, dy: int)
    requires |v.order| >= 2 && CursorOn(v, w, h) && v.mmx >= 0 && 0 <= v.drag < |v.faces| && v.drag != v.cur
    ensures var v2 := Packet(v, w, h, true, dx, dy);
      Holds(v, v2) && -1 <= v.mx - v2.mmx <= 1 && -1 <= v.my - v2.mmy <= 1
  {
    hide Clamp;
  }

  /** Over any run of packets with the button held the dragged window keeps its grip, and the place
      noted is within a pixel of where the pointer was before the last packet. */
  lemma {:induction false} DragFollows(v: View, w: int, h: int, events: seq<Event>)
    requires Sound(v) && Known(v) && CursorOn(v, w, h) && v.mmx >= 0 && 0 <= v.drag < |v.faces|
    requires forall i :: 0 <= i < |events| ==> events[i].Mouse? && events[i].left
    ensures Holds(v, AfterEvents(v, w, h, events))
    ensures events != [] ==>
      var v1, v2 := AfterEvents(v, w, h, events[..|events| - 1]), AfterEvents(v, w, h, events);
      -1 <= v1.mx - v2.mmx <= 1 && -1 <= v1.my - v2.mmy <= 1
  {
    hide Known, Packet;
    if events != [] {
      var before, e := events[..|events| - 1], events[|events| - 1];
      DragFollows(v, w, h, before);
      RunKeeps(v, w, h, before);
      DragStepHolds(AfterEvents(v, w, h, before), w, h, e.dx, e.dy);
    }
  }

  // ---------- the taskbar's pixels ----------

  /** The desktop's pixels are those of the table: painting the taskbar again would change nothing. */
  ghost predicate BarShown(v: View) {
    0 <= v.back < |v.faces| && v.bar(v.slots, v.faces[v.back].buf) == v.faces[v.back].buf
  }

  ghost predicate Repaints(bar: (seq<Slot>, seq<u32>) -> seq<u32>) {
    forall slots, buf :: bar(slots, bar(slots, buf)) == bar(slots, buf)
  }

  lemma DrawnIsShown(v: View)
    requires Repaints(v.bar) && 0 <= v.back < |v.faces|
    ensures BarShown(BarDrawn(v))
  {
  }

  lemma PressShowsBar(v: View, s: int, x: int, y: int, w: int)
    requires |v.order| >= 2 && Repaints(v.bar) && BarShown(v)
    ensures BarShown(Press(v, s, x, y, w)) && Press(v, s, x, y, w).bar == v.bar
  {
    hide BelowLast, InClose, InMin, InTitle, Remove, SlotOf, Without, DesktopPixels;
  }

  lemma ClickShowsBar(v: View, h: int)
    requires |v.order| >= 2 && Repaints(v.bar) && BarShown(v)
    ensures BarShown(Click(v, h)) && Click(v, h).bar == v.bar
  {
    hide BelowLast, Press, Remove, ButtonAt;
    if v.my < h - TASKBAR {
      ClickIsPress(v, h);
      var st := Scene(v);
      var j := TopHit(st, v.cur, v.mx, v.my, |st| - 1);
      PressShowsBar(v, v.order[j], v.mx - st[j].x, v.my - st[j].y, st[j].w);
    }
  }

  lemma EventShowsBar(v: View, w: int, h: int, e: Event)
    requires Repaints(v.bar) && BarShown(v)
    ensures BarShown(AfterEvent(v, w, h, e)) && AfterEvent(v, w, h, e).bar == v.bar
  {
    hide Click, Clamp, SlotOf, Remove;
    if |v.order| >= 2 { ClickShowsBar(v, h); }
  }

  /** If the taskbar shows its table, it does so at every moment of a run: no window is hidden, shown
      or closed without its button being redrawn. */
  lemma {:induction false} RunShowsBar(v: View, w: int, h: int, events: seq<Event>)
    requires Repaints(v.bar) && BarShown(v)
    ensures BarShown(AfterEvents(v, w, h, events)) && AfterEvents(v, w, h, events).bar == v.bar
  {
    hide BarShown, AfterEvent;
    if events != [] {
      RunShowsBar(v, w, h, events[..|events| - 1]);
      EventShowsBar(AfterEvents(v, w, h, events[..|events| - 1]), w, h, events[|events| - 1]);
    }
  }
}
