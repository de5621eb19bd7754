/**
 The window manager on top of the compositor.  Every method makes of the manager's state what
 the state machine in Desktop says, by calling the compositor's operations.
 */
module WindowManager {
  import opened Words
  import opened Layers
  import opened Orders
  import opened Screens
  import opened Compositor
  import opened Desktop
  import Taskbar

  class Wm {
    const ctl: Ctl
    const back: int                       // the desktop's sheet
    const cur: int                        // the cursor's sheet
    const wins: array<Slot>
    const font: Taskbar.Font
    const shadows: seq<int>               // sheets registered as shadowed
    var wincnt: int
    var login: int
    var drag: int
    var mx: int
    var my: int
    var mmx: int
    var mmy: int

    /** After boot: the desktop is at the bottom, the cursor on top, no window is in the taskbar yet,
        and the screen has been drawn. */
    constructor (ctl: Ctl, back: int, cur: int, font: Taskbar.Font, shadows: seq<int>)
      requires ctl.Valid() && 1 <= ctl.top && ctl.Visible()[0] == back && ctl.Visible()[ctl.top] == cur
      requires 0 <= ctl.sheets0[cur].vx0 < ctl.xsize && 0 <= ctl.sheets0[cur].vy0 < ctl.ysize
      requires DesktopSheet(ctl, back) && AllOwned(ctl.Faces(), ctl.Cache())
      requires forall i :: 0 <= i < |shadows| && shadows[i] != -1 ==>
        0 <= shadows[i] < MAX_SHEETS && (ctl.flags[shadows[i]] == SHEET_USE || ctl.height[shadows[i]] < 0)
      ensures Valid() && this.ctl == ctl && this.back == back && this.cur == cur && this.font == font && Slots() == []
    {
      hide Ctl.Faces, AllOwned, BarOnly;
      this.ctl, this.back, this.cur, this.font, this.shadows := ctl, back, cur, font, shadows;
      wins := new Slot[MAX_WINS](_ => Slot(-1, None, false));
      wincnt, login, drag, mmx, mmy := 0, -1, -1, -1, -1;
      mx, my := ctl.sheets0[cur].vx0, ctl.sheets0[cur].vy0;
      new;
      OwnState();
      AtBoot();
    }

    lemma AtBoot()
      requires Shape() && ctl.Valid() && wincnt == 0 && drag == -1 && login == -1
      requires 1 <= ctl.top && ctl.Visible()[0] == back && ctl.Visible()[ctl.top] == cur
      ensures Sound(Now()) && 0 <= back < MAX_SHEETS && 0 <= cur < MAX_SHEETS
    {
      hide Ctl.Ordered, Ctl.Backed;
      VisibleMeansSeated();
      BareIsSound(Now());
    }

    ghost predicate Shape() {
      && 0 <= back < MAX_SHEETS && 0 <= cur < MAX_SHEETS && wins.Length == MAX_WINS
      && ctl.Shape() && 0 < ctl.xsize
      && wins as object !in {ctl.sheets as object, ctl.height, ctl.flags, ctl.sheets0, ctl.owners, ctl.vram}
    }

    ghost predicate AllPoint()
      requires ctl.Shape()
      reads `drag, `login, ctl.height, ctl.flags
    {
      Pointers(ctl.flags[..], ctl.height[..], drag, login, shadows)
    }

    /** What painting the taskbar makes of the desktop's buffer. */
    ghost function Bar(): (seq<Slot>, seq<u32>) -> seq<u32>
      requires Shape()
    {
      Taskbar.BarOf(font, ctl.xsize, ctl.ysize)
    }

    ghost function Slots(): seq<Slot>
      requires 0 <= wincnt <= wins.Length
      reads `wincnt, wins
    {
      wins[..wincnt]
    }

    ghost function InUse(): set<int>
      requires ctl.Shape()
      reads ctl.flags
    {
      set i | 0 <= i < MAX_SHEETS && ctl.flags[i] == SHEET_USE
    }

    /** The manager's state as a value. */
    ghost function Now(): View
      requires Shape() && -1 <= ctl.top < MAX_SHEETS && 0 <= wincnt <= MAX_WINS
      reads this, wins, ctl, ctl.sheets, ctl.flags, ctl.sheets0, ctl.Bufs()
    {
      View(back, cur, ctl.Visible(), InUse(), Slots(), login, drag, mx, my, mmx, mmy, ctl.AllFaces(), Bar())
    }

    /** The cursor's sheet is where the pointer is. */
    ghost predicate CursorThere()
      requires Shape()
      reads `mx, `my, ctl.sheets0
    {
      ctl.sheets0[cur].vx0 == mx && ctl.sheets0[cur].vy0 == my
    }

    /** The owner map is right at every pixel. */
    ghost predicate MapRight()
      requires ctl.Valid()
      reads ctl, ctl.sheets, ctl.height, ctl.flags, ctl.sheets0, ctl.Bufs(), ctl.owners, ctl.vram
    {
      AllOwned(ctl.Faces(), ctl.Cache())
    }

    ghost predicate Base()
      reads `wincnt, ctl, ctl.sheets, ctl.height, ctl.flags, ctl.sheets0
    {
      Shape() && ctl.Valid() && 0 <= wincnt <= MAX_WINS
    }

    /** The pointers are good, the cursor's sheet is at the pointer, the desktop's sheet is as it should be. */
    ghost predicate Linked()
      requires Base()
      reads this, ctl, ctl.sheets, ctl.height, ctl.flags, ctl.sheets0
    {
      AllPoint() && CursorThere() && DesktopSheet(ctl, back)
    }

    ghost predicate Valid()
      reads this, wins, ctl, ctl.sheets, ctl.height, ctl.flags, ctl.sheets0, ctl.Bufs(), ctl.owners, ctl.vram
    {
      Base() && Linked() && Sound(Now()) && CursorOn(Now(), ctl.xsize, ctl.ysize) && MapRight()
    }

    /** The scene is what the compositor has to show, and every sheet in use has its face. */
    lemma SceneNow()
      requires Base()
      ensures Scene(Now()) == ctl.Faces() && Known(Now()) && |ctl.Faces()| == ctl.top + 1
    {
    }

    /** The manager's own fields are no pixels. */
    lemma OwnState()
      requires ctl.Shape()
      ensures this !in ctl.Bufs() && wins !in ctl.Bufs()
    {
    }

    // ---------- between the compositor's heights and the order ----------

    lemma VisibleMeansSeated()
      requires ctl.Valid()
      ensures forall i :: 0 <= i < MAX_SHEETS && ctl.flags[i] == SHEET_USE ==>
        -1 <= ctl.height[i] <= ctl.top && ctl.height[i] == IndexOf(ctl.Visible(), i)
      ensures forall k :: 0 <= k <= ctl.top ==>
        var s := ctl.Visible()[k]; 0 <= s < MAX_SHEETS && ctl.flags[s] == SHEET_USE && ctl.height[s] == k
      ensures forall i, j :: 0 <= i < j < |ctl.Visible()| ==> ctl.Visible()[i] != ctl.Visible()[j]
    {
      ctl.OrderIsInjective();
      forall i | 0 <= i < MAX_SHEETS && ctl.flags[i] == SHEET_USE
        ensures -1 <= ctl.height[i] <= ctl.top && ctl.height[i] == IndexOf(ctl.Visible(), i)
      {
        ctl.OrderedAt(i);
      }
    }

    lemma HeightIsIndex(sid: int)
      requires ctl.Valid() && 0 <= sid < MAX_SHEETS && ctl.flags[sid] == SHEET_USE
      ensures -1 <= ctl.height[sid] <= ctl.top && ctl.height[sid] == IndexOf(ctl.Visible(), sid)
    {
      VisibleMeansSeated();
    }

    lemma EndsAreSeated()
      requires Valid()
      ensures 1 <= ctl.top && ctl.flags[cur] == SHEET_USE && ctl.flags[back] == SHEET_USE
      ensures ctl.height[cur] == ctl.top && ctl.sheets[ctl.top] == cur && ctl.sheets[0] == back && ctl.height[back] == 0
      ensures back != cur
    {
      VisibleMeansSeated();
      SoundIsFramed(Now());
      assert ctl.Visible()[0] == back && ctl.Visible()[ctl.top] == cur;
    }

    // ---------- the moves ----------

    /** A window leaves the order. */
    method TakeOut(sid: int)
      requires Shape() && ctl.Valid() && 0 <= sid < MAX_SHEETS && ctl.flags[sid] == SHEET_USE
      modifies ctl, ctl.sheets, ctl.height, ctl.owners, ctl.vram
      ensures ctl.Valid() && ctl.Visible() == Remove(old(ctl.Visible()), sid) && ctl.height[sid] == -1
      ensures forall i :: 0 <= i < MAX_SHEETS && ctl.flags[i] != SHEET_USE ==> ctl.height[i] == old(ctl.height[i])
      ensures Carries(old(ctl.Faces()), old(ctl.Cache()), ctl.Faces(), ctl.Cache())
      ensures ctl.AllFaces() == old(ctl.AllFaces())
    {
      hide Without, StillRight, Carries, Ctl.Ordered, Ctl.Backed, Ctl.Faces, Ctl.AllFaces;
      ghost var st, c := ctl.Faces(), ctl.Cache();
      HeightIsIndex(sid);
      ctl.Updown(sid, -1);
      StillRightCarries(st, c, ctl.Faces(), ctl.Cache());
    }

    /** A visible window comes to just below the cursor. */
    method RaiseVisible(sid: int)
      requires Shape() && ctl.Valid() && 0 <= sid < MAX_SHEETS && ctl.flags[sid] == SHEET_USE
      requires 0 <= ctl.height[sid] < ctl.top
      requires ctl.flags[cur] == SHEET_USE && ctl.height[cur] == ctl.top && 1 <= ctl.top
      modifies ctl, ctl.sheets, ctl.height, ctl.owners, ctl.vram
      ensures ctl.Valid() && Remove(old(ctl.Visible()), sid) != []
      ensures ctl.Visible() == BelowLast(old(ctl.Visible()), sid)
      ensures IndexOf(ctl.Visible(), cur) == ctl.top
      ensures forall i :: 0 <= i < MAX_SHEETS && ctl.flags[i] != SHEET_USE ==> ctl.height[i] == old(ctl.height[i])
      ensures Carries(old(ctl.Faces()), old(ctl.Cache()), ctl.Faces(), ctl.Cache())
      ensures ctl.AllFaces() == old(ctl.AllFaces())
    {
      hide Without, Restack, Remove, BelowLast, IndexOf, StillRight, Carries, Ctl.Ordered, Ctl.Backed, Ctl.Faces,
        Ctl.AllFaces;
      ghost var st, c := ctl.Faces(), ctl.Cache();
      NothingChanges(st, c);
      HeightIsIndex(sid);
      HeightIsIndex(cur);
      ghost var order := ctl.Visible();
      RestackBelow(order, sid);
      if ctl.height[sid] < ctl.top - 1 {
        ctl.Updown(sid, ctl.top - 1);
      }
      BelowLastEnds(order, sid, cur);
      StillRightCarries(st, c, ctl.Faces(), ctl.Cache());
    }

    /** A hidden window comes to just below the cursor. */
    method ShowHidden(sid: int)
      requires Shape() && ctl.Valid() && 0 <= sid < MAX_SHEETS && ctl.flags[sid] == SHEET_USE && ctl.height[sid] < 0
      requires ctl.flags[cur] == SHEET_USE && ctl.height[cur] == ctl.top && 1 <= ctl.top
      modifies ctl, ctl.sheets, ctl.height, ctl.owners, ctl.vram
      ensures ctl.Valid() && Remove(old(ctl.Visible()), sid) != []
      ensures ctl.Visible() == BelowLast(old(ctl.Visible()), sid)
      ensures IndexOf(ctl.Visible(), cur) == ctl.top
      ensures forall i :: 0 <= i < MAX_SHEETS && ctl.flags[i] != SHEET_USE ==> ctl.height[i] == old(ctl.height[i])
      ensures Carries(old(ctl.Faces()), old(ctl.Cache()), ctl.Faces(), ctl.Cache())
      ensures ctl.AllFaces() == old(ctl.AllFaces())
    {
      hide Without, Restack, Remove, BelowLast, IndexOf, StillRight, Carries, Ctl.Ordered, Ctl.Backed, Ctl.Faces,
        Ctl.AllFaces;
      ghost var st, c := ctl.Faces(), ctl.Cache();
      HeightIsIndex(sid);
      HeightIsIndex(cur);
      ghost var order := ctl.Visible();
      RestackBelow(order, sid);
      ctl.Updown(sid, ctl.top);
      BelowLastEnds(order, sid, cur);
      StillRightCarries(st, c, ctl.Faces(), ctl.Cache());
    }

    /** The cursor is asked to the top, where it already is. */
    method RaiseCursor()
      requires Shape() && ctl.Valid() && ctl.flags[cur] == SHEET_USE && IndexOf(ctl.Visible(), cur) == ctl.top
      modifies ctl, ctl.sheets, ctl.height, ctl.owners, ctl.vram
      ensures ctl.Valid() && ctl.Visible() == old(ctl.Visible()) && ctl.height[..] == old(ctl.height[..])
      ensures ctl.Faces() == old(ctl.Faces())
      ensures Carries(old(ctl.Faces()), old(ctl.Cache()), ctl.Faces(), ctl.Cache())
      ensures ctl.AllFaces() == old(ctl.AllFaces())
    {
      hide Without, Insert, StillRight, Carries, Ctl.Ordered, Ctl.Backed, Ctl.Faces, Ctl.AllFaces;
      ghost var st, c := ctl.Faces(), ctl.Cache();
      HeightIsIndex(cur);
      ctl.FacesDecided();
      ghost var all := ctl.AllFaces();
      RestackInPlace(ctl.Visible(), cur, ctl.top);
      ctl.Updown(cur, ctl.top);
      ctl.FacesDecided();
      assert ctl.Faces() == st;
      StillRightCarries(st, c, ctl.Faces(), ctl.Cache());
    }

    // A window comes up, the cursor after it.

    method RaiseShown(sid: int)
      requires Shape() && ctl.Valid() && 0 <= sid < MAX_SHEETS && ctl.flags[sid] == SHEET_USE
      requires 0 <= ctl.height[sid] < ctl.top
      requires ctl.flags[cur] == SHEET_USE && ctl.height[cur] == ctl.top && 1 <= ctl.top
      modifies ctl, ctl.sheets, ctl.height, ctl.owners, ctl.vram
      ensures ctl.Valid() && Remove(old(ctl.Visible()), sid) != []
      ensures ctl.Visible() == BelowLast(old(ctl.Visible()), sid)
      ensures forall i :: 0 <= i < MAX_SHEETS && ctl.flags[i] != SHEET_USE ==> ctl.height[i] == old(ctl.height[i])
      ensures Carries(old(ctl.Faces()), old(ctl.Cache()), ctl.Faces(), ctl.Cache())
      ensures ctl.AllFaces() == old(ctl.AllFaces())
    {
      hide Remove, BelowLast, IndexOf, Carries, Between, Ctl.Ordered, Ctl.Backed, Ctl.Faces, Ctl.AllFaces;
      ghost var st, c := ctl.Faces(), ctl.Cache();
      RaiseVisible(sid);
      ghost var st1, c1 := ctl.Faces(), ctl.Cache();
      RaiseCursor();
      BetweenSelf(st, st1);
      CarriesOn(st, c, st1, c1, st1, ctl.Cache());
    }

    method RaiseHidden(sid: int)
      requires Shape() && ctl.Valid() && 0 <= sid < MAX_SHEETS && ctl.flags[sid] == SHEET_USE && ctl.height[sid] < 0
      requires ctl.flags[cur] == SHEET_USE && ctl.height[cur] == ctl.top && 1 <= ctl.top
      modifies ctl, ctl.sheets, ctl.height, ctl.owners, ctl.vram
      ensures ctl.Valid() && Remove(old(ctl.Visible()), sid) != []
      ensures ctl.Visible() == BelowLast(old(ctl.Visible()), sid)
      ensures forall i :: 0 <= i < MAX_SHEETS && ctl.flags[i] != SHEET_USE ==> ctl.height[i] == old(ctl.height[i])
      ensures Carries(old(ctl.Faces()), old(ctl.Cache()), ctl.Faces(), ctl.Cache())
      ensures ctl.AllFaces() == old(ctl.AllFaces())
    {
      hide Remove, BelowLast, IndexOf, Carries, Between, Ctl.Ordered, Ctl.Backed, Ctl.Faces, Ctl.AllFaces;
      ghost var st, c := ctl.Faces(), ctl.Cache();
      ShowHidden(sid);
      ghost var st1, c1 := ctl.Faces(), ctl.Cache();
      RaiseCursor();
      BetweenSelf(st, st1);
      CarriesOn(st, c, st1, c1, st1, ctl.Cache());
    }

    /** taskbar_draw: the taskbar painted into the desktop's buffer. */
    method PaintBar()
      requires Base() && DesktopSheet(ctl, back)
      modifies ctl.sheets0[back].buf
      ensures Base() && Now() == BarDrawn(old(Now())) && ctl.Cache() == old(ctl.Cache())
      ensures BarShown(BarDrawn(old(Now())))
    {
      hide Ctl.Ordered, Ctl.Backed, Ctl.Faces, BarOnly;
      ctl.BufsApart();
      ghost var v := Now();
      var buf := ctl.sheets0[back].buf;
      DesktopFits();
      Taskbar.Paint(buf, font, wins[..wincnt], ctl.xsize, ctl.ysize);
      forall i | 0 <= i < MAX_SHEETS && i != back ensures ctl.Face(i) == v.faces[i] { OtherBuffer(i); }
      DesktopRepainted(v, buf[..]);
      Taskbar.BarRepaints(font, ctl.xsize, ctl.ysize);
      DrawnIsShown(v);
    }

    lemma DesktopFits()
      requires Base() && DesktopSheet(ctl, back)
      ensures Taskbar.Fits(ctl.sheets0[back].buf.Length, ctl.xsize, ctl.ysize)
    {
      hide Ctl.Ordered;
    }

    lemma OtherBuffer(i: int)
      requires ctl.Shape() && 0 <= back < MAX_SHEETS && DesktopSheet(ctl, back) && 0 <= i < MAX_SHEETS && i != back
      ensures ctl.sheets0[i].buf != ctl.sheets0[back].buf
    {
    }

    lemma DesktopRepainted(v: View, pixels: seq<u32>)
      requires ctl.Shape() && 0 <= back < MAX_SHEETS && |v.faces| == MAX_SHEETS
      requires forall i :: 0 <= i < MAX_SHEETS && i != back ==> ctl.Face(i) == v.faces[i]
      requires ctl.Face(back) == v.faces[back].(buf := pixels)
      ensures ctl.AllFaces() == v.faces[back := v.faces[back].(buf := pixels)]
    {
    }

    /** taskbar_draw, then the bottom rows of the desktop redrawn. */
    method TaskbarDraw()
      requires Base() && Linked() && Framed(Now())
      modifies ctl.sheets0[back].buf, ctl.vram
      ensures Base() && Linked() && Now() == BarDrawn(old(Now())) && BarShown(Now())
      ensures Carries(old(ctl.Faces()), old(ctl.Cache()), ctl.Faces(), ctl.Cache())
    {
      hide StillRight, RegionShown, Carries, Framed, Ctl.Ordered, Ctl.Backed, Ctl.Faces, Ctl.AllFaces, BarOnly,
        BarDrawn, BarShown, Scene, DistinctSids, Known;
      ghost var v, c := Now(), ctl.Cache();
      SceneNow();
      DesktopAtBottom();
      SceneOfBar(v, ctl.xsize, ctl.ysize);
      ctl.FacesDistinct();
      PaintBar();
      SceneNow();
      ctl.Refresh(back, 0, ctl.ysize - TASKBAR, ctl.xsize, ctl.ysize, shadows);
      BottomRepainted(Scene(v), BarDrawn(v).faces[back].buf, BarRect(v.faces[back], ctl.xsize, ctl.ysize), c,
        ctl.Cache());
    }

    lemma DesktopAtBottom()
      requires Base() && DesktopSheet(ctl, back) && Framed(Now())
      ensures ctl.flags[back] == SHEET_USE && ctl.height[back] == 0 && |Now().faces| == MAX_SHEETS
      ensures 0 <= ctl.top && ctl.sheets[0] == back
      ensures BarOnly(Bar(), Now().faces[back].(buf := []), ctl.xsize, ctl.ysize)
      ensures var l, s := Now().faces[back], ctl.sheets0[back]; l.x == s.vx0 && l.y == s.vy0 && l.key == OPAQUE_KEY
    {
      hide BarOnly, Taskbar.BarOf;
      HeightIsIndex(back);
      Taskbar.InTheBar(font, Now().faces[back].(buf := []), ctl.xsize, ctl.ysize);
    }

    // ---------- the taskbar ----------

    method FindSlot(s: int) returns (b: int)
      requires Valid()
      ensures Valid() && Now() == old(Now()) && b == SlotOf(Slots(), s, 0)
      ensures ctl.Faces() == old(ctl.Faces()) && ctl.Cache() == old(ctl.Cache())
    {
      hide Sound, AllOwned, Linked, Ctl.Ordered, Ctl.Backed, Ctl.Faces, Ctl.AllFaces;
      b := 0;
      while b < wincnt
        invariant 0 <= b <= wincnt
        invariant SlotOf(Slots(), s, 0) == SlotOf(Slots(), s, b)
      {
        if wins[b].sht == s { return; }
        b := b + 1;
      }
      b := -1;
    }

    method FindButton(x: int) returns (b: int)
      requires Valid()
      ensures Valid() && Now() == old(Now()) && b == ButtonAt(Slots(), x, 0)
      ensures ctl.Faces() == old(ctl.Faces()) && ctl.Cache() == old(ctl.Cache())
    {
      hide Sound, AllOwned, Linked, Ctl.Ordered, Ctl.Backed, Ctl.Faces, Ctl.AllFaces;
      b := 0;
      while b < wincnt
        invariant 0 <= b <= wincnt
        invariant ButtonAt(Slots(), x, 0) == ButtonAt(Slots(), x, b)
      {
        var bx := 8 + b * 148;
        if !(x < bx || x >= bx + 140 || wins[b].title.None?) { return; }
        b := b + 1;
      }
      b := -1;
    }

    lemma SlotWindow(b: int)
      requires Valid() && 0 <= b < wincnt
      ensures var s := wins[b].sht;
        0 <= s < MAX_SHEETS && ctl.flags[s] == SHEET_USE && ctl.height[s] < ctl.top
          && (wins[b].min <==> ctl.height[s] < 0)
    {
      EndsAreSeated();
      assert Slots()[b] == wins[b];
      HeightIsIndex(wins[b].sht);
    }

    /** The part of minimizing that comes before the taskbar is drawn. */
    method HideWindow(b: int)
      requires Valid() && 0 <= b < wincnt
      modifies `drag, wins, ctl, ctl.sheets, ctl.height, ctl.owners, ctl.vram
      ensures Base() && Linked() && Now() == SlotHidden(old(Now()), b)
      ensures Carries(old(ctl.Faces()), old(ctl.Cache()), ctl.Faces(), ctl.Cache())
    {
      hide Remove, Sound, Carries, AllOwned, DesktopSheet, Pointers, Ctl.Ordered, Ctl.Backed, Ctl.Faces, Ctl.AllFaces;
      OwnState();
      ghost var v, st, c, heights := Now(), ctl.Faces(), ctl.Cache(), ctl.height[..];
      SlotWindow(b);
      var s := wins[b].sht;
      wins[b] := wins[b].(min := true);
      assert ctl.Faces() == st && ctl.Cache() == c;
      TakeOut(s);
      PointersStay(ctl.flags[..], heights, ctl.height[..], drag, login, shadows);
      if drag == s { drag := -1; }
      assert Slots() == v.slots[b := v.slots[b].(min := true)];
    }

    /** Minimize the window of a slot. */
    method MinimizeSlot(b: int)
      requires Valid() && 0 <= b < wincnt
      modifies `drag, wins, ctl, ctl.sheets, ctl.height, ctl.owners, ctl.vram, ctl.sheets0[back].buf
      ensures Valid() && Now() == HideSlot(old(Now()), b)
      ensures Carries(old(ctl.Faces()), old(ctl.Cache()), ctl.Faces(), ctl.Cache())
    {
      hide Remove, Sound, Carries, Scene, Between, AllOwned, Linked, BarDrawn, Ctl.Ordered, Ctl.Backed, Ctl.Faces,
        Ctl.AllFaces;
      ghost var v, st, c := Now(), ctl.Faces(), ctl.Cache();
      HideSlotKeeps(v, b);
      SceneNow();
      HideWindow(b);
      ghost var st1, c1 := ctl.Faces(), ctl.Cache();
      SceneNow();
      HiddenIsFramed(v, b, Scene(HideSlot(v, b)));
      TaskbarDraw();
      SceneNow();
      CarriesOn(st, c, st1, c1, ctl.Faces(), ctl.Cache());
      CarriesOwned(st, c, ctl.Faces(), ctl.Cache());
    }

    /** The part of restoring that comes before the taskbar is drawn. */
    method UnhideWindow(b: int)
      requires Valid() && 0 <= b < wincnt && wins[b].min
      modifies wins, ctl, ctl.sheets, ctl.height, ctl.owners, ctl.vram
      ensures Base() && Linked() && Remove(old(Now()).order, old(Now()).slots[b].sht) != []
      ensures Now() == SlotShown(old(Now()), b)
      ensures Carries(old(ctl.Faces()), old(ctl.Cache()), ctl.Faces(), ctl.Cache())
    {
      hide Remove, BelowLast, Sound, Carries, Between, AllOwned, DesktopSheet, Pointers, Ctl.Ordered, Ctl.Backed,
        Ctl.Faces, Ctl.AllFaces;
      OwnState();
      ghost var v, st, c, heights := Now(), ctl.Faces(), ctl.Cache(), ctl.height[..];
      SlotWindow(b);
      EndsAreSeated();
      var s := wins[b].sht;
      wins[b] := wins[b].(min := false);
      assert ctl.Faces() == st && ctl.Cache() == c;
      RaiseHidden(s);
      PointersStay(ctl.flags[..], heights, ctl.height[..], drag, login, shadows);
      assert Slots() == v.slots[b := v.slots[b].(min := false)];
    }

    /** Restore the window of a slot. */
    method RestoreFromSlot(b: int)
      requires Valid() && 0 <= b < wincnt && wins[b].min
      modifies wins, ctl, ctl.sheets, ctl.height, ctl.owners, ctl.vram, ctl.sheets0[back].buf
      ensures Valid() && Remove(old(Now()).order, old(Now()).slots[b].sht) != [] && Now() == RestoreSlot(old(Now()), b)
      ensures Carries(old(ctl.Faces()), old(ctl.Cache()), ctl.Faces(), ctl.Cache())
    {
      hide Remove, BelowLast, Sound, Carries, Scene, Between, AllOwned, Linked, BarDrawn, Ctl.Ordered, Ctl.Backed,
        Ctl.Faces, Ctl.AllFaces;
      ghost var v, st, c := Now(), ctl.Faces(), ctl.Cache();
      RestoreSlotKeeps(v, b);
      SceneNow();
      UnhideWindow(b);
      ghost var st1, c1 := ctl.Faces(), ctl.Cache();
      SceneNow();
      ShownIsFramed(v, b);
      TaskbarDraw();
      SceneNow();
      CarriesOn(st, c, st1, c1, ctl.Faces(), ctl.Cache());
      CarriesOwned(st, c, ctl.Faces(), ctl.Cache());
    }

    /** win_minimize. */
    method MinimizeWindow(s: int)
      requires Valid() && 0 <= s < MAX_SHEETS && (ctl.flags[s] == SHEET_USE || ctl.height[s] < 0)
      modifies `drag, wins, ctl, ctl.sheets, ctl.height, ctl.owners, ctl.vram, ctl.sheets0[back].buf
      ensures Valid() && Now() == Minimize(old(Now()), s)
      ensures Carries(old(ctl.Faces()), old(ctl.Cache()), ctl.Faces(), ctl.Cache())
    {
      hide Sound, HideSlot, Carries, AllOwned, Linked, Ctl.Ordered, Ctl.Backed, Ctl.Faces, Ctl.AllFaces, SlotOf;
      CarriesItself(ctl.Faces(), ctl.Cache());
      var b := FindSlot(s);
      if b != -1 {
        SlotWindow(b);
        HeightIsIndex(s);
        if ctl.height[s] >= 0 {
          MinimizeSlot(b);
        }
      }
    }

    /** taskbar_click. */
    method ClickTaskbar(x: int, y: int)
      requires Valid()
      modifies `drag, wins, ctl, ctl.sheets, ctl.height, ctl.owners, ctl.vram, ctl.sheets0[back].buf
      ensures Valid() && |old(Now()).order| >= 2 && Now() == TaskbarClick(old(Now()), x, y, ctl.ysize)
      ensures Carries(old(ctl.Faces()), old(ctl.Cache()), ctl.Faces(), ctl.Cache())
    {
      hide Sound, HideSlot, RestoreSlot, Carries, AllOwned, Linked, Ctl.Ordered, Ctl.Backed, Ctl.Faces, Ctl.AllFaces,
        ButtonAt;
      SoundIsFramed(Now());
      CarriesItself(ctl.Faces(), ctl.Cache());
      if y >= ctl.ysize - TASKBAR {
        var b := FindButton(x);
        if b != -1 {
          if wins[b].min {
            RestoreFromSlot(b);
          } else {
            MinimizeSlot(b);
          }
        }
      }
    }

    /** A visible window gets a taskbar entry. */
    method Register(s: int, title: Option<seq<u8>>)
      requires Valid() && wincnt < MAX_WINS && 0 <= s < MAX_SHEETS && s != back && s != cur && s in ctl.Visible()
      requires SlotOf(Slots(), s, 0) == -1
      modifies wins, `wincnt
      ensures Valid() && Now() == old(Now()).(slots := old(Slots()) + [Slot(s, title, false)])
    {
      hide SlotOf, AllOwned, DesktopSheet, Pointers, Ctl.Ordered, Ctl.Backed, Ctl.Faces, Ctl.AllFaces;
      OwnState();
      ghost var slots := Slots();
      wins[wincnt] := Slot(s, title, false);
      wincnt := wincnt + 1;
      assert Slots() == slots + [Slot(s, title, false)];
    }

    /** The shift in win_remove. */
    method DropEntry(b: int)
      requires 0 <= b < wincnt <= wins.Length
      modifies wins, `wincnt
      ensures 0 <= wincnt == old(wincnt) - 1 && Slots() == Without(old(Slots()), b)
    {
      var k2 := b;
      while k2 < wincnt - 1
        invariant b <= k2 <= wincnt - 1 && wincnt == old(wincnt)
        invariant forall k {:trigger wins[k]} :: 0 <= k < wincnt ==>
          wins[k] == if b <= k < k2 then old(wins[k + 1]) else old(wins[k])
      {
        wins[k2] := wins[k2 + 1];
        k2 := k2 + 1;
      }
      wincnt := wincnt - 1;
    }

    /** win_remove. */
    method RemoveEntry(s: int)
      requires Valid()
      modifies wins, `wincnt, `login
      ensures Valid() && Now() == RemoveSlot(old(Now()), s)
    {
      hide SlotOf, Without, Sound, AllOwned, DesktopSheet, Pointers, Ctl.Ordered, Ctl.Backed, Ctl.Faces, Ctl.AllFaces;
      OwnState();
      ghost var v, st, c := Now(), ctl.Faces(), ctl.Cache();
      RemoveSlotKeeps(v, s);
      NoLogin(ctl.flags[..], ctl.height[..], drag, login, shadows);
      var b := FindSlot(s);
      if b != -1 {
        DropEntry(b);
        if login == s { login := -1; }
        assert ctl.Faces() == st && ctl.Cache() == c;
      }
    }

    /** sheet_free of a window. */
    method FreeSheet(s: int)
      requires Valid() && 0 <= s < MAX_SHEETS && ctl.flags[s] == SHEET_USE
      modifies ctl, ctl.sheets, ctl.height, ctl.flags, ctl.owners, ctl.vram
      ensures Base() && Linked() && ctl.flags[s] != SHEET_USE
      ensures Now() == old(Now()).(order := Remove(old(Now()).order, s), used := old(Now()).used - {s})
    {
      hide Sound, Without, StillRight, AllOwned, DesktopSheet, Pointers, Ctl.Ordered, Ctl.Backed, Ctl.Faces,
        Ctl.AllFaces;
      HeightIsIndex(s);
      ghost var flags, heights := ctl.flags[..], ctl.height[..];
      ctl.Free(s);
      PointersAfterFree(flags, heights, ctl.height[..], s, drag, login, shadows);
      assert forall i :: 0 <= i < MAX_SHEETS ==> ctl.flags[i] == if i == s then 0 else old(ctl.flags[i]);
    }

    /** win_closed: the window leaves the taskbar, the order and the pool; then everything is redrawn. */
    method CloseWindow(s: int)
      requires Valid() && 0 <= s < MAX_SHEETS && s != back && s != cur && ctl.flags[s] == SHEET_USE
      modifies wins, `wincnt, `login, ctl, ctl.sheets, ctl.height, ctl.flags, ctl.owners, ctl.vram,
        ctl.sheets0[back].buf
      ensures Valid() && Now() == Close(old(Now()), s) && Painted(ctl.Faces(), ctl.Cache())
    {
      hide Sound, RemoveSlot, Remove, Painted, AllOwned, Linked, BarDrawn, Refilled, Ctl.Ordered, Ctl.Backed, Ctl.Faces,
        Ctl.AllFaces;
      ghost var v := Now();
      CloseKeeps(v, s);
      RemoveSlotLeaves(v, s);
      RemoveEntry(s);
      FreeSheet(s);
      ClosedIsFramed(v, Now(), s);
      RedrawAll();
      PaintedOwned(ctl.Faces(), ctl.Cache());
      RefilledPointer(v, s);
    }

    method RedrawAll()
      requires Base() && Linked() && Framed(Now())
      modifies ctl.owners, ctl.vram, ctl.sheets0[back].buf
      ensures Base() && Linked() && Now() == Refilled(BarDrawn(old(Now()))) && Painted(ctl.Faces(), ctl.Cache())
    {
      hide Painted, BarOnly, Framed, Ctl.Ordered, Ctl.Backed, Ctl.Faces, DesktopPixels, Ctl.AllFaces, BarDrawn,
        Refilled;
      DesktopAtBottom();
      PaintBar();
      Refill();
    }

    method Refill()
      requires Base() && DesktopSheet(ctl, back) && 0 <= ctl.top && ctl.sheets[0] == back
      modifies ctl.owners, ctl.vram, ctl.sheets0[back].buf
      ensures Base() && Now() == Refilled(old(Now())) && Painted(ctl.Faces(), ctl.Cache())
    {
      hide Painted, BarOnly, Ctl.Ordered, Ctl.Backed, Ctl.Faces, DesktopPixels;
      ctl.BufsApart();
      ghost var v := Now();
      var slots, w, h := wins[..wincnt], ctl.xsize, ctl.ysize;
      ctl.RefreshAll(buf => Taskbar.BarOf(font, w, h)(slots, buf));
      forall i | 0 <= i < MAX_SHEETS && i != back ensures ctl.Face(i) == v.faces[i] { OtherBuffer(i); }
      DesktopRepainted(v, ctl.sheets0[back].buf[..]);
    }

    // ---------- the mouse ----------

    /** The hit loop of isr2c_handler: from the top down, leaving out the cursor and the desktop. */
    method FindHit() returns (j: int)
      requires Valid()
      ensures Valid() && Now() == old(Now()) && ctl.Cache() == old(ctl.Cache())
      ensures 0 <= j <= ctl.top && j == TopHit(ctl.Faces(), cur, mx, my, ctl.top)
      ensures ctl.Faces() == old(ctl.Faces())
      ensures |ctl.Faces()| == ctl.top + 1 == |Now().order| && (j > 0 ==> ctl.Faces()[j].sid != cur)
    {
      hide Sound, Hit, Ctl.FacesOf, Ctl.Backed, Ctl.Face, Ctl.Faces, Ctl.AllFaces, Ctl.Ordered, DistinctSids, AllOwned,
        Linked;
      ghost var v, st, c := Now(), ctl.Faces(), ctl.Cache();
      j := ctl.top;
      EndsAreSeated();
      FacesCounted();
      while j > 0
        invariant Valid() && Now() == v && ctl.Cache() == c && 0 <= j <= ctl.top && ctl.Faces() == st
        invariant TopHit(st, cur, mx, my, ctl.top) == TopHit(st, cur, mx, my, j)
      {
        var sid := ctl.sheets[j];
        FaceAt(j);
        if sid != cur {
          var hit := Lands(sid, mx, my);
          if hit { return; }
        }
        j := j - 1;
      }
    }

    lemma FacesCounted()
      requires ctl.Valid()
      ensures |ctl.Faces()| == ctl.top + 1
    {
    }

    lemma FaceAt(j: int)
      requires ctl.Valid() && 0 <= j <= ctl.top
      ensures 0 <= ctl.sheets[j] < MAX_SHEETS && ctl.Faces()[j] == ctl.Face(ctl.sheets[j])
      ensures ctl.Faces()[j].sid == ctl.sheets[j]
    {
    }

    method Lands(sid: int, x: int, y: int) returns (hit: bool)
      requires Valid() && 0 <= sid < MAX_SHEETS
      ensures hit == Hit(old(ctl.Face(sid)), x, y) && ctl.Faces() == old(ctl.Faces())
      ensures Valid() && Now() == old(Now()) && ctl.Cache() == old(ctl.Cache())
    {
      hide Cell, Sound, Linked, AllOwned, Ctl.Faces, Ctl.AllFaces, Ctl.Ordered;
      var s := ctl.sheets0[sid];
      var bx, py := x - s.vx0, y - s.vy0;
      if 0 <= bx && bx < s.bxsize && 0 <= py && py < s.bysize {
        CellInRange(s.bxsize, s.bysize, bx, py);
        var pix := s.buf[Cell(s.bxsize, bx, py)];
        assert pix == Pix(ctl.Face(sid), x, y);
        return pix != COL_INV;
      }
      return false;
    }

    /** The part of a press that comes before the buttons are looked at. */
    method RaisePressed(s: int)
      requires Valid() && 0 <= s < MAX_SHEETS && s != back && s != cur && ctl.flags[s] == SHEET_USE
      requires ctl.height[s] >= 0
      modifies ctl, ctl.sheets, ctl.height, ctl.owners, ctl.vram
      ensures Valid() && Remove(old(Now()).order, s) != []
      ensures Now() == old(Now()).(order := BelowLast(old(Now()).order, s))
      ensures s in ctl.Visible()
      ensures Carries(old(ctl.Faces()), old(ctl.Cache()), ctl.Faces(), ctl.Cache())
    {
      hide Sound, IndexOf, Remove, BelowLast, Carries, AllOwned, DesktopSheet, Pointers, Ctl.Ordered, Ctl.Backed,
        Ctl.Faces, Ctl.AllFaces;
      HeightIsIndex(s);
      EndsAreSeated();
      RaiseKeeps(Now(), s);
      ghost var st, c, heights := ctl.Faces(), ctl.Cache(), ctl.height[..];
      RaiseShown(s);
      PointersStay(ctl.flags[..], heights, ctl.height[..], drag, login, shadows);
      CarriesOwned(st, c, ctl.Faces(), ctl.Cache());
    }

    /** What the button or the title bar of a pressed window does. */
    method ActOnWindow(s: int, x: int, y: int)
      requires Valid() && 0 <= s < MAX_SHEETS && s != back && s != cur && ctl.flags[s] == SHEET_USE
      modifies `drag, `mmx, `mmy, `login, `wincnt, wins, ctl, ctl.sheets, ctl.height, ctl.flags, ctl.owners, ctl.vram,
        ctl.sheets0[back].buf
      ensures Valid() && Now() == ActOn(old(Now()), s, x, y, ctl.sheets0[s].bxsize)
      ensures Carries(old(ctl.Faces()), old(ctl.Cache()), ctl.Faces(), ctl.Cache())
      ensures Now().used != old(Now()).used ==> Painted(ctl.Faces(), ctl.Cache())
    {
      hide Sound, Close, Minimize, EndDrag, InClose, InMin, InTitle, Carries, AllOwned, Linked, Painted,
        Ctl.Ordered, Ctl.Backed, Ctl.Faces, Ctl.AllFaces;
      ghost var st, c := ctl.Faces(), ctl.Cache();
      CarriesItself(st, c);
      var w := ctl.sheets0[s].bxsize;
      if s != login && InClose(x, y, w) {
        CloseWindow(s);
        PaintedCarries(st, c, ctl.Faces(), ctl.Cache());
        StopDragging();
      } else if InMin(x, y, w) {
        MinimizeUsed(Now(), s);
        MinimizeWindow(s);
        StopDragging();
      } else if InTitle(x, y, w) {
        StartDragging(s);
      }
    }

    /** A press on window s at (x, y) inside it. */
    method PressWindow(s: int, x: int, y: int)
      requires Valid() && 0 <= s < MAX_SHEETS && s != back && s != cur && ctl.flags[s] == SHEET_USE
      requires ctl.height[s] >= 0
      modifies `drag, `mmx, `mmy, `login, `wincnt, wins, ctl, ctl.sheets, ctl.height, ctl.flags, ctl.owners, ctl.vram,
        ctl.sheets0[back].buf
      ensures Valid() && |old(Now()).order| >= 2 && Now() == Press(old(Now()), s, x, y, ctl.sheets0[s].bxsize)
      ensures Carries(old(ctl.Faces()), old(ctl.Cache()), ctl.Faces(), ctl.Cache())
      ensures Now().used != old(Now()).used ==> Painted(ctl.Faces(), ctl.Cache())
    {
      hide Sound, Painted, Remove, BelowLast, ActOn, Carries, Scene, Between, AllOwned, Linked, Ctl.Ordered, Ctl.Backed,
        Ctl.Faces, Ctl.AllFaces;
      SoundIsFramed(Now());
      HeightIsIndex(s);
      ghost var v, st, c := Now(), ctl.Faces(), ctl.Cache();
      SceneNow();
      RaisePressed(s);
      ghost var v1, st1, c1 := Now(), ctl.Faces(), ctl.Cache();
      SceneNow();
      ActOnWindow(s, x, y);
      RaisedSees(v, v1, s, ctl.Faces());
      CarriesOn(st, c, st1, c1, ctl.Faces(), ctl.Cache());
    }

    method StopDragging()
      requires Valid()
      modifies `drag, `mmx
      ensures Valid() && Now() == EndDrag(old(Now()))
      ensures ctl.Faces() == old(ctl.Faces()) && ctl.Cache() == old(ctl.Cache())
    {
      hide Sound, AllOwned, DesktopSheet, Ctl.Ordered, Ctl.Backed, Ctl.Faces, Ctl.AllFaces;
      OwnState();
      DragKeeps(Now(), -1, -1, mmy);
      mmx := -1;
      drag := -1;
    }

    method StartDragging(s: int)
      requires Valid() && 0 <= s < MAX_SHEETS && s != back && s != cur && ctl.flags[s] == SHEET_USE
      modifies `drag, `mmx, `mmy
      ensures Valid() && Now() == old(Now()).(mmx := mx, mmy := my, drag := s)
      ensures ctl.Faces() == old(ctl.Faces()) && ctl.Cache() == old(ctl.Cache())
    {
      hide Sound, AllOwned, DesktopSheet, Ctl.Ordered, Ctl.Backed, Ctl.Faces, Ctl.AllFaces;
      OwnState();
      DragKeeps(Now(), s, mx, my);
      mmx, mmy := mx, my;
      drag := s;
    }

    lemma HitIsWindow(j: int)
      requires Valid() && 0 < j <= ctl.top && ctl.Faces()[j].sid != cur
      ensures var s := ctl.sheets[j];
        && 0 <= s < MAX_SHEETS && s != back && s != cur && ctl.flags[s] == SHEET_USE && ctl.height[s] == j
        && Now().order[j] == s
      ensures var s, l := ctl.sheets[j], ctl.Faces()[j];
        l.x == ctl.sheets0[s].vx0 && l.y == ctl.sheets0[s].vy0 && l.w == ctl.sheets0[s].bxsize
    {
      hide AllOwned, Linked, Ctl.AllFaces;
      EndsAreSeated();
      VisibleMeansSeated();
      assert ctl.Faces()[j] == ctl.Face(ctl.sheets[j]);
      assert ctl.Visible()[j] == ctl.sheets[j];
    }

    /** A press on the window at height j. */
    method PressHit(j: int)
      requires Valid() && 0 < j <= ctl.top && ctl.Faces()[j].sid != cur
      modifies `drag, `mmx, `mmy, `login, `wincnt, wins, ctl, ctl.sheets, ctl.height, ctl.flags, ctl.owners, ctl.vram,
        ctl.sheets0[back].buf
      ensures Valid() && |old(Now()).order| >= 2
      ensures var v, l := old(Now()), old(ctl.Faces()[j]);
        j < |v.order| && Now() == Press(v, v.order[j], v.mx - l.x, v.my - l.y, l.w)
      ensures Carries(old(ctl.Faces()), old(ctl.Cache()), ctl.Faces(), ctl.Cache())
      ensures Now().used != old(Now()).used ==> Painted(ctl.Faces(), ctl.Cache())
    {
      hide Sound, Painted, Press, Carries, AllOwned, Linked, Ctl.Ordered, Ctl.Backed, Ctl.Face, Ctl.Faces, Ctl.AllFaces;
      var s := ctl.sheets[j];
      HitIsWindow(j);
      PressWindow(s, mx - ctl.sheets0[s].vx0, my - ctl.sheets0[s].vy0);
    }

    /** The left button while not dragging. */
    method LeftClick()
      requires Valid()
      modifies `drag, `mmx, `mmy, `login, `wincnt, wins, ctl, ctl.sheets, ctl.height, ctl.flags, ctl.owners, ctl.vram,
        ctl.sheets0[back].buf
      ensures Valid() && |old(Now()).order| >= 2 && Now() == Click(old(Now()), ctl.ysize)
      ensures Carries(old(ctl.Faces()), old(ctl.Cache()), ctl.Faces(), ctl.Cache())
      ensures Now().used != old(Now()).used ==> Painted(ctl.Faces(), ctl.Cache())
    {
      hide Sound, Painted, Press, Click, TaskbarClick, TopHit, Carries, Scene, AllOwned, Linked,
        Ctl.Ordered, Ctl.Backed, Ctl.FacesOf, Ctl.Face, Ctl.Faces, Ctl.AllFaces;
      SoundIsFramed(Now());
      CarriesItself(ctl.Faces(), ctl.Cache());
      ghost var st, v := ctl.Faces(), Now();
      SceneNow();
      if my >= ctl.ysize - TASKBAR {
        ClickIsTaskbar(v, ctl.ysize);
        TaskbarUsed(v, mx, my, ctl.ysize);
        ClickTaskbar(mx, my);
      } else {
        var j := FindHit();
        assert ctl.Faces() == st && Now() == v;
        ClickIsPress(v, ctl.ysize);
        if j > 0 {
          PressHit(j);
        }
      }
    }

    lemma DragIsNotCursor()
      requires Valid() && drag != -1
      ensures drag != cur && drag != back && 0 <= drag < MAX_SHEETS
      ensures ctl.flags[drag] == SHEET_USE || ctl.height[drag] < 0
    {
      hide AllOwned, Ctl.AllFaces, Ctl.Faces;
    }

    lemma TopIs(s: int)
      requires ctl.Valid() && 0 <= s < MAX_SHEETS && 0 <= ctl.height[s] == ctl.top && ctl.flags[s] == SHEET_USE
      ensures |ctl.Faces()| == ctl.top + 1 && ctl.Faces()[ctl.top] == ctl.Face(s) && ctl.Face(s).sid == s
      ensures DistinctSids(ctl.Faces())
    {
      hide Ctl.Ordered, Ctl.Backed, DistinctSids;
      ctl.SeatedAt(s);
      ctl.RectOfFace(s);
      ctl.FacesDistinct();
    }

    /** Move a sheet on the screen. */
    method SlideSheet(s: int, x: int, y: int)
      requires Base() && 0 <= s < MAX_SHEETS && (ctl.flags[s] == SHEET_USE || ctl.height[s] < 0)
      requires DesktopSheet(ctl, back) && s != back
      modifies ctl.sheets0, ctl.owners, ctl.vram
      ensures Base() && Now() == Placed(old(Now()), s, x, y)
      ensures ctl.sheets0[s] == old(ctl.sheets0[s]).(vx0 := x, vy0 := y)
      ensures forall i :: 0 <= i < MAX_SHEETS && i != s ==> ctl.sheets0[i] == old(ctl.sheets0[i])
      ensures DesktopSheet(ctl, back)
      ensures Carries(old(ctl.Faces()), old(ctl.Cache()), ctl.Faces(), ctl.Cache())
      ensures 0 <= ctl.height[s] == ctl.top && old(Painted(ctl.Faces(), ctl.Cache())) ==>
        Painted(ctl.Faces(), ctl.Cache())
    {
      hide StillRight, Carries, BarOnly, Painted, SlidIn, Ctl.Ordered, Ctl.Backed, Ctl.Faces, DistinctSids, Ctl.Face,
        Ctl.AllFaces;
      ghost var st, c := ctl.Faces(), ctl.Cache();
      ghost var onTop := ctl.height[s] == ctl.top && ctl.top >= 0;
      if onTop { TopIs(s); }
      ctl.Slide(s, x, y);
      assert forall i :: 0 <= i < MAX_SHEETS ==> ctl.sheets0[i] == ctl.sheets0[..][i];
      StillRightCarries(st, c, ctl.Faces(), ctl.Cache());
      if onTop && Painted(st, c) { SlideTopPaints(st, ctl.Face(s), c, ctl.Cache()); }
    }

    /** The dragged window, if there is one, moved by (dx, dy). */
    method DragSheet(dx: int, dy: int)
      requires Valid()
      modifies ctl.sheets0, ctl.owners, ctl.vram
      ensures Valid() && Now() == if drag == -1 then old(Now()) else Shifted(old(Now()), drag, dx, dy)
      ensures forall i :: 0 <= i < MAX_SHEETS ==> ctl.sheets0[i].buf == old(ctl.sheets0[i].buf)
      ensures Carries(old(ctl.Faces()), old(ctl.Cache()), ctl.Faces(), ctl.Cache())
    {
      hide Sound, Carries, AllOwned, DesktopSheet, Pointers, Shifted, Ctl.Ordered, Ctl.Backed, Ctl.Faces, Ctl.AllFaces;
      ghost var v, st, c := Now(), ctl.Faces(), ctl.Cache();
      CarriesItself(st, c);
      if drag != -1 {
        DragIsNotCursor();
        FacePlace(drag);
        ShiftIsPlace(v, drag, dx, dy);
        SlideSheet(drag, ctl.sheets0[drag].vx0 + dx, ctl.sheets0[drag].vy0 + dy);
        CarriesOwned(st, c, ctl.Faces(), ctl.Cache());
        SoundAlike(v, Now());
      }
    }

    /** The left button while dragging: the window follows the pointer once it has moved far enough. */
    method DragOn()
      requires Valid()
      modifies `mmx, `mmy, ctl.sheets0, ctl.owners, ctl.vram
      ensures Valid() && Now() == DragStep(old(Now()))
      ensures forall i :: 0 <= i < MAX_SHEETS ==> ctl.sheets0[i].buf == old(ctl.sheets0[i].buf)
      ensures Carries(old(ctl.Faces()), old(ctl.Cache()), ctl.Faces(), ctl.Cache())
    {
      hide Sound, Carries, AllOwned, DesktopSheet, Pointers, Shifted, Ctl.Ordered, Ctl.Backed, Ctl.Faces, Ctl.AllFaces;
      CarriesItself(ctl.Faces(), ctl.Cache());
      DragStepKeeps(Now());
      var x, y := mx - mmx, my - mmy;
      if x < -1 || x > 1 || y < -1 || y > 1 {
        DragSheet(x, y);
        OwnState();
        mmx, mmy := mx, my;
      }
    }

    lemma FacePlace(s: int)
      requires Shape() && -1 <= ctl.top < MAX_SHEETS && 0 <= wincnt <= MAX_WINS && 0 <= s < MAX_SHEETS
      ensures FaceOf(Now(), s).x == ctl.sheets0[s].vx0 && FaceOf(Now(), s).y == ctl.sheets0[s].vy0
    {
    }

    /** One assembled packet in isr2c_handler: buttons first, at the old position, then the pointer moves. */
    method OnPacket(left: bool, dx: int, dy: int)
      requires Valid()
      modifies this, wins, ctl, ctl.sheets, ctl.sheets0, ctl.height, ctl.flags, ctl.owners, ctl.vram,
        ctl.sheets0[back].buf
      ensures Valid() && |old(Now()).order| >= 2 && Now() == Packet(old(Now()), ctl.xsize, ctl.ysize, left, dx, dy)
      ensures ctl.sheets0[back].buf == old(ctl.sheets0[back].buf)
      ensures Carries(old(ctl.Faces()), old(ctl.Cache()), ctl.Faces(), ctl.Cache())
      ensures Paints(old(Now()), ctl.ysize, Mouse(left, dx, dy), old(Painted(ctl.Faces(), ctl.Cache()))) ==>
        Painted(ctl.Faces(), ctl.Cache())
    {
      hide Sound, Painted, Agree, ShadedNow, Click, DragStep, PointerMoved, EndDrag, Carries, Scene, Between, AllOwned,
        Linked, Ctl.Ordered, Ctl.Backed, Ctl.Faces, Ctl.AllFaces;
      SoundIsFramed(Now());
      ghost var v, st, c := Now(), ctl.Faces(), ctl.Cache();
      SceneNow();
      CarriesItself(st, c);
      if left {
        if mmx < 0 {
          LeftClick();
        } else {
          DragOn();
        }
      } else {
        StopDragging();
      }
      ghost var v1, st1, c1 := Now(), ctl.Faces(), ctl.Cache();
      SceneNow();
      MovePointer(dx, dy);
      SceneNow();
      PointerSees(v, v1, left, ctl.xsize, ctl.ysize, dx, dy);
      CarriesOn(st, c, st1, c1, ctl.Faces(), ctl.Cache());
    }

    /** The pointer moves by (dx, dy), kept on the screen, and the cursor's sheet with it: a screen that
        was painted in full, shadows included, stays so. */
    method MovePointer(dx: int, dy: int)
      requires Valid()
      modifies `mx, `my, ctl.sheets0, ctl.owners, ctl.vram
      ensures Valid() && Now() == PointerMoved(old(Now()), ctl.xsize, ctl.ysize, dx, dy)
      ensures forall i :: 0 <= i < MAX_SHEETS ==> ctl.sheets0[i].buf == old(ctl.sheets0[i].buf)
      ensures Carries(old(ctl.Faces()), old(ctl.Cache()), ctl.Faces(), ctl.Cache())
      ensures old(Painted(ctl.Faces(), ctl.Cache())) ==> Painted(ctl.Faces(), ctl.Cache())
    {
      hide Sound, Painted, Carries, AllOwned, DesktopSheet, Pointers, Ctl.Ordered, Ctl.Backed, Ctl.Faces, Ctl.AllFaces;
      OwnState();
      PointerKeeps(Now(), ctl.xsize, ctl.ysize, dx, dy);
      EndsAreSeated();
      ghost var st, c := ctl.Faces(), ctl.Cache();
      ClampPointer(dx, dy);
      SlideSheet(cur, mx, my);
      CarriesOwned(st, c, ctl.Faces(), ctl.Cache());
    }

    method ClampPointer(dx: int, dy: int)
      modifies `mx, `my
      ensures mx == Clamp(old(mx) + dx, ctl.xsize) && my == Clamp(old(my) + dy, ctl.ysize)
    {
      mx, my := mx + dx, my + dy;
      if mx < 0 { mx := 0; }
      if my < 0 { my := 0; }
      if mx > ctl.xsize - CUR_H { mx := ctl.xsize - 1; }
      if my > ctl.ysize - CUR_H { my := ctl.ysize - 1; }
    }

    /**
     Whatever the mouse and the minimize key do: the manager's state, every sheet's place and the
     desktop's pixels come out as the state machine says; the map stays right everywhere, and the
     frame at every pixel over which no shadow lay before or after an event since a window was
     last closed.
     */
    method Run(events: seq<Event>, ghost shaded: iset<(int, int)>)
      requires Valid() && Agree(ctl.Faces(), ctl.Cache(), shaded)
      modifies this, wins, ctl, ctl.sheets, ctl.sheets0, ctl.height, ctl.flags, ctl.owners, ctl.vram,
        ctl.sheets0[back].buf
      ensures Valid() && Now() == AfterEvents(old(Now()), ctl.xsize, ctl.ysize, events)
      ensures Agree(ctl.Faces(), ctl.Cache(), ShadedOver(old(Now()), ctl.xsize, ctl.ysize, events, shaded))
      ensures PaintedOver(old(Now()), ctl.xsize, ctl.ysize, events, old(Painted(ctl.Faces(), ctl.Cache()))) ==>
        Painted(ctl.Faces(), ctl.Cache())
      ensures BarShown(old(Now())) ==> BarShown(Now())
    {
      hide Sound, Painted, Packet, Minimize, Carries, Agree, Scene, ShadedNow, Closes, AllOwned, Linked,
        Ctl.Ordered, Ctl.Backed, Ctl.Faces, Ctl.AllFaces;
      ghost var desk, v, w, h := ctl.sheets0[back].buf, Now(), ctl.xsize, ctl.ysize;
      ghost var painted := Painted(ctl.Faces(), ctl.Cache());
      SceneNow();
      MoreShade(ctl.Faces(), ctl.Cache(), shaded, ShadedNow(Scene(v)));
      var i := 0;
      while i < |events|
        invariant 0 <= i <= |events|
        invariant Valid() && ctl.sheets0[back].buf == desk && Now() == AfterEvents(v, w, h, events[..i])
        invariant Agree(ctl.Faces(), ctl.Cache(), ShadedOver(v, w, h, events[..i], shaded))
        invariant PaintedOver(v, w, h, events[..i], painted) ==> Painted(ctl.Faces(), ctl.Cache())
      {
        ghost var v1, st, c := Now(), ctl.Faces(), ctl.Cache();
        SceneNow();
        OneEvent(events[i]);
        SceneNow();
        assert events[..i + 1][..i] == events[..i];
        if Closes(v1, h, events[i]) {
          PaintedAgrees(ctl.Faces(), ctl.Cache());
        } else {
          ShadeSoFar(v, w, h, events[..i], shaded);
          AgreesCarried(st, c, ctl.Faces(), ctl.Cache(), ShadedOver(v, w, h, events[..i], shaded));
        }
        i := i + 1;
      }
      assert events[..i] == events;
      Taskbar.BarRepaints(font, w, h);
      if BarShown(v) { RunShowsBar(v, w, h, events); }
    }

    method OneEvent(e: Event)
      requires Valid()
      modifies this, wins, ctl, ctl.sheets, ctl.sheets0, ctl.height, ctl.flags, ctl.owners, ctl.vram,
        ctl.sheets0[back].buf
      ensures Valid() && Now() == AfterEvent(old(Now()), ctl.xsize, ctl.ysize, e)
      ensures ctl.sheets0[back].buf == old(ctl.sheets0[back].buf)
      ensures Carries(old(ctl.Faces()), old(ctl.Cache()), ctl.Faces(), ctl.Cache())
      ensures Paints(old(Now()), ctl.ysize, e, old(Painted(ctl.Faces(), ctl.Cache()))) ==>
        Painted(ctl.Faces(), ctl.Cache())
    {
      hide Sound, AfterButton, Painted, Packet, Minimize, Carries, AllOwned, Linked, Ctl.Ordered,
        Ctl.Backed, Ctl.Faces, Ctl.AllFaces;
      CarriesItself(ctl.Faces(), ctl.Cache());
      match e {
        case Mouse(left, dx, dy) =>
          OnPacket(left, dx, dy);
        case MinimizeKey(s) =>
          if 0 <= s < MAX_SHEETS && ctl.flags[s] == SHEET_USE {
            MinimizeWindow(s);
          } else {
            MinimizeUnused(Now(), s);
          }
      }
    }
  }

  /** A pointer to nothing, to a sheet in use, or to one that was freed. */
  ghost predicate Points(flags: seq<int>, heights: seq<int>, sid: int)
    requires |flags| == |heights|
  {
    sid == -1 || (0 <= sid < |flags| && (flags[sid] == SHEET_USE || heights[sid] < 0))
  }

  ghost predicate Pointers(flags: seq<int>, heights: seq<int>, drag: int, login: int, shadows: seq<int>)
    requires |flags| == |heights|
  {
    && Points(flags, heights, drag) && Points(flags, heights, login)
    && forall i :: 0 <= i < |shadows| ==> Points(flags, heights, shadows[i])
  }

  /** Pointers stay good while nobody but sheets in use gets another height. */
  lemma PointersStay(flags: seq<int>, heights: seq<int>, heights2: seq<int>, drag: int, login: int, shadows: seq<int>)
    requires |flags| == |heights| == |heights2| && Pointers(flags, heights, drag, login, shadows)
    requires forall i :: 0 <= i < |flags| && flags[i] != SHEET_USE ==> heights2[i] == heights[i]
    ensures Pointers(flags, heights2, drag, login, shadows) && Pointers(flags, heights2, -1, login, shadows)
  {
  }

  lemma NoLogin(flags: seq<int>, heights: seq<int>, drag: int, login: int, shadows: seq<int>)
    requires |flags| == |heights| && Pointers(flags, heights, drag, login, shadows)
    ensures Pointers(flags, heights, drag, -1, shadows) && Pointers(flags, heights, -1, login, shadows)
  {
  }

  /** And when a hidden sheet is given back. */
  lemma PointersAfterFree(flags: seq<int>, heights: seq<int>, heights2: seq<int>, s: int, drag: int, login: int,
      shadows: seq<int>)
    requires |flags| == |heights| == |heights2| && Pointers(flags, heights, drag, login, shadows) && 0 <= s < |flags|
    requires heights2[s] < 0
    requires forall i :: 0 <= i < |flags| && flags[i] != SHEET_USE ==> heights2[i] == heights[i]
    ensures Pointers(flags[s := 0], heights2, drag, login, shadows)
  {
  }

  /** The desktop's sheet: as large as the screen, every pixel counts, and its buffer is its own. */
  ghost predicate DesktopSheet(ctl: Ctl, back: int)
    requires ctl.Shape() && 0 <= back < MAX_SHEETS
    reads ctl.sheets0
  {
    var s := ctl.sheets0[back];
    && s.colInv == OPAQUE_KEY && s.bxsize == ctl.xsize && s.bysize == ctl.ysize
    && (forall i :: 0 <= i < MAX_SHEETS && i != back ==> ctl.sheets0[i].buf != s.buf)
  }

  lemma CarriesItself(st: Stack, c: Screen)
    ensures Carries(st, c, st, c)
  {
  }

  lemma MoreShade(st: Stack, c: Screen, shaded: iset<(int, int)>, more: iset<(int, int)>)
    requires Agree(st, c, shaded)
    ensures Agree(st, c, shaded + more)
  {
    hide OwnedAt, ShownAt;
  }

  lemma ShadeSoFar(v: View, w: int, h: int, events: seq<Event>, shaded: iset<(int, int)>)
    ensures ShadedNow(Scene(AfterEvents(v, w, h, events))) <= ShadedOver(v, w, h, events, shaded)
  {
    hide AfterEvent, ShadedNow, Scene, Closes;
  }

  lemma PaintedOwned(st: Stack, c: Screen)
    requires Painted(st, c)
    ensures AllOwned(st, c)
  {
    hide PaintedAt;
    forall x, y | c.On(x, y) ensures OwnedAt(st, c, x, y) {
      PaintedIsRight(st, x, y, c.Owner(x, y), c.Pixel(x, y));
    }
  }

  // ---------- the states in between ----------

  lemma HiddenIsFramed(v: View, b: nat, st2: Stack)
    requires Sound(v) && b < |v.slots|
    ensures Framed(SlotHidden(v, b)) && Between(Scene(v), Scene(SlotHidden(v, b)), st2)
  {
    hide Without, Between, Scene;
    RemoveKeeps(v, v.slots[b].sht);
    BetweenFewer(v, SlotHidden(v, b), st2);
  }

  lemma ShownIsFramed(v: View, b: nat)
    requires Sound(v) && b < |v.slots| && Remove(v.order, v.slots[b].sht) != []
    ensures Framed(SlotShown(v, b)) && Between(Scene(v), Scene(SlotShown(v, b)), Scene(RestoreSlot(v, b)))
  {
    hide Without, Between, BelowLast, Scene;
    BelowLastKeeps(v, v.slots[b].sht);
    assert v.order[0] == v.back;
    BetweenOne(v, SlotShown(v, b), RestoreSlot(v, b), v.back);
  }

  lemma RefilledPointer(v: View, s: int)
    ensures Close(v, s).mx == v.mx && Close(v, s).my == v.my
  {
    hide Without, SlotOf;
  }

  lemma ClosedIsFramed(v: View, v1: View, s: int)
    requires Sound(v) && s != v.back && s != v.cur && v1.order == Remove(v.order, s) && v1.used == v.used - {s}
    requires v1.back == v.back && v1.cur == v.cur
    ensures Framed(v1)
  {
    hide Without;
    RemoveKeeps(v, s);
  }

  lemma RaisedSees(v: View, v1: View, s: int, st2: Stack)
    requires Sound(v) && s in v.order && s != v.back && s != v.cur
    requires Remove(v.order, s) != [] && v1.order == BelowLast(v.order, s) && v1.faces == v.faces
    ensures Between(Scene(v), Scene(v1), st2)
  {
    hide Without, BelowLast, Scene;
    InUse(v, s);
    BelowLastKeeps(v, s);
    assert SameOthers(v.order, v1.order, s);
    BetweenFewer(v, v1, st2);
  }

  lemma PointerSees(v: View, v1: View, left: bool, w: int, h: int, dx: int, dy: int)
    requires Sound(v) && |v.order| >= 2 && v1 == AfterButton(v, h, left)
    ensures Between(Scene(v), Scene(v1), Scene(PointerMoved(v1, w, h, dx, dy)))
  {
    hide Scene, AfterButton, Sound, Clamp;
    CursorFaceStays(v, h, left);
    BetweenOne(v, v1, PointerMoved(v1, w, h, dx, dy), v.cur);
  }

  lemma BelowLastEnds(order: seq<int>, s: int, last: int)
    requires order != [] && order[|order| - 1] == last != s && Remove(order, s) != []
    ensures var order2 := BelowLast(order, s); order2 != [] && IndexOf(order2, last) == |order2| - 1
  {
    hide Without, Insert;
    var rest := Remove(order, s);
    WithoutFrom(order, IndexOf(order, s), |rest| - 1);
    InsertFrom(rest, s, |rest| - 1, |rest|);
  }
}
