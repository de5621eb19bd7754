/** The round-robin scheduler: the task table and whose turn it is. */
module Tasks {
  import opened Words

  const MAX_TASKS := 8
  const FREE := 0
  const READY := 1
  const RUNNING := 2

  /** The table from the first dispatch on: one task runs, and it is the current one. */
  predicate OneRuns(state: seq<int>, cur: int) {
    && |state| == MAX_TASKS && 0 <= cur < MAX_TASKS
    && (forall i :: 0 <= i < MAX_TASKS ==> state[i] == FREE || state[i] == READY || state[i] == RUNNING)
    && (forall i :: 0 <= i < MAX_TASKS ==> (state[i] == RUNNING <==> i == cur))
  }

  /** The slot d places behind the current one, round the table. */
  function Slot(cur: nat, d: nat): (i: nat)
    requires cur < MAX_TASKS && d <= MAX_TASKS
    ensures i < MAX_TASKS
  {
    if cur + d < MAX_TASKS then cur + d else cur + d - MAX_TASKS
  }

  predicate ReadyAt(state: seq<int>, cur: nat, d: nat)
    requires |state| == MAX_TASKS && cur < MAX_TASKS && d <= MAX_TASKS
  {
    state[Slot(cur, d)] == READY
  }

  /** How many ready tasks there are among the d slots behind the current one. */
  function ReadyUpTo(state: seq<int>, cur: nat, d: nat): nat
    requires |state| == MAX_TASKS && cur < MAX_TASKS && d <= MAX_TASKS
  {
    if d == 0 then 0 else ReadyUpTo(state, cur, d - 1) + if ReadyAt(state, cur, d) then 1 else 0
  }

  /** cur2 and state2 are what a yield makes of cur and state: the turn goes to the nearest ready task. */
  predicate Passes(state: seq<int>, cur: nat, state2: seq<int>, cur2: nat, d: nat)
    requires |state| == MAX_TASKS && cur < MAX_TASKS
  {
    && 0 < d < MAX_TASKS && ReadyAt(state, cur, d) && (forall e :: 0 < e < d ==> !ReadyAt(state, cur, e))
    && cur2 == Slot(cur, d) && state2 == state[cur := READY][cur2 := RUNNING]
  }

  predicate NoneReady(state: seq<int>, cur: nat)
    requires |state| == MAX_TASKS && cur < MAX_TASKS
  {
    forall e :: 0 < e < MAX_TASKS ==> !ReadyAt(state, cur, e)
  }

  lemma Round(cur: nat, d: nat, e: nat)
    requires cur < MAX_TASKS && d + e <= MAX_TASKS
    ensures Slot(Slot(cur, d), e) == Slot(cur, d + e)
    ensures 0 < d < MAX_TASKS ==> Slot(cur, d) != cur
  {
  }

  lemma SlotsDiffer(cur: nat, d: nat, e: nat)
    requires cur < MAX_TASKS && d < e < d + MAX_TASKS && e <= MAX_TASKS
    ensures Slot(cur, d) != Slot(cur, e)
  {
  }

  /** Behind the new turn the same tasks are ready, up to the old turn. */
  lemma {:induction false} CountsDown(state: seq<int>, cur: nat, state2: seq<int>, cur2: nat, d: nat, k: nat)
    requires OneRuns(state, cur) && Passes(state, cur, state2, cur2, d) && d <= k < MAX_TASKS
    ensures ReadyUpTo(state2, cur2, k - d) + 1 == ReadyUpTo(state, cur, k)
    decreases k
  {
    hide Slot;
    if k == d {
      NoneBefore(state, cur, d - 1);
    } else {
      CountsDown(state, cur, state2, cur2, d, k - 1);
      Round(cur, d, k - d);
      SlotsDiffer(cur, 0, k);
      SlotsDiffer(cur, d, k);
      assert Slot(cur, 0) == cur by { Itself(cur); }
    }
  }

  lemma Itself(cur: nat)
    requires cur < MAX_TASKS
    ensures Slot(cur, 0) == cur
  {
  }

  lemma {:induction false} NoneBefore(state: seq<int>, cur: nat, d: nat)
    requires |state| == MAX_TASKS && cur < MAX_TASKS && d <= MAX_TASKS
    requires forall e :: 0 < e <= d ==> !ReadyAt(state, cur, e)
    ensures ReadyUpTo(state, cur, d) == 0
  {
    if d > 0 { NoneBefore(state, cur, d - 1); }
  }

  const STACK_WORDS := 512

  /** A struct Task but for its state; addresses are numbers. */
  datatype Record = Record(pid: u32, stack: nat, rsp: nat, entry: u64, priority: int, name: string)

  /** A new task's record: its stack is the slot's 4096 bytes of the pool, and the stack pointer saved lies
      64 bytes below its end, room for six registers, a return address and one word. */
  predicate Fresh(r: Record, pid: u32, stackBase: nat, slot: nat, entry: u64, name: string, prio: int) {
    && r.pid == pid && r.entry == entry && r.name == name && r.priority == prio
    && r.stack == stackBase + 4096 * slot && r.rsp == r.stack + 4096 - 64
  }

  /** Popping six registers from word `at` on and returning goes to `entry`; no other word is touched. */
  predicate StartsAt(before: seq<u64>, after: seq<u64>, at: nat, entry: u64) {
    && |after| == |before| && at + 7 <= |before|
    && forall k :: 0 <= k < |before| ==>
         after[k] == if at <= k < at + 6 then 0 else if k == at + 6 then entry else before[k]
  }

  /** The first free slot; MAX_TASKS when there is none. */
  function FreeSlot(state: seq<int>, i: nat): (slot: nat)
    requires i <= |state| == MAX_TASKS
    ensures i <= slot <= MAX_TASKS && (slot < MAX_TASKS ==> state[slot] == FREE)
    ensures forall k :: i <= k < slot ==> state[k] != FREE
    decreases MAX_TASKS - i
  {
    if i == MAX_TASKS || state[i] == FREE then i else FreeSlot(state, i + 1)
  }

  lemma FreeMayBeReady(state: seq<int>, cur: int, slot: nat)
    requires OneRuns(state, cur) && slot < MAX_TASKS && state[slot] == FREE
    ensures OneRuns(state[slot := READY], cur)
  {
  }

  class Scheduler {
    const state: array<int>
    const records: array<Record>     // the rest of each struct Task
    const stacks: array<u64>         // the stack pool, in 64-bit words
    const stackBase: nat             // its address
    var nextPid: u32
    var cur: int

    ghost predicate Valid()
      reads `cur, state
    {
      && OneRuns(state[..], cur) && state.Length == MAX_TASKS && records.Length == MAX_TASKS
      && stacks.Length == MAX_TASKS * STACK_WORDS
      && stacks as object != state
    }

    /** The table right after the first dispatch, to the task in slot first. */
    constructor (first: nat, stackBase: nat)
      requires first < MAX_TASKS
      ensures Valid() && fresh(state) && fresh(records) && fresh(stacks) && cur == first && nextPid == 1
    {
      cur, nextPid, this.stackBase := first, 1, stackBase;
      state := new int[MAX_TASKS](i => if i == first then RUNNING else FREE);
      records := new Record[MAX_TASKS](i => Record(0, 0, 0, 0, 0, ""));
      stacks := new u64[MAX_TASKS * STACK_WORDS](i => 0);
    }

    /** task_create: a record and a first stack frame for the first free slot, which becomes ready.
        Returns the new process number, or 0 and does nothing when there is no free slot. */
    method Create(entry: u64, name: string, prio: int) returns (pid: u32)
      requires Valid()
      modifies state, records, stacks, `nextPid
      ensures Valid() && |old(state[..])| == MAX_TASKS
      ensures var slot := FreeSlot(old(state[..]), 0);
        if slot == MAX_TASKS then
          pid == 0 && state[..] == old(state[..]) && records[..] == old(records[..]) && stacks[..] == old(stacks[..])
            && nextPid == old(nextPid)
        else
          && pid == old(nextPid) && nextPid == (old(nextPid) + 1) % U32_MOD
          && state[..] == old(state[..])[slot := READY]
          && (forall i :: 0 <= i < MAX_TASKS && i != slot ==> records[i] == old(records[i]))
          && Fresh(records[slot], pid, stackBase, slot, entry, name, prio)
          && StartsAt(old(stacks[..]), stacks[..], (records[slot].rsp - stackBase) / 8, entry)
    {
      hide OneRuns;
      var i := 0;
      while i < MAX_TASKS
        invariant 0 <= i <= MAX_TASKS && FreeSlot(old(state[..]), 0) == FreeSlot(old(state[..]), i)
        invariant state[..] == old(state[..]) && records[..] == old(records[..]) && stacks[..] == old(stacks[..])
        invariant nextPid == old(nextPid)
      {
        if state[i] == FREE {
          pid := nextPid;
          nextPid := (nextPid + 1) % U32_MOD;
          state[i] := READY;
          var sp := FirstFrame(i, entry);
          records[i] := Record(pid, stackBase + i * 8 * STACK_WORDS, stackBase + 8 * sp, entry, prio, name);
          FreeMayBeReady(old(state[..]), cur, i);
          return;
        }
        i := i + 1;
      }
      return 0;
    }

    /** The frame that the switch pops: six registers and the return address, below an unused word. */
    method FirstFrame(slot: nat, entry: u64) returns (sp: nat)
      requires slot < MAX_TASKS && stacks.Length == MAX_TASKS * STACK_WORDS
      modifies stacks
      ensures sp == slot * STACK_WORDS + 504 && StartsAt(old(stacks[..]), stacks[..], sp, entry)
    {
      sp := slot * STACK_WORDS + STACK_WORDS - 1;
      sp := sp - 1; stacks[sp] := entry;
      sp := sp - 1; stacks[sp] := 0;
      sp := sp - 1; stacks[sp] := 0;
      sp := sp - 1; stacks[sp] := 0;
      sp := sp - 1; stacks[sp] := 0;
      sp := sp - 1; stacks[sp] := 0;
      sp := sp - 1; stacks[sp] := 0;
    }

    /** task_yield. */
    method Yield() returns (ghost d: nat)
      requires Valid()
      modifies `cur, state
      ensures Valid()
      ensures d == MAX_TASKS ==> NoneReady(old(state[..]), old(cur)) && cur == old(cur) && state[..] == old(state[..])
      ensures d != MAX_TASKS ==> Passes(old(state[..]), old(cur), state[..], cur, d)
    {
      hide Slot;
      ghost var was := state[..];
      d := 1;
      Round(cur, 1, 0);
      var next := (cur + 1) % MAX_TASKS;
      NextSlot(cur, 0);
      while next != cur && state[next] != READY
        invariant Valid() && cur == old(cur) && state[..] == was
        invariant 0 < d <= MAX_TASKS && next == Slot(cur, d) && (d == MAX_TASKS <==> next == cur)
        invariant forall e :: 0 < e < d ==> !ReadyAt(was, cur, e)
        decreases MAX_TASKS - d
      {
        assert !ReadyAt(was, cur, d);
        NextSlot(cur, d);
        next := (next + 1) % MAX_TASKS;
        d := d + 1;
      }
      if next == cur { return; }
      state[cur] := READY;
      state[next] := RUNNING;
      cur := next;
    }

    /** Nobody waits longer than its turn: a ready task runs after as many yields as there are ready
        tasks up to it, going round the table from the current one. */
    method YieldUntil(slot: nat) returns (turns: nat)
      requires Valid() && slot < MAX_TASKS && state[slot] == READY
      modifies `cur, state
      ensures Valid() && cur == slot && turns == ReadyUpTo(old(state[..]), old(cur), Behind(old(cur), slot))
    {
      hide Slot;
      turns := 0;
      ghost var left, was, was0 := Behind(cur, slot), state[..], cur;
      BehindIs(cur, slot);
      while cur != slot
        invariant Valid() && 0 <= cur < MAX_TASKS && 0 <= left < MAX_TASKS && Slot(cur, left) == slot
        invariant left == 0 <==> cur == slot
        invariant left > 0 ==> ReadyAt(state[..], cur, left)
        invariant turns + ReadyUpTo(state[..], cur, left) == ReadyUpTo(was, was0, Behind(was0, slot))
        decreases left
      {
        ghost var now, now0 := state[..], cur;
        assert ReadyAt(now, now0, left);
        ghost var d := Yield();
        assert d <= left;
        CountsDown(now, now0, state[..], cur, d, left);
        StillReady(now, now0, state[..], cur, d, left);
        left := left - d;
        if left > 0 { Round(cur, left, 0); } else { Itself(cur); }
        turns := turns + 1;
      }
    }
  }

  /** How many slots behind the current one a slot is. */
  function Behind(cur: int, slot: nat): (d: nat) {
    (slot - cur) % MAX_TASKS
  }

  lemma BehindIs(cur: nat, slot: nat)
    requires cur < MAX_TASKS && slot < MAX_TASKS
    ensures Behind(cur, slot) < MAX_TASKS && Slot(cur, Behind(cur, slot)) == slot
    ensures Behind(cur, slot) == 0 <==> cur == slot
  {
  }

  lemma StillReady(state: seq<int>, cur: nat, state2: seq<int>, cur2: nat, d: nat, k: nat)
    requires OneRuns(state, cur) && Passes(state, cur, state2, cur2, d) && d <= k < MAX_TASKS && ReadyAt(state, cur, k)
    ensures Slot(cur2, k - d) == Slot(cur, k) && (k > d ==> ReadyAt(state2, cur2, k - d))
  {
    hide Slot;
    Round(cur, d, k - d);
    if k > d {
      SlotsDiffer(cur, 0, k);
      SlotsDiffer(cur, d, k);
      Itself(cur);
    }
  }

  lemma NextSlot(cur: nat, d: nat)
    requires cur < MAX_TASKS && d < MAX_TASKS
    ensures (Slot(cur, d) + 1) % MAX_TASKS == Slot(cur, d + 1)
    ensures d == 0 ==> (cur + 1) % MAX_TASKS == Slot(cur, 1)
    ensures Slot(cur, d + 1) == cur <==> d + 1 == MAX_TASKS
  {
  }
}
