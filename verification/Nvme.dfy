/** Host and controller at work on one queue pair. */
module Nvme {
  import opened NvmeQueue
  import opened Words

  /** The controller fetched a prefix of what was submitted; each command it fetched is either
      waiting to be completed or completed once. */
  predicate DeviceFine(submitted: seq<Cmd>, consumed: nat, fetched: seq<Cmd>, pending: set<nat>, posted: seq<Post>) {
    && fetched <= submitted && |submitted| < |fetched| + DEPTH
    && (forall k :: k in pending ==> k < |fetched|)
    && (forall n :: 0 <= n < |posted| ==> posted[n].cmd < |fetched| && posted[n].cmd !in pending)
    && (forall m, n :: 0 <= m < n < |posted| ==> posted[m].cmd != posted[n].cmd)
    && |fetched| == |pending| + |posted|
    && consumed <= |posted| < consumed + DEPTH
  }

  lemma Counts(submitted: seq<Cmd>, consumed: nat, fetched: seq<Cmd>, pending: set<nat>, posted: seq<Post>)
    requires DeviceFine(submitted, consumed, fetched, pending, posted)
    ensures consumed <= |posted| <= |fetched| <= |submitted| && |posted| < consumed + DEPTH
  {
  }

  lemma SubmitFine(submitted: seq<Cmd>, consumed: nat, fetched: seq<Cmd>, pending: set<nat>, posted: seq<Post>,
      cmd: Cmd)
    requires DeviceFine(submitted, consumed, fetched, pending, posted) && |submitted| + 1 < |fetched| + DEPTH
    ensures DeviceFine(submitted + [cmd], consumed, fetched, pending, posted)
  {
  }

  lemma ConsumeFine(submitted: seq<Cmd>, consumed: nat, fetched: seq<Cmd>, pending: set<nat>, posted: seq<Post>)
    requires DeviceFine(submitted, consumed, fetched, pending, posted) && consumed < |posted|
    ensures DeviceFine(submitted, consumed + 1, fetched, pending, posted)
  {
  }

  // ---------- what the controller does, as a value ----------

  /** One thing the controller may do: take the next command, or complete one it has. */
  datatype Deed = Take | Answer(cmd: nat, dw0: u32, status: nat, id: nat)

  datatype Device = Device(fetched: seq<Cmd>, pending: set<nat>, posted: seq<Post>)

  /** A deed that is not possible is none: no command announced, none such to complete, a full ring. */
  function Did(d: Device, submitted: seq<Cmd>, consumed: nat, a: Deed): Device {
    match a
    case Take =>
      var n := |d.fetched|;
      if n < |submitted| then d.(fetched := d.fetched + [submitted[n]], pending := d.pending + {n}) else d
    case Answer(k, dw0, status, id) =>
      if k in d.pending && status < 0x8000 && id < 0x10000 && |d.posted| + 1 < consumed + DEPTH then
        d.(pending := d.pending - {k}, posted := d.posted + [Post(k, dw0, status, id)])
      else d
  }

  function DidAll(d: Device, submitted: seq<Cmd>, consumed: nat, deeds: seq<Deed>): Device {
    if deeds == [] then d
    else Did(DidAll(d, submitted, consumed, deeds[..|deeds| - 1]), submitted, consumed, deeds[|deeds| - 1])
  }

  /** The controller after n gaps between looks, the first of them gap number `from`. */
  function Worked(d: Device, submitted: seq<Cmd>, consumed: nat, gaps: nat -> seq<Deed>, from: nat, n: nat): Device {
    if n == 0 then d
    else DidAll(Worked(d, submitted, consumed, gaps, from, n - 1), submitted, consumed, gaps(from + n - 1))
  }

  lemma {:induction false} DidAllAdds(d: Device, submitted: seq<Cmd>, consumed: nat, deeds: seq<Deed>)
    ensures d.posted <= DidAll(d, submitted, consumed, deeds).posted
  {
    if deeds != [] { DidAllAdds(d, submitted, consumed, deeds[..|deeds| - 1]); }
  }

  lemma {:induction false} WorkedAdds(d: Device, submitted: seq<Cmd>, consumed: nat, gaps: nat -> seq<Deed>, from: nat,
                                      n: nat, m: nat)
    requires n <= m
    ensures Worked(d, submitted, consumed, gaps, from, n).posted <= Worked(d, submitted, consumed, gaps, from, m).posted
    decreases m
  {
    hide DidAll;
    if n < m {
      WorkedAdds(d, submitted, consumed, gaps, from, n, m - 1);
      DidAllAdds(Worked(d, submitted, consumed, gaps, from, m - 1), submitted, consumed, gaps(from + m - 1));
    }
  }

  /** Between SPINS looks, the first of them number `from`, no completion beyond `consumed` is posted. */
  predicate Silent(d: Device, submitted: seq<Cmd>, consumed: nat, gaps: nat -> seq<Deed>, from: nat) {
    |Worked(d, submitted, consumed, gaps, from, SPINS).posted| <= consumed
  }

  lemma NotWorked(d: Device, submitted: seq<Cmd>, consumed: nat, gaps: nat -> seq<Deed>, from: nat)
    ensures Worked(d, submitted, consumed, gaps, from, 0) == d
  {
  }

  lemma IsSilent(d: Device, submitted: seq<Cmd>, consumed: nat, gaps: nat -> seq<Deed>, from: nat)
    ensures Silent(d, submitted, consumed, gaps, from)
       <==> |Worked(d, submitted, consumed, gaps, from, SPINS).posted| <= consumed
  {
  }

  /** What is posted in a gap ends the silence. */
  lemma OneGapMore(d: Device, submitted: seq<Cmd>, consumed: nat, gaps: nat -> seq<Deed>, from: nat, n: nat)
    requires n < SPINS
    ensures var d2 := Worked(d, submitted, consumed, gaps, from, n + 1);
      && d2 == DidAll(Worked(d, submitted, consumed, gaps, from, n), submitted, consumed, gaps(from + n))
      && (|d2.posted| > consumed ==> !Silent(d, submitted, consumed, gaps, from))
  {
    hide DidAll;
    WorkedAdds(d, submitted, consumed, gaps, from, n + 1, SPINS);
  }

  // ---------- command identifiers ----------

  /** The identifier due for command n if the counter stood at `start` before command 0: counted up in
      32 bits, zero left out. */
  function IdDue(start: u32, n: nat): u32 {
    ((if start == 0 then 1 else start) - 1 + n) % 0xFFFF_FFFF + 1
  }

  lemma IdStep(start: u32, n: nat)
    ensures IdDue(start, n) >= 1
    ensures IdDue(start, n + 1) == if IdDue(start, n) == 0xFFFF_FFFF then 1 else IdDue(start, n) + 1
  {
    var m := (if start == 0 then 1 else start) - 1 + n;
    assert m == 0xFFFF_FFFF * (m / 0xFFFF_FFFF) + m % 0xFFFF_FFFF;
  }

  /** Counting from 0, command n carries the low half of n + 1 as long as the counter does not wrap. */
  lemma IdOfFresh(n: nat)
    requires n < 0xFFFF_FFFF
    ensures IdDue(0, n) == n + 1
  {
  }

  /** The upper half of each command's first word is the low half of the identifier due. */
  ghost predicate Numbered(start: u32, submitted: seq<Cmd>) {
    forall n {:trigger submitted[n]} :: 0 <= n < |submitted| ==>
      submitted[n][0] / 0x1_0000 == IdDue(start, n) % 0x1_0000
  }

  /** Two identifiers less than 65535 commands apart differ in their low halves, also around the wrap. */
  lemma IdsDiffer(start: u32, i: nat, j: nat)
    requires i < j < i + 0xFFFF
    ensures IdDue(start, i) % 0x1_0000 != IdDue(start, j) % 0x1_0000
  {
    var a: int, b: int := IdDue(start, i), IdDue(start, j);
    IdsFrom(start, i, j - i);
    assert b == a + (j - i) || b + 0xFFFF_FFFF == a + (j - i);
  }

  lemma {:induction false} IdsFrom(start: u32, i: nat, d: nat)
    requires d < 0xFFFF
    ensures var a: int, b: int := IdDue(start, i), IdDue(start, i + d);
      1 <= b && (b == a + d || b + 0xFFFF_FFFF == a + d)
    decreases d
  {
    if d > 0 {
      IdsFrom(start, i, d - 1);
      IdStep(start, i + d - 1);
    }
  }

  lemma HalvesOf(word: u32, id: u32)
    ensures var w := word % 0x1_0000 + id * 0x1_0000 % U32_MOD;
      w < U32_MOD && w / 0x1_0000 == id % 0x1_0000 && w % 0x1_0000 == word % 0x1_0000
  {
    assert id == 0x1_0000 * (id / 0x1_0000) + id % 0x1_0000;
    assert id * 0x1_0000 == U32_MOD * (id / 0x1_0000) + id % 0x1_0000 * 0x1_0000;
  }

  lemma NumberedNext(start: u32, submitted: seq<Cmd>, cmd: Cmd, id: u32)
    requires Numbered(start, submitted) && id == IdDue(start, |submitted|) && cmd[0] / 0x1_0000 == id % 0x1_0000
    ensures Numbered(start, submitted + [cmd])
    ensures var next := (id + 1) % U32_MOD;
      next == IdDue(start, |submitted| + 1) || (next == 0 && IdDue(start, |submitted| + 1) == 1)
  {
    hide IdDue;
    IdStep(start, |submitted|);
  }

  class Queue {
    const sq: array<u64>
    const cq: array<u32>
    // the host
    var ready: bool
    var cid: u32
    const firstCid: u32         // where the counter, which the admin queue shares, stood
    var sqTail: nat
    var cqHead: nat
    var cqPhase: nat
    // the doorbells
    var sqDb: nat
    var cqDb: nat
    // the controller
    var fetched: seq<Cmd>
    var pending: set<nat>
    var posted: seq<Post>
    /** What the controller gets done before the host's n-th look. */
    const gaps: nat -> seq<Deed>
    var looks: nat
    // what has happened so far
    ghost var submitted: seq<Cmd>
    ghost var consumed: nat

    /** The host's view: its indices count what it submitted and consumed. */
    ghost predicate HostOk()
      reads `cqHead, `cqPhase, `sqTail, `sqDb, `cqDb, `submitted, `consumed
    {
      && sqTail == sqDb == |submitted| % DEPTH
      && cqHead == cqDb == consumed % DEPTH && cqPhase == PhaseOf(consumed)
    }

    function Dev(): Device
      reads `fetched, `pending, `posted
    {
      Device(fetched, pending, posted)
    }

    ghost predicate DeviceOk()
      reads `submitted, `consumed, `fetched, `pending, `posted
    {
      DeviceFine(submitted, consumed, fetched, pending, posted)
    }

    ghost predicate Valid()
      reads this, sq, cq
    {
      && HostOk() && DeviceOk() && |submitted| < consumed + DEPTH
      && SqOk(sq[..], submitted, |fetched|) && CqOk(cq[..], posted)
    }

    /** How many commands have been submitted whose completions have not been consumed. */
    ghost function Lag(): int
      reads `submitted, `consumed
    {
      |submitted| - consumed
    }

    /** Every command carries its identifier, and the counter stands at the next one; 0 counts as 1. */
    ghost predicate IdsOk()
      reads `cid, `submitted
    {
      && Numbered(firstCid, submitted)
      && (cid == IdDue(firstCid, |submitted|) || (cid == 0 && IdDue(firstCid, |submitted|) == 1))
    }

    /** No two commands whose completions have not been consumed carry the same identifier. */
    lemma OutstandingDiffer(i: nat, j: nat)
      requires Valid() && IdsOk() && consumed <= i < j < |submitted|
      ensures submitted[i][0] / 0x1_0000 != submitted[j][0] / 0x1_0000
    {
      IdsDiffer(firstCid, i, j);
    }

    /** The rings as nvme_create_io_queues sets them up. */
    constructor (firstCid: u32, gaps: nat -> seq<Deed>)
      ensures Valid() && fresh(sq) && fresh(cq) && ready && submitted == [] && consumed == 0
      ensures IdsOk() && cid == this.firstCid == firstCid
      ensures this.gaps == gaps && looks == 0
    {
      this.firstCid, this.gaps, looks := firstCid, gaps, 0;
      sq := new u64[8 * DEPTH](i => 0);
      cq := new u32[4 * DEPTH](i => 0);
      ready, cid, sqTail, cqHead, cqPhase, sqDb, cqDb := true, firstCid, 0, 0, 1, 0, 0;
      fetched, pending, posted, submitted, consumed := [], {}, [], [], 0;
    }

    // ---------- the controller ----------

    /** The controller takes the next command, if the doorbell says there is one. */
    method Fetch()
      requires Valid()
      modifies `fetched, `pending
      ensures Valid() && old(fetched) <= fetched && Dev() == Did(old(Dev()), submitted, consumed, Take)
      ensures forall k :: k in pending ==> k in old(pending) || k >= old(|fetched|)
    {
      hide CqOk, Unpacked, SlotHolds;
      SlotsDiffer(|fetched|, |submitted|);
      if |fetched| % DEPTH != sqDb {
        var n := |fetched|;
        assert n < |submitted|;
        var cmd := Unpacked(sq[..], n % DEPTH);
        UnpackedIs(sq[..], n % DEPTH, submitted[n]);
        fetched := fetched + [cmd];
        assert n !in pending;
        pending := pending + {n};
      }
    }

    /** The controller completes one of the commands it has, if the ring is not full. */
    method Complete(k: nat, dw0: u32, status: nat, id: nat)
      requires Valid() && status < 0x8000 && id < 0x10000
      modifies `pending, `posted, cq
      ensures Valid() && old(posted) <= posted && pending <= old(pending)
      ensures Dev() == Did(old(Dev()), submitted, consumed, Answer(k, dw0, status, id))
      ensures forall n :: |old(posted)| <= n < |posted| ==> posted[n].cmd in old(pending)
    {
      hide SqOk, Unpacked, CqOk, Dw3;
      NextSlot(consumed, |posted|);
      if k in pending && (|posted| + 1) % DEPTH != cqDb {
        var p := Post(k, dw0, status, id);
        ghost var was := cq[..];
        var at := |posted| % DEPTH * 4;
        CqSize(was, posted);
        cq[at] := dw0;
        cq[at + 3] := Dw3(p, |posted|);
        PostKeeps(was, posted, p, cq[..]);
        posted := posted + [p];
        pending := pending - {k};
      }
    }

    /** What the controller gets done while the host is not looking. */
    method Interleave()
      requires Valid()
      modifies `fetched, `pending, `posted, cq
      ensures Valid() && old(posted) <= posted && Dev() == DidAll(old(Dev()), submitted, consumed, gaps(looks))
      ensures forall k :: k in pending ==> k in old(pending) || k >= old(|fetched|)
      ensures forall n :: |old(posted)| <= n < |posted| ==>
        posted[n].cmd in old(pending) || posted[n].cmd >= old(|fetched|)
      ensures old(fetched) <= fetched
    {
      hide SqOk, CqOk, PhaseOf, Did, Queue.HostOk, Queue.DeviceOk;
      var deeds := gaps(looks);
      var i := 0;
      while i < |deeds|
        invariant 0 <= i <= |deeds| && Valid() && old(posted) <= posted && old(fetched) <= fetched
        invariant Dev() == DidAll(old(Dev()), submitted, consumed, deeds[..i])
        invariant forall k :: k in pending ==> k in old(pending) || k >= old(|fetched|)
        invariant forall n :: |old(posted)| <= n < |posted| ==>
          posted[n].cmd in old(pending) || posted[n].cmd >= old(|fetched|)
      {
        match deeds[i] {
          case Take => Fetch();
          case Answer(k, dw0, status, id) =>
            if status < 0x8000 && id < 0x10000 {
              Complete(k, dw0, status, id);
            } else {
              NotDone(Dev(), submitted, consumed, deeds[i]);
            }
        }
        assert deeds[..i + 1][..i] == deeds[..i];
        i := i + 1;
      }
      assert deeds[..i] == deeds;
    }

    // ---------- the host ----------

    method WriteSqe(pos: nat, cmd: Cmd)
      requires pos < DEPTH && sq.Length == 8 * DEPTH
      modifies sq
      ensures forall k :: 0 <= k < sq.Length && k / 8 != pos ==> sq[k] == old(sq[k])
      ensures SlotHolds(sq[..], pos, cmd)
      ensures forall i :: 0 <= i < 8 ==>
        sq[8 * pos + i] % 4294967296 == cmd[2 * i] && sq[8 * pos + i] / 4294967296 == cmd[2 * i + 1]
    {
      var i := 0;
      while i < 8
        invariant 0 <= i <= 8
        invariant forall k :: 0 <= k < sq.Length && k / 8 != pos ==> sq[k] == old(sq[k])
        invariant forall k :: 0 <= k < i ==> sq[pos * 8 + k] == Pair(cmd, k)
      {
        assert (pos * 8 + i) / 8 == pos;
        sq[pos * 8 + i] := cmd[i * 2] + cmd[i * 2 + 1] * HIGH;
        i := i + 1;
      }
      forall i | 0 <= i < 8
        ensures sq[8 * pos + i] % 4294967296 == cmd[2 * i] && sq[8 * pos + i] / 4294967296 == cmd[2 * i + 1]
      {
        Halves(cmd[2 * i], cmd[2 * i + 1]);
        assert sq[pos * 8 + i] == Pair(cmd, i);
      }
    }

    /** A command written to the tail of the submission ring and announced. */
    method Submit(cmd: Cmd)
      requires Valid() && Lag() < DEPTH - 1
      modifies sq, `sqTail, `sqDb, `submitted
      ensures Valid() && submitted == old(submitted) + [cmd]
    {
      hide CqOk, SqOk, PhaseOf, DeviceFine, SlotHolds;
      ghost var was := sq[..];
      SqSize(was, submitted, |fetched|);
      NextPhase(|submitted|);
      Counts(submitted, consumed, fetched, pending, posted);
      var pos := sqTail;
      WriteSqe(pos, cmd);
      SubmitKeeps(was, submitted, |fetched|, cmd, sq[..]);
      SubmitFine(submitted, consumed, fetched, pending, posted, cmd);
      submitted := submitted + [cmd];
      sqTail := (pos + 1) % DEPTH;
      sqDb := sqTail;
    }

    /** The identifier due goes into the upper half of the first word. */
    method Identify(dw: array<u32>)
      requires IdsOk() && dw.Length == 16
      modifies dw, `cid
      ensures dw[1..] == old(dw[1..]) && dw[0] % 0x10000 == old(dw[0]) % 0x10000
      ensures var id := if old(cid) == 0 then 1 else old(cid);
        dw[0] / 0x1_0000 == id % 0x1_0000 && cid == (id + 1) % U32_MOD
      ensures Numbered(firstCid, submitted + [dw[..]])
      ensures var due := IdDue(firstCid, |submitted| + 1); cid == due || (cid == 0 && due == 1)
    {
      hide Numbered, IdDue;
      IdStep(firstCid, |submitted|);
      if cid == 0 { cid := 1; }
      ghost var id := cid;
      HalvesOf(dw[0], id);
      dw[0] := dw[0] % 0x10000 + cid * 0x10000 % U32_MOD;
      cid := (cid + 1) % U32_MOD;
      NumberedNext(firstCid, submitted, dw[..], id);
    }

    /** nvme_io_cmd, with the command words after nvme_rw filled them in. Returns -1 when the queues
        are not there, -2 when the spins run out, else the status of the completion consumed. */
    method IoCmd(dw: array<u32>) returns (code: int, out: u32)
      requires Valid() && IdsOk() && dw.Length == 16 && dw != cq && Lag() < DEPTH - 1
      modifies dw, sq, cq, this
      ensures Valid() && IdsOk() && ready == old(ready)
      ensures old(ready) ==> var id := if old(cid) == 0 then 1 else old(cid);
        dw[0] / 0x1_0000 == id % 0x1_0000 && cid == (id + 1) % U32_MOD
      ensures !old(ready) ==>
        code == -1 && submitted == old(submitted) && consumed == old(consumed) && posted == old(posted)
      ensures old(ready) ==> code >= -2 && code != -1 && submitted == old(submitted) + [dw[..]] && old(posted) <= posted
      ensures old(ready) ==> dw[1..] == old(dw[1..]) && dw[0] % 0x10000 == old(dw[0]) % 0x10000
      ensures code == -2 ==> consumed == old(consumed) == |posted|
      ensures code >= 0 ==> consumed == old(consumed) + 1 <= |posted|
      ensures code >= 0 ==> code == posted[old(consumed)].status % 0x800 && out == posted[old(consumed)].dw0
      ensures code >= 0 && old(Lag()) == 0 ==> posted[old(consumed)].cmd == old(|submitted|)
      ensures code >= 0 && InOrder(posted) ==> (posted[old(consumed)].cmd == old(|submitted|) <==> old(Lag()) == 0)
      ensures old(ready) ==> (code == -2 <==> Silent(old(Dev()), submitted, old(consumed), gaps, old(looks)))
      ensures code == -2 ==>
        looks == old(looks) + SPINS && Dev() == Worked(old(Dev()), submitted, consumed, gaps, old(looks), SPINS)
    {
      hide SqOk, CqOk, PhaseOf, Queue.HostOk, Queue.DeviceOk, Worked, Silent, Numbered, IdDue;
      if !ready { return -1, 0; }
      Identify(dw);
      ghost var mine, behind := |submitted|, Lag();
      Bounds();
      Submit(dw[..]);
      NothingWaits(mine, behind);
      code, out := Poll(mine, behind);
    }

    /** nvme_rw: the words of a read or write command. */
    method Rw(r: Request) returns (code: int)
      requires Valid() && IdsOk() && Lag() < DEPTH - 1
      modifies sq, cq, this
      ensures Valid() && IdsOk() && ready == old(ready) && old(posted) <= posted
      ensures !old(ready) ==> code == -1 && submitted == old(submitted) && consumed == old(consumed)
      ensures old(ready) ==> code != -1 && |submitted| == old(|submitted|) + 1 && old(submitted) <= submitted
      ensures old(ready) ==> Asks(submitted[old(|submitted|)], r)
      ensures code < 0 ==> consumed == old(consumed) && (old(ready) ==> code == -2 && consumed == |posted|)
      ensures code >= 0 ==> consumed == old(consumed) + 1 <= |posted| && code == posted[old(consumed)].status % 0x800
      ensures code >= 0 && old(Lag()) == 0 ==> posted[old(consumed)].cmd == old(|submitted|)
      ensures old(ready) ==> (code == -2 <==> Silent(old(Dev()), submitted, old(consumed), gaps, old(looks)))
      ensures code == -2 ==>
        looks == old(looks) + SPINS && Dev() == Worked(old(Dev()), submitted, consumed, gaps, old(looks), SPINS)
    {
      hide Queue.Valid, Queue.IdsOk, InOrder, Asks, Worked, Silent;
      var dw := new u32[16](i => 0);
      dw[0] := r.opcode;
      dw[1] := r.nsid;
      dw[6] := r.buf % U32_MOD;
      dw[7] := r.buf / U32_MOD;
      dw[10] := r.slba % U32_MOD;
      dw[11] := r.slba / U32_MOD;
      dw[12] := (r.nlb - 1) % U32_MOD % 0x10000;
      WordsAsk(dw[..], r);
      ghost var words := dw[..];
      var out: u32;
      code, out := IoCmd(dw);
      if ready { OpcodeOnly(words, dw[..], r); }
    }

    /** Commands one after the other, until one times out. */
    method RwAll(reqs: seq<Request>) returns (codes: seq<int>)
      requires Valid() && IdsOk() && ready && Lag() == 0
      modifies sq, cq, this
      ensures Valid() && IdsOk() && ready && |codes| <= |reqs|
      ensures |codes| == |reqs| ==> Lag() == 0 && |submitted| == old(|submitted|) + |reqs|
      ensures |codes| < |reqs| ==> Lag() == 1 && consumed == |posted| && |submitted| == old(|submitted|) + |codes| + 1
      ensures |codes| < |reqs| ==> Asks(submitted[old(|submitted|) + |codes|], reqs[|codes|]) && TimedOut()
      ensures AllServed(submitted, posted, old(|submitted|), reqs, codes)
    {
      hide Queue.Valid, Queue.IdsOk, Asks, AllServed, Worked, Silent;
      codes := [];
      NoneServed(submitted, posted, |submitted|, reqs);
      while |codes| < |reqs|
        invariant Valid() && IdsOk() && ready && |codes| <= |reqs| && Lag() == 0
        invariant |submitted| == old(|submitted|) + |codes|
        invariant AllServed(submitted, posted, old(|submitted|), reqs, codes)
        decreases |reqs| - |codes|
      {
        Bounds();
        ghost var s, p, d, l := submitted, posted, Dev(), looks;
        var r := reqs[|codes|];
        var code := Rw(r);
        StillServed(s, p, submitted, posted, old(|submitted|), reqs, codes);
        if code < 0 {
          assert CameFrom(d);
          return;
        }
        OneMoreServed(submitted, posted, old(|submitted|), reqs, codes, code);
        codes := codes + [code];
      }
    }

    /** The last SPINS looks all found nothing, although a command was outstanding. */
    ghost predicate TimedOut()
      reads `fetched, `pending, `posted, `looks, `submitted, `consumed
    {
      |posted| == consumed < |submitted| && exists d :: CameFrom(d)
    }

    /** The controller was in state d before the last SPINS looks. */
    ghost predicate CameFrom(d: Device)
      reads `fetched, `pending, `posted, `looks, `submitted, `consumed
    {
      looks >= SPINS && Dev() == Worked(d, submitted, consumed, gaps, looks - SPINS, SPINS)
    }

    /** Spins until a completion shows. It gives up exactly when the controller posts none in the gaps
        before SPINS looks. */
    method Poll(ghost mine: nat, ghost behind: int) returns (code: int, out: u32)
      requires Valid() && |submitted| == mine + 1 && 0 <= behind == mine - consumed
      requires behind == 0 ==> OnlyMine(mine)
      modifies cq, `fetched, `pending, `posted, `cqHead, `cqPhase, `cqDb, `consumed, `looks
      ensures Valid() && code >= -2 && code != -1 && old(posted) <= posted
      ensures code == -2 ==> consumed == old(consumed) == |posted|
      ensures code >= 0 ==> consumed == old(consumed) + 1 <= |posted|
      ensures code >= 0 ==> code == posted[old(consumed)].status % 0x800 && out == posted[old(consumed)].dw0
      ensures code >= 0 && behind == 0 ==> posted[old(consumed)].cmd == mine
      ensures code == -2 <==> Silent(old(Dev()), submitted, old(consumed), gaps, old(looks))
      ensures code == -2 ==>
        looks == old(looks) + SPINS && Dev() == Worked(old(Dev()), submitted, consumed, gaps, old(looks), SPINS)
    {
      hide Queue.Valid, DidAll, Worked, Silent;
      ghost var d, l, c := Dev(), looks, consumed;
      NotWorked(d, submitted, c, gaps, l);
      var spin := 0;
      while spin < SPINS
        invariant Valid() && spin <= SPINS && |submitted| == mine + 1 && consumed == c && looks == l + spin
        invariant Dev() == Worked(d, submitted, c, gaps, l, spin)
        invariant old(posted) <= posted && (behind == 0 ==> OnlyMine(mine)) && (spin > 0 ==> consumed == |posted|)
      {
        Bounds();
        Interleave();
        if behind == 0 { OnlyMineLeft(mine); }
        OneGapMore(d, submitted, c, gaps, l, spin);
        code, out := Look();
        if code >= 0 { return; }
        spin := spin + 1;
      }
      IsSilent(d, submitted, c, gaps, l);
      return -2, 0;
    }

    lemma Bounds()
      requires Valid()
      ensures consumed <= |posted| <= |fetched| <= |submitted|
    {
      Counts(submitted, consumed, fetched, pending, posted);
    }

    lemma OnlyMineLeft(mine: nat)
      requires Valid() && OnlyMine(mine)
      ensures forall n :: mine <= n < |posted| ==> posted[n].cmd == mine
    {
      hide SqOk, CqOk, PhaseOf;
    }

    /** From number `mine` on, the controller has nothing to complete but command `mine` or later ones. */
    ghost predicate OnlyMine(mine: nat)
      reads `fetched, `pending, `posted, `submitted
    {
      && |submitted| == mine + 1 && |fetched| >= mine
      && (forall k :: k in pending ==> k >= mine)
      && (forall n :: mine <= n < |posted| ==> posted[n].cmd >= mine)
    }

    /** With nothing outstanding before, the command just submitted is all there is to do. */
    lemma NothingWaits(mine: nat, behind: int)
      requires Valid() && |submitted| == mine + 1 && behind == mine - consumed && |fetched| <= mine
      ensures behind == 0 ==> OnlyMine(mine)
    {
      hide SqOk, CqOk, PhaseOf;
    }

    /** One look at the completion ring: consumes the next completion if its phase says it is there. */
    method Look() returns (code: int, out: u32)
      requires Valid() && Lag() > 0
      modifies `cqHead, `cqPhase, `cqDb, `consumed, `looks
      ensures Valid() && code >= -1 && looks == old(looks) + 1
      ensures code == -1 <==> old(consumed) == |posted|
      ensures code == -1 ==> consumed == old(consumed)
      ensures code >= 0 ==> consumed == old(consumed) + 1 <= |posted|
      ensures code >= 0 ==> code == posted[old(consumed)].status % 0x800 && out == posted[old(consumed)].dw0
      ensures |cq[..]| == 256 && old(cqHead) < 64
      ensures var w := cq[4 * old(cqHead) + 3];
        && (code == -1 <==> w / 65536 % 2 != old(cqPhase))
        && (code >= 0 ==> code == w / 131072 % 256 + 256 * (w / 33554432 % 8) && out == cq[4 * old(cqHead)])
    {
      hide SqOk, CqOk, PhaseOf, Dw3, DeviceFine;
      out := 0;
      looks := looks + 1;
      Counts(submitted, consumed, fetched, pending, posted);
      CqSize(cq[..], posted);
      PhaseTells(cq[..], posted, consumed);
      var dw3 := cq[cqHead * 4 + 3];
      if Phase(dw3) != cqPhase { return -1, 0; }
      StatusReads(cq[..], posted, consumed);
      code := Code(dw3);
      out := cq[cqHead * 4];
      cqHead := (cqHead + 1) % DEPTH;
      if cqHead == 0 { cqPhase := 1 - cqPhase; }
      NextPhase(consumed);
      ConsumeFine(submitted, consumed, fetched, pending, posted);
      cqDb := cqHead;
      consumed := consumed + 1;
    }
  }

  /** Two numbers less than a ring apart share a slot only if they are the same. */
  lemma SlotsDiffer(n: nat, m: nat)
    requires n <= m < n + DEPTH
    ensures n % DEPTH == m % DEPTH <==> n == m
  {
  }

  lemma NextSlot(consumed: nat, n: nat)
    requires consumed <= n < consumed + DEPTH
    ensures (n + 1) % DEPTH == consumed % DEPTH <==> n + 1 == consumed + DEPTH
  {
  }

  lemma NotDone(d: Device, submitted: seq<Cmd>, consumed: nat, a: Deed)
    requires a.Answer? && !(a.status < 0x8000 && a.id < 0x10000)
    ensures Did(d, submitted, consumed, a) == d
  {
  }

  lemma StatusReads(cq: seq<u32>, posted: seq<Post>, consumed: nat)
    requires CqOk(cq, posted) && consumed < |posted| <= consumed + DEPTH
    ensures Code(cq[consumed % DEPTH * 4 + 3]) == posted[consumed].status % 0x800
  {
    hide Code, Phase;
    Dw3Reads(posted[consumed], consumed);
  }

  /** The phase turns when the head comes round to zero. */
  lemma NextPhase(n: nat)
    ensures (n + 1) % DEPTH == (n % DEPTH + 1) % DEPTH
    ensures PhaseOf(n + 1) == if (n + 1) % DEPTH == 0 then 1 - PhaseOf(n) else PhaseOf(n)
  {
  }

  /** The controller completed everything so far in the order of submission. */
  predicate InOrder(posted: seq<Post>) {
    forall n :: 0 <= n < |posted| ==> posted[n].cmd == n
  }

  datatype Request = Request(opcode: u32, nsid: u32, slba: u64, nlb: u32, buf: u64)

  /** What the controller reads in the command: the operation, the namespace, the buffer, the first
      block and the zero-based block count, which is right exactly for 1 to 65536 blocks. */
  predicate Asks(cmd: Cmd, r: Request) {
    && cmd[0] % 0x10000 == r.opcode % 0x10000 && cmd[1] == r.nsid
    && (cmd[6] as int) + cmd[7] * U32_MOD == r.buf && (cmd[10] as int) + cmd[11] * U32_MOD == r.slba
    && ((cmd[12] as int) + 1 == r.nlb <==> 1 <= r.nlb <= 0x10000)
  }

  lemma WordsAsk(w: Cmd, r: Request)
    requires w[0] == r.opcode && w[1] == r.nsid && w[6] == r.buf % U32_MOD && w[7] == r.buf / U32_MOD
    requires w[10] == r.slba % U32_MOD && w[11] == r.slba / U32_MOD && w[12] == (r.nlb - 1) % U32_MOD % 0x10000
    ensures Asks(w, r)
  {
  }

  /** The identifier in the upper half of the first word does not matter. */
  lemma OpcodeOnly(w: Cmd, w2: Cmd, r: Request)
    requires Asks(w, r) && w2[1..] == w[1..] && w2[0] % 0x10000 == w[0] % 0x10000
    ensures Asks(w2, r)
  {
    assert forall i :: 1 <= i < 16 ==> w2[i] == w2[1..][i - 1] == w[1..][i - 1] == w[i];
  }

  /** Command number n is request r, completion number n is for it, and the code is its status. */
  predicate Served(submitted: seq<Cmd>, posted: seq<Post>, n: nat, r: Request, code: int) {
    n < |submitted| && n < |posted| && Asks(submitted[n], r) && posted[n].cmd == n && code == posted[n].status % 0x800
  }

  predicate AllServed(submitted: seq<Cmd>, posted: seq<Post>, base: nat, reqs: seq<Request>, codes: seq<int>) {
    |codes| <= |reqs| && forall i :: 0 <= i < |codes| ==> Served(submitted, posted, base + i, reqs[i], codes[i])
  }

  lemma NoneServed(submitted: seq<Cmd>, posted: seq<Post>, base: nat, reqs: seq<Request>)
    ensures AllServed(submitted, posted, base, reqs, [])
  {
  }

  lemma StillServed(s: seq<Cmd>, p: seq<Post>, s2: seq<Cmd>, p2: seq<Post>, base: nat, reqs: seq<Request>,
      codes: seq<int>)
    requires AllServed(s, p, base, reqs, codes) && s <= s2 && p <= p2
    ensures AllServed(s2, p2, base, reqs, codes)
  {
    hide Asks;
    forall i | 0 <= i < |codes| ensures Served(s2, p2, base + i, reqs[i], codes[i]) {
      assert Served(s, p, base + i, reqs[i], codes[i]);
    }
  }

  lemma OneMoreServed(s: seq<Cmd>, p: seq<Post>, base: nat, reqs: seq<Request>, codes: seq<int>, code: int)
    requires AllServed(s, p, base, reqs, codes) && |codes| < |reqs|
    requires Served(s, p, base + |codes|, reqs[|codes|], code)
    ensures AllServed(s, p, base, reqs, codes + [code])
  {
    hide Served;
  }

  lemma SqSize(sq: seq<u64>, submitted: seq<Cmd>, fetched: nat)
    requires SqOk(sq, submitted, fetched)
    ensures |sq| == 8 * DEPTH
  {
  }

  lemma CqSize(cq: seq<u32>, posted: seq<Post>)
    requires CqOk(cq, posted)
    ensures |cq| == 4 * DEPTH
  {
  }
}
