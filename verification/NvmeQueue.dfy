/**
 The NVMe command queue pair: a submission ring and a completion ring of 64 entries in shared
 memory, two doorbell registers and a phase tag, after sections 4.1 and 4.6 of NVM Express
 revision 1.4. The host submits one command and polls for a completion; the controller runs in
 between, fetching and completing commands in any order and at any time.
 */
module NvmeQueue {
  import opened Words

  const DEPTH := 64
  const SPINS := 20000000

  type Cmd = c: seq<u32> | |c| == 16 witness seq(16, _ => 0)

  /** A completion: the number of the command it is for, its result word, status field and command identifier. */
  datatype Post = Post(cmd: nat, dw0: u32, status: nat, cid: nat)

  predicate PostOk(p: Post) {
    p.status < 0x8000 && p.cid < 0x10000
  }

  /** The phase tag of the n-th completion: 1 on the first lap round the ring, then in turn. */
  function PhaseOf(n: nat): (bit: nat)
    ensures bit == 0 || bit == 1
  {
    if n / DEPTH % 2 == 0 then 1 else 0
  }

  /** The last word of the n-th completion: identifier, phase tag at bit 16, status from bit 17 on. */
  function Dw3(p: Post, n: nat): u32
    requires PostOk(p)
  {
    p.cid + 0x10000 * PhaseOf(n) + 0x20000 * p.status
  }

  function Phase(dw3: u32): nat {
    dw3 / 0x10000 % 2
  }

  /** Status code and status code type together, as the driver returns them. */
  function Code(dw3: u32): nat {
    dw3 / 0x20000 % 0x100 + dw3 / 0x2000000 % 8 * 0x100
  }

  lemma Dw3Reads(p: Post, n: nat)
    requires PostOk(p)
    ensures Phase(Dw3(p, n)) == PhaseOf(n) && Code(Dw3(p, n)) == p.status % 0x800
  {
    var d := Dw3(p, n);
    assert d / 0x10000 == PhaseOf(n) + 2 * p.status;
    assert d / 0x20000 == p.status;
    assert d / 0x2000000 == p.status / 0x100;
    assert p.status % 0x800 == p.status % 0x100 + p.status / 0x100 % 8 * 0x100;
  }

  /** The completion ring holds the last 64 completions, and zeros where there has been none. */
  predicate CqOk(cq: seq<u32>, posted: seq<Post>) {
    && |cq| == 4 * DEPTH
    && (forall n :: 0 <= n < |posted| ==> PostOk(posted[n]))
    && (forall n {:trigger posted[n]} :: 0 <= n < |posted| && |posted| - DEPTH <= n ==>
          cq[n % DEPTH * 4 + 3] == Dw3(posted[n], n) && cq[n % DEPTH * 4] == posted[n].dw0)
    && (forall s :: |posted| <= s < DEPTH ==> cq[s * 4 + 3] == 0)
  }

  /** The entry at the host's head carries the host's phase exactly when there is a completion
      the host has not consumed. */
  lemma PhaseTells(cq: seq<u32>, posted: seq<Post>, consumed: nat)
    requires CqOk(cq, posted) && consumed <= |posted| <= consumed + DEPTH
    ensures Phase(cq[consumed % DEPTH * 4 + 3]) == PhaseOf(consumed) <==> consumed < |posted|
    ensures consumed < |posted| ==>
      && cq[consumed % DEPTH * 4 + 3] == Dw3(posted[consumed], consumed)
      && cq[consumed % DEPTH * 4] == posted[consumed].dw0
  {
    hide Dw3, Phase, Code;
    if consumed < |posted| {
      Dw3Reads(posted[consumed], consumed);
    } else if consumed >= DEPTH {
      var n := consumed - DEPTH;
      assert n % DEPTH == consumed % DEPTH && PhaseOf(n) != PhaseOf(consumed);
      Dw3Reads(posted[n], n);
    } else {
      assert consumed % DEPTH == consumed && PhaseOf(consumed) == 1 && Phase(0) == 0 by { ZeroPhase(); }
    }
  }

  lemma ZeroPhase()
    ensures Phase(0) == 0
  {
  }

  /** One more completion written at the controller's tail. */
  lemma PostKeeps(cq: seq<u32>, posted: seq<Post>, p: Post, cq2: seq<u32>)
    requires CqOk(cq, posted) && PostOk(p) && |cq2| == |cq|
    requires forall k :: 0 <= k < |cq| && k / 4 != |posted| % DEPTH ==> cq2[k] == cq[k]
    requires cq2[|posted| % DEPTH * 4 + 3] == Dw3(p, |posted|) && cq2[|posted| % DEPTH * 4] == p.dw0
    ensures CqOk(cq2, posted + [p])
  {
    hide Dw3;
    var now := posted + [p];
    forall n {:trigger now[n]} | 0 <= n < |now| && |now| - DEPTH <= n
      ensures cq2[n % DEPTH * 4 + 3] == Dw3(now[n], n) && cq2[n % DEPTH * 4] == now[n].dw0 {
      if n < |posted| {
        OtherSlot(n, |posted|);
        assert now[n] == posted[n];
      }
    }
  }

  lemma OtherSlot(n: nat, m: nat)
    requires n < m < n + DEPTH
    ensures n % DEPTH != m % DEPTH && n % DEPTH * 4 / 4 != m % DEPTH && (n % DEPTH * 4 + 3) / 4 != m % DEPTH
  {
  }

  // ---------- the submission ring ----------

  const HIGH := 0x1_0000_0000

  /** Element i of a command's slot. */
  function Pair(cmd: Cmd, i: nat): u64
    requires i < 8
  {
    cmd[2 * i] + cmd[2 * i + 1] * HIGH
  }

  /** Slot n of the ring holds the command, two words to an element. */
  predicate SlotHolds(sq: seq<u64>, slot: nat, cmd: Cmd)
    requires slot * 8 + 8 <= |sq|
  {
    forall i :: 0 <= i < 8 ==> sq[slot * 8 + i] == Pair(cmd, i)
  }

  /** Commands the controller has not fetched yet are in their slots. */
  predicate SqOk(sq: seq<u64>, submitted: seq<Cmd>, fetched: nat) {
    && |sq| == 8 * DEPTH && fetched <= |submitted| < fetched + DEPTH
    && forall n {:trigger submitted[n]} :: fetched <= n < |submitted| ==> SlotHolds(sq, n % DEPTH, submitted[n])
  }

  function Unpacked(sq: seq<u64>, slot: nat): (cmd: Cmd)
    requires slot * 8 + 8 <= |sq|
  {
    seq(16, i requires 0 <= i < 16 => if i % 2 == 0 then sq[slot * 8 + i / 2] % HIGH else sq[slot * 8 + i / 2] / HIGH)
  }

  /** What the controller makes of a slot is the command the host put there. */
  lemma UnpackedIs(sq: seq<u64>, slot: nat, cmd: Cmd)
    requires slot * 8 + 8 <= |sq| && SlotHolds(sq, slot, cmd)
    ensures Unpacked(sq, slot) == cmd
  {
    forall i | 0 <= i < 16 ensures Unpacked(sq, slot)[i] == cmd[i] {
      var h := i / 2;
      assert sq[slot * 8 + h] == Pair(cmd, h);
      Halves(cmd[2 * h], cmd[2 * h + 1]);
    }
  }

  lemma Halves(lo: u32, hi: u32)
    ensures (lo + hi * HIGH) % HIGH == lo && (lo + hi * HIGH) / HIGH == hi
  {
  }

  lemma SubmitKeeps(sq: seq<u64>, submitted: seq<Cmd>, fetched: nat, cmd: Cmd, sq2: seq<u64>)
    requires SqOk(sq, submitted, fetched) && |submitted| + 1 < fetched + DEPTH && |sq2| == |sq|
    requires forall k :: 0 <= k < |sq| && k / 8 != |submitted| % DEPTH ==> sq2[k] == sq[k]
    requires SlotHolds(sq2, |submitted| % DEPTH, cmd)
    ensures SqOk(sq2, submitted + [cmd], fetched)
  {
    hide SlotHolds;
    var now := submitted + [cmd];
    forall n {:trigger now[n]} | fetched <= n < |now| ensures SlotHolds(sq2, n % DEPTH, now[n]) {
      if n < |submitted| {
        assert now[n] == submitted[n] && n % DEPTH != |submitted| % DEPTH;
        SameSlot(sq, sq2, n % DEPTH, submitted[n]);
      }
    }
  }

  lemma SameSlot(sq: seq<u64>, sq2: seq<u64>, slot: nat, cmd: Cmd)
    requires slot * 8 + 8 <= |sq| == |sq2| && SlotHolds(sq, slot, cmd)
    requires forall k :: 0 <= k < |sq| && k / 8 == slot ==> sq2[k] == sq[k]
    ensures SlotHolds(sq2, slot, cmd)
  {
    forall i | 0 <= i < 8 ensures sq2[slot * 8 + i] == Pair(cmd, i) { assert (slot * 8 + i) / 8 == slot; }
  }
}
