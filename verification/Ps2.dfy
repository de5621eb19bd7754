/** The byte queue between keyboard interrupt and main loop, and the decoder of mouse packets. */
module Ps2 {
  import opened Words

  const FS := 32

  /** A ring of 32 bytes; bytes that find it full are lost. */
  class Fifo {
    const buf: array<u8>
    var r: nat
    var w: nat
    var n: nat

    ghost predicate Valid()
      reads this, buf
    {
      buf.Length == FS && r < FS && w < FS && n <= FS && w == (r + n) % FS
    }

    ghost function Queue(): (q: seq<u8>)
      requires Valid()
      reads this, buf
      ensures |q| == n
    {
      seq(n, i requires 0 <= i < n && Valid() reads this, buf => buf[(r + i) % FS])
    }

    constructor ()
      ensures Valid() && fresh(buf) && Queue() == []
    {
      buf := new u8[FS](i => 0);
      r, w, n := 0, 0, 0;
    }

    /** fp. */
    method Put(d: u8)
      requires Valid()
      modifies `w, `n, buf
      ensures Valid() && Queue() == if old(n) < FS then old(Queue()) + [d] else old(Queue())
    {
      if n < FS {
        buf[w] := d;
        w := (w + 1) % FS;
        n := n + 1;
      }
    }

    /** fg. */
    method Get() returns (some: bool, d: u8)
      requires Valid()
      modifies `r, `n
      ensures Valid() && (some <==> old(Queue()) != [])
      ensures some ==> old(Queue()) == [d] + Queue()
      ensures !some ==> Queue() == old(Queue())
    {
      if n == 0 { return false, 0; }
      d := buf[r];
      r := (r + 1) % FS;
      n := n - 1;
      some := true;
    }
  }

  // ---------- the decoder ----------

  /** A decoded packet: buttons, movement to the right and, negated, up. */
  datatype Event = Event(btn: nat, x: int, y: int)

  /** struct MP: bytes received, which byte comes next, and the last packet. */
  datatype State = State(b0: u8, b1: u8, b2: u8, phase: nat, last: Event)

  /** The marker bits a first byte must have: (d & 0xC8) == 0x08. */
  predicate Marked(d: u8) {
    d / 0x40 == 0 && d / 8 % 2 == 1
  }

  /** An eight bit count with its sign bit: x |= 0xFFFFFF00 when the sign is set. */
  function Signed(low: u8, sign: bool): int {
    if sign then low - 0x100 else low
  }

  function PacketOf(b0: u8, b1: u8, b2: u8): Event {
    Event(b0 % 8, Signed(b1, b0 / 0x10 % 2 == 1), -Signed(b2, b0 / 0x20 % 2 == 1))
  }

  /** md: the new state and the result, 1 when a packet is complete, -1 before the first 0xFA. */
  function Next(m: State, d: u8): (State, int) {
    if m.phase == 0 && d == 0xFA then (m.(phase := 1), 0)
    else if m.phase == 1 then if Marked(d) then (m.(b0 := d, phase := 2), 0) else (m, 0)
    else if m.phase == 2 then (m.(b1 := d, phase := 3), 0)
    else if m.phase == 3 then (m.(b2 := d, phase := 1, last := PacketOf(m.b0, m.b1, d)), 1)
    else (m, -1)
  }

  /** The events the mouse interrupt acts on while a stream of bytes comes in: it does so
      whenever md does not return 0. */
  function Events(m: State, bytes: seq<u8>): seq<Event>
    decreases |bytes|
  {
    if bytes == [] then []
    else
      var (m2, r) := Next(m, bytes[0]);
      (if r != 0 then [m2.last] else []) + Events(m2, bytes[1..])
  }

  class Mouse {
    var b0: u8
    var b1: u8
    var b2: u8
    var phase: nat
    var btn: nat
    var x: int
    var y: int

    function Now(): State
      reads this
    {
      State(b0, b1, b2, phase, Event(btn, x, y))
    }

    constructor ()
      ensures Now().phase == 0
    {
      b0, b1, b2, phase, btn, x, y := 0, 0, 0, 0, 0, 0, 0;
    }

    method Md(d: u8) returns (r: int)
      modifies this
      ensures (Now(), r) == Next(old(Now()), d)
    {
      if phase == 0 && d == 0xFA { phase := 1; return 0; }
      if phase == 1 {
        if !(d / 0x40 == 0 && d / 8 % 2 == 1) { return 0; }
        b0 := d;
        phase := 2;
        return 0;
      }
      if phase == 2 { b1 := d; phase := 3; return 0; }
      if phase == 3 {
        b2 := d;
        phase := 1;
        btn := b0 % 8;
        x := b1;
        y := b2;
        if b0 / 0x10 % 2 == 1 { x := x - 0x100; }
        if b0 / 0x20 % 2 == 1 { y := y - 0x100; }
        y := -y;
        return 1;
      }
      return -1;
    }

    /** The mouse interrupt, once for each byte. */
    method Feed(bytes: seq<u8>) returns (events: seq<Event>)
      modifies this
      ensures events == Events(old(Now()), bytes)
    {
      hide Next, Events;
      events := [];
      ghost var all := Events(Now(), bytes);
      assert bytes[0..] == bytes;
      var i := 0;
      while i < |bytes|
        invariant 0 <= i <= |bytes| && all == events + Events(Now(), bytes[i..])
      {
        OneByte(events, Now(), bytes[i..]);
        assert bytes[i..][1..] == bytes[i + 1..];
        var r := Md(bytes[i]);
        if r != 0 { events := events + [Event(btn, x, y)]; }
        i := i + 1;
      }
      assert bytes[i..] == [];
      Silence(Now());
    }
  }

  // ---------- what the mouse sends ----------

  /** A movement report of the mouse: buttons and two nine-bit counts. */
  datatype Report = Report(btn: nat, dx: int, dy: int)

  predicate ReportOk(p: Report) {
    p.btn < 8 && -256 <= p.dx < 256 && -256 <= p.dy < 256
  }

  function Encoded(p: Report): (bytes: seq<u8>)
    requires ReportOk(p)
    ensures |bytes| == 3
  {
    [8 + p.btn + (if p.dx < 0 then 0x10 else 0) + (if p.dy < 0 then 0x20 else 0), p.dx % 0x100, p.dy % 0x100]
  }

  /** Reports one after the other, each behind some bytes that are no first byte. */
  function Sent(reports: seq<Report>, noise: seq<seq<u8>>): (bytes: seq<u8>)
    requires |noise| == |reports| && forall i :: 0 <= i < |reports| ==> ReportOk(reports[i])
  {
    if reports == [] then [] else noise[0] + Encoded(reports[0]) + Sent(reports[1..], noise[1..])
  }

  function Meant(reports: seq<Report>): seq<Event> {
    seq(|reports|, i requires 0 <= i < |reports| => Event(reports[i].btn, reports[i].dx, -reports[i].dy))
  }

  lemma {:induction false} NoiseSkipped(m: State, noise: seq<u8>, rest: seq<u8>)
    requires m.phase == 1 && forall i :: 0 <= i < |noise| ==> !Marked(noise[i])
    ensures Events(m, noise + rest) == Events(m, rest)
  {
    if noise == [] {
      assert noise + rest == rest;
    } else {
      assert (noise + rest)[1..] == noise[1..] + rest && (noise + rest)[0] == noise[0];
      NoiseSkipped(m, noise[1..], rest);
    }
  }

  /** One report makes one packet and leaves the decoder waiting for the next. */
  lemma ReportDecoded(m: State, p: Report, rest: seq<u8>) returns (m2: State)
    requires m.phase == 1 && ReportOk(p)
    ensures m2.phase == 1 && Events(m, Encoded(p) + rest) == [Event(p.btn, p.dx, -p.dy)] + Events(m2, rest)
  {
    var bytes := Encoded(p) + rest;
    var b := Encoded(p)[0];
    assert Marked(b) && b % 8 == p.btn && (b / 0x10 % 2 == 1 <==> p.dx < 0) && (b / 0x20 % 2 == 1 <==> p.dy < 0);
    assert PacketOf(b, bytes[1], bytes[2]) == Event(p.btn, p.dx, -p.dy);
    var m1 := m.(b0 := b, phase := 2);
    var m3 := m1.(b1 := bytes[1], phase := 3);
    m2 := m3.(b2 := bytes[2], phase := 1, last := PacketOf(b, bytes[1], bytes[2]));
    assert Next(m, bytes[0]) == (m1, 0) && Next(m1, bytes[1]) == (m3, 0) && Next(m3, bytes[2]) == (m2, 1);
    assert bytes[1..][1..] == bytes[2..] && bytes[2..][1..] == rest;
    assert Events(m3, bytes[2..]) == [m2.last] + Events(m2, rest);
    assert Events(m1, bytes[1..]) == [] + Events(m3, bytes[2..]);
    assert Events(m, bytes) == [] + Events(m1, bytes[1..]);
  }

  /** Whatever the mouse reports is what comes out, in order, with the vertical count negated;
      bytes in between that cannot start a packet, bit 6 or 7 set or bit 3 clear, change nothing. */
  lemma {:induction false} ReportsComeThrough(m: State, reports: seq<Report>, noise: seq<seq<u8>>)
    requires m.phase == 1 && |noise| == |reports| && forall i :: 0 <= i < |reports| ==> ReportOk(reports[i])
    requires forall i, j :: 0 <= i < |noise| && 0 <= j < |noise[i]| ==>
      noise[i][j] >= 0x40 || noise[i][j] / 8 % 2 == 0
    ensures Events(m, Sent(reports, noise)) == Meant(reports)
    decreases |reports|
  {
    hide Next, Events, Encoded;
    if reports == [] {
      assert Events(m, []) == [] by { Silence(m); }
    } else {
      var tail := Sent(reports[1..], noise[1..]);
      assert noise[0] + Encoded(reports[0]) + tail == noise[0] + (Encoded(reports[0]) + tail);
      NoiseSkipped(m, noise[0], Encoded(reports[0]) + tail);
      var m2 := ReportDecoded(m, reports[0], tail);
      ReportsComeThrough(m2, reports[1..], noise[1..]);
      assert Meant(reports) == [Event(reports[0].btn, reports[0].dx, -reports[0].dy)] + Meant(reports[1..]);
    }
  }

  /** Before the acknowledgement byte 0xFA every byte counts as a repetition of the last packet:
      right after start-up, as many events without button or movement as there are bytes. */
  lemma {:induction false} BeforeAcknowledge(m: State, bytes: seq<u8>, rest: seq<u8>)
    requires m.phase == 0 && 0xFA !in bytes
    ensures Events(m, bytes + [0xFA] + rest) == seq(|bytes|, _ => m.last) + Events(m.(phase := 1), rest)
  {
    if bytes == [] {
      assert bytes + [0xFA] + rest == [0xFA] + rest;
      assert ([0xFA] + rest)[1..] == rest;
    } else {
      var all := bytes + [0xFA] + rest;
      assert all[0] == bytes[0] && bytes[0] in bytes && all[1..] == bytes[1..] + [0xFA] + rest;
      BeforeAcknowledge(m, bytes[1..], rest);
      assert seq(|bytes|, _ => m.last) == [m.last] + seq(|bytes| - 1, _ => m.last);
    }
  }

  lemma OneByte(done: seq<Event>, m: State, q: seq<u8>)
    requires q != []
    ensures var (m2, r) := Next(m, q[0]);
      done + Events(m, q) == (done + if r != 0 then [m2.last] else []) + Events(m2, q[1..])
  {
    hide Next;
  }

  lemma Silence(m: State)
    ensures Events(m, []) == []
  {
  }
}
