/** The log appended to raw sectors of the disk, one buffer page at a time. */
module LogDisk {
  import opened Words

  const LBA0 := 2048
  const MAX_SECT := 1024
  const BUF_SZ := 4096

  /** A completed write: where, which bytes, and how many of them are log text. */
  datatype Write = Write(lba: nat, bytes: seq<u8>, payload: nat)

  /** Writes in the region, none overlapping an earlier one, the last ending `sect` sectors in;
      each holds its text and no whole sector beyond it. */
  predicate InRegion(writes: seq<Write>, sect: nat) {
    && sect <= MAX_SECT
    && (forall i :: 0 <= i < |writes| ==>
          && LBA0 <= writes[i].lba && 0 < writes[i].payload <= |writes[i].bytes| < writes[i].payload + 512
          && |writes[i].bytes| % 512 == 0 && writes[i].lba + |writes[i].bytes| / 512 <= LBA0 + sect)
    && (forall i, j :: 0 <= i < j < |writes| ==> writes[i].lba + |writes[i].bytes| / 512 <= writes[j].lba)
  }

  function Payload(w: Write): seq<u8> {
    if w.payload <= |w.bytes| then w.bytes[..w.payload] else w.bytes
  }

  /** The log text on the disk. */
  function Text(writes: seq<Write>): seq<u8> {
    if writes == [] then [] else Text(writes[..|writes| - 1]) + Payload(writes[|writes| - 1])
  }

  lemma OneMoreWrite(writes: seq<Write>, sect: nat, w: Write)
    requires InRegion(writes, sect) && w.lba == LBA0 + sect && 0 < w.payload <= |w.bytes| < w.payload + 512
    requires |w.bytes| % 512 == 0 && sect + |w.bytes| / 512 <= MAX_SECT
    ensures InRegion(writes + [w], sect + |w.bytes| / 512)
    ensures Text(writes + [w]) == Text(writes) + w.bytes[..w.payload]
  {
    assert (writes + [w])[..|writes|] == writes;
  }

  // ---------- how far the log has come, apart from its text ----------

  /** Buffer fill, sectors used, writes tried, and whether text has been dropped. */
  datatype Progress = Progress(len: nat, sect: nat, tries: nat, dropped: bool)

  /** logdisk_flush on a started log, the n-th write tried failing exactly if faults(n). */
  function Flushed(p: Progress, faults: nat -> bool): (q: Progress) {
    if p.len == 0 then p
    else if RegionFull(p) then Progress(0, p.sect, p.tries, true)
    else if faults(p.tries) then Progress(0, p.sect, p.tries + 1, true)
    else Progress(0, p.sect + Sectors(p.len), p.tries + 1, p.dropped)
  }

  function Sectors(len: nat): nat {
    (len + 511) / 512
  }

  predicate RegionFull(p: Progress) {
    p.sect + Sectors(p.len) > MAX_SECT
  }

  /** One character logged. */
  function Put1(p: Progress, faults: nat -> bool): Progress {
    var q := if p.len >= BUF_SZ then Flushed(p, faults) else p;
    q.(len := q.len + 1)
  }

  function PutAll(p: Progress, faults: nat -> bool, n: nat): Progress {
    if n == 0 then p else Put1(PutAll(p, faults, n - 1), faults)
  }

  ghost predicate WriteFailed(faults: nat -> bool, from: nat, to: nat) {
    exists n :: from <= n < to && faults(n)
  }

  /** A flush made before one of the next n characters finds the region full. */
  ghost predicate FindsFull(p: Progress, faults: nat -> bool, n: nat) {
    exists k :: 0 <= k < n && PutAll(p, faults, k).len >= BUF_SZ && RegionFull(PutAll(p, faults, k))
  }

  /** Text is dropped only, and always, when a write fails or the region is full. */
  lemma {:induction false} DroppedExactly(p: Progress, faults: nat -> bool, n: nat)
    ensures p.tries <= PutAll(p, faults, n).tries
    ensures PutAll(p, faults, n).dropped <==>
      p.dropped || WriteFailed(faults, p.tries, PutAll(p, faults, n).tries) || FindsFull(p, faults, n)
  {
    hide Sectors;
    if n > 0 {
      DroppedExactly(p, faults, n - 1);
      var q := PutAll(p, faults, n - 1);
      assert FindsFull(p, faults, n) <==> FindsFull(p, faults, n - 1) || (q.len >= BUF_SZ && RegionFull(q));
      var r := PutAll(p, faults, n);
      assert r.tries == q.tries || r.tries == q.tries + 1;
      assert WriteFailed(faults, p.tries, r.tries) <==>
        WriteFailed(faults, p.tries, q.tries) || (r.tries == q.tries + 1 && faults(q.tries));
    }
  }

  /** How much fits: on a device that refuses nothing the first 528384 characters of a fresh log are all on
      the disk or in the buffer, 8 sectors to each full buffer of 4096, and the next one drops a buffer. */
  lemma {:induction false} Capacity(faults: nat -> bool, tries: nat, n: nat)
    requires forall k :: !faults(k)
    ensures var q := PutAll(Progress(0, 0, tries, false), faults, n);
      && (n == 0 ==> q == Progress(0, 0, tries, false))
      && (0 < n <= 528384 ==>
            q == Progress((n - 1) % 4096 + 1, 8 * ((n - 1) / 4096), tries + (n - 1) / 4096, false))
      && (n > 528384 ==> q.dropped)
  {
    if n > 0 {
      Capacity(faults, tries, n - 1);
      var q := PutAll(Progress(0, 0, tries, false), faults, n - 1);
      if 1 < n <= 528384 {
        assert n - 2 == 4096 * ((n - 2) / 4096) + (n - 2) % 4096;
      }
    }
  }

  /** The writes lie in sectors 2048 to 3071 and do not overlap. */
  lemma RegionInNumbers(writes: seq<Write>, sect: nat, i: nat, j: nat)
    requires InRegion(writes, sect) && i < j < |writes|
    ensures 2048 <= writes[i].lba < writes[i].lba + |writes[i].bytes| / 512 <= writes[j].lba
    ensures writes[j].lba + |writes[j].bytes| / 512 <= 3072
  {
    assert writes[i].lba + |writes[i].bytes| / 512 <= writes[j].lba;
  }

  class Log {
    const buf: array<u8>
    /** Whether the n-th write tried fails. */
    const faults: nat -> bool
    var ok: bool
    var len: nat
    var sect: nat
    /** How many writes the device has been asked for. */
    var tries: nat
    /** The writes completed since the log was started, everything logged since, and whether
        any of it was dropped. */
    ghost var writes: seq<Write>
    ghost var stream: seq<u8>
    ghost var dropped: bool

    ghost predicate Valid()
      reads this, buf
    {
      && buf.Length == BUF_SZ && len <= BUF_SZ && InRegion(writes, sect)
      && (!dropped ==> Text(writes) + buf[..len] == stream)
    }

    ghost function Now(): Progress
      reads `len, `sect, `tries, `dropped
    {
      Progress(len, sect, tries, dropped)
    }

    constructor (faults: nat -> bool)
      ensures Valid() && fresh(buf) && !ok && stream == [] && writes == [] && this.faults == faults
    {
      buf := new u8[BUF_SZ](i => 0);
      this.faults := faults;
      ok, len, sect, tries, writes, stream, dropped := false, 0, 0, 0, [], [], false;
    }

    /** logdisk_init. */
    method Init(nvmeReady: bool) returns (code: int)
      requires Valid()
      modifies `ok, `len, `sect, `writes, `stream, `dropped
      ensures Valid() && (code == 0 <==> nvmeReady)
      ensures code != 0 ==>
        code == -1 && ok == old(ok) && Now() == old(Now()) && stream == old(stream) && writes == old(writes)
      ensures code == 0 ==> ok && writes == [] && stream == [] && Now() == Progress(0, 0, old(tries), false)
    {
      hide InRegion, Text;
      if !nvmeReady { return -1; }
      NothingWritten();
      len, sect, ok := 0, 0, true;
      writes, stream, dropped := [], [], false;
      return 0;
    }

    /** One write of the device: it fails exactly if the device says so. */
    method DeviceWrite() returns (done: bool)
      modifies `tries
      ensures tries == old(tries) + 1 && done == !faults(old(tries))
    {
      done := !faults(tries);
      tries := tries + 1;
    }

    /** logdisk_flush: the buffer is empty afterwards; what was in it is on the disk, or dropped
        because the region is full or the write failed. */
    method Flush()
      requires Valid()
      modifies `len, `sect, `tries, `writes, `dropped
      ensures Valid() && Now() == if ok then Flushed(old(Now()), faults) else old(Now())
      ensures writes == if ok && old(len) > 0 && !RegionFull(old(Now())) && !faults(old(tries))
        then old(writes) + [Write(LBA0 + old(sect), Padded(buf[..], Sectors(old(len))), old(len))] else old(writes)
    {
      hide InRegion, Text;
      if !ok || len == 0 { return; }
      var nlb := (len + 511) / 512;
      if sect + nlb > MAX_SECT {
        len, dropped := 0, true;
        return;
      }
      var done := DeviceWrite();
      if done {
        ghost var w := Write(LBA0 + sect, Padded(buf[..], nlb), len);
        assert |w.bytes| == nlb * 512;
        OneMoreWrite(writes, sect, w);
        assert w.bytes[..len] == buf[..len];
        writes := writes + [w];
        sect := sect + nlb;
        len := 0;
        assert Text(writes) + buf[..0] == Text(writes);
      } else {
        len, dropped := 0, true;
      }
    }

    /** One character of the log; a full buffer goes to the disk first. */
    method Put(ch: u8)
      requires Valid() && ok
      modifies `len, `sect, `tries, `writes, `dropped, `stream, buf
      ensures Valid() && Now() == Put1(old(Now()), faults)
      ensures old(writes) <= writes && stream == old(stream) + [ch]
    {
      hide InRegion, Text;
      if len >= BUF_SZ { Flush(); }
      ghost var was := buf[..len];
      TextWith(writes, was, ch);
      buf[len] := ch;
      assert buf[..len + 1] == was + [ch];
      len := len + 1;
      stream := stream + [ch];
    }

    /** logdisk_sink: a zero-terminated text goes into the log. Text is dropped exactly when some
        was before, a write of this call failed, or a flush of this call found the region full. */
    method Sink(s: seq<u8>)
      requires Valid()
      modifies `len, `sect, `tries, `writes, `dropped, `stream, buf
      ensures Valid() && old(writes) <= writes
      ensures stream == if ok then old(stream) + CStr(s) else old(stream)
      ensures Now() == if ok then PutAll(old(Now()), faults, |CStr(s)|) else old(Now())
      ensures ok ==>
        (dropped <==>
          old(dropped) || WriteFailed(faults, old(tries), tries) || FindsFull(old(Now()), faults, |CStr(s)|))
    {
      hide Log.Valid, CStr, Put1, WriteFailed, FindsFull;
      if !ok { return; }
      ghost var p := Now();
      var i := 0;
      InCStr(s, 0);
      while CharAt(s, i) != 0
        invariant Valid() && i <= |CStr(s)| && stream == old(stream) + CStr(s)[..i] && old(writes) <= writes
        invariant i < |CStr(s)| <==> CharAt(s, i) != 0
        invariant Now() == PutAll(p, faults, i)
        decreases |CStr(s)| - i
      {
        InCStr(s, i);
        Put(s[i]);
        assert CStr(s)[..i + 1] == CStr(s)[..i] + [s[i]];
        i := i + 1;
        InCStr(s, i);
      }
      assert CStr(s)[..i] == CStr(s);
      DroppedExactly(p, faults, |CStr(s)|);
    }
  }

  /** The sectors written: the text and whatever the buffer held behind it. */
  function Padded(buf: seq<u8>, nlb: nat): seq<u8> {
    if nlb * 512 <= |buf| then buf[..nlb * 512] else buf
  }

  lemma NothingWritten()
    ensures InRegion([], 0) && Text([]) == []
  {
  }

  lemma TextWith(writes: seq<Write>, rest: seq<u8>, ch: u8)
    ensures Text(writes) + (rest + [ch]) == (Text(writes) + rest) + [ch]
  {
    hide Text;
  }
}
