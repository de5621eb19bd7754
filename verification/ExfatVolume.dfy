/**
 The exFAT driver at work. Sector reads and writes go to a device that may fail at any access;
 a failed write may leave anything in the sectors it was for.
 */
module ExfatVolume {
  import opened Bits
  import opened ExfatDir
  import opened ExfatDisk
  import opened ExfatWrite
  import opened Words

  /** The first n characters of both texts are the same, and none of them ends the text. */
  predicate SameUpTo(a: seq<u8>, c: seq<u8>, n: nat) {
    forall j: nat :: j < n ==> CharAt(a, j) != 0 && CharAt(a, j) == CharAt(c, j)
  }

  /** xstrcmp: zero exactly for equal texts, else the difference of the first characters that differ. */
  method StrCmp(a: seq<u8>, c: seq<u8>) returns (r: int)
    ensures r == 0 <==> CStr(a) == CStr(c)
    ensures exists i :: SameUpTo(a, c, i) && r == CharAt(a, i) - CharAt(c, i)
  {
    var i := 0;
    while CharAt(a, i) != 0 && CharAt(a, i) == CharAt(c, i)
      invariant i <= |CStr(a)| && i <= |CStr(c)| && CStr(a)[..i] == CStr(c)[..i]
      invariant SameUpTo(a, c, i)
      decreases |a| - i
    {
      InCStr(a, i);
      InCStr(c, i);
      i := i + 1;
    }
    r := CharAt(a, i) - CharAt(c, i);
    InCStr(a, i);
    InCStr(c, i);
    if r == 0 { assert CStr(a) == CStr(a)[..i] && CStr(c) == CStr(c)[..i]; }
  }

  /** The length exfat_write_file takes a name to have. */
  method NameLength(fname: seq<u8>) returns (nlen: nat)
    ensures nlen <= |fname| && fname[..nlen] == Capped(CStr(fname))
  {
    nlen := 0;
    while CharAt(fname, nlen) != 0 && nlen < 255
      invariant nlen <= |CStr(fname)| && nlen <= 255
      decreases |fname| - nlen
    {
      InCStr(fname, nlen);
      nlen := nlen + 1;
    }
    InCStr(fname, nlen);
  }

  /** The search for the bitmap entry in the root buffer. */
  method FindBitmap(rd: array<u8>, bpc: nat) returns (bitmap: u32)
    requires bpc <= rd.Length && bpc % 32 == 0
    ensures bitmap == BitmapAt(rd[..bpc], 0)
  {
    hide Le;
    bitmap := 0;
    var o := 0;
    while o < bpc
      invariant 0 <= o <= bpc && o % 32 == 0 && bitmap == 0 && BitmapAt(rd[..bpc], o) == BitmapAt(rd[..bpc], 0)
    {
      if rd[o] == BITMAP {
        bitmap := Le32(rd[..bpc], o + 20);
        return;
      }
      if rd[o] == EOD { return; }
      o := o + 32;
    }
  }

  /** The search for a free cluster in the bitmap buffer. */
  method FindFree(bm: array<u8>, bpc: nat, count: u32) returns (free: u32)
    requires bpc <= bm.Length && count <= 8 * bpc
    ensures free == FirstFree(bm[..bpc], 2, count)
  {
    free := 0;
    var cc := 2;
    while cc < count
      invariant 2 <= cc && free == 0 && FirstFree(bm[..bpc], cc, count) == FirstFree(bm[..bpc], 2, count)
    {
      if !Bit(bm[cc / 8], cc % 8) {
        free := cc;
        return;
      }
      cc := cc + 1;
    }
  }

  /** The first record of a name, as exfat_find searches the list. */
  method FindIn(infos: seq<FileInfo>, fname: seq<u8>) returns (r: Option<FileInfo>)
    ensures r == Named(infos, fname)
  {
    hide CStr, FirstNamed;
    FirstNamedIs(infos, fname);
    var i := 0;
    while i < |infos|
      invariant 0 <= i <= |infos| && FirstNamed(infos, fname) >= i
    {
      var cmp := StrCmp(infos[i].name, fname);
      if cmp == 0 { return Some(infos[i]); }
      i := i + 1;
    }
    return None;
  }

  class Volume {
    const boot: Boot
    const tmp: array<u8>
    var ready: bool
    var disk: Disk
    /** The disk after each completed sector write. */
    ghost var log: seq<Disk>
    /** Which sector reads and which sector writes the device refuses, counted from its start. */
    const readFaults: nat -> bool
    const writeFaults: nat -> bool
    var readTries: nat
    var writeTries: nat

    ghost predicate Valid()
      reads `disk
    {
      Fit(boot, disk) && tmp.Length == 8192
    }

    constructor (boot: Boot, disk: Disk, readFaults: nat -> bool, writeFaults: nat -> bool)
      requires Fit(boot, disk)
      ensures Valid() && this.boot == boot && this.disk == disk && ready && log == [] && fresh(tmp)
      ensures this.readFaults == readFaults && this.writeFaults == writeFaults && readTries == 0 && writeTries == 0
    {
      this.boot, this.disk, ready := boot, disk, true;
      tmp := new u8[8192](i => 0);
      this.readFaults, this.writeFaults := readFaults, writeFaults;
      log, readTries, writeTries := [], 0, 0;
    }

    /** A read, or a write, from number `from` on has been refused. */
    ghost predicate ReadRefused(from: nat)
      reads `readTries
    {
      Faulted(readFaults, from, readTries)
    }

    ghost predicate WriteRefused(from: nat)
      reads `writeTries
    {
      Faulted(writeFaults, from, writeTries)
    }

    // ---------- sectors ----------

    method SecRd(lba: u32, buf: array<u8>, at: nat) returns (ok: bool)
      requires at + 512 <= buf.Length
      modifies buf, `readTries
      ensures readTries == old(readTries) + 1
      ensures ok <==> !readFaults(old(readTries)) && 512 * (lba + 1) <= |disk|
      ensures ok ==> forall k :: 0 <= k < buf.Length ==>
        buf[k] == (if at <= k < at + 512 then disk[512 * lba + k - at] else old(buf[k]))
    {
      readTries := readTries + 1;
      if readFaults(readTries - 1) || 512 * (lba + 1) > |disk| { return false; }
      Copy(buf, at, disk[512 * lba..512 * lba + 512]);
      return true;
    }

    method SecWr(lba: u32, bytes: seq<u8>) returns (ok: bool)
      modifies `disk, `log, `writeTries
      ensures writeTries == old(writeTries) + 1 && |disk| == |old(disk)|
      ensures ok <==> !writeFaults(old(writeTries)) && 512 * lba + |bytes| <= |disk|
      ensures ok ==> disk == Splice(old(disk), 512 * lba, bytes) && log == old(log) + [disk]
      ensures !ok ==> log == old(log) && Elsewhere(old(disk), disk, 512 * lba, 512 * lba + |bytes|)
    {
      var junk: seq<u8> := *;
      writeTries := writeTries + 1;
      if writeFaults(writeTries - 1) || 512 * lba + |bytes| > |disk| {
        if |junk| <= |bytes| && 512 * lba + |junk| <= |disk| { disk := Splice(disk, 512 * lba, junk); }
        return false;
      }
      disk := Splice(disk, 512 * lba, bytes);
      log := log + [disk];
      return true;
    }

    method ReadCluster(c: u32, buf: array<u8>) returns (ok: bool)
      requires Valid() && Bpc(boot) <= buf.Length
      modifies buf, `readTries
      ensures old(readTries) <= readTries <= old(readTries) + boot.spc
      ensures ok <==> Readable(boot, disk, c) && !ReadRefused(old(readTries))
      ensures ok <==> Readable(boot, disk, c) && !Faulted(readFaults, old(readTries), old(readTries) + boot.spc)
      ensures ok ==> readTries == old(readTries) + boot.spc
      ensures ok ==> buf[..Bpc(boot)] == Cluster(boot, disk, c)
    {
      hide Lba, Geometry;
      var lba := Lba(boot, c);
      var i := 0;
      while i < boot.spc
        invariant 0 <= i <= boot.spc && 512 * (if i == 0 then 0 else lba + i) <= |disk|
        invariant forall k :: 0 <= k < 512 * i ==> buf[k] == disk[512 * lba + k]
        invariant readTries == old(readTries) + i && !ReadRefused(old(readTries))
      {
        assert lba + i < U32_MOD by { SectorInRange(boot, disk, lba, i); }
        var ok1 := SecRd(lba + i, buf, i * 512);
        if !ok1 { return false; }
        i := i + 1;
      }
      return true;
    }

    method NextCluster(c: u32) returns (v: u32)
      requires Valid()
      modifies `readTries
      ensures old(readTries) <= readTries <= old(readTries) + 1
      ensures v == if ReadRefused(old(readTries)) then U32_MAX else Next(boot, disk, c)
    {
      hide Lba, Geometry, Le;
      if boot.fatLength > 0 {
        var buf := new u8[512](i => 0);
        var ok := SecRd(FatLba(boot, c), buf, 0);
        if !ok { return U32_MAX; }
        var at := c * 4 % 512;
        FatEntry(c);
        assert buf[at..at + 4] == disk[512 * FatLba(boot, c) + at..512 * FatLba(boot, c) + at + 4];
        return Le32(buf[..], at);
      }
      return (c + 1) % U32_MOD;
    }

    // ---------- listing, looking up, reading ----------

    method ListDir(dir: u32, max: nat) returns (out: seq<FileInfo>)
      requires Valid()
      modifies tmp, `readTries
      ensures old(readTries) <= readTries <= old(readTries) + 17 * (|out| + 1)
      ensures ready ==> out <= Listing(boot, disk, dir, max)
      ensures ready && !ReadRefused(old(readTries)) ==> out == Listing(boot, disk, dir, max)
      ensures !ready ==> out == [] && readTries == old(readTries)
    {
      hide Lba, Geometry, Next, ParseFrom, Listing, Readable, Cluster, Faulted;
      NoFaultYet(readFaults, readTries);
      out := [];
      if !ready { return; }
      var cluster := dir;
      ghost var c := dir;
      ghost var all := Listing(boot, disk, dir, max);
      assert all == out + all;
      while cluster >= 2 && cluster != U32_MAX
        invariant |out| <= max && cluster == if ReadRefused(old(readTries)) then U32_MAX else c
        invariant old(readTries) <= readTries <= old(readTries) + 17 * |out|
        invariant all == out + Listing(boot, disk, c, max - |out|)
        decreases max - |out|
      {
        ghost var r1 := readTries;
        var ok := ReadCluster(cluster, tmp);
        ghost var r2 := readTries;
        FaultedBoth(readFaults, old(readTries), r1, r2);
        if !ok {
          ListingEnds(boot, disk, c, max - |out|);
          return;
        }
        var files := ParseDirCluster(tmp[..Bpc(boot)], max - |out|);
        if |files| == 0 {
          ListingEnds(boot, disk, c, max - |out|);
          return;
        }
        MoreFiles(boot, disk, all, out, c, max);
        out := out + files;
        c := Next(boot, disk, cluster);
        cluster := NextCluster(cluster);
        FaultedBoth(readFaults, old(readTries), r2, readTries);
      }
      ListingEnds(boot, disk, c, max - |out|);
    }

    method Find(dir: u32, fname: seq<u8>) returns (r: Option<FileInfo>)
      requires Valid()
      modifies tmp, `readTries
      ensures old(readTries) <= readTries <= old(readTries) + 17 * 65
      ensures r.Some? ==> ready && r == Named(Listing(boot, disk, dir, 64), fname)
      ensures ready && !ReadRefused(old(readTries)) ==> r == Named(Listing(boot, disk, dir, 64), fname)
    {
      hide Lba, Geometry, Listing, CStr, FirstNamed;
      if !ready { return None; }
      var infos := ListDir(dir, 64);
      ghost var all := Listing(boot, disk, dir, 64);
      assert all == infos + all[|infos|..];
      FirstOfPrefix(infos, all[|infos|..], fname);
      r := FindIn(infos, fname);
    }

    method ReadFile(first: u32, size: nat, buf: array<u8>) returns (code: int)
      requires Valid() && size <= buf.Length && buf != tmp
      modifies tmp, buf, `readTries
      ensures old(readTries) <= readTries && 512 * (readTries - old(readTries)) <= 17 * (size + 512)
      ensures code == 0 || code == -1
      ensures code == 0 ==> ready && FileBytes(boot, disk, first, size) == Some(buf[..size])
      ensures code == -1 ==> !ready || ReadRefused(old(readTries)) || FileBytes(boot, disk, first, size) == None
      ensures buf[size..] == old(buf[size..])
    {
      hide Lba, Geometry, Next, Cluster, FileBytes, Readable, Continues, Faulted;
      NoFaultYet(readFaults, readTries);
      if !ready { return -1; }
      var remaining, cluster, done := size, first, 0;
      ghost var c := first;
      ghost var all := FileBytes(boot, disk, first, size);
      StartReading(all, buf[..0]);
      while remaining > 0
        invariant 0 <= done && 0 <= remaining && done + remaining == size && buf[size..] == old(buf[size..])
        invariant cluster == if ReadRefused(old(readTries)) then U32_MAX else c
        invariant old(readTries) <= readTries
        invariant 512 * (readTries - old(readTries)) <= 17 * (if remaining > 0 then done else done + 512)
        invariant Continues(all, buf[..done], FileBytes(boot, disk, c, remaining))
        decreases remaining
      {
        if !(IsCluster(c) && Readable(boot, disk, c)) {
          ChainEnds(boot, disk, all, buf[..done], c, remaining);
        }
        if cluster < 2 || cluster == U32_MAX { return -1; }
        ghost var r1 := readTries;
        var ok := ReadCluster(cluster, tmp);
        ghost var r2 := readTries;
        FaultedBoth(readFaults, old(readTries), r1, r2);
        if !ok { return -1; }
        var chunk := Min(remaining, Bpc(boot));
        ghost var was := buf[..done];
        OneClusterOn(boot, disk, all, was, c, remaining);
        Copy(buf, done, tmp[..chunk]);
        assert buf[..done + chunk] == was + Cluster(boot, disk, cluster)[..chunk];
        done, remaining := done + chunk, remaining - chunk;
        c := Next(boot, disk, cluster);
        cluster := NextCluster(cluster);
        FaultedBoth(readFaults, old(readTries), r2, readTries);
      }
      NothingLeft(boot, disk, c);
      StopReading(all, buf[..size]);
      return 0;
    }

    // ---------- writing ----------

    /** The decisions before anything is written; rd and bm receive the root and bitmap clusters. */
    method Prepare(name: seq<u8>, size: nat, rd: array<u8>, bm: array<u8>) returns (plan: Plan)
      requires Valid() && rd.Length >= 8192 && bm.Length >= 8192 && rd != bm
      modifies rd, bm, `readTries
      ensures old(readTries) <= readTries <= old(readTries) + 2 * boot.spc
      ensures !ReadRefused(old(readTries)) ==> plan == PlanOf(boot, disk, name, size)
      ensures ReadRefused(old(readTries)) ==> plan.Refuse?
      ensures plan.Refuse? ==> -5 <= plan.code <= -1
      ensures plan == PlanWith(boot, disk, name, size, readFaults, old(readTries))
      ensures plan.Go? ==> readTries == old(readTries) + 2 * boot.spc
      ensures plan.Go? ==> rd[..Bpc(boot)] == Cluster(boot, disk, boot.root)
      ensures plan.Go? ==> bm[..Bpc(boot)] == Cluster(boot, disk, plan.bitmap)
    {
      hide Lba, Cluster, BitmapAt, FirstFree, Sectors;
      if name == [] || size > Bpc(boot) { return Refuse(-2); }
      var ok := ReadCluster(boot.root, rd);
      if !ok { return Refuse(-3); }
      var bitmap := FindBitmap(rd, Bpc(boot));
      if bitmap == 0 { return Refuse(-4); }
      ok := ReadCluster(bitmap, bm);
      if !ok { return Refuse(-1); }
      var free := FindFree(bm, Bpc(boot), boot.clusterCount);
      if free == 0 { return Refuse(-5); }
      return Go(bitmap, free);
    }

    /** Up to a sector of bytes put at the head of a sector: read, changed, written back. */
    method PutInSector(lba: u32, sec: array<u8>, bytes: seq<u8>) returns (code: int)
      requires sec.Length == 512 && |bytes| <= 512 && 512 * (lba + 1) <= |disk|
      modifies sec, `disk, `log, `readTries, `writeTries
      ensures |disk| == |old(disk)| && readTries == old(readTries) + 1
      ensures old(writeTries) <= writeTries <= old(writeTries) + 1
      ensures code == 0 <==> !ReadRefused(old(readTries)) && !WriteRefused(old(writeTries))
      ensures code == 0 ==> disk == Splice(old(disk), 512 * lba, bytes) && log == old(log) + [disk]
      ensures code == SectorCode(readFaults, writeFaults, old(readTries), old(writeTries))
      ensures code == 0 ==> writeTries == old(writeTries) + 1
      ensures code != 0 ==> log == old(log)
      ensures !WriteRefused(old(writeTries)) && code != 0 ==> disk == old(disk)
      ensures Recorded(old(disk), old(log), disk, log, writeTries - old(writeTries), WriteRefused(old(writeTries)))
      ensures Elsewhere(old(disk), disk, 512 * lba, 512 * (lba + 1))
    {
      var ok := SecRd(lba, sec, 0);
      if !ok { return -2; }
      Copy(sec, 0, bytes);
      ok := SecWr(lba, sec[..]);
      if !ok { return -3; }
      assert disk == Splice(old(disk), 512 * lba, bytes) by {
        assert sec[..] == bytes + old(disk)[512 * lba + |bytes|..512 * (lba + 1)];
      }
      return 0;
    }

    /** One sector of the data, from byte o on. */
    method WriteChunk(ghost j: Job, ghost was: Disk, ghost from: nat, lba: u32, sec: array<u8>, data: seq<u8>, o: nat,
        n: nat) returns (code: int)
      requires Valid() && JobOk(boot, was, j) && |disk| == |was| && data == j.data && o + n <= |data| && n <= 512
      requires sec.Length == 512
      requires 512 * lba == 512 * Lba(boot, j.free) + o && lba < Lba(boot, j.free) + boot.spc
      requires DataIn(boot, was, j, o, disk) && OnTheWay(boot, was, j, log, from)
      modifies sec, `disk, `log, `readTries, `writeTries
      ensures Valid() && |disk| == |was| && readTries == old(readTries) + 1
      ensures old(writeTries) <= writeTries <= old(writeTries) + 1
      ensures code == 0 <==> !ReadRefused(old(readTries)) && !WriteRefused(old(writeTries))
      ensures Recorded(old(disk), old(log), disk, log, writeTries - old(writeTries), WriteRefused(old(writeTries)))
      ensures code == 0 ==> DataIn(boot, was, j, o + n, disk) && writeTries == old(writeTries) + 1
      ensures code == SectorCode(readFaults, writeFaults, old(readTries), old(writeTries))
      ensures OnTheWay(boot, was, j, log, from) && (WriteRefused(old(writeTries)) || Before(boot, was, j, disk))
      ensures Elsewhere(was, disk, 512 * Lba(boot, j.free), 512 * (Lba(boot, j.free) + boot.spc))
    {
      hide Lba, Geometry, Sectors, Splice, Cluster, Elsewhere, JobOk, Before, DataIn, OnTheWay, Done, Recorded, Faulted;
      JobPlaces(boot, was, j);
      DataStages(boot, was, j, o, disk);
      ghost var d1, log1 := disk, log;
      code := PutInSector(lba, sec, data[o..o + n]);
      ElsewhereTwice(was, d1, disk, 512 * lba, 512 * Lba(boot, j.free), 512 * (Lba(boot, j.free) + boot.spc));
      if code != 0 { return; }
      NextStage(boot, was, j, o, n, d1, disk);
      DataStages(boot, was, j, o + n, disk);
      OneMoreLogged(boot, was, j, log1, from, disk);
    }

    /** The data, sector by sector. */
    method WriteData(ghost j: Job, free: u32, data: seq<u8>) returns (code: int)
      requires Valid() && JobOk(boot, disk, j) && free == j.free && data == j.data
      modifies `disk, `log, `readTries, `writeTries
      ensures Valid() && |disk| == |old(disk)|
      ensures old(readTries) <= readTries <= old(readTries) + boot.spc
      ensures old(writeTries) <= writeTries <= old(writeTries) + boot.spc
      ensures code == 0 <==> !ReadRefused(old(readTries)) && !WriteRefused(old(writeTries))
      ensures code == 0 ==> DataIn(boot, old(disk), j, |data|, disk)
      ensures Recorded(old(disk), old(log), disk, log, writeTries - old(writeTries), WriteRefused(old(writeTries)))
      ensures old(log) <= log && OnTheWay(boot, old(disk), j, log, |old(log)|)
      ensures code == DataCode(readFaults, writeFaults, old(readTries), old(writeTries), SectorCount(|data|))
      ensures code == 0 ==> writeTries == old(writeTries) + SectorCount(|data|)
      ensures WriteRefused(old(writeTries)) || Before(boot, old(disk), j, disk)
      ensures Elsewhere(old(disk), disk, 512 * Lba(boot, free), 512 * (Lba(boot, free) + boot.spc))
    {
      hide Lba, Geometry, Sectors, Splice, Cluster, Marked, Elsewhere, JobOk, Before, DataIn, OnTheWay, Done, Recorded,
        Faulted, DataCode, SectorCode;
      NoFaultYet(readFaults, readTries);
      NoFaultYet(writeFaults, writeTries);
      NothingRecorded(disk, log);
      Addressable(boot, disk);
      JobPlaces(boot, disk, j);
      var lba0 := Lba(boot, free);
      ghost var was := disk;
      var sec := new u8[512](i => 0);
      var o := 0;
      ghost var k: nat := 0;
      DataStages(boot, was, j, 0, disk);
      NothingLogged(boot, was, j, log);
      while o < |data|
        invariant 0 <= o <= |data| && o == Min(512 * k, |data|) && (k > 0 ==> 512 * (k - 1) < |data|)
        invariant Valid() && |disk| == |was| && DataIn(boot, was, j, o, disk)
        invariant !ReadRefused(old(readTries)) && !WriteRefused(old(writeTries))
        invariant readTries == old(readTries) + k && writeTries == old(writeTries) + k && k <= SectorCount(|data|)
        invariant DataCode(readFaults, writeFaults, old(readTries), old(writeTries), SectorCount(|data|))
          == DataCode(readFaults, writeFaults, readTries, writeTries, SectorCount(|data|) - k)
        invariant old(log) <= log && OnTheWay(boot, was, j, log, |old(log)|)
        invariant Recorded(was, old(log), disk, log, writeTries - old(writeTries), false)
      {
        var n := if |data| - o > 512 then 512 else |data| - o;
        assert o == 512 * k && o / 512 == k;
        ghost var d1, log1, r1, w1 := disk, log, readTries, writeTries;
        SectorsLeft(|data|, k);
        DataCodeStep(readFaults, writeFaults, r1, w1, SectorCount(|data|) - k);
        code := WriteChunk(j, was, |old(log)|, lba0 + o / 512, sec, data, o, n);
        FaultedBoth(readFaults, old(readTries), r1, readTries);
        FaultedBoth(writeFaults, old(writeTries), w1, writeTries);
        RecordedOn(was, old(log), d1, log1, w1 - old(writeTries), disk, log, writeTries - w1,
          Faulted(writeFaults, w1, writeTries));
        if code != 0 { return; }
        o, k := o + n, k + 1;
      }
      SectorsDone(|data|, k);
      DataCodeStep(readFaults, writeFaults, readTries, writeTries, 0);
      DataStages(boot, was, j, o, disk);
      return 0;
    }

    /** The data, then the bitmap with the new cluster marked. */
    method WriteContents(ghost j: Job, free: u32, bitmap: u32, data: seq<u8>, bm: array<u8>) returns (code: int)
      requires Valid() && JobOk(boot, disk, j) && free == j.free && bitmap == j.bitmap && data == j.data
      requires bm.Length >= 8192 && Holds(boot, disk, j.bitmap, bm[..])
      modifies bm, `disk, `log, `readTries, `writeTries
      ensures Valid() && |disk| == |old(disk)|
      ensures old(readTries) <= readTries <= old(readTries) + boot.spc
      ensures old(writeTries) <= writeTries <= old(writeTries) + boot.spc + 1
      ensures code == 0 <==> !ReadRefused(old(readTries)) && !WriteRefused(old(writeTries))
      ensures code == 0 ==> Stored(boot, old(disk), j, disk)
      ensures code == ContentsCode(readFaults, writeFaults, old(readTries), old(writeTries), SectorCount(|data|))
      ensures code == 0 ==> writeTries == old(writeTries) + SectorCount(|data|) + 1
      ensures Recorded(old(disk), old(log), disk, log, writeTries - old(writeTries), WriteRefused(old(writeTries)))
      ensures old(log) <= log && OnTheWay(boot, old(disk), j, log, |old(log)|)
      ensures WriteRefused(old(writeTries)) || Before(boot, old(disk), j, disk)
      ensures OnlyIn(boot, old(disk), disk, {free, bitmap})
    {
      hide Lba, Geometry, Sectors, Splice, Cluster, Marked, Elsewhere, PutBit, JobOk, Before, DataIn, OnTheWay, OnlyIn,
        Done, Stored, DataCode;
      ghost var d0, log0 := disk, log;
      JobPlaces(boot, disk, j);
      code := WriteData(j, free, data);
      ghost var d1, log1, w1 := disk, log, writeTries;
      InOneCluster(boot, d0, d1, free, {free, bitmap});
      if code != 0 { return; }
      assert bm[..Bpc(boot)] == bm[..][..Bpc(boot)];
      MarkedByte(Cluster(boot, d0, bitmap), free);
      bm[free / 8] := PutBit(bm[free / 8], free % 8, true);
      var ok := SecWr(Lba(boot, bitmap), bm[..Bpc(boot)]);
      RecordedOn(d0, log0, d1, log1, w1 - old(writeTries), disk, log, 1, !ok);
      if !ok {
        InOneCluster(boot, d1, disk, bitmap, {free, bitmap});
        OnlyInBoth(boot, d0, d1, disk, {free, bitmap});
        return -4;
      }
      SpliceStays(d1, 512 * Lba(boot, bitmap), bm[..Bpc(boot)], 512 * (Lba(boot, bitmap) + boot.spc));
      InOneCluster(boot, d1, disk, bitmap, {free, bitmap});
      OnlyInBoth(boot, d0, d1, disk, {free, bitmap});
      BitmapIsStored(boot, d0, j, d1, disk);
      OneMoreLogged(boot, d0, j, log1, |log0|, disk);
      return 0;
    }

    /** The directory cluster with the entry set for the new file. */
    method WriteEntry(ghost d0: Disk, ghost from: nat, ghost j: Job, free: u32, name: seq<u8>, size: nat,
        rd: array<u8>) returns (code: int)
      requires Valid() && Stored(boot, d0, j, disk) && free == j.free && name == j.name && size == |j.data|
      requires rd.Length >= 8192 + 512 && Holds(boot, d0, boot.root, rd[..]) && OnTheWay(boot, d0, j, log, from)
      modifies rd, `disk, `log, `writeTries
      ensures Valid() && |disk| == |old(disk)| && old(log) <= log && OnTheWay(boot, d0, j, log, from)
      ensures Recorded(old(disk), old(log), disk, log, writeTries - old(writeTries), WriteRefused(old(writeTries)))
      ensures old(writeTries) <= writeTries <= old(writeTries) + 1
      ensures code == 0 ==> Done(boot, d0, j, disk) && !NoRoom(boot, d0)
      ensures code == -6 ==> disk == old(disk) && NoRoom(boot, d0)
      ensures code == 0 || code == -6 <==> !WriteRefused(old(writeTries))
      ensures code == if NoRoom(boot, d0) then -6 else if writeFaults(old(writeTries)) then -5 else 0
      ensures OnlyIn(boot, old(disk), disk, {boot.root})
    {
      hide Lba, Geometry, Sectors, Splice, Cluster, Elsewhere, JobOk, Before, OnTheWay, OnlyIn, Done, Stored, WithEntry,
        EndOfDir;
      ghost var d2, log2 := disk, log;
      Addressable(boot, disk);
      RootPlace(boot, d0, j, d2);
      assert rd[..Bpc(boot)] == rd[..][..Bpc(boot)];
      var off := FindEnd(rd, Bpc(boot));
      if off + 96 > Bpc(boot) {
        SameDisk(boot, disk, {boot.root});
        return -6;
      }
      StoreEntry(rd, Bpc(boot), off, name, size, free);
      var ok := SecWr(Lba(boot, boot.root), rd[..Bpc(boot)]);
      if !ok {
        InOneCluster(boot, d2, disk, boot.root, {boot.root});
        return -5;
      }
      SpliceStays(d2, 512 * Lba(boot, boot.root), rd[..Bpc(boot)], 512 * (Lba(boot, boot.root) + boot.spc));
      InOneCluster(boot, d2, disk, boot.root, {boot.root});
      EntryIsStored(boot, d0, j, d2, disk);
      OneMoreLogged(boot, d0, j, log2, from, disk);
      return 0;
    }

    /** exfat_write_file. */
    method WriteFile(fname: seq<u8>, data: seq<u8>) returns (code: int)
      requires Valid()
      modifies `disk, `log, `readTries, `writeTries
      ensures Valid() && |disk| == |old(disk)| && old(log) <= log
      ensures old(readTries) <= readTries <= old(readTries) + 48
      ensures old(writeTries) <= writeTries <= old(writeTries) + 18
      ensures Recorded(old(disk), old(log), disk, log, writeTries - old(writeTries), WriteRefused(old(writeTries)))
      ensures !ready ==> code == -1 && disk == old(disk) && log == old(log)
      ensures ready ==> code == CodeOf(boot, old(disk), Capped(CStr(fname)), |data|,
                                       readFaults, writeFaults, old(readTries), old(writeTries))
      ensures ready ==>
        Outcome(boot, old(disk), Capped(CStr(fname)), data, code, disk, log, |old(log)|,
                ReadRefused(old(readTries)), WriteRefused(old(writeTries)))
    {
      hide Lba, Geometry, Sectors, Splice, Cluster, JobOk, Before, OnTheWay, OnlyIn, Done, Stored, PlanOf, PlanWith,
        CodeOf, ContentsCode, NoRoom, CStr, Capped;
      if !ready { return -1; }
      ghost var d0, log0 := disk, log;
      var nlen := NameLength(fname);
      var name := fname[..nlen];
      NoZeros(fname);
      var rd, bm := new u8[8192 + 512](i => 0), new u8[66536](i => 0);
      CodeIs(boot, d0, name, |data|, readFaults, writeFaults, readTries, writeTries);
      var plan := Prepare(name, |data|, rd, bm);
      ghost var p := PlanOf(boot, d0, name, |data|);
      if p.Go? { PlanMakesJob(boot, d0, name, data); }
      if plan.Refuse? {
        OutcomeRefused(boot, d0, name, data, plan.code, log0, ReadRefused(old(readTries)));
        return plan.code;
      }
      ghost var j := JobOf(plan, name, data);
      RootRead(boot, d0, name, |data|);
      assert rd[..Bpc(boot)] == rd[..][..Bpc(boot)] && bm[..Bpc(boot)] == bm[..][..Bpc(boot)];
      code := WriteContents(j, plan.free, plan.bitmap, data, bm);
      ghost var d2, log2, w2 := disk, log, writeTries;
      OnlyInMore(boot, d0, d2, {plan.free, plan.bitmap}, {plan.free, plan.bitmap, boot.root});
      if code != 0 { return; }
      code := WriteEntry(d0, |log0|, j, plan.free, name, |data|, rd);
      RecordedOn(d0, log0, d2, log2, w2 - old(writeTries), disk, log, writeTries - w2,
        Faulted(writeFaults, w2, writeTries));
      OnlyInMore(boot, d2, disk, {boot.root}, {plan.free, plan.bitmap, boot.root});
      OnlyInBoth(boot, d0, d2, disk, {plan.free, plan.bitmap, boot.root});
      StoredIsBefore(boot, d0, j, d2);
    }

    /** The kernel's own trial at start-up: write a file, look it up by name, read it. Once the
        write has succeeded only a failing read can keep the bytes from coming back. */
    method WriteAndReadBack(fname: seq<u8>, data: seq<u8>, buf: array<u8>) returns (code: int, got: bool)
      requires Valid() && ready && Consistent(boot, disk) && NewName(boot, disk, CStr(fname))
      requires buf != tmp && |data| <= buf.Length
      modifies buf, tmp, `disk, `log, `readTries, `writeTries
      ensures Valid() && (code == 0 ==> got || ReadRefused(old(readTries)))
      ensures got ==> code == 0 && buf[..|data|] == data
      ensures !ReadRefused(old(readTries)) && !WriteRefused(old(writeTries)) ==>
        (got <==> PlanOf(boot, old(disk), Capped(CStr(fname)), |data|).Go? && !NoRoom(boot, old(disk)))
    {
      hide Lba, Geometry, Sectors, Cluster, BitmapAt, Listing, FileBytes, CStr, Done, PlanOf, FirstNamed,
        ParseFrom, RecordSeen, OnTheWay, OnlyIn, Before, Stored;
      ghost var d0, name := disk, CStr(fname);
      got := false;
      code := WriteFile(fname, data);
      if code != 0 { return; }
      NewNameIsWritten(boot, d0, fname, data, disk);
      var r := Find(boot.root, fname);
      if r.None? { return; }
      var c := ReadFile(r.value.firstCluster, r.value.dataLen, buf);
      got := c == 0;
    }
  }

  /** A name the directory cluster has room for, in characters and in records, and does not list yet. */
  ghost predicate NewName(b: Boot, d: Disk, name: seq<u8>)
    requires Consistent(b, d)
  {
    && (RootEnd(b, d) + 96 <= Bpc(b) ==> RoomForName(Cluster(b, d, b.root), RootEnd(b, d), name))
    && FirstNamed(ParseFrom(Cluster(b, d, b.root), 0, 64), name) == |ParseFrom(Cluster(b, d, b.root), 0, 64)| < 64
  }

  lemma NewNameIsWritten(b: Boot, d: Disk, fname: seq<u8>, data: seq<u8>, e: Disk)
    requires Consistent(b, d) && NewName(b, d, CStr(fname)) && PlanOf(b, d, Capped(CStr(fname)), |data|).Go?
    requires Done(b, d, JobOf(PlanOf(b, d, Capped(CStr(fname)), |data|), Capped(CStr(fname)), data), e)
    ensures |e| == |d| && var r := Named(Listing(b, e, b.root, 64), fname);
      r.Some? && r.value.dataLen == |data| && FileBytes(b, e, r.value.firstCluster, r.value.dataLen) == Some(data)
  {
    hide Lba, Geometry, Sectors, Cluster, BitmapAt, Listing, FileBytes, RootStage, FirstNamed, ParseFrom, CStr,
      EndOfDir;
    var name := Capped(CStr(fname));
    NoZeros(fname);
    assert name == CStr(fname);
    CStrOfText(name);
    var j := JobOf(PlanOf(b, d, name, |data|), name, data);
    WriteThenFind(b, d, j, e);
    SameLookup(Listing(b, e, b.root, 64), name, fname);
  }

  lemma {:induction false} SameLookup(files: seq<FileInfo>, a: seq<u8>, c: seq<u8>)
    requires CStr(a) == CStr(c)
    ensures FirstNamed(files, a) == FirstNamed(files, c)
  {
    hide CStr;
    if files != [] { SameLookup(files[1..], a, c); }
  }

  /** One of these accesses, counted from the first the device ever had, was refused. */
  predicate Faulted(faults: nat -> bool, from: nat, to: nat) {
    exists n :: from <= n < to && faults(n)
  }

  // ---------- the codes returned ----------

  /** What exfat_write_file decides before it writes anything when the device refuses these reads, the
      next one being number r. */
  function PlanWith(b: Boot, d: Disk, name: seq<u8>, size: nat, readFaults: nat -> bool, r: nat): (p: Plan)
    requires Fit(b, d)
  {
    if name == [] || size > Bpc(b) then Refuse(-2)
    else if !Readable(b, d, b.root) || Faulted(readFaults, r, r + b.spc) then Refuse(-3)
    else
      var bitmap := BitmapAt(Cluster(b, d, b.root), 0);
      if bitmap == 0 then Refuse(-4)
      else if !Readable(b, d, bitmap) || Faulted(readFaults, r + b.spc, r + 2 * b.spc) then Refuse(-1)
      else
        var free := FirstFree(Cluster(b, d, bitmap), 2, b.clusterCount);
        if free == 0 then Refuse(-5) else Go(bitmap, free)
  }

  /** How many sectors some bytes begin. */
  function SectorCount(size: nat): nat {
    (size + 511) / 512
  }

  function SectorCode(readFaults: nat -> bool, writeFaults: nat -> bool, r: nat, w: nat): int {
    if readFaults(r) then -2 else if writeFaults(w) then -3 else 0
  }

  /** The code of the first of n sectors that fails, each read and then written. */
  function DataCode(readFaults: nat -> bool, writeFaults: nat -> bool, r: nat, w: nat, n: nat): (code: int)
    ensures -3 <= code <= 0
    decreases n
  {
    if n == 0 then 0
    else if SectorCode(readFaults, writeFaults, r, w) != 0 then SectorCode(readFaults, writeFaults, r, w)
    else DataCode(readFaults, writeFaults, r + 1, w + 1, n - 1)
  }

  function ContentsCode(readFaults: nat -> bool, writeFaults: nat -> bool, r: nat, w: nat, n: nat): (code: int)
    ensures -4 <= code <= 0
  {
    if DataCode(readFaults, writeFaults, r, w, n) != 0 then DataCode(readFaults, writeFaults, r, w, n)
    else if writeFaults(w + n) then -4
    else 0
  }

  /** The code exfat_write_file returns, for every disk and everything the device refuses; r and w are
      the numbers of the next read and the next write. */
  function CodeOf(b: Boot, d: Disk, name: seq<u8>, size: nat, readFaults: nat -> bool, writeFaults: nat -> bool,
                  r: nat, w: nat): int
    requires Fit(b, d)
  {
    var p, n := PlanWith(b, d, name, size, readFaults, r), SectorCount(size);
    if p.Refuse? then p.code
    else
      var c := ContentsCode(readFaults, writeFaults, r + 2 * b.spc, w, n);
      if c != 0 then c else if NoRoom(b, d) then -6 else if writeFaults(w + n + 1) then -5 else 0
  }

  // The codes one by one. The reads are spc for the root cluster, spc for the bitmap cluster, and one for
  // each of the sectors that the data begins; the writes one for each of these, one for the bitmap and one
  // for the directory.

  /** -2 for an empty name or too much data, then -3, -4, -1 and -5 for an unreadable root, a root without
      a bitmap entry, an unreadable bitmap and a full volume. */
  lemma CodeBeforeWriting(b: Boot, d: Disk, name: seq<u8>, size: nat, readFaults: nat -> bool, writeFaults: nat -> bool,
      r: nat, w: nat)
    requires Fit(b, d)
    ensures var code := CodeOf(b, d, name, size, readFaults, writeFaults, r, w);
      var unread := !Readable(b, d, b.root) || exists k :: r <= k < r + b.spc && readFaults(k);
      if name == [] || size > 512 * b.spc then code == -2
      else if unread then code == -3
      else
        var bitmap := BitmapAt(Cluster(b, d, b.root), 0);
        var unread2 := !Readable(b, d, bitmap) || exists k :: r + b.spc <= k < r + 2 * b.spc && readFaults(k);
        if bitmap == 0 then code == -4
        else if unread2 then code == -1
        else FirstFree(Cluster(b, d, bitmap), 2, b.clusterCount) == 0 ==> code == -5
  {
    hide Lba, Cluster, BitmapAt, FirstFree, ContentsCode, NoRoom;
  }

  /** Sector i of the data fails first: -2 if it cannot be read, -3 if it cannot be written. */
  lemma {:induction false} CodeOfSector(readFaults: nat -> bool, writeFaults: nat -> bool, r: nat, w: nat, n: nat,
      i: nat)
    requires i < n && (readFaults(r + i) || writeFaults(w + i))
    requires forall k :: r <= k < r + i ==> !readFaults(k)
    requires forall k :: w <= k < w + i ==> !writeFaults(k)
    ensures ContentsCode(readFaults, writeFaults, r, w, n) == if readFaults(r + i) then -2 else -3
    decreases i
  {
    if i > 0 {
      assert !readFaults(r) && !writeFaults(w);
      CodeOfSector(readFaults, writeFaults, r + 1, w + 1, n - 1, i - 1);
    }
  }

  /** All sectors go well: -4 for the bitmap's write, then -6 for a full directory, -5 for its write, else 0. */
  lemma CodeAfterData(b: Boot, d: Disk, name: seq<u8>, size: nat, readFaults: nat -> bool, writeFaults: nat -> bool,
      r: nat, w: nat)
    requires Fit(b, d) && PlanWith(b, d, name, size, readFaults, r).Go?
    requires var n := (size + 511) / 512;
      && (forall k :: r + 2 * b.spc <= k < r + 2 * b.spc + n ==> !readFaults(k))
      && (forall k :: w <= k < w + n ==> !writeFaults(k))
    ensures Readable(b, d, b.root)
    ensures var n := (size + 511) / 512;
      CodeOf(b, d, name, size, readFaults, writeFaults, r, w)
      == if writeFaults(w + n) then -4
         else if EndOfDir(Cluster(b, d, b.root), 0) + 96 > 512 * b.spc then -6
         else if writeFaults(w + n + 1) then -5
         else 0
  {
    hide Lba, Cluster, BitmapAt, FirstFree, EndOfDir, DataCode;
    NoSectorFails(readFaults, writeFaults, r + 2 * b.spc, w, SectorCount(size));
  }

  lemma {:induction false} NoSectorFails(readFaults: nat -> bool, writeFaults: nat -> bool, r: nat, w: nat, n: nat)
    requires forall k :: r <= k < r + n ==> !readFaults(k)
    requires forall k :: w <= k < w + n ==> !writeFaults(k)
    ensures DataCode(readFaults, writeFaults, r, w, n) == 0
    decreases n
  {
    if n > 0 {
      assert !readFaults(r) && !writeFaults(w);
      NoSectorFails(readFaults, writeFaults, r + 1, w + 1, n - 1);
    }
  }

  lemma CodeIs(b: Boot, d: Disk, name: seq<u8>, size: nat, readFaults: nat -> bool, writeFaults: nat -> bool, r: nat,
      w: nat)
    requires Fit(b, d)
    ensures var p, n := PlanWith(b, d, name, size, readFaults, r), SectorCount(size);
      var c := ContentsCode(readFaults, writeFaults, r + 2 * b.spc, w, n);
      && -4 <= c <= 0
      && CodeOf(b, d, name, size, readFaults, writeFaults, r, w)
         == if p.Refuse? then p.code else if c != 0 then c else if NoRoom(b, d) then -6
           else if writeFaults(w + n + 1) then -5 else 0
  {
    hide PlanWith, DataCode, NoRoom;
  }

  lemma DataCodeStep(readFaults: nat -> bool, writeFaults: nat -> bool, r: nat, w: nat, n: nat)
    ensures DataCode(readFaults, writeFaults, r, w, n) == if n == 0 then 0
      else if SectorCode(readFaults, writeFaults, r, w) != 0 then SectorCode(readFaults, writeFaults, r, w)
      else DataCode(readFaults, writeFaults, r + 1, w + 1, n - 1)
  {
  }

  lemma SectorsLeft(size: nat, k: nat)
    requires 512 * k < size
    ensures k < SectorCount(size)
  {
  }

  lemma SectorsDone(size: nat, k: nat)
    requires size <= 512 * k && (k > 0 ==> 512 * (k - 1) < size)
    ensures k == SectorCount(size)
  {
  }

  lemma NoFaultYet(faults: nat -> bool, n: nat)
    ensures !Faulted(faults, n, n)
  {
  }

  lemma FaultedBoth(faults: nat -> bool, from: nat, mid: nat, to: nat)
    requires from <= mid <= to
    ensures Faulted(faults, from, to) <==> Faulted(faults, from, mid) || Faulted(faults, mid, to)
  {
  }

  /** Nothing changed outside these bytes. */
  predicate Elsewhere(d: Disk, e: Disk, lo: nat, hi: nat) {
    |e| == |d| && forall k :: 0 <= k < |d| && !(lo <= k < hi) ==> e[k] == d[k]
  }

  /** The log has grown from log0 by one disk for each of n writes tried, the last one apart if it
      failed; else its last entry is the disk now. */
  ghost predicate Recorded(d: Disk, log0: seq<Disk>, e: Disk, log: seq<Disk>, n: int, failed: bool) {
    && log0 <= log && |log| + (if failed then 1 else 0) == |log0| + n
    && (!failed ==> e == if |log| == |log0| then d else log[|log| - 1])
  }

  lemma NothingRecorded(d: Disk, log: seq<Disk>)
    ensures Recorded(d, log, d, log, 0, false)
  {
  }

  lemma RecordedOn(d: Disk, log0: seq<Disk>, d1: Disk, log1: seq<Disk>, n: int, e: Disk, log: seq<Disk>, m: int,
      failed: bool)
    requires Recorded(d, log0, d1, log1, n, false) && Recorded(d1, log1, e, log, m, failed)
    ensures Recorded(d, log0, e, log, n + m, failed)
  {
  }

  /** Every disk of a log from some point on is one on the way through the write. */
  ghost predicate OnTheWay(b: Boot, d: Disk, j: Job, log: seq<Disk>, from: nat) {
    forall i :: from <= i < |log| ==> Before(b, d, j, log[i]) || Done(b, d, j, log[i])
  }

  /** On each of them every earlier file reads the same bytes, and the directory lists the files it
      did, followed at most by the new one. */
  lemma EveryMoment(b: Boot, d: Disk, j: Job, log: seq<Disk>, from: nat, i: nat, c: u32, size: nat, max: nat)
    requires Planned(b, d, j) && OnTheWay(b, d, j, log, from) && from <= i < |log| && Owned(b, d, j.bitmap, c, size)
    ensures |log[i]| == |d| && FileBytes(b, log[i], c, size) == FileBytes(b, d, c, size)
    ensures ParseFrom(Cluster(b, log[i], b.root), 0, max) == ParseFrom(Cluster(b, d, b.root), 0, max)
      || (Done(b, d, j, log[i]) && ParseFrom(Cluster(b, log[i], b.root), 0, max)
                                == Plus(ParseFrom(Cluster(b, d, b.root), 0, max), NewRecord(b, d, j), max))
  {
    hide Lba, Geometry, Sectors, Cluster, BitmapAt, PlanOf, Before, Done, Consistent, ParseFrom, FileBytes, ReadPath,
      Owned;
    FilesKept(b, d, j, log[i], c, size);
    SameSize(b, d, j, log[i]);
    ThreePlaces(b, d, j);
    if Done(b, d, j, log[i]) {
      RootListsNewFile(b, d, j, log[i], max);
    } else {
      ClusterKept(b, d, j, log[i], b.root);
    }
  }

  /** On each of them the whole root directory, further clusters included, lists what it did, or,
      once its first cluster is written, the new file behind the files of that cluster. */
  lemma EveryListing(b: Boot, d: Disk, j: Job, log: seq<Disk>, from: nat, i: nat, max: nat)
    requires Planned(b, d, j) && OnTheWay(b, d, j, log, from) && from <= i < |log|
    requires Further(b, d, j.bitmap, Next(b, d, b.root), max - |Here(b, d, max)|)
    ensures |log[i]| == |d| && var here, beyond := Here(b, d, max), Beyond(b, d, max);
      || Listing(b, log[i], b.root, max) == Listing(b, d, b.root, max)
      || (Done(b, d, j, log[i]) && |here| < max
          && Listing(b, log[i], b.root, max) == First(here + [NewRecord(b, d, j)] + beyond, max))
  {
    hide Lba, Geometry, Sectors, Cluster, BitmapAt, PlanOf, Before, Done, Consistent, ParseFrom, Listing, Next, JobOk,
      Here, NewRecord, Further, First;
    SameSize(b, d, j, log[i]);
    if Done(b, d, j, log[i]) {
      WholeListing(b, d, j, log[i], max);
    } else {
      TwoPartsKept(b, d, j, log[i], max);
    }
  }

  /** And what any directory lists there whose chain stays in the heap, whatever clusters it runs into. */
  lemma EveryListingAt(b: Boot, d: Disk, j: Job, log: seq<Disk>, from: nat, i: nat) returns (s: Stage)
    requires Planned(b, d, j) && OnTheWay(b, d, j, log, from) && from <= i < |log|
    ensures StageOk(b, d, j, s) && log[i] == DiskAt(b, d, j, s)
    ensures forall c: u32, max: nat :: StaysInHeap(b, d, j, s, c, max) ==>
      Listing(b, log[i], c, max) == ListingAt(b, d, j, s, c, max)
  {
    hide Lba, Geometry, Sectors, Cluster, BitmapAt, PlanOf, Before, Done, Consistent, Listing, ListingAt, PathAt,
      DiskAt, StageOk;
    s := StageOf(b, d, j, log[i]);
    forall c: u32, max: nat | StaysInHeap(b, d, j, s, c, max)
      ensures Listing(b, log[i], c, max) == ListingAt(b, d, j, s, c, max)
    {
      ListingThen(b, d, j, s, c, max);
    }
  }

  predicate StaysInHeap(b: Boot, d: Disk, j: Job, s: Stage, c: u32, max: nat)
    requires StageOk(b, d, j, s)
  {
    forall i {:trigger PathAt(b, d, j, s, c, max)[i]} :: 0 <= i < |PathAt(b, d, j, s, c, max)| ==>
      InHeap(b, PathAt(b, d, j, s, c, max)[i])
  }

  /** Bytes outside these clusters are the same on both disks. */
  predicate OnlyIn(b: Boot, d: Disk, e: Disk, clusters: set<u32>) {
    |e| == |d| && forall k :: 0 <= k < |d| && e[k] != d[k] ==>
      exists c :: c in clusters && 512 * Lba(b, c) <= k < 512 * (Lba(b, c) + b.spc)
  }

  lemma InOneCluster(b: Boot, d: Disk, e: Disk, c: u32, clusters: set<u32>)
    requires c in clusters && Elsewhere(d, e, 512 * Lba(b, c), 512 * (Lba(b, c) + b.spc))
    ensures OnlyIn(b, d, e, clusters)
  {
    hide Lba;
  }

  lemma OnlyInBoth(b: Boot, d: Disk, e: Disk, f: Disk, clusters: set<u32>)
    requires OnlyIn(b, d, e, clusters) && OnlyIn(b, e, f, clusters)
    ensures OnlyIn(b, d, f, clusters)
  {
    hide Lba;
  }

  /** The buffer starts with the bytes of cluster c. */
  predicate Holds(b: Boot, d: Disk, c: u32, buf: seq<u8>) {
    Readable(b, d, c) && Bpc(b) <= |buf| && buf[..Bpc(b)] == Cluster(b, d, c)
  }

  /** The first n bytes of the data are on the disk. */
  predicate DataIn(b: Boot, d: Disk, j: Job, n: nat, e: Disk) {
    JobOk(b, d, j) && n <= |j.data| && e == DataStage(b, d, j, n)
  }

  lemma JobPlaces(b: Boot, d: Disk, j: Job)
    requires JobOk(b, d, j)
    ensures 512 * Lba(b, j.free) + |j.data| <= |d| && j.free < 8 * Bpc(b) && Fit(b, d)
    ensures 512 * (Lba(b, j.free) + b.spc) <= |d| && 512 * (Lba(b, j.bitmap) + b.spc) <= |d| && |j.data| <= Bpc(b)
  {
    hide Lba, Sectors;
  }

  lemma DataStages(b: Boot, d: Disk, j: Job, n: nat, e: Disk)
    requires JobOk(b, d, j) && n <= |j.data| && (DataIn(b, d, j, n, e) || (n == 0 && e == d))
    ensures DataIn(b, d, j, n, e) && Before(b, d, j, e)
    ensures Elsewhere(d, e, 512 * Lba(b, j.free), 512 * (Lba(b, j.free) + b.spc))
  {
    hide Lba, Sectors, Splice, Geometry, BitStage, Elsewhere;
    JobPlaces(b, d, j);
    if n == 0 { SpliceNothing(d, 512 * Lba(b, j.free), j.data[..0]); }
    SpliceStays(d, 512 * Lba(b, j.free), j.data[..n], 512 * (Lba(b, j.free) + b.spc));
  }

  lemma NextStage(b: Boot, d: Disk, j: Job, o: nat, n: nat, e: Disk, f: Disk)
    requires DataIn(b, d, j, o, e) && o + n <= |j.data| && 512 * Lba(b, j.free) + |j.data| <= |d|
    requires f == Splice(e, 512 * Lba(b, j.free) + o, j.data[o..o + n])
    ensures DataIn(b, d, j, o + n, f)
  {
    hide Lba, Sectors, Splice, Geometry, JobOk;
    SpliceMore(d, 512 * Lba(b, j.free), j.data, o, n);
  }

  lemma BitmapIsStored(b: Boot, d: Disk, j: Job, e: Disk, f: Disk)
    requires DataIn(b, d, j, |j.data|, e) && j.free < 8 * Bpc(b) && 512 * Lba(b, j.bitmap) + Bpc(b) <= |e|
    requires f == Splice(e, 512 * Lba(b, j.bitmap), Marked(Cluster(b, d, j.bitmap), j.free))
    ensures Stored(b, d, j, f) && Before(b, d, j, f)
  {
    hide Lba, Sectors, Splice, Geometry, Cluster, Marked;
  }

  lemma NothingLogged(b: Boot, d: Disk, j: Job, log: seq<Disk>)
    ensures OnTheWay(b, d, j, log, |log|)
  {
  }

  lemma OneMoreLogged(b: Boot, d: Disk, j: Job, log: seq<Disk>, from: nat, e: Disk)
    requires OnTheWay(b, d, j, log, from) && (Before(b, d, j, e) || Done(b, d, j, e))
    ensures OnTheWay(b, d, j, log + [e], from)
  {
    hide Before, Done;
  }

  lemma ElsewhereTwice(d: Disk, e: Disk, f: Disk, at: nat, lo: nat, hi: nat)
    requires Elsewhere(d, e, lo, hi) && Elsewhere(e, f, at, at + 512) && lo <= at && at + 512 <= hi
    ensures Elsewhere(d, f, lo, hi)
  {
  }

  /** The directory cluster has no room for three more entries. */
  predicate NoRoom(b: Boot, d: Disk) {
    Readable(b, d, b.root) && RootEnd(b, d) + 96 > Bpc(b)
  }

  /** What a call of exfat_write_file on a ready volume comes to, for every course the device
      takes: d and e are the disks before and after, log[from..] the disks in between. */
  ghost predicate Outcome(b: Boot, d: Disk, name: seq<u8>, data: seq<u8>, code: int, e: Disk,
                          log: seq<Disk>, from: nat, readFailed: bool, writeFailed: bool)
    requires Fit(b, d)
  {
    var p := PlanOf(b, d, name, |data|);
    if p.Refuse? then
      e == d && |log| == from && code != 0 && (!readFailed ==> code == p.code)
    else
      var j := JobOf(p, name, data);
      && OnTheWay(b, d, j, log, from)
      && (!writeFailed ==> Before(b, d, j, e) || Done(b, d, j, e))
      && (code == 0 ==> Done(b, d, j, e))
      && (code == -6 ==> Stored(b, d, j, e) && NoRoom(b, d))
      && (!readFailed && !writeFailed ==> code == if NoRoom(b, d) then -6 else 0)
      && OnlyIn(b, d, e, {j.free, j.bitmap, b.root})
  }

  lemma RootPlace(b: Boot, d: Disk, j: Job, e: Disk)
    requires Stored(b, d, j, e)
    ensures 512 * (Lba(b, b.root) + b.spc) <= |e| == |d| && JobOk(b, d, j) && |j.name| <= 255
    ensures |j.data| < 0x1_0000_0000_0000_0000
  {
    hide Lba, Sectors, BitStage;
  }

  lemma SameDisk(b: Boot, d: Disk, clusters: set<u32>)
    ensures OnlyIn(b, d, d, clusters)
  {
  }

  lemma OnlyInMore(b: Boot, d: Disk, e: Disk, some: set<u32>, more: set<u32>)
    requires OnlyIn(b, d, e, some) && some <= more
    ensures OnlyIn(b, d, e, more)
  {
    hide Lba;
  }

  lemma EntryIsStored(b: Boot, d: Disk, j: Job, e: Disk, f: Disk)
    requires Stored(b, d, j, e) && Readable(b, d, b.root) && RootEnd(b, d) + 96 <= Bpc(b) && |j.name| <= 255
    requires |j.data| < 0x1_0000_0000_0000_0000 && 512 * Lba(b, b.root) + Bpc(b) <= |e|
    requires f == Splice(e, 512 * Lba(b, b.root),
      WithEntry(Cluster(b, d, b.root), RootEnd(b, d), j.name, |j.data|, j.free))
    ensures Done(b, d, j, f)
  {
    hide Lba, Sectors, Splice, Geometry, Cluster, WithEntry, JobOk;
  }

  lemma NoZeros(fname: seq<u8>)
    ensures 0 !in Capped(CStr(fname)) && |Capped(CStr(fname))| <= 255
  {
  }

  lemma RootRead(b: Boot, d: Disk, name: seq<u8>, size: nat)
    requires Fit(b, d) && PlanOf(b, d, name, size).Go?
    ensures Readable(b, d, b.root) && Readable(b, d, PlanOf(b, d, name, size).bitmap)
  {
    hide Lba, Sectors, Geometry, Cluster;
  }

  lemma OutcomeRefused(b: Boot, d: Disk, name: seq<u8>, data: seq<u8>, code: int, log: seq<Disk>, readFailed: bool)
    requires Fit(b, d) && code != 0 && (PlanOf(b, d, name, |data|) == Refuse(code) || readFailed)
    requires PlanOf(b, d, name, |data|).Go? ==> JobOk(b, d, JobOf(PlanOf(b, d, name, |data|), name, data))
    requires PlanOf(b, d, name, |data|).Go? ==> code != -6
    ensures Outcome(b, d, name, data, code, d, log, |log|, readFailed, false)
  {
    hide Lba, Sectors, Geometry, Cluster, PlanOf, JobOk;
  }

  lemma StoredIsBefore(b: Boot, d: Disk, j: Job, e: Disk)
    requires Stored(b, d, j, e)
    ensures Before(b, d, j, e)
  {
    hide Lba, Sectors, Geometry, Cluster, BitStage, JobOk;
  }

  /** Marking changes one byte of the bitmap. */
  lemma MarkedByte(bm: seq<u8>, c: nat)
    requires c < 8 * |bm|
    ensures Marked(bm, c) == bm[c / 8 := PutBit(bm[c / 8], c % 8, true)]
  {
  }

  lemma Addressable(b: Boot, d: Disk)
    requires Fit(b, d)
    ensures |d| < 512 * U32_MOD
  {
  }

  lemma SpliceNothing(d: Disk, at: nat, none: seq<u8>)
    requires at <= |d| && none == []
    ensures Splice(d, at, none) == d
  {
  }

  lemma SpliceStays(d: Disk, at: nat, bytes: seq<u8>, hi: nat)
    requires at + |bytes| <= hi && at + |bytes| <= |d|
    ensures Elsewhere(d, Splice(d, at, bytes), at, hi)
  {
  }

  lemma ListingEnds(b: Boot, d: Disk, c: u32, max: nat)
    requires BootOk(b)
    ensures !(IsCluster(c) && Readable(b, d, c)) || ParseFrom(Cluster(b, d, c), 0, max) == [] ==>
      Listing(b, d, c, max) == []
  {
    hide Next, Lba, Readable, Cluster, ParseFrom;
  }

  lemma MoreFiles(b: Boot, d: Disk, all: seq<FileInfo>, out: seq<FileInfo>, c: u32, max: nat)
    requires Fit(b, d) && |out| <= max && IsCluster(c) && Readable(b, d, c)
    requires ParseFrom(Cluster(b, d, c), 0, max - |out|) != [] && all == out + Listing(b, d, c, max - |out|)
    ensures var files := ParseFrom(Cluster(b, d, c), 0, max - |out|);
      all == (out + files) + Listing(b, d, Next(b, d, c), max - |out + files|)
  {
    hide Next, Lba, Readable, Cluster, ParseFrom, Geometry;
  }

  lemma SectorInRange(b: Boot, d: Disk, lba: u32, i: nat)
    requires Fit(b, d) && 512 * (if i == 0 then 0 else lba + i) <= |d|
    ensures lba + i < U32_MOD
  {
    hide Sectors;
  }

  lemma NothingLeft(b: Boot, d: Disk, c: u32)
    requires BootOk(b)
    ensures FileBytes(b, d, c, 0) == Some([])
  {
  }

  lemma ChainEnds(b: Boot, d: Disk, all: Option<seq<u8>>, done: seq<u8>, c: u32, size: nat)
    requires BootOk(b) && size > 0 && !(IsCluster(c) && Readable(b, d, c))
    requires Continues(all, done, FileBytes(b, d, c, size))
    ensures all == None
  {
  }

  lemma StartReading(all: Option<seq<u8>>, none: seq<u8>)
    requires none == []
    ensures Continues(all, none, all)
  {
    if all.Some? { assert none + all.value == all.value; }
  }

  lemma StopReading(all: Option<seq<u8>>, done: seq<u8>)
    requires Continues(all, done, Some([]))
    ensures all == Some(done)
  {
    assert done + [] == done;
  }

  /** A FAT entry lies in one sector. */
  lemma FatEntry(c: u32)
    ensures c * 4 % 512 + 4 <= 512
  {
  }
}
