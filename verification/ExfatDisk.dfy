/**
 The volume seen through its sectors: clusters, the FAT chain, the allocation bitmap, and what
 listing, reading and writing mean on the bytes of the disk. Sectors have 512 bytes, so sector n
 is the bytes from 512 n on; bit c of the bitmap stands for cluster c.
 */
module ExfatDisk {
  import opened ExfatDir
  import opened Words

  type Disk = seq<u8>

  /** The boot fields the driver keeps, and where the partition starts. */
  datatype Boot = Boot(partLba: u32, heap: u32, fatOffset: u32, fatLength: u32, clusterCount: u32, root: u32, spc: nat)

  /** exfat_init refuses clusters of more than 8192 bytes. */
  predicate BootOk(b: Boot) {
    1 <= b.spc <= 16
  }

  function Bpc(b: Boot): (n: nat) {
    512 * b.spc
  }

  /** The sectors that k clusters take: k * spc. */
  function Sectors(spc: nat, k: nat): nat {
    if k == 0 then 0 else Sectors(spc, k - 1) + spc
  }

  lemma {:induction false} SectorsGrow(spc: nat, k: nat, l: nat)
    requires k < l
    ensures Sectors(spc, k) + spc <= Sectors(spc, l)
    decreases l
  {
    if k < l - 1 { SectorsGrow(spc, k, l - 1); }
  }

  /** cluster_to_lba, in 32-bit arithmetic. */
  function Lba(b: Boot, c: u32): u32 {
    (b.partLba + b.heap + Sectors(b.spc, (c - 2) % U32_MOD)) % U32_MOD
  }

  predicate Readable(b: Boot, d: Disk, c: u32) {
    512 * Lba(b, c) + Bpc(b) <= |d|
  }

  function Cluster(b: Boot, d: Disk, c: u32): (cb: seq<u8>)
    requires Readable(b, d, c)
    ensures |cb| == Bpc(b) && Whole(cb)
  {
    SectorsAt(d, Lba(b, c), b.spc)
  }

  /** n sectors from sector lba on. */
  function SectorsAt(d: Disk, lba: nat, n: nat): (r: seq<u8>)
    requires 512 * lba + 512 * n <= |d|
    ensures |r| == 512 * n && Whole(r)
  {
    d[512 * lba..512 * lba + 512 * n]
  }

  function FatLba(b: Boot, c: u32): u32 {
    (b.partLba + b.fatOffset + c * 4 / 512) % U32_MOD
  }

  /** next_cluster when no sector read fails: the FAT entry, or the next number without a FAT. */
  function Next(b: Boot, d: Disk, c: u32): u32 {
    if b.fatLength > 0 then
      if 512 * (FatLba(b, c) + 1) <= |d| then Le32(d, 512 * FatLba(b, c) + c * 4 % 512) else U32_MAX
    else (c + 1) % U32_MOD
  }

  predicate IsCluster(c: u32) {
    c >= 2 && c != U32_MAX
  }

  // ---------- listing ----------

  /** What exfat_list_dir lists from the directory cluster c on when no read fails. */
  function Listing(b: Boot, d: Disk, c: u32, max: nat): (files: seq<FileInfo>)
    requires BootOk(b)
    ensures |files| <= max
    decreases max
  {
    if !IsCluster(c) || !Readable(b, d, c) then []
    else
      var files := ParseFrom(Cluster(b, d, c), 0, max);
      if files == [] then [] else files + Listing(b, d, Next(b, d, c), max - |files|)
  }

  /** The clusters it reads for that. */
  function ListPath(b: Boot, d: Disk, c: u32, max: nat): (cs: seq<u32>)
    requires BootOk(b)
    decreases max
  {
    if !IsCluster(c) || !Readable(b, d, c) then []
    else
      var files := ParseFrom(Cluster(b, d, c), 0, max);
      [c] + if files == [] then [] else ListPath(b, d, Next(b, d, c), max - |files|)
  }

  // ---------- reading ----------

  function Min(a: nat, b: nat): nat {
    if a < b then a else b
  }

  /** What exfat_read_file delivers when no read fails; None is its error return. */
  function FileBytes(b: Boot, d: Disk, c: u32, size: nat): (r: Option<seq<u8>>)
    requires BootOk(b)
    ensures r.Some? ==> |r.value| == size
    decreases size
  {
    if size == 0 then Some([])
    else if !IsCluster(c) || !Readable(b, d, c) then None
    else
      var chunk := Min(size, Bpc(b));
      match FileBytes(b, d, Next(b, d, c), size - chunk)
      case None => None
      case Some(rest) => Some(Cluster(b, d, c)[..chunk] + rest)
  }

  /** Where a read stands that has delivered `done` and has `rest` still to come. */
  predicate Continues(all: Option<seq<u8>>, done: seq<u8>, rest: Option<seq<u8>>) {
    match rest
    case None => all == None
    case Some(r) => all == Some(done + r)
  }

  lemma OneClusterOn(b: Boot, d: Disk, all: Option<seq<u8>>, done: seq<u8>, c: u32, size: nat)
    requires BootOk(b) && size > 0 && Continues(all, done, FileBytes(b, d, c, size)) && IsCluster(c)
    requires Readable(b, d, c)
    ensures var chunk := Min(size, Bpc(b));
      Continues(all, done + Cluster(b, d, c)[..chunk], FileBytes(b, d, Next(b, d, c), size - chunk))
  {
    hide Next, Lba, Readable, Cluster;
    var chunk := Min(size, Bpc(b));
    var rest := FileBytes(b, d, Next(b, d, c), size - chunk);
    if rest.Some? {
      assert done + (Cluster(b, d, c)[..chunk] + rest.value) == (done + Cluster(b, d, c)[..chunk]) + rest.value;
    }
  }

  /** The clusters it reads for that. */
  function ReadPath(b: Boot, d: Disk, c: u32, size: nat): (cs: seq<u32>)
    requires BootOk(b)
    decreases size
  {
    if size == 0 || !IsCluster(c) || !Readable(b, d, c) then []
    else [c] + ReadPath(b, d, Next(b, d, c), size - Min(size, Bpc(b)))
  }

  /** cs is a chain of readable clusters, each the successor of the one before. */
  predicate Chain(b: Boot, d: Disk, cs: seq<u32>) {
    && (forall i :: 0 <= i < |cs| ==> IsCluster(cs[i]) && Readable(b, d, cs[i]))
    && (forall i {:trigger cs[i]} :: 0 < i < |cs| ==> cs[i] == Next(b, d, cs[i - 1]))
  }

  /** The clusters of a chain one after the other. */
  function Joined(b: Boot, d: Disk, cs: seq<u32>): (bytes: seq<u8>)
    requires forall i :: 0 <= i < |cs| ==> Readable(b, d, cs[i])
  {
    if cs == [] then [] else Cluster(b, d, cs[0]) + Joined(b, d, cs[1..])
  }

  lemma TakeBoth(a: seq<u8>, c: seq<u8>, n: nat)
    requires |a| <= n <= |a| + |c|
    ensures (a + c)[..n] == a + c[..n - |a|] && a[..|a|] == a
  {
  }

  lemma TailIsChain(b: Boot, d: Disk, cs: seq<u32>)
    requires Chain(b, d, cs) && cs != []
    ensures Chain(b, d, cs[1..]) && (|cs| > 1 ==> cs[1] == Next(b, d, cs[0]))
  {
    hide Next, Lba, Readable;
    var rest := cs[1..];
    forall i {:trigger rest[i]} | 0 < i < |rest| ensures rest[i] == Next(b, d, rest[i - 1]) {
      assert cs[i + 1] == Next(b, d, cs[i]);
    }
  }

  /** A file is read exactly when its chain is long enough, and then as the first bytes of the
      clusters of the chain joined together. */
  lemma {:induction false} ReadsTheChain(b: Boot, d: Disk, cs: seq<u32>, size: nat)
    requires BootOk(b) && Chain(b, d, cs) && cs != [] && size <= |Joined(b, d, cs)|
    ensures FileBytes(b, d, cs[0], size) == Some(Joined(b, d, cs)[..size])
    decreases |cs|
  {
    hide Next, Lba, Readable, Bpc;
    var first, rest := Cluster(b, d, cs[0]), cs[1..];
    if size > 0 {
      var chunk := Min(size, Bpc(b));
      TailIsChain(b, d, cs);
      if size > chunk {
        ReadsTheChain(b, d, rest, size - chunk);
        assert Joined(b, d, cs) == first + Joined(b, d, rest);
        TakeBoth(first, Joined(b, d, rest), size);
      } else {
        assert FileBytes(b, d, cs[0], size) == Some(first[..chunk] + []);
        assert Joined(b, d, cs) == first + Joined(b, d, rest);
        assert (first + Joined(b, d, rest))[..size] == first[..chunk] + [];
      }
    }
  }

  /** When a file is read at all, there is a chain it was read from, no longer than needed. */
  lemma {:induction false} OnlyReadsChains(b: Boot, d: Disk, c: u32, size: nat) returns (cs: seq<u32>)
    requires BootOk(b) && FileBytes(b, d, c, size).Some? && size > 0
    ensures Chain(b, d, cs) && cs != [] && cs[0] == c && size <= |Joined(b, d, cs)| < size + Bpc(b)
    decreases size
  {
    hide Next, Lba, Readable;
    if size <= Bpc(b) {
      cs := [c];
      assert Joined(b, d, cs[1..]) == [];
    } else {
      var rest := OnlyReadsChains(b, d, Next(b, d, c), size - Bpc(b));
      cs := [c] + rest;
      assert cs[1..] == rest;
      assert forall i {:trigger cs[i]} :: 0 < i < |cs| ==> cs[i] == rest[i - 1];
    }
  }

  // ---------- the same in bytes of the disk ----------

  /** The FAT's word for cluster c begins here. */
  function FatByte(b: Boot, c: u32): nat {
    512 * (b.partLba + b.fatOffset) + 4 * c
  }

  /** On a volume with a FAT the cluster after c is the little-endian word at byte 4c of the FAT. */
  lemma NextIsFatWord(b: Boot, d: Disk, c: u32)
    requires b.fatLength > 0 && FatByte(b, c) < 512 * U32_MOD && FatByte(b, c) / 512 * 512 + 512 <= |d|
    ensures FatByte(b, c) + 4 <= |d|
    ensures Next(b, d, c) == Le32(d, FatByte(b, c))
  {
    hide Le;
    assert c * 4 == 512 * (c * 4 / 512) + c * 4 % 512;
    assert FatLba(b, c) == FatByte(b, c) / 512 && 512 * FatLba(b, c) + c * 4 % 512 == FatByte(b, c);
  }

  /** The words of different clusters share no byte. */
  lemma FatWordsApart(b: Boot, c: u32, c2: u32)
    requires c != c2
    ensures FatByte(b, c) + 4 <= FatByte(b, c2) || FatByte(b, c2) + 4 <= FatByte(b, c)
  {
  }

  /** Without a FAT a file lies in clusters that follow each other. */
  lemma NextIsNumber(b: Boot, d: Disk, c: u32)
    requires b.fatLength == 0 && c < 0xFFFF_FFFF
    ensures Next(b, d, c) == c + 1
  {
  }

  lemma {:induction false} SectorsTimes(spc: nat, k: nat)
    ensures Sectors(spc, k) == k * spc
  {
    if k > 0 {
      SectorsTimes(spc, k - 1);
      assert (k - 1) * spc + spc == k * spc;
    }
  }

  /** Cluster c is spc sectors long and begins c - 2 clusters into the heap. */
  lemma ClusterIs(b: Boot, d: Disk, c: u32)
    requires c >= 2 && b.partLba + b.heap + (c - 2) * b.spc < U32_MOD && Readable(b, d, c)
    ensures 0 <= 512 * (b.partLba + b.heap + (c - 2) * b.spc) <= |d| - 512 * b.spc
    ensures var at := 512 * (b.partLba + b.heap + (c - 2) * b.spc); Cluster(b, d, c) == d[at..at + 512 * b.spc]
  {
    hide Sectors;
    SectorsTimes(b.spc, c - 2);
    assert (c - 2) * b.spc >= 0;
  }

  /** A file whose clusters are linked by the words of the FAT reads as those clusters, one after the other. */
  lemma FatChainReads(b: Boot, d: Disk, cs: seq<u32>, size: nat)
    requires BootOk(b) && b.fatLength > 0 && cs != []
    requires forall i :: 0 <= i < |cs| ==> 2 <= cs[i] < 0xFFFF_FFFF && Readable(b, d, cs[i])
    requires forall i :: 0 <= i < |cs| ==>
      FatByte(b, cs[i]) < 512 * U32_MOD && FatByte(b, cs[i]) / 512 * 512 + 512 <= |d|
    requires forall i {:trigger cs[i]} :: 0 < i < |cs| ==>
      FatByte(b, cs[i - 1]) + 4 <= |d| && cs[i] == Le32(d, FatByte(b, cs[i - 1]))
    requires size <= |Joined(b, d, cs)|
    ensures FileBytes(b, d, cs[0], size) == Some(Joined(b, d, cs)[..size])
  {
    hide Next, FatByte, Lba, Readable, Joined, FileBytes;
    forall i {:trigger cs[i]} | 0 < i < |cs| ensures cs[i] == Next(b, d, cs[i - 1]) {
      NextIsFatWord(b, d, cs[i - 1]);
    }
    ReadsTheChain(b, d, cs, size);
  }
}
