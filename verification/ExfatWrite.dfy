/**
 What writing a file does to the disk: three writes in the order data, bitmap, directory. At any
 point in between every earlier file is still listed and readable, and afterwards so is the new one.
 */
module ExfatWrite {
  import opened Bits
  import opened ExfatDir
  import opened ExfatDisk
  import opened Words

  // ---------- the decisions ----------

  /** The cluster named by the first bitmap entry of a directory cluster; 0 when there is none. */
  function BitmapAt(cb: seq<u8>, o: nat): u32
    requires Whole(cb) && o % 32 == 0 && o <= |cb|
    decreases |cb| - o
  {
    if o == |cb| then 0
    else if cb[o] == BITMAP then Le32(cb, o + 20)
    else if cb[o] == EOD then 0
    else BitmapAt(cb, o + 32)
  }

  predicate Used(bm: seq<u8>, c: nat)
    requires c < 8 * |bm|
  {
    Bit(bm[c / 8], c % 8)
  }

  /** Bit k of byte i stands for cluster 8i + k. */
  lemma UsedIs(bm: seq<u8>, i: nat, k: nat)
    requires i < |bm| && k < 8
    ensures Used(bm, 8 * i + k) <==> Bit(bm[i], k)
  {
  }

  /** The bitmap's place is the word at byte 20 of the first 0x81 entry, if none before it ends the directory. */
  lemma {:induction false} BitmapAtIs(cb: seq<u8>, o: nat, at: nat)
    requires Whole(cb) && o % 32 == 0 && at % 32 == 0 && o <= at <= |cb|
    requires forall p :: o <= p < at && p % 32 == 0 ==> cb[p] != 0x81 && cb[p] != 0
    ensures at == |cb| || cb[at] == 0 ==> BitmapAt(cb, o) == 0
    ensures at < |cb| && cb[at] == 0x81 ==> BitmapAt(cb, o) == Le32(cb, at + 20)
    decreases at - o
  {
    hide Le32;
    if o < at { BitmapAtIs(cb, o + 32, at); }
  }

  /** The lowest free cluster from cc on; 0 when all are taken. */
  function FirstFree(bm: seq<u8>, cc: nat, count: u32): (c: u32)
    requires 1 <= cc && count <= 8 * |bm|
    ensures c == 0 || cc <= c < count
    decreases count - cc
  {
    if cc >= count then 0 else if !Used(bm, cc) then cc else FirstFree(bm, cc + 1, count)
  }

  lemma {:induction false} FirstFreeIs(bm: seq<u8>, cc: nat, count: u32)
    requires 1 <= cc && count <= 8 * |bm|
    ensures var c := FirstFree(bm, cc, count);
      && (c != 0 ==> !Used(bm, c) && forall k :: cc <= k < c ==> Used(bm, k))
      && (c == 0 ==> forall k :: cc <= k < count ==> Used(bm, k))
    decreases count - cc
  {
    if cc < count && Used(bm, cc) { FirstFreeIs(bm, cc + 1, count); }
  }

  /** Marking a free cluster adds its bit to its byte, and changes no other byte. */
  lemma MarkAdds(bm: seq<u8>, c: nat)
    requires c < 8 * |bm| && !Used(bm, c)
    ensures var was: int := bm[c / 8]; Marked(bm, c)[c / 8] == was + Pow2(c % 8)
    ensures forall i :: 0 <= i < |bm| && i != c / 8 ==> Marked(bm, c)[i] == bm[i]
  {
    WithBitAdds(bm[c / 8], c % 8);
  }

  /** The bitmap with cluster c marked used. */
  function Marked(bm: seq<u8>, c: nat): (bm2: seq<u8>)
    requires c < 8 * |bm|
    ensures |bm2| == |bm| && forall k :: 0 <= k < 8 * |bm| ==> (Used(bm2, k) <==> k == c || Used(bm, k))
  {
    var bm2 := bm[c / 8 := PutBit(bm[c / 8], c % 8, true)];
    forall k | 0 <= k < 8 * |bm| ensures Used(bm2, k) <==> k == c || Used(bm, k) {
      assert 0 <= k % 8 < 8;
      if k / 8 == c / 8 { assert k == c <==> k % 8 == c % 8; }
    }
    bm2
  }

  /** The heap lies on the disk and the FAT before it; sector numbers fit 32 bits. */
  predicate Geometry(b: Boot, n: nat) {
    && n < 512 * U32_MOD
    && 512 * (b.partLba + b.heap + Sectors(b.spc, b.clusterCount)) <= n
    && (b.fatLength > 0 ==> 512 * b.fatOffset + 4 * (b.clusterCount + 2) <= 512 * b.heap)
    && b.clusterCount <= 8 * Bpc(b)
  }

  predicate Fit(b: Boot, d: Disk) {
    BootOk(b) && Geometry(b, |d|)
  }

  /** The numbers of the clusters that exist. */
  predicate InHeap(b: Boot, c: u32) {
    2 <= c < b.clusterCount + 2
  }

  datatype Plan = Refuse(code: int) | Go(bitmap: u32, free: u32)

  /** What exfat_write_file decides before it writes anything, with its error codes. */
  function PlanOf(b: Boot, d: Disk, name: seq<u8>, size: nat): (p: Plan)
    requires Fit(b, d)
  {
    if name == [] || size > Bpc(b) then Refuse(-2)
    else if !Readable(b, d, b.root) then Refuse(-3)
    else
      var bitmap := BitmapAt(Cluster(b, d, b.root), 0);
      if bitmap == 0 then Refuse(-4)
      else if !Readable(b, d, bitmap) then Refuse(-1)
      else
        var free := FirstFree(Cluster(b, d, bitmap), 2, b.clusterCount);
        if free == 0 then Refuse(-5) else Go(bitmap, free)
  }

  /** One file to write: where the bitmap is, the cluster to use, its contents and its name. */
  datatype Job = Job(bitmap: u32, free: u32, data: seq<u8>, name: seq<u8>)

  predicate JobOk(b: Boot, d: Disk, j: Job) {
    && Fit(b, d) && Readable(b, d, b.root) && Readable(b, d, j.bitmap) && Readable(b, d, j.free)
    && j.free < b.clusterCount && InHeap(b, j.free) && |j.data| <= Bpc(b) && |j.name| <= 255 && 0 !in j.name
  }

  function RootEnd(b: Boot, d: Disk): (off: nat)
    requires Readable(b, d, b.root)
  {
    EndOfDir(Cluster(b, d, b.root), 0)
  }

  // ---------- the disk as the write proceeds ----------

  function DataStage(b: Boot, d: Disk, j: Job, n: nat): (e: Disk)
    requires JobOk(b, d, j) && n <= |j.data|
    ensures |e| == |d|
  {
    Splice(d, 512 * Lba(b, j.free), j.data[..n])
  }

  function BitStage(b: Boot, d: Disk, j: Job): (e: Disk)
    requires JobOk(b, d, j)
    ensures |e| == |d|
  {
    Splice(DataStage(b, d, j, |j.data|), 512 * Lba(b, j.bitmap), Marked(Cluster(b, d, j.bitmap), j.free))
  }

  function RootStage(b: Boot, d: Disk, j: Job): (e: Disk)
    requires JobOk(b, d, j) && RootEnd(b, d) + 96 <= Bpc(b)
    ensures |e| == |d|
  {
    Splice(BitStage(b, d, j), 512 * Lba(b, b.root),
           WithEntry(Cluster(b, d, b.root), RootEnd(b, d), j.name, |j.data|, j.free))
  }

  /** The directory does not name the new file yet. */
  predicate Before(b: Boot, d: Disk, j: Job, e: Disk) {
    && JobOk(b, d, j)
    && (e == d || (exists n :: 0 <= n <= |j.data| && e == DataStage(b, d, j, n)) || e == BitStage(b, d, j))
  }

  /** Only the directory is still missing. */
  predicate Stored(b: Boot, d: Disk, j: Job, e: Disk) {
    JobOk(b, d, j) && e == BitStage(b, d, j)
  }

  predicate Done(b: Boot, d: Disk, j: Job, e: Disk) {
    JobOk(b, d, j) && RootEnd(b, d) + 96 <= Bpc(b) && e == RootStage(b, d, j)
  }

  // ---------- where things are ----------

  lemma InHeapPlain(b: Boot, n: nat, c: u32)
    requires BootOk(b) && Geometry(b, n) && InHeap(b, c)
    ensures Lba(b, c) == b.partLba + b.heap + Sectors(b.spc, c - 2) && 512 * (Lba(b, c) + b.spc) <= n
    ensures Lba(b, c) >= b.partLba + b.heap
  {
    hide Sectors;
    SectorsGrow(b.spc, c - 2, b.clusterCount);
  }

  lemma ClustersApart(b: Boot, n: nat, c1: u32, c2: u32)
    requires BootOk(b) && Geometry(b, n) && InHeap(b, c1) && InHeap(b, c2) && c1 != c2
    ensures Lba(b, c1) + b.spc <= Lba(b, c2) || Lba(b, c2) + b.spc <= Lba(b, c1)
  {
    hide Lba, Geometry, Sectors;
    InHeapPlain(b, n, c1);
    InHeapPlain(b, n, c2);
    if c1 < c2 { SectorsGrow(b.spc, c1 - 2, c2 - 2); } else { SectorsGrow(b.spc, c2 - 2, c1 - 2); }
  }

  /** The FAT entry of a cluster lies before the heap. */
  lemma FatBelowHeap(b: Boot, n: nat, c: u32)
    requires BootOk(b) && Geometry(b, n) && InHeap(b, c) && b.fatLength > 0
    ensures 512 * FatLba(b, c) + c * 4 % 512 + 4 <= 512 * (b.partLba + b.heap) && 512 * (FatLba(b, c) + 1) <= n
  {
    hide Sectors;
    var q, r := c * 4 / 512, c * 4 % 512;
    assert 512 * q + r == c * 4;
    assert 512 * (b.partLba + b.fatOffset + q) + r + 4 <= 512 * (b.partLba + b.heap);
  }

  lemma SpliceKeepsCluster(b: Boot, d: Disk, target: u32, bytes: seq<u8>, c: u32)
    requires Fit(b, d) && InHeap(b, target) && InHeap(b, c) && target != c && |bytes| <= Bpc(b)
    ensures 512 * Lba(b, target) + |bytes| <= |d| && Readable(b, d, c)
    ensures Cluster(b, Splice(d, 512 * Lba(b, target), bytes), c) == Cluster(b, d, c)
  {
    hide Lba, Geometry, Sectors, Splice;
    InHeapPlain(b, |d|, target);
    InHeapPlain(b, |d|, c);
    ClustersApart(b, |d|, target, c);
    SpliceElsewhere(d, 512 * Lba(b, target), bytes, 512 * Lba(b, c), 512 * (Lba(b, c) + b.spc));
  }

  lemma SpliceKeepsNext(b: Boot, d: Disk, target: u32, bytes: seq<u8>, c: u32)
    requires Fit(b, d) && InHeap(b, target) && InHeap(b, c) && |bytes| <= Bpc(b)
    ensures 512 * Lba(b, target) + |bytes| <= |d|
    ensures Next(b, Splice(d, 512 * Lba(b, target), bytes), c) == Next(b, d, c)
  {
    hide Lba, Geometry, Sectors, Splice, FatLba, Le;
    InHeapPlain(b, |d|, target);
    if b.fatLength > 0 {
      FatBelowHeap(b, |d|, c);
      var at := 512 * FatLba(b, c) + c * 4 % 512;
      SpliceElsewhere(d, 512 * Lba(b, target), bytes, at, at + 4);
    }
  }

  // ---------- nothing is lost on the way ----------

  /** The bitmap scan will not hand out c. */
  predicate Taken(b: Boot, bm: seq<u8>, c: u32) {
    c >= b.clusterCount || (c < 8 * |bm| && Used(bm, c))
  }

  /** A volume whose root and bitmap clusters exist, differ and are marked used. */
  predicate Consistent(b: Boot, d: Disk)
  {
    && Fit(b, d) && InHeap(b, b.root) && Readable(b, d, b.root)
    && var bitmap := BitmapAt(Cluster(b, d, b.root), 0);
    && InHeap(b, bitmap) && Readable(b, d, bitmap) && bitmap != b.root
    && Taken(b, Cluster(b, d, bitmap), b.root) && Taken(b, Cluster(b, d, bitmap), bitmap)
  }

  function JobOf(p: Plan, name: seq<u8>, data: seq<u8>): Job
    requires p.Go?
  {
    Job(p.bitmap, p.free, data, name)
  }

  lemma PlanMakesJob(b: Boot, d: Disk, name: seq<u8>, data: seq<u8>)
    requires Fit(b, d) && |name| <= 255 && 0 !in name && PlanOf(b, d, name, |data|).Go?
    ensures JobOk(b, d, JobOf(PlanOf(b, d, name, |data|), name, data))
  {
    hide Lba, Geometry, Sectors, Cluster, BitmapAt;
    InHeapPlain(b, |d|, PlanOf(b, d, name, |data|).free);
  }

  /** A job to be done on a consistent volume. */
  predicate Planned(b: Boot, d: Disk, j: Job) {
    && Consistent(b, d) && JobOk(b, d, j) && PlanOf(b, d, j.name, |j.data|) == Go(j.bitmap, j.free)
  }

  /** The three clusters to be written are different ones, and the new one is free. */
  lemma ThreePlaces(b: Boot, d: Disk, j: Job)
    requires Planned(b, d, j)
    ensures InHeap(b, b.root) && InHeap(b, j.bitmap) && b.root != j.bitmap
    ensures j.free != b.root && j.free != j.bitmap && j.free < b.clusterCount <= 8 * Bpc(b)
    ensures !Taken(b, Cluster(b, d, j.bitmap), j.free)
  {
    hide Lba, Sectors, Cluster, BitmapAt;
    FirstFreeIs(Cluster(b, d, j.bitmap), 2, b.clusterCount);
  }

  /** Clusters other than the three being written hold the same bytes at every moment. */
  lemma ClusterKept(b: Boot, d: Disk, j: Job, e: Disk, c: u32)
    requires Planned(b, d, j) && InHeap(b, c) && c != j.free && c != j.bitmap
    requires Before(b, d, j, e) || (Done(b, d, j, e) && c != b.root)
    ensures |e| == |d| && Readable(b, d, c) && Cluster(b, e, c) == Cluster(b, d, c)
  {
    hide Lba, Geometry, Sectors, Cluster, BitmapAt, Splice, PlanOf, WithEntry, Marked, RootEnd, Used;
    ThreePlaces(b, d, j);
    InHeapPlain(b, |d|, c);
    forall n | 0 <= n <= |j.data| ensures Cluster(b, DataStage(b, d, j, n), c) == Cluster(b, d, c) {
      SpliceKeepsCluster(b, d, j.free, j.data[..n], c);
    }
    SpliceKeepsCluster(b, DataStage(b, d, j, |j.data|), j.bitmap, Marked(Cluster(b, d, j.bitmap), j.free), c);
    if Done(b, d, j, e) && c != b.root {
      SpliceKeepsCluster(b, BitStage(b, d, j), b.root,
        WithEntry(Cluster(b, d, b.root), RootEnd(b, d), j.name, |j.data|, j.free), c);
    }
  }

  lemma NextKept(b: Boot, d: Disk, j: Job, e: Disk, c: u32)
    requires Planned(b, d, j) && InHeap(b, c)
    requires Before(b, d, j, e) || Done(b, d, j, e)
    ensures Next(b, e, c) == Next(b, d, c)
  {
    hide Lba, Geometry, Sectors, Cluster, BitmapAt, Splice, PlanOf, WithEntry, Marked, RootEnd, Used, Next;
    ThreePlaces(b, d, j);
    forall n | 0 <= n <= |j.data| ensures Next(b, DataStage(b, d, j, n), c) == Next(b, d, c) {
      SpliceKeepsNext(b, d, j.free, j.data[..n], c);
    }
    SpliceKeepsNext(b, DataStage(b, d, j, |j.data|), j.bitmap, Marked(Cluster(b, d, j.bitmap), j.free), c);
    if Done(b, d, j, e) {
      SpliceKeepsNext(b, BitStage(b, d, j), b.root,
        WithEntry(Cluster(b, d, b.root), RootEnd(b, d), j.name, |j.data|, j.free), c);
    }
  }

  /** A cluster in use by something else than the directory and the bitmap. */
  predicate InUse(b: Boot, d: Disk, bitmap: u32, c: u32)
    requires Readable(b, d, bitmap)
  {
    InHeap(b, c) && c != bitmap && Taken(b, Cluster(b, d, bitmap), c)
  }

  /** A file whose clusters are all in use and none of them the directory's. */
  predicate Owned(b: Boot, d: Disk, bitmap: u32, c: u32, size: nat)
    requires BootOk(b) && Readable(b, d, bitmap)
  {
    forall i {:trigger ReadPath(b, d, c, size)[i]} :: 0 <= i < |ReadPath(b, d, c, size)| ==>
      InUse(b, d, bitmap, ReadPath(b, d, c, size)[i]) && ReadPath(b, d, c, size)[i] != b.root
  }

  /** Whatever can be read before the write can be read, unchanged, at every moment of it. */
  lemma {:induction false} FilesKept(b: Boot, d: Disk, j: Job, e: Disk, c: u32, size: nat)
    requires Planned(b, d, j) && (Before(b, d, j, e) || Done(b, d, j, e))
    requires Owned(b, d, j.bitmap, c, size)
    ensures FileBytes(b, e, c, size) == FileBytes(b, d, c, size) && ReadPath(b, e, c, size) == ReadPath(b, d, c, size)
    decreases size
  {
    hide Lba, Geometry, Sectors, Cluster, BitmapAt, PlanOf, Next, Before, Done, Consistent, Taken;
    SameSize(b, d, j, e);
    if size > 0 && IsCluster(c) && Readable(b, d, c) {
      var path := ReadPath(b, d, c, size);
      assert path[0] == c && InUse(b, d, j.bitmap, c);
      ThreePlaces(b, d, j);
      ClusterKept(b, d, j, e, c);
      NextKept(b, d, j, e, c);
      var rest := ReadPath(b, d, Next(b, d, c), size - Min(size, Bpc(b)));
      assert forall i {:trigger rest[i]} :: 0 <= i < |rest| ==> path[i + 1] == rest[i];
      FilesKept(b, d, j, e, Next(b, d, c), size - Min(size, Bpc(b)));
    }
  }

  lemma SameSize(b: Boot, d: Disk, j: Job, e: Disk)
    requires JobOk(b, d, j) && (Before(b, d, j, e) || Done(b, d, j, e))
    ensures |e| == |d|
  {
    hide Lba, Geometry, Sectors, Cluster, Splice, WithEntry, Marked;
  }

  lemma ListStep(b: Boot, d: Disk, c: u32, max: nat)
    requires BootOk(b) && IsCluster(c) && Readable(b, d, c)
    ensures var files := ParseFrom(Cluster(b, d, c), 0, max);
      && Listing(b, d, c, max) == (if files == [] then [] else files + Listing(b, d, Next(b, d, c), max - |files|))
      && ListPath(b, d, c, max) == [c] + if files == [] then [] else ListPath(b, d, Next(b, d, c), max - |files|)
  {
    hide Lba, Readable, Cluster, Next, ParseFrom, Listing, ListPath, IsCluster;
    ListingStep(b, d, c, max);
    PathStep(b, d, c, max);
  }

  lemma ListingStep(b: Boot, d: Disk, c: u32, max: nat)
    requires BootOk(b) && IsCluster(c) && Readable(b, d, c)
    ensures var files := ParseFrom(Cluster(b, d, c), 0, max);
      Listing(b, d, c, max) == if files == [] then [] else files + Listing(b, d, Next(b, d, c), max - |files|)
  {
    hide Lba, Readable, Cluster, Next, ParseFrom, ListPath;
  }

  lemma PathStep(b: Boot, d: Disk, c: u32, max: nat)
    requires BootOk(b) && IsCluster(c) && Readable(b, d, c)
    ensures var files := ParseFrom(Cluster(b, d, c), 0, max);
      ListPath(b, d, c, max) == [c] + if files == [] then [] else ListPath(b, d, Next(b, d, c), max - |files|)
  {
    hide Lba, Readable, Cluster, Next, ParseFrom, Listing;
  }

  lemma NoListing(b: Boot, d: Disk, c: u32, max: nat)
    requires BootOk(b) && !(IsCluster(c) && Readable(b, d, c))
    ensures Listing(b, d, c, max) == [] && ListPath(b, d, c, max) == []
  {
  }

  /** A directory lists what it did at every moment of a write, unless the write is done and the
      root cluster is one of those listed. */
  lemma {:induction false} ListingKept(b: Boot, d: Disk, j: Job, e: Disk, c: u32, max: nat)
    requires Planned(b, d, j) && (Before(b, d, j, e) || Done(b, d, j, e))
    requires forall i {:trigger ListPath(b, d, c, max)[i]} :: 0 <= i < |ListPath(b, d, c, max)| ==>
      InUse(b, d, j.bitmap, ListPath(b, d, c, max)[i]) && (ListPath(b, d, c, max)[i] == b.root ==> Before(b, d, j, e))
    ensures Listing(b, e, c, max) == Listing(b, d, c, max)
    decreases max
  {
    hide Lba, Geometry, Sectors, Cluster, BitmapAt, PlanOf, Next, Before, Done, Consistent, Taken, ParseFrom, Planned,
      Listing, ListPath, IsCluster, Readable, JobOk;
    PlannedIs(b, d, j);
    SameSize(b, d, j, e);
    if IsCluster(c) && Readable(b, d, c) {
      var path := ListPath(b, d, c, max);
      ListStep(b, d, c, max);
      SameReadable(b, d, e, c);
      ListStep(b, e, c, max);
      assert path[0] == c && InUse(b, d, j.bitmap, c);
      ThreePlaces(b, d, j);
      ClusterKept(b, d, j, e, c);
      NextKept(b, d, j, e, c);
      var files := ParseFrom(Cluster(b, d, c), 0, max);
      if files != [] {
        var rest := ListPath(b, d, Next(b, d, c), max - |files|);
        assert forall i {:trigger rest[i]} :: 0 <= i < |rest| ==> path[i + 1] == rest[i];
        ListingKept(b, d, j, e, Next(b, d, c), max - |files|);
      }
    } else {
      NoListing(b, d, c, max);
      SameReadable(b, d, e, c);
      NoListing(b, e, c, max);
    }
  }

  lemma PlannedIs(b: Boot, d: Disk, j: Job)
    requires Planned(b, d, j)
    ensures BootOk(b) && JobOk(b, d, j) && Readable(b, d, j.bitmap)
  {
    hide Lba, Sectors, Cluster, BitmapAt, Consistent, PlanOf;
  }

  lemma SameReadable(b: Boot, d: Disk, e: Disk, c: u32)
    requires |e| == |d|
    ensures Readable(b, e, c) <==> Readable(b, d, c)
  {
    hide Lba;
  }

  /** With room for one record less, the same clusters are read and the same files listed, except
      perhaps the last. */
  lemma {:induction false} ListingLess(b: Boot, d: Disk, c: u32, max: nat)
    requires BootOk(b) && max > 0
    ensures Listing(b, d, c, max - 1) == First(Listing(b, d, c, max), max - 1)
    ensures ListPath(b, d, c, max - 1) <= ListPath(b, d, c, max)
    decreases max
  {
    hide Lba, Readable, Cluster, Next, ParseFrom, Listing, ListPath, IsCluster;
    if IsCluster(c) && Readable(b, d, c) {
      ListStep(b, d, c, max);
      ListStep(b, d, c, max - 1);
      ParseLess(Cluster(b, d, c), 0, max);
      var files, n := ParseFrom(Cluster(b, d, c), 0, max), Next(b, d, c);
      if files != [] && |files| < max {
        ListingLess(b, d, n, max - |files|);
        assert First(files + Listing(b, d, n, max - |files|), max - 1)
          == files + First(Listing(b, d, n, max - |files|), max - 1 - |files|);
      }
    } else {
      NoListing(b, d, c, max);
      NoListing(b, d, c, max - 1);
    }
  }

  // ---------- the new file is there ----------

  lemma HereIs(b: Boot, d: Disk, c: u32, bytes: seq<u8>)
    requires Fit(b, d) && InHeap(b, c) && |bytes| <= Bpc(b)
    ensures Readable(b, d, c) && Cluster(b, Splice(d, 512 * Lba(b, c), bytes), c)[..|bytes|] == bytes
    ensures |bytes| == Bpc(b) ==> Cluster(b, Splice(d, 512 * Lba(b, c), bytes), c) == bytes
  {
    hide Lba, Geometry, Sectors, Splice;
    InHeapPlain(b, |d|, c);
    SpliceHere(d, 512 * Lba(b, c), bytes);
    var e := Splice(d, 512 * Lba(b, c), bytes);
    assert Cluster(b, e, c)[..|bytes|] == e[512 * Lba(b, c)..512 * Lba(b, c) + |bytes|];
  }

  /** The three clusters after a completed write. */
  lemma AfterDone(b: Boot, d: Disk, j: Job, e: Disk)
    requires Planned(b, d, j) && Done(b, d, j, e)
    ensures |e| == |d| && Readable(b, d, j.free)
    ensures Cluster(b, e, b.root) == WithEntry(Cluster(b, d, b.root), RootEnd(b, d), j.name, |j.data|, j.free)
    ensures Cluster(b, e, j.bitmap) == Marked(Cluster(b, d, j.bitmap), j.free)
    ensures Cluster(b, e, j.free)[..|j.data|] == j.data
  {
    hide Lba, Geometry, Sectors, BitmapAt, Splice, PlanOf, WithEntry, Marked, RootEnd, Used, Consistent;
    ThreePlaces(b, d, j);
    var d1, d2 := DataStage(b, d, j, |j.data|), BitStage(b, d, j);
    var bits := Marked(Cluster(b, d, j.bitmap), j.free);
    var root := WithEntry(Cluster(b, d, b.root), RootEnd(b, d), j.name, |j.data|, j.free);
    assert j.data[..|j.data|] == j.data;
    HereIs(b, d, j.free, j.data);
    HereIs(b, d1, j.bitmap, bits);
    HereIs(b, d2, b.root, root);
    SpliceKeepsCluster(b, d1, j.bitmap, bits, j.free);
    SpliceKeepsCluster(b, d2, b.root, root, j.free);
    SpliceKeepsCluster(b, d2, b.root, root, j.bitmap);
  }

  /** A write that finds the directory full has taken a cluster that no file will name: the
      bitmap has one more bit, the directory is as before. */
  lemma FullDirectoryLeaks(b: Boot, d: Disk, j: Job, e: Disk, k: nat)
    requires Planned(b, d, j) && Stored(b, d, j, e) && k < 8 * Bpc(b)
    ensures |e| == |d| && Cluster(b, e, b.root) == Cluster(b, d, b.root)
    ensures Used(Cluster(b, e, j.bitmap), k) <==> k == j.free || Used(Cluster(b, d, j.bitmap), k)
  {
    hide Lba, Geometry, Sectors, BitmapAt, PlanOf, WithEntry, RootEnd, Used, Consistent, Splice;
    ThreePlaces(b, d, j);
    ClusterKept(b, d, j, e, b.root);
    assert j.data[..|j.data|] == j.data;
    HereIs(b, DataStage(b, d, j, |j.data|), j.bitmap, Marked(Cluster(b, d, j.bitmap), j.free));
  }

  /** The bitmap after a write counts exactly one more cluster as used. */
  lemma OneMoreUsed(b: Boot, d: Disk, j: Job, e: Disk, k: nat)
    requires Planned(b, d, j) && Done(b, d, j, e) && k < 8 * Bpc(b)
    ensures |e| == |d| && (Used(Cluster(b, e, j.bitmap), k) <==> k == j.free || Used(Cluster(b, d, j.bitmap), k))
  {
    hide Lba, Geometry, Sectors, BitmapAt, PlanOf, WithEntry, RootEnd, Used, Consistent, RootStage;
    ThreePlaces(b, d, j);
    AfterDone(b, d, j, e);
  }

  /** The written bytes read back from the new cluster. */
  lemma DataReadsBack(b: Boot, d: Disk, j: Job, e: Disk)
    requires Planned(b, d, j) && Done(b, d, j, e)
    ensures FileBytes(b, e, j.free, |j.data|) == Some(j.data)
    ensures forall i :: 0 <= i < |ReadPath(b, e, j.free, |j.data|)| ==> ReadPath(b, e, j.free, |j.data|)[i] == j.free
  {
    hide Lba, Geometry, Sectors, BitmapAt, PlanOf, WithEntry, RootEnd, Used, Consistent, RootStage, Marked;
    AfterDone(b, d, j, e);
    if |j.data| > 0 {
      assert j.data + [] == j.data;
      assert FileBytes(b, e, Next(b, e, j.free), 0) == Some([]);
      assert ReadPath(b, e, Next(b, e, j.free), 0) == [];
    }
  }

  /** The entry set on the disk after a completed write, byte by byte, at the old end of the directory. */
  lemma EntryOnDisk(b: Boot, d: Disk, j: Job, e: Disk)
    requires Planned(b, d, j) && Done(b, d, j, e)
    ensures |e| == |d| && RootEnd(b, d) + 96 <= Bpc(b)
    ensures EntrySetAt(Cluster(b, d, b.root), Cluster(b, e, b.root), RootEnd(b, d), j.name, |j.data|, j.free)
  {
    hide Lba, Geometry, Sectors, BitmapAt, PlanOf, WithEntry, Used, Consistent, RootStage, Marked, EndOfDir, EntrySetAt;
    AfterDone(b, d, j, e);
    StoredFields(Cluster(b, d, b.root), RootEnd(b, d), j.name, |j.data|, j.free);
  }

  function NewRecord(b: Boot, d: Disk, j: Job): FileInfo
    requires JobOk(b, d, j) && RootEnd(b, d) + 96 <= Bpc(b)
  {
    RecordSeen(Cluster(b, d, b.root), RootEnd(b, d), j.name, |j.data|, j.free)
  }

  /** The root cluster then lists the old files and the new one. */
  lemma RootListsNewFile(b: Boot, d: Disk, j: Job, e: Disk, max: nat)
    requires Planned(b, d, j) && Done(b, d, j, e)
    ensures |e| == |d|
    ensures ParseFrom(Cluster(b, e, b.root), 0, max)
         == Plus(ParseFrom(Cluster(b, d, b.root), 0, max), NewRecord(b, d, j), max)
  {
    hide Lba, Geometry, Sectors, BitmapAt, PlanOf, WithEntry, Used, Consistent, RootStage, Marked, ParseFrom;
    AfterDone(b, d, j, e);
    AppendedFileIsListed(Cluster(b, d, b.root), 0, max, j.name, |j.data|, j.free);
  }

  /** The clusters of a listing are in use and none of them is the root's first. */
  predicate Further(b: Boot, d: Disk, bitmap: u32, c: u32, max: nat)
    requires BootOk(b) && Readable(b, d, bitmap)
  {
    forall i {:trigger ListPath(b, d, c, max)[i]} :: 0 <= i < |ListPath(b, d, c, max)| ==>
      InUse(b, d, bitmap, ListPath(b, d, c, max)[i]) && ListPath(b, d, c, max)[i] != b.root
  }

  /** The files of the root directory's first cluster. */
  function Here(b: Boot, d: Disk, max: nat): (files: seq<FileInfo>)
    requires Readable(b, d, b.root)
    ensures |files| <= max
  {
    ParseFrom(Cluster(b, d, b.root), 0, max)
  }

  /** The files of its further clusters. */
  function Beyond(b: Boot, d: Disk, max: nat): (files: seq<FileInfo>)
    requires Readable(b, d, b.root) && BootOk(b)
    ensures |Here(b, d, max)| + |files| <= max
  {
    Listing(b, d, Next(b, d, b.root), max - |Here(b, d, max)|)
  }

  lemma TwoParts(b: Boot, d: Disk, max: nat)
    requires Readable(b, d, b.root) && BootOk(b) && IsCluster(b.root)
    ensures Listing(b, d, b.root, max) == if Here(b, d, max) == [] then [] else Here(b, d, max) + Beyond(b, d, max)
  {
    hide Lba, Readable, Cluster, Next, ParseFrom;
    ListStep(b, d, b.root, max);
  }

  /** The whole listing of a root directory that goes on in further clusters: the new file comes
      behind the files of the first cluster and before those of the further ones. A listed file is
      pushed out exactly when the listing was full and not by the first cluster alone; it is the
      last one. Files in further clusters behind a first cluster without files come to light. */
  lemma WholeListing(b: Boot, d: Disk, j: Job, e: Disk, max: nat)
    requires Planned(b, d, j) && Done(b, d, j, e)
    requires Further(b, d, j.bitmap, Next(b, d, b.root), max - |Here(b, d, max)|)
    ensures var here, beyond, rec := Here(b, d, max), Beyond(b, d, max), NewRecord(b, d, j);
      && Listing(b, d, b.root, max) == (if here == [] then [] else here + beyond)
      && Listing(b, e, b.root, max) == First(if |here| == max then here else here + [rec] + beyond, max)
      && (here != [] && |here| < max ==>
            Listing(b, e, b.root, max)
            == here + [rec] + if |Listing(b, d, b.root, max)| == max then beyond[..|beyond| - 1] else beyond)
  {
    hide Lba, Geometry, Sectors, BitmapAt, PlanOf, WithEntry, RootEnd, Used, Consistent, RootStage, Marked, ParseFrom,
      Next, Cluster, RecordSeen, Listing, Planned, Readable, JobOk, Further, Here, Beyond, BitStage;
    RootStays(b, d, j, e);
    PartsAfter(b, d, j, e, max);
    TwoParts(b, d, max);
    TwoParts(b, e, max);
    FirstBehind(Here(b, d, max) + [NewRecord(b, d, j)], Beyond(b, d, max), max);
  }

  lemma PartsAfter(b: Boot, d: Disk, j: Job, e: Disk, max: nat)
    requires Planned(b, d, j) && Done(b, d, j, e)
    requires Further(b, d, j.bitmap, Next(b, d, b.root), max - |Here(b, d, max)|)
    ensures Readable(b, e, b.root) && Here(b, e, max) == Plus(Here(b, d, max), NewRecord(b, d, j), max)
    ensures |Here(b, d, max)| < max ==> Beyond(b, e, max) == First(Beyond(b, d, max), max - |Here(b, d, max)| - 1)
  {
    hide Lba, Geometry, Sectors, BitmapAt, PlanOf, WithEntry, RootEnd, Used, Consistent, RootStage, Marked, ParseFrom,
      Next, Cluster, RecordSeen, Listing, Planned, Readable, JobOk, BitStage, ListPath;
    RootStays(b, d, j, e);
    var here, n := Here(b, d, max), Next(b, d, b.root);
    RootListsNewFile(b, d, j, e, max);
    NextKept(b, d, j, e, b.root);
    if |here| < max {
      ListingLess(b, d, n, max - |here|);
      ListingKept(b, d, j, e, n, max - |here| - 1);
    }
  }

  lemma FirstBehind<T>(front: seq<T>, back: seq<T>, n: nat)
    ensures |front| <= n ==> First(front + back, n) == front + First(back, n - |front|)
  {
  }

  lemma TwoPartsKept(b: Boot, d: Disk, j: Job, e: Disk, max: nat)
    requires Planned(b, d, j) && Before(b, d, j, e)
    requires Further(b, d, j.bitmap, Next(b, d, b.root), max - |Here(b, d, max)|)
    ensures Listing(b, e, b.root, max) == Listing(b, d, b.root, max)
  {
    hide Lba, Geometry, Sectors, Cluster, BitmapAt, PlanOf, Before, Done, ParseFrom, Taken;
    RootInUse(b, d, j);
    ListingKept(b, d, j, e, b.root, max);
  }

  lemma RootInUse(b: Boot, d: Disk, j: Job)
    requires Planned(b, d, j)
    ensures Readable(b, d, b.root) && Readable(b, d, j.bitmap) && InUse(b, d, j.bitmap, b.root)
  {
    hide Lba, Sectors, Cluster, BitmapAt, Used;
  }

  lemma RootStays(b: Boot, d: Disk, j: Job, e: Disk)
    requires Planned(b, d, j) && Done(b, d, j, e)
    ensures Readable(b, d, b.root) && Readable(b, e, b.root) && Readable(b, d, j.bitmap) && BootOk(b)
    ensures InHeap(b, b.root) && IsCluster(b.root)
  {
    hide Lba, Sectors, Cluster, BitmapAt, Splice, WithEntry, Marked;
  }

  // ---------- listings in which the clusters being written appear ----------

  /** How far a write has come: n bytes of the data, the bitmap too, the directory too. */
  datatype Stage = Data(n: nat) | Bits | Entry

  predicate StageOk(b: Boot, d: Disk, j: Job, s: Stage) {
    JobOk(b, d, j) && (s.Data? ==> s.n <= |j.data|) && (s.Entry? ==> RootEnd(b, d) + 96 <= Bpc(b))
  }

  function DiskAt(b: Boot, d: Disk, j: Job, s: Stage): (e: Disk)
    requires StageOk(b, d, j, s)
    ensures |e| == |d|
  {
    match s
    case Data(n) => DataStage(b, d, j, n)
    case Bits => BitStage(b, d, j)
    case Entry => RootStage(b, d, j)
  }

  /** What a cluster then holds. */
  function ClusterAt(b: Boot, d: Disk, j: Job, s: Stage, c: u32): (cb: seq<u8>)
    requires StageOk(b, d, j, s) && Readable(b, d, c)
    ensures |cb| == Bpc(b) && Whole(cb)
  {
    var was := Cluster(b, d, c);
    if c == j.free then
      var n := if s.Data? then s.n else |j.data|;
      j.data[..n] + was[n..]
    else if c == j.bitmap && !s.Data? then Marked(was, j.free)
    else if c == b.root && s.Entry? then WithEntry(was, RootEnd(b, d), j.name, |j.data|, j.free)
    else was
  }

  /** What is listed then from a directory cluster on, the chain being what it was. */
  function ListingAt(b: Boot, d: Disk, j: Job, s: Stage, c: u32, max: nat): (files: seq<FileInfo>)
    requires StageOk(b, d, j, s)
    ensures |files| <= max
    decreases max
  {
    if !IsCluster(c) || !Readable(b, d, c) then []
    else
      var files := ParseFrom(ClusterAt(b, d, j, s, c), 0, max);
      if files == [] then [] else files + ListingAt(b, d, j, s, Next(b, d, c), max - |files|)
  }

  function PathAt(b: Boot, d: Disk, j: Job, s: Stage, c: u32, max: nat): (cs: seq<u32>)
    requires StageOk(b, d, j, s)
    decreases max
  {
    if !IsCluster(c) || !Readable(b, d, c) then []
    else
      var files := ParseFrom(ClusterAt(b, d, j, s, c), 0, max);
      [c] + if files == [] then [] else PathAt(b, d, j, s, Next(b, d, c), max - |files|)
  }

  /** Every moment of a write is one of these stages. */
  lemma StageOf(b: Boot, d: Disk, j: Job, e: Disk) returns (s: Stage)
    requires Before(b, d, j, e) || Done(b, d, j, e)
    ensures StageOk(b, d, j, s) && e == DiskAt(b, d, j, s)
    ensures s.Entry? ==> Done(b, d, j, e)
  {
    hide Lba, Geometry, Sectors, Cluster, Splice, WithEntry, Marked, EndOfDir;
    if Before(b, d, j, e) {
      if e == d {
        NoDataYet(b, d, j);
        s := Data(0);
      } else if e == BitStage(b, d, j) {
        s := Bits;
      } else {
        var n :| 0 <= n <= |j.data| && e == DataStage(b, d, j, n);
        s := Data(n);
      }
    } else {
      s := Entry;
    }
  }

  lemma NoDataYet(b: Boot, d: Disk, j: Job)
    requires JobOk(b, d, j)
    ensures DataStage(b, d, j, 0) == d
  {
    hide Lba, Geometry, Sectors;
  }

  lemma StageIsMoment(b: Boot, d: Disk, j: Job, s: Stage)
    requires StageOk(b, d, j, s)
    ensures if s.Entry? then Done(b, d, j, DiskAt(b, d, j, s)) else Before(b, d, j, DiskAt(b, d, j, s))
  {
    hide Lba, Geometry, Sectors, Cluster, Splice, WithEntry, Marked, EndOfDir;
  }

  lemma ClusterThen(b: Boot, d: Disk, j: Job, s: Stage, c: u32)
    requires Planned(b, d, j) && StageOk(b, d, j, s) && InHeap(b, c)
    ensures Readable(b, d, c) && Cluster(b, DiskAt(b, d, j, s), c) == ClusterAt(b, d, j, s, c)
  {
    hide Lba, Geometry, Sectors, BitmapAt, Splice, PlanOf, WithEntry, Marked, RootEnd, Used, Consistent, Planned,
      Cluster, Before, Done;
    ThreePlaces(b, d, j);
    StageIsMoment(b, d, j, s);
    if c == j.free {
      FreeThen(b, d, j, s);
    } else if c == j.bitmap && !s.Data? {
      BitmapThen(b, d, j, s);
    } else if c == b.root && s.Entry? {
      AfterDone(b, d, j, DiskAt(b, d, j, s));
    } else if c == j.bitmap {
      BitmapWaits(b, d, j, s.n);
    } else {
      ClusterKept(b, d, j, DiskAt(b, d, j, s), c);
    }
  }

  lemma BitmapWaits(b: Boot, d: Disk, j: Job, n: nat)
    requires Planned(b, d, j) && n <= |j.data|
    ensures JobOk(b, d, j) && Cluster(b, DataStage(b, d, j, n), j.bitmap) == Cluster(b, d, j.bitmap)
  {
    hide Lba, Geometry, Sectors, BitmapAt, Splice, PlanOf, Cluster;
    ThreePlaces(b, d, j);
    SpliceKeepsCluster(b, d, j.free, j.data[..n], j.bitmap);
  }

  lemma BitmapThen(b: Boot, d: Disk, j: Job, s: Stage)
    requires Planned(b, d, j) && StageOk(b, d, j, s) && !s.Data?
    ensures j.free < 8 * Bpc(b)
    ensures Cluster(b, DiskAt(b, d, j, s), j.bitmap) == Marked(Cluster(b, d, j.bitmap), j.free)
  {
    hide Lba, Geometry, Sectors, BitmapAt, Splice, PlanOf, WithEntry, Marked, RootEnd, Used, Consistent;
    ThreePlaces(b, d, j);
    assert j.data[..|j.data|] == j.data;
    HereIs(b, DataStage(b, d, j, |j.data|), j.bitmap, Marked(Cluster(b, d, j.bitmap), j.free));
    if s.Entry? {
      SpliceKeepsCluster(b, BitStage(b, d, j), b.root,
        WithEntry(Cluster(b, d, b.root), RootEnd(b, d), j.name, |j.data|, j.free), j.bitmap);
    }
  }

  lemma FreeThen(b: Boot, d: Disk, j: Job, s: Stage)
    requires Planned(b, d, j) && StageOk(b, d, j, s)
    ensures var n := if s.Data? then s.n else |j.data|;
      Cluster(b, DiskAt(b, d, j, s), j.free) == j.data[..n] + Cluster(b, d, j.free)[n..]
  {
    hide Lba, Geometry, Sectors, BitmapAt, Splice, PlanOf, WithEntry, Marked, RootEnd, Used, Consistent, Cluster;
    ThreePlaces(b, d, j);
    var n := if s.Data? then s.n else |j.data|;
    PartIs(b, d, j.free, j.data[..n]);
    if !s.Data? {
      SpliceKeepsCluster(b, DataStage(b, d, j, n), j.bitmap, Marked(Cluster(b, d, j.bitmap), j.free), j.free);
      if s.Entry? {
        SpliceKeepsCluster(b, BitStage(b, d, j), b.root,
          WithEntry(Cluster(b, d, b.root), RootEnd(b, d), j.name, |j.data|, j.free), j.free);
      }
    }
  }

  /** A cluster with new bytes at its head. */
  lemma PartIs(b: Boot, d: Disk, c: u32, bytes: seq<u8>)
    requires Fit(b, d) && InHeap(b, c) && |bytes| <= Bpc(b)
    ensures Readable(b, d, c)
    ensures Cluster(b, Splice(d, 512 * Lba(b, c), bytes), c) == bytes + Cluster(b, d, c)[|bytes|..]
  {
    hide Lba, Geometry, Sectors;
    InHeapPlain(b, |d|, c);
  }

  lemma {:induction false} ListingOnPath(b: Boot, d: Disk, j: Job, s: Stage, c: u32, max: nat, path: seq<u32>)
    requires Planned(b, d, j) && StageOk(b, d, j, s) && path == PathAt(b, d, j, s, c, max)
    requires forall i :: 0 <= i < |path| ==> InHeap(b, path[i])
    ensures Listing(b, DiskAt(b, d, j, s), c, max) == ListingAt(b, d, j, s, c, max)
    decreases max
  {
    hide Lba, Geometry, Sectors, Cluster, BitmapAt, PlanOf, Next, Before, Done, Consistent, Taken, ParseFrom, DiskAt,
      ClusterAt, WithEntry, RootEnd, Planned, StageOk, InHeap;
    var e := DiskAt(b, d, j, s);
    StageIsMoment(b, d, j, s);
    if IsCluster(c) && Readable(b, d, c) {
      assert path[0] == c && InHeap(b, c);
      ClusterThen(b, d, j, s, c);
      NextKept(b, d, j, e, c);
      var files := ParseFrom(ClusterAt(b, d, j, s, c), 0, max);
      if files != [] {
        var rest := PathAt(b, d, j, s, Next(b, d, c), max - |files|);
        assert path == [c] + rest && path[1..] == rest;
        ListingOnPath(b, d, j, s, Next(b, d, c), max - |files|, rest);
      }
    }
  }

  /** What a directory lists at any stage of a write, even if its chain runs on into the very clusters
      being written, as on a volume without a FAT it may: the new file's bytes are then parsed as
      directory entries. */
  lemma ListingThen(b: Boot, d: Disk, j: Job, s: Stage, c: u32, max: nat)
    requires Planned(b, d, j) && StageOk(b, d, j, s)
    requires forall i {:trigger PathAt(b, d, j, s, c, max)[i]} :: 0 <= i < |PathAt(b, d, j, s, c, max)| ==>
      InHeap(b, PathAt(b, d, j, s, c, max)[i])
    ensures Listing(b, DiskAt(b, d, j, s), c, max) == ListingAt(b, d, j, s, c, max)
  {
    hide Listing, ListingAt, PathAt, DiskAt, Planned, StageOk, InHeap;
    ListingOnPath(b, d, j, s, c, max, PathAt(b, d, j, s, c, max));
  }

  // ---------- looking a name up ----------

  /** The first record of that name; |files| when there is none. */
  function FirstNamed(files: seq<FileInfo>, name: seq<u8>): (i: nat)
    ensures i <= |files|
  {
    if files == [] || CStr(files[0].name) == CStr(name) then 0 else 1 + FirstNamed(files[1..], name)
  }

  lemma {:induction false} FirstNamedIs(files: seq<FileInfo>, name: seq<u8>)
    ensures FirstNamed(files, name) < |files| ==> CStr(files[FirstNamed(files, name)].name) == CStr(name)
    ensures forall k :: 0 <= k < FirstNamed(files, name) ==> CStr(files[k].name) != CStr(name)
  {
    hide CStr;
    if files != [] { FirstNamedIs(files[1..], name); }
  }

  function Named(files: seq<FileInfo>, name: seq<u8>): (r: Option<FileInfo>) {
    var i := FirstNamed(files, name);
    if i < |files| then Some(files[i]) else None
  }

  /** What exfat_find delivers in the root directory when no read fails. */
  function Found(b: Boot, d: Disk, name: seq<u8>): (r: Option<FileInfo>)
    requires BootOk(b)
  {
    Named(Listing(b, d, b.root, 64), name)
  }

  lemma {:induction false} FirstOfPrefix(front: seq<FileInfo>, back: seq<FileInfo>, name: seq<u8>)
    ensures FirstNamed(front, name) < |front| ==> FirstNamed(front + back, name) == FirstNamed(front, name)
    ensures FirstNamed(front, name) == |front| ==> FirstNamed(front + back, name) == |front| + FirstNamed(back, name)
  {
    hide CStr;
    if front == [] {
      assert front + back == back;
    } else {
      FirstOfPrefix(front[1..], back, name);
      assert (front + back)[1..] == front[1..] + back;
    }
  }

  /** After a write whose name survives in the directory, looking the name up gives the new file
      exactly when the directory cluster held fewer than 64 files, none of that name; and then
      reading what the record says gives the bytes that were written. */
  lemma WriteThenFind(b: Boot, d: Disk, j: Job, e: Disk)
    requires Planned(b, d, j) && Done(b, d, j, e)
    requires RoomForName(Cluster(b, d, b.root), RootEnd(b, d), j.name)
    ensures var before := ParseFrom(Cluster(b, d, b.root), 0, 64);
      && |e| == |d|
      && ((FirstNamed(Listing(b, e, b.root, 64), j.name) == |before| && |before| < |Listing(b, e, b.root, 64)|)
          <==> (|before| < 64 && FirstNamed(before, j.name) == |before|))
      && (|before| < 64 && FirstNamed(before, j.name) == |before| ==>
            && Found(b, e, j.name) == Some(NewRecord(b, d, j))
            && FileBytes(b, e, NewRecord(b, d, j).firstCluster, NewRecord(b, d, j).dataLen) == Some(j.data))
  {
    hide Lba, Geometry, Sectors, BitmapAt, PlanOf, WithEntry, Used, Consistent, RootStage, Marked, ParseFrom,
      FirstNamed, Next;
    NameSurvives(Cluster(b, d, b.root), RootEnd(b, d), j.name);
    DataReadsBack(b, d, j, e);
    RootListsNewFile(b, d, j, e, 64);
    var before, rec := ParseFrom(Cluster(b, d, b.root), 0, 64), NewRecord(b, d, j);
    var now := ParseFrom(Cluster(b, e, b.root), 0, 64);
    var rest := if now == [] then [] else Listing(b, e, Next(b, e, b.root), 64 - |now|);
    assert IsCluster(b.root) by { ThreePlaces(b, d, j); }
    assert Listing(b, e, b.root, 64) == now + rest;
    FirstOfPrefix(before, [rec], j.name);
    FirstOfPrefix(now, rest, j.name);
    OneRecord(rec, j.name);
    if |before| == 64 { assert rest == []; }
  }

  lemma OneRecord(rec: FileInfo, name: seq<u8>)
    ensures FirstNamed([rec], name) == if CStr(rec.name) == CStr(name) then 0 else 1
  {
  }

  // ---------- runs of writes ----------

  /** The bitmap entry is found again behind a directory that grew at its end. */
  lemma {:induction false} BitmapStays(cb: seq<u8>, cb2: seq<u8>, o: nat)
    requires Whole(cb) && |cb2| == |cb| && o % 32 == 0 && o <= EndOfDir(cb, 0)
    requires EndOfDir(cb, o) == EndOfDir(cb, 0)
    requires forall k :: 0 <= k < EndOfDir(cb, 0) ==> cb2[k] == cb[k]
    requires BitmapAt(cb, o) != 0
    ensures BitmapAt(cb2, o) == BitmapAt(cb, o)
    decreases |cb| - o
  {
    hide Le;
    if o < |cb| && cb[o] == BITMAP {
      assert cb2[o + 20..o + 24] == cb[o + 20..o + 24];
    } else if o < |cb| && cb[o] != EOD {
      BitmapStays(cb, cb2, o + 32);
    }
  }

  /** A completed write leaves a consistent volume. */
  lemma StaysConsistent(b: Boot, d: Disk, j: Job, e: Disk)
    requires Planned(b, d, j) && Done(b, d, j, e)
    ensures Consistent(b, e) && BitmapAt(Cluster(b, e, b.root), 0) == j.bitmap
  {
    hide Lba, Sectors, WithEntry, Used, RootStage, Marked, Cluster, Geometry;
    ThreePlaces(b, d, j);
    AfterDone(b, d, j, e);
    FieldsReadBack(Cluster(b, d, b.root), RootEnd(b, d), j.name, |j.data|, j.free);
    BitmapStays(Cluster(b, d, b.root), Cluster(b, e, b.root), 0);
    if b.root < b.clusterCount { OneMoreUsed(b, d, j, e, b.root); }
    if j.bitmap < b.clusterCount { OneMoreUsed(b, d, j, e, j.bitmap); }
  }

  datatype Contents = Contents(name: seq<u8>, data: seq<u8>)

  /** exfat_write_file called for one file after the other, no sector access failing: the disk in
      the end and the cluster each file got; None when one of the calls returns an error. */
  function WriteAll(b: Boot, d: Disk, files: seq<Contents>): (r: Option<(Disk, seq<u32>)>)
    requires Fit(b, d)
    requires forall i :: 0 <= i < |files| ==> |files[i].name| <= 255 && 0 !in files[i].name
    ensures r.Some? ==> |r.value.0| == |d| && |r.value.1| == |files|
    decreases |files|
  {
    if files == [] then Some((d, []))
    else
      var p := PlanOf(b, d, files[0].name, |files[0].data|);
      if p.Refuse? then None
      else
        PlanMakesJob(b, d, files[0].name, files[0].data);
        var j := JobOf(p, files[0].name, files[0].data);
        if RootEnd(b, d) + 96 > Bpc(b) then None
        else
          match WriteAll(b, RootStage(b, d, j), files[1..])
          case None => None
          case Some(r) => Some((r.0, [p.free] + r.1))
  }

  lemma StaysOwned(b: Boot, d: Disk, j: Job, e: Disk, c: u32, size: nat)
    requires Planned(b, d, j) && Done(b, d, j, e) && Owned(b, d, j.bitmap, c, size)
    ensures |e| == |d| && Owned(b, e, j.bitmap, c, size)
  {
    hide Lba, Sectors, WithEntry, Used, RootStage, Marked, Cluster, Geometry, PlanOf, Consistent, BitmapAt, ReadPath;
    FilesKept(b, d, j, e, c, size);
    AfterDone(b, d, j, e);
    var path := ReadPath(b, d, c, size);
    forall i | 0 <= i < |path| && path[i] < b.clusterCount ensures Used(Cluster(b, e, j.bitmap), path[i]) {
      assert InUse(b, d, j.bitmap, path[i]);
      OneMoreUsed(b, d, j, e, path[i]);
    }
    assert ReadPath(b, e, c, size) == path;
  }

  lemma NewFileIsOwned(b: Boot, d: Disk, j: Job, e: Disk)
    requires Planned(b, d, j) && Done(b, d, j, e)
    ensures |e| == |d| && Owned(b, e, j.bitmap, j.free, |j.data|)
  {
    hide Lba, Sectors, WithEntry, Used, RootStage, Marked, Cluster, Geometry, PlanOf, Consistent, BitmapAt, ReadPath;
    ThreePlaces(b, d, j);
    AfterDone(b, d, j, e);
    DataReadsBack(b, d, j, e);
    OneMoreUsed(b, d, j, e, j.free);
  }

  /** A file that was there before a run of writes reads the same after it. */
  lemma {:induction false} RunKeepsFile(b: Boot, d: Disk, files: seq<Contents>, c: u32, size: nat)
    requires Consistent(b, d) && Owned(b, d, BitmapAt(Cluster(b, d, b.root), 0), c, size)
    requires forall i :: 0 <= i < |files| ==> |files[i].name| <= 255 && 0 !in files[i].name
    requires WriteAll(b, d, files).Some?
    ensures FileBytes(b, WriteAll(b, d, files).value.0, c, size) == FileBytes(b, d, c, size)
    ensures Consistent(b, WriteAll(b, d, files).value.0)
    decreases |files|
  {
    hide Lba, Sectors, WithEntry, Used, RootStage, Marked, Cluster, Geometry, FileBytes, ReadPath, Owned, BitmapAt;
    if files != [] {
      var p := PlanOf(b, d, files[0].name, |files[0].data|);
      PlanMakesJob(b, d, files[0].name, files[0].data);
      var j := JobOf(p, files[0].name, files[0].data);
      var e := RootStage(b, d, j);
      FilesKept(b, d, j, e, c, size);
      StaysConsistent(b, d, j, e);
      StaysOwned(b, d, j, e, c, size);
      RunKeepsFile(b, e, files[1..], c, size);
    }
  }

  /** After a run of writes on a consistent volume every file written reads back as written. */
  lemma {:induction false} RunReadsBack(b: Boot, d: Disk, files: seq<Contents>, i: nat)
    requires Consistent(b, d) && i < |files|
    requires forall k :: 0 <= k < |files| ==> |files[k].name| <= 255 && 0 !in files[k].name
    requires WriteAll(b, d, files).Some?
    ensures var (e, clusters) := WriteAll(b, d, files).value;
      FileBytes(b, e, clusters[i], |files[i].data|) == Some(files[i].data)
    decreases |files|
  {
    hide Lba, Sectors, WithEntry, Used, RootStage, Marked, Cluster, Geometry, FileBytes, ReadPath, Owned, BitmapAt;
    var p := PlanOf(b, d, files[0].name, |files[0].data|);
    PlanMakesJob(b, d, files[0].name, files[0].data);
    var j := JobOf(p, files[0].name, files[0].data);
    var e := RootStage(b, d, j);
    StaysConsistent(b, d, j, e);
    if i == 0 {
      DataReadsBack(b, d, j, e);
      NewFileIsOwned(b, d, j, e);
      RunKeepsFile(b, e, files[1..], j.free, |j.data|);
    } else {
      RunReadsBack(b, e, files[1..], i - 1);
    }
  }

  function Registrations(files: seq<Contents>, clusters: seq<u32>): (regs: seq<Registered>)
    requires |files| == |clusters| && forall k :: 0 <= k < |files| ==> |files[k].data| < 0x1_0000_0000_0000_0000
    ensures |regs| == |files|
  {
    seq(|files|, k requires 0 <= k < |files| => Registered(files[k].name, |files[k].data|, clusters[k]))
  }

  predicate Storeable(files: seq<Contents>) {
    forall k :: 0 <= k < |files| ==>
      1 <= |files[k].name| <= 15 && 0 !in files[k].name && |files[k].data| < 0x1_0000_0000_0000_0000
  }

  /** The directory cluster after a run is the one the entry sets were added to one by one. */
  lemma {:induction false} RunDirectory(b: Boot, d: Disk, files: seq<Contents>)
    requires Consistent(b, d) && Storeable(files) && WriteAll(b, d, files).Some?
    ensures var (e, clusters) := WriteAll(b, d, files).value;
      Cluster(b, e, b.root) == AfterWrites(Cluster(b, d, b.root), Registrations(files, clusters))
    decreases |files|
  {
    hide Lba, Sectors, WithEntry, Used, RootStage, Marked, Cluster, Geometry, EndOfDir, BitmapAt;
    if files != [] {
      var p := PlanOf(b, d, files[0].name, |files[0].data|);
      PlanMakesJob(b, d, files[0].name, files[0].data);
      var j := JobOf(p, files[0].name, files[0].data);
      var e := RootStage(b, d, j);
      StaysConsistent(b, d, j, e);
      AfterDone(b, d, j, e);
      RunDirectory(b, e, files[1..]);
      var clusters := WriteAll(b, d, files).value.1;
      assert clusters[1..] == WriteAll(b, e, files[1..]).value.1;
      assert Registrations(files, clusters)[1..] == Registrations(files[1..], clusters[1..]);
    }
  }

  /** On a volume whose directory cluster is blank behind its end, a run of writes is listed file
      by file behind what was there, each with its name, its length and the cluster it reads back from. */
  lemma RunIsListed(b: Boot, d: Disk, files: seq<Contents>, max: nat)
    requires Consistent(b, d) && Storeable(files) && WriteAll(b, d, files).Some?
    requires BlankFrom(Cluster(b, d, b.root), RootEnd(b, d)) && RootEnd(b, d) + 96 * |files| <= Bpc(b)
    requires |ParseFrom(Cluster(b, d, b.root), 0, max)| + |files| <= max
    ensures var (e, clusters) := WriteAll(b, d, files).value;
      ParseFrom(Cluster(b, e, b.root), 0, max)
      == ParseFrom(Cluster(b, d, b.root), 0, max) + Records(Registrations(files, clusters))
  {
    hide Lba, Sectors, WithEntry, Used, RootStage, Marked, Cluster, Geometry, EndOfDir, BitmapAt, ParseFrom, WriteAll,
      AfterWrites;
    RunDirectory(b, d, files);
    WritesAreListed(Cluster(b, d, b.root), Registrations(files, WriteAll(b, d, files).value.1), max);
  }

  // ---------- such volumes exist ----------

  /** Ten clusters of one sector, without a FAT: cluster 2 the directory, cluster 3 the bitmap. */
  const SMALL := Boot(0, 0, 0, 0, 10, 2, 1)

  /** The bitmap's entry in the directory, and clusters 2 and 3 marked in the bitmap. */
  function SmallDisk(): (d: Disk) {
    seq(5120, k => if k == 0 then BITMAP else if k == 20 then 3 else if k == 512 then 12 else 0)
  }

  /** A file of one byte, to go into cluster 4. */
  const SMALL_JOB := Job(3, 4, [1], [65])

  lemma SmallClusters()
    ensures Lba(SMALL, 2) == 0 && Lba(SMALL, 3) == 1 && Lba(SMALL, 4) == 2 && Fit(SMALL, SmallDisk())
  {
    assert Sectors(1, 0) == 0;
    assert Sectors(1, 1) == 1;
    assert Sectors(1, 2) == 2;
    assert forall k: nat {:induction k} :: Sectors(1, k) == k;
  }

  lemma SmallRoot()
    ensures Readable(SMALL, SmallDisk(), 2) && Readable(SMALL, SmallDisk(), 3) && Readable(SMALL, SmallDisk(), 4)
    ensures var cb := Cluster(SMALL, SmallDisk(), 2);
      && cb[0] == BITMAP && cb[32] == EOD && cb[20..24] == [3, 0, 0, 0] && cb[98] == cb[100] == cb[101] == 0
    ensures Cluster(SMALL, SmallDisk(), 3)[0] == 12
  {
    SmallClusters();
    var cb := Cluster(SMALL, SmallDisk(), 2);
    assert forall k :: 0 <= k < 512 ==> cb[k] == SmallDisk()[k];
    assert cb[20..24] == [cb[20], cb[21], cb[22], cb[23]];
  }

  lemma SmallPlan()
    ensures Fit(SMALL, SmallDisk()) && Readable(SMALL, SmallDisk(), 2) && Readable(SMALL, SmallDisk(), 3)
    ensures BitmapAt(Cluster(SMALL, SmallDisk(), 2), 0) == 3 && RootEnd(SMALL, SmallDisk()) == 32
    ensures var bm := Cluster(SMALL, SmallDisk(), 3);
      Used(bm, 2) && Used(bm, 3) && !Used(bm, 4) && FirstFree(bm, 2, 10) == 4
  {
    hide Lba, Cluster, Geometry, Sectors;
    SmallClusters();
    SmallRoot();
    var cb, bm := Cluster(SMALL, SmallDisk(), 2), Cluster(SMALL, SmallDisk(), 3);
    assert Bytes(3, 4) == [3, 0, 0, 0];
    Le32Reads(cb, 20, 3);
    assert EndOfDir(cb, 0) == EndOfDir(cb, 32) == 32;
    assert Bit(12, 2) && Bit(12, 3) && !Bit(12, 4);
    assert FirstFree(bm, 4, 10) == 4;
    assert FirstFree(bm, 3, 10) == 4;
  }

  /** On this volume the file can be written, its name survives, and the finished disk is one to which
      the results above apply. */
  lemma SmallVolume()
    ensures Planned(SMALL, SmallDisk(), SMALL_JOB) && StageOk(SMALL, SmallDisk(), SMALL_JOB, Entry)
    ensures Done(SMALL, SmallDisk(), SMALL_JOB, DiskAt(SMALL, SmallDisk(), SMALL_JOB, Entry))
    ensures RoomForName(Cluster(SMALL, SmallDisk(), 2), RootEnd(SMALL, SmallDisk()), SMALL_JOB.name)
  {
    hide Lba, Cluster, Geometry, Sectors, BitmapAt, EndOfDir, FirstFree, RootStage;
    SmallClusters();
    SmallRoot();
    SmallPlan();
  }
}
