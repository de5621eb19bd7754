/**
 One byte layout from two sides: the script that builds the boot volume image around a kernel,
 and the loader's search for the kernel in such an image. The loader's arithmetic is that of
 64-bit words that wrap around.
 */
module BootImage {
  import opened Bits
  import opened Words

  const CLUSTER := 512
  const FAT_OFF := 8
  const FAT_LEN := 8
  const HEAP := 16
  const PART_LBA := 128
  const USIZE_MOD := 0x1_0000_0000_0000_0000

  const KERNEL_BIN: seq<u8> := [0x4B, 0x45, 0x52, 0x4E, 0x45, 0x4C, 0x2E, 0x42, 0x49, 0x4E]
  const HELLO_TXT: seq<u8> := [0x48, 0x45, 0x4C, 0x4C, 0x4F, 0x2E, 0x54, 0x58, 0x54]
  const HELLO: seq<u8> := [0x48, 0x45, 0x4C, 0x4C, 0x4F, 0x20, 0x46, 0x52,
                           0x4F, 0x4D, 0x20, 0x45, 0x58, 0x46, 0x41, 0x54]

  function Zeros(n: nat): (z: seq<u8>)
    ensures |z| == n
  {
    seq(n, _ => 0)
  }

  // ---------- the image builder ----------

  function FileSetByte(i: nat, dataLen: u64, alloc: u64, first: u32, was: u8): u8 {
    if i == 0 then 0x81
    else if 16 <= i < 24 then Bytes(dataLen, 8)[i - 16]
    else if 24 <= i < 32 then Bytes(alloc, 8)[i - 24]
    else if i == 32 then 0x85
    else if 40 <= i < 48 then Bytes(dataLen, 8)[i - 40]
    else if 48 <= i < 52 then Bytes(first, 4)[i - 48]
    else if 56 <= i < 64 then Bytes(dataLen, 8)[i - 56]
    else was
  }

  /** file_entry: a file entry and the stream entry behind it. */
  method FileEntry(buf: array<u8>, off: nat, dataLen: u64, alloc: u64, first: u32) returns (next: nat)
    requires off + 64 <= buf.Length
    modifies buf
    ensures next == off + 32
    ensures forall k :: 0 <= k < buf.Length ==>
      buf[k] == (if off <= k < off + 64 then FileSetByte(k - off, dataLen, alloc, first, old(buf[k])) else old(buf[k]))
  {
    hide Bytes;
    buf[off] := 0x81;
    Copy(buf, off + 16, Bytes(dataLen, 8));
    Copy(buf, off + 24, Bytes(alloc, 8));
    var s := off + 32;
    buf[s] := 0x85;
    Copy(buf, s + 8, Bytes(dataLen, 8));
    Copy(buf, s + 16, Bytes(first, 4));
    Copy(buf, s + 24, Bytes(dataLen, 8));
    return off + 32;
  }

  /** The tag keeps six bits of the length, the byte behind it all eight. */
  function NameByte(i: nat, name: seq<u8>, was: u8): u8
    requires |name| < 256
  {
    if i == 0 then 0xC0 + |name| % 64
    else if i == 1 then |name|
    else if 2 <= i < 32 && (i - 2) / 2 < |name| then (if i % 2 == 0 then name[(i - 2) / 2] else 0)
    else was
  }

  /** name_entry: at most 15 characters are stored. */
  method NameEntry(buf: array<u8>, off: nat, name: seq<u8>) returns (next: nat)
    requires off + 32 <= buf.Length && |name| < 256
    modifies buf
    ensures next == off + 32
    ensures forall k :: 0 <= k < buf.Length ==>
      buf[k] == (if off <= k < off + 32 then NameByte(k - off, name, old(buf[k])) else old(buf[k]))
  {
    buf[off] := 0xC0 + |name| % 64;
    buf[off + 1] := |name|;
    var i := 0;
    while i < 15 && i < |name|
      invariant 0 <= i <= 15 && i <= |name|
      invariant forall k :: 0 <= k < buf.Length ==>
        buf[k] == (if off <= k < off + 2 + 2 * i then NameByte(k - off, name, old(buf[k])) else old(buf[k]))
    {
      buf[off + 2 + 2 * i] := name[i];
      buf[off + 2 + 2 * i + 1] := 0;
      i := i + 1;
    }
    return off + 32;
  }

  function Blocks(n: nat): nat {
    (n + CLUSTER - 1) / CLUSTER
  }

  predicate BpbOk(b: seq<u8>, volSectors: u64, clusterCount: u32) {
    && |b| == 512 && Le64(b, 0x40) == PART_LBA && Le64(b, 0x48) == volSectors
    && Le32(b, 0x50) == FAT_OFF && Le32(b, 0x54) == FAT_LEN && Le32(b, 0x58) == HEAP
    && Le32(b, 0x5C) == clusterCount && Le32(b, 0x60) == 2 && b[0x72] == 0 && BpbFixed(b)
  }

  /** What is the same on every volume: jump, signature, serial number, one FAT, label; all else is zero. */
  predicate BpbFixed(b: seq<u8>)
    requires |b| == 512
  {
    && b[..3] == [0xEB, 0x76, 0x90] && b[3..11] == [0x45, 0x58, 0x46, 0x41, 0x54, 0x20, 0x20, 0x20]
    && Le64(b, 0x64) == 0x1234_5678 && b[0x73] == 1 && b[0xA2] == 1
    && b[0x88..0x94] == [0x57, 0, 0x49, 0, 0x4E, 0, 0x44, 0, 0x4F, 0, 0x58, 0]
    && forall k :: 11 <= k < 512 && !(0x40 <= k < 0x6C || k == 0x73 || 0x88 <= k < 0x94 || k == 0xA2) ==> b[k] == 0
  }

  const JUMP: seq<u8> := [0xEB, 0x76, 0x90]
  const SIGNATURE: seq<u8> := [0x45, 0x58, 0x46, 0x41, 0x54, 0x20, 0x20, 0x20]
  const LABEL: seq<u8> := [0x57, 0, 0x49, 0, 0x4E, 0, 0x44, 0, 0x4F, 0, 0x58, 0]

  lemma FixedLies(b: seq<u8>)
    requires |b| == 512 && (forall k :: 0 <= k < |JUMP| ==> b[k] == JUMP[k])
    requires forall k :: 0 <= k < |SIGNATURE| ==> b[3 + k] == SIGNATURE[k]
    requires forall k :: 0 <= k < |LABEL| ==> b[0x88 + k] == LABEL[k]
    requires forall k :: 0 <= k < 8 ==> b[0x64 + k] == Bytes(0x1234_5678, 8)[k]
    requires b[0x73] == 1 && b[0xA2] == 1
    requires forall k :: 11 <= k < 512 && !(0x40 <= k < 0x6C || k == 0x73 || 0x88 <= k < 0x94 || k == 0xA2) ==>
      b[k] == 0
    ensures BpbFixed(b)
  {
    hide Bytes, Le;
    SliceIs(b, 0, JUMP);
    SliceIs(b, 3, SIGNATURE);
    SliceIs(b, 0x88, LABEL);
    SliceIs(b, 0x64, Bytes(0x1234_5678, 8));
    Le64Reads(b, 0x64, 0x1234_5678);
  }

  method MakeBpb(volSectors: u64, clusterCount: u32) returns (bpb: seq<u8>)
    ensures BpbOk(bpb, volSectors, clusterCount)
  {
    hide Bytes, Le, BpbFixed, Fields;
    var b := new u8[512](i => 0);
    Copy(b, 0, JUMP);
    Copy(b, 3, SIGNATURE);
    PackFields(b, volSectors, clusterCount);
    Copy(b, 0x64, Bytes(0x12345678, 8));
    b[0x72] := 0;
    b[0x73] := 1;
    Copy(b, 0x88, LABEL);
    b[0xA2] := 1;
    bpb := b[..];
    FixedLies(bpb);
    FieldsRead(bpb, volSectors, clusterCount);
  }

  /** The seven fields, one behind the other from 0x40 on. */
  function Fields(volSectors: u64, clusterCount: u32): (f: seq<u8>)
    ensures |f| == 36
  {
    Bytes(PART_LBA, 8) + (Bytes(volSectors, 8) + (Bytes(FAT_OFF, 4) + (Bytes(FAT_LEN, 4)
      + (Bytes(HEAP, 4) + (Bytes(clusterCount, 4) + Bytes(2, 4))))))
  }

  lemma Front(b: seq<u8>, at: nat, x: seq<u8>, rest: seq<u8>)
    requires at + |x| + |rest| <= |b| && b[at..at + |x| + |rest|] == x + rest
    ensures b[at..at + |x|] == x && b[at + |x|..at + |x| + |rest|] == rest
  {
    var f := b[at..at + |x| + |rest|];
    assert b[at..at + |x|] == f[..|x|] && b[at + |x|..at + |x| + |rest|] == f[|x|..];
  }

  lemma Behind(b: seq<u8>, at: nat, x: seq<u8>, rest: seq<u8>)
    requires at + |x| + |rest| <= |b| && b[at..at + |x|] == x && b[at + |x|..at + |x| + |rest|] == rest
    ensures b[at..at + |x| + |rest|] == x + rest
  {
    assert b[at..at + |x| + |rest|] == b[at..at + |x|] + b[at + |x|..at + |x| + |rest|];
  }

  lemma FieldsRead(b: seq<u8>, volSectors: u64, clusterCount: u32)
    requires |b| == 512 && b[0x72] == 0 && b[0x40..0x64] == Fields(volSectors, clusterCount) && BpbFixed(b)
    ensures BpbOk(b, volSectors, clusterCount)
  {
    hide Le, BpbFixed;
    var f6 := Bytes(clusterCount, 4) + Bytes(2, 4);
    var f5 := Bytes(HEAP, 4) + f6;
    var f4 := Bytes(FAT_LEN, 4) + f5;
    var f3 := Bytes(FAT_OFF, 4) + f4;
    var f2 := Bytes(volSectors, 8) + f3;
    Front(b, 0x40, Bytes(PART_LBA, 8), f2);
    Front(b, 0x48, Bytes(volSectors, 8), f3);
    Front(b, 0x50, Bytes(FAT_OFF, 4), f4);
    Front(b, 0x54, Bytes(FAT_LEN, 4), f5);
    Front(b, 0x58, Bytes(HEAP, 4), f6);
    Front(b, 0x5C, Bytes(clusterCount, 4), Bytes(2, 4));
    Le64Reads(b, 0x40, PART_LBA);
    Le64Reads(b, 0x48, volSectors);
    Le32Reads(b, 0x50, FAT_OFF);
    Le32Reads(b, 0x54, FAT_LEN);
    Le32Reads(b, 0x58, HEAP);
    Le32Reads(b, 0x5C, clusterCount);
    Le32Reads(b, 0x60, 2);
  }

  method PackFields(b: array<u8>, volSectors: u64, clusterCount: u32)
    requires b.Length == 512
    modifies b
    ensures b[0x40..0x64] == Fields(volSectors, clusterCount)
    ensures forall k :: 0 <= k < 512 && !(0x40 <= k < 0x64) ==> b[k] == old(b[k])
  {
    hide Bytes, Le;
    Copy(b, 0x40, Bytes(PART_LBA, 8));
    Copy(b, 0x48, Bytes(volSectors, 8));
    Copy(b, 0x50, Bytes(FAT_OFF, 4));
    Copy(b, 0x54, Bytes(FAT_LEN, 4));
    Copy(b, 0x58, Bytes(HEAP, 4));
    Copy(b, 0x5C, Bytes(clusterCount, 4));
    Copy(b, 0x60, Bytes(2, 4));
    FieldsLieSo(b[..], volSectors, clusterCount);
    assert b[0x40..0x64] == b[..][0x40..0x64];
  }

  lemma FieldsLieSo(b: seq<u8>, volSectors: u64, clusterCount: u32)
    requires |b| == 512 && b[0x40..0x48] == Bytes(PART_LBA, 8) && b[0x48..0x50] == Bytes(volSectors, 8)
    requires b[0x50..0x54] == Bytes(FAT_OFF, 4) && b[0x54..0x58] == Bytes(FAT_LEN, 4) && b[0x58..0x5C] == Bytes(HEAP, 4)
    requires b[0x5C..0x60] == Bytes(clusterCount, 4) && b[0x60..0x64] == Bytes(2, 4)
    ensures b[0x40..0x64] == Fields(volSectors, clusterCount)
  {
    var f6 := Bytes(clusterCount, 4) + Bytes(2, 4);
    var f5 := Bytes(HEAP, 4) + f6;
    var f4 := Bytes(FAT_LEN, 4) + f5;
    var f3 := Bytes(FAT_OFF, 4) + f4;
    var f2 := Bytes(volSectors, 8) + f3;
    Behind(b, 0x5C, Bytes(clusterCount, 4), Bytes(2, 4));
    Behind(b, 0x58, Bytes(HEAP, 4), f6);
    Behind(b, 0x54, Bytes(FAT_LEN, 4), f5);
    Behind(b, 0x50, Bytes(FAT_OFF, 4), f4);
    Behind(b, 0x48, Bytes(volSectors, 8), f3);
    Behind(b, 0x40, Bytes(PART_LBA, 8), f2);
  }

  /** The region at the FAT's place holds a bitmap with the first `count` bits set. */
  predicate FatOk(fat: seq<u8>, count: nat) {
    |fat| == FAT_LEN * 512 && forall c :: 0 <= c < 8 * |fat| ==> (Bit(fat[c / 8], c % 8) <==> c < count)
  }

  /** None when a bit falls outside the region. */
  method MakeFat(count: nat) returns (fat: Option<seq<u8>>)
    ensures fat.None? <==> count > 32768
    ensures fat.Some? ==> FatOk(fat.value, count)
  {
    var f := new u8[FAT_LEN * 512](i => 0);
    forall c | 0 <= c < 32768 ensures !Bit(f[c / 8], c % 8) { NoBits(c % 8); }
    var c := 0;
    while c < count
      invariant 0 <= c <= count && c <= 32768
      invariant forall k :: 0 <= k < 32768 ==> (Bit(f[k / 8], k % 8) <==> k < c)
    {
      if c / 8 >= f.Length { return None; }
      ghost var was := f[..];
      f[c / 8] := PutBit(f[c / 8], c % 8, true);
      forall k | 0 <= k < 32768 ensures Bit(f[k / 8], k % 8) <==> k <= c {
        assert 0 <= k % 8 < 8;
        if k / 8 == c / 8 { assert k == c <==> k % 8 == c % 8; }
        assert Bit(was[k / 8], k % 8) <==> k < c;
      }
      c := c + 1;
    }
    return Some(f[..]);
  }

  // ---------- the loader ----------

  datatype Found = Panic | Missing | At(offset: nat, length: u64)

  /** The bytes of the name as the loader compares them. */
  const WANTED: seq<u8> := [0x4B, 0, 0x45, 0, 0x52, 0, 0x4E, 0, 0x45, 0, 0x4C, 0, 0x2E, 0, 0x42, 0, 0x49, 0, 0x4E, 0]

  /** A file entry, a stream entry and a name entry for KERNEL.BIN. */
  predicate IsKern(b: seq<u8>, off: nat)
    requires off + 96 <= |b|
  {
    && b[off] / 0x80 == 1 && b[off] % 0x80 == 1 && b[off + 32] % 0x80 == 5
    && b[off + 64] / 0x40 == 3 && b[off + 65] == 10 && b[off + 66..off + 86] == WANTED
  }

  predicate RootOk(root: seq<u8>, length: u64) {
    && |root| == CLUSTER && Describes(root, 0, 16, 512, 3, HELLO_TXT)
    && Describes(root, 0x60, length, length, 4, KERNEL_BIN)
    && (forall k :: 0 <= k < CLUSTER && !Put(k, 9) && !Put(k - 0x60, 10) ==> root[k] == 0)
    && root[0] != 0 && root[0x20] != 0 && root[0x40] != 0
    && !IsKern(root, 0) && !IsKern(root, 0x20) && !IsKern(root, 0x40)
    && root[0x60] != 0 && IsKern(root, 0x60) && Le32(root, 0x60 + 48) == 4 && Le64(root, 0x60 + 56) == length
  }

  /** What the entries of one file say. */
  predicate Describes(b: seq<u8>, off: nat, length: u64, alloc: u64, first: u32, name: seq<u8>)
    requires off + 96 <= |b| && |name| <= 15
  {
    && b[off] == 0x81 && Le64(b, off + 16) == length && Le64(b, off + 24) == alloc
    && b[off + 32] == 0x85 && Le64(b, off + 40) == length && Le32(b, off + 48) == first && Le64(b, off + 56) == length
    && b[off + 64] == 0xC0 + |name| && b[off + 65] == |name|
    && forall i :: 0 <= i < |name| ==> b[off + 66 + 2 * i] == name[i] && b[off + 67 + 2 * i] == 0
  }

  /** The bytes of these entries that are stored, for a name of n characters; k counts from the first entry. */
  predicate Put(k: int, n: nat) {
    k == 0 || 16 <= k < 33 || 40 <= k < 52 || 56 <= k < 66 + 2 * n
  }

  /** The fields of a file and its stream entry read back. */
  lemma FileSetStored(b: seq<u8>, e: seq<u8>, off: nat, length: u64, alloc: u64, first: u32)
    requires |e| == |b| && off + 64 <= |b|
    requires forall k :: off <= k < off + 64 ==> e[k] == FileSetByte(k - off, length, alloc, first, b[k])
    ensures e[off] == 0x81 && Le64(e, off + 16) == length && Le64(e, off + 24) == alloc
    ensures e[off + 32] == 0x85 && Le64(e, off + 40) == length && Le32(e, off + 48) == first
    ensures Le64(e, off + 56) == length
    ensures forall k :: off <= k < off + 64 && !Put(k - off, 0) ==> e[k] == b[k]
  {
    hide Bytes, Le;
    assert e[off + 16..off + 24] == Bytes(length, 8) && e[off + 24..off + 32] == Bytes(alloc, 8);
    assert e[off + 40..off + 48] == Bytes(length, 8) && e[off + 48..off + 52] == Bytes(first, 4);
    assert e[off + 56..off + 64] == Bytes(length, 8);
    Le64Reads(e, off + 16, length);
    Le64Reads(e, off + 24, alloc);
    Le64Reads(e, off + 40, length);
    Le32Reads(e, off + 48, first);
    Le64Reads(e, off + 56, length);
  }

  /** What is stored behind them leaves them alone. */
  lemma SetStays(b: seq<u8>, e: seq<u8>, off: nat)
    requires |e| == |b| && off + 64 <= |b| && forall k :: off <= k < off + 64 ==> e[k] == b[k]
    ensures Le64(e, off + 16) == Le64(b, off + 16) && Le64(e, off + 24) == Le64(b, off + 24)
    ensures Le64(e, off + 40) == Le64(b, off + 40) && Le32(e, off + 48) == Le32(b, off + 48)
    ensures Le64(e, off + 56) == Le64(b, off + 56) && e[off] == b[off] && e[off + 32] == b[off + 32]
  {
    hide Le;
    assert e[off + 16..off + 24] == b[off + 16..off + 24] && e[off + 24..off + 32] == b[off + 24..off + 32];
    assert e[off + 40..off + 48] == b[off + 40..off + 48] && e[off + 48..off + 52] == b[off + 48..off + 52];
    assert e[off + 56..off + 64] == b[off + 56..off + 64];
  }

  method PutFile(buf: array<u8>, off: nat, length: u64, alloc: u64, first: u32, name: seq<u8>)
    requires off + 96 <= buf.Length && |name| <= 15
    modifies buf
    ensures Describes(buf[..], off, length, alloc, first, name)
    ensures forall k :: 0 <= k < buf.Length && !Put(k - off, |name|) ==> buf[k] == old(buf[k])
  {
    hide Bytes, Le, FileSetByte;
    ghost var before := buf[..];
    var at := FileEntry(buf, off, length, alloc, first);
    FileSetStored(before, buf[..], off, length, alloc, first);
    ghost var stored := buf[..];
    at := NameEntry(buf, at + 32, name);
    SetStays(stored, buf[..], off);
    forall i | 0 <= i < |name| ensures buf[off + 66 + 2 * i] == name[i] && buf[off + 67 + 2 * i] == 0 {
      assert (2 + 2 * i) % 2 == 0 && (2 + 2 * i - 2) / 2 == i && (3 + 2 * i) % 2 == 1;
    }
  }

  lemma KernelDescribed(b: seq<u8>, off: nat, length: u64, alloc: u64, first: u32)
    requires off + 96 <= |b| && Describes(b, off, length, alloc, first, KERNEL_BIN)
    ensures IsKern(b, off)
  {
    hide Le;
    forall i | 0 <= i < 20 ensures b[off + 66..off + 86][i] == WANTED[i] {
      assert b[off + 66 + 2 * (i / 2)] == KERNEL_BIN[i / 2] && b[off + 67 + 2 * (i / 2)] == 0;
    }
  }

  /** Entries in the first 96 bytes of a directory stay when the rest changes. */
  lemma FirstStays(was: seq<u8>, root: seq<u8>)
    requires |was| == |root| == CLUSTER && Describes(was, 0, 16, 512, 3, HELLO_TXT)
    requires forall k :: 0 <= k < 0x60 ==> root[k] == was[k]
    ensures Describes(root, 0, 16, 512, 3, HELLO_TXT)
  {
    hide Le;
    assert root[16..24] == was[16..24] && root[24..32] == was[24..32] && root[40..48] == was[40..48];
    assert root[48..52] == was[48..52] && root[56..64] == was[56..64];
  }

  method MakeRoot(length: u64) returns (root: seq<u8>)
    ensures RootOk(root, length)
  {
    hide Le32, Le64;
    var r := new u8[CLUSTER](i => 0);
    PutFile(r, 0x00, |HELLO|, CLUSTER, 3, HELLO_TXT);
    ghost var was := r[..];
    PutFile(r, 0x60, length, length, 4, KERNEL_BIN);
    root := r[..];
    KernelDescribed(root, 0x60, length, length, 4);
    FirstStays(was, root);
  }

  predicate MbrOk(m: seq<u8>, sectors: u32) {
    |m| == 512 && m[0x1FE] == 0x55 && m[0x1FF] == 0xAA && m[0x1C2] == 0x07
    && Le32(m, 0x1C6) == PART_LBA && Le32(m, 0x1CA) == sectors
    && forall k :: 0 <= k < 512 && k != 0x1C2 && !(0x1C6 <= k < 0x1CE) && k < 0x1FE ==> m[k] == 0
  }

  method MakeMbr(sectors: u32) returns (mbr: seq<u8>)
    ensures MbrOk(mbr, sectors)
  {
    hide Bytes, Le;
    var m := new u8[512](i => 0);
    m[0x1C2] := 0x07;
    Copy(m, 0x1C6, Bytes(PART_LBA, 4));
    Copy(m, 0x1CA, Bytes(sectors, 4));
    m[0x1FE] := 0x55;
    m[0x1FF] := 0xAA;
    mbr := m[..];
    SliceIs(mbr, 0x1C6, Bytes(PART_LBA, 4));
    SliceIs(mbr, 0x1CA, Bytes(sectors, 4));
    Le32Reads(mbr, 0x1C6, PART_LBA);
    Le32Reads(mbr, 0x1CA, sectors);
  }

  lemma SliceIs(s: seq<u8>, at: nat, part: seq<u8>)
    requires at + |part| <= |s| && forall k :: 0 <= k < |part| ==> s[at + k] == part[k]
    ensures s[at..at + |part|] == part
  {
  }

  const PART := PART_LBA * 512
  const ROOT := HEAP * 512
  const KERN := ROOT + 2 * CLUSTER

  /** The volume around a kernel: parameters, bitmap, directory, the greeting file and the kernel,
      filled up to the sectors it says it has, or less than a sector beyond. */
  predicate VolumeOk(v: seq<u8>, kern: seq<u8>) {
    var count := Blocks(|kern|) + 4;
    && count <= 32768 && |kern| < USIZE_MOD
    && |v| / 512 == HEAP + count && (|v| % 512 == 0 <==> |kern| % 512 == 0)
    && KERN + |kern| <= |v| && ROOT >= FAT_OFF * 512 + FAT_LEN * 512
    && BpbOk(v[..512], HEAP + count, count)
    && FatOk(v[FAT_OFF * 512..FAT_OFF * 512 + FAT_LEN * 512], count)
    && RootOk(v[ROOT..ROOT + CLUSTER], |kern|)
    && v[ROOT + CLUSTER..ROOT + CLUSTER + |HELLO|] == HELLO
    && v[KERN..KERN + |kern|] == kern
    && Blank(v, 512, FAT_OFF * 512) && Blank(v, ROOT + CLUSTER + |HELLO|, KERN) && Blank(v, KERN + |kern|, |v|)
  }

  predicate Blank(v: seq<u8>, from: nat, to: nat) {
    forall k :: from <= k < to && k < |v| ==> v[k] == 0
  }

  predicate LaidOut(img: seq<u8>, kern: seq<u8>) {
    && PART + KERN <= |img|
    && VolumeOk(img[PART..], kern) && MbrOk(img[..512], HEAP + Blocks(|kern|) + 4) && Blank(img, 512, PART)
  }

  lemma PieceOf(before: seq<u8>, piece: seq<u8>, rest: seq<u8>, v: seq<u8>)
    requires v == before + piece + rest
    ensures v[|before|..|before| + |piece|] == piece
    ensures forall i :: 0 <= i < |before| + |piece| ==> v[i] == (before + piece)[i]
  {
  }

  /** Seven pieces joined, each found at its place. */
  lemma SevenPieces(a: seq<u8>, b: seq<u8>, c: seq<u8>, d: seq<u8>, e: seq<u8>, f: seq<u8>, g: seq<u8>, v: seq<u8>)
    requires v == a + b + c + d + e + f + g
    ensures var n1, n2 := |a|, |a| + |b|;
      var n3 := n2 + |c|;
      var n4 := n3 + |d|;
      var n5 := n4 + |e|;
      var n6 := n5 + |f|;
      && n6 <= |v| && v[..n1] == a && v[n1..n2] == b && v[n2..n3] == c && v[n3..n4] == d
      && v[n4..n5] == e && v[n5..n6] == f && v[n6..] == g
  {
    var t2 := a + b;
    var t3 := t2 + c;
    var t4 := t3 + d;
    var t5 := t4 + e;
    PieceOf(t5, f, g, v);
    PieceOf(t4, e, f, t5 + f);
    PieceOf(t3, d, e, t5);
    PieceOf(t2, c, d, t4);
    PieceOf(a, b, c, t3);
  }

  lemma HelloThenZeros(v: seq<u8>, h: seq<u8>)
    requires KERN <= |v| && h == HELLO + Zeros(CLUSTER - |HELLO|) && v[ROOT + CLUSTER..KERN] == h
    ensures v[ROOT + CLUSTER..ROOT + CLUSTER + |HELLO|] == HELLO && Blank(v, ROOT + CLUSTER + |HELLO|, KERN)
  {
    forall k | 0 <= k < CLUSTER ensures v[ROOT + CLUSTER + k] == h[k] {
      assert v[ROOT + CLUSTER..KERN][k] == h[k];
    }
    SliceIs(v, ROOT + CLUSTER, HELLO);
  }

  lemma VolumeParts(bpb: seq<u8>, fat: seq<u8>, root: seq<u8>, kern: seq<u8>, pad: nat, v: seq<u8>)
    requires Blocks(|kern|) + 4 <= 32768 && |kern| < USIZE_MOD
    requires BpbOk(bpb, HEAP + Blocks(|kern|) + 4, Blocks(|kern|) + 4) && FatOk(fat, Blocks(|kern|) + 4)
    requires RootOk(root, |kern|)
    requires v == bpb + Zeros(FAT_OFF * 512 - 512) + fat + root + (HELLO + Zeros(CLUSTER - |HELLO|)) + kern + Zeros(pad)
    requires |v| / 512 == HEAP + Blocks(|kern|) + 4 && (|v| % 512 == 0 <==> |kern| % 512 == 0)
    ensures VolumeOk(v, kern)
  {
    hide BpbOk, FatOk, RootOk, Blocks;
    assert |bpb| == 512 && |fat| == 4096 && |root| == 512 by { Sizes(bpb, fat, root, kern); }
    var h := HELLO + Zeros(CLUSTER - |HELLO|);
    SevenPieces(bpb, Zeros(FAT_OFF * 512 - 512), fat, root, h, kern, Zeros(pad), v);
    HelloThenZeros(v, h);
    forall k | 512 <= k < FAT_OFF * 512 ensures v[k] == 0 { assert v[k] == v[512..FAT_OFF * 512][k - 512]; }
    forall k | KERN + |kern| <= k < |v| ensures v[k] == 0 {
      assert v[k] == v[KERN + |kern|..][k - KERN - |kern|];
    }
  }

  lemma Sizes(bpb: seq<u8>, fat: seq<u8>, root: seq<u8>, kern: seq<u8>)
    requires Blocks(|kern|) + 4 <= 32768 && |kern| < USIZE_MOD
    requires BpbOk(bpb, HEAP + Blocks(|kern|) + 4, Blocks(|kern|) + 4) && FatOk(fat, Blocks(|kern|) + 4)
    requires RootOk(root, |kern|)
    ensures |bpb| == 512 && |fat| == FAT_LEN * 512 && |root| == 512
  {
  }

  /** The last sectors are zeros; the image is filled a whole sector at a time. */
  method Fill(img: seq<u8>, size: nat) returns (v: seq<u8>, ghost pad: nat)
    ensures v == img + Zeros(pad) && pad % 512 == 0 && |v| >= size && (pad > 0 ==> |v| < size + 512)
  {
    v, pad := img, 0;
    assert v == img + Zeros(0);
    while |v| < size
      invariant v == img + Zeros(pad) && pad % 512 == 0 && (pad > 0 ==> |v| < size + 512)
      decreases size - |v|
    {
      assert img + Zeros(pad + 512) == img + Zeros(pad) + Zeros(512);
      v := v + Zeros(512);
      pad := pad + 512;
    }
  }

  /** How far the fill overshoots: to the kernel's own sector boundary. */
  lemma FillStops(n: nat, pad: nat)
    requires var size := 512 * (HEAP + Blocks(n) + 4); var got := KERN + n + pad;
      pad % 512 == 0 && got >= size && (pad > 0 ==> got < size + 512)
    ensures (KERN + n + pad) / 512 == HEAP + Blocks(n) + 4
    ensures (KERN + n + pad) % 512 == 0 <==> n % 512 == 0
  {
    assert 512 * Blocks(n) - 512 < n <= 512 * Blocks(n);
  }

  /** build: an image for every kernel the bitmap region can account for. */
  method Build(kern: seq<u8>) returns (img: Option<seq<u8>>)
    ensures img.None? <==> Blocks(|kern|) + 4 > 32768
    ensures img.Some? ==> LaidOut(img.value, kern)
  {
    hide BpbOk, FatOk, RootOk, MbrOk, VolumeOk;
    var nKern := (|kern| + CLUSTER - 1) / CLUSTER;
    var clusterCount := nKern + 4;
    var volSectors := HEAP + clusterCount;
    if clusterCount >= U32_MOD { return None; }
    var bpb := MakeBpb(volSectors, clusterCount);
    var fat := MakeFat(clusterCount);
    if fat.None? { return None; }
    var root := MakeRoot(|kern|);
    Sizes(bpb, fat.value, root, kern);
    var v := bpb;
    v := v + Zeros(FAT_OFF * 512 - |v|);
    v := v + fat.value;
    v := v + Zeros(HEAP * 512 - |v|);
    assert v == bpb + Zeros(FAT_OFF * 512 - 512) + fat.value;
    v := v + root;
    v := v + (HELLO + Zeros(CLUSTER - |HELLO|));
    v := v + kern;
    ghost var head := v;
    ghost var pad: nat;
    v, pad := Fill(v, volSectors * 512);
    FillStops(|kern|, pad);
    VolumeParts(bpb, fat.value, root, kern, pad, v);
    var mbr := MakeMbr(|v| / 512);
    assert |mbr| == 512 by { MbrSize(mbr, |v| / 512); }
    var image := mbr + Zeros(PART_LBA * 512 - 512) + v;
    assert image[..512] == mbr && image[PART..] == v;
    return Some(image);
  }

  lemma MbrSize(m: seq<u8>, sectors: u32)
    requires MbrOk(m, sectors)
    ensures |m| == 512
  {
  }

  // ---------- the search ----------

  /** The first entry set for KERNEL.BIN from `off` on, before an end mark; clusters are counted from `heap`. */
  function Scan(b: seq<u8>, off: nat, heap: nat, cluster: nat): Found
    decreases |b| - off
  {
    if off + 96 > |b| || b[off] == 0 then Missing
    else if IsKern(b, off) then
      At((heap + (Le32(b, off + 48) - 2) * cluster) % USIZE_MOD, Le64(b, off + 56))
    else Scan(b, off + 32, heap, cluster)
  }

  lemma WantedIs(i: nat)
    requires i < 10
    ensures WANTED[2 * i] == "KERNEL.BIN"[i] as int && WANTED[2 * i + 1] == 0
  {
  }

  lemma WantedText(w: seq<u8>)
    requires |w| == 20
    ensures w == WANTED <==> forall i :: 0 <= i < 10 ==> w[2 * i] == "KERNEL.BIN"[i] as int && w[2 * i + 1] == 0
  {
    forall i | 0 <= i < 10 ensures WANTED[2 * i] == "KERNEL.BIN"[i] as int && WANTED[2 * i + 1] == 0 {
      WantedIs(i);
    }
    if forall i :: 0 <= i < 10 ==> w[2 * i] == "KERNEL.BIN"[i] as int && w[2 * i + 1] == 0 {
      forall k | 0 <= k < 20 ensures w[k] == WANTED[k] {
        assert k == 2 * (k / 2) || k == 2 * (k / 2) + 1;
      }
    }
  }

  /** In other words: tags 0x81, 0x85 (or 0x05) and 0xC0 or more, name length 10, the name in UTF-16. */
  lemma KernEntry(b: seq<u8>, p: nat)
    requires p + 96 <= |b|
    ensures IsKern(b, p) <==>
      && b[p] == 0x81 && (b[p + 32] == 0x85 || b[p + 32] == 0x05) && b[p + 64] >= 0xC0 && b[p + 65] == 10
      && forall i :: 0 <= i < 10 ==> b[p + 66 + 2 * i] == "KERNEL.BIN"[i] as int && b[p + 67 + 2 * i] == 0
  {
    var w := b[p + 66..p + 86];
    WantedText(w);
    forall i | 0 <= i < 10 ensures w[2 * i] == b[p + 66 + 2 * i] && w[2 * i + 1] == b[p + 67 + 2 * i] {}
  }

  /** Entry number k from `root` on begins the first entry set for KERNEL.BIN, and no end mark comes before. */
  ghost predicate KernAt(b: seq<u8>, root: nat, k: nat) {
    && root + 32 * k + 96 <= |b| && IsKern(b, root + 32 * k)
    && forall j {:trigger EntryAt(root, j)} :: 0 <= j < k ==> b[EntryAt(root, j)] != 0 && !IsKern(b, EntryAt(root, j))
  }

  function EntryAt(root: nat, j: nat): nat {
    root + 32 * j
  }

  /** Something is found exactly when there is such an entry set, and then that one's cluster and length. */
  ghost predicate FindsFirst(b: seq<u8>, root: nat, heap: nat, cluster: nat, r: Found) {
    && (r == Missing <==> forall k: nat :: !KernAt(b, root, k))
    && forall k: nat {:trigger KernAt(b, root, k)} :: KernAt(b, root, k) ==>
         r == At((heap + (Le32(b, root + 32 * k + 48) - 2) * cluster) % USIZE_MOD, Le64(b, root + 32 * k + 56))
  }

  lemma {:induction false} ScanFinds(b: seq<u8>, root: nat, heap: nat, cluster: nat)
    ensures FindsFirst(b, root, heap, cluster, Scan(b, root, heap, cluster))
    decreases |b| - root
  {
    hide Le, IsKern, KernAt;
    if root + 96 > |b| || b[root] == 0 {
      forall k: nat ensures !KernAt(b, root, k) {
        if KernAt(b, root, k) { FirstEntry(b, root, k); }
      }
    } else if IsKern(b, root) {
      HereIsKern(b, root);
      forall k: nat | KernAt(b, root, k) ensures k == 0 { FirstEntry(b, root, k); }
    } else {
      ScanFinds(b, root + 32, heap, cluster);
      KernBehind(b, root, root + 32);
    }
  }

  lemma KernBehind(b: seq<u8>, root: nat, next: nat)
    requires root + 96 <= |b| && b[root] != 0 && !IsKern(b, root) && next == root + 32
    ensures forall k: nat {:trigger KernAt(b, root, k)} :: KernAt(b, root, k) ==> k > 0 && KernAt(b, next, k - 1)
    ensures forall k: nat {:trigger KernAt(b, next, k)} :: KernAt(b, next, k) ==> KernAt(b, root, k + 1)
  {
    hide IsKern, KernAt;
    forall k: nat {:trigger KernAt(b, root, k)} | KernAt(b, root, k) ensures k > 0 && KernAt(b, next, k - 1) {
      if k > 0 { OneEntryOn(b, root, k); } else { FirstEntry(b, root, k); }
    }
    forall k: nat {:trigger KernAt(b, next, k)} | KernAt(b, next, k) ensures KernAt(b, root, k + 1) {
      OneEntryOn(b, root, k + 1);
    }
  }

  lemma HereIsKern(b: seq<u8>, root: nat)
    requires root + 96 <= |b| && IsKern(b, root)
    ensures KernAt(b, root, 0)
  {
    hide IsKern;
  }

  lemma FirstEntry(b: seq<u8>, root: nat, k: nat)
    ensures KernAt(b, root, k) ==>
      root + 96 <= |b| && b[root] != 0 && (k > 0 ==> !IsKern(b, root)) && (k == 0 ==> IsKern(b, root))
  {
    assert EntryAt(root, 0) == root;
  }

  lemma OneEntryOn(b: seq<u8>, root: nat, k: nat)
    requires k > 0 && root + 96 <= |b| && b[root] != 0 && !IsKern(b, root)
    ensures KernAt(b, root, k) <==> KernAt(b, root + 32, k - 1)
  {
    hide IsKern;
    if KernAt(b, root + 32, k - 1) {
      forall j {:trigger EntryAt(root, j)} | 0 <= j < k
        ensures b[EntryAt(root, j)] != 0 && !IsKern(b, EntryAt(root, j)) {
        if j > 0 { assert EntryAt(root, j) == EntryAt(root + 32, j - 1); }
      }
    }
    if KernAt(b, root, k) {
      forall j {:trigger EntryAt(root + 32, j)} | 0 <= j < k - 1
        ensures b[EntryAt(root + 32, j)] != 0 && !IsKern(b, EntryAt(root + 32, j)) {
        assert EntryAt(root + 32, j) == EntryAt(root, j + 1);
      }
    }
  }

  /** The first sector is a boot sector and the image holds the first sector of its partition. */
  predicate Bootable(b: seq<u8>) {
    |b| >= 0x200 && b[0x1FE] == 0x55 && b[0x1FF] == 0xAA && Le32(b, 0x1C6) * 512 + 512 <= |b|
  }

  /** What exfat_find_kern makes of an image. */
  function Locate(b: seq<u8>): Found {
    if !Bootable(b) then Missing
    else
      var po := Le32(b, 0x1C6) * 512;
      var heap, cluster, root := HeapOf(b, po), ClusterOf(b, po), RootOf(b, po);
      if root >= |b| then Panic else Scan(b, root, heap, cluster)
  }

  // Where the cluster heap begins, how large a cluster is, and where the root directory begins, by the
  // boot sector at `po`; on 64-bit words.

  function HeapOf(b: seq<u8>, po: nat): nat
    requires po + 512 <= |b|
  {
    po + Le32(b, po + 0x58) * 512
  }

  function ClusterOf(b: seq<u8>, po: nat): nat
    requires po + 512 <= |b|
  {
    512 * Pow2(b[po + 0x72] % 64) % USIZE_MOD
  }

  function RootOf(b: seq<u8>, po: nat): nat
    requires po + 512 <= |b|
  {
    (HeapOf(b, po) + (Le32(b, po + 0x60) - 2) * ClusterOf(b, po)) % USIZE_MOD
  }

  /** The name compared byte by byte. */
  method NameMatches(b: seq<u8>, ne: nat) returns (isKern: bool)
    requires ne + 32 <= |b|
    ensures isKern <==> b[ne + 1] == 10 && b[ne + 2..ne + 22] == WANTED
  {
    isKern := b[ne + 1] == 10;
    if isKern {
      var i := 0;
      while i < 20
        invariant 0 <= i <= 20 && forall k :: 0 <= k < i ==> b[ne + 2 + k] == WANTED[k]
      {
        if b[ne + 2 + i] != WANTED[i] {
          assert b[ne + 2..ne + 22][i] != WANTED[i];
          return false;
        }
        i := i + 1;
      }
    }
  }

  /** exfat_find_kern. */
  method FindKern(b: seq<u8>) returns (r: Found)
    ensures r == Locate(b)
    ensures !Bootable(b) ==> r == Missing
    ensures Bootable(b) ==>
      var po := Le32(b, 0x1C6) * 512;
      var heap, cluster := po + 512 * Le32(b, po + 0x58), 512 * Pow2(b[po + 0x72] % 64) % USIZE_MOD;
      var root := (heap + (Le32(b, po + 0x60) - 2) * cluster) % USIZE_MOD;
      if root >= |b| then r == Panic else FindsFirst(b, root, heap, cluster, r)
  {
    hide Le, Pow2, Scan, FindsFirst;
    if |b| < 0x200 || b[0x1FE] != 0x55 || b[0x1FF] != 0xAA { return Missing; }
    var po := Le32(b, 0x1C6) * 512;
    if |b| < po + 512 { return Missing; }
    var root := RootOf(b, po);
    if root >= |b| { return Panic; }
    ScanFinds(b, root, HeapOf(b, po), ClusterOf(b, po));
    r := ScanFrom(b, root, HeapOf(b, po), ClusterOf(b, po));
  }

  method ScanFrom(b: seq<u8>, root: nat, heap: nat, cluster: nat) returns (r: Found)
    ensures r == Scan(b, root, heap, cluster)
  {
    hide Le;
    var off := root;
    while off + 96 <= |b|
      invariant Scan(b, off, heap, cluster) == Scan(b, root, heap, cluster)
      decreases |b| - off
    {
      if b[off] == 0 { break; }
      if b[off] / 0x80 == 1 && b[off] % 0x80 == 1 {
        if b[off + 32] % 0x80 == 5 && b[off + 64] / 0x40 == 3 {
          var isKern := NameMatches(b, off + 64);
          if isKern {
            return At((heap + (Le32(b, off + 48) - 2) * cluster) % USIZE_MOD, Le64(b, off + 56));
          }
        }
      }
      off := off + 32;
    }
    return Missing;
  }

  // ---------- the two agree ----------

  /** A window of an image reads like the window on its own. */
  lemma WindowReads(b: seq<u8>, lo: nat, w: seq<u8>, o: nat)
    requires lo + |w| <= |b| && w == b[lo..lo + |w|]
    ensures o + 4 <= |w| ==> Le32(b, lo + o) == Le32(w, o)
    ensures o + 8 <= |w| ==> Le64(b, lo + o) == Le64(w, o)
    ensures o + 96 <= |w| ==> IsKern(b, lo + o) == IsKern(w, o)
    ensures o < |w| ==> b[lo + o] == w[o]
  {
    hide Le;
    assert forall k :: 0 <= k < |w| ==> b[lo + k] == w[k];
    if o + 4 <= |w| { assert b[lo + o..lo + o + 4] == w[o..o + 4]; }
    if o + 8 <= |w| { assert b[lo + o..lo + o + 8] == w[o..o + 8]; }
    if o + 96 <= |w| { assert b[lo + o + 66..lo + o + 86] == w[o + 66..o + 86]; }
  }

  /** In an image laid out for a kernel the loader finds the kernel: where it says and as long as
      it says are exactly the kernel's bytes. */
  lemma KernelIsFound(img: seq<u8>, kern: seq<u8>)
    requires LaidOut(img, kern)
    ensures Locate(img) == At(PART + KERN, |kern|)
    ensures PART + KERN + |kern| <= |img| && img[PART + KERN..PART + KERN + |kern|] == kern
  {
    hide Le, IsKern, Blocks, FatOk, RootOk, MbrOk, BpbOk, Locate, Scan;
    var v := img[PART..];
    var root := v[ROOT..ROOT + CLUSTER];
    assert v[..512] == img[PART..PART + 512];
    HeadersRead(img, HEAP + Blocks(|kern|) + 4, Blocks(|kern|) + 4);
    assert root == img[PART + ROOT..PART + ROOT + CLUSTER];
    ScanRoot(img, PART + ROOT, root, |kern|);
    assert img[PART + KERN..PART + KERN + |kern|] == v[KERN..KERN + |kern|];
  }

  lemma PartOfVolume(img: seq<u8>, lo: nat, hi: nat)
    requires PART <= |img| && lo <= hi <= |img[PART..]|
    ensures 65536 + hi <= |img| && img[PART..][lo..hi] == img[65536 + lo..65536 + hi]
  {
  }

  /** The image in numbers: the boot record, and at 64 KiB the parameter block. */
  lemma HeadersInNumbers(img: seq<u8>, kern: seq<u8>)
    requires LaidOut(img, kern)
    ensures var n := (|kern| + 511) / 512;
      && |img| / 512 == 148 + n && img[0x1FE] == 0x55 && img[0x1FF] == 0xAA && img[0x1C2] == 7
      && Le32(img, 0x1C6) == 128 && Le32(img, 0x1CA) == 20 + n
      && Le32(img, 65536 + 0x50) == 8 && Le32(img, 65536 + 0x54) == 8 && Le32(img, 65536 + 0x58) == 16
      && Le32(img, 65536 + 0x5C) == 4 + n && Le32(img, 65536 + 0x60) == 2 && img[65536 + 0x72] == 0
      && img[65536 + 3..65536 + 11] == [0x45, 0x58, 0x46, 0x41, 0x54, 0x20, 0x20, 0x20]
  {
    hide Le, IsKern, FatOk, RootOk;
    var bpb := img[PART..][..512];
    PartOfVolume(img, 0, 512);
    PartOfVolume(img, 3, 11);
    assert bpb[3..11] == img[PART..][3..11];
    WindowReads(img, 0, img[..512], 0x1C6);
    WindowReads(img, 0, img[..512], 0x1CA);
    WindowReads(img, 65536, bpb, 0x50);
    WindowReads(img, 65536, bpb, 0x54);
    WindowReads(img, 65536, bpb, 0x58);
    WindowReads(img, 65536, bpb, 0x5C);
    WindowReads(img, 65536, bpb, 0x60);
    WindowReads(img, 65536, bpb, 0x72);
  }

  /** The bitmap 4 KiB behind it. */
  lemma BitmapInNumbers(img: seq<u8>, kern: seq<u8>, c: nat)
    requires LaidOut(img, kern) && c < 32768
    ensures 69632 + 4096 <= |img|
    ensures Bit(img[69632 + c / 8], c % 8) <==> c < 4 + (|kern| + 511) / 512
  {
    hide BpbOk, RootOk, MbrOk, Bit;
    PartOfVolume(img, 4096, 8192);
    assert img[PART..][4096..8192][c / 8] == img[69632 + c / 8];
  }

  /** The directory 8 KiB behind it, the kernel's entries in it, and the kernel 9 KiB behind it. */
  lemma DirectoryInNumbers(img: seq<u8>, kern: seq<u8>)
    requires LaidOut(img, kern)
    ensures 74752 + |kern| <= |img| && img[74752..74752 + |kern|] == kern
    ensures IsKern(img, 73824) && Le32(img, 73824 + 48) == 4 && Le64(img, 73824 + 56) == |kern|
  {
    hide Le, IsKern, BpbOk, FatOk, MbrOk, Describes;
    PartOfVolume(img, 8192, 8192 + 512);
    PartOfVolume(img, 9216, 9216 + |kern|);
    var root := img[PART..][ROOT..ROOT + CLUSTER];
    WindowReads(img, 73728, root, 96);
    WindowReads(img, 73728, root, 96 + 48);
    WindowReads(img, 73728, root, 96 + 56);
  }

  lemma HeadersRead(img: seq<u8>, sectors: u32, count: u32)
    requires PART + KERN <= |img| && MbrOk(img[..512], sectors) && BpbOk(img[PART..PART + 512], sectors, count)
    ensures Locate(img) == Scan(img, PART + ROOT, PART + ROOT, 512)
  {
    hide Le, IsKern, Scan;
    var bpb := img[PART..PART + 512];
    WindowReads(img, 0, img[..512], 0x1C6);
    WindowReads(img, PART, bpb, 0x58);
    WindowReads(img, PART, bpb, 0x60);
    WindowReads(img, PART, bpb, 0x72);
    assert Pow2(0) == 1;
  }

  /** The scan passes over the three entries of the greeting file. */
  lemma ScanRoot(b: seq<u8>, at: nat, root: seq<u8>, length: u64)
    requires RootOk(root, length) && at + 2 * 512 <= |b| < USIZE_MOD && root == b[at..at + |root|]
    ensures Scan(b, at, at, 512) == At(at + 2 * 512, length)
  {
    hide Le, IsKern;
    WindowReads(b, at, root, 0);
    WindowReads(b, at, root, 0x20);
    WindowReads(b, at, root, 0x40);
    WindowReads(b, at, root, 0x60);
    WindowReads(b, at, root, 0x60 + 48);
    WindowReads(b, at, root, 0x60 + 56);
    assert Scan(b, at + 0x60, at, 512) == At((at + 2 * 512) % USIZE_MOD, length);
    assert Scan(b, at + 0x40, at, 512) == Scan(b, at + 0x60, at, 512);
    assert Scan(b, at + 0x20, at, 512) == Scan(b, at + 0x40, at, 512);
    assert Scan(b, at, at, 512) == Scan(b, at + 0x20, at, 512);
  }

  /** Build an image around any kernel that fits and search it: the kernel comes back. */
  method RoundTrip(kern: seq<u8>) returns (got: Option<seq<u8>>)
    ensures got.Some? <==> Blocks(|kern|) + 4 <= 32768
    ensures got.Some? ==> got.value == kern
  {
    hide Locate, LaidOut, Blocks;
    var img := Build(kern);
    if img.None? { return None; }
    var r := FindKern(img.value);
    KernelIsFound(img.value, kern);
    return Some(img.value[r.offset..r.offset + r.length]);
  }
}
