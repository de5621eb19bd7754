/**
 Directory clusters of an exFAT volume as this driver reads and writes them: 32-byte entries,
 a file being a 0x85 entry followed by 0xC0 and 0xC1 entries (sections 7.4, 7.6 and 7.7 of the
 Microsoft exFAT specification), 0x00 ending the directory.
 */
module ExfatDir {
  import opened Words

  const EOD := 0x00
  const BITMAP := 0x81
  const FILE := 0x85
  const STREAM := 0xC0
  const NAME := 0xC1

  /** name holds the bytes the driver stores before its terminating zero. */
  datatype FileInfo = FileInfo(firstCluster: u32, dataLen: u64, name: seq<u8>, isDir: bool)

  // ---------- reading ----------

  function Capped(name: seq<u8>): (r: seq<u8>)
    ensures |r| <= 255
  {
    if |name| <= 255 then name else name[..255]
  }

  /** The characters of the name entry at p from the i-th on, low bytes only, up to the first zero. */
  function NameChars(cb: seq<u8>, p: nat, i: nat): (r: seq<u8>)
    requires p + 32 <= |cb| && i <= 15
    decreases 15 - i
  {
    if i == 15 || (cb[p + 2 + 2 * i] == 0 && cb[p + 3 + 2 * i] == 0) then []
    else [cb[p + 2 + 2 * i]] + NameChars(cb, p, i + 1)
  }

  predicate Whole(cb: seq<u8>) {
    |cb| % 32 == 0
  }

  predicate Secondary(cb: seq<u8>, p: nat)
    requires p < |cb|
  {
    cb[p] == STREAM || cb[p] == NAME
  }

  /** What one secondary entry adds to the file. */
  function Take(cb: seq<u8>, p: nat, fi: FileInfo): FileInfo
    requires p + 32 <= |cb|
  {
    if cb[p] == STREAM then fi.(firstCluster := Le32(cb, p + 20), dataLen := Le64(cb, p + 24))
    else fi.(name := Capped(fi.name + NameChars(cb, p, 0)))
  }

  /** What the secondary entries from p on add to a file, and where the next entry is. */
  function ReadGroup(cb: seq<u8>, p: nat, fi: FileInfo): (r: (FileInfo, nat))
    requires Whole(cb) && p % 32 == 0 && p <= |cb|
    ensures p <= r.1 <= |cb| && r.1 % 32 == 0
    decreases |cb| - p
  {
    if p == |cb| || !Secondary(cb, p) then (fi, p) else ReadGroup(cb, p + 32, Take(cb, p, fi))
  }

  function NewFile(cb: seq<u8>, off: nat): FileInfo
    requires off + 32 <= |cb|
  {
    FileInfo(0, 0, [], cb[off + 2] / 0x10 % 2 == 1)
  }

  /** The files listed from `off` on, at most max of them. */
  function ParseFrom(cb: seq<u8>, off: nat, max: nat): (files: seq<FileInfo>)
    requires Whole(cb) && off % 32 == 0 && off <= |cb|
    ensures |files| <= max
    decreases |cb| - off
  {
    if off == |cb| || max == 0 || cb[off] == EOD then []
    else if cb[off] == FILE then
      var (fi, next) := ReadGroup(cb, off + 32, NewFile(cb, off));
      [fi] + ParseFrom(cb, next, max - 1)
    else ParseFrom(cb, off + 32, max)
  }

  /** The first n of them, or all when there are fewer. */
  function First<T>(s: seq<T>, n: nat): (r: seq<T>)
    ensures |r| <= n && |r| <= |s| && (n >= |s| ==> r == s)
  {
    if |s| <= n then s else s[..n]
  }

  /** With room for one record less, the same files are listed except perhaps the last. */
  lemma {:induction false} ParseLess(cb: seq<u8>, off: nat, max: nat)
    requires Whole(cb) && off % 32 == 0 && off <= |cb| && max > 0
    ensures ParseFrom(cb, off, max - 1) == First(ParseFrom(cb, off, max), max - 1)
    decreases |cb| - off
  {
    hide ReadGroup, NewFile;
    if off < |cb| && cb[off] == FILE {
      var (_, next) := ReadGroup(cb, off + 32, NewFile(cb, off));
      if max > 1 { ParseLess(cb, next, max - 1); }
    } else if off < |cb| && cb[off] != EOD {
      ParseLess(cb, off + 32, max);
    }
  }

  /** The name characters of one entry, as the inner loop of parse_dir_cluster collects them. */
  method CollectName(cb: seq<u8>, p: nat, name: seq<u8>) returns (name2: seq<u8>)
    requires p + 32 <= |cb| && |name| <= 255
    ensures name2 == Capped(name + NameChars(cb, p, 0))
  {
    name2 := name;
    var i := 0;
    while i < 15 && |name2| < 255
      invariant 0 <= i <= 15 && |name2| <= 255
      invariant name + NameChars(cb, p, 0) == name2 + NameChars(cb, p, i)
    {
      if cb[p + 2 + 2 * i] == 0 && cb[p + 3 + 2 * i] == 0 {
        assert name2 + NameChars(cb, p, i) == name2;
        return;
      }
      assert name2 + NameChars(cb, p, i) == (name2 + [cb[p + 2 + 2 * i]]) + NameChars(cb, p, i + 1);
      name2 := name2 + [cb[p + 2 + 2 * i]];
      i := i + 1;
    }
    assert i == 15 ==> name2 + NameChars(cb, p, i) == name2;
    assert |name2| == 255 ==> Capped(name2 + NameChars(cb, p, i)) == name2;
  }

  method TakeEntry(cb: seq<u8>, p: nat, fi: FileInfo) returns (fi2: FileInfo)
    requires p + 32 <= |cb| && Secondary(cb, p) && |fi.name| <= 255
    ensures fi2 == Take(cb, p, fi) && |fi2.name| <= 255
  {
    if cb[p] == STREAM {
      fi2 := fi.(firstCluster := Le32(cb, p + 20), dataLen := Le64(cb, p + 24));
    } else {
      var name := CollectName(cb, p, fi.name);
      fi2 := fi.(name := name);
    }
  }

  /** One entry set from the file entry at `off` on, and where it ends. */
  method CollectGroup(cb: seq<u8>, off: nat) returns (fi: FileInfo, p: nat)
    requires Whole(cb) && off % 32 == 0 && off < |cb|
    ensures (fi, p) == ReadGroup(cb, off + 32, NewFile(cb, off))
  {
    hide Take, ReadGroup;
    fi := FileInfo(0, 0, [], cb[off + 2] / 0x10 % 2 == 1);
    p := off + 32;
    while p < |cb|
      invariant off < p <= |cb| && p % 32 == 0 && |fi.name| <= 255
      invariant ReadGroup(cb, off + 32, NewFile(cb, off)) == ReadGroup(cb, p, fi)
    {
      GroupStep(cb, p, fi);
      if cb[p] != STREAM && cb[p] != NAME { return; }
      fi := TakeEntry(cb, p, fi);
      p := p + 32;
    }
    GroupEnds(cb, fi);
  }

  lemma GroupStep(cb: seq<u8>, p: nat, fi: FileInfo)
    requires Whole(cb) && p % 32 == 0 && p < |cb|
    ensures ReadGroup(cb, p, fi) == if Secondary(cb, p) then ReadGroup(cb, p + 32, Take(cb, p, fi)) else (fi, p)
  {
  }

  lemma GroupEnds(cb: seq<u8>, fi: FileInfo)
    requires Whole(cb)
    ensures ReadGroup(cb, |cb|, fi) == (fi, |cb|)
  {
  }

  /** parse_dir_cluster. */
  method ParseDirCluster(cb: seq<u8>, max: nat) returns (out: seq<FileInfo>)
    requires Whole(cb)
    ensures out == ParseFrom(cb, 0, max)
  {
    hide ReadGroup, NewFile;
    out := [];
    var off := 0;
    while off < |cb| && |out| < max
      invariant 0 <= off <= |cb| && off % 32 == 0 && |out| <= max
      invariant ParseFrom(cb, 0, max) == out + ParseFrom(cb, off, max - |out|)
      decreases |cb| - off
    {
      if cb[off] == EOD { break; }
      if cb[off] == FILE {
        var fi, next := CollectGroup(cb, off);
        assert out + ParseFrom(cb, off, max - |out|) == (out + [fi]) + ParseFrom(cb, next, max - |out| - 1);
        out := out + [fi];
        off := next;
      } else {
        off := off + 32;
      }
    }
  }

  // ---------- writing ----------

  /** Where the directory ends: the first entry of type 0, or the end of the cluster. */
  function EndOfDir(cb: seq<u8>, off: nat): (e: nat)
    requires Whole(cb) && off % 32 == 0 && off <= |cb|
    ensures off <= e <= |cb| && e % 32 == 0 && (e < |cb| ==> cb[e] == EOD)
    decreases |cb| - off
  {
    if off == |cb| || cb[off] == EOD then off else EndOfDir(cb, off + 32)
  }

  // One byte of each of the three entries written for a file, i being its place in the entry
  // and `was` the byte there before.

  function FileByte(i: nat, was: u8): u8 {
    if i == 0 then FILE else if i == 2 then 0x20 else was
  }

  function StreamByte(i: nat, nlen: u8, size: u64, cluster: u32, was: u8): u8 {
    if i == 0 then STREAM
    else if i == 3 then nlen
    else if 8 <= i < 16 then Bytes(size, 8)[i - 8]
    else if 20 <= i < 24 then Bytes(cluster, 4)[i - 20]
    else if 24 <= i < 32 then Bytes(size, 8)[i - 24]
    else was
  }

  /** A long name runs on past the 32 bytes of its entry, except where the new end mark goes. */
  function NameEntryByte(i: nat, name: seq<u8>, was: u8): u8 {
    if i == 0 then NAME
    else if i == 32 then EOD
    else if 2 <= i < 2 + 2 * |name| then (if i % 2 == 0 then name[(i - 2) / 2] else 0)
    else was
  }

  /** Byte k of the cluster after an entry set for a file was written at `off`. */
  function EntryByte(cb: seq<u8>, off: nat, name: seq<u8>, size: u64, cluster: u32, k: nat): u8
    requires k < |cb| && |name| <= 255
  {
    if k < off then cb[k]
    else if k < off + 32 then FileByte(k - off, cb[k])
    else if k < off + 64 then StreamByte(k - off - 32, |name|, size, cluster, cb[k])
    else NameEntryByte(k - off - 64, name, cb[k])
  }

  function WithEntry(cb: seq<u8>, off: nat, name: seq<u8>, size: u64, cluster: u32): (cb2: seq<u8>)
    requires |name| <= 255
    ensures |cb2| == |cb| && forall k :: 0 <= k < |cb| ==> cb2[k] == EntryByte(cb, off, name, size, cluster, k)
  {
    seq(|cb|, k requires 0 <= k < |cb| => EntryByte(cb, off, name, size, cluster, k))
  }

  /** The bytes of the character slots of the name entry, from character i on. */
  lemma NameByte(cb: seq<u8>, off: nat, name: seq<u8>, size: u64, cluster: u32, i: nat)
    requires off + 96 <= |cb| && |name| <= 255 && i < 15
    ensures var cb2 := WithEntry(cb, off, name, size, cluster);
      && cb2[off + 66 + 2 * i] == (if i < |name| then name[i] else cb[off + 66 + 2 * i])
      && cb2[off + 67 + 2 * i] == (if i < |name| then 0 else cb[off + 67 + 2 * i])
  {
    hide Bytes;
    assert (2 + 2 * i) % 2 == 0 && 2 * i / 2 == i && (3 + 2 * i) % 2 == 1;
  }

  /** What a reader will see as the new file's name: 15 characters fit, and a shorter name
      runs on into whatever the rest of the entry already held. */
  function NameSeen(cb: seq<u8>, off: nat, name: seq<u8>): (seen: seq<u8>)
    requires off + 96 <= |cb|
  {
    if |name| >= 15 then name[..15] else name + NameChars(cb, off + 64, |name|)
  }

  lemma {:induction false} NameReadsBack(cb: seq<u8>, off: nat, name: seq<u8>, size: u64, cluster: u32, i: nat)
    requires off + 96 <= |cb| && |name| <= 255 && i <= 15 && i <= |name|
    requires 0 !in name
    ensures NameChars(WithEntry(cb, off, name, size, cluster), off + 64, i) == NameSeen(cb, off, name)[i..]
    decreases 15 - i
  {
    hide WithEntry, EntryByte;
    if i < 15 && i < |name| {
      NameByte(cb, off, name, size, cluster, i);
      NameReadsBack(cb, off, name, size, cluster, i + 1);
      assert name[i] in name;
      assert NameSeen(cb, off, name)[i..] == [name[i]] + NameSeen(cb, off, name)[i + 1..];
    } else {
      StaleTail(cb, off, name, size, cluster, i);
    }
  }

  lemma {:induction false} StaleTail(cb: seq<u8>, off: nat, name: seq<u8>, size: u64, cluster: u32, i: nat)
    requires off + 96 <= |cb| && |name| <= 255 && i <= 15 && (|name| <= i || i == 15)
    ensures NameChars(WithEntry(cb, off, name, size, cluster), off + 64, i) == NameChars(cb, off + 64, i)
    decreases 15 - i
  {
    hide WithEntry, EntryByte;
    if i < 15 {
      NameByte(cb, off, name, size, cluster, i);
      StaleTail(cb, off, name, size, cluster, i + 1);
    }
  }

  /** The fixed fields of the new entry set, as a reader finds them. */
  lemma FieldsReadBack(cb: seq<u8>, off: nat, name: seq<u8>, size: u64, cluster: u32)
    requires off + 96 <= |cb| && |name| <= 255
    ensures var cb2 := WithEntry(cb, off, name, size, cluster);
      && cb2[off] == FILE && cb2[off + 2] == 0x20 && cb2[off + 32] == STREAM && cb2[off + 64] == NAME
      && (off + 96 < |cb| ==> cb2[off + 96] == EOD)
      && Le32(cb2, off + 52) == cluster && Le64(cb2, off + 56) == size
      && forall k :: 0 <= k < off ==> cb2[k] == cb[k]
  {
    hide Bytes, Le;
    var cb2 := WithEntry(cb, off, name, size, cluster);
    assert cb2[off + 52..off + 52 + 4] == Bytes(cluster, 4);
    assert cb2[off + 56..off + 56 + 8] == Bytes(size, 8);
    Le32Reads(cb2, off + 52, cluster);
    Le64Reads(cb2, off + 56, size);
  }

  /** The record a reader makes of the entry set written at `off`. */
  function RecordSeen(cb: seq<u8>, off: nat, name: seq<u8>, size: u64, cluster: u32): FileInfo
    requires off + 96 <= |cb|
  {
    FileInfo(cluster, size, Capped(NameSeen(cb, off, name)), false)
  }

  lemma NewGroupReads(cb: seq<u8>, off: nat, name: seq<u8>, size: u64, cluster: u32)
    requires Whole(cb) && off % 32 == 0 && off + 96 <= |cb| && |name| <= 255 && 0 !in name
    ensures var cb2 := WithEntry(cb, off, name, size, cluster);
      ReadGroup(cb2, off + 32, NewFile(cb2, off)) == (RecordSeen(cb, off, name, size, cluster), off + 96)
  {
    hide WithEntry, EntryByte, NameChars, Le32, Le64, NameSeen, Capped;
    var cb2 := WithEntry(cb, off, name, size, cluster);
    FieldsReadBack(cb, off, name, size, cluster);
    NameReadsBack(cb, off, name, size, cluster, 0);
    var fi := FileInfo(cluster, size, [], false);
    assert NewFile(cb2, off) == FileInfo(0, 0, [], false);
    assert [] + NameChars(cb2, off + 64, 0) == NameSeen(cb, off, name);
    assert Take(cb2, off + 64, fi) == RecordSeen(cb, off, name, size, cluster);
    assert Take(cb2, off + 32, NewFile(cb2, off)) == fi;
    assert ReadGroup(cb2, off + 64, fi) == ReadGroup(cb2, off + 96, Take(cb2, off + 64, fi));
  }

  /** An entry below `end` has the same fields in two clusters that agree up to `end`. */
  lemma SameEntry(cb: seq<u8>, cb2: seq<u8>, p: nat, end: nat, fi: FileInfo)
    requires p + 32 <= end <= |cb| == |cb2| && cb2[..end] == cb[..end]
    ensures cb2[p] == cb[p] && Take(cb2, p, fi) == Take(cb, p, fi) && NewFile(cb2, p) == NewFile(cb, p)
  {
    hide Le, NameChars, Capped;
    assert forall k :: 0 <= k < end ==> cb2[k] == cb2[..end][k] == cb[..end][k] == cb[k];
    assert cb2[p + 20..p + 24] == cb[p + 20..p + 24];
    assert cb2[p + 24..p + 32] == cb[p + 24..p + 32];
    SameChars(cb, cb2, p, 0);
  }

  lemma {:induction false} SameChars(cb: seq<u8>, cb2: seq<u8>, p: nat, i: nat)
    requires p + 32 <= |cb| == |cb2| && i <= 15 && forall k :: p <= k < p + 32 ==> cb2[k] == cb[k]
    ensures NameChars(cb2, p, i) == NameChars(cb, p, i)
    decreases 15 - i
  {
    if i < 15 { SameChars(cb, cb2, p, i + 1); }
  }

  /** Secondary entries before the end of the directory read the same after the write. */
  lemma {:induction false} OldGroupsRead(cb: seq<u8>, cb2: seq<u8>, p: nat, end: nat, fi: FileInfo)
    requires Whole(cb) && |cb2| == |cb| && p % 32 == 0 && p <= end < |cb| && end == EndOfDir(cb, p)
    requires cb2[..end] == cb[..end] && cb2[end] == FILE
    ensures ReadGroup(cb2, p, fi) == ReadGroup(cb, p, fi)
    ensures ReadGroup(cb, p, fi).1 <= end == EndOfDir(cb, ReadGroup(cb, p, fi).1)
    decreases |cb| - p
  {
    hide Take, NewFile;
    if p < end {
      SameEntry(cb, cb2, p, end, fi);
      if Secondary(cb, p) { OldGroupsRead(cb, cb2, p + 32, end, Take(cb, p, fi)); }
    }
  }

  /** The list with one more record, if there is still room for it under the cap. */
  function Plus(files: seq<FileInfo>, rec: FileInfo, max: nat): seq<FileInfo> {
    if |files| < max then files + [rec] else files
  }

  lemma PlusBehind(first: FileInfo, files: seq<FileInfo>, rec: FileInfo, max: nat)
    requires max > 0
    ensures [first] + Plus(files, rec, max - 1) == Plus([first] + files, rec, max)
  {
    assert [first] + (files + [rec]) == ([first] + files) + [rec];
  }

  lemma OldEntriesStay(cb: seq<u8>, off: nat, name: seq<u8>, size: u64, cluster: u32)
    requires off + 96 <= |cb| && |name| <= 255
    ensures var cb2 := WithEntry(cb, off, name, size, cluster); cb2[..off] == cb[..off] && cb2[off] == FILE
  {
    hide Bytes;
  }

  lemma NewFileIsListed(cb: seq<u8>, end: nat, max: nat, name: seq<u8>, size: u64, cluster: u32)
    requires Whole(cb) && end % 32 == 0 && end + 96 <= |cb| && |name| <= 255 && 0 !in name
    ensures ParseFrom(WithEntry(cb, end, name, size, cluster), end, max)
         == (if max == 0 then [] else [RecordSeen(cb, end, name, size, cluster)])
  {
    hide EntryByte, WithEntry, ReadGroup, RecordSeen, NewFile;
    FieldsReadBack(cb, end, name, size, cluster);
    NewGroupReads(cb, end, name, size, cluster);
    if max > 0 { assert ParseFrom(WithEntry(cb, end, name, size, cluster), end + 96, max - 1) == []; }
  }

  /** Entries before the old end read as before; what a reader makes of the rest comes behind. */
  lemma {:induction false} ReadsOn(cb: seq<u8>, cb2: seq<u8>, from: nat, end: nat, max: nat, rec: FileInfo)
    requires Whole(cb) && |cb2| == |cb| && from % 32 == 0 && from <= end < |cb|
    requires end == EndOfDir(cb, from) && cb2[..end] == cb[..end] && cb2[end] == FILE
    requires forall m: nat :: ParseFrom(cb2, end, m) == if m == 0 then [] else [rec]
    ensures ParseFrom(cb2, from, max) == Plus(ParseFrom(cb, from, max), rec, max)
    decreases |cb| - from
  {
    hide ReadGroup, NewFile, Take, ParseFrom, EndOfDir;
    EndRange(cb, from);
    if from < end {
      EndStep(cb, from);
      ParseStep(cb, from, max);
      ParseStep(cb2, from, max);
      SameEntry(cb, cb2, from, end, NewFile(cb, from));
      if cb[from] == FILE && max > 0 {
        OldGroupsRead(cb, cb2, from + 32, end, NewFile(cb, from));
        var (got, next) := ReadGroup(cb, from + 32, NewFile(cb, from));
        ReadsOn(cb, cb2, next, end, max - 1, rec);
        PlusBehind(got, ParseFrom(cb, next, max - 1), rec, max);
      } else if max > 0 {
        ReadsOn(cb, cb2, from + 32, end, max, rec);
      }
    } else {
      NothingListed(cb, from, max);
    }
  }

  lemma ParseStep(cb: seq<u8>, off: nat, max: nat)
    requires Whole(cb) && off % 32 == 0 && off < |cb|
    ensures ParseFrom(cb, off, max) ==
      if max == 0 || cb[off] == EOD then []
      else if cb[off] == FILE then
        var (fi, next) := ReadGroup(cb, off + 32, NewFile(cb, off));
        [fi] + ParseFrom(cb, next, max - 1)
      else ParseFrom(cb, off + 32, max)
  {
  }

  lemma NothingListed(cb: seq<u8>, off: nat, max: nat)
    requires Whole(cb) && off % 32 == 0 && off <= |cb| && EndOfDir(cb, off) == off
    ensures ParseFrom(cb, off, max) == []
  {
  }

  /** Whatever the directory held, writing an entry set at its end makes a reader list
      exactly one more file, last, and the earlier ones as before. */
  lemma AppendedFileIsListed(cb: seq<u8>, from: nat, max: nat, name: seq<u8>, size: u64, cluster: u32)
    requires Whole(cb) && from % 32 == 0 && from <= |cb| && EndOfDir(cb, from) + 96 <= |cb|
    requires |name| <= 255 && 0 !in name
    ensures var end := EndOfDir(cb, from);
      ParseFrom(WithEntry(cb, end, name, size, cluster), from, max)
      == Plus(ParseFrom(cb, from, max), RecordSeen(cb, end, name, size, cluster), max)
  {
    hide EntryByte, WithEntry, ParseFrom, RecordSeen;
    var end := EndOfDir(cb, from);
    OldEntriesStay(cb, end, name, size, cluster);
    forall m: nat ensures ParseFrom(WithEntry(cb, end, name, size, cluster), end, m)
                       == if m == 0 then [] else [RecordSeen(cb, end, name, size, cluster)] {
      NewFileIsListed(cb, end, m, name, size, cluster);
    }
    ReadsOn(cb, WithEntry(cb, end, name, size, cluster), from, end, max, RecordSeen(cb, end, name, size, cluster));
  }

  /** The name fits one entry, and the character slot behind it is blank. */
  predicate RoomForName(cb: seq<u8>, off: nat, name: seq<u8>)
    requires off + 96 <= |cb|
  {
    |name| == 15 || (|name| < 15 && cb[off + 66 + 2 * |name|] == 0 && cb[off + 67 + 2 * |name|] == 0)
  }

  /** Exactly when the name a reader sees is the name that was written. */
  lemma {:induction false} NameSurvives(cb: seq<u8>, off: nat, name: seq<u8>)
    requires off + 96 <= |cb| && 0 !in name
    ensures NameSeen(cb, off, name) == name <==> RoomForName(cb, off, name)
  {
    if |name| < 15 {
      var rest := NameChars(cb, off + 64, |name|);
      assert name + rest == name ==> |name + rest| == |name|;
    }
  }

  // ---------- a run of writes ----------

  datatype Registered = Registered(name: seq<u8>, size: u64, cluster: u32)

  predicate Storable(r: Registered) {
    1 <= |r.name| <= 15 && 0 !in r.name
  }

  /** A cluster that is blank from its end of directory on. */
  predicate BlankFrom(cb: seq<u8>, off: nat) {
    forall k :: off <= k < |cb| ==> cb[k] == 0
  }

  /** The cluster after registering files one by one, each at the then end of the directory. */
  function AfterWrites(cb: seq<u8>, files: seq<Registered>): (cb2: seq<u8>)
    requires Whole(cb) && forall i :: 0 <= i < |files| ==> Storable(files[i])
    ensures |cb2| == |cb|
    decreases |files|
  {
    if files == [] || EndOfDir(cb, 0) + 96 > |cb| then cb
    else
      var f := files[0];
      assert Storable(f);
      AfterWrites(WithEntry(cb, EndOfDir(cb, 0), f.name, f.size, f.cluster), files[1..])
  }

  function Records(files: seq<Registered>): (recs: seq<FileInfo>)
    ensures |recs| == |files|
  {
    seq(|files|, i requires 0 <= i < |files| => FileInfo(files[i].cluster, files[i].size, files[i].name, false))
  }

  lemma EndStep(cb: seq<u8>, off: nat)
    requires Whole(cb) && off % 32 == 0 && off < |cb| && cb[off] != EOD
    ensures EndOfDir(cb, off) == EndOfDir(cb, off + 32)
  {
  }

  lemma EndHere(cb: seq<u8>, off: nat)
    requires Whole(cb) && off % 32 == 0 && off <= |cb| && (off < |cb| ==> cb[off] == EOD)
    ensures EndOfDir(cb, off) == off
  {
  }

  lemma EndRange(cb: seq<u8>, off: nat)
    requires Whole(cb) && off % 32 == 0 && off <= |cb|
    ensures off <= EndOfDir(cb, off) <= |cb| && EndOfDir(cb, off) % 32 == 0
    ensures off < EndOfDir(cb, off) ==> cb[off] != EOD
    ensures EndOfDir(cb, off) < |cb| ==> cb[EndOfDir(cb, off)] == EOD
  {
  }

  lemma NewEnd(cb: seq<u8>, end: nat, name: seq<u8>, size: u64, cluster: u32)
    requires Whole(cb) && end % 32 == 0 && end + 96 <= |cb| && |name| <= 255
    ensures EndOfDir(WithEntry(cb, end, name, size, cluster), end) == end + 96
  {
    hide EntryByte, WithEntry, Le32, Le64, EndOfDir;
    FieldsReadBack(cb, end, name, size, cluster);
    var cb2 := WithEntry(cb, end, name, size, cluster);
    EndStep(cb2, end);
    EndStep(cb2, end + 32);
    EndStep(cb2, end + 64);
    EndHere(cb2, end + 96);
  }

  /** The new end of the directory is right behind the entry set. */
  lemma {:induction false} EndMoves(cb: seq<u8>, from: nat, name: seq<u8>, size: u64, cluster: u32)
    requires Whole(cb) && from % 32 == 0 && from <= |cb| && EndOfDir(cb, from) + 96 <= |cb| && |name| <= 255
    ensures EndOfDir(WithEntry(cb, EndOfDir(cb, from), name, size, cluster), from) == EndOfDir(cb, from) + 96
    decreases |cb| - from
  {
    hide EntryByte, WithEntry, Le32, Le64, EndOfDir;
    var end := EndOfDir(cb, from);
    EndRange(cb, from);
    if from == end {
      NewEnd(cb, end, name, size, cluster);
    } else {
      FieldsReadBack(cb, end, name, size, cluster);
      EndStep(cb, from);
      EndStep(WithEntry(cb, end, name, size, cluster), from);
      EndMoves(cb, from + 32, name, size, cluster);
    }
  }

  lemma StaysBlank(cb: seq<u8>, off: nat, name: seq<u8>, size: u64, cluster: u32)
    requires off + 96 <= |cb| && |name| <= 15 && BlankFrom(cb, off)
    ensures BlankFrom(WithEntry(cb, off, name, size, cluster), off + 96)
  {
    hide Bytes;
  }

  /** Files registered one after another in a directory whose tail is blank are listed in that
      order behind what was there, under their own names, sizes and clusters. */
  lemma {:induction false} WritesAreListed(cb: seq<u8>, files: seq<Registered>, max: nat)
    requires Whole(cb) && EndOfDir(cb, 0) + 96 * |files| <= |cb| && BlankFrom(cb, EndOfDir(cb, 0))
    requires forall i :: 0 <= i < |files| ==> Storable(files[i])
    requires |ParseFrom(cb, 0, max)| + |files| <= max
    ensures ParseFrom(AfterWrites(cb, files), 0, max) == ParseFrom(cb, 0, max) + Records(files)
    decreases |files|
  {
    hide EntryByte, WithEntry, ParseFrom, EndOfDir, NameChars;
    if files == [] {
      assert Records(files) == [];
      assert ParseFrom(cb, 0, max) + Records(files) == ParseFrom(cb, 0, max);
    } else {
      var f, end := files[0], EndOfDir(cb, 0);
      var cb2 := WithEntry(cb, end, f.name, f.size, f.cluster);
      AppendedFileIsListed(cb, 0, max, f.name, f.size, f.cluster);
      EndMoves(cb, 0, f.name, f.size, f.cluster);
      StaysBlank(cb, end, f.name, f.size, f.cluster);
      NameSurvives(cb, end, f.name);
      assert RecordSeen(cb, end, f.name, f.size, f.cluster) == FileInfo(f.cluster, f.size, f.name, false);
      WritesAreListed(cb2, files[1..], max);
      assert Records(files) == [FileInfo(f.cluster, f.size, f.name, false)] + Records(files[1..]);
      assert ParseFrom(cb, 0, max) + Records(files)
          == (ParseFrom(cb, 0, max) + [FileInfo(f.cluster, f.size, f.name, false)]) + Records(files[1..]);
    }
  }

  // ---------- the writer's stores ----------

  /** The search for the end of the directory in the root buffer. */
  method FindEnd(rd: array<u8>, bpc: nat) returns (off: nat)
    requires bpc <= rd.Length && bpc % 32 == 0 && EndOfDir(rd[..bpc], 0) < rd.Length
    ensures off == EndOfDir(rd[..bpc], 0)
  {
    hide EndOfDir;
    off := 0;
    while rd[off] != EOD && off < bpc
      invariant off <= EndOfDir(rd[..bpc], 0) <= bpc && off % 32 == 0
      invariant EndOfDir(rd[..bpc], off) == EndOfDir(rd[..bpc], 0)
      decreases bpc - off
    {
      EndStep(rd[..bpc], off);
      off := off + 32;
    }
    EndHere(rd[..bpc], off);
  }

  // ---------- what of the root buffer is touched ----------

  /** The bytes stored for an entry set at `off` with a name of n characters. */
  predicate EntryStored(off: nat, n: nat, k: nat) {
    || k == off || k == off + 2 || k == off + 32 || k == off + 35 || off + 40 <= k < off + 48
    || off + 52 <= k < off + 64 || k == off + 64 || off + 66 <= k < off + 66 + 2 * n || k == off + 96
  }

  /** They all lie in a buffer of `size` bytes. */
  predicate StoresFit(off: nat, n: nat, size: nat) {
    off + 97 <= size && off + 66 + 2 * n <= size
  }

  /** The bytes read in search of the end, the one behind a full cluster included, and the bytes
      stored if there is room for three entries. */
  predicate Touched(cb: seq<u8>, n: nat, k: nat)
    requires Whole(cb)
  {
    var end := EndOfDir(cb, 0);
    (k % 32 == 0 && k <= end) || (end + 96 <= |cb| && EntryStored(end, n, k))
  }

  /** Exactly when the search and the stores stay inside a buffer of `size` bytes: the end comes
      before its last byte, and so do the new end mark and the name, if an entry set is stored. */
  lemma StaysInside(cb: seq<u8>, n: nat, size: nat)
    requires Whole(cb)
    ensures (forall k: nat :: Touched(cb, n, k) ==> k < size) <==>
      EndOfDir(cb, 0) < size && (EndOfDir(cb, 0) + 96 <= |cb| ==> StoresFit(EndOfDir(cb, 0), n, size))
  {
    hide EndOfDir;
    var end := EndOfDir(cb, 0);
    if forall k: nat :: Touched(cb, n, k) ==> k < size {
      assert end % 32 == 0;
      assert Touched(cb, n, end);
      if end + 96 <= |cb| {
        assert Touched(cb, n, end + 96);
        if n > 0 { assert Touched(cb, n, end + 65 + 2 * n); }
      }
    }
  }

  method StoreFile(rd: array<u8>, at: nat)
    requires at + 32 <= rd.Length
    modifies rd
    ensures forall k :: 0 <= k < rd.Length ==>
      rd[k] == (if at <= k < at + 32 then FileByte(k - at, old(rd[k])) else old(rd[k]))
  {
    rd[at + 0] := FILE;
    rd[at + 2] := 0x20;
  }

  method StoreStream(rd: array<u8>, at: nat, nlen: u8, size: u64, cluster: u32)
    requires at + 32 <= rd.Length
    modifies rd
    ensures forall k :: 0 <= k < rd.Length ==>
      rd[k] == (if at <= k < at + 32 then StreamByte(k - at, nlen, size, cluster, old(rd[k])) else old(rd[k]))
  {
    hide Bytes;
    rd[at + 0] := STREAM;
    rd[at + 3] := nlen;
    Copy(rd, at + 8, Bytes(size, 8));
    Copy(rd, at + 20, Bytes(cluster, 4));
    Copy(rd, at + 24, Bytes(size, 8));
  }

  /** The name characters, two bytes each, and the new end of the directory. */
  method StoreName(rd: array<u8>, at: nat, name: seq<u8>)
    requires at + 32 < rd.Length && at + 2 + 2 * |name| <= rd.Length
    modifies rd
    ensures forall k :: 0 <= k < rd.Length ==>
      rd[k] == (if at <= k then NameEntryByte(k - at, name, old(rd[k])) else old(rd[k]))
  {
    rd[at + 0] := NAME;
    var i := 0;
    while i < |name|
      invariant 0 <= i <= |name|
      invariant forall k :: 0 <= k < rd.Length && !(at + 2 <= k < at + 2 + 2 * i) ==>
        rd[k] == (if k == at then NAME else old(rd[k]))
      invariant forall k :: at + 2 <= k < at + 2 + 2 * i ==>
        rd[k] == (if (k - at) % 2 == 0 then name[(k - at - 2) / 2] else 0)
    {
      rd[at + 2 + i * 2] := name[i];
      rd[at + 2 + i * 2 + 1] := 0;
      i := i + 1;
    }
    rd[at + 32] := EOD;
  }

  /** The entry set built in the root buffer, which has room for what is stored. */
  method StoreEntry(rd: array<u8>, bpc: nat, off: nat, name: seq<u8>, size: u64, cluster: u32)
    requires off + 96 <= bpc <= rd.Length && StoresFit(off, |name|, rd.Length) && |name| <= 255
    modifies rd
    ensures rd[..bpc] == WithEntry(old(rd[..bpc]), off, name, size, cluster)
  {
    hide FileByte, StreamByte, NameEntryByte;
    StoreFile(rd, off);
    StoreStream(rd, off + 32, |name|, size, cluster);
    StoreName(rd, off + 64, name);
  }

  // ---------- the same in bytes ----------

  /** An entry set for a file, as it lies at `off` of a cluster that was cb before: tags, attribute, name
      length, both lengths and first cluster, the name two bytes a character, the end mark; every other
      byte as before. */
  predicate EntrySetAt(cb: seq<u8>, cb2: seq<u8>, off: nat, name: seq<u8>, size: nat, cluster: u32)
    requires off + 96 <= |cb|
  {
    && |cb2| == |cb|
    && cb2[off] == 0x85 && cb2[off + 2] == 0x20
    && cb2[off + 32] == 0xC0 && cb2[off + 35] == |name|
    && Le64(cb2, off + 40) == size && Le32(cb2, off + 52) == cluster && Le64(cb2, off + 56) == size
    && cb2[off + 64] == 0xC1 && (off + 96 < |cb| ==> cb2[off + 96] == 0)
    && (forall i :: 0 <= i < |name| && i != 15 && off + 66 + 2 * i < |cb| ==> cb2[off + 66 + 2 * i] == name[i])
    && (forall i :: 0 <= i < |name| && off + 67 + 2 * i < |cb| ==> cb2[off + 67 + 2 * i] == 0)
    && (forall k :: 0 <= k < |cb| && !EntryStored(off, |name|, k) ==> cb2[k] == cb[k])
  }

  lemma StoredFields(cb: seq<u8>, off: nat, name: seq<u8>, size: u64, cluster: u32)
    requires off + 96 <= |cb| && |name| <= 255
    ensures EntrySetAt(cb, WithEntry(cb, off, name, size, cluster), off, name, size, cluster)
  {
    hide Bytes, Le, Le32, Le64;
    var cb2 := WithEntry(cb, off, name, size, cluster);
    FieldsReadBack(cb, off, name, size, cluster);
    assert cb2[off + 40..off + 40 + 8] == Bytes(size, 8);
    Le64Reads(cb2, off + 40, size);
    forall i | 0 <= i < |name| && off + 66 + 2 * i < |cb|
      ensures i != 15 ==> cb2[off + 66 + 2 * i] == name[i]
      ensures off + 67 + 2 * i < |cb| ==> cb2[off + 67 + 2 * i] == 0
    {
      assert (2 + 2 * i) % 2 == 0 && 2 * i / 2 == i && (3 + 2 * i) % 2 == 1;
    }
  }

  lemma {:induction false} NameCharIs(cb: seq<u8>, p: nat, i: nat, k: nat)
    requires p + 32 <= |cb| && i <= 15 && k < |NameChars(cb, p, i)|
    ensures i + k < 15 && NameChars(cb, p, i)[k] == cb[p + 2 + 2 * (i + k)]
    ensures !(cb[p + 2 + 2 * (i + k)] == 0 && cb[p + 3 + 2 * (i + k)] == 0)
    decreases k
  {
    if k > 0 { NameCharIs(cb, p, i + 1, k - 1); }
  }

  lemma {:induction false} NameCharsEnd(cb: seq<u8>, p: nat, i: nat)
    requires p + 32 <= |cb| && i <= 15
    ensures var n := i + |NameChars(cb, p, i)|; n <= 15 && (n < 15 ==> cb[p + 2 + 2 * n] == 0 && cb[p + 3 + 2 * n] == 0)
    decreases 15 - i
  {
    if i < 15 && !(cb[p + 2 + 2 * i] == 0 && cb[p + 3 + 2 * i] == 0) { NameCharsEnd(cb, p, i + 1); }
  }

  /** The characters of a name entry: the low bytes before the first character that is 0, 15 at most. */
  lemma NameCharsAre(cb: seq<u8>, p: nat)
    requires p + 32 <= |cb|
    ensures var r := NameChars(cb, p, 0);
      && |r| <= 15 && (|r| < 15 ==> cb[p + 2 + 2 * |r|] == 0 && cb[p + 3 + 2 * |r|] == 0)
      && forall k {:trigger r[k]} :: 0 <= k < |r| ==>
           r[k] == cb[p + 2 + 2 * k] && !(cb[p + 2 + 2 * k] == 0 && cb[p + 3 + 2 * k] == 0)
  {
    hide NameChars;
    var r := NameChars(cb, p, 0);
    NameCharsEnd(cb, p, 0);
    forall k {:trigger r[k]} | 0 <= k < |r|
      ensures r[k] == cb[p + 2 + 2 * k] && !(cb[p + 2 + 2 * k] == 0 && cb[p + 3 + 2 * k] == 0)
    {
      NameCharIs(cb, p, 0, k);
      assert 2 * (0 + k) == 2 * k;
    }
  }

  /** What is listed for an entry set of three: first cluster and length from the stream entry, the
      characters of the name entry, and a directory exactly when the attribute has bit 4. */
  lemma EntrySetIsListed(cb: seq<u8>, off: nat, max: nat)
    requires Whole(cb) && off % 32 == 0 && off + 96 <= |cb| && max > 0
    requires cb[off] == 0x85 && cb[off + 32] == 0xC0 && cb[off + 64] == 0xC1
    requires off + 96 < |cb| ==> cb[off + 96] != 0xC0 && cb[off + 96] != 0xC1
    ensures ParseFrom(cb, off, max)
      == [FileInfo(Le32(cb, off + 52), Le64(cb, off + 56), NameChars(cb, off + 64, 0), cb[off + 2] / 16 % 2 == 1)]
         + ParseFrom(cb, off + 96, max - 1)
  {
    hide ParseFrom, NameChars, Le32, Le64, ReadGroup;
    ParseStep(cb, off, max);
    var fi := NewFile(cb, off);
    GroupStep(cb, off + 32, fi);
    var fi1 := Take(cb, off + 32, fi);
    GroupStep(cb, off + 64, fi1);
    assert [] + NameChars(cb, off + 64, 0) == NameChars(cb, off + 64, 0);
    NameCharsAre(cb, off + 64);
    var fi2 := Take(cb, off + 64, fi1);
    if off + 96 < |cb| { GroupStep(cb, off + 96, fi2); } else { GroupEnds(cb, fi2); }
  }

  /** An entry that is no file is passed over; a zero tag ends the directory, and so does the cluster. */
  lemma OthersArePassed(cb: seq<u8>, off: nat, max: nat)
    requires Whole(cb) && off % 32 == 0 && off <= |cb|
    ensures off == |cb| || cb[off] == 0 ==> ParseFrom(cb, off, max) == [] && EndOfDir(cb, off) == off
    ensures off < |cb| && cb[off] != 0 ==> EndOfDir(cb, off) == EndOfDir(cb, off + 32)
    ensures off < |cb| && cb[off] != 0 && cb[off] != 0x85 ==> ParseFrom(cb, off, max) == ParseFrom(cb, off + 32, max)
  {
  }
}
