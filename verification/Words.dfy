/** Machine words, as ranges of integers, their little-endian byte images, and byte buffers. */
module Words {

  type u8 = x: int | 0 <= x < 0x100
  type u32 = x: int | 0 <= x < 0x1_0000_0000
  type u64 = x: int | 0 <= x < 0x1_0000_0000_0000_0000

  datatype Option<T> = None | Some(value: T)

  const U32_MAX: u32 := 0xFFFF_FFFF
  const U32_MOD := 0x1_0000_0000

  function Pow256(n: nat): (p: nat)
    ensures p >= 1
  {
    if n == 0 then 1 else 256 * Pow256(n - 1)
  }

  /** The number whose little-endian bytes these are. */
  function Le(bytes: seq<u8>): (v: nat)
  {
    if bytes == [] then 0 else bytes[0] + 256 * Le(bytes[1..])
  }

  function Bytes(v: nat, n: nat): (b: seq<u8>)
    ensures |b| == n
  {
    if n == 0 then [] else [v % 256] + Bytes(v / 256, n - 1)
  }

  lemma {:induction false} LeOfBytes(v: nat, n: nat)
    requires v < Pow256(n)
    ensures Le(Bytes(v, n)) == v
  {
    if n > 0 {
      LeOfBytes(v / 256, n - 1);
      assert Bytes(v, n)[1..] == Bytes(v / 256, n - 1);
    }
  }

  lemma {:induction false} LeInRange(bytes: seq<u8>)
    ensures Le(bytes) < Pow256(|bytes|)
  {
    if bytes != [] { LeInRange(bytes[1..]); }
  }

  function Le32(b: seq<u8>, at: nat): (v: u32)
    requires at + 4 <= |b|
  {
    LeInRange(b[at..at + 4]);
    assert Pow256(4) == U32_MOD;
    Le(b[at..at + 4])
  }

  function Le64(b: seq<u8>, at: nat): (v: u64)
    requires at + 8 <= |b|
  {
    LeInRange(b[at..at + 8]);
    assert Pow256(8) == 0x1_0000_0000_0000_0000 by { assert Pow256(4) == U32_MOD; }
    Le(b[at..at + 8])
  }

  lemma Le32Reads(b: seq<u8>, at: nat, v: u32)
    requires at + 4 <= |b| && b[at..at + 4] == Bytes(v, 4)
    ensures Le32(b, at) == v
  {
    assert Pow256(4) == U32_MOD;
    LeOfBytes(v, 4);
  }

  lemma Le64Reads(b: seq<u8>, at: nat, v: u64)
    requires at + 8 <= |b| && b[at..at + 8] == Bytes(v, 8)
    ensures Le64(b, at) == v
  {
    assert Pow256(8) == 0x1_0000_0000_0000_0000 by { assert Pow256(4) == U32_MOD; }
    LeOfBytes(v, 8);
  }

  /** Lowest byte first. */
  lemma Le32Is(b: seq<u8>, at: nat)
    requires at + 4 <= |b|
    ensures var w0: int, w1: int, w2: int, w3: int := b[at], b[at + 1], b[at + 2], b[at + 3];
      Le32(b, at) == w0 + 0x100 * w1 + 0x1_0000 * w2 + 0x100_0000 * w3
  {
    FourBytes(b[at..at + 4]);
  }

  lemma FourBytes(w: seq<u8>)
    requires |w| == 4
    ensures var w0: int, w1: int, w2: int, w3: int := w[0], w[1], w[2], w[3];
      Le(w) == w0 + 0x100 * w1 + 0x1_0000 * w2 + 0x100_0000 * w3
  {
    assert Le(w) == w[0] + 0x100 * Le(w[1..]);
    assert Le(w[1..]) == w[1] + 0x100 * Le(w[1..][1..]);
    assert w[1..][1..] == w[2..] && w[2..][1..] == w[3..] && w[3..][1..] == [];
    assert Le(w[2..]) == w[2] + 0x100 * Le(w[3..]);
  }

  lemma Le64Is(b: seq<u8>, at: nat)
    requires at + 8 <= |b|
    ensures Le64(b, at) == Le32(b, at) + U32_MOD * Le32(b, at + 4)
  {
    var w := b[at..at + 8];
    assert w[..4] == b[at..at + 4] && w[4..] == b[at + 4..at + 8];
    LeJoins(w, 4);
    assert Pow256(4) == U32_MOD;
  }

  lemma {:induction false} LeJoins(w: seq<u8>, n: nat)
    requires n <= |w|
    ensures Le(w) == Le(w[..n]) + Pow256(n) * Le(w[n..])
  {
    hide Pow256;
    if n == 0 {
      assert w[0..] == w && Pow256(0) == 1 by { Pow256Step(0); }
    } else {
      LeJoins(w[1..], n - 1);
      Pow256Step(n);
      assert w[..n][1..] == w[1..][..n - 1] && w[1..][n - 1..] == w[n..];
      Scaled(Pow256(n - 1), Le(w[n..]));
    }
  }

  lemma Pow256Step(n: nat)
    ensures Pow256(n) == if n == 0 then 1 else 256 * Pow256(n - 1)
  {
  }

  lemma Scaled(p: nat, v: nat)
    ensures 256 * (p * v) == 256 * p * v
  {
  }

  // ---------- byte buffers ----------

  /** d with these bytes from `at` on. */
  function Splice(d: seq<u8>, at: nat, bytes: seq<u8>): (e: seq<u8>)
    requires at + |bytes| <= |d|
    ensures |e| == |d|
  {
    d[..at] + bytes + d[at + |bytes|..]
  }

  lemma SpliceElsewhere(d: seq<u8>, at: nat, bytes: seq<u8>, lo: nat, hi: nat)
    requires at + |bytes| <= |d| && lo <= hi <= |d| && (hi <= at || at + |bytes| <= lo)
    ensures Splice(d, at, bytes)[lo..hi] == d[lo..hi]
  {
  }

  lemma SpliceMore(d: seq<u8>, at: nat, data: seq<u8>, o: nat, n: nat)
    requires o + n <= |data| && at + |data| <= |d|
    ensures Splice(Splice(d, at, data[..o]), at + o, data[o..o + n]) == Splice(d, at, data[..o + n])
  {
  }

  lemma SpliceHere(d: seq<u8>, at: nat, bytes: seq<u8>)
    requires at + |bytes| <= |d|
    ensures Splice(d, at, bytes)[at..at + |bytes|] == bytes
  {
  }

  /** memcpy into a buffer. */
  method Copy(dst: array<u8>, at: nat, bytes: seq<u8>)
    requires at + |bytes| <= dst.Length
    modifies dst
    ensures forall k :: 0 <= k < dst.Length ==>
      dst[k] == (if at <= k < at + |bytes| then bytes[k - at] else old(dst[k]))
  {
    var i := 0;
    while i < |bytes|
      invariant 0 <= i <= |bytes|
      invariant forall k :: 0 <= k < dst.Length ==> dst[k] == (if at <= k < at + i then bytes[k - at] else old(dst[k]))
    {
      dst[at + i] := bytes[i];
      i := i + 1;
    }
  }

  // ---------- zero-terminated texts ----------

  /** A buffer read as a C string: up to its first zero. */
  function CStr(s: seq<u8>): (r: seq<u8>)
    ensures |r| <= |s| && 0 !in r && r == s[..|r|] && (|r| < |s| ==> s[|r|] == 0)
  {
    if s == [] || s[0] == 0 then [] else [s[0]] + CStr(s[1..])
  }

  lemma {:induction false} CStrOfText(name: seq<u8>)
    requires 0 !in name
    ensures CStr(name) == name
  {
    if name != [] {
      assert name[0] in name;
      CStrOfText(name[1..]);
    }
  }

  /** The byte at i of a zero-terminated text. */
  function CharAt(s: seq<u8>, i: nat): u8 {
    if i < |s| then s[i] else 0
  }

  /** The end of a C string is where its first zero is. */
  lemma InCStr(s: seq<u8>, i: nat)
    requires i <= |CStr(s)|
    ensures i < |CStr(s)| <==> CharAt(s, i) != 0
    ensures i < |CStr(s)| ==> CStr(s)[i] == s[i]
  {
    if i < |CStr(s)| { assert CStr(s)[i] == s[i] && CStr(s)[i] in CStr(s); }
  }
}
