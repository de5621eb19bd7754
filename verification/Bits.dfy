/** Bits packed eight to a byte, lowest first, as both the page bitmap and the exFAT bitmap have them. */
module Bits {
  import opened Words

  /** (b >> k) & 1 */
  predicate Bit(b: nat, k: nat) {
    if k == 0 then b % 2 == 1 else Bit(b / 2, k - 1)
  }

  /** b with bit k made `on`: b | (1 << k), or b & ~(1 << k). */
  function WithBit(b: nat, k: nat, on: bool): nat {
    if k == 0 then b / 2 * 2 + (if on then 1 else 0) else WithBit(b / 2, k - 1, on) * 2 + b % 2
  }

  lemma {:induction false} WithBitChangesOne(b: nat, k: nat, on: bool, j: nat)
    ensures Bit(WithBit(b, k, on), j) == if j == k then on else Bit(b, j)
  {
    if k > 0 && j > 0 { WithBitChangesOne(b / 2, k - 1, on, j - 1); }
  }

  lemma {:induction false} NoBits(k: nat)
    ensures !Bit(0, k)
  {
    if k > 0 { NoBits(k - 1); }
  }

  function Pow2(n: nat): nat {
    if n == 0 then 1 else 2 * Pow2(n - 1)
  }

  lemma {:induction false} WithBitFits(b: nat, k: nat, on: bool, n: nat)
    requires b < Pow2(n) && k < n
    ensures WithBit(b, k, on) < Pow2(n)
  {
    if k > 0 { WithBitFits(b / 2, k - 1, on, n - 1); }
  }

  /** Storing a bit in a byte. */
  function PutBit(b: u8, k: nat, on: bool): (r: u8)
    requires k < 8
    ensures forall j :: 0 <= j < 8 ==> Bit(r, j) == if j == k then on else Bit(b, j)
  {
    assert Pow2(8) == 0x100 by { assert Pow2(4) == 16; }
    WithBitFits(b, k, on, 8);
    forall j | 0 <= j < 8
      ensures Bit(WithBit(b, k, on), j) == if j == k then on else Bit(b, j) { WithBitChangesOne(b, k, on, j); }
    WithBit(b, k, on)
  }

  /** The sum of 2 to the k over the bits k below n that are on. */
  function Sum(b: nat, n: nat): nat {
    if n == 0 then 0 else Sum(b, n - 1) + if Bit(b, n - 1) then Pow2(n - 1) else 0
  }

  /** Bit k counts 2 to the k. */
  lemma {:induction false} NumberOfBits(b: nat, n: nat)
    requires b < Pow2(n)
    ensures b == Sum(b, n)
  {
    if n > 0 {
      NumberOfBits(b / 2, n - 1);
      SumHalves(b, n - 1);
    }
  }

  lemma {:induction false} SumHalves(b: nat, n: nat)
    ensures Sum(b, n + 1) == b % 2 + 2 * Sum(b / 2, n)
  {
    if n > 0 {
      SumHalves(b, n - 1);
      assert Bit(b, n) == Bit(b / 2, n - 1) && Pow2(n) == 2 * Pow2(n - 1);
    } else {
      assert Sum(b, 1) == Sum(b, 0) + (if Bit(b, 0) then Pow2(0) else 0);
    }
  }

  lemma {:induction false} WithBitAdds(b: nat, k: nat)
    requires !Bit(b, k)
    ensures WithBit(b, k, true) == b + Pow2(k)
  {
    if k > 0 { WithBitAdds(b / 2, k - 1); }
  }

  /** Two bytes with the same eight bits are the same. */
  lemma {:induction false} BitsDetermine(b: nat, c: nat, n: nat)
    requires b < Pow2(n) && c < Pow2(n) && forall j :: 0 <= j < n ==> Bit(b, j) == Bit(c, j)
    ensures b == c
  {
    if n > 0 {
      assert Bit(b, 0) == Bit(c, 0);
      forall j | 0 <= j < n - 1 ensures Bit(b / 2, j) == Bit(c / 2, j) { assert Bit(b, j + 1) == Bit(c, j + 1); }
      BitsDetermine(b / 2, c / 2, n - 1);
    }
  }
}
