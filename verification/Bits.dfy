/** Bit operations on numbers, and the mask that stands for a remainder. */
module Bits {
  import opened CheckPoint
  import opened Ring

  function And(x: nat, y: nat): (r: nat)
    ensures r <= x
    decreases x
  {
    if x == 0 then 0 else x % 2 * (y % 2) + 2 * And(x / 2, y / 2)
  }

  function Or(x: nat, y: nat): nat
    decreases x + y
  {
    if x == 0 then y else if y == 0 then x else
    (if x % 2 == 1 || y % 2 == 1 then 1 else 0) + 2 * Or(x / 2, y / 2)
  }

  function PopCount(x: nat): nat {
    if x == 0 then 0 else x % 2 + PopCount(x / 2)
  }

  /** `std::has_single_bit`. */
  predicate HasSingleBit(x: nat) {
    PopCount(x) == 1
  }

  function Pow2(k: nat): (r: nat)
    ensures r >= 1
  {
    if k == 0 then 1 else 2 * Pow2(k - 1)
  }

  lemma {:induction false} NoBits(x: nat)
    ensures PopCount(x) == 0 <==> x == 0
  {
    if x != 0 { NoBits(x / 2); }
  }

  lemma {:induction false} SingleBitIsPowerOfTwo(x: nat) returns (k: nat)
    requires HasSingleBit(x)
    ensures x == Pow2(k)
  {
    NoBits(x / 2);
    if x == 1 { k := 0; } else { k := SingleBitIsPowerOfTwo(x / 2); k := k + 1; }
  }

  lemma {:induction false} PowerOfTwoIsSingleBit(k: nat)
    ensures HasSingleBit(Pow2(k))
  {
    if k > 0 { PowerOfTwoIsSingleBit(k - 1); }
  }

  lemma {:induction false} AndZero(x: nat)
    ensures And(x, 0) == 0
  {
    if x != 0 { AndZero(x / 2); }
  }

  lemma {:induction false} WrapHalves(p: nat, half: nat)
    requires half > 0
    ensures Wrap(p, 2 * half) == 2 * Wrap(p / 2, half) + p % 2
  {
    if p >= 2 * half {
      WrapHalves(p - 2 * half, half);
      assert (p - 2 * half) / 2 == p / 2 - half;
    }
  }

  /** `index & (capacity - 1)` is the remainder modulo a capacity with a single bit. */
  lemma {:induction false} MaskIsWrap(p: nat, cap: nat)
    requires HasSingleBit(cap)
    ensures cap > 0 && And(p, cap - 1) == Wrap(p, cap)
    decreases cap
  {
    NoBits(cap / 2);
    if cap == 1 {
      AndZero(p);
      WrapOne(p);
    } else {
      MaskIsWrap(p / 2, cap / 2);
      WrapHalves(p, cap / 2);
      assert (cap - 1) / 2 == cap / 2 - 1 && (cap - 1) % 2 == 1;
    }
  }

  lemma {:induction false} WrapOne(p: nat)
    ensures Wrap(p, 1) == 0
  {
    if p > 0 { WrapOne(p - 1); }
  }

  /** The masked `operator[]` shows the cell the mirrored storage shows at the same index. */
  lemma MaskedAccess(cells: seq<Slot>, index: nat)
    requires HasSingleBit(|cells|)
    ensures |cells| > 0 && And(index, |cells| - 1) < |cells| && cells[And(index, |cells| - 1)] == At(cells, index)
  {
    MaskIsWrap(index, |cells|);
  }

  /** Or-ing in a value shifted past the other's bits adds it. */
  lemma {:induction false} OrDisjoint(x: nat, y: nat, k: nat)
    requires x < Pow2(k)
    ensures Or(x, y * Pow2(k)) == x + y * Pow2(k)
    decreases k
  {
    if k > 0 {
      var rest := y * Pow2(k - 1);
      assert y * Pow2(k) == 2 * rest;
      OrDisjoint(x / 2, y, k - 1);
    } else {
      assert y * Pow2(k) == y;
    }
  }
}
