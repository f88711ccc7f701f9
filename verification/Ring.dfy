/**
 The mirrored ring as a value: mapping the storage twice back to back makes position `p`
 and position `p + capacity` the same cell.
 */
module Ring {
  import opened CheckPoint
  import opened Modular

  /** The remainder, by repeated subtraction so that proofs about positions stay linear. */
  function Wrap(p: nat, cap: nat): (r: nat)
    requires cap > 0
    ensures r < cap && r <= p
  {
    if p < cap then p else Wrap(p - cap, cap)
  }

  lemma {:induction false} WrapIsRemainder(p: nat, cap: nat)
    requires cap > 0
    ensures Wrap(p, cap) == p % cap
  {
    if p < cap {
      DivModUnique(p, cap, 0, p);
    } else {
      WrapIsRemainder(p - cap, cap);
      ModAddMultiple(p - cap, cap, 1);
    }
  }

  lemma {:induction false} WrapOfSum(x: nat, y: nat, cap: nat)
    requires cap > 0
    ensures Wrap(Wrap(x, cap) + y, cap) == Wrap(x + y, cap)
  {
    if x >= cap { WrapOfSum(x - cap, y, cap); }
  }

  /** Positions less than one lap apart lie in different cells. */
  lemma {:induction false} WrapDiffers(p: nat, q: nat, cap: nat)
    requires cap > 0 && p < q < p + cap
    ensures Wrap(p, cap) != Wrap(q, cap)
  {
    if p >= cap { WrapDiffers(p - cap, q - cap, cap); }
  }

  function At(cells: seq<Slot>, p: nat): Slot
    requires |cells| > 0
  {
    cells[Wrap(p, |cells|)]
  }

  function Put(cells: seq<Slot>, p: nat, s: Slot): (r: seq<Slot>)
    requires |cells| > 0
    ensures |r| == |cells|
  {
    cells[Wrap(p, |cells|) := s]
  }

  /** A store shows at its own position and at no other less than a lap away. */
  lemma PutOnlyThere(cells: seq<Slot>, p: nat, s: Slot)
    requires |cells| > 0
    ensures At(Put(cells, p, s), p) == s
    ensures forall q: nat :: (p < q < p + |cells| || q < p < q + |cells|) ==> At(Put(cells, p, s), q) == At(cells, q)
  {
    LapIsInjective(|cells|, p);
  }

  lemma LapIsInjective(cap: nat, p: nat)
    requires cap > 0
    ensures forall q: nat :: (p < q < p + cap || q < p < q + cap) ==> Wrap(p, cap) != Wrap(q, cap)
  {
    forall q: nat | p < q < p + cap || q < p < q + cap
      ensures Wrap(p, cap) != Wrap(q, cap)
    {
      if p < q { WrapDiffers(p, q, cap); } else { WrapDiffers(q, p, cap); }
    }
  }

  lemma AtPeriodic(cells: seq<Slot>, p: nat)
    requires |cells| > 0
    ensures At(cells, p + |cells|) == At(cells, p)
  {
  }

  lemma AtShifted(cells: seq<Slot>, base: nat, d: nat)
    requires |cells| > 0
    ensures At(cells, Wrap(base, |cells|) + d) == At(cells, base + d)
  {
    WrapOfSum(base, d, |cells|);
  }
}
