/** Slots and numbers as bytes in memory order, least significant byte first. */
module Layout {
  import opened CheckPoint

  function Pow256(n: nat): (r: nat)
    ensures r >= 1
  {
    if n == 0 then 1 else 256 * Pow256(n - 1)
  }

  function LittleEndian(v: nat, n: nat): (bs: seq<byte>)
    ensures |bs| == n
  {
    if n == 0 then [] else [v % 256] + LittleEndian(v / 256, n - 1)
  }

  function FromLittleEndian(bs: seq<byte>): (v: nat)
    ensures v < Pow256(|bs|)
  {
    if bs == [] then 0 else bs[0] + 256 * FromLittleEndian(bs[1..])
  }

  function Zeros(n: nat): (z: seq<byte>)
    ensures |z| == n
  {
    seq(n, _ => 0)
  }

  lemma {:induction false} ReadsBack(v: nat, n: nat)
    ensures v < Pow256(n) ==> FromLittleEndian(LittleEndian(v, n)) == v
    decreases n
  {
    if n > 0 {
      ReadsBack(v / 256, n - 1);
      assert LittleEndian(v, n)[1..] == LittleEndian(v / 256, n - 1);
    }
  }

  lemma Pow256Values()
    ensures Pow256(1) == 0x100 && Pow256(2) == 0x1_0000 && Pow256(4) == 0x1_0000_0000
    ensures Pow256(6) == 0x1_0000_0000_0000 && Pow256(8) == 0x1_0000_0000_0000_0000
  {
    assert Pow256(3) == 0x100_0000 && Pow256(5) == 0x100_0000_0000 && Pow256(7) == 0x100_0000_0000_0000;
  }

  // ------------------------------------------------------------------ slots

  function SlotBytes(s: Slot): (bs: seq<byte>)
    ensures |bs| == SLOT_BYTES
  {
    [s.type_, s.category_] + LittleEndian(s.reserved_, 2) + LittleEndian(s.where_, 4) + LittleEndian(s.tick_, 8)
  }

  function SlotOf(bs: seq<byte>): Slot
    requires |bs| == SLOT_BYTES
  {
    Pow256Values();
    Slot(bs[0], bs[1], FromLittleEndian(bs[2..4]), FromLittleEndian(bs[4..8]), FromLittleEndian(bs[8..16]))
  }

  lemma SlotReadsBack(s: Slot)
    ensures SlotOf(SlotBytes(s)) == s
  {
    Pow256Values();
    ReadsBack(s.reserved_, 2);
    ReadsBack(s.where_, 4);
    ReadsBack(s.tick_, 8);
    var bs := SlotBytes(s);
    assert bs[2..4] == LittleEndian(s.reserved_, 2);
    assert bs[4..8] == LittleEndian(s.where_, 4);
    assert bs[8..16] == LittleEndian(s.tick_, 8);
  }

  function Bytes(slots: seq<Slot>): (bs: seq<byte>)
    ensures |bs| == SLOT_BYTES * |slots|
  {
    if slots == [] then [] else SlotBytes(slots[0]) + Bytes(slots[1..])
  }

  lemma {:induction false} BytesConcat(a: seq<Slot>, b: seq<Slot>)
    ensures Bytes(a + b) == Bytes(a) + Bytes(b)
  {
    if a == [] {
      assert a + b == b;
    } else {
      assert (a + b)[1..] == a[1..] + b;
      BytesConcat(a[1..], b);
    }
  }
}
