/** Network byte order, as the code makes it from native words and as a reader adds it up. */
module BigEndian {
  import opened CheckPoint
  import opened Layout

  /** The digits of `v`, most significant first. */
  function Digits(v: nat, n: nat): (bs: seq<byte>)
    ensures |bs| == n
  {
    if n == 0 then [] else Digits(v / 256, n - 1) + [v % 256]
  }

  /** Shifting in one byte at a time, as `Cursor` reads. */
  function Value(bs: seq<byte>): (v: nat)
    ensures v < Pow256(|bs|)
  {
    if bs == [] then 0 else 256 * Value(bs[..|bs| - 1]) + bs[|bs| - 1]
  }

  function Reverse(bs: seq<byte>): (r: seq<byte>)
    ensures |r| == |bs|
  {
    if bs == [] then [] else Reverse(bs[1..]) + [bs[0]]
  }

  /** `std::byteswap` on an `n`-byte word. */
  function ByteSwap(v: nat, n: nat): (r: nat)
    ensures r < Pow256(n)
  {
    FromLittleEndian(Reverse(LittleEndian(v, n)))
  }

  /** `put_u16_be`, `put_u32_be` and `put_u64_be`: the memory of the swapped word. */
  function PutBe(v: nat, n: nat): seq<byte> {
    LittleEndian(ByteSwap(v, n), n)
  }

  /** `put_u48_be`: six bytes of a swapped and shifted 64-bit word. */
  function PutU48Be(v: nat): seq<byte> {
    LittleEndian(ByteSwap(v % 0x1_0000_0000_0000, 8) / 0x1_0000, 8)[..6]
  }

  /** `read_be` on a packed field. */
  function ReadBe(bs: seq<byte>): nat {
    ByteSwap(FromLittleEndian(bs), |bs|)
  }

  /** `read_u48_be`. */
  function ReadU48Be(bs: seq<byte>): nat
    requires |bs| == 6
  {
    ByteSwap(FromLittleEndian(bs + [0, 0]), 8) / 0x1_0000
  }

  // ------------------------------------------------------------------ the two orders

  lemma {:induction false} BytesReadBack(bs: seq<byte>)
    ensures LittleEndian(FromLittleEndian(bs), |bs|) == bs
  {
    if bs != [] {
      var first, rest := bs[0] as nat, FromLittleEndian(bs[1..]);
      BytesReadBack(bs[1..]);
      assert (first + 256 * rest) % 256 == first && (first + 256 * rest) / 256 == rest;
      assert bs == [bs[0]] + bs[1..];
    }
  }

  lemma {:induction false} ReverseLast(bs: seq<byte>)
    requires bs != []
    ensures Reverse(bs) == [bs[|bs| - 1]] + Reverse(bs[..|bs| - 1])
  {
    if |bs| > 1 {
      ReverseLast(bs[1..]);
      assert bs[1..][..|bs| - 2] == bs[..|bs| - 1][1..];
    }
  }

  lemma {:induction false} ReverseTwice(bs: seq<byte>)
    ensures Reverse(Reverse(bs)) == bs
  {
    if bs != [] {
      var r := Reverse(bs);
      ReverseLast(r);
      assert r[..|r| - 1] == Reverse(bs[1..]);
      ReverseTwice(bs[1..]);
    }
  }

  lemma {:induction false} DigitsAreReversed(v: nat, n: nat)
    ensures Digits(v, n) == Reverse(LittleEndian(v, n))
  {
    if n > 0 {
      DigitsAreReversed(v / 256, n - 1);
      assert LittleEndian(v, n)[1..] == LittleEndian(v / 256, n - 1);
    }
  }

  lemma {:induction false} ValueIsReversed(bs: seq<byte>)
    ensures Value(bs) == FromLittleEndian(Reverse(bs))
  {
    if bs != [] {
      ReverseLast(bs);
      ValueIsReversed(bs[..|bs| - 1]);
      assert Reverse(bs)[1..] == Reverse(bs[..|bs| - 1]);
    }
  }

  /** Swapping a native word writes its digits most significant first. */
  lemma PutBeIsDigits(v: nat, n: nat)
    ensures PutBe(v, n) == Digits(v, n)
  {
    DigitsAreReversed(v, n);
    BytesReadBack(Reverse(LittleEndian(v, n)));
  }

  /** Both readers agree on every byte sequence. */
  lemma ReadersAgree(bs: seq<byte>)
    ensures ReadBe(bs) == Value(bs)
  {
    ValueIsReversed(bs);
    BytesReadBack(bs);
  }

  /** And either undoes the writer. */
  lemma DigitsReadBack(v: nat, n: nat)
    requires v < Pow256(n)
    ensures Value(Digits(v, n)) == v
  {
    DigitsAreReversed(v, n);
    ValueIsReversed(Digits(v, n));
    ReverseTwice(LittleEndian(v, n));
    ReadsBack(v, n);
  }

  // ------------------------------------------------------------------ 48 bits

  lemma ReverseWithZeros(bs: seq<byte>)
    ensures Reverse(bs + [0, 0]) == [0, 0] + Reverse(bs)
  {
    var wide := bs + [0, 0];
    ReverseLast(wide);
    ReverseLast(wide[..|wide| - 1]);
    assert wide[..|wide| - 1][..|wide| - 2] == bs;
  }

  lemma ShiftedValue(bs: seq<byte>)
    ensures FromLittleEndian([0, 0] + bs) / 0x1_0000 == FromLittleEndian(bs)
  {
    assert ([0, 0] + bs)[1..] == [0] + bs && ([0] + bs)[1..] == bs;
    assert FromLittleEndian([0, 0] + bs) == 256 * FromLittleEndian([0] + bs);
    assert FromLittleEndian([0] + bs) == 256 * FromLittleEndian(bs);
  }

  lemma {:induction false} LittleEndianPads(v: nat, n: nat, extra: nat)
    requires v < Pow256(n)
    ensures LittleEndian(v, n + extra) == LittleEndian(v, n) + Zeros(extra)
  {
    if n > 0 {
      LittleEndianPads(v / 256, n - 1, extra);
    } else {
      ZeroDigits(extra);
    }
  }

  lemma {:induction false} ZeroDigits(n: nat)
    ensures LittleEndian(0, n) == Zeros(n)
  {
    if n > 0 { ZeroDigits(n - 1); }
  }

  /** The timestamp is stored as the six digits of its value modulo 2^48. */
  lemma PutU48IsDigits(v: nat)
    ensures PutU48Be(v) == Digits(v % 0x1_0000_0000_0000, 6)
  {
    Pow256Values();
    var t := v % 0x1_0000_0000_0000;
    var low := LittleEndian(t, 6);
    LittleEndianPads(t, 6, 2);
    assert LittleEndian(t, 8) == low + [0, 0];
    ReverseWithZeros(low);
    ShiftedValue(Reverse(low));
    var w := FromLittleEndian(Reverse(low));
    LittleEndianPads(w, 6, 2);
    BytesReadBack(Reverse(low));
    DigitsAreReversed(t, 6);
  }

  lemma ReadU48IsValue(bs: seq<byte>)
    requires |bs| == 6
    ensures ReadU48Be(bs) == Value(bs)
  {
    BytesReadBack(bs + [0, 0]);
    ReverseWithZeros(bs);
    ShiftedValue(Reverse(bs));
    ValueIsReversed(bs);
  }
}
