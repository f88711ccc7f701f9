/** The internet checksum: RFC 1071, sections 1 and 2; its use in the IPv4 header, RFC 791, section 3.1. */
module Checksum {
  import opened CheckPoint

  const TWO_32: nat := 0x1_0000_0000

  /** Sum of the big-endian 16-bit words, a last odd byte padded with a zero. */
  function WordSum(data: seq<byte>): nat
    decreases |data|
  {
    if |data| == 0 then 0
    else if |data| == 1 then data[0] * 256
    else data[0] * 256 + data[1] + WordSum(data[2..])
  }

  /** One's-complement reduction: the value modulo 65535, with 0 kept for the sum 0 alone. */
  function OnesFold(sum: nat): (r: nat)
    ensures r <= 0xffff && (r == 0 <==> sum == 0)
  {
    if sum == 0 then 0 else 1 + (sum - 1) % 0xffff
  }

  function ChecksumOf(data: seq<byte>): nat {
    0xffff - OnesFold(WordSum(data) % TWO_32)
  }

  lemma OneFoldStep(sum: nat)
    requires sum >= 0x1_0000
    ensures sum % 0x1_0000 + sum / 0x1_0000 < sum
    ensures OnesFold(sum % 0x1_0000 + sum / 0x1_0000) == OnesFold(sum)
  {
    var q, r := sum / 0x1_0000, sum % 0x1_0000;
    assert sum - 1 == (q + r - 1) + 0xffff * q;
  }

  lemma WordsFrom(data: seq<byte>, i: nat)
    requires i + 1 < |data|
    ensures WordSum(data[i..]) == data[i] as nat * 256 + data[i + 1] as nat + WordSum(data[i + 2..])
  {
    assert data[i..][2..] == data[i + 2..];
  }

  lemma WordsEnd(data: seq<byte>, i: nat)
    requires i <= |data| <= i + 1
    ensures WordSum(data[i..]) == if i < |data| then data[i] as nat * 256 else 0
  {
  }

  lemma Reduced(sum: nat, laps: nat)
    ensures sum % TWO_32 + TWO_32 * (laps + sum / TWO_32) == sum + TWO_32 * laps
    ensures (sum + TWO_32 * laps) % TWO_32 == sum % TWO_32
  {
  }

  /** The first loop of `internet_checksum`: a 32-bit accumulator over the words. */
  method AddWords(data: seq<byte>) returns (sum: nat)
    ensures sum == WordSum(data) % TWO_32
  {
    sum := 0;
    var i: nat := 0;
    ghost var laps: nat := 0;
    while i + 1 < |data|
      invariant i <= |data| && i % 2 == 0 && sum < TWO_32
      invariant sum + WordSum(data[i..]) + TWO_32 * laps == WordSum(data)
    {
      var word: nat := data[i] as nat * 256 + data[i + 1] as nat;
      WordsFrom(data, i);
      Reduced(sum + word, laps);
      laps := laps + (sum + word) / TWO_32;
      sum := (sum + word) % TWO_32;
      i := i + 2;
    }
    WordsEnd(data, i);
    Reduced(sum + WordSum(data[i..]), laps);
    if |data| % 2 != 0 {
      sum := (sum + data[|data| - 1] as nat * 256) % TWO_32;
    }
  }

  /** The second loop: folding the carries back in until 16 bits are left. */
  method InternetChecksum(data: seq<byte>) returns (r: nat)
    ensures r == ChecksumOf(data)
  {
    var sum := AddWords(data);
    while sum / 0x1_0000 != 0
      invariant OnesFold(sum) == OnesFold(WordSum(data) % TWO_32)
      decreases sum
    {
      OneFoldStep(sum);
      sum := sum % 0x1_0000 + sum / 0x1_0000;
    }
    r := 0xffff - sum;
  }

  /** The word at an even offset replaced by a 16-bit value, most significant byte first. */
  function WithField(data: seq<byte>, offset: nat, value: nat): seq<byte>
    requires offset + 2 <= |data| && value <= 0xffff
  {
    data[offset := value / 256][offset + 1 := value % 256]
  }

  lemma {:induction false} FieldAddsItsValue(data: seq<byte>, offset: nat, value: nat)
    requires offset % 2 == 0 && offset + 2 <= |data| && value <= 0xffff
    requires data[offset] == 0 && data[offset + 1] == 0
    ensures WordSum(WithField(data, offset, value)) == WordSum(data) + value
    decreases |data|
  {
    if offset > 0 {
      FieldAddsItsValue(data[2..], offset - 2, value);
      assert WithField(data, offset, value)[2..] == WithField(data[2..], offset - 2, value);
    } else {
      assert WithField(data, 0, value)[2..] == data[2..];
    }
  }

  lemma {:induction false} WordSumBound(data: seq<byte>)
    ensures WordSum(data) <= 0xffff * ((|data| + 1) / 2)
    decreases |data|
  {
    if |data| >= 2 { WordSumBound(data[2..]); }
  }

  /** The 32-bit accumulator is enough for 65537 words. */
  lemma {:induction false} NoOverflow(data: seq<byte>)
    requires |data| <= 2 * 65537
    ensures ChecksumOf(data) == 0xffff - OnesFold(WordSum(data))
  {
    WordSumBound(data);
    assert (|data| + 1) / 2 <= 65537;
    assert WordSum(data) < TWO_32;
  }

  lemma FoldOfTotal(total: nat, value: nat)
    requires value <= 0xffff
    ensures OnesFold(total + value) == 0xffff <==>
            value == 0xffff - OnesFold(total) || (value == 0xffff && OnesFold(total) == 0xffff)
  {
    var f := OnesFold(total);
    if total > 0 {
      var q := (total - 1) / 0xffff;
      assert total == 0xffff * q + f;
      assert total + value - 1 == 0xffff * q + (f + value - 1);
      assert (total + value - 1) % 0xffff == (f + value - 1) % 0xffff;
    }
  }

  /**
   For an even buffer of at most 65537 words with an aligned zero field: a second checksum is 0 exactly
   for the first checksum stored in the field, or for its other zero when that checksum is 0.
   */
  lemma {:induction false} VerifiesExactlyForItsChecksum(data: seq<byte>, offset: nat, value: nat)
    requires |data| % 2 == 0 && |data| <= 2 * 65537 && offset % 2 == 0 && offset + 2 <= |data|
    requires data[offset] == 0 && data[offset + 1] == 0 && value <= 0xffff
    ensures ChecksumOf(WithField(data, offset, value)) == 0 <==>
            value == ChecksumOf(data) || (value == 0xffff && ChecksumOf(data) == 0)
  {
    FieldAddsItsValue(data, offset, value);
    NoOverflow(data);
    NoOverflow(WithField(data, offset, value));
    FoldOfTotal(WordSum(data), value);
  }

  /** A last odd byte counts as the high byte of a word. */
  lemma {:induction false} OddByteIsHigh(data: seq<byte>)
    requires |data| % 2 == 1
    ensures ChecksumOf(data) == ChecksumOf(data + [0])
  {
    OddWords(data);
  }

  lemma {:induction false} OddWords(data: seq<byte>)
    requires |data| % 2 == 1
    ensures WordSum(data) == WordSum(data + [0])
    decreases |data|
  {
    if |data| > 1 {
      OddWords(data[2..]);
      assert (data + [0])[2..] == data[2..] + [0];
    } else {
      assert (data + [0])[2..] == [];
    }
  }

  /** The example of section 3 of RFC 1071: the words 0001, f203, f4f5 and f6f7 sum to ddf2. */
  lemma {:induction false} Example()
    ensures ChecksumOf([0x00, 0x01, 0xf2, 0x03, 0xf4, 0xf5, 0xf6, 0xf7]) == 0xffff - 0xddf2
  {
    var data := [0x00, 0x01, 0xf2, 0x03, 0xf4, 0xf5, 0xf6, 0xf7];
    assert data[2..] == [0xf2, 0x03, 0xf4, 0xf5, 0xf6, 0xf7] && data[2..][2..] == [0xf4, 0xf5, 0xf6, 0xf7];
    assert WordSum([0xf6, 0xf7]) == 0xf6f7 && WordSum([0xf4, 0xf5, 0xf6, 0xf7]) == 0xf4f5 + 0xf6f7;
    assert WordSum(data) == 0x2ddf0;
  }
}
