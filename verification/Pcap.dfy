/** The capture file: a global header, then packets each behind their own header. */
module Pcap {
  import opened CheckPoint
  import opened Layout

  const GLOBAL_HEADER: nat := 24
  const PACKET_HEADER: nat := 16
  const TWO_32: nat := 0x1_0000_0000

  /** A packet with the microsecond time it is written under. */
  datatype Frame = Frame(timestampUs: nat, bytes: seq<byte>)

  datatype Capture = Capture(sec: nat, usec: nat, bytes: seq<byte>)

  /** How reading ends: at the limit or the file's end, or with an error of the loop or of a packet. */
  datatype Ending =
    | Done | TruncatedGlobal | NotPcap | BadVersion | NotEthernet | TruncatedHeader | TruncatedPacket | BadPacket

  datatype Reading = Reading(packets: seq<Capture>, ending: Ending)

  // ------------------------------------------------------------------ writing

  /** The seven fields of a global header. */
  function HeaderOf(magic: u32, major: u16, minor: u16, zone: u32, accuracy: u32, snapLength: u32,
                    linkType: u32): (bs: seq<byte>)
    ensures |bs| == GLOBAL_HEADER
  {
    LittleEndian(magic, 4) + LittleEndian(major, 2) + LittleEndian(minor, 2) + LittleEndian(zone, 4) +
    LittleEndian(accuracy, 4) + LittleEndian(snapLength, 4) + LittleEndian(linkType, 4)
  }

  function GlobalHeader(): (bs: seq<byte>)
    ensures |bs| == GLOBAL_HEADER
  {
    HeaderOf(0xa1b2c3d4, 2, 4, 0, 0, 65535, 1)
  }

  function FrameBytes(f: Frame): (bs: seq<byte>)
    ensures |bs| == PACKET_HEADER + |f.bytes|
  {
    LittleEndian(f.timestampUs / 1_000_000 % TWO_32, 4) + LittleEndian(f.timestampUs % 1_000_000, 4) +
    LittleEndian(|f.bytes| % TWO_32, 4) + LittleEndian(|f.bytes| % TWO_32, 4) + f.bytes
  }

  function Frames(fs: seq<Frame>): seq<byte> {
    if fs == [] then [] else FrameBytes(fs[0]) + Frames(fs[1..])
  }

  lemma FramesFrom(fs: seq<Frame>, i: nat)
    requires i < |fs|
    ensures Frames(fs[i..]) == FrameBytes(fs[i]) + Frames(fs[i + 1..])
  {
    assert fs[i..][1..] == fs[i + 1..];
  }

  /** `write_pcap_packet`. */
  method WritePacket(stream: seq<byte>, f: Frame) returns (out: seq<byte>)
    ensures out == stream + FrameBytes(f)
  {
    out := stream + LittleEndian(f.timestampUs / 1_000_000 % TWO_32, 4);
    out := out + LittleEndian(f.timestampUs % 1_000_000, 4);
    out := out + LittleEndian(|f.bytes| % TWO_32, 4);
    out := out + LittleEndian(|f.bytes| % TWO_32, 4);
    out := out + f.bytes;
  }

  /** The generator's output loop, behind whatever the stream already holds. */
  method WritePackets(stream: seq<byte>, fs: seq<Frame>) returns (out: seq<byte>)
    ensures out == stream + Frames(fs)
  {
    out := stream;
    var i := 0;
    while i < |fs|
      invariant 0 <= i <= |fs| && out + Frames(fs[i..]) == stream + Frames(fs)
    {
      FramesFrom(fs, i);
      ghost var one, more := FrameBytes(fs[i]), Frames(fs[i + 1..]);
      assert out + (one + more) == out + one + more;
      out := WritePacket(out, fs[i]);
      i := i + 1;
    }
  }

  method WriteCapture(fs: seq<Frame>) returns (out: seq<byte>)
    ensures out == GlobalHeader() + Frames(fs)
  {
    out := GlobalHeader();
    out := WritePackets(out, fs);
  }

  // ------------------------------------------------------------------ what reading means

  function ReadFrames(s: seq<byte>, limit: nat, index: nat, accepts: seq<byte> -> bool): Reading
    decreases |s|
  {
    if limit != 0 && index >= limit then Reading([], Done)
    else if s == [] then Reading([], Done)
    else if |s| < PACKET_HEADER then Reading([], TruncatedHeader)
    else
      var caplen := FromLittleEndian(s[8..12]);
      if |s| < PACKET_HEADER + caplen then Reading([], TruncatedPacket)
      else
        var bytes := s[PACKET_HEADER..PACKET_HEADER + caplen];
        if !accepts(bytes) then Reading([], BadPacket)
        else
          var rest := ReadFrames(s[PACKET_HEADER + caplen..], limit, index + 1, accepts);
          Reading([Capture(FromLittleEndian(s[..4]), FromLittleEndian(s[4..8]), bytes)] + rest.packets, rest.ending)
  }

  function ReadCapture(file: seq<byte>, limit: nat, accepts: seq<byte> -> bool): Reading {
    if |file| < GLOBAL_HEADER then Reading([], TruncatedGlobal)
    else if FromLittleEndian(file[..4]) != 0xa1b2c3d4 then Reading([], NotPcap)
    else if FromLittleEndian(file[4..6]) != 2 || FromLittleEndian(file[6..8]) != 4 then Reading([], BadVersion)
    else if FromLittleEndian(file[20..24]) != 1 then Reading([], NotEthernet)
    else ReadFrames(file[GLOBAL_HEADER..], limit, 0, accepts)
  }

  /** `print_pcap`: the framing loop over the file, `accepts` standing for `print_packet` not throwing. */
  method PrintPcap(file: seq<byte>, limit: nat, accepts: seq<byte> -> bool) returns (r: Reading)
    ensures r == ReadCapture(file, limit, accepts)
  {
    if |file| < GLOBAL_HEADER { return Reading([], TruncatedGlobal); }
    if FromLittleEndian(file[..4]) != 0xa1b2c3d4 { return Reading([], NotPcap); }
    if FromLittleEndian(file[4..6]) != 2 || FromLittleEndian(file[6..8]) != 4 { return Reading([], BadVersion); }
    if FromLittleEndian(file[20..24]) != 1 { return Reading([], NotEthernet); }
    var s, packets, index := file[GLOBAL_HEADER..], [], 0;
    while limit == 0 || index < limit
      invariant ReadCapture(file, limit, accepts) ==
                var rest := ReadFrames(s, limit, index, accepts); Reading(packets + rest.packets, rest.ending)
      invariant 0 <= index
      decreases |s|
    {
      if |s| == 0 { break; }
      if |s| < PACKET_HEADER { return Reading(packets, TruncatedHeader); }
      var caplen := FromLittleEndian(s[8..12]);
      if |s| - PACKET_HEADER < caplen { return Reading(packets, TruncatedPacket); }
      var bytes := s[PACKET_HEADER..PACKET_HEADER + caplen];
      if !accepts(bytes) { return Reading(packets, BadPacket); }
      var one := Capture(FromLittleEndian(s[..4]), FromLittleEndian(s[4..8]), bytes);
      ghost var rest := ReadFrames(s[PACKET_HEADER + caplen..], limit, index + 1, accepts);
      assert packets + ([one] + rest.packets) == packets + [one] + rest.packets;
      packets := packets + [one];
      s := s[PACKET_HEADER + caplen..];
      index := index + 1;
    }
    return Reading(packets, Done);
  }

  // ------------------------------------------------------------------ round trip

  /** What a written frame reads back as: seconds keep 32 bits. */
  function Captured(f: Frame): Capture {
    Capture(f.timestampUs / 1_000_000 % TWO_32, f.timestampUs % 1_000_000, f.bytes)
  }

  function CapturedAll(fs: seq<Frame>): (cs: seq<Capture>)
    ensures |cs| == |fs| && forall i :: 0 <= i < |fs| ==> cs[i] == Captured(fs[i])
  {
    seq(|fs|, i requires 0 <= i < |fs| => Captured(fs[i]))
  }

  lemma CapturedCons(fs: seq<Frame>, k: nat)
    requires 0 < k <= |fs|
    ensures CapturedAll(fs[..k]) == [Captured(fs[0])] + CapturedAll(fs[1..][..k - 1])
  {
  }

  /** Below 2^32 seconds the two fields are the time itself. */
  lemma TimestampReadsBack(f: Frame)
    ensures Captured(f).sec * 1_000_000 + Captured(f).usec == f.timestampUs <==> f.timestampUs < TWO_32 * 1_000_000
  {
  }

  predicate Writable(f: Frame, accepts: seq<byte> -> bool) {
    |f.bytes| < TWO_32 && accepts(f.bytes)
  }

  lemma FrameFields(f: Frame, rest: seq<byte>, s: seq<byte>)
    requires |f.bytes| < TWO_32 && s == FrameBytes(f) + rest
    ensures FromLittleEndian(s[..4]) == Captured(f).sec && FromLittleEndian(s[4..8]) == Captured(f).usec
    ensures FromLittleEndian(s[8..12]) == |f.bytes|
    ensures s[16..16 + |f.bytes|] == f.bytes && s[16 + |f.bytes|..] == rest
  {
    FramePlaces(f, rest, s);
    WordReadsBack(Captured(f).sec);
    WordReadsBack(Captured(f).usec);
    WordReadsBack(|f.bytes|);
  }

  lemma {:induction false} FramePlaces(f: Frame, rest: seq<byte>, s: seq<byte>)
    requires |f.bytes| < TWO_32 && s == FrameBytes(f) + rest
    ensures s[..4] == LittleEndian(Captured(f).sec, 4) && s[4..8] == LittleEndian(Captured(f).usec, 4)
    ensures s[8..12] == LittleEndian(|f.bytes|, 4)
    ensures s[16..16 + |f.bytes|] == f.bytes && s[16 + |f.bytes|..] == rest
  {
    var size := LittleEndian(|f.bytes|, 4);
    assert |f.bytes| % TWO_32 == |f.bytes|;
    PacketPlaces(LittleEndian(Captured(f).sec, 4), LittleEndian(Captured(f).usec, 4), size, size, f.bytes, rest, s);
  }

  /** Four words, a packet and what lies behind it. */
  lemma {:induction false} PacketPlaces(a: seq<byte>, b: seq<byte>, c: seq<byte>, d: seq<byte>, bytes: seq<byte>,
                                        rest: seq<byte>, s: seq<byte>)
    requires |a| == 4 && |b| == 4 && |c| == 4 && |d| == 4 && s == a + b + c + d + bytes + rest
    ensures s[..4] == a && s[4..8] == b && s[8..12] == c && s[12..16] == d
    ensures s[16..16 + |bytes|] == bytes && s[16 + |bytes|..] == rest
  {
  }

  lemma WordReadsBack(v: u32)
    ensures FromLittleEndian(LittleEndian(v, 4)) == v
  {
    Pow256Values();
    ReadsBack(v, 4);
  }

  lemma FrameReads(f: Frame, rest: seq<byte>, limit: nat, index: nat, accepts: seq<byte> -> bool)
    requires Writable(f, accepts) && (limit == 0 || index < limit)
    ensures ReadFrames(FrameBytes(f) + rest, limit, index, accepts) ==
            var after := ReadFrames(rest, limit, index + 1, accepts);
            Reading([Captured(f)] + after.packets, after.ending)
  {
    FrameFields(f, rest, FrameBytes(f) + rest);
  }

  /** How many of `n` packets a limit lets through. */
  function Limited(n: nat, limit: nat, index: nat): (k: nat)
    ensures k <= n && (k > 0 ==> limit == 0 || index < limit)
  {
    if limit == 0 || index + n <= limit then n else if index < limit then limit - index else 0
  }

  lemma {:induction false} FramesReadBack(fs: seq<Frame>, limit: nat, index: nat, accepts: seq<byte> -> bool)
    requires forall f :: f in fs ==> Writable(f, accepts)
    ensures ReadFrames(Frames(fs), limit, index, accepts) ==
            Reading(CapturedAll(fs[..Limited(|fs|, limit, index)]), Done)
  {
    if fs != [] && (limit == 0 || index < limit) {
      assert fs[0] in fs;
      FramesReadBack(fs[1..], limit, index + 1, accepts);
      FirstReadBack(fs, limit, index, accepts);
    } else {
      assert CapturedAll(fs[..0]) == [];
    }
  }

  lemma {:induction false} FirstReadBack(fs: seq<Frame>, limit: nat, index: nat, accepts: seq<byte> -> bool)
    requires fs != [] && Writable(fs[0], accepts) && (limit == 0 || index < limit)
    requires ReadFrames(Frames(fs[1..]), limit, index + 1, accepts) ==
             Reading(CapturedAll(fs[1..][..Limited(|fs| - 1, limit, index + 1)]), Done)
    ensures ReadFrames(Frames(fs), limit, index, accepts) ==
            Reading(CapturedAll(fs[..Limited(|fs|, limit, index)]), Done)
  {
    FrameReads(fs[0], Frames(fs[1..]), limit, index, accepts);
    CapturedCons(fs, Limited(|fs|, limit, index));
  }

  lemma HeaderFields(magic: u32, major: u16, minor: u16, zone: u32, accuracy: u32, snapLength: u32, linkType: u32,
                     file: seq<byte>)
    requires |file| >= GLOBAL_HEADER
    requires file[..GLOBAL_HEADER] == HeaderOf(magic, major, minor, zone, accuracy, snapLength, linkType)
    ensures FromLittleEndian(file[..4]) == magic && FromLittleEndian(file[4..6]) == major
    ensures FromLittleEndian(file[6..8]) == minor && FromLittleEndian(file[20..24]) == linkType
  {
    Pow256Values();
    var g := file[..GLOBAL_HEADER];
    assert file[..4] == g[..4] == LittleEndian(magic, 4) && file[4..6] == g[4..6] == LittleEndian(major, 2);
    assert file[6..8] == g[6..8] == LittleEndian(minor, 2) && file[20..24] == g[20..24] == LittleEndian(linkType, 4);
    ReadsBack(magic, 4);
    ReadsBack(major, 2);
    ReadsBack(minor, 2);
    ReadsBack(linkType, 4);
  }

  lemma HeadedFileReads(file: seq<byte>, limit: nat, accepts: seq<byte> -> bool)
    requires |file| >= GLOBAL_HEADER && file[..GLOBAL_HEADER] == GlobalHeader()
    ensures ReadCapture(file, limit, accepts) == ReadFrames(file[GLOBAL_HEADER..], limit, 0, accepts)
  {
    HeaderFields(0xa1b2c3d4, 2, 4, 0, 0, 65535, 1, file);
  }

  lemma HeadedSplit(header: seq<byte>, frames: seq<byte>)
    requires |header| == GLOBAL_HEADER
    ensures (header + frames)[..GLOBAL_HEADER] == header && (header + frames)[GLOBAL_HEADER..] == frames
  {
  }

  /** A written capture reads back packet for packet; a limit other than 0 returns the first that many. */
  lemma {:induction false} CaptureReadsBack(fs: seq<Frame>, limit: nat, accepts: seq<byte> -> bool)
    requires forall f :: f in fs ==> Writable(f, accepts)
    ensures ReadCapture(GlobalHeader() + Frames(fs), limit, accepts) ==
            Reading(CapturedAll(if limit != 0 && limit < |fs| then fs[..limit] else fs), Done)
  {
    HeadedSplit(GlobalHeader(), Frames(fs));
    HeadedFileReads(GlobalHeader() + Frames(fs), limit, accepts);
    FramesReadBack(fs, limit, 0, accepts);
    assert fs[..|fs|] == fs;
  }

  // ------------------------------------------------------------------ truncation

  /** Packets that lie whole within the first `n` bytes. */
  function WholeFrames(fs: seq<Frame>, n: nat): (k: nat)
    ensures k <= |fs|
  {
    if fs == [] || n < |FrameBytes(fs[0])| then 0 else 1 + WholeFrames(fs[1..], n - |FrameBytes(fs[0])|)
  }

  lemma CutFrame(f: Frame, rest: seq<byte>, n: nat, accepts: seq<byte> -> bool, limit: nat, index: nat)
    requires |f.bytes| < TWO_32 && 0 < n < |FrameBytes(f)| && (limit == 0 || index < limit)
    ensures ReadFrames((FrameBytes(f) + rest)[..n], limit, index, accepts) ==
            Reading([], if n < PACKET_HEADER then TruncatedHeader else TruncatedPacket)
  {
    var s, whole := (FrameBytes(f) + rest)[..n], FrameBytes(f) + rest;
    FrameFields(f, rest, whole);
    if n >= PACKET_HEADER { assert s[8..12] == whole[8..12]; }
  }

  /** What reading the first `n` bytes of `fs` must give, `index` packets having been read before. */
  predicate CutRight(fs: seq<Frame>, n: nat, limit: nat, index: nat, r: Reading) {
    var k := WholeFrames(fs, n);
    var left := n - |Frames(fs[..k])|;
    && r.packets == CapturedAll(fs[..Limited(k, limit, index)]) && left >= 0
    && r.ending == if left == 0 || (limit != 0 && index + k >= limit) then Done
                   else if left < PACKET_HEADER then TruncatedHeader else TruncatedPacket
  }

  lemma CutRightCons(fs: seq<Frame>, n: nat, limit: nat, index: nat, after: Reading)
    requires fs != [] && n >= |FrameBytes(fs[0])| && (limit == 0 || index < limit)
    requires CutRight(fs[1..], n - |FrameBytes(fs[0])|, limit, index + 1, after)
    ensures CutRight(fs, n, limit, index, Reading([Captured(fs[0])] + after.packets, after.ending))
  {
    var k := WholeFrames(fs, n);
    assert fs[..k][1..] == fs[1..][..k - 1];
    CapturedCons(fs, Limited(k, limit, index));
  }

  lemma {:induction false} WholeFramesFit(fs: seq<Frame>, n: nat)
    ensures |Frames(fs[..WholeFrames(fs, n)])| <= n
  {
    if fs != [] && n >= |FrameBytes(fs[0])| {
      WholeFramesFit(fs[1..], n - |FrameBytes(fs[0])|);
      assert fs[..WholeFrames(fs, n)][1..] == fs[1..][..WholeFrames(fs, n) - 1];
    }
  }

  lemma CutAtLimit(fs: seq<Frame>, n: nat, limit: nat, index: nat)
    requires limit != 0 && index >= limit
    ensures CutRight(fs, n, limit, index, Reading([], Done))
  {
    WholeFramesFit(fs, n);
  }

  lemma {:induction false} CutInFirst(fs: seq<Frame>, n: nat, limit: nat, index: nat)
    requires (limit == 0 || index < limit) && (fs == [] ==> n == 0) && (fs != [] ==> n < |FrameBytes(fs[0])|)
    ensures CutRight(fs, n, limit, index,
                     Reading([], if n == 0 then Done
                                 else if n < PACKET_HEADER then TruncatedHeader else TruncatedPacket))
  {
    assert fs[..0] == [];
  }

  lemma {:induction false} CutFrames(fs: seq<Frame>, n: nat, limit: nat, index: nat, accepts: seq<byte> -> bool,
                                     s: seq<byte>, r: Reading)
    requires n <= |Frames(fs)| && s == Frames(fs)[..n] && forall f :: f in fs ==> Writable(f, accepts)
    requires r == ReadFrames(s, limit, index, accepts)
    ensures CutRight(fs, n, limit, index, r)
    decreases |fs|
  {
    if n == 0 || (limit != 0 && index >= limit) {
      CutRightAway(fs, n, limit, index, accepts, s, r);
    } else {
      assert fs[0] in fs;
      var first := |FrameBytes(fs[0])|;
      if n < first {
        CutInsideFirst(fs, n, limit, index, accepts, s, r);
      } else {
        var kept := Frames(fs[1..])[..n - first];
        var after := ReadFrames(kept, limit, index + 1, accepts);
        CutFrames(fs[1..], n - first, limit, index + 1, accepts, kept, after);
        CutBehindFirst(fs, n, limit, index, accepts, s, kept, r, after);
      }
    }
  }

  lemma {:induction false} CutRightAway(fs: seq<Frame>, n: nat, limit: nat, index: nat, accepts: seq<byte> -> bool,
                                        s: seq<byte>, r: Reading)
    requires n == 0 || (limit != 0 && index >= limit)
    requires n <= |Frames(fs)| && s == Frames(fs)[..n] && r == ReadFrames(s, limit, index, accepts)
    ensures CutRight(fs, n, limit, index, r)
  {
    EndsThere(s, limit, index, accepts);
    if limit != 0 && index >= limit { CutAtLimit(fs, n, limit, index); } else { CutInFirst(fs, n, limit, index); }
  }

  lemma {:induction false} CutInsideFirst(fs: seq<Frame>, n: nat, limit: nat, index: nat,
                                          accepts: seq<byte> -> bool, s: seq<byte>, r: Reading)
    requires fs != [] && 0 < n < |FrameBytes(fs[0])| && s == Frames(fs)[..n] && Writable(fs[0], accepts)
    requires (limit == 0 || index < limit) && r == ReadFrames(s, limit, index, accepts)
    ensures CutRight(fs, n, limit, index, r)
  {
    CutInFirst(fs, n, limit, index);
    CutFrame(fs[0], Frames(fs[1..]), n, accepts, limit, index);
  }

  lemma {:induction false} CutBehindFirst(fs: seq<Frame>, n: nat, limit: nat, index: nat, accepts: seq<byte> -> bool,
                                          s: seq<byte>, kept: seq<byte>, r: Reading, after: Reading)
    requires fs != [] && |FrameBytes(fs[0])| <= n <= |Frames(fs)| && s == Frames(fs)[..n] && Writable(fs[0], accepts)
    requires kept == Frames(fs[1..])[..n - |FrameBytes(fs[0])|] && (limit == 0 || index < limit)
    requires r == ReadFrames(s, limit, index, accepts) && after == ReadFrames(kept, limit, index + 1, accepts)
    requires CutRight(fs[1..], n - |FrameBytes(fs[0])|, limit, index + 1, after)
    ensures CutRight(fs, n, limit, index, r)
  {
    FirstOfMore(fs, n);
    FrameReads(fs[0], kept, limit, index, accepts);
    CutRightCons(fs, n, limit, index, after);
  }

  lemma FirstOfMore(fs: seq<Frame>, n: nat)
    requires fs != [] && |FrameBytes(fs[0])| <= n <= |Frames(fs)|
    ensures Frames(fs)[..n] == FrameBytes(fs[0]) + Frames(fs[1..])[..n - |FrameBytes(fs[0])|]
  {
    assert Frames(fs) == FrameBytes(fs[0]) + Frames(fs[1..]);
  }

  lemma CutFile(header: seq<byte>, frames: seq<byte>, n: nat)
    requires |header| == GLOBAL_HEADER <= n <= GLOBAL_HEADER + |frames|
    ensures var file := (header + frames)[..n];
            file[..GLOBAL_HEADER] == header && file[GLOBAL_HEADER..] == frames[..n - GLOBAL_HEADER]
  {
  }

  /**
   Prefix safety: a capture cut anywhere yields the packets that are whole in it, as far as the limit
   lets them through, and ends cleanly exactly when the limit was reached or the cut is a packet boundary.
   */
  lemma {:induction false} TruncatedCapture(fs: seq<Frame>, n: nat, limit: nat, accepts: seq<byte> -> bool)
    requires GLOBAL_HEADER <= n <= GLOBAL_HEADER + |Frames(fs)| && forall f :: f in fs ==> Writable(f, accepts)
    ensures CutRight(fs, n - GLOBAL_HEADER, limit, 0, ReadCapture((GlobalHeader() + Frames(fs))[..n], limit, accepts))
  {
    var file := (GlobalHeader() + Frames(fs))[..n];
    CutFile(GlobalHeader(), Frames(fs), n);
    HeadedFileReads(file, limit, accepts);
    var s := file[GLOBAL_HEADER..];
    CutFrames(fs, n - GLOBAL_HEADER, limit, 0, accepts, s, ReadFrames(s, limit, 0, accepts));
  }

  /** Cut inside the global header, the file is refused whole. */
  lemma TruncatedGlobalHeader(fs: seq<Frame>, n: nat, limit: nat, accepts: seq<byte> -> bool)
    requires n < GLOBAL_HEADER
    ensures ReadCapture((GlobalHeader() + Frames(fs))[..n], limit, accepts) == Reading([], TruncatedGlobal)
  {
  }

  // ------------------------------------------------------------------ captures of any program

  /** A packet as it lies in a file: its own length and the length it had on the wire, which may be another. */
  datatype Raw = Raw(sec: u32, usec: u32, original: u32, bytes: seq<byte>)

  function RawBytes(r: Raw): (bs: seq<byte>)
    requires |r.bytes| < TWO_32
    ensures |bs| == 16 + |r.bytes|
  {
    LittleEndian(r.sec, 4) + LittleEndian(r.usec, 4) +
    LittleEndian(|r.bytes|, 4) + LittleEndian(r.original, 4) + r.bytes
  }

  function RawAll(rs: seq<Raw>): seq<byte>
    requires forall i :: 0 <= i < |rs| ==> |rs[i].bytes| < TWO_32
  {
    if rs == [] then [] else RawBytes(rs[0]) + RawAll(rs[1..])
  }

  function Shown(rs: seq<Raw>): (cs: seq<Capture>)
    ensures |cs| == |rs| && forall i :: 0 <= i < |rs| ==> cs[i] == Capture(rs[i].sec, rs[i].usec, rs[i].bytes)
  {
    seq(|rs|, i requires 0 <= i < |rs| => Capture(rs[i].sec, rs[i].usec, rs[i].bytes))
  }

  ghost predicate Readable(rs: seq<Raw>, accepts: seq<byte> -> bool) {
    forall i :: 0 <= i < |rs| ==> |rs[i].bytes| < TWO_32 && accepts(rs[i].bytes)
  }

  lemma {:induction false} RawFields(r: Raw, rest: seq<byte>, s: seq<byte>)
    requires |r.bytes| < TWO_32 && s == RawBytes(r) + rest
    ensures |s| >= 16 + |r.bytes| && FromLittleEndian(s[..4]) == r.sec && FromLittleEndian(s[4..8]) == r.usec
    ensures FromLittleEndian(s[8..12]) == |r.bytes| && FromLittleEndian(s[12..16]) == r.original
    ensures s[16..16 + |r.bytes|] == r.bytes && s[16 + |r.bytes|..] == rest
  {
    RawPlaces(r, rest, s);
    WordReadsBack(r.sec);
    WordReadsBack(r.usec);
    WordReadsBack(|r.bytes|);
    WordReadsBack(r.original);
  }

  lemma {:induction false} RawPlaces(r: Raw, rest: seq<byte>, s: seq<byte>)
    requires |r.bytes| < TWO_32 && s == RawBytes(r) + rest
    ensures |s| >= 16 + |r.bytes| && s[..4] == LittleEndian(r.sec, 4) && s[4..8] == LittleEndian(r.usec, 4)
    ensures s[8..12] == LittleEndian(|r.bytes|, 4) && s[12..16] == LittleEndian(r.original, 4)
    ensures s[16..16 + |r.bytes|] == r.bytes && s[16 + |r.bytes|..] == rest
  {
    PacketPlaces(LittleEndian(r.sec, 4), LittleEndian(r.usec, 4), LittleEndian(|r.bytes|, 4),
                 LittleEndian(r.original, 4), r.bytes, rest, s);
  }

  lemma {:induction false} RawReads(r: Raw, rest: seq<byte>, limit: nat, index: nat,
                                    accepts: seq<byte> -> bool, s: seq<byte>)
    requires |r.bytes| < TWO_32 && accepts(r.bytes) && (limit == 0 || index < limit) && s == RawBytes(r) + rest
    ensures ReadFrames(s, limit, index, accepts) ==
            var after := ReadFrames(rest, limit, index + 1, accepts);
            Reading([Capture(r.sec, r.usec, r.bytes)] + after.packets, after.ending)
  {
    RawFields(r, rest, s);
  }

  lemma {:induction false} RawListReads(rs: seq<Raw>, rest: seq<byte>, limit: nat, index: nat, end: nat,
                                        accepts: seq<byte> -> bool, s: seq<byte>, after: Reading)
    requires Readable(rs, accepts) && end == index + |rs| && (limit == 0 || end <= limit) && s == RawAll(rs) + rest
    requires after == ReadFrames(rest, limit, end, accepts)
    ensures ReadFrames(s, limit, index, accepts) == Reading(Shown(rs) + after.packets, after.ending)
    decreases |rs|
  {
    if rs == [] {
      NothingBefore(rs, rest, s, after);
    } else {
      var tail := RawAll(rs[1..]) + rest;
      RawListReads(rs[1..], rest, limit, index + 1, end, accepts, tail, after);
      FirstSplitsOff(rs, rest, s);
      FirstRawReads(rs, tail, limit, index, accepts, s, after);
    }
  }

  lemma {:induction false} NothingBefore(rs: seq<Raw>, rest: seq<byte>, s: seq<byte>, after: Reading)
    requires rs == [] && s == RawAll(rs) + rest
    ensures s == rest && after == Reading(Shown(rs) + after.packets, after.ending)
  {
  }

  lemma {:induction false} FirstSplitsOff(rs: seq<Raw>, rest: seq<byte>, s: seq<byte>)
    requires rs != [] && (forall i :: 0 <= i < |rs| ==> |rs[i].bytes| < TWO_32) && s == RawAll(rs) + rest
    ensures s == RawBytes(rs[0]) + (RawAll(rs[1..]) + rest)
  {
    SplitOn(RawBytes(rs[0]), RawAll(rs[1..]) + rest, RawAll(rs[1..]), rest);
  }

  lemma {:induction false} FirstRawReads(rs: seq<Raw>, tail: seq<byte>, limit: nat, index: nat,
                                         accepts: seq<byte> -> bool, s: seq<byte>, after: Reading)
    requires rs != [] && Readable(rs, accepts) && (limit == 0 || index < limit) && s == RawBytes(rs[0]) + tail
    requires ReadFrames(tail, limit, index + 1, accepts) == Reading(Shown(rs[1..]) + after.packets, after.ending)
    ensures ReadFrames(s, limit, index, accepts) == Reading(Shown(rs) + after.packets, after.ending)
  {
    RawReads(rs[0], tail, limit, index, accepts, s);
    ShownCons(rs, after.packets);
  }

  lemma {:induction false} ShownCons(rs: seq<Raw>, more: seq<Capture>)
    requires rs != []
    ensures Shown(rs) + more == [Capture(rs[0].sec, rs[0].usec, rs[0].bytes)] + (Shown(rs[1..]) + more)
  {
  }

  /** Reading behind the last packet, or at the limit, ends cleanly. */
  lemma {:induction false} EndsThere(s: seq<byte>, limit: nat, index: nat, accepts: seq<byte> -> bool)
    requires s == [] || (limit != 0 && index >= limit)
    ensures ReadFrames(s, limit, index, accepts) == Reading([], Done)
  {
  }

  lemma {:induction false} RawSplits(rs: seq<Raw>, k: nat)
    requires k <= |rs| && forall i :: 0 <= i < |rs| ==> |rs[i].bytes| < TWO_32
    ensures RawAll(rs) == RawAll(rs[..k]) + RawAll(rs[k..])
  {
    if k == 0 {
      assert rs[..0] == [] && rs[0..] == rs;
    } else {
      RawSplits(rs[1..], k - 1);
      assert rs[..k][1..] == rs[1..][..k - 1] && rs[1..][k - 1..] == rs[k..];
      SplitOn(RawBytes(rs[0]), RawAll(rs[1..]), RawAll(rs[1..][..k - 1]), RawAll(rs[k..]));
    }
  }

  lemma {:induction false} SplitOn(first: seq<byte>, others: seq<byte>, a: seq<byte>, b: seq<byte>)
    requires others == a + b
    ensures first + others == first + a + b
  {
  }

  /**
   A capture of any program: whatever the packets' original lengths, a packet is as many bytes as its captured
   length says, and reading gives every packet's time and bytes in order, the first so many under a limit.
   */
  lemma {:induction false} AnyCaptureReads(rs: seq<Raw>, limit: nat, accepts: seq<byte> -> bool)
    requires Readable(rs, accepts)
    ensures ReadCapture(GlobalHeader() + RawAll(rs), limit, accepts) ==
            Reading(Shown(if limit != 0 && limit < |rs| then rs[..limit] else rs), Done)
  {
    var k := if limit != 0 && limit < |rs| then limit else |rs|;
    RawSplits(rs, k);
    EndsThere(RawAll(rs[k..]), limit, k, accepts);
    HeadedSplit(GlobalHeader(), RawAll(rs));
    HeadedFileReads(GlobalHeader() + RawAll(rs), limit, accepts);
    RawListReads(rs[..k], RawAll(rs[k..]), limit, 0, k, accepts, RawAll(rs), Reading([], Done));
    assert rs[..|rs|] == rs;
  }

  /** A packet that `print_packet` refuses ends the reading with its error, behind everything before it. */
  lemma {:induction false} RefusedPacketEnds(rs: seq<Raw>, bad: Raw, rest: seq<byte>, limit: nat,
                                             accepts: seq<byte> -> bool)
    requires Readable(rs, accepts) && |bad.bytes| < TWO_32 && !accepts(bad.bytes) && (limit == 0 || |rs| < limit)
    ensures ReadCapture(GlobalHeader() + (RawAll(rs) + (RawBytes(bad) + rest)), limit, accepts) ==
            Reading(Shown(rs), BadPacket)
  {
    var tail := RawBytes(bad) + rest;
    HeadedSplit(GlobalHeader(), RawAll(rs) + tail);
    HeadedFileReads(GlobalHeader() + (RawAll(rs) + tail), limit, accepts);
    RawFields(bad, rest, tail);
    RawListReads(rs, tail, limit, 0, |rs|, accepts, RawAll(rs) + tail, Reading([], BadPacket));
  }

  /** The written global header, byte by byte. */
  lemma {:induction false} GlobalHeaderBytes()
    ensures GlobalHeader() == [0xd4, 0xc3, 0xb2, 0xa1, 2, 0, 4, 0, 0, 0, 0, 0, 0, 0, 0, 0, 0xff, 0xff, 0, 0, 1, 0, 0, 0]
  {
    MagicBytes();
    SmallBytes();
  }

  lemma {:induction false} MagicBytes()
    ensures LittleEndian(0xa1b2c3d4, 4) == [0xd4, 0xc3, 0xb2, 0xa1]
  {
    FourBytes(0xd4, 0xc3, 0xb2, 0xa1, 4);
  }

  lemma {:induction false} SmallBytes()
    ensures LittleEndian(2, 2) == [2, 0] && LittleEndian(4, 2) == [4, 0] && LittleEndian(0, 4) == [0, 0, 0, 0]
    ensures LittleEndian(65535, 4) == [0xff, 0xff, 0, 0] && LittleEndian(1, 4) == [1, 0, 0, 0]
  {
    TwoBytes(2, 0, 2);
    TwoBytes(4, 0, 2);
    FourBytes(0, 0, 0, 0, 4);
    FourBytes(0xff, 0xff, 0, 0, 4);
    FourBytes(1, 0, 0, 0, 4);
  }

  lemma {:induction false} TwoBytes(a: byte, b: byte, n: nat)
    requires n == 2
    ensures LittleEndian(a as nat + 0x100 * b as nat, n) == [a, b]
  {
    var v := a as nat + 0x100 * b as nat;
    assert v % 256 == a && v / 256 == b;
    assert LittleEndian(b, n - 1) == [b] + LittleEndian(0, n - 2);
  }

  lemma {:induction false} FourBytes(a: byte, b: byte, c: byte, d: byte, n: nat)
    requires n == 4
    ensures LittleEndian(a as nat + 0x100 * b as nat + 0x1_0000 * c as nat + 0x100_0000 * d as nat, n) == [a, b, c, d]
  {
    var high := c as nat + 0x100 * d as nat;
    var v, rest := a as nat + 0x100 * b as nat + 0x1_0000 * high, b as nat + 0x100 * high;
    assert v % 256 == a && v / 256 == rest && rest % 256 == b && rest / 256 == high;
    TwoBytes(c, d, n - 2);
    assert LittleEndian(v, n) == [a] + LittleEndian(rest, n - 1);
    assert LittleEndian(rest, n - 1) == [b] + LittleEndian(high, n - 2);
  }

  /** Files with another global header: which error, by the first field that is wrong. */
  lemma {:induction false} ForeignHeaderIsRefused(magic: u32, major: u16, minor: u16, zone: u32, accuracy: u32,
                                                  snapLength: u32, linkType: u32, rest: seq<byte>, limit: nat,
                                                  accepts: seq<byte> -> bool, file: seq<byte>)
    requires file == HeaderOf(magic, major, minor, zone, accuracy, snapLength, linkType) + rest
    ensures magic != 0xa1b2c3d4 ==> ReadCapture(file, limit, accepts) == Reading([], NotPcap)
    ensures magic == 0xa1b2c3d4 && (major != 2 || minor != 4) ==>
            ReadCapture(file, limit, accepts) == Reading([], BadVersion)
    ensures magic == 0xa1b2c3d4 && major == 2 && minor == 4 && linkType != 1 ==>
            ReadCapture(file, limit, accepts) == Reading([], NotEthernet)
    ensures magic == 0xa1b2c3d4 && major == 2 && minor == 4 && linkType == 1 ==>
            ReadCapture(file, limit, accepts) == ReadFrames(rest, limit, 0, accepts)
  {
    HeadedSplit(HeaderOf(magic, major, minor, zone, accuracy, snapLength, linkType), rest);
    HeaderFields(magic, major, minor, zone, accuracy, snapLength, linkType, file);
  }
}
