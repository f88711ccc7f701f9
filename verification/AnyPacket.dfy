/** What the parse makes of packets from any sender: IPv4 options, several messages, bytes behind them. */
module AnyPacket {
  import opened BigEndian
  import opened CheckPoint
  import opened Itch5
  import opened PacketPrint

  // ------------------------------------------------------------------ lists of messages

  ghost predicate Parseable(ms: seq<seq<byte>>) {
    forall i :: 0 <= i < |ms| ==> |ms[i]| <= 0xffff && ParseMessage(ms[i]).Parsed?
  }

  /** Each message behind its two-byte length. */
  function Wrapped(ms: seq<seq<byte>>): seq<byte>
    requires forall i :: 0 <= i < |ms| ==> |ms[i]| <= 0xffff
  {
    if ms == [] then [] else [|ms[0]| / 256, |ms[0]| % 256] + ms[0] + Wrapped(ms[1..])
  }

  /** Each message with the bytes behind the struct its first byte selects. */
  function Shown(ms: seq<seq<byte>>): seq<Found>
    requires forall i :: 0 <= i < |ms| ==> |ms[i]| >= 11 && |ms[i]| >= MessageSize(ms[i][0])
  {
    seq(|ms|, i requires 0 <= i < |ms| => Found(ms[i], |ms[i]| - MessageSize(ms[i][0])))
  }

  /** Two bytes in network order. */
  function Word(high: byte, low: byte): nat {
    high as nat * 256 + low as nat
  }

  lemma {:induction false} ValueOfTwo(bs: seq<byte>)
    requires |bs| == 2
    ensures Value(bs) == Word(bs[0], bs[1])
  {
    var front := bs[..1];
    assert front[..0] == [];
    assert Value(front) == 256 * Value(front[..0]) + front[0];
  }

  lemma {:induction false} LengthRead(payload: seq<byte>, offset: nat, n: nat)
    requires offset + 2 <= |payload| && n <= 0xffff
    requires payload[offset] == n / 256 && payload[offset + 1] == n % 256
    ensures Value(payload[offset..offset + 2]) == n
  {
    ValueOfTwo(payload[offset..offset + 2]);
  }

  /** One whole message, and the next one right behind it. */
  lemma {:induction false} OneRead(payload: seq<byte>, offset: nat, m: seq<byte>, count: nat)
    requires count > 0 && |m| <= 0xffff && ParseMessage(m).Parsed? && offset + 2 + |m| <= |payload|
    requires payload[offset] == |m| / 256 && payload[offset + 1] == |m| % 256
    requires payload[offset + 2..offset + 2 + |m|] == m
    ensures ReadMessages(payload, offset, count) ==
            var rest := ReadMessages(payload, offset + 2 + |m|, count - 1);
            if rest.Bad? then rest else All([Found(m, |m| - MessageSize(m[0]))] + rest.found)
  {
    LengthRead(payload, offset, |m|);
  }

  lemma {:induction false} PartsLie(before: seq<byte>, head: seq<byte>, m: seq<byte>, tail: seq<byte>,
                                    payload: seq<byte>)
    requires |head| == 2 && payload == before + head + m + tail
    ensures |before| + 2 + |m| <= |payload| && payload[|before|] == head[0] && payload[|before| + 1] == head[1]
    ensures payload[|before| + 2..|before| + 2 + |m|] == m
  {
  }

  /** Where the first message of a list lies in a payload, and the others behind it. */
  lemma {:induction false} FirstLies(before: seq<byte>, ms: seq<seq<byte>>, rest: seq<byte>, payload: seq<byte>)
    requires ms != [] && (forall i :: 0 <= i < |ms| ==> |ms[i]| <= 0xffff)
    requires payload == before + Wrapped(ms) + rest
    ensures var at, m := |before|, ms[0];
            && at + 2 + |m| <= |payload|
            && payload[at] == |m| / 256 && payload[at + 1] == |m| % 256 && payload[at + 2..at + 2 + |m|] == m
    ensures payload == Behind(before, ms[0]) + Wrapped(ms[1..]) + rest
  {
    var m, more := ms[0], Wrapped(ms[1..]);
    var head := [|m| / 256, |m| % 256];
    FirstSplits(before, head, m, more, rest);
    assert payload == before + head + m + (more + rest);
    PartsLie(before, head, m, more + rest, payload);
  }

  lemma FirstSplits(before: seq<byte>, head: seq<byte>, m: seq<byte>, more: seq<byte>, rest: seq<byte>)
    ensures before + (head + m + more) + rest == before + head + m + (more + rest)
    ensures before + (head + m + more) + rest == before + head + m + more + rest
  {
  }

  /** What lies before the next message. */
  function Behind(before: seq<byte>, m: seq<byte>): (r: seq<byte>)
    requires |m| <= 0xffff
    ensures |r| == |before| + 2 + |m|
  {
    before + [|m| / 256, |m| % 256] + m
  }

  lemma {:induction false} ShownCons(ms: seq<seq<byte>>)
    requires ms != [] && Parseable(ms)
    ensures Parseable(ms[1..]) && Shown(ms) == [Found(ms[0], |ms[0]| - MessageSize(ms[0][0]))] + Shown(ms[1..])
  {
  }

  /** The first message read, the others behind it already told. */
  lemma {:induction false} FirstAndOthers(payload: seq<byte>, at: nat, next: nat, m: seq<byte>, others: seq<Found>,
                                          count: nat)
    requires count > 0 && |m| <= 0xffff && ParseMessage(m).Parsed? && next == at + 2 + |m| <= |payload|
    requires payload[at] == |m| / 256 && payload[at + 1] == |m| % 256 && payload[at + 2..next] == m
    requires ReadMessages(payload, next, count - 1) == All(others)
    ensures ReadMessages(payload, at, count) == All([Found(m, |m| - MessageSize(m[0]))] + others)
  {
    OneRead(payload, at, m, count);
  }

  /** Reading as many messages as the list has gives the list, in order, whatever lies before and behind it. */
  lemma {:induction false} ListReads(before: seq<byte>, ms: seq<seq<byte>>, rest: seq<byte>, payload: seq<byte>)
    requires Parseable(ms) && payload == before + Wrapped(ms) + rest
    ensures ReadMessages(payload, |before|, |ms|) == All(Shown(ms))
    decreases |ms|
  {
    if ms != [] {
      var next := Behind(before, ms[0]);
      FirstLies(before, ms, rest, payload);
      ShownCons(ms);
      ListReads(next, ms[1..], rest, payload);
      FirstAndOthers(payload, |before|, |next|, ms[0], Shown(ms[1..]), |ms|);
    }
  }

  /** Cut anywhere before the end of the last message, the payload is refused as truncated. */
  lemma {:induction false} CutListIsRefused(before: seq<byte>, ms: seq<seq<byte>>, n: nat, payload: seq<byte>)
    requires Parseable(ms) && |before| <= n < |before| + |Wrapped(ms)| && payload == (before + Wrapped(ms))[..n]
    ensures ReadMessages(payload, |before|, |ms|) == Bad(TruncatedData)
    decreases |ms|
  {
    var at, m, whole := |before|, ms[0], before + Wrapped(ms);
    FirstLies(before, ms, [], whole + []);
    assert whole + [] == whole;
    if n >= at + 2 {
      assert payload[at] == whole[at] && payload[at + 1] == whole[at + 1];
      LengthRead(payload, at, |m|);
      if n >= at + 2 + |m| {
        assert payload[at + 2..at + 2 + |m|] == whole[at + 2..at + 2 + |m|];
        var next := Behind(before, m);
        assert whole == next + Wrapped(ms[1..]);
        CutListIsRefused(next, ms[1..], n, payload);
        RefusedOn(payload, at, |next|, m, |ms|);
      }
    }
  }

  /** A message shorter than the struct its first byte selects is refused as such, behind any good ones. */
  lemma {:induction false} ShortMessageIsRefused(before: seq<byte>, ms: seq<seq<byte>>, bad: seq<byte>, rest: seq<byte>,
                                                 payload: seq<byte>, count: nat)
    requires Parseable(ms) && |bad| <= 0xffff && ParseMessage(bad).TruncatedMessage? && count > |ms|
    requires payload == before + Wrapped(ms) + ([|bad| / 256, |bad| % 256] + bad + rest)
    ensures ReadMessages(payload, |before|, count) == Bad(TruncatedItch)
    decreases |ms|
  {
    var tail := [|bad| / 256, |bad| % 256] + bad + rest;
    if ms == [] {
      PartsLie(before, [|bad| / 256, |bad| % 256], bad, rest, payload);
      LengthRead(payload, |before|, |bad|);
    } else {
      var next := Behind(before, ms[0]);
      FirstLies(before, ms, tail, payload);
      ShortMessageIsRefused(next, ms[1..], bad, rest, payload, count - 1);
      RefusedOn(payload, |before|, |next|, ms[0], count);
    }
  }

  lemma {:induction false} RefusedOn(payload: seq<byte>, at: nat, next: nat, m: seq<byte>, count: nat)
    requires count > 0 && |m| <= 0xffff && ParseMessage(m).Parsed? && next == at + 2 + |m| <= |payload|
    requires payload[at] == |m| / 256 && payload[at + 1] == |m| % 256 && payload[at + 2..next] == m
    requires ReadMessages(payload, next, count - 1).Bad?
    ensures ReadMessages(payload, at, count) == ReadMessages(payload, next, count - 1)
  {
    OneRead(payload, at, m, count);
  }

  // ------------------------------------------------------------------ whole packets

  /** MoldUDP64: session, sequence number, count, then the messages. */
  lemma {:induction false} AnyPayloadReads(session: seq<byte>, sequence: seq<byte>, ms: seq<seq<byte>>, rest: seq<byte>,
                                           payload: seq<byte>, outer: Decoded)
    requires Parseable(ms) && |ms| <= 0xffff && |session| == 10 && |sequence| == 8
    requires payload == session + sequence + [|ms| / 256, |ms| % 256] + Wrapped(ms) + rest
    ensures ReadPayload(payload, outer) ==
            Accepted(outer.(session := session, sequence := Value(sequence), messages := Shown(ms)))
  {
    var before := session + sequence + [|ms| / 256, |ms| % 256];
    ListReads(before, ms, rest, payload);
    LengthRead(payload, 18, |ms|);
    assert payload[..10] == session && payload[10..18] == sequence;
  }

  /**
   Any packet: Ethernet addresses and unread fields of any value, an IPv4 header with any options, a UDP length
   that may end before the packet does, any list of messages and any bytes behind them. The parse gives every
   field from its place and the messages in order.
   */
  lemma {:induction false} AnyPacketParses(p: seq<byte>, options: nat, ms: seq<seq<byte>>, rest: seq<byte>)
    requires |p| >= 62 && p[12] == 0x08 && p[13] == 0x00 && options <= 10 && p[14] == 0x45 + options && p[23] == 17
    requires 34 + 4 * options + 8 <= |p| && Parseable(ms) && |ms| <= 0xffff
    requires var udp := 34 + 4 * options;
             var end := udp + Word(p[udp + 4], p[udp + 5]);
             && udp + 28 <= end <= |p|
             && p[udp + 26..end] == [|ms| / 256, |ms| % 256] + Wrapped(ms) + rest
    ensures var udp := 34 + 4 * options;
            ParsePacket(p) == Accepted(Decoded(
              Word(p[16], p[17]), p[26..30], p[30..34], Word(p[udp], p[udp + 1]), Word(p[udp + 2], p[udp + 3]),
              p[udp + 8..udp + 18], Value(p[udp + 18..udp + 26]), Shown(ms)))
  {
    var udp := 34 + 4 * options;
    var end := udp + Word(p[udp + 4], p[udp + 5]);
    ValueOfTwo(p[12..14]);
    ValueOfTwo(p[16..18]);
    ValueOfTwo(p[udp..udp + 2]);
    ValueOfTwo(p[udp + 2..udp + 4]);
    ValueOfTwo(p[udp + 4..udp + 6]);
    var payload := p[udp + 8..end];
    var outer := Outer(p).(srcPort := Value(p[udp..udp + 2]), dstPort := Value(p[udp + 2..udp + 4]));
    assert payload == p[udp + 8..udp + 18] + p[udp + 18..udp + 26] + p[udp + 26..end];
    assert payload ==
           p[udp + 8..udp + 18] + p[udp + 18..udp + 26] + [|ms| / 256, |ms| % 256] + Wrapped(ms) + rest;
    AnyPayloadReads(p[udp + 8..udp + 18], p[udp + 18..udp + 26], ms, rest, payload, outer);
    ReadsFromUdp(p, udp, end, outer);
  }

  lemma {:induction false} ReadsFromUdp(p: seq<byte>, udp: nat, end: nat, outer: Decoded)
    requires |p| >= 62 && udp + 8 <= |p| && Value(p[12..14]) == 0x0800 && p[14] / 16 == 4 && p[23] == 17
    requires udp == 14 + p[14] % 16 * 4 && p[14] % 16 >= 5 && udp + 8 <= end <= |p|
    requires Value(p[udp + 4..udp + 6]) == end - udp
    requires outer == Outer(p).(srcPort := Value(p[udp..udp + 2]), dstPort := Value(p[udp + 2..udp + 4]))
    ensures ParsePacket(p) == ReadPayload(p[udp + 8..end], outer)
  {
  }

  lemma {:induction false} BadMessagesAre(payload: seq<byte>, offset: nat, count: nat)
    requires offset <= |payload|
    ensures var r := ReadMessages(payload, offset, count); r.Bad? ==> r.why in {TruncatedData, TruncatedItch}
    decreases count
  {
    if count > 0 && offset + 2 <= |payload| {
      var length := Value(payload[offset..offset + 2]);
      if offset + 2 + length <= |payload| { BadMessagesAre(payload, offset + 2 + length, count - 1); }
    }
  }

  /** What can go wrong behind the IPv4 header. */
  lemma {:induction false} UdpFailures(p: seq<byte>, udp: nat, outer: Decoded)
    ensures var r := ReadUdp(p, udp, outer);
            r.Rejected? ==> r.why in {BadUdpLength, TruncatedUdp, TruncatedData, TruncatedItch}
    ensures udp + 8 <= |p| && 8 <= Value(p[udp + 4..udp + 6]) <= |p| - udp ==>
            ReadUdp(p, udp, outer).Rejected? ==> ReadUdp(p, udp, outer).why in {TruncatedData, TruncatedItch}
  {
    if udp + 8 <= |p| {
      var length := Value(p[udp + 4..udp + 6]);
      if 8 <= length && udp + length <= |p| {
        var payload := p[udp + 8..udp + length];
        if |payload| >= 20 { BadMessagesAre(payload, 20, Value(payload[18..20])); }
      }
    }
  }

  /** Which of its errors the parse reports, by the bytes that decide; the first that applies is the one. */
  lemma {:induction false} RejectedBecause(p: seq<byte>)
    ensures |p| < 62 <==> ParsePacket(p) == Rejected(TooSmall)
    ensures |p| >= 62 ==> ((p[12] != 0x08 || p[13] != 0x00) <==> ParsePacket(p) == Rejected(NotIpv4))
    ensures |p| >= 62 && p[12] == 0x08 && p[13] == 0x00 ==>
            (p[14] < 0x45 || p[14] > 0x4f <==> ParsePacket(p) == Rejected(BadIpv4Header))
    ensures |p| >= 62 && p[12] == 0x08 && p[13] == 0x00 && 0x45 <= p[14] <= 0x4f ==>
            (p[23] != 17 <==> ParsePacket(p) == Rejected(NotUdp))
  {
    if |p| >= 62 {
      ValueOfTwo(p[12..14]);
      UdpFailures(p, 14 + p[14] % 16 * 4, Outer(p));
    }
  }

  lemma {:induction false} HeaderPassed(p: seq<byte>, udp: nat)
    requires |p| >= 62 && Value(p[12..14]) == 0x0800 && 0x45 <= p[14] <= 0x4f && p[23] == 17
    requires udp == 14 + p[14] % 16 * 4
    ensures ParsePacket(p) == ReadUdp(p, udp, Outer(p))
  {
  }

  lemma {:induction false} UdpLengthDecides(p: seq<byte>, udp: nat, outer: Decoded, length: nat)
    requires udp + 8 <= |p| && Value(p[udp + 4..udp + 6]) == length
    ensures length < 8 <==> ReadUdp(p, udp, outer) == Rejected(BadUdpLength)
    ensures length >= 8 ==> (udp + length > |p| <==> ReadUdp(p, udp, outer) == Rejected(TruncatedUdp))
  {
    UdpFailures(p, udp, outer);
  }

  /** And by the UDP length, where the header reaches so far. */
  lemma {:induction false} RejectedByUdpLength(p: seq<byte>, udp: nat)
    requires |p| >= 62 && p[12] == 0x08 && p[13] == 0x00 && 0x45 <= p[14] <= 0x4f && p[23] == 17
    requires udp == 14 + p[14] % 16 * 4
    ensures udp + 8 > |p| ==> ParsePacket(p) == Rejected(TruncatedData)
    ensures udp + 8 <= |p| ==>
            var length := Word(p[udp + 4], p[udp + 5]);
            && (length < 8 <==> ParsePacket(p) == Rejected(BadUdpLength))
            && (length >= 8 ==> (udp + length > |p| <==> ParsePacket(p) == Rejected(TruncatedUdp)))
  {
    ValueOfTwo(p[12..14]);
    HeaderPassed(p, udp);
    if udp + 8 <= |p| {
      ValueOfTwo(p[udp + 4..udp + 6]);
      UdpLengthDecides(p, udp, Outer(p), Word(p[udp + 4], p[udp + 5]));
    }
  }
}
