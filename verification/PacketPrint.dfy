/** Taking a packet apart: a bounds-checked cursor, and the parse it drives. */
module PacketPrint {
  import opened BigEndian
  import opened CheckPoint
  import opened Checksum
  import opened Itch5
  import opened ItchPacket
  import opened Layout

  datatype Failure =
    | TooSmall | NotIpv4 | BadIpv4Header | NotUdp | BadUdpLength | TruncatedUdp | TruncatedData | TruncatedItch

  /** An ITCH message and the bytes behind the struct its type selects. */
  datatype Found = Found(message: seq<byte>, extraBytes: nat)

  datatype Decoded = Decoded(
    totalLength: nat, srcIp: seq<byte>, dstIp: seq<byte>, srcPort: nat, dstPort: nat,
    session: seq<byte>, sequence: nat, messages: seq<Found>)

  datatype Outcome = Accepted(packet: Decoded) | Rejected(why: Failure)

  datatype Messages = All(found: seq<Found>) | Bad(why: Failure)

  // ------------------------------------------------------------------ what the parse means

  const MIN_PACKET: nat := 62

  /** `count` length-prefixed messages of `payload` from `offset` on. */
  function ReadMessages(payload: seq<byte>, offset: nat, count: nat): Messages
    requires offset <= |payload|
    decreases count
  {
    if count == 0 then All([])
    else if offset + 2 > |payload| then Bad(TruncatedData)
    else
      var length := Value(payload[offset..offset + 2]);
      if offset + 2 + length > |payload| then Bad(TruncatedData)
      else
        var message := payload[offset + 2..offset + 2 + length];
        var parsed := ParseMessage(message);
        if parsed.TruncatedMessage? then Bad(TruncatedItch)
        else
          var rest := ReadMessages(payload, offset + 2 + length, count - 1);
          if rest.Bad? then rest else All([Found(message, parsed.extraBytes)] + rest.found)
  }

  function ReadPayload(payload: seq<byte>, outer: Decoded): Outcome {
    if |payload| < MOLD_HEADER then Rejected(TruncatedData)
    else
      var messages := ReadMessages(payload, MOLD_HEADER, Value(payload[18..20]));
      if messages.Bad? then Rejected(messages.why)
      else Accepted(outer.(session := payload[..10], sequence := Value(payload[10..18]), messages := messages.found))
  }

  function ReadUdp(p: seq<byte>, udp: nat, outer: Decoded): Outcome {
    if udp + UDP_HEADER > |p| then Rejected(TruncatedData)
    else
      var udpLength := Value(p[udp + 4..udp + 6]);
      if udpLength < UDP_HEADER then Rejected(BadUdpLength)
      else if udp + udpLength > |p| then Rejected(TruncatedUdp)
      else ReadPayload(p[udp + UDP_HEADER..udp + udpLength],
                       outer.(srcPort := Value(p[udp..udp + 2]), dstPort := Value(p[udp + 2..udp + 4])))
  }

  /** Every field at its absolute offset. */
  function ParsePacket(p: seq<byte>): Outcome {
    if |p| < MIN_PACKET then Rejected(TooSmall)
    else if Value(p[12..14]) != 0x0800 then Rejected(NotIpv4)
    else
      var ihl := p[14] % 16 * 4;
      if p[14] / 16 != 4 || ihl < IPV4_HEADER then Rejected(BadIpv4Header)
      else if p[23] != 17 then Rejected(NotUdp)
      else
        ReadUdp(p, ETHERNET_HEADER + ihl, Outer(p))
  }

  /** What the IPv4 header adds to what is printed. */
  function Outer(p: seq<byte>): Decoded
    requires |p| >= MIN_PACKET
  {
    Decoded(Value(p[16..18]), p[26..30], p[30..34], 0, 0, [], 0, [])
  }

  // ------------------------------------------------------------------ the cursor

  class Cursor {
    const data: seq<byte>
    var offset: nat

    ghost predicate Valid()
      reads this
    {
      offset <= |data|
    }

    constructor (data: seq<byte>)
      ensures Valid() && this.data == data && offset == 0
    {
      this.data, offset := data, 0;
    }

    /** `require`: whether so many bytes remain; the source throws when they do not. */
    predicate Has(bytes: nat)
      requires Valid()
      reads this
    {
      |data| - offset >= bytes
    }

    method Skip(bytes: nat) returns (ok: bool)
      requires Valid()
      modifies this
      ensures Valid() && ok == old(Has(bytes)) && offset == old(offset) + if ok then bytes else 0
    {
      ok := Has(bytes);
      if ok { offset := offset + bytes; }
    }

    method U8() returns (ok: bool, value: byte)
      requires Valid()
      modifies this
      ensures Valid() && ok == old(Has(1)) && offset == old(offset) + if ok then 1 else 0
      ensures ok ==> value == data[old(offset)]
    {
      ok, value := Has(1), 0;
      if ok {
        value := data[offset];
        offset := offset + 1;
      }
    }

    /** `u16_be` and `u64_be`: shifting in `n` bytes. */
    method UIntBe(n: nat) returns (ok: bool, value: nat)
      requires Valid()
      modifies this
      ensures Valid() && ok == old(Has(n)) && offset == old(offset) + if ok then n else 0
      ensures ok ==> value == Value(data[old(offset)..offset])
    {
      ok, value := Has(n), 0;
      if ok {
        var i := 0;
        while i < n
          invariant 0 <= i <= n && offset == old(offset) && value == Value(data[offset..offset + i])
        {
          assert data[offset..offset + i + 1][..i] == data[offset..offset + i];
          value := value * 256 + data[offset + i] as nat;
          i := i + 1;
        }
        offset := offset + n;
      }
    }

    method Ascii(bytes: nat) returns (ok: bool, text: seq<byte>)
      requires Valid()
      modifies this
      ensures Valid() && ok == old(Has(bytes)) && offset == old(offset) + if ok then bytes else 0
      ensures ok ==> text == data[old(offset)..offset]
    {
      ok, text := Has(bytes), [];
      if ok {
        text := data[offset..offset + bytes];
        offset := offset + bytes;
      }
    }
  }

  function Prepend(found: seq<Found>, rest: Messages): Messages {
    if rest.Bad? then rest else All(found + rest.found)
  }

  lemma PrependMore(found: seq<Found>, more: seq<Found>, rest: Messages)
    ensures Prepend(found, Prepend(more, rest)) == Prepend(found + more, rest)
  {
    if rest.All? { assert found + (more + rest.found) == found + more + rest.found; }
  }

  /** One turn of the message loop. */
  method PrintMessage(payload: Cursor, ghost left: nat) returns (r: Messages)
    requires payload.Valid() && left > 0
    modifies payload
    ensures payload.Valid()
    ensures r.Bad? ==> ReadMessages(payload.data, old(payload.offset), left) == r
    ensures r.All? ==> ReadMessages(payload.data, old(payload.offset), left) ==
                                         Prepend(r.found, ReadMessages(payload.data, payload.offset, left - 1))
  {
    var ok, length := payload.UIntBe(2);
    if !ok || !payload.Has(length) {
      return Bad(TruncatedData);
    }
    var message := payload.data[payload.offset..payload.offset + length];
    var parsed := ParseMessage(message);
    if parsed.TruncatedMessage? {
      return Bad(TruncatedItch);
    }
    ok := payload.Skip(length);
    r := All([Found(message, parsed.extraBytes)]);
  }

  /** The message loop of `print_packet`. */
  method PrintMessages(payload: Cursor, count: nat) returns (r: Messages)
    requires payload.Valid()
    modifies payload
    ensures r == ReadMessages(payload.data, old(payload.offset), count)
  {
    var found: seq<Found> := [];
    var i: nat := 0;
    while i < count
      invariant i <= count && payload.Valid()
      invariant ReadMessages(payload.data, old(payload.offset), count) ==
                Prepend(found, ReadMessages(payload.data, payload.offset, count - i))
    {
      r := PrintMessage(payload, count - i);
      if r.Bad? {
        return;
      }
      PrependMore(found, r.found, ReadMessages(payload.data, payload.offset, count - i - 1));
      found := found + r.found;
      i := i + 1;
    }
    return All(found);
  }

  method PrintPayload(bytes: seq<byte>, outer: Decoded) returns (r: Outcome)
    ensures r == ReadPayload(bytes, outer)
  {
    var payload := new Cursor(bytes);
    var ok, session := payload.Ascii(10);
    if !ok { return Rejected(TruncatedData); }
    var sequence, count;
    ok, sequence := payload.UIntBe(8);
    if !ok { return Rejected(TruncatedData); }
    ok, count := payload.UIntBe(2);
    if !ok { return Rejected(TruncatedData); }
    var messages := PrintMessages(payload, count);
    if messages.Bad? { return Rejected(messages.why); }
    return Accepted(outer.(session := session, sequence := sequence, messages := messages.found));
  }

  /** `print_packet` up to the fields it prints. */
  method PrintPacket(packet: seq<byte>) returns (r: Outcome)
    ensures r == ParsePacket(packet)
  {
    if |packet| < MIN_PACKET { return Rejected(TooSmall); }
    var cursor := new Cursor(packet);
    var ok := cursor.Skip(12);
    var etherType, versionIhl;
    ok, etherType := cursor.UIntBe(2);
    if etherType != 0x0800 { return Rejected(NotIpv4); }
    ok, versionIhl := cursor.U8();
    var ihl: nat := versionIhl as nat % 16 * 4;
    if versionIhl / 16 != 4 || ihl < IPV4_HEADER { return Rejected(BadIpv4Header); }
    r := PrintIpv4(packet, cursor, ihl);
  }

  /** The rest of the IPv4 header, read from behind its first byte. */
  method PrintIpv4(packet: seq<byte>, cursor: Cursor, ihl: nat) returns (r: Outcome)
    requires |packet| >= MIN_PACKET && cursor.data == packet && cursor.offset == 15 && IPV4_HEADER <= ihl
    modifies cursor
    ensures r == if packet[23] != 17 then Rejected(NotUdp)
                 else ReadUdp(packet, ETHERNET_HEADER + ihl, Outer(packet))
  {
    var totalLength, protocol := ReadIpv4(packet, cursor);
    if protocol != 17 { return Rejected(NotUdp); }
    if ihl > IPV4_HEADER {
      var ok := cursor.Skip(ihl - IPV4_HEADER);
      if !ok { return Rejected(TruncatedData); }
    }
    r := PrintUdp(packet, cursor, Decoded(totalLength, packet[26..30], packet[30..34], 0, 0, [], 0, []));
  }

  /** The twenty bytes every IPv4 header has, from behind its first one. */
  method ReadIpv4(packet: seq<byte>, cursor: Cursor) returns (totalLength: nat, protocol: byte)
    requires |packet| >= MIN_PACKET && cursor.data == packet && cursor.offset == 15
    modifies cursor
    ensures cursor.Valid() && cursor.offset == ETHERNET_HEADER + IPV4_HEADER
    ensures totalLength == Value(packet[16..18]) && protocol == packet[23]
  {
    var ok := cursor.Skip(1);
    ok, totalLength := cursor.UIntBe(2);
    ok := cursor.Skip(5);
    ok, protocol := cursor.U8();
    ok := cursor.Skip(2);
    ok := cursor.Skip(4);
    ok := cursor.Skip(4);
  }

  method PrintUdp(packet: seq<byte>, cursor: Cursor, outer: Decoded) returns (r: Outcome)
    requires cursor.Valid() && cursor.data == packet
    modifies cursor
    ensures r == ReadUdp(packet, old(cursor.offset), outer)
  {
    var srcPort, dstPort, udpLength;
    var ok;
    ok, srcPort := cursor.UIntBe(2);
    if !ok { return Rejected(TruncatedData); }
    ok, dstPort := cursor.UIntBe(2);
    if !ok { return Rejected(TruncatedData); }
    ok, udpLength := cursor.UIntBe(2);
    if !ok { return Rejected(TruncatedData); }
    ok := cursor.Skip(2);
    if !ok { return Rejected(TruncatedData); }
    if udpLength < UDP_HEADER { return Rejected(BadUdpLength); }
    if !cursor.Has(udpLength - UDP_HEADER) { return Rejected(TruncatedUdp); }
    r := PrintPayload(packet[cursor.offset..cursor.offset + (udpLength - UDP_HEADER)],
                      outer.(srcPort := srcPort, dstPort := dstPort));
  }

  // ------------------------------------------------------------------ the generator's packets

  /** What a generated packet says: every field as it was asked for, lengths modulo 2^16. */
  function Expected(o: Options, index: u32, message: seq<byte>): Decoded
    requires o.packetSize >= RAW_MIN_PACKET && ParseMessage(message).Parsed?
  {
    Decoded((o.packetSize - ETHERNET_HEADER) % 0x1_0000, o.srcIp, o.dstIp, o.srcPort, o.dstPort,
            SESSION, index + 1, [Found(message, ParseMessage(message).extraBytes)])
  }

  /** The UDP length field as written: it wraps once the packet passes 65569 bytes. */
  function UdpLength(o: Options): nat
    requires o.packetSize >= RAW_MIN_PACKET
  {
    (o.packetSize - ETHERNET_HEADER - IPV4_HEADER) % 0x1_0000
  }

  lemma {:induction false} DigitsAt(bs: seq<byte>, lo: nat, v: nat, n: nat)
    requires lo + n <= |bs| && bs[lo..lo + n] == Digits(v, n) && v < Pow256(n)
    ensures Value(bs[lo..lo + n]) == v
  {
    DigitsReadBack(v, n);
  }

  lemma {:induction false} MoldFields(index: u32, message: seq<byte>, payload: seq<byte>, zeros: nat)
    requires |payload| <= MOLD_HEADER + 2 + |message| + zeros
    requires payload == (Mold(index, message) + Zeros(zeros))[..|payload|]
    ensures |payload| >= 20 ==> payload[..10] == SESSION
    ensures |payload| >= 20 ==> payload[10..18] == Digits(index + 1, 8) && payload[18..20] == Digits(1, 2)
    ensures |payload| >= 22 ==> payload[20..22] == Digits(|message| % 0x1_0000, 2)
    ensures |payload| >= 22 + |message| ==> payload[22..22 + |message|] == message
  {
    var whole := Mold(index, message) + Zeros(zeros);
    assert whole[..10] == SESSION && whole[10..18] == Digits(index + 1, 8) && whole[18..20] == Digits(1, 2);
    assert whole[20..22] == Digits(|message| % 0x1_0000, 2) && whole[22..22 + |message|] == message;
    if |payload| >= 20 {
      assert payload[..10] == whole[..10] && payload[10..18] == whole[10..18] && payload[18..20] == whole[18..20];
    }
    if |payload| >= 22 { assert payload[20..22] == whole[20..22]; }
    if |payload| >= 22 + |message| { assert payload[22..22 + |message|] == whole[22..22 + |message|]; }
  }

  /** The outer fields with what a generated payload adds to them. */
  function WithMessage(outer: Decoded, index: u32, message: seq<byte>): Decoded
    requires ParseMessage(message).Parsed?
  {
    outer.(session := SESSION, sequence := index + 1,
           messages := [Found(message, ParseMessage(message).extraBytes)])
  }

  /** A generated payload cut at any length parses exactly when the cut is behind the message. */
  lemma {:induction false} PayloadReadsBack(index: u32, message: seq<byte>, payload: seq<byte>, zeros: nat,
                                            outer: Decoded)
    requires ParseMessage(message).Parsed? && |message| <= 0xffff
    requires |payload| <= MOLD_HEADER + 2 + |message| + zeros
    requires payload == (Mold(index, message) + Zeros(zeros))[..|payload|]
    ensures ReadPayload(payload, outer) ==
            if |payload| >= MOLD_HEADER + 2 + |message| then Accepted(WithMessage(outer, index, message))
            else Rejected(TruncatedData)
  {
    MoldFields(index, message, payload, zeros);
    if |payload| >= MOLD_HEADER {
      MoldNumbers(index, message, payload);
      PayloadReads(index, message, payload, outer, 1);
    }
  }

  lemma {:induction false} PayloadReads(index: u32, message: seq<byte>, payload: seq<byte>, outer: Decoded, count: nat)
    requires |payload| >= MOLD_HEADER && ParseMessage(message).Parsed? && count == 1
    requires payload[..10] == SESSION && Value(payload[10..18]) == index + 1 && Value(payload[18..20]) == count
    requires |payload| >= 22 ==> Value(payload[20..22]) == |message|
    requires |payload| >= 22 + |message| ==> payload[22..22 + |message|] == message
    ensures ReadPayload(payload, outer) ==
            if |payload| >= MOLD_HEADER + 2 + |message| then Accepted(WithMessage(outer, index, message))
            else Rejected(TruncatedData)
  {
    OneMessageReads(payload, message, count);
  }

  lemma {:induction false} MoldNumbers(index: u32, message: seq<byte>, payload: seq<byte>)
    requires |payload| >= MOLD_HEADER && |message| <= 0xffff
    requires payload[10..18] == Digits(index + 1, 8) && payload[18..20] == Digits(1, 2)
    requires |payload| >= 22 ==> payload[20..22] == Digits(|message|, 2)
    ensures Value(payload[10..18]) == index + 1 && Value(payload[18..20]) == 1
    ensures |payload| >= 22 ==> Value(payload[20..22]) == |message|
  {
    Pow256Values();
    DigitsAt(payload, 10, index + 1, 8);
    DigitsAt(payload, 18, 1, 2);
    if |payload| >= MOLD_HEADER + 2 { DigitsAt(payload, 20, |message|, 2); }
  }

  /** The message loop over a payload that announces one message, whole or cut. */
  lemma {:induction false} OneMessageReads(payload: seq<byte>, message: seq<byte>, count: nat)
    requires |payload| >= MOLD_HEADER && count == 1 && ParseMessage(message).Parsed?
    requires |payload| >= 22 ==> Value(payload[20..22]) == |message|
    requires |payload| >= 22 + |message| ==> payload[22..22 + |message|] == message
    ensures ReadMessages(payload, MOLD_HEADER, count) ==
            if |payload| >= 22 + |message| then All([Found(message, ParseMessage(message).extraBytes)])
            else Bad(TruncatedData)
  {
    if |payload| >= 22 + |message| {
      assert ReadMessages(payload, 22 + |message|, count - 1) == All([]);
    }
  }

  lemma {:induction false} IpFields(o: Options, index: u32, n: nat, checksum: nat)
    ensures var ip := IpHeader(o, index, n, checksum);
            && ip[0] == 0x45 && ip[9] == 17 && ip[12..16] == o.srcIp && ip[16..20] == o.dstIp
            && ip[2..4] == Digits((IPV4_HEADER + UDP_HEADER + n) % 0x1_0000, 2)
  {
  }

  lemma EtherField(o: Options)
    ensures Ethernet(o)[12..14] == Digits(0x0800, 2)
  {
  }

  lemma {:induction false} UdpFields(o: Options, n: nat)
    ensures var udp := UdpHeader(o, n);
            && udp[0..2] == Digits(o.srcPort, 2) && udp[2..4] == Digits(o.dstPort, 2)
            && udp[4..6] == Digits((UDP_HEADER + n) % 0x1_0000, 2)
  {
  }

  /** A number inside the second of three parts. */
  lemma FieldAt(whole: seq<byte>, a: seq<byte>, b: seq<byte>, c: seq<byte>, lo: nat, v: nat)
    requires whole == a + b + c && lo + 2 <= |b| && b[lo..lo + 2] == Digits(v, 2) && v <= 0xffff
    ensures Value(whole[|a| + lo..|a| + lo + 2]) == v
  {
    assert Pow256(2) == 0x1_0000 by { Pow256Values(); }
    assert whole[|a| + lo..|a| + lo + 2] == b[lo..lo + 2];
    DigitsReadBack(v, 2);
  }

  lemma EtherPart(p: seq<byte>, ether: seq<byte>, rest: seq<byte>)
    requires p == ether + rest && |ether| == 14 && ether[12..14] == Digits(0x0800, 2)
    ensures Value(p[12..14]) == 0x0800
  {
    assert p == [] + ether + rest;
    FieldAt(p, [], ether, rest, 12, 0x0800);
  }

  lemma IpPart(p: seq<byte>, ether: seq<byte>, ip: seq<byte>, rest: seq<byte>, total: nat)
    requires p == ether + ip + rest && |ether| == 14 && |ip| == 20
    requires ip[2..4] == Digits(total, 2) && total <= 0xffff
    ensures p[14] == ip[0] && p[23] == ip[9] && p[26..30] == ip[12..16] && p[30..34] == ip[16..20]
    ensures Value(p[16..18]) == total
  {
    FieldAt(p, ether, ip, rest, 2, total);
  }

  lemma UdpPart(p: seq<byte>, before: seq<byte>, udp: seq<byte>, payload: seq<byte>, srcPort: nat, dstPort: nat,
                length: nat)
    requires p == before + udp + payload && |before| == 34 && |udp| == 8
    requires udp[0..2] == Digits(srcPort, 2) && udp[2..4] == Digits(dstPort, 2) && udp[4..6] == Digits(length, 2)
    requires srcPort <= 0xffff && dstPort <= 0xffff && length <= 0xffff
    ensures Value(p[34..36]) == srcPort && Value(p[36..38]) == dstPort && Value(p[38..40]) == length
    ensures p[42..] == payload
  {
    FieldAt(p, before, udp, payload, 0, srcPort);
    FieldAt(p, before, udp, payload, 2, dstPort);
    FieldAt(p, before, udp, payload, 4, length);
  }

  /** The header fields of a packet for options `o` with a given payload. */
  predicate Headed(o: Options, p: seq<byte>, payload: seq<byte>)
    requires o.packetSize >= RAW_MIN_PACKET
  {
    && |p| == o.packetSize && |p| >= 42
    && Value(p[12..14]) == 0x0800 && p[14] == 0x45 && p[23] == 17
    && Value(p[16..18]) == (o.packetSize - ETHERNET_HEADER) % 0x1_0000
    && p[26..30] == o.srcIp && p[30..34] == o.dstIp
    && Value(p[34..36]) == o.srcPort && Value(p[36..38]) == o.dstPort && Value(p[38..40]) == UdpLength(o)
    && p[42..] == payload
  }

  lemma {:induction false} PartsReadBack(o: Options, ether: seq<byte>, ip: seq<byte>, udp: seq<byte>,
                                         payload: seq<byte>, p: seq<byte>)
    requires o.packetSize >= RAW_MIN_PACKET && |p| == o.packetSize
    requires |ether| == 14 && |ip| == 20 && |udp| == 8 && p == ether + ip + udp + payload
    requires ether[12..14] == Digits(0x0800, 2)
    requires ip[0] == 0x45 && ip[9] == 17 && ip[12..16] == o.srcIp && ip[16..20] == o.dstIp
    requires ip[2..4] == Digits((o.packetSize - ETHERNET_HEADER) % 0x1_0000, 2)
    requires udp[0..2] == Digits(o.srcPort, 2) && udp[2..4] == Digits(o.dstPort, 2)
             && udp[4..6] == Digits(UdpLength(o), 2)
    ensures Headed(o, p, payload)
  {
    EtherOfParts(ether, ip, udp, payload, p);
    IpOfParts(ether, ip, udp, payload, p, (o.packetSize - ETHERNET_HEADER) % 0x1_0000);
    UdpPart(p, ether + ip, udp, payload, o.srcPort, o.dstPort, UdpLength(o));
  }

  lemma EtherOfParts(ether: seq<byte>, ip: seq<byte>, udp: seq<byte>, payload: seq<byte>, p: seq<byte>)
    requires p == ether + ip + udp + payload && |ether| == 14 && ether[12..14] == Digits(0x0800, 2)
    ensures Value(p[12..14]) == 0x0800
  {
    assert p == ether + (ip + udp + payload);
    EtherPart(p, ether, ip + udp + payload);
  }

  lemma IpOfParts(ether: seq<byte>, ip: seq<byte>, udp: seq<byte>, payload: seq<byte>, p: seq<byte>, total: nat)
    requires p == ether + ip + udp + payload && |ether| == 14 && |ip| == 20
    requires ip[2..4] == Digits(total, 2) && total <= 0xffff
    ensures p[14] == ip[0] && p[23] == ip[9] && p[26..30] == ip[12..16] && p[30..34] == ip[16..20]
    ensures Value(p[16..18]) == total
  {
    assert p == ether + ip + (udp + payload);
    IpPart(p, ether, ip, udp + payload, total);
  }

  lemma {:induction false} HeadersReadBack(o: Options, index: u32, message: seq<byte>)
    requires o.packetSize >= RAW_MIN_PACKET && MOLD_HEADER + 2 + |message| <= PayloadSize(o)
    ensures Headed(o, PacketBytes(o, index, message),
                   Mold(index, message) + Zeros(PayloadSize(o) - (MOLD_HEADER + 2 + |message|)))
  {
    var n := PayloadSize(o);
    var payload := Mold(index, message) + Zeros(n - (MOLD_HEADER + 2 + |message|));
    WithAnyChecksum(o, index, n, ChecksumOf(IpHeader(o, index, n, 0)), payload, PacketBytes(o, index, message));
  }

  lemma {:induction false} WithAnyChecksum(o: Options, index: u32, n: nat, checksum: nat, payload: seq<byte>,
                                           p: seq<byte>)
    requires o.packetSize >= RAW_MIN_PACKET && n == PayloadSize(o) == |payload|
    requires p == Ethernet(o) + IpHeader(o, index, n, checksum) + UdpHeader(o, n) + payload
    ensures Headed(o, p, payload)
  {
    EtherField(o);
    IpFields(o, index, n, checksum);
    UdpFields(o, n);
    PartsReadBack(o, Ethernet(o), IpHeader(o, index, n, checksum), UdpHeader(o, n), payload, p);
  }

  /** The parse of a packet with a 20-byte IPv4 header, by its UDP length alone. */
  lemma {:induction false} ParsedByUdpLength(p: seq<byte>, length: nat, outer: Decoded)
    requires |p| >= MIN_PACKET && Value(p[12..14]) == 0x0800 && p[14] == 0x45 && p[23] == 17
    requires Value(p[38..40]) == length && length <= |p| - 34
    requires outer == Decoded(Value(p[16..18]), p[26..30], p[30..34], Value(p[34..36]), Value(p[36..38]), [], 0, [])
    ensures ParsePacket(p) ==
            if length < UDP_HEADER then Rejected(BadUdpLength) else ReadPayload(p[42..34 + length], outer)
  {
  }

  lemma {:induction false} HeadedParses(o: Options, index: u32, message: seq<byte>, p: seq<byte>, zeros: nat)
    requires o.packetSize >= RAW_MIN_PACKET && PayloadSize(o) == MOLD_HEADER + 2 + |message| + zeros
    requires ParseMessage(message).Parsed? && |message| <= 0xffff
    requires Headed(o, p, Mold(index, message) + Zeros(zeros))
    ensures ParsePacket(p) ==
            if UdpLength(o) < UDP_HEADER then Rejected(BadUdpLength)
            else if UdpLength(o) < UDP_HEADER + MOLD_HEADER + 2 + |message| then Rejected(TruncatedData)
            else Accepted(Expected(o, index, message))
  {
    var total := (o.packetSize - ETHERNET_HEADER) % 0x1_0000;
    var outer := Decoded(total, o.srcIp, o.dstIp, o.srcPort, o.dstPort, [], 0, []);
    ParsedByUdpLength(p, UdpLength(o), outer);
    if UdpLength(o) >= UDP_HEADER {
      CutPayload(p, Mold(index, message) + Zeros(zeros), UdpLength(o));
      PayloadReadsBack(index, message, p[42..34 + UdpLength(o)], zeros, outer);
    }
  }

  lemma CutPayload(p: seq<byte>, payload: seq<byte>, length: nat)
    requires |p| >= 42 && p[42..] == payload && UDP_HEADER <= length <= |p| - 34
    ensures p[42..34 + length] == payload[..|p[42..34 + length]|]
  {
  }

  /**
   A generated packet of any size has that size, and the parse accepts it exactly when its 16-bit UDP
   length still covers the message; it then returns every field as it was asked for.
   */
  lemma {:induction false} PacketReadsBack(o: Options, index: u32, message: seq<byte>, p: seq<byte>)
    requires o.packetSize >= RAW_MIN_PACKET && MOLD_HEADER + 2 + |message| <= PayloadSize(o)
    requires ParseMessage(message).Parsed? && |message| <= 0xffff && p == PacketBytes(o, index, message)
    ensures |p| == o.packetSize
    ensures ParsePacket(p) == Accepted(Expected(o, index, message)) || ParsePacket(p).Rejected?
    ensures ParsePacket(p).Accepted? <==> UdpLength(o) >= UDP_HEADER + MOLD_HEADER + 2 + |message|
  {
    HeadersReadBack(o, index, message);
    HeadedParses(o, index, message, p, PayloadSize(o) - (MOLD_HEADER + 2 + |message|));
  }

  /** Up to 65569 bytes the UDP length covers the message, and up to 65549 the IPv4 total length is exact too. */
  lemma LengthsDoNotWrap(o: Options, message: seq<byte>)
    requires o.packetSize >= RAW_MIN_PACKET && MOLD_HEADER + 2 + |message| <= PayloadSize(o)
    ensures o.packetSize <= 65569 ==> UdpLength(o) >= UDP_HEADER + MOLD_HEADER + 2 + |message|
    ensures o.packetSize <= 65549 <==> (o.packetSize - ETHERNET_HEADER) % 0x1_0000 == o.packetSize - ETHERNET_HEADER
  {
  }

  /** Past 65569 bytes the UDP length wraps: a packet of 65600 bytes is refused by the parse. */
  lemma {:induction false} LongPacketIsRefused(o: Options, index: u32, message: seq<byte>, p: seq<byte>)
    requires o.packetSize == 65600 && ParseMessage(message).Parsed? && |message| <= 100
    requires p == PacketBytes(o, index, message)
    ensures ParsePacket(p).Rejected?
  {
    assert UdpLength(o) == 30;
    PacketReadsBack(o, index, message, p);
  }

  /** The parse gives back every field asked for and the one message, readable through the struct its type selects. */
  predicate Carries(r: Outcome, o: Options, index: u32, m: Message) {
    && r.Accepted? && r.packet.srcIp == o.srcIp && r.packet.dstIp == o.dstIp
    && r.packet.srcPort == o.srcPort && r.packet.dstPort == o.dstPort
    && r.packet.session == SESSION && r.packet.sequence == index + 1
    && r.packet.messages == [Found(Encode(m), 0)] && ReadsAs(Encode(m), m)
  }

  /** Built from any message that fits, sent and parsed. */
  lemma {:induction false} MessageSurvivesPacket(o: Options, index: u32, m: Message, message: seq<byte>, p: seq<byte>)
    requires RAW_MIN_PACKET <= o.packetSize <= 65569 && message == Encode(m)
    requires MOLD_HEADER + 2 + |message| <= PayloadSize(o) && p == PacketBytes(o, index, message)
    ensures Carries(ParsePacket(p), o, index, m)
  {
    MessageReadsBack(m);
    PacketReadsBack(o, index, message, p);
    LengthsDoNotWrap(o, message);
  }

  /** Every message the generator sends fits every packet size its options admit, and no smaller size would do. */
  lemma GeneratedFits(o: Options, m: Message)
    requires Generated(m) && o.packetSize >= RAW_MIN_PACKET
    ensures o.packetSize >= ITCH_MIN_PACKET ==> MOLD_HEADER + 2 + |Encode(m)| <= PayloadSize(o)
    ensures m.AddOrder? && o.packetSize < ITCH_MIN_PACKET ==> MOLD_HEADER + 2 + |Encode(m)| > PayloadSize(o)
  {
  }

  /** So every packet the generator makes of at most 65569 bytes is accepted, with the message as the wire keeps it. */
  lemma {:induction false} GeneratedSurvives(o: Options, index: u32, m: Message, message: seq<byte>)
    requires ITCH_MIN_PACKET <= o.packetSize <= 65569 && Generated(m) && message == Encode(m)
    ensures MOLD_HEADER + 2 + |message| <= PayloadSize(o)
    ensures Carries(ParsePacket(PacketBytes(o, index, message)), o, index, m)
  {
    GeneratedFits(o, m);
    MessageSurvivesPacket(o, index, m, message, PacketBytes(o, index, message));
  }
}
