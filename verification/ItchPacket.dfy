/** Ethernet, IPv4, UDP and MoldUDP64 around one ITCH message: what the generator writes. */
module ItchPacket {
  import opened BigEndian
  import opened CheckPoint
  import opened Checksum
  import opened Itch5
  import opened Layout

  const ETHERNET_HEADER: nat := 14
  const IPV4_HEADER: nat := 20
  const UDP_HEADER: nat := 8
  const MOLD_HEADER: nat := 20
  const RAW_MIN_PACKET: nat := 42
  const ITCH_MIN_PACKET: nat := 100
  const SESSION: seq<byte> := [82, 69, 65, 76, 80, 69, 82, 70, 48, 49]  // "REALPERF01"

  type Ip = a: seq<byte> | |a| == 4 witness [0, 0, 0, 0]

  datatype Options = Options(packetSize: u32, srcIp: Ip, dstIp: Ip, srcPort: u16, dstPort: u16)

  // ------------------------------------------------------------------ the bytes

  function Ethernet(o: Options): (bs: seq<byte>)
    ensures |bs| == ETHERNET_HEADER
  {
    [0x01, 0x00, 0x5e, o.dstIp[1] % 0x80, o.dstIp[2], o.dstIp[3]] +
    [0x02, 0x00, 0x00, o.srcIp[1], o.srcIp[2], o.srcIp[3]] + Digits(0x0800, 2)
  }

  /** The header up to its checksum. */
  function IpFront(index: u32, payload: nat): (bs: seq<byte>)
    ensures |bs| == 10
  {
    [0x45, 0] + Digits((IPV4_HEADER + UDP_HEADER + payload) % 0x1_0000, 2) + Digits(index % 0x1_0000, 2) +
    Digits(0x4000, 2) + [64, 17]
  }

  function IpHeader(o: Options, index: u32, payload: nat, checksum: nat): (bs: seq<byte>)
    ensures |bs| == IPV4_HEADER
  {
    IpFront(index, payload) + Digits(checksum, 2) + o.srcIp + o.dstIp
  }

  function UdpHeader(o: Options, payload: nat): (bs: seq<byte>)
    ensures |bs| == UDP_HEADER
  {
    Digits(o.srcPort, 2) + Digits(o.dstPort, 2) + Digits((UDP_HEADER + payload) % 0x1_0000, 2) + [0, 0]
  }

  /** MoldUDP64: session, sequence number, one message with its length. */
  function Mold(index: u32, message: seq<byte>): (bs: seq<byte>)
    ensures |bs| == MOLD_HEADER + 2 + |message|
  {
    SESSION + Digits(index + 1, 8) + Digits(1, 2) + Digits(|message| % 0x1_0000, 2) + message
  }

  function PayloadSize(o: Options): nat
    requires o.packetSize >= RAW_MIN_PACKET
  {
    o.packetSize - RAW_MIN_PACKET
  }

  function PacketBytes(o: Options, index: u32, message: seq<byte>): (bs: seq<byte>)
    requires o.packetSize >= RAW_MIN_PACKET && MOLD_HEADER + 2 + |message| <= PayloadSize(o)
    ensures |bs| == o.packetSize
  {
    var n := PayloadSize(o);
    Ethernet(o) + IpHeader(o, index, n, ChecksumOf(IpHeader(o, index, n, 0))) + UdpHeader(o, n) +
    (Mold(index, message) + Zeros(n - (MOLD_HEADER + 2 + |message|)))
  }

  // ------------------------------------------------------------------ building

  datatype Made = Packet(bytes: seq<byte>) | TooSmallForMessage

  /** `make_payload` in ITCH mode: a zeroed payload overwritten from the front. */
  method MakePayload(index: u32, message: seq<byte>, payloadSize: nat) returns (r: Made)
    ensures r.TooSmallForMessage? <==> payloadSize < MOLD_HEADER + 2 + |message|
    ensures r.Packet? ==> r.bytes == Mold(index, message) + Zeros(payloadSize - (MOLD_HEADER + 2 + |message|))
  {
    var payload := Zeros(payloadSize);
    var encoded := SESSION;
    encoded := Put(encoded, index + 1, 8);
    encoded := Put(encoded, 1, 2);
    encoded := Put(encoded, |message| % 0x1_0000, 2);
    encoded := encoded + message;
    if |encoded| > |payload| {
      return TooSmallForMessage;
    }
    return Packet(encoded + payload[|encoded|..]);
  }

  lemma TwoDigits(v: nat)
    requires v <= 0xffff
    ensures Digits(v, 2) == [v / 256, v % 256]
  {
    assert Digits(v / 256, 1) == Digits(v / 256 / 256, 0) + [v / 256 % 256];
  }

  /** Patching the two checksum bytes of a header built with a zero checksum. */
  lemma PatchedHeader(o: Options, index: u32, payload: nat, checksum: nat)
    requires checksum <= 0xffff
    ensures IpHeader(o, index, payload, 0)[10] == 0 && IpHeader(o, index, payload, 0)[11] == 0
    ensures WithField(IpHeader(o, index, payload, 0), 10, checksum) == IpHeader(o, index, payload, checksum)
  {
    TwoDigits(0);
    TwoDigits(checksum);
  }

  method MakeIpFront(out: seq<byte>, index: u32, payload: nat) returns (packet: seq<byte>)
    ensures packet == out + IpFront(index, payload)
  {
    packet := out + [0x45] + [0];
    packet := Put(packet, (IPV4_HEADER + UDP_HEADER + payload) % 0x1_0000, 2);
    packet := Put(packet, index % 0x1_0000, 2);
    packet := Put(packet, 0x4000, 2);
    packet := packet + [64] + [17];
  }

  method MakeIpHeader(out: seq<byte>, o: Options, index: u32, payload: nat) returns (packet: seq<byte>)
    ensures packet == out + IpHeader(o, index, payload, 0)
  {
    packet := MakeIpFront(out, index, payload);
    packet := Put(packet, 0, 2);
    packet := packet + o.srcIp + o.dstIp;
  }

  method MakeUdpHeader(out: seq<byte>, o: Options, payload: nat) returns (packet: seq<byte>)
    ensures packet == out + UdpHeader(o, payload)
  {
    packet := Put(out, o.srcPort, 2);
    packet := Put(packet, o.dstPort, 2);
    packet := Put(packet, (UDP_HEADER + payload) % 0x1_0000, 2);
    packet := Put(packet, 0, 2);
    TwoDigits(0);
  }

  /** Adding the header with a zero checksum, then patching the checksum in place. */
  method AddIpHeader(out: seq<byte>, o: Options, index: u32, payload: nat) returns (packet: seq<byte>)
    ensures packet == out + IpHeader(o, index, payload, ChecksumOf(IpHeader(o, index, payload, 0)))
  {
    packet := MakeIpHeader(out, o, index, payload);
    var start := |out|;
    assert packet[start..start + IPV4_HEADER] == IpHeader(o, index, payload, 0);
    var checksum := InternetChecksum(packet[start..start + IPV4_HEADER]);
    PatchedHeader(o, index, payload, checksum);
    assert packet[start + 10 := checksum / 256][start + 11 := checksum % 256] ==
           out + WithField(IpHeader(o, index, payload, 0), 10, checksum);
    packet := packet[start + 10 := checksum / 256];
    packet := packet[start + 11 := checksum % 256];
  }

  /** `make_packet`, for the options the command line admits in ITCH mode. */
  method MakePacket(o: Options, index: u32, message: seq<byte>) returns (r: Made)
    requires o.packetSize >= ITCH_MIN_PACKET
    ensures r.TooSmallForMessage? <==> PayloadSize(o) < MOLD_HEADER + 2 + |message|
    ensures r.Packet? ==> r.bytes == PacketBytes(o, index, message)
  {
    r := MakePayload(index, message, PayloadSize(o));
    if r.Packet? {
      var packet := [0x01, 0x00, 0x5e, o.dstIp[1] % 0x80, o.dstIp[2], o.dstIp[3]];
      packet := packet + [0x02, 0x00, 0x00, o.srcIp[1], o.srcIp[2], o.srcIp[3]];
      packet := Put(packet, 0x0800, 2);
      packet := AddIpHeader(packet, o, index, |r.bytes|);
      packet := MakeUdpHeader(packet, o, |r.bytes|);
      r := Packet(packet + r.bytes);
    }
  }

  /** The header a packet carries sums to zero, as section 3.1 of RFC 791 asks of a receiver. */
  lemma HeaderVerifies(o: Options, index: u32, message: seq<byte>)
    requires o.packetSize >= RAW_MIN_PACKET && MOLD_HEADER + 2 + |message| <= PayloadSize(o)
    ensures ChecksumOf(PacketBytes(o, index, message)[ETHERNET_HEADER..ETHERNET_HEADER + IPV4_HEADER]) == 0
  {
    var n := PayloadSize(o);
    var zero := IpHeader(o, index, n, 0);
    PatchedHeader(o, index, n, ChecksumOf(zero));
    VerifiesExactlyForItsChecksum(zero, 10, ChecksumOf(zero));
    assert PacketBytes(o, index, message)[14..34] == IpHeader(o, index, n, ChecksumOf(zero));
  }
}
