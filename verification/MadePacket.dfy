/** A made packet byte by byte, the fields no parse reads included. */
module MadePacket {
  import opened BigEndian
  import opened CheckPoint
  import Checksum
  import opened Itch5
  import opened ItchPacket
  import opened Layout

  /** The parts of a made packet, by their places. */
  lemma {:induction false} PartsLie(o: Options, index: u32, message: seq<byte>, p: seq<byte>, n: nat)
    requires o.packetSize >= RAW_MIN_PACKET && n == PayloadSize(o) && MOLD_HEADER + 2 + |message| <= n
    requires p == PacketBytes(o, index, message)
    ensures |p| == 42 + n && p[..14] == Ethernet(o) && p[34..42] == UdpHeader(o, n)
    ensures exists checksum: nat :: checksum <= 0xffff && p[14..34] == IpHeader(o, index, n, checksum)
    ensures p[42..] == Mold(index, message) + Zeros(n - (22 + |message|))
  {
    var checksum := Checksum.ChecksumOf(IpHeader(o, index, n, 0));
    Split(Ethernet(o), IpHeader(o, index, n, checksum), UdpHeader(o, n),
          Mold(index, message) + Zeros(n - (22 + |message|)), p);
  }

  lemma {:induction false} Split(ether: seq<byte>, ip: seq<byte>, udp: seq<byte>, payload: seq<byte>, p: seq<byte>)
    requires |ether| == 14 && |ip| == 20 && |udp| == 8 && p == ether + ip + udp + payload
    ensures p[..14] == ether && p[14..34] == ip && p[34..42] == udp && p[42..] == payload
  {
  }

  /** The low 23 bits of an address. */
  function Low23(ip: Ip): nat {
    ip[1] as nat % 0x80 * 0x1_0000 + ip[2] as nat * 0x100 + ip[3] as nat
  }

  /**
   The frame goes to the group address of its destination (section 6.4 of RFC 1112: 01-00-5E and the low 23
   bits) from an individual, locally administered address that ends like its source address.
   */
  lemma {:induction false} FrameAddresses(o: Options, index: u32, message: seq<byte>, p: seq<byte>)
    requires o.packetSize >= RAW_MIN_PACKET && MOLD_HEADER + 2 + |message| <= PayloadSize(o)
    requires p == PacketBytes(o, index, message)
    ensures p[0] == 0x01 && p[1] == 0x00 && p[2] == 0x5e && p[3] < 0x80
    ensures p[3] as nat * 0x1_0000 + p[4] as nat * 0x100 + p[5] as nat == Low23(o.dstIp)
    ensures p[6] % 2 == 0 && p[6] / 2 % 2 == 1 && p[7] == 0 && p[8] == 0 && p[9..12] == o.srcIp[1..4]
    ensures p[12] == 0x08 && p[13] == 0x00
  {
    PartsLie(o, index, message, p, PayloadSize(o));
    EtherPlaces(o, p);
    SourceEnds(o, p);
    TargetLow(o.dstIp, p[3], p[4], p[5]);
  }

  lemma {:induction false} SourceEnds(o: Options, p: seq<byte>)
    requires |p| >= 14 && p[9] == o.srcIp[1] && p[10] == o.srcIp[2] && p[11] == o.srcIp[3]
    ensures p[9..12] == o.srcIp[1..4]
  {
  }

  lemma {:induction false} TargetLow(ip: Ip, a: byte, b: byte, c: byte)
    requires a == ip[1] % 0x80 && b == ip[2] && c == ip[3]
    ensures a as nat * 0x1_0000 + b as nat * 0x100 + c as nat == Low23(ip) && a < 0x80
  {
  }

  lemma {:induction false} EtherPlaces(o: Options, p: seq<byte>)
    requires |p| >= 14 && p[..14] == Ethernet(o)
    ensures p[0] == 0x01 && p[1] == 0x00 && p[2] == 0x5e && p[3] == o.dstIp[1] % 0x80 && p[4] == o.dstIp[2]
    ensures p[5] == o.dstIp[3] && p[6] == 0x02 && p[7] == 0 && p[8] == 0 && p[9] == o.srcIp[1] && p[10] == o.srcIp[2]
    ensures p[11] == o.srcIp[3] && p[12] == 0x08 && p[13] == 0x00
  {
    EtherBytes(o, p[..14]);
    assert forall i :: 0 <= i < 14 ==> p[i] == p[..14][i];
  }

  lemma {:induction false} EtherBytes(o: Options, e: seq<byte>)
    requires e == Ethernet(o)
    ensures e[0] == 0x01 && e[1] == 0x00 && e[2] == 0x5e && e[3] == o.dstIp[1] % 0x80 && e[4] == o.dstIp[2]
    ensures e[5] == o.dstIp[3] && e[6] == 0x02 && e[7] == 0 && e[8] == 0 && e[9] == o.srcIp[1] && e[10] == o.srcIp[2]
    ensures e[11] == o.srcIp[3] && e[12] == 0x08 && e[13] == 0x00
  {
    TwoDigits(0x0800);
  }

  /** Two packets go to the same group address exactly when their destinations agree in the low 23 bits. */
  lemma {:induction false} GroupAddressesAgree(o: Options, index: u32, message: seq<byte>, p: seq<byte>,
                                               o': Options, index': u32, message': seq<byte>, p': seq<byte>)
    requires o.packetSize >= RAW_MIN_PACKET && MOLD_HEADER + 2 + |message| <= PayloadSize(o)
    requires o'.packetSize >= RAW_MIN_PACKET && MOLD_HEADER + 2 + |message'| <= PayloadSize(o')
    requires p == PacketBytes(o, index, message) && p' == PacketBytes(o', index', message')
    ensures p[..6] == p'[..6] <==> Low23(o.dstIp) == Low23(o'.dstIp)
  {
    FrameAddresses(o, index, message, p);
    FrameAddresses(o', index', message', p');
    if Low23(o.dstIp) == Low23(o'.dstIp) {
      assert p[3] == p'[3] && p[4] == p'[4] && p[5] == p'[5];
    } else {
      assert p[3] != p'[3] || p[4] != p'[4] || p[5] != p'[5];
      assert p[..6][3] == p[3] && p[..6][4] == p[4] && p[..6][5] == p[5];
      assert p'[..6][3] == p'[3] && p'[..6][4] == p'[4] && p'[..6][5] == p'[5];
    }
  }

  /** The IPv4 header: its length and services, the identification, no fragments, 64 hops, UDP, the addresses. */
  lemma {:induction false} IpBytes(o: Options, index: u32, message: seq<byte>, p: seq<byte>)
    requires o.packetSize >= RAW_MIN_PACKET && MOLD_HEADER + 2 + |message| <= PayloadSize(o)
    requires p == PacketBytes(o, index, message)
    ensures p[14] == 0x45 && p[15] == 0x00
    ensures p[16] as nat * 256 + p[17] as nat == (o.packetSize - 14) % 0x1_0000
    ensures p[18] as nat * 256 + p[19] as nat == index % 0x1_0000
    ensures p[20] == 0x40 && p[21] == 0x00 && p[22] == 64 && p[23] == 17
    ensures p[26..30] == o.srcIp && p[30..34] == o.dstIp
  {
    var n := PayloadSize(o);
    PartsLie(o, index, message, p, n);
    var checksum: nat :| checksum <= 0xffff && p[14..34] == IpHeader(o, index, n, checksum);
    IpHeaderBytes(o, index, n, checksum, p[14..34]);
    assert forall i :: 0 <= i < 20 ==> p[14 + i] == p[14..34][i];
    assert p[26..30] == p[14..34][12..16] && p[30..34] == p[14..34][16..20];
  }

  lemma {:induction false} IpHeaderBytes(o: Options, index: u32, n: nat, checksum: nat, h: seq<byte>)
    requires h == IpHeader(o, index, n, checksum)
    ensures h[0] == 0x45 && h[1] == 0x00 && h[6] == 0x40 && h[7] == 0x00 && h[8] == 64 && h[9] == 17
    ensures h[2] as nat * 256 + h[3] as nat == (28 + n) % 0x1_0000
    ensures h[4] as nat * 256 + h[5] as nat == index % 0x1_0000
    ensures h[12..16] == o.srcIp && h[16..20] == o.dstIp
  {
    FrontBytes(index, n, IpFront(index, n));
    assert h[..10] == IpFront(index, n);
    assert forall i :: 0 <= i < 10 ==> h[i] == h[..10][i];
  }

  lemma {:induction false} FrontBytes(index: u32, n: nat, f: seq<byte>)
    requires f == IpFront(index, n)
    ensures f[0] == 0x45 && f[1] == 0x00 && f[6] == 0x40 && f[7] == 0x00 && f[8] == 64 && f[9] == 17
    ensures f[2] as nat * 256 + f[3] as nat == (28 + n) % 0x1_0000
    ensures f[4] as nat * 256 + f[5] as nat == index % 0x1_0000
  {
    TwoDigits((28 + n) % 0x1_0000);
    TwoDigits(index % 0x1_0000);
    TwoDigits(0x4000);
  }

  /** The UDP header: ports and length in network order, no checksum. */
  lemma {:induction false} UdpBytes(o: Options, index: u32, message: seq<byte>, p: seq<byte>)
    requires o.packetSize >= RAW_MIN_PACKET && MOLD_HEADER + 2 + |message| <= PayloadSize(o)
    requires p == PacketBytes(o, index, message)
    ensures p[34] as nat * 256 + p[35] as nat == o.srcPort && p[36] as nat * 256 + p[37] as nat == o.dstPort
    ensures p[38] as nat * 256 + p[39] as nat == (o.packetSize - 34) % 0x1_0000
    ensures p[40] == 0 && p[41] == 0
  {
    var n := PayloadSize(o);
    PartsLie(o, index, message, p, n);
    UdpHeaderBytes(o, n, p[34..42]);
    assert forall i :: 0 <= i < 8 ==> p[34 + i] == p[34..42][i];
  }

  lemma {:induction false} UdpHeaderBytes(o: Options, n: nat, h: seq<byte>)
    requires h == UdpHeader(o, n)
    ensures h[0] as nat * 256 + h[1] as nat == o.srcPort && h[2] as nat * 256 + h[3] as nat == o.dstPort
    ensures h[4] as nat * 256 + h[5] as nat == (8 + n) % 0x1_0000 && h[6] == 0 && h[7] == 0
  {
    TwoDigits(o.srcPort);
    TwoDigits(o.dstPort);
    TwoDigits((8 + n) % 0x1_0000);
  }

  /** The payload: session REALPERF01, the sequence number, one message behind its length, zeros to the end. */
  lemma {:induction false} MoldBytes(o: Options, index: u32, message: seq<byte>, p: seq<byte>)
    requires o.packetSize >= RAW_MIN_PACKET && MOLD_HEADER + 2 + |message| <= PayloadSize(o) && |message| <= 0xffff
    requires p == PacketBytes(o, index, message)
    ensures p[42..52] == [82, 69, 65, 76, 80, 69, 82, 70, 48, 49] && Value(p[52..60]) == index + 1
    ensures p[60] == 0 && p[61] == 1 && p[62] as nat * 256 + p[63] as nat == |message|
    ensures p[64..64 + |message|] == message
    ensures forall i :: 64 + |message| <= i < |p| ==> p[i] == 0
  {
    var n := PayloadSize(o);
    PartsLie(o, index, message, p, n);
    var m := Mold(index, message);
    MoldHeaderBytes(index, message, m);
    assert p[42..64 + |message|] == m;
    assert p[42..52] == m[..10] && p[52..60] == m[10..18] && p[64..64 + |message|] == m[22..];
    assert p[60] == m[18] && p[61] == m[19] && p[62] == m[20] && p[63] == m[21];
    forall i | 64 + |message| <= i < |p|
      ensures p[i] == 0
    {
      assert p[i] == p[42..][i - 42] == Zeros(n - (22 + |message|))[i - 64 - |message|];
    }
  }

  lemma {:induction false} MoldHeaderBytes(index: u32, message: seq<byte>, m: seq<byte>)
    requires m == Mold(index, message) && |message| <= 0xffff
    ensures m[..10] == [82, 69, 65, 76, 80, 69, 82, 70, 48, 49] && Value(m[10..18]) == index + 1
    ensures m[18] == 0 && m[19] == 1 && m[20] as nat * 256 + m[21] as nat == |message| && m[22..] == message
  {
    TwoDigits(1);
    TwoDigits(|message|);
    assert m[10..18] == Digits(index + 1, 8) && m[18..20] == Digits(1, 2) && m[20..22] == Digits(|message|, 2);
    assert m[18] == m[18..20][0] && m[19] == m[18..20][1] && m[20] == m[20..22][0] && m[21] == m[20..22][1];
    Pow256Values();
    DigitsReadBack(index + 1, 8);
  }
}
