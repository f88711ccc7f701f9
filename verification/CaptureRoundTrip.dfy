/** From the generator's messages to what the printer prints, through a whole capture file. */
module CaptureRoundTrip {
  import opened CheckPoint
  import opened Itch5
  import opened ItchPacket
  import opened PacketPrint
  import opened Pcap

  /** One packet the generator sends: its options, index, message and time. */
  datatype Sent = Sent(options: Options, index: u32, message: Message, timestampUs: nat)

  predicate Sendable(s: Sent) {
    ITCH_MIN_PACKET <= s.options.packetSize <= 65569 && Generated(s.message)
  }

  function FrameOf(s: Sent): Frame
    requires Sendable(s)
  {
    GeneratedFits(s.options, s.message);
    Frame(s.timestampUs, PacketBytes(s.options, s.index, Encode(s.message)))
  }

  function FramesOf(sent: seq<Sent>): seq<Frame>
    requires forall s :: s in sent ==> Sendable(s)
  {
    seq(|sent|, i requires 0 <= i < |sent| => FrameOf(sent[i]))
  }

  /** `print_packet` as the framing loop sees it: whether it returns. */
  predicate Accepts(bytes: seq<byte>) {
    ParsePacket(bytes).Accepted?
  }

  /** A packet read back is the one sent: its time, its sequence number and its message. */
  predicate Prints(s: Sent, c: Capture)
    requires Sendable(s)
  {
    c == Captured(FrameOf(s)) && Carries(ParsePacket(c.bytes), s.options, s.index, s.message)
  }

  lemma {:induction false} SentPrints(s: Sent)
    requires Sendable(s)
    ensures Writable(FrameOf(s), Accepts) && Prints(s, Captured(FrameOf(s)))
  {
    GeneratedSurvives(s.options, s.index, s.message, Encode(s.message));
  }

  lemma AllWritable(sent: seq<Sent>)
    requires forall s :: s in sent ==> Sendable(s)
    ensures forall f :: f in FramesOf(sent) ==> Writable(f, Accepts)
  {
    forall f | f in FramesOf(sent)
      ensures Writable(f, Accepts)
    {
      var i :| 0 <= i < |sent| && f == FrameOf(sent[i]);
      SentPrints(sent[i]);
    }
  }

  /** Every packet sent is printed, in order, up to the limit if there is one, and nothing else is. */
  lemma {:induction false} GeneratedCapturePrints(sent: seq<Sent>, limit: nat, r: Reading)
    requires forall s :: s in sent ==> Sendable(s)
    requires r == ReadCapture(GlobalHeader() + Frames(FramesOf(sent)), limit, Accepts)
    ensures r.ending == Done && |r.packets| == Limited(|sent|, limit, 0)
    ensures forall i :: 0 <= i < |r.packets| ==> Prints(sent[i], r.packets[i])
  {
    AllWritable(sent);
    CaptureReadsBack(FramesOf(sent), limit, Accepts);
    forall i | 0 <= i < |r.packets|
      ensures Prints(sent[i], r.packets[i])
    {
      SentPrints(sent[i]);
    }
  }
}
