/**
 The packet types of the protocol, and what each receiver makes of a packet of any type: which ones
 are delivered, and where a receive loop stops.
 */
module PacketTypes {
  import opened Bytes
  import opened Wire
  import opened Framing
  import opened Sending

  /** `enum class PacketType`, and the `PT_` constants of Python. */
  datatype PacketType = Hello | Config | Video | Pose | Stats | Heartbeat | Goodbye | Error

  function Number(t: PacketType): (n: u16) {
    match t
    case Hello => 1
    case Config => 2
    case Video => 3
    case Pose => 4
    case Stats => 5
    case Heartbeat => 6
    case Goodbye => 7
    case Error => 8
  }

  /** Different types have different numbers, and the known numbers are those of the types. */
  lemma NumbersAreKnown(n: nat, a: PacketType, b: PacketType)
    ensures KnownType(n) <==> exists t :: Number(t) == n
    ensures Number(a) == Number(b) ==> a == b
  {
    if KnownType(n) {
      var t := match n
        case 1 => Hello
        case 2 => Config
        case 3 => Video
        case 4 => Pose
        case 5 => Stats
        case 6 => Heartbeat
        case 7 => Goodbye
        case _ => Error;
      assert Number(t) == n;
    }
  }

  /** Who receives: the host bridge's server, the Quest client, and the Python server. */
  datatype Receiver = HostBridge | QuestClient | PythonServer

  function PolicyOf(r: Receiver): (p: Policy) {
    match r
    case HostBridge => HOST_BRIDGE
    case QuestClient => QUEST_CLIENT
    case PythonServer => PYTHON_SERVER
  }

  /** The longest payload each takes: 16 MiB, 1 MiB and 1 MiB. */
  function LongestPayload(r: Receiver): (n: nat) {
    match r
    case HostBridge => 16_777_216
    case QuestClient => 1_048_576
    case PythonServer => 1_048_576
  }

  /** A packet as senders make it, with any number as its type. */
  function Made(n: u16, seqNo: u64, timestampNs: i64, payload: seq<byte>): (p: Packet) {
    Packet(MakeHeader(n, seqNo, timestampNs, |payload|), payload)
  }

  /** A whole packet at the front of the stream is read iff its header is acceptable. */
  lemma ReadIffAcceptable(p: Packet, rest: seq<byte>, policy: Policy)
    requires p.header.payloadSize == |p.payload|
    ensures Deliver(Encode(p) + rest, policy)
         == if Acceptable(p.header, policy) then [p] + Deliver(rest, policy) else []
  {
    if Acceptable(p.header, policy) {
      DeliverOne(p, rest, policy);
    } else {
      PacketHeaderRoundTrip(p.header, []);
      assert (Encode(p) + rest)[..PACKET_HEADER_SIZE] == PackHeader(p.header);
    }
  }

  /** A receiver takes the payload of a packet with this number. */
  predicate Takes(r: Receiver, n: u16, length: nat) {
    length <= LongestPayload(r) && (r == PythonServer || exists t :: Number(t) == n)
  }

  lemma AcceptableIffTaken(r: Receiver, n: u16, seqNo: u64, timestampNs: i64, payload: seq<byte>)
    requires |payload| < 0x1_0000_0000
    ensures var p := Made(n, seqNo, timestampNs, payload);
            && p.header.payloadSize == |payload|
            && (Acceptable(p.header, PolicyOf(r)) <==> Takes(r, n, |payload|))
  {
    NumbersAreKnown(n, Hello, Hello);
  }

  /**
   Behind any packets that it takes, a receiver takes one more iff its payload is not too long and, for
   the two C++ receivers, its number is that of a packet type; otherwise it stops in front of it,
   whatever follows.
   */
  lemma TakenIffTyped(r: Receiver, before: seq<Packet>, n: u16, seqNo: u64, timestampNs: i64, payload: seq<byte>,
                      rest: seq<byte>)
    requires AllDeliverable(before, PolicyOf(r)) && |payload| < 0x1_0000_0000
    ensures var p := Made(n, seqNo, timestampNs, payload);
            Deliver(EncodeAll(before) + (Encode(p) + rest), PolicyOf(r))
            == if Takes(r, n, |payload|) then before + ([p] + Deliver(rest, PolicyOf(r))) else before
  {
    var p := Made(n, seqNo, timestampNs, payload);
    AcceptableIffTaken(r, n, seqNo, timestampNs, payload);
    DeliverBehind(before, Encode(p) + rest, PolicyOf(r));
    ReadIffAcceptable(p, rest, PolicyOf(r));
    assert before + [] == before;
  }

  /**
   The receive loop on bytes: a packet stands at the front iff there are 32 bytes, `Q3TP`, version 1,
   for the C++ receivers a type from 1 to 8, a size within the limit, and as many bytes behind them.
   */
  lemma PacketByBytes(r: Receiver, stream: seq<byte>)
    ensures HasPacket(stream, PolicyOf(r)) <==>
              && |stream| >= 32 && stream[0] == 0x51 && stream[1] == 0x33 && stream[2] == 0x54 && stream[3] == 0x50
              && stream[4] == 1 && stream[5] == 0
              && (r == PythonServer || (1 <= stream[6] <= 8 && stream[7] == 0))
              && Word(stream, 24) <= LongestPayload(r) && |stream| >= 32 + Word(stream, 24)
  {
    if |stream| >= 32 {
      var b := stream[..32];
      PacketHeaderRead(b);
      assert Word(b, 0) == Word(stream, 0) && Word(b, 24) == Word(stream, 24);
      assert Short(b, 4) == Short(stream, 4) && Short(b, 6) == Short(stream, 6);
      MagicBytes(stream[0], stream[1], stream[2], stream[3]);
    }
  }

  lemma MagicBytes(a: byte, b: byte, c: byte, d: byte)
    ensures Word([a, b, c, d], 0) == MAGIC <==> a == 0x51 && b == 0x33 && c == 0x54 && d == 0x50
  {
  }

  lemma StampedHeader(o: Outgoing, seqNo: u64)
    requires |o.payload| < 0x1_0000_0000
    ensures StampedPacket(o, seqNo)
         == Packet(PacketHeader(0x50543351, 1, o.packetType, seqNo, o.timestampNs, |o.payload|, 0), o.payload)
  {
  }

  lemma EncodedParts(p: Packet)
    ensures |Encode(p)| == 32 + |p.payload| && Encode(p)[..32] == PackHeader(p.header) && Encode(p)[32..] == p.payload
  {
  }

  /** The bytes of a sent packet: `Q3TP`, version 1, type, number, time and length at their places, no checksum. */
  lemma SentBytes(o: Outgoing, seqNo: u64, h: PacketHeader)
    requires |o.payload| < 0x1_0000_0000
    requires h == PacketHeader(0x50543351, 1, o.packetType, seqNo, o.timestampNs, |o.payload|, 0)
    ensures var bytes := Encode(StampedPacket(o, seqNo));
            |bytes| == 32 + |o.payload| && PacketLayout(bytes[..32], h) && bytes[32..] == o.payload
  {
    StampedHeader(o, seqNo);
    EncodedParts(StampedPacket(o, seqNo));
    PacketLaidOut(h);
  }

  /** What is sent has the types given, and payloads that the receiver takes. */
  predicate SentAs(out: seq<Outgoing>, types: seq<PacketType>, r: Receiver) {
    && |types| == |out|
    && forall i :: 0 <= i < |out| ==>
         out[i].packetType == Number(types[i]) && |out[i].payload| <= LongestPayload(r)
  }

  lemma SentAsSendable(out: seq<Outgoing>, types: seq<PacketType>, r: Receiver)
    requires SentAs(out, types, r)
    ensures Sendable(out, PolicyOf(r)) && PolicyOf(r).maxPayload < TWO32
  {
    forall i | 0 <= i < |out|
      ensures KnownType(out[i].packetType)
    {
      NumbersAreKnown(out[i].packetType, types[i], types[i]);
    }
  }

  /**
   Packets of any of the eight types, sent to any of the three receivers: over every run of sends and
   wherever the connection fails, a packet arrives iff its send returned true.
   */
  lemma EveryReceiverGetsTheSent(states: seq<SenderState>, out: seq<Outgoing>, oks: seq<bool>, types: seq<PacketType>,
                                 r: Receiver)
    requires SendRun(states, out, oks) && states[0].link.sent == [] && SentAs(out, types, r)
    ensures DeliveredIffSent(Deliver(states[|out|].link.sent, PolicyOf(r)), Stamped(out, states[0].next), oks)
  {
    SentAsSendable(out, types, r);
    SentIsReceived(states, out, oks, PolicyOf(r));
  }
}
