/**
 A connection that recovers after a failed send: exactly when the receiver still sees what the
 sender believes it delivered.
 */
module Resuming {
  import opened Bytes
  import opened Wire
  import opened Framing
  import opened Sending

  // ----- no header begins inside another one ------------------------------------------------------

  /** What every packet of the protocol begins with. */
  predicate Protocol(h: PacketHeader) {
    h.magic == MAGIC && h.version == VERSION && KnownType(h.packetType) && h.crc32 == 0
  }

  /** The bytes of the header that the protocol fixes, as far as they are needed here. */
  predicate Fixed(b: seq<byte>) {
    && |b| == PACKET_HEADER_SIZE && b[0] != 0 && b[1] != 0 && b[2] != 0 && b[3] != 0 && b[4] != 0 && b[6] != 0
    && b[28] == 0 && b[30] == 0
  }

  lemma FixedParts(b: seq<byte>, m: seq<byte>, v: seq<byte>, t: seq<byte>, c: seq<byte>)
    requires |b| == PACKET_HEADER_SIZE && b[..4] == m && |v| == 2 && |t| == 2 && b[4] == v[0] && b[6] == t[0]
             && b[28..] == c
    requires m == [0x51, 0x33, 0x54, 0x50] && v[0] != 0 && t[0] != 0 && c == [0, 0, 0, 0]
    ensures Fixed(b)
  {
    assert b[0] == m[0] && b[1] == m[1] && b[2] == m[2] && b[3] == m[3] && b[28] == c[0] && b[30] == c[2];
  }

  lemma FixedFields(packetType: u16)
    requires KnownType(packetType)
    ensures LittleEndian(MAGIC, 4) == [0x51, 0x33, 0x54, 0x50] && LittleEndian(0, 4) == [0, 0, 0, 0]
    ensures LittleEndian(VERSION, 2)[0] != 0 && LittleEndian(packetType, 2)[0] != 0
  {
  }

  lemma FixedBytes(h: PacketHeader)
    requires Protocol(h)
    ensures Fixed(PackHeader(h)) && PackHeader(h)[8..16] == LittleEndian(h.seqNo, 8)
  {
    var b, v, t := PackHeader(h), LittleEndian(h.version, 2), LittleEndian(h.packetType, 2);
    PacketLaidOut(h);
    FixedFields(h.packetType);
    assert b[4] == b[4..6][0] == v[0] && b[6] == b[6..8][0] == t[0];
    FixedParts(b, LittleEndian(h.magic, 4), v, t, LittleEndian(h.crc32, 4));
  }

  /** `b` is what stands at the front when `b` itself follows the first `k` bytes of `a`. */
  predicate BeginsInside(a: seq<byte>, b: seq<byte>, k: nat)
    requires |a| == |b| && k <= |b|
  {
    b == a[..k] + b[..|b| - k]
  }

  /** Such a string repeats itself every `k` bytes. */
  lemma {:induction false} Repeats(a: seq<byte>, b: seq<byte>, k: nat, i: nat, n: nat)
    requires |a| == |b| && 0 < k <= |b| && BeginsInside(a, b, k) && i + n * k < |b|
    ensures b[i + n * k] == b[i]
  {
    if n > 0 {
      var j := i + (n - 1) * k;
      assert i + n * k == j + k;
      assert b[j + k] == b[..|b| - k][j] == b[j];
      Repeats(a, b, k, i, n - 1);
    }
  }

  /** A zero byte of the checksum would repeat a byte that is not zero. */
  lemma NoShortPeriod(a: seq<byte>, b: seq<byte>, k: nat)
    requires |a| == |b| && Fixed(b) && 0 < k < 16
    ensures !BeginsInside(a, b, k)
  {
    if BeginsInside(a, b, k) {
      match k {
        case 1 => Repeats(a, b, 1, 0, 28);
        case 2 => Repeats(a, b, 2, 0, 14);
        case 3 => Repeats(a, b, 3, 1, 9);
        case 4 => Repeats(a, b, 4, 0, 7);
        case 5 => Repeats(a, b, 5, 3, 5);
        case 6 => Repeats(a, b, 6, 4, 4);
        case 7 => Repeats(a, b, 7, 0, 4);
        case 8 => Repeats(a, b, 8, 4, 3);
        case 9 => Repeats(a, b, 9, 1, 3);
        case 10 => Repeats(a, b, 10, 0, 3);
        case 11 => Repeats(a, b, 11, 6, 2);
        case 12 => Repeats(a, b, 12, 4, 2);
        case 13 => Repeats(a, b, 13, 2, 2);
        case 14 => Repeats(a, b, 14, 0, 2);
        case 15 => Repeats(a, b, 15, 0, 2);
      }
    }
  }

  /**
   The header of the next packet never stands where the failed packet was cut, in its header or
   behind it, unless both carry one sequence number.
   */
  lemma NoHeaderInside(g: PacketHeader, h: PacketHeader, k: nat)
    requires Protocol(g) && Protocol(h) && 0 < k <= PACKET_HEADER_SIZE && g.seqNo != h.seqNo
    ensures !BeginsInside(PackHeader(g), PackHeader(h), k)
  {
    var a, b := PackHeader(g), PackHeader(h);
    FixedBytes(g);
    FixedBytes(h);
    if k < 16 {
      NoShortPeriod(a, b, k);
    } else if BeginsInside(a, b, k) {
      assert b[8..16] == b[..k][8..16] == a[..k][8..16] == a[8..16];
      SeqNoRead(g.seqNo, h.seqNo);
    }
  }

  lemma SeqNoRead(a: u64, b: u64)
    requires LittleEndian(a, 8) == LittleEndian(b, 8)
    ensures a == b
  {
    Limits();
    LittleEndianRoundTrip(a, 8);
    LittleEndianRoundTrip(b, 8);
  }

  // ----- what is read behind a cut -------------------------------------------------------------------

  /** The stream begins with the first bytes of `a`, and then with `b`. */
  predicate FrontIsCut(stream: seq<byte>, a: seq<byte>, b: seq<byte>, k: nat)
    requires |a| == |b| == PACKET_HEADER_SIZE
  {
    && 0 < k <= PACKET_HEADER_SIZE <= |stream|
    && stream[..PACKET_HEADER_SIZE] == a[..k] + b[..PACKET_HEADER_SIZE - k]
  }

  lemma FrontOfCut(a: seq<byte>, payload: seq<byte>, part: seq<byte>, b: seq<byte>, more: seq<byte>) returns (k: nat)
    requires |a| == |b| == PACKET_HEADER_SIZE && part <= a + payload && 0 < |part|
    ensures FrontIsCut(part + (b + more), a, b, k)
  {
    CutInFront(part, b + more, PACKET_HEADER_SIZE);
    if |part| < PACKET_HEADER_SIZE {
      k := |part|;
      assert part == a[..k] && (b + more)[..PACKET_HEADER_SIZE - k] == b[..PACKET_HEADER_SIZE - k];
    } else {
      k := PACKET_HEADER_SIZE;
      assert part[..PACKET_HEADER_SIZE] == a && (b + more)[..0] == [] && a + b[..0] == a[..k] + b[..0] == a;
    }
  }

  /** The header at the front of the stream when packet `q` follows the first bytes of packet `p`. */
  lemma FrontBehindCut(p: Packet, part: seq<byte>, q: Packet, rest: seq<byte>) returns (k: nat)
    requires part <= Encode(p) && 0 < |part|
    ensures FrontIsCut(part + (Encode(q) + rest), PackHeader(p.header), PackHeader(q.header), k)
  {
    ConcatAssociates(PackHeader(q.header), q.payload, rest);
    k := FrontOfCut(PackHeader(p.header), p.payload, part, PackHeader(q.header), q.payload + rest);
  }

  /** A stream from which `q` is read first begins with its header. */
  lemma ReadsItsHeader(stream: seq<byte>, q: Packet, policy: Policy)
    requires [q] <= Deliver(stream, policy)
    ensures |stream| >= PACKET_HEADER_SIZE && stream[..PACKET_HEADER_SIZE] == PackHeader(q.header)
  {
    assert HasPacket(stream, policy);
    FrontSplits(stream, policy);
    assert Deliver(stream, policy)[0] == FrontPacket(stream, policy);
  }

  /** A packet of the protocol that this receiver takes. */
  predicate Regular(p: Packet, policy: Policy) {
    Deliverable(p, policy) && Protocol(p.header)
  }

  /** Behind a cut, whatever stands at the front is not the next packet. */
  lemma NextIsNotRead(p: Packet, part: seq<byte>, q: Packet, rest: seq<byte>, policy: Policy)
    requires Regular(p, policy) && Regular(q, policy) && p.header.seqNo != q.header.seqNo
    requires part <= Encode(p) && 0 < |part|
    ensures !([q] <= Deliver(part + (Encode(q) + rest), policy))
  {
    var k := FrontBehindCut(p, part, q, rest);
    if [q] <= Deliver(part + (Encode(q) + rest), policy) {
      ReadsItsHeader(part + (Encode(q) + rest), q, policy);
      NoHeaderInside(p.header, q.header, k);
    }
  }

  /** The packet sent next is read right behind the ones before the failure iff nothing of the failed one went out. */
  lemma {:induction false} ReadIffNothingCut(ps: seq<Packet>, p: Packet, part: seq<byte>, q: Packet, rest: seq<byte>,
                                             policy: Policy)
    requires AllDeliverable(ps, policy) && Regular(p, policy) && Regular(q, policy) && p.header.seqNo != q.header.seqNo
    requires part <= Encode(p)
    ensures ps + [q] <= Deliver(EncodeAll(ps) + (part + (Encode(q) + rest)), policy) <==> part == []
  {
    var tail := part + (Encode(q) + rest);
    DeliverBehind(ps, tail, policy);
    if part == [] {
      assert tail == Encode(q) + rest;
      DeliverOne(q, rest, policy);
    } else {
      NextIsNotRead(p, part, q, rest, policy);
      assert [q] <= Deliver(tail, policy) <==> ps + [q] <= ps + Deliver(tail, policy) by {
        PrefixBehind(ps, [q], Deliver(tail, policy));
      }
    }
  }

  lemma PrefixBehind<T>(a: seq<T>, b: seq<T>, c: seq<T>)
    ensures a + b <= a + c <==> b <= c
  {
    assert (a + c)[|a|..] == c && (a + b)[|a|..] == b;
    if a + b <= a + c {
      assert (a + c)[..|a + b|] == a + b;
      assert c[..|b|] == (a + c)[|a|..|a + b|] == b;
    }
  }

  /** Packet `p` was cut to `part` when its send failed, and `qs` are the packets sent afterwards. */
  predicate Outage(p: Packet, part: seq<byte>, qs: seq<Packet>, policy: Policy) {
    && Regular(p, policy) && part <= Encode(p) && |part| < |Encode(p)|
    && (qs != [] ==> Regular(qs[0], policy) && p.header.seqNo != qs[0].header.seqNo)
  }

  /**
   The exact condition, wherever the failed packet was cut: of the packets before it and those
   after it, the receiver gets exactly these, in order, if and only if nothing of the failed one
   went out, or nothing was sent after it.
   */
  lemma {:induction false} ReadableIffNothingCut(ps: seq<Packet>, p: Packet, part: seq<byte>, qs: seq<Packet>,
                                                 policy: Policy)
    requires AllDeliverable(ps, policy) && AllDeliverable(qs, policy) && Outage(p, part, qs, policy)
    ensures Deliver(EncodeAll(ps) + (part + EncodeAll(qs)), policy) == ps + qs <==> part == [] || qs == []
  {
    if qs == [] {
      assert part + EncodeAll(qs) == part && ps + qs == ps;
      FailedSendDeliversNothing(ps, p, part, policy);
    } else {
      ReadIffNothingCut(ps, p, part, qs[0], EncodeAll(qs[1..]), policy);
      assert ps + [qs[0]] <= ps + qs;
      if part == [] {
        assert part + EncodeAll(qs) == EncodeAll(qs) && EncodeAll(qs) + [] == EncodeAll(qs);
        DeliverBehind(ps, EncodeAll(qs), policy);
        DeliverBehind(qs, [], policy);
        assert qs + [] == qs;
      }
    }
  }

  /** A packet cut in its payload, completed with the bytes that follow. */
  lemma CompletedByRest(p: Packet, j: nat, rest: seq<byte>)
    requires j < |p.payload| <= j + |rest|
    ensures var missing := |p.payload| - j;
            PackHeader(p.header) + p.payload[..j] + rest
            == Encode(Packet(p.header, p.payload[..j] + rest[..missing])) + rest[missing..]
  {
    assert rest == rest[..|p.payload| - j] + rest[|p.payload| - j..];
  }

  /**
   If the connection recovers instead and later packets follow, the receiver cannot tell: cut in its
   payload, the failed packet is completed with the first bytes of what follows, and the rest is
   read from the middle.
   */
  lemma ResumedSendIsMisread(ps: seq<Packet>, p: Packet, j: nat, rest: seq<byte>, policy: Policy)
    requires Deliverable(p, policy) && forall i :: 0 <= i < |ps| ==> Deliverable(ps[i], policy)
    requires j < |p.payload| <= j + |rest|
    ensures var missing := |p.payload| - j;
            Deliver(EncodeAll(ps) + (PackHeader(p.header) + p.payload[..j] + rest), policy)
            == ps + ([Packet(p.header, p.payload[..j] + rest[..missing])] + Deliver(rest[missing..], policy))
  {
    var missing := |p.payload| - j;
    var q, after, tail := Packet(p.header, p.payload[..j] + rest[..missing]), rest[missing..],
                          PackHeader(p.header) + p.payload[..j] + rest;
    DeliverBehind(ps, tail, policy);
    assert tail == Encode(q) + after by { CompletedByRest(p, j, rest); }
    DeliverOne(q, after, policy);
  }

  // ----- two packets cut, one behind the other ---------------------------------------------------------

  /** Where the fields that a receiver looks at lie in a header. */
  lemma FieldsRead(b: seq<byte>)
    requires |b| == PACKET_HEADER_SIZE
    ensures var h := UnpackHeader(b);
            && b[..4] == LittleEndian(h.magic, 4) && b[4..6] == LittleEndian(h.version, 2)
            && b[6..8] == LittleEndian(h.packetType, 2) && FromLittleEndian(b[24..28]) == h.payloadSize
  {
    var h := UnpackHeader(b);
    PacketHeaderRead(b);
    Limits();
    LittleEndianRoundTrip(h.payloadSize, 4);
  }

  lemma ShortRead(a: u32, b: u32, c: u16, d: u16)
    ensures LittleEndian(a, 4) == LittleEndian(b, 4) ==> a == b
    ensures LittleEndian(c, 2) == LittleEndian(d, 2) ==> c == d
  {
    Limits();
    LittleEndianRoundTrip(a, 4);
    LittleEndianRoundTrip(b, 4);
    LittleEndianRoundTrip(c, 2);
    LittleEndianRoundTrip(d, 2);
  }

  /** How many bytes at the front of a header a receiver compares with what it expects. */
  function Compared(policy: Policy): (n: nat) {
    if policy.knownTypesOnly then 8 else 6
  }

  /** What stands in front when header `b` follows the first `k` bytes of a packet with header `a`. */
  function MixedHeader(a: seq<byte>, b: seq<byte>, k: nat): (m: seq<byte>)
    requires |a| == |b| == PACKET_HEADER_SIZE
    ensures |m| == PACKET_HEADER_SIZE
  {
    if k < PACKET_HEADER_SIZE then a[..k] + b[..PACKET_HEADER_SIZE - k] else a
  }

  /** The payload size that it announces. */
  function MixedSize(p: Packet, k: nat, q: Packet): (size: nat) {
    FromLittleEndian(MixedHeader(PackHeader(p.header), PackHeader(q.header), k)[24..28])
  }

  /** `k` bytes of packet `p` and `j` bytes of packet `q` behind them make up a packet for this receiver. */
  predicate ReadAsOne(p: Packet, k: nat, q: Packet, j: nat, policy: Policy) {
    && Compared(policy) <= k && MixedSize(p, k, q) <= policy.maxPayload
    && PACKET_HEADER_SIZE + MixedSize(p, k, q) <= k + j
  }

  /** The bytes that every packet begins with. */
  lemma FrontBytes(h: PacketHeader)
    requires Protocol(h)
    ensures PackHeader(h)[0] == 0x51
  {
    PacketLaidOut(h);
    assert PackHeader(h)[0] == PackHeader(h)[0..4][0];
  }

  lemma AcceptableBytes(m: seq<byte>, policy: Policy)
    requires |m| == PACKET_HEADER_SIZE && Acceptable(UnpackHeader(m), policy)
    ensures forall i :: 1 <= i < Compared(policy) ==> m[i] != 0x51
  {
    var h := UnpackHeader(m);
    FieldsRead(m);
    var magic, version, t := LittleEndian(h.magic, 4), LittleEndian(h.version, 2), LittleEndian(h.packetType, 2);
    assert magic == [0x51, 0x33, 0x54, 0x50] && version == [1, 0];
    assert m[1] == magic[1] && m[2] == magic[2] && m[3] == magic[3] && m[4] == version[0] && m[5] == version[1];
    if policy.knownTypesOnly {
      assert t == [h.packetType, 0];
      assert m[6] == t[0] && m[7] == t[1];
    }
  }

  /** A receiver takes the header in front iff what it compares was not cut, and the size is in its limit. */
  lemma MixedAcceptable(p: Packet, k: nat, q: Packet, policy: Policy)
    requires Regular(p, policy) && Protocol(q.header) && 0 < k
    ensures var h := UnpackHeader(MixedHeader(PackHeader(p.header), PackHeader(q.header), k));
            && h.payloadSize == MixedSize(p, k, q)
            && (Acceptable(h, policy) <==> Compared(policy) <= k && MixedSize(p, k, q) <= policy.maxPayload)
  {
    var a, b := PackHeader(p.header), PackHeader(q.header);
    var m := MixedHeader(a, b, k);
    FieldsRead(m);
    if k < Compared(policy) {
      FrontBytes(q.header);
      assert m[k] == b[0];
      if Acceptable(UnpackHeader(m), policy) {
        AcceptableBytes(m, policy);
      }
    } else {
      FieldsRead(a);
      PacketHeaderRoundTrip(p.header, []);
      assert m[..6] == a[..6] && m[..4] == m[..6][..4] == a[..4] && m[4..6] == m[..6][4..6] == a[4..6];
      var h := UnpackHeader(m);
      ShortRead(h.magic, p.header.magic, h.version, p.header.version);
      if policy.knownTypesOnly {
        assert m[..8] == a[..8] && m[6..8] == m[..8][6..8] == a[6..8];
        ShortRead(h.magic, p.header.magic, h.packetType, p.header.packetType);
      }
    }
  }

  /** The front of two cut packets. */
  lemma MixedInFront(p: Packet, k: nat, q: Packet, j: nat)
    requires 0 < k <= |Encode(p)| && j <= |Encode(q)| && PACKET_HEADER_SIZE <= k + j
    ensures (Encode(p)[..k] + Encode(q)[..j])[..PACKET_HEADER_SIZE]
         == MixedHeader(PackHeader(p.header), PackHeader(q.header), k)
  {
    var part, more := Encode(p)[..k], Encode(q)[..j];
    CutInFront(part, more, PACKET_HEADER_SIZE);
    if k < PACKET_HEADER_SIZE {
      assert part == PackHeader(p.header)[..k];
      assert more[..PACKET_HEADER_SIZE - k] == PackHeader(q.header)[..PACKET_HEADER_SIZE - k];
    } else {
      assert part[..PACKET_HEADER_SIZE] == PackHeader(p.header) && more[..0] == [];
    }
  }

  /** When the bytes of two failed sends make up a packet that neither send completed. */
  lemma CutsReadAsOne(p: Packet, k: nat, q: Packet, j: nat, policy: Policy)
    requires Regular(p, policy) && Protocol(q.header) && 0 < k <= |Encode(p)| && j <= |Encode(q)|
    ensures HasPacket(Encode(p)[..k] + Encode(q)[..j], policy) <==> ReadAsOne(p, k, q, j, policy)
  {
    MixedAcceptable(p, k, q, policy);
    if PACKET_HEADER_SIZE <= k + j {
      MixedInFront(p, k, q, j);
    }
  }

  /** Cut behind its size field, the failed packet is the one that is read, as soon as it is as long as it should be. */
  lemma CutBehindSize(p: Packet, k: nat, q: Packet, j: nat, policy: Policy)
    requires Regular(p, policy) && 28 <= k
    ensures ReadAsOne(p, k, q, j, policy) <==> |Encode(p)| <= k + j
  {
    var a := PackHeader(p.header);
    var m := MixedHeader(a, PackHeader(q.header), k);
    assert m[..28] == a[..28] && m[24..28] == m[..28][24..28] == a[24..28];
    FieldsRead(a);
    PacketHeaderRoundTrip(p.header, []);
  }

  // ----- a run of sends across the failure ---------------------------------------------------------------

  /** Every send of the run returned true. */
  predicate AllSent(oks: seq<bool>) {
    forall i :: 0 <= i < |oks| ==> oks[i]
  }

  /** What went out behind the cut: the later packets, as far as the recovered connection takes them. */
  function Resumed(qs: seq<Packet>, capacity: nat): (bytes: seq<byte>) {
    Fitting(OnWire(Encoded(qs), |qs|), capacity)
  }

  /** If the first later send completes, its packet stands whole behind the cut. */
  lemma {:induction false} FirstStandsWhole(qs: seq<Packet>, capacity: nat) returns (rest: seq<byte>)
    requires qs != [] && Completes(Encoded(qs), 0, capacity)
    ensures Resumed(qs, capacity) == Encode(qs[0]) + rest
  {
    OnWireIsEncoded(qs, |qs|);
    assert qs[..|qs|] == qs;
    OnWireIsEncoded(qs, 1);
    assert qs[..1][1..] == [] && EncodeAll(qs[..1]) == Encode(qs[0]) + [];
    FittingAppend(Encode(qs[0]), EncodeAll(qs[1..]), capacity);
    rest := Fitting(EncodeAll(qs[1..]), Left(capacity, |Encode(qs[0])|));
  }

  lemma DeliveredBehind(ps: seq<Packet>, qs: seq<Packet>, g: seq<Packet>, oks: seq<bool>, oks2: seq<bool>)
    requires |oks| == |ps| && AllSent(oks) && DeliveredIffSent(g, qs, oks2)
    ensures DeliveredIffSent(ps + g, ps + qs, oks + oks2)
  {
    PrefixBehind(ps, g, qs);
    forall i | 0 <= i < |ps + qs|
      ensures (oks + oks2)[i] <==> i < |ps + g|
    {
      if i >= |ps| {
        assert (oks + oks2)[i] == oks2[i - |ps|];
      }
    }
  }

  /** Which of the later sends return true, on a recovered connection that takes `capacity` more bytes. */
  predicate LaterOks(qs: seq<Packet>, oks: seq<bool>, capacity: nat) {
    |oks| == |qs| && forall i :: 0 <= i < |qs| ==> (oks[i] <==> Completes(Encoded(qs), i, capacity))
  }

  lemma {:induction false} LaterDelivered(qs: seq<Packet>, oks: seq<bool>, capacity: nat, policy: Policy)
    requires AllDeliverable(qs, policy) && LaterOks(qs, oks, capacity)
    ensures DeliveredIffSent(Deliver(Resumed(qs, capacity), policy), qs, oks)
  {
    CompletedAreDelivered(qs, capacity, policy);
  }

  /** If the first later send fails too, no later one completes. */
  lemma {:induction false} NoneCompletes(qs: seq<Packet>, oks: seq<bool>, capacity: nat, policy: Policy)
    requires qs != [] && AllDeliverable(qs, policy) && LaterOks(qs, oks, capacity) && !oks[0]
    ensures forall i :: 0 <= i < |oks| ==> !oks[i]
  {
    LaterDelivered(qs, oks, capacity, policy);
  }

  /** The cut first packet is then all that goes out. */
  lemma {:induction false} FirstIsCut(qs: seq<Packet>, capacity: nat)
    requires qs != [] && !Completes(Encoded(qs), 0, capacity)
    ensures capacity < |Encode(qs[0])| && Resumed(qs, capacity) == Encode(qs[0])[..capacity]
  {
    OnWireIsEncoded(qs, |qs|);
    assert qs[..|qs|] == qs;
    OnWireIsEncoded(qs, 1);
    assert qs[..1][1..] == [] && EncodeAll(qs[..1]) == Encode(qs[0]) + [];
    FittingAppend(Encode(qs[0]), EncodeAll(qs[1..]), capacity);
  }

  /** Nothing of `qs` was sent completely: exactly `ps` has to arrive. */
  lemma NothingLater(ps: seq<Packet>, qs: seq<Packet>, g: seq<Packet>, oks: seq<bool>, oks2: seq<bool>)
    requires |oks| == |ps| && AllSent(oks) && |oks2| == |qs| && qs != []
    requires forall i :: 0 <= i < |oks2| ==> !oks2[i]
    ensures DeliveredIffSent(ps + g, ps + qs, oks + oks2) <==> g == []
  {
    assert (oks + oks2)[|ps|] == oks2[0];
    if g == [] {
      assert ps + g == ps;
      forall i | 0 <= i < |ps + qs|
        ensures (oks + oks2)[i] <==> i < |ps|
      {
        if i >= |ps| {
          assert (oks + oks2)[i] == oks2[i - |ps|];
        }
      }
    }
  }

  /** The next send is cut as well: nothing of either packet may be read. */
  lemma {:induction false} CutAgain(ps: seq<Packet>, p: Packet, k: nat, qs: seq<Packet>, oks: seq<bool>,
                                    oks2: seq<bool>, capacity: nat, policy: Policy)
    requires AllDeliverable(ps, policy) && AllDeliverable(qs, policy) && 0 < k <= |Encode(p)| && qs != []
    requires Outage(p, Encode(p)[..k], qs, policy)
    requires |oks| == |ps| && AllSent(oks) && LaterOks(qs, oks2, capacity) && !oks2[0]
    ensures DeliveredIffSent(Deliver(EncodeAll(ps) + (Encode(p)[..k] + Resumed(qs, capacity)), policy), ps + qs,
                             oks + oks2)
            <==> !ReadAsOne(p, k, qs[0], capacity, policy)
  {
    var tail := Encode(p)[..k] + Resumed(qs, capacity);
    NoneCompletes(qs, oks2, capacity, policy);
    FirstIsCut(qs, capacity);
    CutsReadAsOne(p, k, qs[0], capacity, policy);
    DeliverBehind(ps, tail, policy);
    NothingLater(ps, qs, Deliver(tail, policy), oks, oks2);
  }

  lemma {:induction false} RecoveredPackets(ps: seq<Packet>, p: Packet, part: seq<byte>, qs: seq<Packet>,
                                            oks: seq<bool>, oks2: seq<bool>, capacity: nat, policy: Policy)
    requires AllDeliverable(ps, policy) && AllDeliverable(qs, policy) && Outage(p, part, qs, policy)
    requires |oks| == |ps| && AllSent(oks) && LaterOks(qs, oks2, capacity)
    ensures DeliveredIffSent(Deliver(EncodeAll(ps) + (part + Resumed(qs, capacity)), policy), ps + qs, oks + oks2)
            <==> part == [] || qs == [] || (!oks2[0] && !ReadAsOne(p, |part|, qs[0], capacity, policy))
  {
    var tail := part + Resumed(qs, capacity);
    var got := Deliver(EncodeAll(ps) + tail, policy);
    if qs == [] {
      assert Resumed(qs, capacity) == [] && tail == part && ps + qs == ps && oks + oks2 == oks;
      FailedSendDeliversNothing(ps, p, part, policy);
    } else if part == [] {
      assert tail == Resumed(qs, capacity);
      LaterDelivered(qs, oks2, capacity, policy);
      DeliverBehind(ps, tail, policy);
      DeliveredBehind(ps, qs, Deliver(tail, policy), oks, oks2);
    } else if !oks2[0] {
      assert part == Encode(p)[..|part|];
      CutAgain(ps, p, |part|, qs, oks, oks2, capacity, policy);
    } else {
      var rest := FirstStandsWhole(qs, capacity);
      ReadIffNothingCut(ps, p, part, qs[0], rest, policy);
      assert (oks + oks2)[|ps|] == oks2[0];
      if DeliveredIffSent(got, ps + qs, oks + oks2) {
        FirstOfSecond(got, ps, qs);
      }
    }
  }

  lemma FirstOfSecond<T>(got: seq<T>, ps: seq<T>, qs: seq<T>)
    requires got <= ps + qs && |ps| < |got| && qs != []
    ensures ps + [qs[0]] <= got
  {
    assert got[..|ps| + 1] == (ps + qs)[..|ps| + 1] == ps + [qs[0]];
  }

  lemma StampedRegular(o: Outgoing, seqNo: nat, policy: Policy)
    requires policy.maxPayload < TWO32 && KnownType(o.packetType) && |o.payload| <= policy.maxPayload
    ensures Regular(StampedPacket(o, seqNo), policy) && StampedPacket(o, seqNo).header.seqNo == Wrap(seqNo)
  {
  }

  /** A run of sends that all returned true leaves the encodings on the wire. */
  lemma {:induction false} AllOnWire(links: seq<Link>, ps: seq<Packet>, oks: seq<bool>)
    requires LinkRun(links, Encoded(ps), oks) && links[0].sent == [] && AllSent(oks)
    ensures links[|ps|].sent == EncodeAll(ps)
  {
    var n := |ps|;
    RunIsOnWire(links, Encoded(ps), oks);
    OnWireIsEncoded(ps, n);
    assert ps[..n] == ps;
    if n > 0 {
      EncodedNotEmpty(ps);
      OkIffCompletes(links, Encoded(ps), oks, n - 1);
    }
  }

  /** A run of sends on a connection that already carries bytes. */
  lemma {:induction false} RunBehind(links: seq<Link>, qs: seq<Packet>, oks: seq<bool>)
    requires LinkRun(links, Encoded(qs), oks)
    ensures links[|qs|].sent == links[0].sent + Resumed(qs, links[0].left) && LaterOks(qs, oks, links[0].left)
  {
    RunOfSends(links, Encoded(qs), oks, |qs|);
    SendsOnWire(links[0], Encoded(qs), |qs|);
    EncodedNotEmpty(qs);
    forall i | 0 <= i < |qs|
      ensures oks[i] <==> Completes(Encoded(qs), i, links[0].left)
    {
      OkIffCompletes(links, Encoded(qs), oks, i);
    }
  }

  /** What stands on the wire when the failed send begins. */
  lemma WireBefore(states: seq<SenderState>, sent: seq<Outgoing>, oks: seq<bool>)
    requires SendRun(states, sent, oks) && states[0].link.sent == [] && AllSent(oks)
    ensures states[|sent|].link.sent == EncodeAll(Stamped(sent, states[0].next))
  {
    RunOfPieces(states, sent, oks);
    AllOnWire(LinksOf(states), Stamped(sent, states[0].next), oks);
  }

  /** What the later sends add to it. */
  lemma WireAfter(states: seq<SenderState>, later: seq<Outgoing>, oks: seq<bool>)
    requires SendRun(states, later, oks)
    ensures var qs, capacity := Stamped(later, states[0].next), states[0].link.left;
            states[|later|].link.sent == states[0].link.sent + Resumed(qs, capacity) && LaterOks(qs, oks, capacity)
  {
    RunOfPieces(states, later, oks);
    RunBehind(LinksOf(states), Stamped(later, states[0].next), oks);
  }

  /** A failed send leaves a proper part of its packet on the wire, empty iff the connection took nothing more. */
  lemma OutageOf(s: SenderState, o: Outgoing, failed: SenderState, later: seq<Outgoing>, policy: Policy)
    returns (part: seq<byte>)
    requires SendStep(s, o, false, failed) && policy.maxPayload < TWO32 && Sendable([o], policy)
             && Sendable(later, policy)
    ensures failed.link.sent == s.link.sent + part && |part| == s.link.left
    ensures Outage(StampedPacket(o, s.next), part, Stamped(later, failed.next), policy)
  {
    part := Fitting(Encode(StampedPacket(o, s.next)), s.link.left);
    assert Sendable([o], policy) ==> KnownType([o][0].packetType) && |[o][0].payload| <= policy.maxPayload;
    StampedRegular(o, s.next, policy);
    if later != [] {
      StampedRegular(later[0], failed.next, policy);
    }
  }

  /**
   The exact condition for a connection that recovers. `sent` goes out, the send of `o` fails, and
   the connection then takes more bytes, any number of them. What the receiver gets is exactly what
   was sent with result true if and only if the connection took nothing at all of `o`, or nothing is
   sent after it, or the next send is cut as well and the bytes of the two do not make up a packet:
   however many bytes of `o` went out, in its header or its payload, a next packet that goes out
   whole is not read.
   */
  lemma {:induction false} RecoveredConnection(before: seq<SenderState>, sent: seq<Outgoing>, oks: seq<bool>,
                            o: Outgoing, failed: SenderState,
                            after: seq<SenderState>, later: seq<Outgoing>, oks2: seq<bool>, policy: Policy)
    requires SendRun(before, sent, oks) && before[0].link.sent == [] && AllSent(oks)
    requires SendStep(before[|sent|], o, false, failed)
    requires SendRun(after, later, oks2) && after[0].link.sent == failed.link.sent && after[0].next == failed.next
    requires policy.maxPayload < TWO32 && Sendable(sent, policy) && Sendable([o], policy) && Sendable(later, policy)
    ensures DeliveredIffSent(Deliver(after[|later|].link.sent, policy),
                             Stamped(sent, before[0].next) + Stamped(later, failed.next), oks + oks2)
            <==> before[|sent|].link.left == 0 || later == []
                 || (!oks2[0]
                     && !ReadAsOne(StampedPacket(o, before[|sent|].next), before[|sent|].link.left,
                                   StampedPacket(later[0], failed.next), after[0].link.left, policy))
  {
    var ps, qs, s := Stamped(sent, before[0].next), Stamped(later, failed.next), before[|sent|];
    var p, capacity := StampedPacket(o, s.next), after[0].link.left;
    WireBefore(before, sent, oks);
    WireAfter(after, later, oks2);
    var part := OutageOf(s, o, failed, later, policy);
    ConcatAssociates(EncodeAll(ps), part, Resumed(qs, capacity));
    StampedDeliverable(sent, before[0].next, policy);
    StampedDeliverable(later, failed.next, policy);
    RecoveredPackets(ps, p, part, qs, oks, oks2, capacity, policy);
  }
}
