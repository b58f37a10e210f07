/**
 Packet framing over a byte stream: exact-read and exact-write loops over a socket that
 fragments and interrupts at will, the receive loops, and the sender.
 */
module Framing {
  import opened Bytes
  import opened Wire

  datatype Packet = Packet(header: PacketHeader, payload: seq<byte>)

  /** `isKnownPacketType`. */
  predicate KnownType(t: nat) { 1 <= t <= 8 }

  /** What a receiver accepts: its payload limit, and whether it insists on a known type. */
  datatype Policy = Policy(maxPayload: nat, knownTypesOnly: bool)

  const HOST_BRIDGE := Policy(16 * 1024 * 1024, true)
  const QUEST_CLIENT := Policy(1024 * 1024, true)
  const PYTHON_SERVER := Policy(1024 * 1024, false)

  predicate Acceptable(h: PacketHeader, policy: Policy) {
    h.magic == MAGIC && h.version == VERSION && (policy.knownTypesOnly ==> KnownType(h.packetType))
    && h.payloadSize <= policy.maxPayload
  }

  /** `makePacketHeader`: the payload size is cast to 32 bits. */
  function MakeHeader(packetType: u16, seqNo: u64, timestampNs: i64, payloadSize: nat): (h: PacketHeader) {
    PacketHeader(MAGIC, VERSION, packetType, seqNo, timestampNs, payloadSize % TWO32, 0)
  }

  function Encode(p: Packet): (bytes: seq<byte>) {
    PackHeader(p.header) + p.payload
  }

  function EncodeAll(ps: seq<Packet>): (bytes: seq<byte>) {
    if ps == [] then [] else Encode(ps[0]) + EncodeAll(ps[1..])
  }

  /** A whole acceptable packet stands at the front of the stream. */
  predicate HasPacket(stream: seq<byte>, policy: Policy) {
    |stream| >= PACKET_HEADER_SIZE
    && var h := UnpackHeader(stream[..PACKET_HEADER_SIZE]);
       Acceptable(h, policy) && |stream| >= PACKET_HEADER_SIZE + h.payloadSize
  }

  function FrontPacket(stream: seq<byte>, policy: Policy): (p: Packet)
    requires HasPacket(stream, policy)
  {
    var h := UnpackHeader(stream[..PACKET_HEADER_SIZE]);
    Packet(h, stream[PACKET_HEADER_SIZE..PACKET_HEADER_SIZE + h.payloadSize])
  }

  /** What a receive loop hands on from a stream that ends after these bytes. */
  function Deliver(stream: seq<byte>, policy: Policy): (ps: seq<Packet>)
    decreases |stream|
  {
    if !HasPacket(stream, policy) then []
    else
      var p := FrontPacket(stream, policy);
      [p] + Deliver(stream[PACKET_HEADER_SIZE + |p.payload|..], policy)
  }

  /** A packet a sender may put on the wire and this receiver takes. */
  predicate Deliverable(p: Packet, policy: Policy) {
    Acceptable(p.header, policy) && p.header.payloadSize == |p.payload|
  }

  lemma FrontOfEncoded(p: Packet, rest: seq<byte>, policy: Policy)
    requires Deliverable(p, policy)
    ensures HasPacket(Encode(p) + rest, policy) && FrontPacket(Encode(p) + rest, policy) == p
    ensures (Encode(p) + rest)[PACKET_HEADER_SIZE + |p.payload|..] == rest
  {
    var head, stream := PackHeader(p.header), Encode(p) + rest;
    PacketHeaderRoundTrip(p.header, []);
    assert stream == head + (p.payload + rest);
    assert stream[..PACKET_HEADER_SIZE] == head;
    assert stream[PACKET_HEADER_SIZE..] == p.payload + rest;
  }

  /** A cut inside a packet leaves no packet at the front. */
  lemma NothingInPart(p: Packet, part: seq<byte>, policy: Policy)
    requires Deliverable(p, policy) && part <= Encode(p) && |part| < |Encode(p)|
    ensures !HasPacket(part, policy)
  {
    PacketHeaderRoundTrip(p.header, []);
    if |part| >= PACKET_HEADER_SIZE {
      assert part[..PACKET_HEADER_SIZE] == Encode(p)[..PACKET_HEADER_SIZE] == PackHeader(p.header);
    }
  }

  /** How many whole packets the first `k` bytes of their encoding hold. */
  function WholePackets(ps: seq<Packet>, k: nat): (n: nat)
    ensures n <= |ps|
  {
    if ps == [] || k < |Encode(ps[0])| then 0 else 1 + WholePackets(ps[1..], k - |Encode(ps[0])|)
  }

  /** `WholePackets` is the largest number of packets that fit. */
  lemma {:induction false} WholePacketsIsMaximal(ps: seq<Packet>, k: nat)
    ensures var n := WholePackets(ps, k);
            |EncodeAll(ps[..n])| <= k && (n < |ps| ==> k < |EncodeAll(ps[..n + 1])|)
  {
    if ps != [] && k >= |Encode(ps[0])| {
      var n := WholePackets(ps[1..], k - |Encode(ps[0])|);
      WholePacketsIsMaximal(ps[1..], k - |Encode(ps[0])|);
      assert ps[..n + 1][1..] == ps[1..][..n];
      if n + 1 < |ps| {
        assert ps[..n + 2][1..] == ps[1..][..n + 1];
      }
    } else if ps != [] {
      assert ps[..1][1..] == [];
      assert EncodeAll(ps[..1]) == Encode(ps[0]) + [];
    }
  }

  lemma CutInFront<T>(a: seq<T>, b: seq<T>, k: nat)
    requires k <= |a| + |b|
    ensures (a + b)[..k] == if k < |a| then a[..k] else a + b[..k - |a|]
  {
  }

  lemma PrefixOfSecond<T>(a: seq<T>, b: seq<T>, part: seq<T>)
    requires part <= b
    ensures a + part <= a + b && (a + b)[..|a| + |part|] == a + part && (a + b)[|a + part|..] == b[|part|..]
  {
  }

  lemma TakeFromTail<T>(s: seq<T>, n: nat)
    requires s != [] && n < |s|
    ensures s[..n + 1] == [s[0]] + s[1..][..n]
  {
  }

  /** The first packet of a truncated stream. */
  lemma DeliverTruncated(p: Packet, rest: seq<byte>, k: nat, policy: Policy)
    requires Deliverable(p, policy) && k <= |Encode(p)| + |rest|
    ensures Deliver((Encode(p) + rest)[..k], policy)
         == if k < |Encode(p)| then [] else [p] + Deliver(rest[..k - |Encode(p)|], policy)
  {
    CutInFront(Encode(p), rest, k);
    if k < |Encode(p)| {
      NothingInPart(p, Encode(p)[..k], policy);
    } else {
      FrontOfEncoded(p, rest[..k - |Encode(p)|], policy);
    }
  }

  /**
   Framing round trip: whatever the truncation point, the receiver delivers exactly the
   maximal prefix of complete packets, headers and payloads unchanged.
   */
  lemma {:induction false} DeliverInvertsEncoding(ps: seq<Packet>, k: nat, policy: Policy)
    requires forall i :: 0 <= i < |ps| ==> Deliverable(ps[i], policy)
    requires k <= |EncodeAll(ps)|
    ensures Deliver(EncodeAll(ps)[..k], policy) == ps[..WholePackets(ps, k)]
    decreases |ps|
  {
    if ps != [] {
      var p := ps[0];
      var j := k - |Encode(p)|;
      DeliverTruncated(p, EncodeAll(ps[1..]), k, policy);
      if j >= 0 {
        DeliverInvertsEncoding(ps[1..], j, policy);
        TakeFromTail(ps, WholePackets(ps[1..], j));
      }
    }
  }

  lemma ThreeParts<T>(s: seq<T>, i: nat, j: nat)
    requires i <= j <= |s|
    ensures s == s[..i] + s[i..j] + s[j..]
  {
  }

  /** The packet at the front re-encodes to the bytes it was read from. */
  lemma FrontSplits(stream: seq<byte>, policy: Policy)
    requires HasPacket(stream, policy)
    ensures var p := FrontPacket(stream, policy);
            Deliverable(p, policy) && stream == Encode(p) + stream[PACKET_HEADER_SIZE + |p.payload|..]
  {
    var p := FrontPacket(stream, policy);
    PacketHeaderRoundTrip(p.header, stream[..PACKET_HEADER_SIZE]);
    ThreeParts(stream, PACKET_HEADER_SIZE, PACKET_HEADER_SIZE + p.header.payloadSize);
  }

  /** On ANY byte stream: what is delivered re-encodes to a prefix of it, and no acceptable packet follows. */
  lemma {:induction false} DeliveredIsMaximalPrefix(stream: seq<byte>, policy: Policy)
    ensures var encoded := EncodeAll(Deliver(stream, policy));
            encoded <= stream && !HasPacket(stream[|encoded|..], policy)
    ensures forall p :: p in Deliver(stream, policy) ==> Deliverable(p, policy)
    decreases |stream|
  {
    if HasPacket(stream, policy) {
      var p := FrontPacket(stream, policy);
      var rest := stream[PACKET_HEADER_SIZE + |p.payload|..];
      FrontSplits(stream, policy);
      DeliveredIsMaximalPrefix(rest, policy);
      assert EncodeAll(Deliver(stream, policy)) == Encode(p) + EncodeAll(Deliver(rest, policy));
      PrefixOfSecond(Encode(p), rest, EncodeAll(Deliver(rest, policy)));
    }
  }

  // ----- sockets -------------------------------------------------------------------------

  /** One answer of `recv` or `send`: at most `n` bytes move, or EINTR. */
  datatype Answer = Move(n: nat) | Interrupted

  /** What a call returned: bytes moved, EINTR, or the end (0 or any other error). */
  datatype Result = Moved(bytes: seq<byte>) | Eintr | Ended

  class Socket {
    var incoming: seq<byte>     // the bytes still to arrive before the connection ends
    var answers: seq<Answer>    // how the next calls fragment; beyond it, as much as fits
    var sent: seq<byte>         // the bytes the peer will see
    var capacity: nat           // how many more bytes can be sent before the connection fails

    constructor (incoming: seq<byte>, answers: seq<Answer>, capacity: nat)
      ensures this.incoming == incoming && this.answers == answers && sent == [] && this.capacity == capacity
    {
      this.incoming, this.answers, this.sent, this.capacity := incoming, answers, [], capacity;
    }

    /** The next scheduled fragment size: at least one byte, at most `limit`; None is EINTR. */
    method NextFragment(limit: nat) returns (n: Option<nat>)
      requires limit > 0
      modifies this`answers
      ensures n.Some? ==> 1 <= n.value <= limit
      ensures n.None? ==> |answers| < |old(answers)|
    {
      if answers == [] {
        return Some(limit);
      }
      var a := answers[0];
      answers := answers[1..];
      return match a
        case Interrupted => None
        case Move(k) => Some(if k == 0 then 1 else if k > limit then limit else k);
    }

    /** `recv(fd, ..., size, 0)`. */
    method Recv(size: nat) returns (r: Result)
      requires size > 0
      modifies this`incoming, this`answers
      ensures r.Moved? ==> 1 <= |r.bytes| <= size && old(incoming) == r.bytes + incoming
      ensures r.Eintr? ==> incoming == old(incoming) && |answers| < |old(answers)|
      ensures r.Ended? ==> incoming == [] == old(incoming)
    {
      if incoming == [] {
        return Ended;
      }
      var n := NextFragment(if size < |incoming| then size else |incoming|);
      if n.None? {
        return Eintr;
      }
      assert incoming == incoming[..n.value] + incoming[n.value..];
      r := Moved(incoming[..n.value]);
      incoming := incoming[n.value..];
    }

    /** `send(fd, data, ..., MSG_NOSIGNAL)`. */
    method Send(data: seq<byte>) returns (r: Result)
      requires data != []
      modifies this`sent, this`capacity, this`answers
      ensures r.Moved? ==> 1 <= |r.bytes| <= |data| && r.bytes == data[..|r.bytes|] && sent == old(sent) + r.bytes
                           && old(capacity) == capacity + |r.bytes|
      ensures r.Eintr? ==> sent == old(sent) && capacity == old(capacity) && |answers| < |old(answers)|
      ensures r.Ended? ==> sent == old(sent) && capacity == old(capacity) == 0
    {
      if capacity == 0 {
        return Ended;
      }
      var n := NextFragment(if |data| < capacity then |data| else capacity);
      if n.None? {
        return Eintr;
      }
      r := Moved(data[..n.value]);
      sent := sent + data[..n.value];
      capacity := capacity - n.value;
    }
  }

  /** `readExact`: fill the buffer or fail at the end of the stream. */
  method ReadExact(fd: Socket, data: array<byte>) returns (ok: bool)
    modifies fd`incoming, fd`answers, data
    ensures ok <==> |old(fd.incoming)| >= data.Length
    ensures ok ==> data[..] == old(fd.incoming)[..data.Length] && fd.incoming == old(fd.incoming)[data.Length..]
  {
    var total := 0;
    ghost var stream := fd.incoming;
    while total < data.Length
      invariant 0 <= total <= data.Length && total <= |stream|
      invariant data[..total] == stream[..total] && fd.incoming == stream[total..]
      decreases |fd.incoming|, |fd.answers|, data.Length - total
    {
      var r := fd.Recv(data.Length - total);
      match r {
        case Ended =>
          return false;
        case Eintr =>
          continue;
        case Moved(bytes) =>
          var end := total + |bytes|;
          assert stream[..end] == stream[..total] + bytes && stream[end..] == fd.incoming;
          ghost var filled := data[..total];
          forall i | 0 <= i < |bytes| {
            data[total + i] := bytes[i];
          }
          assert data[..total] == filled && data[total..end] == bytes;
          assert data[..end] == filled + bytes;
          total := end;
      }
    }
    return true;
  }

  /** `recvall`: the same over a growing byte string; Python itself retries after EINTR. */
  method RecvAll(conn: Socket, size: nat) returns (r: Option<seq<byte>>)
    modifies conn`incoming, conn`answers
    ensures r.Some? <==> |old(conn.incoming)| >= size
    ensures r.Some? ==> r.value == old(conn.incoming)[..size] && conn.incoming == old(conn.incoming)[size..]
  {
    var chunks: seq<byte> := [];
    ghost var stream := conn.incoming;
    while |chunks| < size
      invariant |chunks| <= size && stream == chunks + conn.incoming
      decreases |conn.incoming|, |conn.answers|
    {
      var data := conn.Recv(size - |chunks|);
      match data {
        case Ended =>
          return None;
        case Eintr =>
        case Moved(bytes) =>
          chunks := chunks + bytes;
      }
    }
    return Some(chunks);
  }

  /** `clientLoop` and `receiveHostPackets`: the C++ receive loop, under either one's limits. */
  method ReceiveLoop(fd: Socket, policy: Policy) returns (packets: seq<Packet>)
    modifies fd`incoming, fd`answers
    ensures packets == Deliver(old(fd.incoming), policy)
  {
    packets := [];
    ghost var stream := fd.incoming;
    while true
      invariant packets + Deliver(fd.incoming, policy) == Deliver(stream, policy)
      decreases |fd.incoming|
    {
      ghost var rest := fd.incoming;
      var headerBytes := new byte[PACKET_HEADER_SIZE];
      var ok := ReadExact(fd, headerBytes);
      if !ok {
        return;
      }
      var header := UnpackHeader(headerBytes[..]);
      assert headerBytes[..] == rest[..PACKET_HEADER_SIZE];
      if header.magic != MAGIC || header.version != VERSION
         || (policy.knownTypesOnly && !KnownType(header.packetType)) || header.payloadSize > policy.maxPayload {
        return;
      }
      var payload := new byte[header.payloadSize];
      if payload.Length != 0 {
        ok := ReadExact(fd, payload);
        if !ok {
          return;
        }
      }
      assert payload[..] == rest[PACKET_HEADER_SIZE..][..header.payloadSize];
      SliceOfDrop(rest, PACKET_HEADER_SIZE, header.payloadSize);
      assert FrontPacket(rest, policy) == Packet(header, payload[..]);
      ConcatAssociates(packets, [Packet(header, payload[..])], Deliver(fd.incoming, policy));
      packets := packets + [Packet(header, payload[..])];
    }
  }

  /** `_read_connection`: the Python receive loop. */
  method ReadConnection(conn: Socket) returns (packets: seq<Packet>)
    modifies conn`incoming, conn`answers
    ensures packets == Deliver(old(conn.incoming), PYTHON_SERVER)
  {
    packets := [];
    ghost var stream := conn.incoming;
    while true
      invariant packets + Deliver(conn.incoming, PYTHON_SERVER) == Deliver(stream, PYTHON_SERVER)
      decreases |conn.incoming|
    {
      ghost var rest := conn.incoming;
      var headerBytes := RecvAll(conn, PACKET_HEADER_SIZE);
      if headerBytes.None? {
        return;
      }
      var header := UnpackHeader(headerBytes.value);
      if header.magic != MAGIC || header.version != VERSION || header.payloadSize > PYTHON_SERVER.maxPayload {
        return;
      }
      var payload := Some([]);
      if header.payloadSize != 0 {
        payload := RecvAll(conn, header.payloadSize);
        if payload.None? {
          return;
        }
      }
      SliceOfDrop(rest, PACKET_HEADER_SIZE, header.payloadSize);
      assert FrontPacket(rest, PYTHON_SERVER) == Packet(header, payload.value);
      ConcatAssociates(packets, [Packet(header, payload.value)], Deliver(conn.incoming, PYTHON_SERVER));
      packets := packets + [Packet(header, payload.value)];
    }
  }

  // ----- sending -------------------------------------------------------------------------

  /** As much of `data` as still goes out on a connection that takes `capacity` more bytes. */
  function Fitting<T>(data: seq<T>, capacity: nat): (front: seq<T>)
    ensures front <= data && |front| == if |data| <= capacity then |data| else capacity
  {
    if |data| <= capacity then data else data[..capacity]
  }

  /** What is left of the capacity. */
  function Left(capacity: nat, used: nat): (n: nat) {
    if used <= capacity then capacity - used else 0
  }

  lemma FittingAppend<T>(a: seq<T>, b: seq<T>, capacity: nat)
    ensures Fitting(a + b, capacity) == Fitting(a, capacity) + Fitting(b, Left(capacity, |a|))
    ensures Left(Left(capacity, |a|), |b|) == Left(capacity, |a + b|)
  {
  }

  /** `writeExact`: all the bytes, or, when the connection fails before that, as many as it takes. */
  method WriteExact(fd: Socket, data: seq<byte>) returns (ok: bool)
    modifies fd`sent, fd`capacity, fd`answers
    ensures ok <==> |data| <= old(fd.capacity)
    ensures fd.sent == old(fd.sent) + Fitting(data, old(fd.capacity))
    ensures fd.capacity == Left(old(fd.capacity), |data|)
  {
    var total := 0;
    assert data[..0] == [];
    while total < |data|
      invariant 0 <= total <= |data|
      invariant fd.sent == old(fd.sent) + data[..total] && fd.capacity + total == old(fd.capacity)
      decreases |data| - total, |fd.answers|
    {
      var r := fd.Send(data[total..]);
      match r {
        case Ended =>
          return false;
        case Eintr =>
          continue;
        case Moved(bytes) =>
          assert data[..total + |bytes|] == data[..total] + bytes;
          total := total + |bytes|;
      }
    }
    assert data[..|data|] == data;
    return true;
  }

  lemma DeliverOne(p: Packet, rest: seq<byte>, policy: Policy)
    requires Deliverable(p, policy)
    ensures Deliver(Encode(p) + rest, policy) == [p] + Deliver(rest, policy)
  {
    FrontOfEncoded(p, rest, policy);
  }

  /** Whole packets in front do not affect what is read behind them, whatever that is. */
  lemma {:induction false} DeliverBehind(ps: seq<Packet>, tail: seq<byte>, policy: Policy)
    requires forall i :: 0 <= i < |ps| ==> Deliverable(ps[i], policy)
    ensures Deliver(EncodeAll(ps) + tail, policy) == ps + Deliver(tail, policy)
    decreases |ps|
  {
    if ps == [] {
      assert EncodeAll(ps) + tail == tail;
    } else {
      DeliverBehind(ps[1..], tail, policy);
      var first, others := Encode(ps[0]), EncodeAll(ps[1..]);
      assert EncodeAll(ps) + tail == first + (others + tail) by { ConcatAssociates(first, others, tail); }
      DeliverOne(ps[0], others + tail, policy);
      assert ps == [ps[0]] + ps[1..];
      ConcatAssociates([ps[0]], ps[1..], Deliver(tail, policy));
    }
  }

  /**
   A send that fails half way, where the connection ends, is invisible: the receiver has exactly the
   packets sent before it.
   */
  lemma FailedSendDeliversNothing(ps: seq<Packet>, p: Packet, part: seq<byte>, policy: Policy)
    requires Deliverable(p, policy) && forall i :: 0 <= i < |ps| ==> Deliverable(ps[i], policy)
    requires part <= Encode(p) && |part| < |Encode(p)|
    ensures Deliver(EncodeAll(ps) + part, policy) == ps
  {
    NothingInPart(p, part, policy);
    DeliverBehind(ps, part, policy);
  }
}
