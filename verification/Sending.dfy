/**
 Sending packets: any number of sends over one connection that may fail at any byte, and what the
 receive loop at the other end makes of them.
 */
module Sending {
  import opened Bytes
  import opened Wire
  import opened Framing

  // ----- pieces over a connection ----------------------------------------------------------------------

  /** The first `n` pieces one after the other. */
  function OnWire(pieces: seq<seq<byte>>, n: nat): (bytes: seq<byte>)
    requires n <= |pieces|
  {
    if n == 0 then [] else OnWire(pieces, n - 1) + pieces[n - 1]
  }

  /** Piece `i` is written completely when the connection takes `capacity` bytes. */
  predicate Completes(pieces: seq<seq<byte>>, i: nat, capacity: nat)
    requires i < |pieces|
  {
    |OnWire(pieces, i + 1)| <= capacity
  }

  /** A connection as its sender sees it: the bytes sent, and how many more it takes. */
  datatype Link = Link(sent: seq<byte>, left: nat)

  /** One piece sent, as far as the connection takes it. */
  function AfterSend(a: Link, bytes: seq<byte>): (r: Link) {
    Link(a.sent + Fitting(bytes, a.left), Left(a.left, |bytes|))
  }

  /** The first `n` pieces sent, whether or not they complete. */
  function AfterSends(a: Link, pieces: seq<seq<byte>>, n: nat): (r: Link)
    requires n <= |pieces|
  {
    if n == 0 then a else AfterSend(AfterSends(a, pieces, n - 1), pieces[n - 1])
  }

  predicate Succeeds(a: Link, pieces: seq<seq<byte>>, i: nat)
    requires i < |pieces|
  {
    |pieces[i]| <= AfterSends(a, pieces, i).left
  }

  /** A run of sends puts the pieces on the wire, as far as the connection takes them. */
  lemma {:induction false} SendsOnWire(a: Link, pieces: seq<seq<byte>>, n: nat)
    requires n <= |pieces|
    ensures AfterSends(a, pieces, n).sent == a.sent + Fitting(OnWire(pieces, n), a.left)
    ensures AfterSends(a, pieces, n).left == Left(a.left, |OnWire(pieces, n)|)
  {
    if n > 0 {
      SendsOnWire(a, pieces, n - 1);
      var done := OnWire(pieces, n - 1);
      FittingAppend(done, pieces[n - 1], a.left);
      ConcatAssociates(a.sent, Fitting(done, a.left), Fitting(pieces[n - 1], Left(a.left, |done|)));
    }
  }

  /** A send completes iff its piece does. */
  lemma SendCompletes(a: Link, pieces: seq<seq<byte>>, n: nat)
    requires n < |pieces| && pieces[n] != []
    ensures Succeeds(a, pieces, n) <==> Completes(pieces, n, a.left)
  {
    SendsOnWire(a, pieces, n);
  }

  /** Any number of sends over one connection, continued whether or not they succeed. */
  predicate LinkRun(links: seq<Link>, pieces: seq<seq<byte>>, oks: seq<bool>) {
    && |links| == |pieces| + 1 && |oks| == |pieces|
    && (forall i :: 0 <= i < |pieces| ==> links[i + 1] == AfterSend(links[i], pieces[i]))
    && (forall i :: 0 <= i < |pieces| ==> (oks[i] <==> |pieces[i]| <= links[i].left))
  }

  lemma {:induction false} RunOfSends(links: seq<Link>, pieces: seq<seq<byte>>, oks: seq<bool>, n: nat)
    requires LinkRun(links, pieces, oks) && n <= |pieces|
    ensures links[n] == AfterSends(links[0], pieces, n)
  {
    if n > 0 {
      RunOfSends(links, pieces, oks, n - 1);
      assert links[n - 1 + 1] == AfterSend(links[n - 1], pieces[n - 1]);
    }
  }

  lemma OkIffCompletes(links: seq<Link>, pieces: seq<seq<byte>>, oks: seq<bool>, i: nat)
    requires LinkRun(links, pieces, oks) && i < |pieces| && pieces[i] != []
    ensures oks[i] <==> Completes(pieces, i, links[0].left)
  {
    RunOfSends(links, pieces, oks, i);
    SendCompletes(links[0], pieces, i);
  }

  /** The peer sees the pieces as far as the connection takes them. */
  lemma RunIsOnWire(links: seq<Link>, pieces: seq<seq<byte>>, oks: seq<bool>)
    requires LinkRun(links, pieces, oks) && links[0].sent == []
    ensures links[|pieces|].sent == Fitting(OnWire(pieces, |pieces|), links[0].left)
  {
    RunOfSends(links, pieces, oks, |pieces|);
    SendsOnWire(links[0], pieces, |pieces|);
  }

  // ----- encoded packets as pieces -----------------------------------------------------------------------

  /** The packets, each encoded. */
  function Encoded(ps: seq<Packet>): (pieces: seq<seq<byte>>)
    ensures |pieces| == |ps|
    decreases |ps|
  {
    if ps == [] then [] else Encoded(ps[..|ps| - 1]) + [Encode(ps[|ps| - 1])]
  }

  lemma {:induction false} EncodedAt(ps: seq<Packet>, i: nat)
    requires i < |ps|
    ensures Encoded(ps)[i] == Encode(ps[i]) != []
    decreases |ps|
  {
    if i == |ps| - 1 {
      NotEmpty(ps[i]);
    } else {
      EncodedAt(ps[..|ps| - 1], i);
    }
  }

  lemma NotEmpty(p: Packet)
    ensures Encode(p) != []
  {
    assert |PackHeader(p.header)| == PACKET_HEADER_SIZE;
  }

  /** Which packets are whole among the first `k` bytes, one by one. */
  lemma {:induction false} WholeIffFits(ps: seq<Packet>, k: nat, i: nat)
    requires i < |ps|
    ensures i < WholePackets(ps, k) <==> |EncodeAll(ps[..i + 1])| <= k
  {
    assert ps[..i + 1][0] == ps[0] && ps[..i + 1][1..] == ps[1..][..i];
    if i > 0 && k >= |Encode(ps[0])| {
      WholeIffFits(ps[1..], k - |Encode(ps[0])|, i - 1);
    }
  }

  lemma {:induction false} EncodeAllAppend(ps: seq<Packet>, p: Packet)
    ensures EncodeAll(ps + [p]) == EncodeAll(ps) + Encode(p)
  {
    if ps == [] {
      assert ps + [p] == [p] && [p][1..] == [];
    } else {
      assert (ps + [p])[1..] == ps[1..] + [p];
      EncodeAllAppend(ps[1..], p);
    }
  }

  lemma TakeOne<T>(s: seq<T>, n: nat)
    requires 0 < n <= |s|
    ensures s[..n] == s[..n - 1] + [s[n - 1]]
  {
  }

  lemma {:induction false} OnWireIsEncoded(ps: seq<Packet>, n: nat)
    requires n <= |ps|
    ensures OnWire(Encoded(ps), n) == EncodeAll(ps[..n])
  {
    if n > 0 {
      OnWireIsEncoded(ps, n - 1);
      EncodedAt(ps, n - 1);
      TakeOne(ps, n);
      EncodeAllAppend(ps[..n - 1], ps[n - 1]);
    }
  }

  lemma {:induction false} EncodeAllPrefix(ps: seq<Packet>, n: nat)
    requires n <= |ps|
    ensures |EncodeAll(ps[..n])| <= |EncodeAll(ps)|
  {
    if n > 0 {
      assert ps[..n][1..] == ps[1..][..n - 1];
      EncodeAllPrefix(ps[1..], n - 1);
    }
  }

  predicate AllDeliverable(ps: seq<Packet>, policy: Policy) {
    forall i :: 0 <= i < |ps| ==> Deliverable(ps[i], policy)
  }

  /**
   What arrives of packets sent on a connection that takes `capacity` bytes: exactly the completed
   ones, unchanged.
   */
  predicate ReceivedAsSent(got: seq<Packet>, ps: seq<Packet>, pieces: seq<seq<byte>>, capacity: nat)
    requires |pieces| == |ps|
  {
    got <= ps && forall i :: 0 <= i < |ps| ==> (i < |got| <==> Completes(pieces, i, capacity))
  }

  lemma CompletesIffWhole(ps: seq<Packet>, i: nat, capacity: nat)
    requires i < |ps|
    ensures i < WholePackets(ps, |Fitting(EncodeAll(ps), capacity)|) <==> Completes(Encoded(ps), i, capacity)
  {
    WholeIffFits(ps, |Fitting(EncodeAll(ps), capacity)|, i);
    EncodeAllPrefix(ps, i + 1);
    OnWireIsEncoded(ps, i + 1);
  }

  lemma WholeOnWire(ps: seq<Packet>, capacity: nat)
    ensures Fitting(OnWire(Encoded(ps), |ps|), capacity) == EncodeAll(ps)[..|Fitting(EncodeAll(ps), capacity)|]
  {
    OnWireIsEncoded(ps, |ps|);
    assert ps[..|ps|] == ps;
  }

  /** Delivery of whatever a failing connection let through. */
  lemma CompletedAreDelivered(ps: seq<Packet>, capacity: nat, policy: Policy)
    requires AllDeliverable(ps, policy)
    ensures ReceivedAsSent(Deliver(Fitting(OnWire(Encoded(ps), |ps|), capacity), policy), ps, Encoded(ps), capacity)
  {
    var k := |Fitting(EncodeAll(ps), capacity)|;
    forall i | 0 <= i < |ps|
      ensures i < WholePackets(ps, k) <==> Completes(Encoded(ps), i, capacity)
    {
      CompletesIffWhole(ps, i, capacity);
    }
    DeliverInvertsEncoding(ps, k, policy);
    WholeOnWire(ps, capacity);
  }

  lemma EncodedNotEmpty(ps: seq<Packet>)
    ensures forall i :: 0 <= i < |ps| ==> Encoded(ps)[i] != []
  {
    forall i | 0 <= i < |ps|
      ensures Encoded(ps)[i] != []
    {
      EncodedAt(ps, i);
    }
  }

  /** The receive loop delivers exactly the packets whose send returned true. */
  predicate DeliveredIffSent(got: seq<Packet>, ps: seq<Packet>, oks: seq<bool>) {
    got <= ps && |oks| == |ps| && forall i :: 0 <= i < |ps| ==> (oks[i] <==> i < |got|)
  }

  lemma PacketsArrive(ps: seq<Packet>, pieces: seq<seq<byte>>, links: seq<Link>, oks: seq<bool>, got: seq<Packet>)
    requires |pieces| == |ps| && LinkRun(links, pieces, oks) && links[0].sent == []
    requires forall i :: 0 <= i < |pieces| ==> pieces[i] != []
    requires ReceivedAsSent(got, ps, pieces, links[0].left)
    ensures DeliveredIffSent(got, ps, oks)
  {
    forall i | 0 <= i < |ps|
      ensures oks[i] <==> i < |got|
    {
      OkIffCompletes(links, pieces, oks, i);
    }
  }

  /** Over any number of sends on a fresh connection, wherever it fails. */
  lemma EncodedArrive(ps: seq<Packet>, links: seq<Link>, oks: seq<bool>, policy: Policy)
    requires AllDeliverable(ps, policy) && LinkRun(links, Encoded(ps), oks) && links[0].sent == []
    ensures DeliveredIffSent(Deliver(links[|ps|].sent, policy), ps, oks)
  {
    EncodedNotEmpty(ps);
    CompletedAreDelivered(ps, links[0].left, policy);
    RunIsOnWire(links, Encoded(ps), oks);
    PacketsArrive(ps, Encoded(ps), links, oks, Deliver(links[|ps|].sent, policy));
  }

  // ----- the sender ------------------------------------------------------------------------------------

  /** A 64-bit sequence number. */
  function Wrap(n: nat): (r: u64) {
    n % TWO64
  }

  lemma WrapTwice(n: nat)
    ensures Wrap(Wrap(n)) == Wrap(n) && Wrap(Wrap(n) + 1) == Wrap(n + 1)
  {
  }

  /** Packets as a sender makes them, numbered from `seqNo`. */
  datatype Outgoing = Outgoing(packetType: u16, timestampNs: i64, payload: seq<byte>)

  function StampedPacket(o: Outgoing, seqNo: nat): (p: Packet) {
    Packet(MakeHeader(o.packetType, Wrap(seqNo), o.timestampNs, |o.payload|), o.payload)
  }

  function Stamped(out: seq<Outgoing>, seqNo: nat): (ps: seq<Packet>)
    ensures |ps| == |out|
    ensures forall i :: 0 <= i < |out| ==> ps[i] == StampedPacket(out[i], seqNo + i)
  {
    seq(|out|, i requires 0 <= i < |out| => StampedPacket(out[i], seqNo + i))
  }

  /** The state of a sender between sends: its connection, and the next sequence number. */
  datatype SenderState = SenderState(link: Link, next: u64)

  /**
   One packet sent: stamped with the next sequence number, as far as the connection takes it; `ok`
   iff it was written completely.
   */
  predicate SendStep(s: SenderState, o: Outgoing, ok: bool, t: SenderState) {
    var bytes := Encode(StampedPacket(o, s.next));
    t == SenderState(AfterSend(s.link, bytes), Wrap(s.next + 1)) && (ok <==> |bytes| <= s.link.left)
  }

  /** Header and payload written one after the other, the payload only if the header went out. */
  lemma TwoWrites(a: Link, header: seq<byte>, payload: seq<byte>)
    ensures |header| > a.left ==> AfterSend(a, header + payload) == AfterSend(a, header) && |header + payload| > a.left
    ensures |header| <= a.left ==> AfterSend(a, header + payload) == AfterSend(AfterSend(a, header), payload)
    ensures |header + payload| <= a.left <==> |header| <= a.left && |payload| <= AfterSend(a, header).left
  {
    FittingAppend(header, payload, a.left);
    ConcatAssociates(a.sent, Fitting(header, a.left), Fitting(payload, Left(a.left, |header|)));
  }

  /** `TcpServer::send` (and the client's `sendPacket`): the connected peer and the next sequence number. */
  class Sender {
    var peer: Socket?
    var sendSeq: u64

    constructor (peer: Socket?)
      ensures this.peer == peer && sendSeq == 1
    {
      this.peer, this.sendSeq := peer, 1;
    }

    ghost function State(): (s: SenderState)
      requires peer != null
      reads this, peer
    {
      SenderState(Link(peer.sent, peer.capacity), sendSeq)
    }

    method SendPacket(o: Outgoing) returns (ok: bool)
      modifies this`sendSeq, peer
      ensures peer == null ==> !ok && sendSeq == old(sendSeq)
      ensures peer != null ==> SendStep(old(State()), o, ok, State())
    {
      if peer == null {
        return false;
      }
      var header := MakeHeader(o.packetType, sendSeq, o.timestampNs, |o.payload|);
      sendSeq := (sendSeq + 1) % TWO64;
      var headerBytes := PackHeader(header);
      ghost var before := Link(peer.sent, peer.capacity);
      TwoWrites(before, headerBytes, o.payload);
      ok := WriteExact(peer, headerBytes);
      if !ok {
        return;
      }
      ok := WriteExact(peer, o.payload);
    }
  }

  /** Any number of packets sent one after the other, continued whether or not a send succeeds. */
  predicate SendRun(states: seq<SenderState>, out: seq<Outgoing>, oks: seq<bool>) {
    && |states| == |out| + 1 && |oks| == |out|
    && forall i :: 0 <= i < |out| ==> SendStep(states[i], out[i], oks[i], states[i + 1])
  }

  lemma PieceAt(out: seq<Outgoing>, first: u64, i: nat)
    requires i < |out|
    ensures Encoded(Stamped(out, first))[i] == Encode(StampedPacket(out[i], Wrap(first + i))) != []
    ensures Wrap(Wrap(first + i) + 1) == Wrap(first + (i + 1))
  {
    WrapTwice(first + i);
    assert Stamped(out, first)[i] == StampedPacket(out[i], Wrap(first + i));
    EncodedAt(Stamped(out, first), i);
  }

  lemma {:induction false} Numbered(states: seq<SenderState>, out: seq<Outgoing>, oks: seq<bool>, n: nat)
    requires SendRun(states, out, oks) && n <= |out|
    ensures states[n].next == Wrap(states[0].next + n)
  {
    if n > 0 {
      Numbered(states, out, oks, n - 1);
      WrapTwice(states[0].next + (n - 1));
      assert SendStep(states[n - 1], out[n - 1], oks[n - 1], states[n - 1 + 1]);
    }
  }

  lemma StepOfPiece(s: SenderState, o: Outgoing, ok: bool, t: SenderState, piece: seq<byte>)
    requires SendStep(s, o, ok, t) && piece == Encode(StampedPacket(o, s.next))
    ensures t.link == AfterSend(s.link, piece) && (ok <==> |piece| <= s.link.left)
  {
  }

  lemma StepIsPiece(states: seq<SenderState>, out: seq<Outgoing>, oks: seq<bool>, i: nat)
    requires SendRun(states, out, oks) && i < |out|
    ensures var piece := Encoded(Stamped(out, states[0].next))[i];
            states[i + 1].link == AfterSend(states[i].link, piece) && (oks[i] <==> |piece| <= states[i].link.left)
  {
    Numbered(states, out, oks, i);
    PieceAt(out, states[0].next, i);
    StepOfPiece(states[i], out[i], oks[i], states[i + 1], Encoded(Stamped(out, states[0].next))[i]);
  }

  function LinksOf(states: seq<SenderState>): (links: seq<Link>) {
    seq(|states|, i requires 0 <= i < |states| => states[i].link)
  }

  lemma RunOfPieces(states: seq<SenderState>, out: seq<Outgoing>, oks: seq<bool>)
    requires SendRun(states, out, oks)
    ensures LinkRun(LinksOf(states), Encoded(Stamped(out, states[0].next)), oks)
  {
    forall i | 0 <= i < |out|
      ensures LinksOf(states)[i + 1] == AfterSend(LinksOf(states)[i], Encoded(Stamped(out, states[0].next))[i])
      ensures oks[i] <==> |Encoded(Stamped(out, states[0].next))[i]| <= LinksOf(states)[i].left
    {
      StepIsPiece(states, out, oks, i);
    }
  }

  /** What the receivers accept of a sender. */
  predicate Sendable(out: seq<Outgoing>, policy: Policy) {
    forall i :: 0 <= i < |out| ==> KnownType(out[i].packetType) && |out[i].payload| <= policy.maxPayload
  }

  lemma StampedDeliverable(out: seq<Outgoing>, seqNo: nat, policy: Policy)
    requires policy.maxPayload < TWO32 && Sendable(out, policy)
    ensures AllDeliverable(Stamped(out, seqNo), policy)
  {
  }

  /**
   Host bridge, Quest client or Python server, to any of these receivers: of everything sent with a
   known type and a payload within the receiver's limit, a packet arrives iff its send returned true,
   with its type, timestamp and payload unchanged, in order, numbered consecutively, wherever the
   connection fails.
   */
  lemma SentIsReceived(states: seq<SenderState>, out: seq<Outgoing>, oks: seq<bool>, policy: Policy)
    requires SendRun(states, out, oks) && states[0].link.sent == []
    requires policy.maxPayload < TWO32 && Sendable(out, policy)
    ensures DeliveredIffSent(Deliver(states[|out|].link.sent, policy), Stamped(out, states[0].next), oks)
  {
    var ps, links := Stamped(out, states[0].next), LinksOf(states);
    RunOfPieces(states, out, oks);
    StampedDeliverable(out, states[0].next, policy);
    EncodedArrive(ps, links, oks, policy);
  }
}
