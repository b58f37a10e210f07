/**
 When sent frame indices are never repeated: the strict form of the guard, and what it gives the
 client, whose latencies are counted per frame index.
 */
module StreamWindow {
  import opened Bytes
  import opened Wire
  import opened VideoDecoder
  import opened StereoPublishing
  import opened AckFreshness
  import opened HostVideo
  import opened StreamProtocol
  import opened StreamGuard

  /** When a frame is chosen under a window, the last frame of that window is not out yet. */
  predicate WindowOpen(s: System, step: Step) {
    step.Choose? && s.host.hasAck ==> LastFrame(s.sent) < s.host.latestAck + WINDOW
  }

  lemma OpenIsGuarded(s: System, step: Step)
    requires WindowOpen(s, step)
    ensures GuardHolds(s, step)
  {
  }

  /** The frame counter is above everything sent, or that frame was just sent. */
  predicate Above(s: System) {
    if s.phase == Unrecorded then LastFrame(s.sent) == s.host.videoFrame else LastFrame(s.sent) < s.host.videoFrame
  }

  lemma AppendSpaced(sent: seq<Sent>, x: Sent)
    requires Spaced(sent, 1) && LastFrame(sent) < x.frame
    ensures Spaced(sent + [x], 1)
  {
  }

  lemma ChooseStaysAbove(s: System, now: int, clampNow: int, size: FrameSize, t: System)
    requires SysInv(s, size) && Above(s) && WindowOpen(s, Choose(now, clampNow))
    requires Next(s, Choose(now, clampNow), size, t) && s.host.videoFrame < TWO63
    ensures Above(t)
  {
    if s.host.hasAck {
      LatestAckBounded(s, size);
    }
    assert Missed(s.host, now) < TWO63;
    assert CatchUp(s.host, now).videoFrame == s.host.videoFrame + Missed(s.host, now);
  }

  lemma StepStaysAbove(s: System, step: Step, size: FrameSize, t: System)
    requires SysInv(s, size) && Above(s) && Spaced(s.sent, 1) && WindowOpen(s, step)
    requires Next(s, step, size, t) && s.host.videoFrame < TWO63
    ensures Above(t) && Spaced(t.sent, 1)
  {
    if step.Choose? {
      ChooseStaysAbove(s, step.now, step.clampNow, size, t);
    } else if step.Transmit? && step.ok {
      AppendSpaced(s.sent, Sent(s.host.videoFrame, s.phase.windowed));
    }
  }

  /** While every window is open at its choice, no index is repeated. */
  lemma {:induction false} OpenRunIsSpaced(ss: seq<System>, steps: seq<Step>, size: FrameSize, n: nat)
    requires Run(ss, steps, size) && InHorizon(ss) && n < |ss|
    requires forall i :: 0 <= i < n ==> WindowOpen(ss[i], steps[i])
    ensures SysInv(ss[n], size) && Above(ss[n]) && Spaced(ss[n].sent, 1)
  {
    forall i | 0 <= i < n
      ensures GuardHolds(ss[i], steps[i])
    {
      OpenIsGuarded(ss[i], steps[i]);
    }
    GuardedRunIsSafe(ss, steps, size, n);
    if n > 0 {
      OpenRunIsSpaced(ss, steps, size, n - 1);
      assert Next(ss[n - 1], steps[n - 1], size, ss[n - 1 + 1]);
      StepStaysAbove(ss[n - 1], steps[n - 1], size, ss[n]);
    }
  }

  lemma ClosedIsBehind(s: System, step: Step, size: FrameSize, t: System)
    requires Next(s, step, size, t) && !WindowOpen(s, step)
    ensures Behind(t, 1)
  {
    ChosenWithinWindow(s.host, step.now, step.clampNow);
  }

  /** No send succeeds after a choice at which the window was closed. */
  predicate OnlyOpenSends(ss: seq<System>, steps: seq<Step>, n: nat)
    requires n <= |ss| && n <= |steps|
  {
    forall i :: 0 <= i < n && !WindowOpen(ss[i], steps[i]) ==> !SendsBetween(steps, i, n)
  }

  lemma OpenSendsAreSpaced(ss: seq<System>, steps: seq<Step>, size: FrameSize, n: nat)
    requires Run(ss, steps, size) && InHorizon(ss) && n < |ss| && OnlyOpenSends(ss, steps, n)
    ensures Spaced(ss[n].sent, 1)
  {
    var k := 0;
    while k < n && WindowOpen(ss[k], steps[k])
      invariant k <= n && forall i :: 0 <= i < k ==> WindowOpen(ss[i], steps[i])
    {
      k := k + 1;
    }
    assert Spaced(ss[k].sent, 1) by {
      OpenRunIsSpaced(ss, steps, size, k);
    }
    if k < n {
      assert ss[n].sent == ss[k].sent by {
        NothingSent(ss, steps, size, k, n);
      }
    }
  }

  /**
   The exact condition for indices that are never repeated, readable before each choice: over every
   run, sent indices strictly increase if and only if no send succeeds after a choice made while
   the last frame of its window, `latestAck + 3`, or a later one was already out.
   */
  lemma WindowDecides(ss: seq<System>, steps: seq<Step>, size: FrameSize, n: nat)
    requires Run(ss, steps, size) && InHorizon(ss) && n < |ss|
    ensures Spaced(ss[n].sent, 1) <==> OnlyOpenSends(ss, steps, n)
  {
    if OnlyOpenSends(ss, steps, n) {
      OpenSendsAreSpaced(ss, steps, size, n);
    } else {
      var i :| 0 <= i < n && !WindowOpen(ss[i], steps[i]) && SendsBetween(steps, i, n);
      assert Next(ss[i], steps[i], size, ss[i + 1]);
      ClosedIsBehind(ss[i], steps[i], size, ss[i + 1]);
      BehindOutcome(ss, steps, size, 1, i, n);
    }
  }

  // ----- what the client gains ---------------------------------------------------------------------

  predicate CallsRise(calls: seq<Call>) {
    forall i, j :: 0 <= i < j < |calls| ==> calls[i].frame < calls[j].frame
  }

  /** Every index is met once: in flight they rise, above what was received, and so do those fed to the codecs. */
  predicate MetOnce(s: System) {
    && Increasing(s.frames)
    && (s.received.Some? ==> forall i :: 0 <= i < |s.frames| ==> s.received.value < s.frames[i])
    && CallsRise(s.decoder.log.epoch.calls)
  }

  lemma TransmitMeetsOnce(s: System, now: int, size: FrameSize, t: System)
    requires SysInv(s, size) && MetOnce(s) && Next(s, Transmit(true, now), size, t) && Spaced(t.sent, 1)
    ensures MetOnce(t)
  {
    var x, n := Sent(s.host.videoFrame, s.phase.windowed), |s.sent|;
    assert t.sent[n] == x && (n > 0 ==> t.sent[n - 1] == s.sent[n - 1]);
    assert LastFrame(s.sent) < x.frame;
    assert t.frames == s.frames + [x.frame];
  }

  function EventOf(step: Step): (e: Event)
    requires step.Receive?
  {
    Event(step.h, step.env, step.sendable)
  }

  /** A received frame is a packet of the client. */
  lemma ReceiptIsClientStep(s: System, step: Step, size: FrameSize, t: System) returns (c: Client)
    requires step.Receive? && Next(s, step, size, t)
    ensures ClientStep(Client(s.decoder, []), EventOf(step), c)
    ensures c.decoder == t.decoder && t.acks == s.acks + AckFrames(c.sent)
  {
    var mid :| Decodes(s.decoder, step.h, step.env, mid)
      && t == s.(frames := s.frames[1..], decoder := Taken(mid), received := Some(step.h.frameIndex),
                 acks := s.acks + if step.sendable then AckFrames(mid.stream.pendingAcks) else []);
    c := Client(Taken(mid), [] + if step.sendable then mid.stream.pendingAcks else []);
    assert [] + mid.stream.pendingAcks == mid.stream.pendingAcks;
    assert AckFrames([]) == [];
  }

  /** The calls of the epoch after one packet. */
  lemma CallsAfter(d: State, e: Event, c: Client)
    requires ClientStep(Client(d, []), e, c)
    ensures ReachesCodecs(d, e.h, e.env) ==> c.decoder.log.epoch.calls == BeforePublish(d, e.h, e.env).log.epoch.calls
    ensures var calls := c.decoder.log.epoch.calls;
            || calls == d.log.epoch.calls || calls == []
            || calls == d.log.epoch.calls + [CallOf(e.h, e.env)] || calls == [CallOf(e.h, e.env)]
  {
    EpochStep(Client(d, []), e, c);
    assert [] + [CallOf(e.h, e.env)] == [CallOf(e.h, e.env)];
  }

  lemma RiseByOne(calls: seq<Call>, c: Call, received: Option<u64>)
    requires CallsRise(calls) && CallsUpTo(calls, received) && (received.Some? ==> received.value < c.frame)
    ensures CallsRise(calls + [c]) && CallsRise([c]) && CallsRise([])
  {
  }

  lemma CallsStillRise(d: State, e: Event, c: Client, received: Option<u64>)
    requires ClientStep(Client(d, []), e, c) && CallsRise(d.log.epoch.calls) && CallsUpTo(d.log.epoch.calls, received)
    requires received.Some? ==> received.value < e.h.frameIndex
    ensures CallsRise(c.decoder.log.epoch.calls)
  {
    CallsAfter(d, e, c);
    RiseByOne(d.log.epoch.calls, CallOf(e.h, e.env), received);
  }

  lemma ReceiveMeetsOnce(s: System, step: Step, size: FrameSize, t: System)
    requires CallsUpTo(s.decoder.log.epoch.calls, s.received) && MetOnce(s) && step.Receive? && Next(s, step, size, t)
    ensures MetOnce(t)
  {
    var c := ReceiptIsClientStep(s, step, size, t);
    CallsStillRise(s.decoder, EventOf(step), c, s.received);
  }

  lemma StepMeetsOnce(s: System, step: Step, size: FrameSize, t: System)
    requires SysInv(s, size) && MetOnce(s) && Next(s, step, size, t) && Spaced(t.sent, 1)
    ensures MetOnce(t)
  {
    if step.Receive? {
      ReceiveMeetsOnce(s, step, size, t);
    } else if step.Transmit? && step.ok {
      TransmitMeetsOnce(s, step.now, size, t);
    }
  }

  /** A packet that publishes a frame acknowledges it with the time since one packet that fed it to both codecs. */
  ghost predicate FreshReceipt(s: System, step: Step, t: System) {
    && step.Receive?
    && HonestStep(Client(s.decoder, []), EventOf(step))
    && (t.decoder.log.history == s.decoder.log.history
        || exists ack :: Acknowledges(s, step, t, ack))
  }

  predicate Acknowledges(s: System, step: Step, t: System, ack: Ack)
    requires step.Receive?
  {
    && t.decoder.log.history == s.decoder.log.history + [ack.frame]
    && CountsFromCall(t.decoder.log.epoch.calls, ack.frame, ack.latencyNs, step.env.publishNow)
    && t.acks == s.acks + if step.sendable then [ack.frame] else []
  }

  lemma ReceiptIsHonest(s: System, step: Step, size: FrameSize, t: System)
    requires SysInv(t, size) && MetOnce(t) && step.Receive? && Next(s, step, size, t)
    ensures HonestStep(Client(s.decoder, []), EventOf(step))
  {
    var c := ReceiptIsClientStep(s, step, size, t);
    CallsAfter(s.decoder, EventOf(step), c);
  }

  lemma OneAck(ack: Ack)
    ensures AckFrames([ack]) == [ack.frame]
  {
    AckFramesSnoc([], ack);
    assert [] + [ack] == [ack];
  }

  lemma PacketIsFresh(d: State, e: Event, c: Client) returns (ack: Option<Ack>)
    requires Inv(d) && d.stream.pendingAcks == [] && ShownAccepted(d.log.epoch)
    requires ClientStep(Client(d, []), e, c) && HonestStep(Client(d, []), e)
    ensures ack == None ==> c.decoder.log.history == d.log.history
    ensures ack.Some? ==> c.decoder.log.history == d.log.history + [ack.value.frame]
    ensures ack.Some? ==> AckFrames(c.sent) == if e.sendable then [ack.value.frame] else []
    ensures ack.Some? ==>
              CountsFromCall(c.decoder.log.epoch.calls, ack.value.frame, ack.value.latencyNs, e.env.publishNow)
  {
    ack := StepPublishes(Client(d, []), e, c);
    if ack.Some? {
      OneAck(ack.value);
      assert [] + [ack.value] == [ack.value];
    }
  }

  lemma ReceiptIsFresh(s: System, step: Step, size: FrameSize, t: System)
    requires SysInv(s, size) && SysInv(t, size) && MetOnce(t) && step.Receive? && Next(s, step, size, t)
    ensures FreshReceipt(s, step, t)
  {
    ReceiptIsHonest(s, step, size, t);
    var c := ReceiptIsClientStep(s, step, size, t);
    var ack := PacketIsFresh(s.decoder, EventOf(step), c);
    if ack.Some? {
      assert Acknowledges(s, step, t, ack.value);
    }
  }

  /** Every packet of the run up to step `n` is fresh. */
  ghost predicate AllFresh(ss: seq<System>, steps: seq<Step>, n: nat)
    requires n < |ss| && n <= |steps|
  {
    forall i :: 0 <= i < n && steps[i].Receive? ==> FreshReceipt(ss[i], steps[i], ss[i + 1])
  }

  lemma {:induction false} SpacedBefore(ss: seq<System>, steps: seq<Step>, size: FrameSize, m: nat, n: nat)
    requires Run(ss, steps, size) && m <= n < |ss| && Spaced(ss[n].sent, 1)
    ensures Spaced(ss[m].sent, 1)
    decreases n
  {
    if m < n {
      assert Next(ss[n - 1], steps[n - 1], size, ss[n - 1 + 1]);
      SentExtends(ss[n - 1], steps[n - 1], size, ss[n], 1);
      SpacedBefore(ss, steps, size, m, n - 1);
    }
  }

  lemma SpacedIsSafe(ss: seq<System>, steps: seq<Step>, size: FrameSize, n: nat)
    requires Run(ss, steps, size) && InHorizon(ss) && n < |ss| && Spaced(ss[n].sent, 1)
    ensures SysInv(ss[n], size)
  {
    assert WindowOpensAhead(ss[n].sent);
    RunSafe(ss, steps, size, n);
  }

  lemma {:induction false} SpacedRunMeetsOnce(ss: seq<System>, steps: seq<Step>, size: FrameSize, n: nat)
    requires Run(ss, steps, size) && InHorizon(ss) && n < |ss| && Spaced(ss[n].sent, 1)
    ensures MetOnce(ss[n])
  {
    if n > 0 {
      var k := n - 1;
      SpacedBefore(ss, steps, size, k, n);
      SpacedRunMeetsOnce(ss, steps, size, k);
      SpacedIsSafe(ss, steps, size, k);
      assert Next(ss[k], steps[k], size, ss[k + 1]);
      StepMeetsOnce(ss[k], steps[k], size, ss[n]);
    }
  }

  lemma SpacedReceiptIsFresh(ss: seq<System>, steps: seq<Step>, size: FrameSize, i: nat)
    requires Run(ss, steps, size) && InHorizon(ss) && i < |steps| && Spaced(ss[i + 1].sent, 1) && steps[i].Receive?
    ensures FreshReceipt(ss[i], steps[i], ss[i + 1])
  {
    SpacedBefore(ss, steps, size, i, i + 1);
    SpacedIsSafe(ss, steps, size, i);
    SpacedIsSafe(ss, steps, size, i + 1);
    SpacedRunMeetsOnce(ss, steps, size, i + 1);
    assert Next(ss[i], steps[i], size, ss[i + 1]);
    ReceiptIsFresh(ss[i], steps[i], size, ss[i + 1]);
  }

  /**
   So the client's hypothesis is met: over every run whose sent indices strictly increase, no index
   is fed to the codecs twice, and every acknowledgement made counts from the one packet that
   brought its frame to both of them.
   */
  lemma SpacedRunIsFresh(ss: seq<System>, steps: seq<Step>, size: FrameSize, n: nat)
    requires Run(ss, steps, size) && InHorizon(ss) && n < |ss| && Spaced(ss[n].sent, 1)
    ensures DistinctFrames(ss[n].decoder.log.epoch.calls) && AllFresh(ss, steps, n)
  {
    SpacedRunMeetsOnce(ss, steps, size, n);
    forall i | 0 <= i < n && steps[i].Receive?
      ensures FreshReceipt(ss[i], steps[i], ss[i + 1])
    {
      SpacedBefore(ss, steps, size, i + 1, n);
      SpacedReceiptIsFresh(ss, steps, size, i);
    }
  }

  /** Both together: the guard, read before each choice, keeps every latency the frame's own. */
  lemma OpenWindowsKeepFresh(ss: seq<System>, steps: seq<Step>, size: FrameSize, n: nat)
    requires Run(ss, steps, size) && InHorizon(ss) && n < |ss| && OnlyOpenSends(ss, steps, n)
    ensures DistinctFrames(ss[n].decoder.log.epoch.calls) && AllFresh(ss, steps, n)
  {
    OpenSendsAreSpaced(ss, steps, size, n);
    SpacedRunIsFresh(ss, steps, size, n);
  }
}
