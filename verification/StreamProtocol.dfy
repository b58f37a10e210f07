/**
 The closed loop: host video thread, two FIFO channels, and the client's decoder. Frames
 travel one way and acknowledgements the other; either side may lose what is in flight
 when a connection breaks.
 */
module StreamProtocol {
  import opened Bytes
  import opened Wire
  import opened VideoDecoder
  import opened StereoPublishing
  import opened HostVideo

  /** One frame that went out, and whether it was chosen under an acknowledgement window. */
  datatype Sent = Sent(frame: u64, windowed: bool)

  /** Where the video thread stands between its lock sections. */
  datatype Phase = Idle | Ready(windowed: bool) | Unrecorded

  datatype System = System(
    host: Host, phase: Phase, frames: seq<u64>, acks: seq<u64>, decoder: State,
    sent: seq<Sent>,          // every frame sent
    recorded: seq<u64>,       // every acknowledgement that updated the window
    received: Option<u64>)    // the last frame the client received

  const INIT := System(START, Idle, [], [], INITIAL, [], [], None)

  datatype Step =
    | Choose(now: int, clampNow: int)
    | Transmit(ok: bool, now: int)
    | Record(time: int)
    | Receive(h: VideoFrameHeader, env: Env, sendable: bool)
    | HandleAck
    | Disconnect(keepFrames: nat, keepAcks: nat)

  /** The size every frame of the stream has. */
  datatype FrameSize = FrameSize(width: u32, height: u32)

  predicate CanStep(s: System, step: Step, size: FrameSize) {
    match step
    case Choose(now, _) => s.phase == Idle && now - s.host.nextFrameTime < TWO63
    case Transmit(_, _) => s.phase.Ready?
    case Record(_) => s.phase == Unrecorded
    case Receive(h, env, _) =>
      && s.frames != [] && h.frameIndex == s.frames[0] && h.width == size.width && h.height == size.height
      && (ReachesCodecs(s.decoder, h, env) ==> HonestCodecs(BeforePublish(s.decoder, h, env), env))
    case HandleAck => s.acks != []
    case Disconnect(f, a) => f <= |s.frames| && a <= |s.acks|
  }

  ghost predicate Next(s: System, step: Step, size: FrameSize, t: System) {
    && CanStep(s, step, size)
    && match step
       case Choose(now, clampNow) =>
         t == s.(host := Chosen(s.host, now, clampNow), phase := Ready(s.host.hasAck))
       case Transmit(ok, now) =>
         if ok then t == s.(host := SendSucceeded(s.host, now), phase := Unrecorded,
                            frames := s.frames + [s.host.videoFrame],
                            sent := s.sent + [Sent(s.host.videoFrame, s.phase.windowed)])
         else t == s.(host := SendFailed(s.host, now), phase := Idle)
       case Record(time) => t == s.(host := Recorded(s.host, time), phase := Idle)
       case Receive(h, env, sendable) =>
         exists mid ::
           && Decodes(s.decoder, h, env, mid)
           && t == s.(frames := s.frames[1..], decoder := Taken(mid), received := Some(h.frameIndex),
                      acks := s.acks + if sendable then AckFrames(mid.stream.pendingAcks) else [])
       case HandleAck =>
         t == s.(host := AckHandled(s.host, s.acks[0]), acks := s.acks[1..],
                 recorded := if s.acks[0] in s.host.sendTimes then s.recorded + [s.acks[0]] else s.recorded)
       case Disconnect(f, a) => t == s.(frames := s.frames[..f], acks := s.acks[..a])
  }

  ghost predicate Run(ss: seq<System>, steps: seq<Step>, size: FrameSize) {
    |ss| == |steps| + 1 && ss[0] == INIT && forall i :: 0 <= i < |steps| ==> Next(ss[i], steps[i], size, ss[i + 1])
  }

  /** Frame counters stay within the codec's signed timestamps. */
  predicate InHorizon(ss: seq<System>) {
    forall i :: 0 <= i < |ss| ==> ss[i].host.videoFrame < TWO63
  }

  predicate NeverDecreases(sent: seq<Sent>) {
    forall i :: 0 < i < |sent| ==> sent[i - 1].frame <= sent[i].frame
  }

  /** The first frame sent under a window is not below the frame sent before it. */
  predicate WindowOpensAhead(sent: seq<Sent>) {
    forall i :: 0 < i < |sent| && sent[i].windowed && (forall j :: 0 <= j < i ==> !sent[j].windowed) ==>
                  sent[i - 1].frame <= sent[i].frame
  }

  // ----- the decoder side ---------------------------------------------------------------------------

  /** `received` is an upper bound of everything that reached the codecs. */
  predicate CallsUpTo(calls: seq<Call>, received: Option<u64>) {
    forall i :: 0 <= i < |calls| ==> received.Some? && calls[i].frame <= received.value
  }

  /** The decoder never restarted after publishing, and knows nothing above `received`. */
  ghost predicate Steady(d: State, size: FrameSize, received: Option<u64>) {
    && Inv(d) && d.stream.pendingAcks == [] && ShownAccepted(d.log.epoch)
    && d.log.history == d.log.epoch.published
    && (d.res.left.None? ==> d.stream == EMPTY_STREAM && d.log.epoch == NEW_EPOCH)
    && (d.res.left.Some? ==> d.res.width == size.width && d.res.height == size.height)
    && CallsUpTo(d.log.epoch.calls, received)
    && SmallFrames(d.log.epoch.calls)
  }

  lemma ShownUpTo(e: Epoch, received: Option<u64>, f: u64)
    requires ShownAccepted(e) && CallsUpTo(e.calls, received) && f in e.leftShown
    ensures received.Some? && f <= received.value
  {
    assert AcceptedFrame(e.calls, true, f);
  }

  /** Everything published was received. */
  lemma HistoryUpTo(d: State, size: FrameSize, received: Option<u64>, f: u64)
    requires Steady(d, size, received) && f in d.log.history
    ensures received.Some? && f <= received.value
  {
    ShownUpTo(d.log.epoch, received, f);
  }

  /** Fed with an index not below the previous one, the decoder's index-jump restart does not fire. */
  lemma NoRestart(d: State, size: FrameSize, received: Option<u64>, frame: u64)
    requires Steady(d, size, received) && frame < TWO63
    requires received.Some? ==> received.value <= frame
    ensures !Restarts(d.stream, frame)
  {
    if d.stream.hasPublished {
      var p := d.log.epoch.published;
      assert d.stream.lastPublished in d.log.history by { assert p[|p| - 1] in p; }
      HistoryUpTo(d, size, received, d.stream.lastPublished);
    }
  }

  lemma ReadiedSteady(d: State, size: FrameSize, received: Option<u64>, h: VideoFrameHeader, env: Env)
    requires Steady(d, size, received) && !Restarts(d.stream, h.frameIndex)
    requires h.width == size.width && h.height == size.height
    ensures var r := Readied(d, h, env);
            && r.log.epoch == d.log.epoch && r.log.history == d.log.history && r.stream == d.stream
            && (r.res.left.None? ==> r.stream == EMPTY_STREAM && r.log.epoch == NEW_EPOCH)
            && (r.res.left.Some? ==> r.res.width == size.width && r.res.height == size.height)
  {
  }

  /** What `Steady` asks of epoch and resources, for a decoder that runs. */
  predicate RunningSteady(d: State, size: FrameSize, received: Option<u64>) {
    && ShownAccepted(d.log.epoch) && d.log.history == d.log.epoch.published
    && d.res.left.Some? && d.res.width == size.width && d.res.height == size.height
    && CallsUpTo(d.log.epoch.calls, received) && SmallFrames(d.log.epoch.calls)
  }

  lemma GatheredSteady(d: State, size: FrameSize, received: Option<u64>, h: VideoFrameHeader, env: Env)
    requires Steady(d, size, received) && ReachesCodecs(d, h, env) && !Restarts(d.stream, h.frameIndex)
    requires h.frameIndex < TWO63 && (received.Some? ==> received.value <= h.frameIndex)
    requires h.width == size.width && h.height == size.height
    requires HonestCodecs(BeforePublish(d, h, env), env)
    ensures RunningSteady(BeforePublish(d, h, env), size, Some(h.frameIndex))
    ensures BeforePublish(d, h, env).log.history == d.log.history
  {
    var r, b := Readied(d, h, env), BeforePublish(d, h, env);
    ReadiedSteady(d, size, received, h, env);
    var calls := b.log.epoch.calls;
    assert calls == r.log.epoch.calls + [CallOf(h, env)];
    assert SmallFrames(calls) && CallsUpTo(calls, Some(h.frameIndex));
    ShownStaysAccepted(d, h, env);
  }

  lemma ClosedSteady(b: State, size: FrameSize, received: Option<u64>, choice: Option<u64>, now: int)
    requires RunningSteady(b, size, received)
    ensures RunningSteady(Closed(b, choice, now), size, received)
  {
  }

  lemma DecodedSteady(d: State, size: FrameSize, received: Option<u64>, h: VideoFrameHeader, env: Env, mid: State)
    requires Steady(d, size, received) && Decodes(d, h, env, mid)
    requires h.frameIndex < TWO63 && (received.Some? ==> received.value <= h.frameIndex)
    requires h.width == size.width && h.height == size.height
    requires ReachesCodecs(d, h, env) ==> HonestCodecs(BeforePublish(d, h, env), env)
    ensures ReachesCodecs(d, h, env) ==> RunningSteady(mid, size, Some(h.frameIndex))
    ensures !ReachesCodecs(d, h, env) ==>
              && mid.log.epoch == d.log.epoch && mid.log.history == d.log.history && mid.stream == d.stream
              && (mid.res.left.None? ==> mid.stream == EMPTY_STREAM && mid.log.epoch == NEW_EPOCH)
              && (mid.res.left.Some? ==> mid.res.width == size.width && mid.res.height == size.height)
  {
    NoRestart(d, size, received, h.frameIndex);
    if ReachesCodecs(d, h, env) {
      var b := BeforePublish(d, h, env);
      GatheredSteady(d, size, received, h, env);
      var choice :| IsChoice(b.stream, choice) && mid == Closed(b, choice, env.publishNow);
      ClosedSteady(b, size, Some(h.frameIndex), choice, env.publishNow);
    } else {
      ReadiedSteady(d, size, received, h, env);
    }
  }

  /**
   One received frame, at least the previous one: the decoder stays steady and publishes
   nothing, or one frame above all it published and not above the one received.
   */
  lemma ReceiveSteady(d: State, size: FrameSize, received: Option<u64>, h: VideoFrameHeader, env: Env, mid: State)
    returns (ack: Option<Ack>)
    requires Steady(d, size, received) && Decodes(d, h, env, mid)
    requires h.frameIndex < TWO63 && (received.Some? ==> received.value <= h.frameIndex)
    requires h.width == size.width && h.height == size.height
    requires ReachesCodecs(d, h, env) ==> HonestCodecs(BeforePublish(d, h, env), env)
    ensures Steady(Taken(mid), size, Some(h.frameIndex))
    ensures ack == None ==> mid.stream.pendingAcks == [] && mid.log.history == d.log.history
    ensures ack.Some? ==> mid.stream.pendingAcks == [ack.value] && mid.log.history == d.log.history + [ack.value.frame]
    ensures ack.Some? ==> forall g :: g in d.log.history ==> g < ack.value.frame
  {
    ack := DecodeAcks(d, h, env, mid);
    TakenInv(mid);
    DecodedSteady(d, size, received, h, env, mid);
    if ack.Some? {
      LastIsLargest(mid.log.epoch.published, d.log.history, ack.value.frame);
    }
  }

  lemma LastIsLargest(p: seq<u64>, before: seq<u64>, f: u64)
    requires Increasing(p) && p == before + [f]
    ensures forall g :: g in before ==> g < f
  {
    forall g | g in before
      ensures g < f
    {
      var i :| 0 <= i < |before| && before[i] == g;
      assert p[i] == g && p[|before|] == f;
    }
  }

  // ----- the whole loop -----------------------------------------------------------------------------

  function LastFrame(sent: seq<Sent>): (f: int) {
    if sent == [] then -1 else sent[|sent| - 1].frame
  }

  predicate AnyWindowed(sent: seq<Sent>) {
    exists i :: 0 <= i < |sent| && sent[i].windowed
  }

  /** Frames in flight: sorted, between the last one received and the last one sent. */
  predicate FlowInv(s: System) {
    && (forall i, j :: 0 <= i < j < |s.frames| ==> s.frames[i] <= s.frames[j])
    && (forall i :: 0 <= i < |s.frames| ==> s.frames[i] <= LastFrame(s.sent) && s.frames[i] < TWO63)
    && (s.received.Some? ==> s.received.value <= LastFrame(s.sent))
    && (s.received.Some? ==> forall i :: 0 <= i < |s.frames| ==> s.received.value <= s.frames[i])
  }

  /** Acknowledgements, recorded and then in flight: strictly increasing published frames. */
  predicate AckInv(s: System) {
    && Increasing(s.recorded + s.acks)
    && (forall a :: a in s.recorded + s.acks ==> a in s.decoder.log.history)
    && (s.host.hasAck <==> s.recorded != [])
    && (s.host.hasAck ==> s.host.latestAck == s.recorded[|s.recorded| - 1])
  }

  /** The next frame is not below the last one sent, once the window is in force or while there is none. */
  predicate HostInv(s: System) {
    && NeverDecreases(s.sent)
    && LastFrame(s.sent) < TWO63
    && (AnyWindowed(s.sent) ==> s.host.hasAck && LastFrame(s.sent) <= s.host.latestAck + WINDOW)
    && match s.phase
       case Idle => AnyWindowed(s.sent) || !s.host.hasAck ==> LastFrame(s.sent) <= s.host.videoFrame
       case Ready(windowed) =>
         && (windowed ==> s.host.hasAck && s.host.videoFrame <= s.host.latestAck + WINDOW)
         && (AnyWindowed(s.sent) ==> windowed)
         && (AnyWindowed(s.sent) || !windowed ==> LastFrame(s.sent) <= s.host.videoFrame)
       case Unrecorded => s.sent != [] && LastFrame(s.sent) == s.host.videoFrame
  }

  ghost predicate SysInv(s: System, size: FrameSize) {
    FlowInv(s) && AckInv(s) && HostInv(s) && Steady(s.decoder, size, s.received)
  }

  /** The window bound lies below the last frame received, so it does not wrap. */
  lemma LatestAckBounded(s: System, size: FrameSize)
    requires SysInv(s, size) && s.host.hasAck
    ensures s.host.latestAck <= LastFrame(s.sent) < TWO63
    ensures Add64(s.host.latestAck, WINDOW) == s.host.latestAck + WINDOW
  {
    var a := s.recorded[|s.recorded| - 1];
    assert (s.recorded + s.acks)[|s.recorded| - 1] == a;
    assert a in s.recorded + s.acks;
    HistoryUpTo(s.decoder, size, s.received, a);
  }

  lemma ChooseSafe(s: System, size: FrameSize, now: int, clampNow: int, t: System)
    requires SysInv(s, size) && Next(s, Choose(now, clampNow), size, t) && s.host.videoFrame < TWO63
    ensures SysInv(t, size)
  {
    if s.host.hasAck {
      LatestAckBounded(s, size);
    }
    var missed := Missed(s.host, now);
    assert missed <= TWO63 - 1;
    assert CatchUp(s.host, now).videoFrame == s.host.videoFrame + missed;
  }

  lemma AppendSent(sent: seq<Sent>, x: Sent)
    ensures LastFrame(sent + [x]) == x.frame
    ensures AnyWindowed(sent + [x]) <==> AnyWindowed(sent) || x.windowed
    ensures NeverDecreases(sent) && LastFrame(sent) <= x.frame ==> NeverDecreases(sent + [x])
    ensures WindowOpensAhead(sent + [x]) && x.windowed && !AnyWindowed(sent) ==> LastFrame(sent) <= x.frame
    ensures WindowOpensAhead(sent + [x]) ==> WindowOpensAhead(sent)
  {
    var longer := sent + [x];
    if AnyWindowed(sent) {
      var i :| 0 <= i < |sent| && sent[i].windowed;
      assert longer[i].windowed;
    }
    if x.windowed {
      assert longer[|sent|].windowed;
    }
    assert forall i :: 0 <= i < |sent| ==> longer[i] == sent[i];
    if WindowOpensAhead(longer) && x.windowed && !AnyWindowed(sent) && sent != [] {
      assert longer[|sent|].windowed && forall j :: 0 <= j < |sent| ==> !longer[j].windowed;
    }
    if WindowOpensAhead(longer) {
      forall i | 0 < i < |sent| && sent[i].windowed && (forall j :: 0 <= j < i ==> !sent[j].windowed)
        ensures sent[i - 1].frame <= sent[i].frame
      {
        assert longer[i].windowed && forall j :: 0 <= j < i ==> !longer[j].windowed;
      }
    }
  }

  /** The frame about to be sent is not below the last one sent. */
  lemma TransmitAhead(s: System, x: Sent)
    requires HostInv(s) && s.phase.Ready? && x == Sent(s.host.videoFrame, s.phase.windowed)
             && WindowOpensAhead(s.sent + [x])
    ensures LastFrame(s.sent) <= x.frame
  {
    AppendSent(s.sent, x);
  }

  lemma TransmitFlow(s: System, x: Sent, t: System)
    requires FlowInv(s) && LastFrame(s.sent) <= x.frame < TWO63
    requires t.frames == s.frames + [x.frame] && t.sent == s.sent + [x] && t.received == s.received
    ensures FlowInv(t)
  {
    AppendSent(s.sent, x);
  }

  lemma TransmitHost(s: System, x: Sent, now: int, t: System)
    requires HostInv(s) && s.phase.Ready? && x == Sent(s.host.videoFrame, s.phase.windowed)
    requires LastFrame(s.sent) <= x.frame < TWO63
    requires t.sent == s.sent + [x] && t.host == SendSucceeded(s.host, now) && t.phase == Unrecorded
    ensures HostInv(t)
  {
    AppendSent(s.sent, x);
  }

  lemma TransmitSafe(s: System, size: FrameSize, ok: bool, now: int, t: System)
    requires SysInv(s, size) && Next(s, Transmit(ok, now), size, t) && s.host.videoFrame < TWO63
    requires WindowOpensAhead(t.sent)
    ensures SysInv(t, size)
  {
    if ok {
      var x := Sent(s.host.videoFrame, s.phase.windowed);
      TransmitAhead(s, x);
      TransmitFlow(s, x, t);
      TransmitHost(s, x, now, t);
    }
  }

  /** Recorded and in-flight acknowledgements after one more frame was published, acknowledged or not. */
  lemma AppendAck(before: seq<u64>, history: seq<u64>, g: u64)
    requires Increasing(before) && (forall a :: a in before ==> a in history) && (forall x :: x in history ==> x < g)
    ensures Increasing(before + [g])
    ensures forall a :: a in before + [g] ==> a in history + [g]
  {
    forall i | 0 <= i < |before|
      ensures before[i] < g
    {
      assert before[i] in before;
    }
  }

  lemma ReceiveFlow(s: System, h: VideoFrameHeader, t: System)
    requires FlowInv(s) && s.frames != [] && h.frameIndex == s.frames[0]
    requires t.frames == s.frames[1..] && t.received == Some(h.frameIndex) && t.sent == s.sent
    ensures FlowInv(t)
    ensures h.frameIndex < TWO63 && (s.received.Some? ==> s.received.value <= h.frameIndex)
  {
  }

  lemma ReceiveSafe(s: System, size: FrameSize, h: VideoFrameHeader, env: Env, sendable: bool, t: System)
    requires SysInv(s, size) && Next(s, Receive(h, env, sendable), size, t)
    ensures SysInv(t, size)
  {
    var mid :| Decodes(s.decoder, h, env, mid)
      && t == s.(frames := s.frames[1..], decoder := Taken(mid), received := Some(h.frameIndex),
                 acks := s.acks + if sendable then AckFrames(mid.stream.pendingAcks) else []);
    ReceiveFlow(s, h, t);
    var ack := ReceiveSteady(s.decoder, size, s.received, h, env, mid);
    ReceiveAcks(s, sendable, ack, mid.stream.pendingAcks, t);
  }

  lemma ReceiveAcks(s: System, sendable: bool, ack: Option<Ack>, pending: seq<Ack>, t: System)
    requires AckInv(s) && t.recorded == s.recorded && t.host == s.host
    requires t.acks == s.acks + if sendable then AckFrames(pending) else []
    requires pending == if ack.Some? then [ack.value] else []
    requires t.decoder.log.history
          == if ack.Some? then s.decoder.log.history + [ack.value.frame] else s.decoder.log.history
    requires ack.Some? ==> forall g :: g in s.decoder.log.history ==> g < ack.value.frame
    ensures AckInv(t)
  {
    var before := s.recorded + s.acks;
    if ack.Some? {
      AppendAck(before, s.decoder.log.history, ack.value.frame);
    }
    if ack.Some? && sendable {
      AckFramesSnoc([], ack.value);
      assert [] + [ack.value] == pending && AckFrames(pending) == [ack.value.frame];
      ConcatAssociates(s.recorded, s.acks, [ack.value.frame]);
      assert t.recorded + t.acks == before + [ack.value.frame];
    } else {
      assert t.acks == s.acks;
    }
  }

  lemma DropOne(before: seq<u64>, n: nat, after: seq<u64>)
    requires Increasing(before) && n < |before| && after == before[..n] + before[n + 1..]
    ensures Increasing(after) && forall x :: x in after ==> x in before
  {
    forall i, j | 0 <= i < j < |after|
      ensures after[i] < after[j]
    {
      assert after[i] == before[if i < n then i else i + 1] && after[j] == before[if j < n then j else j + 1];
    }
  }

  /** The head of the acknowledgement channel moves to the recorded ones, or is ignored. */
  lemma HandledAcks(s: System, t: System)
    requires AckInv(s) && s.acks != [] && t.decoder == s.decoder && t.acks == s.acks[1..]
    requires t.host == AckHandled(s.host, s.acks[0])
    requires t.recorded == if s.acks[0] in s.host.sendTimes then s.recorded + [s.acks[0]] else s.recorded
    ensures AckInv(t) && (s.host.hasAck ==> t.host.hasAck && s.host.latestAck <= t.host.latestAck)
  {
    var a, n := s.acks[0], |s.recorded|;
    var before, after := s.recorded + s.acks, t.recorded + t.acks;
    assert before[n] == a;
    if a in s.host.sendTimes {
      assert after == before;
      assert n > 0 ==> before[n - 1] < before[n];
    } else {
      assert after == before[..n] + before[n + 1..];
      DropOne(before, n, after);
    }
  }

  lemma HandleAckSafe(s: System, size: FrameSize, t: System)
    requires SysInv(s, size) && Next(s, HandleAck, size, t)
    ensures SysInv(t, size)
  {
    HandledAcks(s, t);
  }

  lemma DisconnectSafe(s: System, size: FrameSize, f: nat, a: nat, t: System)
    requires SysInv(s, size) && Next(s, Disconnect(f, a), size, t)
    ensures SysInv(t, size)
  {
    var before, after := s.recorded + s.acks, t.recorded + t.acks;
    assert after == before[..|s.recorded| + a];
  }

  lemma StepSafe(s: System, step: Step, size: FrameSize, t: System)
    requires SysInv(s, size) && Next(s, step, size, t) && s.host.videoFrame < TWO63 && WindowOpensAhead(t.sent)
    ensures SysInv(t, size)
  {
    match step {
      case Choose(now, clampNow) => ChooseSafe(s, size, now, clampNow, t);
      case Transmit(ok, now) => TransmitSafe(s, size, ok, now, t);
      case Record(time) =>
      case Receive(h, env, sendable) => ReceiveSafe(s, size, h, env, sendable, t);
      case HandleAck => HandleAckSafe(s, size, t);
      case Disconnect(f, a) => DisconnectSafe(s, size, f, a, t);
    }
  }

  lemma SentGrows(s: System, step: Step, size: FrameSize, t: System)
    requires Next(s, step, size, t) && WindowOpensAhead(t.sent)
    ensures WindowOpensAhead(s.sent)
  {
    if step.Transmit? && step.ok {
      AppendSent(s.sent, Sent(s.host.videoFrame, s.phase.windowed));
    }
  }

  lemma InitSafe(size: FrameSize)
    ensures SysInv(INIT, size)
  {
    StoppedInv(INITIAL);
    assert Stopped(INITIAL) == INITIAL;
  }

  /** The mutual induction: while the window opened ahead, host, channels and decoder keep the invariant. */
  lemma {:induction false} RunSafe(ss: seq<System>, steps: seq<Step>, size: FrameSize, n: nat)
    requires Run(ss, steps, size) && InHorizon(ss) && n < |ss| && WindowOpensAhead(ss[n].sent)
    ensures SysInv(ss[n], size)
  {
    if n == 0 {
      InitSafe(size);
    } else {
      assert Next(ss[n - 1], steps[n - 1], size, ss[n - 1 + 1]);
      SentGrows(ss[n - 1], steps[n - 1], size, ss[n]);
      RunSafe(ss, steps, size, n - 1);
      StepSafe(ss[n - 1], steps[n - 1], size, ss[n]);
    }
  }

  /**
   Recorded acknowledgements and published frames strictly increase, and the decoder's index-jump
   restart does not fire on the next frame.
   */
  predicate DownstreamSafe(s: System) {
    && Increasing(s.recorded) && Increasing(s.decoder.log.history)
    && (s.frames != [] ==> !Restarts(s.decoder.stream, s.frames[0]))
  }

  /**
   Host and decoder, over every run with a constant frame size, honest codecs, any timing, any
   lost acknowledgement and any number of broken connections: the indices sent never decrease
   if and only if the first one sent under a window did not. And then recorded acknowledgements
   and published frames strictly increase, and the decoder's index-jump restart never fires.
   */
  lemma HostDecoderSafety(ss: seq<System>, steps: seq<Step>, size: FrameSize, n: nat)
    requires Run(ss, steps, size) && InHorizon(ss) && n < |ss|
    ensures NeverDecreases(ss[n].sent) <==> WindowOpensAhead(ss[n].sent)
    ensures WindowOpensAhead(ss[n].sent) ==> DownstreamSafe(ss[n])
  {
    var s := ss[n];
    if WindowOpensAhead(s.sent) {
      RunSafe(ss, steps, size, n);
      forall i, j | 0 <= i < j < |s.recorded|
        ensures s.recorded[i] < s.recorded[j]
      {
        assert (s.recorded + s.acks)[i] < (s.recorded + s.acks)[j];
      }
      if s.frames != [] {
        NoRestart(s.decoder, size, s.received, s.frames[0]);
      }
    }
  }

  // ----- pacing -------------------------------------------------------------------------------------------

  /** The step neither clamps nor (re)starts the clock. */
  predicate Smooth(s: System, step: Step) {
    match step
    case Choose(now, _) => s.host.started && !ClampFires(CatchUp(s.host, now))
    case Transmit(ok, _) => s.host.started && ok
    case _ => true
  }

  lemma SmoothStepPaces(s: System, step: Step, size: FrameSize, t: System)
    requires Next(s, step, size, t) && Smooth(s, step) && s.host.videoFrame < TWO63
    ensures Paced(s.host, t.host)
  {
    if step.Choose? {
      assert Missed(s.host, step.now) < TWO63;
    }
  }

  /**
   Over every stretch of every run between clamps and restarts, with sends, receipts and
   acknowledgements interleaved at will, the due time advances by exactly one interval per frame,
   sent or skipped.
   */
  lemma {:induction false} PacingOverRun(ss: seq<System>, steps: seq<Step>, size: FrameSize, m: nat, n: nat)
    requires Run(ss, steps, size) && InHorizon(ss) && m <= n < |ss|
    requires forall i :: m <= i < n ==> Smooth(ss[i], steps[i])
    ensures Paced(ss[m].host, ss[n].host)
    decreases n
  {
    if m < n {
      PacingOverRun(ss, steps, size, m, n - 1);
      assert Paced(ss[n - 1].host, ss[n].host) by {
        assert Next(ss[n - 1], steps[n - 1], size, ss[n - 1 + 1]);
        SmoothStepPaces(ss[n - 1], steps[n - 1], size, ss[n]);
      }
      PacedChain(ss[m].host, ss[n - 1].host, ss[n].host);
    }
  }

  // ----- send times ---------------------------------------------------------------------------------------

  /** Send times are those of frames that a codec's timestamp can hold. */
  predicate TimesBounded(h: Host) {
    forall f :: f in h.sendTimes ==> f < TWO63
  }

  lemma {:induction false} TimesStayBounded(ss: seq<System>, steps: seq<Step>, size: FrameSize, n: nat)
    requires Run(ss, steps, size) && InHorizon(ss) && n < |ss|
    ensures TimesBounded(ss[n].host)
  {
    if n > 0 {
      TimesStayBounded(ss, steps, size, n - 1);
      assert Next(ss[n - 1], steps[n - 1], size, ss[n - 1 + 1]);
    }
  }

  /**
   Over every run the bound never wraps: when an acknowledgement of frame `a` is handled, exactly the
   send times of frames from `a - 300` on stay, but that of `a`.
   */
  lemma AckKeepsRecentOverRun(ss: seq<System>, steps: seq<Step>, size: FrameSize, n: nat)
    requires Run(ss, steps, size) && InHorizon(ss) && n < |steps| && steps[n] == HandleAck
    ensures var before, after, a := ss[n].host.sendTimes, ss[n + 1].host.sendTimes, ss[n].acks[0];
            && (forall f :: f in after <==> f in before && f != a && a - KEEP <= f)
            && (forall f :: f in after ==> after[f] == before[f])
  {
    TimesStayBounded(ss, steps, size, n);
    assert Next(ss[n], steps[n], size, ss[n + 1]);
    AckKeepsRecent(ss[n].host, ss[n].acks[0]);
  }
}
