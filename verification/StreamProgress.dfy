/**
 Exactly when the closed loop can still move on: in every state of a guarded run but a blocked one,
 some continuation publishes a frame or records an acknowledgement.
 */
module StreamProgress {
  import opened Bytes
  import opened Wire
  import opened SurfaceDrain
  import opened VideoDecoder
  import opened StereoPublishing
  import opened HostVideo
  import opened StreamProtocol
  import opened StreamGuard
  import opened StreamWindow
  import opened StreamRaces
  import opened StreamStall

  // ----- send times of what can still be acknowledged -----------------------------------------------

  predicate WasSent(s: System, f: u64) {
    exists i :: 0 <= i < |s.sent| && s.sent[i].frame == f
  }

  /** The send time of the frame is stored, or about to be. */
  predicate Known(s: System, f: u64) {
    f in s.host.sendTimes || (s.phase == Unrecorded && f == s.host.videoFrame)
  }

  /** The frame is above everything published. */
  predicate Fresher(s: System, f: u64) {
    forall g :: g in s.decoder.log.history ==> g < f
  }

  /** Everything in flight or fed to the codecs was sent. */
  predicate OnlySentIsFed(s: System) {
    && (forall i :: 0 <= i < |s.frames| ==> WasSent(s, s.frames[i]))
    && (forall i :: 0 <= i < |s.decoder.log.epoch.calls| ==> WasSent(s, s.decoder.log.epoch.calls[i].frame))
  }

  /** Whatever can still be acknowledged, or is being acknowledged, has its send time. */
  predicate TimesKnown(s: System) {
    && (forall f :: WasSent(s, f) && Fresher(s, f) ==> Known(s, f))
    && (forall i :: 0 <= i < |s.acks| ==> Known(s, s.acks[i]))
  }

  lemma SameSent(s: System, t: System)
    requires t.sent == s.sent
    ensures forall f :: WasSent(t, f) <==> WasSent(s, f)
  {
  }

  lemma OneMoreSent(s: System, t: System, x: Sent)
    requires t.sent == s.sent + [x]
    ensures forall f :: WasSent(t, f) <==> WasSent(s, f) || f == x.frame
  {
    var n := |s.sent|;
    assert t.sent[n] == x && forall i :: 0 <= i < n ==> t.sent[i] == s.sent[i];
    forall f | WasSent(s, f)
      ensures WasSent(t, f)
    {
      var i :| 0 <= i < n && s.sent[i].frame == f;
      assert t.sent[i].frame == f;
    }
  }

  lemma TransmitKeepsTimes(s: System, now: int, size: FrameSize, t: System)
    requires OnlySentIsFed(s) && TimesKnown(s) && Next(s, Transmit(true, now), size, t)
    ensures OnlySentIsFed(t) && TimesKnown(t)
  {
    var x := Sent(s.host.videoFrame, s.phase.windowed);
    OneMoreSent(s, t, x);
  }

  lemma RecordKeepsTimes(s: System, time: int, size: FrameSize, t: System)
    requires OnlySentIsFed(s) && TimesKnown(s) && Next(s, Record(time), size, t)
    ensures OnlySentIsFed(t) && TimesKnown(t)
  {
    SameSent(s, t);
  }

  lemma HandleAckKeepsTimes(s: System, size: FrameSize, t: System)
    requires AckInv(s) && TimesBounded(s.host) && OnlySentIsFed(s) && TimesKnown(s) && Next(s, HandleAck, size, t)
    ensures OnlySentIsFed(t) && TimesKnown(t)
  {
    var g, n := s.acks[0], |s.recorded|;
    var all := s.recorded + s.acks;
    SameSent(s, t);
    AckKeepsRecent(s.host, g);
    assert all[n] == g && g in all && g in s.decoder.log.history;
    assert forall f :: f in s.host.sendTimes && g < f ==> f in t.host.sendTimes;
    forall i | 0 <= i < |t.acks|
      ensures Known(t, t.acks[i])
    {
      assert t.acks[i] == all[n + 1 + i] && all[n] < all[n + 1 + i];
    }
  }

  lemma QuietStepKeepsTimes(s: System, step: Step, size: FrameSize, t: System)
    requires OnlySentIsFed(s) && TimesKnown(s) && Next(s, step, size, t)
    requires step.Choose? || (step.Transmit? && !step.ok) || step.Disconnect?
    ensures OnlySentIsFed(t) && TimesKnown(t)
  {
    SameSent(s, t);
  }

  /** The last frame published was shown by the left codec, which had accepted it. */
  lemma LastWasAccepted(d: State, size: FrameSize, received: Option<u64>, before: seq<u64>, f: u64)
    requires Steady(d, size, received) && d.log.history == before + [f]
    ensures AcceptedFrame(d.log.epoch.calls, true, f)
  {
    var p := d.log.epoch.published;
    assert p[|p| - 1] == f && p[|p| - 1] in p;
  }

  /** What a decoded frame does: at most one frame is published, it was fed to the codecs, and it is the newest. */
  lemma DecodePublishesFed(d: State, size: FrameSize, received: Option<u64>, h: VideoFrameHeader, env: Env, mid: State)
    returns (ack: Option<Ack>)
    requires Steady(d, size, received) && Decodes(d, h, env, mid)
    requires h.frameIndex < TWO63 && (received.Some? ==> received.value <= h.frameIndex)
    requires h.width == size.width && h.height == size.height
    requires ReachesCodecs(d, h, env) ==> HonestCodecs(BeforePublish(d, h, env), env)
    ensures ack == None ==> AckFrames(mid.stream.pendingAcks) == [] && mid.log.history == d.log.history
    ensures ack.Some? ==>
              && mid.log.history == d.log.history + [ack.value.frame]
              && AckFrames(mid.stream.pendingAcks) == [ack.value.frame]
              && (forall g :: g in d.log.history ==> g < ack.value.frame)
              && AcceptedFrame(mid.log.epoch.calls, true, ack.value.frame)
  {
    ack := ReceiveSteady(d, size, received, h, env, mid);
    if ack.Some? {
      OneAck(ack.value);
      LastWasAccepted(Taken(mid), size, Some(h.frameIndex), d.log.history, ack.value.frame);
    }
  }

  lemma ReceiptOf(s: System, step: Step, size: FrameSize, t: System) returns (mid: State)
    requires step.Receive? && Next(s, step, size, t)
    ensures Decodes(s.decoder, step.h, step.env, mid) && t.decoder.log == mid.log && t.host == s.host
    ensures t.sent == s.sent && t.phase == s.phase && t.frames == s.frames[1..] && t.received == Some(s.frames[0])
    ensures t.acks == if step.sendable then s.acks + AckFrames(mid.stream.pendingAcks) else s.acks
  {
    mid :| Decodes(s.decoder, step.h, step.env, mid)
      && t == s.(frames := s.frames[1..], decoder := Taken(mid), received := Some(step.h.frameIndex),
                 acks := s.acks + if step.sendable then AckFrames(mid.stream.pendingAcks) else []);
    assert s.acks + [] == s.acks;
  }

  lemma ReceiptFits(s: System, step: Step, size: FrameSize, t: System)
    requires SysInv(s, size) && step.Receive? && Next(s, step, size, t)
    ensures Steady(s.decoder, size, s.received) && step.h.frameIndex < TWO63
    ensures s.received.Some? ==> s.received.value <= step.h.frameIndex
    ensures step.h.width == size.width && step.h.height == size.height
    ensures ReachesCodecs(s.decoder, step.h, step.env)
            ==> HonestCodecs(BeforePublish(s.decoder, step.h, step.env), step.env)
  {
    var mid := ReceiptOf(s, step, size, t);
    ReceiveFlow(s, step.h, t);
  }

  lemma ReceiptPublishes(s: System, step: Step, size: FrameSize, t: System) returns (ack: Option<Ack>)
    requires SysInv(s, size) && step.Receive? && Next(s, step, size, t)
    ensures ack == None ==> t.decoder.log.history == s.decoder.log.history && t.acks == s.acks
    ensures ack.Some? ==>
              && t.decoder.log.history == s.decoder.log.history + [ack.value.frame] && Fresher(s, ack.value.frame)
              && (t.acks == s.acks || t.acks == s.acks + [ack.value.frame])
              && AcceptedFrame(t.decoder.log.epoch.calls, true, ack.value.frame)
  {
    ReceiptFits(s, step, size, t);
    var mid := ReceiptOf(s, step, size, t);
    ack := DecodePublishesFed(s.decoder, size, s.received, step.h, step.env, mid);
    assert s.acks + [] == s.acks;
  }

  /** A frame taken from those in flight may be fed. */
  lemma OneMoreFed(s: System, t: System, call: Call)
    requires OnlySentIsFed(s) && t.sent == s.sent && s.frames != [] && t.frames == s.frames[1..]
    requires call.frame == s.frames[0]
    requires var calls := t.decoder.log.epoch.calls;
             calls == s.decoder.log.epoch.calls || calls == [] || calls == s.decoder.log.epoch.calls + [call]
             || calls == [call]
    ensures OnlySentIsFed(t)
  {
    SameSent(s, t);
    assert WasSent(s, s.frames[0]);
  }

  lemma FedWasSent(s: System, step: Step, size: FrameSize, t: System)
    requires OnlySentIsFed(s) && step.Receive? && Next(s, step, size, t)
    ensures OnlySentIsFed(t)
  {
    var c := ReceiptIsClientStep(s, step, size, t);
    CallsAfter(s.decoder, EventOf(step), c);
    OneMoreFed(s, t, CallOf(step.h, step.env));
  }

  lemma FresherBefore(s: System, t: System)
    requires s.decoder.log.history <= t.decoder.log.history
    ensures forall f :: Fresher(t, f) ==> Fresher(s, f)
  {
    assert forall g :: g in s.decoder.log.history ==> g in t.decoder.log.history;
  }

  lemma PublishedIsKnown(s: System, t: System, f: u64)
    requires OnlySentIsFed(t) && TimesKnown(s) && Fresher(s, f) && t.sent == s.sent
    requires AcceptedFrame(t.decoder.log.epoch.calls, true, f)
    ensures Known(s, f)
  {
    var calls := t.decoder.log.epoch.calls;
    var i :| 0 <= i < |calls| && calls[i].left && calls[i].frame == f;
    assert WasSent(t, f);
    SameSent(s, t);
  }

  lemma TimesStayKnown(s: System, t: System, ack: Option<Ack>)
    requires TimesKnown(s) && OnlySentIsFed(t) && t.sent == s.sent && t.host == s.host && t.phase == s.phase
    requires ack == None ==> t.decoder.log.history == s.decoder.log.history && t.acks == s.acks
    requires ack.Some? ==>
               && t.decoder.log.history == s.decoder.log.history + [ack.value.frame] && Fresher(s, ack.value.frame)
               && (t.acks == s.acks || t.acks == s.acks + [ack.value.frame])
               && AcceptedFrame(t.decoder.log.epoch.calls, true, ack.value.frame)
    ensures TimesKnown(t)
  {
    SameSent(s, t);
    FresherBefore(s, t);
    if ack.Some? {
      PublishedIsKnown(s, t, ack.value.frame);
    }
  }

  lemma ReceiveKeepsTimes(s: System, step: Step, size: FrameSize, t: System)
    requires SysInv(s, size) && step.Receive? && Next(s, step, size, t) && OnlySentIsFed(s) && TimesKnown(s)
    ensures OnlySentIsFed(t) && TimesKnown(t)
  {
    FedWasSent(s, step, size, t);
    var ack := ReceiptPublishes(s, step, size, t);
    var mid := ReceiptOf(s, step, size, t);
    TimesStayKnown(s, t, ack);
  }

  lemma StepKeepsTimes(s: System, step: Step, size: FrameSize, t: System)
    requires SysInv(s, size) && TimesBounded(s.host) && OnlySentIsFed(s) && TimesKnown(s) && Next(s, step, size, t)
    ensures OnlySentIsFed(t) && TimesKnown(t)
  {
    match step {
      case Transmit(ok, now) =>
        if ok {
          TransmitKeepsTimes(s, now, size, t);
        } else {
          QuietStepKeepsTimes(s, step, size, t);
        }
      case Record(time) => RecordKeepsTimes(s, time, size, t);
      case HandleAck => HandleAckKeepsTimes(s, size, t);
      case Receive(_, _, _) => ReceiveKeepsTimes(s, step, size, t);
      case _ => QuietStepKeepsTimes(s, step, size, t);
    }
  }

  /** The guard held at every choice so far. */
  predicate Guarded(ss: seq<System>, steps: seq<Step>, n: nat)
    requires n <= |ss| && n <= |steps|
  {
    forall i :: 0 <= i < n ==> GuardHolds(ss[i], steps[i])
  }

  ghost predicate KnowsTimes(s: System, size: FrameSize) {
    SysInv(s, size) && TimesBounded(s.host) && OnlySentIsFed(s) && TimesKnown(s)
  }

  lemma KnowsTimesStep(ss: seq<System>, steps: seq<Step>, size: FrameSize, n: nat)
    requires Run(ss, steps, size) && InHorizon(ss) && n < |steps| && Guarded(ss, steps, n + 1)
    requires KnowsTimes(ss[n], size)
    ensures KnowsTimes(ss[n + 1], size)
  {
    GuardedRunIsSafe(ss, steps, size, n + 1);
    TimesStayBounded(ss, steps, size, n + 1);
    assert Next(ss[n], steps[n], size, ss[n + 1]);
    StepKeepsTimes(ss[n], steps[n], size, ss[n + 1]);
  }

  lemma InitKnowsTimes(s: System, size: FrameSize)
    requires s == INIT
    ensures KnowsTimes(s, size)
  {
    InitSafe(size);
  }

  lemma GuardedRunKnowsTimes(ss: seq<System>, steps: seq<Step>, size: FrameSize, n: nat)
    requires Run(ss, steps, size) && InHorizon(ss) && n < |ss| && Guarded(ss, steps, n)
    ensures KnowsTimes(ss[n], size)
  {
    var inv: System -> bool := s => KnowsTimes(s, size);
    InitKnowsTimes(ss[0], size);
    forall k | 0 <= k < n && inv(ss[k])
      ensures inv(ss[k + 1])
    {
      KnowsTimesStep(ss, steps, size, k);
    }
    StaysTrue(inv, ss, 0, n);
  }

  // ----- continuations --------------------------------------------------------------------------------

  ghost predicate Path(ss: seq<System>, steps: seq<Step>, size: FrameSize) {
    Linked(NextOf(size), ss, steps) && InHorizon(ss)
  }

  /** Some continuation leads from `s` to `t`. */
  ghost predicate Reaches(s: System, t: System, size: FrameSize) {
    exists ss, steps :: Path(ss, steps, size) && ss[0] == s && ss[|steps|] == t
  }

  lemma ReachesItself(s: System, size: FrameSize)
    requires s.host.videoFrame < TWO63
    ensures Reaches(s, s, size)
  {
    assert Path([s], [], size);
  }

  lemma ReachesOn(s: System, t: System, step: Step, size: FrameSize, u: System)
    requires Reaches(s, t, size) && Next(t, step, size, u) && u.host.videoFrame < TWO63
    ensures Reaches(s, u, size)
  {
    var ss, steps :| Path(ss, steps, size) && ss[0] == s && ss[|steps|] == t;
    assert NextOf(size)(ss[|steps|], step, u);
    Append(NextOf(size), ss, steps, step, u);
    assert Path(ss + [u], steps + [step], size);
  }

  /** An acknowledgement was recorded or a frame published. */
  predicate Progressed(s: System, t: System) {
    t.recorded != s.recorded || t.decoder.log.history != s.decoder.log.history
  }

  ghost predicate CanProgress(s: System, size: FrameSize) {
    exists t :: Reaches(s, t, size) && Progressed(s, t)
  }

  // ----- a packet that publishes -----------------------------------------------------------------------

  /** Some choice is always possible: the largest candidate, or none. */
  lemma ChoiceExists(m: Stream) returns (choice: Option<u64>)
    ensures IsChoice(m, choice)
  {
    choice := None;
    var rest := m.leftReady.Keys;
    while rest != {}
      invariant rest <= m.leftReady.Keys && (choice.Some? ==> IsCandidate(m, choice.value))
      invariant forall f :: f in m.leftReady.Keys - rest && IsCandidate(m, f) ==> choice.Some? && f <= choice.value
      decreases rest
    {
      var f :| f in rest;
      rest := rest - {f};
      if IsCandidate(m, f) && (choice == None || f > choice.value) {
        choice := Some(f);
      }
    }
  }

  /** A packet after which both codecs have shown frame `g`, above what was published, publishes a frame. */
  lemma Shows(d: State, h: VideoFrameHeader, env: Env, g: u64) returns (mid: State)
    requires Inv(d) && ReachesCodecs(d, h, env)
    requires var m := BeforePublish(d, h, env).stream;
             g in m.leftReady && g in m.rightReady && !(m.hasPublished && g <= m.lastPublished)
    ensures Decodes(d, h, env, mid) && mid.log.history != d.log.history
  {
    var b := BeforePublish(d, h, env);
    BeforePublishInv(d, h, env);
    var choice := ChoiceExists(b.stream);
    assert IsCandidate(b.stream, g);
    mid := Closed(b, choice, env.publishNow);
    assert |mid.log.history| == |d.log.history| + 1;
  }

  /** The packet at the head of the channel arrives, and the decoder goes on to `mid`. */
  lemma Arrives(s0: System, s: System, env: Env, mid: State, size: FrameSize) returns (t: System)
    requires Reaches(s0, s, size) && s.frames != [] && s.host.videoFrame < TWO63
    requires Decodes(s.decoder, HeaderOf(s.frames[0], size), env, mid)
    requires ReachesCodecs(s.decoder, HeaderOf(s.frames[0], size), env) ==>
               HonestCodecs(BeforePublish(s.decoder, HeaderOf(s.frames[0], size), env), env)
    ensures Reaches(s0, t, size) && t.decoder == Taken(mid) && t.host == s.host && t.frames == s.frames[1..]
  {
    var h := HeaderOf(s.frames[0], size);
    t := s.(frames := s.frames[1..], decoder := Taken(mid), received := Some(h.frameIndex),
            acks := s.acks + AckFrames(mid.stream.pendingAcks));
    ReachesOn(s0, s, Receive(h, env, true), size, t);
  }

  /** What the codecs are given and return when frame `f` goes straight through. */
  lemma ThroughIsHonest(d: State, f: u64, size: FrameSize)
    requires f < TWO63 && ReachesCodecs(d, HeaderOf(f, size), BothEyes(f, 0))
    ensures var b := BeforePublish(d, HeaderOf(f, size), BothEyes(f, 0));
            HonestCodecs(b, BothEyes(f, 0)) && f in b.stream.leftReady && f in b.stream.rightReady
  {
    var b := BeforePublish(d, HeaderOf(f, size), BothEyes(f, 0));
    var calls := b.log.epoch.calls;
    OneBuffer(OutputBuffer(0, f, 1));
    assert calls[|calls| - 1] == Call(f, true, true, 0) && ToSigned(f) == f;
    assert AcceptedTimestamp(calls, true, f) && AcceptedTimestamp(calls, false, f);
  }

  lemma StartsUp(d: State, f: u64, size: FrameSize)
    requires f < TWO63 && size.width != 0 && size.height != 0
    ensures ReachesCodecs(d, HeaderOf(f, size), BothEyes(f, 0))
  {
  }

  lemma ThroughIsNew(d: State, f: u64, size: FrameSize)
    requires f < TWO63 && Outside(d, f)
    ensures var m := BeforePublish(d, HeaderOf(f, size), BothEyes(f, 0)).stream;
            !(m.hasPublished && f <= m.lastPublished)
  {
  }

  /** Such a frame at the head of the channel can be published. */
  lemma ArrivalProgresses(s0: System, s: System, size: FrameSize)
    requires Reaches(s0, s, size) && s.frames != [] && s.frames[0] < TWO63 && Outside(s.decoder, s.frames[0])
    requires Inv(s.decoder) && s.decoder.log.history == s0.decoder.log.history && s.host.videoFrame < TWO63
    requires size.width != 0 && size.height != 0
    ensures CanProgress(s0, size)
  {
    var f, env := s.frames[0], BothEyes(s.frames[0], 0);
    StartsUp(s.decoder, f, size);
    ThroughIsHonest(s.decoder, f, size);
    ThroughIsNew(s.decoder, f, size);
    var mid := Shows(s.decoder, HeaderOf(f, size), env, f);
    var t := Arrives(s0, s, env, mid, size);
    assert Progressed(s0, t);
  }

  // ----- a packet that lets the codecs show an older one ----------------------------------------------------

  /** Neither codec takes the access unit, and both show the frames `outputs`. */
  function Showing(outputs: seq<OutputAnswer>): (env: Env) {
    Env(true, true, true, NoInput, NoInput, outputs, outputs, 0, 0)
  }

  /** Both codecs hold frame `g`, newer than the last published one. */
  predicate Holds(d: State, g: u64) {
    && d.stream.hasPublished && d.stream.lastPublished < g < TWO63
    && AcceptedFrame(d.log.epoch.calls, true, g) && AcceptedFrame(d.log.epoch.calls, false, g)
  }

  /** A decoder that has published runs, and stays as it is unless the frame is far below. */
  lemma StaysRunning(d: State, f: u64, size: FrameSize, env: Env)
    requires Sound(d, size) && d.stream.hasPublished && f < TWO63 && d.stream.lastPublished <= f + 2
    requires size.width != 0 && size.height != 0
    ensures Readied(d, HeaderOf(f, size), env) == d && ReachesCodecs(d, HeaderOf(f, size), env)
  {
    StaysReadied(d, size, HeaderOf(f, size), env);
  }

  lemma AcceptedIsTimestamp(calls: seq<Call>, c: Call, leftEye: bool, g: u64)
    requires AcceptedFrame(calls, leftEye, g) && g < TWO63
    ensures AcceptedTimestamp(calls + [c], leftEye, ToSigned(g))
  {
    AcceptedFrameGrows(calls, c, leftEye, g);
    var i :| 0 <= i < |calls + [c]| && (if leftEye then (calls + [c])[i].left else (calls + [c])[i].right)
             && (calls + [c])[i].frame == g;
  }

  lemma HeldIsHonest(d: State, f: u64, g: u64, size: FrameSize)
    requires Sound(d, size) && Holds(d, g) && f < TWO63 && d.stream.lastPublished <= f + 2
    requires size.width != 0 && size.height != 0
    ensures var e := Showing([OutputBuffer(0, g, 1)]);
            var b := BeforePublish(d, HeaderOf(f, size), e);
            && HonestCodecs(b, e) && g in b.stream.leftReady && g in b.stream.rightReady
            && b.stream.lastPublished == d.stream.lastPublished
  {
    var e := Showing([OutputBuffer(0, g, 1)]);
    var c := CallOf(HeaderOf(f, size), e);
    StaysRunning(d, f, size, e);
    OneBuffer(OutputBuffer(0, g, 1));
    AcceptedIsTimestamp(d.log.epoch.calls, c, true, g);
    AcceptedIsTimestamp(d.log.epoch.calls, c, false, g);
    assert ToSigned(g) == g;
  }

  lemma HeldProgresses(s0: System, s: System, g: u64, size: FrameSize)
    requires Reaches(s0, s, size) && s.frames != [] && s.frames[0] < TWO63
    requires Sound(s.decoder, size) && Holds(s.decoder, g) && s.decoder.stream.lastPublished <= s.frames[0] + 2
    requires s.decoder.log.history == s0.decoder.log.history && s.host.videoFrame < TWO63
    requires size.width != 0 && size.height != 0
    ensures CanProgress(s0, size)
  {
    var f, e := s.frames[0], Showing([OutputBuffer(0, g, 1)]);
    StaysRunning(s.decoder, f, size, e);
    HeldIsHonest(s.decoder, f, g, size);
    var mid := Shows(s.decoder, HeaderOf(f, size), e, g);
    var t := Arrives(s0, s, e, mid, size);
    assert Progressed(s0, t);
  }

  // ----- frames in flight -----------------------------------------------------------------------------------

  lemma SilentChoice(d: State, f: u64, size: FrameSize)
    requires Sound(d, size) && d.stream.hasPublished && f < TWO63 && d.stream.lastPublished <= f + 2
    requires size.width != 0 && size.height != 0
    ensures var b := BeforePublish(d, HeaderOf(f, size), Showing([]));
            && Decodes(d, HeaderOf(f, size), Showing([]), b) && HonestCodecs(b, Showing([]))
            && b.stream == d.stream && b.log.history == d.log.history
  {
    var b := BeforePublish(d, HeaderOf(f, size), Showing([]));
    StaysRunning(d, f, size, Showing([]));
    assert Dequeued([], DRAIN_LIMIT) == [] && Drained([]) == [] && Mark(d.stream.leftReady, []) == d.stream.leftReady
           && Mark(d.stream.rightReady, []) == d.stream.rightReady;
    assert IsChoice(b.stream, None) && Closed(b, None, 0) == b;
  }

  /** A frame arrives while the codecs are silent: nothing changes but the channel. */
  lemma PassesSilently(s0: System, s: System, size: FrameSize) returns (t: System)
    requires Reaches(s0, s, size) && s.frames != [] && s.host.videoFrame < TWO63 && SoundSystem(s, size)
    requires s.decoder.stream.hasPublished && s.decoder.stream.lastPublished <= s.frames[0] + 2
    requires size.width != 0 && size.height != 0
    ensures Reaches(s0, t, size) && SoundSystem(t, size) && t.frames == s.frames[1..] && t.host == s.host
    ensures t.decoder.stream == s.decoder.stream && t.decoder.log.history == s.decoder.log.history
  {
    var f, e := s.frames[0], Showing([]);
    var b := BeforePublish(s.decoder, HeaderOf(f, size), e);
    SilentChoice(s.decoder, f, size);
    t := Arrives(s0, s, e, b, size);
    DecodedSound(s.decoder, size, HeaderOf(f, size), e, b);
  }

  /** If some frame in flight can still be published, the ones before it may pass silently. */
  lemma {:induction false} FlightProgresses(s0: System, s: System, i: nat, size: FrameSize)
    requires Reaches(s0, s, size) && s.host.videoFrame < TWO63 && SoundSystem(s, size)
    requires i < |s.frames| && Outside(s.decoder, s.frames[i]) && size.width != 0 && size.height != 0
    requires s.decoder.log.history == s0.decoder.log.history
    ensures CanProgress(s0, size)
    decreases |s.frames|
  {
    if Outside(s.decoder, s.frames[0]) {
      ArrivalProgresses(s0, s, size);
    } else {
      var t := PassesSilently(s0, s, size);
      FlightProgresses(s0, t, i - 1, size);
    }
  }

  // ----- the host's next sends -----------------------------------------------------------------------------

  /** What is in flight to the client may be lost. */
  lemma Flushes(s0: System, s: System, size: FrameSize) returns (t: System)
    requires Reaches(s0, s, size) && s.host.videoFrame < TWO63
    ensures t == s.(frames := []) && Reaches(s0, t, size)
  {
    t := s.(frames := []);
    assert s.frames[..0] == [] && s.acks[..|s.acks|] == s.acks;
    ReachesOn(s0, s, Disconnect(0, |s.acks|), size, t);
  }

  lemma SendsAlone(s0: System, s: System, size: FrameSize) returns (t: System)
    requires Reaches(s0, s, size) && s.phase.Ready? && s.frames == [] && s.host.videoFrame < TWO63
    ensures t == AfterTransmit(s, 0) && Reaches(s0, t, size) && t.frames == [s.host.videoFrame]
  {
    t := AfterTransmit(s, 0);
    ReachesOn(s0, s, Transmit(true, 0), size, t);
  }

  /** A chosen frame is sent, and it or one that the codecs hold is published. */
  lemma SendProgresses(s0: System, s: System, g: u64, size: FrameSize)
    requires Reaches(s0, s, size) && s.phase.Ready? && s.host.videoFrame < TWO63 && Sound(s.decoder, size)
    requires Outside(s.decoder, s.host.videoFrame) || Holds(s.decoder, g)
    requires s.decoder.log.history == s0.decoder.log.history && size.width != 0 && size.height != 0
    ensures CanProgress(s0, size)
  {
    var empty := Flushes(s0, s, size);
    var out := SendsAlone(s0, empty, size);
    if Outside(s.decoder, s.host.videoFrame) {
      ArrivalProgresses(s0, out, size);
    } else {
      HeldProgresses(s0, out, g, size);
    }
  }

  /** The host has gone on alone: its window, the client and the acknowledgements are as they were. */
  predicate SameClient(s: System, t: System) {
    && t.decoder == s.decoder && t.acks == s.acks && t.recorded == s.recorded
    && t.host.hasAck == s.host.hasAck && t.host.latestAck == s.host.latestAck
  }

  /** The frame that an idle host chooses when the next one is due. */
  function NextChosen(h: Host): (f: u64) {
    Chosen(h, h.nextFrameTime, h.nextFrameTime).videoFrame
  }

  lemma NextIs(h: Host)
    requires h.hasAck ==> h.latestAck + WINDOW < TWO64
    ensures NextChosen(h)
         == if h.hasAck && h.videoFrame > h.latestAck + WINDOW then h.latestAck + WINDOW else h.videoFrame
  {
  }

  lemma Picks(s0: System, s: System, size: FrameSize) returns (t: System)
    requires Reaches(s0, s, size) && s.phase == Idle && NextChosen(s.host) < TWO63
    ensures Reaches(s0, t, size) && t == AfterChoose(s, s.host.nextFrameTime)
    ensures t.host.videoFrame == NextChosen(s.host) && t.phase.Ready? && SameClient(s, t)
  {
    t := AfterChoose(s, s.host.nextFrameTime);
    ReachesOn(s0, s, Choose(s.host.nextFrameTime, s.host.nextFrameTime), size, t);
  }

  lemma Stores(s0: System, s: System, size: FrameSize) returns (t: System)
    requires Reaches(s0, s, size) && s.phase == Unrecorded && s.host.videoFrame + 1 < TWO63
    ensures Reaches(s0, t, size) && t.phase == Idle && t.host.videoFrame == s.host.videoFrame + 1
    ensures SameClient(s, t) && s.host.videoFrame in t.host.sendTimes
  {
    t := AfterRecord(s, 0);
    ReachesOn(s0, s, Record(0), size, t);
  }

  lemma SendsAndStores(s0: System, s: System, size: FrameSize) returns (t: System)
    requires Reaches(s0, s, size) && s.phase.Ready? && s.host.videoFrame + 1 < TWO63
    ensures Reaches(s0, t, size) && t.phase == Idle && t.host.videoFrame == s.host.videoFrame + 1
    ensures SameClient(s, t) && s.host.videoFrame in t.host.sendTimes
  {
    var out := AfterTransmit(s, 0);
    ReachesOn(s0, s, Transmit(true, 0), size, out);
    t := Stores(s0, out, size);
  }

  /**
   The host may go on: the window does not end at, or up to two before, the last published frame; or
   the codecs hold a newer frame.
   */
  predicate MayMove(s: System, g: u64) {
    !s.host.hasAck || Holds(s.decoder, g)
    || !s.decoder.stream.hasPublished || Window(s) > s.decoder.stream.lastPublished
    || Window(s) + 2 < s.decoder.stream.lastPublished
  }

  /** The counter is far below the last published frame, so that the next frame restarts the decoder. */
  predicate FarBelow(s: System) {
    s.decoder.stream.hasPublished && s.host.videoFrame + 2 < s.decoder.stream.lastPublished
  }

  /** An idle host that may move sends at most three frames that are not published, and then one that is. */
  lemma {:induction false} IdleProgresses(s0: System, s: System, g: u64, size: FrameSize)
    requires Reaches(s0, s, size) && s.phase == Idle && (MayMove(s, g) || FarBelow(s)) && Sound(s.decoder, size)
    requires s.host.videoFrame + 1 < TWO63 && (s.host.hasAck ==> Window(s) < TWO64)
    requires var p := s.decoder.stream.lastPublished; s.host.videoFrame <= p <= s.host.videoFrame + 2 ==> p + 2 < TWO63
    requires s.decoder.log.history == s0.decoder.log.history && size.width != 0 && size.height != 0
    ensures CanProgress(s0, size)
    decreases s.decoder.stream.lastPublished + 1 - s.host.videoFrame
  {
    NextIs(s.host);
    var chosen := Picks(s0, s, size);
    if Outside(s.decoder, chosen.host.videoFrame) || Holds(s.decoder, g) {
      SendProgresses(s0, chosen, g, size);
    } else {
      var next := SendsAndStores(s0, chosen, size);
      IdleProgresses(s0, next, g, size);
    }
  }

  /** The frame counter and the window have room for the next frames. */
  predicate HasRoom(s: System) {
    s.host.videoFrame + 5 < TWO63 && (s.host.hasAck ==> s.host.latestAck + 5 < TWO63)
  }

  /** The host goes on, from wherever it stands. */
  lemma HostProgresses(s: System, g: u64, size: FrameSize)
    requires Sound(s.decoder, size) && HasRoom(s) && size.width != 0 && size.height != 0
    requires || MayMove(s, g) || (s.phase == Idle && FarBelow(s))
             || (s.phase == Unrecorded && s.decoder.stream.hasPublished
                 && s.host.videoFrame + 3 < s.decoder.stream.lastPublished)
    ensures CanProgress(s, size)
  {
    ReachesItself(s, size);
    match s.phase {
      case Idle => IdleProgresses(s, s, g, size);
      case Ready(_) =>
        var t := SendsAndStores(s, s, size);
        IdleProgresses(s, t, g, size);
      case Unrecorded =>
        var t := Stores(s, s, size);
        IdleProgresses(s, t, g, size);
    }
  }

  /** Which frame the codecs hold, if they hold a newer one. */
  lemma HeldFrame(d: State, size: FrameSize) returns (g: u64)
    requires Sound(d, size) && d.stream.hasPublished && !NoneAbove(d.log.epoch.calls, d.stream.lastPublished)
    ensures Holds(d, g)
  {
    var f: u64 :| AcceptedFrame(d.log.epoch.calls, true, f) && AcceptedFrame(d.log.epoch.calls, false, f)
                  && f > d.stream.lastPublished;
    g := f;
  }

  /** A frame can be published unless all are exhausted. */
  lemma ProgressUnlessExhausted(s: System, size: FrameSize)
    requires SoundSystem(s, size) && HasRoom(s) && !Exhausted(s) && size.width != 0 && size.height != 0
    ensures CanProgress(s, size)
  {
    var d := s.decoder;
    ReachesItself(s, size);
    if i :| 0 <= i < |s.frames| && Outside(d, s.frames[i]) {
      FlightProgresses(s, s, i, size);
    } else if s.phase.Ready? && Outside(d, s.host.videoFrame) {
      SendProgresses(s, s, 0, size);
    } else if d.stream.hasPublished && !NoneAbove(d.log.epoch.calls, d.stream.lastPublished) {
      var g := HeldFrame(d, size);
      HostProgresses(s, g, size);
    } else {
      HostProgresses(s, 0, size);
    }
  }

  // ----- acknowledgements in flight ---------------------------------------------------------------------

  /** The first acknowledgement in flight finds its send time. */
  lemma AckIsRecorded(s0: System, s: System, size: FrameSize)
    requires Reaches(s0, s, size) && s.acks != [] && s.acks[0] in s.host.sendTimes && s.recorded == s0.recorded
    requires s.host.videoFrame < TWO63
    ensures CanProgress(s0, size)
  {
    var t := AfterAck(s);
    ReachesOn(s0, s, HandleAck, size, t);
    assert |t.recorded| == |s0.recorded| + 1;
  }

  /** The host sends on until it stores the send time of the first acknowledged frame. */
  lemma {:induction false} IdleRecords(s0: System, s: System, size: FrameSize)
    requires Reaches(s0, s, size) && s.phase == Idle && s.acks != [] && s.recorded == s0.recorded
    requires s.host.hasAck && Resendable(s, s.acks[0]) && Window(s) + 1 < TWO63
    ensures CanProgress(s0, size)
    decreases Window(s) - s.host.videoFrame
  {
    NextIs(s.host);
    var chosen := Picks(s0, s, size);
    var t := SendsAndStores(s0, chosen, size);
    if chosen.host.videoFrame == s.acks[0] {
      AckIsRecorded(s0, t, size);
    } else {
      IdleRecords(s0, t, size);
    }
  }

  lemma HostRecords(s0: System, s: System, size: FrameSize)
    requires Reaches(s0, s, size) && s.acks != [] && s.recorded == s0.recorded
    requires s.host.hasAck && Resendable(s, s.acks[0]) && HasRoom(s)
    ensures CanProgress(s0, size)
  {
    var t := s;
    match s.phase {
      case Idle =>
      case Ready(_) => t := SendsAndStores(s0, s, size);
      case Unrecorded => t := Stores(s0, s, size);
    }
    if s.phase != Idle && s.acks[0] == s.host.videoFrame {
      AckIsRecorded(s0, t, size);
    } else {
      IdleRecords(s0, t, size);
    }
  }

  /** An acknowledgement in flight that counts is recorded, or one before it is. */
  lemma {:induction false} CountedProgresses(s0: System, s: System, i: nat, size: FrameSize)
    requires Reaches(s0, s, size) && i < |s.acks| && Counts(s, i) && s.recorded == s0.recorded
    requires s.host.hasAck && HasRoom(s) && TimesBounded(s.host)
    ensures CanProgress(s0, size)
    decreases i
  {
    if s.acks[0] in s.host.sendTimes {
      AckIsRecorded(s0, s, size);
    } else if i == 0 {
      HostRecords(s0, s, size);
    } else {
      var t := AfterAck(s);
      ReachesOn(s0, s, HandleAck, size, t);
      CountsOn(s, t, i);
      CountedProgresses(s0, t, i - 1, size);
    }
  }

  /** An acknowledgement still counts when one before it was ignored. */
  lemma CountsOn(s: System, t: System, i: nat)
    requires 0 < i < |s.acks| && Counts(s, i) && s.acks[0] !in s.host.sendTimes && TimesBounded(s.host)
    requires t == AfterAck(s)
    ensures Counts(t, i - 1) && TimesBounded(t.host) && t.recorded == s.recorded && HasRoomAs(s, t)
  {
    AckKeepsRecent(s.host, s.acks[0]);
    assert t.acks[i - 1] == s.acks[i];
    assert forall j :: 0 <= j < i - 1 ==> t.acks[j] == s.acks[j + 1];
  }

  predicate HasRoomAs(s: System, t: System) {
    t.host.hasAck == s.host.hasAck && t.host.latestAck == s.host.latestAck && t.host.videoFrame == s.host.videoFrame
  }

  /** Progress is possible unless the system is blocked. */
  lemma ProgressUnlessBlocked(s: System, size: FrameSize)
    requires SoundSystem(s, size) && HasRoom(s) && !Blocked(s) && size.width != 0 && size.height != 0
    ensures CanProgress(s, size)
  {
    if Exhausted(s) {
      var i :| 0 <= i < |s.acks| && Counts(s, i);
      ReachesItself(s, size);
      CountedProgresses(s, s, i, size);
    } else {
      ProgressUnlessExhausted(s, size);
    }
  }

  // ----- a blocked system ---------------------------------------------------------------------------------

  lemma BlockedNeverProgresses(s: System, t: System, size: FrameSize)
    requires SoundSystem(s, size) && Blocked(s) && Reaches(s, t, size)
    ensures !Progressed(s, t)
  {
    var ss, steps :| Path(ss, steps, size) && ss[0] == s && ss[|steps|] == t;
    StallLasts(ss, steps, size, 0, |steps|);
  }

  /**
   Exactly when the loop can still move: in every state of every run, as long as frame counter and
   window have room, some continuation records an acknowledgement or publishes a frame, if and only if
   the system is not blocked.
   */
  lemma ProgressIffNotBlocked(ss: seq<System>, steps: seq<Step>, size: FrameSize, n: nat)
    requires Run(ss, steps, size) && InHorizon(ss) && n < |ss| && size.width != 0 && size.height != 0
    requires HasRoom(ss[n])
    ensures CanProgress(ss[n], size) <==> !Blocked(ss[n])
  {
    var s := ss[n];
    RunSound(ss, steps, size, n);
    if Blocked(s) {
      forall t | Reaches(s, t, size)
        ensures !Progressed(s, t)
      {
        BlockedNeverProgresses(s, t, size);
      }
    } else {
      ProgressUnlessBlocked(s, size);
    }
  }

  // ----- guarded runs -------------------------------------------------------------------------------------

  /** Nothing published is above the last frame sent, and the counter is not below it. */
  lemma SentCovers(s: System, size: FrameSize)
    requires SysInv(s, size) && CounterAhead(s)
    ensures forall g :: g in s.decoder.log.history ==> g <= LastFrame(s.sent)
    ensures s.received.Some? ==> s.received.value <= LastFrame(s.sent)
    ensures LastFrame(s.sent) <= s.host.videoFrame
    ensures s.host.hasAck ==> s.host.latestAck <= LastFrame(s.sent)
  {
    forall g | g in s.decoder.log.history
      ensures g <= LastFrame(s.sent)
    {
      HistoryUpTo(s.decoder, size, s.received, g);
    }
    if s.host.hasAck {
      LatestAckBounded(s, size);
    }
  }

  /** The last published frame was received, so nothing in flight is below it. */
  lemma FlightCovers(s: System, size: FrameSize)
    requires SysInv(s, size) && CounterAhead(s) && s.decoder.stream.hasPublished
    ensures s.decoder.stream.lastPublished <= LastFrame(s.sent)
    ensures forall i :: 0 <= i < |s.frames| ==> s.decoder.stream.lastPublished <= s.frames[i]
  {
    var p := s.decoder.log.epoch.published;
    assert p[|p| - 1] in s.decoder.log.history;
    HistoryUpTo(s.decoder, size, s.received, s.decoder.stream.lastPublished);
  }

  /** In a guarded run every acknowledgement under way counts. */
  lemma KnownCounts(s: System)
    requires TimesKnown(s) && s.acks != []
    ensures Counts(s, 0)
  {
    assert Known(s, s.acks[0]);
  }

  /**
   In every state of a guarded run, blocked means: the last published frame is the last one of the
   window or one of the two after it, no acknowledgement is under way, and nothing above that frame is
   in flight, chosen, or held by both codecs.
   */
  lemma BlockedIfGuarded(ss: seq<System>, steps: seq<Step>, size: FrameSize, n: nat)
    requires Run(ss, steps, size) && InHorizon(ss) && n < |ss| && Guarded(ss, steps, n)
    ensures var s, p := ss[n], ss[n].decoder.stream.lastPublished;
            Blocked(s) <==>
              && s.host.hasAck && s.acks == [] && s.decoder.stream.hasPublished && Window(s) <= p <= Window(s) + 2
              && (forall i :: 0 <= i < |s.frames| ==> s.frames[i] <= p)
              && (s.phase.Ready? ==> s.host.videoFrame <= p) && NoneAbove(s.decoder.log.epoch.calls, p)
  {
    var s := ss[n];
    GuardedRunIsSafe(ss, steps, size, n);
    GuardedRunKnowsTimes(ss, steps, size, n);
    SentCovers(s, size);
    if s.decoder.stream.hasPublished {
      FlightCovers(s, size);
    }
    if s.acks != [] {
      KnownCounts(s);
    }
  }
}
