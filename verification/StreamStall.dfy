/**
 The stall: an acknowledgement that is handled before its send time is stored, or lost, can close
 the window for good. Then frame `latestAck + 3` is sent forever.
 */
module StreamStall {
  import opened Bytes
  import opened Wire
  import opened VideoDecoder
  import opened StereoPublishing
  import opened HostVideo
  import opened StreamProtocol
  import opened StreamGuard
  import opened StreamRaces

  // ----- what every decoder state of every run keeps ---------------------------------------------------

  /** Between packets: the decoder's invariant, and what its codecs showed they accepted. */
  ghost predicate Sound(d: State, size: FrameSize) {
    && Inv(d) && d.stream.pendingAcks == [] && ShownAccepted(d.log.epoch) && SmallFrames(d.log.epoch.calls)
    && (d.res.left.None? ==> d.stream == EMPTY_STREAM && d.log.epoch == NEW_EPOCH)
    && (d.res.left.Some? ==> d.res.width == size.width && d.res.height == size.height)
  }

  lemma ReadiedSound(d: State, size: FrameSize, h: VideoFrameHeader, env: Env)
    requires Sound(d, size) && h.width == size.width && h.height == size.height
    ensures Sound(Readied(d, h, env), size)
  {
    ReadiedInv(d, h, env);
  }

  lemma GatheredSound(d: State, size: FrameSize, h: VideoFrameHeader, env: Env)
    requires Sound(d, size) && h.width == size.width && h.height == size.height && h.frameIndex < TWO63
    requires ReachesCodecs(d, h, env) && HonestCodecs(BeforePublish(d, h, env), env)
    ensures var b := BeforePublish(d, h, env);
            && ShownAccepted(b.log.epoch) && SmallFrames(b.log.epoch.calls)
            && b.res.left.Some? && b.res.width == size.width && b.res.height == size.height
  {
    var r, b := Readied(d, h, env), BeforePublish(d, h, env);
    ReadiedSound(d, size, h, env);
    assert b.log.epoch.calls == r.log.epoch.calls + [CallOf(h, env)];
    assert SmallFrames(b.log.epoch.calls);
    ShownStaysAccepted(d, h, env);
  }

  lemma ClosedSound(b: State, size: FrameSize, choice: Option<u64>, now: int)
    requires ShownAccepted(b.log.epoch) && SmallFrames(b.log.epoch.calls)
    requires b.res.left.Some? && b.res.width == size.width && b.res.height == size.height
    requires Inv(Closed(b, choice, now))
    ensures Sound(Taken(Closed(b, choice, now)), size)
  {
    TakenInv(Closed(b, choice, now));
  }

  lemma DecodedSound(d: State, size: FrameSize, h: VideoFrameHeader, env: Env, mid: State)
    requires Sound(d, size) && Decodes(d, h, env, mid)
    requires h.width == size.width && h.height == size.height && h.frameIndex < TWO63
    requires ReachesCodecs(d, h, env) ==> HonestCodecs(BeforePublish(d, h, env), env)
    ensures Sound(Taken(mid), size)
  {
    DecodePublishes(d, h, env, mid);
    if ReachesCodecs(d, h, env) {
      var b := BeforePublish(d, h, env);
      GatheredSound(d, size, h, env);
      var choice :| IsChoice(b.stream, choice) && mid == Closed(b, choice, env.publishNow);
      ClosedSound(b, size, choice, env.publishNow);
    } else {
      ReadiedSound(d, size, h, env);
      TakenInv(mid);
    }
  }

  /** A sound decoder, and indices in flight and send times that its codecs' timestamps can hold. */
  ghost predicate SoundSystem(s: System, size: FrameSize) {
    Sound(s.decoder, size) && TimesBounded(s.host) && forall i :: 0 <= i < |s.frames| ==> s.frames[i] < TWO63
  }

  lemma ReceiptSound(s: System, h: VideoFrameHeader, env: Env, sendable: bool, size: FrameSize, t: System)
    requires SoundSystem(s, size) && Next(s, Receive(h, env, sendable), size, t)
    ensures SoundSystem(t, size)
  {
    var mid :| Decodes(s.decoder, h, env, mid)
      && t == s.(frames := s.frames[1..], decoder := Taken(mid), received := Some(h.frameIndex),
                 acks := s.acks + if sendable then AckFrames(mid.stream.pendingAcks) else []);
    DecodedSound(s.decoder, size, h, env, mid);
  }

  lemma StepSound(s: System, step: Step, size: FrameSize, t: System)
    requires SoundSystem(s, size) && Next(s, step, size, t) && s.host.videoFrame < TWO63
    ensures SoundSystem(t, size)
  {
    if step.Receive? {
      ReceiptSound(s, step.h, step.env, step.sendable, size, t);
    }
  }

  lemma InitSound(s: System, size: FrameSize)
    requires s == INIT
    ensures SoundSystem(s, size)
  {
    StoppedInv(INITIAL);
    assert Stopped(INITIAL) == INITIAL;
  }

  /** A property kept from each state to the next holds from then on. */
  lemma {:induction false} StaysTrue<S(!new)>(inv: S -> bool, ss: seq<S>, m: nat, n: nat)
    requires m <= n < |ss| && inv(ss[m]) && forall k :: m <= k < n && inv(ss[k]) ==> inv(ss[k + 1])
    ensures inv(ss[n])
    decreases n - m
  {
    if m < n {
      assert inv(ss[m + 1]);
      StaysTrue(inv, ss, m + 1, n);
    }
  }

  lemma RunSound(ss: seq<System>, steps: seq<Step>, size: FrameSize, n: nat)
    requires Run(ss, steps, size) && InHorizon(ss) && n < |ss|
    ensures SoundSystem(ss[n], size)
  {
    var inv: System -> bool := s => SoundSystem(s, size);
    InitSound(ss[0], size);
    forall k | 0 <= k < n && inv(ss[k])
      ensures inv(ss[k + 1])
    {
      StepSound(ss[k], steps[k], size, ss[k + 1]);
    }
    StaysTrue(inv, ss, 0, n);
  }

  // ----- a blocked system -------------------------------------------------------------------------------

  /** The last frame of the window. */
  function Window(s: System): (w: int) {
    s.host.latestAck + WINDOW
  }

  /** No frame above `p` was accepted by both codecs. */
  ghost predicate NoneAbove(calls: seq<Call>, p: u64) {
    forall f: u64 :: AcceptedFrame(calls, true, f) && AcceptedFrame(calls, false, f) ==> f <= p
  }

  /**
   The decoder publishes frame `f` when both codecs show it: it is newer than the last published
   one, or restarts it.
   */
  predicate Outside(d: State, f: u64) {
    !(d.stream.hasPublished && d.stream.lastPublished <= f + 2 && f <= d.stream.lastPublished)
  }

  /** The host may send frame `f`, or store its send time, without any further acknowledgement. */
  predicate Resendable(s: System, f: u64) {
    (s.phase != Idle && f == s.host.videoFrame) || ((s.host.videoFrame <= f || f == Window(s)) && f <= Window(s))
  }

  /** Acknowledgement `i` in flight can still find a send time, even if those before it do not. */
  predicate Counts(s: System, i: nat)
    requires i < |s.acks|
  {
    || Resendable(s, s.acks[i])
    || (s.acks[i] in s.host.sendTimes && forall j :: 0 <= j < i ==> s.acks[j] <= s.acks[i] + KEEP)
  }

  /**
   Published is the last frame of the window, or one of the two after it, for which the decoder does
   not restart; and neither the frames in flight, nor the next ones of the host, nor any that both
   codecs hold can be published.
   */
  ghost predicate Exhausted(s: System) {
    var w, p := Window(s), s.decoder.stream.lastPublished;
    && s.host.hasAck && s.decoder.stream.hasPublished && w <= p <= w + 2
    && (forall i :: 0 <= i < |s.frames| ==> !Outside(s.decoder, s.frames[i]))
    && (match s.phase
        case Idle => p <= s.host.videoFrame + 2
        case Ready(_) => !Outside(s.decoder, s.host.videoFrame)
        case Unrecorded => p <= s.host.videoFrame + 3)
    && NoneAbove(s.decoder.log.epoch.calls, p)
  }

  /** Nothing can be published any more, and no acknowledgement in flight counts. */
  ghost predicate Blocked(s: System) {
    Exhausted(s) && forall i :: 0 <= i < |s.acks| ==> !Counts(s, i)
  }

  /**
   Between blocked `s` and a later `t`: nothing recorded or published; the frames sent lie within the
   window, after the one already chosen; and they are the last frame of the window once the counter
   has reached it.
   */
  ghost predicate NoProgress(s: System, t: System) {
    var chosen, w := if s.phase.Ready? then 1 else 0, Window(s);
    && Blocked(t) && t.host.latestAck == s.host.latestAck
    && t.decoder.stream.lastPublished == s.decoder.stream.lastPublished
    && t.recorded == s.recorded && t.decoder.log.history == s.decoder.log.history && s.sent <= t.sent
    && (forall i :: |s.sent| <= i < |t.sent| ==> !Outside(t.decoder, t.sent[i].frame))
    && (forall i :: |s.sent| + chosen <= i < |t.sent| ==> t.sent[i].frame <= w)
    && (t.phase.Ready? && |s.sent| + chosen <= |t.sent| ==> t.host.videoFrame <= w)
    && (w <= s.host.videoFrame ==>
          && w <= t.host.videoFrame
          && (forall i :: |s.sent| + chosen <= i < |t.sent| ==> t.sent[i].frame == w))
  }

  lemma BlockedChoice(s: System, now: int, clampNow: int, size: FrameSize, t: System)
    requires Exhausted(s) && Next(s, Choose(now, clampNow), size, t) && s.host.videoFrame < TWO63
    ensures t.host.videoFrame <= Window(s) && (s.host.videoFrame <= t.host.videoFrame || t.host.videoFrame == Window(s))
    ensures t.host.hasAck && t.host.latestAck == s.host.latestAck && t.host.sendTimes == s.host.sendTimes
    ensures t.phase.Ready?
  {
    assert Missed(s.host, now) < TWO63;
    assert CatchUp(s.host, now).videoFrame == s.host.videoFrame + Missed(s.host, now);
  }

  /** A decoder that runs and is not asked to restart stays as it is. */
  lemma StaysReadied(d: State, size: FrameSize, h: VideoFrameHeader, env: Env)
    requires Sound(d, size) && d.stream.hasPublished && h.width == size.width && h.height == size.height
    requires !Restarts(d.stream, h.frameIndex)
    ensures Readied(d, h, env) == d
  {
  }

  lemma NoneAboveWith(calls: seq<Call>, p: u64, c: Call)
    requires NoneAbove(calls, p) && c.frame <= p
    ensures NoneAbove(calls + [c], p)
  {
    forall f: u64 | AcceptedFrame(calls + [c], true, f) && AcceptedFrame(calls + [c], false, f)
      ensures f <= p
    {
      if f > p {
        AcceptedBefore(calls, c, true, f);
        AcceptedBefore(calls, c, false, f);
      }
    }
  }

  lemma AcceptedBefore(calls: seq<Call>, c: Call, leftEye: bool, f: u64)
    requires AcceptedFrame(calls + [c], leftEye, f) && c.frame != f
    ensures AcceptedFrame(calls, leftEye, f)
  {
    var i :| 0 <= i < |calls + [c]| && (if leftEye then (calls + [c])[i].left else (calls + [c])[i].right)
             && (calls + [c])[i].frame == f;
    assert i < |calls| && calls[i] == (calls + [c])[i];
  }

  /** What both codecs showed they accepted, so there is nothing newer to publish. */
  lemma NothingToPublish(b: State, choice: Option<u64>)
    requires ReadyInv(b) && ShownAccepted(b.log.epoch) && b.stream.hasPublished
    requires NoneAbove(b.log.epoch.calls, b.stream.lastPublished) && IsChoice(b.stream, choice)
    ensures choice == None
  {
  }

  lemma BlockedDecode(d: State, size: FrameSize, h: VideoFrameHeader, env: Env, mid: State)
    requires Sound(d, size) && d.stream.hasPublished && NoneAbove(d.log.epoch.calls, d.stream.lastPublished)
    requires d.stream.lastPublished <= h.frameIndex + 2 && h.frameIndex <= d.stream.lastPublished
    requires h.frameIndex < TWO63
    requires h.width == size.width && h.height == size.height && Decodes(d, h, env, mid)
    requires ReachesCodecs(d, h, env) ==> HonestCodecs(BeforePublish(d, h, env), env)
    ensures mid.stream.hasPublished && mid.stream.lastPublished == d.stream.lastPublished
    ensures mid.stream.pendingAcks == [] && mid.log.history == d.log.history
    ensures NoneAbove(mid.log.epoch.calls, d.stream.lastPublished)
  {
    StaysReadied(d, size, h, env);
    if ReachesCodecs(d, h, env) {
      var b := BeforePublish(d, h, env);
      GatheredSound(d, size, h, env);
      BeforePublishInv(d, h, env);
      NoneAboveWith(d.log.epoch.calls, d.stream.lastPublished, CallOf(h, env));
      var choice :| IsChoice(b.stream, choice) && mid == Closed(b, choice, env.publishNow);
      NothingToPublish(b, choice);
    }
  }

  /** What a step of a blocked system leaves as it was. */
  ghost predicate StillBlocked(s: System, t: System) {
    && Blocked(t) && t.host.latestAck == s.host.latestAck && t.recorded == s.recorded
    && t.decoder.stream.lastPublished == s.decoder.stream.lastPublished
    && t.decoder.log.history == s.decoder.log.history
  }

  /** No acknowledgement counts that did not count before. */
  lemma StillNoneCounts(s: System, t: System)
    requires t.acks <= s.acks && (forall i :: 0 <= i < |s.acks| ==> !Counts(s, i))
    requires forall f: u64 :: Resendable(t, f) ==> Resendable(s, f)
    requires forall f :: f in t.host.sendTimes ==> f in s.host.sendTimes || Resendable(s, f)
    ensures forall i :: 0 <= i < |t.acks| ==> !Counts(t, i)
  {
    forall i | 0 <= i < |t.acks|
      ensures !Counts(t, i)
    {
      assert !Counts(s, i) && t.acks[i] == s.acks[i];
      assert forall j :: 0 <= j < i ==> t.acks[j] == s.acks[j];
    }
  }

  lemma BlockedReceipt(s: System, h: VideoFrameHeader, env: Env, sendable: bool, size: FrameSize, t: System)
    requires SoundSystem(s, size) && Blocked(s) && Next(s, Receive(h, env, sendable), size, t)
    ensures StillBlocked(s, t)
  {
    var mid :| Decodes(s.decoder, h, env, mid)
      && t == s.(frames := s.frames[1..], decoder := Taken(mid), received := Some(h.frameIndex),
                 acks := s.acks + if sendable then AckFrames(mid.stream.pendingAcks) else []);
    BlockedDecode(s.decoder, size, h, env, mid);
    assert AckFrames(mid.stream.pendingAcks) == [] && s.acks + [] == s.acks;
    StillNoneCounts(s, t);
  }

  /** An acknowledgement that does not count is handled: it is ignored, and the others count no more than before. */
  lemma BlockedAck(s: System, size: FrameSize, t: System)
    requires Blocked(s) && TimesBounded(s.host) && Next(s, HandleAck, size, t)
    ensures StillBlocked(s, t)
  {
    assert !Counts(s, 0);
    AckKeepsRecent(s.host, s.acks[0]);
    forall i | 0 <= i < |t.acks|
      ensures !Counts(t, i)
    {
      assert !Counts(s, i + 1) && t.acks[i] == s.acks[i + 1];
      assert forall j :: 0 <= j < i ==> t.acks[j] == s.acks[j + 1];
      assert forall j :: 0 < j < i + 1 ==> s.acks[j] == t.acks[j - 1];
    }
  }

  lemma BlockedStep(s: System, step: Step, size: FrameSize, t: System)
    requires SoundSystem(s, size) && Blocked(s) && Next(s, step, size, t) && s.host.videoFrame < TWO63
    ensures StillBlocked(s, t)
  {
    match step {
      case Choose(now, clampNow) =>
        BlockedChoice(s, now, clampNow, size, t);
        StillNoneCounts(s, t);
      case Receive(h, env, sendable) => BlockedReceipt(s, h, env, sendable, size, t);
      case HandleAck => BlockedAck(s, size, t);
      case _ => StillNoneCounts(s, t);
    }
  }

  /** What was sent since, when one more step is taken. */
  lemma NoProgressGoesOn(s: System, t: System, step: Step, size: FrameSize, u: System)
    requires NoProgress(s, t) && SoundSystem(t, size) && Next(t, step, size, u) && t.host.videoFrame < TWO63
    ensures NoProgress(s, u)
  {
    BlockedStep(t, step, size, u);
    if step.Choose? {
      BlockedChoice(t, step.now, step.clampNow, size, u);
    }
  }

  /** The system has been blocked since state `start`. */
  ghost predicate StuckSince(start: System, s: System, size: FrameSize) {
    SoundSystem(s, size) && NoProgress(start, s)
  }

  ghost function Stuck(start: System, size: FrameSize): (inv: System -> bool) {
    s => StuckSince(start, s, size)
  }

  lemma StallGoesOn(ss: seq<System>, steps: seq<Step>, size: FrameSize, start: System, k: nat)
    requires Linked(NextOf(size), ss, steps) && InHorizon(ss) && k < |steps| && StuckSince(start, ss[k], size)
    ensures StuckSince(start, ss[k + 1], size)
  {
    assert NextOf(size)(ss[k], steps[k], ss[k + 1]);
    NoProgressGoesOn(start, ss[k], steps[k], size, ss[k + 1]);
    StepSound(ss[k], steps[k], size, ss[k + 1]);
  }

  /** From every sound state: a stall lasts over every continuation. */
  lemma StallLasts(ss: seq<System>, steps: seq<Step>, size: FrameSize, m: nat, n: nat)
    requires Linked(NextOf(size), ss, steps) && InHorizon(ss) && m <= n < |ss|
    requires SoundSystem(ss[m], size) && Blocked(ss[m])
    ensures NoProgress(ss[m], ss[n])
  {
    var inv := Stuck(ss[m], size);
    forall k | m <= k < n && inv(ss[k])
      ensures inv(ss[k + 1])
    {
      StallGoesOn(ss, steps, size, ss[m], k);
    }
    StaysTrue(inv, ss, m, n);
  }

  /**
   A stall is permanent. Over every run, once the system is blocked, whatever the clocks, the
   connection, the codecs and the client do: no acknowledgement is recorded any more, no frame is
   published any more, and every frame sent, after one that was already chosen, lies within the
   window; once the frame counter is there, it is the last frame of the window, again and again.
   */
  lemma StallIsForever(ss: seq<System>, steps: seq<Step>, size: FrameSize, m: nat, n: nat)
    requires Run(ss, steps, size) && InHorizon(ss) && m <= n < |ss| && Blocked(ss[m])
    ensures NoProgress(ss[m], ss[n])
  {
    RunSound(ss, steps, size, m);
    RunIsLinked(ss, steps, size);
    StallLasts(ss, steps, size, m, n);
  }

  // ----- runs that stall --------------------------------------------------------------------------------

  /** Frame `f` is chosen before there is a window, and acknowledged before its send time is stored. */
  lemma StallHost(h: Host, f: u64, t: int)
    requires h == Host(1, Span(1), true, false, 0, map[0 := 0]) && 3 <= f <= 5 && t == Span(f)
    ensures Chosen(h, t, t) == Host(f, t, true, false, 0, map[0 := 0])
    ensures AckHandled(Host(f, t, true, false, 0, map[0 := 0]), 0) == Host(f, t, true, true, 0, map[])
    ensures AckHandled(Host(f, t, true, true, 0, map[]), f) == Host(f, t, true, true, 0, map[])
    ensures Recorded(Host(f, t, true, true, 0, map[]), t) == Host(f + 1, Span(f + 1), true, true, 0, map[f := t])
  {
    assert FramesIn(Span(f) - Span(1)) == f - 1;
    assert Recent(h.sendTimes - {0}, 0) == map[] && Recent(map[], f) == map[];
  }

  /** Frame 0 goes round; frame `f` is chosen, the acknowledgement of frame 0 recorded, and frame `f` sent. */
  lemma WindowFills(size: FrameSize, f: u64) returns (tr: Trace)
    requires size.width != 0 && size.height != 0 && 3 <= f <= 5
    ensures IsTrace(tr, size) && Now(tr) == Span(f) && |tr.steps| == 7
    ensures !tr.ss[4].host.hasAck && tr.ss[5].phase != Idle && tr.ss[6].phase != Idle
    ensures Last(tr) == INIT.(host := Host(f, Span(f), true, true, 0, map[]), phase := Unrecorded, frames := [f],
                              sent := [Sent(0, false), Sent(f, false)], recorded := [0],
                              decoder := Last(tr).decoder, received := Some(0))
    ensures PublishedLast(Last(tr).decoder, 0, size)
  {
    var first := FirstFrame(size);
    StallHost(Last(first).host, f, Span(f));
    var chosen := Chooses(first, size, Span(f));
    var handled := Handles(chosen, size);
    tr := Transmits(handled, size);
    assert tr.ss[4] == Last(first) && tr.ss[5] == Last(chosen) && tr.ss[6] == Last(handled);
  }

  /** The acknowledgement of frame `f` overtakes the storing of its send time, and is ignored. */
  lemma AckIsIgnored(tr: Trace, f: u64, size: FrameSize) returns (r: Trace)
    requires size.width != 0 && size.height != 0 && 3 <= f <= 5 && IsTrace(tr, size) && Now(tr) == Span(f)
    requires Last(tr).host == Host(f, Span(f), true, true, 0, map[]) && Last(tr).phase == Unrecorded
    requires Last(tr).frames == [f] && Last(tr).acks == [] && PublishedLast(Last(tr).decoder, 0, size)
    ensures IsTrace(r, size) && Now(r) == Span(f) && |r.steps| == |tr.steps| + 3 && tr.ss <= r.ss
    ensures r.ss[|tr.ss|].phase != Idle && r.ss[|tr.ss| + 1].phase != Idle && PublishedLast(Last(r).decoder, f, size)
    ensures Last(r) == Last(tr).(host := Host(f + 1, Span(f + 1), true, true, 0, map[f := Span(f)]), phase := Idle,
                                 frames := [], decoder := Last(r).decoder, received := Some(f))
  {
    StallHost(Host(1, Span(1), true, false, 0, map[0 := 0]), f, Span(f));
    var arrived := FrameArrives(tr, 0, size);
    var handled := Handles(arrived, size);
    r := Records(handled, size);
    assert r.ss[|tr.ss|] == Last(arrived) && r.ss[|tr.ss| + 1] == Last(handled);
  }

  /** Frame 3, sent `k` times. */
  function Copies(k: nat): (sent: seq<Sent>)
    ensures |sent| == k && forall i :: 0 <= i < k ==> sent[i] == Sent(3, true)
  {
    seq(k, _ => Sent(3, true))
  }

  /** When the next frame is due, the counter is clamped back to frame 3, which goes out. */
  lemma ResendHost(h: Host, f: u64, due: int)
    requires h == Host(f, due, true, true, 0, h.sendTimes) && f >= 4
    ensures Chosen(h, due, due) == Host(3, due, true, true, 0, h.sendTimes)
    ensures Recorded(Host(3, due, true, true, 0, h.sendTimes), due)
         == Host(4, due + Span(1), true, true, 0, h.sendTimes[3 := due])
  {
  }

  lemma ResendOnce(tr: Trace, f: u64, due: int, size: FrameSize) returns (r: Trace)
    requires IsTrace(tr, size) && Now(tr) <= due && Last(tr).phase == Idle && f >= 4
    requires Last(tr).host == Host(f, due, true, true, 0, Last(tr).host.sendTimes)
    ensures IsTrace(r, size) && Now(r) == due && |r.steps| == |tr.steps| + 3 && tr.ss <= r.ss && Last(r).phase == Idle
    ensures Last(r).host == Host(4, due + Span(1), true, true, 0, Last(r).host.sendTimes)
    ensures Last(r).sent == Last(tr).sent + [Sent(3, true)]
  {
    ResendHost(Last(tr).host, f, due);
    r := Chooses(tr, size, due);
    r := Transmits(r, size);
    r := Records(r, size);
  }

  lemma {:induction false} Resend(tr: Trace, f: u64, due: int, k: nat, size: FrameSize) returns (r: Trace)
    requires IsTrace(tr, size) && Now(tr) <= due && Last(tr).phase == Idle && f >= 4
    requires Last(tr).host == Host(f, due, true, true, 0, Last(tr).host.sendTimes)
    ensures IsTrace(r, size) && |r.steps| == |tr.steps| + 3 * k && tr.ss <= r.ss
    ensures Last(r).sent == Last(tr).sent + Copies(k)
    decreases k
  {
    if k == 0 {
      r := tr;
    } else {
      r := ResendOnce(tr, f, due, size);
      r := Resend(r, 4, due + Span(1), k - 1, size);
      assert [Sent(3, true)] + Copies(k - 1) == Copies(k);
    }
  }

  lemma NothingNewerWasFed(calls: seq<Call>, p: u64)
    requires CallsUpTo(calls, Some(p))
    ensures NoneAbove(calls, p)
  {
  }

  lemma BlockedAfter(ss: seq<System>, steps: seq<Step>, size: FrameSize, n: nat, f: u64)
    requires Run(ss, steps, size) && InHorizon(ss) && n < |ss| && 3 <= f <= 5 && NeverDecreases(ss[n].sent)
    requires ss[n].host.hasAck && ss[n].host.latestAck == 0 && ss[n].acks == [] && ss[n].phase == Idle
    requires ss[n].host.videoFrame == f + 1 && ss[n].frames == [] && ss[n].received == Some(f)
    requires PublishedLast(ss[n].decoder, f, size)
    ensures Blocked(ss[n])
  {
    RunSafe(ss, steps, size, n);
    NothingNewerWasFed(ss[n].decoder.log.epoch.calls, f);
  }

  lemma {:induction false} NoAckBefore(ss: seq<System>, steps: seq<Step>, size: FrameSize, m: nat, n: nat)
    requires Run(ss, steps, size) && m <= n < |ss| && !ss[n].host.hasAck
    ensures !ss[m].host.hasAck
    decreases n
  {
    if m < n {
      assert Next(ss[n - 1], steps[n - 1], size, ss[n - 1 + 1]);
      NoAckBefore(ss, steps, size, m, n - 1);
    }
  }

  /** No frame is chosen under a window in the first ten steps, so the guard holds. */
  lemma GuardedSoFar(ss: seq<System>, steps: seq<Step>, size: FrameSize)
    requires Run(ss, steps, size) && |steps| >= 10 && !ss[4].host.hasAck
    requires forall i :: 5 <= i < 10 ==> ss[i].phase != Idle
    ensures forall i :: 0 <= i < 10 ==> GuardHolds(ss[i], steps[i])
  {
    forall i | 0 <= i < 10
      ensures GuardHolds(ss[i], steps[i])
    {
      if i <= 4 {
        NoAckBefore(ss, steps, size, i, 4);
      } else {
        assert ss[i].phase != Idle && Next(ss[i], steps[i], size, ss[i + 1]);
      }
    }
  }

  lemma PhasesOf(filled: Trace, tr: Trace)
    requires |filled.ss| == 8 && |tr.ss| == 11 && filled.ss <= tr.ss
    requires filled.ss[5].phase != Idle && filled.ss[6].phase != Idle && Last(filled).phase != Idle
    requires tr.ss[8].phase != Idle && tr.ss[9].phase != Idle
    ensures tr.ss[4] == filled.ss[4] && forall i :: 5 <= i < 10 ==> tr.ss[i].phase != Idle
  {
    assert tr.ss[4] == filled.ss[4] && tr.ss[5] == filled.ss[5] && tr.ss[6] == filled.ss[6] && tr.ss[7] == Last(filled);
  }

  /** The ten steps that end in a stall. */
  lemma Stalls(size: FrameSize, f: u64) returns (tr: Trace)
    requires size.width != 0 && size.height != 0 && 3 <= f <= 5
    ensures IsTrace(tr, size) && Now(tr) == Span(f) && |tr.steps| == 10
    ensures !tr.ss[4].host.hasAck && forall i :: 5 <= i < 10 ==> tr.ss[i].phase != Idle
    ensures Last(tr) == INIT.(host := Host(f + 1, Span(f + 1), true, true, 0, map[f := Span(f)]),
                              sent := [Sent(0, false), Sent(f, false)], recorded := [0],
                              decoder := Last(tr).decoder, received := Some(f))
    ensures PublishedLast(Last(tr).decoder, f, size)
  {
    var filled := WindowFills(size, f);
    tr := AckIsIgnored(filled, f, size);
    PhasesOf(filled, tr);
  }

  /**
   The stall needs no loss at all: in these complete runs every send succeeds, every acknowledgement
   goes out, the connection stays, the clock runs and the guard holds at every choice up to the stall,
   and yet the system is blocked after ten steps, because the acknowledgement of frame `f` is handled
   before its send time is stored. Frame 3 is then sent `k` more times, for every `k`. For `f` 4 and 5
   the published frame lies above the window, and frame 3 is below it.
   */
  lemma StallNeedsNoLoss(size: FrameSize, f: u64, k: nat) returns (ss: seq<System>, steps: seq<Step>)
    requires size.width != 0 && size.height != 0 && 3 <= f <= 5
    ensures Run(ss, steps, size) && InHorizon(ss) && NothingLost(steps) && ClockRuns(steps) && |steps| == 10 + 3 * k
    ensures Blocked(ss[10]) && ss[10].decoder.stream.lastPublished == f && ss[10].host.latestAck == 0
    ensures forall i :: 0 <= i < 10 ==> GuardHolds(ss[i], steps[i])
    ensures ss[|steps|].sent == [Sent(0, false), Sent(f, false)] + Copies(k)
  {
    var stalled := Stalls(size, f);
    var tr := Resend(stalled, f + 1, Span(f + 1), k, size);
    TraceIsRun(tr, size);
    ss, steps := tr.ss, tr.steps;
    assert ss[10] == Last(stalled) && forall i :: 0 <= i < 10 ==> ss[i] == stalled.ss[i];
    BlockedAfter(ss, steps, size, 10, f);
    GuardedSoFar(ss, steps, size);
  }
}
