/**
 What the window does not prevent: an acknowledgement recorded between choice and send, and the
 decoder restart that can follow.
 */
module StreamRaces {
  import opened Bytes
  import opened Wire
  import opened VideoDecoder
  import opened StereoPublishing
  import opened HostVideo
  import opened StreamProtocol

  /**
   Why the guard has to be read at the choice and not at the acknowledgement: when `a` is recorded
   while frame `a + 3` or a later one is already chosen but not yet sent, the frame chosen after
   it is `a + 3`, whatever the clocks say. So it is below the one just sent iff that is above
   `a + 3`, although every frame sent before may have been within `a + 3`.
   */
  lemma AckBetweenChoiceAndSend(h: Host, a: u64, sendTime: int, recordTime: int, now: int, clampNow: int)
    requires a in h.sendTimes && a + WINDOW <= h.videoFrame < TWO63
    requires now - Recorded(SendSucceeded(AckHandled(h, a), sendTime), recordTime).nextFrameTime < TWO63
    ensures Chosen(Recorded(SendSucceeded(AckHandled(h, a), sendTime), recordTime), now, clampNow).videoFrame
         == a + WINDOW
  {
    var after := Recorded(SendSucceeded(AckHandled(h, a), sendTime), recordTime);
    ClampsToWindow(after, now, clampNow);
  }

  /** A counter past the window is set back to its end, unless it wraps. */
  lemma ClampsToWindow(h: Host, now: int, clampNow: int)
    requires h.hasAck && h.latestAck + WINDOW < h.videoFrame <= TWO63 && now - h.nextFrameTime < TWO63
    ensures Chosen(h, now, clampNow).videoFrame == h.latestAck + WINDOW
  {
    var missed := Missed(h, now);
    assert missed < TWO63 && h.videoFrame + missed < TWO64;
    assert CatchUp(h, now).videoFrame == h.videoFrame + missed;
    assert ClampFires(CatchUp(h, now));
  }

  // ----- putting runs together ------------------------------------------------------------------------

  /** Each state follows from the one before it. */
  ghost predicate Linked<S(!new), T(!new)>(rel: (S, T, S) -> bool, ss: seq<S>, steps: seq<T>) {
    |ss| == |steps| + 1 && forall i :: 0 <= i < |steps| ==> rel(ss[i], steps[i], ss[i + 1])
  }

  lemma Append<S(!new), T(!new)>(rel: (S, T, S) -> bool, ss: seq<S>, steps: seq<T>, step: T, t: S)
    requires Linked(rel, ss, steps) && rel(ss[|steps|], step, t)
    ensures Linked(rel, ss + [t], steps + [step])
  {
  }

  ghost function NextOf(size: FrameSize): (rel: (System, Step, System) -> bool) {
    (s, step, t) => Next(s, step, size, t)
  }

  lemma RunIsLinked(ss: seq<System>, steps: seq<Step>, size: FrameSize)
    requires Run(ss, steps, size)
    ensures Linked(NextOf(size), ss, steps)
  {
  }

  /** Nothing is lost in this step: the send succeeds, the acknowledgement goes out, the connection stays. */
  predicate Lossless(step: Step) {
    match step
    case Transmit(ok, _) => ok
    case Receive(_, _, sendable) => sendable
    case Disconnect(_, _) => false
    case _ => true
  }

  predicate NothingLost(steps: seq<Step>) {
    forall i :: 0 <= i < |steps| ==> Lossless(steps[i])
  }

  /** The step reads the host's clock, if at all, between the times `a` and `b`. */
  predicate ReadBetween(a: int, step: Step, b: int) {
    match step
    case Choose(now, clampNow) => a <= now <= clampNow <= b
    case Transmit(_, now) => a <= now <= b
    case Record(time) => a <= time <= b
    case _ => a <= b
  }

  ghost function OnClock(): (rel: (int, Step, int) -> bool) {
    (a, step, b) => ReadBetween(a, step, b)
  }

  /** The host's clock never goes back. */
  ghost predicate ClockRuns(steps: seq<Step>) {
    exists clock: seq<int> :: Linked(OnClock(), clock, steps)
  }

  /**
   A run so far, without losses: its states within the frame counter's horizon, its steps, and the
   times between them.
   */
  datatype Trace = Trace(ss: seq<System>, steps: seq<Step>, clock: seq<int>)

  ghost predicate IsTrace(tr: Trace, size: FrameSize) {
    && Linked(NextOf(size), tr.ss, tr.steps) && tr.ss[0] == INIT && InHorizon(tr.ss) && NothingLost(tr.steps)
    && Linked(OnClock(), tr.clock, tr.steps)
  }

  /** The time reached. */
  function Now(tr: Trace): (t: int)
    requires |tr.clock| > 0
  {
    tr.clock[|tr.clock| - 1]
  }

  function Last(tr: Trace): (s: System)
    requires |tr.ss| > 0
  {
    tr.ss[|tr.ss| - 1]
  }

  function Extended(tr: Trace, step: Step, t: System, now: int): (r: Trace) {
    Trace(tr.ss + [t], tr.steps + [step], tr.clock + [now])
  }

  lemma Extends(tr: Trace, step: Step, size: FrameSize, t: System, now: int)
    requires IsTrace(tr, size) && Next(Last(tr), step, size, t) && t.host.videoFrame < TWO63
    requires Lossless(step) && ReadBetween(Now(tr), step, now)
    ensures var r := Extended(tr, step, t, now);
            IsTrace(r, size) && Last(r) == t && Now(r) == now && tr.ss <= r.ss && |r.steps| == |tr.steps| + 1
  {
    Append(NextOf(size), tr.ss, tr.steps, step, t);
    assert OnClock()(tr.clock[|tr.steps|], step, now);
    Append(OnClock(), tr.clock, tr.steps, step, now);
  }

  lemma TraceIsRun(tr: Trace, size: FrameSize)
    requires IsTrace(tr, size)
    ensures Run(tr.ss, tr.steps, size) && InHorizon(tr.ss) && NothingLost(tr.steps) && ClockRuns(tr.steps)
  {
    forall i | 0 <= i < |tr.steps|
      ensures Next(tr.ss[i], tr.steps[i], size, tr.ss[i + 1])
    {
      assert NextOf(size)(tr.ss[i], tr.steps[i], tr.ss[i + 1]);
    }
  }

  // ----- the single steps of a run ----------------------------------------------------------------------

  function AfterChoose(s: System, now: int): (t: System) {
    s.(host := Chosen(s.host, now, now), phase := Ready(s.host.hasAck))
  }

  function AfterTransmit(s: System, now: int): (t: System)
    requires s.phase.Ready?
  {
    s.(host := SendSucceeded(s.host, now), phase := Unrecorded, frames := s.frames + [s.host.videoFrame],
       sent := s.sent + [Sent(s.host.videoFrame, s.phase.windowed)])
  }

  function AfterRecord(s: System, now: int): (t: System) {
    s.(host := Recorded(s.host, now), phase := Idle)
  }

  function AfterAck(s: System): (t: System)
    requires s.acks != []
  {
    s.(host := AckHandled(s.host, s.acks[0]), acks := s.acks[1..],
       recorded := if s.acks[0] in s.host.sendTimes then s.recorded + [s.acks[0]] else s.recorded)
  }

  /** The video thread chooses a frame at time `now`. */
  lemma Chooses(tr: Trace, size: FrameSize, now: int) returns (r: Trace)
    requires IsTrace(tr, size) && Last(tr).phase == Idle && Now(tr) <= now < Last(tr).host.nextFrameTime + TWO63
    requires Chosen(Last(tr).host, now, now).videoFrame < TWO63
    ensures IsTrace(r, size) && Now(r) == now && tr.ss <= r.ss && |r.steps| == |tr.steps| + 1
    ensures Last(r) == AfterChoose(Last(tr), now)
  {
    Extends(tr, Choose(now, now), size, AfterChoose(Last(tr), now), now);
    r := Extended(tr, Choose(now, now), AfterChoose(Last(tr), now), now);
  }

  /** It sends the frame, at once. */
  lemma Transmits(tr: Trace, size: FrameSize) returns (r: Trace)
    requires IsTrace(tr, size) && Last(tr).phase.Ready? && Last(tr).host.videoFrame < TWO63
    ensures IsTrace(r, size) && Now(r) == Now(tr) && tr.ss <= r.ss && |r.steps| == |tr.steps| + 1
    ensures Last(r) == AfterTransmit(Last(tr), Now(tr))
  {
    Extends(tr, Transmit(true, Now(tr)), size, AfterTransmit(Last(tr), Now(tr)), Now(tr));
    r := Extended(tr, Transmit(true, Now(tr)), AfterTransmit(Last(tr), Now(tr)), Now(tr));
  }

  /** It stores the send time. */
  lemma Records(tr: Trace, size: FrameSize) returns (r: Trace)
    requires IsTrace(tr, size) && Last(tr).phase == Unrecorded && Last(tr).host.videoFrame + 1 < TWO63
    ensures IsTrace(r, size) && Now(r) == Now(tr) && tr.ss <= r.ss && |r.steps| == |tr.steps| + 1
    ensures Last(r) == AfterRecord(Last(tr), Now(tr))
  {
    Extends(tr, Record(Now(tr)), size, AfterRecord(Last(tr), Now(tr)), Now(tr));
    r := Extended(tr, Record(Now(tr)), AfterRecord(Last(tr), Now(tr)), Now(tr));
  }

  /** An acknowledgement is handled. */
  lemma Handles(tr: Trace, size: FrameSize) returns (r: Trace)
    requires IsTrace(tr, size) && Last(tr).acks != [] && Last(tr).host.videoFrame < TWO63
    ensures IsTrace(r, size) && Now(r) == Now(tr) && tr.ss <= r.ss && |r.steps| == |tr.steps| + 1
    ensures Last(r) == AfterAck(Last(tr))
  {
    Extends(tr, HandleAck, size, AfterAck(Last(tr)), Now(tr));
    r := Extended(tr, HandleAck, AfterAck(Last(tr)), Now(tr));
  }

  /** The header of frame `f`. */
  function HeaderOf(f: u64, size: FrameSize): (h: VideoFrameHeader) {
    VideoFrameHeader(2, 1, 0, f, 0, size.width, size.height, 10, 10)
  }

  /** The decoder published frame `f` last and has nothing half ready. */
  predicate PublishedLast(d: State, f: u64, size: FrameSize) {
    && Running(d.res, HeaderOf(f, size)) && d.stream.leftReady == map[] && d.stream.rightReady == map[]
    && d.stream.pendingAcks == [] && d.stream.hasPublished && d.stream.lastPublished == f
  }

  lemma OneAckFrame(frame: u64)
    ensures AckFrames([Ack(frame, 0)]) == [frame]
  {
    AckFramesSnoc([], Ack(frame, 0));
    assert [] + [Ack(frame, 0)] == [Ack(frame, 0)];
  }

  lemma ReceiveIsNext(s: System, h: VideoFrameHeader, env: Env, mid: State, size: FrameSize, t: System)
    requires s.frames != [] && s.frames[0] == h.frameIndex && h.width == size.width && h.height == size.height
    requires Decodes(s.decoder, h, env, mid) && HonestCodecs(BeforePublish(s.decoder, h, env), env)
    requires t == s.(frames := s.frames[1..], decoder := Taken(mid), received := Some(h.frameIndex),
                     acks := s.acks + AckFrames(mid.stream.pendingAcks))
    ensures Next(s, Receive(h, env, true), size, t)
  {
  }

  /** The next frame in flight goes straight through the decoder: on a fresh start, in sequence, or after a restart. */
  lemma ReceiveStep(s: System, size: FrameSize) returns (step: Step, t: System)
    requires size.width != 0 && size.height != 0 && s.frames != [] && s.frames[0] < TWO63
    requires Expecting(Readied(s.decoder, HeaderOf(s.frames[0], size), BothEyes(s.frames[0], 0)),
                       HeaderOf(s.frames[0], size))
    ensures Next(s, step, size, t) && Lossless(step)
    ensures t == s.(frames := s.frames[1..], decoder := t.decoder, received := Some(s.frames[0]),
                    acks := s.acks + [s.frames[0]])
    ensures PublishedLast(t.decoder, s.frames[0], size)
  {
    var h := HeaderOf(s.frames[0], size);
    var mid := StraightThrough(s.decoder, h, 0);
    OneAckFrame(h.frameIndex);
    step := Receive(h, BothEyes(h.frameIndex, 0), true);
    t := s.(frames := s.frames[1..], decoder := Taken(mid), received := Some(h.frameIndex),
            acks := s.acks + AckFrames(mid.stream.pendingAcks));
    ReceiveIsNext(s, h, step.env, mid, size, t);
  }

  /** A decoder that starts or restarts, or sees a newer frame of the same size, expects the frame. */
  lemma WhenExpecting(d: State, f: u64, g: u64, size: FrameSize)
    requires size.width != 0 && size.height != 0 && f < TWO63
    requires d == INITIAL || (PublishedLast(d, g, size) && (g < f || f + 2 < g))
    ensures Expecting(Readied(d, HeaderOf(f, size), BothEyes(f, 0)), HeaderOf(f, size))
  {
  }

  // ----- a choice just before the first acknowledgement ---------------------------------------------------

  lemma Beginning(s: System, size: FrameSize) returns (tr: Trace)
    requires s == INIT
    ensures IsTrace(tr, size) && Now(tr) == 0 && tr.steps == [] && Last(tr) == s
    ensures s.phase == Idle && !s.host.started && !s.host.hasAck && s.host.videoFrame == 0 && s.host.nextFrameTime == 0
  {
    tr := Trace([s], [], [0]);
  }

  /** Before the first send and acknowledgement, a choice changes nothing. */
  lemma NotStarted(h: Host, t: int)
    requires !h.started && !h.hasAck
    ensures Chosen(h, t, t) == h
  {
  }

  lemma FirstHost(h: Host, t: int)
    requires h == START && t == 0
    ensures SendSucceeded(h, t) == Host(0, 0, true, false, 0, map[])
    ensures Recorded(Host(0, 0, true, false, 0, map[]), t) == Host(1, Span(1), true, false, 0, map[0 := 0])
  {
  }

  /** The first choice of a run changes only the phase. */
  lemma FirstChosen(tr: Trace, size: FrameSize) returns (r: Trace)
    requires IsTrace(tr, size) && Now(tr) == 0 && Last(tr).phase == Idle
    requires var h := Last(tr).host; !h.started && !h.hasAck && h.videoFrame == 0 && h.nextFrameTime == 0
    ensures IsTrace(r, size) && Now(r) == 0 && |r.steps| == |tr.steps| + 1
            && Last(r) == Last(tr).(phase := Ready(false))
  {
    NotStarted(Last(tr).host, Now(tr));
    r := Chooses(tr, size, Now(tr));
  }

  /** Frame 0 is sent. */
  lemma FirstSent(tr: Trace, s: System, size: FrameSize) returns (r: Trace)
    requires s == INIT && IsTrace(tr, size) && Now(tr) == 0 && Last(tr) == s.(phase := Ready(false))
    ensures IsTrace(r, size) && Now(r) == 0 && |r.steps| == |tr.steps| + 2
    ensures Last(r) == s.(host := Host(1, Span(1), true, false, 0, map[0 := 0]), frames := [0],
                          sent := [Sent(0, false)])
  {
    FirstHost(s.host, Now(tr));
    r := Transmits(tr, size);
    r := Records(r, size);
  }

  lemma SendFirst(size: FrameSize) returns (tr: Trace)
    ensures IsTrace(tr, size) && Now(tr) == 0 && |tr.steps| == 3
    ensures Last(tr) == INIT.(host := Host(1, Span(1), true, false, 0, map[0 := 0]), frames := [0],
                              sent := [Sent(0, false)])
  {
    tr := Beginning(INIT, size);
    tr := FirstChosen(tr, size);
    tr := FirstSent(tr, INIT, size);
  }

  /** The next frame in flight is received and published. */
  lemma FrameArrives(tr: Trace, last: u64, size: FrameSize) returns (r: Trace)
    requires size.width != 0 && size.height != 0 && IsTrace(tr, size)
    requires Last(tr).frames != [] && Last(tr).frames[0] < TWO63 && Last(tr).host.videoFrame < TWO63
    requires || Last(tr).decoder == INITIAL
             || (PublishedLast(Last(tr).decoder, last, size)
                 && (last < Last(tr).frames[0] || Last(tr).frames[0] + 2 < last))
    ensures IsTrace(r, size) && Now(r) == Now(tr) && |r.steps| == |tr.steps| + 1 && tr.ss <= r.ss
    ensures PublishedLast(Last(r).decoder, Last(tr).frames[0], size)
    ensures Last(r) == Last(tr).(frames := Last(tr).frames[1..], acks := Last(tr).acks + [Last(tr).frames[0]],
                                 decoder := Last(r).decoder, received := Some(Last(tr).frames[0]))
  {
    WhenExpecting(Last(tr).decoder, Last(tr).frames[0], last, size);
    var step, t := ReceiveStep(Last(tr), size);
    Extends(tr, step, size, t, Now(tr));
    r := Extended(tr, step, t, Now(tr));
  }

  /** Frame 0 is sent, received, published and acknowledged. */
  lemma FirstFrame(size: FrameSize) returns (tr: Trace)
    requires size.width != 0 && size.height != 0
    ensures IsTrace(tr, size) && Now(tr) == 0 && |tr.steps| == 4
    ensures Last(tr) == INIT.(host := Host(1, Span(1), true, false, 0, map[0 := 0]), sent := [Sent(0, false)],
                              acks := [0], decoder := Last(tr).decoder, received := Some(0))
    ensures PublishedLast(Last(tr).decoder, 0, size)
  {
    var first := SendFirst(size);
    tr := FrameArrives(first, 0, size);
  }

  /** Woken up late, the thread skips from frame 1 to frame `k`; then the acknowledgement of frame 0 is recorded. */
  lemma LateHost(h: Host, k: u64, t: int)
    requires h == Host(1, Span(1), true, false, 0, map[0 := 0]) && 4 <= k && t == Span(k) < TWO63
    ensures Chosen(h, t, t) == Host(k, t, true, false, 0, map[0 := 0])
    ensures AckHandled(Host(k, t, true, false, 0, map[0 := 0]), 0) == Host(k, t, true, true, 0, map[])
    ensures Recorded(Host(k, t, true, true, 0, map[]), t) == Host(k + 1, Span(k + 1), true, true, 0, map[k := t])
    ensures Chosen(Host(k + 1, Span(k + 1), true, true, 0, map[k := t]), t, t) == Host(3, t, true, true, 0, map[k := t])
  {
    assert FramesIn(Span(k) - Span(1)) == k - 1;
    assert Recent(h.sendTimes - {0}, 0) == map[];
  }

  /** Frame `k` is chosen, the acknowledgement of frame 0 recorded, and frame `k` sent. */
  lemma LateChoice(tr: Trace, k: u64, size: FrameSize) returns (r: Trace)
    requires IsTrace(tr, size) && 4 <= k && Span(k) < TWO63 && Now(tr) == 0
    requires var s := Last(tr);
             && s.host == Host(1, Span(1), true, false, 0, map[0 := 0]) && s.phase == Idle
             && s.frames == [] && s.acks == [0] && s.sent == [Sent(0, false)] && s.recorded == []
    ensures IsTrace(r, size) && Now(r) == Span(k) && |r.steps| == |tr.steps| + 4 && tr.ss <= r.ss
    ensures r.ss[|tr.ss|].recorded == [] && r.ss[|tr.ss| + 1].recorded == [0]
            && r.ss[|tr.ss| + 1].sent == [Sent(0, false)]
    ensures Last(r) == Last(tr).(host := Host(k + 1, Span(k + 1), true, true, 0, map[k := Span(k)]), frames := [k],
                                 acks := [], recorded := [0], sent := [Sent(0, false), Sent(k, false)])
  {
    LateHost(Last(tr).host, k, Span(k));
    var chosen := Chooses(tr, size, Span(k));
    var handled := Handles(chosen, size);
    assert handled.ss[|tr.ss|] == Last(chosen) && handled.ss[|tr.ss| + 1] == Last(handled);
    r := Transmits(handled, size);
    r := Records(r, size);
  }

  /** The next frame chosen on time is clamped to frame 3, and sent. */
  lemma ClampedBack(tr: Trace, k: u64, size: FrameSize) returns (r: Trace)
    requires IsTrace(tr, size) && 4 <= k && Span(k) < TWO63 && Now(tr) == Span(k)
    requires Last(tr).host == Host(k + 1, Span(k + 1), true, true, 0, map[k := Span(k)]) && Last(tr).phase == Idle
    ensures IsTrace(r, size) && Now(r) == Span(k) && |r.steps| == |tr.steps| + 2 && tr.ss <= r.ss
    ensures Last(r) == Last(tr).(host := Host(3, Span(k), true, true, 0, map[k := Span(k)]), phase := Unrecorded,
                                 frames := Last(tr).frames + [3], sent := Last(tr).sent + [Sent(3, true)])
  {
    LateHost(Host(1, Span(1), true, false, 0, map[0 := 0]), k, Span(k));
    var chosen := Chooses(tr, size, Span(k));
    r := Transmits(chosen, size);
  }

  /** The run of the next two lemmas: frames 0, `k` and 3 go out. */
  lemma SkippedRun(size: FrameSize, k: u64) returns (tr: Trace)
    requires size.width != 0 && size.height != 0 && 4 <= k && Span(k) < TWO63
    ensures IsTrace(tr, size) && Now(tr) == Span(k) && |tr.steps| == 10
    ensures tr.ss[5].recorded == [] && tr.ss[6].recorded == [0] && tr.ss[6].sent == [Sent(0, false)]
    ensures Last(tr) == INIT.(host := Host(3, Span(k), true, true, 0, map[k := Span(k)]), phase := Unrecorded,
                              frames := [k, 3], sent := [Sent(0, false), Sent(k, false), Sent(3, true)],
                              recorded := [0], decoder := Last(tr).decoder, received := Some(0))
    ensures PublishedLast(Last(tr).decoder, 0, size)
  {
    var first := FirstFrame(size);
    var late := LateChoice(first, k, size);
    tr := ClampedBack(late, k, size);
    assert tr.ss[5] == late.ss[5] && tr.ss[6] == late.ss[6];
  }

  /**
   Whole runs in which that happens, one for every skip, with nothing lost and a clock that never
   goes back: when the first acknowledgement, of frame 0, is recorded, no frame above 0 + 3 was
   sent, and yet frame `k` goes out next and frame 3 after it.
   */
  lemma GuardAtAckIsNotEnough(size: FrameSize, k: u64) returns (ss: seq<System>, steps: seq<Step>)
    requires size.width != 0 && size.height != 0 && 4 <= k && Span(k) < TWO63
    ensures Run(ss, steps, size) && InHorizon(ss) && NothingLost(steps) && ClockRuns(steps) && |steps| == 10
    ensures ss[5].recorded == [] && ss[6].recorded == [0] && ss[6].sent == [Sent(0, false)]
    ensures ss[10].sent == [Sent(0, false), Sent(k, false), Sent(3, true)] && !NeverDecreases(ss[10].sent)
  {
    var tr := SkippedRun(size, k);
    TraceIsRun(tr, size);
    ss, steps := tr.ss, tr.steps;
    assert ss[10].sent[1].frame > ss[10].sent[2].frame;
  }

  // ----- and what it does to the decoder -----------------------------------------------------------------

  /** Frame `k` is received and published. */
  lemma SkippedFrameArrives(tr: Trace, k: u64, size: FrameSize) returns (r: Trace)
    requires size.width != 0 && size.height != 0 && 4 <= k && Span(k) < TWO63 && IsTrace(tr, size) && Now(tr) == Span(k)
    requires Last(tr).phase == Unrecorded && Last(tr).host == Host(3, Span(k), true, true, 0, map[k := Span(k)])
    requires Last(tr).frames == [k, 3] && Last(tr).acks == [] && PublishedLast(Last(tr).decoder, 0, size)
    ensures IsTrace(r, size) && |r.steps| == |tr.steps| + 2 && tr.ss <= r.ss
    ensures PublishedLast(Last(r).decoder, k, size)
    ensures Last(r) == Last(tr).(host := Host(4, Span(k + 1), true, true, 0, map[k := Span(k), 3 := Span(k)]),
                                 phase := Idle, frames := [3], acks := [k], decoder := Last(r).decoder,
                                          received := Some(k))
  {
    var recorded := Records(tr, size);
    r := FrameArrives(recorded, 0, size);
  }

  /** The send times kept when frame `k` is acknowledged: that of frame 3, unless it is too old. */
  function KeptTimes(k: u64, t: int): (times: map<u64, int>) {
    if k <= 3 + KEEP then map[3 := t] else map[]
  }

  lemma BothAcks(h: Host, k: u64, due: int, t: int)
    requires h == Host(4, due, true, true, 0, map[k := t, 3 := t]) && 6 <= k
    ensures AckHandled(h, k) == Host(4, due, true, true, k, KeptTimes(k, t))
    ensures AckHandled(Host(4, due, true, true, k, KeptTimes(k, t)), 3).videoFrame == 4
  {
    assert h.sendTimes - {k} == map[3 := t];
    assert Recent(map[3 := t], k) == KeptTimes(k, t);
  }

  /** The acknowledgements of `k` and 3 are handled. */
  lemma AcksGoBack(tr: Trace, k: u64, due: int, t: int, size: FrameSize) returns (r: Trace)
    requires 6 <= k && IsTrace(tr, size)
    requires Last(tr).host == Host(4, due, true, true, 0, map[k := t, 3 := t])
    requires Last(tr).acks == [k, 3] && Last(tr).recorded == [0]
    ensures IsTrace(r, size) && |r.steps| == |tr.steps| + 2 && tr.ss <= r.ss
    ensures Last(r).recorded == if k <= 3 + KEEP then [0, k, 3] else [0, k]
  {
    BothAcks(Last(tr).host, k, due, t);
    var once := Handles(tr, size);
    r := Handles(once, size);
  }

  lemma BackAgain(k: u64)
    requires 6 <= k
    ensures !Increasing([0, k, 3]) && Increasing([0, k])
  {
    assert [0, k, 3][1] > [0, k, 3][2];
  }

  /**
   The same race carried on, for every skip to a frame from 6 on: the decoder restarts on frame 3.
   The acknowledgement of frame 3 is recorded after that of frame `k`, so that recorded indices go
   down, iff frame 3 is at most 300 frames older and its send time is still kept.
   */
  lemma RaceRestartsDecoder(size: FrameSize, k: u64) returns (ss: seq<System>, steps: seq<Step>)
    requires size.width != 0 && size.height != 0 && 6 <= k && Span(k) < TWO63
    ensures Run(ss, steps, size) && InHorizon(ss) && NothingLost(steps) && ClockRuns(steps) && |steps| == 15
    ensures ss[12].frames == [3] && Restarts(ss[12].decoder.stream, 3)
    ensures ss[15].recorded == if k <= 3 + KEEP then [0, k, 3] else [0, k]
    ensures Increasing(ss[15].recorded) <==> k > 3 + KEEP
  {
    var skipped := SkippedRun(size, k);
    var arrived := SkippedFrameArrives(skipped, k, size);
    var restarted := FrameArrives(arrived, k, size);
    var tr := AcksGoBack(restarted, k, Span(k + 1), Span(k), size);
    TraceIsRun(tr, size);
    ss, steps := tr.ss, tr.steps;
    assert ss[12] == Last(arrived) && ss[15] == Last(tr);
    BackAgain(k);
  }
}
