/**
 `H264AnnexBDecoder` on its surface path: two codecs fed in step, their shown frames paired
 by index, and an acknowledgement for every published pair. Codecs, surfaces and clocks are
 nondeterministic: an `Env` says how they answer during one call of `decode`.
 */
module VideoDecoder {
  import opened Bytes
  import opened Wire
  import opened SurfaceDrain

  datatype Ack = Ack(frame: u64, latencyNs: int)

  /** One call of `decode` that reached the codecs: which of them took the frame, and when it arrived. */
  datatype Call = Call(frame: u64, left: bool, right: bool, time: int)

  /** What happened since the last `stop()`. */
  datatype Epoch = Epoch(calls: seq<Call>, leftShown: set<u64>, rightShown: set<u64>, published: seq<u64>)

  const NEW_EPOCH := Epoch([], {}, {}, [])

  /** Codecs, windows and the size they were made for. */
  datatype Resources = Resources(left: Option<Codec>, right: Option<Codec>, leftWindow: bool, rightWindow: bool,
                                 surfaceOutput: bool, width: u32, height: u32)

  /** The fields that `resetStreamState()` clears. */
  datatype Stream = Stream(leftReady: map<u64, bool>, rightReady: map<u64, bool>, receiveTime: map<u64, int>,
                           lastPublished: u64, hasPublished: bool, latencyNs: int, pendingAcks: seq<Ack>)

  /** Bookkeeping for the proofs: windows taken and given back, the current epoch, every frame ever published. */
  datatype Log = Log(acquired: nat, released: nat, epoch: Epoch, history: seq<u64>)

  datatype State = State(res: Resources, stream: Stream, log: Log)

  const NO_RESOURCES := Resources(None, None, false, false, false, 0, 0)
  const EMPTY_STREAM := Stream(map[], map[], map[], 0, false, 0, [])
  const INITIAL := State(NO_RESOURCES, EMPTY_STREAM, Log(0, 0, NEW_EPOCH, []))

  datatype Env = Env(surfaces: bool, leftCreated: bool, rightCreated: bool,
                     leftInput: InputAnswer, rightInput: InputAnswer,
                     leftOutputs: seq<OutputAnswer>, rightOutputs: seq<OutputAnswer>,
                     receiveNow: int, publishNow: int)

  // ----- one call of decode, as functions -----------------------------------------------------

  function WindowsHeld(r: Resources): (n: nat) {
    (if r.leftWindow then 1 else 0) + (if r.rightWindow then 1 else 0)
  }

  /** `stop()` with `resetStreamState()`. */
  function Stopped(s: State): (r: State) {
    State(NO_RESOURCES, EMPTY_STREAM,
          Log(s.log.acquired, s.log.released + WindowsHeld(s.res), NEW_EPOCH, s.log.history))
  }

  /** The frame index fell back: the guard at the head of `decode`, in 64-bit arithmetic. */
  predicate Restarts(m: Stream, frame: u64) {
    m.hasPublished && (frame + 2) % TWO64 < m.lastPublished
  }

  predicate WellSized(h: VideoFrameHeader) {
    h.width != 0 && h.height != 0 && h.leftPayloadSize != 0 && h.rightPayloadSize != 0
  }

  predicate Running(r: Resources, h: VideoFrameHeader) {
    r.left.Some? && r.right.Some? && r.width == h.width && r.height == h.height
  }

  /** The windows taken and the codecs created on them, as far as creation succeeded. */
  function Opened(h: VideoFrameHeader, env: Env): (r: Resources) {
    var blank := Codec(h.width, h.height, []);
    Resources(if env.leftCreated then Some(blank) else None, if env.rightCreated then Some(blank) else None,
              true, true, true, h.width, h.height)
  }

  /** `ensureStarted`: the state afterwards; it succeeded iff the header is usable and both codecs run at its size. */
  function Started(s: State, h: VideoFrameHeader, env: Env): (r: State) {
    if !WellSized(h) || Running(s.res, h) then s
    else
      var idle := Stopped(s);
      if !env.surfaces then idle.(res := NO_RESOURCES.(width := h.width, height := h.height))
      else
        var open := idle.(res := Opened(h, env), log := idle.log.(acquired := idle.log.acquired + 2));
        if env.leftCreated && env.rightCreated then open else Stopped(open)
  }

  /** The head of `decode`: restart if the index fell back, then make sure the codecs run. */
  function Readied(s: State, h: VideoFrameHeader, env: Env): (r: State) {
    Started(if Restarts(s.stream, h.frameIndex) then Stopped(s) else s, h, env)
  }

  function CallOf(h: VideoFrameHeader, env: Env): (c: Call) {
    Call(h.frameIndex, Accepts(env.leftInput, h.leftPayloadSize), Accepts(env.rightInput, h.rightPayloadSize),
         env.receiveNow)
  }

  /** Both access units offered to the codecs; the receive time is kept when both took theirs. */
  function Fed(s: State, c: Call): (r: State) {
    s.(stream := if c.left && c.right then s.stream.(receiveTime := s.stream.receiveTime[c.frame := c.time])
                 else s.stream,
       log := s.log.(epoch := s.log.epoch.(calls := s.log.epoch.calls + [c])))
  }

  function ToSet(frames: seq<u64>): (r: set<u64>) {
    set f | f in frames
  }

  function Mark(ready: map<u64, bool>, frames: seq<u64>): (r: map<u64, bool>) {
    ready + map f | f in frames :: true
  }

  lemma MarkOne(ready: map<u64, bool>, frames: seq<u64>, f: u64)
    ensures Mark(ready, frames + [f]) == Mark(ready, frames)[f := true]
  {
  }

  function AfterDrain(codec: Option<Codec>, outputs: seq<OutputAnswer>): (r: Option<Codec>) {
    match codec
    case None => None
    case Some(c) =>
      var buffers := Dequeued(outputs, DRAIN_LIMIT);
      Some(c.(released := c.released + Releases(buffers, Latest(buffers))))
  }

  /** The frames `l` and `r` that the two codecs showed, marked ready. */
  function Marked(s: State, l: seq<u64>, r: seq<u64>): (t: State) {
    s.(stream := s.stream.(leftReady := Mark(s.stream.leftReady, l), rightReady := Mark(s.stream.rightReady, r)),
       log := s.log.(epoch := s.log.epoch.(leftShown := s.log.epoch.leftShown + ToSet(l),
                                           rightShown := s.log.epoch.rightShown + ToSet(r))))
  }

  /** Both codecs drained. */
  function Gathered(s: State, env: Env): (r: State) {
    Marked(s.(res := s.res.(left := AfterDrain(s.res.left, env.leftOutputs),
                            right := AfterDrain(s.res.right, env.rightOutputs))),
           Drained(env.leftOutputs), Drained(env.rightOutputs))
  }

  /** Both eyes showed it and it is newer than what was published. */
  predicate IsCandidate(m: Stream, f: u64) {
    && f in m.leftReady && m.leftReady[f] && f in m.rightReady && m.rightReady[f]
    && !(m.hasPublished && f <= m.lastPublished)
  }

  /** The largest candidate, if there is one. */
  ghost predicate IsChoice(m: Stream, r: Option<u64>) {
    match r
    case None => forall f :: f in m.leftReady ==> !IsCandidate(m, f)
    case Some(g) => IsCandidate(m, g) && forall f :: f in m.leftReady && IsCandidate(m, f) ==> f <= g
  }

  function EraseUpTo<T>(m: map<u64, T>, bound: u64): (r: map<u64, T>) {
    map f | f in m && f > bound :: m[f]
  }

  /** `frame` published, acknowledged, and everything up to it forgotten. */
  function PublishedStream(m: Stream, frame: u64, now: int): (r: Stream) {
    var latency := if frame in m.receiveTime then now - m.receiveTime[frame] else m.latencyNs;
    Stream(EraseUpTo(m.leftReady, frame), EraseUpTo(m.rightReady, frame), EraseUpTo(m.receiveTime, frame),
           frame, true, latency, m.pendingAcks + [Ack(frame, latency)])
  }

  function Publish(s: State, frame: u64, now: int): (r: State) {
    s.(stream := PublishedStream(s.stream, frame, now),
       log := s.log.(epoch := s.log.epoch.(published := s.log.epoch.published + [frame]),
                     history := s.log.history + [frame]))
  }

  /** The tail of `decode`: publish the chosen frame, if any. */
  function Closed(s: State, choice: Option<u64>, now: int): (r: State) {
    match choice case None => s case Some(f) => Publish(s, f, now)
  }

  /** The state in which a call that got through to the codecs looks for a frame to publish. */
  function BeforePublish(s: State, h: VideoFrameHeader, env: Env): (r: State) {
    Gathered(Fed(Readied(s, h, env), CallOf(h, env)), env)
  }

  predicate ReachesCodecs(s: State, h: VideoFrameHeader, env: Env) {
    WellSized(h) && Running(Readied(s, h, env).res, h)
  }

  /** `decode`: a step from `s` to `r`. */
  ghost predicate Decodes(s: State, h: VideoFrameHeader, env: Env, r: State) {
    if !ReachesCodecs(s, h, env) then r == Readied(s, h, env)
    else
      var b := BeforePublish(s, h, env);
      exists choice :: IsChoice(b.stream, choice) && r == Closed(b, choice, env.publishNow)
  }

  /** A codec was made for the size that is remembered. */
  predicate MadeFor(codec: Option<Codec>, width: u32, height: u32) {
    codec.Some? ==> codec.value.width == width && codec.value.height == height
  }

  /**
   Codecs and windows come in pairs, the surface flag is up exactly while they exist, the codecs were
   made for the size remembered, and the windows held are those acquired and not yet given back.
   */
  predicate Coherent(s: State) {
    && (s.res.left.Some? <==> s.res.right.Some?) && (s.res.left.Some? <==> s.res.leftWindow)
    && (s.res.leftWindow <==> s.res.rightWindow) && (s.res.surfaceOutput <==> s.res.leftWindow)
    && MadeFor(s.res.left, s.res.width, s.res.height) && MadeFor(s.res.right, s.res.width, s.res.height)
    && s.log.acquired == s.log.released + WindowsHeld(s.res)
  }

  lemma ReadiedIsCoherent(s: State, h: VideoFrameHeader, env: Env)
    requires Coherent(s)
    ensures Coherent(Readied(s, h, env))
  {
  }

  /** From a coherent state, a call that reaches the codecs finds the surface flag up: the CPU branch is never taken. */
  lemma SurfaceBranchOnly(s: State, h: VideoFrameHeader, env: Env)
    requires Coherent(s) && ReachesCodecs(s, h, env)
    ensures Readied(s, h, env).res.surfaceOutput && BeforePublish(s, h, env).res.surfaceOutput
  {
    ReadiedIsCoherent(s, h, env);
  }

  /** Both codecs run at `width` x `height`. */
  predicate BothRunAt(r: Resources, width: u32, height: u32) {
    && r.left.Some? && r.left.value.width == width && r.left.value.height == height
    && r.right.Some? && r.right.value.width == width && r.right.value.height == height
  }

  /**
   What `ensureStarted` leaves. A header without a size or with an empty eye changes nothing, nor does
   one of the size at which both codecs run. Any other stops the decoder: its windows are given back,
   its stream is forgotten, and the codecs are made anew at the new size, or not at all.
   */
  lemma StartedAtSize(s: State, h: VideoFrameHeader, env: Env)
    requires Coherent(s)
    ensures h.width == 0 || h.height == 0 || h.leftPayloadSize == 0 || h.rightPayloadSize == 0 ==>
              Started(s, h, env) == s
    ensures BothRunAt(s.res, h.width, h.height) ==> Started(s, h, env) == s
    ensures !BothRunAt(s.res, h.width, h.height)
            && h.width != 0 && h.height != 0 && h.leftPayloadSize != 0 && h.rightPayloadSize != 0 ==>
              var r := Started(s, h, env);
              && r.stream == EMPTY_STREAM && r.log.epoch == NEW_EPOCH && r.log.history == s.log.history
              && r.log.acquired == s.log.acquired + (if env.surfaces then 2 else 0)
              && r.log.acquired == r.log.released + WindowsHeld(r.res)
              && (if env.surfaces && env.leftCreated && env.rightCreated then BothRunAt(r.res, h.width, h.height)
                  else r.res.left == None && r.res.right == None && WindowsHeld(r.res) == 0)
  {
  }

  /** Exactly when a call of `decode` gets through to the codecs, and that both then run at the size of its header. */
  lemma ReachesAtSize(s: State, h: VideoFrameHeader, env: Env)
    requires Coherent(s)
    ensures ReachesCodecs(s, h, env) <==>
              && h.width != 0 && h.height != 0 && h.leftPayloadSize != 0 && h.rightPayloadSize != 0
              && ((BothRunAt(s.res, h.width, h.height)
                   && !(s.stream.hasPublished && (h.frameIndex + 2) % TWO64 < s.stream.lastPublished))
                  || (env.surfaces && env.leftCreated && env.rightCreated))
    ensures ReachesCodecs(s, h, env) ==>
              BothRunAt(Readied(s, h, env).res, h.width, h.height)
              && BothRunAt(BeforePublish(s, h, env).res, h.width, h.height)
  {
    var idle := if Restarts(s.stream, h.frameIndex) then Stopped(s) else s;
    StartedAtSize(idle, h, env);
  }

  /** The codec took the access unit: an input buffer came, it was large enough, and queueing it succeeded. */
  predicate Took(answer: InputAnswer, payloadSize: nat) {
    match answer
    case NoInput => false
    case InputFailed => false
    case InputBuffer(capacity, queued) => payloadSize <= capacity && queued
  }

  /** What the two input answers do: the receive time is stored, over an earlier one, iff both codecs took theirs. */
  lemma AnswersDecide(s: State, h: VideoFrameHeader, env: Env)
    requires Coherent(s) && ReachesCodecs(s, h, env)
    ensures var c := CallOf(h, env);
            && c.frame == h.frameIndex && c.time == env.receiveNow
            && (c.left <==> Took(env.leftInput, h.leftPayloadSize))
            && (c.right <==> Took(env.rightInput, h.rightPayloadSize))
    ensures BeforePublish(s, h, env).stream.receiveTime
         == if Took(env.leftInput, h.leftPayloadSize) && Took(env.rightInput, h.rightPayloadSize)
            then Readied(s, h, env).stream.receiveTime[h.frameIndex := env.receiveNow]
            else Readied(s, h, env).stream.receiveTime
  {
    ReachesAtSize(s, h, env);
  }

  // ----- the class ------------------------------------------------------------------------------

  class H264AnnexBDecoder {
    var res: Resources
    var stream: Stream
    ghost var log: Log

    ghost function Abs(): (s: State) reads this {
      State(res, stream, log)
    }

    constructor ()
      ensures Abs() == INITIAL
    {
      res, stream, log := NO_RESOURCES, EMPTY_STREAM, Log(0, 0, NEW_EPOCH, []);
    }

    method Stop()
      modifies this
      ensures Abs() == Stopped(old(Abs()))
    {
      log := log.(released := log.released + WindowsHeld(res), epoch := NEW_EPOCH);
      res := NO_RESOURCES;
      stream := EMPTY_STREAM;
    }

    method EnsureStarted(h: VideoFrameHeader, env: Env) returns (ok: bool)
      modifies this
      ensures Abs() == Started(old(Abs()), h, env)
      ensures ok <==>
                && h.width != 0 && h.height != 0 && h.leftPayloadSize != 0 && h.rightPayloadSize != 0
                && res.left.Some? && res.right.Some? && res.width == h.width && res.height == h.height
      ensures Coherent(old(Abs())) && ok ==> BothRunAt(res, h.width, h.height)
      ensures Coherent(old(Abs())) && BothRunAt(old(res), h.width, h.height) ==> Abs() == old(Abs())
      ensures Coherent(old(Abs())) && !BothRunAt(old(res), h.width, h.height) && ok ==>
                stream == EMPTY_STREAM && log.epoch == NEW_EPOCH && log.acquired == old(log.acquired) + 2
                && log.released == old(log.released) + WindowsHeld(old(res))
    {
      if h.width == 0 || h.height == 0 || h.leftPayloadSize == 0 || h.rightPayloadSize == 0 {
        return false;
      }
      if res.left.Some? && res.right.Some? && res.width == h.width && res.height == h.height {
        return true;
      }
      Stop();
      res := res.(width := h.width, height := h.height);
      if !env.surfaces {
        return false;
      }
      res := res.(leftWindow := true, rightWindow := true, surfaceOutput := true);
      log := log.(acquired := log.acquired + 2);
      res := res.(left := if env.leftCreated then Some(Codec(res.width, res.height, [])) else None);
      res := res.(right := if env.rightCreated then Some(Codec(res.width, res.height, [])) else None);
      if res.left == None || res.right == None {
        Stop();
        return false;
      }
      return true;
    }

    /** `takeAcks`. */
    method TakeAcks() returns (acks: seq<Ack>)
      modifies this`stream
      ensures acks == old(stream.pendingAcks) && stream == old(stream).(pendingAcks := [])
    {
      acks := stream.pendingAcks;
      stream := stream.(pendingAcks := []);
    }

    /** Both access units into their codecs. */
    method FeedCodecs(h: VideoFrameHeader, env: Env) returns (bothQueued: bool)
      modifies this`stream, this`log
      ensures Abs() == Fed(old(Abs()), CallOf(h, env))
      ensures bothQueued == (CallOf(h, env).left && CallOf(h, env).right)
    {
      var leftQueued := Accepts(env.leftInput, h.leftPayloadSize);
      var rightQueued := Accepts(env.rightInput, h.rightPayloadSize);
      bothQueued := leftQueued && rightQueued;
      if bothQueued {
        stream := stream.(receiveTime := stream.receiveTime[h.frameIndex := env.receiveNow]);
      }
      log := log.(epoch := log.epoch.(calls := log.epoch.calls + [CallOf(h, env)]));
    }

    /** The loop that marks the shown frames of one eye. */
    method MarkReady(ready: map<u64, bool>, frames: seq<u64>) returns (r: map<u64, bool>)
      ensures r == Mark(ready, frames)
    {
      r := ready;
      for i := 0 to |frames|
        invariant r == Mark(ready, frames[..i])
      {
        assert frames[..i + 1] == frames[..i] + [frames[i]];
        MarkOne(ready, frames[..i], frames[i]);
        r := r[frames[i] := true];
      }
      assert frames[..|frames|] == frames;
    }

    method DrainCodecs(env: Env)
      requires res.left.Some? && res.right.Some?
      modifies this
      ensures Abs() == Gathered(old(Abs()), env)
    {
      var leftCodec, leftIndices := DrainSurfaceOutput(res.left.value, env.leftOutputs);
      var leftReady := MarkReady(stream.leftReady, leftIndices);
      var rightCodec, rightIndices := DrainSurfaceOutput(res.right.value, env.rightOutputs);
      var rightReady := MarkReady(stream.rightReady, rightIndices);
      res := res.(left := Some(leftCodec), right := Some(rightCodec));
      stream := stream.(leftReady := leftReady, rightReady := rightReady);
      log := log.(epoch := log.epoch.(leftShown := log.epoch.leftShown + ToSet(leftIndices),
                                      rightShown := log.epoch.rightShown + ToSet(rightIndices)));
    }

    /** The loop over the left ready map, in any order. */
    method PickReady() returns (choice: Option<u64>)
      ensures IsChoice(stream, choice)
    {
      choice := None;
      var rest := stream.leftReady.Keys;
      while rest != {}
        invariant rest <= stream.leftReady.Keys
        invariant choice.Some? ==> IsCandidate(stream, choice.value)
        invariant forall f :: f in stream.leftReady.Keys - rest && IsCandidate(stream, f) ==>
                  choice.Some? && f <= choice.value
        decreases rest
      {
        var f: u64 :| f in rest;
        rest := rest - {f};
        if !stream.leftReady[f] || (stream.hasPublished && f <= stream.lastPublished) {
          continue;
        }
        if f !in stream.rightReady || !stream.rightReady[f] {
          continue;
        }
        if choice == None || f > choice.value {
          choice := Some(f);
        }
      }
    }

    /** An erasing loop, in any order. */
    method Erase<T>(m: map<u64, T>, bound: u64) returns (r: map<u64, T>)
      ensures r == EraseUpTo(m, bound)
    {
      r := m;
      var rest := m.Keys;
      while rest != {}
        invariant rest <= m.Keys
        invariant r == map f | f in m && (f in rest || f > bound) :: m[f]
        decreases rest
      {
        var f: u64 :| f in rest;
        rest := rest - {f};
        if f <= bound {
          r := r - {f};
        }
      }
    }

    method PublishFrame(frame: u64, now: int)
      modifies this`stream, this`log
      ensures Abs() == Publish(old(Abs()), frame, now)
    {
      if frame in stream.receiveTime {
        stream := stream.(latencyNs := now - stream.receiveTime[frame]);
      }
      stream := stream.(pendingAcks := stream.pendingAcks + [Ack(frame, stream.latencyNs)],
                        lastPublished := frame, hasPublished := true);
      var leftReady := Erase(stream.leftReady, frame);
      var rightReady := Erase(stream.rightReady, frame);
      var receiveTime := Erase(stream.receiveTime, frame);
      stream := stream.(leftReady := leftReady, rightReady := rightReady, receiveTime := receiveTime);
      log := log.(epoch := log.epoch.(published := log.epoch.published + [frame]), history := log.history + [frame]);
    }

    /** `decode`. The CPU branch that follows the surface branch is not taken, by `SurfaceBranchOnly`. */
    method Decode(h: VideoFrameHeader, env: Env) returns (ok: bool)
      requires Coherent(Abs())
      modifies this
      ensures Decodes(old(Abs()), h, env, Abs())
      ensures ok <==> ReachesCodecs(old(Abs()), h, env)
                      && Took(env.leftInput, h.leftPayloadSize) && Took(env.rightInput, h.rightPayloadSize)
      ensures ReachesCodecs(old(Abs()), h, env) ==> BothRunAt(res, h.width, h.height)
    {
      ghost var start := Abs();
      if ReachesCodecs(start, h, env) {
        ReachesAtSize(start, h, env);
        AnswersDecide(start, h, env);
      }
      if stream.hasPublished && (h.frameIndex + 2) % TWO64 < stream.lastPublished {
        Stop();
      }
      var started := EnsureStarted(h, env);
      assert Abs() == Readied(old(Abs()), h, env);
      if !started {
        return false;
      }
      ok := FeedCodecs(h, env);
      assert res.surfaceOutput by { SurfaceBranchOnly(old(Abs()), h, env); }
      DrainCodecs(env);
      ghost var before := Abs();
      assert before == BeforePublish(old(Abs()), h, env);
      var choice := PickReady();
      if choice.Some? {
        PublishFrame(choice.value, env.publishNow);
      }
      assert Abs() == Closed(before, choice, env.publishNow);
    }
  }
}
