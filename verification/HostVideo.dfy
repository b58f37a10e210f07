/**
 The host's video thread and its acknowledgement handler: which frame is sent next, when,
 and what is remembered about frames already sent.
 */
module HostVideo {
  import opened Wire

  /**
   The time `frames` frames take, at `1000000000 / 30` nanoseconds each: the loader's rate is 30
   frames per second.
   */
  function Span(frames: int): (t: int) {
    frames * 33_333_333
  }

  /** How many whole frame intervals fit into a duration. */
  function FramesIn(duration: nat): (n: nat)
    ensures Span(n) <= duration < Span(n + 1)
  {
    duration / 33_333_333
  }

  const WINDOW: nat := 3
  const KEEP: nat := 300

  /** The thread's locals, and the globals guarded by `g_video_stats_mutex`. */
  datatype Host = Host(videoFrame: u64, nextFrameTime: int, started: bool,
                       hasAck: bool, latestAck: u64, sendTimes: map<u64, int>)

  const START := Host(0, 0, false, false, 0, map[])

  /** 64-bit unsigned addition. */
  function Add64(x: u64, n: nat): (r: u64) {
    (x + n) % TWO64
  }

  /** The frames whose time has passed; none while the thread is at most one interval late. */
  function Missed(h: Host, now: int): (n: nat) {
    if h.started && now > h.nextFrameTime + Span(1) then FramesIn(now - h.nextFrameTime) else 0
  }

  /** Skip the missed frames. */
  function CatchUp(h: Host, now: int): (r: Host) {
    h.(videoFrame := Add64(h.videoFrame, Missed(h, now)), nextFrameTime := h.nextFrameTime + Span(Missed(h, now)))
  }

  predicate ClampFires(h: Host) {
    h.hasAck && h.videoFrame > Add64(h.latestAck, WINDOW)
  }

  /** Never run more than three frames ahead of the latest acknowledgement. */
  function Clamp(h: Host, now: int): (r: Host) {
    if ClampFires(h) then h.(videoFrame := Add64(h.latestAck, WINDOW), nextFrameTime := now) else h
  }

  /** The frame chosen for the next send. */
  function Chosen(h: Host, now: int, clampNow: int): (r: Host) {
    Clamp(CatchUp(h, now), clampNow)
  }

  /** After a successful send: the first one starts the clock. */
  function SendSucceeded(h: Host, now: int): (r: Host) {
    if h.started then h else h.(started := true, nextFrameTime := now)
  }

  function SendFailed(h: Host, now: int): (r: Host) {
    h.(started := false, nextFrameTime := now)
  }

  /** The send time is stored and the next frame is due one interval later. */
  function Recorded(h: Host, time: int): (r: Host) {
    h.(sendTimes := h.sendTimes[h.videoFrame := time], videoFrame := Add64(h.videoFrame, 1),
       nextFrameTime := h.nextFrameTime + Span(1))
  }

  /** Send times not older than 300 frames before `frame`. */
  function Recent(m: map<u64, int>, frame: u64): (r: map<u64, int>) {
    map f | f in m && !(Add64(f, KEEP) < frame) :: m[f]
  }

  /** `handleStatsPayload` on a `video_ack` for `frame`: it counts only when the frame's send time is known. */
  function AckHandled(h: Host, frame: u64): (r: Host) {
    if frame in h.sendTimes then
      h.(hasAck := true, latestAck := frame, sendTimes := Recent(h.sendTimes - {frame}, frame))
    else h.(sendTimes := Recent(h.sendTimes, frame))
  }

  /** Acknowledgements handled one after the other. */
  function Acknowledged(h: Host, frames: seq<u64>): (r: Host)
    decreases |frames|
  {
    if frames == [] then h else AckHandled(Acknowledged(h, frames[..|frames| - 1]), frames[|frames| - 1])
  }

  /**
   One turn of the loop: its clock readings, whether the send succeeds, and the acknowledgements
   that arrive between choice and send, between send and record, and after that.
   */
  datatype Turn = Turn(now: int, clampNow: int, beforeSend: seq<u64>, sent: bool, after: int,
                       beforeRecord: seq<u64>, time: int, atRest: seq<u64>)

  function TurnTaken(h: Host, t: Turn): (r: Host) {
    var c := Acknowledged(Chosen(h, t.now, t.clampNow), t.beforeSend);
    var s := Acknowledged(if t.sent then SendSucceeded(c, t.after) else SendFailed(c, t.after), t.beforeRecord);
    Acknowledged(if t.sent then Recorded(s, t.time) else s, t.atRest)
  }

  function AfterTurns(h: Host, turns: seq<Turn>): (r: Host)
    decreases |turns|
  {
    if turns == [] then h else TurnTaken(AfterTurns(h, turns[..|turns| - 1]), turns[|turns| - 1])
  }

  /** The frame chosen in turn `i`. */
  function ChosenAt(h: Host, turns: seq<Turn>, i: nat): (frame: u64)
    requires i < |turns|
  {
    Chosen(AfterTurns(h, turns[..i]), turns[i].now, turns[i].clampNow).videoFrame
  }

  /** The turn neither clamps nor (re)starts the clock, and the frame counter does not wrap. */
  predicate Smooth(h: Host, t: Turn) {
    h.started && t.sent && !ClampFires(CatchUp(h, t.now)) && h.videoFrame + Missed(h, t.now) + 1 < TWO64
  }

  /** The due time moves by one interval per frame. */
  predicate Paced(h: Host, r: Host) {
    r.nextFrameTime - h.nextFrameTime == Span(r.videoFrame - h.videoFrame)
  }

  predicate AllSmooth(h: Host, turns: seq<Turn>) {
    forall i :: 0 <= i < |turns| ==> Smooth(AfterTurns(h, turns[..i]), turns[i])
  }

  /** The frame the turn chooses; after any acknowledgement it is at most three past the one read under the lock. */
  predicate ChosenInWindow(h: Host, t: Turn, frame: u64) {
    frame == Chosen(h, t.now, t.clampNow).videoFrame && (h.hasAck ==> frame <= Add64(h.latestAck, WINDOW))
  }

  /** The frames are those chosen in the first turns. */
  predicate AreChosen(h: Host, turns: seq<Turn>, frames: seq<u64>) {
    |frames| <= |turns| && forall k :: 0 <= k < |frames| ==> frames[k] == ChosenAt(h, turns, k)
  }

  lemma OneMoreFrame(h: Host, turns: seq<Turn>, frames: seq<u64>, frame: u64)
    requires AreChosen(h, turns, frames) && |frames| < |turns| && frame == ChosenAt(h, turns, |frames|)
    ensures AreChosen(h, turns, frames + [frame])
  {
  }

  class VideoThread {
    var h: Host

    constructor ()
      ensures h == START
    {
      h := START;
    }

    /** The top of the loop: catch up, then clamp under the lock. */
    method ChooseFrame(now: int, clampNow: int) returns (frame: u64)
      modifies this
      ensures h == Chosen(old(h), now, clampNow) && frame == h.videoFrame
    {
      if h.started && now > h.nextFrameTime + Span(1) {
        var missed := FramesIn(now - h.nextFrameTime);
        h := h.(videoFrame := (h.videoFrame + missed) % TWO64);
        h := h.(nextFrameTime := h.nextFrameTime + Span(missed));
      }
      if h.hasAck && h.videoFrame > (h.latestAck + WINDOW) % TWO64 {
        h := h.(videoFrame := (h.latestAck + WINDOW) % TWO64);
        h := h.(nextFrameTime := clampNow);
      }
      return h.videoFrame;
    }

    /** After `send` returned: a first success starts the clock, a failure stops it. */
    method SendReturned(sent: bool, now: int)
      modifies this
      ensures h == if sent then SendSucceeded(old(h), now) else SendFailed(old(h), now)
    {
      if sent {
        if !h.started {
          h := h.(started := true, nextFrameTime := now);
        }
      } else {
        h := h.(started := false, nextFrameTime := now);
      }
    }

    /** The second lock section, and the step to the next frame. */
    method RecordSend(time: int)
      modifies this
      ensures h == Recorded(old(h), time)
    {
      h := h.(sendTimes := h.sendTimes[h.videoFrame := time]);
      h := h.(videoFrame := (h.videoFrame + 1) % TWO64);
      h := h.(nextFrameTime := h.nextFrameTime + Span(1));
    }

    /** `handleStatsPayload`, with the erasing loop in any order. */
    method HandleAck(frame: u64) returns (found: bool)
      modifies this
      ensures h == AckHandled(old(h), frame) && (found <==> frame in old(h).sendTimes)
    {
      found := frame in h.sendTimes;
      if found {
        h := h.(sendTimes := h.sendTimes - {frame}, hasAck := true, latestAck := frame);
      }
      ghost var before := h.sendTimes;
      var rest := h.sendTimes.Keys;
      while rest != {}
        invariant rest <= before.Keys
        invariant h.(sendTimes := map[])
               == (if found then old(h).(hasAck := true, latestAck := frame) else old(h)).(sendTimes := map[])
        invariant h.sendTimes == map f | f in before && (f in rest || !(Add64(f, KEEP) < frame)) :: before[f]
        decreases rest
      {
        var f: u64 :| f in rest;
        rest := rest - {f};
        if (f + KEEP) % TWO64 < frame {
          h := h.(sendTimes := h.sendTimes - {f});
        }
      }
    }

    /** Acknowledgements that arrive in one gap between the thread's lock sections. */
    method HandleAcks(frames: seq<u64>)
      modifies this
      ensures h == Acknowledged(old(h), frames)
    {
      for i := 0 to |frames|
        invariant h == Acknowledged(old(h), frames[..i])
      {
        assert frames[..i + 1][..i] == frames[..i];
        var found := HandleAck(frames[i]);
      }
      assert frames[..|frames|] == frames;
    }

    /** One turn of the loop, with acknowledgements in every gap. */
    method TakeTurn(t: Turn) returns (frame: u64)
      modifies this
      ensures h == TurnTaken(old(h), t) && frame == Chosen(old(h), t.now, t.clampNow).videoFrame
    {
      frame := ChooseFrame(t.now, t.clampNow);
      HandleAcks(t.beforeSend);
      SendReturned(t.sent, t.after);
      HandleAcks(t.beforeRecord);
      if t.sent {
        RecordSend(t.time);
      }
      HandleAcks(t.atRest);
    }

    /**
     The thread's loop over any number of turns. Every chosen frame lies within the window read at
     its choice, and between clamps and restarts the due time moves by exactly one interval per
     frame, sent or skipped, wherever the acknowledgements arrive.
     */
    method StreamLoop(turns: seq<Turn>) returns (frames: seq<u64>)
      modifies this
      ensures h == AfterTurns(old(h), turns) && |frames| == |turns|
      ensures forall i :: 0 <= i < |turns| ==> ChosenInWindow(AfterTurns(old(h), turns[..i]), turns[i], frames[i])
      ensures AllSmooth(old(h), turns) ==> Paced(old(h), h)
    {
      frames := [];
      assert turns[..0] == [];
      for i := 0 to |turns|
        invariant h == AfterTurns(old(h), turns[..i])
        invariant |frames| == i && AreChosen(old(h), turns, frames)
      {
        OneMoreTurn(old(h), turns, i);
        var frame := TakeTurn(turns[i]);
        OneMoreFrame(old(h), turns, frames, frame);
        frames := frames + [frame];
      }
      assert turns[..|turns|] == turns;
      WindowAtTurns(old(h), turns, frames);
      if AllSmooth(old(h), turns) {
        PacingOverTurns(old(h), turns, |turns|);
      }
    }
  }

  // ----- pacing and window arithmetic ---------------------------------------------------------

  /**
   Catching up leaves the due time at most one interval behind `now`, and, once it skips, not
   ahead of it; frame counter and due time move together.
   */
  lemma CatchUpPaces(h: Host, now: int)
    ensures var r, missed := CatchUp(h, now), Missed(h, now);
            && (h.started ==> now <= r.nextFrameTime + Span(1))
            && (missed > 0 ==> r.nextFrameTime <= now < r.nextFrameTime + Span(1))
            && (h.videoFrame + missed < TWO64 ==>
                r.nextFrameTime - h.nextFrameTime == Span(r.videoFrame - h.videoFrame))
  {
  }

  /** After any acknowledgement, the chosen frame is at most three past the one read under the lock. */
  lemma ChosenWithinWindow(h: Host, now: int, clampNow: int)
    ensures h.hasAck ==> Chosen(h, now, clampNow).videoFrame <= Add64(h.latestAck, WINDOW)
    ensures Chosen(h, now, clampNow).latestAck == h.latestAck && Chosen(h, now, clampNow).hasAck == h.hasAck
    ensures Chosen(h, now, clampNow) == CatchUp(h, now) || Chosen(h, now, clampNow).nextFrameTime == clampNow
  {
  }

  /**
   Frame `f` is not older than 300 frames before `frame`, in 64-bit arithmetic: near 2^64 the bound
   wraps to `f + 300 - 2^64`.
   */
  predicate IsRecent(f: u64, frame: u64) {
    f + KEEP >= frame + if f + KEEP < TWO64 then 0 else TWO64
  }

  /** A handled acknowledgement leaves exactly the recent send times but its own, and counts iff its own was there. */
  lemma AckKeepsRecent(h: Host, frame: u64)
    ensures var r := AckHandled(h, frame);
            && (forall f :: f in r.sendTimes <==> f in h.sendTimes && f != frame && IsRecent(f, frame))
            && (forall f :: f in r.sendTimes ==> r.sendTimes[f] == h.sendTimes[f])
            && (if frame in h.sendTimes then r.hasAck && r.latestAck == frame
                else r.hasAck == h.hasAck && r.latestAck == h.latestAck)
  {
  }

  /** Acknowledgements touch neither the frame counter nor the clock. */
  lemma {:induction false} AcknowledgedKeepsPace(h: Host, frames: seq<u64>)
    ensures var r := Acknowledged(h, frames);
            r.videoFrame == h.videoFrame && r.nextFrameTime == h.nextFrameTime && r.started == h.started
    decreases |frames|
  {
    if frames != [] {
      AcknowledgedKeepsPace(h, frames[..|frames| - 1]);
    }
  }

  lemma SmoothTurnPaces(h: Host, t: Turn)
    requires Smooth(h, t)
    ensures Paced(h, TurnTaken(h, t))
  {
    var chosen := Chosen(h, t.now, t.clampNow);
    AcknowledgedKeepsPace(chosen, t.beforeSend);
    var c := Acknowledged(chosen, t.beforeSend);
    AcknowledgedKeepsPace(SendSucceeded(c, t.after), t.beforeRecord);
    var s := Acknowledged(SendSucceeded(c, t.after), t.beforeRecord);
    AcknowledgedKeepsPace(Recorded(s, t.time), t.atRest);
  }

  lemma PacedChain(a: Host, b: Host, c: Host)
    requires Paced(a, b) && Paced(b, c)
    ensures Paced(a, c)
  {
  }

  lemma OneMoreTurn(h: Host, turns: seq<Turn>, n: nat)
    requires n < |turns|
    ensures AfterTurns(h, turns[..n + 1]) == TurnTaken(AfterTurns(h, turns[..n]), turns[n])
  {
    assert turns[..n + 1][..n] == turns[..n];
  }

  /** Between clamps and restarts, time advances by exactly one interval per frame, sent or skipped. */
  lemma {:induction false} PacingOverTurns(h: Host, turns: seq<Turn>, n: nat)
    requires n <= |turns| && forall i :: 0 <= i < n ==> Smooth(AfterTurns(h, turns[..i]), turns[i])
    ensures Paced(h, AfterTurns(h, turns[..n]))
  {
    if n == 0 {
      assert turns[..0] == [];
    } else {
      var before, after := AfterTurns(h, turns[..n - 1]), AfterTurns(h, turns[..n]);
      PacingOverTurns(h, turns, n - 1);
      assert Paced(before, after) by {
        OneMoreTurn(h, turns, n - 1);
        SmoothTurnPaces(before, turns[n - 1]);
      }
      PacedChain(h, before, after);
    }
  }

  /** An interval is a thirtieth of a second, rounded down to nanoseconds. */
  lemma IntervalIsAThirtieth(frames: int)
    ensures 30 * Span(1) <= 1_000_000_000 < 30 * (Span(1) + 1)
    ensures Span(frames) == frames * Span(1)
  {
  }

  lemma SmoothTurnAdvances(h: Host, t: Turn)
    requires Smooth(h, t)
    ensures TurnTaken(h, t).videoFrame == h.videoFrame + Missed(h, t.now) + 1
  {
    var chosen := Chosen(h, t.now, t.clampNow);
    AcknowledgedKeepsPace(chosen, t.beforeSend);
    var c := Acknowledged(chosen, t.beforeSend);
    AcknowledgedKeepsPace(SendSucceeded(c, t.after), t.beforeRecord);
    var s := Acknowledged(SendSucceeded(c, t.after), t.beforeRecord);
    AcknowledgedKeepsPace(Recorded(s, t.time), t.atRest);
  }

  lemma {:induction false} SmoothTurnsAdvance(h: Host, turns: seq<Turn>, n: nat)
    requires n <= |turns| && forall i :: 0 <= i < n ==> Smooth(AfterTurns(h, turns[..i]), turns[i])
    ensures AfterTurns(h, turns[..n]).videoFrame >= h.videoFrame + n
  {
    if n == 0 {
      assert turns[..0] == [];
    } else {
      SmoothTurnsAdvance(h, turns, n - 1);
      OneMoreTurn(h, turns, n - 1);
      SmoothTurnAdvances(AfterTurns(h, turns[..n - 1]), turns[n - 1]);
    }
  }

  /**
   The rate: over `n` turns without a clamp or restart at least `n` frames are used up, and for every
   30 of them the due time moves on by one second, less than a nanosecond a frame short of it.
   */
  lemma ThirtyFramesASecond(h: Host, turns: seq<Turn>, n: nat)
    requires n <= |turns| && forall i :: 0 <= i < n ==> Smooth(AfterTurns(h, turns[..i]), turns[i])
    ensures var r := AfterTurns(h, turns[..n]);
            var frames, time := r.videoFrame - h.videoFrame, r.nextFrameTime - h.nextFrameTime;
            && frames >= n && 30 * time <= 1_000_000_000 * frames
            && (n > 0 ==> 1_000_000_000 * frames < 30 * (time + frames))
  {
    var r := AfterTurns(h, turns[..n]);
    PacingOverTurns(h, turns, n);
    SmoothTurnsAdvance(h, turns, n);
    IntervalIsAThirtieth(r.videoFrame - h.videoFrame);
  }

  /**
   A failed send stops the clock, and the next one that succeeds starts it again at its own time,
   whatever was due and whatever acknowledgements come in between.
   */
  lemma SendRestartsTheClock(h: Host, t: Turn)
    ensures !t.sent ==> !TurnTaken(h, t).started
    ensures t.sent ==> TurnTaken(h, t).started
    ensures t.sent && !h.started ==> TurnTaken(h, t).nextFrameTime == t.after + Span(1)
    ensures !h.started ==> Missed(h, t.now) == 0
  {
    var chosen := Chosen(h, t.now, t.clampNow);
    AcknowledgedKeepsPace(chosen, t.beforeSend);
    var c := Acknowledged(chosen, t.beforeSend);
    var d := if t.sent then SendSucceeded(c, t.after) else SendFailed(c, t.after);
    AcknowledgedKeepsPace(d, t.beforeRecord);
    var s := Acknowledged(d, t.beforeRecord);
    AcknowledgedKeepsPace(if t.sent then Recorded(s, t.time) else s, t.atRest);
  }

  /** Every chosen frame lies within the window of its turn. */
  lemma WindowAtTurns(h: Host, turns: seq<Turn>, frames: seq<u64>)
    requires |frames| == |turns| && AreChosen(h, turns, frames)
    ensures forall i :: 0 <= i < |turns| ==> ChosenInWindow(AfterTurns(h, turns[..i]), turns[i], frames[i])
  {
    forall i | 0 <= i < |turns|
      ensures ChosenInWindow(AfterTurns(h, turns[..i]), turns[i], frames[i])
    {
      assert frames[i] == ChosenAt(h, turns, i);
      ChosenWithinWindow(AfterTurns(h, turns[..i]), turns[i].now, turns[i].clampNow);
    }
  }
}
