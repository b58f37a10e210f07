/**
 When sent frame indices never decrease: a guard that can be read before each choice, and what
 follows when it fails.
 */
module StreamGuard {
  import opened Wire
  import opened HostVideo
  import opened StreamProtocol

  /** Until a frame was sent under a window: when one is chosen under it, no frame above `latestAck + 3` is out. */
  predicate GuardHolds(s: System, step: Step) {
    step.Choose? && s.host.hasAck && !AnyWindowed(s.sent) ==> LastFrame(s.sent) <= s.host.latestAck + WINDOW
  }

  /** Before the first windowed send the frame counter is not below the last frame sent. */
  predicate CounterAhead(s: System) {
    !AnyWindowed(s.sent) ==> LastFrame(s.sent) <= s.host.videoFrame
  }

  lemma AppendAhead(sent: seq<Sent>, x: Sent)
    requires WindowOpensAhead(sent) && (!AnyWindowed(sent) ==> LastFrame(sent) <= x.frame)
    ensures WindowOpensAhead(sent + [x])
  {
    var longer := sent + [x];
    assert forall j :: 0 <= j < |sent| ==> sent[j] == longer[j];
    forall i | 0 < i < |longer| && longer[i].windowed && (forall j :: 0 <= j < i ==> !longer[j].windowed)
      ensures longer[i - 1].frame <= longer[i].frame
    {
      if i < |sent| {
        assert sent[i].windowed;
        assert forall j :: 0 <= j < i ==> sent[j] == longer[j];
      }
    }
  }

  lemma ChooseKeepsAhead(s: System, size: FrameSize, now: int, clampNow: int, t: System)
    requires SysInv(s, size) && CounterAhead(s) && GuardHolds(s, Choose(now, clampNow))
    requires Next(s, Choose(now, clampNow), size, t) && s.host.videoFrame < TWO63
    ensures CounterAhead(t)
  {
    if s.host.hasAck {
      LatestAckBounded(s, size);
    }
    assert Missed(s.host, now) < TWO63;
    assert CatchUp(s.host, now).videoFrame == s.host.videoFrame + Missed(s.host, now);
  }

  lemma StepKeepsAhead(s: System, step: Step, size: FrameSize, t: System)
    requires SysInv(s, size) && CounterAhead(s) && WindowOpensAhead(s.sent) && GuardHolds(s, step)
    requires Next(s, step, size, t) && s.host.videoFrame < TWO63
    ensures CounterAhead(t) && WindowOpensAhead(t.sent)
  {
    if step.Choose? {
      ChooseKeepsAhead(s, size, step.now, step.clampNow, t);
    } else if step.Transmit? && step.ok {
      AppendAhead(s.sent, Sent(s.host.videoFrame, s.phase.windowed));
      AppendSent(s.sent, Sent(s.host.videoFrame, s.phase.windowed));
    }
  }

  /** While the guard holds at every choice, the invariants of host, channels and decoder hold. */
  lemma {:induction false} GuardedRunIsSafe(ss: seq<System>, steps: seq<Step>, size: FrameSize, n: nat)
    requires Run(ss, steps, size) && InHorizon(ss) && n < |ss|
    requires forall i :: 0 <= i < n ==> GuardHolds(ss[i], steps[i])
    ensures SysInv(ss[n], size) && CounterAhead(ss[n]) && WindowOpensAhead(ss[n].sent)
  {
    if n == 0 {
      InitSafe(size);
    } else {
      GuardedRunIsSafe(ss, steps, size, n - 1);
      assert Next(ss[n - 1], steps[n - 1], size, ss[n - 1 + 1]);
      StepKeepsAhead(ss[n - 1], steps[n - 1], size, ss[n]);
      StepSafe(ss[n - 1], steps[n - 1], size, ss[n]);
    }
  }

  // ----- an unguarded choice ------------------------------------------------------------------------

  /** Consecutive sent indices grow by at least `gap`. */
  predicate Spaced(sent: seq<Sent>, gap: nat) {
    forall i :: 0 < i < |sent| ==> sent[i - 1].frame + gap <= sent[i].frame
  }

  /** The next send, whenever it succeeds, is not `gap` above the last one. */
  predicate Behind(s: System, gap: nat) {
    && s.sent != [] && s.host.videoFrame < LastFrame(s.sent) + gap
    && (s.phase.Ready? || (s.phase == Idle && !s.host.started))
  }

  lemma UnguardedIsBehind(s: System, step: Step, size: FrameSize, t: System)
    requires Next(s, step, size, t) && !GuardHolds(s, step)
    ensures Behind(t, 0)
  {
    ChosenWithinWindow(s.host, step.now, step.clampNow);
  }

  predicate SendSucceeds(step: Step) {
    step.Transmit? && step.ok
  }

  /** Nothing but a successful send ends it: a failed one stops the clock, so that no frame is skipped. */
  lemma BehindStays(s: System, step: Step, size: FrameSize, t: System, gap: nat)
    requires Next(s, step, size, t) && Behind(s, gap) && !SendSucceeds(step)
    ensures Behind(t, gap)
  {
  }

  lemma BehindSends(s: System, step: Step, size: FrameSize, t: System, gap: nat)
    requires Next(s, step, size, t) && Behind(s, gap) && SendSucceeds(step)
    ensures !Spaced(t.sent, gap)
  {
    var n := |s.sent|;
    assert t.sent[n].frame < t.sent[n - 1].frame + gap;
  }

  /** What was sent stays sent; without a successful send nothing is added. */
  lemma SentExtends(s: System, step: Step, size: FrameSize, t: System, gap: nat)
    requires Next(s, step, size, t)
    ensures !Spaced(s.sent, gap) ==> !Spaced(t.sent, gap)
    ensures !SendSucceeds(step) ==> t.sent == s.sent
  {
    if SendSucceeds(step) && !Spaced(s.sent, gap) {
      var i :| 0 < i < |s.sent| && s.sent[i - 1].frame + gap > s.sent[i].frame;
      assert t.sent[i - 1] == s.sent[i - 1] && t.sent[i] == s.sent[i];
    }
  }

  /** Some send after step `i` and before step `n` succeeds. */
  predicate SendsBetween(steps: seq<Step>, i: nat, n: nat)
    requires n <= |steps|
  {
    exists j :: i < j < n && SendSucceeds(steps[j])
  }

  /** After step `i` left the host behind: an index too small, or no successful send yet. */
  lemma {:induction false} BehindOutcome(ss: seq<System>, steps: seq<Step>, size: FrameSize, gap: nat, i: nat, n: nat)
    requires Run(ss, steps, size) && i < n < |ss| && Behind(ss[i + 1], gap)
    ensures if SendsBetween(steps, i, n) then !Spaced(ss[n].sent, gap) else Behind(ss[n], gap)
    decreases n
  {
    assert Next(ss[n - 1], steps[n - 1], size, ss[n - 1 + 1]);
    if n > i + 1 {
      BehindOutcome(ss, steps, size, gap, i, n - 1);
      SentExtends(ss[n - 1], steps[n - 1], size, ss[n], gap);
      if SendsBetween(steps, i, n - 1) {
        var j :| i < j < n - 1 && SendSucceeds(steps[j]);
        assert i < j < n && SendSucceeds(steps[j]);
      } else if SendSucceeds(steps[n - 1]) {
        BehindSends(ss[n - 1], steps[n - 1], size, ss[n], gap);
      } else {
        BehindStays(ss[n - 1], steps[n - 1], size, ss[n], gap);
      }
    }
  }

  /** After an unguarded choice: an index that decreases, or no successful send yet. */
  lemma UnguardedOutcome(ss: seq<System>, steps: seq<Step>, size: FrameSize, i: nat, n: nat)
    requires Run(ss, steps, size) && i < n < |ss| && !GuardHolds(ss[i], steps[i])
    ensures if SendsBetween(steps, i, n) then !NeverDecreases(ss[n].sent) else Behind(ss[n], 0)
  {
    assert Next(ss[i], steps[i], size, ss[i + 1]);
    UnguardedIsBehind(ss[i], steps[i], size, ss[i + 1]);
    BehindOutcome(ss, steps, size, 0, i, n);
  }

  lemma {:induction false} NothingSent(ss: seq<System>, steps: seq<Step>, size: FrameSize, i: nat, n: nat)
    requires Run(ss, steps, size) && i < n < |ss| && !SendSucceeds(steps[i]) && !SendsBetween(steps, i, n)
    ensures ss[n].sent == ss[i].sent
    decreases n
  {
    assert Next(ss[n - 1], steps[n - 1], size, ss[n - 1 + 1]);
    SentExtends(ss[n - 1], steps[n - 1], size, ss[n], 0);
    if i < n - 1 {
      assert !SendsBetween(steps, i, n - 1) && !SendSucceeds(steps[n - 1]);
      NothingSent(ss, steps, size, i, n - 1);
    }
  }

  /** The first choice among the first `n` steps at which the guard fails, or `n`. */
  function FirstUnguarded(ss: seq<System>, steps: seq<Step>, n: nat): (k: nat)
    requires n <= |ss| && n <= |steps|
    ensures k <= n && (forall i :: 0 <= i < k ==> GuardHolds(ss[i], steps[i]))
    ensures k < n ==> !GuardHolds(ss[k], steps[k])
  {
    if n == 0 then 0
    else
      var k := FirstUnguarded(ss, steps, n - 1);
      if k < n - 1 || !GuardHolds(ss[n - 1], steps[n - 1]) then k else n
  }

  /** No send succeeds after a choice at which the guard failed. */
  predicate OnlyGuardedSends(ss: seq<System>, steps: seq<Step>, n: nat)
    requires n <= |ss| && n <= |steps|
  {
    forall i :: 0 <= i < n && !GuardHolds(ss[i], steps[i]) ==> !SendsBetween(steps, i, n)
  }

  lemma GuardedMeansNoDecrease(ss: seq<System>, steps: seq<Step>, size: FrameSize, n: nat)
    requires Run(ss, steps, size) && InHorizon(ss) && n < |ss| && OnlyGuardedSends(ss, steps, n)
    ensures NeverDecreases(ss[n].sent)
  {
    var k := FirstUnguarded(ss, steps, n);
    assert NeverDecreases(ss[k].sent) by {
      GuardedRunIsSafe(ss, steps, size, k);
    }
    if k < n {
      assert ss[n].sent == ss[k].sent by {
        NothingSent(ss, steps, size, k, n);
      }
    }
  }

  /**
   The exact condition, readable before each choice: over every run, sent indices never decrease
   if and only if no send succeeds after a choice made, for the first time under a window, while
   a frame above `latestAck + 3` was already out. And then recorded acknowledgements and published
   frames strictly increase and the decoder's index-jump restart never fires.
   */
  lemma GuardDecides(ss: seq<System>, steps: seq<Step>, size: FrameSize, n: nat)
    requires Run(ss, steps, size) && InHorizon(ss) && n < |ss|
    ensures NeverDecreases(ss[n].sent) <==> OnlyGuardedSends(ss, steps, n)
    ensures OnlyGuardedSends(ss, steps, n) ==> DownstreamSafe(ss[n])
  {
    if OnlyGuardedSends(ss, steps, n) {
      GuardedMeansNoDecrease(ss, steps, size, n);
      HostDecoderSafety(ss, steps, size, n);
    } else {
      var i :| 0 <= i < n && !GuardHolds(ss[i], steps[i]) && SendsBetween(steps, i, n);
      UnguardedOutcome(ss, steps, size, i, n);
    }
  }
}
