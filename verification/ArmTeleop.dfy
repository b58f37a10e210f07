/**
 The clutched arm over the reals: what one controller sample does to the state of
 `QuestArmTeleop`, the action it yields, and what is conserved while the clutch is held.
 */
module ArmTeleop {
  import opened Bytes
  import opened NeutralFrame

  datatype ArmConfig = ArmConfig(
    clutchThreshold: real, gripperThreshold: real, positionDeadband: real, rotationDeadband: real,
    forwardSign: real, rightSign: real, upSign: real,
    positionGain: real, positionMax: real, rotationGain: real, rotationMax: real,
    maxAction: real, lockRotation: bool, invertGripper: bool)

  /** The divisors are not zero. */
  predicate Usable(cfg: ArmConfig) { cfg.positionMax != 0.0 && cfg.rotationMax != 0.0 }

  /** A controller sample, with the norm of its grip orientation. */
  datatype Controller = Controller(positionValid: bool, squeeze: real, trigger: real, reset: bool, position: Vec,
                                   quat: Quat, norm: real)

  /** The first seven entries of the action. */
  datatype Action = Action(position: Vec, rotation: Vec, grip: real)

  const NO_ACTION := Action(ZERO, ZERO, 0.0)

  /** What the position part of a sample depends on: grip position, whether the clutch holds, and the reset buttons. */
  datatype Sample = Sample(grip: Vec, clutched: bool, reset: bool)

  function SampleOf(c: Controller, cfg: ArmConfig): (s: Sample) {
    Sample(c.position, c.positionValid && c.squeeze >= cfg.clutchThreshold, c.reset)
  }

  /** The grip position of the previous clutched sample. */
  datatype Arm = Arm(previous: Option<Vec>, wasClutched: bool)

  /** A displacement or rotation shorter than the deadband is dropped. */
  predicate Dropped(d: Vec, deadband: real) {
    deadband > 0.0 && Dot(d, d) < Times(deadband, deadband)
  }

  /** Headset-neutral axes to robot base axes. */
  function AxisMap(axes: Axes, cfg: ArmConfig, v: Vec): (d: Vec) {
    var l := Local(axes, v);
    Vec(Times(l.z, cfg.forwardSign), Times(-l.x, cfg.rightSign), Times(l.y, cfg.upSign))
  }

  predicate Engages(arm: Arm, s: Sample) {
    s.clutched && (arm.previous == None || !arm.wasClutched || s.reset)
  }

  /** The clutch was already held, and is not being reset. */
  predicate Held(arm: Arm, s: Sample) { s.clutched && !Engages(arm, s) }

  function NextArm(arm: Arm, s: Sample): (r: Arm) {
    if s.clutched then Arm(Some(s.grip), true) else Arm(None, false)
  }

  /** The grip displacement since the previous sample; none unless the clutch was already held. */
  function Displacement(arm: Arm, s: Sample): (d: Vec) {
    if Held(arm, s) then Sub(s.grip, arm.previous.value) else ZERO
  }

  /** The part of the displacement that passes the deadband, and the part that does not. */
  function Passed(arm: Arm, s: Sample, dead: Vec -> bool): (d: Vec) {
    if dead(Displacement(arm, s)) then ZERO else Displacement(arm, s)
  }

  function Lost(arm: Arm, s: Sample, dead: Vec -> bool): (d: Vec) {
    if dead(Displacement(arm, s)) then Displacement(arm, s) else ZERO
  }

  function DeadbandOf(cfg: ArmConfig): (f: Vec -> bool) { d => Dropped(d, cfg.positionDeadband) }

  function MapOf(axes: Axes, cfg: ArmConfig): (f: Vec -> Vec) { v => AxisMap(axes, cfg, v) }

  // ----- gain and clipping ---------------------------------------------------------------------------

  function Quotient(a: real, m: real): (r: real)
    requires m != 0.0
  {
    a / m
  }

  /** `v * gain / max`. */
  function Scaled(v: Vec, gain: real, max: real): (r: Vec)
    requires max != 0.0
  {
    Vec(Quotient(Times(v.x, gain), max), Quotient(Times(v.y, gain), max), Quotient(Times(v.z, gain), max))
  }

  /** `np.clip(x, -m, m)`. */
  function Clip(x: real, m: real): (r: real) {
    var raised := if x < -m then -m else x;
    if raised > m then m else raised
  }

  function Clipped(v: Vec, m: real): (r: Vec) { Vec(Clip(v.x, m), Clip(v.y, m), Clip(v.z, m)) }

  /** A displacement as a position action before clipping. */
  function PositionAction(axes: Axes, cfg: ArmConfig, v: Vec): (r: Vec)
    requires Usable(cfg)
  {
    Scaled(AxisMap(axes, cfg, v), cfg.positionGain, cfg.positionMax)
  }

  function RotationAction(axes: Axes, cfg: ArmConfig, v: Vec): (r: Vec)
    requires Usable(cfg)
  {
    Scaled(AxisMap(axes, cfg, v), cfg.rotationGain, cfg.rotationMax)
  }

  function ActionMapOf(axes: Axes, cfg: ArmConfig): (f: Vec -> Vec)
    requires Usable(cfg)
  {
    v => PositionAction(axes, cfg, v)
  }

  function Undropped(v: Vec, deadband: real): (r: Vec) {
    if Dropped(v, deadband) then ZERO else v
  }

  lemma QuotientAdds(a: real, b: real, m: real)
    requires m != 0.0
    ensures Quotient(a + b, m) == Quotient(a, m) + Quotient(b, m) && Quotient(0.0, m) == 0.0
  {
  }

  lemma ScaledAdds(v: Vec, w: Vec, gain: real, max: real)
    requires max != 0.0
    ensures Scaled(Add(v, w), gain, max) == Add(Scaled(v, gain, max), Scaled(w, gain, max))
  {
    TimesAdds(v.x, w.x, gain);
    TimesAdds(v.y, w.y, gain);
    TimesAdds(v.z, w.z, gain);
    QuotientAdds(Times(v.x, gain), Times(w.x, gain), max);
    QuotientAdds(Times(v.y, gain), Times(w.y, gain), max);
    QuotientAdds(Times(v.z, gain), Times(w.z, gain), max);
  }

  lemma LocalAdds(axes: Axes, v: Vec, w: Vec)
    ensures Local(axes, Add(v, w)) == Add(Local(axes, v), Local(axes, w))
  {
    var s, r, u, f := Add(v, w), axes.right, axes.up, axes.forward;
    DotAdds(v.x, v.y, v.z, w.x, w.y, w.z, s.x, s.y, s.z, r.x, r.y, r.z);
    DotAdds(v.x, v.y, v.z, w.x, w.y, w.z, s.x, s.y, s.z, u.x, u.y, u.z);
    DotAdds(v.x, v.y, v.z, w.x, w.y, w.z, s.x, s.y, s.z, f.x, f.y, f.z);
  }

  /** The axis map is additive. */
  lemma MapAdds(axes: Axes, cfg: ArmConfig, v: Vec, w: Vec)
    ensures AxisMap(axes, cfg, Add(v, w)) == Add(AxisMap(axes, cfg, v), AxisMap(axes, cfg, w))
  {
    var a, b := Local(axes, v), Local(axes, w);
    LocalAdds(axes, v, w);
    TimesAdds(a.z, b.z, cfg.forwardSign);
    TimesAdds(-a.x, -b.x, cfg.rightSign);
    TimesAdds(a.y, b.y, cfg.upSign);
    assert -(a.x + b.x) == -a.x + -b.x;
  }

  // ----- the direction of an action -----------------------------------------------------------------

  /** The displacement `f` forward, `r` to the right and `u` up. */
  function Along(axes: Axes, f: real, r: real, u: real): (d: Vec) {
    Add(Add(Scale(axes.forward, f), Scale(axes.right, r)), Scale(axes.up, u))
  }

  function Scale(v: Vec, d: real): (r: Vec) { Vec(Times(v.x, d), Times(v.y, d), Times(v.z, d)) }

  lemma ScaledDot(x: real, y: real, z: real, d: real, a: real, b: real, c: real, sx: real, sy: real, sz: real)
    requires sx == x * d && sy == y * d && sz == z * d
    ensures sx * a + sy * b + sz * c == (x * a + y * b + z * c) * d
  {
  }

  lemma DotScales(v: Vec, d: real, w: Vec)
    ensures Dot(Scale(v, d), w) == Times(Dot(v, w), d)
  {
    var s := Scale(v, d);
    ScaledDot(v.x, v.y, v.z, d, w.x, w.y, w.z, s.x, s.y, s.z);
  }

  lemma DotSums(a: Vec, b: Vec, c: Vec, w: Vec)
    ensures Dot(Add(Add(a, b), c), w) == Dot(a, w) + Dot(b, w) + Dot(c, w)
  {
    var ab, s := Add(a, b), Add(Add(a, b), c);
    DotAdds(a.x, a.y, a.z, b.x, b.y, b.z, ab.x, ab.y, ab.z, w.x, w.y, w.z);
    DotAdds(ab.x, ab.y, ab.z, c.x, c.y, c.z, s.x, s.y, s.z, w.x, w.y, w.z);
  }

  lemma DotSymmetric(v: Vec, w: Vec)
    ensures Dot(v, w) == Dot(w, v)
  {
  }

  /** The component along one axis of a displacement that is given along all three. */
  lemma AlongOne(axes: Axes, f: real, r: real, u: real, w: Vec)
    ensures Dot(Along(axes, f, r, u), w)
         == Times(Dot(axes.forward, w), f) + Times(Dot(axes.right, w), r) + Times(Dot(axes.up, w), u)
  {
    DotSums(Scale(axes.forward, f), Scale(axes.right, r), Scale(axes.up, u), w);
    DotScales(axes.forward, f, w);
    DotScales(axes.right, r, w);
    DotScales(axes.up, u, w);
  }

  lemma LocalOfAlong(axes: Axes, f: real, r: real, u: real)
    requires Orthonormal(axes)
    ensures Local(axes, Along(axes, f, r, u)) == Vec(r, u, f)
  {
    AlongOne(axes, f, r, u, axes.right);
    AlongOne(axes, f, r, u, axes.up);
    AlongOne(axes, f, r, u, axes.forward);
    DotSymmetric(axes.forward, axes.right);
    DotSymmetric(axes.forward, axes.up);
    DotSymmetric(axes.up, axes.right);
    TimesOne(f, f);
    TimesOne(r, r);
    TimesOne(u, u);
    TimesAdds(0.0, 0.0, f);
    TimesAdds(0.0, 0.0, r);
    TimesAdds(0.0, 0.0, u);
  }

  /**
   Where the arm goes: of a hand displacement the part forward becomes +x, the part to the right -y
   and the part up +z, each times its sign.
   */
  lemma MapByDirections(axes: Axes, cfg: ArmConfig, f: real, r: real, u: real)
    requires Orthonormal(axes)
    ensures AxisMap(axes, cfg, Along(axes, f, r, u)) == Vec(f * cfg.forwardSign, -r * cfg.rightSign, u * cfg.upSign)
  {
    LocalOfAlong(axes, f, r, u);
  }

  /** Before any neutral pose is set: forward is -z of the headset, right +x, and up +y. */
  lemma MapBeforeNeutral(cfg: ArmConfig, v: Vec)
    ensures AxisMap(Axes(Vec(1.0, 0.0, 0.0), Vec(0.0, 1.0, 0.0), Vec(0.0, 0.0, -1.0)), cfg, v)
         == Vec(-v.z * cfg.forwardSign, -v.x * cfg.rightSign, v.y * cfg.upSign)
  {
    LocalStandard(v);
  }

  /** `np.clip`: within the limit unchanged, beyond it the limit. */
  lemma ClipLimits(x: real, m: real)
    requires m >= 0.0
    ensures -m <= Clip(x, m) <= m
    ensures x > m ==> Clip(x, m) == m
    ensures x < -m ==> Clip(x, m) == -m
    ensures -m <= x <= m ==> Clip(x, m) == x
  {
  }

  /** What is sent for a mapped displacement: times gain by output limit, within the action limit. */
  function Limited(d: real, gain: real, max: real, m: real): (r: real)
    requires max != 0.0
    ensures m >= 0.0 ==> -m <= r <= m
    ensures -m <= d * gain / max <= m ==> r == d * gain / max
    ensures m >= 0.0 && d * gain / max > m ==> r == m
    ensures m >= 0.0 && d * gain / max < -m ==> r == -m
  {
    Clip(Quotient(Times(d, gain), max), m)
  }

  /** The action follows the hand: `f` forward, `r` to the right and `u` up, whatever these are. */
  ghost predicate FollowsHand(axes: Axes, cfg: ArmConfig, delta: Vec, gain: real, max: real, action: Vec)
    requires max != 0.0
  {
    forall f, r, u :: delta == Along(axes, f, r, u) ==>
      action == Vec(Limited(f * cfg.forwardSign, gain, max, cfg.maxAction),
                    Limited(-r * cfg.rightSign, gain, max, cfg.maxAction),
                    Limited(u * cfg.upSign, gain, max, cfg.maxAction))
  }

  lemma LimitedParts(v: Vec, x: real, y: real, z: real, gain: real, max: real, m: real)
    requires max != 0.0 && v == Vec(x, y, z)
    ensures Clipped(Scaled(v, gain, max), m) == Vec(Limited(x, gain, max, m), Limited(y, gain, max, m),
                                                    Limited(z, gain, max, m))
  {
  }

  lemma ActionFollowsHand(axes: Axes, cfg: ArmConfig, delta: Vec, gain: real, max: real)
    requires Orthonormal(axes) && max != 0.0
    ensures FollowsHand(axes, cfg, delta, gain, max,
                        Clipped(Scaled(AxisMap(axes, cfg, delta), gain, max), cfg.maxAction))
  {
    var mapped := AxisMap(axes, cfg, delta);
    forall f, r, u | delta == Along(axes, f, r, u)
      ensures Clipped(Scaled(mapped, gain, max), cfg.maxAction)
           == Vec(Limited(f * cfg.forwardSign, gain, max, cfg.maxAction),
                  Limited(-r * cfg.rightSign, gain, max, cfg.maxAction),
                  Limited(u * cfg.upSign, gain, max, cfg.maxAction))
    {
      MapByDirections(axes, cfg, f, r, u);
      LimitedParts(mapped, f * cfg.forwardSign, -r * cfg.rightSign, u * cfg.upSign, gain, max, cfg.maxAction);
    }
  }

  lemma SquaresOrdered(d: real, k: real)
    requires k > 0.0
    ensures d * d < k * k <==> -k < d < k
  {
    if d >= k {
      assert d * d >= k * k;
    } else if d <= -k {
      assert d * d >= k * k;
    } else {
      assert (k - d) * (k + d) > 0.0;
    }
  }

  /** The deadband in metres: a displacement along an axis is dropped iff it is shorter. */
  lemma DroppedIsShort(axis: Vec, d: real, deadband: real)
    requires Dot(axis, axis) == 1.0
    ensures Dropped(Scale(axis, d), deadband) <==> -deadband < d < deadband
  {
    DotScales(axis, d, Scale(axis, d));
    DotSymmetric(axis, Scale(axis, d));
    DotScales(axis, d, axis);
    TimesOne(d, d);
    if deadband > 0.0 {
      SquaresOrdered(d, deadband);
    }
  }

  lemma MapOfZero(axes: Axes, cfg: ArmConfig)
    ensures AxisMap(axes, cfg, ZERO) == ZERO
  {
    var m := AxisMap(axes, cfg, ZERO);
    MapAdds(axes, cfg, ZERO, ZERO);
    assert Add(ZERO, ZERO) == ZERO;
    assert m == Add(m, m);
  }

  class QuestArmTeleop {
    const cfg: ArmConfig
    const frame: QuestNeutralFrame
    const rotvecOf: Quat -> Vec  // `quat_to_rotvec_xyzw`
    var previousPosition: Option<Vec>
    var previousQuat: Option<Quat>
    var wasClutched: bool
    var triggerWasPressed: bool
    var gripperClosed: bool

    predicate Valid() reads this {
      Usable(cfg) && (previousPosition.Some? <==> previousQuat.Some?)
    }

    /** The rotation since the previous sample, or none if it is shorter than the deadband. */
    function Turned(rotDelta: Quat): (v: Vec) {
      Undropped(rotvecOf(rotDelta), cfg.rotationDeadband)
    }

    ghost function PositionArm(): (arm: Arm) reads this {
      Arm(previousPosition, wasClutched)
    }

    constructor (cfg: ArmConfig, frame: QuestNeutralFrame, rotvecOf: Quat -> Vec)
      requires Usable(cfg)
      ensures Valid() && this.cfg == cfg && this.frame == frame && this.rotvecOf == rotvecOf
      ensures PositionArm() == Arm(None, false) && !triggerWasPressed && !gripperClosed
    {
      this.cfg, this.frame, this.rotvecOf := cfg, frame, rotvecOf;
      previousPosition, previousQuat, wasClutched, triggerWasPressed, gripperClosed := None, None, false, false, false;
    }

    /** A press of the trigger toggles the gripper. */
    method UpdateGripper(pressed: bool) returns (grip: real)
      modifies this`triggerWasPressed, this`gripperClosed
      ensures triggerWasPressed == pressed
              && gripperClosed == (old(gripperClosed) != (pressed && !old(triggerWasPressed)))
      ensures grip == if gripperClosed != cfg.invertGripper then 1.0 else -1.0
    {
      if pressed && !triggerWasPressed {
        gripperClosed := !gripperClosed;
      }
      triggerWasPressed := pressed;
      grip := if gripperClosed then 1.0 else -1.0;
      if cfg.invertGripper {
        grip := grip * -1.0;
      }
    }

    /**
     The action of a held clutch: deadbands, axis map, gain and clipping; so, along orthonormal axes, it
     follows the hand.
     */
    ghost predicate HeldActionIs(delta: Vec, rotDelta: Quat, position: Vec, rotation: Vec)
      requires Usable(cfg)
      reads frame
    {
      && position == Clipped(PositionAction(frame.axes, cfg, Undropped(delta, cfg.positionDeadband)), cfg.maxAction)
      && rotation == (if cfg.lockRotation then ZERO
                      else Clipped(RotationAction(frame.axes, cfg, Turned(rotDelta)), cfg.maxAction))
      && (Orthonormal(frame.axes) ==>
            && FollowsHand(frame.axes, cfg, Undropped(delta, cfg.positionDeadband), cfg.positionGain,
                           cfg.positionMax, position)
            && (!cfg.lockRotation ==>
                  FollowsHand(frame.axes, cfg, Turned(rotDelta), cfg.rotationGain, cfg.rotationMax, rotation)))
    }

    method HeldAction(delta: Vec, rotDelta: Quat) returns (position: Vec, rotation: Vec)
      requires Usable(cfg)
      ensures HeldActionIs(delta, rotDelta, position, rotation)
    {
      if Orthonormal(frame.axes) {
        ActionFollowsHand(frame.axes, cfg, Undropped(delta, cfg.positionDeadband), cfg.positionGain, cfg.positionMax);
        ActionFollowsHand(frame.axes, cfg, Turned(rotDelta), cfg.rotationGain, cfg.rotationMax);
      }
      var dp, dr := delta, rotvecOf(rotDelta);
      if Dropped(dp, cfg.positionDeadband) {
        dp := ZERO;
      }
      if Dropped(dr, cfg.rotationDeadband) {
        dr := ZERO;
      }
      var dpos, drot := AxisMap(frame.axes, cfg, dp), AxisMap(frame.axes, cfg, dr);
      position, rotation := Clipped(Scaled(dpos, cfg.positionGain, cfg.positionMax), cfg.maxAction), ZERO;
      if !cfg.lockRotation {
        rotation := Clipped(Scaled(drot, cfg.rotationGain, cfg.rotationMax), cfg.maxAction);
      }
    }

    /** `make_action`: None is a missing sample. */
    method MakeAction(sample: Option<Controller>, actionDim: nat) returns (out: Action)
      requires Valid() && (sample.Some? ==> sample.value.norm >= 0.0)
      requires sample.Some? ==> sample.value.norm * sample.value.norm == NormSquared(sample.value.quat)
      modifies this
      ensures Valid()
      ensures sample == None || actionDim < 7 ==> unchanged(this) && out == NO_ACTION
      ensures sample.Some? && actionDim >= 7 ==>
                var c, s, before := sample.value, SampleOf(sample.value, cfg), old(PositionArm());
                && PositionArm() == NextArm(before, s)
                && previousQuat == (if s.clutched then Some(Normalized(c.quat, c.norm)) else None)
                && wasClutched == (c.positionValid && c.squeeze >= cfg.clutchThreshold)
                && previousPosition == (if wasClutched then Some(c.position) else None)
                && triggerWasPressed == (c.trigger >= cfg.gripperThreshold)
                && gripperClosed == (old(gripperClosed) != (triggerWasPressed && !old(triggerWasPressed)))
                && out.grip == if gripperClosed != cfg.invertGripper then 1.0 else -1.0
      ensures sample.Some? && actionDim >= 7 ==>
                var c := sample.value;
                var held := wasClutched && old(wasClutched) && old(previousPosition).Some? && !c.reset;
                && (held <==> Held(old(PositionArm()), SampleOf(c, cfg)))
                && (!held ==> out.position == ZERO && out.rotation == ZERO)
                && (held ==>
                      var delta := Sub(c.position, old(previousPosition).value);
                      var rotDelta := Multiply(Normalized(c.quat, c.norm), Conjugate(old(previousQuat).value));
                      HeldActionIs(delta, rotDelta, out.position, out.rotation)
                      && out.position
                         == SentAction(old(PositionArm()), SampleOf(c, cfg), DeadbandOf(cfg),
                                       ActionMapOf(frame.axes, cfg), cfg.maxAction))
    {
      out := NO_ACTION;
      if actionDim < 7 || sample == None {
        return;
      }
      var c := sample.value;
      var clutched := c.positionValid && c.squeeze >= cfg.clutchThreshold;
      var grip := UpdateGripper(c.trigger >= cfg.gripperThreshold);
      out := Action(ZERO, ZERO, grip);
      var quat := Normalized(c.quat, c.norm);
      if !clutched {
        previousPosition, previousQuat, wasClutched := None, None, false;
        return;
      }
      if previousPosition == None || previousQuat == None || !wasClutched || c.reset {
        previousPosition, previousQuat, wasClutched := Some(c.position), Some(quat), true;
        return;
      }
      var delta := Sub(c.position, previousPosition.value);
      var rotDelta := Multiply(quat, Conjugate(previousQuat.value));
      previousPosition, previousQuat := Some(c.position), Some(quat);
      var position, rotation := HeldAction(delta, rotDelta);
      out := Action(position, rotation, grip);
      assert Undropped(delta, cfg.positionDeadband) == Passed(old(PositionArm()), SampleOf(c, cfg), DeadbandOf(cfg));
    }
  }

  // ----- a clutched run ---------------------------------------------------------------------------------

  /** All that was emitted over a run of samples. */
  function TotalEmitted(arm: Arm, ss: seq<Sample>, dead: Vec -> bool, m: Vec -> Vec): (d: Vec)
    decreases |ss|
  {
    if ss == [] then ZERO else Add(m(Passed(arm, ss[0], dead)), TotalEmitted(NextArm(arm, ss[0]), ss[1..], dead, m))
  }

  function TotalPassed(arm: Arm, ss: seq<Sample>, dead: Vec -> bool): (d: Vec)
    decreases |ss|
  {
    if ss == [] then ZERO else Add(Passed(arm, ss[0], dead), TotalPassed(NextArm(arm, ss[0]), ss[1..], dead))
  }

  function TotalLost(arm: Arm, ss: seq<Sample>, dead: Vec -> bool): (d: Vec)
    decreases |ss|
  {
    if ss == [] then ZERO else Add(Lost(arm, ss[0], dead), TotalLost(NextArm(arm, ss[0]), ss[1..], dead))
  }

  function FinalGrip(start: Vec, ss: seq<Sample>): (v: Vec) {
    if ss == [] then start else ss[|ss| - 1].grip
  }

  ghost predicate Additive(m: Vec -> Vec) {
    m(ZERO) == ZERO && forall v, w {:trigger m(Add(v, w))} :: m(Add(v, w)) == Add(m(v), m(w))
  }

  lemma {:induction false} EmittedIsMapped(arm: Arm, ss: seq<Sample>, dead: Vec -> bool, m: Vec -> Vec)
    requires Additive(m)
    ensures TotalEmitted(arm, ss, dead, m) == m(TotalPassed(arm, ss, dead))
    decreases |ss|
  {
    if ss != [] {
      EmittedIsMapped(NextArm(arm, ss[0]), ss[1..], dead, m);
    }
  }

  lemma Regroup(a: Vec, b: Vec, c: Vec, d: Vec)
    ensures Add(Add(a, b), Add(c, d)) == Add(Add(a, c), Add(b, d))
  {
  }

  lemma Telescopes(start: Vec, next: Vec, final: Vec)
    ensures Add(Sub(next, start), Sub(final, next)) == Sub(final, start)
    ensures Add(ZERO, Sub(next, start)) == Add(Sub(next, start), ZERO) == Sub(next, start)
    ensures Add(ZERO, ZERO) == ZERO == Sub(start, start)
  {
  }

  /** A sample taken while the clutch was already held: all of the displacement, passed or lost. */
  lemma SampleBalances(start: Vec, s: Sample, dead: Vec -> bool)
    requires s.clutched && !s.reset
    ensures var arm := Arm(Some(start), true);
            && Add(Passed(arm, s, dead), Lost(arm, s, dead)) == Sub(s.grip, start)
            && NextArm(arm, s) == Arm(Some(s.grip), true)
  {
    Telescopes(start, s.grip, s.grip);
  }

  /** From engagement at `start`, passed and lost displacements add up to where the grip went. */
  lemma {:induction false} DisplacementsBalance(start: Vec, ss: seq<Sample>, dead: Vec -> bool)
    requires forall i :: 0 <= i < |ss| ==> ss[i].clutched && !ss[i].reset
    ensures var arm := Arm(Some(start), true);
            Add(TotalPassed(arm, ss, dead), TotalLost(arm, ss, dead)) == Sub(FinalGrip(start, ss), start)
    decreases |ss|
  {
    var arm := Arm(Some(start), true);
    if ss == [] {
      Telescopes(start, start, start);
    } else {
      var next, after := ss[0].grip, Arm(Some(ss[0].grip), true);
      SampleBalances(start, ss[0], dead);
      DisplacementsBalance(next, ss[1..], dead);
      Regroup(Passed(arm, ss[0], dead), TotalPassed(after, ss[1..], dead), Lost(arm, ss[0], dead),
              TotalLost(after, ss[1..], dead));
      Telescopes(start, next, FinalGrip(next, ss[1..]));
    }
  }

  lemma SumEquals(a: Vec, b: Vec, c: Vec)
    requires Add(a, b) == c
    ensures a == c <==> b == ZERO
  {
  }

  /** Conservation for any additive map and any deadband test. */
  lemma RunBalances(start: Vec, ss: seq<Sample>, dead: Vec -> bool, m: Vec -> Vec)
    requires Additive(m) && forall i :: 0 <= i < |ss| ==> ss[i].clutched && !ss[i].reset
    ensures var arm := Arm(Some(start), true);
            Add(TotalEmitted(arm, ss, dead, m), m(TotalLost(arm, ss, dead))) == m(Sub(FinalGrip(start, ss), start))
  {
    var arm := Arm(Some(start), true);
    EmittedIsMapped(arm, ss, dead, m);
    DisplacementsBalance(start, ss, dead);
    assert m(Add(TotalPassed(arm, ss, dead), TotalLost(arm, ss, dead)))
           == Add(m(TotalPassed(arm, ss, dead)), m(TotalLost(arm, ss, dead)));
  }

  /**
   Conservation over a clutched run with an unchanged frame, from engagement at `start`: what
   was emitted is the axis map of (final grip minus engagement grip), less the map of what fell
   into the deadband; so it is exactly the mapped displacement iff the lost part maps to zero.
   */
  lemma ClutchConserves(start: Vec, ss: seq<Sample>, axes: Axes, cfg: ArmConfig)
    requires forall i :: 0 <= i < |ss| ==> ss[i].clutched && !ss[i].reset
    ensures var arm, dead, m := Arm(Some(start), true), DeadbandOf(cfg), MapOf(axes, cfg);
            var emitted, lost := TotalEmitted(arm, ss, dead, m), m(TotalLost(arm, ss, dead));
            var moved := m(Sub(FinalGrip(start, ss), start));
            Add(emitted, lost) == moved && (emitted == moved <==> lost == ZERO)
  {
    var arm, dead, m := Arm(Some(start), true), DeadbandOf(cfg), MapOf(axes, cfg);
    MapIsAdditive(axes, cfg);
    RunBalances(start, ss, dead, m);
    SumEquals(TotalEmitted(arm, ss, dead, m), m(TotalLost(arm, ss, dead)), m(Sub(FinalGrip(start, ss), start)));
  }

  /** Without a deadband nothing is lost: the emitted displacements sum to the mapped grip displacement. */
  lemma ClutchWithoutDeadband(start: Vec, ss: seq<Sample>, axes: Axes, cfg: ArmConfig)
    requires forall i :: 0 <= i < |ss| ==> ss[i].clutched && !ss[i].reset
    requires cfg.positionDeadband <= 0.0
    ensures TotalEmitted(Arm(Some(start), true), ss, DeadbandOf(cfg), MapOf(axes, cfg))
            == AxisMap(axes, cfg, Sub(FinalGrip(start, ss), start))
  {
    NothingLost(Arm(Some(start), true), ss, DeadbandOf(cfg));
    MapOfZero(axes, cfg);
    ClutchConserves(start, ss, axes, cfg);
  }

  lemma MapIsAdditive(axes: Axes, cfg: ArmConfig)
    ensures Additive(MapOf(axes, cfg))
  {
    MapOfZero(axes, cfg);
    var m := MapOf(axes, cfg);
    forall v, w
      ensures m(Add(v, w)) == Add(m(v), m(w))
    {
      MapAdds(axes, cfg, v, w);
    }
  }

  lemma {:induction false} NothingLost(arm: Arm, ss: seq<Sample>, dead: Vec -> bool)
    requires forall v :: !dead(v)
    ensures TotalLost(arm, ss, dead) == ZERO
    decreases |ss|
  {
    if ss != [] {
      NothingLost(NextArm(arm, ss[0]), ss[1..], dead);
    }
  }

  lemma PositionActionAdds(axes: Axes, cfg: ArmConfig, v: Vec, w: Vec)
    requires Usable(cfg)
    ensures PositionAction(axes, cfg, Add(v, w)) == Add(PositionAction(axes, cfg, v), PositionAction(axes, cfg, w))
  {
    MapAdds(axes, cfg, v, w);
    ScaledAdds(AxisMap(axes, cfg, v), AxisMap(axes, cfg, w), cfg.positionGain, cfg.positionMax);
  }

  lemma PositionActionOfZero(axes: Axes, cfg: ArmConfig)
    requires Usable(cfg)
    ensures PositionAction(axes, cfg, ZERO) == ZERO
  {
    var m := PositionAction(axes, cfg, ZERO);
    PositionActionAdds(axes, cfg, ZERO, ZERO);
    assert Add(ZERO, ZERO) == ZERO;
    assert m == Add(m, m);
  }

  lemma ActionMapIsAdditive(axes: Axes, cfg: ArmConfig)
    requires Usable(cfg)
    ensures Additive(ActionMapOf(axes, cfg))
  {
    PositionActionOfZero(axes, cfg);
    var m := ActionMapOf(axes, cfg);
    forall v, w
      ensures m(Add(v, w)) == Add(m(v), m(w))
    {
      PositionActionAdds(axes, cfg, v, w);
    }
  }

  /** The position action sent for a sample, and what clipping cut off it. */
  function SentAction(arm: Arm, s: Sample, dead: Vec -> bool, m: Vec -> Vec, maxAction: real): (d: Vec) {
    if Held(arm, s) then Clipped(m(Passed(arm, s, dead)), maxAction) else ZERO
  }

  function CutOff(arm: Arm, s: Sample, dead: Vec -> bool, m: Vec -> Vec, maxAction: real): (d: Vec) {
    Sub(m(Passed(arm, s, dead)), SentAction(arm, s, dead, m, maxAction))
  }

  function TotalActions(arm: Arm, ss: seq<Sample>, dead: Vec -> bool, m: Vec -> Vec, maxAction: real): (d: Vec)
    decreases |ss|
  {
    if ss == [] then ZERO
    else Add(SentAction(arm, ss[0], dead, m, maxAction), TotalActions(NextArm(arm, ss[0]), ss[1..], dead, m, maxAction))
  }

  function TotalCut(arm: Arm, ss: seq<Sample>, dead: Vec -> bool, m: Vec -> Vec, maxAction: real): (d: Vec)
    decreases |ss|
  {
    if ss == [] then ZERO
    else Add(CutOff(arm, ss[0], dead, m, maxAction), TotalCut(NextArm(arm, ss[0]), ss[1..], dead, m, maxAction))
  }

  lemma SentAndCut(arm: Arm, s: Sample, dead: Vec -> bool, m: Vec -> Vec, maxAction: real)
    ensures Add(SentAction(arm, s, dead, m, maxAction), CutOff(arm, s, dead, m, maxAction)) == m(Passed(arm, s, dead))
  {
  }

  lemma {:induction false} ActionsAndCuts(arm: Arm, ss: seq<Sample>, dead: Vec -> bool, m: Vec -> Vec, maxAction: real)
    ensures Add(TotalActions(arm, ss, dead, m, maxAction), TotalCut(arm, ss, dead, m, maxAction))
            == TotalEmitted(arm, ss, dead, m)
    decreases |ss|
  {
    if ss != [] {
      var next := NextArm(arm, ss[0]);
      ActionsAndCuts(next, ss[1..], dead, m, maxAction);
      SentAndCut(arm, ss[0], dead, m, maxAction);
      Regroup(SentAction(arm, ss[0], dead, m, maxAction), TotalActions(next, ss[1..], dead, m, maxAction),
              CutOff(arm, ss[0], dead, m, maxAction), TotalCut(next, ss[1..], dead, m, maxAction));
    }
  }

  /** No action of the run lies beyond the limit. */
  predicate NothingClipped(arm: Arm, ss: seq<Sample>, dead: Vec -> bool, m: Vec -> Vec, maxAction: real)
    decreases |ss|
  {
    ss != [] ==>
      && (Held(arm, ss[0]) ==> Within(m(Passed(arm, ss[0], dead)), maxAction))
      && NothingClipped(NextArm(arm, ss[0]), ss[1..], dead, m, maxAction)
  }

  predicate Within(v: Vec, m: real) {
    -m <= v.x <= m && -m <= v.y <= m && -m <= v.z <= m
  }

  lemma WithinIsUncut(arm: Arm, s: Sample, dead: Vec -> bool, m: Vec -> Vec, maxAction: real)
    requires m(ZERO) == ZERO && (Held(arm, s) ==> Within(m(Passed(arm, s, dead)), maxAction))
    ensures CutOff(arm, s, dead, m, maxAction) == ZERO
  {
  }

  lemma {:induction false} UnclippedIsUncut(arm: Arm, ss: seq<Sample>, dead: Vec -> bool, m: Vec -> Vec,
                                            maxAction: real)
    requires m(ZERO) == ZERO && NothingClipped(arm, ss, dead, m, maxAction)
    ensures TotalCut(arm, ss, dead, m, maxAction) == ZERO
    decreases |ss|
  {
    if ss != [] {
      UnclippedIsUncut(NextArm(arm, ss[0]), ss[1..], dead, m, maxAction);
      WithinIsUncut(arm, ss[0], dead, m, maxAction);
    }
  }

  lemma SumOfThree(a: Vec, b: Vec, c: Vec)
    ensures Add(Add(a, b), c) == Add(a, Add(b, c))
  {
  }

  /** Conservation of the actions for any additive map and any deadband test. */
  lemma ActionsBalance(start: Vec, ss: seq<Sample>, dead: Vec -> bool, m: Vec -> Vec, maxAction: real)
    requires Additive(m) && forall i :: 0 <= i < |ss| ==> ss[i].clutched && !ss[i].reset
    ensures var arm := Arm(Some(start), true);
            Add(TotalActions(arm, ss, dead, m, maxAction),
                Add(TotalCut(arm, ss, dead, m, maxAction), m(TotalLost(arm, ss, dead))))
            == m(Sub(FinalGrip(start, ss), start))
  {
    var arm := Arm(Some(start), true);
    ActionsAndCuts(arm, ss, dead, m, maxAction);
    RunBalances(start, ss, dead, m);
    SumOfThree(TotalActions(arm, ss, dead, m, maxAction), TotalCut(arm, ss, dead, m, maxAction),
               m(TotalLost(arm, ss, dead)));
  }

  /**
   The same for the actions as they are sent: over a clutched run, the position actions, what
   clipping cut off them, and the action map of what fell into the deadband add up to the action map
   of (final grip minus engagement grip). So the actions alone do iff the other two cancel; and
   nothing is cut off a run whose actions stay within the limit.
   */
  lemma ActionsConserve(start: Vec, ss: seq<Sample>, axes: Axes, cfg: ArmConfig)
    requires Usable(cfg) && forall i :: 0 <= i < |ss| ==> ss[i].clutched && !ss[i].reset
    ensures var arm, dead, m := Arm(Some(start), true), DeadbandOf(cfg), ActionMapOf(axes, cfg);
            var sent, moved := TotalActions(arm, ss, dead, m, cfg.maxAction), m(Sub(FinalGrip(start, ss), start));
            var missing := Add(TotalCut(arm, ss, dead, m, cfg.maxAction), m(TotalLost(arm, ss, dead)));
            && Add(sent, missing) == moved && (sent == moved <==> missing == ZERO)
            && (NothingClipped(arm, ss, dead, m, cfg.maxAction) ==> TotalCut(arm, ss, dead, m, cfg.maxAction) == ZERO)
  {
    var arm, dead, m := Arm(Some(start), true), DeadbandOf(cfg), ActionMapOf(axes, cfg);
    ActionMapIsAdditive(axes, cfg);
    ActionsBalance(start, ss, dead, m, cfg.maxAction);
    SumEquals(TotalActions(arm, ss, dead, m, cfg.maxAction),
              Add(TotalCut(arm, ss, dead, m, cfg.maxAction), m(TotalLost(arm, ss, dead))),
              m(Sub(FinalGrip(start, ss), start)));
    if NothingClipped(arm, ss, dead, m, cfg.maxAction) {
      UnclippedIsUncut(arm, ss, dead, m, cfg.maxAction);
    }
  }
}
