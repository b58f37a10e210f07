/** `Quest3VideoStreamer`: two encoders, one pending access unit per eye, and the send statistics. */
module Streamer {
  import opened Bytes
  import opened AccessUnits
  import opened H264Encoding
  import opened StereoPayload

  /** Where one call of `send` meets an exception. */
  datatype Fault = NoFault | LeftSpawn | RightSpawn | Prepare | EncodeLeft | EncodeRight

  /** What a reader thread does before a take: the NAL units it processes, and whether its stream ends. */
  datatype Reading = Reading(nals: seq<Nal>, ended: bool)

  /**
   The surroundings of one call: connection, faults, the reader threads, the clock, and whether the
   socket takes the payload.
   */
  datatype Surroundings = Surroundings(connected: bool, fault: Fault, left: Reading, right: Reading,
                                       captureTimeNs: int, delivered: bool)

  datatype Stats = Stats(submitted: nat, sent: nat, dropped: nat, encodePending: nat)

  /** A payload that was formed: the units of the two eyes and the index it carries. */
  datatype Pair = Pair(left: QueuedUnit, right: QueuedUnit, frameIndex: nat)

  /** How the attempt to form a payload ended: an exception, an eye without a unit, or the payload. */
  datatype Outcome = Raised | NotReady | Formed(payload: seq<byte>)

  /** The fault is met: starting a process matters only when the encoders do not run yet. */
  predicate Raises(fault: Fault, encoding: bool) {
    match fault
    case NoFault => false
    case LeftSpawn | RightSpawn => !encoding
    case Prepare | EncodeLeft | EncodeRight => true
  }

  class Quest3VideoStreamer {
    const width: int
    const height: int
    var left: H264Encoder?
    var right: H264Encoder?
    var pendingLeft: Option<QueuedUnit>
    var pendingRight: Option<QueuedUnit>
    var stats: Stats
    ghost var pairs: seq<Pair>  // the payloads formed since the current encoders were made

    /** The pending unit of an eye is the last one taken, and all before it went into pairs. */
    ghost predicate EyeValid(encoder: H264Encoder, pending: Option<QueuedUnit>, formed: nat)
      reads encoder
    {
      && encoder.Valid()
      && encoder.taken == formed + (if pending.Some? then 1 else 0)
      && (pending.Some? ==> pending.value == QueuedUnit(formed, Flatten(encoder.units[formed])))
    }

    /** Every payload formed so far pairs the units that the two encoders emitted under its index, 0, 1, 2, ... */
    ghost predicate PairsAligned(leftUnits: seq<seq<Nal>>, rightUnits: seq<seq<Nal>>)
      requires |pairs| <= |leftUnits| && |pairs| <= |rightUnits|
      reads this
    {
      forall k :: 0 <= k < |pairs| ==>
        pairs[k] == Pair(QueuedUnit(k, Flatten(leftUnits[k])), QueuedUnit(k, Flatten(rightUnits[k])), k)
    }

    ghost predicate Valid()
      reads this, left, right
    {
      && stats.submitted == stats.sent + stats.dropped + stats.encodePending
      && EyesValid()
    }

    /** Both encoders run and the eyes are in step, or nothing is pending. */
    ghost predicate EyesValid()
      reads this, left, right
    {
      && (left == null ==> right == null)
      && (if left != null && right != null then
            && left != right && EyeValid(left, pendingLeft, |pairs|) && EyeValid(right, pendingRight, |pairs|)
            && PairsAligned(left.units, right.units)
          else
            pendingLeft == None && pendingRight == None && pairs == [])
    }

    constructor (width: int, height: int)
      ensures Valid() && stats == Stats(0, 0, 0, 0) && left == null && right == null
    {
      this.width, this.height := width, height;
      left, right, pendingLeft, pendingRight := null, null, None, None;
      stats := Stats(0, 0, 0, 0);
      pairs := [];
    }

    method Close()
      requires Valid()
      modifies this
      ensures Valid() && left == null && right == null && stats == old(stats)
    {
      left, right, pendingLeft, pendingRight, pairs := null, null, None, None, [];
    }

    /** `_ensure_encoders`; false is an exception from starting a process. */
    method EnsureEncoders(fault: Fault) returns (ok: bool)
      requires EyesValid()
      modifies this`left, this`right
      ensures EyesValid() && (ok <==> left != null && right != null)
      ensures if old(left) != null && old(right) != null then left == old(left) && right == old(right)
              else (ok <==> fault != LeftSpawn && fault != RightSpawn) && (ok ==> fresh(left) && fresh(right))
    {
      if left != null && right != null {
        return true;
      }
      if fault == LeftSpawn {
        return false;
      }
      left := new H264Encoder();
      if fault == RightSpawn {
        return false;
      }
      right := new H264Encoder();
      return true;
    }

    /** Take a unit for an eye that has none pending; the reader thread may emit until then. */
    method FillPending(encoder: H264Encoder, pending: Option<QueuedUnit>, reading: Reading, ghost formed: nat)
      returns (r: Option<QueuedUnit>)
      requires EyeValid(encoder, pending, formed)
      modifies encoder
      ensures EyeValid(encoder, r, formed) && old(encoder.units) <= encoder.units
      ensures pending.Some? ==> r == pending
      ensures encoder.State() == var g := ProcessAll(old(encoder.State()), reading.nals);
                                 if reading.ended then EmitCurrent(g) else g
      ensures r == None <==> pending == None && |encoder.units| == formed
    {
      encoder.ReaderProgress(reading.nals, reading.ended);
      if pending.Some? {
        return pending;
      }
      r := encoder.Take();
    }

    /** Whether both encoders are there when a call starts. */
    predicate Encoding() reads this { left != null && right != null }

    /**
     One pair more than `before`, with nothing left pending: `payload` carries the units that the two
     encoders emitted under its index.
     */
    ghost predicate OneMore(before: seq<Pair>, captureTimeNs: int, payload: seq<byte>)
      reads this, left, right
    {
      var k := |before|;
      && |pairs| == k + 1 && before <= pairs && Encoding() && pendingLeft == None && pendingRight == None
      && k < |left.units| && k < |right.units|
      && MakeH264(k, captureTimeNs, width, height, Flatten(left.units[k]), Flatten(right.units[k])) == Some(payload)
    }

    /** Both pending units into one payload; None when the header values do not fit. */
    method FormPayload(captureTimeNs: int) returns (payload: Option<seq<byte>>)
      requires EyesValid() && pendingLeft.Some? && pendingRight.Some?
      modifies this`pendingLeft, this`pendingRight, this`pairs
      ensures EyesValid()
      ensures var l, r := old(pendingLeft).value, old(pendingRight).value;
              && l.index == r.index
              && payload == MakeH264(l.index, captureTimeNs, width, height, l.bytes, r.bytes)
      ensures payload.Some? ==> OneMore(old(pairs), captureTimeNs, payload.value)
      ensures payload == None ==> unchanged(this)
    {
      var l, r := pendingLeft.value, pendingRight.value;
      var frameIndex := if l.index < r.index then l.index else r.index;
      assert l.index == |pairs| == r.index && frameIndex == |pairs|;
      payload := MakeH264(frameIndex, captureTimeNs, width, height, l.bytes, r.bytes);
      if payload.Some? {
        pendingLeft, pendingRight := None, None;
        pairs := pairs + [Pair(l, r, frameIndex)];
      }
    }

    method TakeBoth(env: Surroundings) returns (both: bool)
      requires EyesValid() && Encoding()
      modifies this`pendingLeft, this`pendingRight, left, right
      ensures EyesValid() && (both <==> pendingLeft.Some? && pendingRight.Some?)
    {
      pendingLeft := FillPending(left, pendingLeft, env.left, |pairs|);
      pendingRight := FillPending(right, pendingRight, env.right, |pairs|);
      both := pendingLeft.Some? && pendingRight.Some?;
    }

    /** A unit for each eye, and the payload when both are there. */
    method PairUnits(env: Surroundings) returns (r: Outcome)
      requires EyesValid() && Encoding()
      modifies this`pendingLeft, this`pendingRight, this`pairs, left, right
      ensures EyesValid()
      ensures if r.Formed? then OneMore(old(pairs), env.captureTimeNs, r.payload) else pairs == old(pairs)
      ensures r == NotReady <==> !r.Formed? && (pendingLeft == None || pendingRight == None)
    {
      var both := TakeBoth(env);
      if !both {
        return NotReady;
      }
      var payload := FormPayload(env.captureTimeNs);
      return if payload == None then Raised else Formed(payload.value);
    }

    /** The body of the `try` in `send` up to the socket. */
    method NextPayload(env: Surroundings) returns (r: Outcome)
      requires EyesValid()
      modifies this`left, this`right, this`pendingLeft, this`pendingRight, this`pairs, left, right
      ensures EyesValid()
      ensures var before := if old(Encoding()) then old(pairs) else [];
              if r.Formed? then OneMore(before, env.captureTimeNs, r.payload) else pairs == before
      ensures r == NotReady <==>
                !r.Formed? && !Raises(env.fault, old(Encoding())) && (pendingLeft == None || pendingRight == None)
    {
      var started := EnsureEncoders(env.fault);
      if !started || env.fault == Prepare || env.fault == EncodeLeft || env.fault == EncodeRight {
        return Raised;
      }
      r := PairUnits(env);
    }

    /**
     `send`: both eyes are consumed together or not at all, every call is counted exactly once, and
     `handed` is what the socket was given: the payload of the newest pair, or nothing.
     */
    method Send(env: Surroundings) returns (ok: bool, handed: Option<seq<byte>>)
      requires Valid()
      modifies this, left, right
      ensures Valid()
      ensures stats.submitted == old(stats).submitted + 1
      ensures stats.sent == old(stats).sent + (if ok then 1 else 0)
      ensures stats.encodePending == old(stats).encodePending
                + (if env.connected && !Raises(env.fault, old(Encoding()))
                   && (pendingLeft == None || pendingRight == None)
                      && pairs == (if old(Encoding()) then old(pairs) else []) then 1 else 0)
      ensures ok <==> handed.Some? && env.delivered
      ensures var before := if old(Encoding()) then old(pairs) else [];
              if handed.Some? then env.connected && OneMore(before, env.captureTimeNs, handed.value)
              else if env.connected then pairs == before
              else unchanged(this`left, this`right, this`pendingLeft, this`pendingRight, this`pairs)
    {
      if !env.connected {
        stats := stats.(submitted := stats.submitted + 1, dropped := stats.dropped + 1);
        return false, None;
      }
      var outcome := NextPayload(env);
      handed := if outcome.Formed? then Some(outcome.payload) else None;
      ok := outcome.Formed? && env.delivered;
      stats := Stats(stats.submitted + 1,
                     stats.sent + (if ok then 1 else 0),
                     stats.dropped + (if !ok && outcome != NotReady then 1 else 0),
                     stats.encodePending + (if outcome == NotReady then 1 else 0));
    }
  }
}
