/**
 `drainSurfaceOutput`: take the finished output buffers of one codec, show the newest frame
 and give every buffer back. A codec is nondeterministic: what it answers is an argument.
 */
module SurfaceDrain {
  import opened Bytes
  import opened Wire

  // ----- codecs -------------------------------------------------------------------------

  /** How `dequeueInputBuffer`, the buffer's capacity and `queueInputBuffer` turn out. */
  datatype InputAnswer = NoInput | InputFailed | InputBuffer(capacity: nat, queued: bool)

  /** One answer of `dequeueOutputBuffer`. */
  datatype OutputAnswer = TryAgain | FormatChanged | OutputFailed | OutputBuffer(handle: nat, timestamp: i64, size: int)

  datatype Release = Release(handle: nat, render: bool)

  /** A live codec: the size it was made for, and the log of buffers given back to it. */
  datatype Codec = Codec(width: u32, height: u32, released: seq<Release>)

  /** `queueAccessUnit`: whether the codec accepted the access unit. */
  predicate Accepts(answer: InputAnswer, payloadSize: nat) {
    payloadSize != 0 && answer.InputBuffer? && answer.capacity >= payloadSize && answer.queued
  }

  /** `static_cast<uint64>(max(presentationTimeUs, 0))`. */
  function FrameOf(timestamp: i64): (f: u64)
    ensures f >= timestamp && (f == timestamp || (f == 0 && timestamp < 0))
  {
    if timestamp < 0 then 0 else timestamp
  }

  /** The buffers that `n` turns of the dequeue loop collect. */
  function Dequeued(outputs: seq<OutputAnswer>, n: nat): (buffers: seq<OutputAnswer>)
    ensures forall i :: 0 <= i < |buffers| ==> buffers[i].OutputBuffer?
    decreases n
  {
    if n == 0 || outputs == [] || outputs[0].TryAgain? || outputs[0].OutputFailed? then []
    else if outputs[0].FormatChanged? then Dequeued(outputs[1..], n - 1)
    else [outputs[0]] + Dequeued(outputs[1..], n - 1)
  }

  predicate AreBuffers(buffers: seq<OutputAnswer>) {
    forall i :: 0 <= i < |buffers| ==> buffers[i].OutputBuffer?
  }

  /** The first non-empty buffer with the largest frame index. */
  function Latest(buffers: seq<OutputAnswer>): (r: Option<OutputAnswer>)
    requires AreBuffers(buffers)
    ensures r.Some? ==> r.value in buffers && r.value.OutputBuffer? && r.value.size > 0
  {
    if buffers == [] then None
    else
      var before, last := Latest(buffers[..|buffers| - 1]), buffers[|buffers| - 1];
      if last.size > 0 && (before == None || FrameOf(last.timestamp) > FrameOf(before.value.timestamp))
      then Some(last) else before
  }

  predicate IsRendered(buffer: OutputAnswer, latest: Option<OutputAnswer>)
    requires buffer.OutputBuffer? && (latest.Some? ==> latest.value.OutputBuffer?)
  {
    latest.Some? && buffer.handle == latest.value.handle
  }

  /** The buffers given back, each with whether it is shown. */
  function Releases(buffers: seq<OutputAnswer>, latest: Option<OutputAnswer>): (rs: seq<Release>)
    requires AreBuffers(buffers) && (latest.Some? ==> latest.value.OutputBuffer?)
    ensures |rs| == |buffers|
    ensures forall i :: 0 <= i < |rs| ==> rs[i] == Release(buffers[i].handle, IsRendered(buffers[i], latest))
  {
    if buffers == [] then []
    else [Release(buffers[0].handle, IsRendered(buffers[0], latest))] + Releases(buffers[1..], latest)
  }

  /** The frame indices shown. */
  function Shown(buffers: seq<OutputAnswer>, latest: Option<OutputAnswer>): (frames: seq<u64>)
    requires AreBuffers(buffers) && (latest.Some? ==> latest.value.OutputBuffer?)
  {
    if buffers == [] then []
    else if !IsRendered(buffers[0], latest) then Shown(buffers[1..], latest)
    else [FrameOf(buffers[0].timestamp)] + Shown(buffers[1..], latest)
  }

  /** Only frames of dequeued buffers are shown. */
  lemma {:induction false} ShownIsDequeued(buffers: seq<OutputAnswer>, latest: Option<OutputAnswer>, f: u64)
    requires AreBuffers(buffers) && (latest.Some? ==> latest.value.OutputBuffer?)
    requires f in Shown(buffers, latest)
    ensures exists i :: 0 <= i < |buffers| && FrameOf(buffers[i].timestamp) == f
  {
    if !(IsRendered(buffers[0], latest) && FrameOf(buffers[0].timestamp) == f) {
      ShownIsDequeued(buffers[1..], latest, f);
      var i :| 0 <= i < |buffers[1..]| && FrameOf(buffers[1..][i].timestamp) == f;
      assert buffers[1..][i] == buffers[i + 1];
    }
  }

  const DRAIN_LIMIT: nat := 32

  function Drained(outputs: seq<OutputAnswer>): (frames: seq<u64>) {
    var buffers := Dequeued(outputs, DRAIN_LIMIT);
    Shown(buffers, Latest(buffers))
  }

  /** One turn of the dequeue loop. */
  lemma DequeueTurn(outputs: seq<OutputAnswer>, i: nat, n: nat)
    requires i < |outputs| && n > 0 && !outputs[i].TryAgain? && !outputs[i].OutputFailed?
    ensures Dequeued(outputs[i..], n)
         == (if outputs[i].OutputBuffer? then [outputs[i]] else []) + Dequeued(outputs[i + 1..], n - 1)
  {
    var rest := outputs[i..];
    assert rest[0] == outputs[i] && rest[1..] == outputs[i + 1..];
  }

  /** The dequeue loop: at most `limit` turns. */
  method DequeueOutputs(outputs: seq<OutputAnswer>, limit: nat) returns (buffers: seq<OutputAnswer>)
    ensures buffers == Dequeued(outputs, limit)
  {
    buffers := [];
    var iteration := 0;
    assert outputs[0..] == outputs;
    while iteration < limit && iteration < |outputs|
      invariant 0 <= iteration <= limit && iteration <= |outputs|
      invariant buffers + Dequeued(outputs[iteration..], limit - iteration) == Dequeued(outputs, limit)
    {
      var answer := outputs[iteration];
      if answer.TryAgain? || answer.OutputFailed? {
        break;
      }
      DequeueTurn(outputs, iteration, limit - iteration);
      if answer.OutputBuffer? {
        ConcatAssociates(buffers, [answer], Dequeued(outputs[iteration + 1..], limit - iteration - 1));
        buffers := buffers + [answer];
      }
      iteration := iteration + 1;
    }
    assert Dequeued(outputs[iteration..], limit - iteration) == [];
  }

  /** The loop that picks the frame to show. */
  method ChooseLatest(buffers: seq<OutputAnswer>) returns (latest: Option<OutputAnswer>)
    requires AreBuffers(buffers)
    ensures latest == Latest(buffers)
  {
    latest := None;
    for i := 0 to |buffers|
      invariant latest == Latest(buffers[..i])
    {
      assert buffers[..i + 1][..i] == buffers[..i];
      if buffers[i].size > 0 && (latest == None || FrameOf(buffers[i].timestamp) > FrameOf(latest.value.timestamp)) {
        latest := Some(buffers[i]);
      }
    }
    assert buffers[..|buffers|] == buffers;
  }

  /** The release loop. */
  method ReleaseOutputs(codec: Codec, buffers: seq<OutputAnswer>, latest: Option<OutputAnswer>)
    returns (codec': Codec, frameIndices: seq<u64>)
    requires AreBuffers(buffers) && (latest.Some? ==> latest.value.OutputBuffer?)
    ensures codec' == codec.(released := codec.released + Releases(buffers, latest))
    ensures frameIndices == Shown(buffers, latest)
  {
    codec', frameIndices := codec, [];
    for i := 0 to |buffers|
      invariant codec' == codec.(released := codec'.released)
      invariant codec'.released + Releases(buffers[i..], latest) == codec.released + Releases(buffers, latest)
      invariant frameIndices + Shown(buffers[i..], latest) == Shown(buffers, latest)
    {
      var render := latest.Some? && buffers[i].handle == latest.value.handle;
      var release, frame := Release(buffers[i].handle, render), FrameOf(buffers[i].timestamp);
      assert buffers[i..][1..] == buffers[i + 1..];
      ConcatAssociates(codec'.released, [release], Releases(buffers[i + 1..], latest));
      ConcatAssociates(frameIndices, [frame], Shown(buffers[i + 1..], latest));
      codec' := codec'.(released := codec'.released + [release]);
      if render {
        frameIndices := frameIndices + [frame];
      }
    }
    assert Releases(buffers[|buffers|..], latest) == [] && Shown(buffers[|buffers|..], latest) == [];
  }

  /** `drainSurfaceOutput`: the codec's release log afterwards, and the frame indices shown. */
  method DrainSurfaceOutput(codec: Codec, outputs: seq<OutputAnswer>) returns (codec': Codec, frameIndices: seq<u64>)
    ensures frameIndices == Drained(outputs)
    ensures var buffers := Dequeued(outputs, DRAIN_LIMIT);
            codec' == codec.(released := codec.released + Releases(buffers, Latest(buffers)))
  {
    var buffers := DequeueOutputs(outputs, DRAIN_LIMIT);
    var latest := ChooseLatest(buffers);
    codec', frameIndices := ReleaseOutputs(codec, buffers, latest);
  }

  // ----- what a drain does, given distinct handles ---------------------------------------------

  predicate DistinctHandles(buffers: seq<OutputAnswer>)
    requires AreBuffers(buffers)
  {
    forall i, j :: 0 <= i < j < |buffers| ==> buffers[i].handle != buffers[j].handle
  }

  lemma {:induction false} LatestIsLargest(buffers: seq<OutputAnswer>)
    requires AreBuffers(buffers)
    ensures Latest(buffers) == None <==> forall i :: 0 <= i < |buffers| ==> buffers[i].size <= 0
    ensures Latest(buffers).Some? ==>
              forall i :: 0 <= i < |buffers| && buffers[i].size > 0 ==>
                FrameOf(buffers[i].timestamp) <= FrameOf(Latest(buffers).value.timestamp)
  {
    if buffers != [] {
      LatestIsLargest(buffers[..|buffers| - 1]);
      assert forall i :: 0 <= i < |buffers| - 1 ==> buffers[..|buffers| - 1][i] == buffers[i];
    }
  }

  /** Of buffers with the same index the first is chosen. */
  lemma {:induction false} LatestIsFirst(buffers: seq<OutputAnswer>)
    requires AreBuffers(buffers)
    ensures Latest(buffers).Some? ==>
              exists k :: 0 <= k < |buffers| && buffers[k] == Latest(buffers).value
                && forall i :: 0 <= i < k && buffers[i].size > 0 ==>
                     FrameOf(buffers[i].timestamp) < FrameOf(buffers[k].timestamp)
  {
    if buffers != [] {
      var before, last := buffers[..|buffers| - 1], |buffers| - 1;
      LatestIsFirst(before);
      LatestIsLargest(before);
      assert forall i :: 0 <= i < last ==> before[i] == buffers[i];
      if Latest(buffers) == Latest(before) && Latest(before).Some? {
        var k :| 0 <= k < |before| && before[k] == Latest(before).value
          && forall i :: 0 <= i < k && before[i].size > 0 ==>
               FrameOf(before[i].timestamp) < FrameOf(before[k].timestamp);
        assert buffers[k] == Latest(buffers).value;
      } else if Latest(buffers).Some? {
        assert buffers[last] == Latest(buffers).value;
      }
    }
  }

  lemma {:induction false} ShownOne(buffers: seq<OutputAnswer>, latest: Option<OutputAnswer>)
    requires AreBuffers(buffers) && DistinctHandles(buffers)
    requires latest.Some? ==> latest.value.OutputBuffer?
    ensures latest == None ==> Shown(buffers, latest) == []
    ensures latest.Some? && latest.value in buffers ==> Shown(buffers, latest) == [FrameOf(latest.value.timestamp)]
    ensures latest.Some? && (forall b :: b in buffers ==> b.handle != latest.value.handle) ==>
            Shown(buffers, latest) == []
  {
    if buffers != [] {
      ShownOne(buffers[1..], latest);
      if latest.Some? && buffers[0] == latest.value {
        forall b | b in buffers[1..]
          ensures b.handle != latest.value.handle
        {
          var i :| 0 <= i < |buffers[1..]| && buffers[1..][i] == b;
          assert buffers[i + 1] == b;
        }
      } else if latest.Some? && latest.value in buffers {
        var i :| 0 <= i < |buffers| && buffers[i] == latest.value;
        assert buffers[1..][i - 1] == latest.value;
        assert buffers[0].handle != buffers[i].handle;
      }
    }
  }

  /**
   Each drain gives back every dequeued buffer exactly once, in order, and shows at most one:
   the non-empty one with the largest frame index; it reports that frame and no other.
   */
  lemma DrainShowsTheLatest(outputs: seq<OutputAnswer>)
    requires DistinctHandles(Dequeued(outputs, DRAIN_LIMIT))
    ensures var buffers := Dequeued(outputs, DRAIN_LIMIT);
            var releases := Releases(buffers, Latest(buffers));
            && |releases| == |buffers|
            && (forall i :: 0 <= i < |buffers| ==> releases[i].handle == buffers[i].handle)
            && (forall i, j :: 0 <= i < j < |releases| ==> !(releases[i].render && releases[j].render))
            && (Drained(outputs) == [] <==> forall i :: 0 <= i < |buffers| ==> buffers[i].size <= 0)
            && (forall i :: 0 <= i < |buffers| && releases[i].render ==>
                  && Drained(outputs) == [FrameOf(buffers[i].timestamp)]
                  && buffers[i].size > 0
                  && forall j :: 0 <= j < |buffers| && buffers[j].size > 0 ==>
                       FrameOf(buffers[j].timestamp) <= FrameOf(buffers[i].timestamp))
  {
    var buffers := Dequeued(outputs, DRAIN_LIMIT);
    var latest := Latest(buffers);
    LatestIsLargest(buffers);
    ShownOne(buffers, latest);
    forall i | 0 <= i < |buffers| && Releases(buffers, latest)[i].render
      ensures buffers[i] == latest.value
    {
      var k :| 0 <= k < |buffers| && buffers[k] == latest.value;
      assert k == i;
    }
  }

  // ----- how much one drain takes ------------------------------------------------------------------

  /** The codec has nothing more, or failed. */
  predicate Stops(answer: OutputAnswer) { answer.TryAgain? || answer.OutputFailed? }

  function OnlyBuffers(outputs: seq<OutputAnswer>): (buffers: seq<OutputAnswer>)
    ensures AreBuffers(buffers)
  {
    if outputs == [] then []
    else (if outputs[0].OutputBuffer? then [outputs[0]] else []) + OnlyBuffers(outputs[1..])
  }

  lemma {:induction false} BufferIn(outputs: seq<OutputAnswer>, o: OutputAnswer)
    ensures o in OnlyBuffers(outputs) <==> o in outputs && o.OutputBuffer?
  {
    if outputs != [] {
      BufferIn(outputs[1..], o);
      assert outputs == [outputs[0]] + outputs[1..];
    }
  }

  /** Every answer in front of the stop is taken while there are turns left. */
  lemma {:induction false} TakesUpToStop(front: seq<OutputAnswer>, rest: seq<OutputAnswer>, n: nat)
    requires |front| <= n && forall i :: 0 <= i < |front| ==> !Stops(front[i])
    requires rest == [] || Stops(rest[0])
    ensures Dequeued(front + rest, n) == OnlyBuffers(front)
    decreases n
  {
    if front == [] {
      assert front + rest == rest;
    } else {
      assert (front + rest)[0] == front[0] && (front + rest)[1..] == front[1..] + rest;
      TakesUpToStop(front[1..], rest, n - 1);
    }
  }

  /** And no more answers than turns. */
  lemma {:induction false} TakesTurns(outputs: seq<OutputAnswer>, n: nat)
    requires n <= |outputs| && forall i :: 0 <= i < n ==> !Stops(outputs[i])
    ensures Dequeued(outputs, n) == OnlyBuffers(outputs[..n])
    decreases n
  {
    if n > 0 {
      assert outputs[..n][0] == outputs[0] && outputs[..n][1..] == outputs[1..][..n - 1];
      TakesTurns(outputs[1..], n - 1);
    }
  }

  /**
   `front` is what the codec answers before it stops. Of up to 32 answers every buffer is taken, of
   more those among the first 32; a changed format uses up a turn.
   */
  lemma DrainTakes(front: seq<OutputAnswer>, rest: seq<OutputAnswer>)
    requires forall i :: 0 <= i < |front| ==> !Stops(front[i])
    requires rest == [] || Stops(rest[0])
    ensures |front| <= 32 ==> Dequeued(front + rest, DRAIN_LIMIT) == OnlyBuffers(front)
    ensures |front| > 32 ==> Dequeued(front + rest, DRAIN_LIMIT) == OnlyBuffers(front[..32])
  {
    if |front| <= 32 {
      TakesUpToStop(front, rest, DRAIN_LIMIT);
    } else {
      assert (front + rest)[..32] == front[..32];
      TakesTurns(front + rest, DRAIN_LIMIT);
    }
  }

  /** Buffer `b` holds the newest frame of those that hold any. */
  predicate IsNewest(b: OutputAnswer, outputs: seq<OutputAnswer>) {
    && b in outputs && b.OutputBuffer? && b.size > 0
    && forall o :: o in outputs && o.OutputBuffer? && o.size > 0 ==> FrameOf(o.timestamp) <= FrameOf(b.timestamp)
  }

  /** A buffer with this handle is given back. */
  predicate GivenBack(o: OutputAnswer, releases: seq<Release>)
    requires o.OutputBuffer?
  {
    exists i :: 0 <= i < |releases| && releases[i].handle == o.handle
  }

  lemma AllGivenBack(buffers: seq<OutputAnswer>, latest: Option<OutputAnswer>, o: OutputAnswer)
    requires AreBuffers(buffers) && (latest.Some? ==> latest.value.OutputBuffer?) && o in buffers
    ensures o.OutputBuffer? && GivenBack(o, Releases(buffers, latest))
  {
    var i :| 0 <= i < |buffers| && buffers[i] == o;
    assert Releases(buffers, latest)[i].handle == o.handle;
  }

  /** The latest buffer of those taken is the newest of all, when all were taken. */
  lemma LatestIsNewest(buffers: seq<OutputAnswer>, front: seq<OutputAnswer>)
    requires AreBuffers(buffers) && forall o :: o in buffers <==> o in front && o.OutputBuffer?
    ensures Latest(buffers) == None <==> forall o :: o in front && o.OutputBuffer? ==> o.size <= 0
    ensures Latest(buffers).Some? ==> IsNewest(Latest(buffers).value, front)
  {
    LatestIsLargest(buffers);
    if Latest(buffers).Some? {
      forall o | o in front && o.OutputBuffer? && o.size > 0
        ensures FrameOf(o.timestamp) <= FrameOf(Latest(buffers).value.timestamp)
      {
        var i :| 0 <= i < |buffers| && buffers[i] == o;
      }
    } else {
      forall o | o in front && o.OutputBuffer?
        ensures o.size <= 0
      {
        var i :| 0 <= i < |buffers| && buffers[i] == o;
      }
    }
  }

  /** With at most 32 answers waiting, no buffer stays behind, and the newest frame of all is shown. */
  lemma DrainEmptiesTheCodec(front: seq<OutputAnswer>, rest: seq<OutputAnswer>)
    requires |front| <= 32 && forall i :: 0 <= i < |front| ==> !Stops(front[i])
    requires rest == [] || Stops(rest[0])
    requires DistinctHandles(OnlyBuffers(front))
    ensures var buffers := Dequeued(front + rest, DRAIN_LIMIT);
            forall o :: o in front && o.OutputBuffer? ==> GivenBack(o, Releases(buffers, Latest(buffers)))
    ensures Drained(front + rest) == [] <==> forall o :: o in front && o.OutputBuffer? ==> o.size <= 0
    ensures Drained(front + rest) != [] ==>
              exists b :: IsNewest(b, front) && Drained(front + rest) == [FrameOf(b.timestamp)]
  {
    var buffers := OnlyBuffers(front);
    var latest := Latest(buffers);
    DrainTakes(front, rest);
    forall o
      ensures o in buffers <==> o in front && o.OutputBuffer?
    {
      BufferIn(front, o);
    }
    LatestIsNewest(buffers, front);
    ShownOne(buffers, latest);
    forall o | o in front && o.OutputBuffer?
      ensures GivenBack(o, Releases(buffers, latest))
    {
      AllGivenBack(buffers, latest, o);
    }
  }
}
