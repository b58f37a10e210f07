/**
 What `H264AnnexBDecoder` keeps over every run: published indices, ready maps, receive
 times, resources and acknowledgements.
 */
module StereoPublishing {
  import opened Bytes
  import opened Wire
  import opened SurfaceDrain
  import opened VideoDecoder

  // ----- the invariant ------------------------------------------------------------------------

  predicate Increasing(fs: seq<u64>) {
    forall i, j :: 0 <= i < j < |fs| ==> fs[i] < fs[j]
  }

  predicate AllTrue(m: map<u64, bool>) {
    forall f :: f in m ==> m[f]
  }

  /** Published indices of the epoch: strictly increasing, shown by both eyes, and the end of the history. */
  predicate PublishedInv(s: State) {
    var m, e := s.stream, s.log.epoch;
    && (m.hasPublished <==> e.published != [])
    && (m.hasPublished ==> m.lastPublished == e.published[|e.published| - 1])
    && Increasing(e.published)
    && (forall f :: f in e.published ==> f in e.leftShown && f in e.rightShown)
    && |e.published| <= |s.log.history|
    && s.log.history[|s.log.history| - |e.published|..] == e.published
  }

  predicate ReadyInv(s: State) {
    var m, e := s.stream, s.log.epoch;
    && AllTrue(m.leftReady) && AllTrue(m.rightReady)
    && m.leftReady.Keys <= e.leftShown && m.rightReady.Keys <= e.rightShown
  }

  /** No frame above the last published one is ready on both sides. */
  predicate NothingMissed(m: Stream) {
    forall f :: f in m.leftReady && f in m.rightReady ==> m.hasPublished && f <= m.lastPublished
  }

  /** The time of the latest call in which both codecs took frame `f`. */
  function LastBoth(calls: seq<Call>, f: u64): (t: Option<int>)
    ensures t.Some? <==> exists i :: 0 <= i < |calls| && calls[i].frame == f && calls[i].left && calls[i].right
    ensures t.Some? ==> exists i :: 0 <= i < |calls| && calls[i] == Call(f, true, true, t.value)
  {
    if calls == [] then None
    else
      var c := calls[|calls| - 1];
      if c.frame == f && c.left && c.right then Some(c.time) else LastBoth(calls[..|calls| - 1], f)
  }

  function ReceiveTime(m: Stream, f: u64): (t: Option<int>) {
    if f in m.receiveTime then Some(m.receiveTime[f]) else None
  }

  /** Receive times of unpublished frames are those of the latest call that fed both eyes. */
  ghost predicate TimeInv(s: State) {
    forall f: u64 :: !(s.stream.hasPublished && f <= s.stream.lastPublished) ==>
                  ReceiveTime(s.stream, f) == LastBoth(s.log.epoch.calls, f)
  }

  ghost predicate Inv(s: State) {
    Coherent(s) && PublishedInv(s) && ReadyInv(s) && NothingMissed(s.stream) && TimeInv(s)
  }

  lemma StoppedInv(s: State)
    requires Coherent(s)
    ensures Inv(Stopped(s))
  {
    assert s.log.history[|s.log.history|..] == [];
  }

  lemma ReadiedInv(s: State, h: VideoFrameHeader, env: Env)
    requires Inv(s)
    ensures Inv(Readied(s, h, env)) && Readied(s, h, env).log.history == s.log.history
  {
    ReadiedIsCoherent(s, h, env);
    StoppedInv(s);
    StoppedInv(Stopped(s));
    var s1 := if Restarts(s.stream, h.frameIndex) then Stopped(s) else s;
    StoppedInv(s1);
    var open := Stopped(s1).(res := Opened(h, env), log := Stopped(s1).log.(acquired := Stopped(s1).log.acquired + 2));
    if env.leftCreated && env.rightCreated {
      assert Inv(open);
    }
  }

  lemma FedTime(s: State, c: Call)
    requires TimeInv(s)
    ensures TimeInv(Fed(s, c))
  {
    var r := Fed(s, c);
    var calls := s.log.epoch.calls;
    forall f: u64 | !(r.stream.hasPublished && f <= r.stream.lastPublished)
      ensures ReceiveTime(r.stream, f) == LastBoth(calls + [c], f)
    {
      assert (calls + [c])[..|calls|] == calls;
      assert ReceiveTime(s.stream, f) == LastBoth(calls, f);
    }
  }

  /** Draining the codecs marks what they showed, and touches nothing else of the invariant. */
  lemma GatheredInv(s: State, env: Env)
    requires Coherent(s) && PublishedInv(s) && ReadyInv(s) && TimeInv(s)
    ensures var b := Gathered(s, env);
            Coherent(b) && PublishedInv(b) && ReadyInv(b) && TimeInv(b) && b.log.history == s.log.history
            && b.stream.pendingAcks == s.stream.pendingAcks
  {
  }

  /** Everything but the pairing survives until a frame is chosen. */
  lemma BeforePublishInv(s: State, h: VideoFrameHeader, env: Env)
    requires Inv(s) && ReachesCodecs(s, h, env)
    ensures var b := BeforePublish(s, h, env);
            Coherent(b) && PublishedInv(b) && ReadyInv(b) && TimeInv(b) && b.log.history == s.log.history
    ensures BeforePublish(s, h, env).stream.pendingAcks == Readied(s, h, env).stream.pendingAcks
  {
    var r, c := Readied(s, h, env), CallOf(h, env);
    ReadiedInv(s, h, env);
    FedTime(r, c);
    GatheredInv(Fed(r, c), env);
  }

  lemma PublishKeepsPublished(b: State, f: u64, now: int)
    requires PublishedInv(b) && ReadyInv(b) && IsCandidate(b.stream, f)
    ensures PublishedInv(Publish(b, f, now))
    ensures forall g :: g in b.log.epoch.published ==> g < f
  {
    var p, history := b.log.epoch.published, b.log.history;
    assert forall i :: 0 <= i < |p| ==> p[i] <= p[|p| - 1];
    assert (history + [f])[|history| - |p|..] == p + [f];
  }

  lemma PublishKeepsTime(b: State, f: u64, now: int)
    requires TimeInv(b) && IsCandidate(b.stream, f)
    ensures TimeInv(Publish(b, f, now))
  {
    var r := Publish(b, f, now);
    forall g: u64 | !(r.stream.hasPublished && g <= r.stream.lastPublished)
      ensures ReceiveTime(r.stream, g) == LastBoth(r.log.epoch.calls, g)
    {
      assert ReceiveTime(b.stream, g) == LastBoth(b.log.epoch.calls, g);
    }
  }

  /** Publishing the largest candidate re-establishes the invariant. */
  lemma ClosedInv(b: State, choice: Option<u64>, now: int)
    requires Coherent(b) && PublishedInv(b) && ReadyInv(b) && TimeInv(b) && IsChoice(b.stream, choice)
    ensures Inv(Closed(b, choice, now))
  {
    if choice.Some? {
      var r := Publish(b, choice.value, now);
      PublishKeepsPublished(b, choice.value, now);
      PublishKeepsTime(b, choice.value, now);
      assert NothingMissed(r.stream) by {
        assert forall g :: g in r.stream.leftReady && g in r.stream.rightReady ==> IsCandidate(b.stream, g);
      }
    }
  }

  /**
   `f` is published between `b`, the state with all shown frames marked, and `r`: both eyes
   showed it in this epoch, it is above everything published in the epoch and the largest
   frame ready on both sides, and one acknowledgement of it is queued.
   */
  predicate Publication(b: State, r: State, f: u64) {
    && r.log.history == b.log.history + [f]
    && f in b.log.epoch.leftShown && f in b.log.epoch.rightShown
    && (forall g :: g in b.log.epoch.published ==> g < f)
    && (forall g :: g in b.stream.leftReady && g in b.stream.rightReady ==> g <= f)
    && r.stream.pendingAcks == b.stream.pendingAcks + [Ack(f, r.stream.latencyNs)]
    && r.log.epoch == b.log.epoch.(published := b.log.epoch.published + [f])
  }

  lemma ChosenIsPublication(b: State, f: u64, now: int)
    requires PublishedInv(b) && ReadyInv(b) && IsChoice(b.stream, Some(f))
    ensures Publication(b, Publish(b, f, now), f)
  {
    PublishKeepsPublished(b, f, now);
    forall g | g in b.stream.leftReady && g in b.stream.rightReady
      ensures g <= f
    {
      assert IsCandidate(b.stream, g) || (b.stream.hasPublished && g <= b.stream.lastPublished);
    }
  }

  /**
   Stereo publishing, for ANY codec answers: a call of `decode` keeps the invariant, and
   publishes nothing or exactly one frame.
   */
  lemma DecodePublishes(s: State, h: VideoFrameHeader, env: Env, r: State)
    requires Inv(s) && Decodes(s, h, env, r)
    ensures Inv(r)
    ensures || (r.log.history == s.log.history && r.stream.pendingAcks == Readied(s, h, env).stream.pendingAcks)
            || (ReachesCodecs(s, h, env) && exists f :: Publication(BeforePublish(s, h, env), r, f))
  {
    ReadiedInv(s, h, env);
    if ReachesCodecs(s, h, env) {
      var b := BeforePublish(s, h, env);
      BeforePublishInv(s, h, env);
      var choice :| IsChoice(b.stream, choice) && r == Closed(b, choice, env.publishNow);
      ClosedInv(b, choice, env.publishNow);
      if choice.Some? {
        ChosenIsPublication(b, choice.value, env.publishNow);
      }
    }
  }

  // ----- latency: whose receive time is acknowledged -------------------------------------------

  /** The timestamps one codec accepted in this epoch. */
  predicate AcceptedTimestamp(calls: seq<Call>, leftEye: bool, t: i64) {
    exists i :: 0 <= i < |calls| && (if leftEye then calls[i].left else calls[i].right) && ToSigned(calls[i].frame) == t
  }

  /** The codec axiom: a codec outputs only timestamps it accepted since it was created. */
  predicate HonestCodecs(b: State, env: Env) {
    && (forall o :: o in Dequeued(env.leftOutputs, DRAIN_LIMIT) && o.OutputBuffer? ==>
        AcceptedTimestamp(b.log.epoch.calls, true, o.timestamp))
    && (forall o :: o in Dequeued(env.rightOutputs, DRAIN_LIMIT) && o.OutputBuffer? ==>
        AcceptedTimestamp(b.log.epoch.calls, false, o.timestamp))
  }

  /** Indices that survive the trip through the codec's signed timestamp. */
  predicate SmallFrames(calls: seq<Call>) {
    forall i :: 0 <= i < |calls| ==> calls[i].frame < TWO63
  }

  predicate DistinctFrames(calls: seq<Call>) {
    forall i, j :: 0 <= i < j < |calls| ==> calls[i].frame != calls[j].frame
  }

  predicate AcceptedFrame(calls: seq<Call>, leftEye: bool, f: u64) {
    exists i :: 0 <= i < |calls| && (if leftEye then calls[i].left else calls[i].right) && calls[i].frame == f
  }

  /** Every shown frame was accepted by the codec that showed it. */
  predicate ShownAccepted(e: Epoch) {
    && (forall f :: f in e.leftShown ==> AcceptedFrame(e.calls, true, f))
    && (forall f :: f in e.rightShown ==> AcceptedFrame(e.calls, false, f))
  }

  lemma AcceptedFrameGrows(calls: seq<Call>, c: Call, leftEye: bool, f: u64)
    requires AcceptedFrame(calls, leftEye, f)
    ensures AcceptedFrame(calls + [c], leftEye, f)
  {
    var i :| 0 <= i < |calls| && (if leftEye then calls[i].left else calls[i].right) && calls[i].frame == f;
    assert (calls + [c])[i] == calls[i];
  }

  lemma DrainedIsAccepted(calls: seq<Call>, leftEye: bool, outputs: seq<OutputAnswer>, f: u64)
    requires SmallFrames(calls)
    requires forall o :: o in Dequeued(outputs, DRAIN_LIMIT) && o.OutputBuffer? ==>
             AcceptedTimestamp(calls, leftEye, o.timestamp)
    requires f in Drained(outputs)
    ensures AcceptedFrame(calls, leftEye, f)
  {
    var buffers := Dequeued(outputs, DRAIN_LIMIT);
    ShownIsDequeued(buffers, Latest(buffers), f);
    var i :| 0 <= i < |buffers| && FrameOf(buffers[i].timestamp) == f;
    assert buffers[i] in buffers;
    var k :| 0 <= k < |calls| && (if leftEye then calls[k].left else calls[k].right)
        && ToSigned(calls[k].frame) == buffers[i].timestamp;
    assert calls[k].frame == f;
  }

  lemma ShownStaysAccepted(s: State, h: VideoFrameHeader, env: Env)
    requires ReachesCodecs(s, h, env) && ShownAccepted(s.log.epoch)
    requires SmallFrames(BeforePublish(s, h, env).log.epoch.calls) && HonestCodecs(BeforePublish(s, h, env), env)
    ensures ShownAccepted(BeforePublish(s, h, env).log.epoch)
  {
    var r, c, b := Readied(s, h, env), CallOf(h, env), BeforePublish(s, h, env);
    assert ShownAccepted(r.log.epoch);
    forall f | f in b.log.epoch.leftShown
      ensures AcceptedFrame(b.log.epoch.calls, true, f)
    {
      if f in r.log.epoch.leftShown {
        AcceptedFrameGrows(r.log.epoch.calls, c, true, f);
      } else {
        DrainedIsAccepted(b.log.epoch.calls, true, env.leftOutputs, f);
      }
    }
    forall f | f in b.log.epoch.rightShown
      ensures AcceptedFrame(b.log.epoch.calls, false, f)
    {
      if f in r.log.epoch.rightShown {
        AcceptedFrameGrows(r.log.epoch.calls, c, false, f);
      } else {
        DrainedIsAccepted(b.log.epoch.calls, false, env.rightOutputs, f);
      }
    }
  }

  /** Some single call fed frame `f` to both codecs. */
  predicate FedTogether(calls: seq<Call>, f: u64) {
    exists i :: 0 <= i < |calls| && calls[i].frame == f && calls[i].left && calls[i].right
  }

  /**
   The acknowledged latency, exactly: it is the time since a call that fed the frame to both
   codecs (the latest one) if and only if there was such a call; otherwise a stale value is sent.
   */
  lemma LatencyIsOwnIffFedTogether(b: State, f: u64, now: int)
    requires TimeInv(b) && IsCandidate(b.stream, f)
    ensures var calls := b.log.epoch.calls;
            && (f in b.stream.receiveTime <==> FedTogether(calls, f))
            && (FedTogether(calls, f) ==> Publish(b, f, now).stream.latencyNs == now - LastBoth(calls, f).value)
            && (!FedTogether(calls, f) ==> Publish(b, f, now).stream.latencyNs == b.stream.latencyNs)
  {
    assert ReceiveTime(b.stream, f) == LastBoth(b.log.epoch.calls, f);
  }

  lemma PublicationIsChoice(s: State, h: VideoFrameHeader, env: Env, r: State, f: u64)
    requires ReachesCodecs(s, h, env) && Decodes(s, h, env, r) && Publication(BeforePublish(s, h, env), r, f)
    ensures IsChoice(BeforePublish(s, h, env).stream, Some(f))
            && r == Publish(BeforePublish(s, h, env), f, env.publishNow)
  {
    var b := BeforePublish(s, h, env);
    var choice :| IsChoice(b.stream, choice) && r == Closed(b, choice, env.publishNow);
    assert |r.log.history| == |b.log.history| + 1 && r.log.history[|b.log.history|] == f;
    match choice {
      case None => assert false;
      case Some(g) => assert r.log.history == b.log.history + [g];
    }
  }

  /** Both codecs accepted the frame, and its index is used once: one call fed them both. */
  lemma AcceptedByBothIsFedTogether(calls: seq<Call>, f: u64)
    requires DistinctFrames(calls) && AcceptedFrame(calls, true, f) && AcceptedFrame(calls, false, f)
    ensures FedTogether(calls, f)
  {
    var i :| 0 <= i < |calls| && calls[i].left && calls[i].frame == f;
    var j :| 0 <= j < |calls| && calls[j].right && calls[j].frame == f;
    assert i == j;
  }

  /** One call fed frame `f` to both codecs, and at time `now` it is `latencyNs` ago. */
  predicate CountsFromCall(calls: seq<Call>, f: u64, latencyNs: int, now: int) {
    exists i :: 0 <= i < |calls| && calls[i] == Call(f, true, true, now - latencyNs)
  }

  /** A chosen frame that both codecs accepted: one call fed them both, and its time is the one used. */
  lemma ChoiceIsFresh(b: State, f: u64, now: int)
    requires TimeInv(b) && IsCandidate(b.stream, f)
    requires AcceptedFrame(b.log.epoch.calls, true, f) && AcceptedFrame(b.log.epoch.calls, false, f)
             && DistinctFrames(b.log.epoch.calls)
    ensures CountsFromCall(b.log.epoch.calls, f, Publish(b, f, now).stream.latencyNs, now)
  {
    AcceptedByBothIsFedTogether(b.log.epoch.calls, f);
    LatencyIsOwnIffFedTogether(b, f, now);
  }

  /**
   With honest codecs and distinct frame indices in the epoch, a published frame was accepted by
   both codecs in one and the same call, and the acknowledged latency is counted from that call.
   */
  lemma PublishedFrameIsFresh(s: State, h: VideoFrameHeader, env: Env, r: State, f: u64)
    requires Inv(s) && ShownAccepted(s.log.epoch) && ReachesCodecs(s, h, env)
    requires Decodes(s, h, env, r) && Publication(BeforePublish(s, h, env), r, f)
    requires var b := BeforePublish(s, h, env);
             SmallFrames(b.log.epoch.calls) && DistinctFrames(b.log.epoch.calls) && HonestCodecs(b, env)
    ensures ShownAccepted(r.log.epoch)
    ensures CountsFromCall(r.log.epoch.calls, f, r.stream.latencyNs, env.publishNow)
  {
    var b := BeforePublish(s, h, env);
    assert ShownAccepted(b.log.epoch) by { ShownStaysAccepted(s, h, env); }
    assert TimeInv(b) by { BeforePublishInv(s, h, env); }
    PublicationIsChoice(s, h, env, r, f);
    ChoiceIsFresh(b, f, env.publishNow);
  }

  // ----- acknowledgements over whole runs ----------------------------------------------------------

  /** The client: its decoder, and the acknowledgements that went out. */
  datatype Client = Client(decoder: State, sent: seq<Ack>)

  /**
   One video packet: its header, how codecs, surfaces and clocks answer, and whether the
   acknowledgement can be sent.
   */
  datatype Event = Event(h: VideoFrameHeader, env: Env, sendable: bool)

  function Taken(s: State): (r: State) {
    s.(stream := s.stream.(pendingAcks := []))
  }

  /** `handleVideoPayload` and then `sendVideoDecodeAcks`. */
  ghost predicate ClientStep(c: Client, e: Event, c': Client) {
    exists mid ::
      && Decodes(c.decoder, e.h, e.env, mid)
      && c' == Client(Taken(mid), c.sent + if e.sendable then mid.stream.pendingAcks else [])
  }

  class QuestClient {
    const decoder: H264AnnexBDecoder
    ghost var sent: seq<Ack>

    constructor ()
      ensures fresh(decoder) && decoder.Abs() == INITIAL && sent == []
    {
      decoder := new H264AnnexBDecoder();
      sent := [];
    }

    /** A video packet: decode, then send what the decoder acknowledges. */
    method HandleVideo(e: Event) returns (ok: bool)
      requires Coherent(decoder.Abs())
      modifies this, decoder
      ensures ClientStep(Client(old(decoder.Abs()), old(sent)), e, Client(decoder.Abs(), sent))
      ensures !ok ==> !e.sendable && sent == old(sent)
    {
      var decoded := decoder.Decode(e.h, e.env);
      ghost var mid := decoder.Abs();
      var acks := decoder.TakeAcks();
      assert decoder.Abs() == Taken(mid);
      if e.sendable {
        sent := sent + acks;
      }
      ok := e.sendable || acks == [];
    }
  }

  function AckFrames(acks: seq<Ack>): (fs: seq<u64>)
    ensures |fs| == |acks|
  {
    if acks == [] then [] else AckFrames(acks[..|acks| - 1]) + [acks[|acks| - 1].frame]
  }

  lemma AckFramesSnoc(acks: seq<Ack>, a: Ack)
    ensures AckFrames(acks + [a]) == AckFrames(acks) + [a.frame]
  {
    assert (acks + [a])[..|acks|] == acks;
  }

  /** `a` is `b` with some elements left out, as witnessed by the increasing positions `at`. */
  predicate Selects(a: seq<u64>, b: seq<u64>, at: seq<nat>) {
    && |at| == |a|
    && (forall i :: 0 <= i < |at| ==> at[i] < |b| && a[i] == b[at[i]])
    && (forall i, j :: 0 <= i < j < |at| ==> at[i] < at[j])
  }

  ghost predicate IsSubsequence(a: seq<u64>, b: seq<u64>) {
    exists at: seq<nat> :: Selects(a, b, at)
  }

  /** Between packets: no acknowledgement is pending, and those sent are published frames in order. */
  ghost predicate ClientInv(c: Client) {
    Inv(c.decoder) && c.decoder.stream.pendingAcks == [] && IsSubsequence(AckFrames(c.sent), c.decoder.log.history)
  }

  lemma ReadiedAcks(s: State, h: VideoFrameHeader, env: Env)
    requires s.stream.pendingAcks == []
    ensures Readied(s, h, env).stream.pendingAcks == []
  {
  }

  lemma AckOfPublication(b: State, r: State, f: u64)
    requires Publication(b, r, f) && b.stream.pendingAcks == []
    ensures r.stream.pendingAcks == [Ack(f, r.stream.latencyNs)] && r.log.history == b.log.history + [f]
  {
  }

  /** Entered with none pending, `decode` leaves at most one acknowledgement: that of the frame it published. */
  lemma DecodeAcks(s: State, h: VideoFrameHeader, env: Env, r: State) returns (ack: Option<Ack>)
    requires Inv(s) && s.stream.pendingAcks == [] && Decodes(s, h, env, r)
    ensures Inv(r)
    ensures ack == None ==> r.stream.pendingAcks == [] && r.log.history == s.log.history
    ensures ack.Some? ==> r.stream.pendingAcks == [ack.value] && r.log.history == s.log.history + [ack.value.frame]
  {
    DecodePublishes(s, h, env, r);
    ReadiedAcks(s, h, env);
    if r.log.history == s.log.history && r.stream.pendingAcks == [] {
      ack := None;
    } else {
      var f :| Publication(BeforePublish(s, h, env), r, f);
      BeforePublishInv(s, h, env);
      AckOfPublication(BeforePublish(s, h, env), r, f);
      ack := Some(Ack(f, r.stream.latencyNs));
    }
  }

  lemma ClientStepParts(c: Client, e: Event, c': Client) returns (ack: Option<Ack>)
    requires Inv(c.decoder) && c.decoder.stream.pendingAcks == [] && ClientStep(c, e, c')
    ensures Inv(c'.decoder) && c'.decoder.stream.pendingAcks == []
    ensures c'.sent == if e.sendable && ack.Some? then c.sent + [ack.value] else c.sent
    ensures c'.decoder.log.history
         == if ack.Some? then c.decoder.log.history + [ack.value.frame] else c.decoder.log.history
  {
    var mid :| Decodes(c.decoder, e.h, e.env, mid)
        && c' == Client(Taken(mid), c.sent + if e.sendable then mid.stream.pendingAcks else []);
    ack := DecodeAcks(c.decoder, e.h, e.env, mid);
    TakenInv(mid);
    assert c.sent + [] == c.sent;
  }

  /** Everything published was acknowledged, in order. */
  predicate AllAcked(c: Client) {
    AckFrames(c.sent) == c.decoder.log.history
  }

  /** The effect of one packet on the two streams: none, or the same frame on both, or a lost acknowledgement. */
  lemma ClientStepInv(c: Client, e: Event, c': Client)
    requires ClientInv(c) && ClientStep(c, e, c')
    ensures ClientInv(c')
    ensures e.sendable && AllAcked(c) ==> AllAcked(c')
  {
    var ack := ClientStepParts(c, e, c');
    if ack.Some? {
      SubsequenceGrows(AckFrames(c.sent), c.decoder.log.history, ack.value.frame);
      AckFramesSnoc(c.sent, ack.value);
    }
  }

  lemma TakenInv(s: State)
    requires Inv(s)
    ensures Inv(Taken(s))
  {
    assert forall f :: ReceiveTime(Taken(s).stream, f) == ReceiveTime(s.stream, f);
  }

  lemma SubsequenceGrows(a: seq<u64>, b: seq<u64>, x: u64)
    requires IsSubsequence(a, b)
    ensures IsSubsequence(a, b + [x]) && IsSubsequence(a + [x], b + [x])
  {
    var at: seq<nat> :| Selects(a, b, at);
    assert Selects(a, b + [x], at);
    assert Selects(a + [x], b + [x], at + [|b|]);
  }

  ghost predicate ClientRun(cs: seq<Client>, es: seq<Event>) {
    && |cs| == |es| + 1 && cs[0] == Client(INITIAL, [])
    && forall i :: 0 <= i < |es| ==> ClientStep(cs[i], es[i], cs[i + 1])
  }

  predicate NoSendFails(es: seq<Event>, n: nat)
    requires n <= |es|
  {
    forall i :: 0 <= i < n ==> es[i].sendable
  }

  lemma InitialInv()
    ensures ClientInv(Client(INITIAL, [])) && AllAcked(Client(INITIAL, []))
  {
    StoppedInv(INITIAL);
    assert Stopped(INITIAL) == INITIAL;
    assert Selects(AckFrames([]), INITIAL.log.history, []);
  }

  /**
   The acknowledgement stream over every run, across any number of decoder restarts: the
   acknowledgements sent are published frames in publishing order, each at most once, and with
   no send failure they are exactly the published frames.
   */
  lemma {:induction false} AckStreamIsPublishStream(cs: seq<Client>, es: seq<Event>, n: nat)
    requires ClientRun(cs, es) && n <= |es|
    ensures ClientInv(cs[n])
    ensures NoSendFails(es, n) ==> AllAcked(cs[n])
  {
    if n == 0 {
      InitialInv();
    } else {
      AckStreamIsPublishStream(cs, es, n - 1);
      assert ClientStep(cs[n - 1], es[n - 1], cs[n - 1 + 1]);
      ClientStepInv(cs[n - 1], es[n - 1], cs[n]);
    }
  }

  // ----- a repeated frame index ------------------------------------------------------------------------

  /** An environment in which only one codec takes the access unit, and both answer `outputs`. */
  function OneEye(leftEye: bool, outputs: seq<OutputAnswer>, now: int): (env: Env) {
    var yes := InputBuffer(0x10000, true);
    Env(true, true, true,
        if leftEye then yes else NoInput, if leftEye then NoInput else yes, outputs, outputs, now, now)
  }

  /** One non-empty buffer is dequeued and shown. */
  lemma OneBuffer(buffer: OutputAnswer)
    requires buffer.OutputBuffer? && buffer.size > 0
    ensures Dequeued([buffer], DRAIN_LIMIT) == [buffer] && Drained([buffer]) == [FrameOf(buffer.timestamp)]
  {
    var buffers := [buffer];
    assert buffers[1..] == [] && buffers[..0] == [];
    assert Dequeued(buffers, DRAIN_LIMIT) == [buffer] + [];
    assert Latest(buffers) == Some(buffer);
    assert Shown(buffers, Some(buffer)) == [FrameOf(buffer.timestamp)] + [];
  }

  /** An environment in which both codecs take the access unit and show it at once. */
  function BothEyes(f: u64, now: int): (env: Env)
    requires f < TWO63
  {
    var yes, outputs := InputBuffer(0x10000, true), [OutputBuffer(0, f, 1)];
    Env(true, true, true, yes, yes, outputs, outputs, now, now)
  }

  /** The decoder runs at the size of `h`, nothing is half ready, and `h` is newer than what was published. */
  predicate Expecting(d: State, h: VideoFrameHeader) {
    && Running(d.res, h) && d.stream.leftReady == map[] && d.stream.rightReady == map[] && d.stream.pendingAcks == []
    && !(d.stream.hasPublished && h.frameIndex <= d.stream.lastPublished)
  }

  /** A frame that goes straight through both codecs is published and acknowledged. */
  lemma StraightThrough(s: State, h: VideoFrameHeader, t: int) returns (r: State)
    requires WellSized(h) && h.leftPayloadSize < 0x10000 && h.rightPayloadSize < 0x10000 && h.frameIndex < TWO63
    requires Expecting(Readied(s, h, BothEyes(h.frameIndex, t)), h)
    ensures var e := BothEyes(h.frameIndex, t);
            Decodes(s, h, e, r) && HonestCodecs(BeforePublish(s, h, e), e)
    ensures r.stream.pendingAcks == [Ack(h.frameIndex, 0)]
    ensures Running(r.res, h) && r.stream.leftReady == map[] && r.stream.rightReady == map[]
    ensures r.stream.hasPublished && r.stream.lastPublished == h.frameIndex
  {
    var f, e := h.frameIndex, BothEyes(h.frameIndex, t);
    OneBuffer(OutputBuffer(0, f, 1));
    var d, b := Readied(s, h, e), BeforePublish(s, h, e);
    var calls := b.log.epoch.calls;
    assert calls[|calls| - 1] == Call(f, true, true, t) && ToSigned(f) == f;
    assert AcceptedTimestamp(calls, true, f) && AcceptedTimestamp(calls, false, f);
    assert Mark(map[], [f]) == map[f := true];
    assert IsChoice(b.stream, Some(f));
    r := Closed(b, Some(f), t);
  }

  /** A first frame that only the left codec takes, and no output yet: nothing is published. */
  lemma FirstHalf(h: VideoFrameHeader, t: int) returns (s: State)
    requires WellSized(h) && h.leftPayloadSize < 0x10000 && h.rightPayloadSize < 0x10000
    ensures Decodes(INITIAL, h, OneEye(true, [], t), s)
    ensures s.stream == EMPTY_STREAM && Running(s.res, h)
            && s.log.epoch == Epoch([Call(h.frameIndex, true, false, t)], {}, {}, [])
  {
    var b := BeforePublish(INITIAL, h, OneEye(true, [], t));
    assert Drained([]) == [] && ToSet([]) == {} && Mark(map[], []) == map[];
    assert IsChoice(b.stream, None);
    s := Closed(b, None, t);
  }

  /** The same index again, now taken by the right codec only, and both codecs show it. */
  lemma SecondHalf(s: State, h: VideoFrameHeader, t1: int, t2: int) returns (r: State)
    requires WellSized(h) && h.leftPayloadSize < 0x10000 && h.rightPayloadSize < 0x10000 && h.frameIndex < TWO63
    requires s.stream == EMPTY_STREAM && Running(s.res, h)
             && s.log.epoch == Epoch([Call(h.frameIndex, true, false, t1)], {}, {}, [])
    ensures var e := OneEye(false, [OutputBuffer(0, h.frameIndex, 1)], t2);
            Decodes(s, h, e, r) && HonestCodecs(BeforePublish(s, h, e), e)
    ensures r.stream.pendingAcks == [Ack(h.frameIndex, 0)]
  {
    var f, e := h.frameIndex, OneEye(false, [OutputBuffer(0, h.frameIndex, 1)], t2);
    OneBuffer(OutputBuffer(0, f, 1));
    var b := BeforePublish(s, h, e);
    var calls := b.log.epoch.calls;
    assert calls == [Call(f, true, false, t1), Call(f, false, true, t2)];
    assert calls[0].left && calls[1].right && ToSigned(f) == f;
    assert AcceptedTimestamp(calls, true, f) && AcceptedTimestamp(calls, false, f);
    assert IsChoice(b.stream, Some(f));
    r := Closed(b, Some(f), t2);
  }

  /**
   The same index submitted twice, each time taken by one codec only: for every index, size and
   pair of clock readings the frame is published with latency 0, which no receive time supports.
   */
  lemma RepeatedIndexIsStale(h: VideoFrameHeader, t1: int, t2: int) returns (s1: State, s2: State)
    requires WellSized(h) && h.leftPayloadSize < 0x10000 && h.rightPayloadSize < 0x10000 && h.frameIndex < TWO63
    ensures var e1, e2 := OneEye(true, [], t1), OneEye(false, [OutputBuffer(0, h.frameIndex, 1)], t2);
            && Decodes(INITIAL, h, e1, s1) && Decodes(s1, h, e2, s2)
            && HonestCodecs(BeforePublish(s1, h, e2), e2)
            && s2.stream.pendingAcks == [Ack(h.frameIndex, 0)]
  {
    s1 := FirstHalf(h, t1);
    s2 := SecondHalf(s1, h, t1, t2);
  }
}
