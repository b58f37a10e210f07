/**
 Latency over whole runs of the client: which call every acknowledged latency counts from,
 across any number of decoder restarts, failed starts and frames that are never published.
 */
module AckFreshness {
  import opened Bytes
  import opened Wire
  import opened VideoDecoder
  import opened StereoPublishing

  /** The packet makes this call. */
  predicate Makes(c: Client, e: Event, call: Call) {
    ReachesCodecs(c.decoder, e.h, e.env) && CallOf(e.h, e.env) == call
  }

  /** The packet's frame `f` was fed to both codecs. */
  predicate FedBoth(c: Client, e: Event, f: u64) {
    Makes(c, e, Call(f, true, true, e.env.receiveNow))
  }

  /**
   What the codecs and the sender are asked for: the codec axiom, and indices that are small and not
   repeated in an epoch.
   */
  predicate HonestStep(c: Client, e: Event) {
    ReachesCodecs(c.decoder, e.h, e.env) ==>
      var b := BeforePublish(c.decoder, e.h, e.env);
      SmallFrames(b.log.epoch.calls) && DistinctFrames(b.log.epoch.calls) && HonestCodecs(b, e.env)
  }

  /** What one packet does to the epoch, apart from its published frames. */
  lemma EpochStep(c: Client, e: Event, c': Client)
    requires ClientStep(c, e, c')
    ensures ReachesCodecs(c.decoder, e.h, e.env) ==>
              c'.decoder.log.epoch == BeforePublish(c.decoder, e.h, e.env).log.epoch
                                         .(published := c'.decoder.log.epoch.published)
    ensures !ReachesCodecs(c.decoder, e.h, e.env) ==> c'.decoder.log.epoch == Readied(c.decoder, e.h, e.env).log.epoch
    ensures Readied(c.decoder, e.h, e.env).log.epoch == c.decoder.log.epoch
            || Readied(c.decoder, e.h, e.env).log.epoch == NEW_EPOCH
  {
  }

  lemma ShownAcceptedStep(c: Client, e: Event, c': Client)
    requires ClientStep(c, e, c') && HonestStep(c, e) && ShownAccepted(c.decoder.log.epoch)
    ensures ShownAccepted(c'.decoder.log.epoch)
  {
    EpochStep(c, e, c');
    if ReachesCodecs(c.decoder, e.h, e.env) {
      ShownStaysAccepted(c.decoder, e.h, e.env);
    }
  }

  /** The packet neither stops the decoder nor starts it anew. */
  predicate KeepsEpoch(c: Client, e: Event) {
    Readied(c.decoder, e.h, e.env).log.epoch == c.decoder.log.epoch
  }

  /** The calls of the epoch after a packet: those before, unless it began a new epoch, and its own. */
  lemma CallsAfterStep(c: Client, e: Event, c': Client, call: Call)
    requires ClientStep(c, e, c')
    ensures call in c'.decoder.log.epoch.calls <==>
              Makes(c, e, call) || (KeepsEpoch(c, e) && call in c.decoder.log.epoch.calls)
  {
    EpochStep(c, e, c');
    var calls := Readied(c.decoder, e.h, e.env).log.epoch.calls;
    assert forall x :: call in calls + [x] <==> call in calls || call == x;
  }

  /** Packets `j + 1` to `n - 1` keep the epoch. */
  predicate SameEpoch(cs: seq<Client>, es: seq<Event>, j: nat, n: nat)
    requires n <= |cs| && n <= |es|
  {
    forall k {:trigger KeepsEpoch(cs[k], es[k])} :: j < k < n ==> KeepsEpoch(cs[k], es[k])
  }

  /** One of the first `n` packets made the call, in the epoch that still lasts. */
  predicate CameFrom(cs: seq<Client>, es: seq<Event>, n: nat, call: Call)
    requires n < |cs| && n <= |es|
  {
    exists j :: 0 <= j < n && Makes(cs[j], es[j], call) && SameEpoch(cs, es, j, n)
  }

  lemma SameEpochStep(cs: seq<Client>, es: seq<Event>, j: nat, n: nat)
    requires j < n < |es| && n < |cs|
    ensures SameEpoch(cs, es, j, n + 1) <==> SameEpoch(cs, es, j, n) && KeepsEpoch(cs[n], es[n])
  {
  }

  lemma CameFromBefore(cs: seq<Client>, es: seq<Event>, n: nat, call: Call)
    requires n < |es| && n + 1 < |cs| && CameFrom(cs, es, n + 1, call) && !Makes(cs[n], es[n], call)
    ensures KeepsEpoch(cs[n], es[n]) && CameFrom(cs, es, n, call)
  {
    var j :| 0 <= j < n + 1 && Makes(cs[j], es[j], call) && SameEpoch(cs, es, j, n + 1);
    assert j != n;
    SameEpochStep(cs, es, j, n);
  }

  lemma CameFromStep(cs: seq<Client>, es: seq<Event>, n: nat, call: Call)
    requires n < |es| && n + 1 < |cs|
    ensures CameFrom(cs, es, n + 1, call) <==>
              Makes(cs[n], es[n], call) || (KeepsEpoch(cs[n], es[n]) && CameFrom(cs, es, n, call))
  {
    if Makes(cs[n], es[n], call) {
      assert SameEpoch(cs, es, n, n + 1);
    } else if CameFrom(cs, es, n + 1, call) {
      CameFromBefore(cs, es, n, call);
    } else if KeepsEpoch(cs[n], es[n]) && CameFrom(cs, es, n, call) {
      var j :| 0 <= j < n && Makes(cs[j], es[j], call) && SameEpoch(cs, es, j, n);
      SameEpochStep(cs, es, j, n);
    }
  }

  /** The calls of the epoch are exactly those that its packets made. */
  ghost predicate CallsFromRun(cs: seq<Client>, es: seq<Event>, n: nat)
    requires n < |cs| && n <= |es|
  {
    forall call :: call in cs[n].decoder.log.epoch.calls <==> CameFrom(cs, es, n, call)
  }

  lemma CallsStep(cs: seq<Client>, es: seq<Event>, n: nat)
    requires ClientRun(cs, es) && n < |es| && CallsFromRun(cs, es, n)
    ensures CallsFromRun(cs, es, n + 1)
  {
    assert ClientStep(cs[n], es[n], cs[n + 1]);
    forall call {:trigger CameFrom(cs, es, n + 1, call)}
      ensures call in cs[n + 1].decoder.log.epoch.calls <==> CameFrom(cs, es, n + 1, call)
    {
      CallsAfterStep(cs[n], es[n], cs[n + 1], call);
      CameFromStep(cs, es, n, call);
    }
  }

  lemma {:induction false} CallsOfRun(cs: seq<Client>, es: seq<Event>, n: nat)
    requires ClientRun(cs, es) && n <= |es|
    ensures CallsFromRun(cs, es, n)
  {
    if n > 0 {
      CallsOfRun(cs, es, n - 1);
      CallsStep(cs, es, n - 1);
    }
  }

  /**
   The frame published at step `i` was fed to both codecs by one packet of the same epoch, and its
   latency counts from there.
   */
  predicate FreshAt(cs: seq<Client>, es: seq<Event>, i: nat, ack: Ack)
    requires i < |cs| && i < |es|
  {
    exists j :: 0 <= j <= i && FedBoth(cs[j], es[j], ack.frame) && SameEpoch(cs, es, j, i + 1)
                && ack.latencyNs == es[i].env.publishNow - es[j].env.receiveNow
  }

  /** The packet published the acknowledged frame, and the acknowledgement went out if it could be sent. */
  predicate Published(c: Client, e: Event, c': Client, ack: Ack) {
    && c'.decoder.log.history == c.decoder.log.history + [ack.frame]
    && c'.sent == if e.sendable then c.sent + [ack] else c.sent
  }

  /** The pieces of one client step: the call of `decode`, and what is sent after it. */
  lemma StepOf(c: Client, e: Event, c': Client) returns (mid: State)
    requires ClientStep(c, e, c')
    ensures Decodes(c.decoder, e.h, e.env, mid) && c'.decoder.log == mid.log
    ensures c'.sent == if e.sendable then c.sent + mid.stream.pendingAcks else c.sent
  {
    mid :| Decodes(c.decoder, e.h, e.env, mid)
        && c' == Client(Taken(mid), c.sent + if e.sendable then mid.stream.pendingAcks else []);
    assert c.sent + [] == c.sent;
  }

  lemma StepParts(c: Client, e: Event, c': Client) returns (mid: State, ack: Option<Ack>)
    requires Inv(c.decoder) && c.decoder.stream.pendingAcks == [] && ClientStep(c, e, c')
    ensures Decodes(c.decoder, e.h, e.env, mid) && c'.decoder.log == mid.log
    ensures ack == None ==> c'.sent == c.sent && mid.log.history == c.decoder.log.history
    ensures ack.Some? ==> Published(c, e, c', ack.value) && mid.stream.pendingAcks == [ack.value]
                          && mid.log.history == c.decoder.log.history + [ack.value.frame]
  {
    mid := StepOf(c, e, c');
    ack := DecodeAcks(c.decoder, e.h, e.env, mid);
    assert c.sent + [] == c.sent;
  }

  /** A step that left an acknowledgement published its frame, with the latency it carries. */
  lemma PublicationOf(s: State, h: VideoFrameHeader, env: Env, mid: State, ack: Ack)
    requires Inv(s) && s.stream.pendingAcks == [] && Decodes(s, h, env, mid)
    requires mid.log.history == s.log.history + [ack.frame] && mid.stream.pendingAcks == [ack]
    ensures ReachesCodecs(s, h, env) && Publication(BeforePublish(s, h, env), mid, ack.frame)
            && mid.stream.latencyNs == ack.latencyNs
  {
    DecodePublishes(s, h, env, mid);
    assert |mid.log.history| != |s.log.history|;
    var f :| Publication(BeforePublish(s, h, env), mid, f);
    BeforePublishInv(s, h, env);
    assert mid.log.history[|s.log.history|] == f;
    assert mid.stream.pendingAcks[|mid.stream.pendingAcks| - 1] == Ack(f, mid.stream.latencyNs);
  }

  /** That frame was fed to both codecs by a call of the epoch, and its latency counts from there. */
  lemma PublishedHere(c: Client, e: Event, mid: State, ack: Ack)
    requires Inv(c.decoder) && c.decoder.stream.pendingAcks == [] && ShownAccepted(c.decoder.log.epoch)
             && HonestStep(c, e)
    requires Decodes(c.decoder, e.h, e.env, mid) && mid.log.history == c.decoder.log.history + [ack.frame]
    requires mid.stream.pendingAcks == [ack]
    ensures CountsFromCall(mid.log.epoch.calls, ack.frame, ack.latencyNs, e.env.publishNow)
  {
    PublicationOf(c.decoder, e.h, e.env, mid, ack);
    PublishedFrameIsFresh(c.decoder, e.h, e.env, mid, ack.frame);
  }

  /** And that call is one of the packets of the run. */
  lemma FreshFromCall(cs: seq<Client>, es: seq<Event>, n: nat, ack: Ack)
    requires n < |es| && n + 1 < |cs| && CallsFromRun(cs, es, n + 1)
    requires CountsFromCall(cs[n + 1].decoder.log.epoch.calls, ack.frame, ack.latencyNs, es[n].env.publishNow)
    ensures FreshAt(cs, es, n, ack)
  {
    var calls, call := cs[n + 1].decoder.log.epoch.calls,
                       Call(ack.frame, true, true, es[n].env.publishNow - ack.latencyNs);
    assert call in calls;
    assert CameFrom(cs, es, n + 1, call);
    var j :| 0 <= j < n + 1 && Makes(cs[j], es[j], call) && SameEpoch(cs, es, j, n + 1);
    assert FedBoth(cs[j], es[j], ack.frame);
  }

  /** What one packet publishes, and the call its acknowledgement counts from. */
  lemma StepPublishes(c: Client, e: Event, c': Client) returns (ack: Option<Ack>)
    requires Inv(c.decoder) && c.decoder.stream.pendingAcks == [] && ClientStep(c, e, c')
    requires HonestStep(c, e) && ShownAccepted(c.decoder.log.epoch)
    ensures ack == None ==> c'.sent == c.sent && c'.decoder.log.history == c.decoder.log.history
    ensures ack.Some? ==> Published(c, e, c', ack.value)
                          && CountsFromCall(c'.decoder.log.epoch.calls, ack.value.frame, ack.value.latencyNs,
                                            e.env.publishNow)
  {
    var mid;
    mid, ack := StepParts(c, e, c');
    if ack.Some? {
      PublishedHere(c, e, mid, ack.value);
    }
  }

  /** A packet that publishes: one frame, and the acknowledgement it makes is fresh. */
  lemma PublishStep(cs: seq<Client>, es: seq<Event>, n: nat) returns (ack: Option<Ack>)
    requires n < |es| && n + 1 < |cs| && ClientStep(cs[n], es[n], cs[n + 1]) && HonestStep(cs[n], es[n])
    requires Inv(cs[n].decoder) && cs[n].decoder.stream.pendingAcks == []
    requires ShownAccepted(cs[n].decoder.log.epoch) && CallsFromRun(cs, es, n + 1)
    ensures ack == None ==> cs[n + 1].sent == cs[n].sent && cs[n + 1].decoder.log.history == cs[n].decoder.log.history
    ensures ack.Some? ==> FreshAt(cs, es, n, ack.value) && Published(cs[n], es[n], cs[n + 1], ack.value)
  {
    ack := StepPublishes(cs[n], es[n], cs[n + 1]);
    if ack.Some? {
      FreshFromCall(cs, es, n, ack.value);
    }
  }

  ghost predicate FreshBefore(cs: seq<Client>, es: seq<Event>, n: nat, ack: Ack)
    requires n < |cs| && n <= |es|
  {
    exists i :: 0 <= i < n && FreshAt(cs, es, i, ack)
  }

  /** Every acknowledgement sent is that of some step that published. */
  ghost predicate SentFresh(cs: seq<Client>, es: seq<Event>, n: nat)
    requires n < |cs| && n <= |es|
  {
    forall a :: a in cs[n].sent ==> FreshBefore(cs, es, n, a)
  }

  /** If step `i` published, then with a fresh acknowledgement, sent or lost. */
  ghost predicate PublishesFresh(cs: seq<Client>, es: seq<Event>, i: nat)
    requires i < |es| && i + 1 < |cs|
  {
    cs[i + 1].decoder.log.history != cs[i].decoder.log.history ==>
      exists ack :: FreshAt(cs, es, i, ack) && Published(cs[i], es[i], cs[i + 1], ack)
  }

  lemma SentFreshStep(cs: seq<Client>, es: seq<Event>, n: nat, ack: Option<Ack>)
    requires n < |es| && n + 1 < |cs| && SentFresh(cs, es, n)
    requires ack == None ==> cs[n + 1].sent == cs[n].sent
    requires ack.Some? ==> FreshAt(cs, es, n, ack.value) && Published(cs[n], es[n], cs[n + 1], ack.value)
    ensures SentFresh(cs, es, n + 1)
  {
    var sent := cs[n + 1].sent;
    forall a | a in sent
      ensures FreshBefore(cs, es, n + 1, a)
    {
      if a in cs[n].sent {
        assert FreshBefore(cs, es, n, a);
        var i :| 0 <= i < n && FreshAt(cs, es, i, a);
        assert 0 <= i < n + 1;
      } else {
        assert FreshAt(cs, es, n, a);
      }
    }
  }

  lemma DecoderInv(cs: seq<Client>, es: seq<Event>, i: nat)
    requires ClientRun(cs, es) && i <= |es|
    ensures Inv(cs[i].decoder) && cs[i].decoder.stream.pendingAcks == []
  {
    AckStreamIsPublishStream(cs, es, i);
  }

  /** One more packet. */
  lemma FreshStep(cs: seq<Client>, es: seq<Event>, k: nat)
    requires ClientRun(cs, es) && k < |es| && HonestStep(cs[k], es[k])
    requires ShownAccepted(cs[k].decoder.log.epoch) && CallsFromRun(cs, es, k) && SentFresh(cs, es, k)
    ensures ShownAccepted(cs[k + 1].decoder.log.epoch) && CallsFromRun(cs, es, k + 1) && SentFresh(cs, es, k + 1)
    ensures PublishesFresh(cs, es, k)
  {
    assert ClientStep(cs[k], es[k], cs[k + 1]);
    ShownAcceptedStep(cs[k], es[k], cs[k + 1]);
    CallsStep(cs, es, k);
    DecoderInv(cs, es, k);
    var ack := PublishStep(cs, es, k);
    SentFreshStep(cs, es, k, ack);
  }

  /**
   The latency over every run, for codecs that output only what they accepted and indices that are
   not repeated within an epoch: everything the codecs show was accepted by them, every frame ever
   published was fed to both codecs by one packet, and the acknowledgement made for it, sent or
   lost, counts from that packet.
   */
  lemma {:induction false} AcksAreFresh(cs: seq<Client>, es: seq<Event>, n: nat)
    requires ClientRun(cs, es) && n <= |es| && forall i :: 0 <= i < n ==> HonestStep(cs[i], es[i])
    ensures ShownAccepted(cs[n].decoder.log.epoch) && CallsFromRun(cs, es, n)
    ensures forall i :: 0 <= i < n ==> PublishesFresh(cs, es, i)
    ensures SentFresh(cs, es, n)
  {
    if n > 0 {
      var k := n - 1;
      AcksAreFresh(cs, es, k);
      FreshStep(cs, es, k);
    }
  }

  // ----- without these hypotheses ----------------------------------------------------------------

  /** Some packet of the epoch fed frame `f` to both codecs. */
  predicate FedInEpoch(cs: seq<Client>, es: seq<Event>, i: nat, f: u64)
    requires i < |cs| && i < |es|
  {
    exists j :: 0 <= j <= i && FedBoth(cs[j], es[j], f) && SameEpoch(cs, es, j, i + 1)
  }

  lemma FedInEpochIsFedTogether(cs: seq<Client>, es: seq<Event>, i: nat, f: u64)
    requires i < |es| && i + 1 < |cs| && CallsFromRun(cs, es, i + 1)
    ensures FedInEpoch(cs, es, i, f) <==> FedTogether(cs[i + 1].decoder.log.epoch.calls, f)
  {
    var calls := cs[i + 1].decoder.log.epoch.calls;
    if FedInEpoch(cs, es, i, f) {
      var j :| 0 <= j <= i && FedBoth(cs[j], es[j], f) && SameEpoch(cs, es, j, i + 1);
      assert CameFrom(cs, es, i + 1, CallOf(es[j].h, es[j].env));
    }
    if FedTogether(calls, f) {
      var k :| 0 <= k < |calls| && calls[k].frame == f && calls[k].left && calls[k].right;
      assert calls[k] in calls && CameFrom(cs, es, i + 1, calls[k]);
    }
  }

  /** The latency made for a published frame: its own if one call fed it to both codecs, else the one made before. */
  predicate OwnOrStale(c: Client, e: Event, c': Client, ack: Ack) {
    var calls := c'.decoder.log.epoch.calls;
    if FedTogether(calls, ack.frame) then CountsFromCall(calls, ack.frame, ack.latencyNs, e.env.publishNow)
    else ack.latencyNs == Readied(c.decoder, e.h, e.env).stream.latencyNs
  }

  lemma PublishedOwnOrStale(c: Client, e: Event, c': Client, mid: State, ack: Ack)
    requires Inv(c.decoder) && c.decoder.stream.pendingAcks == [] && Decodes(c.decoder, e.h, e.env, mid)
    requires mid.log.history == c.decoder.log.history + [ack.frame] && mid.stream.pendingAcks == [ack]
    requires c'.decoder.log == mid.log
    ensures OwnOrStale(c, e, c', ack)
  {
    var b := BeforePublish(c.decoder, e.h, e.env);
    PublicationOf(c.decoder, e.h, e.env, mid, ack);
    PublicationIsChoice(c.decoder, e.h, e.env, mid, ack.frame);
    assert TimeInv(b) by { BeforePublishInv(c.decoder, e.h, e.env); }
    LatencyIsOwnIffFedTogether(b, ack.frame, e.env.publishNow);
  }

  /** If step `i` published: the latency it acknowledges, in either case. */
  ghost predicate LatencyAt(cs: seq<Client>, es: seq<Event>, i: nat)
    requires i < |es| && i + 1 < |cs|
  {
    cs[i + 1].decoder.log.history != cs[i].decoder.log.history ==>
      exists ack :: Published(cs[i], es[i], cs[i + 1], ack) && HasLatency(cs, es, i, ack)
  }

  predicate HasLatency(cs: seq<Client>, es: seq<Event>, i: nat, ack: Ack)
    requires i < |cs| && i < |es|
  {
    if FedInEpoch(cs, es, i, ack.frame) then FreshAt(cs, es, i, ack)
    else ack.latencyNs == Readied(cs[i].decoder, es[i].h, es[i].env).stream.latencyNs
  }

  lemma OwnOrStaleInRun(cs: seq<Client>, es: seq<Event>, i: nat, ack: Ack)
    requires i < |es| && i + 1 < |cs| && CallsFromRun(cs, es, i + 1) && OwnOrStale(cs[i], es[i], cs[i + 1], ack)
    ensures HasLatency(cs, es, i, ack)
  {
    FedInEpochIsFedTogether(cs, es, i, ack.frame);
    if FedInEpoch(cs, es, i, ack.frame) {
      FreshFromCall(cs, es, i, ack);
    }
  }

  lemma StepLatency(c: Client, e: Event, c': Client) returns (ack: Option<Ack>)
    requires Inv(c.decoder) && c.decoder.stream.pendingAcks == [] && ClientStep(c, e, c')
    ensures ack == None ==> c'.decoder.log.history == c.decoder.log.history
    ensures ack.Some? ==> Published(c, e, c', ack.value) && OwnOrStale(c, e, c', ack.value)
  {
    var mid;
    mid, ack := StepParts(c, e, c');
    if ack.Some? {
      PublishedOwnOrStale(c, e, c', mid, ack.value);
    }
  }

  /**
   Over every run, whatever the codecs output and however indices repeat: a published frame is
   acknowledged with the time since a packet of the same epoch that brought it to both codecs, if
   there was one, and otherwise with the latency left over from an earlier frame.
   */
  lemma EveryLatency(cs: seq<Client>, es: seq<Event>, i: nat)
    requires ClientRun(cs, es) && i < |es|
    ensures LatencyAt(cs, es, i)
  {
    assert ClientStep(cs[i], es[i], cs[i + 1]);
    DecoderInv(cs, es, i);
    var ack := StepLatency(cs[i], es[i], cs[i + 1]);
    if ack.Some? {
      CallsOfRun(cs, es, i + 1);
      OwnOrStaleInRun(cs, es, i, ack.value);
    }
  }
}
