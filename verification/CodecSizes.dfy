/**
 The size the codecs run at, over whole runs of the client in which headers of any size arrive:
 nothing is ever fed to codecs that were made for another size.
 */
module CodecSizes {
  import opened Wire
  import opened VideoDecoder
  import opened StereoPublishing
  import opened AckFreshness

  /** The decoder's part of a client step. */
  lemma DecoderStep(c: Client, e: Event, c': Client) returns (mid: State)
    requires ClientStep(c, e, c')
    ensures Decodes(c.decoder, e.h, e.env, mid) && c'.decoder.res == mid.res && c'.decoder.log == mid.log
  {
    mid :| Decodes(c.decoder, e.h, e.env, mid)
        && c' == Client(Taken(mid), c.sent + if e.sendable then mid.stream.pendingAcks else []);
  }

  /** What one packet leaves of the codecs and of the calls of the epoch. */
  lemma ResourcesAfter(c: Client, e: Event, c': Client)
    requires ClientStep(c, e, c')
    ensures ReachesCodecs(c.decoder, e.h, e.env) ==>
              c'.decoder.res == BeforePublish(c.decoder, e.h, e.env).res
              && c'.decoder.log.epoch.calls != []
    ensures !ReachesCodecs(c.decoder, e.h, e.env) ==>
              c'.decoder.res == Readied(c.decoder, e.h, e.env).res
              && c'.decoder.log.epoch.calls == Readied(c.decoder, e.h, e.env).log.epoch.calls
  {
    var mid := DecoderStep(c, e, c');
  }

  /** Once something was fed in an epoch, keeping the epoch means keeping the codecs. */
  lemma KeptEpochKeepsCodecs(s: State, h: VideoFrameHeader, env: Env)
    requires s.log.epoch.calls != [] && Readied(s, h, env).log.epoch == s.log.epoch
    ensures Readied(s, h, env) == s
  {
  }

  /** Codecs run at the size of packet `j`, and something was fed to them. */
  predicate RunAtSizeOf(c: Client, e: Event) {
    BothRunAt(c.decoder.res, e.h.width, e.h.height) && c.decoder.log.epoch.calls != []
  }

  lemma DrainKeepsSize(s: State, h: VideoFrameHeader, env: Env, width: u32, height: u32)
    requires ReachesCodecs(s, h, env) && BothRunAt(Readied(s, h, env).res, width, height)
    ensures BothRunAt(BeforePublish(s, h, env).res, width, height)
  {
  }

  lemma SizeKept(c: Client, e: Event, c': Client, first: Event)
    requires ClientStep(c, e, c') && KeepsEpoch(c, e) && RunAtSizeOf(c, first)
    ensures RunAtSizeOf(c', first)
  {
    ResourcesAfter(c, e, c');
    KeptEpochKeepsCodecs(c.decoder, e.h, e.env);
    if ReachesCodecs(c.decoder, e.h, e.env) {
      DrainKeepsSize(c.decoder, e.h, e.env, first.h.width, first.h.height);
    }
  }

  lemma SizeTaken(c: Client, e: Event, c': Client)
    requires ClientStep(c, e, c') && Coherent(c.decoder) && ReachesCodecs(c.decoder, e.h, e.env)
    ensures RunAtSizeOf(c', e)
  {
    ReachesAtSize(c.decoder, e.h, e.env);
    ResourcesAfter(c, e, c');
  }

  lemma DecoderCoherent(cs: seq<Client>, es: seq<Event>, i: nat)
    requires ClientRun(cs, es) && i <= |es|
    ensures Coherent(cs[i].decoder)
  {
    AckStreamIsPublishStream(cs, es, i);
  }

  lemma StepAt(cs: seq<Client>, es: seq<Event>, i: nat)
    requires ClientRun(cs, es) && i < |es|
    ensures ClientStep(cs[i], es[i], cs[i + 1])
  {
  }

  lemma SameEpochBefore(cs: seq<Client>, es: seq<Event>, j: nat, n: nat)
    requires j + 1 < n && n <= |es| && n <= |cs| && SameEpoch(cs, es, j, n)
    ensures SameEpoch(cs, es, j, n - 1) && KeepsEpoch(cs[n - 1], es[n - 1])
  {
    SameEpochStep(cs, es, j, n - 1);
  }

  lemma {:induction false} SizeLasts(cs: seq<Client>, es: seq<Event>, j: nat, n: nat, first: Event)
    requires ClientRun(cs, es) && j < n <= |es| && SameEpoch(cs, es, j, n) && RunAtSizeOf(cs[j + 1], first)
    ensures RunAtSizeOf(cs[n], first)
    decreases n
  {
    if j + 1 < n {
      SameEpochBefore(cs, es, j, n);
      SizeLasts(cs, es, j, n - 1, first);
      StepAt(cs, es, n - 1);
      SizeKept(cs[n - 1], es[n - 1], cs[n], first);
    }
  }

  lemma SizeOfEpoch(cs: seq<Client>, es: seq<Event>, j: nat, n: nat)
    requires ClientRun(cs, es) && j < n <= |es|
    requires ReachesCodecs(cs[j].decoder, es[j].h, es[j].env) && SameEpoch(cs, es, j, n)
    ensures RunAtSizeOf(cs[n], es[j])
  {
    StepAt(cs, es, j);
    DecoderCoherent(cs, es, j);
    SizeTaken(cs[j], es[j], cs[j + 1]);
    SizeLasts(cs, es, j, n, es[j]);
  }

  /**
   Over every run: two packets that reach the codecs in one epoch have the same size. So a packet of
   another size never meets the codecs of the epoch: it begins a new one, or is not decoded.
   */
  lemma OneSizePerEpoch(cs: seq<Client>, es: seq<Event>, j: nat, i: nat)
    requires ClientRun(cs, es) && j <= i < |es|
    requires ReachesCodecs(cs[j].decoder, es[j].h, es[j].env) && ReachesCodecs(cs[i].decoder, es[i].h, es[i].env)
    requires SameEpoch(cs, es, j, i + 1)
    ensures es[i].h.width == es[j].h.width && es[i].h.height == es[j].h.height
    ensures BothRunAt(BeforePublish(cs[i].decoder, es[i].h, es[i].env).res, es[j].h.width, es[j].h.height)
  {
    SizeOfEpoch(cs, es, j, i + 1);
    DecoderCoherent(cs, es, i);
    StepAt(cs, es, i);
    SizeTaken(cs[i], es[i], cs[i + 1]);
    ResourcesAfter(cs[i], es[i], cs[i + 1]);
  }

  /** The size of a header is not the one the codecs run at: whatever follows, they are not fed with it. */
  lemma NewSizeNewEpoch(cs: seq<Client>, es: seq<Event>, i: nat)
    requires ClientRun(cs, es) && i < |es| && !BothRunAt(cs[i].decoder.res, es[i].h.width, es[i].h.height)
    requires ReachesCodecs(cs[i].decoder, es[i].h, es[i].env)
    ensures cs[i + 1].decoder.log.epoch.calls == [CallOf(es[i].h, es[i].env)]
    ensures BothRunAt(cs[i + 1].decoder.res, es[i].h.width, es[i].h.height)
  {
    var s, h, env := cs[i].decoder, es[i].h, es[i].env;
    DecoderCoherent(cs, es, i);
    StepAt(cs, es, i);
    SizeTaken(cs[i], es[i], cs[i + 1]);
    StartedAtSize(s, h, env);
    StartedAtSize(Stopped(s), h, env);
    EpochStep(cs[i], es[i], cs[i + 1]);
  }
}
