/** The stereo envelope: a video frame header and two eye payloads, written by Python and split by C++. */
module StereoPayload {
  import opened Bytes
  import opened Wire

  const RAW_RGBA: u16 := 1
  const H264_ANNEXB: u16 := 2
  const H265_ANNEXB: u16 := 3
  const AV1_ANNEXB: u16 := 4
  const KEYFRAME: u16 := 1

  /** `_make_h264_stereo_payload`; None is the `struct.error` of a value out of range. */
  function MakeH264(frameIndex: int, captureTimeNs: int, width: int, height: int, left: seq<byte>, right: seq<byte>)
    : (r: Option<seq<byte>>)
  {
    match PyPackVideoHeader(H264_ANNEXB, KEYFRAME, 0, frameIndex, captureTimeNs, width, height, |left|, |right|)
    case None => None
    case Some(header) => Some(header + left + right)
  }

  /** Where `handlePayload` sends a payload. */
  datatype Routed =
    | Rejected
    | Unsupported(codec: u16)
    | RawRgba(header: VideoFrameHeader, left: seq<byte>, right: seq<byte>)
    | H264(header: VideoFrameHeader, left: seq<byte>, right: seq<byte>)

  /** `VideoDecoderRouter::handlePayload` up to the call of a decoder. */
  function HandlePayload(payload: seq<byte>): (r: Routed) {
    if |payload| < VIDEO_FRAME_HEADER_SIZE then Rejected
    else
      var h := UnpackVideoHeader(payload[..VIDEO_FRAME_HEADER_SIZE]);
      if h.width == 0 || h.height == 0 then Rejected
      else if |payload| != VIDEO_FRAME_HEADER_SIZE + h.leftPayloadSize + h.rightPayloadSize then Rejected
      else
        var body := payload[VIDEO_FRAME_HEADER_SIZE..];
        var left, right := body[..h.leftPayloadSize], body[h.leftPayloadSize..];
        if h.codec == RAW_RGBA then RawRgba(h, left, right)
        else if h.codec == H264_ANNEXB then H264(h, left, right)
        else if h.codec == H265_ANNEXB || h.codec == AV1_ANNEXB then Unsupported(h.codec)
        else Rejected
  }

  /** A header and the two eye payloads whose sizes it names. */
  predicate Envelope(payload: seq<byte>, h: VideoFrameHeader, left: seq<byte>, right: seq<byte>) {
    && payload == PackVideoHeader(h) + left + right
    && h.leftPayloadSize == |left| && h.rightPayloadSize == |right| && h.width != 0 && h.height != 0
  }

  lemma EnvelopeParts(payload: seq<byte>, h: VideoFrameHeader, left: seq<byte>, right: seq<byte>)
    requires Envelope(payload, h, left, right)
    ensures |payload| == VIDEO_FRAME_HEADER_SIZE + |left| + |right|
    ensures UnpackVideoHeader(payload[..VIDEO_FRAME_HEADER_SIZE]) == h
    ensures payload[VIDEO_FRAME_HEADER_SIZE..][..|left|] == left
            && payload[VIDEO_FRAME_HEADER_SIZE..][|left|..] == right
  {
    var header := PackVideoHeader(h);
    ConcatAssociates(header, left, right);
    assert payload[..VIDEO_FRAME_HEADER_SIZE] == header && payload[VIDEO_FRAME_HEADER_SIZE..] == left + right;
    VideoHeaderRoundTrip(h, []);
  }

  /** What is accepted as stereo is an envelope. */
  lemma AcceptedIsEnvelope(payload: seq<byte>, h: VideoFrameHeader, left: seq<byte>, right: seq<byte>)
    requires HandlePayload(payload) == H264(h, left, right) || HandlePayload(payload) == RawRgba(h, left, right)
    ensures Envelope(payload, h, left, right)
  {
    var header, body := payload[..VIDEO_FRAME_HEADER_SIZE], payload[VIDEO_FRAME_HEADER_SIZE..];
    VideoHeaderRoundTrip(h, header);
    assert payload == header + body && body == left + right;
    ConcatAssociates(header, left, right);
  }

  /** The router recovers exactly the header and the two eyes, and accepts nothing but such envelopes. */
  lemma RouterInvertsEnvelope(payload: seq<byte>, h: VideoFrameHeader, left: seq<byte>, right: seq<byte>)
    ensures HandlePayload(payload) == H264(h, left, right) <==>
            Envelope(payload, h, left, right) && h.codec == H264_ANNEXB
    ensures HandlePayload(payload) == RawRgba(h, left, right) <==>
            Envelope(payload, h, left, right) && h.codec == RAW_RGBA
  {
    if Envelope(payload, h, left, right) {
      EnvelopeParts(payload, h, left, right);
    }
    if HandlePayload(payload) == H264(h, left, right) || HandlePayload(payload) == RawRgba(h, left, right) {
      AcceptedIsEnvelope(payload, h, left, right);
    }
  }

  /** A payload is rejected unless it is an envelope with one of the four codecs; two of these are unsupported. */
  lemma RejectedIffNoEnvelope(payload: seq<byte>)
    ensures HandlePayload(payload) != Rejected <==>
            exists h, left, right :: Envelope(payload, h, left, right) && 1 <= h.codec <= 4
    ensures forall h, left, right :: Envelope(payload, h, left, right) ==>
              (HandlePayload(payload) == Unsupported(h.codec) <==> h.codec == H265_ANNEXB || h.codec == AV1_ANNEXB)
  {
    forall h, left, right | Envelope(payload, h, left, right)
      ensures HandlePayload(payload) != Rejected <==> 1 <= h.codec <= 4
      ensures HandlePayload(payload) == Unsupported(h.codec) <==> h.codec == H265_ANNEXB || h.codec == AV1_ANNEXB
    {
      EnvelopeParts(payload, h, left, right);
    }
    if HandlePayload(payload) != Rejected {
      var header, body := payload[..VIDEO_FRAME_HEADER_SIZE], payload[VIDEO_FRAME_HEADER_SIZE..];
      var h := UnpackVideoHeader(header);
      var left, right := body[..h.leftPayloadSize], body[h.leftPayloadSize..];
      VideoHeaderRoundTrip(h, header);
      assert payload == header + body && body == left + right;
      ConcatAssociates(header, left, right);
      assert Envelope(payload, h, left, right);
    }
  }

  /**
   Python to Quest: a payload can be built iff its values fit their fields. It then reaches the
   H.264 decoder with the same fields and exactly the two original eyes iff both dimensions are
   nonzero, and is rejected otherwise.
   */
  lemma StereoRoundTrip(frameIndex: int, captureTimeNs: int, width: int, height: int, left: seq<byte>, right: seq<byte>)
    ensures var payload := MakeH264(frameIndex, captureTimeNs, width, height, left, right);
            && (payload.Some? <==>
                  && 0 <= frameIndex < TWO64 && InSigned64(captureTimeNs) && 0 <= width < TWO32 && 0 <= height < TWO32
                  && |left| < TWO32 && |right| < TWO32)
            && (payload.Some? ==>
                  HandlePayload(payload.value)
                  == if width != 0 && height != 0
                     then H264(VideoFrameHeader(H264_ANNEXB, KEYFRAME, 0, frameIndex, captureTimeNs, width, height,
                                                |left|, |right|), left, right)
                     else Rejected)
  {
    var payload := MakeH264(frameIndex, captureTimeNs, width, height, left, right);
    if payload.Some? {
      var h := VideoFrameHeader(H264_ANNEXB, KEYFRAME, 0, frameIndex, captureTimeNs, width, height, |left|, |right|);
      RouterInvertsEnvelope(payload.value, h, left, right);
      ConcatAssociates(PackVideoHeader(h), left, right);
      AcceptedExactly(h, left + right);
    }
  }

  /**
   Behind any header, a body is accepted iff it has exactly the announced length, and the header
   itself is acceptable.
   */
  lemma AcceptedExactly(h: VideoFrameHeader, body: seq<byte>)
    ensures HandlePayload(PackVideoHeader(h) + body) != Rejected <==>
              |body| == h.leftPayloadSize + h.rightPayloadSize && h.width != 0 && h.height != 0 && 1 <= h.codec <= 4
  {
    var payload := PackVideoHeader(h) + body;
    assert payload[..VIDEO_FRAME_HEADER_SIZE] == PackVideoHeader(h);
    VideoHeaderRoundTrip(h, []);
  }

  /**
   A payload that was accepted is accepted at no other length: cut anywhere, or extended by
   anything, it is rejected.
   */
  lemma WrongLengthRejected(payload: seq<byte>, other: seq<byte>)
    requires HandlePayload(payload) != Rejected && (other <= payload || payload <= other)
    ensures HandlePayload(other) != Rejected <==> other == payload
  {
    var header := payload[..VIDEO_FRAME_HEADER_SIZE];
    VideoHeaderRoundTrip(UnpackVideoHeader(header), header);
    assert payload == header + payload[VIDEO_FRAME_HEADER_SIZE..];
    AcceptedExactly(UnpackVideoHeader(header), payload[VIDEO_FRAME_HEADER_SIZE..]);
    if |other| >= VIDEO_FRAME_HEADER_SIZE {
      assert other == header + other[VIDEO_FRAME_HEADER_SIZE..];
      AcceptedExactly(UnpackVideoHeader(header), other[VIDEO_FRAME_HEADER_SIZE..]);
    }
  }

  // ----- payload bytes ----------------------------------------------------------------------------

  /** The eyes behind the 40 bytes of the header, whose sizes stand at 32 and 36. */
  predicate EyesAt(payload: seq<byte>, left: seq<byte>, right: seq<byte>)
    requires |payload| >= 40
  {
    && |payload| == 40 + Word(payload, 32) + Word(payload, 36)
    && left == payload[40..40 + Word(payload, 32)] && right == payload[40 + Word(payload, 32)..]
  }

  lemma WordOfFront(payload: seq<byte>, i: nat)
    requires |payload| >= 40 && i + 4 <= 40
    ensures Word(payload[..40], i) == Word(payload, i) && Short(payload[..40], i) == Short(payload, i)
  {
  }

  lemma HeaderOfPayload(payload: seq<byte>)
    requires |payload| >= 40
    ensures var h := UnpackVideoHeader(payload[..40]);
            && h.codec == Short(payload, 0) && h.width == Word(payload, 24) && h.height == Word(payload, 28)
            && h.leftPayloadSize == Word(payload, 32) && h.rightPayloadSize == Word(payload, 36)
  {
    VideoHeaderRead(payload[..40]);
    WordOfFront(payload, 0);
    WordOfFront(payload, 24);
    WordOfFront(payload, 28);
    WordOfFront(payload, 32);
    WordOfFront(payload, 36);
  }

  /** Width (bytes 24 to 27) and height (28 to 31) are not zero, and the length is what the two sizes say. */
  predicate FitsItsSizes(payload: seq<byte>) {
    && |payload| >= 40 && Word(payload, 24) != 0 && Word(payload, 28) != 0
    && |payload| == 40 + Word(payload, 32) + Word(payload, 36)
  }

  /**
   The router on bytes: where a payload goes is decided by its first two bytes, 1 0 for raw pixels, 2 0
   for H.264, 3 0 and 4 0 for the unsupported codecs; width, height and eyes are the ones that stand in it.
   */
  lemma RoutedByBytes(payload: seq<byte>)
    ensures HandlePayload(payload).RawRgba? <==> FitsItsSizes(payload) && payload[0] == 1 && payload[1] == 0
    ensures HandlePayload(payload).H264? <==> FitsItsSizes(payload) && payload[0] == 2 && payload[1] == 0
    ensures HandlePayload(payload).Unsupported? <==>
              FitsItsSizes(payload) && 3 <= payload[0] <= 4 && payload[1] == 0
    ensures HandlePayload(payload).H264? ==>
              var r := HandlePayload(payload);
              && VideoLayout(payload[..40], r.header) && r.header.width == Word(payload, 24)
              && r.header.height == Word(payload, 28) && EyesAt(payload, r.left, r.right)
  {
    if |payload| >= 40 {
      HeaderOfPayload(payload);
      VideoHeaderRead(payload[..40]);
      SliceOfDrop(payload, 40, |payload| - 40);
    }
  }

  /** The bytes of a payload that Python makes: codec 2, flag 1, stream 0, and every field at its place. */
  lemma MadeBytes(frameIndex: u64, captureTimeNs: i64, width: u32, height: u32, left: seq<byte>, right: seq<byte>)
    requires |left| < TWO32 && |right| < TWO32
    ensures var made := MakeH264(frameIndex, captureTimeNs, width, height, left, right);
            && made.Some? && made.value[40..] == left + right
            && VideoLayout(made.value[..40],
                           VideoFrameHeader(2, 1, 0, frameIndex, captureTimeNs, width, height, |left|, |right|))
            && Word(made.value, 24) == width && Word(made.value, 28) == height
            && Word(made.value, 32) == |left| && Word(made.value, 36) == |right|
  {
    var h := VideoFrameHeader(2, 1, 0, frameIndex, captureTimeNs, width, height, |left|, |right|);
    var header := PackVideoHeader(h);
    var payload := header + left + right;
    ConcatAssociates(header, left, right);
    assert payload[..40] == header && payload[40..] == left + right;
    VideoLaidOut(h);
    VideoHeaderRoundTrip(h, []);
    HeaderOfPayload(payload);
  }
}
