/**
 Fixed-width little-endian records: the packet header and the video frame header, as
 Python's `struct` writes them and as C++ copies them out of memory.
 */
module Wire {
  import opened Bytes

  const TWO16: nat := 0x1_0000
  const TWO32: nat := 0x1_0000_0000
  const TWO63: nat := 0x8000_0000_0000_0000
  const TWO64: nat := 0x1_0000_0000_0000_0000

  type u16 = x: int | 0 <= x < 0x1_0000
  type u32 = x: int | 0 <= x < 0x1_0000_0000
  type u64 = x: int | 0 <= x < 0x1_0000_0000_0000_0000
  type i64 = x: int | -0x8000_0000_0000_0000 <= x < 0x8000_0000_0000_0000

  // ----- little-endian fields --------------------------------------------------------

  function Pow256(n: nat): (p: nat)
    ensures p >= 1
  {
    if n == 0 then 1 else 256 * Pow256(n - 1)
  }

  function LittleEndian(v: nat, width: nat): (bytes: seq<byte>)
    ensures |bytes| == width
  {
    if width == 0 then [] else [v % 256] + LittleEndian(v / 256, width - 1)
  }

  function FromLittleEndian(bytes: seq<byte>): (v: nat)
  {
    if bytes == [] then 0 else bytes[0] + 256 * FromLittleEndian(bytes[1..])
  }

  lemma {:induction false} LittleEndianRoundTrip(v: nat, width: nat)
    requires v < Pow256(width)
    ensures FromLittleEndian(LittleEndian(v, width)) == v
  {
    if width > 0 {
      LittleEndianRoundTrip(v / 256, width - 1);
    }
  }

  lemma SplitByte(b: byte, rest: nat)
    ensures (b + 256 * rest) % 256 == b && (b + 256 * rest) / 256 == rest
  {
  }

  lemma {:induction false} FromLittleEndianBound(bytes: seq<byte>)
    ensures FromLittleEndian(bytes) < Pow256(|bytes|)
    ensures LittleEndian(FromLittleEndian(bytes), |bytes|) == bytes
  {
    if bytes != [] {
      FromLittleEndianBound(bytes[1..]);
      SplitByte(bytes[0], FromLittleEndian(bytes[1..]));
      assert bytes == [bytes[0]] + bytes[1..];
    }
  }

  /** A record field: its unsigned value and its width in bytes. */
  datatype WireField = WireField(value: nat, width: nat)

  predicate Fits(f: WireField) { f.value < Pow256(f.width) }

  function Widths(fields: seq<WireField>): (ws: seq<nat>)
    ensures |ws| == |fields| && forall i :: 0 <= i < |ws| ==> ws[i] == fields[i].width
  {
    if fields == [] then [] else [fields[0].width] + Widths(fields[1..])
  }

  function Total(widths: seq<nat>): (n: nat) {
    if widths == [] then 0 else widths[0] + Total(widths[1..])
  }

  /** The fields one after the other, as `struct.pack` with "<" lays them out. */
  function PackFields(fields: seq<WireField>): (bytes: seq<byte>)
    ensures |bytes| == Total(Widths(fields))
  {
    if fields == [] then [] else LittleEndian(fields[0].value, fields[0].width) + PackFields(fields[1..])
  }

  function UnpackFields(widths: seq<nat>, bytes: seq<byte>): (fields: seq<WireField>)
    requires |bytes| == Total(widths)
    ensures |fields| == |widths|
  {
    if widths == [] then []
    else [WireField(FromLittleEndian(bytes[..widths[0]]), widths[0])] + UnpackFields(widths[1..], bytes[widths[0]..])
  }

  lemma {:induction false} UnpackPacked(fields: seq<WireField>)
    requires forall i :: 0 <= i < |fields| ==> Fits(fields[i])
    ensures UnpackFields(Widths(fields), PackFields(fields)) == fields
  {
    if fields != [] {
      var head, tail := LittleEndian(fields[0].value, fields[0].width), PackFields(fields[1..]);
      assert (head + tail)[..fields[0].width] == head && (head + tail)[fields[0].width..] == tail;
      assert Fits(fields[0]);
      LittleEndianRoundTrip(fields[0].value, fields[0].width);
      assert Widths(fields)[1..] == Widths(fields[1..]);
      UnpackPacked(fields[1..]);
    }
  }

  lemma {:induction false} PackUnpacked(widths: seq<nat>, bytes: seq<byte>)
    requires |bytes| == Total(widths)
    ensures var fields := UnpackFields(widths, bytes);
            PackFields(fields) == bytes && Widths(fields) == widths && forall i :: 0 <= i < |fields| ==> Fits(fields[i])
  {
    if widths != [] {
      FromLittleEndianBound(bytes[..widths[0]]);
      PackUnpacked(widths[1..], bytes[widths[0]..]);
      var fields := UnpackFields(widths, bytes);
      assert fields[1..] == UnpackFields(widths[1..], bytes[widths[0]..]);
      assert bytes == bytes[..widths[0]] + bytes[widths[0]..];
    }
  }

  /** Two's complement. */
  function ToUnsigned(x: i64): (u: u64) {
    if x < 0 then x + TWO64 else x
  }

  function ToSigned(u: u64): (x: i64)
    ensures ToUnsigned(x) == u
  {
    if u < TWO63 then u else u - TWO64
  }

  // ----- memory images -----------------------------------------------------------------

  /** Byte `k` of `v` as a little-endian machine stores it: `(v >> 8k) & 0xff`. */
  function ByteOf(v: nat, k: nat): (b: byte) {
    if k == 0 then v % 256 else ByteOf(v / 256, k - 1)
  }

  /** Byte `k` of a record without padding: the field that covers offset `k` gives it. */
  function ImageByte(fields: seq<WireField>, k: nat): (b: byte)
    requires k < Total(Widths(fields))
  {
    if k < fields[0].width then ByteOf(fields[0].value, k) else ImageByte(fields[1..], k - fields[0].width)
  }

  lemma {:induction false} LittleEndianByte(v: nat, width: nat, k: nat)
    requires k < width
    ensures LittleEndian(v, width)[k] == ByteOf(v, k)
  {
    if k > 0 {
      LittleEndianByte(v / 256, width - 1, k - 1);
    }
  }

  /** Copying the record out of memory gives the bytes `struct.pack` gives. */
  lemma {:induction false} ImageIsPacked(fields: seq<WireField>, k: nat)
    requires k < Total(Widths(fields))
    ensures PackFields(fields)[k] == ImageByte(fields, k)
  {
    if k < fields[0].width {
      LittleEndianByte(fields[0].value, fields[0].width, k);
    } else {
      ImageIsPacked(fields[1..], k - fields[0].width);
    }
  }

  /** `std::memcpy` of a padding-free record into a byte array. */
  method CopyImage(fields: seq<WireField>) returns (bytes: array<byte>)
    ensures fresh(bytes) && bytes[..] == PackFields(fields)
  {
    var n := Total(Widths(fields));
    bytes := new byte[n];
    for i := 0 to n
      invariant forall j :: 0 <= j < i ==> bytes[j] == PackFields(fields)[j]
    {
      ImageIsPacked(fields, i);
      bytes[i] := ImageByte(fields, i);
    }
  }

  // ----- the two headers ------------------------------------------------------------------

  const MAGIC: u32 := 0x50543351
  const VERSION: u16 := 1
  const PACKET_WIDTHS: seq<nat> := [4, 2, 2, 8, 8, 4, 4]
  const VIDEO_WIDTHS: seq<nat> := [2, 2, 4, 8, 8, 4, 4, 4, 4]
  const PACKET_HEADER_SIZE: nat := 32
  const VIDEO_FRAME_HEADER_SIZE: nat := 40

  datatype PacketHeader = PacketHeader(magic: u32, version: u16, packetType: u16, seqNo: u64, timestampNs: i64,
                                       payloadSize: u32, crc32: u32)

  datatype VideoFrameHeader = VideoFrameHeader(codec: u16, flags: u16, streamId: u32, frameIndex: u64,
                                               captureTimeNs: i64,
                                               width: u32, height: u32, leftPayloadSize: u32, rightPayloadSize: u32)

  function PacketFields(h: PacketHeader): (fields: seq<WireField>) {
    [WireField(h.magic, 4), WireField(h.version, 2), WireField(h.packetType, 2), WireField(h.seqNo, 8),
     WireField(ToUnsigned(h.timestampNs), 8), WireField(h.payloadSize, 4), WireField(h.crc32, 4)]
  }

  function VideoFields(h: VideoFrameHeader): (fields: seq<WireField>) {
    [WireField(h.codec, 2), WireField(h.flags, 2), WireField(h.streamId, 4), WireField(h.frameIndex, 8),
     WireField(ToUnsigned(h.captureTimeNs), 8), WireField(h.width, 4), WireField(h.height, 4),
     WireField(h.leftPayloadSize, 4), WireField(h.rightPayloadSize, 4)]
  }

  lemma Limits()
    ensures Pow256(2) == TWO16 && Pow256(4) == TWO32 && Pow256(8) == TWO64
  {
    assert Pow256(6) == 0x1_0000_0000_0000;
  }

  lemma HeaderSizes()
    ensures Total(PACKET_WIDTHS) == PACKET_HEADER_SIZE && Total(VIDEO_WIDTHS) == VIDEO_FRAME_HEADER_SIZE
  {
    assert PACKET_WIDTHS[1..] == [2, 2, 8, 8, 4, 4] && VIDEO_WIDTHS[1..] == [2, 4, 8, 8, 4, 4, 4, 4];
    assert Total([4, 4]) == 8 && Total([8, 8, 4, 4]) == 24 && Total([4, 4, 4, 4]) == 16;
    assert Total([2, 2, 8, 8, 4, 4]) == 28;
    assert Total([4, 8, 8, 4, 4, 4, 4]) == 36;
    assert Total([2, 4, 8, 8, 4, 4, 4, 4]) == 38;
  }

  /** The fields read back under given widths: those widths, and values that fit them. */
  lemma UnpackedFields(widths: seq<nat>, bytes: seq<byte>)
    requires |bytes| == Total(widths)
    ensures var f := UnpackFields(widths, bytes);
            forall i :: 0 <= i < |widths| ==> f[i].width == widths[i] && f[i].value < Pow256(widths[i])
  {
    PackUnpacked(widths, bytes);
    var f := UnpackFields(widths, bytes);
    assert forall i :: 0 <= i < |widths| ==> Widths(f)[i] == widths[i] && Fits(f[i]);
  }

  lemma PacketWidths(h: PacketHeader)
    ensures Widths(PacketFields(h)) == PACKET_WIDTHS && Total(PACKET_WIDTHS) == PACKET_HEADER_SIZE
    ensures forall i :: 0 <= i < 7 ==> Fits(PacketFields(h)[i])
  {
    HeaderSizes();
    Limits();
  }

  lemma VideoWidths(h: VideoFrameHeader)
    ensures Widths(VideoFields(h)) == VIDEO_WIDTHS && Total(VIDEO_WIDTHS) == VIDEO_FRAME_HEADER_SIZE
    ensures forall i :: 0 <= i < 9 ==> Fits(VideoFields(h)[i])
  {
    HeaderSizes();
    Limits();
  }

  function PackHeader(h: PacketHeader): (bytes: seq<byte>)
    ensures |bytes| == PACKET_HEADER_SIZE
  {
    PacketWidths(h);
    PackFields(PacketFields(h))
  }

  function PacketOf(f: seq<WireField>): (h: PacketHeader)
    requires |f| == 7 && forall i :: 0 <= i < 7 ==> f[i].width == PACKET_WIDTHS[i] && f[i].value < Pow256(f[i].width)
    ensures PacketFields(h) == f
  {
    Limits();
    assert f[0].width == 4 && f[1].width == 2 && f[2].width == 2 && f[3].width == 8 && f[4].width == 8;
    assert f[5].width == 4 && f[6].width == 4;
    PacketHeader(f[0].value, f[1].value, f[2].value, f[3].value, ToSigned(f[4].value), f[5].value, f[6].value)
  }

  function UnpackHeader(bytes: seq<byte>): (h: PacketHeader)
    requires |bytes| == PACKET_HEADER_SIZE
  {
    HeaderSizes();
    UnpackedFields(PACKET_WIDTHS, bytes);
    PacketOf(UnpackFields(PACKET_WIDTHS, bytes))
  }

  function PackVideoHeader(h: VideoFrameHeader): (bytes: seq<byte>)
    ensures |bytes| == VIDEO_FRAME_HEADER_SIZE
  {
    VideoWidths(h);
    PackFields(VideoFields(h))
  }

  function VideoOf(f: seq<WireField>): (h: VideoFrameHeader)
    requires |f| == 9 && forall i :: 0 <= i < 9 ==> f[i].width == VIDEO_WIDTHS[i] && f[i].value < Pow256(f[i].width)
    ensures VideoFields(h) == f
  {
    Limits();
    assert f[0].width == 2 && f[1].width == 2 && f[2].width == 4 && f[3].width == 8 && f[4].width == 8;
    assert f[5].width == 4 && f[6].width == 4 && f[7].width == 4 && f[8].width == 4;
    VideoFrameHeader(f[0].value, f[1].value, f[2].value, f[3].value, ToSigned(f[4].value),
                     f[5].value, f[6].value, f[7].value, f[8].value)
  }

  function UnpackVideoHeader(bytes: seq<byte>): (h: VideoFrameHeader)
    requires |bytes| == VIDEO_FRAME_HEADER_SIZE
  {
    HeaderSizes();
    UnpackedFields(VIDEO_WIDTHS, bytes);
    VideoOf(UnpackFields(VIDEO_WIDTHS, bytes))
  }

  /** Two headers with the same fields are the same header. */
  lemma FieldsDetermineHeader(g: PacketHeader, h: PacketHeader, v: VideoFrameHeader, w: VideoFrameHeader)
    ensures PacketFields(g) == PacketFields(h) ==> g == h
    ensures VideoFields(v) == VideoFields(w) ==> v == w
  {
    if PacketFields(g) == PacketFields(h) {
      assert forall i :: 0 <= i < 7 ==> PacketFields(g)[i].value == PacketFields(h)[i].value;
    }
    if VideoFields(v) == VideoFields(w) {
      assert forall i :: 0 <= i < 9 ==> VideoFields(v)[i].value == VideoFields(w)[i].value;
    }
  }

  /** Packing a packet header loses nothing, and every 32 bytes are the packing of one header. */
  lemma PacketHeaderRoundTrip(h: PacketHeader, bytes: seq<byte>)
    ensures UnpackHeader(PackHeader(h)) == h
    ensures |bytes| == PACKET_HEADER_SIZE ==> PackHeader(UnpackHeader(bytes)) == bytes
  {
    PacketWidths(h);
    UnpackPacked(PacketFields(h));
    var g := UnpackHeader(PackHeader(h));
    assert PacketFields(g) == PacketFields(h);
    var v := VideoFrameHeader(0, 0, 0, 0, 0, 0, 0, 0, 0);
    FieldsDetermineHeader(g, h, v, v);
    if |bytes| == PACKET_HEADER_SIZE {
      PackUnpacked(PACKET_WIDTHS, bytes);
    }
  }

  /** The same for the video frame header: all nine fields survive. */
  lemma VideoHeaderRoundTrip(h: VideoFrameHeader, bytes: seq<byte>)
    ensures UnpackVideoHeader(PackVideoHeader(h)) == h
    ensures |bytes| == VIDEO_FRAME_HEADER_SIZE ==> PackVideoHeader(UnpackVideoHeader(bytes)) == bytes
  {
    VideoWidths(h);
    UnpackPacked(VideoFields(h));
    var g := UnpackVideoHeader(PackVideoHeader(h));
    assert VideoFields(g) == VideoFields(h);
    var p := PacketHeader(0, 0, 0, 0, 0, 0, 0);
    FieldsDetermineHeader(p, p, g, h);
    if |bytes| == VIDEO_FRAME_HEADER_SIZE {
      PackUnpacked(VIDEO_WIDTHS, bytes);
    }
  }

  // ----- where the fields lie ---------------------------------------------------------------

  /** Field `i` stands at `offset`, and the fields behind it follow. */
  lemma FieldStands(fields: seq<WireField>, i: nat, offset: nat)
    requires i < |fields| && offset <= |PackFields(fields)| && PackFields(fields)[offset..] == PackFields(fields[i..])
    ensures var end := offset + fields[i].width;
            && end <= |PackFields(fields)| && PackFields(fields)[end..] == PackFields(fields[i + 1..])
            && PackFields(fields)[offset..end] == LittleEndian(fields[i].value, fields[i].width)
  {
    var bytes, part, rest := PackFields(fields), LittleEndian(fields[i].value, fields[i].width),
                             PackFields(fields[i + 1..]);
    assert fields[i..][1..] == fields[i + 1..];
    assert bytes[offset..] == part + rest;
    assert bytes[offset..][..fields[i].width] == part && bytes[offset..][fields[i].width..] == rest;
  }

  /** The layout of a packet header: `quest3_teleop_protocol.h` and the format `<IHHQqII`. */
  predicate PacketLayout(b: seq<byte>, h: PacketHeader) {
    && |b| == 32 && b[0..4] == LittleEndian(h.magic, 4) && b[4..6] == LittleEndian(h.version, 2)
    && b[6..8] == LittleEndian(h.packetType, 2) && b[8..16] == LittleEndian(h.seqNo, 8)
    && b[16..24]
       == LittleEndian(if h.timestampNs < 0 then h.timestampNs + 0x1_0000_0000_0000_0000 else h.timestampNs, 8)
    && b[24..28] == LittleEndian(h.payloadSize, 4) && b[28..32] == LittleEndian(h.crc32, 4)
  }

  /** The layout of a video frame header: the struct, and the format `<HHIQqIIII`. */
  predicate VideoLayout(b: seq<byte>, h: VideoFrameHeader) {
    && |b| == 40 && b[0..2] == LittleEndian(h.codec, 2) && b[2..4] == LittleEndian(h.flags, 2)
    && b[4..8] == LittleEndian(h.streamId, 4) && b[8..16] == LittleEndian(h.frameIndex, 8)
    && b[16..24]
       == LittleEndian(if h.captureTimeNs < 0 then h.captureTimeNs + 0x1_0000_0000_0000_0000 else h.captureTimeNs, 8)
    && b[24..28] == LittleEndian(h.width, 4) && b[28..32] == LittleEndian(h.height, 4)
    && b[32..36] == LittleEndian(h.leftPayloadSize, 4) && b[36..40] == LittleEndian(h.rightPayloadSize, 4)
  }

  lemma PacketLaidOut(h: PacketHeader)
    ensures PacketLayout(PackHeader(h), h)
  {
    var f := PacketFields(h);
    assert f[0..] == f;
    FieldStands(f, 0, 0);
    FieldStands(f, 1, 4);
    FieldStands(f, 2, 6);
    FieldStands(f, 3, 8);
    FieldStands(f, 4, 16);
    FieldStands(f, 5, 24);
    FieldStands(f, 6, 28);
  }

  /** The first three fields of a video frame header, and what follows them. */
  lemma VideoFrontLaidOut(h: VideoFrameHeader)
    ensures var b, f := PackVideoHeader(h), VideoFields(h);
            && b[0..2] == LittleEndian(h.codec, 2) && b[2..4] == LittleEndian(h.flags, 2)
            && b[4..8] == LittleEndian(h.streamId, 4) && b[8..] == PackFields(f[3..])
  {
    var f := VideoFields(h);
    assert f[0..] == f;
    FieldStands(f, 0, 0);
    FieldStands(f, 1, 2);
    FieldStands(f, 2, 4);
  }

  lemma VideoTimesLaidOut(h: VideoFrameHeader)
    requires PackVideoHeader(h)[8..] == PackFields(VideoFields(h)[3..])
    ensures var b, f := PackVideoHeader(h), VideoFields(h);
            && b[8..16] == LittleEndian(h.frameIndex, 8) && b[16..24] == LittleEndian(ToUnsigned(h.captureTimeNs), 8)
            && b[24..] == PackFields(f[5..])
  {
    var f := VideoFields(h);
    FieldStands(f, 3, 8);
    FieldStands(f, 4, 16);
  }

  lemma VideoTailLaidOut(h: VideoFrameHeader)
    requires PackVideoHeader(h)[24..] == PackFields(VideoFields(h)[5..])
    ensures var b := PackVideoHeader(h);
            && b[24..28] == LittleEndian(h.width, 4) && b[28..32] == LittleEndian(h.height, 4)
            && b[32..36] == LittleEndian(h.leftPayloadSize, 4) && b[36..40] == LittleEndian(h.rightPayloadSize, 4)
  {
    var f := VideoFields(h);
    FieldStands(f, 5, 24);
    FieldStands(f, 6, 28);
    FieldStands(f, 7, 32);
    FieldStands(f, 8, 36);
  }

  lemma VideoLaidOut(h: VideoFrameHeader)
    ensures VideoLayout(PackVideoHeader(h), h)
  {
    VideoFrontLaidOut(h);
    VideoTimesLaidOut(h);
    VideoTailLaidOut(h);
  }

  /** Two and four bytes as a number, the lowest byte first. */
  function Short(b: seq<byte>, i: nat): (n: nat)
    requires i + 2 <= |b|
  {
    var low: nat, high: nat := b[i], b[i + 1];
    low + 256 * high
  }

  function Word(b: seq<byte>, i: nat): (n: nat)
    requires i + 4 <= |b|
  {
    Short(b, i) + 65_536 * Short(b, i + 2)
  }

  lemma ShortAt(b: seq<byte>, i: nat, v: u16)
    requires i + 2 <= |b| && b[i..i + 2] == LittleEndian(v, 2)
    ensures Short(b, i) == v
  {
    var part := LittleEndian(v, 2);
    assert part == [v % 256] + LittleEndian(v / 256, 1);
    assert b[i] == b[i..i + 2][0] == part[0] && b[i + 1] == b[i..i + 2][1] == part[1];
  }

  lemma HalvesOf(v: u32, a: nat, b: nat, low: nat, high: nat)
    requires a == v / 256 && b == a / 256 && low == v % 65_536 && high == v / 65_536
    ensures low % 256 == v % 256 && low / 256 % 256 == a % 256 && b == high
  {
  }

  lemma TwoBytes(v: nat)
    ensures LittleEndian(v, 2) == [v % 256, v / 256 % 256]
  {
    assert LittleEndian(v / 256, 1) == [v / 256 % 256] + LittleEndian(v / 256 / 256, 0);
  }

  lemma FourBytes(v: u32)
    ensures LittleEndian(v, 4) == LittleEndian(v % 65_536, 2) + LittleEndian(v / 65_536, 2)
  {
    var a, b: nat := v / 256, v / 256 / 256;
    HalvesOf(v, a, b, v % 65_536, v / 65_536);
    TwoBytes(v % 65_536);
    assert LittleEndian(v, 4) == [v % 256] + LittleEndian(a, 3) && LittleEndian(a, 3) == [a % 256] + LittleEndian(b, 2);
  }

  lemma WordAt(b: seq<byte>, i: nat, v: u32)
    requires i + 4 <= |b| && b[i..i + 4] == LittleEndian(v, 4)
    ensures Word(b, i) == v
  {
    FourBytes(v);
    assert b[i..i + 2] == b[i..i + 4][..2] && b[i + 2..i + 4] == b[i..i + 4][2..];
    ShortAt(b, i, v % 65_536);
    ShortAt(b, i + 2, v / 65_536);
  }

  /** What a reader finds in the 32 bytes of a packet header, byte by byte. */
  lemma PacketHeaderRead(b: seq<byte>)
    requires |b| == 32
    ensures var h := UnpackHeader(b);
            && PacketLayout(b, h) && h.magic == Word(b, 0) && h.version == Short(b, 4) && h.packetType == Short(b, 6)
            && h.payloadSize == Word(b, 24) && h.crc32 == Word(b, 28)
  {
    var h := UnpackHeader(b);
    PacketHeaderRoundTrip(h, b);
    PacketLaidOut(h);
    WordAt(b, 0, h.magic);
    ShortAt(b, 4, h.version);
    ShortAt(b, 6, h.packetType);
    WordAt(b, 24, h.payloadSize);
    WordAt(b, 28, h.crc32);
  }

  /** What a reader finds in the 40 bytes of a video frame header, byte by byte. */
  lemma VideoHeaderRead(b: seq<byte>)
    requires |b| == 40
    ensures var h := UnpackVideoHeader(b);
            && VideoLayout(b, h) && h.codec == Short(b, 0) && h.flags == Short(b, 2) && h.streamId == Word(b, 4)
            && h.width == Word(b, 24) && h.height == Word(b, 28)
            && h.leftPayloadSize == Word(b, 32) && h.rightPayloadSize == Word(b, 36)
  {
    var h := UnpackVideoHeader(b);
    VideoHeaderRoundTrip(h, b);
    VideoLaidOut(h);
    ShortAt(b, 0, h.codec);
    ShortAt(b, 2, h.flags);
    WordAt(b, 4, h.streamId);
    WordAt(b, 24, h.width);
    WordAt(b, 28, h.height);
    WordAt(b, 32, h.leftPayloadSize);
    WordAt(b, 36, h.rightPayloadSize);
  }

  // ----- Python's checked packing ----------------------------------------------------------

  predicate InUnsigned(x: int, bits: nat)
    requires bits in {16, 32, 64}
  {
    0 <= x < if bits == 16 then TWO16 else if bits == 32 then TWO32 else TWO64
  }

  predicate InSigned64(x: int) { -0x8000_0000_0000_0000 <= x < 0x8000_0000_0000_0000 }

  /** `pack_packet_header`: None is the `struct.error` of a value out of range. */
  function PyPackHeader(magic: int, version: int, packetType: int, seqNo: int, timestampNs: int, payloadSize: int,
                        crc32: int)
    : (r: Option<seq<byte>>)
  {
    if InUnsigned(magic, 32) && InUnsigned(version, 16) && InUnsigned(packetType, 16) && InUnsigned(seqNo, 64)
       && InSigned64(timestampNs) && InUnsigned(payloadSize, 32) && InUnsigned(crc32, 32)
    then Some(PackHeader(PacketHeader(magic, version, packetType, seqNo, timestampNs, payloadSize, crc32)))
    else None
  }

  /** `pack_video_frame_header`. */
  function PyPackVideoHeader(codec: int, flags: int, streamId: int, frameIndex: int, captureTimeNs: int,
                             width: int, height: int, leftSize: int, rightSize: int): (r: Option<seq<byte>>)
  {
    if InUnsigned(codec, 16) && InUnsigned(flags, 16) && InUnsigned(streamId, 32) && InUnsigned(frameIndex, 64)
       && InSigned64(captureTimeNs) && InUnsigned(width, 32) && InUnsigned(height, 32)
       && InUnsigned(leftSize, 32) && InUnsigned(rightSize, 32)
    then Some(PackVideoHeader(VideoFrameHeader(codec, flags, streamId, frameIndex, captureTimeNs, width, height,
                                               leftSize, rightSize)))
    else None
  }

  /** In-range values are packed, as the header that holds them. */
  lemma PyPacksHeaders(h: PacketHeader, v: VideoFrameHeader)
    ensures PyPackHeader(h.magic, h.version, h.packetType, h.seqNo, h.timestampNs, h.payloadSize, h.crc32)
            == Some(PackHeader(h))
    ensures PyPackVideoHeader(v.codec, v.flags, v.streamId, v.frameIndex, v.captureTimeNs,
                              v.width, v.height, v.leftPayloadSize, v.rightPayloadSize) == Some(PackVideoHeader(v))
  {
  }

  /** Byte `k` of the C++ struct `PacketHeader` in memory, member by member at its offset. */
  function PacketImage(h: PacketHeader, k: nat): (b: byte)
    requires k < 32
  {
    if k < 4 then ByteOf(h.magic, k) else if k < 6 then ByteOf(h.version, k - 4)
    else if k < 8 then ByteOf(h.packetType, k - 6) else if k < 16 then ByteOf(h.seqNo, k - 8)
    else if k < 24 then ByteOf(ToUnsigned(h.timestampNs), k - 16) else if k < 28 then ByteOf(h.payloadSize, k - 24)
    else ByteOf(h.crc32, k - 28)
  }

  /** Byte `k` of the C++ struct `VideoFrameHeader` in memory. */
  function VideoImage(v: VideoFrameHeader, k: nat): (b: byte)
    requires k < 40
  {
    if k < 2 then ByteOf(v.codec, k) else if k < 4 then ByteOf(v.flags, k - 2)
    else if k < 8 then ByteOf(v.streamId, k - 4) else if k < 16 then ByteOf(v.frameIndex, k - 8)
    else if k < 24 then ByteOf(ToUnsigned(v.captureTimeNs), k - 16) else if k < 28 then ByteOf(v.width, k - 24)
    else if k < 32 then ByteOf(v.height, k - 28) else if k < 36 then ByteOf(v.leftPayloadSize, k - 32)
    else ByteOf(v.rightPayloadSize, k - 36)
  }

  /** A byte of a field that stands at `i`. */
  lemma ByteAt(b: seq<byte>, i: nat, width: nat, v: nat, k: nat)
    requires i + width <= |b| && b[i..i + width] == LittleEndian(v, width) && i <= k < i + width
    ensures b[k] == ByteOf(v, k - i)
  {
    LittleEndianByte(v, width, k - i);
    assert b[k] == b[i..i + width][k - i];
  }

  lemma PacketImageAt(b: seq<byte>, h: PacketHeader, k: nat)
    requires PacketLayout(b, h) && k < 32
    ensures b[k] == PacketImage(h, k)
  {
    if k < 4 { ByteAt(b, 0, 4, h.magic, k); }
    else if k < 6 { ByteAt(b, 4, 2, h.version, k); }
    else if k < 8 { ByteAt(b, 6, 2, h.packetType, k); }
    else if k < 16 { ByteAt(b, 8, 8, h.seqNo, k); }
    else if k < 24 { ByteAt(b, 16, 8, ToUnsigned(h.timestampNs), k); }
    else if k < 28 { ByteAt(b, 24, 4, h.payloadSize, k); }
    else { ByteAt(b, 28, 4, h.crc32, k); }
  }

  lemma VideoImageAt(b: seq<byte>, v: VideoFrameHeader, k: nat)
    requires VideoLayout(b, v) && k < 40
    ensures b[k] == VideoImage(v, k)
  {
    if k < 2 { ByteAt(b, 0, 2, v.codec, k); }
    else if k < 4 { ByteAt(b, 2, 2, v.flags, k); }
    else if k < 8 { ByteAt(b, 4, 4, v.streamId, k); }
    else if k < 16 { ByteAt(b, 8, 8, v.frameIndex, k); }
    else if k < 24 { ByteAt(b, 16, 8, ToUnsigned(v.captureTimeNs), k); }
    else if k < 28 { ByteAt(b, 24, 4, v.width, k); }
    else if k < 32 { ByteAt(b, 28, 4, v.height, k); }
    else if k < 36 { ByteAt(b, 32, 4, v.leftPayloadSize, k); }
    else { ByteAt(b, 36, 4, v.rightPayloadSize, k); }
  }

  /**
   Python- and C++-encoded headers are interchangeable: the memory of every C++ header, each member at
   its offset, is byte for byte what Python packs for the same field values.
   */
  lemma CppImageIsPythonPacking(h: PacketHeader, v: VideoFrameHeader, k: nat)
    ensures k < 32 ==>
              var py := PyPackHeader(h.magic, h.version, h.packetType, h.seqNo, h.timestampNs, h.payloadSize, h.crc32);
              py.Some? && py.value[k] == PacketImage(h, k)
    ensures k < 40 ==>
              var py := PyPackVideoHeader(v.codec, v.flags, v.streamId, v.frameIndex, v.captureTimeNs,
                                          v.width, v.height, v.leftPayloadSize, v.rightPayloadSize);
              py.Some? && py.value[k] == VideoImage(v, k)
  {
    PyPacksHeaders(h, v);
    PacketLaidOut(h);
    VideoLaidOut(v);
    if k < 32 {
      PacketImageAt(PackHeader(h), h, k);
    }
    if k < 40 {
      VideoImageAt(PackVideoHeader(v), v, k);
    }
  }
}
