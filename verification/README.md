# RoboVR stereo streaming: a verified model

RoboVR streams stereo video to a Quest 3 and steers a robot with its controllers. This project models the parts
of the streaming path that carry state or arithmetic and proves what they keep over every input and every run:

- **Annex B pipeline** (`StartCodes`, `Ebsp`, `SliceHeader`, `AccessUnits`, `WrittenNals`, `H264Encoding`,
  `TestStream`, `LoaderCuts`): the incremental reader of the encoder's output, emulation prevention, Exp-Golomb fields,
  grouping into numbered access units, what the numbers that an encoder writes mean to all this, and the host bridge's
  own one-shot loader for the same byte format.
- **Wire format** (`Wire`, `Framing`, `Sending`, `PacketTypes`, `Resuming`, `StereoPayload`, `AckText`): packet and
  video headers, byte by byte, as Python packs them and C++ copies them, exact reads and writes over a socket that
  fragments, interrupts and breaks off anywhere, runs of sends over a connection that fails or recovers, the packet
  types, the stereo envelope, and the text of acknowledgements.
- **Decoder and protocol** (`SurfaceDrain`, `VideoDecoder`, `StereoPublishing`, `AckFreshness`, `CodecSizes`,
  `HostVideo`, `StreamProtocol`, `StreamGuard`, `StreamWindow`, `StreamRaces`, `StreamStall`, `StreamProgress`): the
  client's stereo decoder over two nondeterministic codecs, the host's video thread with its acknowledgement window, and
  the closed loop of both over two FIFO channels.
- **Sender** (`Streamer`): the Python streamer with two encoders and one pending access unit per eye.
- **Teleoperation** (`NeutralFrame`, `ArmTeleop`, over the reals): quaternion rotation, the shared head-neutral axes,
  the action made of a controller sample, and what is conserved while the clutch is held.

Objects that change in place are classes whose methods are verified against functions of the old state; the theorems
are lemmas about those functions. Codecs, sockets, clocks, encoder processes and the moment at which another thread
makes progress are arguments, so every statement holds for all of their behaviours. The codec axiom is a named
predicate (`HonestCodecs`: a codec outputs only timestamps it accepted since it was created); what needs distinct
buffer handles or distinct frame indices says so in its `requires`.

`dafny verify dfyconfig.toml` checks the whole project.

## What the proofs found

- The reader clears its buffer while no start code was seen, so it equals the one-shot scan if and only if no read
  boundary falls inside the first start code (`ChunkIndependence`); `SplitFirstCodeLosesNal` is a stream that loses
  its first NAL unit.
- The two slice-header readers differ in exactly two ways (`ReadersAgree`): a NAL body that is only a header byte
  reads as 0 in C++ and as None in Python, and complete fields with more than 31 leading zero bits are refused by C++.
- Sent frame indices never decrease if and only if no send succeeds after an unguarded choice (`GuardDecides`). The
  guard can be read before each choice: the first time a frame is chosen under a window, no frame above
  `latest ack + 3` is out. The equivalence covers every run, whatever happens between choice and send; where the guard
  is kept, the recorded acknowledgements and the published frames strictly increase and the decoder never restarts.
- Reading that guard when the acknowledgement is *recorded* is not enough, because the acknowledgement can arrive
  between choice and send: for every skip to a frame `k >= 4`, `GuardAtAckIsNotEnough` is a run of ten steps that
  sends frames 0, `k`, 3. From 6 on the decoder then restarts on frame 3, and the recorded acknowledgements go 0, `k`,
  3 if and only if `k` is at most 303, so that the send time of frame 3 is still kept (`RaceRestartsDecoder`).
- Sent frame indices strictly increase, so that none is repeated, if and only if no send succeeds after a choice made
  while `latest ack + 3` was already out (`WindowDecides`). Then no index is fed to the codecs twice, and every
  latency acknowledged in the closed loop counts from the one packet that brought the frame to both of them
  (`OpenWindowsKeepFresh`, which meets the hypotheses of `AcksAreFresh`). A repeated index can be published with a
  latency that belongs to no call (`RepeatedIndexIsStale`); over every run of the client the latency is the frame's
  own exactly when one packet of the epoch fed both codecs, and the one left over from an earlier frame otherwise
  (`EveryLatency`).
- The window can close for good. The loop is blocked when frame `latest ack + 3`, or one of the two after it, for which
  the decoder does not restart, is the last one published, no acknowledgement under way can still find a send time,
  and nothing that would be published instead is in flight, next at the host, or held by both codecs. In every state
  of every run some continuation records an acknowledgement or publishes a frame if and only if the loop is not
  blocked (`ProgressIffNotBlocked`); once it is, nothing is recorded or published any more and the last frame of the
  window is sent forever (`StallIsForever`). Where the guard was kept so far, blocked has a simpler form
  (`BlockedIfGuarded`). Neither a loss nor an unguarded choice is needed to get there: an acknowledgement handled
  before its send time is stored is ignored, and `StallNeedsNoLoss` gives runs, with every send successful, that are
  blocked after ten steps with frame 3, 4 or 5 published, the guard kept up to there, and then send frame 3 any number
  of times.
- On a connection that fails for good, a packet arrives if and only if its send returned true (`SentIsReceived`).
  `TcpServer::send` leaves the connection open after a failed write. If it recovers, and wherever the failed packet
  was cut, the receiver still gets exactly what was sent with result true if and only if not one byte of that packet
  went out, or nothing is sent after it, or the next send fails as well and the bytes of the two do not make up a
  packet (`RecoveredConnection`). They do when the first cut is behind the fields that a receiver compares, and the
  size found in front is within its limit and covered by both cuts (`CutsReadAsOne`); for a cut behind the size field,
  as soon as both cuts together are as long as the failed packet (`CutBehindSize`), which then arrives although its
  send returned false.
- The position actions of a clutched run, what clipping cut off them and what fell into the deadband add up exactly to
  the mapped grip displacement (`ActionsConserve`).

## Model

| member | source | states |
|---|---|---|
| StartCodes.FindStartCode | robovr/quest3/video.py:28-36 | the scanning loop returns `First`, which the next two rows pin down |
| StartCodes.NoneBeforeFirst | robovr/quest3/video.py:28-36 | no start code begins between the offset and the position found |
| StartCodes.StartCodeIs | robovr/quest3/video.py:17-25 | a start code is 00 00 01 or 00 00 00 01, and nothing else |
| StartCodes.FirstIs | robovr/quest3/video.py:28-36 | a position with a start code and none before it is the one found |
| StartCodes.FirstExtends | robovr/quest3/video.py:313-320 | a start code found in a prefix stays the first one, with the same size, whatever bytes follow |
| StartCodes.ScanConserves | host_bridge/tools/host_bridge_demo.cpp:289-320 | the NAL units cut by a scan concatenate to the stream from its first start code on |
| StartCodes.DrainExtends | robovr/quest3/video.py:313-325 | draining leaves a buffer with exactly one start code, at its front, and never commits to a cut that later bytes would move |
| StartCodes.ReaderFromSettled | robovr/quest3/video.py:308-327 | once a start code was seen, the reads that follow yield the one-shot scan of buffer and reads, however they are chunked |
| StartCodes.ReaderIsScanOfRest | robovr/quest3/video.py:304-328 | for every chunking of every byte string: the reader yields the scan of the reads from the first one that holds a whole start code |
| StartCodes.ChunkIndependence | robovr/quest3/video.py:304-328 | the incremental reader yields the one-shot scan of the whole stream iff no read boundary falls inside the first start code |
| StartCodes.SplitFirstCodeLosesNal | robovr/quest3/video.py:314-317 | a concrete stream, cut inside its first start code, whose first NAL unit is lost |
| Ebsp.RbspFromEbsp | robovr/quest3/video.py:44-53 | the loop with its zero counter computes `Unstuff` |
| Ebsp.UnstuffStuff | robovr/quest3/video.py:44-53 | unstuffing inverts stuffing on every byte string, from every zero count |
| Ebsp.NoCodeInside | robovr/quest3/video.py:17-36 | no start code begins inside an encoded NAL unit, not even one that would straddle its end into any following bytes |
| Ebsp.ScanInvertsEncoding | host_bridge/tools/host_bridge_demo.cpp:289-320 | Annex B round trip: scanning the concatenation of encoded NAL units returns exactly those units |
| Ebsp.ReaderInvertsEncoding | robovr/quest3/video.py:304-328 | the same through the incremental reader, iff the chunking leaves the first start code whole |
| SliceHeader.BitReader.ReadBit | robovr/quest3/video.py:61-67 | the next bit, most significant first, and one position on; the end of data changes nothing |
| SliceHeader.BitReader.ReadBits | robovr/quest3/video.py:69-73 | the number that the next `count` bits denote; running out consumes everything |
| SliceHeader.BitReader.ReadZeros | robovr/quest3/video.py:76-78 | the length of the run of zero bits up to the next one bit |
| SliceHeader.BitReader.ReadUe | robovr/quest3/video.py:75-79 | the Exp-Golomb field at the position, and the position after it |
| SliceHeader.ReadFirstMbInSlice | robovr/quest3/video.py:82-89 | short NAL units and exhausted bits give None, everything else the first field of the unstuffed payload |
| SliceHeader.UeRoundTrip | robovr/quest3/video.py:75-79 | reading inverts writing `ue(v)` for every v and every surrounding bits, consuming exactly 2*floor(log2(v+1))+1 bits |
| SliceHeader.UeExtends | robovr/quest3/video.py:75-79 | a field decoded from a prefix is the field decoded from the whole |
| SliceHeader.PackKeepsBits | robovr/quest3/video.py:64-65 | bits packed into bytes are read back in order; packing only pads |
| SliceHeader.FieldOfEncoded | robovr/quest3/video.py:39-89 | the field read from a framed NAL unit is the one at the front of its raw payload, None for an empty one |
| SliceHeader.SliceFieldRoundTrip | robovr/quest3/video.py:39-89 | written, padded, stuffed and framed under any header and start code, the first field is read back as v |
| AccessUnits.NalType | robovr/quest3/video.py:296 | the header byte without its upper three bits: below 32, and a multiple of 32 less than the byte |
| WrittenNals.WrittenField | robovr/quest3/video.py:75-89 | a payload that was written with `ue(v)` in front has its first bit set iff v is 0 |
| WrittenNals.ReadByNumber | robovr/quest3/video.py:292-302 | by the numbers an encoder writes: a slice iff its type is 1 to 5; a starter iff its type is 9, or 1 to 5 with first field 0 |
| WrittenNals.ProcessedByNumber | robovr/quest3/video.py:292-302 | what each written NAL unit does to the open group, by type number and first bit |
| WrittenNals.PictureByNumber | robovr/quest3/video.py:292-302 | what is written as one picture, by type numbers, is an access unit for the reader, and the other way round |
| AccessUnits.InvStep | robovr/quest3/video.py:292-302 | every NAL unit keeps: units plus open group are the NAL units so far, each unit holds a slice and no later starter |
| AccessUnits.GroupingIsPartition | robovr/quest3/video.py:285-302 | emitted units and dropped slice-less tail are all non-empty NAL units in order; units hold a slice, later ones begin with a starter, none holds a starter behind its first slice |
| AccessUnits.PartitionUnique | robovr/quest3/video.py:285-302 | two partitions that meet these conditions are the same |
| AccessUnits.GroupingIsTheOnlyPartition | robovr/quest3/video.py:285-328 | a partition meets the conditions iff it is the one the encoder emits; `ReadByNumber` says which written units the conditions speak of |
| H264Encoding.H264Encoder.Take | robovr/quest3/video.py:279-283 | None iff every emitted unit was taken, else the next one with its index |
| H264Encoding.H264Encoder.EmitCurrentUnit | robovr/quest3/video.py:285-290 | a group with a slice is queued under the next index; either way the group is emptied |
| H264Encoding.H264Encoder.ProcessOneNal | robovr/quest3/video.py:292-302 | one NAL unit moves the grouping state as `ProcessNal` says, which `ProcessedByNumber` gives by written type numbers; units, queue and numbering stay in step |
| H264Encoding.H264Encoder.ProcessNals | robovr/quest3/video.py:292-302 | any further NAL units only extend the emitted units, and take nothing from the queue |
| H264Encoding.H264Encoder.DrainBuffer | robovr/quest3/video.py:313-325 | the inner loop terminates, hands on what the buffer completes and leaves the rest |
| H264Encoding.H264Encoder.ReaderProgress | robovr/quest3/video.py:304-328 | what the reader thread may do between two takes: any further NAL units, and the flush at end of stream, extend the units and take nothing |
| H264Encoding.H264Encoder.ReaderLoop | robovr/quest3/video.py:304-328 | after the end of stream the units are those of the reader's NAL sequence, the last group flushed |
| H264Encoding.ReaderYieldsThePartition | robovr/quest3/video.py:285-328 | reader and grouping together produce the one partition of the stream's NAL units |
| H264Encoding.PicturesRoundTrip | robovr/quest3/video.py:285-328 | end to end: pictures whose units have types 1 to 5 and 9 in the right places, encoded, framed, concatenated and read in chunks, come out as exactly those pictures, numbered 0, 1, 2, ... |
| TestStream.LookaheadIsUnstuff | host_bridge/tools/host_bridge_demo.cpp:242-255 | lookahead unstuffing equals counter unstuffing on every byte string |
| TestStream.UnstuffCapped | host_bridge/tools/host_bridge_demo.cpp:242-255 | the capped loop collects everything, or a prefix of at least 32 bytes |
| TestStream.CapIsHarmless | host_bridge/tools/host_bridge_demo.cpp:244-281 | the 32-byte cap never changes the field that is read |
| TestStream.CountLeadingZeros | host_bridge/tools/host_bridge_demo.cpp:257-270 | the first loop counts the zero run and stops beyond 31 |
| TestStream.ReadSuffix | host_bridge/tools/host_bridge_demo.cpp:271-280 | the second loop reads the suffix in wrapping 32-bit arithmetic, and nothing wraps |
| TestStream.ReadFirstMb | host_bridge/tools/host_bridge_demo.cpp:238-282 | the C++ reader against the Python one: equal up to 31 leading zero bits, nullopt beyond, 0 for a lone header byte |
| TestStream.ReadersAgree | host_bridge/tools/host_bridge_demo.cpp:238-282 | for which NAL bodies the two readers give the same answer, as an equivalence over length, leading zero bits and number of bits |
| TestStream.OneShotIsScan | host_bridge/tools/host_bridge_demo.cpp:289-293 | scanning by absolute offsets cuts the same NAL units as scanning suffixes |
| TestStream.AddNal | host_bridge/tools/host_bridge_demo.cpp:294-318 | the body of the grouping loop acts on strings as `LoadNal` acts on NAL units, which `LoadNalByNumber` gives by written type numbers |
| TestStream.LoadOne | host_bridge/tools/host_bridge_demo.cpp:290-319 | one turn of the loop leaves the outcome of the whole scan unchanged |
| TestStream.LoadH264TestStream | host_bridge/tools/host_bridge_demo.cpp:209-330 | None iff the file is empty; the whole file as one keyframe when nothing was grouped; else the groups and flags of the loader |
| TestStream.LoaderConserves | host_bridge/tools/host_bridge_demo.cpp:284-324 | the access units concatenate to the NAL units with a header byte, flags match units one to one, and a flag is set iff its unit holds a type-5 NAL unit |
| TestStream.LoadedStreamConserves | host_bridge/tools/host_bridge_demo.cpp:284-330 | as bytes: the access units concatenate to the file from its first start code, minus header-less NAL units |
| LoaderCuts.LoadsAtCuts | host_bridge/tools/host_bridge_demo.cpp:296-318 | the loader begins a new unit exactly in front of a delimiter, or of a slice that starts a picture behind a slice |
| LoaderCuts.CuttingUnique | host_bridge/tools/host_bridge_demo.cpp:284-324 | two groupings that follow this rule everywhere, and nowhere cut without it, are the same |
| LoaderCuts.LoadedIsTheOnlyCutting | host_bridge/tools/host_bridge_demo.cpp:284-324 | a grouping of the NAL units with a header byte follows the rule iff it is the one the loader makes |
| LoaderCuts.LoadedByNumber | host_bridge/tools/host_bridge_demo.cpp:294-318 | by the numbers an encoder writes: the loader's slices are types 1 and 5, its delimiter is type 9, and when a slice opens a picture |
| LoaderCuts.LoadNalByNumber | host_bridge/tools/host_bridge_demo.cpp:294-318 | what each written NAL unit does to the unit being collected, its keyframe flag included |
| LoaderCuts.LoaderPicturesRoundTrip | host_bridge/tools/host_bridge_demo.cpp:284-330 | end to end: from a file of pictures, given by type numbers, the loader makes exactly those access units and marks exactly those with a unit of type 5 |
| Wire.UnpackPacked | robovr/quest3/protocol.py:14-15 | unpacking inverts packing for every list of fields that fit their widths |
| Wire.PackUnpacked | robovr/quest3/protocol.py:61-73 | every byte string of the right length is the packing of exactly the fields read from it |
| Wire.ImageIsPacked | proto/quest3_teleop_protocol.h:65-69 | byte for byte, the memory image of a padding-free record is the little-endian packing |
| Wire.CopyImage | proto/quest3_teleop_protocol.h:65-69 | copying the image into a fresh array gives the packing |
| Wire.PacketHeaderRoundTrip | proto/quest3_teleop_protocol.h:65-87 | packet headers survive both ways, signed timestamp included |
| Wire.VideoHeaderRoundTrip | proto/quest3_teleop_protocol.h:89-100 | all nine fields of a video header survive both ways; `VideoLaidOut` says where they stand |
| Wire.PacketLaidOut | proto/quest3_teleop_protocol.h:28-36 | every field of a packet header as its little-endian bytes at its offset: 0, 4, 6, 8, 16, 24, 28 |
| Wire.VideoLaidOut | proto/quest3_teleop_protocol.h:51-61 | the same for the video header: codec 0, flags 2, stream 4, index 8, time 16, width 24, height 28, left size 32, right size 36 |
| Wire.PacketHeaderRead | proto/quest3_teleop_protocol.h:83-87 | what a reader finds in any 32 bytes, as sums of weighted bytes |
| Wire.VideoHeaderRead | proto/quest3_teleop_protocol.h:96-100 | what a reader finds in any 40 bytes, as sums of weighted bytes |
| Wire.CppImageIsPythonPacking | robovr/quest3/protocol.py:49-58 | for all field values in range, Python packs without error exactly the bytes of the C++ structs in memory, given member by member at their offsets |
| Framing.ReadExact | host_bridge/src/tcp_server.cpp:22-39 | under any fragmentation and interruption: true iff the stream holds enough bytes, and then exactly those are read |
| Framing.RecvAll | robovr/quest3/protocol.py:88-95 | the same for the Python loop |
| Framing.ReceiveLoop | host_bridge/src/tcp_server.cpp:184-207 | the C++ receive loop delivers `Deliver` of the incoming bytes, whatever the fragmentation; `PacketByBytes` and `TakenIffTyped` say which packets that takes |
| Framing.ReadConnection | robovr/quest3/server.py:164-196 | the Python loop delivers the same function under its own limits, which do not check the type |
| Framing.WriteExact | host_bridge/src/tcp_server.cpp:41-55 | true iff the connection takes all the bytes; either way exactly as many as it takes go out, in order |
| Framing.DeliverInvertsEncoding | host_bridge/src/tcp_server.cpp:184-207 | for every packet list and truncation point, exactly the maximal prefix of complete packets is delivered, headers and payloads unchanged |
| Framing.WholePacketsIsMaximal | host_bridge/src/tcp_server.cpp:184-207 | that prefix is maximal: it fits, and one packet more does not |
| Framing.DeliveredIsMaximalPrefix | host_bridge/src/tcp_server.cpp:184-207 | on any byte string: what is delivered re-encodes to a prefix of it, and no acceptable packet follows |
| Framing.DeliverBehind | host_bridge/src/tcp_server.cpp:184-207 | complete packets in front change nothing about what is read behind them, whatever bytes follow |
| Framing.FailedSendDeliversNothing | host_bridge/src/tcp_server.cpp:139-140 | where the connection ends, a send that failed half way is invisible: the receiver has exactly the packets sent before it |
| Resuming.NoHeaderInside | host_bridge/src/tcp_server.cpp:137-140 | the header of a packet never stands where another one was cut in its header, or behind that header, unless both carry one sequence number |
| Resuming.ReadIffNothingCut | host_bridge/src/tcp_server.cpp:184-207 | whatever follows: the packet sent after a failed one is read right behind the packets before it iff nothing of the failed one went out |
| Resuming.ReadableIffNothingCut | host_bridge/src/tcp_server.cpp:139-140 | of the packets before and after a failed one, the receiver gets exactly these iff nothing of the failed one went out or nothing was sent after it |
| Resuming.ResumedSendIsMisread | host_bridge/src/tcp_server.cpp:139-140 | what arrives instead, for a cut inside the payload: the failed packet completed with the first bytes of what follows, and the rest read from there |
| Sending.SendsOnWire | host_bridge/src/tcp_server.cpp:132-141 | any number of sends puts the pieces on the wire one after the other, as far as the connection takes them |
| Sending.Sender.SendPacket | host_bridge/src/tcp_server.cpp:132-141 | one step of the sender: stamped with the next sequence number, written as far as the connection takes it, true iff completely |
| Sending.CompletedAreDelivered | host_bridge/src/tcp_server.cpp:184-207 | of packets put on a connection that fails anywhere, exactly the completed ones are delivered, unchanged |
| Sending.RunOfPieces | host_bridge/src/tcp_server.cpp:132-141 | a run of sends, failed ones included, writes the encodings of consecutively numbered packets, and each send returns true iff its packet fits |
| Sending.SentIsReceived | quest_client/app/src/main/cpp/native_main.cpp:149-177 | over every run of sends to any of the receivers and wherever the connection fails: a packet arrives iff its send returned true, in order, with type, timestamp, payload and number |
| PacketTypes.EveryReceiverGetsTheSent | host_bridge/src/tcp_server.cpp:132-141 | over every run of sends of packets of the eight types, with payloads up to 16 MiB or 1 MiB, to the host bridge, the Quest client or the Python server: a packet arrives iff its send returned true |
| PacketTypes.NumbersAreKnown | proto/quest3_teleop_protocol.h:124-137 | the known numbers are exactly those of the eight packet types, all different |
| PacketTypes.PacketByBytes | host_bridge/src/tcp_server.cpp:184-207 | on bytes: a packet stands in front iff `Q3TP`, version 1, for the C++ receivers a type from 1 to 8, a size within 16 MiB or 1 MiB, and that many bytes behind |
| PacketTypes.TakenIffTyped | host_bridge/src/tcp_server.cpp:184-207 | behind any packets it takes, a receiver takes one more iff its payload is not too long and, in C++, its number is that of a type; otherwise it stops there, whatever follows |
| PacketTypes.SentBytes | proto/quest3_teleop_protocol.h:72-81 | the bytes of every packet sent, header field by header field, and its payload behind them |
| Resuming.CutsReadAsOne | host_bridge/src/tcp_server.cpp:184-207 | when the bytes of two failed sends, one behind the other, make up a packet: iff the first cut is behind the fields a receiver compares, and the size found in front is within its limit and covered by both |
| Resuming.CutBehindSize | host_bridge/src/tcp_server.cpp:184-207 | for a cut behind the size field: iff both cuts together are at least as long as the first packet |
| Resuming.RecoveredConnection | host_bridge/src/tcp_server.cpp:132-141 | the exact condition, over every run of sends across a failed one, on a connection that then takes any number of bytes more: the receiver gets exactly what was sent with result true iff nothing at all of the failed packet went out, or nothing is sent after it, or the next send fails too and the two cuts do not make up a packet |
| StereoPayload.AcceptedIsEnvelope | quest_client/app/src/main/cpp/video_decoder.cpp:628-655 | whatever is routed to a decoder is a header followed by exactly the two eyes it announces |
| StereoPayload.RouterInvertsEnvelope | quest_client/app/src/main/cpp/video_decoder.cpp:628-655 | a payload is routed as given header and eyes iff it is their envelope and the codec matches |
| StereoPayload.RejectedIffNoEnvelope | quest_client/app/src/main/cpp/video_decoder.cpp:628-655 | a payload is rejected iff it is no envelope with one of the four codecs, and which codecs are unsupported |
| StereoPayload.StereoRoundTrip | robovr/quest3/video.py:360-379 | a Python payload can be built iff its values fit their fields; it reaches the decoder with the same nine fields and the two original eyes iff both dimensions are nonzero, and is rejected otherwise |
| StereoPayload.MadeBytes | robovr/quest3/video.py:360-379 | the bytes of every payload Python makes: codec 2, flag 1, stream 0, index, time, width, height and sizes at their offsets, both eyes behind |
| StereoPayload.RoutedByBytes | quest_client/app/src/main/cpp/video_decoder.cpp:628-655 | the router on payload bytes: which first bytes, sizes and lengths lead to which decoder, and the width, height and eyes it is handed |
| StereoPayload.AcceptedExactly | quest_client/app/src/main/cpp/video_decoder.cpp:628-655 | behind any header, a body is accepted iff it has exactly the announced length and the header is acceptable |
| StereoPayload.WrongLengthRejected | quest_client/app/src/main/cpp/video_decoder.cpp:628-640 | an accepted payload is accepted at no other length: cut anywhere, or extended by anything, it is rejected |
| AckText.ParseKeyValuePayload | host_bridge/tools/host_bridge_demo.cpp:44-61 | the parsing loop by positions computes `Parse` |
| AckText.ParseInvertsJoin | host_bridge/tools/host_bridge_demo.cpp:44-61 | parsing inverts joining for every list of separable fields; the first value of a key wins |
| AckText.DecimalRoundTrip | quest_client/app/src/main/cpp/native_main.cpp:118-122 | the digits printed for a number read back as that number |
| AckText.AckRoundTrip | host_bridge/tools/host_bridge_demo.cpp:106-117 | the host reads back exactly the acknowledged frame index, for every 64-bit index |
| AckText.AckPayloadText | quest_client/app/src/main/cpp/native_main.cpp:118-122 | the text of every acknowledgement, character by character |
| AckText.NumberRead | host_bridge/tools/host_bridge_demo.cpp:117 | any printed number is read back, or as 2^64 - 1 if it is larger |
| AckText.OnlyAcksCount | host_bridge/tools/host_bridge_demo.cpp:106-117 | which payloads count as acknowledgements: iff the first kind is `video_ack` and there is a frame index, of which the first counts |
| SurfaceDrain.DequeueOutputs | quest_client/app/src/main/cpp/video_decoder.cpp:530-548 | the bounded dequeue loop collects `Dequeued`, format changes using up turns |
| SurfaceDrain.ChooseLatest | quest_client/app/src/main/cpp/video_decoder.cpp:550-557 | the choosing loop picks `Latest`, the first non-empty buffer with the largest index |
| SurfaceDrain.ReleaseOutputs | quest_client/app/src/main/cpp/video_decoder.cpp:559-567 | the release loop extends the codec's log and reports the frames shown |
| SurfaceDrain.DrainSurfaceOutput | quest_client/app/src/main/cpp/video_decoder.cpp:516-568 | the three loops together |
| SurfaceDrain.DrainShowsTheLatest | quest_client/app/src/main/cpp/video_decoder.cpp:516-568 | with distinct handles: every dequeued buffer is given back exactly once, at most one is shown, it is non-empty with the largest index, and it alone is reported |
| SurfaceDrain.LatestIsFirst | quest_client/app/src/main/cpp/video_decoder.cpp:550-557 | of buffers with the same index the first is shown |
| SurfaceDrain.DrainTakes | quest_client/app/src/main/cpp/video_decoder.cpp:530-548 | of up to 32 answers in front of a stop every buffer is taken, of more those among the first 32 |
| SurfaceDrain.DrainEmptiesTheCodec | quest_client/app/src/main/cpp/video_decoder.cpp:516-568 | with at most 32 answers waiting, every buffer is given back and the newest frame of all is shown |
| VideoDecoder.ReadiedIsCoherent | quest_client/app/src/main/cpp/video_decoder.cpp:359-394 | codecs and windows stay in pairs, made for the size remembered; the surface flag follows them, windows acquired minus released are those held |
| VideoDecoder.StartedAtSize | quest_client/app/src/main/cpp/video_decoder.cpp:359-394 | every outcome of `ensureStarted`, by the size the codecs were made for: nothing changes, or the decoder is stopped and made anew at the new size, or not at all |
| VideoDecoder.ReachesAtSize | quest_client/app/src/main/cpp/video_decoder.cpp:155-171 | exactly when a call gets through to the codecs, which then run at the size of its header |
| VideoDecoder.AnswersDecide | quest_client/app/src/main/cpp/video_decoder.cpp:396-434 | what each pair of input answers does: no buffer, a failure, a small buffer or a failed queue call is not taken; the receive time is stored iff both were |
| CodecSizes.OneSizePerEpoch | quest_client/app/src/main/cpp/video_decoder.cpp:359-369 | over every run with headers of any size: packets that reach the codecs in one epoch have one size, the one these were made for |
| CodecSizes.NewSizeNewEpoch | quest_client/app/src/main/cpp/video_decoder.cpp:359-394 | over every run: a packet of another size that reaches the codecs begins a new epoch, with codecs made for it |
| VideoDecoder.H264AnnexBDecoder.Stop | quest_client/app/src/main/cpp/video_decoder.cpp:582-626 | everything is released and the stream state cleared |
| VideoDecoder.H264AnnexBDecoder.EnsureStarted | quest_client/app/src/main/cpp/video_decoder.cpp:359-394 | true iff the header has a size and two eyes and both codecs are there at its width and height; unchanged if they ran at that size, else stream, epoch and windows were given up and both codecs made for the new size |
| VideoDecoder.H264AnnexBDecoder.FeedCodecs | quest_client/app/src/main/cpp/video_decoder.cpp:172-180 | the receive time is kept iff both codecs took their access unit |
| VideoDecoder.H264AnnexBDecoder.DrainCodecs | quest_client/app/src/main/cpp/video_decoder.cpp:182-194 | both drains and the marking of shown frames |
| VideoDecoder.H264AnnexBDecoder.MarkReady | quest_client/app/src/main/cpp/video_decoder.cpp:185-189 | the marking loop adds exactly the shown frames to the ready map |
| VideoDecoder.H264AnnexBDecoder.PickReady | quest_client/app/src/main/cpp/video_decoder.cpp:196-208 | in every iteration order: the largest index ready on both sides above the last published one, None iff there is none |
| VideoDecoder.H264AnnexBDecoder.Erase | quest_client/app/src/main/cpp/video_decoder.cpp:222-230 | in every iteration order the erasing loop keeps exactly the entries above the bound |
| VideoDecoder.H264AnnexBDecoder.PublishFrame | quest_client/app/src/main/cpp/video_decoder.cpp:210-231 | acknowledgement queued, index recorded, all entries up to it erased from the three maps |
| VideoDecoder.H264AnnexBDecoder.TakeAcks | quest_client/app/src/main/cpp/video_decoder.cpp:353-357 | returns and clears the pending acknowledgements, nothing else changes |
| VideoDecoder.SurfaceBranchOnly | quest_client/app/src/main/cpp/video_decoder.cpp:182-254 | from a coherent state every call that reaches the codecs takes the surface branch; the CPU branch behind it is never reached |
| VideoDecoder.H264AnnexBDecoder.Decode | quest_client/app/src/main/cpp/video_decoder.cpp:155-250 | one call is a step of `Decodes`, true iff it reaches the codecs and both took their access unit; it reaches only codecs that run at the size of its header |
| StereoPublishing.DecodePublishes | quest_client/app/src/main/cpp/video_decoder.cpp:158-231 | for any codec answers: the invariant is kept (published indices of an epoch strictly increase and were shown by both eyes, no frame above the last published one is left ready on both sides), and a call publishes nothing or one frame, the largest ready on both sides |
| StereoPublishing.LatencyIsOwnIffFedTogether | quest_client/app/src/main/cpp/video_decoder.cpp:213-219 | the acknowledged latency counts from a call that fed the frame to both codecs iff there was one; otherwise a stale value is sent |
| StereoPublishing.PublishedFrameIsFresh | quest_client/app/src/main/cpp/video_decoder.cpp:166-219 | in one call whose codecs accepted what they show: a published frame was accepted by both eyes in one call, and its latency counts from that call |
| StereoPublishing.RepeatedIndexIsStale | quest_client/app/src/main/cpp/video_decoder.cpp:213-219 | an index submitted twice, once per eye, is published with latency 0 for every pair of clock readings |
| StereoPublishing.QuestClient.HandleVideo | quest_client/app/src/main/cpp/native_main.cpp:168-174 | decode, then send what is acknowledged: one step of the client |
| StereoPublishing.DecodeAcks | quest_client/app/src/main/cpp/native_main.cpp:115-128 | entered with none pending, a call leaves exactly the acknowledgement of the frame it published, or none |
| StereoPublishing.AckStreamIsPublishStream | quest_client/app/src/main/cpp/native_main.cpp:115-128 | over every run and any number of restarts: acknowledgements sent are published frames in order, each at most once; with no send failure exactly all of them |
| AckFreshness.CallsOfRun | quest_client/app/src/main/cpp/video_decoder.cpp:158-180 | over every run: the calls of the current epoch are exactly those made by its packets |
| AckFreshness.EveryLatency | quest_client/app/src/main/cpp/video_decoder.cpp:213-219 | over every run, whatever codecs output and however indices repeat: a published frame is acknowledged with the time since a packet of the same epoch that fed it to both codecs if there was one, and otherwise with the latency left over |
| AckFreshness.AcksAreFresh | quest_client/app/src/main/cpp/video_decoder.cpp:166-219 | over every run of the client with honest codecs and distinct indices per epoch, restarts and lost acknowledgements included: what the codecs show they accepted, every published frame was fed to both by one packet of its epoch, and its latency counts from that packet |
| HostVideo.VideoThread.StreamLoop | host_bridge/tools/host_bridge_demo.cpp:452-487 | the thread's loop over any number of turns, with acknowledgements in every gap between its lock sections: every frame lies within the window read at its choice, and between clamps and restarts the due time advances by one interval per frame |
| HostVideo.PacingOverTurns | host_bridge/tools/host_bridge_demo.cpp:452-486 | the pacing of that loop over every prefix of its turns |
| HostVideo.ThirtyFramesASecond | host_bridge/tools/host_bridge_demo.cpp:449-486 | over every smooth prefix of n turns at least n frames are used up, and 30 of them move the due time by a second, less than a nanosecond a frame short of it |
| HostVideo.SendRestartsTheClock | host_bridge/tools/host_bridge_demo.cpp:466-486 | a failed send stops the clock, and the next success sets the due time to one interval after itself, whatever was due |
| HostVideo.VideoThread.HandleAck | host_bridge/tools/host_bridge_demo.cpp:121-140 | in every erasing order: an acknowledgement counts iff its send time is known; old send times are dropped |
| HostVideo.CatchUpPaces | host_bridge/tools/host_bridge_demo.cpp:453-458 | catching up leaves the due time at most one interval behind now, and after a skip not ahead of it; frames and time move together |
| HostVideo.ChosenWithinWindow | host_bridge/tools/host_bridge_demo.cpp:459-465 | after an acknowledgement the chosen frame is at most three past the one read under the lock |
| HostVideo.AckKeepsRecent | host_bridge/tools/host_bridge_demo.cpp:121-140 | exactly the send times of other frames at most 300 older, in wrapping 64-bit arithmetic, stay; the acknowledgement counts iff its own was there |
| StreamProtocol.AckKeepsRecentOverRun | host_bridge/tools/host_bridge_demo.cpp:121-140 | over every run the bound never wraps: exactly the send times of frames from a - 300 on, but a itself, stay |
| StreamProtocol.PacingOverRun | host_bridge/tools/host_bridge_demo.cpp:452-486 | over every stretch of every run between clamps and restarts, the steps of thread, channels and client interleaved at will, the due time advances by exactly one interval per frame, sent or skipped |
| StreamProtocol.NoRestart | quest_client/app/src/main/cpp/video_decoder.cpp:158-164 | fed with an index not below the previous one, the index-jump restart does not fire |
| StreamProtocol.ReceiveSteady | quest_client/app/src/main/cpp/video_decoder.cpp:155-231 | a received frame not below the previous one keeps the decoder's epoch and publishes at most one frame, above all published before |
| StreamProtocol.StepSafe | host_bridge/tools/host_bridge_demo.cpp:452-487 | every step of host, channels or client keeps the mutual invariant |
| StreamProtocol.HostDecoderSafety | host_bridge/tools/host_bridge_demo.cpp:452-487 | over every run: sent indices never decrease iff the first one sent under a window did not; then recorded acknowledgements and published frames strictly increase and the restart never fires |
| StreamGuard.GuardedRunIsSafe | host_bridge/tools/host_bridge_demo.cpp:459-480 | while the guard holds at every choice, every reachable state keeps the mutual invariant of host, channels and decoder |
| StreamGuard.UnguardedOutcome | host_bridge/tools/host_bridge_demo.cpp:452-487 | after a choice at which the guard fails, whatever happens next: an index that decreases as soon as a send succeeds, and until then the next one to be sent is smaller |
| StreamGuard.GuardDecides | host_bridge/tools/host_bridge_demo.cpp:452-487 | the exact condition, over every run: sent indices never decrease iff no send succeeds after a choice made first under a window with a frame above latest ack + 3 out; then acknowledgements and published frames strictly increase and the decoder never restarts |
| StreamRaces.AckBetweenChoiceAndSend | host_bridge/tools/host_bridge_demo.cpp:459-480 | an acknowledgement of a recorded between choice and send of any frame from a + 3 on makes the next chosen frame a + 3, whatever the clocks say |
| StreamRaces.GuardAtAckIsNotEnough | host_bridge/tools/host_bridge_demo.cpp:121-132 | for every skip to a frame k from 4 on, a complete run, without losses and on a clock that never goes back, in which no frame above 0 + 3 was out when 0 was recorded, and frames 0, k, 3 are sent |
| StreamRaces.RaceRestartsDecoder | quest_client/app/src/main/cpp/video_decoder.cpp:158-164 | the same run carried on, for every k from 6 on: the index-jump restart fires on frame 3, and the recorded acknowledgements go back from k to 3 iff k is at most 303 |
| StreamWindow.WindowDecides | host_bridge/tools/host_bridge_demo.cpp:452-487 | the exact condition for indices that are never repeated, over every run: sent indices strictly increase iff no send succeeds after a choice made while latest ack + 3 or a later frame was out |
| StreamWindow.SpacedRunIsFresh | quest_client/app/src/main/cpp/video_decoder.cpp:166-219 | over every run of the closed loop whose sent indices strictly increase: no index is fed to the codecs twice in an epoch, and every acknowledgement counts from the one packet that fed its frame to both |
| StreamWindow.OpenWindowsKeepFresh | host_bridge/tools/host_bridge_demo.cpp:459-480 | the same conclusion from the guard that is read before each choice |
| StreamStall.StallIsForever | host_bridge/tools/host_bridge_demo.cpp:452-487 | over every run: once the loop is blocked it stays so, nothing is recorded or published any more, and the frames sent stay within the window and are its last one as soon as the counter is there |
| StreamStall.StallNeedsNoLoss | host_bridge/tools/host_bridge_demo.cpp:121-132 | for every k and for frame 3, 4 or 5 published, a complete run without any loss or failed send, that is blocked after ten steps, the guard kept up to there, and sends frame 3 k more times |
| StreamProgress.GuardedRunKnowsTimes | host_bridge/tools/host_bridge_demo.cpp:121-140 | over every guarded run: whatever can still be acknowledged, or is being acknowledged, has its send time stored, or is the frame about to be stored |
| StreamProgress.ProgressIffNotBlocked | host_bridge/tools/host_bridge_demo.cpp:452-487 | the exact condition, in every state of every run: some continuation records an acknowledgement or publishes a frame iff the loop is not blocked |
| StreamProgress.BlockedIfGuarded | host_bridge/tools/host_bridge_demo.cpp:452-487 | in every state of every guarded run, blocked means: no acknowledgement under way, the last published frame between latest ack + 3 and + 5, and none above it in flight, chosen, or held by both codecs |
| Streamer.Quest3VideoStreamer.EnsureEncoders | robovr/quest3/video.py:491-513 | both encoders run afterwards or the call failed; the eyes stay in step |
| Streamer.Quest3VideoStreamer.FillPending | robovr/quest3/video.py:463-466 | a pending unit is kept, else the next one in order is taken, whatever the reader thread did meanwhile, its flush at end of stream included; None iff there is none |
| Streamer.Quest3VideoStreamer.TakeBoth | robovr/quest3/video.py:463-467 | both slots are filled in step; true iff both hold a unit |
| Streamer.Quest3VideoStreamer.FormPayload | robovr/quest3/video.py:470-480 | left and right index are equal, both slots are consumed together into the payload of the units emitted under that index, or neither when packing fails |
| Streamer.Quest3VideoStreamer.NextPayload | robovr/quest3/video.py:454-480 | one pair more and its payload, or none and the pairs unchanged |
| Streamer.Quest3VideoStreamer.Send | robovr/quest3/video.py:449-489 | over every interleaving: the socket is handed nothing, or the payload of the next index with the bytes that the two encoders emitted under it; true iff it was delivered; submitted == sent + dropped + encode pending |
| Streamer.Quest3VideoStreamer.Close | robovr/quest3/video.py:434-442 | encoders and both pending slots go together |
| NeutralFrame.RotateKeepsDot | examples/robomimic_stereo_video.py:248-266 | for unit quaternions rotation preserves all dot products |
| NeutralFrame.RotateBack | examples/robomimic_stereo_video.py:244-266 | rotating by the conjugate is undone by rotating |
| NeutralFrame.RotationMatrix | examples/robomimic_stereo_video.py:248-266 | which rotation a quaternion stands for: the images of right, up and forward, entry by entry |
| NeutralFrame.TurnAboutUp | examples/robomimic_stereo_video.py:262-266 | the sense of rotation: a turn about the up axis moves forward to the left |
| NeutralFrame.NormalizedIsUnit | examples/robomimic_stereo_video.py:236-241 | normalisation yields a unit quaternion, the tiny-norm fallback included |
| NeutralFrame.NormalizedDirection | examples/robomimic_stereo_video.py:236-241 | times its norm the result is the quaternion itself; up to 1e-9 it is the identity |
| NeutralFrame.LocalKeepsDot | examples/robomimic_stereo_video.py:393-399 | components along headset axes keep dot products, hence lengths |
| NeutralFrame.ReachableAxes | examples/robomimic_stereo_video.py:299-314 | in every reachable state the shared axes are orthonormal and local components keep dot products |
| NeutralFrame.HeadTracker.Update | examples/robomimic_stereo_video.py:654-681 | the neutral pose is set on the first sample and on each press of reset, and only then; the axes follow it |
| ArmTeleop.QuestArmTeleop.UpdateGripper | examples/robomimic_stereo_video.py:341-349 | exactly a press of the trigger toggles the gripper; the entry is 1 iff closed differs from inverted, else -1 |
| ArmTeleop.QuestArmTeleop.HeldAction | examples/robomimic_stereo_video.py:387-432 | deadbands, axis map, gain, clipping and rotation lock of a held clutch; along orthonormal axes both parts follow the hand: forward to +x, right to -y, up to +z |
| ArmTeleop.QuestArmTeleop.MakeAction | examples/robomimic_stereo_video.py:331-435 | the whole action and the whole new state for one sample: missing sample, small action, clutch, engagement, reset, gripper; the action sent follows the hand along orthonormal axes |
| ArmTeleop.MapByDirections | examples/robomimic_stereo_video.py:393-422 | for all orthonormal axes: a displacement f forward, r right and u up maps to (f, -r, u) times the signs |
| ArmTeleop.MapBeforeNeutral | examples/robomimic_stereo_video.py:393-422 | with the initial axes: (x, y, z) maps to (-z, -x, y) times the signs |
| ArmTeleop.ActionFollowsHand | examples/robomimic_stereo_video.py:393-432 | the action that is sent for it: each part times gain by output limit, and the action limit beyond that |
| ArmTeleop.ClipLimits | examples/robomimic_stereo_video.py:428-432 | clipping leaves what is within the limit and yields the limit of the right sign beyond it |
| ArmTeleop.DroppedIsShort | examples/robomimic_stereo_video.py:387-392 | a displacement along an axis falls into the deadband iff it is shorter |
| ArmTeleop.RunBalances | examples/robomimic_stereo_video.py:374-419 | for any additive map and any deadband test, emitted and mapped lost displacements of a clutched run add up to the map of final minus first grip |
| ArmTeleop.ClutchConserves | examples/robomimic_stereo_video.py:374-419 | over a clutched run from engagement, what was emitted plus the map of what fell into the deadband is the map of final minus first grip; they are equal iff the lost part maps to zero |
| ArmTeleop.ClutchWithoutDeadband | examples/robomimic_stereo_video.py:374-419 | with no deadband the emitted displacements sum exactly to the mapped grip displacement |
| ArmTeleop.ActionsConserve | examples/robomimic_stereo_video.py:374-432 | the same for the clipped actions as sent: actions, what clipping cut off and the map of the lost part add up exactly; the actions alone do iff the other two cancel, and nothing is cut off actions within the limit |

## Left out

- Sockets as system objects, threads, ADB, ffmpeg, V4L2, JNI, OpenXR, EGL/GL and shaders: foreign calls; what they return is an argument.
- H.264 decoding and MediaCodec internals: replaced by nondeterministic codecs and the stated axiom.
- Conformance of access units to section 7.4.1.2.3 of ITU-T H.264: the code groups by its own rule, which is what is specified.
- Equality of the Python and C++ access-unit grouping: they differ by design (slice types, slice-less groups, undecodable slices, tail); only NAL sequence and field reader are compared.
- `_find_start_code` with swapped arguments, and C++ offsets as unsigned: typing rules both out here.
- The stop event of `_reader_loop`: a stop is an end of the list of reads; the read size of 4096 does not matter to any statement.
- Progress of the reader thread during `take`: it is modelled just before each take.
- Streamer.Quest3VideoStreamer.Send: resizing, flipping and swapping of images are not modelled; an exception from them is, and what the encoders make of them is any NAL sequence.
- Sending.Sender.SendPacket: a connection that has stopped taking bytes takes none later within a run of sends; `RecoveredConnection` joins two runs across one outage. What a receiver makes of two cut packets in a row is decided there; three need two outages and are not described.
- Framing.ReceiveLoop: the client polls with `hasReadableData` between packets; the loop here reads until the stream ends.
- StreamProtocol.HostDecoderSafety: frame counters are assumed below 2^63, where a codec's signed timestamp can hold them; a broken connection loses suffixes of what is in flight.
- StreamProgress.ProgressIffNotBlocked: that progress is possible says nothing about fair scheduling; a blocked system stays so as long as the same client keeps running; the frame size is assumed nonzero, and the frame counter and the latest acknowledgement to have room for five more below 2^63.
- Latency as a `double` in milliseconds: kept as integer nanoseconds; the 32-bit index given to the renderer, statistics counters and logging are not modelled.
- Input buffers too small for an access unit are not returned to the codec by the code, so nothing is claimed about conservation of input buffers.
- The CPU decoding branch: unreachable from coherent states, as `Decode` shows.
- AckText.AckRoundTrip: `strtoull` is modelled on text that begins with a digit; signs and leading white space cannot come from `%llu`.
- Agreement of the Python and C++ key/value parsers: they differ on repeated keys, white space and newlines.
- ArmTeleop.QuestArmTeleop.MakeAction: the rotation vector of a quaternion is a function parameter (it needs an arc tangent); entries beyond the seventh, `last_action` and printing are not modelled; the two divisors are assumed nonzero; floating-point rounding is replaced by real arithmetic, and a norm by a number with the right square.
