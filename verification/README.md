# A verified model of the transcoding service

The service reads a transport stream, transcodes the audio and video streams
that callers select by pairs of PIDs, and writes one output for each pair. It is
controlled by remote calls. This project models its own logic, leaving codecs,
muxers and the network to parameters, and proves what that logic keeps.

| file | what it models |
|---|---|
| `Wire.dfy`, `WireLaws.dfy`, `Message.dfy`, `TranscodeRpc.dfy` | the message codec: wire primitives as the Protocol Buffers encoding specification defines them ("Base 128 Varints", "Message Structure", "More Integer Types", "Length-Delimited Records", "Last One Wins"), what they mean independently of their definitions, the laws of parsing, writing and merging, and the five generated message classes proved against them |
| `AudioFlow.dfy`, `AudioLaws.dfy` | the audio worker: a FIFO cut into encoder frames with recomputed timestamps, and what holds over whole runs |
| `VideoClock.dfy` | video timestamps: the detour through the encoder's time base, and the repair of missing ones |
| `CtxWrapper.dfy` | set-up: which streams are decoded, and where each is routed |
| `TransState.dfy`, `Lifecycle.dfy` | the state registry, and the life cycle as a protocol of any number of concurrent callers |
| `Transcoder.dfy` | the packet dispatcher |
| `RpcServer.dfy` | the input callback's cursor |
| `Arith.dfy`, `Wrappers.dfy` | C++ integer division and facts about quotients; a value that may be missing, and the outcome of a call that may be undefined |

Where the original updates objects step by step, the model has classes and
methods with the same branches and loops, and each method is proved equal to a
function; the laws are lemmas about these functions. What another party decides
is an input: the results of decoder calls, the packets that the demuxer
delivers, which of FFmpeg's opening calls succeed, the iteration order of an
unordered map, and the schedule of the threads.

Results that differ from what the code or its comments suggest:

- A string that is not UTF-8 is written but not read, so the round trip is an
  if-and-only-if (`Message.RoundTrip`, `TranscodeRpc.WrittenAndRefused`).
- "Concatenation is merge" fails for input that sets a field to zero explicitly
  (`TranscodeRpc.ResettingIsNotMerging`); the exact condition is in
  `Message.ConcatenationIsMergeExactly`.
- Audio timestamps are strictly increasing only if a frame lasts a tick or more
  (`AudioLaws.NoDrift`, `AudioLaws.CoarseTicksStandStill`).
- The detour through the encoder's ticks is exact only if the encoder tick is no
  coarser than the stream tick (`VideoClock.TranscodedIsExactIff`).
- An unknown video timestamp is sure to stay unknown only if start time and mux
  offset are 0 (`VideoClock.UnknownIsKeptIff`).
- Set-up is undefined for a pair that selects no video stream, for an input that
  does not open, for an output context that is not allocated, and for SetConfig
  on a context that is open already (`CtxWrapper.SetUpEndsExactly`,
  `CtxWrapper.AudioOnlyIsUndefined`).
- CleanUp releases the input twice, and the second release follows the context
  that the first one closed (`CtxWrapper.CtxWrapper.ReleaseTwice`). So no CleanUp
  call gets to its notification with defined behaviour. What is said of later
  steps of CleanUp, and of calls that wait for it, assumes that the release
  returns.
- A Process call after another one without a CleanUp in between follows a null
  stream pointer, also after a new set-up; a Process call before any set-up, or one
  that read the shared pointer too early, reads through a null or closed input
  context (`Lifecycle.ProcessBodyExactly`, `Lifecycle.SecondProcessMeetsNull`,
  `Lifecycle.FirstProcessReadsNull`, `Lifecycle.WaitingProcessReadsClosed`).
- An audio packet of unknown duration, which `include/libavformat/avformat.h:171`
  allows, is divided by (`AudioFlow.Audio.Flow`, `Transcoder.RefusedExactly`).
- `code/inc/Transcoder.h:19` says that StopProcess cleans up. The code only
  waits for somebody else's CleanUp, and can wait for ever: `Lifecycle.NotificationLost`
  is such a run, and `Lifecycle.StopReturnsExactly` says when it does return. It
  can also refuse to stop a Process call that is running
  (`Lifecycle.StopRefusedWhileProcessing`).

All timestamps are unbounded integers and all quotients exact; the model cuts
them to integers where the code converts.

## Model

| member | source | states |
|---|---|---|
| `Wire.DecodeEncode` | code/src/transcode_rpc.pb.cc:364-366 | Reading a varint undoes writing it, whatever bytes follow and whatever the read budget, as long as the form fits the budget. |
| `Wire.EncodeIsShortest` | code/src/transcode_rpc.pb.cc:364-366 | Of all byte strings that read as the same number, the written form is the shortest. |
| `Wire.VarintLength` | code/src/transcode_rpc.pb.cc:508-520 | The written form has as many bytes as there are seven-bit groups to write. |
| `Wire.Int32SizeIsLength` | code/src/transcode_rpc.pb.cc:508-513 | The size computed by comparing with powers of two is the length of the written int32: ten bytes for every negative one, one to five for the others. |
| `Wire.VarintSizeIsLength` | code/src/transcode_rpc.pb.cc:501-506 | The same for the length prefix of a string. |
| `Wire.ReadInt32Inverts` | code/src/transcode_rpc.pb.cc:364-366 | Every int32, negative ones included (written sign-extended in ten bytes), is read back from its written form. |
| `Wire.ReadStringInverts` | code/src/transcode_rpc.pb.cc:391-392 | A string shorter than 2^31 bytes is read back from its length-delimited form. |
| `Wire.ReadStringExtends` | code/src/transcode_rpc.pb.cc:391-392 | Reading a string does not look beyond it: more bytes after the input only extend the rest. |
| `Wire.ReadTagExtends` | code/src/transcode_rpc.pb.cc:355-357 | The same for a tag. |
| `Wire.SkipExtends` | code/src/transcode_rpc.pb.cc:403-411 | The same for skipping a field of any wire type, groups nested to any depth included. |
| `Wire.SkipGroupExtends` | code/src/transcode_rpc.pb.cc:403-411 | The same for the body of a group. |
| `WireLaws.DecodeIsSum` | code/src/transcode_rpc.pb.cc:364-366 | Reading takes the first run of bytes that ends at one below 128 and gives the sum of `bs[j] % 128 * 128^j`; it fails exactly if the first bytes, as many as it may read, all have the high bit set. |
| `WireLaws.EncodeIsForm` | code/src/transcode_rpc.pb.cc:430-432 | In the written form all bytes but the last have the high bit set, and the groups sum to the number. |
| `WireLaws.Int32IsTwosComplement` | code/src/transcode_rpc.pb.cc:364-366 | The number written for an int32 is its value modulo 2^64, the value read is the number modulo 2^32. |
| `WireLaws.TagIsLowBits` | code/src/transcode_rpc.pb.cc:355-358 | A tag is the low 32 bits of the first varint; without a varint there is no tag and nothing is read. |
| `WireLaws.ValidUtf8Exactly` | code/src/transcode_rpc.pb.cc:391-396 | A string is valid exactly if it is the encoding, computed from the bits, of some sequence of Unicode scalar values, in one to four bytes each. |
| `WireLaws.ValueIsSkipped` | code/src/transcode_rpc.pb.cc:403-411 | Skipping uses up exactly one value of the field's wire type, built independently: varint, eight bytes, prefixed bytes, group of such fields nested to any depth, four bytes. |
| `WireLaws.CutValueIsRefused` | code/src/transcode_rpc.pb.cc:403-411 | Nothing shorter than the value is skipped. |
| `Message.ParseAppend` | code/src/transcode_rpc.pb.cc:354-413 | For all byte strings: what follows a cleanly parsed prefix is parsed exactly as if parsing had started there with the message that the prefix left. |
| `Message.ParseSerializedFrom` | code/src/transcode_rpc.pb.cc:349-454 | Reading the fields from `k` on, as written, into any message succeeds exactly when the shared strings are UTF-8, and then overwrites the fields that are not zero. |
| `Message.ParseIsMerge` | code/src/transcode_rpc.pb.cc:349-454 | Parsing a written message into any message of the type is MergeFrom: the zeros that the serializer leaves out are the ones that MergeFrom skips. |
| `Message.RoundTrip` | code/src/transcode_rpc.pb.cc:349-490 | Parsing the written bytes into a cleared message gives the message back exactly when all its strings are UTF-8; otherwise parsing fails, as only the parser enforces UTF-8. |
| `Message.ConcatenationIsMerge` | code/src/transcode_rpc.pb.cc:544-561 | Parsing two written messages one after the other is merging the second into the first. |
| `Message.ConcatenationIsMergeExactly` | code/src/transcode_rpc.pb.cc:349-421 | The same for arbitrary accepted byte strings, with the exact condition: the second part must not set a field explicitly to zero that the first part left non-zero. |
| `Message.VersionsInterwork` | code/src/transcode_rpc.pb.cc:403-411 | A reader that knows fewer or more fields than the writer gets every shared field, keeps the ones not written, and fails exactly when a shared string is not UTF-8. |
| `Message.ParseKeepsValid` | code/src/transcode_rpc.pb.cc:387-396 | Whatever bytes are accepted, only strings that can be written and read again are stored. |
| `Message.Normalises` | code/src/transcode_rpc.pb.cc:349-490 | Writing the result of any accepted input gives bytes that read as the same message. |
| `Message.ParseFrame` | code/src/transcode_rpc.pb.cc:354-413 | Two runs over the same bytes agree on the fields that the bytes set, and each keeps its own value elsewhere. |
| `Message.UnknownIsSkipped` | code/src/transcode_rpc.pb.cc:403-411 | One complete record with an unknown number, or a known number with another wire type, before any input changes nothing. |
| `Message.UnknownFieldsAreIgnored` | code/src/transcode_rpc.pb.cc:403-411 | Any number of such records, anywhere between cleanly parsed pieces, changes nothing. |
| `Message.WrittenFieldIsUnknown` | code/src/transcode_rpc.pb.cc:403-411 | Every field with an unknown number or another type, as it is written, is such a record. |
| `Message.ZeroTagStops` | code/src/transcode_rpc.pb.cc:404-416 | A zero tag after cleanly parsed bytes ends parsing with success, and what follows is left unread. |
| `Message.MalformedTagStops` | code/src/transcode_rpc.pb.cc:404-416 | So do bytes that are no varint. |
| `Message.CutRecordFails` | code/src/transcode_rpc.pb.cc:361-401 | A known record that is cut off anywhere behind its first byte makes parsing fail. |
| `Message.EmptyFormExactly` | code/src/transcode_rpc.pb.cc:429-447 | Exactly the message whose fields are all 0 or empty is written as nothing. |
| `Message.WrittenSizeIsLength` | code/src/transcode_rpc.pb.cc:501-520 | The size that ByteSizeLong adds for a field is the number of bytes written for it. |
| `TranscodeRpc.PIDS.constructor` | code/src/transcode_rpc.pb.cc:296-302 | A new PIDS is the cleared message. |
| `TranscodeRpc.PIDS.Clear` | code/src/transcode_rpc.pb.cc:336-347 | Every field is at its default. |
| `TranscodeRpc.PIDS.MergeFrom` | code/src/transcode_rpc.pb.cc:544-561 | The new fields are Merge of the old ones and the source. |
| `TranscodeRpc.PIDS.CopyFrom` | code/src/transcode_rpc.pb.cc:570-575 | The new fields are those the source had, also when the source is the object itself. |
| `TranscodeRpc.PIDS.MergePartialFromCodedStream` | code/src/transcode_rpc.pb.cc:349-421 | Return value, fields, stream position and end flag are what the reference parser says, for every byte string and every message before; tag bytes 8, 16 and 26. |
| `TranscodeRpc.PIDS.SerializeWithCachedSizes` | code/src/transcode_rpc.pb.cc:423-454 | Appends exactly the reference form of the fields. |
| `TranscodeRpc.PIDS.InternalSerializeWithCachedSizesToArray` | code/src/transcode_rpc.pb.cc:456-490 | Stores the same bytes in place from `at` on, changes no other byte of the array, and returns the end. |
| `TranscodeRpc.PIDS.ByteSizeLong` | code/src/transcode_rpc.pb.cc:492-527 | The number of bytes that both serializers emit. |
| `TranscodeRpc.AvioType.constructor` | code/src/transcode_rpc.pb.cc:630-634 | A new avio_type is the cleared message. |
| `TranscodeRpc.AvioType.Clear` | code/src/transcode_rpc.pb.cc:668-677 | Every field is at its default. |
| `TranscodeRpc.AvioType.MergeFrom` | code/src/transcode_rpc.pb.cc:843-857 | The new fields are Merge of the old ones and the source. |
| `TranscodeRpc.AvioType.CopyFrom` | code/src/transcode_rpc.pb.cc:866-871 | The new fields are those the source had, also when the source is the object itself. |
| `TranscodeRpc.AvioType.MergePartialFromCodedStream` | code/src/transcode_rpc.pb.cc:679-737 | Return value, fields, stream position and end flag are what the reference parser says, for every byte string and every message before; tag bytes 8 and 18. |
| `TranscodeRpc.AvioType.SerializeWithCachedSizes` | code/src/transcode_rpc.pb.cc:739-765 | Appends exactly the reference form of the fields. |
| `TranscodeRpc.AvioType.InternalSerializeWithCachedSizesToArray` | code/src/transcode_rpc.pb.cc:767-796 | Stores the same bytes in place from `at` on, changes no other byte of the array, and returns the end. |
| `TranscodeRpc.AvioType.ByteSizeLong` | code/src/transcode_rpc.pb.cc:798-826 | The number of bytes that both serializers emit. |
| `TranscodeRpc.StateReply.constructor` | code/src/transcode_rpc.pb.cc:923-926 | A new StateReply is the cleared message. |
| `TranscodeRpc.StateReply.Clear` | code/src/transcode_rpc.pb.cc:960-968 | Every field is at its default. |
| `TranscodeRpc.StateReply.MergeFrom` | code/src/transcode_rpc.pb.cc:1103-1114 | The new fields are Merge of the old ones and the source. |
| `TranscodeRpc.StateReply.CopyFrom` | code/src/transcode_rpc.pb.cc:1123-1128 | The new fields are those the source had, also when the source is the object itself. |
| `TranscodeRpc.StateReply.MergePartialFromCodedStream` | code/src/transcode_rpc.pb.cc:970-1014 | Return value, fields, stream position and end flag are what the reference parser says, for every byte string and every message before; tag byte 10. |
| `TranscodeRpc.StateReply.SerializeWithCachedSizes` | code/src/transcode_rpc.pb.cc:1016-1037 | Appends exactly the reference form of the fields. |
| `TranscodeRpc.StateReply.InternalSerializeWithCachedSizesToArray` | code/src/transcode_rpc.pb.cc:1039-1063 | Stores the same bytes in place from `at` on, changes no other byte of the array, and returns the end. |
| `TranscodeRpc.StateReply.ByteSizeLong` | code/src/transcode_rpc.pb.cc:1065-1086 | The number of bytes that both serializers emit. |
| `TranscodeRpc.ChannelList.constructor` | code/src/transcode_rpc.pb.cc:1179-1182 | A new channel_list is the cleared message. |
| `TranscodeRpc.ChannelList.Clear` | code/src/transcode_rpc.pb.cc:1216-1224 | Every field is at its default. |
| `TranscodeRpc.ChannelList.MergeFrom` | code/src/transcode_rpc.pb.cc:1359-1370 | The new fields are Merge of the old ones and the source. |
| `TranscodeRpc.ChannelList.CopyFrom` | code/src/transcode_rpc.pb.cc:1379-1384 | The new fields are those the source had, also when the source is the object itself. |
| `TranscodeRpc.ChannelList.MergePartialFromCodedStream` | code/src/transcode_rpc.pb.cc:1226-1270 | Return value, fields, stream position and end flag are what the reference parser says, for every byte string and every message before; tag byte 10. |
| `TranscodeRpc.ChannelList.SerializeWithCachedSizes` | code/src/transcode_rpc.pb.cc:1272-1293 | Appends exactly the reference form of the fields. |
| `TranscodeRpc.ChannelList.InternalSerializeWithCachedSizesToArray` | code/src/transcode_rpc.pb.cc:1295-1319 | Stores the same bytes in place from `at` on, changes no other byte of the array, and returns the end. |
| `TranscodeRpc.ChannelList.ByteSizeLong` | code/src/transcode_rpc.pb.cc:1321-1342 | The number of bytes that both serializers emit. |
| `TranscodeRpc.Empty.constructor` | code/src/transcode_rpc.pb.cc:1430-1432 | A new empty is the cleared message. |
| `TranscodeRpc.Empty.Clear` | code/src/transcode_rpc.pb.cc:1465-1472 | Every field is at its default. |
| `TranscodeRpc.Empty.MergeFrom` | code/src/transcode_rpc.pb.cc:1558-1565 | The new fields are Merge of the old ones and the source. |
| `TranscodeRpc.Empty.CopyFrom` | code/src/transcode_rpc.pb.cc:1574-1579 | The new fields are those the source had, also when the source is the object itself. |
| `TranscodeRpc.Empty.MergePartialFromCodedStream` | code/src/transcode_rpc.pb.cc:1474-1497 | Return value, fields, stream position and end flag are what the reference parser says, for every byte string and every message before; every field is unknown. |
| `TranscodeRpc.Empty.SerializeWithCachedSizes` | code/src/transcode_rpc.pb.cc:1499-1510 | Appends exactly the reference form of the fields. |
| `TranscodeRpc.Empty.InternalSerializeWithCachedSizesToArray` | code/src/transcode_rpc.pb.cc:1512-1525 | Stores the same bytes in place from `at` on, changes no other byte of the array, and returns the end. |
| `TranscodeRpc.Empty.ByteSizeLong` | code/src/transcode_rpc.pb.cc:1527-1541 | The number of bytes that both serializers emit. |
| `TranscodeRpc.ResettingIsNotMerging` | code/src/transcode_rpc.pb.cc:354-413 | The input on which concatenation is not merge: a PIDS with video 1 followed by one that sets video to 0 explicitly parses to 0, the merge has 1. |
| `TranscodeRpc.WrittenAndRefused` | code/src/transcode_rpc.pb.cc:391-396 | The input on which the round trip fails: a reply of the byte 0xFF is written and then refused. |
| `TranscodeRpc.PidsBytes` | code/src/transcode_rpc.pb.cc:429-447 | The bytes of one PIDS, field by field. |
| `TranscodeRpc.AvioTypeBytes` | code/src/transcode_rpc.pb.cc:739-765 | The bytes of one avio_type. |
| `TranscodeRpc.StateReplyBytes` | code/src/transcode_rpc.pb.cc:1016-1037 | The bytes of one StateReply and channel_list. |
| `TranscodeRpc.GoStateReplyIsUnderstood` | code/transcode_rpc.pb.go:96-99 | A reply that the Go side writes with any `error_code` parses in C++ with the same `reply`. |
| `TranscodeRpc.CppStateReplyIsUnderstood` | code/transcode_rpc.pb.go:96-99 | A C++ reply parses on the Go side with `error_code` 0. |
| `AudioFlow.Audio.Flow` | code/src/Audio.cpp:290-323 | Undefined exactly for a packet of duration 0, which line 294 divides by, with nothing changed. Otherwise both loops terminate from any starting FIFO content, given a decoder that fails or uses at least one byte; state, remaining packet bytes and return value are those of the reference run, and the data pointer moves with the size. |
| `AudioFlow.Audio.EncodeFullFrames` | code/src/Audio.cpp:306-313 | The inner loop is the reference drain: frames, timestamps, end point and FIFO remainder. |
| `AudioFlow.Audio.StartPts` | code/src/Audio.cpp:293-296 | The first timestamp of a packet is computed from the packet alone; a packet before the start counts as the start. |
| `AudioFlow.Audio.LoadEncodeAndWrite` | code/src/Audio.cpp:218-239 | Takes a frame of samples off the front of the FIFO, or all there are if fewer, and logs them with the timestamp. |
| `AudioFlow.Audio.AudioDecode` | code/src/Audio.cpp:124-184 | A successful call appends the decoded samples to the FIFO and returns the bytes used; a failing one leaves the FIFO alone and returns -1. |
| `AudioFlow.Audio.InitalTool` | code/src/Audio.cpp:19-27 | Empties the FIFO and fixes the frame length in whole ticks; nothing else changes. |
| `AudioFlow.Audio.SetTime` | code/src/Audio.cpp:329-332 | Sets start time and mux offset and keeps the frame length. |
| `AudioFlow.Audio.ReturnEndPoint` | code/src/Audio.cpp:333-335 | The end point. |
| `AudioLaws.FlowExtends` | code/src/Audio.cpp:297-316 | Handling a packet, also one that fails part-way, cuts whole frames off the FIFO followed by everything decoded, with consecutive timestamps from the packet's own one, and leaves less than a frame. |
| `AudioLaws.ExtendsTwice` | code/src/Audio.cpp:306-312 | Two such steps in a row are one such step with the clock running on. |
| `AudioLaws.FlowUses` | code/src/Audio.cpp:297-317 | From a FIFO below a frame, the flow succeeds after the fewest decoder calls, but at least one, whose bytes reach the packet's size, none of them failing; otherwise it ends at the first call that fails or is missing, with the bytes that the calls before it have not used. |
| `AudioLaws.WaitingFrame` | code/src/Audio.cpp:299-312 | A full frame that waits in the FIFO takes one pass that decodes nothing and uses no bytes. |
| `AudioLaws.PacketIndexExactly` | code/src/Audio.cpp:293-294 | For a packet that lasts, the count is `k` exactly if `k*duration <= pts - start < (k+1)*duration`, and 0 before the start. |
| `AudioLaws.IndexIsRelative` | code/src/Audio.cpp:293-294 | Shifting start time and timestamp together changes nothing. |
| `AudioLaws.Conservation` | code/src/Audio.cpp:290-323 | After any packets, the frames written followed by the FIFO are the frames and FIFO before followed by everything decoded; each new frame is full and the FIFO holds less than one. |
| `AudioLaws.FramesAreSlices` | code/src/Audio.cpp:290-328 | From a fresh worker, frame `j` is samples `j*F` to `(j+1)*F` of the decoded stream; the last `total mod F` samples stay in the FIFO. |
| `AudioLaws.PtsOfIndexIs` | code/src/Audio.cpp:294-296 | For equal sample rates the first timestamp of packet index `k` is the mux offset plus the floor of `k*In*D/F`. |
| `AudioLaws.StartOffset` | code/src/Audio.cpp:293-296 | That timestamp starts the interval of the next frame, because the FIFO holds less than a frame. |
| `AudioLaws.SteadyRun` | code/src/Audio.cpp:290-316 | After `k` packets of a steady run, frames and FIFO together hold `k*In` samples and every timestamp is in its own interval. |
| `AudioLaws.NoDrift` | code/src/Audio.cpp:290-316 | If packet `k` starts in the `k`-th duration after the start and decodes to `In` samples, over a run of any length, `n*D <= pts_n - mux < (n+1)*D` for every frame `n`, the frame count is the quotient of the samples, and the timestamps increase exactly when `D > 0` or there is at most one frame. |
| `AudioLaws.CoarseTicksStandStill` | code/src/Audio.cpp:19-22 | The input on which timestamps do not increase: 1024 samples at 48000 a second and 25 ticks a second take no tick, and the two frames of a steady run get the same timestamp. |
| `AudioLaws.PacketFitsItsSlot` | code/src/Audio.cpp:292-313 | The last frame that one packet can trigger has a timestamp no later than the first one of the next index: `(ceil(In/F)-1)*D` fits in the slot. |
| `AudioLaws.MonotoneDespiteLoss` | code/src/Audio.cpp:292-313 | If packet `k` starts in duration `ks[k]` after the start, the `ks` increase and packets decode to at most `In` samples, timestamps never decrease over the run. |
| `AudioLaws.TruncationBound` | code/src/Audio.cpp:19-22 | With `D` cut to whole ticks the timestamp of packet index `k` never leads the exact time of its first sample and lags it by less than `k*In/F + 1` ticks (over the reals). |
| `VideoClock.RoundIsNearest` | code/src/Video.cpp:26-28 | The rounding is to a nearest integer, and to the one further from zero of two nearest. |
| `VideoClock.RoundSeparates` | code/src/Video.cpp:26-28 | Values a whole unit apart never round to the same integer. |
| `VideoClock.DetourMovesLittle` | code/src/Video.cpp:26-28 | Input to encoder to output ticks moves a time by at most half an encoder tick plus half a stream tick. |
| `VideoClock.PathMovesLittle` | code/src/Video.cpp:26-77 | For any three time bases of input, encoder and output, the output time less the offset is within half an encoder tick and half an output tick of the exact rational time. |
| `VideoClock.TranscodedMovesLittle` | code/src/Video.cpp:71-77 | With one base for input and output: at most half an encoder tick plus half a stream tick, with start shift and mux offset. |
| `VideoClock.DetourSeparates` | code/src/Video.cpp:71-73 | Times at least one encoder tick apart stay apart and in order, in the encoder and after it. |
| `VideoClock.TranscodedSeparates` | code/src/Video.cpp:71-77 | The same for the whole video path. |
| `VideoClock.NoFinerStreamIsExact` | code/src/Video.cpp:26-28 | When the stream tick is no finer than the encoder tick, every time comes back exactly. |
| `VideoClock.GridTimesAreExact` | code/src/CtxWrapper.cpp:175-175 | Frame times on the encoder grid, rounded to stream ticks, come back exactly, whatever the two ticks; if the stream tick is no coarser than the encoder tick, the encoder sees the frame number. |
| `VideoClock.DetourIsExactIff` | code/src/Video.cpp:71-73 | All times come back exactly if and only if the encoder tick is no coarser than the stream tick. |
| `VideoClock.TranscodedIsExactIff` | code/src/CtxWrapper.cpp:230-230 | The same as a comparison of the two time bases. |
| `VideoClock.FrameTimesAreKept` | code/src/Video.cpp:71-77 | The same for the whole video path: frame `n` of a video on the encoder grid keeps its rounded time, and the encoder sees `n` if the stream tick is no coarser. |
| `VideoClock.UnknownIsKeptIff` | code/src/Video.cpp:75-77 | An unknown timestamp stays unknown on the video path if start time and mux offset are both 0. Provided that every value on the way is a 64-bit one, it stays unknown only then, and otherwise becomes a meaningless known one. |
| `VideoClock.KeptIsPredicted` | code/src/Video.cpp:148-159 | The repaired timestamp is the last known one, or the start value, plus the durations of the unknown packets since. |
| `VideoClock.RepairIsMonotoneIff` | code/src/Video.cpp:148-159 | The repaired timestamps never decrease if and only if each known one is at least the prediction and each repaired packet's duration is not negative. |
| `VideoClock.RescaleMonotone` | code/src/Video.cpp:161-162 | Rescaling keeps order. |
| `VideoClock.OutputIsMonotone` | code/src/Video.cpp:148-162 | Under that condition the timestamps that are written never decrease. |
| `VideoClock.Video.SetTime` | code/src/Video.cpp:15-22 | Sets start time and offset; the frame length is the quotient cut to whole ticks. |
| `VideoClock.ShiftOfUnknown` | code/src/Video.cpp:75-77 | Adding to the unknown value gives the sum modulo 2^64. |
| `VideoClock.Video.ResetPts` | code/src/Video.cpp:113-116 | Both timestamps are shifted by the start time, an unknown one like any other 64-bit value. |
| `VideoClock.AVPacket.RescaleTs` | code/src/Video.cpp:26-28 | Converts known timestamps and a positive duration, and nothing else. |
| `VideoClock.Video.VideoDecoder` | code/src/Video.cpp:23-51 | The packet is in encoder ticks whatever the decoder does; there is a frame to encode exactly if the decoder succeeds and gives one. |
| `VideoClock.Video.EncodeWriteFrame` | code/src/Video.cpp:58-95 | Nothing without a frame or if the encoder fails. Otherwise, also when the encoder gives no packet: mux offset on `pts` only, end point without it and only from a known `pts`, stream index; success exactly if there is a packet and it is written. |
| `VideoClock.Video.TranscodeFlow` | code/src/Video.cpp:117-143 | For any three time bases, any timestamps and any answers of decoder and encoder: what the decoder is given, what the muxer is given, return value and end point. If the encoder gives a packet with the timestamps that the decoder was given, these have taken the whole path; with one base for input and output that is the path whose error is bounded above. |
| `VideoClock.Video.MuxFlow` | code/src/Video.cpp:144-165 | Each of `dts` and `pts` is repaired on its own, the kept values are those before rescaling, and the packet gets the rescaled ones. |
| `CtxWrapper.CtxWrapper.IfmtInital` | code/src/CtxWrapper.cpp:86-131 | Undefined exactly if the context is open already, which `include/libavformat/avformat.h:2272` does not allow, or the input does not open, after which line 258 follows a null context. Otherwise it succeeds exactly when the streams are found and every listed one has a decoder that is found and, if it is video or audio, opens; then the decoders opened are those of the listed video and audio streams. On failure the context is closed. |
| `CtxWrapper.CtxWrapper.IfmtClean` | code/src/CtxWrapper.cpp:253-265 | Undefined exactly without a context; afterwards there is none. |
| `CtxWrapper.CtxWrapper.Cleanup` | code/src/CtxWrapper.cpp:277-281 | Undefined exactly without a context, as it begins with that call. |
| `CtxWrapper.CtxWrapper.ReleaseTwice` | code/src/Transcoder.cpp:114-115 | Releasing the input as CleanUp does is undefined in every state: the second release follows the context that the first one closed. |
| `CtxWrapper.CtxWrapper.OfmtInital` | code/src/CtxWrapper.cpp:132-193 | Succeeds exactly when the context is allocated, every selected stream is video or audio with an encoder that opens, one of them is video, and the header is written. Without a video stream the behaviour is undefined at line 182, without a context at line 269. The map gains the entries up to the failing stream, existing keys stay, and on success both objects have tool, rank and the pair's start time. |
| `CtxWrapper.CtxWrapper.SetConfig` | code/src/CtxWrapper.cpp:58-85 | The whole new state and the outcome, by induction over the pairs, from any state of the input context: nothing but context and decoders changes if the input fails, the outputs before a failing one remain, and otherwise all are there; the decoders opened are those of the named video and audio streams. |
| `CtxWrapper.SetUpEndsExactly` | code/src/CtxWrapper.cpp:58-85 | Result 2 exactly when the input opens and its streams or a named decoder fail, 3 exactly when the first output that does not open fails, undefined exactly when the context was open already, the input does not open or that output is undefined, 0 otherwise. |
| `CtxWrapper.InputEndsExactly` | code/src/CtxWrapper.cpp:93-131 | Result 2 exactly if the input opens and its streams are not found, or a stream that some pair has the id of has no decoder or is video or audio and its decoder does not open. After success the decoders opened are those of the wanted video and audio streams, and all were found and open. |
| `CtxWrapper.OutputEndsExactly` | code/src/CtxWrapper.cpp:144-192 | How one output ends, stream by stream: in terms of ids, kinds, encoders found and opened, the header and whether one of the streams is video. |
| `CtxWrapper.EntriesAddedExactly` | code/src/CtxWrapper.cpp:147-170 | The entries that one output adds, also if it fails: those of the pair's streams that have an encoder and whose predecessors all went through. |
| `CtxWrapper.AudioOnlyIsUndefined` | code/src/CtxWrapper.cpp:181-182 | The input on which set-up is undefined although everything opens: a pair whose video PID the stream does not have. |
| `CtxWrapper.CtxWrapper.SetAvio` | code/src/CtxWrapper.cpp:20-57 | Result 1 if no context is allocated, which also loses the one before; otherwise the same as SetConfig from a fresh context. |
| `CtxWrapper.RankIsPosition` | code/src/CtxWrapper.cpp:141-177 | The rank of a selected stream is its place among the pair's output streams. |
| `CtxWrapper.PositionIsRank` | code/src/CtxWrapper.cpp:141-177 | And conversely, every place is the rank of the stream that is there. |
| `CtxWrapper.AddedAre` | code/src/CtxWrapper.cpp:147-164 | One output adds exactly the pair's streams that the map did not have. |
| `CtxWrapper.InPids` | code/src/CtxWrapper.cpp:63-67 | A stream is in the flat list of PIDs exactly when some pair names it. |
| `CtxWrapper.FirstPairOwns` | code/src/CtxWrapper.cpp:73-79 | After all pairs, the map holds what it held, and for every other stream exactly the named ones, each with the object of the first pair naming it. |
| `CtxWrapper.StreamRouting` | code/src/CtxWrapper.cpp:147-179 | After a successful set-up on an empty map, the mapped streams are those some pair has the id of, each with the object of its kind of the first such pair, whose start time is that of the pair's last video stream. The object serves this very stream exactly when it is the pair's last of its kind; then its output index is the stream's rank, and the output stream at that index is the stream. |
| `CtxWrapper.EveryStreamIsServed` | code/src/CtxWrapper.cpp:147-182 | With at most one stream of each kind in a pair, every mapped stream has its own object with the right tool, rank and start time, and its decoder is among the opened ones. |
| `CtxWrapper.SharingIsWithinAPair` | code/src/CtxWrapper.cpp:154-164 | Two mapped streams share an object exactly when they are of one kind and the same pair names both first. |
| `CtxWrapper.ResetEntriesStay` | code/src/CtxWrapper.cpp:157-163 | Whatever a later set-up returns, an entry that exists is not replaced, not even a reset one. |
| `TransState.Status.Initialize` | code/src/TransState.cpp:10-23 | All eight states are registered and the current one is Idle. |
| `TransState.Status.SetState` | code/src/TransState.cpp:25-33 | A registered state becomes current; any other is ignored. |
| `TransState.Status.GetCurrentId` | code/src/TransState.cpp:41-43 | The current state, read without the lock. |
| `Lifecycle.CallStep` | code/src/Transcoder.cpp:31-138 | Every instruction of every call takes and gives up each lock properly and writes only its own status. |
| `Lifecycle.ApplyKeepsInv` | code/src/Transcoder.cpp:31-138 | Every action of any number of concurrent callers keeps the invariant on locks, status and late reads. |
| `Lifecycle.ReachableInv` | code/src/Transcoder.cpp:31-138 | So the invariant holds in every reachable state. |
| `Lifecycle.StatusIsHonest` | code/src/Transcoder.cpp:31-62 | In every interleaving: status Process only while a Process call is in flight, SetConfig only while a set-up is between its first and its last status write, Reset only while a CleanUp call holds the process lock. |
| `Lifecycle.StopNeedsProcess` | code/src/Transcoder.cpp:124-129 | StopProcess gets past its check exactly when the status is Process, hence only while a Process call is in flight. |
| `Lifecycle.ProcessStatusExactly` | code/src/Transcoder.cpp:76-102 | The status is Process if and only if its last writer is a Process call that is still in flight. |
| `Lifecycle.StopRefusedWhileProcessing` | code/src/Transcoder.cpp:50-62 | The converse of honesty fails: a run in which a late SetFailed makes StopProcess refuse while Process is in its packet loop. |
| `Lifecycle.StopReturnsExactly` | code/src/Transcoder.cpp:119-131 | A StopProcess call that sleeps returns, once all calls have gone as far as they can, if and only if some CleanUp call had not notified yet when it slept. Assumes that the release of the contexts in CleanUp returns, see CtxWrapper.CtxWrapper.ReleaseTwice. |
| `Lifecycle.NotificationLost` | code/src/Transcoder.cpp:119-131 | A run, from a successful set-up on, in which Process and CleanUp finish between the check and the wait of StopProcess, which then sleeps with nothing left to run. Under the same assumption. |
| `Lifecycle.MutualExclusion` | code/src/Transcoder.cpp:36-117 | At most one locked body of set-up, Process and CleanUp is active. |
| `Lifecycle.Progress` | code/src/Transcoder.cpp:31-138 | While some call is neither finished nor in its wait, some call can take a step; while a set-up, Process or CleanUp call is unfinished, one of these can: the state lock is always innermost. |
| `Lifecycle.ExecWork` | code/src/Transcoder.cpp:72-138 | Every step uses up work, counted from the calls and the packets left. |
| `Lifecycle.EveryScheduleEnds` | code/src/Transcoder.cpp:31-138 | Without new callers every schedule, spurious wake-ups included, ends within a known bound, and when no call can go on, every set-up, Process and CleanUp call has returned. |
| `Lifecycle.StopIsForEver` | code/src/Transcoder.cpp:82-129 | Once the stop flag is set, at most one further packet is read, by calls in flight or started later: the flag is never reset. |
| `Lifecycle.ReadsAfterStop` | code/src/Transcoder.cpp:82-93 | Every read after the stop is counted as late, and the flag stays set. |
| `Lifecycle.TurnoffExactly` | code/src/Transcoder.cpp:124-129 | The stop flag is set if and only if some StopProcess call got past its check and took its next step. |
| `Lifecycle.EveryPacketIsRead` | code/src/Transcoder.cpp:78-97 | A Process call that goes from the initialisation to the flush with an open context of `n` packets, polls that find no stop and reads that do not fail, reads exactly `n` packets, whatever other calls do, and nothing is left. |
| `Lifecycle.ProcessReadsThePacket` | code/src/Transcoder.cpp:72-94 | A run in which Process reads the one packet that set-up opened. |
| `Lifecycle.LastSetExactly` | code/src/Transcoder.cpp:31-138 | For any property of states that actions set and clear: after any schedule it holds if and only if some action has set it and no later one has cleared it. |
| `Lifecycle.NullEntriesExactly` | code/src/Transcoder.cpp:98-117 | The stream map holds a null pointer if and only if some Process call cleaned a map that was not empty and no CleanUp call has emptied it since, whatever was set up in between. |
| `Lifecycle.EntriesExactly` | code/src/CtxWrapper.cpp:157-163 | The map has an entry for a stream if and only if some set-up whose input opened registered it and no CleanUp call has emptied the map since. |
| `Lifecycle.ContextExactly` | code/src/CtxWrapper.cpp:26-97 | The shared pointer holds an input context if and only if some set-up allocated one and no CleanUp call or failing set-up has closed or lost it since; a SetConfig call that comes to its input then hands over an open context. |
| `Lifecycle.BadContextExactly` | code/src/Transcoder.cpp:73-85 | A Process call holds a null pointer or a closed context if and only if it read the shared pointer, which it does before its status write and without a lock, while that was null or before the context it held was closed. |
| `Lifecycle.BodyIsUndisturbed` | code/src/Transcoder.cpp:77-101 | While a Process call is in its body, no action of any other call changes the stream map, the contexts or what the call holds. |
| `Lifecycle.ProcessBodyExactly` | code/src/Transcoder.cpp:78-101 | At every step of its body, a Process call meets a null stream entry if and only if one was reset for good when the body began, and holds a null or closed context if and only if it had captured one by then. |
| `Lifecycle.FirstProcessReadsNull` | code/src/Transcoder.cpp:73-85 | A Process call before any set-up reads through a null context, although no stream entry is null. |
| `Lifecycle.WaitingProcessReadsClosed` | code/src/Transcoder.cpp:73-85 | A Process call that waits behind a set-up whose input fails reads from the context that the set-up has closed. |
| `Lifecycle.SecondProcessMeetsNull` | code/src/Transcoder.cpp:72-101 | A run in which a second set-up of the same stream, from a buffer, succeeds and the Process call after it meets the pointer that the first one reset, with a good context in its hands. |
| `Transcoder.Transcoder.Process` | code/src/Transcoder.cpp:72-103 | Undefined exactly if an entry is null or, among the packets read, one of an audio stream has duration 0. Otherwise it reads until the flag is seen or the input ends; the events are the reference trace, every entry ends as a null pointer under its old key, and the status is Finished. |
| `Transcoder.Transcoder.RoutePackets` | code/src/Transcoder.cpp:82-93 | The packet loop is the reference dispatch of the packets read, up to the first one that an audio stream cannot divide by. |
| `Transcoder.RefusedExactly` | code/src/Audio.cpp:294-294 | Among the first `n` packets there is one at which the loop is undefined if and only if one belongs to an audio stream and has duration 0. |
| `Transcoder.Transcoder.InitTools` | code/src/Transcoder.cpp:78-81 | Undefined exactly if an entry is null; otherwise each registered stream is initialised once, in iteration order. |
| `Transcoder.Transcoder.FlushAll` | code/src/Transcoder.cpp:94-97 | Flushes each registered stream once and changes none. |
| `Transcoder.Transcoder.CleanAll` | code/src/Transcoder.cpp:98-101 | Cleans each stream once and leaves its key with a null pointer. |
| `Transcoder.Transcoder.CleanUp` | code/src/Transcoder.cpp:110-120 | If the release of the input returns, the map and the list of outputs are empty and the status is Idle; it never does, see CtxWrapper.CtxWrapper.ReleaseTwice, and then the status stays Reset. |
| `Transcoder.Transcoder.constructor` | code/src/Transcoder.cpp:17-22 | Empty map, status Initial. |
| `Transcoder.DispatchIsSelection` | code/src/Transcoder.cpp:82-93 | Each registered stream becomes what its own packets, in order, make of it; other packets do not matter to it. |
| `Transcoder.AudioHandAll` | code/src/Transcoder.cpp:87-90 | For an audio stream that is the run whose laws are proved in AudioLaws. |
| `Transcoder.VideoHandAll` | code/src/Transcoder.cpp:87-90 | A video stream is handed its packets one after the other. |
| `Transcoder.SelectExactly` | code/src/Transcoder.cpp:87-90 | A stream's own packets are those at exactly the places of the demuxed sequence with its index, in that order. |
| `Transcoder.InterleavingIndependence` | code/src/Transcoder.cpp:82-93 | Two demux orders with the same packets of an audio stream give it the same frames, timestamps, end point and remainder. |
| `Transcoder.RunInPhases` | code/src/Transcoder.cpp:78-101 | For any iteration order: all initialisations before any packet, no packet after a flush, all flushes before any cleaning, and none of the three twice for a stream. |
| `Transcoder.RunIsComplete` | code/src/Transcoder.cpp:78-101 | Every registered stream is initialised, flushed and cleaned, and is cleaned in the state that its own packets gave it. |
| `Transcoder.InitStreamIs` | code/src/Audio.cpp:19-27 | Initialising empties the FIFO of an audio stream and sets its frame length to the `d` with `d*rate <= F*den < (d+1)*rate`; it does not change a video stream. |
| `Transcoder.AudioOfRun` | code/src/Transcoder.cpp:78-101 | An audio stream is cleaned up in the state that a run of its own packets makes of it, with an empty FIFO before, the clock that set-up gave it and that frame length. |
| `Transcoder.ProcessDoesNotDrift` | code/src/Transcoder.cpp:78-101 | What Process leaves of an audio stream with steady packets: frame count, each timestamp in its own interval of `d` ticks from the mux offset, strict increase exactly if `d > 0` or there is at most one frame, and the bounds of TruncationBound. |
| `Transcoder.EndOfStream` | code/src/Audio.cpp:278-289 | What Process leaves of an audio stream: the decoded samples in whole frames, with the last `total mod F` lost in the FIFO that no flush drains. |
| `RpcServer.BufferData.ReadPacket` | code/src/RPCServer.cpp:9-22 | Copies the next bytes, as many as asked for or left, to the front of the buffer, changes nothing behind them, moves the cursor past them, and reports the end when there is nothing to copy. |
| `RpcServer.DeliversAPrefix` | code/src/RPCServer.cpp:13-21 | Over any sequence of request sizes, what arrives is a prefix of the file as long as the sizes in all, or the whole file, and the cursor stands after it. |
| `RpcServer.ResultAt` | code/src/RPCServer.cpp:13-21 | Every result of such a sequence: the end exactly for an empty request or once the earlier ones covered the file, else the bytes that are left up to the request. |

## Left out

- AudioFlow.Audio.StartPts: the code computes in `double` and `long double`; the model computes the exact quotient and cuts it once, so rounding of the intermediate values is not modelled. The same holds for the frame length of AudioFlow.Audio.InitalTool and VideoClock.Video.SetTime.
- AudioFlow.Audio.Flow: 64-bit overflow of timestamps is not modelled.
- AudioFlow.Audio.LoadEncodeAndWrite: the path on which the encoder or an allocation fails has no return value in the code and is not modelled; encoding succeeds, and a frame counts as written when it is handed to the encoder.
- AudioFlow.Audio.AudioDecode: freeing of buffers is not modelled; a failed conversion counts as a failed decoder call.
- AudioLaws.NoDrift: speaks of runs in which packet `k` has index `k` and decodes to `In` samples; runs with gaps or short packets are the subject of AudioLaws.MonotoneDespiteLoss, which bounds order and not distance from the grid.
- TranscodeRpc.PIDS.MergePartialFromCodedStream: unknown fields are skipped and not kept, as whether they are kept depends on a runtime default outside the repository. After a failed read the field keeps its old value here. The same holds for the other four classes.
- TranscodeRpc.PIDS.ByteSizeLong: requires strings shorter than 2^31 bytes, the limit of the format; the cached size and its atomics are not modelled.
- TranscodeRpc.PIDS.InternalSerializeWithCachedSizesToArray: requires room for the message, which the original's callers provide from the cached size.
- Wire.SkipExtends: the nesting limit for groups is not modelled, a field number of zero is malformed in every position, and a malformed tag reads as tag 0; the library's own source is not part of this model.
- VideoClock.Video.EncodeWriteFrame: what decoder and encoder answer is an input. Known timestamps do not overflow; only the arithmetic on the unknown value wraps around.
- VideoClock.UnknownIsKeptIff: the converse speaks of paths on which every value is a 64-bit one; what rescaling gives beyond that is not modelled.
- VideoClock.Video.MuxFlow: is a method in its own right; the code never clears the flag that leads to it.
- VideoClock.OutputIsMonotone: goes one way only; rounding can hide a small step back.
- CtxWrapper.CtxWrapper.OfmtInital: objects of an output that failed are not specified, and freeing its context is not modelled, nor are codec parameters and muxer options. A stream that cannot be added to the output counts as one without an encoder, and parameters that cannot be copied as an encoder that does not open.
- CtxWrapper.CtxWrapper.IfmtInital: of the cleaning up after a failure only the loss of context, streams and decoders is modelled. That an input that fails to open leaves a null context is what `include/libavformat/avformat.h:2275` says, that closing one does, line 2465 there.
- CtxWrapper.CtxWrapper.SetConfig: output file names, whose counter is never incremented, are not modelled, nor is anything after undefined behaviour.
- Lifecycle.EveryScheduleEnds: does not claim that StopProcess returns; that is Lifecycle.StopReturnsExactly. The release of the contexts in CleanUp is taken to return, here and in the other results of the module.
- Lifecycle.ProcessBodyExactly: says when the code follows a null pointer or a closed context; runs go on beyond that point in the model, where a read through such a context gives nothing. Set-ups in this module return; the undefined ones are the subject of CtxWrapper, and a SetConfig on an open context is taken to open another one.
- Lifecycle.StopIsForEver: the stop flag is a plain variable that one thread writes and another reads without a lock, and so is the pointer to the input context; the model takes each access as one atomic step.
- Lifecycle.StatusIsHonest: a call is in flight from its first status write to its last, a CleanUp call while it holds the process lock; the other five statuses are not transient and tell nothing about calls.
- Transcoder.Transcoder.Process: the input context is the subject of Lifecycle. Two streams that share one object are held as two values here, and sharing is described in CtxWrapper. A video stream keeps the packets it was handed. What other threads do enters as the number of reads before the stop flag is seen.
- Transcoder.Transcoder.CleanUp: what the release of the contexts comes to is an input here; its outcome is that of CtxWrapper.CtxWrapper.ReleaseTwice. The notification is modelled in Lifecycle.
- RpcServer.BufferData.ReadPacket: requires a request of 0 or more bytes that fits the buffer, as the I/O layer calls it; a negative size, which the comparison would turn into a huge one, is not modelled.
- TransState.Status.SetState: the state lock is modelled in Lifecycle.
- The generated RPC stubs, the Go and C++ clients, `main`, the file server, the reply texts, reflection, arenas and descriptors: plumbing.
- FFmpeg's codecs, resampler, muxers and memory: inputs of the model.
- The video encoder's flush, WriteEnd, OutputAmount, timers and frame counts: nothing that the other parts depend on.
