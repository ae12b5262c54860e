# WebTransport examples: a verified model

Dafny models of the code in this repository that carries media and HTTP bodies from one end to the other, and of its two
lifecycle machines, with proofs about every input or every run. `dafny verify dfyconfig.toml` checks all of it.

| file | what it models |
|---|---|
| `H264Packetizer.dfy` | H.264 over RTP, sending: Annex B scanner, FU-A fragments, STAP-A aggregates, cached parameter sets |
| `H264Depacketizer.dfy` | H.264 over RTP, receiving: `H264Packet` and the keyframe test |
| `H264Arrivals.dfy` | packets of any kind in any order at the server's reader |
| `H264Aggregation.dfy` | when parameter sets are held and travel along |
| `H264EndToEnd.dfy` | both ends put together: what is delivered, exactly when it is lossless, keyframes, and whole transfers |
| `H264Resync.dfy` | the browser's receiver that survives lost fragments |
| `H264Browser.dfy` | what that receiver emits for every packet, and for everything the server sends |
| `Vp8.dfy` | the VP8 payload descriptor, its reader, and the fragmenter with its picture counter |
| `Rtp.dfy` | the RTP packet reader |
| `Frames.dfy` | the length-prefixed frames between the example server and the page |
| `Multipart.dfy` | `MultipartFormDataParser` and the multipart serializer of `httplib.h` |
| `MultipartOpening.dfy`, `MultipartCallbacks.dfy` | what an opening line cut off by the first chunk costs, and what refusing callbacks do |
| `Chunked.dfy` | chunked transfer coding of `httplib.h`: sink, two-tier line reader, chunk reader |
| `ChunkSizes.dfy`, `ChunkedPeers.dfy` | size lines and bodies of any peer, and what is accepted at all |
| `ChunkedWriter.dfy` | the loop that asks a content provider for data, and what its success is worth |
| `Query.dfy` | percent encoding and query strings of `httplib.h` |
| `QueryExact.dfy` | exactly which multimaps survive printing and parsing |
| `QueryDecoding.dfy`, `QueryMeaning.dfy` | what any escape and any query string mean |
| `Ranges.dfy`, `RangesReader.dfy` | byte ranges and the multipart range body of `httplib.h`, and a client's reader of it |
| `ThreadPool.dfy` | the thread pool of `httplib.h` as a step system |
| `RefCount.dfy` | the reference-counted pointer, one thread and many |
| `Session.dfy`, `SessionHistory.dfy` | `SessionWrapper` with callbacks that call back, and its law said of the log alone |
| `Bytes.dfy`, `TextSearch.dfy` | what they share: bytes, big-endian numbers, searching text |

Objects that the source updates are classes, and their loops are loops; each method is proved equal to a function on values,
and the laws are proved about those functions. Where a law is meant to fix what such a function computes, it is said in
literal numbers, of the history of events, or through a reader written apart from it. Bytes are integers below 256 and the masks and shifts of the sources are
written as division and remainder. Lengths are unbounded except where a width matters: the 64-bit wrap of `mtu - 2`, the
16-bit aggregate lengths, the 32-bit frame length, `unsigned long` chunk sizes, the 15-bit picture number.

Where the code does not do what one would expect, the model follows the code and the results say exactly when it does:

- `CreateFUAPackets` does not end for an MTU of 2 and a unit with a body, and it drops the forbidden bit of a fragmented unit.
- Access unit delimiters, filler and parameter sets are described as skipped or stored, but are sent as well.
- A start code at position 1 or 2 of a buffer without a leading code is not found.
- The keyframe test can be misled by an empty member of an aggregation packet.
- The VP8 payloader falls silent for good when its next header fills the packet, which an MTU of 2 or 3 reaches after one frame.
- The RTP reader accepts octets that announce padding and end with the header, which are no RTP packet, and it keeps the last extension's number and length.
- A first multipart chunk shorter than the opening line is lost, and the first part with it.
- The chunked writer reports success for a body that a provider ends with an empty write, and its reader refuses that body.
- Query keys are printed without encoding, so a key with a meaning of its own does not come back.
- A suffix range longer than the content is refused, where RFC 9110 grants the whole content.
- A job accepted by the pool after its last worker has left never runs.
- Copying a pointer that alone holds its object onto itself deletes the object.
- Streams may be offered after another stream's callback has ended the session.

## Model

| member | source | states |
|---|---|---|
| AnnexB.NextStart | examples/media_stream/h264_rtp_packetizer.cc:123-139 | the next cut is the first `00 00 01` at or behind the given place and nothing earlier; the separate four-byte test adds no cut of its own |
| AnnexB.ScanProgress | examples/media_stream/h264_rtp_packetizer.cc:121-159 | every turn of the scan moves forward, its size subtraction cannot wrap, and only the first code can be four bytes long |
| AnnexB.SplitTiles | examples/media_stream/h264_rtp_packetizer.cc:116-159 | the leading code, the units and the `00 00 01` codes between them are the whole buffer, in order, nothing lost or read twice |
| AnnexB.SplitCodeFree | examples/media_stream/h264_rtp_packetizer.cc:121-159 | in a buffer that begins with a start code no unit contains a start code |
| AnnexB.SplitCodeFreeUnheaded | examples/media_stream/h264_rtp_packetizer.cc:152-155 | without a leading code the same holds if and only if no code begins at position 1 or 2, which the scan passes over |
| AnnexB.SplitJoin | examples/media_stream/h264_rtp_packetizer.cc:116-159 | splitting undoes gluing: code-free units joined by `00 00 01` behind a code of either length come back exactly |
| AnnexB.SplitLongJoin | examples/media_stream/h264_rtp_packetizer.cc:133-139 | with four-byte codes throughout, each later code leaves its extra zero at the end of the unit before it, and nothing else changes |
| H264RtpPacketizer.FragmentsShape | examples/media_stream/h264_rtp_packetizer.cc:52-114 | RFC 6184 section 5.8: for an MTU of three or more an oversized unit becomes exactly ceil((size-1)/(mtu-2)) packets, at least two, each within the MTU, S on the first only, E on the last only, bodies in order |
| H264RtpPacketizer.H264Payloader.CreateFUAPackets | examples/media_stream/h264_rtp_packetizer.cc:52-114 | the fragment loop, filling each packet in place, produces the fragments that the other results are about; it excludes only the calls whose loop never ends, which `FragmentLoopEnds` characterises |
| H264RtpPacketizer.FragmentLoopEnds | examples/media_stream/h264_rtp_packetizer.cc:76-114 | for every MTU and unit some number of turns of the fragment loop leaves no bytes over if and only if the MTU is not 2 or the unit has no body |
| H264RtpPacketizer.TurnsAreFragments | examples/media_stream/h264_rtp_packetizer.cc:76-114 | when the loop ends, it does so after exactly as many turns as there are fragments |
| H264RtpPacketizer.SendingEnds | examples/media_stream/h264_rtp_packetizer.cc:221-232 | so sending a unit ends if and only if it fits the MTU or the fragment loop ends |
| H264RtpPacketizer.H264Payloader.BuildStapA | examples/media_stream/h264_rtp_packetizer.cc:184-209 | the aggregation packet filled in place holds the header, then SPS, PPS and unit, each behind its length |
| H264RtpPacketizer.H264Payloader.EmitNALUs | examples/media_stream/h264_rtp_packetizer.cc:116-238 | the scan, caching, aggregating and sending loop leaves the packets and the cache of sending the split units one after the other |
| H264RtpPacketizer.H264Payloader.FindNextStart | examples/media_stream/h264_rtp_packetizer.cc:123-139 | the inner search loop with both of its tests finds the next three-byte code or the end |
| H264RtpPacketizer.H264Payloader.EmitOne | examples/media_stream/h264_rtp_packetizer.cc:161-233 | one unit: sent alone, fragmented or aggregated, and the parameter sets remembered or dropped |
| H264RtpPacketizer.H264Payloader.Payload | examples/media_stream/h264_rtp_packetizer.cc:240-253 | an empty buffer sends nothing; any other is handled as the sequence of its units |
| H264RtpPacketizer.EmitAllConcat | examples/media_stream/h264_rtp_packetizer.cc:116-253 | sending one sequence of units and then another is sending both at once: packets and cache agree |
| H264Aggregation.UnitGoesOut | examples/media_stream/h264_rtp_packetizer.cc:161-233 | one unit against what is held: exactly when it takes parameter sets along, what is held afterwards, and that it otherwise goes out alone or in fragments; types and sizes as literal numbers |
| H264Aggregation.HeldExactly | examples/media_stream/h264_rtp_packetizer.cc:169-209 | over every sequence of units, what is held is what the history of units alone says |
| H264Aggregation.HeldMeaning | examples/media_stream/h264_rtp_packetizer.cc:169-209 | that is, of either type the last set handed in with aggregation on since sets were last taken along, and nothing if and only if there is none |
| H264Aggregation.NextUnit | examples/media_stream/h264_rtp_packetizer.cc:176-233 | after any units, a unit goes out in one packet `0x78` from which both held sets and the unit are read back if and only if both are held, its type allows it and 7 bytes and the three units fit the MTU |
| H264Aggregation.FirstAggregate | examples/media_stream/h264_rtp_packetizer.cc:116-253 | a fresh payloader given SPS, PPS and a small slice in one buffer sends both sets and then all three in one aggregation packet |
| H264RtpPacket.H264Packet.DoPackaging | examples/media_stream/h264_packet.cc:49-65 | appends one unit behind its 32-bit length or a start code, leaving what was there |
| H264RtpPacket.H264Packet.ParseStapA | examples/media_stream/h264_packet.cc:101-129 | the aggregation loop yields the members up to the end, or fails at the first length that overruns it |
| H264RtpPacket.H264Packet.ParseBody | examples/media_stream/h264_packet.cc:67-172 | status, fragmentation buffer and output of any packet, by type; fragments accumulate and the last one releases the unit |
| H264RtpPacket.H264Packet.Unmarshal | examples/media_stream/h264_packet.cc:22-29 | an empty packet is refused and leaves the output and buffer alone |
| H264RtpPacket.H264Packet.IsPartitionHead | examples/media_stream/h264_packet.cc:31-43 | a packet is a partition head unless it is too short or a fragment without the start bit |
| H264RtpPacket.MembersOfStapA | examples/media_stream/h264_packet.cc:101-129 | reading an aggregation packet gives back exactly the units that were aggregated, for any number of them |
| H264RtpPacket.AvcReadsBack | examples/media_stream/h264_packet.cc:50-58 | with AVC on, a reader of 32-bit lengths gets the units back from the output if and only if each is shorter than 2^32 |
| H264RtpPacket.AnnexBOutput | examples/media_stream/h264_packet.cc:59-64 | with AVC off, the output is the units behind four-byte start codes |
| H264RtpPacket.OutputReadsBack | examples/media_stream/h264_packet.cc:49-65 | so a player reads back what was packaged, in either format; without AVC each unit but the last with one zero more, when none holds a start code |
| H264Arrivals.AnswersByType | examples/media_stream/h264_packet.cc:67-172 | answer, units and buffer for any packet but an aggregate, by its type as a literal number |
| H264Arrivals.AggregateAnswer | examples/media_stream/h264_packet.cc:101-129 | any aggregation packet gives its members up to its end or the first length that overruns it, and is refused exactly in the second case |
| H264Arrivals.BufferSinceEnd | examples/media_stream/h264_packet.cc:131-167 | over every sequence of arrivals the buffer is the bodies of all fragments since the last end of a unit, the S bit disregarded |
| H264Arrivals.EndReleases | examples/media_stream/h264_packet.cc:146-163 | the end of a unit releases the last header and everything collected since the end before it |
| H264Arrivals.OthersReleaseNothing | examples/media_stream/h264_packet.cc:131-167 | a fragment without the E bit releases nothing |
| H264EndToEnd.Reassemble | examples/media_stream/h264_packet.cc:131-167 | reassembling the fragments of any unit with a body clears its top bit and changes nothing else, so it gives the unit itself if and only if that bit was clear |
| H264EndToEnd.Lossless | examples/media_stream/h264_rtp_packetizer.cc:161-233 | for any units that are carried (inside an aggregate, whole with an accepted type, or in fragments with a body and a clear top bit): every packet is accepted, the fragmentation buffer ends empty, and the decoded units with the inserted parameter sets deleted are the units sent |
| H264EndToEnd.AllCarriedAlone | examples/media_stream/h264_rtp_packetizer.cc:161-233 | whatever parameter sets are held, units that could be sent alone are carried |
| H264EndToEnd.LosslessExactly | examples/media_stream/h264_packet.cc:79-167 | for units of any types, with or without aggregation: the receiver decodes what is to be delivered if and only if every unit is carried; with aggregation off, it decodes the sender's units if and only if every unit is carried |
| H264EndToEnd.InsertedIsLatest | examples/media_stream/h264_rtp_packetizer.cc:169-213 | what aggregation inserts in front of a unit is the latest SPS and the latest PPS sent before it |
| H264EndToEnd.PacketsFit | examples/media_stream/h264_rtp_packetizer.cc:177-232 | with an MTU of three or more every packet is non-empty and within the MTU, so no 16-bit aggregate length is truncated |
| H264EndToEnd.EndToEnd | examples/media_stream/h264_rtp_packetizer.cc:116-253 | main result, over every sequence of `Payload` calls from fresh objects: nothing rejected, nothing left over, the units come back, and the keyframe test fires once per IDR unit |
| H264EndToEnd.EndToEndPlain | examples/media_stream/h264_packet.cc:67-172 | with aggregation off: nothing rejected, nothing left over, and the decoded units are exactly the units split from the buffers, over every sequence of `Payload` calls |
| H264EndToEnd.ReceivePackets | examples/media_stream/h264_packet.cc:22-172 | one reader object over any list of packets: its outputs one behind the other are the decoded units packaged, and a player reads those units back |
| H264EndToEnd.Transfer | examples/media_stream/h264_rtp_packetizer.cc:116-253 | a payloader object and a reader object joined, over every sequence of `Payload` calls: all accepted, and a player reads back the split units, behind the parameter sets that aggregation inserts; for start-coded buffers by the same scan that split them |
| H264EndToEnd.ElementaryStream | examples/media_stream/h264_rtp_packetizer.cc:116-253 | an elementary stream of non-empty code-free units, with start codes of either length and aggregation on or off, arrives: the units come back (with four-byte codes each but the last has one zero more) and nothing but inserted parameter sets is added |
| H264RtpDepacketizer.IsKeyFrame | examples/media_stream/h264_rtp_depacketizer.cc:41-84 | the second walker over aggregation packets, as a loop, answers the recursive definition of the keyframe test |
| H264RtpDepacketizer.KeyWalkExact | examples/media_stream/h264_rtp_depacketizer.cc:53-71 | on an aggregation packet the walker answers yes if and only if some member reads as IDR, an empty member reading the length byte of the next one |
| H264RtpDepacketizer.KeyWalkOfStapA | examples/media_stream/h264_rtp_depacketizer.cc:53-71 | when no member is empty the walker agrees with the member reader: yes if and only if some member is an IDR unit |
| H264RtpDepacketizer.KeyWalkMisledByEmptyMember | examples/media_stream/h264_rtp_depacketizer.cc:62-66 | an aggregation packet with an empty member for which the walker is wrong |
| H264RtpDepacketizer.KeyWalkWrongExactly | examples/media_stream/h264_rtp_depacketizer.cc:53-71 | on an aggregation packet the walker is wrong if and only if no member is an IDR unit and an empty one stands before a member whose length reads as an IDR header |
| H264EndToEnd.KeyFramesExact | examples/media_stream/h264_rtp_depacketizer.cc:41-84 | on payloader output with parameter sets cached only from the stream, as many packets test as keyframes as there are IDR units |
| H264Resync.ResyncPacket.Unmarshal | examples/media_datagrams_js/index copy 3.html:223-230 | status, fragmentation buffer and output of any packet in the browser's reader |
| H264Resync.ResyncPacket.ParseStapA | examples/media_datagrams_js/index copy 3.html:336-373 | the browser's aggregation loop: members up to the first unusable one, refused only when none came before it |
| H264Resync.ResyncPacket.WalkStapA | examples/media_datagrams_js/index copy 3.html:336-373 | the loop inside it: every usable member is packaged, and the answer says whether one was found or none was needed |
| H264Resync.ResyncPacket.ParseFragment | examples/media_datagrams_js/index copy 3.html:375-448 | the fragment branch with its type check, restart on S, refusal without S, size cap and release on E |
| H264Resync.WalkOfStapA | examples/media_datagrams_js/index copy 3.html:336-373 | an aggregation packet of non-empty units is read back completely by the browser, as by the server's reader |
| H264Resync.BufferExactly | examples/media_datagrams_js/index copy 3.html:375-448 | over every sequence of arrivals the buffer is exactly the bodies of all fragments since the most recent start as long as that run is sound, and empty otherwise; never a byte from before the start |
| H264Resync.EmittedExactly | examples/media_datagrams_js/index copy 3.html:375-448 | a fragment makes the reader emit if and only if it completes a sound run since the most recent start; the unit is the header and that run's bodies |
| H264Resync.BufferBounded | examples/media_datagrams_js/index copy 3.html:388-422 | over every sequence of arrivals the buffer stays below 1 MiB, by at least the two header bytes |
| H264Resync.Recovers | examples/media_datagrams_js/index copy 3.html:375-448 | after any history, the fragments of one unit that arrive together yield that unit and nothing else, exactly when they fit the cap, and leave the buffer empty either way |
| H264Resync.FragmentedUnitSurvives | examples/media_datagrams_js/index copy 3.html:375-448 | server to browser, for any unit the server fragments and any losses before it: the browser emits the unit with its top bit cleared if its type is at most 23 and it is shorter than 1 MiB, and nothing otherwise; so the unit itself if and only if also that bit was clear |
| H264Browser.WholeUnitIsEmitted | examples/media_datagrams_js/index copy 3.html:311-334 | after any arrivals a unit sent whole is emitted as it is and the buffer stays, unless it is an SPS or PPS of less than four bytes |
| H264Browser.AggregateIsEmitted | examples/media_datagrams_js/index copy 3.html:336-373 | after any arrivals an aggregation packet emits its members up to the first unusable one, and is refused exactly when that comes first and is not the end |
| H264Browser.AggregateDecomposes | examples/media_datagrams_js/index copy 3.html:336-373 | every aggregation packet is such members and such a rest |
| H264Browser.NothingIsEmitted | examples/media_datagrams_js/index copy 3.html:375-452 | every other packet that is no fragment emits nothing and leaves the buffer |
| H264Browser.FragmentIsAccepted | examples/media_datagrams_js/index copy 3.html:375-448 | after any arrivals a fragment is accepted if and only if it belongs to a sound run since the most recent start |
| H264Browser.BrowserLosslessExactly | examples/media_datagrams_js/index copy 3.html:303-452 | server to browser, for units of any types with or without aggregation: the browser emits what is to be delivered if and only if every unit can be shown (types, four bytes for whole parameter sets, the size cap, the top bit) |
| H264Browser.ReceiveAtBrowser | examples/media_datagrams_js/index copy 3.html:223-452 | the browser's object over any list of packets: its outputs are the emitted units packaged, and a player reads them back |
| Vp8Packet.VP8Packet.Unmarshal | examples/media_stream/vp8_packet.cc:20-121 | the descriptor reader sets exactly these fields and returns this outcome, also where it stops half way |
| Vp8Packet.UnmarshalInvertsEncode | examples/media_stream/vp8_packet.cc:20-121 | RFC 7741 section 4.2: reading undoes the wire format for every descriptor, both picture-number widths and every payload, whatever was read before |
| Vp8Packet.SuccessForgets | examples/media_stream/vp8_packet.cc:20-121 | a successful reading depends on nothing held before and leaves every field in range |
| Vp8Packet.ShortExactly | examples/media_stream/vp8_packet.cc:20-121 | a non-empty packet is refused if and only if it is shorter than its own flags ask for; otherwise the payload is all that follows |
| Vp8Packet.FlagsStay | examples/media_stream/vp8_packet.cc:20-60 | the flags are those of the first one or two octets, whether or not the rest could be read |
| Vp8Packet.ReservedIgnored | examples/media_stream/vp8_packet.cc:20-121 | the reserved bits make no difference |
| Vp8RtpPacketizer.VP8Payloader.SetPictureID | examples/media_stream/vp8_rtp_packetizer.cc:20-22 | keeps the low 15 bits |
| Vp8RtpPacketizer.VP8Payloader.FillPacket | examples/media_stream/vp8_rtp_packetizer.cc:78-111 | the packet written in place is the descriptor encoding of S and picture number, then the fragment |
| Vp8RtpPacketizer.VP8Payloader.Payload | examples/media_stream/vp8_rtp_packetizer.cc:24-123 | packets and counter after one frame; both unchanged when the frame is empty or the header fills the packet |
| Vp8RtpPacketizer.FrameRoundTrip | examples/media_stream/vp8_rtp_packetizer.cc:54-117 | one frame over the wire: the fewest packets possible, each within the MTU, payloads in order, the picture number in each (0 when disabled), S on exactly the first |
| Vp8RtpPacketizer.CounterAdvances | examples/media_stream/vp8_rtp_packetizer.cc:65-120 | for any MTU, after any frames the counter is start plus the number of frames sent before a header filled the packet, modulo 2^15; with room for all of them, start plus the number of non-empty frames |
| Vp8RtpPacketizer.StreamRoundTrip | examples/media_stream/vp8_rtp_packetizer.cc:24-123 | for any MTU, any number of frames through one payloader and one reader arrive in order, up to the first whose header fills the packet, and nothing behind it does |
| Vp8RtpPacketizer.Starves | examples/media_stream/vp8_rtp_packetizer.cc:65-70 | nothing is sent of any further frames if and only if they are all empty or the header fills the packet now; in that case the counter never moves |
| Vp8RtpPacketizer.DeliversExactly | examples/media_stream/vp8_rtp_packetizer.cc:54-70 | a given stream, for any counter and MTU, arrives whole if and only if there is room behind the header of each of its non-empty frames |
| Vp8RtpPacketizer.RoomExactly | examples/media_stream/vp8_rtp_packetizer.cc:54-70 | when there is: with nothing to send, an MTU above 4, above 1 with picture numbers off, of 4 as long as the counter stays below 128, or of 2 or 3 for frame 0 alone |
| Vp8RtpPacketizer.OneFrameOnly | examples/media_stream/vp8_rtp_packetizer.cc:54-70 | with picture numbers and an MTU of 2 or 3 a new payloader sends its first non-empty frame and nothing more |
| Vp8RtpPacketizer.DeliversAlways | examples/media_stream/vp8_rtp_packetizer.cc:54-70 | all streams from all counter values arrive if and only if the MTU exceeds 4, or exceeds 1 with picture numbers off |
| Rtp.RTPPacket.Unmarshal | examples/media_stream/rtp_packet.cc:28-132 | the fields and the answer after any buffer, failures half way included |
| Rtp.RTPPacket.ReadCsrcList | examples/media_stream/rtp_packet.cc:69-77 | the loop over the contributing sources reads them in order |
| Rtp.RTPPacket.UnmarshalExtension | examples/media_stream/rtp_packet.cc:79-106 | the extension part: its fields, or the failure at either length check |
| Rtp.RTPPacket.UnmarshalPayload | examples/media_stream/rtp_packet.cc:108-131 | the padding and payload part |
| Rtp.UnmarshalInvertsEncode | examples/media_stream/rtp_packet.cc:28-132 | RFC 3550 section 5.1: reading undoes the encoding for all field values, up to 15 sources, 65535 extension words and 255 padding octets |
| Rtp.SuccessAccountsForAll | examples/media_stream/rtp_packet.cc:28-132 | on success the packet is header, sources, extension, payload and padding, one behind the other with nothing left over, and the padding size is that of the padding |
| Rtp.SuccessExactly | examples/media_stream/rtp_packet.cc:37-122 | the answer is yes if and only if the octets meet the length and padding conditions, whatever was read before |
| Rtp.PacketsExactly | examples/media_stream/rtp_packet.cc:37-122 | RFC 3550 section 5.1, of every octet string: it encodes some fields and padding if and only if it is accepted and does not announce padding while ending with its header |
| Rtp.PaddingWithoutRoom | examples/media_stream/rtp_packet.cc:108-122 | twelve octets that announce padding are accepted with a padding size of 0 and are no packet |
| Rtp.FailureLeaves | examples/media_stream/rtp_packet.cc:28-122 | what each field holds after a packet that is refused |
| Rtp.StaleExtension | examples/media_stream/rtp_packet.cc:79-106 | a packet without an extension still shows the number and length of an earlier one, with an empty value |
| Frames.Serialize | examples/media_bidirectional_stream_js/server.cc:35-57 | the shift loops write type, 64-bit time stamp and the low 32 bits of the length, big end first, then the data |
| Frames.Deserialize | examples/media_bidirectional_stream_js/index.html:678-711 | the reader accepts a buffer exactly when header and data are there, and takes the fields from it |
| Frames.Receiver.Receive | examples/media_bidirectional_stream_js/index.html:748-815 | one chunk: exactly the frames it completes are taken, and the pending buffer is what is left |
| Frames.ExtractInTwo | examples/media_bidirectional_stream_js/index.html:751-815 | cutting a byte stream into frames in two goes, with the remainder carried over, gives the frames and remainder of the whole; for any bytes |
| Frames.ChunkingIsInvisible | examples/media_bidirectional_stream_js/index.html:748-815 | for any byte stream and any division into chunks the receiver ends with the frames and remainder of the whole stream |
| Frames.ReceiveAll | examples/media_bidirectional_stream_js/index.html:748-815 | the same as a run of the receiver object over a list of chunks |
| Frames.FrameRoundTrip | examples/media_bidirectional_stream_js/server.cc:46-55 | one frame survives printing and reading if and only if its data is shorter than 2^32 bytes |
| Frames.StreamRoundTrip | examples/media_bidirectional_stream_js/index.html:751-815 | printed frames come back in order, whatever follows them |
| Frames.PendingIsIncompleteTail | examples/media_bidirectional_stream_js/index.html:751-815 | after any beginning of a stream of printed frames exactly the frames wholly received are out, and the pending bytes are the received part of the next one |
| Bytes.BigEndianOfValue | examples/media_bidirectional_stream_js/index.html:697-706 | the bytes are determined by the number they denote: writing what was read gives them back |
| Multipart.MultipartFormDataParser.Parse | examples/media_bidirectional_stream_js/httplib.h:4866-5001 | one call of `parse` on any chunk: the object behaves as the step function run on its unread characters |
| Multipart.MultipartFormDataParser.BufFind | examples/media_bidirectional_stream_js/httplib.h:5051-5072 | the search that skips from first character to first character finds the first occurrence, or the end |
| Multipart.MultipartFormDataParser.BufAppend | examples/media_bidirectional_stream_js/httplib.h:5074-5090 | appending with the move to the front keeps the unread characters and adds the new ones |
| Multipart.MultipartFormDataParser.ParseHeaders | examples/media_bidirectional_stream_js/httplib.h:4886-4956 | the header loop: lines interpreted one by one up to the empty line, a rejection or the end of what is there |
| Multipart.MultipartFormDataParser.ParseContent | examples/media_bidirectional_stream_js/httplib.h:4957-4979 | content up to the delimiter, or all but the last characters when the delimiter is not there yet |
| Multipart.MultipartFormDataParser.ParseBoundary | examples/media_bidirectional_stream_js/httplib.h:4980-4996 | behind a delimiter: the next part, the end with the epilogue dropped, or more input needed |
| Multipart.DelimiterHeadUnique | examples/media_bidirectional_stream_js/httplib.h:5124-5134 | RFC 2046 section 5.1.1: with the allowed boundary characters the delimiter cannot overlap itself |
| Multipart.StepKeeps | examples/media_bidirectional_stream_js/httplib.h:4871-5001 | one turn of the loop keeps the parser's place in the document, wherever the buffer ends |
| Multipart.ParseUndoesDocument | examples/media_bidirectional_stream_js/httplib.h:4866-5001 | for every document and every division into chunks whose first holds the opening line: every call succeeds, the parse ends valid, and the callbacks rebuilt each part exactly, in order |
| Multipart.ShortOpeningDiscarded | examples/media_bidirectional_stream_js/httplib.h:4873-4876 | a first chunk shorter than the opening line is thrown away whole and leaves the parser where it began; `RebuiltExactly` says what that costs |
| Multipart.SerializeMultipartFormdata | examples/media_bidirectional_stream_js/httplib.h:5166-5179 | the serializer's loop writes the items one behind the other and the closing line when asked |
| Multipart.SerializedIsDocument | examples/media_bidirectional_stream_js/httplib.h:5136-5179 | what the serializer writes is a document of the kind the parser is for |
| Multipart.RoundTrip | examples/media_bidirectional_stream_js/httplib.h:5136-5179 | serializing items and parsing the result, however it is cut behind the opening line, gives back each content in order under the file information of its header lines |
| MultipartCallbacks.CallbacksDecide | examples/media_bidirectional_stream_js/httplib.h:4866-5001 | a whole document in one call, for callbacks that may refuse and header lines that may be rejected: the call succeeds and the parse is valid if and only if none does, and they are asked part after part up to the first that does |
| MultipartCallbacks.LongLineFails | examples/media_bidirectional_stream_js/httplib.h:4887-4888 | a header line without a break within 8192 characters fails the call |
| MultipartCallbacks.StuckBehindDelimiter | examples/media_bidirectional_stream_js/httplib.h:4980-4996 | behind a delimiter that neither a line break nor two dashes follow every later call succeeds, delivers nothing and never ends valid |
| MultipartOpening.RebuiltExactly | examples/media_bidirectional_stream_js/httplib.h:4866-5001 | for every division into chunks of a document with opening lines only where parts begin: every call succeeds, and the parse ends valid with each part as it was if and only if the first non-empty chunk holds the whole opening line; otherwise a tail of the parts or nothing is found |
| MultipartOpening.OpeningOnlyAtParts | examples/media_bidirectional_stream_js/httplib.h:5124-5134 | a document whose header lines and contents hold no opening line has opening lines only where parts begin |
| MultipartOpening.SinglePartExactly | examples/media_bidirectional_stream_js/httplib.h:4873-4876 | a document of one part parses as valid if and only if the first non-empty chunk holds the whole opening line |
| MultipartOpening.RoundTripExactly | examples/media_bidirectional_stream_js/httplib.h:5136-5179 | serialized form items come back, however the text is cut, if and only if the first non-empty chunk holds the whole opening line |
| Chunked.FromIToHex | examples/media_bidirectional_stream_js/httplib.h:2701-2709 | the digits, last first, of any number |
| Chunked.SizeLineReadsBack | examples/media_bidirectional_stream_js/httplib.h:4322-4324 | `strtoul` on a written size line gives the size, for all sizes up to the largest `unsigned long` |
| Chunked.DataSink.Write | examples/media_bidirectional_stream_js/httplib.h:4603-4625 | one write: a chunk for any data but the empty, sticky failure when the connection ends, and the flags the caller looks at |
| Chunked.DataSink.Done | examples/media_bidirectional_stream_js/httplib.h:4629-4668 | the last chunk, the trailer lines and the empty line, or a failure exactly when they do not fit what the connection still takes |
| Chunked.LineReader.Append | examples/media_bidirectional_stream_js/httplib.h:3061-3072 | appending keeps the line across the overflow from the fixed to the growing buffer |
| Chunked.LineReader.GetLine | examples/media_bidirectional_stream_js/httplib.h:3026-3059 | reads exactly to the first line break, or to the end of the stream, and fails at once at the end or on a broken stream |
| Chunked.ReadContentWithLength | examples/media_bidirectional_stream_js/httplib.h:4260-4280 | delivers exactly the number asked for, whatever sizes the stream hands out, or everything there is and fails |
| Chunked.ReadTrailers | examples/media_bidirectional_stream_js/httplib.h:4356-4371 | collects the trailer lines up to the empty one |
| Chunked.ReadContentChunked | examples/media_bidirectional_stream_js/httplib.h:4308-4372 | answer, content, trailers and stream position for any stream, well formed or not |
| Chunked.ChunkedRoundTrip | examples/media_bidirectional_stream_js/httplib.h:4308-4372 | RFC 9112 section 7.1: for any writes and then `done`, the reader delivers exactly what was written and stops exactly behind what was emitted, whatever follows; size lines longer than the fixed buffer included |
| Chunked.LargestChunkRefused | examples/media_bidirectional_stream_js/httplib.h:4322-4325 | a chunk as long as the largest `unsigned long` is refused |
| Chunked.UnfinishedIsRefused | examples/media_bidirectional_stream_js/httplib.h:4318-4347 | a body without its last chunk is delivered to the end of the stream and then refused |
| ChunkSizes.SizeIsRead | examples/media_bidirectional_stream_js/httplib.h:4322-4325 | a size line of any spelling: blanks, sign, `0x` and digits of either case give their positional value, capped at the largest `unsigned long` |
| ChunkSizes.NoSizeIsRead | examples/media_bidirectional_stream_js/httplib.h:4324-4324 | without digits there is no size |
| ChunkedPeers.AcceptedIsWellFormed | examples/media_bidirectional_stream_js/httplib.h:4308-4372 | RFC 9112 section 7.1, for any stream whatever: what is accepted consists of chunks as long as announced, each with its line break, a zero size line and trailer lines within the limit, and what is delivered is their content |
| ChunkedPeers.PeersBodyIsRead | examples/media_bidirectional_stream_js/httplib.h:4308-4372 | the other way round: a body of any peer, with any spelling of its size lines, extensions and trailer lines, is read as meant, and reading stops right behind it |
| ChunkedPeers.BareEndIsForgiven | examples/media_bidirectional_stream_js/httplib.h:4354-4354 | a last size line at the end of the stream is enough, even without its line break, unless the stream has failed by then |
| ChunkedPeers.CutShortIsRefused | examples/media_bidirectional_stream_js/httplib.h:4260-4280 | a chunk cut short is delivered as far as it came and the body is refused |
| ChunkedWriter.Provide | examples/media_bidirectional_stream_js/httplib.h:4603-4668 | a provider's calls on the sink: their text, the room left and whether the loop goes on |
| ChunkedWriter.WriteContentChunked | examples/media_bidirectional_stream_js/httplib.h:4594-4691 | the outer loop: how it ends, and what it has written when it ends well |
| ChunkedWriter.SuccessWrites | examples/media_bidirectional_stream_js/httplib.h:4676-4690 | a well-ended loop has written exactly the calls of its first turns and stopped because of shutdown or because the last call put nothing |
| ChunkedWriter.FailureMeans | examples/media_bidirectional_stream_js/httplib.h:4676-4690 | a badly ended loop names the first turn that goes wrong: cancelled when the provider gives up, a write error when the connection takes no data or not all of it |
| ChunkedWriter.ReadableExactly | examples/media_bidirectional_stream_js/httplib.h:4308-4372 | whatever a provider calls, in whatever order: what is written is a readable body if and only if it once said that it was done, and the reader is given exactly what was put before that, or all of it |
| ChunkedWriter.SuccessIsReadable | examples/media_bidirectional_stream_js/httplib.h:4594-4691 | what the loop's success is worth: the calls of its first turns are written, and the reader accepts that if and only if one of them was `done` |
| ChunkedWriter.EmptyWriteEndsBody | examples/media_bidirectional_stream_js/httplib.h:4605-4605 | a provider ending with an empty write: the loop reports success and the reader refuses the body |
| Query.EncodeQueryParam | examples/media_bidirectional_stream_js/httplib.h:2830-2849 | the percent-encoding loop |
| QueryMeaning.EncodedExactly | examples/media_bidirectional_stream_js/httplib.h:2835-2846 | which characters are left alone, and that every other is written with two upper-case digits |
| Query.FromHexToI | examples/media_bidirectional_stream_js/httplib.h:2684-2699 | the digit loop reads exactly the digits asked for, or fails at the first other character or the end |
| QueryDecoding.ByteIsDecoded | examples/media_bidirectional_stream_js/httplib.h:2898-2909 | a percent sign and two digits of either case decode to the byte they denote |
| QueryDecoding.CodePointIsDecoded | examples/media_bidirectional_stream_js/httplib.h:2889-2897 | a percent sign, `u` and four digits of either case decode to that code point in UTF-8 |
| QueryDecoding.TheRestIsKept | examples/media_bidirectional_stream_js/httplib.h:2910-2914 | everything else stands for itself, but for the plus sign when it is to be a blank |
| QueryDecoding.Utf8IsRead | examples/media_bidirectional_stream_js/httplib.h:2711-2739 | RFC 3629 section 3: what is written for a code point reads back as it, in the fewest bytes; surrogates are written as nothing |
| Query.DecodeUrl | examples/media_bidirectional_stream_js/httplib.h:2883-2918 | the decoding loop with its index jumps: `%u` escapes, malformed escapes left as they are, and plus signs |
| Query.DecodeEncoded | examples/media_bidirectional_stream_js/httplib.h:2883-2918 | percent encoding is undone for every byte string, whatever follows it |
| Query.Trim | examples/media_bidirectional_stream_js/httplib.h:2929-2938 | the two loops cut the blanks off both ends of any stretch, also when nothing else is there |
| Query.Split | examples/media_bidirectional_stream_js/httplib.h:2978-2998 | the stretches between delimiters, whichever character that is, without surrounding blanks, empty ones dropped |
| Query.Divide | examples/media_bidirectional_stream_js/httplib.h:2953-2965 | everything left of the first delimiter and everything right of it |
| QueryMeaning.StripMeaning | examples/media_bidirectional_stream_js/httplib.h:2929-2938 | stripping takes only blanks and tabs off both ends, and all of them |
| QueryMeaning.CutsMeaning | examples/media_bidirectional_stream_js/httplib.h:2978-2998 | the stretches hold no separator and are the text again with separators between them |
| Query.ParamsToQueryStr | examples/media_bidirectional_stream_js/httplib.h:4729-4739 | the printing loop |
| Query.ParseQueryText | examples/media_bidirectional_stream_js/httplib.h:4741-4762 | the parsing loop with its cache of pieces already met |
| Query.ParsedIsSorted | examples/media_bidirectional_stream_js/httplib.h:4741-4762 | whatever is parsed, the multimap stays ordered by key |
| QueryMeaning.OrderMeaning | examples/media_bidirectional_stream_js/httplib.h:4741-4762 | the order of keys is that of words: the first difference decides, a beginning comes first |
| QueryMeaning.ParseMeaning | examples/media_bidirectional_stream_js/httplib.h:4741-4762 | of any text, a pair is parsed if and only if some stretch between ampersands, stripped, gives it, and there are as many entries as different pieces with a key |
| Query.PairTextInjective | examples/media_bidirectional_stream_js/httplib.h:4742-4747 | different pairs print differently, so the cache drops nothing but repetitions |
| Query.QueryRoundTrip | examples/media_bidirectional_stream_js/httplib.h:4729-4762 | when every key is non-empty, begins with no blank and holds no separator, plus sign or escape, parsing a printed multimap gives it back with repeated pairs dropped |
| Query.PlainKeyOk | examples/media_bidirectional_stream_js/httplib.h:4735-4735 | a non-empty key without `&`, `=`, `%`, `+` and leading blank is such a key |
| QueryExact.RoundTripExactly | examples/media_bidirectional_stream_js/httplib.h:4729-4762 | for every ordered multimap of byte strings: parsing what was printed gives it back if and only if no pair is repeated and every key, printed without encoding, is non-empty, begins with no blank and holds no separator, plus sign or escape |
| QueryExact.DecodeWeight | examples/media_bidirectional_stream_js/httplib.h:2883-2918 | decoding never lengthens a text, and shortens it or clears its plus signs unless it changes nothing |
| QueryExact.UnchangedExactly | examples/media_bidirectional_stream_js/httplib.h:2883-2918 | decoding leaves a text as it is if and only if it holds no plus sign and nowhere a percent sign with two hexadecimal digits, or a `u` and four, behind it |
| QueryExact.PairValue | examples/media_bidirectional_stream_js/httplib.h:4741-4762 | whatever the pieces a printed pair falls into, together they are worth no more than the pair, and less unless its key survives |
| Ranges.NormalizedMeaning | examples/media_bidirectional_stream_js/httplib.h:5197-5222 | RFC 9110 section 14.1.2: a range that passes the check is replaced by exactly the bytes it names |
| Ranges.InsideExactly | examples/media_bidirectional_stream_js/httplib.h:5224-5228 | a range passes the check if and only if it names some byte and is not a suffix longer than the content |
| Ranges.LongSuffixRefused | examples/media_bidirectional_stream_js/httplib.h:5205-5208 | a suffix range longer than the content is refused although it names bytes |
| Ranges.AcceptableStep | examples/media_bidirectional_stream_js/httplib.h:5224-5241 | comparing with the running maxima is comparing with every range before: one more range is acceptable if and only if it passes the three tests |
| Ranges.CheckRanges | examples/media_bidirectional_stream_js/httplib.h:5187-5242 | the loop answers and rewrites as the declarative conditions say: count, place, order and overlaps of the whole list |
| Ranges.Request.RangeError | examples/media_bidirectional_stream_js/httplib.h:5181-5245 | a 2xx response with ranges is refused if and only if the conditions fail; when accepted, all ranges have been replaced in place |
| Ranges.AcceptedIsBounded | examples/media_bidirectional_stream_js/httplib.h:5181-5245 | RFC 9110 section 14.2: accepted ranges send no byte more than three times and add up to at most three times the content |
| Ranges.CountLimit | examples/media_bidirectional_stream_js/httplib.h:5195-5195 | ranges side by side are accepted up to 1024 of them and no more |
| Ranges.GetRangeOffsetAndLength | examples/media_bidirectional_stream_js/httplib.h:5247-5255 | the assertions hold for a checked range, and offset and length describe it |
| Ranges.MakeMultipartRangesData | examples/media_bidirectional_stream_js/httplib.h:5271-5322 | the body holds each part's header and bytes in order; the builder's assertion holds |
| RangesReader.BodyIsRead | examples/media_bidirectional_stream_js/httplib.h:5247-5322 | RFC 9110 section 14.4: a client's reader finds in the body each range's first and last position and the size of the whole as numbers, and exactly its bytes, whatever the content holds |
| Ranges.GetMultipartRangesDataLength | examples/media_bidirectional_stream_js/httplib.h:5324-5340 | the length announced from the ranges alone is the length of the body built from any content of that size |
| ThreadPool.Shared.Enqueue | examples/media_bidirectional_stream_js/httplib.h:779-790 | the locked part of `enqueue` refuses exactly at a positive bound and else appends |
| ThreadPool.Shared.WorkerTurn | examples/media_bidirectional_stream_js/httplib.h:815-824 | a worker's critical section: sleep, quit or take the front job |
| ThreadPool.StepKeepsInv | examples/media_bidirectional_stream_js/httplib.h:779-833 | every step of every thread keeps the invariant of queue, workers, notifications and history |
| ThreadPool.QueueBounded | examples/media_bidirectional_stream_js/httplib.h:782-785 | in every reachable state the queue is within a positive bound |
| ThreadPool.NoLostWakeup | examples/media_bidirectional_stream_js/httplib.h:815-820 | no reachable state has every worker waiting, a job queued and no notification on its way |
| ThreadPool.FifoOnce | examples/media_bidirectional_stream_js/httplib.h:823-828 | in every run jobs leave in the order accepted, and each that left is in one worker's hands or has run once |
| ThreadPool.AcceptsExactly | examples/media_bidirectional_stream_js/httplib.h:779-790 | in every run a job is accepted if and only if there is no bound or fewer accepted jobs than it allows have not left the queue; a refused one leaves no trace |
| ThreadPool.UnboundedAcceptsAll | examples/media_bidirectional_stream_js/httplib.h:782-782 | without a bound the jobs accepted are exactly those handed in, in order |
| ThreadPool.FewAreAccepted | examples/media_bidirectional_stream_js/httplib.h:782-782 | with a bound, as long as no more are handed in than it allows |
| ThreadPool.AfterShutdown | examples/media_bidirectional_stream_js/httplib.h:792-805 | once all workers are gone everything accepted ran, in order and once, except exactly what was accepted after the last of them left |
| ThreadPool.ShutdownDrains | examples/media_bidirectional_stream_js/httplib.h:792-805 | if nothing is enqueued after shutdown begins, every accepted job has been dequeued first-in first-out and run exactly once |
| ThreadPool.LateJobIsStranded | examples/media_bidirectional_stream_js/httplib.h:779-790 | `enqueue` does not look at the shutdown flag: a run in which an accepted job never runs |
| ThreadPool.InternalStepsEnd | examples/media_bidirectional_stream_js/httplib.h:808-833 | the pool's own steps cannot go on for ever by themselves |
| ThreadPool.SettledMeansDone | examples/media_bidirectional_stream_js/httplib.h:808-833 | when none of them can be taken, all workers are gone after shutdown, or the queue is empty and every accepted job has run |
| RefCount.RefCounted.RemoveReference | platform/quiche_platform_impl/quiche_reference_counted_impl.h:23-28 | counts down by one and says whether that was the last reference |
| RefCount.Pointer.RemoveReference | platform/quiche_platform_impl/quiche_reference_counted_impl.h:169-178 | letting go deletes the object exactly when nobody else holds it, and keeps every count equal to the number of holders |
| RefCount.Pointer.AssignObject | platform/quiche_platform_impl/quiche_reference_counted_impl.h:180-183 | the old object is let go and the new one held but not yet counted; all other objects are as they were |
| RefCount.Pointer.CopyAssign | platform/quiche_platform_impl/quiche_reference_counted_impl.h:84-89 | copy assignment keeps everything consistent if and only if it is not a copy onto itself of a pointer that alone holds its object |
| RefCount.Pointer.MoveAssign | platform/quiche_platform_impl/quiche_reference_counted_impl.h:98-104 | move assignment is always consistent; moved onto itself the pointer ends empty |
| RefCount.Pointer.AssignNew | platform/quiche_platform_impl/quiche_reference_counted_impl.h:119-127 | a pointer takes over the one reference of an object just created |
| RefCount.Pointer.Reset | platform/quiche_platform_impl/quiche_reference_counted_impl.h:42-42 | nulling and destroying keep everything consistent |
| RefCount.NoPointersNoObjects | platform/quiche_platform_impl/quiche_reference_counted_impl.h:169-178 | when no pointer is left every object has been deleted |
| RefCount.Apply | platform/quiche_platform_impl/quiche_reference_counted_impl.h:38-186 | one operation on the variables: they hold the objects they should, everything stays consistent, and only the copy of a sole holder onto itself uses a deleted object |
| RefCount.Execute | platform/quiche_platform_impl/quiche_reference_counted_impl.h:38-186 | over every program of variables that come into scope, are assigned and leave scope in any order: as many objects as were created, each deleted in the end and none used afterwards, if and only if no sole holder is copied onto itself |
| AtomicCount.StepKeepsInv | platform/quiche_platform_impl/quiche_reference_counted_impl.h:21-28 | every atomic step of every thread keeps the count equal to the references held |
| AtomicCount.ExactlyOneSeesZero | platform/quiche_platform_impl/quiche_reference_counted_impl.h:21-28 | however the threads interleave, exactly one sees zero, exactly when the last reference is gone; nothing is added afterwards and the object is deleted at most once |
| AtomicCount.NothingLeaks | platform/quiche_platform_impl/quiche_reference_counted_impl.h:169-178 | when no thread can take a step any more the object has been deleted |
| Session.SessionWrapper.RejectSession | web_transport_server.cc:105-122 | stores the rejection, and closes at once when ready and not closed |
| Session.SessionWrapper.SendDatagram | web_transport_server.cc:85-92 | sends unless the session is closed |
| Session.SessionWrapper.OnSessionReady | web_transport_server.cc:125-154 | an earlier rejection closes without asking; otherwise the callback runs, calling back as it likes, and may be followed by a close |
| Session.SessionWrapper.OnDatagramReceived | web_transport_server.cc:156-163 | delivers to the callback unless the session is closed |
| Session.SessionWrapper.OnIncomingStreamsAvailable | web_transport_server.cc:165-199 | offers every waiting stream, looking at the flag only before the loop |
| Session.SessionIsSafe | web_transport_server.cc:85-204 | over every sequence of events with callbacks doing whatever they may: at most one close, none after the peer's, no datagram sent or delivered after the end, and the flag says exactly whether the session has ended |
| Session.ClosedIsForEver | web_transport_server.cc:201-204 | once closed, closed after any further events |
| SessionHistory.FlagsAreHistory | web_transport_server.cc:85-204 | over every sequence of events the wrapper with its fields does exactly what one would that kept nothing and decided by everything logged so far |
| SessionHistory.CallsAreLogged | web_transport_server.cc:85-122 | however the session came to it: a send adds exactly its datagram unless the session has ended, a rejection is noted and closes if and only if the session is ready and has not ended |
| SessionHistory.ArrivalsAreMet | web_transport_server.cc:156-199 | however the session came to it: waiting streams are all offered if it has not ended and none otherwise, and a datagram is delivered if and only if there is a callback and it has not ended |
| SessionHistory.TrafficExactly | web_transport_server.cc:85-199 | over every run, sends inside callbacks included: what is sent, delivered and offered is exactly what was asked for before the session ended, in that order and with that data |
| SessionHistory.OpenSessionSends | web_transport_server.cc:85-92 | datagrams sent one after the other go out all of them in order, or none once the session has ended |
| Session.ReadyVerdict | web_transport_server.cc:125-139 | however the session came to it: becoming ready asks the application if and only if nothing was rejected before, and otherwise closes with the last rejection unless it has ended already |
| Session.CallbackVerdict | web_transport_server.cc:141-154 | a callback closes the session exactly once with its first rejection, or with code 0 when it only returns false, and otherwise not at all |
| Session.StreamsOutliveClose | web_transport_server.cc:165-199 | over every sequence of events: a stream is offered after the session has ended if and only if at some event of waiting streams, the session being open, one stream's callback ended it in front of another stream with a callback |
| Session.OfferLate | web_transport_server.cc:181-198 | one run of the accepting loop from any consistent state offers a stream after the end if and only if the session was closed and a callback is met, or a callback that ends it stands in front of another |
| Session.StreamOutlivesClose | web_transport_server.cc:165-199 | it does happen: a ready session whose first stream callback rejects |

## Left out

- H264EndToEnd.Lossless: in-order delivery without loss only, because `H264Packet` has no loss detection; loss is the subject of `H264Resync`.
- H264RtpPacketizer.H264Payloader.CreateFUAPackets: an MTU of 2 with a body is outside, because the source's loop does not end there (`FragmentLoopEnds`).
- H264RtpPacketizer.H264Payloader.EmitOne: an MTU of 2 with a unit of three bytes or more, for the same reason (`SendingEnds`).
- H264RtpPacketizer.H264Payloader.EmitNALUs: the same for a buffer with such a unit.
- H264RtpPacketizer.H264Payloader.Payload: the same for a buffer with such a unit.
- H264EndToEnd.EndToEnd: needs every unit to be carried; `LosslessExactly` says that nothing less will do.
- Multipart.ParseUndoesDocument: the receiver callbacks accept everything and no header line is rejected; refusals are the subject of `CallbacksDecide`, for a document in one call. What a header line means is a parameter, in place of regular expressions and case-insensitive matching.
- Multipart.StepKeeps: callbacks that accept everything, as above.
- Multipart.RoundTrip: name, file name and type through that parameter only, as above.
- Multipart.ParseHeaders: what a header line means is that parameter.
- MultipartOpening.RebuiltExactly: callbacks and header lines as above; documents with an opening line inside a header line or a content are outside; there the parser may find its way back in even when the first chunk was lost.
- MultipartOpening.SinglePartExactly: callbacks and header lines as in `ParseUndoesDocument`.
- MultipartOpening.RoundTripExactly: callbacks and header lines as in `ParseUndoesDocument`.
- Multipart: a preamble in front of the opening line, and text behind the final line break, which the code does not treat independently of the chunks.
- Chunked.ReadContentChunked: the content receiver never refuses, `strtoul` is a function on values, and trailer lines are kept whole instead of being parsed into headers.
- Chunked.ReadContentWithLength: the content receiver and the progress callback never refuse.
- Chunked.ReadTrailers: lines are kept whole.
- ChunkedWriter.WriteContentChunked: compressors other than the identity; a provider and its environment are a list of turns.
- QueryExact.RoundTripExactly: keys and values are byte strings, and values of characters beyond a byte are outside.
- Query: code points beyond four hexadecimal digits, which the decoder cannot meet.
- Ranges: parsing the Range header, and writing ranges from a content provider.
- Ranges.Request.RangeError: the 64-bit signed arithmetic is unbounded here; the parser yields -1 or a non-negative number, so it does not wrap.
- ThreadPool: the bodies of jobs, which may not use the pool here, exceptions and thread creation; `shutdown` joining its workers is the state where all have exited.
- RefCount.Execute: the run ends at the copy of a sole holder onto itself, behind which C++ defines nothing.
- RefCount: what an object's own destructor does, in particular objects that hold pointers themselves, and conversion between pointer types, which has the effect of a copy followed by nulling.
- AtomicCount: memory orders; the steps are sequentially consistent.
- Session: interval alarms, and the streams themselves.
- Vp8RtpPacketizer.FrameRoundTrip: `IsKeyFrame` says only that S is set and the partition is 0, which holds for the first packet of every frame.
- Frames.Receiver.Receive: what the page does with a frame (RTP, VP8 and the video decoder); no failure there changes the position.
- Rtp.RTPPacket.Unmarshal: heap buffers are sequences; an absent buffer is an empty one.
- Everything over QUICHE, BoringSSL, sockets, TLS, certificates, DNS and gzip or brotli; the browser's decoding and drawing; copies of the examples that repeat the same code.
