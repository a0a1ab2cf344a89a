# A verified model of the Amlogic subtitle server

The subtitle server receives subtitle data from players, reassembles and decodes it, orders closed captions against
the video clock and decides when a subtitle is shown and taken down. This project models the parts of it that keep
state, in Dafny, and proves what they promise. `dafny verify dfyconfig.toml` checks all of it. Nothing here
executes the original program.

Each file says what it models. Code that changes things in place is a class or a method with loops, proved against
a specification function; what the source promises is then proved about that function, over every input or every
run.

**Report pipeline** (`IpcFrames`, `RingBuffer`, `FmqReceiver`, `FrameStream`, `SocketServer`, `ReceiverAgreement`,
`DataSource`, `AssParser`, `SubtitleReport`, `ReportPipeline`). `SubSource_SendData` wraps a packet in a frame, the
bytes travel in arbitrary pieces, one of two decoders finds the frames again, `onData` queues them and `getSpu`
takes packets off the resulting stream. The main results: decoding does not depend on how the stream is cut
(`ChunkIndependence`); exactly the frames sent are delivered, if and only if every piece finds room in the ring
(`FramesArrive`, `PrefixArrives`); resynchronisation behind garbage (`ResyncExact`); when the socket decoder
delivers a frame (`FrameDelivered`) and that both decoders agree (`ReceiversAgree`, `ReceiveBoth`); and, for every
interleaving of arrivals and parser calls, that the packets returned are the packets sent (`EndToEnd`,
`EndToEndComplete`), by the objects themselves as well (`RunEvents`, `Session`).

**Closed-caption user data** (`UserdataRing`, `UserdataSpec`, `Userdata`). A heap-linked reorder list and a free
list feed a ring of length-prefixed packets. The lists stay acyclic, disjoint and complete, the queue stays stably
sorted and bounded, what a packet flushes is known exactly (`AddExactly`), every packet accepted is emitted exactly
once or is still queued, stamps are extrapolated from the last valid one, the clocked release ends, is
characterised for every sequence of clock readings and keeps queue order under an exact condition on them
(`ReleaseInOrder`), closing frees each node once, and the ring is a queue of packets.

**JSON** (`Json`, `JsonText`, `JsonParser`, `JsonPrinter`, `PowerOfTwo`, `JsonBuffer`, `JsonRoundTrip`). The parser
undoes both printers for every tree (`ParsePrint`, `RoundTrip`), the buffered printer writes the same text as the
allocating one and only inside the space `ensure` grants (`PrintBuffered`, `PrintBothWays`), the string printer's
count is exact and the array and object counts suffice, and the parser's string buffer never overflows.

**Caption JSON** (`CompactJson`, `CaptionWriter`, `CaptionPages`, `CaptionJson`, `CaptionReader`,
`CaptionRoundTrip`, `CaptionStyles`). The hand-written comma machine writes text that parses (`PageParses`), and
the strings fetched back spell each row of the page, whatever style changes split it (`RowSpells`, `WriteAndRead`);
every character stands, at its place, in an item that tells its own look (`CharacterTold`).

**Presentation** (`PresentationSpec`, `PresentationSafety`, `PresentationProgress`, `Presentation`). Over every run
of messages at most one subtitle is on screen and it can be taken down (`OneOnScreen`), none is shown twice
(`ShownOnce`), and exactly when one that waits for its time is shown early is known for every message and every run
(`RunSafe`, `EarlyExactly`, `RunEarly`, `NarrowNeverEarly`). No message loses an item that may wait but in one
exact case (`ItemKept`, `MisfireLoses`), and a front item is shown as soon as it is due, with the right text
(`FrontShown`).

**Tables and buffers** (`DemuxTable`, `EventTable`, `BPrint`). The demux filter table against its descriptors, none
of which is lost or closed twice over any run (`RunAccounts`), the event table as a map, and the growing print
buffer.

Facts about the code that came out as conditions, each with the input that shows the other side:

- A frame without payload at the end of the stream is not delivered until more bytes arrive, and a piece that finds
  no room in the ring is lost for good (`FramesArrive`); a frame larger than the ring stops the receiver
  (`OversizeNeverDelivered`).
- Garbage is skipped exactly unless the next frame's session id is the magic word (`ResyncExact`, `GarbageTraps`).
- The socket decoder loses a split payload that is shorter than a header or begins with the start flag
  (`FrameDelivered`, `ShortPayloadStalls`, `StartedPayloadStalls`).
- Subtitle data is dropped until a type or track report other than -1 (`ReportOpensQueue`).
- A clock that rises during one release can emit packets out of order; it keeps order exactly when its readings
  pass the packets from the head on (`ReleaseInOrder`, `RisingClockReorders`).
- In the dark half of the second a row's text is lost exactly when a shown character other than a space flashes
  (`RowSpells`, `DarkLetter`).
- A subtitle whose time overflows the 64-bit conversion can be shown early, but only against a clock that is 0 or
  wider than 32 bits at 90 kHz (`EarlyExactly`, `RunEarly`, `EarlyWitness`).
- A front item that the ten-minute rule has just thrown out is looked at all the same; if its time overflows, it is
  shown and the next item is dropped in its place (`MisfireLoses`, `MisfireWitness`).
- A clock narrowed to 32 bits is never recognised as invalid (`SyncCurrentPresentTime`).
- A stop that fails still counts as a stop, so a close can leave a filter in use that the next open gives no
  descriptor (`RunCoupled`, `LeftOver`).
- The buffered object printer returns a pointer to its depth instead of its start when it formats an object with
  members; only the outermost result, where both are 0, is used (`JsonBuffers.PrintBuffer.PrintObject`).

Conventions: `char` is unsigned and the host is little-endian; words are little-endian in frame headers and
big-endian in packet headers; signed 64-bit overflow wraps; allocation succeeds unless it is a parameter;
`AV_CODEC_ID_*` have the values of `CODEC_ID_*`; the opacities of the caption library are 0, 2 and 3 for
transparent, semi-transparent and opaque; the millisecond conversions of Timers.h, which is not part of the
repository, multiply and divide by 10^6. Sockets, threads, clocks and driver calls are parameters: chunks that
arrive, buffers other threads push meanwhile, clock readings, and the outcomes of driver calls.

## Model

| member | source | states |
|---|---|---|
| `IpcFrames.MakeHeader` | client/SubtitleReportAPI.cpp:86-99 | the first 20 bytes become start flag, session id, magic flag, size and type as little-endian words; the rest of the buffer stays |
| `IpcFrames.HeaderWords` | client/SubtitleReportAPI.cpp:86-99 | peekAsSocketWord reads all five header words back, modulo 2^32, for every session id, type and size, whatever follows the header |
| `IpcFrames.PeekWordIsLE` | libsubtitle/ipc/IpcDataTypes.h:55-62 | peekAsSocketWord is the little-endian value of four bytes, with unsigned chars |
| `RingBuffers.RingBuffer.constructor` | libsubtitle/utils/ringbuffer.c:231-275 | a new ring is empty and has its whole size available |
| `RingBuffers.RingBuffer.Write` | libsubtitle/utils/ringbuffer.c:162-196 | appends exactly the longest prefix that fits to the FIFO content and keeps both counters and positions in range |
| `RingBuffers.RingBuffer.Read` | libsubtitle/utils/ringbuffer.c:87-125 | removes and returns the longest prefix of the content of at most that many bytes; what is left is the rest |
| `RingBuffers.RingBuffer.Peek` | libsubtitle/utils/ringbuffer.c:127-159 | returns the prefix a read would return and changes nothing |
| `RingBuffers.RingBuffer.CleanReset` | libsubtitle/utils/ringbuffer.c:219-229 | the content is empty and the whole size is available again |
| `RingBuffers.WriteLands` | libsubtitle/utils/ringbuffer.c:162-196 | storing at a write position congruent to read position plus available bytes extends the circular content by exactly those bytes |
| `RingBuffers.TakeSplits` | libsubtitle/utils/ringbuffer.c:87-125 | advancing the read position, which may come to rest at the size, leaves exactly the rest of the content |
| `FmqReceivers.FmqReceiver.constructor` | libsubtitle/ipc/FmqReceiver.cpp:68-76 | a receiver starts with an empty ring and nothing delivered |
| `FmqReceivers.FmqReceiver.Receive` | libsubtitle/ipc/FmqReceiver.cpp:77-157 | one arrival of any size changes the receiver exactly as decoding the buffered bytes and the part of it that the ring has room for |
| `FmqReceivers.FmqReceiver.ReceiveAll` | libsubtitle/ipc/FmqReceiver.cpp:77-157 | so do any arrivals one after the other, a receiver in an undefined state aside, which stays as it is |
| `FmqReceivers.FmqReceiver.Round` | libsubtitle/ipc/FmqReceiver.cpp:109-156 | an inner iteration that does not leave the loop consumes at least four bytes and does not change what remains to be delivered |
| `FmqReceivers.FmqReceiver.PeekStep` | libsubtitle/ipc/FmqReceiver.cpp:110-131 | the decision made on the peeked header is the one its words call for, including negative sizes |
| `FmqReceivers.StepExactly` | libsubtitle/ipc/FmqReceiver.cpp:110-142 | what one iteration does, in the header's own numbers, negative sizes included |
| `FmqReceivers.FmqReceiver.TakePayload` | libsubtitle/ipc/FmqReceiver.cpp:133-142 | takes the header and exactly the payload behind it off the ring |
| `FmqReceivers.StepMonotone` | libsubtitle/ipc/FmqReceiver.cpp:109-156 | bytes that arrive later never change what an iteration does, unless it was waiting for them |
| `FmqReceivers.DecodeAppend` | libsubtitle/ipc/FmqReceiver.cpp:77-157 | decoding a stream in two parts is decoding it at once |
| `FmqReceivers.ChunkIndependence` | libsubtitle/ipc/FmqReceiver.cpp:77-157 | for every byte stream and every way of cutting it, the listener is given what decoding the whole stream delivers |
| `FmqReceivers.DecodeWeight` | libsubtitle/ipc/FmqReceiver.cpp:109-156 | decoding makes nothing up: headers, delivered payloads and buffered bytes together are no more than the bytes received |
| `FmqReceivers.RingWeight` | libsubtitle/utils/ringbuffer.c:162-196 | if some arrival finds no room for all of itself, what is ever delivered and buffered stays strictly below what was sent |
| `FrameStreams.FrameStep` | libsubtitle/ipc/FmqReceiver.cpp:109-156 | a buffered frame is recognised with its own type and size, and its payload and what follows it are where the decoder takes them |
| `FrameStreams.DecodeFrames` | libsubtitle/ipc/FmqReceiver.cpp:77-157 | whole frames are delivered in order, and decoding goes on with what follows them |
| `FrameStreams.ProperPrefixWaits` | libsubtitle/ipc/FmqReceiver.cpp:109-131 | a strict prefix of a frame stays buffered whole and delivers nothing |
| `FrameStreams.FramesArrive` | libsubtitle/ipc/FmqReceiver.cpp:77-157 | through the ring of 1 MiB, any frames, cut anywhere, are delivered exactly and leave nothing behind if and only if the last one has a payload and every piece finds room in the ring when it arrives |
| `FrameStreams.PrefixArrives` | libsubtitle/ipc/FmqReceiver.cpp:77-157 | whatever pieces of a stream of non-empty frames have arrived, exactly the frames wholly received are delivered and the rest is buffered, if and only if every piece found room |
| `FrameStreams.RoomyFits` | libsubtitle/ipc/FmqReceiver.cpp:70 | every piece finds room when no frame and piece together exceed the ring by more than one byte |
| `FrameStreams.OversizeNeverDelivered` | libsubtitle/ipc/FmqReceiver.cpp:102-131 | a frame larger than the ring fills it for good: neither it nor anything behind it is ever delivered |
| `FrameStreams.GarbageSkipped` | libsubtitle/ipc/FmqReceiver.cpp:115-119 | whole words of garbage with neither flag in them are skipped, however many, when the session id is not the magic word |
| `FrameStreams.GarbageTraps` | libsubtitle/ipc/FmqReceiver.cpp:115-131 | with the magic word as session id the last garbage word is taken for a header and nothing is ever delivered |
| `FrameStreams.ResyncExact` | libsubtitle/ipc/FmqReceiver.cpp:109-131 | resynchronisation behind garbage is exact if and only if the session id of the next frame is not the magic word |
| `SocketServers.SocketConnection.constructor` | libsubtitle/ipc/SocketServer.cpp:264-275 | a connection starts with an empty buffer and no header |
| `SocketServers.SocketConnection.ProcessData` | libsubtitle/ipc/SocketServer.cpp:262-359 | each recv moves the connection, its ring and its stored header exactly as the step function says |
| `SocketServers.SocketConnection.ReadHeader` | libsubtitle/ipc/SocketServer.cpp:304-311 | takes 20 bytes off the ring and keeps the size and type words of the header |
| `SocketServers.SocketConnection.Deliver` | libsubtitle/ipc/SocketServer.cpp:334-356 | delivers once the stored size has arrived and resets the connection, or leaves it waiting |
| `SocketServers.FrameDelivered` | libsubtitle/ipc/SocketServer.cpp:262-359 | a frame sent on its own in any non-empty chunks is delivered once, intact, with the connection back in its initial state, if and only if it is complete as soon as its header is, or its payload has at least 20 bytes and does not begin with the start flag |
| `SocketServers.ExitRemoves` | libsubtitle/ipc/SocketServer.cpp:327-331 | a frame of type 0x43444558 or 0x58454443 removes the connection as soon as its header is there and delivers nothing |
| `SocketServers.DeliversExactly` | libsubtitle/ipc/SocketServer.cpp:334-358 | once its bytes are there a payload is delivered exactly when its size lies between 0 and 512 KiB |
| `SocketServers.NothingOversize` | libsubtitle/ipc/SocketServer.cpp:334-358 | over every run no payload of 512 KiB or more is delivered |
| `SocketServers.SocketConnection.ReceiveFrame` | libsubtitle/ipc/SocketServer.cpp:262-359 | the connection receiving a frame in pieces of at most 1024 bytes always has room, does what the step function says, and delivers under exactly that condition |
| `SocketServers.PayloadArrives` | libsubtitle/ipc/SocketServer.cpp:334-358 | with the header stored, the payload may arrive in any chunks and is delivered whole |
| `SocketServers.ShortPayloadStalls` | libsubtitle/ipc/SocketServer.cpp:294-297 | a payload shorter than a header that arrives after its header is never delivered |
| `SocketServers.StartedPayloadStalls` | libsubtitle/ipc/SocketServer.cpp:299-311 | a payload that begins with the start flag and is split is taken for another header and is never delivered whole |
| `SocketServers.AfterHeader` | libsubtitle/ipc/SocketServer.cpp:293-358 | once the header is stored, the rest is delivered intact exactly when the payload is long enough and does not begin with the start flag |
| `ReceiverAgreement.SocketDelivers` | libsubtitle/ipc/SocketServer.cpp:262-359 | packets sent one frame at a time in any chunks all reach the listener through the socket decoder, in order |
| `ReceiverAgreement.ReceiversAgree` | libsubtitle/ipc/SocketServer.cpp:262-359 | on all data frames below 512 KiB sent one at a time in pieces of at most 1024 bytes, the two decoders with their rings deliver the same buffers and both end with nothing buffered |
| `ReceiverAgreement.ReceiveBoth` | libsubtitle/ipc/SocketServer.cpp:262-359 | both receivers, given the same pieces, end up with exactly the frames sent as their deliveries |
| `DataSources.ReadL` | libsubtitle/utils/Segment.h:49-66 | copies the longest prefix of the unread bytes that fits behind the given offset and leaves exactly the rest unread |
| `DataSources.BufferSegment.Push` | libsubtitle/utils/Segment.cpp:56-68 | a non-empty buffer joins the end of the queue and the count; an empty one changes nothing |
| `DataSources.BufferSegment.NotifyExit` | libsubtitle/utils/Segment.h:131-136 | disables the queue and leaves the queued items |
| `DataSources.BufferSegment.Pop` | libsubtitle/utils/Segment.cpp:39-54 | returns the front item untouched, sleeping for arrivals only when the queue is empty and enabled; item and queue together are what was queued and arrived |
| `DataSources.ExternalDataSource.AvailableDataSize` | libsubtitle/io/ExternalDataSource.h:50-55 | until stop, the size is exactly the bytes pushed and not yet read |
| `DataSources.ExternalDataSource.Read` | libsubtitle/io/ExternalDataSource.cpp:165-201 | until stop, fills the caller's buffer with exactly the next bytes of the concatenation of all pushed buffers, however they were cut, and leaves exactly the rest; started again after a stop it does the same with what arrives, and spins until enough has |
| `DataSources.ExternalDataSource.ReadStep` | libsubtitle/io/ExternalDataSource.cpp:178-187 | one turn of the loop moves bytes from the stream to the buffer and keeps the order of all the rest |
| `DataSources.ExternalDataSource.OnData` | libsubtitle/io/ExternalDataSource.cpp:95-148 | each message sets its own field or joins the stream, subtitle data only once a track count or type is known, and nothing else changes |
| `DataSources.QueuedExactly` | libsubtitle/io/ExternalDataSource.cpp:95-148 | which message types, by number, join the stream: data once reported, the eight known others never, anything else whole |
| `DataSources.CStringExactly` | libsubtitle/io/ExternalDataSource.cpp:129-131 | the language is the bytes up to the first zero |
| `DataSources.ExternalDataSource.Start` | libsubtitle/io/ExternalDataSource.cpp:150-153 | the source is started, from any state, and its stream is kept; after a stop its queue stays disabled |
| `DataSources.ExternalDataSource.Stop` | libsubtitle/io/ExternalDataSource.cpp:155-159 | the source is stopped, its queue disabled, and its stream kept |
| `DataSources.LongWord` | libsubtitle/io/ExternalDataSource.cpp:38-40 | the two 32-bit halves read by make32bitValue make the little-endian 64-bit field |
| `AssParsers.SubPeekAsInt32` | libsubtitle/utils/StreamUtils.h:46-53 | the loop computes the signed 32-bit big-endian value of four bytes |
| `AssParsers.SubPeekAsInt64` | libsubtitle/utils/StreamUtils.h:61-68 | the loop computes the 64-bit big-endian value of eight bytes |
| `AssParsers.PeekHeader` | libsubtitle/subtitle/parser/AssParser.cpp:262-285 | sync word, 24-bit codec, length and signed 64-bit time are the header's big-endian fields |
| `AssParsers.TakeReads` | libsubtitle/subtitle/parser/AssParser.cpp:259-412 | what a call makes of the bytes, each field at its own offset and each codec by its number: the whole payload for text, SSA, SubRip, WebVTT and ASS, all but two bytes for MOV_TEXT, a count for DVD and VOB, and rejection for every other |
| `AssParsers.AssParser.GetSpu` | libsubtitle/subtitle/parser/AssParser.cpp:224-412 | one call takes off the stream what one packet occupies and returns codec, time, end time and payload from the stream's own bytes, whatever the segments they are read from; the text of SSA and ASS is the payload before its fields are split |
| `AssParsers.AssParser.ParsePacket` | libsubtitle/subtitle/parser/AssParser.cpp:259-412 | behind the first twenty bytes, the outcome and the bytes left are those the header calls for, on the rejecting branches as well |
| `AssParsers.AssParser.ReadBody` | libsubtitle/subtitle/parser/AssParser.cpp:303-335 | reads the duration and exactly the payload, across segment boundaries |
| `SubtitleReports.SubtitleReport.SendData` | client/SubtitleReportAPI.cpp:368-478 | an accepted request puts one frame around one packet on the wire and updates the type and the last duration; any other sends nothing |
| `SubtitleReports.SubTypeExactly` | client/SubtitleReportAPI.cpp:382-404 | the type number kept for each codec number |
| `SubtitleReports.SubtitleReport.FillPacketHeader` | client/SubtitleReportAPI.cpp:423-444 | the 24 bytes written by shift and mask are sync word, filler, codec, length, time and duration in big-endian order |
| `SubtitleReports.SubtitleReport.BuildFrame` | client/SubtitleReportAPI.cpp:445-464 | the buffer sent is a header with the payload's own length and the payload |
| `SubtitleReports.SubtitleReport.ReportTotalTracks` | client/SubtitleReportAPI.cpp:305-317 | sends one frame with the track count |
| `SubtitleReports.SubtitleReport.ReportType` | client/SubtitleReportAPI.cpp:320-333 | sends one frame with the type |
| `SubtitleReports.SubtitleReport.ReportRenderTime` | client/SubtitleReportAPI.cpp:276-289 | sends one frame with the 64-bit render time |
| `SubtitleReports.SubtitleReport.ReportStartPts` | client/SubtitleReportAPI.cpp:291-303 | sends one frame with the 64-bit start time |
| `SubtitleReports.ShiftedBytes` | client/SubtitleReportAPI.cpp:423-444 | bytes picked by arithmetic shifts are the big-endian bytes of the number |
| `ReportPipelines.HeaderLayout` | libsubtitle/subtitle/parser/AssParser.cpp:262-285 | the parser's reading of a packet header gives back the codec, length, time and duration that SubSource_SendData wrote |
| `ReportPipelines.PacketTaken` | libsubtitle/subtitle/parser/AssParser.cpp:224-412 | a call on a stream that begins with a packet consumes exactly 24 plus payload-length bytes and returns that packet |
| `ReportPipelines.ReportOpensQueue` | libsubtitle/io/ExternalDataSource.cpp:95-148 | a type or count report sets its field; subtitle data is dropped exactly while both fields are -1 and joins the stream otherwise |
| `ReportPipelines.CountAlone` | libsubtitle/io/ExternalDataSource.cpp:95-148 | with neither reported data is dropped; a track count alone opens the queue, as a type alone does, unless it is -1 |
| `ReportPipelines.NewBuffers` | libsubtitle/ipc/FmqReceiver.cpp:77-157 | what one arrival delivers is exactly the frames it completes |
| `ReportPipelines.ArriveKeeps` | libsubtitle/io/ExternalDataSource.cpp:95-148 | an arrival that finds room keeps the invariant that parsed, queued and buffered bytes are the packets sent, in order |
| `ReportPipelines.ParseKeeps` | libsubtitle/subtitle/parser/AssParser.cpp:224-412 | a call of getSpu keeps that invariant and parses the next packet if one has arrived |
| `ReportPipelines.RunKeeps` | libsubtitle/subtitle/parser/AssParser.cpp:224-412 | every interleaving of calls and arrivals that find room keeps it |
| `ReportPipelines.EndToEnd` | client/SubtitleReportAPI.cpp:423-464 | whatever has arrived of the packets' frames, cut into any pieces that find room in the ring, the calls have returned a prefix of the packets sent, each with its codec, time, end time and payload (for SSA and ASS before its fields are split), and the stream holds exactly the packets received and not yet returned |
| `ReportPipelines.EndToEndComplete` | client/SubtitleReportAPI.cpp:423-464 | when all frames have arrived in such pieces, as many calls as there are packets return every packet in order (SSA and ASS payloads before their fields are split) and leave the stream empty |
| `ReportPipelines.SizedFits` | libsubtitle/ipc/FmqReceiver.cpp:70-105 | every piece finds room when no packet with both headers and no piece together exceed the ring by more than one byte |
| `ReportPipelines.OutcomeFields` | libsubtitle/subtitle/parser/AssParser.cpp:292-330 | what is returned for the i-th packet: for text, SSA, SubRip, WebVTT and ASS its own codec, payload, 64-bit time, and end time or 0 without a duration; for MOV_TEXT the same without the first two bytes; for any other codec rejection |
| `ReportPipelines.SendAll` | client/SubtitleReportAPI.cpp:368-478 | a sequence of requests puts exactly the frames of the accepted packets on the wire |
| `ReportPipelines.SentExactly` | client/SubtitleReportAPI.cpp:368-464 | each further request adds its own data and time, DVD renumbered to VOB and the duration 0 once text, ASS or SubRip data was sent; an empty or XSUB one adds nothing |
| `ReportPipelines.PipelineObjects.OnArrive` | libsubtitle/ipc/FmqReceiver.cpp:77-157 | receiver, listener and data source together do what one arrival does to the pipe |
| `ReportPipelines.PipelineObjects.OnParse` | libsubtitle/subtitle/parser/AssParser.cpp:224-412 | the parser on the data source does what one call does to the pipe |
| `ReportPipelines.PipelineObjects.RunEvents` | libsubtitle/subtitle/parser/AssParser.cpp:224-412 | the objects through a whole run of arrivals and calls: every call is defined, every field the listener reads is there, and the outcomes are those of the end-to-end result |
| `ReportPipelines.ReportArrives` | libsubtitle/io/ExternalDataSource.cpp:95-148 | a type report other than -1, in one piece, makes a new pipeline ready for data |
| `ReportPipelines.Session` | libsubtitle/ipc/FmqReceiver.cpp:68-157 | new objects, a type report and a whole run: the outcomes are those of the end-to-end result |
| `UserdataRings.UserdataRing.constructor` | libsubtitle/io/UserdataDriver.c:104-112 | a new ring holds no packet |
| `UserdataRings.UserdataRing.Free` | libsubtitle/io/UserdataDriver.c:127-132 | free and available bytes always add up to size minus one |
| `UserdataRings.UserdataRing.RingRead` | libsubtitle/io/UserdataDriver.c:141-154 | removes exactly the first bytes of the content, across the end of the buffer |
| `UserdataRings.UserdataRing.RingWrite` | libsubtitle/io/UserdataDriver.c:156-171 | appends exactly the given bytes, across the end of the buffer |
| `UserdataRings.UserdataRing.PackageWrite` | libsubtitle/io/UserdataDriver.c:183-201 | all or nothing: the packet joins the queue and its size is returned exactly when it and its length fit the size minus one less what is stored, or the queue is unchanged and 0 is returned; the content stays whole records |
| `UserdataRings.UserdataRing.PackageRead` | libsubtitle/io/UserdataDriver.c:203-232 | removes exactly the head record, returning it or dropping it when the caller's buffer is too small; only a lone empty packet stays, and the branch for a record that does not fit the ring is unreachable |
| `UserdataRings.HeadRecord` | libsubtitle/io/UserdataDriver.c:203-232 | more than a bare length in the ring means a whole record at its head, with its true length in front |
| `UserdataRings.LoneRecord` | libsubtitle/io/UserdataDriver.c:203-232 | at most a bare length is stored exactly when the queue is empty or holds one empty packet |
| `UserdataRings.FifoRun` | libsubtitle/io/UserdataDriver.c:183-232 | over every run of writes and reads the packets accepted are those departed, in that order, and then those queued, and a departed packet was returned exactly when it is not empty and fits the read that removed it |
| `UserdataRings.DrainReturnsAll` | libsubtitle/io/UserdataDriver.c:203-232 | a reader with a large enough buffer gets every non-empty packet in order |
| `UserdataSpec.InsertSorted` | libsubtitle/io/Userdata.c:437-457 | the place the scan finds keeps the list sorted by time, then picture order count, then arrival |
| `UserdataSpec.AddKeeps` | libsubtitle/io/Userdata.c:400-492 | adding keeps the list stably sorted and at most 64 long, and what is emitted and queued together is what was there and the new packet |
| `UserdataSpec.AddExactly` | libsubtitle/io/Userdata.c:400-492 | with less than 64 packets queued, a packet whose picture order count is no more than 30 below the head's joins them, sorted, and nothing is emitted; one further below sends exactly the queue out, in order, and stands alone; from 64 on the head goes first and the same rule holds for the rest |
| `UserdataSpec.ReleaseConserves` | libsubtitle/io/Userdata.c:716-752 | for every clock, the release scan loses nothing, invents nothing and keeps the list sorted |
| `UserdataSpec.Release` | libsubtitle/io/Userdata.c:716-752 | the scan ends for every sequence of clock readings, by list length and then distance to the end, and never grows the list |
| `UserdataSpec.ReleaseReadings` | libsubtitle/io/Userdata.c:716-752 | everything released was passed by some reading of the clock, and the scan ends with a full pass whose readings had passed nothing that is left |
| `UserdataSpec.ReleaseAtRest` | libsubtitle/io/Userdata.c:716-752 | while the clock stands at v exactly the packets before v are emitted, in queue order, and exactly the others stay |
| `UserdataSpec.PassedIsPrefix` | libsubtitle/io/Userdata.c:716-752 | for a sorted queue those are a prefix of it and the rest |
| `UserdataSpec.ReleaseInOrder` | libsubtitle/io/Userdata.c:716-752 | for every sorted queue and every clock, a prefix of the queue is released, the rest staying behind it, if and only if each reading passes the head of what is left until one whole pass finds nothing passed |
| `UserdataSpec.MissesEach` | libsubtitle/io/Userdata.c:716-752 | such a pass means that every reading is at most the time of the packet it looks at |
| `UserdataSpec.SteadyClockInOrder` | libsubtitle/io/Userdata.c:716-752 | a clock that does not rise while it is read always releases in queue order |
| `UserdataSpec.RisingClockReorders` | libsubtitle/io/Userdata.c:716-752 | a queue of two and readings of a rising clock that release the second packet first |
| `UserdataSpec.StampExtrapolates` | libsubtitle/io/Userdata.c:356-367 | a packet without a valid time is stamped with the last valid packet's time plus the sum of the durations emitted since, however many |
| `UserdataSpec.StampedBytes` | libsubtitle/io/Userdata.c:356-367 | the first four bytes are the packet's valid time, or the last stamp and duration together, modulo 2^32, and the payload follows |
| `UserdataSpec.LedgerAdd` | libsubtitle/io/Userdata.c:400-492 | adding keeps the ledger: every accepted packet is queued or was emitted once, and what was written is what was emitted, stamped in turn |
| `UserdataSpec.LedgerMove` | libsubtitle/io/Userdata.c:369-398 | so does anything that only moves packets from the queue to the output |
| `UserdataSpec.EmittedOnce` | libsubtitle/io/Userdata.c:369-492 | every accepted packet is emitted exactly once or is still queued, never both |
| `Userdatas.Userdata.constructor` | libsubtitle/io/Userdata.c:971-1005 | a new device has empty lists; its stamp fields are what allocation left in them |
| `Userdatas.Userdata.WriteUserdata` | libsubtitle/io/Userdata.c:356-367 | the bytes handed on are the low 32 bits of the stamp, little-endian, and the payload, and the stamp state moves on |
| `Userdatas.Userdata.Unlink` | libsubtitle/io/Userdata.c:725-748 | relinking through the predecessor takes exactly the i-th node off the list |
| `Userdatas.Userdata.LinkIn` | libsubtitle/io/Userdata.c:482-491 | relinking puts the node in at exactly the place found |
| `Userdatas.Userdata.TakeNode` | libsubtitle/io/Userdata.c:458-471 | the node comes off the free list or is new, and lists and node still share out every node allocated |
| `Userdatas.Userdata.FillNode` | libsubtitle/io/Userdata.c:473-488 | the node holds the packet, its buffer replaced only when it is too small |
| `Userdatas.Userdata.FlushCCData` | libsubtitle/io/Userdata.c:369-398 | every queued packet is written in list order, every node goes to the free list, the count is 0 |
| `Userdatas.Userdata.InsertPacket` | libsubtitle/io/Userdata.c:437-492 | the linked list afterwards holds the sorted insertion of the packet, and its count is its length |
| `Userdatas.Userdata.AddCCData` | libsubtitle/io/Userdata.c:400-492 | both lists stay acyclic, disjoint and complete, every accepted packet is accounted for, and the packets queued and emitted are those of that rule: 64 packets, 30 picture order counts |
| `Userdatas.Userdata.ReleaseBy` | libsubtitle/io/Userdata.c:716-752 | the pointer-to-pointer scan releases exactly what the value scan releases for the same readings |
| `Userdatas.Userdata.H264UserdataPackage` | libsubtitle/io/Userdata.c:716-752 | adding and releasing keep lists and ledger, with exactly those packets queued and written |
| `Userdatas.Userdata.Close` | libsubtitle/io/Userdata.c:1007-1024 | every node allocated is freed exactly once |
| `Json.Utf8Decodes` | libsubtitle/utils/cJSON.c:270-305 | the bytes written for any code point are read back as that code point by the layout of section 3 of RFC 3629, whatever follows them |
| `JsonRoundTrips.ReadCharsOfEscapeAll` | libsubtitle/utils/cJSON.c:226-397 | section 7 of RFC 8259: unescaping undoes escaping for every NUL-free string and stops behind the closing quote |
| `Json.BasicEscapeReads` | libsubtitle/utils/cJSON.c:196-305 | section 7 of RFC 8259: any character of the basic plane is read from its four hexadecimal digits, capital or small |
| `Json.PairEscapeReads` | libsubtitle/utils/cJSON.c:264-305 | any character beyond it is read from its pair of surrogates |
| `Json.BrokenEscapeReads` | libsubtitle/utils/cJSON.c:264-280 | zero, a second surrogate alone and a first one without its second stand for nothing |
| `Json.EscapeExactly` | libsubtitle/utils/cJSON.c:319-397 | what is written for each byte |
| `Json.SkipExactly` | libsubtitle/utils/cJSON.c:418-422 | white space is every byte from 1 to 32 and only that |
| `JsonRoundTrips.ParsePrintNumber` | libsubtitle/utils/cJSON.c:96-126 | every integer up to 2^53 either way is read back from its digits, whatever stands behind them that does not carry a number on |
| `JsonRoundTrips.ParsePrintItems` | libsubtitle/utils/cJSON.c:556-679 | the items of every printed array are read back, and parsing stops behind its bracket |
| `JsonRoundTrips.ParsePrintMembers` | libsubtitle/utils/cJSON.c:682-869 | the names and values of every printed object are read back, formatted or not |
| `JsonRoundTrips.ParsePrint` | libsubtitle/utils/cJSON.c:469-553 | for every tree of null, booleans, 32-bit integers, NUL-free strings, arrays and objects, at every depth, formatted or not, parsing its text gives the tree and stops exactly where the text stops |
| `JsonRoundTrips.RoundTrip` | libsubtitle/utils/cJSON.c:425-456 | cJSON_Parse of what cJSON_Print or cJSON_PrintUnformatted gives is the tree, with nothing left over |
| `JsonRoundTrips.PrintInjective` | libsubtitle/utils/cJSON.c:451-456 | no two trees share a text, formatted or not |
| `JsonRoundTrips.ItemsLayout` | libsubtitle/utils/cJSON.c:588-679 | items are separated by a comma, with a space behind it in formatted text |
| `JsonRoundTrips.MembersLayout` | libsubtitle/utils/cJSON.c:730-869 | formatted members stand on a line each, indented by as many tabs as they are deep; unformatted ones have only commas between them |
| `JsonParsers.SkipAt` | libsubtitle/utils/cJSON.c:418-421 | the cursor stops at the first byte that is not white space |
| `JsonParsers.GatherDigits` | libsubtitle/utils/cJSON.c:96-126 | the digit loop accumulates the number and stops behind its digits |
| `JsonParsers.ParseNumberAt` | libsubtitle/utils/cJSON.c:96-126 | sign, optional zero and digits give the integer and the cursor behind it |
| `JsonParsers.CountAt` | libsubtitle/utils/cJSON.c:226-240 | the first pass counts one for each byte or escape in front of the closing quote |
| `JsonParsers.CharsFit` | libsubtitle/utils/cJSON.c:226-316 | the decoded string is never longer than that count, so the buffer of count plus one never overflows |
| `JsonParsers.EscapeFits` | libsubtitle/utils/cJSON.c:248-310 | no escape decodes to more bytes than the first pass counted for it, surrogate pairs included |
| `JsonParsers.PutUtf8` | libsubtitle/utils/cJSON.c:280-303 | the bytes written from the last to the first are the UTF-8 of the code point, section 3 of RFC 3629 |
| `JsonParsers.HexAt` | libsubtitle/utils/cJSON.c:196-221 | four hexadecimal digits give their value, anything else fails |
| `JsonParsers.EscapeAt` | libsubtitle/utils/cJSON.c:248-310 | one escape appends exactly the bytes it stands for to the buffer |
| `JsonParsers.ParseStringAt` | libsubtitle/utils/cJSON.c:226-316 | the buffer holds the decoded string and its terminator, inside the space allocated, and the cursor stands behind the string |
| `JsonParsers.ParseValueAt` | libsubtitle/utils/cJSON.c:469-491 | the branch taken, the value and the cursor are those of the grammar, and it fails exactly where that fails |
| `JsonParsers.ParseItemsAt` | libsubtitle/utils/cJSON.c:564-584 | the loop over commas gathers exactly the items of the array |
| `JsonParsers.ParseMembersAt` | libsubtitle/utils/cJSON.c:691-726 | the loop over commas gathers exactly the members of the object |
| `JsonParsers.Parse` | libsubtitle/utils/cJSON.c:425-448 | white space, one value, and success exactly when that value parses |
| `JsonTexts.FlagOf` | libsubtitle/utils/cJSON.c:319-326 | the flag is raised exactly when some byte must be escaped |
| `JsonTexts.EscapedLength` | libsubtitle/utils/cJSON.c:346-352 | the counted length is the length of the escaped string |
| `JsonTexts.StringRoom` | libsubtitle/utils/cJSON.c:319-356 | the room asked for is exactly the quoted text and its terminator |
| `JsonTexts.WriteString` | libsubtitle/utils/cJSON.c:319-397 | either path writes exactly the quoted text and its terminator and touches nothing else |
| `JsonTexts.NumberFits` | libsubtitle/utils/cJSON.c:173-194 | the 21 bytes asked for hold any 32-bit integer |
| `JsonTexts.PrintIsText` | libsubtitle/utils/cJSON.c:165-170 | no printed text contains a zero byte, so strlen finds its end |
| `JsonTexts.Strlen` | libsubtitle/utils/cJSON.c:165-170 | the loop finds the length of the text standing in the buffer |
| `JsonPrinters.RoomSuffices` | libsubtitle/utils/cJSON.c:588-869 | the lengths counted for arrays and objects are upper bounds of the text and its terminator |
| `JsonPrinters.PrintStringPtr` | libsubtitle/utils/cJSON.c:319-397 | the string printer allocates exactly what it writes |
| `JsonPrinters.PrintEntries` | libsubtitle/utils/cJSON.c:632-642 | every entry is printed on its own and the length is counted as the source counts it |
| `JsonPrinters.PrintArray` | libsubtitle/utils/cJSON.c:588-679 | entries composed in a buffer of the counted length give the array's text, every write inside it |
| `JsonPrinters.PrintObject` | libsubtitle/utils/cJSON.c:730-869 | names and entries composed in a buffer of the counted length give the object's text, every write inside it |
| `JsonPrinters.PrintValue` | libsubtitle/utils/cJSON.c:494-553 | the string returned is the tree's text |
| `JsonPrinters.PrintThenParse` | libsubtitle/utils/cJSON.c:451-456 | the printer and the parser one after the other return the tree they were given |
| `PowersOfTwo.Pow2Gt` | libsubtitle/utils/cJSON.c:128-136 | for sizes up to 2^30 the result is a power of two, at least the argument, less than twice it, and at most 2^30 |
| `PowersOfTwo.Smear` | libsubtitle/utils/cJSON.c:128-136 | one shift-and-or doubles the run of set bits below the top bit and sets none above it |
| `PowersOfTwo.AllOnes` | libsubtitle/utils/cJSON.c:128-136 | a word with exactly its n low bits set is one less than the n-th power of two |
| `PowersOfTwo.LeastPower` | libsubtitle/utils/cJSON.c:128-136 | no smaller power of two is large enough |
| `JsonBuffers.PrintBuffer.constructor` | libsubtitle/utils/cJSON.c:458-465 | the buffer has the given capacity and the offset is 0 |
| `JsonBuffers.PrintBuffer.Ensure` | libsubtitle/utils/cJSON.c:144-163 | grants exactly the requested bytes behind the offset, moving to the least power of two only when it must and keeping all earlier bytes |
| `JsonBuffers.PrintBuffer.Write` | libsubtitle/utils/cJSON.c:144-163 | writing is possible only inside the granted space and leaves everything outside it unchanged |
| `JsonBuffers.PrintBuffer.Update` | libsubtitle/utils/cJSON.c:165-170 | the offset moves to the end of the text standing in the buffer |
| `JsonBuffers.PrintBuffer.PrintStringPtr` | libsubtitle/utils/cJSON.c:319-397 | the quoted string stands behind what stood there, inside the space asked for |
| `JsonBuffers.PrintBuffer.PrintArray` | libsubtitle/utils/cJSON.c:610-631 | the array's text stands behind what stood there, and the result points to its start |
| `JsonBuffers.PrintBuffer.PrintObject` | libsubtitle/utils/cJSON.c:754-805 | the object's text stands behind what stood there; formatted, the result points to its depth, because the loop for the closing tabs reuses the variable |
| `JsonBuffers.PrintBuffer.PrintValue` | libsubtitle/utils/cJSON.c:494-553 | the text of any tree stands behind what stood there, whatever growth it took |
| `JsonBuffers.PrintBuffered` | libsubtitle/utils/cJSON.c:458-465 | for every tree, format and positive first capacity the string returned is the text of the allocating printer |
| `JsonBuffers.PrintBothWays` | libsubtitle/utils/cJSON.c:451-465 | the strings of the two printers are equal byte for byte |
| `CompactJsons.ReadCaptionAll` | libsubtitle/utils/ClosedCaptionJson.c:131-176 | o_str_prop's four escapes are undone by parse_string for every NUL-free string |
| `CompactJsons.ParseCompact` | libsubtitle/utils/cJSON.c:469-491 | whatever the caption writer writes for a tree, the parser reads as that tree and stops behind it |
| `CaptionWriters.Output.constructor` | libsubtitle/utils/ClosedCaptionJson.c:65-76 | an empty text, the whole buffer left, no comma due, and the flash flag by the quarter second |
| `CaptionWriters.Output.Printf` | libsubtitle/utils/ClosedCaptionJson.c:78-88 | succeeds exactly when the text and its terminator fit, appends it, and otherwise keeps position, room and everything in front |
| `CaptionWriters.Output.PropBegin` | libsubtitle/utils/ClosedCaptionJson.c:90-97 | a comma if one is due, the key and the colon, exactly when all of it fits |
| `CaptionWriters.Output.Symbol` | libsubtitle/utils/ClosedCaptionJson.c:104-115 | an opening symbol takes the comma that is due and clears the flag, a closing one raises it |
| `CaptionWriters.Output.BoolProp` | libsubtitle/utils/ClosedCaptionJson.c:117-122 | appends the whole property exactly when it fits |
| `CaptionWriters.Output.IntProp` | libsubtitle/utils/ClosedCaptionJson.c:124-129 | appends the whole property exactly when it fits |
| `CaptionWriters.Output.StrProp` | libsubtitle/utils/ClosedCaptionJson.c:131-176 | appends key, quotes and the escaped value exactly when all of it fits |
| `CaptionPages.RunsHoldText` | libsubtitle/utils/ClosedCaptionJson.c:352-397 | whatever style changes cut a row, its runs together hold the UTF-8 of its characters from the first non-zero column to the next zero one |
| `CaptionPages.ShownDecodes` | libsubtitle/utils/ClosedCaptionJson.c:352-397 | reading those bytes as UTF-8 gives exactly the shown code points, with nothing left over |
| `CaptionPages.RunsAreOk` | libsubtitle/utils/ClosedCaptionJson.c:352-397 | every run has colours inside the colour map and text without a zero byte |
| `CaptionJsons.PutUc` | libsubtitle/utils/ClosedCaptionJson.c:47-63 | appends the UTF-8 of a character of the basic plane |
| `CaptionJsons.TextToJson` | libsubtitle/utils/ClosedCaptionJson.c:298-350 | with room, the pending text becomes the next run of the array with all its members; an empty one writes nothing |
| `CaptionJsons.RunProps` | libsubtitle/utils/ClosedCaptionJson.c:313-346 | with room, the seven members of a run in order; running out in the first two is reported as success |
| `CaptionJsons.RowToItems` | libsubtitle/utils/ClosedCaptionJson.c:361-390 | with room, the loop over the columns writes exactly the row's runs, counts its leading zeros and carries the style on |
| `CaptionJsons.RowToJson` | libsubtitle/utils/ClosedCaptionJson.c:352-397 | with room, the row becomes the next item of the rows, commas included; every run that has to be blanked fits the 64-byte array |
| `CaptionJsons.RowsToJson` | libsubtitle/utils/ClosedCaptionJson.c:436-440 | with room, all rows are written in order, the style running through them; the runs as cut there fit the array of blanks, or any do when the room runs out |
| `CaptionJsons.PageToJson` | libsubtitle/utils/ClosedCaptionJson.c:399-447 | in a buffer with room for it, the terminated text is exactly the text of the page's tree, which tells each character, its look and each row's start as the rows of CaptionStyles say |
| `CaptionJsons.ShortRowsFit` | libsubtitle/utils/ClosedCaptionJson.c:298-346 | rows of less than 64 bytes keep to the array of blanks however they are cut and in whatever style they begin |
| `CaptionReaders.StrCaseCmp` | libsubtitle/utils/cJSON.c:43-48 | equality of names, letter case aside |
| `CaptionReaders.SameKeyExactly` | libsubtitle/utils/cJSON.c:43-48 | two names are the same when they differ in the case of letters only |
| `CaptionReaders.GetObjectItem` | libsubtitle/utils/cJSON.c:885-889 | the first member of that name, or none |
| `CaptionReaders.LookupExactly` | libsubtitle/utils/cJSON.c:885-889 | a member is found if and only if there is one of that name, and it is the first |
| `CaptionReaders.CollectRow` | libsubtitle/utils/CCJsonParser.cpp:61-75 | appends the data of every item of the row's content, in order |
| `CaptionReaders.CollectWindow` | libsubtitle/utils/CCJsonParser.cpp:54-78 | appends the texts of every row, in order |
| `CaptionReaders.PopulateData` | libsubtitle/utils/CCJsonParser.cpp:32-81 | appends the texts of all windows with a mark between them, or fails on an empty text, a text that does not parse, or no windows |
| `CaptionReaders.WindowsJoin` | libsubtitle/utils/CCJsonParser.cpp:48-78 | between the texts of neighbouring windows stands one [NEXT], and none before the first or behind the last |
| `CaptionReaders.TwoWindows` | libsubtitle/utils/CCJsonParser.cpp:48-78 | of any two windows: the texts of the first, the mark, the texts of the second |
| `CaptionReaders.WindowData` | libsubtitle/utils/CCJsonParser.cpp:54-75 | a window of one row is read as exactly the data of its items |
| `CaptionRoundTrips.PageParses` | libsubtitle/utils/ClosedCaptionJson.c:399-447 | for every page the comma machine yields text that cJSON_Parse accepts, reading the page's own tree with nothing left over |
| `CaptionRoundTrips.PageData` | libsubtitle/utils/CCJsonParser.cpp:32-81 | from the page's tree the reader takes exactly the data of its rows, in order |
| `CaptionRoundTrips.RowSpells` | libsubtitle/utils/CCJsonParser.cpp:61-75 | the strings returned for a row spell its characters if and only if it is the bright half of the second or none of the shown characters other than spaces flashes |
| `CaptionRoundTrips.LostExactly` | libsubtitle/utils/ClosedCaptionJson.c:352-397 | in whatever style a row begins and wherever it is cut, its runs lose text exactly when a shown character other than a space flashes, or text pending in a flashing style is not blank |
| `CaptionRoundTrips.RowCharacters` | libsubtitle/utils/CCJsonParser.cpp:61-75 | the strings of a row that is spelled in full decode to exactly its code points |
| `CaptionRoundTrips.BrightRowSpells` | libsubtitle/utils/CCJsonParser.cpp:61-75 | in the bright half of the second every row is spelled in full |
| `CaptionRoundTrips.DarkLetter` | libsubtitle/utils/ClosedCaptionJson.c:339-346 | a flashing letter is read back as a space while it is dark |
| `CaptionRoundTrips.WriteAndRead` | libsubtitle/utils/CCJsonParser.cpp:32-81 | the page writer and the reader one after the other return exactly the page's row texts |
| `CaptionStyles.CharacterTold` | libsubtitle/utils/ClosedCaptionJson.c:298-397 | every shown character stands at its own place in the data of an item whose colours, opacities, underline and italics are its own cell's; a space whose background does not show may stand in any item |
| `CaptionStyles.NeighboursTold` | libsubtitle/utils/ClosedCaptionJson.c:352-386 | neighbours that look the same, or a hidden space and the character before it, stand in one item |
| `CaptionStyles.ItemsTellCells` | libsubtitle/utils/ClosedCaptionJson.c:298-350 | no item tells a look that is not some cell's, the blank style of the beginning aside |
| `CaptionStyles.ColorBits` | libsubtitle/utils/ClosedCaptionJson.c:202-209 | a colour is told by the upper two bits of red, green and blue at weights 16, 4 and 1, taken from its low, middle and high byte |
| `CaptionStyles.CellInRun` | libsubtitle/utils/ClosedCaptionJson.c:178-190 | the run that holds a character has its cell's foreground, background, opacity, underline, italic and flash |
| `CaptionStyles.RowStartTold` | libsubtitle/utils/ClosedCaptionJson.c:375-393 | row_start is the column of the first character, or the number of columns |
| `CaptionStyles.ShownStretch` | libsubtitle/utils/ClosedCaptionJson.c:375-387 | the characters shown are those of the first stretch of columns that are not empty |
| `CaptionStyles.WindowTold` | libsubtitle/utils/ClosedCaptionJson.c:399-433 | the page is of type cea608 with one window, filled solid for pages 5 to 8 and transparent for all others |
| `PresentationSafety.SortIsStable` | libsubtitle/subtitle/Presentation.cpp:98-100 | the queue after a new item is sorted by time, a permutation, and keeps the order of items of equal time |
| `PresentationSafety.DueExactly` | libsubtitle/subtitle/Presentation.cpp:658-674 | what the unsigned comparison decides for an item that is not immediate, in signed terms, for every 64-bit time |
| `PresentationSafety.NeverEarly` | libsubtitle/subtitle/Presentation.cpp:658-674 | an item whose time the 64-bit conversion can hold is never shown more than 33 ms before the clock reaches it |
| `PresentationSafety.EarlyExactly` | libsubtitle/subtitle/Presentation.cpp:545-728 | whatever the lists, and for clocks up to 292 years, a message shows an item early if and only if the front item it looks at waits for its time, has text, lies beyond the clock, passes the unsigned test by overflow, and the clock, being 0 or wider than 32 bits, does not cut it |
| `PresentationSafety.EarlyWitness` | libsubtitle/subtitle/Presentation.cpp:545-728 | one message: a caption six years ahead is taken in and shown at clock 0 |
| `PresentationSafety.PrepareEarly` | libsubtitle/subtitle/Presentation.cpp:641-672 | the corrections make no item early, and against a positive clock of 32 bits leave none early that passes the test |
| `PresentationSafety.RunEarly` | libsubtitle/subtitle/Presentation.cpp:545-794 | over every run, an item is shown early if and only if some message of the run finds such a front item |
| `PresentationSafety.NarrowNeverEarly` | libsubtitle/subtitle/Presentation.cpp:346-359 | while every clock is positive and fits 32 bits at 90 kHz, no item is ever shown early, whatever its time |
| `PresentationSafety.PrepareWords` | libsubtitle/subtitle/Presentation.cpp:641-672 | the corrections leave a non-negative 64-bit time on every item that is not immediate, of 32 bits against a positive clock of 32 bits |
| `PresentationSafety.ShowKeeps` | libsubtitle/subtitle/Presentation.cpp:674-712 | showing keeps the safety invariant: the earlier item is taken down and the new one waits to fade |
| `PresentationSafety.PresentKeeps` | libsubtitle/subtitle/Presentation.cpp:605-728 | so do throwing out, correcting and deciding about the front item |
| `PresentationSafety.StepKeeps` | libsubtitle/subtitle/Presentation.cpp:545-794 | so does every message |
| `PresentationSafety.RunSafe` | libsubtitle/subtitle/Presentation.cpp:545-794 | over every run of messages at most one item fades, it was handed to the renderer first, whatever is on screen is that item, and every item shown was immediate or due, in real nanoseconds wherever the conversion holds its time or the clock is positive and of 32 bits |
| `PresentationSafety.OneOnScreen` | libsubtitle/subtitle/Presentation.cpp:545-794 | after any run at most one item is on screen, and it is the one the fading list can take down |
| `PresentationSafety.StepAccount` | libsubtitle/subtitle/Presentation.cpp:545-794 | no message queues or shows an item more often than it came in |
| `PresentationSafety.ShownOnce` | libsubtitle/subtitle/Presentation.cpp:545-794 | over every run an item that came in once is never shown twice, nor shown and still queued |
| `PresentationProgress.TooFarExactly` | libsubtitle/subtitle/Presentation.cpp:622-633 | thrown out is exactly an item that is not immediate, 600000 ms or more ahead of the clock, and not one of more than 32 bits against a clock of no more |
| `PresentationProgress.ThrowExactly` | libsubtitle/subtitle/Presentation.cpp:622-640 | throwing out filters the whole queue and keeps its order |
| `PresentationProgress.SkipExactly` | libsubtitle/subtitle/Presentation.cpp:611-620 | exactly the leading external items whose end the clock has reached leave |
| `PresentationProgress.ItemKept` | libsubtitle/subtitle/Presentation.cpp:545-783 | whatever the lists, a message keeps every item of the queue it looks at that may wait: it stays queued, is handed to the renderer or is combined with one that is, the first of them aside when the front misfires |
| `PresentationProgress.MisfireLoses` | libsubtitle/subtitle/Presentation.cpp:605-690 | a front that was just thrown out and whose overflowed time passes the test takes the first item that may wait off the queue with it, unshown |
| `PresentationProgress.MisfireOverflows` | libsubtitle/subtitle/Presentation.cpp:79-81 | it does so only if the 64-bit conversion does not hold its time |
| `PresentationProgress.MisfireWitness` | libsubtitle/subtitle/Presentation.cpp:545-783 | two messages: a caption six years ahead waits at clock 0, and fourteen hours later an immediate item is lost behind it |
| `PresentationProgress.FarGone` | libsubtitle/subtitle/Presentation.cpp:622-640 | an item that may not wait is not in the queue after the message |
| `PresentationProgress.EmptiedEnds` | libsubtitle/subtitle/Presentation.cpp:634-640 | a message that finds items and none that may wait empties the queue and leaves the fading item alone; every other looks at it last |
| `PresentationProgress.FrontShown` | libsubtitle/subtitle/Presentation.cpp:621-712 | a front item that is immediate or at most 33 ms ahead is handed over by the message that finds it, with its own text and below it that of the next item that may wait, exactly if the front is plain text and both have one time; without text it is hidden |
| `PresentationProgress.SettleExactly` | libsubtitle/subtitle/Presentation.cpp:558-572 | a new item keeps its time if it is external or less than 200 s from the clock; any other starts a second from now and ends two seconds later |
| `PresentationProgress.ArriveExactly` | libsubtitle/subtitle/Presentation.cpp:591-603 | a new item joins unless the clock is 0, it has a time and is no caption, the queue in order of time; at 41472000 bytes the earlier half goes |
| `PresentationProgress.TotalExactly` | libsubtitle/subtitle/Presentation.cpp:87-95 | the queued memory is the sum of the items' sizes |
| `PresentationProgress.PrepareExactly` | libsubtitle/subtitle/Presentation.cpp:641-672 | no time becomes the clock's and two seconds, 32 bits are kept of a wider time against a positive clock of 32 bits, and a missing end is four seconds behind the start |
| `PresentationProgress.FadingExactly` | libsubtitle/subtitle/Presentation.cpp:698-706 | an immediate item fades four seconds from now, any other at its own end if that is a second or more behind its start, or else five seconds behind it |
| `PresentationProgress.FadeExactly` | libsubtitle/subtitle/Presentation.cpp:730-780 | the fading item is hidden, if it is not to be kept, exactly when the clock is not 0 and has reached its end, or the end is more than 100 s ahead, 5 s for an external item |
| `Presentations.Presentation.SyncCurrentPresentTime` | libsubtitle/subtitle/Presentation.cpp:224-241 | a 33-bit mark of ones makes the clock invalid, unless the time is narrowed first: then every time is accepted and the clock stays below 13.3 hours; otherwise the clock is the time in whole nanoseconds, the 64-bit product taken |
| `Presentations.Presentation.HandleMessage` | libsubtitle/subtitle/Presentation.cpp:455-464 | without a clock nothing happens; a reset empties both lists; otherwise, for every start stamp, lists, times and renderer calls change exactly as the step on values does, whose limits in milliseconds are those of the rows of PresentationProgress |
| `Presentations.Presentation.CheckShowing` | libsubtitle/subtitle/Presentation.cpp:545-783 | one check with or without a new item, including the early return that skips fading |
| `Presentations.Presentation.TakeIn` | libsubtitle/subtitle/Presentation.cpp:558-603 | a far-off time is settled, the item sorted in if admitted, and the older half dropped when memory runs short |
| `Presentations.Presentation.DropExpired` | libsubtitle/subtitle/Presentation.cpp:611-620 | exactly the leading external items whose time is over leave the queue |
| `Presentations.Presentation.PresentSpu` | libsubtitle/subtitle/Presentation.cpp:621-728 | the ten-minute rule, corrections and decision as on values, with the limits of the rows above; the branch that discards a late item is unreachable |
| `Presentations.Presentation.ShowSpu` | libsubtitle/subtitle/Presentation.cpp:674-712 | the item, combined with a second of the same time if both are text, is handed over and replaces what was fading |
| `Presentations.Presentation.FadeSpu` | libsubtitle/subtitle/Presentation.cpp:730-780 | the fading item is hidden exactly when its time is over or too far off |
| `DemuxTables.StepKeeps` | libsubtitle/io/DemuxDriver.c:253-405 | every operation keeps enabled filters in use, and keeps the coupling of used filters and descriptor slots except when a closed device is opened over filters still in use |
| `DemuxTables.LastClose` | libsubtitle/io/DemuxDriver.c:343-367 | a device open more than once stays as it is; after the last close every filter in use is disabled and out of use, but for those that were running and could not be stopped, so none is in use if every stop succeeded |
| `DemuxTables.AllocateTakes` | libsubtitle/io/DemuxDriver.c:376-405 | the lowest unused filter comes into use and holds the descriptor in its slot, every other filter and slot kept; with none left, no descriptor or a closed device nothing changes and the right error is returned |
| `DemuxTables.FreeFrees` | libsubtitle/io/DemuxDriver.c:491-506 | an allocated filter that was not running or whose stop succeeded is no longer in use nor enabled, its descriptor closed and its slot -1; one whose stop failed stays in use, disabled, with descriptor and slot; all others stay, and any other handle gets its own error |
| `DemuxTables.FreedIsFree` | libsubtitle/io/DemuxDriver.c:376-405 | the next allocation gives out the freed number or a lower one |
| `DemuxTables.StartEnables` | libsubtitle/io/DemuxDriver.c:515-536 | an allocated filter is enabled afterwards exactly if it was or the driver started it, nothing else changing |
| `DemuxTables.StopDisables` | libsubtitle/io/DemuxDriver.c:545-562 | an allocated filter is disabled afterwards, whatever the driver says, nothing else changing |
| `DemuxTables.OpenCounts` | libsubtitle/io/DemuxDriver.c:288-335 | an open device is only counted; a closed one gets 32 slots of -1 and is open once if its thread starts |
| `DemuxTables.RunCounts` | libsubtitle/io/DemuxDriver.c:288-367 | over every run the device is open as often as it was opened and not closed again |
| `DemuxTables.RunAccounts` | libsubtitle/io/Demux.c:133-158 | over every run each descriptor opened was closed once or belongs to a filter in use |
| `DemuxTables.RunCoupled` | libsubtitle/io/DemuxDriver.c:288-405 | over every run, filters in use are exactly the descriptors held while the device is open if and only if it is never opened over filters that a close left in use |
| `DemuxTables.RunEnabledUsed` | libsubtitle/io/DemuxDriver.c:253-562 | over every run an enabled filter is in use |
| `DemuxTables.LeftOver` | libsubtitle/io/DemuxDriver.c:253-275 | open, allocate, start, close with a failing stop, open again: a filter in use without a descriptor |
| `DemuxTables.DemuxDevice.Open` | libsubtitle/io/DemuxDriver.c:288-335 | counts, or allocates slots that are all -1 and starts the device, on failures too |
| `DemuxTables.DemuxDevice.Close` | libsubtitle/io/DemuxDriver.c:343-367 | counts down, the last close freeing every filter in turn and the driver's slots |
| `DemuxTables.DemuxDevice.StopOne` | libsubtitle/io/DemuxDriver.c:253-259 | a filter counts as disabled even when stopping it failed, because error codes are positive |
| `DemuxTables.DemuxDevice.FreeOne` | libsubtitle/io/DemuxDriver.c:262-275 | a filter is given up and its slot cleared only when stopping succeeded |
| `DemuxTables.DemuxDevice.AllocateFilter` | libsubtitle/io/Demux.c:133-149 | the first unused filter gets the descriptor in its slot, or nothing changes |
| `DemuxTables.DemuxDevice.FreeFilter` | libsubtitle/io/DemuxDriver.c:491-506 | frees an allocated handle, with the right error for any other |
| `DemuxTables.DemuxDevice.StartFilter` | libsubtitle/io/DemuxDriver.c:515-536 | an allocated handle is enabled exactly when the driver starts it |
| `DemuxTables.DemuxDevice.StopFilter` | libsubtitle/io/DemuxDriver.c:545-562 | an allocated handle is disabled, with the right error for any other |
| `EventTables.SubscribeIsInsert` | libsubtitle/utils/AmlogicEvent.c:102-153 | subscribing inserts the key with its data unless it is there already; every other key keeps its data |
| `EventTables.UnsubscribeIsRemove` | libsubtitle/utils/AmlogicEvent.c:164-197 | unsubscribing removes the key when its data matches and changes nothing else |
| `EventTables.SubscribeKeeps` | libsubtitle/utils/AmlogicEvent.c:102-153 | every entry stays in the bucket of its type, and no key occurs twice |
| `EventTables.UnsubscribeKeeps` | libsubtitle/utils/AmlogicEvent.c:164-197 | so it is after unsubscribing |
| `EventTables.SignalCalls` | libsubtitle/utils/AmlogicEvent.c:204-227 | a signal calls each matching subscription exactly once, with the data registered for it, and no other |
| `EventTables.RunRefines` | libsubtitle/utils/AmlogicEvent.c:102-197 | over every run the table stands for the map the same operations build |
| `EventTables.RunPlaces` | libsubtitle/utils/AmlogicEvent.c:102-170 | over every run there are fifty buckets and an entry lies in the one its type leaves modulo 50 |
| `EventTables.EventTable.Subscribe` | libsubtitle/utils/AmlogicEvent.c:102-153 | the linked buckets change as the table on values does, and a node is added exactly when the key was new |
| `EventTables.EventTable.Unsubscribe` | libsubtitle/utils/AmlogicEvent.c:164-197 | exactly the matching node is unlinked, and the result says whether there was one |
| `EventTables.EventTable.Signal` | libsubtitle/utils/AmlogicEvent.c:204-227 | the list walk calls the entries of the bucket that match, in list order |
| `BPrints.PrintBuf.constructor` | libsubtitle/utils/bprint.c:153-167 | an empty terminated text, with the requested size, or the maximum, when memory allows |
| `BPrints.PrintBuf.Alloc` | libsubtitle/utils/bprint.c:120-142 | grows exactly when the buffer is not at its maximum, not truncated and memory is there, to twice its size or what is needed, whichever is more, up to the maximum; the text is kept |
| `BPrints.PrintBuf.Vsnprintf` | libsubtitle/utils/bprint.c:185-190 | the buffer holds the longest prefix of text and addition that fits, terminated |
| `BPrints.PrintBuf.Printf` | libsubtitle/utils/bprint.c:179-200 | the length becomes the total length requested, the buffer holds the longest prefix of it that fits, terminated, the size stays within its maximum, and the loop ends |
| `BPrints.PrintBuf.CompleteExactly` | libsubtitle/utils/bprint.h:168-171 | the length is below the size exactly when the stored string is everything printed |
| `Bytes.LERoundTrip` | client/SubtitleReportAPI.cpp:86-99 | reading an n-byte little-endian word back gives the number modulo 256^n |
| `Bytes.BERoundTrip` | client/SubtitleReportAPI.cpp:423-444 | reading an n-byte big-endian word back gives the number modulo 256^n |
| `PresentationSafety.ClockRoundTrip` | libsubtitle/subtitle/Presentation.cpp:79-85 | converting the clock to 90 kHz and back loses exactly the part below a millisecond, for clocks up to three years |
| `PresentationSafety.ClockOverflow` | libsubtitle/subtitle/Presentation.cpp:79-85 | a clock beyond that comes back more than six years too small |
| `PresentationSafety.NoPtsIsDue` | libsubtitle/subtitle/Presentation.cpp:645-674 | an item that comes without a time is due as soon as it is looked at, if and only if it is immediate or the clock, converted to 90 kHz and back, is not negative, as for every clock up to three years |
| `PresentationSafety.SettledNearby` | libsubtitle/subtitle/Presentation.cpp:558-572 | a new item 200 seconds or more from the clock, if it is not external, is brought closer if and only if the clock one second later survives the conversion to 90 kHz and back, as up to three years |
| `PresentationSafety.FadedExactly` | libsubtitle/subtitle/Presentation.cpp:730-780 | what the unsigned fading test decides, in signed terms: while the clock is not 0, an item fades once its end is reached or while it lies too far ahead |

## Left out

- FmqReceivers.FmqReceiver.Receive: a listener is attached and no stop is requested; frames of negative size drop their header (-20 to -5), wait for ever (below -20) or have no defined outcome (-4 to -1).
- SocketServers.SocketConnection.ProcessData: a broken connection and an empty client list are not modelled, and a header that was never filled in has no defined outcome.
- SocketServers.FrameDelivered: one frame at a time, because the reset behind a delivery discards whatever else the same recv brought.
- DataSources.ExternalDataSource.OnData: a fixed-size report carries its field; the source reads past a shorter one.
- DataSources.ReadL: a pushed buffer is a value that belongs to the queue or to the reader, so sharing one item between two readers is not captured.
- DataSources.ExternalDataSource.AvailableDataSize: nothing is said after notifyExit, which zeroes the count while items remain.
- DataSources.ExternalDataSource.Read: after a stop and a start, only calls for which enough arrives come back.
- AssParsers.AssParser.GetSpu: splitting the fields of an SSA or ASS event is not modelled; DVD packets are followed only up to the rest length they leave, which makes the next call read a buffer that is never set; a MOV_TEXT payload below two bytes has no defined outcome.
- SubtitleReports.SubtitleReport.SendData: the reset, stop, language and type-string senders are not modelled; the last one sends a length that differs from its header.
- Userdatas.Userdata.AddCCData: a packet with its stamp fits the 5 KB buffer that aml_write_userdata copies through, and picture order counts are unbounded integers.
- Userdatas.Userdata.H264UserdataPackage: the MPEG drain loop, which unlinks nodes without counting them, and the SCTE-20 bit loop are not modelled.
- Json.ParseNumber: fractions, exponents and integers above 2^53 count as not parsed, and so do escapes with bad hexadecimal digits or cut off by the end of the text, where the source reads on.
- JsonParsers.ParseValueAt: nodes are values, so the child, next and prev links, reference items and deletion are not captured.
- JsonBuffers.PrintBuffered: texts up to 2^30 bytes less the 21 a number asks for, because beyond that pow2gt leaves the int range.
- CaptionJsons.TextToJson: when the room runs out in the first two properties the source reports success and goes on; what the text then looks like is not specified.
- CaptionJsons.PageToJson: every run that is blanked in the dark half is shorter than the 64-byte array of blanks, which the source writes past otherwise; if the text does not fit its buffer, a row may begin in another style, and the runs are to fit for any; the writers for digital captions (`dtvcc_*`) are not modelled.
- CaptionReaders.PopulateData: a data member that is not a string has no text, so the source would read a null pointer; such texts are excluded.
- Presentations.Presentation.CheckShowing: an AML_SPUVAR is a value with a serial number, so sharing one through two pointers is not captured; delayed messages, the 32-bit flag that narrows the next clock value, and renderer resets on a clock of 0 are not modelled; the front of an empty list is a null pointer.
- Presentations.Presentation.ShowSpu: two texts are combined as strings; buffers shorter than their text are not modelled.
- PresentationSafety.RunSafe: clocks are non-negative and leave a second below the 64-bit limit, 292 years; the step itself is modelled for every clock.
- Presentation of external subtitles (`handleExtSub`, `computeShowingSpuList`), which does not meet a clean specification on overlapping cues.
- DemuxTables.DemuxDevice.Close: the data thread, polling, callbacks, setting of section and PES filters and the other devices of the table are not modelled.
- DemuxTables.DemuxDevice.StartFilter: on an open device only for an allocated handle, because the source looks at the filter before it looks at the error.
- EventTables.EventTable.Signal: callbacks are recorded, not run, and locks and concurrent calls are not modelled; event types are non-negative.
- BPrints.PrintBuf.Printf: only below the bound where the length saturates, since the bound depends on whether UINT_MAX is in scope.
- Client wrappers, session dispatch, command strings, UI, renderers, binder and shared memory: plumbing or foreign code.
- `BlockChannel`, `EventsTracker`, `Watchdog`, signal handling and memory-leak dumping: nothing of theirs is needed by the properties here.
