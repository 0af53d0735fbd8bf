# aTalk media and XMPP core, modelled in Dafny

This project models a part of aTalk, an XMPP and Jingle client whose
media stack comes from Jitsi's libjitsi. The part covered is:

- **RtpOutput** (`rtp_connector_output_stream.dfy`): the outbound RTP
  connector stream. It frames the bytes written to it as raw packets and
  sends each packet to every registered target. The send stops at the
  first target that refuses. The stream can also hand the buffers to a
  sender thread through a bounded queue that drops its oldest buffer when
  full. That thread paces packets to a maximum number per interval and
  counts dropped packets. The stream and the queue are classes whose
  methods update their fields. Sockets and the rate tracker are oracle
  parameters, recorded in ghost logs.
- **RtcpStatistics** (`statistics_engine.dfy`): the RTCP half of the
  statistics engine. It walks a compound RTCP packet and builds one
  extended report (XR) with VoIP-metrics blocks per sender or receiver
  report. It splices each XR into the packet's byte array in place, at
  the first BYE that ends the compound packet. It also packs the burst
  metrics into 64 bits. It keeps per-SSRC counters that wrap as Java
  longs, and the minimum and maximum of the reported jitter.
- **ChatRoomProvider** (`chat_room_provider_wrapper.dfy`): the chat-room
  provider wrapper. It keeps a list of room wrappers and an array of
  user-defined key/value pairs.
- **JingleSession** (`jingle_session.dfy`): the Jingle session state
  machine (fresh, pending, active, ended). It holds proposed and active
  contents keyed by name, and handles session-accept, session-terminate,
  content-accept and content-reject.
- **XMPP parsers and serialisers**:
  - the identity extension of Jitsi Meet (`identity_extension.dfy`);
  - user-avatar metadata as in section 4.2 of XEP-0084
    (`avatar_metadata.dfy`);
  - user search as in XEP-0055 with XEP-0004 reported data
    (`user_search.dfy`);
  - the health-check IQ (`health_check.dfy`);
  - the conference-info disconnection type (`disconnection_type.dfy`).

Shared modules:

- `wrappers.dfy`: Option, Result and Outcome.
- `java_values.dfy`: Java int and long wrap-around, and `Integer.parseInt`.
- `xml_events.dfy`: the XML pull parser. A document is a sequence of
  events (start tag with its namespace and attributes, end tag, text).
  The parser's position is an index into that sequence. `next()` and
  `nextText()` are functions on it that fail with a parser error past
  the end.

Java `null` is `None`. A thrown exception is a `Failure` or `Fail`
carrying the exception's kind.

## Model

| member | source | states |
|---|---|---|
| RtpOutput.Offer | aTalk/src/main/java/org/atalk/impl/neomedia/RTPConnectorOutputStream.java:156 | Offering to a bounded free-list appends the element exactly when there is room and otherwise leaves the list unchanged; a list within its capacity stays within it |
| RtpOutput.OfferAll | aTalk/src/main/java/org/atalk/impl/neomedia/RTPConnectorOutputStream.java:508-524 | Offering the packets of a batch one by one never takes a free-list over its capacity |
| RtpOutput.PacketQueueCapacity | aTalk/src/main/java/org/atalk/impl/neomedia/RTPConnectorOutputStream.java:104-112 | The configured value when non-negative; when it is unset or -1, the legacy property's value if that is non-negative, else 1024; any other negative configured value gives 1024 |
| RtpOutput.WarningsUpToClosedForm | aTalk/src/main/java/org/atalk/impl/neomedia/RTPConnectorOutputStream.java:124-129 | The drop-warning predicate fires at drop 1, every hundredth drop up to 1000, then every thousandth: exactly 1 + n/100 warnings up to n <= 1000 and 10 + n/1000 beyond |
| RtpOutput.DeliveredIsFailFast | aTalk/src/main/java/org/atalk/impl/neomedia/RTPConnectorOutputStream.java:331-341 | The targets reached by one packet are the longest prefix of the target list that accepts it; the next target, if any, refused it; all are reached iff all accept |
| RtpOutput.SentCountIsFirstFailure | aTalk/src/main/java/org/atalk/impl/neomedia/RTPConnectorOutputStream.java:505-516 | A batch walks its packets up to the first one that does not reach every target (none when the socket is invalid) and sends nothing after it |
| RtpOutput.SendBatchSucceedsIffAllSent | aTalk/src/main/java/org/atalk/impl/neomedia/RTPConnectorOutputStream.java:498-527 | A batch of packets succeeds iff every packet reached every target |
| RtpOutput.SendBatchPoolIsOfferAll | aTalk/src/main/java/org/atalk/impl/neomedia/RTPConnectorOutputStream.java:508-524 | Every packet of a batch, sent, failed or skipped, is offered to the packet pool exactly once, in order |
| RtpOutput.SendBatchRate | aTalk/src/main/java/org/atalk/impl/neomedia/RTPConnectorOutputStream.java:517-518 | The rate tracker is updated exactly for the leading packets that were sent |
| RtpOutput.SendBatchPackets | aTalk/src/main/java/org/atalk/impl/neomedia/RTPConnectorOutputStream.java:325-330 | The packet counter rises by the sent packets plus the one that failed, and not at all on an invalid socket |
| RtpOutput.SendBatchLog | aTalk/src/main/java/org/atalk/impl/neomedia/RTPConnectorOutputStream.java:330-341 | The transmission log gains the sent packets plus the failed one, each with the targets it reached; nothing on an invalid socket |
| RtpOutput.PaceCheck | aTalk/src/main/java/org/atalk/impl/neomedia/RTPConnectorOutputStream.java:710-721 | Inactive pacing changes nothing; an elapsed interval restarts at now with a zero counter and no park; within the interval the state is unchanged, and it parks, for the time elapsed since the interval began, iff the counter has reached maxBuffers |
| RtpOutput.PacingAsWrittenOverruns | aTalk/src/main/java/org/atalk/impl/neomedia/RTPConnectorOutputStream.java:710-721 | As written, a backlog of three buffers at one per 100 ns is handed on within one interval: the limit is exceeded |
| RtpOutput.PaceCorrected | aTalk/src/main/java/org/atalk/impl/neomedia/RTPConnectorOutputStream.java:710-721 | The corrected pacing hands a buffer on no earlier than now, or at the end of the full interval |
| RtpOutput.PaceCorrectedKeepsLimit | aTalk/src/main/java/org/atalk/impl/neomedia/RTPConnectorOutputStream.java:710-721 | Parking for the remaining time keeps every interval at or below maxBuffers buffers, and the state stays within the limit for the next buffer |
| RtpOutput.SendQueue.constructor | aTalk/src/main/java/org/atalk/impl/neomedia/RTPConnectorOutputStream.java:551-577 | A new queue is empty, with an empty slot pool and pacing off (-1, -1, interval start 0, counter 0) |
| RtpOutput.SendQueue.SetMaxPacketsPerMillis | aTalk/src/main/java/org/atalk/impl/neomedia/RTPConnectorOutputStream.java:736-750 | maxPackets < 1 disables pacing (-1, -1); otherwise perMillis < 1 throws IllegalArgumentException and changes nothing, else sets maxBuffers and perNanos = perMillis * 1000000 |
| RtpOutput.SendQueue.GetBuffer | aTalk/src/main/java/org/atalk/impl/neomedia/RTPConnectorOutputStream.java:755-763 | Takes the head of the slot pool, or a new slot when empty; the result holds at least len bytes and its array is replaced only when too short |
| RtpOutput.SendQueue.PushDroppingOldest | aTalk/src/main/java/org/atalk/impl/neomedia/RTPConnectorOutputStream.java:634-652 | When full, exactly the head is removed and offered to the slot pool; the new buffer is appended at the tail, so the size never exceeds the capacity |
| RtpOutput.SendQueue.Pace | aTalk/src/main/java/org/atalk/impl/neomedia/RTPConnectorOutputStream.java:710-721 | The pacing fields become those of PaceCheck and a park is logged exactly when PaceCheck parks |
| RtpOutput.OutputStream.constructor | aTalk/src/main/java/org/atalk/impl/neomedia/RTPConnectorOutputStream.java:135-189 | A new stream is enabled, open, with no targets, empty pools, zero counters and a queue exactly when the send thread is used |
| RtpOutput.OutputStream.Create | aTalk/src/main/java/org/atalk/impl/neomedia/RTPConnectorOutputStream.java:150-189 | A pool capacity below 1, or a queue capacity below 1 when the send thread is used, is an IllegalArgumentException; otherwise a new stream in its initial state with those capacities |
| RtpOutput.OutputStream.AddTarget | aTalk/src/main/java/org/atalk/impl/neomedia/RTPConnectorOutputStream.java:197-203 | A port outside 0..65535 is an IllegalArgumentException and leaves the targets unchanged; otherwise the target is added only if it is not already present, so the list has no duplicates |
| RtpOutput.OutputStream.RemoveTarget | aTalk/src/main/java/org/atalk/impl/neomedia/RTPConnectorOutputStream.java:291-302 | Removes the first target with that address and port and returns true; returns false with the list unchanged when there is none |
| RtpOutput.OutputStream.RemoveTargets | aTalk/src/main/java/org/atalk/impl/neomedia/RTPConnectorOutputStream.java:307-310 | The target list becomes empty |
| RtpOutput.OutputStream.Close | aTalk/src/main/java/org/atalk/impl/neomedia/RTPConnectorOutputStream.java:208-214 | Marks the stream closed and empties the target list the first time; a second close changes nothing |
| RtpOutput.OutputStream.SetEnabled | aTalk/src/main/java/org/atalk/impl/neomedia/RTPConnectorOutputStream.java:365-371 | The enabled flag takes the given value |
| RtpOutput.OutputStream.SetMaxPacketsPerMillis | aTalk/src/main/java/org/atalk/impl/neomedia/RTPConnectorOutputStream.java:382-391 | Without a queue returns false and changes nothing; with one, configures it as the queue's method does and returns true unless that throws |
| RtpOutput.OutputStream.Packetize | aTalk/src/main/java/org/atalk/impl/neomedia/RTPConnectorOutputStream.java:234-265 | One packet with offset 0, length len, flags 0 and a copy of buf[off..off+len]; the pooled packet and its array are reused when long enough |
| RtpOutput.OutputStream.Send | aTalk/src/main/java/org/atalk/impl/neomedia/RTPConnectorOutputStream.java:323-344 | Succeeds iff the socket is valid and every target accepts; the packet is offered to the pool exactly once on every path; the counter rises only past the socket check |
| RtpOutput.OutputStream.BatchStep | aTalk/src/main/java/org/atalk/impl/neomedia/RTPConnectorOutputStream.java:508-524 | One packet of a batch: sent while the batch has not failed, offered to the pool unsent after the first failure; the rate tracker sees only sent packets |
| RtpOutput.OutputStream.WritePackets | aTalk/src/main/java/org/atalk/impl/neomedia/RTPConnectorOutputStream.java:498-527 | false when closed, true for a null batch, otherwise the pool, counters, rate tracker and log change as SendBatch describes for the non-null packets |
| RtpOutput.OutputStream.BatchElement | aTalk/src/main/java/org/atalk/impl/neomedia/RTPConnectorOutputStream.java:508-524 | A null element is skipped; a packet extends the batch state as SendBatch describes |
| RtpOutput.OutputStream.SyncWrite | aTalk/src/main/java/org/atalk/impl/neomedia/RTPConnectorOutputStream.java:429-456 | Frames the bytes into one packet and sends it: len iff it reached every target on a valid socket of an open stream, -1 otherwise; the packet goes back to the pool unless the stream is closed; the counter and log grow only past the socket check of an open stream; the rate tracker only on success |
| RtpOutput.OutputStream.QueueWrite | aTalk/src/main/java/org/atalk/impl/neomedia/RTPConnectorOutputStream.java:623-654 | Nothing once closed, whatever the offset and length; otherwise a slot holding a copy of the bytes, len and context is appended (its array the pooled one when long enough, else exactly len bytes), the head dropped, pooled and counted first when full |
| RtpOutput.OutputStream.CountDroppedPacket | aTalk/src/main/java/org/atalk/impl/neomedia/RTPConnectorOutputStream.java:642-645 | The drop counter rises by one as a Java int, and a warning is logged exactly when the warning predicate holds for the new count |
| RtpOutput.OutputStream.Write | aTalk/src/main/java/org/atalk/impl/neomedia/RTPConnectorOutputStream.java:414-490 | Always returns len; while disabled nothing changes, for any offset and length; with a send thread the write is queued exactly as QueueWrite states and nothing is sent; without one it is framed and sent exactly as SyncWrite states |
| RtpOutput.OutputStream.SendThreadStep | aTalk/src/main/java/org/atalk/impl/neomedia/RTPConnectorOutputStream.java:676-733 | Once closed, clears the queue and stops; on an empty queue nothing changes; otherwise the head buffer is dequeued and offered back to the slot pool; if framing throws nothing else changes; else the pacing check runs, the framed packet is sent as write(pkts) sends it, and the interval counter rises by exactly one once the write returns |
| RtpOutput.OutputStream.FrameAndSend | aTalk/src/main/java/org/atalk/impl/neomedia/RTPConnectorOutputStream.java:694-727 | One dequeued buffer is framed into a packet holding its bytes, returned to the buffer free-list, run through the pacing check (resetting the interval when elapsed, parking when it is full), the packet sent exactly as a one-packet write, and the buffer then counted in the interval; the queue itself is untouched |
| RtcpStatistics.ReadInt | aTalk/src/main/java/org/atalk/impl/neomedia/transform/rtcp/StatisticsEngine.java:304 | Four bytes read big-endian as a Java int |
| RtcpStatistics.GetLengthIfRtcp | aTalk/src/main/java/org/atalk/impl/neomedia/transform/rtcp/StatisticsEngine.java:104-114 | The RTCP length only when the offset is non-negative, the bytes are RTCP and that length fits in len; -1 otherwise |
| RtcpStatistics.CountFieldIsLowBits | aTalk/src/main/java/org/atalk/impl/neomedia/transform/rtcp/StatisticsEngine.java:287 | The report or source count is the first byte's low five bits |
| RtcpStatistics.InsertionPointIsBoundary | aTalk/src/main/java/org/atalk/impl/neomedia/transform/rtcp/StatisticsEngine.java:192-223 | The insertion offset lies on an RTCP packet boundary no later than the end, after whole packets that are not a short BYE or a BYE listing the XR's SSRC, and at the first non-RTCP bytes or such a BYE |
| RtcpStatistics.InsertReportShape | aTalk/src/main/java/org/atalk/impl/neomedia/transform/rtcp/StatisticsEngine.java:225-258 | With a full assemble the packet grows by exactly calcLength bytes: the prefix unchanged, the XR's bytes, then the tail shifted right unchanged |
| RtcpStatistics.RawPacket.Grow | aTalk/src/main/java/org/atalk/impl/neomedia/transform/rtcp/StatisticsEngine.java:230-237 | The contents are unchanged and at least howMuch more bytes fit after them |
| RtcpStatistics.ArrayCopy | aTalk/src/main/java/org/atalk/impl/neomedia/transform/rtcp/StatisticsEngine.java:238-241 | Copies n elements as if through a temporary array, so overlapping ranges work; nothing else in the target changes |
| RtcpStatistics.StopsHere | aTalk/src/main/java/org/atalk/impl/neomedia/transform/rtcp/StatisticsEngine.java:197-218 | A packet stops the walk iff it is a BYE too short for its source count or one listing the SSRC |
| RtcpStatistics.FindInsertionPoint | aTalk/src/main/java/org/atalk/impl/neomedia/transform/rtcp/StatisticsEngine.java:184-223 | The scan loop finds the insertion point InsertionPoint specifies |
| RtcpStatistics.AddRtcpExtendedReport | aTalk/src/main/java/org/atalk/impl/neomedia/transform/rtcp/StatisticsEngine.java:184-258 | Reports true iff assemble wrote exactly calcLength bytes; the packet becomes the XR inserted at the insertion point, or stays unchanged |
| RtcpStatistics.ShiftRight | aTalk/src/main/java/org/atalk/impl/neomedia/transform/rtcp/StatisticsEngine.java:239-241 | Moves a range right by gap bytes; bytes before it stay |
| RtcpStatistics.ShiftLeft | aTalk/src/main/java/org/atalk/impl/neomedia/transform/rtcp/StatisticsEngine.java:253-256 | Moves a range back left by gap bytes; bytes before it stay |
| RtcpStatistics.OpenGap | aTalk/src/main/java/org/atalk/impl/neomedia/transform/rtcp/StatisticsEngine.java:227-241 | Grows the packet and opens a gap of the XR's length at the insertion point, moving the tail right |
| RtcpStatistics.ShiftTail | aTalk/src/main/java/org/atalk/impl/neomedia/transform/rtcp/StatisticsEngine.java:239-241 | Moves the tail from the insertion point right by gap within the array |
| RtcpStatistics.FillGap | aTalk/src/main/java/org/atalk/impl/neomedia/transform/rtcp/StatisticsEngine.java:244-247 | Writes the assembled bytes into the gap; the bytes around it stay |
| RtcpStatistics.WriteRange | aTalk/src/main/java/org/atalk/impl/neomedia/transform/rtcp/StatisticsEngine.java:244-247 | Writes n bytes at pos; every other byte stays |
| RtcpStatistics.CloseGap | aTalk/src/main/java/org/atalk/impl/neomedia/transform/rtcp/StatisticsEngine.java:253-256 | Moving the tail back restores the original contents |
| RtcpStatistics.CommitGap | aTalk/src/main/java/org/atalk/impl/neomedia/transform/rtcp/StatisticsEngine.java:250-251 | Extending the length over a filled gap gives prefix, XR bytes, tail |
| RtcpStatistics.InsertAt | aTalk/src/main/java/org/atalk/impl/neomedia/transform/rtcp/StatisticsEngine.java:227-258 | The packet gains exactly the assembled bytes at k when they have calcLength bytes, and is unchanged otherwise |
| RtcpStatistics.SettleGap | aTalk/src/main/java/org/atalk/impl/neomedia/transform/rtcp/StatisticsEngine.java:247-256 | Keeps the gap iff it was filled exactly, otherwise closes it again |
| RtcpStatistics.BlocksNonEmptyIff | aTalk/src/main/java/org/atalk/impl/neomedia/transform/rtcp/StatisticsEngine.java:355-362 | Some block is collected iff some listed source has one |
| RtcpStatistics.ReportForSpec | aTalk/src/main/java/org/atalk/impl/neomedia/transform/rtcp/StatisticsEngine.java:349-372 | An XR exists iff there are sources, the SDP parameters contain voip-metrics and some block exists; it then carries the sender's SSRC and those blocks |
| RtcpStatistics.CreateRtcpExtendedReport | aTalk/src/main/java/org/atalk/impl/neomedia/transform/rtcp/StatisticsEngine.java:349-372 | The loop builds the XR ReportFor specifies |
| RtcpStatistics.SourceSsrcs | aTalk/src/main/java/org/atalk/impl/neomedia/transform/rtcp/StatisticsEngine.java:287-313 | Exactly rc source SSRCs, read at a 24-byte stride from offset 8 (RR) or 28 (SR) |
| RtcpStatistics.CollectedReportsHoldBlocks | aTalk/src/main/java/org/atalk/impl/neomedia/transform/rtcp/StatisticsEngine.java:270-337 | Every XR the walk collects holds at least one report block |
| RtcpStatistics.ReadSourceSsrcs | aTalk/src/main/java/org/atalk/impl/neomedia/transform/rtcp/StatisticsEngine.java:304-313 | The loop reads the source SSRCs SourceSsrcs specifies |
| RtcpStatistics.ReportsOfPacket | aTalk/src/main/java/org/atalk/impl/neomedia/transform/rtcp/StatisticsEngine.java:284-327 | An SR or RR shorter than (2 + 6 rc) * 4 bytes (plus 20 for SR) aborts; otherwise its XR if any; other types contribute nothing |
| RtcpStatistics.ScanStep | aTalk/src/main/java/org/atalk/impl/neomedia/transform/rtcp/StatisticsEngine.java:278-330 | One step of the walk: stops at non-RTCP bytes, aborts on a short SR or RR, or moves past the packet keeping the walk's invariant |
| RtcpStatistics.CollectExtendedReports | aTalk/src/main/java/org/atalk/impl/neomedia/transform/rtcp/StatisticsEngine.java:270-331 | The walk returns the XRs CollectReports specifies, null after an abort |
| RtcpStatistics.AddRtcpExtendedReports | aTalk/src/main/java/org/atalk/impl/neomedia/transform/rtcp/StatisticsEngine.java:270-338 | Returns the collected XRs (null when none or aborted); the packet is unchanged then, and otherwise gets each XR inserted in turn |
| RtcpStatistics.InsertReports | aTalk/src/main/java/org/atalk/impl/neomedia/transform/rtcp/StatisticsEngine.java:333-336 | Inserts the XRs one after another, each where the insertion point of the packet as it then is says |
| RtcpStatistics.PackUnpack | aTalk/src/main/java/org/atalk/impl/neomedia/transform/rtcp/StatisticsEngine.java:578-599 | Every bit of the 64-bit burst-metrics value lands in exactly one decoded field |
| RtcpStatistics.UnpackPack | aTalk/src/main/java/org/atalk/impl/neomedia/transform/rtcp/StatisticsEngine.java:578-599 | Decoding recovers each field from its bit range (0-15, 16-31, 32-39, 40-47, 48-55, 56-63) |
| RtcpStatistics.Incremented | aTalk/src/main/java/org/atalk/impl/neomedia/transform/rtcp/StatisticsEngine.java:1010-1016 | The SSRC's counter becomes its old value (0 when absent) plus step, wrapping as a Java long; no other key changes |
| RtcpStatistics.SsrcCounters.constructor | aTalk/src/main/java/org/atalk/impl/neomedia/transform/rtcp/StatisticsEngine.java:139-144 | A counter map starts empty |
| RtcpStatistics.SsrcCounters.Increment | aTalk/src/main/java/org/atalk/impl/neomedia/transform/rtcp/StatisticsEngine.java:1010-1016 | The map becomes Incremented(old map, ssrc, step) |
| RtcpStatistics.SsrcCounters.Get | aTalk/src/main/java/org/atalk/impl/neomedia/transform/rtcp/StatisticsEngine.java:993-1000 | The counter of the SSRC, 0 when absent |
| RtcpStatistics.SsrcCounters.CumulativeValue | aTalk/src/main/java/org/atalk/impl/neomedia/transform/rtcp/StatisticsEngine.java:971-983 | The sum of all counters as a Java long |
| RtcpStatistics.IncrementRaisesCumulative | aTalk/src/main/java/org/atalk/impl/neomedia/transform/rtcp/StatisticsEngine.java:971-1016 | Incrementing one counter by step raises the cumulative value by step, modulo 2^64 |
| RtcpStatistics.SeqMin | aTalk/src/main/java/org/atalk/impl/neomedia/transform/rtcp/StatisticsEngine.java:922-925 | The least reported jitter, which is one of them |
| RtcpStatistics.SeqMax | aTalk/src/main/java/org/atalk/impl/neomedia/transform/rtcp/StatisticsEngine.java:926-927 | The greatest reported jitter, which is one of them |
| RtcpStatistics.Engine.constructor | aTalk/src/main/java/org/atalk/impl/neomedia/transform/rtcp/StatisticsEngine.java:119-144 | No jitter reported yet: minimum -1, maximum 0, empty counter maps |
| RtcpStatistics.Engine.RecordSentReport | aTalk/src/main/java/org/atalk/impl/neomedia/transform/rtcp/StatisticsEngine.java:916-929 | One more report and jitter more jitter for the SSRC; the minimum and maximum become the least and greatest jitter reported so far |
| ChatRoomProvider.KeyIndexFrom | aTalk/src/main/java/net/java/sip/communicator/impl/muc/ChatRoomProviderWrapperImpl.java:294-300 | An even index holding the key with no earlier even index holding it, or -1 exactly when no even slot holds it |
| ChatRoomProvider.SetDataAsWrittenUpdates | aTalk/src/main/java/net/java/sip/communicator/impl/muc/ChatRoomProviderWrapperImpl.java:244-283 | When the value is non-null or the key is already stored, the as-written setData succeeds and is a map update: the key maps to the value, every other key keeps its value, and the stored pairs stay in place |
| ChatRoomProvider.SetDataIntendedIsMapUpdate | aTalk/src/main/java/net/java/sip/communicator/impl/muc/ChatRoomProviderWrapperImpl.java:244-283 | The corrected setData is a map update in every case |
| ChatRoomProvider.SetDataAsWrittenDropsPair | aTalk/src/main/java/net/java/sip/communicator/impl/muc/ChatRoomProviderWrapperImpl.java:259-270 | As written, clearing an absent key while one unrelated pair is stored discards that pair |
| ChatRoomProvider.SetDataAsWrittenThrows | aTalk/src/main/java/net/java/sip/communicator/impl/muc/ChatRoomProviderWrapperImpl.java:259-266 | As written, clearing an absent key while two pairs are stored throws from the array copy given index -1 |
| ChatRoomProvider.FirstIndex | aTalk/src/main/java/net/java/sip/communicator/impl/muc/ChatRoomProviderWrapperImpl.java:219-222 | The first position of the element, or -1 exactly when absent |
| ChatRoomProvider.RemoveFirstCounts | aTalk/src/main/java/net/java/sip/communicator/impl/muc/ChatRoomProviderWrapperImpl.java:141-144 | Removing a room removes one occurrence when present and nothing otherwise |
| ChatRoomProvider.AddThenRemove | aTalk/src/main/java/net/java/sip/communicator/impl/muc/ChatRoomProviderWrapperImpl.java:131-144 | Removing a room just added (and not present before) restores the list |
| ChatRoomProvider.ProviderWrapper.constructor | aTalk/src/main/java/net/java/sip/communicator/impl/muc/ChatRoomProviderWrapperImpl.java:39-65 | No data array and no rooms |
| ChatRoomProvider.ProviderWrapper.DataIndexOf | aTalk/src/main/java/net/java/sip/communicator/impl/muc/ChatRoomProviderWrapperImpl.java:294-300 | The loop returns the index KeyIndexFrom specifies |
| ChatRoomProvider.ProviderWrapper.GetData | aTalk/src/main/java/net/java/sip/communicator/impl/muc/ChatRoomProviderWrapperImpl.java:229-235 | A null key throws NullPointerException; otherwise the value after the first matching key, or null |
| ChatRoomProvider.ProviderWrapper.SetData | aTalk/src/main/java/net/java/sip/communicator/impl/muc/ChatRoomProviderWrapperImpl.java:244-283 | A null key throws NullPointerException; otherwise the array becomes (or the call throws) as the as-written update says |
| ChatRoomProvider.ProviderWrapper.SetDataCorrected | aTalk/src/main/java/net/java/sip/communicator/impl/muc/ChatRoomProviderWrapperImpl.java:244-283 | The corrected update: the array becomes the intended map update, never throwing for a non-null key |
| ChatRoomProvider.ProviderWrapper.AddChatRoom | aTalk/src/main/java/net/java/sip/communicator/impl/muc/ChatRoomProviderWrapperImpl.java:131-134 | Appends the room, duplicates allowed |
| ChatRoomProvider.ProviderWrapper.RemoveChatRoom | aTalk/src/main/java/net/java/sip/communicator/impl/muc/ChatRoomProviderWrapperImpl.java:141-144 | Removes the first occurrence of the room |
| ChatRoomProvider.ProviderWrapper.ContainsChatRoom | aTalk/src/main/java/net/java/sip/communicator/impl/muc/ChatRoomProviderWrapperImpl.java:154-159 | true iff the room is in the list |
| ChatRoomProvider.ProviderWrapper.CountChatRooms | aTalk/src/main/java/net/java/sip/communicator/impl/muc/ChatRoomProviderWrapperImpl.java:203-206 | The number of rooms |
| ChatRoomProvider.ProviderWrapper.GetChatRoom | aTalk/src/main/java/net/java/sip/communicator/impl/muc/ChatRoomProviderWrapperImpl.java:208-211 | The room at the index, or IndexOutOfBoundsException outside the list |
| ChatRoomProvider.ProviderWrapper.IndexOf | aTalk/src/main/java/net/java/sip/communicator/impl/muc/ChatRoomProviderWrapperImpl.java:219-222 | The first position of the room, or -1 |
| ChatRoomProvider.ProviderWrapper.FindChatRoomWrapperForChatRoomId | aTalk/src/main/java/net/java/sip/communicator/impl/muc/ChatRoomProviderWrapperImpl.java:181-191 | The first room with that ID; null exactly when none has it |
| ChatRoomProvider.ArrayCopy | aTalk/src/main/java/net/java/sip/communicator/impl/muc/ChatRoomProviderWrapperImpl.java:263-266 | System.arraycopy: throws IndexOutOfBoundsException on a negative position or length, otherwise copies the range and leaves the rest |
| JingleSession.AddAllSucceedsIffDistinct | aTalk/src/main/java/org/jivesoftware/smackx/jingle/component/JingleSessionImpl.java:88-95 | Adding the contents of a session-initiate succeeds iff their names are distinct, and the keys are then exactly those names; a duplicate throws IllegalArgumentException |
| JingleSession.AddAllFilesByName | aTalk/src/main/java/org/jivesoftware/smackx/jingle/component/JingleSessionImpl.java:88-95 | Each added content is filed under its own name |
| JingleSession.SoleContent | aTalk/src/main/java/org/jivesoftware/smackx/jingle/component/JingleSessionImpl.java:485-495 | null for no contents, IllegalStateException for several, otherwise the single one |
| JingleSession.WithoutSecured | aTalk/src/main/java/org/jivesoftware/smackx/jingle/component/JingleSessionImpl.java:293-301 | Exactly the contents that are not secured remain |
| JingleSession.AcceptAllPassIff | aTalk/src/main/java/org/jivesoftware/smackx/jingle/component/JingleSessionImpl.java:351-366 | Accepting names passes iff every name is proposed and none repeats; an unknown name throws AssertionError |
| JingleSession.AcceptAllConserves | aTalk/src/main/java/org/jivesoftware/smackx/jingle/component/JingleSessionImpl.java:351-366 | Accepting moves contents from the proposed map to the active map, keeping both keyed by name |
| JingleSession.AcceptAllOnPass | aTalk/src/main/java/org/jivesoftware/smackx/jingle/component/JingleSessionImpl.java:351-366 | On success the named contents are active and no longer proposed; every other content stays where it was |
| JingleSession.RejectAllDrops | aTalk/src/main/java/org/jivesoftware/smackx/jingle/component/JingleSessionImpl.java:385-398 | Rejecting removes exactly the named contents from the proposed map, or throws AssertionError for a name not proposed |
| JingleSession.Session.constructor | aTalk/src/main/java/org/jivesoftware/smackx/jingle/component/JingleSessionImpl.java:107-111 | A new session is fresh, with its role and no contents |
| JingleSession.Session.AddContentImpl | aTalk/src/main/java/org/jivesoftware/smackx/jingle/component/JingleSessionImpl.java:454-461 | A duplicate name throws IllegalArgumentException and changes nothing; otherwise exactly that name is added |
| JingleSession.Session.GetSoleContentOrThrow | aTalk/src/main/java/org/jivesoftware/smackx/jingle/component/JingleSessionImpl.java:485-495 | null when there are no contents, IllegalStateException when there are several, otherwise the single entry |
| JingleSession.Session.GetSoleAffectedContentOrThrow | aTalk/src/main/java/org/jivesoftware/smackx/jingle/component/JingleSessionImpl.java:432-443 | Succeeds iff the request names exactly one content and it is active; AssertionError otherwise |
| JingleSession.Session.CreateSessionInitiate | aTalk/src/main/java/org/jivesoftware/smackx/jingle/component/JingleSessionImpl.java:147-166 | A session-initiate with the active contents for an initiator; IllegalStateException otherwise |
| JingleSession.Session.CreateSessionAccept | aTalk/src/main/java/org/jivesoftware/smackx/jingle/component/JingleSessionImpl.java:169-188 | A session-accept with the active contents for a responder; IllegalStateException otherwise |
| JingleSession.Session.SendInitiate | aTalk/src/main/java/org/jivesoftware/smackx/jingle/component/JingleSessionImpl.java:118-126 | IllegalStateException unless fresh (and the initiator); pending after a successful send; a failed send leaves the state fresh |
| JingleSession.Session.SendAccept | aTalk/src/main/java/org/jivesoftware/smackx/jingle/component/JingleSessionImpl.java:128-145 | IllegalStateException unless pending (and the responder); active after a successful send; a failed send leaves it pending |
| JingleSession.Session.HandleSessionAccept | aTalk/src/main/java/org/jivesoftware/smackx/jingle/component/JingleSessionImpl.java:289-305 | Sets active; a secured content the accept does not secure is dropped, and the accept's sole-content rules apply |
| JingleSession.Session.HandleSessionTerminate | aTalk/src/main/java/org/jivesoftware/smackx/jingle/component/JingleSessionImpl.java:333-348 | Sets ended; a null reason throws AssertionError; otherwise it needs exactly one content |
| JingleSession.Session.HandleContentAccept | aTalk/src/main/java/org/jivesoftware/smackx/jingle/component/JingleSessionImpl.java:351-366 | Moves each named content from proposed to active, as AcceptAll says |
| JingleSession.Session.HandleContentReject | aTalk/src/main/java/org/jivesoftware/smackx/jingle/component/JingleSessionImpl.java:385-398 | Removes each named content from proposed, as RejectAll says |
| JingleSession.NewResponderSession | aTalk/src/main/java/org/jivesoftware/smackx/jingle/component/JingleSessionImpl.java:88-95 | A responder session holding every content of the initiate, pending; IllegalArgumentException on a duplicate name |
| JingleSession.AddAllFailurePersists | aTalk/src/main/java/org/jivesoftware/smackx/jingle/component/JingleSessionImpl.java:88-95 | Once adding a prefix of the contents fails, adding all of them fails the same way |
| IdentityExtension.Events | aTalk/src/main/java/org/xmpp/extensions/jitsimeet/IdentityExtensionElement.java:148-171 | The events of toXML open and close with identity in jabber:client; there are sixteen exactly when all four values are non-empty, an empty value giving no text event |
| IdentityExtension.ElementEvents | aTalk/src/main/java/org/xmpp/extensions/jitsimeet/IdentityExtensionElement.java:158-166 | xml.element as events: the start tag, the text only when it is non-empty, the end tag |
| IdentityExtension.ToXmlRendersEvents | aTalk/src/main/java/org/xmpp/extensions/jitsimeet/IdentityExtensionElement.java:148-171 | toXML is exactly the rendering of those events, in the order identity, user, id, name, avatar, /user, group, /identity |
| IdentityExtension.Assign | aTalk/src/main/java/org/xmpp/extensions/jitsimeet/IdentityExtensionElement.java:246-262 | A text is stored in the field named by the tag in effect (avatar, id, name, group) and ignored under any other tag |
| IdentityExtension.Parse | aTalk/src/main/java/org/xmpp/extensions/jitsimeet/IdentityExtensionElement.java:224-276 | null without consuming anything unless the namespace is jabber:client and the tag is identity |
| IdentityExtension.ParseEvents | aTalk/src/main/java/org/xmpp/extensions/jitsimeet/IdentityExtensionElement.java:224-276 | The do-while loop yields what Parse specifies |
| IdentityExtension.ParseEventsOfToXml | aTalk/src/main/java/org/xmpp/extensions/jitsimeet/IdentityExtensionElement.java:148-276 | Parsing the events of toXML gives back the same identity when all four values are non-empty and null when any is empty, with the parser at the closing identity tag |
| IdentityExtension.ScanOfEvents | aTalk/src/main/java/org/xmpp/extensions/jitsimeet/IdentityExtensionElement.java:240-268 | The loop reads each value of toXML back into its field, an empty value staying null, and stops at the closing identity tag |
| IdentityExtension.ScanElement | aTalk/src/main/java/org/xmpp/extensions/jitsimeet/IdentityExtensionElement.java:240-268 | Reading one child element stores its text, when there is one, in the field the element names, and the loop goes on after its end tag |
| IdentityExtension.ScanStopsWhereIdentityInEffect | aTalk/src/main/java/org/xmpp/extensions/jitsimeet/IdentityExtensionElement.java:240-268 | The loop ends at the first event after which the tag in effect is identity, and fails exactly when there is none |
| IdentityExtension.LeadingTextYieldsNull | aTalk/src/main/java/org/xmpp/extensions/jitsimeet/IdentityExtensionElement.java:240-268 | Text right after the opening tag ends the loop at once, with all fields unset, so the result is null |
| AvatarMetadata.ByteSize | aTalk/src/main/java/org/jivesoftware/smackx/avatar/useravatar/provider/AvatarMetadataProvider.java:82-90 | The byte size is non-zero iff the attribute is present and parses to a non-zero int |
| AvatarMetadata.InfoOf | aTalk/src/main/java/org/jivesoftware/smackx/avatar/useravatar/provider/AvatarMetadataProvider.java:69-115 | Only an info start tag can contribute an info |
| AvatarMetadata.InfoOfValidates | aTalk/src/main/java/org/jivesoftware/smackx/avatar/useravatar/provider/AvatarMetadataProvider.java:70-115 | An info start tag yields an info iff id and type are present and the byte size is non-zero; url copied; width and height set only when both parse, else 0 |
| AvatarMetadata.Scan | aTalk/src/main/java/org/jivesoftware/smackx/avatar/useravatar/provider/AvatarMetadataProvider.java:67-122 | The loop fails only with a parser error and otherwise ends past its start |
| AvatarMetadata.ScanStopsAtMetadataEnd | aTalk/src/main/java/org/jivesoftware/smackx/avatar/useravatar/provider/AvatarMetadataProvider.java:118-122 | Parsing ends at the first metadata end tag, ignoring other end tags, and fails iff there is none |
| AvatarMetadata.ScanCollectsInOrder | aTalk/src/main/java/org/jivesoftware/smackx/avatar/useravatar/provider/AvatarMetadataProvider.java:115 | The infos collected are those of the events passed, in document order |
| AvatarMetadata.InfosInValid | aTalk/src/main/java/org/jivesoftware/smackx/avatar/useravatar/provider/AvatarMetadataProvider.java:92-95 | Every collected info has a non-zero int byte size |
| AvatarMetadata.ParseEvents | aTalk/src/main/java/org/jivesoftware/smackx/avatar/useravatar/provider/AvatarMetadataProvider.java:62-124 | The while loop yields what Parse specifies |
| UserSearch.ColumnExists | aTalk/src/main/java/net/java/sip/communicator/impl/protocol/jabber/extensions/usersearch/UserSearchProvider.java:119-125 | true iff some column has the variable |
| UserSearch.AddColumnKeepsUnique | aTalk/src/main/java/net/java/sip/communicator/impl/protocol/jabber/extensions/usersearch/UserSearchProvider.java:119-130 | Adding a column keeps the earlier ones, makes the variable present and keeps column variables unique |
| UserSearch.JidField | aTalk/src/main/java/net/java/sip/communicator/impl/protocol/jabber/extensions/usersearch/UserSearchProvider.java:94-100 | A jid field exactly when the current event has attributes, holding the value of its jid attribute (null when there is none) |
| UserSearch.ItemsScanKeepsColumns | aTalk/src/main/java/net/java/sip/communicator/impl/protocol/jabber/extensions/usersearch/UserSearchProvider.java:93-136 | The items loop keeps earlier columns and rows as prefixes and keeps column variables unique |
| UserSearch.ParseItemsColumns | aTalk/src/main/java/net/java/sip/communicator/impl/protocol/jabber/extensions/usersearch/UserSearchProvider.java:87-130 | The reported data has the JID column first and unique column variables |
| UserSearch.ParseItemsOneRow | aTalk/src/main/java/net/java/sip/communicator/impl/protocol/jabber/extensions/usersearch/UserSearchProvider.java:93-136 | One item with a jid attribute and one child gives one row (the jid field, then the child's field) and a column for the child, ending at the query end tag |
| UserSearch.ParseItemsRowSharesFields | aTalk/src/main/java/net/java/sip/communicator/impl/protocol/jabber/extensions/usersearch/UserSearchProvider.java:104-117 | A row holds the list it was built on: a child element after the item end tag, with no item start tag in between, is part of that item's row |
| UserSearch.ParseItemsEvents | aTalk/src/main/java/net/java/sip/communicator/impl/protocol/jabber/extensions/usersearch/UserSearchProvider.java:84-138 | The while loop of parseItems yields what ParseItems specifies |
| UserSearch.ItemsTurn | aTalk/src/main/java/net/java/sip/communicator/impl/protocol/jabber/extensions/usersearch/UserSearchProvider.java:94-135 | One turn of the loop body (jid attribute, next event, item start/end, field with nextText and its column, query end) either stops with the result ItemsScan gives from that position or moves to a later position from which ItemsScan gives the same result |
| UserSearch.SkipElement | aTalk/src/main/java/net/java/sip/communicator/impl/protocol/jabber/extensions/usersearch/UserSearchProvider.java:64-65 | Skipping an extension element ends at an end tag after it |
| UserSearch.SearchScan | aTalk/src/main/java/net/java/sip/communicator/impl/protocol/jabber/extensions/usersearch/UserSearchProvider.java:40-72 | parse fails only with a parser error |
| UserSearch.SearchWalkShape | aTalk/src/main/java/net/java/sip/communicator/impl/protocol/jabber/extensions/usersearch/UserSearchProvider.java:40-72 | The parse loop reads the events in order from the next one, jumps only over data-form extensions, and stops at the first item start tag or query end tag it reads |
| UserSearch.SearchScanFollowsWalk | aTalk/src/main/java/net/java/sip/communicator/impl/protocol/jabber/extensions/usersearch/UserSearchProvider.java:40-72 | parse succeeds iff its walk does; it adds one null-valued field per non-form start tag and one extension per jabber:x:data start tag it reads, in order, and sets the data to what parseItems returns at the item start tag it stopped at (unchanged if that throws) |
| UserSearch.ParseEvents | aTalk/src/main/java/net/java/sip/communicator/impl/protocol/jabber/extensions/usersearch/UserSearchProvider.java:34-73 | The while loop of parse yields what Parse specifies |
| HealthCheck.SkipToEnd | aTalk/src/main/java/net/java/sip/communicator/impl/protocol/jabber/extensions/health/HealthCheckIQProvider.java:58-69 | The loop fails only with a parser error and otherwise ends past its start |
| HealthCheck.SkipToEndStopsAtFirst | aTalk/src/main/java/net/java/sip/communicator/impl/protocol/jabber/extensions/health/HealthCheckIQProvider.java:58-69 | It consumes events up to and including the first end tag named like the root, ignoring all others, and fails iff there is none |
| HealthCheck.Parse | aTalk/src/main/java/net/java/sip/communicator/impl/protocol/jabber/extensions/health/HealthCheckIQProvider.java:45-71 | null without consuming anything unless name and namespace match; on a match an IQ with the parser at the first end tag named like the root, or a parser error exactly when there is none |
| HealthCheck.ParseEvents | aTalk/src/main/java/net/java/sip/communicator/impl/protocol/jabber/extensions/health/HealthCheckIQProvider.java:45-71 | The loop yields what Parse specifies |
| DisconnectionTypes.ToString | aTalk/src/main/java/org/jivesoftware/smackx/coin/DisconnectionType.java:18-59 | Each constant's string is one of departed, booted, failed, busy |
| DisconnectionTypes.FromString | aTalk/src/main/java/org/jivesoftware/smackx/coin/DisconnectionType.java:68-75 | A result is the constant whose string was given; otherwise IllegalArgumentException |
| DisconnectionTypes.FindFrom | aTalk/src/main/java/org/jivesoftware/smackx/coin/DisconnectionType.java:71-75 | The search fails iff no remaining constant has the string |
| DisconnectionTypes.FromStringToString | aTalk/src/main/java/org/jivesoftware/smackx/coin/DisconnectionType.java:68-75 | fromString(t.toString()) == t for every constant |
| DisconnectionTypes.ToStringInjective | aTalk/src/main/java/org/jivesoftware/smackx/coin/DisconnectionType.java:18-33 | Distinct constants have distinct strings |
| DisconnectionTypes.FromStringRejects | aTalk/src/main/java/org/jivesoftware/smackx/coin/DisconnectionType.java:75 | null and every other string throw IllegalArgumentException |
| JavaValues.ToInt | aTalk/src/main/java/org/atalk/impl/neomedia/RTPConnectorOutputStream.java:642 | Wrap-around to a Java int: in range, and the identity on ints |
| JavaValues.ToLong | aTalk/src/main/java/org/atalk/impl/neomedia/transform/rtcp/StatisticsEngine.java:1014 | Wrap-around to a Java long: in range, and the identity on longs |
| JavaValues.ParseInt | aTalk/src/main/java/org/jivesoftware/smackx/avatar/useravatar/provider/AvatarMetadataProvider.java:86 | Integer.parseInt: a result is a Java int and the empty string or a lone sign does not parse |
| JavaValues.ParseIntOfDecimalText | aTalk/src/main/java/org/jivesoftware/smackx/avatar/useravatar/provider/AvatarMetadataProvider.java:86 | Every Java int's decimal text parses back to it |
| JavaValues.ParseIntRejects | aTalk/src/main/java/org/jivesoftware/smackx/avatar/useravatar/provider/AvatarMetadataProvider.java:86 | 2147483648 and 12a do not parse; -2147483648 does |
| XmlEvents.NameOf | aTalk/src/main/java/net/java/sip/communicator/impl/protocol/jabber/extensions/health/HealthCheckIQProvider.java:51 | A name exactly for start and end tags |
| XmlEvents.NamespaceOf | aTalk/src/main/java/net/java/sip/communicator/impl/protocol/jabber/extensions/health/HealthCheckIQProvider.java:48 | A namespace exactly for start and end tags |
| XmlEvents.AttributeCount | aTalk/src/main/java/net/java/sip/communicator/impl/protocol/jabber/extensions/usersearch/UserSearchProvider.java:94 | The attribute count of a start tag, -1 for any other event |
| XmlEvents.AttributeValueFindsFirst | aTalk/src/main/java/org/jivesoftware/smackx/avatar/useravatar/provider/AvatarMetadataProvider.java:71-80 | getAttributeValue: the value of the first attribute with the name; null iff no attribute has it |
| XmlEvents.Next | aTalk/src/main/java/net/java/sip/communicator/impl/protocol/jabber/extensions/usersearch/UserSearchProvider.java:41 | next() advances by one event, and throws past the last one |
| XmlEvents.NextText | aTalk/src/main/java/net/java/sip/communicator/impl/protocol/jabber/extensions/usersearch/UserSearchProvider.java:112 | nextText(): the text of a start tag (empty when it closes at once), with the parser on the end tag; otherwise a parser error |
| XmlEvents.RenderConcat | aTalk/src/main/java/org/xmpp/extensions/jitsimeet/IdentityExtensionElement.java:148-171 | Rendering distributes over concatenation of event lists |
| UserSearch.ItemsScan | aTalk/src/main/java/net/java/sip/communicator/impl/protocol/jabber/extensions/usersearch/UserSearchProvider.java:93-136 | The items loop fails only with a parser error; rows added since the last item start tag are the live field list, so fields read after an item end tag still land in that row |
| UserSearch.ItemsWalkShape | aTalk/src/main/java/net/java/sip/communicator/impl/protocol/jabber/extensions/usersearch/UserSearchProvider.java:93-136 | The items loop reads the events in order, jumps only over the text and end tag that nextText consumes, and stops at the first query end tag it reads |
| UserSearch.ItemsScanFollowsWalk | aTalk/src/main/java/net/java/sip/communicator/impl/protocol/jabber/extensions/usersearch/UserSearchProvider.java:93-136 | The items loop succeeds iff its walk reaches a query end tag, whatever the data and fields so far |
| RtcpStatistics.SeqMinAppend | aTalk/src/main/java/org/atalk/impl/neomedia/transform/rtcp/StatisticsEngine.java:922-925 | After a new jitter value the minimum is that value when none was reported before or it is lower, else the old minimum |
| RtcpStatistics.SeqMaxAppend | aTalk/src/main/java/org/atalk/impl/neomedia/transform/rtcp/StatisticsEngine.java:926-927 | After a new jitter value the maximum is that value when none was reported before or it is higher, else the old maximum |

## Left out

- Threads, locks, `wait`/`notify`, `poll` time-outs and `LockSupport.parkNanos` are not modelled. The send thread is one step, `SendThreadStep`, applied to the queue's state. A park is recorded in a ghost log with its duration.
- `System.nanoTime`, `System.currentTimeMillis` and the clock of the rate tracker become parameters of the operations that read them.
- `sendToTarget` and `isSocketValid` are parameters: a delivery predicate over (packet, target) and a boolean. The transmissions are recorded in a ghost log. Whether framing a buffer throws on the sender thread is a boolean parameter of `SendThreadStep`. Packet transformers and the concrete socket subclasses are not part of this model.
- `RateStatistics` is not part of this model. Its updates are a ghost log of (length, time) pairs. `getOutputBitrate` and `getNumberOfBytesSent` read it and are left out.
- `QueueStatistics`, `Timber` logging and `setPriority` are left out. The drop-warning predicate is kept, and so is a ghost log of warnings.
- The configuration read through `ConfigUtils` and `LibJitsi` (queue capacity, legacy property, use of the send thread) is passed as parameters.
- `RawPacket.java`, `RTCPUtils.java`, `RTPUtils.java` and `RTCPExtendedReport.java` are not part of this model. `RawPacket` is a class over a byte array with offset and length. `RawPacket.grow` is `RawPacket.Grow`. RTCP recognition and `RTCPExtendedReport.assemble` are function parameters. `assemble` may write a byte count other than `calcLength`, which is the case `AddRtcpExtendedReport` reports as false.
- `createVoIPMetricsReportBlock` is not part of this model. It is the `blockFor` parameter: the VoIP-metrics block for a source SSRC, or none.
- The floating-point parts of the statistics engine, `getAvgInterArrivalJitter`, the receive-side `reverseTransform` and the `MediaStreamStats` updates are left out.
- `RtcpStatistics.Engine.RecordSentReport` takes the jitter as the unsigned 32-bit field of the report block. Reading it out of the packet is not modelled.
- `synchronizeProvider`, the icon and name getters and the system room wrapper of the chat-room provider are left out. They only forward to other objects.
- `ChatRoomWrapper` identity is modelled as a value with an ID. `equals` on wrappers is value equality.
- Jingle: the dispatch in `handleJingleSessionRequest`, `handleSessionInitiate`, `handleContentAdd`/`handleContentRemove`, the content listeners (`onContentFinished`, `onContentCancel`) and the stanzas sent by `terminateSession` are left out. Jingle stanza sending is an oracle that succeeds or fails. `Async` and `JingleManager` registration are left out. `Jingle.getSoleContentOrThrow` from Smack is taken to behave like the session's own.
- XML escaping and `XmlStringBuilder` are not modelled. Rendering an event list gives tags and text as they are.
- `UserSearchIQ.java` is not part of this model. `addField` and `addExtension` are appends to its lists. `parseExtensionElement` is modelled only as the depth-counting skip of the element; its contents are not kept.
- `RtpOutput.SendQueue.constructor` and `RtpOutput.OutputStream.constructor` require capacities of at least 1. A capacity below 1 makes the Java queues throw `IllegalArgumentException`; `RtpOutput.OutputStream.Create` models that case.
- RtpOutput buffers and raw packets are values. A pooled slot is known by its position in its pool; object identity and aliasing between pooled and queued objects are not modelled.
- `RtpOutput.OutputStream` keeps `numberOfPackets` as an unbounded integer. The Java field is a `long`; its overflow is not modelled.
- `JingleSession.Session.SendAccept` does not model `content.start(connection)`, called for each content once the accept is sent. Content transports are not part of this model.
- Packetize, SyncWrite, QueueWrite and Write (`RtpOutput.OutputStream`) require `0 <= off`, `0 <= len` and `off + len <= |buf|` whenever they copy bytes (Write only while enabled, QueueWrite only while open). Outside that range the Java code throws from `System.arraycopy` (IndexOutOfBoundsException) or from `new byte[len]` (NegativeArraySizeException), after taking a packet or slot from its free-list; those exception paths and the lost pooled object are not modelled.
- `UserSearch.ParseItemsEvents` (with its loop body `UserSearch.ItemsTurn`) keeps the rows that share the live field list as a count next to that list, not as references to one list object; the rows it returns are the same.
- SendThreadStep (`RtpOutput.OutputStream.SendThreadStep`) always counts a sent buffer in the pacing interval. In the source, the sender thread catches an exception from `write(pkts)` and moves on without counting the buffer. In this model `write` has no exception path: `isSocketValid`, the delivery predicate and the rate tracker throw nothing, and `sendToTarget`'s `IOException` is a refusal. An unchecked exception from a socket subclass or a packet transformer, which would leave the counter unraised and the stream partly updated, is not modelled.
- FrameAndSend (`RtpOutput.OutputStream.FrameAndSend`) raises the interval counter after every send, for the same reason: the catch around `write(pkts)` never fires in this model.
- IdentityExtension values (`userId`, `userName`, `userAvatarUrl`, `groupId` of an `Identity`) are non-null strings. The Java constructor accepts null for each, and how `toXML` renders a null value depends on `XmlStringBuilder`, which is not part of this model. `parse` never builds an element with a null value (it returns null instead), so parsing is unaffected.
- SetDataAsWrittenUpdates (`ChatRoomProvider`) excludes clearing a key that is not stored. That case is the first Findings row (`SetDataAsWrittenDropsPair`, `SetDataAsWrittenThrows`).
- `UserSearch.ItemsScanKeepsColumns`: what each row holds (the live field list of its item, including fields read after the item end tag) is stated only by the examples `ParseItemsOneRow` and `ParseItemsRowSharesFields`. For all inputs, only the prefix properties of columns and rows are proved.
- `HealthCheckIQ.java` is not part of this model. Its element name and namespace are a `Registration` parameter.
- `AvatarMetadata.java` is not part of this model. The element and attribute names come from section 4.2 of XEP-0084. Width and height default to 0.
- `JavaValues.ParseInt` accepts ASCII digits only. `Integer.parseInt` also accepts other Unicode decimal digits.

## Findings

| source | as written | input that shows it | evidently intended | confidence | as-written member | corrected member |
|---|---|---|---|---|---|---|
| aTalk/src/main/java/net/java/sip/communicator/impl/muc/ChatRoomProviderWrapperImpl.java:255-270 | `setData(key, null)` for a key that is not stored still removes a pair. With one pair stored, `data` becomes null. With more, `System.arraycopy` is called with index -1 and throws. | One pair (1 → 10) stored; `setData(2, null)` discards it. Two pairs stored; `setData(2, null)` throws `IndexOutOfBoundsException`. | Clearing an absent key leaves the data unchanged, so `setData` is a map update. | not executed; high | ChatRoomProvider.SetDataAsWrittenDropsPair | ChatRoomProvider.SetDataIntendedIsMapUpdate |
| aTalk/src/main/java/org/atalk/impl/neomedia/RTPConnectorOutputStream.java:710-721 | When the interval's buffer limit is reached, the sender parks for the time ELAPSED since the interval began (`nanosRemainingTime = time - intervalStartTimeNanos`). It does not begin a new interval. | At one buffer per 100 ns, three buffers arriving at the start of an interval are all handed on at that instant (the park lasts 0 ns). | Park for the time remaining in the interval, then begin the next one, so no interval carries more than `maxBuffers` buffers. | not executed; medium | RtpOutput.PacingAsWrittenOverruns | RtpOutput.PaceCorrectedKeepsLimit |
