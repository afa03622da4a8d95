# Connector models

The connectors of this repository take events from sensors and feeds (AIS, ADS-B, MAVLink, webhooks, files, captures),
seal them, and publish them to a broker; when the link is down they keep the sealed events in a bounded log on disk
and replay them later. This project models the parts of that code where a mistake would lose, repeat, reorder or alter
data, and proves what they promise for every input, every run and every way the bytes may arrive. The command
`dafny verify dfyconfig.toml` checks everything.

## What is modelled

**Store and forward** (`rust/connectors/common/src/spool.rs`, the publish and drain paths of `runtime.rs`).
`SpoolCodec` is the segment format, `SpoolCursor` the cursor file, `SpoolLog` the log as a value, `SpoolOps` the
operations on values with what each means for the records in front of the drain position, `Spool` the object the
program runs, each method tied to its operation. `SpoolProtocol` is the whole protocol as a state machine: the
producer appends, the drainer takes the lock for `peek` and again for `advance` and publishes in between, the process
may die between steps or in the middle of an append, an advance or an open, the cursor file may be lost, and the spool
may be opened again with another bound. The main results (`Conservation`, `ReplayOrder`, `NoRecordDrainedTwice`,
`LogShape`, `CursorNeverMovesBack`, `CrashResumes`, `RunDrains`) hold in every run of these steps.

**AIS** (`ais-nmea`, `feed-synthetic`). `AisReassembly` is the table of partial messages, with non-interference
between keys, wholeness of every message and single use of every fragment. `AisText` is the sentence parser and the
synthetic feed's printer; `AisRoundTrip` proves that bits written, armoured, printed, heard from any reassembly state
and read back are the bits written.

**Framing**. `LineReader` and `StreamFraming` (`stream.rs`), `FileFollower` (`file.rs`), `HttpServer` and
`HttpConnection` (`http_server.rs`): each reader undoes its writer, however the bytes are cut into pieces.

**Caches and transformations**. `Adsb` (the carry-forward cache and its conservation law), `EditDistance` (the two-row
program against shortest edit scripts), `Mavlink` (the byte-wise checksum against the bitwise one, what it detects,
and the receiver's checks), `Pcap` (capture replay), `Marking` (markings as a floor, and the egress label), `Egress`
(field mapping and what it can lose), `EventFields` and `Builder` (canonical events).

A source file whose code changes state in place is a class or a method with loops here; each is proved equal to a
function on values, and the theorems are about those functions. `Bytes` and `Ascii` hold what all share.

## Where the code and its promise part

- `append` writes both lengths as 32 bits without a check, so a record reads back exactly when both its parts are
  shorter than 2^32 bytes (`SpoolCodec.EncodeRoundTripIff`).
- `append` reports that it dropped, not how many segments; the metric counts one. `SpoolOps.DropReportUndercountsIff`
  says exactly when that is too few, and `SpoolProtocol.MetricCanUndercount` is a run that gets there: appends of any
  record until there are three segments, a restart with a smaller bound, one append. Within the bound and with records of at most a
  segment it is exact (`SpoolOps.DropReportExact`, `SpoolProtocol.LogShape`).
- The file follower can refuse a frame that fits its buffer. Frames of at most 57,349 bytes with their prefix are safe
  whatever follows them (`FileFollower.FollowUndoesWire`). In any file of frames that fit the buffer, some reads fail
  exactly when some frame, its prefix and the bytes behind it, counted up to 8,191, exceed the bound on held bytes
  (`FileFollower.FollowCanFailIff`).
- The egress label takes the first class tag, which need not be the level `Marking::apply` resolved: it is, exactly
  when no class tag of unknown value stands in front of the first recognised one (`Marking.LabelShowsLevelIff`;
  `Marking.UnknownLevelHides` is an event where it is not).
- The renderer writes up to five names over what the mapping put there: governance always, event_id and policy_tags
  unless their paths are mapped, confidentiality_label when the event has a label, unmapped when entries are left
  over. The id, the tags or an entry is lost exactly when its path is mapped and only to such names
  (`Egress.NothingLostIff` and the four lemmas it rests on); then the object is the same whatever its value was
  (`Egress.LostAttributeIsGone` and the three beside it). Without any notion of a reader, the object determines the
  event exactly when no path the mapping names is lost so (`Egress.DeterminedIff`). Each of the five names can do it
  (`Egress.ReservedNameLoses`), and mapping the id to event_id and the tags to policy_tags is harmless
  (`Egress.OwnNamesAreKept`).
- The AIS printer puts no limit on fragments, the parser's counts are 8 bits: a payload is heard exactly when it takes
  at most 255 fragments (`AisRoundTrip.PrintedIsHeardIff`); of a longer one no sentence is accepted
  (`AisRoundTrip.TooManyFragments`).
- The timestamp check accepts days 1 to 31 in every month, where section 5.7 of RFC 3339 bounds the day by month and
  year. An accepted timestamp is one of the calendar exactly when its day is in its month (`EventFields.CalendarIff`);
  the thirty-first of a shorter month is one that is not (`EventFields.ImpossibleDateAccepted`).
- The MAVLink checksum does not protect the message id, which selects the CRC_EXTRA it ends with: a frame whose id is
  changed to one that is not mapped is passed over unchecked, and one changed to another mapped id is accepted exactly
  when the change and the two CRC_EXTRA together leave nothing in the register (`Mavlink.CorruptionVerdict`;
  `Mavlink.ChangedIdCanPass` is such a change of two adjacent bytes).

## Model

| member | source | states |
|---|---|---|
| SpoolCodec.EncodeRoundTripIff | rust/connectors/common/src/spool.rs:129-141 | a record with a UTF-8 id reads back as written if and only if its id and its envelope are each shorter than 2^32 bytes |
| SpoolCodec.FrontOfEncoded | rust/connectors/common/src/spool.rs:276-290 | whatever bytes follow, an encoded record reads back as itself and the reader stops exactly behind it |
| SpoolCodec.TornIsNothing | rust/connectors/common/src/spool.rs:276-290 | a record cut at any byte before its end yields no record and no kept byte |
| SpoolCodec.ReadRecordAtAgrees | rust/connectors/common/src/spool.rs:295-315 | reading only the declared bytes gives what reading the whole segment gives, at every offset of every byte string |
| SpoolCodec.DecodeEncodedSegment | rust/connectors/common/src/spool.rs:276-332 | for every record list and every strict prefix of one more record, decoding gives exactly the list and truncation leaves exactly its encoding |
| SpoolCodec.TruncateKeepsRecords | rust/connectors/common/src/spool.rs:318-332 | on any bytes at all, cutting the torn tail loses no record and leaves nothing further to cut |
| SpoolCodec.TruncateTornTail | rust/connectors/common/src/spool.rs:318-332 | the loop that walks the segment keeps exactly the whole records' bytes |
| SpoolCursor.CursorRoundTrip | rust/connectors/common/src/spool.rs:334-350 | every 64-bit cursor parses back from the text that was saved |
| SpoolOps.OpenMeaning | rust/connectors/common/src/spool.rs:87-125 | opening loses no record: the position it drains from has in front of it exactly what was on disk behind the saved cursor, and the log is well formed |
| SpoolOps.EnforceMeaning | rust/connectors/common/src/spool.rs:158-184 | dropping ends within the bound or with the head alone, takes records only from the front, and moves the cursor forward only when its own segment went |
| SpoolOps.AppendMeaning | rust/connectors/common/src/spool.rs:129-142 | an append adds the record at the end of what lies ahead and changes nothing else but what the bound drops at the front; a peeked record is still under the cursor or gone with its segment |
| SpoolOps.DropReportUndercountsIff | rust/connectors/common/src/spool.rs:127-142 | one append drops more than one segment if and only if more than two segments exist and the log without its oldest is still over the bound |
| SpoolOps.DropReportExact | rust/connectors/common/src/runtime.rs:250-258 | within the bound and with records of at most a segment an append drops at most one, so the metric counts exactly |
| SpoolOps.PeekMeaning | rust/connectors/common/src/spool.rs:190-219 | peek returns the first record ahead, or nothing exactly when there is none, and moves the position over no record |
| SpoolOps.AdvanceMeaning | rust/connectors/common/src/spool.rs:223-239 | advance succeeds on the record under the cursor, moves over exactly that record, saves the cursor, and deletes nothing that lies ahead |
| Spool.Spool.Open | rust/connectors/common/src/spool.rs:87-125 | the constructor does what OpenFrom says and leaves a valid spool over any well-formed directory |
| Spool.Spool.Append | rust/connectors/common/src/spool.rs:129-142 | new state as AppendTo says; reports a drop exactly when the counter rose; stays valid and within the bound |
| Spool.Spool.Rotate | rust/connectors/common/src/spool.rs:144-156 | an empty next segment becomes the head |
| Spool.Spool.EnforceTheBound | rust/connectors/common/src/spool.rs:158-184 | the drop loop reaches the state EnforceBound says and reports whether it dropped |
| Spool.Spool.Peek | rust/connectors/common/src/spool.rs:190-219 | the skipping loop returns what PeekFrom says and changes only the cursor |
| Spool.Spool.Advance | rust/connectors/common/src/spool.rs:223-239 | new state as AdvanceFrom says, or failure with nothing changed |
| SpoolProtocol.TornMeaning | rust/connectors/common/src/spool.rs:129-184 | a crash anywhere inside append leaves a disk that resumes where the process was, with the record if all of it was written and without it otherwise |
| SpoolProtocol.StepKeepsInv | rust/connectors/common/src/runtime.rs:286-358 | every step of producer, drainer, crash and reopen keeps the invariant, and only a lost cursor moves the position back |
| SpoolProtocol.RunKeepsInv | rust/connectors/common/src/runtime.rs:286-358 | so does every run |
| SpoolProtocol.Conservation | rust/connectors/common/src/spool.rs:87-239 | in every run the appended history is a consumed prefix followed by exactly the records on disk ahead of the cursor, and each consumed record was confirmed by the broker, failed verification, or lay in a dropped segment |
| SpoolProtocol.ReplayOrder | rust/connectors/common/src/runtime.rs:267-293 | in every run the drainer peeks the first unconsumed record of the history, byte for byte, and nothing exactly when all are consumed |
| SpoolProtocol.NoRecordDrainedTwice | rust/connectors/common/src/runtime.rs:346-350 | in every run the records one process counts as drained are strictly increasing places of the history, all acknowledged, and the counter is their number, also when advance fails on a dropped segment |
| SpoolProtocol.LogShape | rust/connectors/common/src/spool.rs:129-184 | in every run segments are contiguous up to the head and all others are whole and full; from a process's first append on the total is within the bound or only the head remains; while each append meets the bound with a record of at most a segment the metric is the number of dropped segments |
| SpoolProtocol.MetricCanUndercount | rust/connectors/common/src/runtime.rs:250-258 | for every record that can be spooled, a run of open, as many appends as make three segments, crash, open with no room and one append ends with the metric below the number of dropped segments |
| SpoolProtocol.CursorStep | rust/connectors/common/src/spool.rs:158-239 | no step of a living process moves the cursor back, a stale advance included |
| SpoolProtocol.CursorNeverMovesBack | rust/connectors/common/src/runtime.rs:289-356 | nor does any interleaving of appends with the drainer's peeks, publishes and advances |
| SpoolProtocol.CrashResumes | README.md:578-585 | in every run a crash, whatever was in progress, resumes no earlier than the position before it, and a lost cursor replays from the oldest byte |
| SpoolProtocol.RoundDrains | rust/connectors/common/src/runtime.rs:288-357 | against a broker that answers, one round of the drainer takes off exactly the next record, and counts it exactly if its seal verifies |
| SpoolProtocol.RunDrains | rust/connectors/common/src/runtime.rs:267-358 | in every run, whenever the drainer is idle, as many such rounds as there are records ahead leave nothing behind, and confirm all the records that verify, in the order they were appended |
| AisReassembly.Reassembler.Take | rust/connectors/ais-nmea/src/ais.rs:175-199 | the method on the pending table does what Accept says |
| AisReassembly.AcceptIsKeyStep | rust/connectors/ais-nmea/src/ais.rs:175-199 | the shared table does for a key what the key's own automaton does and leaves every other key's live entry alone |
| AisReassembly.NonInterference | rust/connectors/ais-nmea/src/ais.rs:69-106 | with a monotone clock the messages of a key in any interleaved stream are the messages of that key's sentences alone |
| AisReassembly.MessageIsWhole | rust/connectors/ais-nmea/src/ais.rs:85-106 | every completed message is fragments 1 to n of one total, in order, one key, all less than 10 s after the first, payload and raw lines theirs |
| AisReassembly.UsedAtMostOnce | rust/connectors/ais-nmea/src/ais.rs:183-199 | no arrival is part of two completed messages |
| AisReassembly.MessagesByPlace | rust/connectors/ais-nmea/src/ais.rs:175-199 | the messages of a stream are those of its places, in order, so the two results above speak of all of them |
| AisText.SplitOfJoin | rust/connectors/ais-nmea/src/ais.rs:149-150 | splitting at commas undoes joining with them |
| AisText.ParseOfSentence | rust/connectors/ais-nmea/src/ais.rs:536-546 | a sentence around any text without a star passes its checksum and comes back as the text's fields |
| AisText.TagBlockIgnored | rust/connectors/ais-nmea/src/ais.rs:454-461 | a tag block in front changes nothing but the raw text kept |
| AisText.ParseOfPrint | rust/connectors/feed-synthetic/src/ais.rs:73-109 | a printed sentence of at most 255 fragments parses to its own fragment, and one of more is rejected |
| AisRoundTrip.ChunksOfPayload | rust/connectors/feed-synthetic/src/ais.rs:82-90 | the pieces of a payload are the payload, and their number is its length over 56 rounded up |
| AisRoundTrip.PrintedIsHeard | rust/connectors/feed-synthetic/src/ais.rs:82-109 | for every clock that does not go back and stays within 10 s, and from any reassembly state: the parser accepts every printed sentence of a payload of at most 255 fragments, and together they make exactly one message, that payload and fill |
| AisRoundTrip.PrintedIsHeardIff | rust/connectors/ais-nmea/src/ais.rs:140-200 | a payload is heard as that one message if and only if it takes at most 255 fragments |
| AisRoundTrip.HeardAmongOthers | rust/connectors/ais-nmea/src/ais.rs:140-200 | in any stream of frames, accepted or not, whose sentences of the printed key are the printed ones in order and within 10 s, the messages of that key are exactly that one |
| AisRoundTrip.TooManyFragments | rust/connectors/ais-nmea/src/ais.rs:159-167 | over 255 fragments no printed sentence is accepted |
| AisRoundTrip.Armoured | rust/connectors/feed-synthetic/src/ais.rs:54-70 | 6 times the characters less the fill is the number of bits written, and the characters spell the bits |
| AisRoundTrip.SixesOfArmoured | rust/connectors/ais-nmea/src/ais/bits.rs:16-30 | dearmouring gives back the six-bit groups, and armour uses no separator |
| AisRoundTrip.BitsReadBack | rust/connectors/ais-nmea/src/ais/bits.rs:16-40 | the decoder counts the bits that were written and reads each of them back |
| AisRoundTrip.BitsSurvive | rust/connectors/feed-synthetic/src/ais.rs:21-109 | end to end: every printed sentence is accepted and the bits decoded are the bits written, whatever the receiver was reassembling |
| EditDistance.Compute | rust/connectors/common/src/config.rs:419-432 | the two-row program computes the recurrence |
| EditDistance.LevIsDistance | rust/connectors/common/src/config.rs:419-432 | the recurrence is the length of a shortest insert, delete and substitute script: one exists and none is shorter |
| EditDistance.EditDistance | rust/connectors/common/src/config.rs:419-432 | hence the program returns the edit distance of any two strings |
| EditDistance.NoScriptIsShorter | rust/connectors/common/src/config.rs:419-432 | every script that turns a into b is at least that long |
| EditDistance.ShortestScript | rust/connectors/common/src/config.rs:419-432 | a script of that length |
| EditDistance.Symmetric | rust/connectors/common/src/config.rs:419-432 | the distance is symmetric |
| EditDistance.Triangle | rust/connectors/common/src/config.rs:419-432 | the distance satisfies the triangle inequality |
| EditDistance.ZeroIffEqual | rust/connectors/common/src/config.rs:419-432 | the distance is zero exactly for equal strings |
| Mavlink.ByteStepIsTakeIn | rust/connectors/feed-synthetic/src/mavlink.rs:24-29 | the byte-wise round is eight rounds of the bitwise reflected division by 0x8408 |
| Mavlink.Crc | rust/connectors/feed-synthetic/src/mavlink.rs:22-31 | the loop computes the bitwise CRC from 0xFFFF over the message and its extra byte |
| Mavlink.BurstDetected | rust/connectors/feed-synthetic/src/mavlink.rs:22-31 | two messages that differ only within two adjacent bytes have different checksums, at every length |
| Mavlink.Link.Frame | rust/connectors/feed-synthetic/src/mavlink.rs:39-53 | header, padded or cut payload and checksum of one of the three messages generated, and a sequence number that wraps at 256 |
| Mavlink.FrameAccepted | rust/connectors/mavlink/src/mavlink.rs:151-195 | the receiver accepts every frame the feed sends, as its message with its padded payload |
| Mavlink.CorruptFrameRejected | rust/connectors/mavlink/src/mavlink.rs:151-186 | an accepted v1 or v2 frame changed within two adjacent bytes between magic and checksum, length byte and message id left alone, is a checksum error |
| Mavlink.BitwiseLinear | rust/connectors/feed-synthetic/src/mavlink.rs:22-31 | the difference of two checksums is the checksum, from zero, of the difference |
| Mavlink.CorruptionVerdict | rust/connectors/mavlink/src/mavlink.rs:151-195 | the verdict on an accepted frame changed anyhow between magic and checksum, length byte left alone: unmapped id passed over; otherwise accepted if and only if the change and that of the CRC_EXTRA leave zero in the register, else a checksum error |
| Mavlink.RaisedLengthIsTruncated | rust/connectors/mavlink/src/mavlink.rs:172-175 | a frame whose length byte is raised, whatever else changes, is truncated |
| Mavlink.ChangedIdCanPass | rust/connectors/mavlink/src/mavlink.rs:176-187 | a HEARTBEAT of two payload bytes and a change of component and message id after which it is accepted as ATTITUDE |
| LineReader.CopyBounded | rust/connectors/common/src/stream.rs:61-73 | appends what fits, and sets the overflow flag exactly when something did not |
| LineReader.ReadLine | rust/connectors/common/src/stream.rs:17-59 | whatever pieces the stream comes in, the outcome is the simple form's, the buffer holds the line, and the stream stands at the next line |
| LineReader.DropCr | rust/connectors/common/src/stream.rs:55-57 | takes off exactly the trailing carriage returns |
| LineReader.StripCrMeaning | rust/connectors/common/src/stream.rs:55-57 | what is left is a prefix that ends in no carriage return, and all that went were carriage returns |
| LineReader.ReadAll | rust/connectors/common/src/stream.rs:17-59 | the outcomes of repeated reads do not depend on the pieces |
| LineReader.OutcomesOfLines | rust/connectors/common/src/stream.rs:1-5 | for every list of lines and unterminated rest, each line is delivered or rejected on its own and an overlong one costs only itself |
| StreamFraming.ReadFrame | rust/connectors/common/src/stream.rs:94-114 | a read of a length-prefixed frame yields what the simple form says and leaves the stream there |
| StreamFraming.ReadPayload | rust/connectors/common/src/stream.rs:75-91 | a length over the buffer is refused before any byte is read |
| StreamFraming.NextOfEncoded | rust/connectors/common/src/stream.rs:1-5 | a frame that fits is read whole; an oversize one is refused with its payload still on the stream |
| StreamFraming.ReadsUndoWire | rust/connectors/common/src/stream.rs:94-114 | for every list of frames that fit, and a last one cut off by the end of the stream, exactly the list is delivered |
| FileFollower.TakeOfEncoded | rust/connectors/common/src/file.rs:32-62 | a frame is taken once all of it is held, and nothing before |
| FileFollower.FileSource.Receive | rust/connectors/common/src/file.rs:81-114 | the receive loop yields what Recv says, holds what Recv says, and has advanced by the bytes read, on a frame, an error or none |
| FileFollower.FollowUndoesWire | rust/connectors/common/src/file.rs:94-110 | for all frames of at most 57,349 bytes with their prefix and any reads, the frames delivered are the frames written, a partial one is held back, and the bound never trips |
| FileFollower.LargerFrameCanFail | rust/connectors/common/src/file.rs:98-107 | when a frame that fits the buffer, its prefix and the bytes behind it, counted up to 8,191, exceed the bound, the reads that trip it |
| FileFollower.SmallerFrameNeverFails | rust/connectors/common/src/file.rs:94-110 | otherwise every way of reading delivers the frame once all of it is read, and waits before |
| FileFollower.FrameCanFailIff | rust/connectors/common/src/file.rs:15-17 | whatever bytes follow it, some reads refuse a first frame that fits the buffer if and only if it, its prefix and the bytes behind it, counted up to 8,191, exceed the bound |
| FileFollower.ReadsAreConserved | rust/connectors/common/src/file.rs:94-110 | with no frame of a file over that bound, any reads of any front of the file end waiting, the frames delivered are the first of the list, and they and the bytes held are what was read |
| FileFollower.FrameInListCanFail | rust/connectors/common/src/file.rs:98-107 | for any frame of a list over that bound, reads that deliver exactly the frames in front of it and then fail |
| FileFollower.FollowCanFailIff | rust/connectors/common/src/file.rs:81-114 | for every list of frames that fit the buffer and a partial one behind them, some reads fail if and only if some frame, its prefix and the bytes behind it, counted up to 8,191, exceed the bound |
| HttpServer.LineReadsBack | rust/connectors/common/src/http_server.rs:401-420 | a header line within the budget is read as written |
| HttpServer.TrailersReadBack | rust/connectors/common/src/http_server.rs:446-451 | trailers are read up to and with the blank line |
| HttpServer.ChunkedReadsBack | rust/connectors/common/src/http_server.rs:438-465 | decoding undoes chunked encoding (section 7.1 of RFC 9112) with extensions and trailers: the body is the concatenation and the position is the next request |
| HttpServer.ChunkedAt | rust/connectors/common/src/http_server.rs:436-465 | on any bytes, a body that is accepted never exceeds 64 KiB and the position moves forward within the data |
| HttpConnection.Connection.ReadLine | rust/connectors/common/src/http_server.rs:402-420 | one line, charged against the budget, as LineAt says |
| HttpConnection.Connection.ReadTrailers | rust/connectors/common/src/http_server.rs:446-451 | the loop reads the trailers TrailersAt says |
| HttpConnection.Connection.ReadChunked | rust/connectors/common/src/http_server.rs:438-465 | the loop reads the body ChunkedAt says |
| HttpConnection.Connection.ReadHead | rust/connectors/common/src/http_server.rs:356-399 | the loop reads the head HeadAt says, within 64 lines and 16 KiB |
| HttpConnection.Connection.Serve | rust/connectors/common/src/http_server.rs:288-344 | one request is answered, queued and left behind as ServeAt says |
| HttpConnection.Connection.Run | rust/connectors/common/src/http_server.rs:253-284 | the connection's frames are those of the session |
| HttpConnection.HeadReadsBack | rust/connectors/common/src/http_server.rs:356-399 | a head within the limits is read as its lines say, anywhere on a connection |
| HttpConnection.HeadersSpell | rust/connectors/common/src/http_server.rs:375-397 | length, chunking and token are what the headers say, whatever their order, case and repetition and whatever other headers there are |
| HttpConnection.RequestLineReads | rust/connectors/common/src/http_server.rs:358-373 | method and path of a request line, its query dropped |
| HttpConnection.DeliveryIsGood | rust/connectors/common/src/http_server.rs:299-320 | a POST or PUT to the configured path with the configured token and an announced body is a well-formed request |
| HttpConnection.RequestServed | rust/connectors/common/src/http_server.rs:288-344 | a well-formed request is accepted, its body is the frame, the position is the next request, and a full queue costs only this frame |
| HttpConnection.KeepAlive | rust/connectors/common/src/http_server.rs:250-344 | a keep-alive connection of well-formed requests yields the bodies of those that found room, in order |
| Adsb.PushRaw | rust/connectors/adsb/src/adsb.rs:80-95 | the pending lines become what the caps leave, with the count of lines dropped and the flag |
| Adsb.DrainPayload | rust/connectors/adsb/src/adsb.rs:98-109 | the payload is the pending lines joined, and the buffer is empty afterwards |
| Adsb.StateCache.Touch | rust/connectors/adsb/src/adsb.rs:119-129 | the entry exists afterwards, the oldest evicted if the cache was full |
| Adsb.StateCache.Take | rust/connectors/adsb/src/adsb.rs:173-224 | caching and emitting of one line as Accept says |
| Adsb.TouchedOrder | rust/connectors/adsb/src/adsb.rs:112-129 | the queue stays duplicate-free, at most 10,000 long and equal to the keys; only the oldest of a full cache goes |
| Adsb.KeptIsLongest | rust/connectors/adsb/src/adsb.rs:80-95 | the caps drop no more than they must |
| Adsb.StepKeepsInv | rust/connectors/adsb/src/adsb.rs:173-224 | every line keeps the conservation invariant |
| Adsb.FeedKeepsInv | rust/connectors/adsb/src/adsb.rs:66-130 | in every feed, an aircraft's lines since its last event or its entry's creation are the dropped ones followed by the pending ones, within 64 lines and 16 KiB, flagged exactly if some were dropped |
| Adsb.EventMeaning | rust/connectors/adsb/src/adsb.rs:204-224 | an event carries the end of what the aircraft sent since its last one, none of it in an earlier event, truncated exactly if lines are missing, with the latest value of every field |
| Adsb.Isolation | rust/connectors/adsb/src/adsb.rs:112-130 | one aircraft's line touches another only by evicting it, and only the oldest of a full cache |
| Pcap.ParsePcap | rust/connectors/common/src/replay.rs:29-101 | the record loop yields what the simple form says, errors included |
| Pcap.CaptureOf | rust/connectors/common/src/replay.rs:69-100 | datagrams and skipped packets together are the whole records |
| Pcap.CaptureReadsBack | rust/connectors/common/src/replay.rs:36-100 | a capture in any of the four formats, killed in the middle of a record, replays exactly its whole records |
| Pcap.TornCapture | rust/connectors/common/src/replay.rs:73-82 | any capture cut at any byte behind its header yields a prefix of its datagrams |
| Pcap.DelaysAreElapsed | rust/connectors/common/src/replay.rs:83-96 | the delays add up to the time from first to last datagram if and only if no timestamp goes back, and to more otherwise |
| Pcap.Timestamp | rust/connectors/common/src/replay.rs:83 | no timestamp overflows 64 bits |
| Pcap.TagsSkipped | rust/connectors/common/src/replay.rs:105-112 | any number of VLAN tags is skipped |
| Pcap.PayloadReadsBack | rust/connectors/common/src/replay.rs:103-135 | the payload of a UDP datagram behind any tags and IP options and in front of any padding is what was sent, and the port filter passes exactly its destination |
| Marking.EventTags.Apply | rust/connectors/common/src/marking.rs:109-138 | the in-place edit of the tags is what Applied says |
| Marking.MarkingMeaning | rust/connectors/common/src/marking.rs:104-138 | exactly one recognised class tag is left, at the highest of the floor and all wire levels; the other tags are kept in order and the configured ones are there |
| Marking.Idempotent | rust/connectors/common/src/marking.rs:109-138 | applying a marking twice is applying it once |
| Marking.LevelsCommute | rust/connectors/common/src/marking.rs:109-138 | two markings give the same level in either order, the highest of all |
| Marking.CanonicalLevel | rust/connectors/common/src/marking.rs:150-166 | a canonical level is recognised as itself |
| Marking.ConfigMeaning | rust/connectors/common/src/marking.rs:72-100 | a configured marking has 1 to 16 distinct tags and the configured level as its floor |
| Marking.Classification | rust/connectors/generic-egress/src/label.rs:20-39 | the loop finds the first class tag with a value |
| Marking.LabelShowsLevelIff | rust/connectors/generic-egress/src/label.rs:20-39 | the label of a marked event shows the resolved level if and only if no class tag of unknown value stands in front of the wire's first recognised one |
| Marking.UnknownLevelHides | rust/connectors/generic-egress/src/label.rs:20-39 | class:x in front of class:secret: the event is secret and the label shows X |
| Egress.Render | rust/connectors/generic-egress/src/map.rs:91-162 | the method builds the object Rendered says, or refuses |
| Egress.CollectLeftover | rust/connectors/generic-egress/src/map.rs:126-145 | the loop collects exactly the entries no path names |
| Egress.AttributeShownIff | rust/connectors/generic-egress/src/map.rs:99-135 | an attribute can be read back if and only if the event has it and its path is unmapped or mapped to a name the renderer does not write; no other can |
| Egress.MetadataShownIff | rust/connectors/generic-egress/src/map.rs:99-145 | the same for metadata |
| Egress.IdShownIff | rust/connectors/generic-egress/src/map.rs:106-108 | the same for the id |
| Egress.TagsShownIff | rust/connectors/generic-egress/src/map.rs:109-114 | the same for the policy tags |
| Egress.NothingLostIff | rust/connectors/generic-egress/src/map.rs:91-162 | with unique keys, the whole event can be read back if and only if every one of its paths survives so |
| Egress.NothingLost | rust/connectors/generic-egress/src/map.rs:91-162 | hence with consumer names clear of the five nothing is lost and nothing invented |
| Egress.OwnNamesAreKept | rust/connectors/generic-egress/src/map.rs:84-90 | the id mapped to event_id and the tags to policy_tags lose nothing either |
| Egress.LostAttributeIsGone | rust/connectors/generic-egress/src/map.rs:99-125 | when an attribute's path does not survive, the object is the same whatever the attribute's value |
| Egress.LostMetadataIsGone | rust/connectors/generic-egress/src/map.rs:99-125 | the same for metadata |
| Egress.LostIdIsGone | rust/connectors/generic-egress/src/map.rs:99-125 | the same for the id |
| Egress.LostTagsAreGone | rust/connectors/generic-egress/src/map.rs:99-125 | the same for the policy tags |
| Egress.DeterminedIff | rust/connectors/generic-egress/src/map.rs:91-162 | without any reader: every event of unique keys that renders to the same object has the same id, tags and entries, if and only if every content path the mapping names has a name the renderer does not write |
| Egress.ClearIsInjective | rust/connectors/generic-egress/src/map.rs:91-162 | with consumer names clear of the five, two events that render to the same object, whatever their labels, have the same id, tags and entries |
| Egress.ReservedNameLoses | rust/connectors/generic-egress/src/map.rs:106-160 | each of the five names the renderer writes can lose the attribute mapped to it alone |
| Egress.RefuseIff | rust/connectors/generic-egress/src/map.rs:126-162 | refuse succeeds if and only if every attribute and metadata key is mapped, and then renders what include renders |
| EventFields.IsRfc3339 | rust/ajar-connector/src/builder.rs:236-296 | the check with its moving index accepts what IsTimestamp says |
| EventFields.TimestampIff | rust/ajar-connector/src/builder.rs:236-296 | a text is accepted if and only if it is written as section 5.6 of RFC 3339 does, either case of its letters, with month 1 to 12, day 1 to 31 in every month, hour to 23, minute to 59 and second to 60 |
| EventFields.CalendarIff | rust/ajar-connector/src/builder.rs:265-272 | an accepted timestamp is one of the calendar if and only if its day is in its month of its year |
| EventFields.ImpossibleDateAccepted | rust/ajar-connector/src/builder.rs:265-272 | the thirty-first of a shorter month is accepted in every year |
| EventFields.NamespacedIff | rust/ajar-connector/src/builder.rs:298-309 | an entity type is accepted if and only if it is mim:type or x:vendor:type with non-empty parts without colons |
| Builder.FieldsMeaning | rust/ajar-connector/src/builder.rs:144-175 | no single field is refused if and only if all are there, the timestamp is of the grammar, the place on the planet, the type namespaced unless waived, the confidence a probability |
| Builder.FindDuplicate | rust/ajar-connector/src/builder.rs:197-213 | the scan finds the first pair of equal neighbouring keys |
| Builder.EventBuilder.AddAttribute | rust/ajar-connector/src/builder.rs:118-123 | one attribute at the end |
| Builder.EventBuilder.AddMetadata | rust/ajar-connector/src/builder.rs:125-132 | one metadata entry at the end |
| Builder.EventBuilder.Build | rust/ajar-connector/src/builder.rs:143-233 | the checks in the source's order, each with its error, then the sorted event, as Built says |
| Builder.OrderIrrelevant | rust/ajar-connector/src/builder.rs:143-233 | any permutation of the attribute and metadata calls gives the same event or the same error with the same key |
| Builder.BuildMeaning | rust/ajar-connector/src/builder.rs:143-233 | a build succeeds if and only if the fields are good, the limits hold and keys are distinct, and the event is what was set with attributes and metadata strictly sorted by key |
| Builder.SmallestDuplicate | rust/ajar-connector/src/builder.rs:195-213 | the key reported as duplicate is the smallest one that occurs twice |

## Left out

- Power loss that takes back bytes already written, failed deletes, and writes that fail half-way without a crash: the
  spool promises nothing there. A segment read fails only when the segment is missing.
- SpoolProtocol: appends are of records that read back (see SpoolCodec.EncodeRoundTripIff), and segment numbers and
  offsets do not overflow 64 bits.
- The seal check is any predicate on the sealed bytes; the broker's answer is any of acknowledged, no stream, or
  failed; sleeps, pacing and deadlines are left out.
- The live publish in front of the spool: one branch that ends in the append modelled here, a publish, or a counted
  drop.
- White space outside ASCII, which `trim` and `split_whitespace` would also take.
- FileFollower.FileSource.Receive: newline framing of files and reopening after rotation are not modelled; a read of
  no bytes is tried again.
- HTTP timeouts, TLS, response text, a failing `100 Continue` write and a closed queue; tokens are compared by
  equality, not in constant time.
- AIS fields beyond reading single bits, the identity and carry caches, TTM targets; the clock is a number that comes
  with each sentence.
- Adsb.StateCache.Take: a line arrives classified (aircraft, fields present, whether it is a position report); the
  splitting of CSV and number conversion are left out.
- MAVLink payload contents, which are field packing, and what the receiver does with an accepted message.
- Mavlink.CorruptionVerdict: a lowered length byte, after which the receiver looks for the checksum among the payload,
  is left out.
- The pace of a replay (speed, longest gap, looping), which is floating point.
- Releasability and the other parts of the confidentiality label, and marking of wire labels (`wire_classification`):
  one branch each.
- Egress: values of the other paths (numbers, location, times) are opaque, and the label's value is given.
- Builder.EventBuilder.Build: the sort is a stable insertion sort here; the schema version and the empty receive time
  of an event are left out, and floating-point numbers are reals, infinite or not a number.
- Marking.Classification: upper-casing is ASCII, so a value such as `ſecret`, which upper-cases to SECRET outside
  ASCII, is shown as it is.
- Marking.LabelShowsLevelIff: for the same reason its only-if half does not cover unknown values that upper-case to a
  level outside ASCII.
- EventFields.CalendarIff: which minutes end in a leap second is not part of this model; second 60 is accepted in all.
- The spelling suggestion around the edit distance (candidates and threshold).
- Sealing and signing, protobuf encoding, NATS, DDS and MQTT clients, TLS policy, health endpoint, doctor, command
  lines and configuration files, ASTERIX and the other connectors.
