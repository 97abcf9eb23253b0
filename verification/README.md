# bbcom engines in Dafny

bbcom is a serial console. Its hard code is a handful of small stateful engines: a streaming frame parser, an SMP
traffic decoder for two transports, a write scheduler, an idempotent commit protocol for projects, and several fast
forms that have to agree with something simple. This project models each of them in the form it has in the source
(classes with updated fields, loops over buffers, steps between awaits), states what it is for on plain values, and
proves that the two agree.

Run `dafny verify dfyconfig.toml` to check everything.

## How the project is built

Every engine comes with a specification on values that knows nothing of chunks, buffers, caches or saved positions.
A class keeps ghost fields for what it has been given so far, and its `Valid()` says that its concrete fields are exactly
what the specification makes of that. What a specification itself says is then stated apart from it, on bytes, fields and
literal limits, so that it cannot be wrong together with the code (`StreamPieces`, `ConsoleLines`, `CorrelationRuns`,
`TableEffects`, `BatchTerms`, and the lemmas named `...Means` elsewhere). Whole-run methods and lemmas (`FeedAll`, `Replay`, `Run`, `Serve`, `CorrelateAll`,
`CaptureAll`, `SendAndReceive`, ...) then speak about arbitrary runs.

| file | models | specification |
|---|---|---|
| `Framing.dfy` | what a stream decoder computes | one scan of the whole stream, move by move; `StreamPieces.dfy`: the pieces of a stream, judged by its bytes alone |
| `ProtocolParser.dfy` | `ProtocolParser` | `Framing.Scan` |
| `DelimiterAutomaton.dfy` | delimiter mode a second time | a byte-at-a-time automaton, proved equal to the scan |
| `RawUart.dfy` | SMP over a bare UART | `Framing.Scan`, and the feed each byte came with |
| `Base64.dfy` | the chunked base64 loops | section 4 of RFC 4648, group by group |
| `BitXor.dfy`, `Crc16.dfy` | CRC16-XMODEM | a linear register over the two-element field |
| `Console.dfy` | SMP over a shell console | lines, fragments and packets on byte sequences; `ConsoleLines.dfy`: what each kind of line does |
| `SmpPacket.dfy` | splitting a transport packet | recursive split at aligned offsets |
| `Correlation.dfy` | pairing requests with responses | a one-to-one matching with three exclusive fates; `CorrelationRuns.dfy`: who waits for whom, without a table |
| `McumgrSmpParser.dfy` | the shared expiry clock | the set of things that are due |
| `CborPreflight.dfy` | the CBOR token pass | item trees (section 3 of RFC 8949) |
| `WriteAccounting.dfy`, `SerialWriteScheduler.dfy` | `SerialWriteScheduler` as interleaved steps | prefixes of payloads in admission order |
| `WorkspaceTables.dfy`, `WorkspaceService.dfy` | batches, ledger, limits, undo slot, paged reads, export totals | a log of commits; ordered frame rows; `TableEffects.dfy`, `BatchTerms.dfy`: effects on fields, terms of a batch |
| `Waveform.dfy` | waveform samples of a session and their pruning | tables keyed by channel and sequence number; the newest groups |
| `SessionFrames.dfy`, `GlobalTrim.dfy`, `CaptureController.dfy` | retained captures, their trims, byte accounts, and what is recorded of them | `CaptureRun.dfy`: what a run of events comes to, on values; `CaptureMirror.dfy`: the stored rows mirror what is retained |
| `Search.dfy` | the record filter's byte and text search | contiguous occurrence |
| `MergedFrameRope.dfy` | merged terminal rows with cached tails | maximal runs of frames in one direction |
| `SerialRxQueue.dfy` | the drop-oldest receive queue | the newest part of everything fed |
| `Bytes.dfy`, `Wrappers.dfy` | bytes, flattened chunks, an optional value | |

## What the proofs found

- A delimiter-mode message whose delimiter is not part of the frame may be one byte longer, together with its delimiter,
  than the pending limit: the probe byte completes it. `Framing.DelimitedUnit` gives the exact condition.
- A console packet whose first fragment is too short to hold its length is lost, although it is a legal cut of the
  packet. `Console.Reassembly` and `Console.SendAndReceive` say that this is the only cut that is, and `Console.LostPacket`
  gives one: the smallest packet with a first fragment of a single byte.
- The base64 pattern accepts text whose unused bits in front of the padding are not zero, which section 3.5 of RFC 4648
  lets a decoder refuse. Decoding loses nothing, but encoding again gives the same text exactly when those bits are zero
  (`Base64.EncodeAgain`); "QR==" is such a text (`Base64.WidePattern`).
- A retry whose ledger row is gone is answered with a revision conflict, as the comment in the service promises, unless
  its batch id has meanwhile been used again: then the answer is that the id was reused. Either way nothing is committed.
- The text search lowers each chunk on its own, and lower-casing looks at context: with 65,534 letters a and a capital
  sigma filling the first 64 KiB and one more a behind them, the text lowered as a whole holds a sigma followed by an a
  and the search misses it (`Search.FinalSigmaMissed`). For text of plain letters, sigmas and characters that are no part
  of words, the search is exact for every search text of two characters or more if and only if no chunk breaks off inside
  a word behind a capital sigma with a letter before it (`Search.ExactIffUnbroken`); where one does, the whole lowered
  text is itself a search text that is missed.
- The label "ascii" that decodes console text stands for windows-1252 in the platform's decoder; the model follows it.
- Trimming captures by count is safe for the database because only a prefix of live frames followed by held-back ones is
  ever dropped (`CaptureRun.RunStored`), and a run records nothing that the store refuses when sessions are open and
  stored as retained, frame ids are new and numbers suffice (`CaptureRun.RunApplies`). The age order over all sessions holds when each session's own timestamps are in order
  (`GlobalTrim.OldestGoFirst`).

## Model

| member | source | states |
|---|---|---|
| `Framing.DecideStable` | src/lib/protocol-parser.ts:173-176 | more input never changes a decision that has been taken; this is what the look at only `limit + 1` bytes is for |
| `Framing.ScanExtend` | src/lib/protocol-parser.ts:173-176 | scanning a stream may stop after any prefix and go on from what was left: the result does not depend on chunking, in all four framing modes |
| `Framing.ScanRest` | src/lib/protocol-parser.ts:210-221 | what is left after a scan is a suffix of the stream on which the decoder waits |
| `Framing.WaitIsShort` | src/lib/protocol-parser.ts:89-99 | a decoder that waits holds fewer bytes than the frame size, the pending limit plus one, one MiB, or the largest SMP packet |
| `Framing.DecideBounded` | src/lib/protocol-parser.ts:280-284 | no frame shows more bytes than the limit allows, the probe byte included |
| `Framing.ScanConserves` | src/lib/protocol-parser.ts:243-351 | every byte is in exactly one frame, consumed delimiter, discarded stretch or the rest, and each frame equals the stream at its absolute offset |
| `Framing.ScanOrdered` | src/lib/protocol-parser.ts:83-87 | frames and discarded stretches follow each other without gap or overlap |
| `Framing.RoundTrip` | src/lib/protocol-parser.ts:169-196 | a stream of units that decode on their own decodes to exactly those units, with nothing discarded |
| `Framing.DelimitedUnit` | src/lib/protocol-parser.ts:269-288 | a terminated message decodes if and only if its delimiter occurs first at its end and it fits the limit, with one byte of grace for an excluded delimiter |
| `Framing.LengthUnit` | src/lib/protocol-parser.ts:290-316 | a frame decodes if and only if its field states its length and that lies between the header and one MiB |
| `Framing.RawSmpUnit` | src/lib/mcumgr-smp-parser.ts:1006-1016 | a message decodes if and only if its header is plausible and states its length |
| `StreamPieces.ScanReads` | src/lib/protocol-parser.ts:257-317 | said of the bytes alone, in all four modes: each frame or dropped stretch of a scan is what comes first in the stream left for it, and nothing comes first in the rest |
| `StreamPieces.OnlyScanReads` | src/lib/protocol-parser.ts:257-317 | no other list of frames and dropped stretches reads the stream like that |
| `StreamPieces.FixedBlocks` | src/lib/protocol-parser.ts:261-267 | fixed frames are the consecutive blocks of the stream, nothing is dropped and the rest is shorter than a block |
| `StreamPieces.WhatIsCounted` | src/lib/protocol-parser.ts:101-109 | each piece is shown as a frame or counted as one drop, and discarded bytes are those of the drops |
| `StreamPieces.FieldIsLength` | src/lib/protocol-parser.ts:294-303 | the length field is read as one, two or four bytes in the stated order |
| `DelimiterAutomaton.AutomatonIsScan` | src/lib/protocol-parser.ts:170-190 | delimiter mode equals an automaton that reads byte by byte and never searches, including overflow and the probe byte |
| `DelimiterAutomaton.FramesEndAtFirstDelimiter` | src/lib/protocol-parser.ts:269-288 | the delimiter that ends a frame is the only one in it |
| `ProtocolParsing.Configure` | src/lib/protocol-parser.ts:135-153 | exactly which configurations of each kind are refused, and that the pending limit is rounded down, never above one MiB and never below the delimiter's length |
| `ProtocolParsing.IndexOfArrayLike` | src/lib/protocol-parser.ts:430-452 | the both-ends-first comparison finds the first occurrence at or after the given index |
| `ProtocolParsing.LateStart` | src/lib/protocol-parser.ts:270-279 | a search that starts late finds the same match if nothing occurs earlier |
| `ProtocolParsing.CleanExtends` | src/lib/protocol-parser.ts:273-279 | the saved search offset still passes no match after more bytes have arrived |
| `ProtocolParsing.OverflowScan` | src/lib/protocol-parser.ts:243-255 | dropping all but one byte less than a delimiter is what the scan does with a full window, and nothing can be found in what is kept |
| `ProtocolParsing.ProtocolParser.Feed` | src/lib/protocol-parser.ts:170-196 | after any feed the window, the offsets and all three counters are those of one scan of everything fed, and the frames returned are the new ones of that scan |
| `ProtocolParsing.ProtocolParser.TakeFrames` | src/lib/protocol-parser.ts:183-194 | drain, limit and compaction together scan the window to its end |
| `ProtocolParsing.ProtocolParser.Drain` | src/lib/protocol-parser.ts:210-221 | the loop stops only when nothing more can be extracted, and accounts for every byte it took |
| `ProtocolParsing.ProtocolParser.ExtractDelimited` | src/lib/protocol-parser.ts:269-288 | one decision of delimiter mode, made with the saved search offset |
| `ProtocolParsing.ProtocolParser.ExtractLengthPrefixed` | src/lib/protocol-parser.ts:290-316 | one decision of length mode: wait, emit, or drop one byte and count it |
| `ProtocolParsing.ProtocolParser.EnforcePendingLimit` | src/lib/protocol-parser.ts:243-255 | an overflowing window loses exactly what the scan drops, counted once in each counter |
| `ProtocolParsing.ProtocolParser.Append` | src/lib/protocol-parser.ts:319-346 | in place, slid down or grown, the window is the old one followed by the input |
| `ProtocolParsing.ProtocolParser.CompactBuffer` | src/lib/protocol-parser.ts:223-241 | the window is unchanged and the dead prefix is then shorter than the window and than 64 KiB |
| `ProtocolParsing.ProtocolParser.Pending` | src/lib/protocol-parser.ts:155-158 | the partial buffer is always below the bound of the mode |
| `ProtocolParsing.ReadField` | src/lib/protocol-parser.ts:294-303 | the length field's value in either byte order |
| `ProtocolParsing.FeedAll` | src/lib/protocol-parser.ts:169-196 | for any cut of any stream into feeds: frames, pending bytes and counters equal one scan of the stream, which is the one list of pieces that reads it byte for byte |
| `RawUart.NoiseScan` | src/lib/mcumgr-smp-parser.ts:1018-1023 | discarding a stretch at once is skipping its bytes one by one |
| `RawUart.RawUartDecoder.FindDiscard` | src/lib/mcumgr-smp-parser.ts:1018-1023 | noise is discarded up to the next plausible header, or up to seven bytes before the end if there is none, and nothing discarded could begin a message |
| `RawUart.RawUartDecoder.FlushExpired` | src/lib/mcumgr-smp-parser.ts:220-236 | a partial packet is given up, whole, exactly after a silence of the timeout |
| `RawUart.RawUartDecoder.FeedRaw` | src/lib/mcumgr-smp-parser.ts:588-644 | the messages returned are the new ones of the scan since the last timeout, and no byte is lost |
| `RawUart.RawUartDecoder.ConsumeRawBytes` | src/lib/mcumgr-smp-parser.ts:988-1004 | the buffer's stamp is again that of the feed that delivered its first byte |
| `RawUart.DropDelivered` | src/lib/mcumgr-smp-parser.ts:988-1004 | the segments that stay still say which feed delivered each byte |
| `RawUart.Replay` | src/lib/mcumgr-smp-parser.ts:588-644 | over any run of feeds the records followed by the buffer are the input, each record carries the stamp of the feed with its first byte, messages have a header that states their length, no header begins in noise, what timed out could still have become a message, the buffer stays below the packet limit, each stretch between two timeouts gives the messages of one scan and times out what that scan leaves over, so that without a timeout there is one scan of everything |
| `Crc16.Crc16Xmodem` | src/lib/mcumgr-smp-parser.ts:1075-1084 | the masked shift-and-xor loop is the linear register of the model |
| `Crc16.CrcLinear` | src/lib/mcumgr-smp-parser.ts:1075-1084 | the checksums of two packets differ by the checksum of their difference |
| `Crc16.Residue` | src/lib/mcumgr-smp-parser.ts:525-528 | a packet with its big-endian checksum passes if and only if the checksum over both is zero |
| `Crc16.Generator` | src/lib/mcumgr-smp-parser.ts:1075-1084 | the register starts at zero and its polynomial is 0x1021 |
| `Crc16.BurstDetected` | src/lib/mcumgr-smp-parser.ts:525-543 | no error burst of up to sixteen bits, at any bit position, turns an accepted packet into another accepted one |
| `Crc16.OddErrorsDetected` | src/lib/mcumgr-smp-parser.ts:525-543 | no odd number of flipped bits does either |
| `Base64.BytesToBase64` | src/lib/base64.ts:22-34 | encoding chunk by chunk equals encoding at once |
| `Base64.Base64ToBytes` | src/lib/base64.ts:37-51 | exactly the texts of the accepted form decode, and chunked decoding fills the precomputed array exactly |
| `Base64.DecodeLength` | src/lib/base64.ts:41-42 | the length computed from the padding is the number of decoded bytes |
| `Base64.DigitIsLetter` | src/lib/base64.ts:22-34 | the alphabet of RFC 4648, letter by letter |
| `Base64.GroupBits` | src/lib/base64.ts:22-34 | the bits of a group are those of its digits, highest first, with pads for what is missing |
| `Base64.RoundTrip` | src/lib/base64.ts:21-51 | encoded text is accepted and decodes to the bytes |
| `Base64.EncodeAgain` | src/lib/base64.ts:19-51 | encoding what was decoded gives the text back if and only if the bits before the padding are zero |
| `Base64.WidePattern` | src/lib/base64.ts:19-51 | "QR==" is accepted as the byte that is encoded as "QQ==" |
| `Console.LinesExtend` | src/lib/mcumgr-smp-parser.ts:306-335 | lines may be taken out of the stream as it arrives |
| `Console.FindConsoleMarker` | src/lib/mcumgr-smp-parser.ts:1025-1043 | the leftmost marker of either kind |
| `Console.ConsoleDecoder.FlushExpired` | src/lib/mcumgr-smp-parser.ts:193-219 | something times out exactly from the announced time on, and it is the packet, the partial line, or both |
| `Console.ConsoleDecoder.FeedConsole` | src/lib/mcumgr-smp-parser.ts:295-358 | packets and faults are exactly those of the complete lines heard, whatever the chunks, and an overlong unfinished line is dropped but for a possible marker byte |
| `Console.ConsoleDecoder.ConsumeConsoleLine` | src/lib/mcumgr-smp-parser.ts:360-558 | one line's packet, faults and new assembly state, as the line's bytes alone determine them |
| `Console.ConsoleDecoder.Recover` | src/lib/mcumgr-smp-parser.ts:560-586 | after a fault the next initial marker of the line is tried, at most 32 deep |
| `Console.EncodedLineCarries` | src/lib/mcumgr-smp-parser.ts:389-392 | a marked base64 line is read as its fragment, also behind marker-free noise |
| `ConsoleLines.PlainLine` | src/lib/mcumgr-smp-parser.ts:370-371 | a line in which no marker stands anywhere changes nothing and reports nothing |
| `ConsoleLines.InitialLine` | src/lib/mcumgr-smp-parser.ts:370-481 | an initial marker with text that decodes: restart, missing or illegal length, or a packet begun |
| `ConsoleLines.ContinuationLine` | src/lib/mcumgr-smp-parser.ts:482-505 | a continuation marker: an orphan, or a packet continued and delivered as soon as it is whole |
| `ConsoleLines.Recovered` | src/lib/mcumgr-smp-parser.ts:389-411 | behind markers whose text does not decode, a whole packet on the same line is delivered if and only if there are at most 32 of them, and each that fails is reported |
| `ConsoleLines.NotRecovered` | src/lib/mcumgr-smp-parser.ts:560-586 | without an initial marker behind it, text that does not decode leaves one fault and no packet |
| `ConsoleLines.DamagedThenWhole` | src/lib/mcumgr-smp-parser.ts:560-586 | a damaged line run into a whole one costs one fault and no packet |
| `ConsoleLines.AnyPacket` | src/lib/mcumgr-smp-parser.ts:508-557 | right or wrong: as soon as there are as many bytes as stated a packet is shown, once, with its checksum tested and what is too much counted |
| `ConsoleLines.BurstReported` | src/lib/mcumgr-smp-parser.ts:525-557 | a packet hit by a burst of up to sixteen bits arrives as one with a wrong checksum |
| `ConsoleLines.BlanksDoNotMatter` | src/lib/mcumgr-smp-parser.ts:389-392 | white space in the text of a fragment does not matter |
| `ConsoleLines.OthersSpoil` | src/lib/mcumgr-smp-parser.ts:389-392 | any other byte outside the alphabet makes the fragment invalid |
| `Console.Reassembly` | src/lib/mcumgr-smp-parser.ts:360-558 | any cut of a length-prefixed, checksummed packet into marked lines among log lines delivers exactly that packet, once and valid, if and only if the first fragment holds the length |
| `Console.WireRoundTrip` | src/lib/mcumgr-smp-parser.ts:295-558 | the lines found in the bytes on the wire decode to the packet, or without its length to nothing |
| `Console.SendRoundTrip` | src/lib/mcumgr-smp-parser.ts:295-558 | the lines a sender encodes are read as the packet for every cut with a first fragment of two bytes or more, and for no other |
| `Console.Replay` | src/lib/mcumgr-smp-parser.ts:295-358 | the decoder, fed any chunks, reports what listening to them one after the other comes to, overlong lines included |
| `Console.ListenIsLines` | src/lib/mcumgr-smp-parser.ts:306-338 | as long as no feed leaves an overlong line unfinished, the records are those of the lines of the whole stream, however it is chunked |
| `Console.Receive` | src/lib/mcumgr-smp-parser.ts:295-558 | the decoder, fed any chunks whose lines, however ended, carry the fragments among other lines, delivers the packet, or nothing if the first fragment does not hold the length |
| `Console.SendAndReceive` | src/lib/mcumgr-smp-parser.ts:295-558 | what a sender encodes is delivered by the decoder for every legal packet, every cut and every chunking, if and only if the first fragment holds the length |
| `Console.LostPacket` | src/lib/mcumgr-smp-parser.ts:418-443 | the failing cut: a first fragment of one byte loses the whole packet |
| `SmpPacket.DecodeTransportPacket` | src/lib/mcumgr-smp-parser.ts:646-710 | the loop with its alignment step is the recursive split at multiples of four, and padding that is not zero is noted |
| `SmpPacket.SplitJoin` | src/lib/mcumgr-smp-parser.ts:646-710 | messages packed with zero padding split into exactly those messages, at aligned offsets and with nothing to note |
| `SmpPacket.SplitAccounts` | src/lib/mcumgr-smp-parser.ts:646-710 | the parts account for every packet: messages at multiples of four that state their length, a note for padding that is not zero, and at most one broken part at the end, of the right kind |
| `SmpPacket.OnlySplitAccounts` | src/lib/mcumgr-smp-parser.ts:646-710 | no other list of parts does |
| `Correlation.Correlator.Correlate` | src/lib/mcumgr-smp-parser.ts:857-908 | the whole new table; a response takes the oldest open request it answers or is an orphan, and statuses and round-trip times follow from that |
| `Correlation.Correlator.ExpirePendingRequests` | src/lib/mcumgr-smp-parser.ts:910-917 | exactly the requests whose time has come leave the table, each marked unmatched |
| `Correlation.Correlator.FindRequest` | src/lib/mcumgr-smp-parser.ts:879-890 | the first eligible request of the table, or proof that there is none |
| `Correlation.LinkKeeps` | src/lib/mcumgr-smp-parser.ts:901-907 | linking keeps the matching one to one and each request in exactly one of its three states |
| `Correlation.DropKeeps` | src/lib/mcumgr-smp-parser.ts:910-917 | so does giving a request up |
| `Correlation.AliveAll` | src/lib/mcumgr-smp-parser.ts:910-917 | expiry changes nothing exactly while the time is before every deadline |
| `Correlation.CorrelateAll` | src/lib/mcumgr-smp-parser.ts:857-917 | over any run of records: each response gets the oldest open request it answers, the open requests are those of the step-by-step account, the matching is mutual between opposite directions with equal sequence, group and command, a request has one of three exclusive fates, at most 256 are open, and records are otherwise untouched |
| `CorrelationRuns.TableSays` | src/lib/mcumgr-smp-parser.ts:857-917 | the table holds exactly the requests that nothing answered, no deadline passed and no 255 newer ones crowded out |
| `CorrelationRuns.AnswerIsRight` | src/lib/mcumgr-smp-parser.ts:879-890 | a response is given the oldest request that waits, is in time, and agrees in operation, sequence, group, command and direction |
| `CorrelationRuns.CorrelateRun` | src/lib/mcumgr-smp-parser.ts:857-917 | over any run, both of these for every response and for the table at the end, said of the records alone |
| `McumgrSmp.McumgrSmpParser.NextExpiryTimestamp` | src/lib/mcumgr-smp-parser.ts:243-263 | the announced time is the first at which anything is due in either direction or in the table |
| `McumgrSmp.McumgrSmpParser.FlushExpired` | src/lib/mcumgr-smp-parser.ts:191-241 | flushing acts if and only if something is due, and otherwise leaves all state as it is |
| `CborPreflight.Preflight` | src/lib/mcumgr-smp-cbor.ts:56-123 | the loop with its stack and counters lets through exactly the streams the step relation accepts within both budgets |
| `CborPreflight.CollapseCompletedContainers` | src/lib/mcumgr-smp-cbor.ts:138-140 | exactly the finished containers on top are closed |
| `CborPreflight.TreeRuns` | src/lib/mcumgr-smp-cbor.ts:67-119 | the tokens of a well-formed item are accepted wherever an item is expected and there is depth for it |
| `CborPreflight.TreeFound` | src/lib/mcumgr-smp-cbor.ts:67-119 | every accepted prefix is a tree under construction that matches the stack of budgets |
| `CborPreflight.NodesAreItems` | src/lib/mcumgr-smp-cbor.ts:92-93 | the nodes counted for the tokens of a tree are its items |
| `CborPreflight.AcceptedIffOneItem` | src/lib/mcumgr-smp-cbor.ts:56-123 | a stream passes if and only if it flattens one complete item tree within the depth limit and with no more items than the node budget |
| `SerialWriting.SerialWriteScheduler.Enqueue` | src/lib/serial-write-scheduler.ts:157-201 | admission if and only if the payload is not empty, the scheduler accepts, the gate agrees and both limits hold; which error a refusal gives, and that it changes nothing |
| `SerialWriting.SerialWriteScheduler.NextOperation` | src/lib/serial-write-scheduler.ts:264-275 | the first unsettled operation of those waiting becomes active and those behind it wait on, or nothing is left, the loop sleeps and the waiters wake |
| `SerialWriting.SerialWriteScheduler.BeginCall` | src/lib/serial-write-scheduler.ts:288-308 | a call is made if and only if the scheduler accepts, the gate agrees and bytes are left; it asks for the unsent rest of the current chunk; otherwise which result the write ends with |
| `SerialWriting.SerialWriteScheduler.DriverReturned` | src/lib/serial-write-scheduler.ts:308-328 | exactly the bytes an honest answer reports are credited and continue the wire; a stale or implausible answer credits nothing |
| `SerialWriting.SerialWriteScheduler.Credit` | src/lib/serial-write-scheduler.ts:321-328 | an honest answer is credited in full and the write goes on, unless the scheduler stopped accepting meanwhile |
| `SerialWriting.SerialWriteScheduler.StaleReturn` | src/lib/serial-write-scheduler.ts:314-319 | the answer of a call that outlived the grace changes no result and no counter, whatever the driver took |
| `SerialWriting.SerialWriteScheduler.DriverThrew` | src/lib/serial-write-scheduler.ts:309-313 | the failed write reports what was sent before, as a failure while accepting and as cancelled after shutdown |
| `SerialWriting.Broken` | src/lib/serial-write-scheduler.ts:309-324 | a write that the driver stops is cancelled if and only if the scheduler no longer accepts, and otherwise fails in part or in full |
| `SerialWriting.SerialWriteScheduler.FinishOperation` | src/lib/serial-write-scheduler.ts:268-270 | the active operation gets the write's result unless it has one |
| `SerialWriting.SerialWriteScheduler.Settle` | src/lib/serial-write-scheduler.ts:341-348 | one result per operation, and the floors of zero never act |
| `SerialWriting.SerialWriteScheduler.BeginShutdown` | src/lib/serial-write-scheduler.ts:237-246 | exactly the queued operations are cancelled unsent; it returns at once only with both counters at zero |
| `SerialWriting.SerialWriteScheduler.GraceExpired` | src/lib/serial-write-scheduler.ts:247-258 | the operation waited for is cancelled with its sent prefix and both counters are zero |
| `SerialWriting.SerialWriteScheduler.ShutdownCompleted` | src/lib/serial-write-scheduler.ts:247-258 | a shutdown that returns because its operation settled finds both counters at zero |
| `SerialWriting.SerialWriteScheduler.ResolveIdleWaiters` | src/lib/serial-write-scheduler.ts:364-372 | waiters are woken together, and only with an empty queue and no call |
| `SerialWriting.AdmitKeeps` | src/lib/serial-write-scheduler.ts:186-198 | admission keeps counters, order and wire exact |
| `SerialWriting.ProgressKeeps` | src/lib/serial-write-scheduler.ts:325-327 | crediting bytes keeps the wire the concatenation of prefixes and the counters exact |
| `SerialWriting.LateKeeps` | src/lib/serial-write-scheduler.ts:315-319 | bytes taken by a call that outlived the grace continue the wire too, at most a chunk of it unreported |
| `SerialWriting.GraceExcuses` | src/lib/serial-write-scheduler.ts:247-258 | when the grace expires, the operation in flight is the only one ever excepted, and all others are settled |
| `SerialWriting.LateExcused` | src/lib/serial-write-scheduler.ts:314-319 | what its call still takes stays within that one call |
| `SerialWriting.SettleKeeps` | src/lib/serial-write-scheduler.ts:341-348 | settling takes exactly one operation and its unsent bytes off the account |
| `SerialWriting.Run` | src/lib/serial-write-scheduler.ts:157-372 | every interleaving: one prefix per admitted payload in order on the wire, calls inside chunk-aligned blocks and only while accepting, exact counters within limits, at most one settlement each, with the bytes the driver took, except for one operation at most, and for that only if a shutdown's grace expired in the run: the one whose call was then in flight, cancelled with the bytes credited before that call; outcome, error code and byte count agree, and nothing is cancelled while the scheduler accepts; all settled once the loop sleeps or shutdown is over |
| `SerialWriting.SerialWriteScheduler.Perform` | src/lib/serial-write-scheduler.ts:247-258 | in any step, only an expired grace makes an exception, and only of the operation whose call is in flight |
| `SerialWriting.Continue` | src/lib/serial-write-scheduler.ts:157-372 | history only grows; after shutdown nothing is admitted and no call starts; without an expired grace no exception is added |
| `WriteAccounting.WireGrows` | src/lib/serial-write-scheduler.ts:305-327 | extending the prefix of the last started payload extends the wire at its end |
| `WorkspaceStore.ValidateLogicalBatchSize` | crates/bbcom-workspace/src/service.rs:944-996 | the budget in frames and bytes, with its exception for one large frame alone |
| `BatchTerms.BudgetMeans` | crates/bbcom-workspace/src/service.rs:949-996 | 256 frames and 512 KiB of frame and other bytes together, or one frame of up to 2 MiB alone |
| `BatchTerms.PayloadMeans` | crates/bbcom-workspace/src/mutation.rs:41-99 | what each kind of mutation may carry |
| `BatchTerms.AcceptableMeans` | crates/bbcom-workspace/src/service.rs:918-942 | names, number of steps, gapless numbering, payloads and budget: exactly these make a batch acceptable |
| `WorkspaceStore.WorkspaceService.ApplyBatch` | crates/bbcom-workspace/src/service.rs:508-642 | commit or no change at all, exactly when it commits, the first reason for every refusal, and the answer to every retry of a committed request |
| `WorkspaceStore.AtMostOnce` | crates/bbcom-workspace/src/service.rs:34-38 | no request occurs twice in the log of commits, ledger row or not |
| `WorkspaceStore.LedgerKeeps` | crates/bbcom-workspace/src/service.rs:574-597 | pruning every 64th revision keeps the newest batches, at least 1024 of them if there are that many |
| `WorkspaceStore.Serve` | crates/bbcom-workspace/src/service.rs:508-642 | over any run of submissions and retries: the revision counts commits, no request commits twice, the tables are the mutations of the commits applied in order and within every limit, the ledger is the newest part of the log with at most 1087 rows |
| `WorkspaceStore.WorkspaceService.ReadHeader` | crates/bbcom-workspace/src/model.rs:112-142 | the header is never refused as corrupt |
| `WorkspaceStore.WorkspaceService.HydrateFrames` | crates/bbcom-workspace/src/service.rs:173-251 | which requests are refused, and that a page is cut only where the frame limit or the byte cap is reached |
| `WorkspaceStore.ReadPage` | crates/bbcom-workspace/src/service.rs:212-245 | a page is a run of consecutive rows, never empty while rows remain, and names the row it stopped at |
| `WorkspaceStore.ReadAll` | crates/bbcom-workspace/src/service.rs:173-251 | following the next sequence number from zero ends and visits every frame once, in order |
| `WorkspaceStore.HydrateBoundedPage` | src-tauri/src/commands/export.rs:370-412 | the page is truncated strictly at the ceiling, which also ends the read |
| `WorkspaceStore.ExpectedTotals` | src-tauri/src/commands/export.rs:322-350 | the announced totals are the number and bytes of the frames below the ceiling |
| `WorkspaceTables.InsertFrames` | crates/bbcom-workspace/src/mutation.rs:296-320 | rows at consecutive sequence numbers, all or an error on a duplicate |
| `WorkspaceTables.AppendStores` | crates/bbcom-workspace/src/mutation.rs:296-320 | frames appended behind the highest number are stored behind all others, in order |
| `WorkspaceTables.ApplyMutations` | crates/bbcom-workspace/src/mutation.rs:30-39 | mutations one after the other, none of them if one fails or the outcome exceeds a limit, and which error comes first |
| `WorkspaceTables.ValidateWorkspaceLimits` | crates/bbcom-workspace/src/mutation.rs:869-943 | the first limit exceeded in the order of the checks; sums range over sessions that are not archived |
| `WorkspaceTables.SumWithout` | crates/bbcom-workspace/src/mutation.rs:869-943 | the sums do not depend on the order in which sessions are visited |
| `TableEffects.LimitsMean` | crates/bbcom-workspace/src/mutation.rs:869-941 | the limits, number by number, on what sessions that are not archived and plugins hold |
| `TableEffects.MetadataMeans` | crates/bbcom-workspace/src/mutation.rs:159-186 | the name is replaced, or all stays |
| `TableEffects.ActiveMeans` | crates/bbcom-workspace/src/mutation.rs:188-206 | the session selected becomes the active one if it is there and not archived |
| `TableEffects.UpsertMeans` | crates/bbcom-workspace/src/mutation.rs:208-268 | a new session starts empty, another keeps its content; either is in use with the new profile |
| `TableEffects.RemoveMeans` | crates/bbcom-workspace/src/mutation.rs:270-294 | the removed session takes the undo slot, the one before it is purged, and it is no longer active |
| `TableEffects.FeatureMeans` | crates/bbcom-workspace/src/mutation.rs:390-432 | one feature state of one session is replaced and all else stays |
| `TableEffects.PluginMeans` | crates/bbcom-workspace/src/mutation.rs:433-467 | the state of a plugin is replaced if it is at most 16 MiB, and all else stays |
| `TableEffects.CollectionsMean` | crates/bbcom-workspace/src/mutation.rs:521-614 | collections are replaced and all else stays |
| `TableEffects.MessagesMean` | crates/bbcom-workspace/src/mutation.rs:616-662 | messages go behind those that are there, refused if the position is wrong or an id is taken |
| `TableEffects.ClearMeans` | crates/bbcom-workspace/src/mutation.rs:664-674 | the messages go and all else stays |
| `TableEffects.TrimMeans` | crates/bbcom-workspace/src/mutation.rs:343-362 | so many rows go from the front, and at least one must |
| `TableEffects.AppendMeans` | crates/bbcom-workspace/src/mutation.rs:296-320 | frames are stored under consecutive numbers exactly if they are valid and neither numbers nor ids are taken |
| `TableEffects.ReplaceMeans` | crates/bbcom-workspace/src/mutation.rs:322-341 | the capture becomes the given frames exactly if they are valid and their ids differ |
| `TableEffects.ChannelsMean` | crates/bbcom-workspace/src/mutation.rs:676-720 | the channels become the given ones, and all samples go |
| `TableEffects.SamplesMean` | crates/bbcom-workspace/src/mutation.rs:744-790 | samples with new keys in channels that exist are added and all pruned, or none is |
| `WorkspaceTables.ApplyKeeps` | crates/bbcom-workspace/src/mutation.rs:101-157 | every mutation keeps the active session visible, at most one session in the undo slot, and rows in key order with distinct ids |
| `WorkspaceTables.ApplyAllKeeps` | crates/bbcom-workspace/src/mutation.rs:30-39 | so does every batch |
| `WorkspaceTables.UndoRestores` | crates/bbcom-workspace/src/mutation.rs:206-294 | removing a session and upserting it again, with anything but another removal or that upsert between, gives back all its content, waveform data and feature states included |
| `WorkspaceTables.OthersUntouched` | crates/bbcom-workspace/src/mutation.rs:101-157 | a mutation of one session leaves every other as it is, except that a removal gives up the one archived before |
| `WorkspaceTables.ReplaceStores` | crates/bbcom-workspace/src/mutation.rs:322-341 | a replaced capture is stored as given, and all other content stays |
| `Waveform.AppendSamples` | crates/bbcom-workspace/src/mutation.rs:744-790 | the loop inserts all samples or fails at the first without a channel or with a key in use, and then prunes |
| `Waveform.InsertedAll` | crates/bbcom-workspace/src/mutation.rs:758-773 | after a success the table holds its old samples, the new ones and nothing else |
| `Waveform.PruneBounds` | crates/bbcom-workspace/src/mutation.rs:774-788 | at most 600 groups of equal sequence number stay, and fewer than 600 only when nothing was dropped |
| `Waveform.PruneKeepsNewest` | crates/bbcom-workspace/src/mutation.rs:774-788 | a group stays or goes whole, no dropped sample is newer than a kept one, and kept ones are unchanged |
| `Waveform.AppendKeeps` | crates/bbcom-workspace/src/mutation.rs:729-790 | every stored sample keeps an existing channel and the number of groups its bound |
| `SessionFrames.SerialSession.AppendFrame` | src/lib/session-store-helpers.ts:41-89 | only a prefix of live frames, held-back frames and the new one goes; the counts are exact; no fewer frames from the count limit on would meet the byte cap; the counters count the frame even if it is dropped |
| `SessionFrames.SerialSession.FlushPausedFramesToLive` | src/lib/session-store-helpers.ts:91-123 | resuming keeps capture order and trims as an append does |
| `SessionFrames.SerialSession.ShiftOldest` | src/lib/session-store-helpers.ts:190-200 | the first frame in capture order goes, a held-back one only when no live one is left |
| `SessionFrames.LeastCutIsLeast` | src/lib/session-store-helpers.ts:71-78 | any cut that meets the cap drops at least as many frames |
| `SessionFrames.OnlyLeast` | src/lib/session-store-helpers.ts:71-78 | the trim has exactly one outcome |
| `SessionFrames.CapMet` | src/lib/session-store-helpers.ts:71-78 | from an exact byte count the cap is met and the count stays exact |
| `GlobalTrim.FindOldest` | src/lib/session-store-helpers.ts:151-168 | the session whose first frame is oldest, the earlier one of two equally old |
| `GlobalTrim.TrimSessionsToGlobalByteLimit` | src/lib/session-store-helpers.ts:141-188 | the sessions end as the value-level trim says, and both tables say exactly how much each lost |
| `GlobalTrim.TrimAllCuts` | src/lib/session-store-helpers.ts:141-188 | every session loses a prefix only, the cap is met, and an exact count stays exact |
| `GlobalTrim.TrimAllIsLeast` | src/lib/session-store-helpers.ts:150-176 | no frame goes without need: with an exact count, the cap was still exceeded with the last frame dropped |
| `GlobalTrim.OldestGoFirst` | src/lib/session-store-helpers.ts:140-168 | with sessions in time order, nothing dropped anywhere is younger than anything kept anywhere |
| `CaptureMirror.StoredEqualsRetained` | crates/bbcom-workspace/src/mutation.rs:343-362 | for any log of captures and drops over several sessions, the rows stored for each once the mutations apply are what the log retains of it, in order |
| `CaptureControl.CaptureController.AddFrame` | src/features/sessions/capture/session-capture-controller.ts:195-246 | the new state is that of the value-level step: the own session trimmed by the least cut, then all by the aggregate cap, byte accounts exact, the frame and every loss recorded |
| `CaptureControl.CaptureController.RecordTrims` | src/features/sessions/capture/session-capture-controller.ts:230-245 | exactly one entry per session that lost frames, own trim and aggregate trim together, and none that is empty |
| `CaptureControl.CaptureController.SetCapturePaused` | src/features/sessions/capture/session-capture-controller.ts:278-296 | resuming with frames held back releases and trims them as the value-level step says, accounts exact, losses recorded |
| `CaptureControl.CaptureController.ClearFrames` | src/features/sessions/capture/session-capture-controller.ts:260-276 | a capture with frames or counters is cleared, its numbering starts again, and that is recorded |
| `CaptureControl.CaptureController.EnforceGlobalFrameByteLimit` | src/features/sessions/capture/session-capture-controller.ts:141-166 | over the cap the oldest first frames go, the accounts of all sessions stay exact, and the counts say what each lost |
| `CaptureControl.CaptureAll` | src/features/sessions/capture/session-capture-controller.ts:138-296 | over any run of arrivals, pauses, resumptions and clears: the sessions end, and the mutations are, as the fold of the events says; within the caps they stay; and from a ready start the store takes all mutations and ends with each session stored as it is retained |
| `CaptureRun.AddMeans` | src/features/sessions/capture/session-capture-controller.ts:195-245 | a frame is recorded under the next number before any loss, comes last, and others lose at most their front |
| `CaptureRun.NothingIsLost` | src/lib/session-store-helpers.ts:41-89 | within the limits nothing is lost |
| `CaptureRun.SetPausedMeans` | src/features/sessions/capture/session-capture-controller.ts:278-296 | the flag is set, pausing loses nothing, and resuming holds nothing back any more |
| `CaptureRun.ClearMeans` | src/features/sessions/capture/session-capture-controller.ts:260-276 | frames and counters go, numbering starts again, and nothing happens if there are none |
| `CaptureRun.RunTracks` | src/features/sessions/capture/session-capture-controller.ts:195-296 | for any run the recorded log alone accounts for what every session retains and for its next number |
| `CaptureRun.RunStored` | crates/bbcom-workspace/src/mutation.rs:296-362 | once what was recorded is applied, the rows of each session are the frames it retains, in order |
| `CaptureRun.RunApplies` | crates/bbcom-workspace/src/mutation.rs:296-362 | if sessions are open and stored as retained, ids new and numbers large enough, no recorded mutation is refused |
| `CaptureRun.RunFits` | src/features/sessions/capture/session-capture-controller.ts:141-166 | every run keeps each session within 64 MiB and all of them within 256 MiB |
| `Search.FailureTable` | src/lib/parser-panel.ts:316-331 | each entry is the longest proper border of its prefix |
| `Search.ByteSequenceIncludes` | src/lib/parser-panel.ts:316-331 | true if and only if the needle occurs contiguously |
| `Search.DecodedTextIncludes` | src/lib/parser-panel.ts:300-314 | what the search computes, chunk by chunk with an overlap; where lowering is seamless at the cuts, that it finds a match if and only if the whole lowered text has one, and never anything in no data |
| `Search.AcrossBoundary` | src/lib/parser-panel.ts:300-314 | the overlap of one character less than the search text loses no match |
| `Search.CharacterWiseIsSeamless` | src/lib/parser-panel.ts:300-314 | lowering that goes character by character is seamless at every cut |
| `Search.ExactIffUnbroken` | src/lib/parser-panel.ts:300-314 | for text of letters, sigmas and other characters: every search text of two characters or more is found exactly when the whole lowered text holds it, if and only if no chunk breaks off inside a word behind a capital sigma |
| `Search.SeamlessIsExact` | src/lib/parser-panel.ts:306-313 | whatever the lowering, seamless cuts make the chunked search exact |
| `Search.BrokenMisses` | src/lib/parser-panel.ts:306-313 | where a word breaks off behind a capital sigma, the whole lowered text is missed |
| `Search.FinalSigmaMissed` | src/lib/parser-panel.ts:298-314 | a match across the first 64 KiB that the search misses |
| `MergedFrameRope.RowsAreMaximalRuns` | src/lib/merged-frame-rope.ts:114-157 | rows are the maximal stretches in one direction, each with its first frame's identity and all its bytes |
| `MergedFrameRope.RowsKeepBytes` | src/lib/merged-frame-rope.ts:114-157 | rows hold all bytes in order |
| `MergedFrameRope.MergedFrameRopeIndex.Append` | src/lib/merged-frame-rope.ts:114-157 | after an append the live runs are the rows of all frames so far, and every cached tail and memoized count of a current version is that of the row's bytes |
| `MergedFrameRope.MergedFrameRopeIndex.Rebuild` | src/lib/merged-frame-rope.ts:101-112 | rebuilding ends where appending all along would |
| `MergedFrameRope.MergedFrameRopeIndex.Clear` | src/lib/merged-frame-rope.ts:89-99 | every run is detached and empty and the cache is gone |
| `MergedFrameRope.MergedFrameRopeIndex.TailFor` | src/lib/merged-frame-rope.ts:211-228 | cached or copied, the tail is the newest 64 KiB of the row as it is now; a row cleared away shows nothing |
| `MergedFrameRope.MergedFrameRopeIndex.OmittedBytes` | src/lib/merged-frame-rope.ts:147-149 | tail and omitted bytes together are the row |
| `MergedFrameRope.NewestMeans` | src/lib/merged-frame-rope.ts:211-228 | the tail is the last 64 KiB, or all of it |
| `MergedFrameRope.MergedFrameRopeIndex.FreshTailEntry` | src/lib/merged-frame-rope.ts:231-241 | a cached tail is returned exactly if one of the current version is there, and moves to the front; a stale one is removed; the rest keeps its order |
| `MergedFrameRope.MergedFrameRopeIndex.RememberTail` | src/lib/merged-frame-rope.ts:243-249 | a new tail goes to the front and the one used longest ago gives way beyond eight |
| `MergedFrameRope.UsedMeans` | src/lib/merged-frame-rope.ts:231-249 | eight entries at most, the one just used in front, and no other lost while there is room |
| `MergedFrameRope.MergedFrameRopeIndex.Materialize` | src/lib/merged-frame-rope.ts:164-181 | a live row materializes to its whole bytes and identity; a row cleared away does not |
| `MergedFrameRope.MergedFrameRopeIndex.LineCountFor` | src/lib/merged-frame-rope.ts:201-209 | the count returned, memoized or not, is that of the row's bytes as they are now, and it is computed again only after growth |
| `MergedFrameRope.CopyTail` | src/lib/merged-frame-rope.ts:216-224 | copying backwards chunk by chunk gives the last bytes of the concatenation |
| `SerialReceiving.SerialRxQueue.Enqueue` | src/lib/serial-rx-queue.ts:71-104 | the queue is the newest part of everything fed since the last drain, dropped plus pending equals the amount fed, both caps hold, and an overflow is announced exactly once |
| `SerialReceiving.EvictedIsLongest` | src/lib/serial-rx-queue.ts:75-84 | no chunk is dropped that could have stayed |
| `SerialReceiving.QueuedKeeps` | src/lib/serial-rx-queue.ts:75-94 | after any chunk, oversized ones included, the queue is within both caps and again a suffix of the input |
| `SerialReceiving.SerialRxQueue.PushLive` | src/lib/serial-rx-queue.ts:108-114 | the backing array stays below twice the chunk limit, and all copying so far is covered by chunks dropped |
| `SerialReceiving.SerialRxQueue.Drain` | src/lib/serial-rx-queue.ts:116-125 | what is handed out and what is missing make up everything fed |
| `SerialReceiving.Configure` | src/lib/serial-rx-queue.ts:45-48 | limits below one are refused and others rounded down |

## Left out

- Numbers are unbounded: JavaScript's safe-integer range, Rust's saturating sums of sizes and the 32-bit sequence and count fields are not modelled, nor are non-numeric or fractional configuration values other than the pending and queue limits.
- SerialWriting.Run: the one operation whose driver call was in flight when the shutdown grace expired is excepted from the equality of reported and delivered bytes, because the source ignores that call's answer; the contract pins that operation and bounds what it leaves unreported.
- SerialWriting.SerialWriteScheduler.Enqueue: the gate, the write-started callback, the driver and the timers are step arguments, so a gate or callback that calls back into the scheduler while it is being asked is not modelled; operation records sit in one table instead of being shared objects.
- Console.Replay: runs without a timeout between feeds; `FlushExpired` models those.
- Console.ConsoleDecoder.ConsumeConsoleLine: records keep their packet, checksum verdict, surplus and fault code, not their wire bytes, offset, capture number or timestamp; the timestamps that decide expiry are kept.
- Decoding of SMP headers and payloads, record summaries, status names and diagnostics prose; correlation starts from a record's header and the severity of its own diagnostics.
- McumgrSmp.McumgrSmpParser.FlushExpired: the composed parser covers expiry only; feeding is stated for each transport's decoder.
- The CBOR tokenizer, object decoder and normalizer; the pass works on tokens, and an indefinite map with an odd number of values passes it, as in the source.
- Projects: layout, profile fields other than name and order, and file sizes, which are answers of the environment; SHA-256 is replaced by the request itself; identifiers are measured in characters.
- WorkspaceTables.ApplyMutations: the keys refused in stored documents and the bounds on collection entries are not checked; a waveform channel's configuration is a text; message contents are measured in characters; SQL tables are values and a transaction is all or nothing; WAL checkpoints, backup and vacuum are not part of this model.
- Search.DecodedTextIncludes: the text decoder is given by the chunks of text it yields, and lower-casing by a function.
- Search.ExactIffUnbroken: lower-casing is that of plain letters and sigmas with the rule for final sigmas; characters that the rule looks through, such as the apostrophe, other letters, letters that lower to several characters, and search texts of a single character, whose overlap is empty, are not modelled.
- CaptureControl.CaptureAll: notifications, dropped-byte counters and adding or removing sessions are left out; frames come with the fresh id and the clock time they get on arrival, so a frame the projection refuses, after which saving stops, is not modelled; losses of several sessions are recorded in session order instead of the order of their first drop; how the queue cuts the recorded mutations into batches, and the limits checked after each, are not part of it.
- MergedFrameRope: chunks are values, so a caller that overwrites a frame's bytes after appending it is not modelled; a row is named by its position in the table of runs instead of by a display object.
- SessionFrames: send history, identified lists and the view-limit clamp, which are short and independent of the rest; a byte count handed in by the caller is used as given, as in the source.
- Drawing, themes, dialogs, virtual lists, the AI provider, session grants and the shutdown gate: no deep invariant.
