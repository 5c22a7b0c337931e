# Verification of the UDAF stateful core

This project models ten source files of UDAF whose state is kept as bytes, keys or caches, and proves that each
of them stands for something simple:

| component | files here | stands for |
|---|---|---|
| write-ahead log | `WalCodec`, `WalLog`, `WalMachine`, `Wal` | a list of entries and the next sequence number |
| byte ring, one thread | `Ring`, `RingBuffer`, `DynamicRingBuffer` | a bounded queue of byte records |
| byte ring, two threads | `Spsc` | the same queue under every interleaving of single loads, byte copies and stores |
| audit log | `Decimal`, `AuditFormat`, `AuditChain` | a hash chain of numbered events |
| topology | `Topology` | a directed graph with transactions and cycle detection |
| discovery frame and scanner | `Advertisement`, `Scanner` | a payload, an authenticated frame, an unbounded replay history |
| send limiters | `RateLimit` | counts over an unbounded history of sends |
| in-process channel | `InprocChannel` | three queues in order of urgency |

`Bytes` holds machine words, little-endian integers and bit operations, `Strings` the text searches that the audit
log and the edge keys share. Words are integers in a range; every
wrap-around of the program is written out (`% U64`, `Wrap32`, `% U32` on the log's length fields, `% U16` on the
payload's).

## How the pieces fit

Each object that the program updates in place is a class whose methods follow the program's branches and loops.
A method's contract equates the new state with a specification function of the old state (`Step`, `Handle`,
`Verify`, `Commit`, …), and lemmas prove what the program promises about those functions: refinement of the
abstract state by one step, then over whole runs, round trips, what a cut or a changed byte leaves behind.
The hash of the audit log and the message authentication code of the discovery frame are parameters: the results
hold for every function in their place (digests are free of bars and newlines). Clocks, nonces, seeds and whether
a file opens are inputs.

## Where the code and its comments disagree

The model follows the code.

- `wal.hpp:134` says that `truncate_all` keeps all records; `wal.cpp:606-618` drops them all.
- `wal.hpp:158` calls the header's number the highest written sequence; `wal.cpp:133-149` always writes 0 there
  and `wal.cpp:215-218` recomputes the number by a scan, so an emptied log starts again at 1 when reopened.
- `audit.hpp:131-132` names error codes for a broken chain; `audit.cpp:197-206` returns `Ok(false)`.
- `buffer.hpp:97` says that a buffer shorter than the largest record is refused; `buffer.hpp:107-109` compares
  it with the record that is read.
- `buffer.hpp:36` states a capacity without the header; the ring accepts a frame of exactly `Capacity` bytes.

## Properties the code does not have without a condition

Each is proved with its exact condition, for all inputs or runs.

- Sequence numbers of the log: consecutive throughout a run iff no append in it uses up number 2^64 - 1
  (`WalMachine.RunKeepsNumberingIff`); a reopened log numbers on above what it still delivers iff no whole header
  holds that number or all delivered entries are numbered 0 (`WalMachine.ReopenNumbersOnIff`).
- Payload round trip: iff all lengths and the service count are below 65536 (`Advertisement.RoundTripIffFits`); every
  cut payload parses to its whole fields under the same condition (`Advertisement.CutsParseIffFits`).
- Edge keys: a key decodes to the edge it was made of iff that edge's source id has no bar
  (`TopologyModel.SplitOfKey`, `TopologyModel.KeyDecodesIff`); no other edge has the same key iff neither id has a bar
  (`TopologyModel.KeyIsUniqueIff`); a commit is the graph operations item by item iff every added edge, and every removed
  edge whose key is stored, has such a source id (`TopologyModel.CommitRefinesIff`). For example, "a|b" to "c" and
  "a" to "b|c" share a key.
- Endpoints of edges: registered throughout a commit iff they are at first and every added edge names two nodes that
  are registered when it is added (`TopologyModel.EndpointsRegisteredIff`).
- Run-time ring: a header copy stays in the storage iff the bytes written (or read) so far, modulo the capacity,
  leave four cells before the edge (`DynamicRingBuffers.DynamicRingBuffer.HeaderPositions`); programs that write
  records of given lengths are safe in every run iff each length that fits is a multiple of four
  (`DynamicRingBuffers.HeadersInBoundsIff`). A ring of 8 cells reaches the failing state after one record of one byte
  (`DynamicRingBuffers.UnalignedRecordSplitsHeader`).
- Broadcast limiter: passed broadcasts are thirty seconds apart iff no attempt follows one at clock value 0 by less
  than that (`RateLimit.BroadcastsFarApartIff`); attempts at 0 and 1 both pass (`RateLimit.BroadcastsAtZeroAreClose`).
- Channel sequence numbers: strictly increasing throughout a run iff fewer than 2^64 messages are accepted in it
  (`InprocChannels.RunSequencesIff`).
- Waiting receive: a message is lost iff the wait ends in an open channel that holds one
  (`InprocChannels.WaitingReceiveLosesMessageIff`).
- Replay cache: a genuine frame from a payload that fits is registered iff no earlier frame with its nonce passed the
  replay check within the window (`Discovery.BuiltFrameRegistersIff`); a frame with a wrong code may be that earlier
  one (`Discovery.WrongCodeUsesUpNonce`).

## Model

| member | source | states |
|---|---|---|
| `WalObject.Fnv1a` | src/platform/fs/wal.cpp:83-91 | the accumulating loop computes the recursive hash of all bytes |
| `WalObject.Checksum` | src/platform/fs/wal.cpp:286-289 | the three hashes are combined by exclusive or, empty parts left out |
| `WalObject.Wal.Create` | src/platform/fs/wal.cpp:133-149 | a new file is a header, no entries, next number 1 |
| `WalObject.Wal.Attach` | src/platform/fs/wal.cpp:106-107 | an existing file is attached unread |
| `WalObject.Wal.ReadAt` | src/platform/fs/wal.cpp:58-71 | the bytes at an offset, fewer at the end of the file |
| `WalObject.Wal.WriteEntry` | src/platform/fs/wal.cpp:265-347 | the file grows by exactly the entry's encoding, the counters by its size and by one |
| `WalObject.Wal.ReadParts` | src/platform/fs/wal.cpp:395-413 | action and payload are delivered iff the file holds them completely |
| `WalObject.Wal.ReadEntry` | src/platform/fs/wal.cpp:349-434 | the result is that of decoding the bytes at the cursor; the cursor moves only over a good entry |
| `WalObject.Wal.ScanEntries` | src/platform/fs/wal.cpp:151-179 | maximum and count of the headers found by walking the length fields |
| `WalObject.Wal.ReadFileHeader` | src/platform/fs/wal.cpp:181-221 | every case of reopening: short file, foreign header, recomputed counters |
| `WalObject.Wal.Append` | src/platform/fs/wal.cpp:438-475 | an accepted append writes one entry and leaves the cursor where it began; a refusal by a cap gives its number back and changes nothing |
| `WalObject.Wal.Replay` | src/platform/fs/wal.cpp:486-513 | all entries in order, or the first error and no change |
| `WalObject.Wal.ReplayStream` | src/platform/fs/wal.cpp:515-541 | entries up to and including the first one the callback refuses, or up to an error |
| `WalObject.Wal.CollectKept` | src/platform/fs/wal.cpp:545-573 | the entries with a number not below the given one, and the size of the file they make |
| `WalObject.Wal.Truncate` | src/platform/fs/wal.cpp:543-604 | any file is rewritten with the kept entries behind its first 16 bytes, and the counters follow; an unreadable file stays as it was |
| `WalObject.Wal.TruncateAll` | src/platform/fs/wal.cpp:606-618 | only the header is left, the next number stays |
| `WalCodec.Clip` | src/platform/fs/wal.cpp:273-274 | the 32-bit length fields describe each part modulo 2^32 |
| `WalCodec.Encode` | src/platform/fs/wal.cpp:265-343 | an encoding has exactly the size that is added to the size counter |
| `WalCodec.Decode` | src/platform/fs/wal.cpp:349-434 | a decoded entry lies inside the bytes read and has storable parts |
| `WalCodec.DecodeOfEncode` | src/platform/fs/wal.cpp:265-434 | round trip: what was written is read back whatever follows it |
| `WalCodec.ClipOfStorable` | src/platform/fs/wal.cpp:273-274 | reading back loses nothing iff both parts are shorter than 2^32 bytes |
| `WalCodec.ClipIsIdempotent` | src/platform/fs/wal.cpp:586-599 | writing a read entry again gives the same bytes |
| `WalCodec.DecodeOfCut` | src/platform/fs/wal.cpp:362-413 | any strict prefix of an encoding is reported as truncated |
| `WalCodec.FnvStepInjective` | src/platform/fs/wal.cpp:86-89 | one hash step is a bijection of the running hash and injective in the byte |
| `WalCodec.FnvCatchesOneByte` | src/platform/fs/wal.cpp:83-91 | strings that differ in one byte have different hashes |
| `WalCodec.SumCatchesOneByte` | src/platform/fs/wal.cpp:286-289 | changing one byte of one part changes the combined checksum |
| `WalCodec.CorruptionCaught` | src/platform/fs/wal.cpp:415-421 | any one changed byte outside magic, schema and lengths makes the entry undecodable |
| `WalCodec.ForeignFrameRefused` | src/platform/fs/wal.cpp:388-393 | any one changed byte of magic or schema is a version mismatch |
| `WalCodec.HeaderLayout` | src/platform/fs/wal.cpp:268-284 | the 36 header bytes, field by field: literal magic number and schema, little-endian integers, zero padding |
| `WalCodec.EncodedLayout` | src/platform/fs/wal.cpp:286-343 | header, checksum of everything else, action and payload follow one another |
| `WalCodec.FnvVectors` | src/platform/fs/wal.cpp:83-91 | the published FNV-1a values of "", "a" and "fo" |
| `WalCodec.MagicIff` | src/platform/fs/wal.cpp:388-393 | magic number and schema version are accepted iff the eight bytes are the literal ones |
| `WalLog.StreamIsPrefixOfRead` | src/platform/fs/wal.cpp:515-541 | a streamed replay is the full replay cut behind the first refused entry |
| `WalLog.ReadWritten` | src/platform/fs/wal.cpp:486-513 | written entries are delivered in order, then whatever follows them |
| `WalLog.ScanWritten` | src/platform/fs/wal.cpp:151-179 | the scan counts every written entry and finds their maximum |
| `WalLog.ScanCoversRead` | src/platform/fs/wal.cpp:151-220 | in any file the scan's maximum is not below any number a replay delivers |
| `WalLog.RewriteReads` | src/platform/fs/wal.cpp:586-599 | rewritten entries replay to the same list |
| `WalLog.WholeEntriesBoundary` | src/platform/fs/wal.cpp:524-539 | the whole entries before a cut are those up to the last boundary |
| `WalLog.ReadOfCut` | src/platform/fs/wal.cpp:515-541 | a log cut at any byte delivers exactly its whole entries and ends cleanly iff cut on a boundary |
| `WalLog.ScanOfCut` | src/platform/fs/wal.cpp:151-179 | the scan of a log cut at any byte counts exactly the entries whose headers are whole, and finds their maximum |
| `WalLog.ReadOfCorrupted` | src/platform/fs/wal.cpp:349-434 | one changed checked byte in entry n: exactly the n entries before it are delivered, then the failure |
| `WalMachine.AppendRefines` | src/platform/fs/wal.cpp:438-475 | an append on bytes is an append to the abstract list with the same result |
| `WalMachine.AppendAcceptedIff` | src/platform/fs/wal.cpp:451-459 | an append is accepted iff each cap is 0 or not exceeded by the new entry count or file size |
| `WalMachine.UncappedAppendsAccepted` | src/platform/fs/wal.cpp:451-459 | with both caps 0 every append of every run is accepted under the next number |
| `WalMachine.FileHeaderBytes` | src/platform/fs/wal.cpp:133-149 | the 16 bytes of a new file |
| `WalMachine.ReopenVerdict` | src/platform/fs/wal.cpp:181-220 | a file is opened iff it is shorter than a header or begins with the eight literal bytes; a refusal changes nothing |
| `WalMachine.StepRefines` | src/platform/fs/wal.cpp:438-618 | every operation on bytes and counters is the abstract operation, with the same result |
| `WalMachine.RunRefines` | src/platform/fs/wal.cpp:438-618 | after any run the file is the header and the encodings of the abstract log |
| `WalMachine.KeptConcat` | src/platform/fs/wal.cpp:566-569 | truncation selects entry by entry and keeps their order |
| `WalMachine.KeptMembers` | src/platform/fs/wal.cpp:566-569 | truncation keeps an entry iff its number is not below the given one |
| `WalMachine.StepKeepsNumbering` | src/platform/fs/wal.cpp:443-459 | numbers stay consecutive and end below the next one iff the call is not an accepted append at number 2^64 - 1 |
| `WalMachine.RunKeepsNumberingIff` | src/platform/fs/wal.cpp:438-618 | they do so throughout a run iff it contains no such call |
| `WalMachine.RunKeepsNumbering` | src/platform/fs/wal.cpp:438-604 | no run of fewer than 2^64 - next steps contains such a call |
| `WalMachine.RunKeepsCaps` | src/platform/fs/wal.cpp:451-459 | no run takes a log beyond its entry cap or its size cap |
| `WalMachine.NewLogRuns` | src/platform/fs/wal.cpp:225-618 | the guarantee for a new log: bytes, counters, numbering, caps, replay, and reopening without change |
| `WalMachine.ReopenOfLog` | src/platform/fs/wal.cpp:181-221 | reopening keeps the next number of a non-empty log and resets an empty one to 1 |
| `WalMachine.TruncateOfAnyFile` | src/platform/fs/wal.cpp:486-618 | in any file a truncation succeeds iff a replay does and leaves exactly its kept entries behind the first 16 bytes; keeping none equals `truncate_all` |
| `WalMachine.ReopenOfCut` | src/platform/fs/wal.cpp:181-541 | after a cut at any byte the reopened log delivers its whole entries and counts its whole headers |
| `WalMachine.ReopenNumbersOnIff` | src/platform/fs/wal.cpp:213-219 | its next number is above every delivered one iff no whole header holds 2^64 - 1 or all delivered ones are 0 |
| `WalMachine.ReopenOfCutNumbersOn` | src/platform/fs/wal.cpp:181-541 | a numbered log, cut anywhere and reopened, numbers on above every entry it still delivers |
| `Bytes.FromLEOfLE` | src/platform/fs/wal.cpp:276-282 | a little-endian integer is read back |
| `Bytes.MaskIsMod` | src/core/buffer/buffer.hpp:138-140 | masking with a power of two less one is the remainder |
| `Ring.CapacityFacts` | src/core/buffer/buffer.hpp:44-45 | a capacity divides 2^64, and the mask selects the cell of a position |
| `Ring.Advance` | src/core/buffer/buffer.hpp:138-162 | advancing a free-running position moves its cell around the edge, also through 64-bit overflow |
| `Ring.UsedBytes` | src/core/buffer/buffer.hpp:61-72 | head less tail is the number of bytes in use, and they meet iff nothing is queued |
| `Ring.PushQueued` | src/core/buffer/buffer.hpp:86-92 | header and data written at the head, around the edge, add exactly this record to the queue |
| `Ring.HeaderQueued` | src/core/buffer/buffer.hpp:105-106 | the four bytes at the tail are the oldest record's length |
| `Ring.PopQueued` | src/core/buffer/buffer.hpp:105-111 | the bytes behind the header are the oldest record, and with the tail behind it the others are queued |
| `RingBuffers.RingBuffer.constructor` | src/core/buffer/buffer.hpp:53 | a new ring is empty, wherever its positions start |
| `RingBuffers.RingBuffer.Size` | src/core/buffer/buffer.hpp:61-64 | the bytes in use, headers included |
| `RingBuffers.RingBuffer.FreeSpace` | src/core/buffer/buffer.hpp:67-69 | capacity less the bytes in use |
| `RingBuffers.RingBuffer.WriteAt` | src/core/buffer/buffer.hpp:143-151 | exactly the cells from the position on are written, around the edge |
| `RingBuffers.RingBuffer.ReadAt` | src/core/buffer/buffer.hpp:154-162 | the bytes in the cells from the position on, around the edge |
| `RingBuffers.RingBuffer.Write` | src/core/buffer/buffer.hpp:76-94 | the record joins the queue iff it fits; each refusal has its own error and changes nothing |
| `RingBuffers.RingBuffer.PeekSize` | src/core/buffer/buffer.hpp:116-125 | the length of the oldest record, or the empty error |
| `RingBuffers.RingBuffer.Deliver` | src/core/buffer/buffer.hpp:110-111 | the oldest record's bytes are copied out and it leaves the queue |
| `RingBuffers.RingBuffer.Read` | src/core/buffer/buffer.hpp:99-113 | the oldest record is delivered iff the buffer has room; a refusal changes nothing |
| `DynamicRingBuffers.DynamicRingBuffer.constructor` | src/core/buffer/buffer.cpp:10-16 | a new ring is empty and aligned, with both positions 0 |
| `DynamicRingBuffers.DynamicRingBuffer.HeaderPositions` | src/core/buffer/buffer.cpp:42-43 | the next header to write (or read) lies in one piece iff the frame bytes written (or read) since construction, modulo the capacity, leave room for it |
| `DynamicRingBuffers.DynamicRingBuffer.AlignedHeadersAreUnsplit` | src/core/buffer/buffer.hpp:37-39 | in an aligned ring no header crosses the edge |
| `DynamicRingBuffers.DynamicRingBuffer.StoreFrame` | src/core/buffer/buffer.cpp:41-52 | the one-piece header copy and the data copy are in bounds and write exactly the record's frame |
| `DynamicRingBuffers.DynamicRingBuffer.Write` | src/core/buffer/buffer.cpp:29-55 | the same queue as the fixed-capacity ring unless an accepted record's header crosses; aligned records keep alignment |
| `DynamicRingBuffers.DynamicRingBuffer.ReadData` | src/core/buffer/buffer.cpp:69-77 | the bytes in the cells from the data cell on, in one or two copies |
| `DynamicRingBuffers.DynamicRingBuffer.Read` | src/core/buffer/buffer.cpp:57-80 | the same queue as the fixed-capacity ring unless the oldest record's header crosses; alignment is kept |
| `DynamicRingBuffers.HeadersInBoundsIff` | src/core/buffer/buffer.cpp:42-65 | programs that write records of given lengths keep every header in bounds, in every run, iff each length that fits is a multiple of four |
| `DynamicRingBuffers.OneLengthInBoundsIff` | src/core/buffer/buffer.hpp:37-39 | the same for records of one length |
| `DynamicRingBuffers.UnalignedRecordSplitsHeader` | src/core/buffer/buffer.cpp:42-43 | a new ring of 8 cells, after one record of one byte was written and read, has its next header across the edge |
| `Spsc.NextKeeps` | src/core/buffer/buffer.hpp:76-113 | every micro-step of either thread keeps order, counters, live bytes and both threads' partial copies |
| `Spsc.RunKeeps` | src/core/buffer/buffer.hpp:76-113 | so does every interleaving |
| `Spsc.ConsumedIsPrefixOfAccepted` | src/core/buffer/buffer.hpp:76-113 | in every interleaving the consumed records are byte for byte the first accepted ones and no copy leaves the storage |
| `Spsc.NoRace` | src/core/buffer/buffer.hpp:88-110 | in every reachable state the frame being written and the frame being read share no cell, and each next access is inside its own frame |
| `Spsc.FramesDiffer` | src/core/buffer/buffer.hpp:88-110 | the two frames share no cell in any state that satisfies the invariant |
| `Spsc.WriteAccepts` | src/core/buffer/buffer.hpp:76-94 | a write that fits when it is called is accepted, whatever the consumer does in between |
| `Spsc.WriteInterleaved` | src/core/buffer/buffer.hpp:76-94 | in any interleaving a write of any record is accepted iff its frame fits into the space free when it loads tail |
| `Spsc.ReadDelivers` | src/core/buffer/buffer.hpp:99-113 | a read of a queued record, however it is interleaved with writes, delivers exactly that record if the caller has room |
| `Spsc.ReadInterleaved` | src/core/buffer/buffer.hpp:99-113 | in any interleaving a read ends empty-handed iff nothing was queued when it loaded head or the record exceeds the caller's buffer |
| `Decimal.ParseUnsignedOfDec` | src/audit/audit.cpp:70 | a written sequence number is read back |
| `Decimal.ParseSignedOfDecInt` | src/audit/audit.cpp:74 | a written time is read back, negative ones included |
| `Decimal.DecIsUnique` | src/audit/audit.cpp:160-164 | any digit string without a leading zero is how its value is written |
| `Decimal.NoLeadingZero` | src/audit/audit.cpp:160-164 | a written number has no leading zero |
| `Decimal.ConversionOfParts` | src/audit/audit.cpp:70-74 | both conversions of any text: leading spaces, a sign and what follows the digits are tolerated, no digits and overflow are errors |
| `AuditFormat.ActionOfNameFrom` | src/audit/audit.cpp:79-85 | looking up an action's name finds the action |
| `AuditFormat.UnknownName` | src/audit/audit.cpp:79 | a name no action has is taken for a heartbeat |
| `AuditFormat.LinesOfLine` | src/audit/audit.cpp:104 | a newline-terminated line is read as one line |
| `AuditFormat.LinesOfLastLine` | src/audit/audit.cpp:104 | a last line needs no newline, and an empty one is none |
| `AuditFormat.CutAll` | src/audit/audit.cpp:63-77 | the first bars of a joined line cut out exactly its bar-free fields and leave the rest whole |
| `AuditFormat.ParseOfEventLine` | src/audit/audit.cpp:60-90 | the parser recovers every clean event from its line |
| `AuditFormat.EventLineText` | src/audit/audit.cpp:162-167 | the line of an event, spelled out |
| `AuditFormat.ParseOfSeparated` | src/audit/audit.cpp:60-90 | any line with seven bars parses to what its seven bar-free fields and the rest behind them say |
| `AuditFormat.ParseOfAnyLine` | src/audit/audit.cpp:60-90 | any line at all is no event with fewer than seven bars, and else such a line |
| `AuditFormat.FindCuts` | src/audit/audit.cpp:63-67 | the loop finds the first seven bars |
| `AuditFormat.LookUpAction` | src/audit/audit.cpp:79-85 | the loop finds the first action of that name, else the default |
| `AuditFormat.ParseEventLine` | src/audit/audit.cpp:60-90 | fields between the cuts, or nothing for too few bars or a bad number |
| `AuditChain.AuditLogger.GetLine` | src/audit/audit.cpp:99 | one line at a time, without an extra one behind a final newline |
| `AuditChain.AuditLogger.constructor` | src/audit/audit.cpp:94-129 | opening recovers from a file with a genesis line, else starts a chain at the file's end |
| `AuditChain.AuditLogger.Recover` | src/audit/audit.cpp:102-116 | the chain is followed up to the first line that does not continue it |
| `AuditChain.AuditLogger.AppendEvent` | src/audit/audit.cpp:135-174 | one line is written and number and hash advance; a file that does not open changes nothing |
| `AuditChain.AuditLogger.VerifyChain` | src/audit/audit.cpp:176-214 | the verdict on the file, or the error for a missing, empty or older file |
| `AuditChain.AuditLogger.VerifyFrom` | src/audit/audit.cpp:190-213 | true iff every line continues the chain and matches its parameter hash |
| `AuditChain.WrittenVerify` | src/audit/audit.cpp:102-116 | written events verify, and recovery ends with their number and last hash |
| `AuditChain.FileOfEvents` | src/audit/audit.cpp:94-214 | a file of written events verifies and is recovered to the state it was written from |
| `AuditChain.AppendHolds` | src/audit/audit.cpp:135-174 | an append extends file, numbering and chain by one event |
| `AuditChain.RunHolds` | src/audit/audit.cpp:94-174 | after any run of appends and restarts, memory and file stand for the events written |
| `AuditChain.RunVerifies` | src/audit/audit.cpp:94-219 | such a file verifies, the number counts the events, a restart changes nothing |
| `AuditChain.FileRecordsAppends` | src/audit/audit.cpp:135-174 | the file parses to one event for each append of the run, in order, with that call's action, actor, target, time and parameters and the next number |
| `AuditChain.FileLinks` | src/audit/audit.cpp:157-161 | its events carry the hash of the seed and then of the predecessor's previous hash, parameter hash, number and action, joined by bars in this order |
| `AuditChain.LinePrefixesVerify` | src/audit/audit.cpp:176-214 | whatever such a file holds up to the end of any of its lines verifies too |
| `AuditChain.AcceptedIff` | src/audit/audit.cpp:193-212 | lines are accepted iff all that are not empty parse and their events form a chain, which ends in the hash that verification computes |
| `AuditChain.VerifyVerdict` | src/audit/audit.cpp:176-214 | the answer for any file: which are errors, and true iff every line parses and the events form a chain |
| `AuditChain.RecoverFindsLinked` | src/audit/audit.cpp:102-116 | in any file recovery takes exactly the linked first lines, up to the first one that does not continue them |
| `AuditChain.OpenedVerdict` | src/audit/audit.cpp:94-129 | a file without a genesis line gets one at its end, which makes it verify iff it was empty |
| `AuditChain.LinkInjective` | src/audit/audit.cpp:157-161 | equal links have equal previous hash, parameter hash, number and action |
| `AuditChain.ChainsAgree` | src/audit/audit.cpp:157-161 | two chains to one hash hold the same contents, or the returned pair collides |
| `AuditChain.AcceptedFilesAgree` | src/audit/audit.cpp:176-214 | two accepted files with one genesis and one final hash agree, or two strings hashed for them collide |
| `TopologyModel.SplitOfKey` | src/ability_b/topology/topology.cpp:41-43 | a key splits into the pair it was made of iff the source id has no bar |
| `TopologyModel.KeyDecodesIff` | src/ability_b/topology/topology.cpp:41-43 | the source id has no bar iff no other edge with a bar-free source id has the same key |
| `TopologyModel.KeyIsUniqueIff` | src/ability_b/topology/topology.cpp:41-43 | neither id has a bar iff no other edge at all has the same key |
| `TopologyModel.ItemRefinesIff` | src/ability_b/topology/topology.cpp:56-91 | one item on keys is the graph operation iff its key means its edge |
| `TopologyModel.CommitRefinesIff` | src/ability_b/topology/topology.cpp:50-93 | a commit on keys is, item by item, the fold of the graph operations iff every item's key means its edge |
| `TopologyModel.RemovedStaysIsolated` | src/ability_b/topology/topology.cpp:64-80 | after its removal no edge touches a node until an added edge names it |
| `TopologyModel.NodeByHistory` | src/ability_b/topology/topology.cpp:50-93 | a node is registered iff the last item that adds or removes it adds it, or none does and it was |
| `TopologyModel.EdgeByHistory` | src/ability_b/topology/topology.cpp:50-93 | an edge is there iff it was added, or there at first, and not erased later, by itself or with an end |
| `TopologyModel.EndpointsRegisteredIff` | src/ability_b/topology/topology.cpp:50-93 | all endpoints are registered throughout a commit iff they are at first and added edges name nodes present at that point |
| `TopologyModel.CycleSearch.Dfs` | src/ability_b/topology/topology.cpp:154-166 | true only with a cycle reachable from the node; false only with the node and all below it finished; it terminates |
| `TopologyModel.Topology.CommitTransaction` | src/ability_b/topology/topology.cpp:50-93 | all items in order; an empty transaction is refused |
| `TopologyModel.Topology.RemoveTouching` | src/ability_b/topology/topology.cpp:66-78 | exactly the keys of edges at the node are erased |
| `TopologyModel.Topology.Edges` | src/ability_b/topology/topology.cpp:126-136 | every edge of the graph is listed, and nothing else |
| `TopologyModel.Topology.BuildAdjacency` | src/ability_b/topology/topology.cpp:143-149 | the lists hold exactly the edges |
| `TopologyModel.Topology.HasCycle` | src/ability_b/topology/topology.cpp:138-172 | true iff at least two nodes are registered and a directed cycle is reachable from one |
| `TopologyModel.CyclicAfterCommit` | src/ability_b/topology/topology.cpp:50-172 | the cycle check on keys after a commit is the one on the graph after the graph operations |
| `TopologyModel.ExploreNode` | src/ability_b/topology/topology.cpp:157-165 | a node whose successors are finished without a cycle is on none |
| `Advertisement.WriteStr` | src/ability_a/discovery/advertisement.cpp:22-26 | a 16-bit length, then the whole string |
| `Advertisement.SerializePayload` | src/ability_a/discovery/advertisement.cpp:30-40 | the fields in order, the services one by one |
| `Advertisement.ReadStr` | src/ability_a/discovery/advertisement.cpp:46-54 | a string is taken iff the bytes hold all of it, never beyond them |
| `Advertisement.ReadList` | src/ability_a/discovery/advertisement.cpp:65-69 | services are taken up to the count or the first incomplete one |
| `Advertisement.ParsePayload` | src/ability_a/discovery/advertisement.cpp:42-71 | in bounds on all byte strings; fields that are missing keep their defaults |
| `Advertisement.CutsParseIffFits` | src/ability_a/discovery/advertisement.cpp:30-71 | every cut of a payload's encoding parses to exactly its whole fields and a prefix of its services, iff its lengths and count fit |
| `Advertisement.ParseIgnoresRest` | src/ability_a/discovery/advertisement.cpp:42-71 | bytes behind a whole payload are ignored |
| `Advertisement.WireExample` | src/ability_a/discovery/advertisement.cpp:22-40 | the bytes of one payload, with big-endian lengths |
| `Advertisement.ParseFits` | src/ability_a/discovery/advertisement.cpp:42-71 | nothing parsed exceeds the 16-bit fields |
| `Advertisement.RoundTripIffFits` | src/ability_a/discovery/advertisement.cpp:30-71 | a payload survives the round trip iff its lengths and count fit |
| `Discovery.MakeFrame` | src/ability_a/discovery/advertiser.cpp:64-99 | magic, version, nonce, code over nonce and payload, payload |
| `Discovery.FrameLayout` | src/ability_a/discovery/advertiser.cpp:64-99 | a built frame byte by byte, its code under the 32-byte key or under zeros |
| `Discovery.HexInjective` | src/ability_a/discovery/scanner.cpp:96-103 | different nonces have different cache keys |
| `Discovery.Scanner.PurgeExpired` | src/ability_a/discovery/scanner.cpp:110-116 | exactly the nonces older than the window are erased |
| `Discovery.Scanner.HandleFrame` | src/ability_a/discovery/scanner.cpp:74-157 | every outcome of a frame, with the new cache and registry |
| `Discovery.VerdictCases` | src/ability_a/discovery/scanner.cpp:74-157 | every verdict in terms of the frame's length, first eight bytes, nonce, code and node id, and what the registry holds after it |
| `Discovery.FrameRegisters` | src/ability_a/discovery/scanner.cpp:75-156 | a built frame with an unseen nonce registers each of the payload's five fields under its node id, and no other entry changes, when it fits and names a node |
| `Discovery.OnlyAuthenticFramesRegister` | src/ability_a/discovery/scanner.cpp:123-156 | the registry changes only for a matching code and a fresh nonce, and only under the frame's node id |
| `Discovery.WrongCodeUsesUpNonce` | src/ability_a/discovery/scanner.cpp:105-136 | a frame with a wrong code makes a genuine one with its nonce be ignored for the window |
| `Discovery.NextJudgement` | src/ability_a/discovery/scanner.cpp:109-120 | with an exact cache the next judgement is that of the full history |
| `Discovery.CacheIsExact` | src/ability_a/discovery/scanner.cpp:109-120 | the cache holds the last fresh time of every recent nonce, after any arrivals in order of time |
| `Discovery.CacheDecidesLikeHistory` | src/ability_a/discovery/scanner.cpp:105-121 | the evicting cache judges every arrival as an unbounded history would |
| `Discovery.FreshTwiceIsFarApart` | src/ability_a/discovery/scanner.cpp:105-121 | two arrivals with one nonce that pass are more than a window apart |
| `Discovery.ScannerCacheIsCache` | src/ability_a/discovery/scanner.cpp:74-121 | a scanner's cache depends only on the structurally valid frames' nonces and times |
| `Discovery.FrameReplayIff` | src/ability_a/discovery/scanner.cpp:74-121 | a valid frame is judged fresh iff no earlier frame with the same eight nonce bytes was, at most a window before |
| `Discovery.RegisteredTwiceIsFarApart` | src/ability_a/discovery/scanner.cpp:74-157 | two registered frames with the same nonce bytes lie more than a window apart |
| `Discovery.BuiltFrameRegistersIff` | src/ability_a/discovery/scanner.cpp:74-157 | in any sequence of frames, a frame built from a fitting payload is registered, field by field, iff it replays no earlier frame |
| `RateLimit.Limiter.CheckUnicastRate` | src/ability_a/transport/udp_socket.cpp:97-108 | the address's trimmed history decides and is extended by a pass; other addresses are untouched |
| `RateLimit.Limiter.CheckBroadcastRate` | src/ability_a/transport/udp_socket.cpp:110-118 | the last time decides unless it is the zero that stands for never |
| `RateLimit.CacheFollowsHistory` | src/ability_a/transport/udp_socket.cpp:100-107 | the cached times of an address are the newest of all its passed sends, and only sends older than a second are left out |
| `RateLimit.SendPassesIff` | src/ability_a/transport/udp_socket.cpp:97-108 | a send passes iff fewer than five to its address passed in the closed last second |
| `RateLimit.AtMostFiveASecond` | src/ability_a/transport/udp_socket.cpp:97-108 | six passed sends to one address span more than a second |
| `RateLimit.BroadcastPassesIff` | src/ability_a/transport/udp_socket.cpp:110-118 | the remembered time decides as the history does: an attempt passes iff all broadcasts that passed before, at other clock values than 0, are thirty seconds old |
| `RateLimit.BroadcastsFarApartIff` | src/ability_a/transport/udp_socket.cpp:110-118 | all passed broadcasts are thirty seconds apart iff no attempt follows one at clock value 0 by less |
| `RateLimit.BroadcastsAtZeroAreClose` | src/ability_a/transport/udp_socket.cpp:112 | attempts at clock values 0 and 1 both pass |
| `InprocChannels.InprocChannel.SendBase` | src/ability_b/transport/inproc_channel.cpp:19-35 | every outcome of a send, with number and queue |
| `InprocChannels.InprocChannel.PickFront` | src/ability_b/transport/inproc_channel.cpp:40-49 | the front of the first non-empty queue is taken |
| `InprocChannels.InprocChannel.RecvBase` | src/ability_b/transport/inproc_channel.cpp:37-53 | a message, a timeout or closed at once; or nothing yet, iff an open empty channel makes the call wait |
| `InprocChannels.InprocChannel.ResumeAfterWait` | src/ability_b/transport/inproc_channel.cpp:54-66 | the end of a wait: its condition first, then the code behind it |
| `InprocChannels.InprocChannel.Close` | src/ability_b/transport/inproc_channel.cpp:69-75 | only the flag changes |
| `InprocChannels.NextConserves` | src/ability_b/transport/inproc_channel.cpp:19-52 | one operation neither loses, duplicates nor reorders, and keeps the bounded queues bounded |
| `InprocChannels.RunConserves` | src/ability_b/transport/inproc_channel.cpp:19-52 | so does any run: delivered, then queued, is accepted, for each priority |
| `InprocChannels.RunSequencesIff` | src/ability_b/transport/inproc_channel.cpp:30 | numbers strictly increase within each priority, throughout a run, iff fewer than 2^64 messages are accepted in it |
| `InprocChannels.DeliversMostUrgent` | src/ability_b/transport/inproc_channel.cpp:39-49 | each delivery is the next accepted message of the most urgent queue that has one |
| `InprocChannels.SendByHistory` | src/ability_b/transport/inproc_channel.cpp:19-29 | after any run, a send is refused as closed iff a close came before, and as full iff its priority is not heartbeat and exactly a capacity of its accepted messages is undelivered |
| `InprocChannels.HeartbeatsAreAccepted` | src/ability_b/transport/inproc_channel.cpp:24-31 | over any run the accepted heartbeats are all those sent before the first close, in order |
| `InprocChannels.WaitingReceiveLosesMessageIff` | src/ability_b/transport/inproc_channel.cpp:54-66 | a message is lost iff the wait ends in an open channel that holds one |
| `InprocChannels.ResumeOutcome` | src/ability_b/transport/inproc_channel.cpp:54-66 | status and remaining messages for every end of a wait: an open channel loses its first message and delivers the second |

## Left out

- WalMachine.NewLogRuns: for runs shorter than 2^64 - 1 steps; what happens at the last number is in `WalMachine.RunKeepsNumberingIff`.
- WalMachine.AppendStep: sizes are unbounded integers, so the 64-bit sum in the size check does not overflow; files and strings cannot reach 2^63 bytes.
- Failing I/O inside a call, appends behind a torn entry, `fsync`, EINTR retries, file permissions, move operations and the debug read-back of the log.
- The audit log's write failure after the file opened, which gives back the number but not the hash (`audit.cpp:168-171`), and several live loggers on one file.
- AuditChain.RunVerifies: like the other results on runs, for actors and targets without bars, and texts without newlines, as the format requires (`audit.cpp:58-59`).
- Spsc.ConsumedIsPrefixOfAccepted: memory is sequentially consistent; that acquire and release order suffices for it is not modelled.
- RingBuffers.RingBuffer.constructor: capacities from 4 to 2^32; the program also admits 1 and 2, which hold no record, and more than 2^32, where the 32-bit length field cuts a record's length.
- DynamicRingBuffers.DynamicRingBuffer.constructor: capacities from 4 to 2^32, likewise.
- RateLimit.BroadcastsFarApartIff: clock values are not negative, as a monotonic clock's are.
- The run-time ring with two threads, and its copies when a header does cross the edge.
- While a receive waits: which thread wakes up and spurious wake-ups; only the end of the wait is modelled.
- Mutexes, threads, sockets, encryption of datagrams, hash and code computation, registry callbacks and the write-ahead log call inside `commit`, which is empty.
- Everything else in the repository: command line, SDK, configuration, logging, metrics, PKI, TLS, ZeroMQ, business nodes.
