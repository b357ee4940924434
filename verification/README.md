# Verification of the CFDP-inspired file transfer

A Dafny model of the C++ receiver, the Python sender and the link between them, with proofs about
single functions, about the receiver under arbitrary PDUs and crashes, and about whole runs of the
two programs together.

## How the model is built

| file | content |
|---|---|
| `Bytes.dfy`, `Wire.dfy`, `Framing.dfy` | integers, PDU layouts and parsers, length-prefixed frames |
| `Crc.dfy` | the bitwise CRC-8 and what it detects |
| `Geometry.dfy`, `Ranges.dfy` | cutting files and chunks; the ranges of NAKs and of the journal |
| `PacketList.dfy` | the linked list with its index array and counter, refined to a list of slots |
| `JournalCodec.dfy`, `Journal.dfy`, `Storage.dfy` | journal format, journal object, file system and transport |
| `ReceiverModel.dfy`, `Receiver.dfy` | each handler as a function, and the receiver object proved equal to it |
| `Resting.dfy`, `Safety.dfy` | invariants of the receiver; crash safety after every single effect |
| `SenderModel.dfy`, `Sender.dfy` | the sender's packets and stop-and-wait automaton, and the sender object |
| `System.dfy`, `Progress.dfy` | whole runs under faults; rounds of EOF, NAK and retransmission, and their bound |
| `Delivery.dfy`, `Recovery.dfy` | completion when nothing is lost; no reachable state is a dead end |
| `Handlers.dfy` | what every PDU and booting make the receiver send and keep, stated in terms of the transfer |
| `Choices.dfy` | what the sender does with any batch of replies, and with none |
| `Limits.dfy`, `Histories.dfy` | where the code falls short of its documentation, and exactly when |

The receiver's surroundings are one value: the destination file as cached and as durable, the journal
file, and the log of all effects so far. Every handler turns a receiver and a trail of surroundings into
a new receiver and a longer trail, one entry for each effect (create, write, sync, temporary journal,
rename, remove, send).

The process may stop at any entry of the trail, or inside a write of which any part is done. If it dies,
everything stays as it is, unsynchronised bytes in the page cache included. If the power fails, then or at any
later time, the journal and every byte on which the durable and the cached file agree are kept, and the other
bytes may hold anything at all. An exception inside a flush is such a stop.

In a run the link is the history of everything ever sent: any PDU may be delivered to the receiver at any
time, any number of times or never; data packets may arrive damaged in payload or checksum byte so that the
CRC-8 notices, or in header numbers so that they name no transfer, chunk or packet of the sender's; and
arbitrary bytes that parse to no metadata and no data may arrive too. The sender may be given any non-empty
batch of replies ever sent. Both processes may stop and start at any time.

## Hypotheses

The code does not enforce these; the theorems that need them state them.

- All metadata belongs to one non-zero transaction id, whose sizes agree with the file, and
  `chunk size + packet size` is at most 2^32. `Resting.PacketCountsAgreeIff` shows what happens beyond that.
- Damage does not turn the chunk or packet number of a data packet into another legal one, nor its length into
  one that happens to fit. `Limits.PacketNumberUnprotected` gives the exact effect of a damaged packet number;
  other damage to the header numbers is refused (`Limits.MisaddressedRefused`).
- A rename is atomic and durable, synchronised bytes survive, journal writes and the `open` before
  `fdatasync` succeed, and a journal found at boot was written by this receiver or cannot be read.
- The file to be sent is not empty (metadata of an empty file has no chunk and is rejected).

## Where the code and its documentation disagree

The robustness table of the repository's README promises recovery that the code gives only in part.
`Limits.dfy` and `Histories.dfy` prove when it fails, following the code.

- A lost ACK of the latest chunk is made up for on the sender's next timeout if and only if it was the last chunk
  of the file and the checksum passes; for any earlier chunk the receiver stays silent on everything the waiting
  sender repeats (README.md:116). The same silence follows a reboot in the middle of a chunk other than chunk 0
  once no more packets of that chunk come (README.md:114).
- A lost final ACK is re-sent on Metadata only (`Histories.FinalAckSentIff`), while the waiting sender repeats EOF
  only; a resume query is then answered with chunk 0, not with 0xFFFFFFFF (README.md:117).
- The final ACK is not always withheld from a file that fails its checksum (README.md:118): a failed transfer is
  acknowledged by the Metadata whose id is that of the latest completed transfer, which can be its own id. A
  receiver that has completed nothing acknowledges Metadata with id 0. `Histories.dfy` says exactly which
  Metadata bring a final ACK, for which id, and when it is true.
- A destination file that was longer than the new file keeps its old tail. The final ACK is then sent if and only
  if the checksum of the file with that tail equals the announced one; otherwise the transfer is given up.

Where the checksum passes, none of this is a dead end: `Recovery.NeverStuck` shows that restarting both programs
can still finish the transfer.

## Model

| member | source | states |
|---|---|---|
| Crc.ComputeCrc8 | receiver/Crc.cpp:9-21 | the nested bit loops compute the fold of the byte update over the message |
| Crc.CrcLinear | receiver/Crc.cpp:9-21 | the checksum of the exclusive-or of two messages of equal length is the exclusive-or of their checksums |
| Crc.UndetectedIff | receiver/CfdpReceiver.cpp:247-250 | damage is invisible if and only if the damage pattern alone has checksum 0 |
| Crc.UpdateBijective | receiver/Crc.cpp:12-18 | for each message byte the register update is a bijection, with its inverse |
| Crc.BurstDetected | receiver/CfdpReceiver.cpp:247-250 | every non-zero burst within 8 consecutive bits, anywhere in a message of any length, changes the checksum |
| Crc.NineBitBurstUndetected | receiver/Crc.cpp:15 | 8 is the limit: one 9-bit burst is invisible from every bit of every message on |
| Crc.FlippedByteDetected | sender/sender.py:88-91 | the damage the link simulator does to a payload byte always changes the checksum |
| Geometry.PieceOfPosition | sender/sender.py:241-252 | every position of a file lies in exactly one piece |
| Geometry.ConcatPieces | sender/sender.py:241-252 | cutting loses nothing: the pieces in order are the input |
| Geometry.PayloadsGiveFile | sender/sender.py:241-262 | the payloads of all packets of all chunks in order are the file |
| Resting.PacketCountsAgreeIff | receiver/CfdpReceiver.cpp:209-212 | the receiver's wrapping packet count equals the sender's if and only if the sum fits 32 bits |
| Resting.CountBehindEnd | receiver/CfdpReceiver.cpp:209-212 | for a chunk behind the end of the file the 64-bit subtraction wraps and a full chunk is expected |
| Ranges.RunsCanonical | receiver/PacketList.cpp:81-105 | the scan's ranges are non-empty, ascending, non-adjacent and cover exactly the missing positions |
| Ranges.CanonicalUnique | receiver/PacketList.cpp:81-105 | there is only one such list |
| Ranges.CanonicalShortest | receiver/PacketList.cpp:81-105 | no list of ranges for the same positions is shorter |
| Ranges.FirstIsLeast | receiver/CfdpReceiver.cpp:456-465 | the first range starts at the least missing position, the chunk to resume from |
| Slots.CountUpdate | receiver/PacketList.cpp:60-72 | overwriting a slot changes the number of valid slots by that slot alone, also from valid to corrupt |
| Slots.CountFull | receiver/PacketList.cpp:77-79 | the counter reaches the length if and only if every slot is valid |
| PacketLists.PacketList.Clear | receiver/PacketList.cpp:37-49 | frees every node exactly once, in order, and leaves the list empty |
| PacketLists.PacketList.LinkLast | receiver/PacketList.cpp:20-34 | appending a node keeps both link directions consistent with the index order |
| PacketLists.PacketList.Init | receiver/PacketList.cpp:10-35 | a valid list of fresh nodes whose slots are all empty |
| PacketLists.PacketList.Insert | receiver/PacketList.cpp:51-75 | succeeds if and only if the index is in range, replaces exactly that slot, and keeps links, index and counter consistent |
| PacketLists.PacketList.IsComplete | receiver/PacketList.cpp:77-79 | true if and only if there is a slot and every slot is valid |
| PacketLists.PacketList.ComputeNakRanges | receiver/PacketList.cpp:81-105 | the canonical ranges of the slots not received intact, despite the signed range start |
| PacketLists.PacketList.Assemble | receiver/PacketList.cpp:107-118 | following `next` gives the slots' data concatenated by index |
| JournalCodec.JournalRoundTrip | receiver/Journal.cpp:70-130 | a stored state is loaded unchanged, field by field and with its whole done vector |
| JournalCodec.TruncatedJournalRejected | receiver/Journal.cpp:102-130 | no strict prefix of a stored state loads |
| JournalCodec.JournalLayout | receiver/Journal.cpp:70-100 | field order and widths of the journal, byte by byte on an example |
| JournalCodec.TrailingBytesIgnored | receiver/Journal.cpp:102-130 | bytes behind a complete state make no difference |
| JournalCodec.AnyFlagByte | receiver/Journal.cpp:102-130 | any non-zero byte reads as true, in the EOF flag and in the done vector, and touches no other field |
| Journals.Journal.AtomicWrite | receiver/Journal.cpp:70-100 | the bytes written are the encoding, and they replace the journal in one step |
| Journals.Journal.ReadFromDisk | receiver/Journal.cpp:102-130 | the field-by-field reads with a failing stream give exactly what the file holds, or nothing |
| Journals.Journal.MarkChunkDone | receiver/Journal.cpp:21-27 | the file's own state with one more chunk done, and nothing if it cannot be read |
| Journals.Journal.MarkEofReceived | receiver/Journal.cpp:29-34 | the file's own state with EOF recorded |
| Journals.Journal.ComputeMissingChunks | receiver/Journal.cpp:44-63 | the canonical ranges of the chunks not done |
| Wire.ParseMetadata | receiver/CfdpReceiver.cpp:71-78 | the receiver reads back the sender's packed metadata |
| Wire.ParseData | receiver/CfdpReceiver.cpp:79-92 | the receiver reads back a packed data packet, without its padding |
| Wire.NakRoundTrip | receiver/CfdpReceiver.cpp:404-425 | parsing a serialized NAK gives it back, for any list of ranges |
| Wire.TruncatedNakRejected | receiver/PduCodec.h:21-30 | a NAK cut short anywhere is rejected |
| Wire.SerializeNak | receiver/CfdpReceiver.cpp:404-425 | the appended bytes are the NAK layout |
| Wire.ReadNak | receiver/PduCodec.h:21-30 | the bounds-checked reads succeed and give the ranges exactly when the layout is complete |
| Wire.AckRoundTrip | receiver/PduCodec.h:32-38 | parsing a packed acknowledgement gives it back whatever follows it, and every strict prefix is rejected |
| Wire.SentLayouts | sender/sender.py:233-265 | type, field order and field widths of the sender's PDUs, byte by byte on an example |
| Wire.RepliedLayouts | receiver/CfdpReceiver.cpp:404-481 | the same for the receiver's replies |
| Framing.FramingRoundTrip | receiver/UartTransport.cpp:23-45 | frames sent in a row are received as the same PDUs in order, and the rest of the stream is untouched |
| Framing.TruncatedFrame | receiver/UartTransport.cpp:39-45 | a frame cut short is not delivered |
| Framing.FrameLayout | receiver/UartTransport.cpp:23-27 | the length comes first, in four bytes, lowest first |
| Framing.UartTransport.ReadExact | receiver/UartTransport.cpp:29-37 | terminates with exactly n bytes however the reads cut them, and fails only if the stream ends |
| Framing.UartTransport.Recv | receiver/UartTransport.cpp:39-45 | delivers the first frame of the stream and consumes exactly it |
| Receivers.CfdpReceiver.OnBoot | receiver/CfdpReceiver.cpp:22-54 | the object does to fields, list and surroundings exactly what the model function says |
| Receivers.CfdpReceiver.OnPduReceived | receiver/CfdpReceiver.cpp:58-112 | the same for every raw PDU, including those dropped |
| Receivers.CfdpReceiver.HandleMetadata | receiver/CfdpReceiver.cpp:116-183 | the same for metadata: duplicates, finished transfers, rejections and new transfers |
| Receivers.CfdpReceiver.HandleData | receiver/CfdpReceiver.cpp:185-257 | the same for data: guards, re-ACK, change of chunk, insertion and flush |
| Receivers.CfdpReceiver.HandleEof | receiver/CfdpReceiver.cpp:259-280 | the same for EOF |
| Receivers.CfdpReceiver.FlushChunk | receiver/CfdpReceiver.cpp:284-345 | the same for a flush: allocate, write, sync, journal, ACK, completion check, in this order |
| Receivers.CfdpReceiver.CheckCompletion | receiver/CfdpReceiver.cpp:347-400 | the same for the completion check with its priorities |
| Receivers.CfdpReceiver.SendNakPackets | receiver/CfdpReceiver.cpp:427-442 | the same for the NAK of the chunk in progress |
| Receivers.CfdpReceiver.HandleResumeQuery | receiver/CfdpReceiver.cpp:444-472 | the same for the resume reply |
| Resting.HandledRests | receiver/CfdpReceiver.cpp:58-112 | between PDUs, whatever arrives: the list is empty iff no chunk is current; a current chunk is in range, not done, incomplete and of its expected size; memory equals the decoded journal; EOF with all chunks done never rests; no exception escapes |
| Resting.BootedRests | receiver/CfdpReceiver.cpp:22-54 | booting from any consistent or unreadable journal establishes that invariant with the journal's state |
| Resting.RebootKeepsDoneChunks | receiver/CfdpReceiver.cpp:30-44 | a reboot between PDUs loses the chunk in progress and nothing else |
| Resting.NaksAreOutstanding | receiver/CfdpReceiver.cpp:354-379 | every NAK names one chunk that is not done and not beyond the latest seen, in range, and exactly the missing slots if that chunk is in progress |
| Safety.AssembledIsChunk | receiver/PacketList.cpp:107-118 | a complete list of honest packets assembles to the chunk of the source |
| Safety.ChunkStoredSafe | receiver/CfdpReceiver.cpp:311-334 | write, sync and journal update are each safe; the chunk is then in place, cached and durable, and recorded, the file has grown at most to its end, and no byte outside its place has changed |
| Safety.CrashSafe | receiver/CfdpReceiver.cpp:322-334 | a power failure keeps the disk invariant: each chunk the journal calls done is in the file, however unsynchronised bytes are torn |
| Safety.HandledSafe | receiver/CfdpReceiver.cpp:114-400 | for honest PDUs in any order the invariant holds after every single effect of a handler, so also for a crash there |
| Safety.BootedSafe | receiver/CfdpReceiver.cpp:22-54 | the same for booting |
| Safety.HandledRefines | receiver/CfdpReceiver.cpp:332-339 | effect by effect the receiver follows an abstract machine of done chunks and EOF, and only removing the journal forgets a chunk |
| SenderModel.RequestedExactly | sender/sender.py:269-280 | the answer to a NAK covers exactly the (chunk, packet) pairs its ranges denote |
| SenderModel.RequestedOnce | sender/sender.py:273-280 | disjoint ranges are answered without repeating a packet |
| SenderModel.RetransmissionIs | sender/sender.py:273-280 | each retransmitted PDU is the packet of the file for the pair at its place |
| SenderModel.NakAnsweredInFile | sender/sender.py:269-280 | a NAK for packets of the file is answered with exactly its retransmission, and the sender goes on |
| SenderModel.SurvivesIff | sender/sender.py:269-280 | any NAK at all: the sender goes on if and only if it can be unpacked and the last packet of each non-empty range starts no later than at the end of its chunk and of the file |
| SenderModel.SendableIff | sender/sender.py:249-262 | a packet can be packed iff the payload length computed with signs is not negative, and that is then its payload length |
| SenderModel.AfterLastIff | sender/sender.py:269-280 | a NAK for the chunk after the last one is survived iff the last chunk is full |
| SenderModel.AttemptedIs | sender/sender.py:279-280 | of a requested range exactly the packets up to the first that cannot be packed are sent |
| SenderModel.AnswerBeginsWith | sender/sender.py:274-280 | packets of the file named by the first ranges are sent whatever the later ranges are |
| SenderModel.OutsideIsEmpty | sender/sender.py:249-262 | a packet that is none of the file but can be packed carries no payload |
| SenderModel.PacketPadded | sender/sender.py:259-262 | every data packet of a file takes the full packet size on the link |
| Senders.CfdpSender.SendPacket | sender/sender.py:249-262 | seeking and reading by file offsets sends the packet that cutting the file gives; it fails, sending nothing, exactly when the offset lies behind the chunk or the file |
| Senders.CfdpSender.SendOneChunk | sender/sender.py:241-247 | all packets of the chunk in order |
| Senders.CfdpSender.OnNak | sender/sender.py:269-280 | for any bytes, what is sent before the end or the exception is what the model answers |
| Senders.CfdpSender.QueryResume | sender/sender.py:202-229 | up to three queries, then the chunk to start from, as the automaton says |
| Senders.CfdpSender.AwaitChunk | sender/sender.py:144-178 | the wait for a chunk's ACK answers timeouts and NAKs, also those that end in an exception, as the automaton says |
| Senders.CfdpSender.Send | sender/sender.py:127-198 | for any script of inputs the nested loops send exactly what the stop-and-wait automaton sends |
| Safety.PartlyWrittenSafe | receiver/CfdpReceiver.cpp:311-320 | the disk invariant holds inside a write of which any part of the bytes has reached the cached file |
| Safety.PrefixIsPart | receiver/CfdpReceiver.cpp:311-320 | any prefix of the written data is such a part |
| System.NextInv | sender/sender.py:136-178 | every step of sender, receiver or link, every process death, also inside a write, and every power failure keeps the invariant of the whole system |
| System.FinalAckMeansDelivered | receiver/CfdpReceiver.cpp:387-399 | in every run, once the final ACK is sent the file, cached and durable, is the source followed by the old tail, for good; it is exactly the source iff the destination was not longer at the start |
| System.SenderFinishedMeansDelivered | sender/sender.py:159-165 | a sender that ends successfully has delivered the file |
| System.AckedChunkStaysDone | receiver/CfdpReceiver.cpp:332-336 | an acknowledged chunk stays done and on disk in every later state of its transfer, across any crashes and restarts |
| System.StopAndWait | sender/sender.py:139-172 | until the end the done chunks are a prefix, a sender at a chunk has all earlier ones done, and no reply ever sent points past the first missing chunk |
| System.GivenUpIff | receiver/CfdpReceiver.cpp:388-394 | a transfer ends without a final ACK if and only if the destination was longer than the file and its tail changes the checksum |
| System.SenderPacketAccepted | receiver/CfdpReceiver.cpp:192-217 | every packet of the sender parses and passes all guards while its transfer is active |
| System.FlippedByteDeliverable | sender/sender.py:85-93 | flipping any byte of a data packet stays within the damage the theorems allow, unless a number becomes another legal one or the new length is accepted with a payload that fits the checksum |
| System.HighLengthNoticed | sender/sender.py:85-93 | a flip in the upper bytes of the length is always noticed |
| Progress.PacketsArrive | receiver/CfdpReceiver.cpp:247-255 | distinct outstanding packets of the chunk in turn, in any order, lower its outstanding count by their number; the last one flushes and acknowledges it |
| Progress.RoundProgress | receiver/CfdpReceiver.cpp:354-379 | a round of EOF, NAK for the missing packets or for a whole chunk, and retransmission, through both programs' bytes, lowers the outstanding packets of the chunk and of the whole file by exactly the number delivered, also when it completes chunk or file |
| Progress.DataConserves | receiver/CfdpReceiver.cpp:219-255 | any data packet, intact, damaged or repeated: what is still to come goes down by one if it fills a slot, up by one if it spoils one, and stays the same otherwise |
| Progress.DeliveredFits | receiver/CfdpReceiver.cpp:219-245 | in a run, until the transfer has ended, the link delivers no other data packets |
| Progress.RetryingConserves | receiver/CfdpReceiver.cpp:247-255 | over any sequence of rounds, control PDUs and data packets, what is still to come and what has arrived make up what was to come and what was spoiled |
| Progress.RoundsBounded | receiver/CfdpReceiver.cpp:354-359 | so there are at most as many productive rounds as packets outstanding in the whole file and spoiled since |
| Progress.NothingYet | sender/sender.py:241-247 | at the start these are all packets of all chunks |
| Progress.NothingNeeded | receiver/CfdpReceiver.cpp:362-385 | none is outstanding if and only if every chunk is done |
| Progress.RoundsOfChunk | receiver/CfdpReceiver.cpp:354-359 | the same for the packets of a single chunk while it stays in progress |
| Delivery.ColdStartDelivers | sender/sender.py:136-198 | from a cold start, Metadata and all chunks as the sender sends them end the transfer with the file in place, cached and durable, and with the final ACK iff the checksum passes |
| Delivery.ResumedTransferDelivers | receiver/CfdpReceiver.cpp:454-466 | an active receiver, whatever is done and half received, answers a resume query, and what the sender sends from there ends the transfer with the file in place |
| Delivery.ResumeIsFirstMissing | receiver/CfdpReceiver.cpp:454-466 | the reply names the least missing chunk, or 0xFFFFFFFF iff none is missing |
| Delivery.ResumedRun | sender/sender.py:216-225 | given that reply and each chunk's ACK, the sender sends exactly those chunks, or EOF alone |
| Delivery.ChunkArrives | receiver/CfdpReceiver.cpp:219-255 | all packets of the next chunk, in any order and with repetitions, make it done and acknowledged from any partial state, and change no other chunk |
| Delivery.AcknowledgedRun | sender/sender.py:139-178 | given each chunk's ACK in turn, the sender sends exactly the chunks from k on, each followed by EOF |
| Recovery.NeverStuck | sender/sender.py:127-198 | from every state of every run, with a file name the receiver accepts, some continuation ends with the sender's success if and only if the checksum passes |
| Recovery.SomeRunFinishes | sender/sender.py:127-198 | from every initial state there is a run to the sender's success |
| Handlers.UnknownIgnored | receiver/CfdpReceiver.cpp:60-110 | a PDU that is empty or of any type but the four known ones changes nothing at all |
| Handlers.FlippedTypeIgnored | sender/sender.py:85-93 | so a data packet whose type byte the link has flipped is without effect |
| Handlers.TrailingBytesIgnored | receiver/CfdpReceiver.cpp:71-108 | bytes behind a complete PDU make no difference |
| Handlers.TruncatedDropped | receiver/CfdpReceiver.cpp:71-108 | every strict prefix of an unpadded PDU is dropped |
| Handlers.MetadataAnswer | receiver/CfdpReceiver.cpp:116-183 | Metadata of the active transfer is dropped, the id completed last gets the final ACK, and any other begins a transfer with its numbers, no chunk done and nothing sent iff its sizes are within the literal bounds and its name is safe |
| Handlers.SafeNameIff | receiver/CfdpReceiver.cpp:150-158 | the name check accepts a name iff, up to its first NUL, it is not empty, has no byte 0x2F and no two adjacent bytes 0x2E |
| Handlers.OldJournalForgotten | receiver/CfdpReceiver.cpp:160-178 | an old journal is gone before the new one is written, so a stop in between leaves none |
| Handlers.DataRefused | receiver/CfdpReceiver.cpp:187-217 | without an active transfer, or if id, payload length, chunk number or packet count do not belong to it, data changes nothing |
| Handlers.RepeatAnswer | receiver/CfdpReceiver.cpp:225-232 | a packet of a finished chunk is answered with that chunk's ACK iff it is packet 0, and only moves the latest chunk seen |
| Handlers.DataAnswer | receiver/CfdpReceiver.cpp:219-257 | a packet of an unfinished chunk: first the NAK for exactly the missing packets of another chunk in progress; then it replaces its own slot; once all are intact the chunk is done, its ACK is sent, and the completion check follows iff EOF is recorded |
| Handlers.EofAnswer | receiver/CfdpReceiver.cpp:259-280 | EOF is recorded, nothing else of the transfer changes, and the reply is one NAK for exactly the missing packets of the chunk in progress, or what a complete or incomplete file calls for |
| Handlers.EofRecordedFirst | receiver/CfdpReceiver.cpp:272-279 | EOF is in the journal before anything is replied to it |
| Handlers.ForeignEofIgnored | receiver/CfdpReceiver.cpp:261-270 | EOF of another transfer, or while none is active, changes nothing |
| Handlers.EofChecksumUnused | receiver/CfdpReceiver.cpp:259-280 | the checksum inside an EOF has no influence |
| Handlers.FlushAnswer | receiver/CfdpReceiver.cpp:336-344 | a flush sends the chunk's ACK before anything the completion check sends |
| Handlers.FlushedFile | receiver/CfdpReceiver.cpp:293-320 | after a flush the chunk is at its place, every other byte is as before, in a file of the announced size if there was none, and what is cached is durable |
| Handlers.FirstFlushFullSize | receiver/CfdpReceiver.cpp:293-303 | the first flush of a transfer leaves a file of exactly the announced size: the chunk of the source at its place and zeros elsewhere |
| Handlers.FlushFails | receiver/CfdpReceiver.cpp:293-309 | a flush ends in the exception iff there is no file and the announced size is 0 |
| Handlers.QueryAnswer | receiver/CfdpReceiver.cpp:444-472 | a query for any id but the active one is answered with chunk 0, for the active one with the least missing chunk or 0xFFFFFFFF, and the receiver stays as it was |
| Handlers.BootAnswer | receiver/CfdpReceiver.cpp:22-54 | booting from no journal changes nothing, from an unreadable one removes it, from an unfinished one takes the transfer up silently and touches nothing, and from a finished one ends it |
| Handlers.BootSendsIff | receiver/CfdpReceiver.cpp:46-53 | booting sends something iff the journal has EOF recorded, every chunk done and a file that passes |
| Handlers.MissingFileAtBoot | receiver/CfdpReceiver.cpp:485-489 | a finished transfer whose file is missing is acknowledged at boot iff the announced checksum is 0 |
| Handlers.FinalAckBeforeRemoval | receiver/CfdpReceiver.cpp:396-399 | the final ACK goes out before the journal is removed, so a receiver stopped in between sends it again when booting |
| Choices.OpeningBegins | sender/sender.py:136-137 | the sender opens with Metadata and then one query: an idle receiver has the transfer active before the query comes and answers it with chunk 0, an active one is not disturbed |
| Choices.SendingChoice | sender/sender.py:152-178 | any batch of replies at a chunk: a final ACK anywhere in it ends the sender, else the chunk's own ACK anywhere moves it on, else it stays and answers the newest NAK, followed by EOF |
| Choices.NakDecides | sender/sender.py:174-178 | any bytes at all, when none acknowledges: the newest PDU of NAK type decides, and one that is too short stops the sender |
| Choices.AckTaken | sender/sender.py:160-170 | an acknowledgement counts by its chunk number alone, whatever its id and whatever follows it; one cut short never counts |
| Choices.InfoTaken | sender/sender.py:214-218 | resume information counts iff its id is the sender's, whatever follows it; cut short it never counts |
| Choices.ClosingChoice | sender/sender.py:186-196 | any batch at the end: finished iff it holds the final ACK, and nothing is sent |
| Choices.AskingChoice | sender/sender.py:210-225 | any reply to a query: only information about the own id counts, and it decides the first chunk sent |
| Choices.LastFlushReplies | receiver/CfdpReceiver.cpp:336-344 | for the last outstanding packet of the chunk in turn, the exact replies of the receiver, in order |
| Choices.LastFlushFinishes | sender/sender.py:159-165 | with EOF recorded the last packet of the file brings ACK and final ACK, and a sender given both in one batch, in either order, is finished |
| Choices.UnansweredQueries | sender/sender.py:208-229 | three timeouts: two more queries, then all of chunk 0 and EOF |
| Choices.WaitingForChunk | sender/sender.py:146-150 | any number of timeouts at a chunk: Metadata and EOF each time, and no move |
| Choices.WaitingForEnd | sender/sender.py:183-185 | any number of timeouts at the end: EOF each time, and no move |
| Limits.EofUnansweredIff | receiver/CfdpReceiver.cpp:347-394 | EOF gets no reply iff no chunk is in progress and the first missing chunk is beyond all chunks seen, or all chunks are done and the checksum fails |
| Limits.TimeoutChangesNothing | sender/sender.py:146-150 | in that situation the sender's timeouts leave receiver and sender exactly as they are |
| Limits.RebootOutOfSightIff | receiver/CfdpReceiver.cpp:41-44 | a reboot leads there iff chunk 0 is done and some chunk is not |
| Limits.LastOneStored | receiver/CfdpReceiver.cpp:336-344 | the last outstanding packet of the chunk in turn, or its only one, leaves it stored, acknowledged and the latest seen |
| Limits.LostAckNotRecovered | sender/sender.py:146-150 | if the ACK of a chunk other than the last is lost, no timeout of the sender brings any reply |
| Limits.LostAckRecoveredIff | sender/sender.py:146-165 | the next timeout brings the final ACK iff the chunk was the last and the checksum passes, and the final ACK ends the wait |
| Limits.LostFinalAck | sender/sender.py:181-185 | the final ACK is repeated on Metadata, while the waiting sender's EOF changes nothing and a resume query is answered with 0 |
| Histories.LivedRemembered | receiver/CfdpReceiver.cpp:116-131 | over any PDUs with any ids, the receiver's fields hold exactly its history: whether a transfer runs, the latest id, the latest completed id |
| Histories.FinalAckIff | receiver/CfdpReceiver.cpp:126-131 | Metadata brings a final ACK iff no transfer runs and its id is the latest completed one, 0 if there is none; the ACK carries the id of the latest transfer |
| Histories.FinalAckTrueIff | receiver/CfdpReceiver.cpp:474-481 | that ACK names a completed transfer iff the latest transfer has completed, and then it is the one asked about |
| Histories.CompletedIdBegunAgain | receiver/CfdpReceiver.cpp:116-131 | a completed id that is begun again after another one is active while still remembered as completed |
| Histories.FinalAckSentIff | receiver/CfdpReceiver.cpp:126-131 | any PDU brings a final ACK iff it ends a running transfer whose file passes, or no transfer runs and it is Metadata with the id remembered as completed |
| Histories.BootFinalAckIff | receiver/CfdpReceiver.cpp:46-53 | booting brings one iff the journal holds a complete transfer whose file passes |
| Histories.FailedTransferAckedIff | receiver/CfdpReceiver.cpp:388-394 | a file that fails its checksum, at EOF or inside a flush, ends its transfer without a final ACK, and is acknowledged afterwards by exactly the Metadata with the latest completed id |
| Histories.FailedBootAckedIff | receiver/CfdpReceiver.cpp:46-53 | if it fails while booting, by exactly the Metadata with id 0 |
| Limits.MisaddressedRefused | receiver/CfdpReceiver.cpp:192-217 | a damaged id, packet count or out-of-range chunk number is refused without any effect |
| Limits.PacketNumberUnprotected | receiver/PacketList.cpp:51-72 | a damaged packet number of any packet of an unfinished chunk is refused iff it is beyond the chunk; otherwise the slots, and the chunk that is written and acknowledged, are right iff the two packets are equal |
| Limits.RenumberedRepeat | receiver/CfdpReceiver.cpp:225-232 | for a finished chunk nothing is stored, and number 0 gets the ACK again |

## Left out

- Device setup, polling, process start and the shell and CMake scripts: the link is a sequence of PDUs or bytes, and timeouts are steps that may happen at any time.
- The bits of CRC-32: the file checksum is an arbitrary function of the file's bytes.
- The file system: one destination file and one journal file with the effects the code uses; a failed write or `open` other than a missing file is a crash.
- The journal's temporary file is replaced in one durable step; a rename that survives a crash while its data does not is not modelled beyond `JournalCodec.ImageOfTruncated`, which shows that such a file does not load.
- Path formatting: the destination path is a fixed field of 512 bytes, and all transfers of a model receiver share one destination; the filename check and the copied name are modelled.
- The contents of the state record after a journal that fails to load: it stays arbitrary, as it was. The two places that read it before the first transfer are modelled: the id of a final ACK (`Histories.FinalAckIff`) and the last byte of the file name.
- Empty PDUs from the receiver, on which the sender would stop with an index error; the receiver never sends one.
- Damage to replies on their way to the sender: the simulated link damages only what the sender sends.
- Several transaction ids in whole runs: `Resting.dfy` and `Histories.dfy` allow them, the theorems about file contents are for one id.
- Liveness: that a transfer is bound to finish is not claimed, since lost ACKs and reboots can stall it as `Limits.dfy` shows; `Recovery.dfy` has that it can finish from every state, `Progress.dfy` the bound on productive rounds.
- Loss rates, timing and memory reservation.
