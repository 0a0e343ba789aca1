# K-FSW services: protocols and durable state, proved

A Dafny model of the parts of the K-FSW flight services whose correctness is in protocols and in state that
survives a failure, with proofs about every run of them.

| files | component |
|---|---|
| `Bytes.dfy` | fixed-width integers, big-endian layout, the checksum fold, options and errno results, set sizes, modulo arithmetic |
| `CommandProtocol.dfy`, `CommandRetry.dfy`, `CommandClient.dfy` | ticketed remote commands over a lossy network |
| `FtpStore.dfy`, `FtpTransfer.dfy` | resumable file transfer with a partial, a note and a commit by rename |
| `Firmware.dfy`, `FirmwareLite.dfy` | firmware update states, slot readers, the stop-and-wait block upload |
| `JournalStore.dfy`, `Journal.dfy` | the event journal: a file ring, its index, recovery and retry |
| `HkRing.dfy`, `HkSelection.dfy`, `HkStore.dfy`, `HkReader.dfy`, `HkSchedule.dfy` | housekeeping rings, merged view, batched file ring, reader, periodic schedule |
| `Schedule.dfy`, `Limits.dfy` | time-tagged releases and the limit rules that use them |
| `Registry.dfy`, `TableFile.dfy`, `Table.dfy` | the parameter registry and table files over it |

How things are modelled. Every `CONFIG_` size is a constant without a value, in the range its Kconfig entry
allows where the range matters. The CRC32 is a fold over an uninterpreted byte step, so no proof depends on the
polynomial. State that the C code updates in place is a class, or a `seq` field of one; a method's contract ties
the new state to the old one or states what it means, and ghost fields keep the history the run-wide theorems
speak about. What the network, the flash, the file system, the clock and the random source do arrives as
parameters, and the contracts hold for all of them: a storage fault script can cut power inside any write, a
network plan can lose, repeat, delay and reorder.

Findings that the proofs forced out:

- A housekeeping file ring holds the last records that fit exactly when its capacity divides 65536, or these
  records do not straddle the 16-bit wrap, or there are too few of them to meet across it (`HkStore.WindowIff`).
  Kconfig:1024-1027 allows any capacity from 8 to 8192; with one that does not divide, a wrap costs records that
  are still inside the window. Numbering after a reboot is right for every capacity (`HkStore.RestoreScan`).
- The partial beside a transfer's note is a prefix of the file the note names exactly until an attempt leaves a
  fresh note standing over a partial of something else (`FtpTransfer.Attempts`). Loss of power between the note and
  the sink does that; so does a sink whose unlink and open both fail, since the unlink's error is ignored, and a
  failed sync whose note cannot be unlinked. `FtpTransfer.StaleNoteIsContinued` runs an upload and a download into
  it in each of the three ways; the next attempt continues that partial, and only the final checksum stops it.
- When the reply to a stored block is lost, the resend is recognised if the block was full, and is refused for
  good if it was the short last one (`FirmwareLite.ResendAnswered`).
- The block number has 16 bits, and an image of more than 65536 blocks never uploads: the node refuses the block
  after the last number until the retries run out (`FirmwareLite.Sender.SendFile`).
- The firmware codec cuts the payload length to 16 bits before checking it, so re-encoding an accepted buffer
  reproduces it exactly when that length fits (`FirmwareLite.EncodeDecode`). Its callers pass the 16-bit length of a
  packet, so no buffer they pass is one that does not fit.
- The command encoder does not check the opcode its own decoder refuses (`CommandProtocol.DecodeEncode`).
- Kconfig:716-719 says an entry due less than the latency ago still runs; the code also runs one due exactly the
  latency ago (src/fbo/fbo_schedule.c:547). The model follows the code.
- The bytes after a short payload of a journal record are covered by its checksum but not checked to be zero, so
  a record has several accepted spellings (`JournalStore.DecodeIff`).
- A housekeeping range whose bound happens to be sequence zero, where numbering starts and which it meets again at
  every wrap, is not bounded on that side (`HkReader.RangeAcrossWrap`).
- A text in a table file may contain a NUL before its last byte. It is accepted, and what is stored and read back
  ends there (`Registry.ReadStored`).
- A revert right after a load restores every reading, but the bytes of a text variable exactly unless the loaded
  text was longer and left other bytes after the old terminator (`Registry.RawRestoredIff`).

## Model

| member | source | states |
|---|---|---|
| CommandProtocol.DecodeEncode | src/command/command_protocol.c:12-98 | decoding an encoding gives back every field of any message in both header versions, and refuses exactly the opcodes its version does not know |
| CommandProtocol.EncodeDecode | src/command/command_protocol.c:12-98 | re-encoding any accepted buffer reproduces it byte for byte |
| CommandProtocol.EncodeIff | src/command/command_protocol.c:12-52 | exactly which messages are encoded, and with which error the others are refused |
| CommandProtocol.WireLayout | src/command/command_protocol.c:12-52 | where each field lies in an encoded message of either version |
| CommandProtocol.EncodeArgs | src/command/command_protocol.c:100-152 | succeeds exactly on at most four arguments whose texts and total size fit, and then yields their entries in order |
| CommandProtocol.DecodeArgs | src/command/command_protocol.c:154-219 | accepts a payload exactly when some argument list of that count spells it, and returns that list |
| CommandProtocol.DecodeEntryIff | src/command/command_protocol.c:167-213 | an entry decodes to an argument exactly where that argument is encoded |
| CommandProtocol.ArgumentsUnique | src/command/command_protocol.c:100-219 | no payload spells two argument lists |
| CommandRetry.RetryCache.Serve | src/command/command_retry.c:33-127 | the in-place scan and update of the cache is the specification `Dispatch` on the slot contents, whose meaning the lemmas below state |
| CommandRetry.RetryCache.Reset | src/command/command_csp.c:18 | the cache is volatile: a reboot empties every slot |
| CommandRetry.RunKeepsInv | src/command/command_retry.c:33-127 | every legal run of deliveries and reboots keeps the cache, execution log and answers consistent |
| CommandRetry.RunStep | src/command/command_retry.c:33-127 | a run takes its deliveries and reboots one after the other |
| CommandRetry.TicketRunsAtMostOnce | src/command/command_retry.c:33-127 | over every legal run a ticket runs its handler at most once, all answers for it carry that run's result, and live tickets and live (source, nonce) pairs stay distinct |
| CommandRetry.LiveExecuteAnswered | src/command/command_retry.c:72-126 | while a ticket lives its EXECUTE runs the handler the first time and repeats the stored result afterwards |
| CommandRetry.RepeatedPrepareAnswered | src/command/command_retry.c:72-81 | a repeated PREPARE gets the same ticket and changes nothing |
| CommandRetry.NewPrepareAnswered | src/command/command_retry.c:86-113 | a new PREPARE gets a ticket exactly when a slot is free, the random source worked and the arguments decode |
| CommandRetry.TicketLives | src/command/command_retry.c:72-127 | an issued ticket lives exactly the retry window: its EXECUTE inside the window runs the handler, a repeated PREPARE gets the same ticket, and from the end of the window on it is UNAVAILABLE |
| CommandRetry.OthersRefused | src/command/command_retry.c:72-126 | an EXECUTE of a live ticket from another node is UNAVAILABLE, one with other content an invalid argument, and neither changes the cache |
| CommandRetry.MalformedRefused | src/command/command_retry.c:47-54 | anything but a version 2 PREPARE or EXECUTE with a token, no status and a payload within bounds is an invalid argument and changes nothing |
| CommandRetry.FullIsBusy | src/command/command_retry.c:86-92 | a PREPARE that finds every slot live and none of its own is told BUSY |
| CommandClient.System.Step | src/command/command_csp.c:66-131 | any delivery or reboot keeps the whole-system invariant; nothing issued or executed is forgotten |
| CommandClient.FreshReplyTrue | src/command/command_csp.c:95-109 | every reply the server sends is true of the history that includes it |
| CommandClient.System.Exchange | src/command/command_csp.c:197-260 | exactly how an exchange ends for each way the network goes; an accepted OK reply means the ticket was issued to this node under this nonce, or that the handler ran this request and reported OK |
| CommandClient.System.ExchangeWithRetry | src/command/command_csp.c:317-322 | the same over at most three sends; a lost answer is followed by another send while sends are left, and an answered one ends the phase with that answer |
| CommandClient.InvocationRunsAtMostOnce | src/command/command_csp.c:262-332 | one ticketed invocation runs the remote handler at most once in every reachable state |
| CommandClient.AcceptsExactly | src/command/command_csp.c:212-224 | every true answer is accepted, and of other messages exactly those of the same version, command and request with the right kind and token |
| CommandClient.BothPhasesAnswered | src/command/command_csp.c:262-332 | when both phases are answered in time, the second answer is the handler's own report |
| CommandClient.LosingGoesWell | src/command/command_csp.c:317-322 | a network that loses at most two sends of each phase lets the invocation go well, from any server state with a slot free |
| CommandClient.System.InvokeRemoteRetry | src/command/command_csp.c:262-332 | over any network behaviour: at most six sends, and success with status OK means the handler ran exactly once, on this command and these arguments, and reported OK with this detail; it succeeds when each phase is answered after at most two losses inside the ticket's life |
| FtpStore.ReadNoteBytes | src/ftp/ftp_store.c:110-160 | a written note reads back as the size and checksum it was written for |
| FtpStore.ReadNoteIff | src/ftp/ftp_store.c:110-160 | a note reads as a size and checksum exactly when its bytes are the ones written for them |
| FtpStore.ResumePoint | src/ftp/ftp_store.c:182-219 | a transfer continues exactly when the note names this size and checksum and the partial is neither empty nor complete; the offset and checksum are the partial's own |
| FtpStore.FileCrc | src/ftp/ftp_store.c:16-59 | chunked reading yields the size and checksum of the whole file, refuses one over 32 bits, and fails only then or when a read does |
| FtpTransfer.Send | src/ftp/ftp_transfer.c:77-109 | the frames carry the source from the offset in order, for every chunk size, up to the stated end: that of the source exactly when no read or send gives up |
| FtpTransfer.Receiver.WriteNote | src/ftp/ftp_store.c:221-261 | its exact success condition, and exactly when the new note stands whole on the disk afterwards, success or not; otherwise the old note is untouched or none is readable |
| FtpTransfer.Receiver.OpenSink | src/ftp/ftp_transfer.c:111-136 | a fresh sink discards the old partial exactly unless neither its unlink nor its open takes effect, a continued one keeps it; nothing else changes |
| FtpTransfer.Receiver.TakeFrame | src/ftp/ftp_transfer.c:181-215 | a frame advances offset and running checksum together with the bytes on disk; a cut write leaves a prefix |
| FtpTransfer.FrameValidIff | src/ftp/ftp_transfer.c:44-54 | the frame taken is exactly the one a sender of this transfer would send next |
| FtpTransfer.Receiver.TakeNext | src/ftp/ftp_transfer.c:181-215 | one step of the receive loop: the frame is accepted and its bytes follow the partial, or it says why not |
| FtpTransfer.Receiver.Receive | src/ftp/ftp_transfer.c:181-215 | for any frames: the partial is the old one up to the offset followed by exactly the accepted frames, and why it stopped; it stays a prefix of a source its note names and the running checksum is that of the bytes before the offset; an undisturbed feed completes |
| FtpTransfer.Receiver.Commit | src/ftp/ftp_store.c:272-292 | when it is refused and when the rename takes effect; the target becomes content of the declared size and checksum or stays; without faults no leftovers remain either way |
| FtpTransfer.Receiver.Finish | src/ftp/ftp_transfer.c:217-262 | only a whole and synced transfer is committed |
| FtpTransfer.Receiver.PrepareUpload | src/ftp/ftp_server.c:192-233 | the start is the resume point; a continued start changes nothing, a fresh one with room writes its note and nothing else |
| FtpTransfer.Receiver.PrepareDownload | src/ftp/ftp_client.c:472-577 | the start is zero or the claim, with the claim's checksum; anything else is refused |
| FtpTransfer.Claim | src/ftp/ftp_client.c:507-521 | a download claims the partial its own note describes, with that partial's size and checksum |
| FtpTransfer.Receiver.Attempt | src/ftp/ftp_server.c:257-287 | one attempt from a known start: the target is kept or becomes content as declared; an undisturbed feed settles it |
| FtpTransfer.AcceptedResumeOffset | src/ftp/ftp_server.c:298-314 | a claim is honoured exactly when it describes the file held now and leaves something to send |
| FtpTransfer.Receiver.ServePut | src/ftp/ftp_server.c:235-290 | for any frames and faults the target is its old content or content of the declared size and checksum; without room, or without its note, nothing else is touched |
| FtpTransfer.Receiver.Get | src/ftp/ftp_client.c:579-654 | the same for a download, for any answer of the server; a start that was not claimed is refused; success needs the server's own result |
| FtpTransfer.Receiver.Upload | src/ftp/ftp_client.c:406-465 | an upload through the window leaves exactly the fresh note beside the old partial, any other keeps a prefix a prefix; one that runs through commits the declared content or removes both leftovers, and from a prefix or from zero commits exactly the source |
| FtpTransfer.Receiver.Download | src/ftp/ftp_server.c:316-369 | the same end to end for a download, which commits only after the server's result |
| FtpTransfer.Run | src/ftp/ftp_server.c:192-290 | one attempt in either direction: the partial stays a prefix exactly unless the attempt meets the window over a partial of something else; one stopped by the link alone leaves the source up to where it stopped, and the next one continues there |
| FtpTransfer.Attempts | src/ftp/ftp_client.c:406-654 | over any number of interrupted attempts in either direction, step by step: the partial stays a prefix of the source exactly until an attempt spoils it; without a window none does; until then the target is the old content or the source and an attempt that runs through commits exactly the source; afterwards the target still has the declared size and checksum or is the old one |
| FtpTransfer.RunTwice | src/ftp/ftp_transfer.c:217-262 | from any leftovers at all, two attempts that run through, in either direction each, end with the source in place |
| FtpTransfer.StaleNoteIsContinued | src/ftp/ftp_transfer.c:117-122 | one upload or download on each of three concrete fault scripts, two of them without loss of power, ends with a note beside a wrong prefix, which is then continued |
| Firmware.Update.Acquire | src/fwu/fwu.c:50-60 | a reader is admitted exactly outside RECEIVING and FAILED |
| Firmware.Update.Release | src/fwu/fwu.c:62-68 | gives one reader back |
| Firmware.Update.EraseSlot | src/fwu/fwu.c:154-168 | erases the slot, or leaves what a failed erase leaves; never under a reader |
| Firmware.Update.Program | src/fwu/fwu.c:283-293 | accepted bytes are appended, in the slot or in the stream buffer; never under a reader |
| Firmware.Update.Begin | src/fwu/fwu.c:171-254 | its exact result; never under a reader; starts an empty transfer of the declared size and checksum; a flash failure ends in FAILED, any other refusal leaves the transfer as it was, and the counters say which |
| Firmware.Update.Write | src/fwu/fwu.c:256-299 | its exact result; appends the bytes at the received offset; a failed write ends in FAILED and is counted, any other refusal leaves the transfer as it was |
| Firmware.Update.Verify | src/fwu/fwu.c:305-344 | its exact result: all bytes, the declared checksum and a working flush; the slot then holds exactly the accepted bytes; a bad image is erased, and it and a failed flush end in FAILED and are counted |
| Firmware.Update.Finish | src/fwu/fwu.c:361-406 | its exact result: READY with a scheduled swap after verification without readers; a failed one ends in FAILED; the counters say which |
| Firmware.Update.Abort | src/fwu/fwu.c:408-440 | its exact result: erases to IDLE without readers or pending revert; a failed erase ends in FAILED; an aborted transfer counts as failed |
| Firmware.SlotFiles.OpenImage | src/fwu/fwu_fs.c:163-195 | takes one reader and gives it back when the image does not open, refused during an update; the exact success condition and the extent that was opened |
| Firmware.SlotFiles.OpenFile | src/fwu/fwu_fs.c:197-220 | its exact result; the reader count stays the number of open secondary files and probes; only the first free handle changes |
| Firmware.SlotFiles.CloseFile | src/fwu/fwu_fs.c:222-229 | closing gives the reader back |
| Firmware.SlotFiles.BeginProbe | src/fwu/fwu_fs.c:283-343 | stat and readdir hold a reader while they look |
| Firmware.SlotFiles.EndProbe | src/fwu/fwu_fs.c:154-161 | gives the probe's reader back |
| Firmware.SlotFiles.ReadFile | src/fwu/fwu_fs.c:231-246 | while a secondary file is open no update is under way, and a verified slot is the verified image; a read yields the slot's bytes from the file's own start and position, and a failed flash read moves nothing |
| Firmware.OpenSecondaryUpdate | src/fwu/fwu_fs.c:197-229 | how opening or closing one handle moves the number of open secondary files |
| FirmwareLite.DecodeEncode | src/fwu/fwu_lite_protocol.c:46-106 | an encoded message decodes to itself, unless its opcode is unknown |
| FirmwareLite.EncodeDecode | src/fwu/fwu_lite_protocol.c:80-106 | re-encoding an accepted buffer reproduces it exactly when its payload length fits 16 bits |
| FirmwareLite.WireLayout | src/fwu/fwu_lite_protocol.c:46-78 | which messages are encoded, and where each field lies |
| FirmwareLite.DecodeIff | src/fwu/fwu_lite_protocol.c:80-106 | exactly which buffers are accepted, their payload length counting in 16 bits only |
| FirmwareLite.BlockStatusIff | src/fwu/fwu_lite_protocol.c:149-194 | when a block is stored and, by the first check it fails, what else it is answered |
| FirmwareLite.HandleBlock | src/fwu/fwu_lite_protocol.c:149-194 | the exact status of every block; an accepted block is the next one, full unless last, and is appended |
| FirmwareLite.HandleImageBlock | src/fwu/fwu_lite_protocol.c:149-194 | any block the sender of an image may have sent, at any time, keeps what is held a prefix of the image up to a block boundary or its end |
| FirmwareLite.HandleBegin | src/fwu/fwu_lite_protocol.c:143-147 | its exact success condition; an accepted BEGIN holds the empty prefix of the image |
| FirmwareLite.HandleVerify | src/fwu/fwu_lite_protocol.c:196-205 | the exact status of VERIFY and START_FLASHING from the state they meet; what passes is the image; the second also schedules the swap and ends READY |
| FirmwareLite.Handle | src/fwu/fwu_lite_protocol.c:207-243 | the exact status of every opcode from the state it meets, and the state after it: START_FLASHING ends READY with a scheduled swap, ABORT in IDLE with an empty slot, STATUS and unknown opcodes change nothing; the reply describes the state after the request; any request of the sender keeps what is held a prefix of the image |
| FirmwareLite.NextBlock | src/fwu/fwu_lite_protocol.c:170-180 | a block with the expected number continues the prefix or lies past the end |
| FirmwareLite.ResendAnswered | src/fwu/fwu_lite_csp.c:418-434 | what the resend of a stored block is answered with: moved on when full, refused when short |
| FirmwareLite.Sender.Exchange | src/fwu/fwu_lite_csp.c:192-225 | whatever is lost or repeated meanwhile, the node still holds a prefix of the image; a reply that arrives is the node's answer |
| FirmwareLite.Sender.TryBlock | src/fwu/fwu_lite_csp.c:385-436 | one send of a block and the exact verdict on its answer; the sender moves on only when the node has the block, and never past the 16-bit numbers |
| FirmwareLite.Sender.SendBlock | src/fwu/fwu_lite_csp.c:385-453 | at most retries + 1 sends whatever the link does; a block that loses no more sends than it has retries is stored and left behind; one that is refused for good is not resent |
| FirmwareLite.NothingLost | src/fwu/fwu_lite_csp.c:376-468 | a link that loses nothing bears every upload with no resend |
| FirmwareLite.LossesAre | src/fwu/fwu_lite_csp.c:385-453 | the losses a block is charged with are exactly the sends before the first that is not lost |
| FirmwareLite.Sender.SendFile | src/fwu/fwu_lite_csp.c:326-476 | success means the node is VERIFIED holding exactly the image; sends are at most blocks times (retries + 1); an image of more than 65536 blocks fails; any other succeeds when each block loses no more sends than it has retries, a short last one no reply, and the resends are then exactly the losses |
| JournalStore.DecodeEncode | src/journal/journal_store.c:33-82 | every storable record decodes from its encoding to itself |
| JournalStore.DecodeIff | src/journal/journal_store.c:33-82 | which bytes decode to a record: its fields and payload as encoded, any padding, and the checksum over all of it |
| JournalStore.RecordLayout | src/journal/journal_store.c:33-50 | where the mark, the version, the sequence, the boot and the times of a record lie |
| JournalStore.EventLayout | src/journal/journal_store.c:33-50 | where the event fields, the payload and the checksum of a record lie |
| JournalStore.HeaderIff | src/journal/journal_store.c:104-139 | which bytes a journal file must begin with |
| JournalStore.Store.Open | src/journal/journal_store.c:84-166 | how each fault and each unusable file is answered; the scan builds the index of the file and the true latest boot in it, and leaves the file alone; a creation that fails leaves nothing, or a beginning of the header when its unlink fails too |
| JournalStore.Store.ScanSlots | src/journal/journal_store.c:140-162 | the sequential scan yields the index of the whole file, however short |
| JournalStore.Store.Append | src/journal/journal_store.c:168-219 | the sequence given, each refusal and what it means, that the index still agrees with the file, and that no record is of a later boot than the counter |
| JournalStore.Store.WriteSlot | src/journal/journal_store.c:194-211 | a write, whole or cut, changes no other slot and never the header; a failure closes the store |
| JournalStore.Store.Commit | src/journal/journal_store.c:212-217 | the index after a stored record |
| JournalStore.Store.Get | src/journal/journal_store.c:221-263 | the record with exactly `age` held sequences above it, absent exactly past the held count |
| JournalStore.IndexDetermined | src/journal/journal_store.c:141-215 | an index built by appends equals the one a scan builds |
| JournalStore.RetryAcceptedIff | src/journal/journal_store.c:184-193 | when a reopened store accepts a retry |
| JournalStore.CutKeepsRetry | src/journal/journal_store.c:184-219 | a cut write never costs the retry its sequence |
| JournalStore.WholeWriteDetected | src/journal/journal_store.c:196-207 | a whole record written in place changes its own slot only |
| Journal.Journal.Submit | src/journal/journal.c:44-74 | exactly which events are queued, which are dropped, and that each boot report is queued once |
| Journal.KeptMeans | src/journal/journal.c:44-66 | which events are kept: by source, severity, payload size and, for the two boot reports, once each |
| Journal.Journal.OpenStore | src/journal/journal.c:26-42 | reopening keeps the boot number, the base and the file of this run; the boot number taken first follows the latest one in the file; over working storage it fails only when boot numbers run out |
| Journal.Journal.Start | src/journal/journal.c:139-157 | started once, also when the store does not open yet; asked again it repeats the last outcome and changes nothing |
| Journal.Journal.TakeEvent | src/journal/journal.c:101-111 | the oldest queued event becomes the pending record with this boot and the wall clock, if it is set, and no sequence yet |
| Journal.Journal.AppendPending | src/journal/journal.c:112-115 | the pending record is stored, as it is, at the sequence of its place whenever the storage works, and is kept otherwise |
| Journal.Journal.Flush | src/journal/journal.c:92-123 | events leave the queue in order and none is lost; over working storage it succeeds until boot numbers or sequences run out; success leaves nothing pending |
| Journal.Journal.FlushQueue | src/journal/journal.c:92-123 | the loop of a flush over an open store |
| Journal.Journal.StoreNext | src/journal/journal.c:99-117 | one record: the pending one, or else the oldest event |
| Journal.StoredInQueueOrder | src/journal/journal.c:92-123 | across all failures and reopens no event is written under two sequences, sequence order is queue order, and what the file holds under such a sequence is that event |
| HkSelection.Housekeeping.Collect | src/hk/hk.c:516-573 | every outcome; a whole frame enters the ring, a failed or overtaken collection changes nothing and is counted; collection orders stay distinct and decreasing with age in every reachable state |
| HkSelection.Housekeeping.Define | src/hk/hk.c:266-325 | every refusal in its order; a new definition discards the samples, an empty one clears the report |
| HkSelection.Housekeeping.Clear | src/hk/hk.c:327-354 | clears one report only |
| HkSelection.Housekeeping.Get | src/hk/hk.c:645-668 | the sample of an age, absent exactly past the held count |
| HkSelection.Housekeeping.GetSelected | src/hk/hk_selection.c:26-87 | number `index` of all held samples of the selected classes by class ascending, then newest first; absent exactly past that list |
| HkRing.MaskBits | src/hk/hk_selection.c:38 | bit `c` of the mask selects class `c` and no other, and a mask selects what its parts do |
| HkRing.IndexMeans | src/hk/hk_selection.c:26-87 | what an index counts along: held samples of selected classes, classes upwards, the later collected first |
| HkSelection.Housekeeping.Available | src/hk/hk_selection.c:41-47 | the depths of a class add up to the number of its samples, within 16 bits |
| HkSelection.Housekeeping.NewestOf | src/hk/hk_selection.c:60-76 | the inner scan finds the newest head among the reports of the class |
| HkSelection.Housekeeping.MergeTo | src/hk/hk_selection.c:55-82 | the merge loop ends at the sample with exactly that many before it |
| HkRing.IndexUnique | src/hk/hk_selection.c:26-87 | that order is total: an index names one sample |
| HkSelection.MergeStep | src/hk/hk_selection.c:55-82 | each step of the merge passes the newest sample not yet passed |
| HkSelection.ChosenIsAt | src/hk/hk_selection.c:55-82 | what precedes the chosen sample is all lower classes and what the merge passed |
| HkStore.SlotsDistinctIff | src/hk/hk_store.c:235-237 | sequences closer than the capacity keep separate slots across the wrap exactly when the capacity divides 65536 |
| HkStore.LatestAdvances | src/hk/hk_store.c:229-247 | after each write every slot holds the last sequence that chose it, for every capacity |
| HkStore.WindowIff | src/hk/hk_store.c:229-247 | after any writes the file is the window of the last that fit exactly when the capacity divides 65536, they do not straddle the wrap, or they are too few to meet across it |
| HkStore.ClashAt | src/hk/hk_store.c:235-237 | otherwise two of them share a slot, and the later one costs the earlier |
| HkStore.StoredReport.Configure | src/hk/hk_store.c:112-181 | its exact success condition; storing starts afresh, or stops and keeps the file |
| HkStore.EveryNIff | src/hk/hk_store.c:153-164 | a batch is the fewest samples whose collections span the interval, at most what the ring holds |
| HkStore.StoredReport.Define | src/hk/hk_store.c:191-203 | a new definition deletes the file and stops storing |
| HkStore.StoredReport.Collect | src/hk/hk.c:562-585 | every collected sample is written or still pending in the ring, also after a file that would not open; a full batch is written whole |
| HkStore.StoredReport.Flush | src/hk/hk_store.c:205-254 | its exact result; what was written, then what is pending, is what was collected, in order and once each; a file that does not open keeps everything pending |
| HkStore.StoredReport.WriteBatch | src/hk/hk_store.c:227-247 | the batch is written oldest first from the ring, to the sequences that were counted, and stops at the write that fails |
| HkStore.StoredReport.WriteOne | src/hk/hk_store.c:229-247 | a sample goes to the slot of the sequence inside its own frame |
| HkStore.RestoreScan | src/hk/hk_store.c:290-318 | accepts exactly a file in which everything written belongs; after any writes, wrapped or not, it finds the last sequence written |
| HkStore.StoredReport.Restore | src/hk/hk_store.c:260-349 | after a reboot numbering goes on right after the last sequence in the file, and the file carries on |
| HkStore.ReadBack | src/hk/hk_reader.c:270-305 | the reader returns exactly the last written samples that fit, oldest first, whenever these are kept |
| HkReader.NewerIsFarther | src/hk/hk_reader.c:181-184 | the signed 16-bit comparison agrees with distance within half the circle |
| HkReader.HeaderIff | src/hk/hk_reader.c:144-160 | a header is accepted exactly when it is the one written for this report and a usable shape |
| HkReader.OpenFile | src/hk/hk_reader.c:120-192 | the header checks, then the slot scan with the capacity the header names |
| HkReader.OpenReader | src/hk/hk_reader.c:162-191 | counts the slots that belong to the report; on a window it finds its size and true newest |
| HkReader.Walk | src/hk/hk_reader.c:270-305 | visits the matching records from the oldest to the newest sequence |
| HkReader.VisitedAsAsked | src/hk/hk_reader.c:203-305 | for any file contents every visited record is of the report, passes the filter and carries the sequence asked for, in order |
| HkReader.FilterIff | src/hk/hk_reader.c:234-261 | what a filter lets through, by the bytes of the frame |
| HkReader.RangeAcrossWrap | src/hk/hk_reader.c:231-243 | a range of sequences selects what it should across the wrap, unless a bound is the sequence zero |
| HkReader.RangeVisited | src/hk/hk_reader.c:270-305 | on a window a walk over a range visits exactly the records of its places, oldest first |
| HkReader.WindowVisited | src/hk/hk_reader.c:270-305 | on a window an unfiltered walk visits exactly its records, oldest first |
| HkSchedule.NextDue | src/hk/hk.c:753-757 | the first lattice point strictly past completion, at most one period on |
| HkSchedule.Schedule.SetPeriod | src/hk/hk.c:683-706 | its exact success condition; a new revision and lattice for that report only |
| HkSchedule.Schedule.Define | src/hk/hk.c:294-303 | a new definition keeps the period and starts a new lattice |
| HkSchedule.Schedule.Clear | src/hk/hk.c:327-354 | a cleared report has a new revision and no schedule |
| HkSchedule.Schedule.SetEnabled | src/hk/hk.c:378-397 | a change gives every schedule a new revision and keeps its due time |
| HkSchedule.Schedule.Take | src/hk/hk.c:759-774 | an attempt is taken exactly when ready, enabled, defined, periodic and due |
| HkSchedule.Schedule.Finish | src/hk/hk.c:776-789 | advances the schedule by the missed slots and one, or leaves a changed schedule alone; the miss counter is the true total, saturated |
| HkSchedule.Apply | src/hk/hk.c:266-397 | what each change makes of every schedule, and that it gives a changed one a later revision |
| HkSchedule.CollectorTurn | src/hk/hk_thread.c:20-36 | with any changes landing during a collection: unchanged, the due time moves past completion by at most one period and attempts plus misses are the slots passed; changed, the schedule is exactly what the changes made of it, as are all others either way |
| HkSchedule.LatticeCounts | src/hk/hk.c:753-789 | due times stay on one lattice, and attempts plus misses count its slots |
| Schedule.HashBytesInjective | src/fbo/fbo_schedule.c:129-139 | the hashed bytes tell any two contents apart |
| Schedule.Queue.Add | src/fbo/fbo_schedule.c:199-293 | every refusal in its order, idempotence by live content hash, and the first free slot otherwise |
| Schedule.RefusalIff | src/fbo/fbo_schedule.c:210-252 | exactly which contents may be queued, and how a malformed one, an unset clock, a past instant and an unreachable node are told apart |
| Schedule.DueMeans | src/fbo/fbo_schedule.c:510-525 | when an accepted entry is due and when it is late, in terms of the clock it was accepted at |
| Schedule.AcceptedNotOverdue | src/fbo/fbo_schedule.c:236-239 | a well-formed entry is taken exactly when a scan in the same moment would not call it overdue |
| Schedule.Queue.SetLatency | src/fbo/fbo_schedule.c:180-197 | accepted exactly between the floor and an hour |
| Schedule.Queue.Cancel | src/fbo/fbo_schedule.c:295-313 | withdraws exactly a waiting entry |
| Schedule.Queue.Clear | src/fbo/fbo_schedule.c:315-333 | frees everything but a release in flight and counts it |
| Schedule.DroppableCounts | src/fbo/fbo_schedule.c:315-333 | what a clear counts are the slots in use but for a release in flight |
| Schedule.Queue.Select | src/fbo/fbo_schedule.c:534-569 | marks exactly the late entries overdue and starts the most overdue of the rest, the lowest slot among equals; none exactly when none is due |
| Schedule.Queue.Expire | src/fbo/fbo_schedule.c:540-557 | one slot of the scan: late turns overdue, due within the latency is a candidate |
| Schedule.Queue.Mark | src/fbo/fbo_schedule.c:478-485 | starting a due entry within the latency is one release in the history and in the counter |
| Schedule.Queue.Complete | src/fbo/fbo_schedule.c:490-499 | the slot still holds the entry that was started |
| Schedule.ReleasedOnce | src/fbo/fbo_schedule.c:471-572 | over every run no entry is released twice |
| Schedule.ReleaseIsTimely | src/fbo/fbo_schedule.c:510-557 | over every run a release is not before its delay or time, not beyond the latency, and not of an entry withdrawn, dropped or overdue |
| Schedule.LeaveKeepsInv | src/fbo/fbo_schedule.c:157-161 | every way an entry stops waiting keeps the invariant, live hashes distinct among it |
| Schedule.AddKeepsInv | src/fbo/fbo_schedule.c:249-285 | an accepted add keeps it |
| Schedule.Sweep | src/fbo/fbo_schedule.c:527-572 | at most a burst of releases, in non-increasing lateness when nothing is added meanwhile; stopping short means nothing due still waits |
| Schedule.AddTwice | src/fbo/fbo_schedule.c:253-259 | an upload repeated while its entry lives adds nothing |
| Limits.HoldsIsRelation | src/limits/limits.c:129-217 | an integer rule compares the two numbers at every width and sign |
| Limits.FitsMeans | src/limits/limits.c:129-160 | the integers each parameter type holds |
| Limits.IntegerRule | src/limits/limits.c:554-583 | a sweep finds an integer rule holding exactly when the reading stands in the written relation to the bound |
| Limits.FloatRule | src/limits/limits.c:554-583 | the same over the numbers the bits of a float or double stand for, and nothing holds of a NaN |
| Limits.UnorderedNeverHolds | src/limits/limits.c:183-202 | a NaN holds for no comparison |
| Limits.AttemptsExactly | src/limits/limits.c:554-583 | the counter and latch attempt a release exactly when the history of sweeps asks for one; saturation never suppresses one |
| Limits.StateMeaning | src/limits/limits.c:554-601 | what the counter and the latch mean in terms of the history |
| Limits.OneReleasePerCrossing | src/limits/limits.c:570-582 | between two successful releases of the automaton lies a false reading |
| Limits.RefusedIsRetried | src/limits/limits.c:580-582 | a refused action is attempted again at the next holding reading |
| Limits.Release | src/limits/limits.c:520-538 | an accepted action is live in the queue, newly and due one delay on, or as the identical entry already there |
| Limits.Service.Load | src/limits/limits.c:470-518 | a whole new rule set or no change |
| Limits.Service.Evaluate | src/limits/limits.c:554-583 | one rule of one sweep: attempted exactly when its history asks, with the counters |
| Limits.Service.Sweep | src/limits/limits.c:585-608 | every rule attempts exactly when its own history asks; a disabled sweep breaks every run and keeps every latch |
| Limits.Service.BreakRuns | src/limits/limits.c:590-597 | a disabled sweep zeroes every counter and leaves every latch |
| Registry.Parameters.AddDefinition | src/parameter/parameter.c:559-717 | the exact success condition and every refusal in its order; an accepted definition is inserted with the ids strictly sorted, and every table's count stays the number of its entries |
| Registry.ProblemIff | src/parameter/parameter.c:559-680 | exactly which definitions are acceptable in themselves |
| Registry.EntryIs | src/parameter/parameter.c:682-717 | the entry of an accepted definition carries each of its fields |
| Registry.Parameters.AddTable | src/parameter/parameter.c:516-557 | every refusal in its order; an accepted table is inserted with the ids strictly sorted |
| Registry.Parameters.FindTable | src/parameter/parameter.c:500-508 | finds a table exactly when it is registered |
| Registry.Search | src/parameter/parameter.c:268-287 | binary search finds what looking at each entry would |
| Registry.Parameters.FindId | src/parameter/parameter.c:268-287 | the same over every reachable registry |
| Registry.ReadStored | src/parameter/parameter.c:303-440 | a checked value, once stored, is the one read back |
| Registry.ValidateMeans | src/parameter/parameter.c:358-403 | exactly which values a parameter accepts |
| Registry.RawRestoredIff | src/parameter/parameter.c:303-440 | putting back what was read before restores the variable byte for byte exactly unless it is a text that was not terminated, or whose replacement was longer and different from the bytes it overwrote |
| Registry.DecodeIff | src/parameter/param_wire.c:63-192 | a value decodes from bytes exactly when they are its encoding, its code is the parameter's and the parameter accepts it |
| Registry.WireCodes | src/parameter/param_wire.c:13-61 | which types the file format has, their codes and sizes, and which types share one |
| TableFile.ParseIff | src/table/table.c:198-215 | a file parses to a list of entries exactly when it is that list laid out |
| TableFile.HeaderIff | src/table/table.c:160-196 | exactly which headers are accepted, the checksum over the whole file among it |
| TableFile.FileLayout | src/table/table.c:198-215 | where each field of the header and of an entry lies |
| TableFile.FileRoundTrip | src/table/table.c:160-196 | a written file fits the buffer, passes the header checks and parses back |
| Table.CheckEntries | src/table/table.c:221-297 | accepts exactly the files whose entries parse, are distinct and are each accepted, and yields their assignments |
| Table.CheckOne | src/table/table.c:243-285 | the checks of one entry in their order, a repeated offset first; the reason reported is the one that holds of the registry |
| Table.CheckEntryIff | src/table/table.c:243-285 | an entry passes exactly when the parameter it names is writable, alone if it may refuse, and decodes and accepts the value |
| Table.ReasonOf | src/table/table.c:250-275 | why an entry is refused, in terms of the registry |
| Table.Examine | src/table/table.c:123-158 | the size limits, header and entries together |
| Table.Tables.StoreAll | src/table/table.c:379-386 | all of the values are stored or none is |
| Table.Tables.Load | src/table/table.c:358-418 | its exact success condition; every entry of the file stored and the replaced values kept, or storage, undo set and state unchanged; no read-only parameter ever changes; a file naming an unregistered offset, a read-only parameter or a fallible one among others is refused with that reason |
| Table.StoredMeans | src/table/table.c:379-386 | what storing an acceptable file makes of every parameter, in terms of the file |
| Table.Tables.ReadAll | src/table/table.c:370-378 | what a load saves is the undo of its assignments |
| Table.Tables.Revert | src/table/table.c:420-475 | its exact success condition; every saved value stored, or nothing changed |
| Table.Tables.CheckSaved | src/table/table.c:437-453 | passes exactly when every saved value still passes its parameter's own check |
| Table.UndoRestores | src/table/table.c:374-471 | storing what a load replaced makes every parameter read as before it |
| Table.LoadThenRevert | src/table/table.c:358-475 | a revert right after a load restores what every parameter read, and succeeds exactly when each parameter accepts the value it had and a fallible one takes it back |
| Table.Tables.Dump | src/table/table.c:477-547 | refused only out of range, with nothing or with too much to dump: the buffer never runs out first; the image is the file of the current values |
| Table.DumpListIff | src/table/table.c:495-520 | which parameters a dump writes |
| Table.DumpAcceptable | src/table/table.c:477-547 | a dumped file is acceptable exactly when every dumped value passes its own check and a fallible one is alone, and asks for exactly the dumped values |
| Table.DumpThenLoad | src/table/table.c:358-565 | a dump loaded back is taken exactly under that condition and changes no reading |

## Left out

- CSP sockets and RDP, libparam handling, shell capture, logging, events, health, scrub, golden image and parameter tables: they rest on libraries or add only easy members.
- The version 1 command path and `kfsw_command_lookup_id`: `Dispatch` models the version 2 branch of the server; commands are named by id and their handlers by the result they report.
- CommandClient.System.Step: messages travel as decoded values, which the codec's bijection justifies; a fresh random ticket never repeats an issued one, and the server clock runs backwards only across a reboot.
- CommandClient.System.InvokeRemoteRetry: the nonce is a parameter that no earlier executed invocation of this node used, as the random source promises.
- JournalStore.Store.ScanSlots: the counter of unreadable slots is kept as in the code, and nothing is stated about it.
- JournalStore.Store.WriteSlot: a cut write never forges another record's checksum (`Detected`); a write that would is taken as not reaching the disk. A whole write needs no such assumption.
- FtpStore.ReadNoteIff: the note's words are laid out big-endian as every other file is; the code writes the struct in the machine's own order, which no property here depends on.
- FtpTransfer.Attempts: one transfer per target at a time is assumed, and a note that a cut left partly written is not taken for a whole one.
- FtpTransfer.Receiver.PrepareUpload: path resolution, directory checks and free space are parameters, as is whether the partial can be read; the firmware path of an upload is not part of this model.
- Firmware.Update.Begin: flash, MCUboot and the stream buffer are abstract operations that may fail; image TLV parsing is not part of this model.
- FirmwareLite.Sender.Exchange: each wait yields the outstanding reply or a timeout, never a stale reply; buffers and the codec do not fail. Repeated deliveries are of blocks whose number fits 16 bits.
- HkStore.StoredReport.Collect: the store file is whole records after its header; extracting to another file is not part of this model.
- HkReader.OpenReader: a read error counts as the end of the file, as in the code.
- HkSelection.Housekeeping.Define: the entries of a definition and their checks are one result; sampling the parameters into a frame is another.
- HkSchedule.Schedule.Take: times and revisions are unbounded integers; beacons use the same arithmetic and are left out.
- Schedule.Queue.Select: choosing an entry and marking it running is one step; the code does them in two locked sections without rechecking (src/fbo/fbo_schedule.c:536-565 and 478-485).
- Schedule.Queue.Add: resolving the command text is a parameter; the refusal counter, clock step detection and the queue hash are left out. Two contents with one checksum count as the same content, as in the code.
- Limits.Service.Load: parsing the rule file is a parameter; what float bits stand for is left open, and infinities are not distinguished from numbers.
- Limits.Service.Sweep: the scheduler's answers are parameters there; `Limits.Release` connects an answer to the queue.
- Registry.ReadStored: validators are functions of the value alone, every parameter has a variable of its own, and change callbacks are left out.
- Table.LoadThenRevert: restores readings; when the bytes of the variable come back too is `Registry.RawRestoredIff`.
- Table.Tables.Dump: sampled parameters count as sampled already; the write of the image through a temporary file is not part of this model.
- Table.Tables.Load: the load and rejection counters, the path in the status and the emitted events are left out.
