# Verified model of the Pi1MHz network and tape service

The repository gives an Acorn host a network and tape service that lives on a Raspberry Pi, and an
emulator that reproduces it. This project models the machines at its core in Dafny and proves what
they promise over every run, every byte stream and every tape image.

- **Tape repair** (`TapeCrc`, `CrcDivision`, `UefRepair`, `RepairMeaning`, `UefPiWindow`). A loader that overwrites
  FILEV is redirected inside cassette payloads, in place, and the block CRC is renewed. The loops are
  proved equal to simultaneous substitution; any cut into windows gives the whole-image result;
  the catalogue and the files mean the same afterwards. For the Pi's own caller, whose carry is
  bounded, the exact condition under which nothing is lost is proved, with the tapes on which
  something is.
- **Incremental UEF stream** (`UefWindow`, `UefStream`, `UefTransfer`, `UefBackend`). Upload in
  numbered chunks, read back in numbered windows, with retries, and a guard that changes the layout
  of the pages in mid-stream. Every run uploads each chunk exactly once and delivers the tape exactly, end to end.
- **Mailbox scheduler** (`MailboxCore`, `Mailbox`, `MailboxDevice`, `MailboxPort`,
  `MailboxService`). One overwriteable
  posted event, one active callback and a deferred service, driven by ticks: safety over every run,
  which cycles are lost, a settling time, and refinement of a device with no latency.
- **Media catalogue and session** (`MediaCatalogue`, `MediaFiles`, `TapeWriter`, `MediaService`,
  `MediaStreams`, `MediaReplies`). Two visitors over one chunk walk agree; tapes laid out as recorders
  lay them out read back through both, and through the replies a host takes apart; and bounded windows
  reassemble the file, with the exact
  conditions under which a host gets another session's bytes or an early EOF.
- **SCSI adapter** (`Scsi`, `ScsiTransfers`, `ScsiCommands`, `ScsiAdapter`), **Tube ULA and clock** (`TubeUla`,
  `TubeClock`) and **FTP replies** (`FtpReply`).

`Bytes`, `Bits`, `UefFormat` and `Framing` are shared: byte fields, binary digits, the constants of
the tape format, and streams cut into frames by a rule that later bytes cannot change. UEF chunks and
FTP replies are both instances of the last.

Each module states its machine as functions on values, and where the C code updates fields, arrays
or buffers in place there is a class or a method with the same loops and branches, proved to take
the step that the function gives. Theorems about runs are about the functions.

Where the code and its documentation differ, the model follows the code:

- the comment above the Pi's carry says that a chunk too long for it is never one a repair applies
  to; the repair accepts payloads up to 65535 bytes, and `UefPiWindow.LongBlockIsMissed` gives the
  tapes that are published unrepaired. The comment's other case, giving up the chunk list, cannot
  occur;
- the catalogue reads a stored CRC low byte first and the repair stores it high byte first;
  `RepairMeaning.RewrittenVerdict` says what the catalogue then makes of a rewritten block;
- a comment in the decoder speaks of names of up to ten characters; it takes fifteen, and the repair
  takes eleven;
- a comment in the stream backend puts the vector guard at offset &A0 of every page and another says
  that the published window starts at page 0; the constants in force are &97 and page 1;
- `media_service_open` leaves a live stream as it is, and a failed READ empties the buffer under a live
  one; `MediaStreams.FileAfterOpen` and `MediaStreams.StreamStep` say exactly when the host notices;
- section 4.2 of RFC 959 has no reply whose first line carries no code; the scanner lets any "ddd "
  line end one.

Bytes are integers from 0 to 255, multi-byte fields are spelled out, and 32-bit counters wrap where
the code lets them. The dispatcher behind the mailbox, decompression, the CRC-32 of a chunk and the
disc image are parameters, so the theorems hold for every choice of them.

## Model

| member | source | states |
|---|---|---|
| `TapeCrc.Compute` | pi-side/pi1mhz/overlay/src/uef_repair.c:21-31 | the nested loops return the CRC-16 of exactly the bytes they are given, for every length |
| `TapeCrc.DetectsOneByte` | pi-side/pi1mhz/overlay/src/uef_repair.c:21-31 | replacing any one byte at any position of any payload changes the CRC |
| `TapeCrc.ResidueIffStored` | pi-side/pi1mhz/overlay/src/uef_repair.c:102-103 | a reader that runs on over two stored bytes ends at zero if and only if they are the CRC, high byte first |
| `CrcDivision.CrcIsRemainder` | pi-side/pi1mhz/overlay/src/uef_repair.c:21-31 | for every payload, the CRC is the remainder of the message times x^16 by x^16 + x^12 + x^5 + 1, by long division written out without the register |
| `CrcDivision.CrcOfOne` | pi-side/pi1mhz/overlay/src/uef_repair.c:21-31 | the CRC of the one byte 1 is stored as &10 &21 |
| `UefRepair.RepairPayload` | pi-side/pi1mhz/overlay/src/uef_repair.c:46-65 | the in-place left-to-right loop equals replacing every token of the original payload at once; its count is the number of original tokens; nothing outside the payload changes |
| `UefRepair.ScanSeesOriginal` | pi-side/pi1mhz/overlay/src/uef_repair.c:46-65 | no rewrite makes or destroys a later match: the scan finds a token where the original payload had one |
| `UefRepair.TokensAreRedirected` | pi-side/pi1mhz/overlay/src/uef_repair.c:46-65 | in so many bytes: exactly the tokens `?&212`, `!&212`, `?&213`, `!&213` with no hex digit behind become &900 and &901, and every byte outside them stays |
| `UefRepair.RedirectedOnce` | pi-side/pi1mhz/overlay/src/uef_repair.c:46-65 | a rewritten payload holds no token, so a second pass changes nothing |
| `UefRepair.ChangesIffTokens` | pi-side/pi1mhz/overlay/src/uef_repair.c:100-104 | the payload changes, and so the CRC is renewed, if and only if it held a token |
| `UefRepair.FindPayload` | pi-side/pi1mhz/overlay/src/uef_repair.c:83-99 | the nested range tests find the payload of a standard cassette block, or none |
| `UefRepair.RepairPayloadAndCrc` | pi-side/pi1mhz/overlay/src/uef_repair.c:97-106 | inside a block only the payload and its two CRC bytes change, and the CRC is that of the new payload |
| `UefRepair.Span` | pi-side/pi1mhz/overlay/src/uef_repair.c:67-114 | every complete chunk from the start offset is repaired, the returned position is where the incomplete rest begins, the count is that of all tokens, and bytes past the length are untouched |
| `UefRepair.Stamp` | pi-side/pi1mhz/overlay/src/uef_repair.c:116-121 | the whole-image form is the span from byte 12 |
| `UefRepair.WindowsRefineWhole` | pi-side/pi1mhz/overlay/src/uef_repair.c:67-121 | for every image and every cut into windows whose first holds the header, published bytes plus the carry are the whole-image repair and the hit counts add up |
| `RepairMeaning.BodyBytes` | pi-side/pi1mhz/overlay/src/uef_repair.c:83-106 | a body without tokens is untouched; otherwise the payload is the redirected one, it reads to CRC residue zero with the two bytes behind it, and all other bytes are the same |
| `RepairMeaning.WalkMeaning` | pi-side/pi1mhz/overlay/src/media_catalogue.c:123-164 | the chunk walk of a repaired image has the same status, issues and blocks, up to redirected tokens and CRC verdicts |
| `RepairMeaning.RepairPreservesMeaning` | pi-side/pi1mhz/overlay/src/uef_repair.c:74-111 | for every image, the catalogue of the repaired tape has the same verdict, total, issues, names, addresses, lengths and block counts, and every file is the same blocks, each unchanged or with its tokens redirected and a CRC verdict that is good only if the new CRC reads the same both ways |
| `RepairMeaning.RewrittenVerdict` | pi-side/pi1mhz/overlay/src/media_catalogue.c:93-117 | the catalogue calls a rewritten block good if and only if its header reads as good and the two bytes of its new CRC are equal, because it reads them the other way round |
| `RepairMeaning.RepairTwice` | pi-side/pi1mhz/overlay/src/uef_repair.c:116-121 | repairing a whole image twice is repairing it once, and the second pass counts nothing |
| `TapeWriter.PayloadIsFound` | pi-side/pi1mhz/overlay/src/uef_repair.c:83-99 | the repair finds the payload of a block laid out as recorders do exactly when it has one and its name has at most eleven characters |
| `TapeWriter.BlockIsRepaired` | pi-side/pi1mhz/overlay/src/uef_repair.c:83-106 | a repaired block is the block a recorder would have written with the redirected payload and its CRC; what follows it in the chunk stays |
| `UefPiWindow.PiTape.WindowAdvance` | pi-side/pi1mhz/patches/uef-filev-repair.patch:186-212 | one call publishes the window, and leaves the walk and stream, of one step of the run below; the final flag is set exactly when the stream ended inside the window |
| `UefPiWindow.PiTape.RepairIn` | pi-side/pi1mhz/patches/uef-filev-repair.patch:141-183 | repair_window in place: published bytes and remembered carry, skip and framing |
| `UefPiWindow.AdvanceAny` | pi-side/pi1mhz/patches/uef-filev-repair.patch:159-183 | from any state the caller can be in, a window is either exactly what the whole-image repair makes of it or steps over one chunk longer than the carry; the branch that gives the chunk list up is never taken |
| `UefPiWindow.DriveIsWholeIff` | pi-side/pi1mhz/patches/uef-filev-repair.patch:141-212 | over any run and any window sizes above the carry, the published bytes are those of the whole-image repair if and only if no chunk stepped over is one the repair would change |
| `UefPiWindow.SteppedAreLong` | pi-side/pi1mhz/patches/uef-filev-repair.patch:164-171 | every chunk stepped over is a chunk of the tape and longer than the 1024-byte carry |
| `UefPiWindow.UntouchedIffNoHits` | pi-side/pi1mhz/overlay/src/uef_repair.c:97-104 | the repair leaves a chunk as it is if and only if it counts no token in it |
| `UefPiWindow.TapeIsRepairedIff` | pi-side/pi1mhz/patches/uef-filev-repair.patch:137-212 | a tape read to its end is the repaired image exactly when no stepped-over chunk holds a token, hence whenever no chunk longer than the carry does |
| `UefPiWindow.LongBlockIsMissed` | pi-side/pi1mhz/patches/uef-filev-repair.patch:164-171 | a complete block with a token whose head fills more than the carry at the end of the first window is published unrepaired: the comment that no repair is lost is not true of such tapes |
| `UefPiWindow.OneTapeIsMissed` | pi-side/pi1mhz/patches/uef-filev-repair.patch:164-171 | one such tape: a 1230-byte chunk with a 1200-byte payload, read through windows of 1100 bytes |
| `UefPiWindow.DisabledIsIdentity` | pi-side/pi1mhz/patches/uef-filev-repair.patch:147-148 | with the repair off the tape goes out byte for byte |
| `UefWindow.Scatter` | emulator/pi1mhz-mailbox/src/pi1mhz_net_backend.c:822-833 | the page loop leaves JIM holding the scattered bytes and the guard on every page from 1 |
| `UefWindow.GuardStamp` | emulator/pi1mhz-mailbox/src/pi1mhz_net_backend.c:807-818 | the stamping loop copies the guard to each page from 1 and nothing else changes |
| `UefWindow.LayWindow` | emulator/pi1mhz-mailbox/src/pi1mhz_net_backend.c:835-856 | a window is laid flat or scattered, with its length in the trailer |
| `UefWindow.LaidRoundTrip` | emulator/pi1mhz-mailbox/src/pi1mhz_net_backend.c:822-856 | reading back in page order gives exactly the published bytes and their count; page 0 and everything past the window are untouched |
| `UefWindow.GuardedLayout` | emulator/pi1mhz-mailbox/src/pi1mhz_net_backend.c:103-114 | under a guard, byte k is in page 1 + k/151 at offset k mod 151 |
| `UefWindow.FlatLayout` | emulator/pi1mhz-mailbox/src/pi1mhz_net_backend.c:103-108 | without a guard, byte k of a window of at most 65024 is at &100 + k |
| `UefWindow.LengthInTrailer` | emulator/pi1mhz-mailbox/src/pi1mhz_net_backend.c:851-855 | either kind of window leaves its length in the last two bytes of page 255, low byte first |
| `UefWindow.LaidKeepsGuard` | emulator/pi1mhz-mailbox/src/pi1mhz_net_backend.c:807-856 | after a nonempty guarded window every page from 1 holds the guard from &97, page 255 all but its last two bytes |
| `UefWindow.StampStands` | emulator/pi1mhz-mailbox/src/pi1mhz_net_backend.c:2021-2041 | storing a guard puts it on every page from 1 and leaves page 0 alone |
| `UefStream.StepGood` | emulator/pi1mhz-mailbox/src/pi1mhz_net_backend.c:937-1096 | every request, accepted or refused, keeps the upload and delivery invariants |
| `UefStream.EveryRunIsExact` | emulator/pi1mhz-mailbox/src/pi1mhz_net_backend.c:835-1096 | in every state any run reaches: during an upload the tape is the accepted chunks once each in order and the generation counts them; while reading, the windows of successive generations concatenate to exactly the tape up to the cursor, final holds exactly at the end, and JIM shows the current window |
| `UefStream.RefusedChangesNothing` | emulator/pi1mhz-mailbox/src/pi1mhz_net_backend.c:950-973 | a refused request changes nothing, a repeated chunk changes nothing, and an APPEND is answered Done if and only if it is the chunk due or the one just taken |
| `UefStream.SentOnce` | emulator/pi1mhz-mailbox/src/pi1mhz_net_backend.c:950-973 | a chunk sent any number of times is stored once and every sending is answered Done |
| `UefStream.RetryMovesNothing` | emulator/pi1mhz-mailbox/src/pi1mhz_net_backend.c:1068-1081 | a REFILL for the previous generation lays the same window down again and moves neither cursor nor generation |
| `UefStream.ReadOnDelivers` | emulator/pi1mhz-mailbox/src/pi1mhz_net_backend.c:1068-1081 | n refills move the cursor by n windows, stopping at the end; the window is marked final exactly when the tape is used up |
| `UefStream.GuardGood` | emulator/pi1mhz-mailbox/src/pi1mhz_net_backend.c:879-885 | publishing, changing or withdrawing a guard in mid-stream lays the current window out anew without losing or repeating a byte |
| `UefTransfer.SendAdds` | emulator/pi1mhz-mailbox/src/pi1mhz_net_backend.c:943-973 | a chunk written to JIM and sent any number of times is added to the tape once |
| `UefTransfer.UploadArrives` | emulator/pi1mhz-mailbox/src/pi1mhz_net_backend.c:835-1081 | end to end: whatever was held before, a tape sent in any chunks, each once or more, then fetched from JIM window by window with or without a guard, arrives as the bytes sent or those they unpack to, repaired if and only if the repair is on |
| `UefTransfer.TapeArrives` | emulator/pi1mhz-mailbox/src/pi1mhz_net_backend.c:982-984 | a raw tape arrives as its whole-image repair when the repair is on, and as it was sent when it is off |
| `UefTransfer.UnpackedTapeArrives` | emulator/pi1mhz-mailbox/src/pi1mhz_net_backend.c:985-1059 | the same two for a tape that was unpacked |
| `UefTransfer.NoTapeNoReading` | emulator/pi1mhz-mailbox/src/pi1mhz_net_backend.c:985-1048 | an upload that is no tape is answered so, stays an upload and leaves JIM alone |
| `UefTransfer.BeginIsNew` | emulator/pi1mhz-mailbox/src/pi1mhz_net_backend.c:937-942 | the token of a BEGIN is never zero and never the one before it |
| `UefTransfer.StaleTokenIsRefused` | emulator/pi1mhz-mailbox/src/pi1mhz_net_backend.c:946-1096 | a token of another stream is refused by every request that carries one |
| `UefTransfer.BadChunkIsRefused` | emulator/pi1mhz-mailbox/src/pi1mhz_net_backend.c:953-973 | a chunk out of sequence, or with a CRC that does not agree, is refused |
| `UefTransfer.TrailerServes` | emulator/pi1mhz-mailbox/src/pi1mhz_net_backend.c:947-949 | an APPEND without a length means the one in the trailer |
| `UefTransfer.FinalizeIsRefusedIff` | emulator/pi1mhz-mailbox/src/pi1mhz_net_backend.c:979-982 | FINALIZE needs an upload with something in it; token 0 stands for the current one |
| `UefTransfer.RefillIsAnsweredIff` | emulator/pi1mhz-mailbox/src/pi1mhz_net_backend.c:1068-1081 | a REFILL is answered if and only if it names the generation, the one before it, or leaves it open; only the one before it does not move on |
| `UefTransfer.ReadyIsAnswered` | emulator/pi1mhz-mailbox/src/pi1mhz_net_backend.c:1060-1096 | REWIND gives the first window, REPUBLISH the same one again, CLOSE forgets the tape and clears the length |
| `UefTransfer.GuardIsTaken` | emulator/pi1mhz-mailbox/src/pi1mhz_net_backend.c:2021-2041 | a guard of 105 bytes is taken and stands on every page at once, none withdraws it, any other length is refused |
| `UefBackend.UefBackend.Control` | emulator/pi1mhz-mailbox/src/pi1mhz_net_backend.c:914-1110 | the object dispatches every request to the step of the protocol, in place |
| `UefBackend.UefBackend.AppendUpload` | emulator/pi1mhz-mailbox/src/pi1mhz_net_backend.c:950-973 | the APPEND checks and assignments are the APPEND step, retry included |
| `UefBackend.UefBackend.FinalizeUpload` | emulator/pi1mhz-mailbox/src/pi1mhz_net_backend.c:974-1059 | a raw or unpacked tape is restored, repaired if enabled, and its first window published; a failure leaves the upload active |
| `UefBackend.UefBackend.RefillWindow` | emulator/pi1mhz-mailbox/src/pi1mhz_net_backend.c:1068-1081 | the REFILL branches are the REFILL step |
| `UefBackend.UefBackend.SetGuard` | emulator/pi1mhz-mailbox/src/pi1mhz_net_backend.c:2021-2041 | the guard-image command is the guard step: store, stamp and lay out anew, or withdraw |
| `Mailbox.PassShrinksWork` | emulator/pi1mhz-mailbox/src/pi1mhz_mailbox.c:191-213 | the zero-time drain loop ends: each pass lowers 3 posted + 2 active + pending |
| `Mailbox.RunSafety` | emulator/pi1mhz-mailbox/src/pi1mhz_mailbox.c:62-258 | in every run: a service is pending exactly after an accepted selector that was not withdrawn, the published command is then BUSY and the selector at least &F0; each acceptance is dispatched at most once; completed callbacks are bus cycles in order, unaltered, and the newest cycle is never lost |
| `Mailbox.LostIffOverwritten` | emulator/pi1mhz-mailbox/src/pi1mhz_mailbox.c:172-258 | exactly which cycles are lost: a cycle is captured, sooner or later, if and only if it no longer waits in the posted slot when the next one arrives |
| `Mailbox.RunSettles` | emulator/pi1mhz-mailbox/src/pi1mhz_mailbox.c:215-239 | with no more accesses everything is done within max(c, K) + K + s ticks, and the newest bus cycle is the last one completed |
| `Mailbox.QuietStep` | emulator/pi1mhz-mailbox/src/pi1mhz_mailbox.c:459-532 | one access followed by capture + longest callback + service ticks does what it does with no latency |
| `Mailbox.QuietBus` | emulator/pi1mhz-mailbox/src/pi1mhz_mailbox.c:62-258 | for any delays, dispatcher and accesses on a quiet bus, all reads and the final device are those of the device without latency |
| `Mailbox.DelaysAreInvisible` | emulator/pi1mhz-mailbox/src/pi1mhz_mailbox.c:62-258 | two devices that differ only in their delays cannot be told apart on a quiet bus |
| `MailboxService.RequestIsServed` | emulator/pi1mhz-mailbox/src/pi1mhz_mailbox.c:154-170 | a block of at most 256 bytes written through the ports, then its selector: for any dispatcher, it is applied once, to that selector and a pointer &1FF0000 + &100*selector at which JIM holds the block, and the next read of the command register returns its result |
| `MailboxService.RequestIsServedDelayed` | emulator/pi1mhz-mailbox/src/pi1mhz_mailbox.c:62-258 | the same through any delays on a quiet bus |
| `MailboxService.LatencyIsExact` | emulator/pi1mhz-mailbox/src/pi1mhz_mailbox.c:172-239 | on an idle device an access has its effect after exactly its capture and callback ticks: page selectors, other writes and data reads, and other reads each have their own |
| `MailboxService.OverwriteKeepsItsTurn` | emulator/pi1mhz-mailbox/src/pi1mhz_mailbox.c:241-258 | an access that overwrites a waiting one is captured when that one was due |
| `MailboxService.BusyShows` | emulator/pi1mhz-mailbox/src/pi1mhz_mailbox.c:97-113 | in every state of every run, a service still to come reads as &80 in the command register |
| `MailboxService.OtherValueReadsBack` | emulator/pi1mhz-mailbox/src/pi1mhz_mailbox.c:97-113 | a command value below &F0 reads back and dispatches nothing |
| `MailboxService.CursorReadsBack` | emulator/pi1mhz-mailbox/src/pi1mhz_mailbox.c:34-49 | &FCA6 to &FCA8 return the cursor written to them, and &FCA9 the byte there |
| `MailboxService.PageReadsBack` | emulator/pi1mhz-mailbox/src/pi1mhz_mailbox.c:51-60 | the page selectors return what was written, a set that is not installed reading as the last |
| `MailboxDevice.MailboxDevice.CompleteActiveCallback` | emulator/pi1mhz-mailbox/src/pi1mhz_mailbox.c:62-152 | the callback acts on the registers and JIM, then retires the active event; the command write arms or withdraws the service |
| `MailboxDevice.MailboxDevice.CapturePostedEvent` | emulator/pi1mhz-mailbox/src/pi1mhz_mailbox.c:172-189 | the posted event moves to the active slot and the callback delay is loaded |
| `MailboxDevice.MailboxDevice.CompletePendingService` | emulator/pi1mhz-mailbox/src/pi1mhz_mailbox.c:154-170 | the service runs the dispatcher on the captured command pointer and publishes its result |
| `MailboxDevice.MailboxDevice.DrainZeroTimeTransitions` | emulator/pi1mhz-mailbox/src/pi1mhz_mailbox.c:191-213 | the loop performs every transition that takes no time and leaves none |
| `MailboxDevice.MailboxDevice.TickFiq` | emulator/pi1mhz-mailbox/src/pi1mhz_mailbox.c:215-239 | n ticks are n steps of the three counters, each followed by a drain |
| `MailboxDevice.MailboxDevice.PostFiqEvent` | emulator/pi1mhz-mailbox/src/pi1mhz_mailbox.c:241-258 | a post overwrites an event not yet captured |
| `MailboxDevice.MailboxDevice.BusAccess` | emulator/pi1mhz-mailbox/src/pi1mhz_mailbox.c:459-532 | an access returns the registers as they stand and posts its event |
| `MailboxPort.PortRoundTrip` | emulator/pi1mhz-mailbox/src/pi1mhz_mailbox.c:82-96 | any block written through the data port at any cursor, wrapping or not, reads back exactly, and JIM changes only under it |
| `MailboxPort.PortRoundTripDelayed` | emulator/pi1mhz-mailbox/src/pi1mhz_mailbox.c:62-258 | the same through any delays on a quiet bus |
| `MailboxPort.PageKeepsByte` | emulator/pi1mhz-mailbox/src/pi1mhz_mailbox.c:51-60 | a byte written through the page window is in JIM, and when the page is chosen again after any other the bus reads it there, or the trampoline byte mirrored over it |
| `MailboxPort.PagesAreLaidOut` | emulator/pi1mhz-mailbox/src/pi1mhz_mailbox.c:22-32 | page p is the 256 bytes at &100*p; a set that is not installed shows the last one |
| `MediaCatalogue.DecodeBlock` | pi-side/pi1mhz/overlay/src/media_catalogue.c:61-117 | the in-place decoder returns the block at an offset, or refuses it, exactly as the decoding function of the chunk's remaining bytes |
| `MediaCatalogue.UefWalk` | pi-side/pi1mhz/overlay/src/media_catalogue.c:123-164 | the walk delivers the blocks of all chunks in order, with the issue count and status |
| `TapeWriter.DecodeReadsBack` | pi-side/pi1mhz/overlay/src/media_catalogue.c:61-117 | for every name of up to 15 characters, addresses, number, flags and payload, the decoder returns exactly those of a block laid out as recorders do, whatever follows it |
| `TapeWriter.WalkReadsBack` | pi-side/pi1mhz/overlay/src/media_catalogue.c:123-164 | the walk over any recorded image finds its blocks in order, whatever other chunks there are, and counts junk behind blocks and a cut at the end |
| `MediaFiles.GroupVisitor.Visit` | pi-side/pi1mhz/overlay/src/media_catalogue.c:177-214 | after each block the entry array is the list of files begun so far, cut at its capacity |
| `MediaFiles.CopyVisitor.Visit` | pi-side/pi1mhz/overlay/src/media_catalogue.c:390-410 | after each block the output holds the payloads of the wanted file so far, or the overflow is recorded |
| `MediaFiles.EntriesStep` | pi-side/pi1mhz/overlay/src/media_catalogue.c:177-214 | the incremental grouping of blocks is the grouping of the whole block list into files |
| `MediaFiles.CatalogueUef` | pi-side/pi1mhz/overlay/src/media_catalogue.c:345-371 | the UEF path of media_catalogue returns entries, total and issues of the whole walk |
| `MediaFiles.ExtractUef` | pi-side/pi1mhz/overlay/src/media_catalogue.c:412-437 | the UEF path of media_extract leaves exactly the file in the output buffer, or fails with the stated status |
| `MediaFiles.CatalogueAndExtractAgree` | pi-side/pi1mhz/overlay/src/media_catalogue.c:123-437 | for every image under 2^32 bytes and every listed index, extraction succeeds if and only if the capacity is at least the listed length, then gives exactly that many bytes, the payloads in stream order; the lengths sum to at most the image |
| `TapeWriter.TapeReadsBack` | pi-side/pi1mhz/overlay/src/media_catalogue.c:123-437 | for every list of recorded files, chunked in any way, the catalogue lists exactly these: name, load, execution address and lock of the first block, length and number of all; and extraction returns each file's contents |
| `MediaFiles.ExtractPastEnd` | pi-side/pi1mhz/overlay/src/media_catalogue.c:412-437 | an index is refused at every capacity if and only if it is past the total |
| `MediaFiles.CatalogueNamesFit` | pi-side/pi1mhz/overlay/src/media_catalogue.c:61-117 | every catalogued name has at most 15 characters |
| `MediaService.MediaService.DispatchRead` | pi-side/pi1mhz/overlay/src/media_service_core.c:120-171 | a READ is the READ step: extraction when needed, then the next window or EOF |
| `MediaService.MediaService.DispatchCommand` | pi-side/pi1mhz/overlay/src/media_service_core.c:173-206 | every command is its step, the capacity clipped to 240 |
| `MediaService.MediaService.OpenTape` | pi-side/pi1mhz/overlay/src/media_service_core.c:15-35 | opening resets the session and binds the catalogue, or fails: with the parameter error for no bytes, else with the format error |
| `MediaStreams.StreamStep` | pi-side/pi1mhz/overlay/src/media_service_core.c:120-171 | one request of any kind: a READ is answered EOF exactly when the host has the whole source of its pass or the pass was spoiled by a failed READ of another entry; otherwise `remaining` is what is left and the window is the next bytes, nonempty from capacity 5 |
| `MediaStreams.WindowsReassemble` | pi-side/pi1mhz/overlay/src/media_service_core.c:52-171 | over any run of one session, READs of any entries in any order and with any capacities, every pass an EOF reply ended is the file it was read from unless it was spoiled, and only the first can come from a stream left by an earlier session |
| `MediaStreams.FileAfterOpen` | pi-side/pi1mhz/overlay/src/media_service_core.c:15-171 | after opening over any state, a host that reads one entry through gets that file in its first pass if and only if it is not reading entry 0 over a live stream of entry 0, or the bytes left in the buffer are the same; every later pass is the file; enough reads end a pass |
| `MediaStreams.TapeStreams` | pi-side/pi1mhz/overlay/src/media_service_core.c:15-171 | for a tape, those passes are the catalogued files: payloads in stream order, of the catalogued length; none is spoiled when every listed length is at most 65536 |
| `MediaStreams.NeverSpoiled` | pi-side/pi1mhz/overlay/src/media_service_core.c:129-140 | a session whose every file can be extracted never answers EOF early |
| `MediaStreams.EofComesEarly` | pi-side/pi1mhz/overlay/src/media_service_core.c:129-148 | a failed READ of another entry after the first window of a longer file turns the next READ into EOF, with the rest of the file unsent |
| `MediaStreams.StaleStream` | pi-side/pi1mhz/overlay/src/media_service_core.c:9-35 | after opening A and reading its entry 0, opening any B and reading its entry 0 gives the same reply, A's first window |
| `MediaStreams.BufferFits` | pi-side/pi1mhz/overlay/src/media_service_core.c:115-118 | the static buffer of 65536 bytes is never overrun |
| `MediaService.RepliesAreBounded` | pi-side/pi1mhz/overlay/src/media_service_core.c:173-206 | no reply exceeds 240 bytes or the host's capacity |
| `MediaService.TapeRepliesAreBounded` | pi-side/pi1mhz/overlay/src/media_service_core.c:52-206 | the same for every tape, whose names always fit |
| `MediaReplies.FormatShows` | pi-side/pi1mhz/overlay/src/media_catalogue.c:459-504 | the columns of a line parse back to the name, both addresses and the length modulo 2^24, then lock and CRC marks |
| `MediaReplies.CatShows` | pi-side/pi1mhz/overlay/src/media_service_core.c:52-72 | CAT gives the line of the next entry and CR, then EOF for good |
| `MediaReplies.CatsAreCounted` | pi-side/pi1mhz/overlay/src/media_service_core.c:52-72 | the catalogue cursor counts the CATs through any other requests |
| `MediaReplies.InfoReplies` | pi-side/pi1mhz/overlay/src/media_service_core.c:74-110 | INFO taken apart byte by byte is the entry: addresses, length, flags, name; other indices and small replies are refused |
| `MediaReplies.RecordedTapeIsShown` | pi-side/pi1mhz/overlay/src/media_service_core.c:15-50 | opening a recorded tape succeeds and OPEN tells the number of its files |
| `MediaReplies.RecordedTapeIsRead` | pi-side/pi1mhz/overlay/src/media_service_core.c:120-171 | reading a file of a recorded tape through gives the contents that were recorded |
| `MediaReplies.OthersAreNotOpened` | pi-side/pi1mhz/overlay/src/media_service_core.c:22-29 | no bytes, or bytes without the magic, open no session |
| `MediaReplies.ClosedIsClosed` | pi-side/pi1mhz/overlay/src/media_service_core.c:197-201 | after CLOSE every request is refused |
| `Scsi.RunKeeps` | emulator/pi1mhz-mailbox/integrations/elkulator/beebscsi_elkulator.c:84-529 | over every run of register accesses an interrupt is pending only while armed and always when armed with a request up, and no read leaves the sector buffer |
| `ScsiTransfers.CommandArrives` | emulator/pi1mhz-mailbox/integrations/elkulator/beebscsi_elkulator.c:348-379 | from a free bus, selecting and sending a whole command, of six bytes or of ten, executes exactly that command |
| `ScsiTransfers.ReadIsExact` | emulator/pi1mhz-mailbox/integrations/elkulator/beebscsi_elkulator.c:254-346 | READ(6) yields 256 bytes for each block equal to the image, zero padded past its end, then status, message and BUS_FREE; or stops at the first missing sector with status 2 and that sector in the sense data |
| `ScsiTransfers.WriteIsExact` | emulator/pi1mhz-mailbox/integrations/elkulator/beebscsi_elkulator.c:348-410 | WRITE(6) stores the blocks in their sectors and ends with good status, or ends at the first refused one with status 2 and that sector in the sense data |
| `ScsiTransfers.SectorAfterWrites` | emulator/pi1mhz-mailbox/integrations/elkulator/beebscsi_elkulator.c:217-228 | each written sector holds its block and every other sector is as it was |
| `ScsiTransfers.WrittenIsRead` | emulator/pi1mhz-mailbox/integrations/elkulator/beebscsi_elkulator.c:205-228 | blocks stored in sectors are what those sectors read as |
| `ScsiTransfers.WriteThenRead` | emulator/pi1mhz-mailbox/integrations/elkulator/beebscsi_elkulator.c:199-454 | a WRITE that fits followed by a READ of the same sectors returns the same bytes and good status |
| `ScsiTransfers.SenseIsReported` | emulator/pi1mhz-mailbox/integrations/elkulator/beebscsi_elkulator.c:254-346 | REQUEST SENSE returns the recorded code and sector, cut or zero padded to any length asked for, then clears them |
| `ScsiCommands.SectorsAreImage` | emulator/pi1mhz-mailbox/integrations/elkulator/beebscsi_elkulator.c:205-215 | byte j of what a READ delivers is byte 256*sector + j of the image, or zero past its end |
| `ScsiCommands.ReadableCount` | emulator/pi1mhz-mailbox/integrations/elkulator/beebscsi_elkulator.c:205-215 | the sectors that can be read are those that begin inside the image |
| `ScsiCommands.WritableCount` | emulator/pi1mhz-mailbox/integrations/elkulator/beebscsi_elkulator.c:217-228 | the sectors that can be written are those that lie inside it, on a drive that is not write protected |
| `ScsiCommands.WrittenBytes` | emulator/pi1mhz-mailbox/integrations/elkulator/beebscsi_elkulator.c:217-228 | byte i of the image after a WRITE is the block's byte under the sectors written, and as before elsewhere |
| `ScsiCommands.UnitIsReady` | emulator/pi1mhz-mailbox/integrations/elkulator/beebscsi_elkulator.c:254-332 | TEST UNIT READY and START STOP on a mounted image end with status 0, message 0 and a free bus |
| `ScsiCommands.TranslateAnswers` | emulator/pi1mhz-mailbox/integrations/elkulator/beebscsi_elkulator.c:304-311 | TRANSLATE gives the address back low byte first, its top five bits only, and good status |
| `ScsiCommands.ModeSenseAnswers` | emulator/pi1mhz-mailbox/integrations/elkulator/beebscsi_elkulator.c:322-329 | MODE SENSE gives the first 22 geometry bytes, or as many as asked for and there are, and good status |
| `ScsiCommands.ModeSelectAnswers` | emulator/pi1mhz-mailbox/integrations/elkulator/beebscsi_elkulator.c:312-321 | MODE SELECT takes the bytes it announced, changes nothing and ends with good status |
| `ScsiCommands.VerifyAnswers` | emulator/pi1mhz-mailbox/integrations/elkulator/beebscsi_elkulator.c:333-342 | VERIFY(10) ends with status 0 if its sector begins inside the image, otherwise with status 2 and that sector in the sense data |
| `ScsiCommands.OtherIsRefused` | emulator/pi1mhz-mailbox/integrations/elkulator/beebscsi_elkulator.c:342-346 | every other opcode, of six bytes or of ten, ends with status 2 and changes nothing |
| `ScsiCommands.StatusShowsPhase` | emulator/pi1mhz-mailbox/integrations/elkulator/beebscsi_elkulator.c:466-497 | in every state of every run the status register names the bus phase, with bit 4 the interrupt |
| `ScsiCommands.InterruptIsArmed` | emulator/pi1mhz-mailbox/integrations/elkulator/beebscsi_elkulator.c:499-529 | bit 0 of the interrupt register arms; clearing it drops what is pending; arming under a request interrupts |
| `ScsiCommands.OutOfTurnFrees` | emulator/pi1mhz-mailbox/integrations/elkulator/beebscsi_elkulator.c:348-454 | a data access in the wrong direction frees the bus |
| `ScsiAdapter.Adapter.ExecuteCommand` | emulator/pi1mhz-mailbox/integrations/elkulator/beebscsi_elkulator.c:254-346 | the object's command dispatch is the command step |
| `ScsiAdapter.Adapter.WriteDataRegister` | emulator/pi1mhz-mailbox/integrations/elkulator/beebscsi_elkulator.c:348-410 | a data write moves the command, data-out or parameter transfer on by one byte |
| `ScsiAdapter.Adapter.ReadDataRegister` | emulator/pi1mhz-mailbox/integrations/elkulator/beebscsi_elkulator.c:412-454 | a data read returns the next byte and moves the transfer, status or message phase on |
| `ScsiAdapter.Adapter.WriteRegister` | emulator/pi1mhz-mailbox/integrations/elkulator/beebscsi_elkulator.c:499-529 | the register decode of writes: data, select and interrupt enable |
| `ScsiAdapter.Adapter.ReadRegister` | emulator/pi1mhz-mailbox/integrations/elkulator/beebscsi_elkulator.c:466-497 | the register decode of reads: data and the status byte |
| `TubeUla.Fifo.Push` | emulator/pi1mhz-mailbox/integrations/elkulator/tube/ap5_tube.c:159-169 | a byte goes in at the tail of the ring when there is a free place, the tail being (head + count) mod 24 |
| `TubeUla.Fifo.Pop` | emulator/pi1mhz-mailbox/integrations/elkulator/tube/ap5_tube.c:308-318 | the oldest byte comes out at the head of the ring |
| `TubeUla.QueueInOrder` | emulator/pi1mhz-mailbox/integrations/elkulator/tube/ap5_tube.c:159-169 | over all interleavings between resets, bytes the host took followed by those waiting are the accepted bytes in order; at most 24 wait |
| `TubeUla.Ula.WriteFromParasite` | emulator/pi1mhz-mailbox/integrations/elkulator/tube/ap5_tube.c:159-169 | a parasite write is taken if and only if there is space; DATA and SPACE stay the nonempty and not-full flags |
| `TubeUla.Ula.ReadByHost` | emulator/pi1mhz-mailbox/integrations/elkulator/tube/ap5_tube.c:299-318 | a host data read returns the oldest byte, or the last one when none waits; a status read shows control bits and flags |
| `TubeUla.Ula.ResetChannels` | emulator/pi1mhz-mailbox/integrations/elkulator/tube/ap5_tube.c:74-87 | a reset leaves the queue empty and the flags saying so |
| `TubeUla.Ula.WriteByHost` | emulator/pi1mhz-mailbox/integrations/elkulator/tube/ap5_tube.c:356-397 | a control write sets or clears exactly the named bits and resets when told to |
| `TubeUla.ControlReadsBack` | emulator/pi1mhz-mailbox/integrations/elkulator/tube/ap5_tube.c:368-392 | a control write with bit 7 sets the bits it names and one without clears them, every other bit staying as the status showed it; host and parasite read the same latch |
| `TubeUla.FlagsShow` | emulator/pi1mhz-mailbox/integrations/elkulator/tube/ap5_tube.c:74-87 | bits 7 and 6 of the status bytes are DATA and SPACE of the queue for one side and of the latch for the other |
| `TubeUla.HostByteArrives` | emulator/pi1mhz-mailbox/integrations/elkulator/tube/ap5_tube.c:393-397 | a byte the host writes to register 1 is announced to the parasite and read by it, and then the host has room again |
| `TubeUla.LatchHolds` | emulator/pi1mhz-mailbox/integrations/elkulator/tube/ap5_tube.c:101-111 | that byte waits through any accesses but another such write or a reset |
| `TubeUla.EmptyReadRepeats` | emulator/pi1mhz-mailbox/integrations/elkulator/tube/ap5_tube.c:308-318 | reading the empty queue gives the parasite's last byte and takes nothing |
| `TubeUla.ResetsEmpty` | emulator/pi1mhz-mailbox/integrations/elkulator/tube/ap5_tube.c:359-377 | the selector and the reset bit empty queue and latch; the reset bit keeps the control bits |
| `TubeUla.UnselectedIsDeaf` | emulator/pi1mhz-mailbox/integrations/elkulator/tube/ap5_tube.c:299-304 | a ULA not selected answers &FE and heeds only the selector |
| `TubeClock.TicksAreThreeHalves` | emulator/pi1mhz-mailbox/integrations/elkulator/tube/ap5_tube.c:260-274 | ticks are three for every two host cycles, the odd half carried, so no rounding is ever lost |
| `TubeClock.ShownIsTrueTime` | emulator/pi1mhz-mailbox/src/pi1mhz_mailbox.c:330-346 | the wrapping counter shows the true time if every gap is under 128 cycles, and misses at least 128 otherwise |
| `TubeClock.ClockIsConserved` | emulator/pi1mhz-mailbox/integrations/elkulator/tube/ap5_tube.c:260-282 | the parasite gets floor(3H/2) ticks for H host cycles, however they are split, if and only if no gap between syncs reaches 128 |
| `TubeClock.Ap5Clock.SyncHostClock` | emulator/pi1mhz-mailbox/integrations/elkulator/tube/ap5_tube.c:276-282 | a sync runs the parasite for the cycles the counter advanced |
| `FtpReply.LinesAreExact` | pi-side/pi1mhz/overlay/src/ftp_service.c:302-305 | lines are what stands between one &0D &0A and the next |
| `FtpReply.ReplyGrammar` | pi-side/pi1mhz/overlay/src/ftp_service.c:295-337 | over the list of lines: the reply is the lines up to the least j whose line ends it, "ddd " with the code of the first line when that is "ddd-", and there is none exactly when no line ends it |
| `FtpReply.ReplyIsStable` | pi-side/pi1mhz/overlay/src/ftp_service.c:295-337 | a reply found in a prefix is never changed by later bytes and needs none of them |
| `FtpReply.FragmentationIsInvisible` | pi-side/pi1mhz/overlay/src/ftp_service.c:173-337 | however the stream is cut into receives and whenever it is polled, codes delivered plus codes still buffered are those of all bytes kept, as if they had come at once |
| `FtpReply.KeptUnlessLost` | pi-side/pi1mhz/overlay/src/ftp_service.c:188-192 | every byte received is kept unless a receive overflowed the buffer, which stays recorded |
| `FtpReply.PolledDry` | pi-side/pi1mhz/overlay/src/ftp_service.c:173-337 | once no reply is left, the codes and the leftover bytes are those of parsing the whole stream at once |
| `FtpReply.FtpControl.ControlReceive` | pi-side/pi1mhz/overlay/src/ftp_service.c:173-207 | a receive appends, or is dropped with the error state when the buffer would overflow; an earlier error does not stop it |
| `FtpReply.FtpControl.Reply` | pi-side/pi1mhz/overlay/src/ftp_service.c:297-337 | the scan and the in-place shift return the first complete reply and leave exactly the bytes after it |

## Left out

- Sockets, name lookup, lwIP, FatFs, standard input and output, and tracing: calls into foreign code.
- Decompression and ZIP archives: `unpack` in `UefStream.Env` is an arbitrary function of the upload that says whether it is a tape and which bytes reach the buffer.
- The legacy one-shot normalisation of an upload: it publishes without setting the window offset, so only streams made by FINALIZE are modelled.
- Upload after a failed FINALIZE: such a tape may be overwritten, so the exactly-once statement ends there and resumes with the next BEGIN.
- UefStream.RetryMovesNothing: a REFILL with value 0 and token 0, or value &FFFFFFFF, always advances in the code and is not a retry here either.
- Stream and upload buffers are sequences of bytes with their length, not fixed arrays; JIM and the repair window are arrays.
- JIM in the mailbox device is a value, because the dispatcher is an arbitrary function of it.
- The busy-observation wrapper around mailbox reads, and changing the timing in mid-run.
- The &FF fill of a page beyond JIM: no page number reaches it at the installed size.
- Bus-profile address predicates: finite tables.
- DFS and SSD images: the media session takes any decoded container, and only tapes are decoded here.
- RepairMeaning.RepairPreservesMeaning: a block whose header or CRC read as bad before the repair has its new verdict given by `RewrittenVerdict`, from its bytes, not from the old verdict.
- The 16-bit block count of an entry wraps, as in the code; no exact count is claimed for huge tapes.
- Issue counters are unbounded numbers.
- CLOSE within a streaming run: it ends the session, and the next one begins with an opening as in `FileAfterOpen`.
- MediaService.MediaService.OpenTape: an image that is not a tape is refused here; whether it is a disc image is not decided.
- Host file errors while reading or writing the SCSI image, and the loading of geometry files.
- ScsiCommands.ModeSelectAnswers: for an announced length of at least 1; with length 0 the code's remaining length wraps to 2^32 - 1.
- Tube registers 2 to 4, the interrupt lines to the parasite, and the 6502 itself; register 3 does not tie its flags to its count.
- The parasite being held or deselected during a clock sync: the clock theorem is about a running parasite.
- FTP transfer sequencing, socket errors and partial copies of received buffers: a receive is an append.
- The Pi's stream reader behind the window: the tape is the sequence of bytes it delivers.
- Histories (bus cycles, completed events, accepted selectors, reply codes) are kept for stating the theorems; nothing in the machines reads them.
