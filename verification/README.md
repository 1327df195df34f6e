# Verified models of LUFA's bootloaders and buffered bridges

This project models, in Dafny, the parts of LUFA 130303 where bytes have to arrive intact and where a
state machine has to be trusted: the DFU, HID and CDC bootloaders, the host program that loads hex files
over HID, the interrupt-shared ring buffer with the USB-to-serial bridge and the LCD decoder on top of it,
the MIDI note allocator and the byte-order helpers.

Code that updates static variables in loops is a class whose methods loop over the same words, bytes and
packets (`DfuBootloader`, `CdcBootloader`, `HidBootloader`, `HexLoader`, `Ring`, `LcdDecoder`,
`NoteTable`). Each method is proved to compute a function on plain states, and the theorems about whole
requests, sessions and runs are about those functions. Concurrency is a state machine whose steps are the
individual stores between which an interrupt can fall (`RingProtocol`, `SerialBridge`).

The hardware is modelled as follows.

- Flash is written a page at a time. An erase makes the page blank, a fill stores one word in a one-page
  buffer, and a commit programs the page from the buffer and blanks the buffer. Programming can only clear
  bits, so a commit to a page that was not erased does not leave the buffer's contents there. Page sizes
  are 128 and 256 bytes. Address bits above the flash size are ignored, and so is bit 0 of a fill address.
- Erasing or committing a page locks the application section out of reading until it is enabled again; a
  locked-out section reads as blank.
- An OUT endpoint is a current bank and a queue of packets. Waiting for a packet that never comes ends as
  it does in the source, when the device finds itself unattached: the handler returns with the state as it
  is, and the session goes on from there. An empty bank reads as zero. IN packets are always taken.
- The DFU READ command indexes three-byte tables with an unchecked byte; the model's tables list all 256
  bytes such an index can reach.

## Results worth knowing

Everything below is proved for all inputs. Where a promise turned out to fail, the exact condition is
proved instead.

- Secure mode of the DFU bootloader hides the application from every request sequence, and never touches
  memory before a chip erase.
- The DFU chip erase blanks the application exactly when the page buffer was blank (`ChipEraseExact`). The host
  cannot read the buffer, but it is blank after every session whose downloads all ran to their end
  (`BufferBlankAfter`), so chip erases are then exact (`ChipEraseAfterSession`). A host that breaks off a
  download inside a page and then erases the chip finds its last words still in flash
  (`LeftoverSurvivesChipErase`).
- A DFU flash download puts every payload of its length where the host asked exactly when it starts at a
  multiple of the 32-byte packet size, has an even length below 64K, and either starts on a page boundary or
  stays inside one page (`FlashDownloadExactIff`). Otherwise: the alignment filler is dropped one byte short
  (`FillerRemains`), so the last payload byte is never read (`LastByteIgnored`) and filler is programmed instead
  (`FillerIsProgrammed`); a last odd byte is never programmed (`SingleByteIsLost`); the length of the range from 0
  to 0xFFFF wraps to zero, so none of its bytes is (`FullRangeIsLost`); and a start inside a page makes the loop's
  page count and the page buffer disagree (`OverrunMisses`). For EEPROM the condition is the start address and
  the 64K limit (`EepromDownloadExactIff`).
- Host and device of the HID chain agree on block addresses for every row of the size table but the 64K one
  (`AddressCodingAgrees`). There a load leaves only the last block it sends, turned, in the first page
  (`Load64K`), and a file arrives whatever the device held exactly when all its bytes are in the first page
  (`Arrives64KExact`). On the other rows the last block of the 64K image always comes out blank
  (`WholeFileArrives`).
- A failed DFU blank check reports the least non-blank address to the host (`BlankCheckAnswer`). A signature read
  in the error state is answered by the start address instead (`ReadAnswer`).
- A hex file may place its rows behind type 2 records (`SegmentedRoundTrip`), but a type 4 record of anything but
  zero makes it be refused, since the base also counts against the image limit for the end record
  (`LinearBaseRefused`). A blank line in a hex file is refused (`BlankLineRefused`), because its line end is still
  in the buffer.
- The CDC set-address command misses its word for word addresses 0x4000 to 0xBFFF on 128K parts
  (`SetAddressExact`). A CDC flash block write puts every block in place exactly when the block is of even length
  and stays inside its page (`BlockWriteExactIff`). The single-word read returns the wrong word from a write or
  erase of flash until the next block read (`WordReadAfterSession`).
- The CDC chip erase blanks the application exactly when the page buffer was blank (`EraseExact`). The CDC
  single-word commands never program a high byte other than zero (`WordWriteExact`).
- Every byte the bridge has received can still reach the host (`EverythingCanBeSent`). Its receive interrupt keeps the
  buffer a queue exactly when there is room (`InterruptExact`).
- A full note table gives up a note of greatest age exactly when no age has reached 255 or the last one has
  (`ReplacesOldest`). That holds in every run of up to 255 note-ons (`OldestFor255`) and fails in a run of 256
  (`HeldNoteOutlivesYounger`).

## Model

| member | source | states |
|---|---|---|
| DfuBootloader.Bootloader.constructor | LUFA-130303/Bootloaders/DFU/BootloaderDFU.c:43-93 | starts in the idle state with the build's secure flag, running and not waiting to exit |
| DfuBootloader.Bootloader.Serve | LUFA-130303/Bootloaders/DFU/BootloaderDFU.c:161-162 | takes requests while running or waiting to exit; final state and all responses are those of the session function the theorems are about |
| DfuBootloader.Bootloader.ControlRequest | LUFA-130303/Bootloaders/DFU/BootloaderDFU.c:220-536 | one request maps the whole device state and the response as the request function says, and logs the page erases and writes it issues |
| DfuBootloader.Bootloader.HandleDnload | LUFA-130303/Bootloaders/DFU/BootloaderDFU.c:237-389 | pending exit, command loading, dispatch and download in one DNLOAD, including the detach returns |
| DfuBootloader.Bootloader.ExitIfWaiting | LUFA-130303/Bootloaders/DFU/BootloaderDFU.c:240-248 | a DNLOAD that finds an exit pending runs the last command again and clears the flag |
| DfuBootloader.Bootloader.ContinueDownload | LUFA-130303/Bootloaders/DFU/BootloaderDFU.c:277-383 | in the download state, an empty DNLOAD ends the download and any other streams memory and drops the suffix |
| DfuBootloader.Bootloader.ReadCommand | LUFA-130303/Bootloaders/DFU/BootloaderDFU.c:259-271 | command and up to five parameters come from the bank alone; missing ones keep their old value; the size counts down in 16 bits |
| DfuBootloader.Bootloader.DiscardFillerBytes | LUFA-130303/Bootloaders/DFU/BootloaderDFU.c:543-563 | leaves the endpoint where the discard function says, packet steps included |
| DfuBootloader.Bootloader.ReceiveMemory | LUFA-130303/Bootloaders/DFU/BootloaderDFU.c:286-381 | filler and memory contents of a download, for flash and EEPROM |
| DfuBootloader.Bootloader.WriteFlash | LUFA-130303/Bootloaders/DFU/BootloaderDFU.c:295-355 | the word loop over packets and pages leaves the chip of the programming function, re-enables reading, and logs its page operations |
| DfuBootloader.Bootloader.FinishPage | LUFA-130303/Bootloaders/DFU/BootloaderDFU.c:330-346 | commits the filled page and erases the next one if more words are to come, in that order |
| DfuBootloader.Bootloader.WriteEepromBytes | LUFA-130303/Bootloaders/DFU/BootloaderDFU.c:356-378 | the byte loop writes one cell per stream byte and advances the start address in 16 bits |
| DfuBootloader.Bootloader.HandleUpload | LUFA-130303/Bootloaders/DFU/BootloaderDFU.c:390-488 | packets and next state of an UPLOAD: a memory range, the failed blank-check address or the response byte |
| DfuBootloader.Bootloader.ProcessBootloaderCommand | LUFA-130303/Bootloaders/DFU/BootloaderDFU.c:569-612 | refuses and stalls in secure mode, otherwise dispatches |
| DfuBootloader.Bootloader.ProcessMemProgCommand | LUFA-130303/Bootloaders/DFU/BootloaderDFU.c:634-659 | loads the range, pre-erases the first flash page and enters the download state |
| DfuBootloader.Bootloader.ProcessMemReadCommand | LUFA-130303/Bootloaders/DFU/BootloaderDFU.c:665-703 | loads the range and enters the upload state, or runs the blank-check loop |
| DfuBootloader.Bootloader.ProcessWriteCommand | LUFA-130303/Bootloaders/DFU/BootloaderDFU.c:708-768 | start application in its three forms, or chip erase and unlocking |
| DfuBootloader.Bootloader.ProcessReadCommand | LUFA-130303/Bootloaders/DFU/BootloaderDFU.c:773-786 | the response byte comes from the information or the signature table |
| DfuBootloader.Bootloader.EraseApplication | LUFA-130303/Bootloaders/DFU/BootloaderDFU.c:749-763 | the erase loop over the application section, then reading enabled |
| DfuSecure.ChipEraseExact | LUFA-130303/Bootloaders/DFU/BootloaderDFU.c:751-760 | chip erase makes all application flash blank if and only if the page buffer was blank |
| DfuSecure.ChipErase | LUFA-130303/Bootloaders/DFU/BootloaderDFU.c:749-763 | from a blank buffer it blanks the application section and changes no other byte |
| DfuLeftovers.LeavesWord | LUFA-130303/Bootloaders/DFU/BootloaderDFU.c:309-321 | a download broken off after its first word leaves exactly that word in the page buffer |
| DfuLeftovers.LeftoverSurvivesChipErase | LUFA-130303/Bootloaders/DFU/BootloaderDFU.c:749-760 | from power-up, such a download followed by a chip erase leaves that word in flash, with the rest of the application blank |
| DfuSecure.FirstNonBlankIsLeast | LUFA-130303/Bootloaders/DFU/BootloaderDFU.c:680-701 | the blank-check search stops at the least non-blank address, or at the limit when there is none |
| DfuSecure.BlankCheckExact | LUFA-130303/Bootloaders/DFU/BootloaderDFU.c:676-702 | error state and least non-blank address exactly when a non-blank byte can be read below the boot section; otherwise no change at all |
| DfuSecure.EraseThenBlankCheck | LUFA-130303/Bootloaders/DFU/BootloaderDFU.c:676-767 | a chip erase followed by a blank check reports nothing |
| DfuStatus.BlankCheckRequest | LUFA-130303/Bootloaders/DFU/BootloaderDFU.c:676-702 | the blank check request on an unlocked device in any state: GETSTATUS then reports [5,0,0,0,10,0] if a readable byte below the boot section is not blank; otherwise nothing but the command has changed, and a download has ended; memory never changes |
| DfuStatus.BlankCheckAnswer | LUFA-130303/Bootloaders/DFU/BootloaderDFU.c:400-406 | the UPLOAD after a failed blank check answers the low 16 bits of the least non-blank address, low byte first |
| DfuStatus.EraseThenCheckSession | LUFA-130303/Bootloaders/DFU/BootloaderDFU.c:676-767 | from power-up, secure or not, a chip erase request and a blank check request end idle with status OK |
| DfuStatus.PowerUpStatus | LUFA-130303/Bootloaders/DFU/BootloaderDFU.c:58-64 | GETSTATUS after power-up answers [0,0,0,0,2,0] |
| DfuStatus.StatusAgreesWithState | LUFA-130303/Bootloaders/DFU/BootloaderDFU.c:489-525 | a status reply has six bytes, its fifth is what GETSTATE answers, and asking for either changes neither |
| DfuStatus.StatusThenState | LUFA-130303/Bootloaders/DFU/BootloaderDFU.c:489-525 | the same over sessions: after any requests, a GETSTATUS and a GETSTATE answer with the same state byte |
| DfuStatus.ClearAndAbort | LUFA-130303/Bootloaders/DFU/BootloaderDFU.c:509-535 | CLRSTATUS sets the status to OK and leaves the state, ABORT sets the state to idle and leaves the status |
| DfuStatus.RefusedStatus | LUFA-130303/Bootloaders/DFU/BootloaderDFU.c:571-589 | in secure mode every command but WRITE and READ is stalled and GETSTATUS then answers [3,0,0,0,10,0] |
| DfuTransfers.StallsExactly | LUFA-130303/Bootloaders/DFU/BootloaderDFU.c:569-589 | a request is stalled if and only if it is a DNLOAD that runs, in secure mode, a command other than READ and chip erase |
| DfuTransfers.UnlockedNeverStalls | LUFA-130303/Bootloaders/DFU/BootloaderDFU.c:569-589 | over every session, a device that is not in secure mode stalls no request |
| DfuTransfers.OthersIgnored | LUFA-130303/Bootloaders/DFU/BootloaderDFU.c:220-236 | requests of another type and unknown class requests change no memory, state, status or flag and get no answer |
| DfuStatus.ReadAnswer | LUFA-130303/Bootloaders/DFU/BootloaderDFU.c:773-786 | outside transfers, secure or not, a READ and an UPLOAD answer the selected table byte, except that a signature read in the error state is answered by the start address |
| DfuSessions.SecureCommand | LUFA-130303/Bootloaders/DFU/BootloaderDFU.c:571-589 | a command in secure mode erases the chip, or leaves memory and lock alone |
| DfuSessions.SecureDnload | LUFA-130303/Bootloaders/DFU/BootloaderDFU.c:237-389 | a DNLOAD in secure mode processes at most a command, never a transfer, and keeps the secure invariant |
| DfuSessions.AlikeStep | LUFA-130303/Bootloaders/DFU/BootloaderDFU.c:220-536 | two secure devices that differ only in application flash answer a request alike and stay alike |
| DfuSessions.SecureModeHidesFlash | LUFA-130303/Bootloaders/DFU/BootloaderDFU.c:39-43 | over every request sequence, secure devices differing only in application flash give the same responses |
| DfuSessions.SecureFromPowerUp | LUFA-130303/Bootloaders/DFU/BootloaderDFU.c:39-43 | from power-up, chips that differ only in application flash give the same responses to every request sequence |
| DfuSessions.SecureStep | LUFA-130303/Bootloaders/DFU/BootloaderDFU.c:569-612 | a request in secure mode leaves all memory alone, or ends secure mode with application flash blank and the rest unchanged |
| DfuSessions.SecureModeProtectsMemory | LUFA-130303/Bootloaders/DFU/BootloaderDFU.c:39-43 | memory is untouched for as long as the device stays secure, and the request that unlocks it leaves application flash blank |
| DfuSessions.StaysUnlocked | LUFA-130303/Bootloaders/DFU/BootloaderDFU.c:765-766 | once cleared, the secure flag is never set again in a session |
| DfuBuffer.FinishedRequestLeavesBufferBlank | LUFA-130303/Bootloaders/DFU/BootloaderDFU.c:329-354 | a blank page buffer stays blank over every request, except a DNLOAD that ended in the detach return |
| DfuBuffer.BufferBlankAfter | LUFA-130303/Bootloaders/DFU/BootloaderDFU.c:329-354 | the page buffer is blank after every session whose DNLOADs all reached their status stage |
| DfuBuffer.ChipEraseAfterSession | LUFA-130303/Bootloaders/DFU/BootloaderDFU.c:749-767 | from power-up, after any such session, a chip erase request blanks the whole application and unlocks |
| DfuBuffer.DownloadAfterSession | LUFA-130303/Bootloaders/DFU/BootloaderDFU.c:286-355 | after any such session, a page-aligned download of whole words leaves the payload, blanks to the page's end, and nothing else changed |
| DfuExit.CommandFlags | LUFA-130303/Bootloaders/DFU/BootloaderDFU.c:710-746 | only an accepted Start Application sets the wait flag, and only one with nonzero mode and no data left stops the bootloader |
| DfuExit.DnloadFlags | LUFA-130303/Bootloaders/DFU/BootloaderDFU.c:237-275 | exact effect of a DNLOAD on the run and wait flags |
| DfuExit.ExitStep | LUFA-130303/Bootloaders/DFU/BootloaderDFU.c:161-162 | a request leaves main's loop if and only if it is a DNLOAD without Start Application that arrives while waiting and finds or makes the bootloader stopped |
| DfuExit.FlagsHaveCauses | LUFA-130303/Bootloaders/DFU/BootloaderDFU.c:51-56 | from power-up, waiting implies an earlier Start Application, stopped implies an earlier jump, and secure implies neither |
| DfuExit.ExitNeedsHandshake | LUFA-130303/Bootloaders/DFU/BootloaderDFU.c:51-56 | every session that leaves main's loop contains a Start Application, a later DNLOAD while waiting, and a jump no later than that; never in secure mode |
| DfuExit.ShortestExit | LUFA-130303/Bootloaders/DFU/BootloaderDFU.c:710-746 | without secure mode a jump followed by an empty DNLOAD does leave main's loop, and the jump alone does not |
| DfuStatus.StartTargets | LUFA-130303/Bootloaders/DFU/BootloaderDFU.c:710-746 | only an accepted Start Application changes the jump address or the boot key, the address in its high-byte-first form and the key in its watchdog form |
| DfuStatus.JumpsToAddress | LUFA-130303/Bootloaders/DFU/BootloaderDFU.c:710-746 | on an unlocked device outside a download, Start Application with an address and an empty DNLOAD leave the loop with that address to jump to |
| DfuStatus.WatchdogStart | LUFA-130303/Bootloaders/DFU/BootloaderDFU.c:712-736 | Start Application by the watchdog sets the boot key and the pending exit and does not stop the loop |
| DfuFlashLoop.FillStep | LUFA-130303/Bootloaders/DFU/BootloaderDFU.c:311-328 | each word read goes to its slot of the page buffer, wrapping at the page's end, for any start address and any packet boundaries |
| DfuFlashLoop.PageBreak | LUFA-130303/Bootloaders/DFU/BootloaderDFU.c:330-347 | a full page is committed to erased flash and the next page is erased before its first word |
| DfuFlashLoop.ProgramWordsExact | LUFA-130303/Bootloaders/DFU/BootloaderDFU.c:309-348 | from any start and any packets that supply the words, the loop takes every word and leaves each page as a turned image of its share, with the buffer blank |
| DfuAlignment.DiscardExact | LUFA-130303/Bootloaders/DFU/BootloaderDFU.c:543-563 | exactly the bytes asked for are dropped if and only if the bank holds them all, for any packets |
| DfuDownload.LoadHeader | LUFA-130303/Bootloaders/DFU/BootloaderDFU.c:259-271 | six bytes of the first packet become command and parameters, the rest stays in the bank |
| DfuDownload.ProgStart | LUFA-130303/Bootloaders/DFU/BootloaderDFU.c:617-659 | the big-endian addresses come out as sent and only the first page is erased |
| DfuDownload.FlashDownload | LUFA-130303/Bootloaders/DFU/BootloaderDFU.c:251-389 | the complete device state after a flash download, for every start, every length up to the full 64K range, every cutting into packets that supplies the words, and every page buffer |
| DfuDownload.WholeWordDownload | LUFA-130303/Bootloaders/DFU/BootloaderDFU.c:286-355 | from a multiple of the packet size, in packets of whole words, the words programmed are the payload's counted ones |
| DfuDownload.FlashDownloadExact | LUFA-130303/Bootloaders/DFU/BootloaderDFU.c:286-355 | page-aligned and of even length below 64K: memory holds the payload, blanks to the page's end, and is otherwise unchanged, if and only if the payload fills a page or the page buffer was blank where it does not |
| DfuDownload.FlashAfterExact | LUFA-130303/Bootloaders/DFU/BootloaderDFU.c:304-347 | words programmed from an even address land there, whatever they are, if and only if the start is page-aligned or they stay inside the page |
| DfuExact.FlashDownloadExactIff | LUFA-130303/Bootloaders/DFU/BootloaderDFU.c:286-355 | as the host cuts it, over any page buffer, a flash download request puts every payload of its length in place if and only if the start is a multiple of 32, the length is even and below 64K, and it is page-aligned or inside a page |
| DfuExact.EepromDownloadExactIff | LUFA-130303/Bootloaders/DFU/BootloaderDFU.c:286-378 | an EEPROM download request puts every payload in place if and only if the start is a multiple of 32 and the length is below 64K |
| DfuExact.LastByteIgnored | LUFA-130303/Bootloaders/DFU/BootloaderDFU.c:286-378 | with alignment filler, at odd flash lengths, or over the full 64K range, payloads that differ in their last byte leave the same memory |
| DfuExact.FillerRemains | LUFA-130303/Bootloaders/DFU/BootloaderDFU.c:289-290 | with alignment filler, its last byte is still in front of the payload when the memory contents are read |
| DfuExact.FillerIsProgrammed | LUFA-130303/Bootloaders/DFU/BootloaderDFU.c:289-321 | a word downloaded to an even address inside a packet comes out as the last filler byte and its own low byte |
| DfuExact.SplitWordPads | LUFA-130303/Bootloaders/DFU/BootloaderDFU.c:311-328 | a word whose packet ends after its low byte is programmed with a high byte of zero |
| DfuExact.SingleByteIsLost | LUFA-130303/Bootloaders/DFU/BootloaderDFU.c:297-298 | a single byte is never programmed; its page is erased |
| DfuExact.FullRangeIsLost | LUFA-130303/Bootloaders/DFU/BootloaderDFU.c:293-298 | a download of the range 0 to 0xFFFF finishes, leaves the first page blank and changes nothing else |
| DfuExact.OverrunMisses | LUFA-130303/Bootloaders/DFU/BootloaderDFU.c:331-346 | a payload that a request running over its page's end misplaces |
| DfuPageCycles.EachPageOnce | LUFA-130303/Bootloaders/DFU/BootloaderDFU.c:330-346 | every page a flash download covers is erased once and then written once, in that order, and no other page is touched |
| DfuPageCycles.ChipEraseCycles | LUFA-130303/Bootloaders/DFU/BootloaderDFU.c:751-760 | a chip erase erases and then commits every page of the application once, and touches no other page |
| DfuPageCycles.FlashChangesOnlyAsListed | LUFA-130303/Bootloaders/DFU/BootloaderDFU.c:220-536 | for every request, a byte whose page none of the listed operations falls on keeps its value |
| DfuRoundTrip.UploadOfFlash | LUFA-130303/Bootloaders/DFU/BootloaderDFU.c:413-456 | the IN packets concatenate to the whole words of the selected flash range, all but the last full |
| DfuRoundTrip.UploadOfEeprom | LUFA-130303/Bootloaders/DFU/BootloaderDFU.c:457-479 | the IN packets concatenate to the selected EEPROM range, all but the last full |
| DfuTransfers.UploadEnds | LUFA-130303/Bootloaders/DFU/BootloaderDFU.c:413-483 | what an UPLOAD changes: it ends the upload state and moves the start address to the end of a flash range or past that of an EEPROM range; outside that state nothing |
| DfuTransfers.UploadTwice | LUFA-130303/Bootloaders/DFU/BootloaderDFU.c:390-483 | the second of two UPLOADs gets the response byte if the first was a transfer, and the same answer again if not |
| DfuTransfers.CheckSpoilsSelection | LUFA-130303/Bootloaders/DFU/BootloaderDFU.c:390-483 | a blank check that passes while a range is selected makes the UPLOAD send an empty packet |
| DfuRoundTrip.EepromDownloadExact | LUFA-130303/Bootloaders/DFU/BootloaderDFU.c:356-378 | an EEPROM download writes exactly the counted bytes of the payload and changes nothing else, for every cutting into non-empty packets |
| DfuTransfers.DownloadEndsExactly | LUFA-130303/Bootloaders/DFU/BootloaderDFU.c:300-381 | a download reaches its status stage if and only if its packets supply every flash word or EEPROM byte it counts |
| DfuTransfers.BrokenOffEeprom | LUFA-130303/Bootloaders/DFU/BootloaderDFU.c:356-378 | an EEPROM download broken off part-way has written exactly the bytes that came, and its start address stands behind them |
| DfuRoundTrip.FlashRoundTrip | LUFA-130303/Bootloaders/DFU/BootloaderDFU.c:292-483 | download, end, select and upload as a session return the payload in order, for every download that lands |
| DfuRoundTrip.EepromRoundTrip | LUFA-130303/Bootloaders/DFU/BootloaderDFU.c:356-483 | the same for EEPROM |
| DfuRoundTrip.DownloadsCompose | LUFA-130303/Bootloaders/DFU/BootloaderDFU.c:292-355 | downloads to disjoint page ranges, in the same or different 64K pages, give the same memory in either order, both payloads intact and nothing else changed |
| Avr.EraseThenWrite | LUFA-130303/Bootloaders/DFU/BootloaderDFU.c:754-757 | an erase and a commit leave exactly the buffer in the page, whatever was there |
| Endpoint.ReadWord | LUFA-130303/Bootloaders/DFU/BootloaderDFU.c:311-324 | with whole-word packets a 16-bit read never straddles a packet and yields the next two stream bytes |
| Pages.EraseKeepsBuffer | LUFA-130303/Bootloaders/DFU/BootloaderDFU.c:751-760 | the erase loop commits leftovers of the page buffer to the first page |
| HexLoader.Reader.ReadIntelHex | LUFA-130303/Bootloaders/HID/HostLoaderApp/hid_bootloader_cli.c:773-808 | reads the text line by line: byte count on success, -1 without a file, -2 on a refused line; arrays and counters as the file function says |
| HexLoader.Reader.ParseHexLine | LUFA-130303/Bootloaders/HID/HostLoaderApp/hid_bootloader_cli.c:819-879 | verdict and effect of one line, field by field |
| HexLoader.Reader.SetExtendedAddress | LUFA-130303/Bootloaders/HID/HostLoaderApp/hid_bootloader_cli.c:845-862 | a base takes effect only when readable and checksummed |
| HexLoader.Reader.ReadData | LUFA-130303/Bootloaders/HID/HostLoaderApp/hid_bootloader_cli.c:865-878 | data bytes reach the image before the checksum is known; the verdict is the checksum's |
| HexLoader.Reader.BytesWithinRange | LUFA-130303/Bootloaders/HID/HostLoaderApp/hid_bootloader_cli.c:881-893 | true exactly when the range is inside the image and holds a marked byte |
| HexLoader.Reader.CopyData | LUFA-130303/Bootloaders/HID/HostLoaderApp/hid_bootloader_cli.c:895-913 | copies the wanted bytes, or blanks when the block reaches the image limit |
| Hex.FileMeaning | LUFA-130303/Bootloaders/HID/HostLoaderApp/hid_bootloader_cli.c:773-879 | lines are accepted if and only if every one up to the end record is sound; image and mask are then the last-writer-wins image of the data records and the count their total length |
| HexText.ChecksumGate | LUFA-130303/Bootloaders/HID/HostLoaderApp/hid_bootloader_cli.c:796-802 | one bad data record, or one line that is no record, before the end record fails the whole read |
| HexText.BlankLineRefused | LUFA-130303/Bootloaders/HID/HostLoaderApp/hid_bootloader_cli.c:788-801 | a text with a blank line before its end record is refused |
| HexText.ChecksumIsRecordSum | LUFA-130303/Bootloaders/HID/HostLoaderApp/hid_bootloader_cli.c:839-877 | the loader's checksum verdict is that all bytes of the record sum to zero modulo 256 |
| HexText.PrintedRecordDecodes | LUFA-130303/Bootloaders/HID/HostLoaderApp/hid_bootloader_cli.c:819-879 | a printed, checksummed record decodes to its address and bytes, whatever ends its line |
| HexText.ImageRoundTrip | LUFA-130303/Bootloaders/HID/HostLoaderApp/hid_bootloader_cli.c:773-879 | any image below the bound, printed as a text of rows and read line by line, comes back, with all other cells blank and unmarked |
| HexBases.TypedRecordDecodes | LUFA-130303/Bootloaders/HID/HostLoaderApp/hid_bootloader_cli.c:819-879 | a printed record of any type says what its type means whatever its checksum: type 2 sets the base to 16 times its word, type 4 to 65536 times it, and neither when the bytes do not sum to zero |
| HexBases.LowerCaseDecodes | LUFA-130303/Bootloaders/HID/HostLoaderApp/hid_bootloader_cli.c:819-879 | every line says the same in lower case |
| HexBases.NotARecord | LUFA-130303/Bootloaders/HID/HostLoaderApp/hid_bootloader_cli.c:827-832 | a line without a leading colon, or shorter than its length field says, is no record |
| HexBases.ItemsMean | LUFA-130303/Bootloaders/HID/HostLoaderApp/hid_bootloader_cli.c:773-879 | a file of rows and extended address records is accepted if and only if every record stays in range under the base before it, and then says exactly its rows at their absolute addresses |
| HexBases.LinearBaseRefused | LUFA-130303/Bootloaders/HID/HostLoaderApp/hid_bootloader_cli.c:837-862 | a type 4 record of any word but zero, anywhere before the end record, makes the file be refused |
| HexBases.SegmentedRoundTrip | LUFA-130303/Bootloaders/HID/HostLoaderApp/hid_bootloader_cli.c:773-879 | any image below the bound, printed with every row behind a type 2 record of its own, comes back, with all other cells blank and unmarked |
| HexBases.NulLineSkipped | LUFA-130303/Bootloaders/HID/HostLoaderApp/hid_bootloader_cli.c:792-802 | a line that starts with a NUL is skipped |
| HexBases.LongLineCut | LUFA-130303/Bootloaders/HID/HostLoaderApp/hid_bootloader_cli.c:792-794 | a line without a line end among its first 1023 characters is cut there |
| HidBootloader.Bootloader.HandleSetReport | LUFA-130303/Bootloaders/HID/BootloaderHID.c:134-187 | erase, word loop, commit and start command as the request function says |
| HidBootloader.ProgramsPage | LUFA-130303/Bootloaders/HID/BootloaderHID.c:140-182 | a program request leaves exactly its block in the page and nothing else changed, whatever the page and the buffer held |
| HidBootloader.ProgramsTurned | LUFA-130303/Bootloaders/HID/BootloaderHID.c:140-182 | a program request to any address leaves its block in the page, turned by the address's offset, and nothing else changed |
| HidBootloader.StarvedRequest | LUFA-130303/Bootloaders/HID/BootloaderHID.c:156-182 | a program request whose packets do not supply the page leaves it erased, with nothing programmed and the section locked out |
| HidBootloader.StartsApplication | LUFA-130303/Bootloaders/HID/BootloaderHID.c:147-155 | the start command only ends the bootloader |
| HidLoader.AddressCodingAgrees | LUFA-130303/Bootloaders/HID/HostLoaderApp/hid_bootloader_cli.c:153-159 | host and device agree on a block's address if and only if the row is not the 64K one or the block is the first; a block is never taken for the start command |
| HidLoader.Load | LUFA-130303/Bootloaders/HID/HostLoaderApp/hid_bootloader_cli.c:108-174 | a refused file leaves the device untouched; an accepted one puts it through the programming loop and, if asked, the start command |
| HidLoader.SendBlock | LUFA-130303/Bootloaders/HID/HostLoaderApp/hid_bootloader_cli.c:153-161 | the transfer is the address bytes and the block's data |
| HidLoader.ProgramBlocks | LUFA-130303/Bootloaders/HID/HostLoaderApp/hid_bootloader_cli.c:146-164 | the loop sends block 0 and every block with a byte of the file |
| HidLoader.ProgramFromExact | LUFA-130303/Bootloaders/HID/HostLoaderApp/hid_bootloader_cli.c:146-164 | after the loop every sent block holds its data and every other byte is as before |
| HidLoader.LoadExact | LUFA-130303/Bootloaders/HID/HostLoaderApp/hid_bootloader_cli.c:146-164 | end to end from file to flash: block 0 and the blocks with file bytes carry the file's bytes and blanks, all others are unchanged, and only the last block of the 64K image comes out blank |
| HidLoader.WholeFileArrives | LUFA-130303/Bootloaders/HID/HostLoaderApp/hid_bootloader_cli.c:899-904 | every file byte below the flash size arrives if and only if the file puts only blanks in the last block of the 64K image |
| HidLoader.Load64K | LUFA-130303/Bootloaders/HID/HostLoaderApp/hid_bootloader_cli.c:153-164 | on the 64K part, whatever the file, the first page holds the last block sent, turned by its number, and no other byte changes |
| HidLoader.Arrives64KExact | LUFA-130303/Bootloaders/HID/HostLoaderApp/hid_bootloader_cli.c:153-164 | on the 64K part a file arrives whatever the device held if and only if it puts no byte at or beyond 256 |
| CdcBootloader.Bootloader.FetchNextCommandByte | LUFA-130303/Bootloaders/CDC/BootloaderCDC.c:350-369 | the next byte of the host's stream, wherever the packet boundaries and empty packets are |
| CdcBootloader.Bootloader.WriteNextResponseByte | LUFA-130303/Bootloaders/CDC/BootloaderCDC.c:376-395 | appends to the response, sending the bank when it holds 16 bytes |
| CdcBootloader.Bootloader.FinishResponse | LUFA-130303/Bootloaders/CDC/BootloaderCDC.c:599-618 | the packets concatenate to the response; all but the last hold 16 bytes and the last is short, possibly empty |
| CdcBootloader.Bootloader.Task | LUFA-130303/Bootloaders/CDC/BootloaderCDC.c:400-632 | one turn: device, framed response and endpoint position of the command at the head of the stream |
| CdcBootloader.Bootloader.Serve | LUFA-130303/Bootloaders/CDC/BootloaderCDC.c:124-128 | turns until the exit command, each response framed |
| CdcBootloader.Bootloader.RunCommand | LUFA-130303/Bootloaders/CDC/BootloaderCDC.c:409-597 | command dispatch: device, bytes taken and response |
| CdcBootloader.Bootloader.ReadWriteMemoryBlock | LUFA-130303/Bootloaders/CDC/BootloaderCDC.c:235-342 | block read and write of flash and EEPROM, and the unknown memory type |
| CdcBootloader.Bootloader.ReceiveFlash | LUFA-130303/Bootloaders/CDC/BootloaderCDC.c:299-318 | the byte loop with its pending low byte fills words and advances the address |
| CdcBootloader.Bootloader.SendFlash | LUFA-130303/Bootloaders/CDC/BootloaderCDC.c:262-278 | the byte loop sends low and high bytes and advances the address |
| CdcBootloader.FetchedStream | LUFA-130303/Bootloaders/CDC/BootloaderCDC.c:350-369 | after n fetches the endpoint stands at byte n of the stream, for every cutting |
| CdcProperties.AddressAlwaysEven | LUFA-130303/Bootloaders/CDC/BootloaderCDC.c:443-451 | the current address is even in every reachable state |
| CdcProperties.SetAddressExact | LUFA-130303/Bootloaders/CDC/BootloaderCDC.c:446-447 | the named word is reached if and only if its address is below 0x4000 or from 0xC000 on, or flash is at most 64K |
| CdcProperties.FlashBlockWrite | LUFA-130303/Bootloaders/CDC/BootloaderCDC.c:289-340 | a block of whole words inside a page, at any address and over any page buffer: the page holds it at its offset, the buffer's contents elsewhere, and nothing else changes |
| CdcProperties.FlashBlockRead | LUFA-130303/Bootloaders/CDC/BootloaderCDC.c:257-278 | a block read of any length enables the section first and returns the flash bytes |
| CdcProperties.FlashBlockRoundTrip | LUFA-130303/Bootloaders/CDC/BootloaderCDC.c:235-342 | for every word address: set address, write, set address, read returns the bytes written, in place, and leaves every other page alone |
| CdcExact.BlockWriteExactIff | LUFA-130303/Bootloaders/CDC/BootloaderCDC.c:289-340 | a flash block write leaves every block of its length in place if and only if the length is even and the block stays inside its page |
| CdcExact.OddBlocksAlike | LUFA-130303/Bootloaders/CDC/BootloaderCDC.c:299-318 | odd blocks that differ in their last byte leave the same memory |
| CdcExact.OverrunMisses | LUFA-130303/Bootloaders/CDC/BootloaderCDC.c:289-340 | a block running over its page leaves the first byte of the next page as it was |
| CdcExact.SingleByteIsLost | LUFA-130303/Bootloaders/CDC/BootloaderCDC.c:299-318 | a block of one byte is not written; its page comes out as the page buffer's contents |
| CdcHistory.BufferStaysBlank | LUFA-130303/Bootloaders/CDC/BootloaderCDC.c:289-340 | the page buffer stays blank in every session without word-fill commands |
| CdcHistory.LockoutIsHistory | LUFA-130303/Bootloaders/CDC/BootloaderCDC.c:257-260 | the section is readable exactly when no write or erase of flash is without a later block read |
| CdcHistory.WordReadAfterSession | LUFA-130303/Bootloaders/CDC/BootloaderCDC.c:560-570 | after any session, at any address, the single-word read returns the flash word if and only if no write or erase of flash is without a later block read, or the word is blank |
| CdcHistory.WriteAfterSession | LUFA-130303/Bootloaders/CDC/BootloaderCDC.c:289-340 | after every session without word fills, a block write leaves its page blank around the data |
| CdcCommands.EraseExact | LUFA-130303/Bootloaders/CDC/BootloaderCDC.c:474-487 | chip erase answers a carriage return, leaves EEPROM, address and lock bits alone, locks the section out, and blanks the application and nothing else if and only if there is none or the page buffer was blank |
| CdcCommands.EraseAfterSession | LUFA-130303/Bootloaders/CDC/BootloaderCDC.c:474-487 | after every session without word fills, a chip erase blanks the application and nothing else |
| CdcCommands.EepromBytesRoundTrip | LUFA-130303/Bootloaders/CDC/BootloaderCDC.c:573-591 | set address, single-byte writes, set address, single-byte reads answer the bytes written, with every other cell unchanged |
| CdcCommands.ExitStops | LUFA-130303/Bootloaders/CDC/BootloaderCDC.c:412-418 | only the exit command stops the bootloader, and it does nothing else |
| CdcCommands.SessionStopsAtExit | LUFA-130303/Bootloaders/CDC/BootloaderCDC.c:124-128 | a session answers every command up to its first exit command and none after it |
| CdcCommands.WordWriteExact | LUFA-130303/Bootloaders/CDC/BootloaderCDC.c:530-559 | on an erased page with a blank buffer, the single-word write commands leave the low byte with a zero beside it, so the word lands if and only if its high byte is zero |
| CdcCommands.LockBits | LUFA-130303/Bootloaders/CDC/BootloaderCDC.c:489-501 | the lock bits command clears exactly the bits its argument names, changes nothing else, and a read then returns the new value |
| CdcCommands.FixedAnswers | LUFA-130303/Bootloaders/CDC/BootloaderCDC.c:427-456 | programming mode, part code, auto-increment, interface and sync: the literal answers, and no effect |
| CdcCommands.VersionAnswers | LUFA-130303/Bootloaders/CDC/BootloaderCDC.c:457-467 | identifier and version: the literal answers, and no effect |
| CdcCommands.PartAnswers | LUFA-130303/Bootloaders/CDC/BootloaderCDC.c:468-513 | the signature goes last byte first; each fuse command answers its own fuse byte |
| CdcCommands.BlockSizeAnswer | LUFA-130303/Bootloaders/CDC/BootloaderCDC.c:515-522 | the block support answer spells the page size |
| CdcCommands.IgnoredArguments | LUFA-130303/Bootloaders/CDC/BootloaderCDC.c:419-426 | LED and device type commands take one argument and ignore it |
| CdcCommands.UnknownAnswer | LUFA-130303/Bootloaders/CDC/BootloaderCDC.c:593-597 | any other command byte, and a block command for an unknown memory, is answered by a question mark and does nothing |
| CdcCommands.TailDropped | LUFA-130303/Bootloaders/CDC/BootloaderCDC.c:627-631 | bytes behind a command in its packet are dropped with it |
| CdcProperties.EepromBlockRoundTrip | LUFA-130303/Bootloaders/CDC/BootloaderCDC.c:279-326 | the same for EEPROM, with every other cell unchanged |
| CdcPackets.FramingIsUnique | LUFA-130303/Bootloaders/CDC/BootloaderCDC.c:599-618 | a response has only one such framing, so the packets are a function of the bytes |
| CdcPackets.ReadsOwnBytes | LUFA-130303/Bootloaders/CDC/BootloaderCDC.c:409-597 | what a command does depends only on the bytes it takes |
| CdcPackets.TurnRunsCommand | LUFA-130303/Bootloaders/CDC/BootloaderCDC.c:400-632 | a command cut in any way, after any empty packets, does what its bytes say and leaves the next command's packets in place |
| CdcPackets.SplitIndependence | LUFA-130303/Bootloaders/CDC/BootloaderCDC.c:350-369 | after any sequence of whole commands, memory, address and responses are the same for every cutting into packets |
| Ring.RingBuffer.Insert | LUFA-130303/LUFA/Drivers/Misc/RingBuffer.h:239-254 | appends to the contents when there is room |
| Ring.RingBuffer.Remove | LUFA-130303/LUFA/Drivers/Misc/RingBuffer.h:267-284 | takes the head of the contents and leaves the storage alone |
| Ring.RingBuffer.Peek | LUFA-130303/LUFA/Drivers/Misc/RingBuffer.h:293-296 | the head of the contents |
| Ring.RingBuffer.GetCount | LUFA-130303/LUFA/Drivers/Misc/RingBuffer.h:166-177 | the length of the contents, at most the size |
| Ring.RingBuffer.GetFreeCount | LUFA-130303/LUFA/Drivers/Misc/RingBuffer.h:192-195 | the room left |
| Ring.RingBuffer.IsEmpty | LUFA-130303/LUFA/Drivers/Misc/RingBuffer.h:210-213 | true exactly when there are no contents |
| Ring.RingBuffer.IsFull | LUFA-130303/LUFA/Drivers/Misc/RingBuffer.h:224-227 | true exactly when the contents fill the storage |
| Ring.StoreKeepsUnread | LUFA-130303/LUFA/Drivers/Misc/RingBuffer.h:243-246 | the producer's store never overwrites a byte not yet read |
| RingProtocol.ProducerKeeps | LUFA-130303/LUFA/Drivers/Misc/RingBuffer.h:239-254 | each individual store of Insert keeps the shared invariant |
| RingProtocol.ConsumerKeeps | LUFA-130303/LUFA/Drivers/Misc/RingBuffer.h:267-284 | each individual store of Remove keeps the shared invariant |
| RingProtocol.StepsAreOperations | LUFA-130303/LUFA/Drivers/Misc/RingBuffer.h:239-284 | the individual stores of Insert and of Remove, run without interruption, add up to the whole operations of the buffer |
| RingProtocol.EveryInterleaving | LUFA-130303/LUFA/Drivers/Misc/RingBuffer.h:37-40 | in every interleaving the consumer gets a prefix of the inserted bytes, the count stays within 0 and the size, and unread bytes stay in their slots |
| RingProtocol.Linearizes | LUFA-130303/LUFA/Drivers/Misc/RingBuffer.h:248-281 | the queue changes exactly at the increment and the decrement of Count |
| RingProtocol.CountIsLowerBound | LUFA-130303/LUFA/Drivers/Misc/RingBuffer.h:156-159 | a count once read stays a safe number of removals whatever the producer does |
| SerialBridge.InterruptExact | LUFA-130303/Projects/USBtoSerial/USBtoSerial.c:192-198 | the receive interrupt keeps the buffer a queue if and only if there is room; on a full buffer it overwrites the oldest unread byte |
| SerialBridge.MainKeeps | LUFA-130303/Projects/USBtoSerial/USBtoSerial.c:108-135 | every step of the main loop, with any answer from the USB side, keeps conservation and the burst bound |
| SerialBridge.Conservation | LUFA-130303/Projects/USBtoSerial/USBtoSerial.c:108-135 | at every step of every run that never overruns, bytes sent followed by bytes waiting are the bytes received, and a burst is at most 15 bytes |
| BridgeProgress.BurstSends | LUFA-130303/Projects/USBtoSerial/USBtoSerial.c:108-135 | with a ready endpoint and accepted sends, a pass of the loop sends the first min(count, 15) waiting bytes in order and leaves the rest waiting |
| BridgeProgress.RefusedByteKept | LUFA-130303/Projects/USBtoSerial/USBtoSerial.c:125-129 | a refused send ends the burst with nothing sent and the byte still first in the buffer |
| BridgeProgress.WaitsForEndpoint | LUFA-130303/Projects/USBtoSerial/USBtoSerial.c:108-115 | while the endpoint is busy or the buffer empty, the loop changes nothing |
| BridgeProgress.ArrivalIsQueued | LUFA-130303/Projects/USBtoSerial/USBtoSerial.c:192-198 | a byte received while configured is queued behind those waiting, otherwise dropped |
| BridgeProgress.EverythingCanBeSent | LUFA-130303/Projects/USBtoSerial/USBtoSerial.c:108-135 | every run that never overruns can be continued by main-loop steps alone until the bytes sent are exactly the bytes received |
| LcdDecoder.Display.Pass | LUFA-130303/Projects/SerialToLCD/SerialToLCD.c:88-134 | one pass of the main loop decodes the byte that came in, if any, and empties the buffer |
| LcdDecoder.Display.Drain | LUFA-130303/Projects/SerialToLCD/SerialToLCD.c:100-130 | the inner loop performs the operations the buffered bytes stand for and carries the escape flag |
| LcdDecoder.Display.Serve | LUFA-130303/Projects/SerialToLCD/SerialToLCD.c:88-134 | over any number of passes the display sees the decoding of all bytes that arrived, however they were spread |
| LcdDecoder.DecodeSplits | LUFA-130303/Projects/SerialToLCD/SerialToLCD.c:102-129 | decoding does not depend on where a stream is split |
| LcdDecoder.EscapeByte | LUFA-130303/Projects/SerialToLCD/SerialToLCD.c:102-129 | 0x1B twice is one data byte, 0x1B and another byte is a command, and any other byte is data |
| LcdDecoder.DecodeInvertsEncode | LUFA-130303/Projects/SerialToLCD/SerialToLCD.c:105-129 | decoding inverts the encoding for all data bytes and all commands but the escape |
| LcdDecoder.EncodeInvertsDecode | LUFA-130303/Projects/SerialToLCD/SerialToLCD.c:105-129 | every stream is the encoding of what it decodes to, so no two streams drive the display alike |
| NoteTable.Table.PlayNote | LUFA-130303/Projects/MIDIToneGenerator/MIDIToneGenerator.c:103-132 | the scanning loop that ages entries as it goes, and the replacement |
| NoteTable.Table.StopNote | LUFA-130303/Projects/MIDIToneGenerator/MIDIToneGenerator.c:137-153 | clears every entry of the pitch and says whether any note still sounds |
| NoteTable.OffSilences | LUFA-130303/Projects/MIDIToneGenerator/MIDIToneGenerator.c:137-153 | after a note-off no entry has that pitch, and every other entry is as it was |
| NoteTable.OffEndsTone | LUFA-130303/Projects/MIDIToneGenerator/MIDIToneGenerator.c:137-153 | after a note-off nothing sounds if and only if every sounding entry had its pitch |
| NoteTable.ReplacesOldest | LUFA-130303/Projects/MIDIToneGenerator/MIDIToneGenerator.c:107-124 | a full table gives up a greatest-age slot if and only if no age is 255 or the last one is |
| NoteTable.BestIsFirstOldest | LUFA-130303/Projects/MIDIToneGenerator/MIDIToneGenerator.c:117-123 | without an age of 255 the choice is the first slot of greatest age, despite ages being raised during the scan |
| NoteTable.NotesTakeTurns | LUFA-130303/Projects/MIDIToneGenerator/MIDIToneGenerator.c:103-132 | in every run of note-ons the k-th note takes slot k mod N and the table is the last N notes, aged by their distance |
| NoteTable.AgesArePermutation | LUFA-130303/Projects/MIDIToneGenerator/MIDIToneGenerator.c:123-132 | in every run of at least N note-ons from an unused table the ages are a permutation of 0 to N-1 |
| NoteTable.OldestFor255 | LUFA-130303/Projects/MIDIToneGenerator/MIDIToneGenerator.c:103-153 | in every run of note-ons and note-offs with at most 255 note-ons, a full table gives up a slot of greatest age |
| NoteTable.HeldNoteAges | LUFA-130303/Projects/MIDIToneGenerator/MIDIToneGenerator.c:103-153 | a held note gains one step of age, modulo 256, for every short note played beside it |
| NoteTable.HeldNoteOutlivesYounger | LUFA-130303/Projects/MIDIToneGenerator/MIDIToneGenerator.c:103-132 | a run of 256 note-ons that fills the table of three with age 255 in slot 0, and the next note takes a younger slot |
| Endianness.SwapEndianN | LUFA-130303/LUFA/Common/Endianness.h:469-483 | the in-place loop reverses the first `length` elements and leaves the rest |
| Endianness.SwapTwice | LUFA-130303/LUFA/Common/Endianness.h:469-483 | applying it twice restores the array |
| Endianness.SwapEndian16 | LUFA-130303/LUFA/Common/Endianness.h:401-421 | the word whose bytes are reversed |
| Endianness.SwapEndian32 | LUFA-130303/LUFA/Common/Endianness.h:432-456 | the double word whose bytes are reversed |
| Endianness.MacroReverses16 | LUFA-130303/LUFA/Common/Endianness.h:88 | the mask-and-shift macro reverses the bytes of every 16-bit value |
| Endianness.MacroReverses32 | LUFA-130303/LUFA/Common/Endianness.h:103-104 | the mask-and-shift macro reverses the bytes of every 32-bit value |

## Left out

- FlashDownload: ranges that run past the end of flash, and devices that are locked or have an exit pending, for which see `SecureDnload` and `DnloadFlags`.
- FlashBlockRead: reads that run past the end of flash.
- FlashRoundTrip: downloads that `FlashDownloadExactIff` shows not to land.
- EepromRoundTrip: downloads that `EepromDownloadExactIff` shows not to land.
- EepromBlockRoundTrip: EEPROMs above 4K, which no USB AVR has; likewise EepromBytesRoundTrip.
- WordWriteExact: pages that were not erased first, and a page buffer with leftovers in it.
- BlankCheckRequest: flash above 16M, where the 64K page number would wrap.
- LoadExact: the 64K row, which `Load64K` and `Arrives64KExact` cover, and a file that changes while the host waits for the device.
- Conservation: the host-to-serial direction, which runs in one thread, and runs in which the interrupt fires on a full buffer (`InterruptExact` says what happens there).
- ReadIntelHex: the test for the end of standard input between lines, and the translation of line ends by the host's C library.
- ParseHexLine: blanks, signs and a 0x prefix inside hexadecimal fields, and 32-bit wrap-around of record addresses, which are unbounded here.
- Load: failing USB transfers and the wait for the device to appear.
- HandleUpload: a host that stops taking IN packets part-way; likewise WriteNextResponseByte and FinishResponse.
- The temporary page buffer of a real part when a word is filled twice, which downloads and block writes over leftovers do: here the later word wins. Likewise a section re-enable while the buffer holds words, and odd-address fills beyond ignoring bit 0.
- USB enumeration, descriptors, line encoding requests, LEDs, timers, watchdog, fuses other than the CDC read commands, and the jump to the application.
- The MIDI table increments and the sample mixer, which only add arithmetic on constants.
- The HID command line beyond the size table, and the libusb, Win32, IOKit and UHID back ends.
- Benito, XPLAINBridge, Magstripe, MissileLauncher, Webserver and the remaining projects and drivers.
