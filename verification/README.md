# Boot loader verification

A Dafny model of the boot loader of the modem SDK, and proofs about it. `dafny verify dfyconfig.toml`
checks the whole project. The C sources change state step by step, and so does the model: contexts
are classes with the same fields, buffers are arrays, loops are loops with invariants, and every
method is proved against a specification whose consequences are then proved as lemmas.

## What is modelled

**Flash driver** (`SpiFlash.dfy`, after `bootloader/src/boot_spi_flash.c`). A NOR device: erasing sets
a range to 0xFF, programming can only clear bits, and after a command the device is busy for an
arbitrary finite number of polls, during which no command may be issued and no byte read. On it the
driver chooses erase sizes, cuts writes at pages and refuses prohibited 64K blocks. The main results
say which requests succeed and what exactly they leave behind, that a set prohibit bit protects every
byte of its block over all runs although only the first address of a command is looked up, and that
no division into aligned 64K, 32K and 4K commands is shorter than the driver's. The device keeps a
log of its commands, about which the order of erasing and programming is stated.

**Flash download** (after `bootloader/src/boot_fdl_dnld.c`). Packets go into a 128K ring that is indexed
by flash address. A state machine, driven by polls, erases ahead and programs page by page while
reception continues; END drains the ring and verifies a CRC. `FlashImage.dfy` holds the target, the
image and the ring, `FlashProgress.dfy` the address bookkeeping and how far erasing gets, the limit;
`FlashLeftover.dfy` is about a download that was not ended, and `FlashDownload.dfy` is the code. `Running` is its invariant, whichever blocks are prohibited: what is
programmed is the start of what was received, what is not programmed yet is in the ring, what
lies between the program and erase positions is 0xFF, nothing else on the device has changed, and no
byte was erased twice, programmed twice or erased after programming. `FlashRuns.dfy` is about whole
downloads. `Download` says how each comes out, over every split into packets and every interleaving of
packets, polls and busy times; `SucceedsExactly` says for which targets that is the image, whatever the
device held and whatever is downloaded; `RunAny` covers those that never end. Both polling loops
terminate by a lexicographic measure. `ModesAgree` compares progressive and whole-file mode.

**Heap** (`BootHeap.dfy`, after `bootloader/src/boot_mem.c`). Memory is one array of 32-bit words that
holds tags and payloads alike. The invariant is a tiling of the used part by blocks with matching tags,
coalesced and ending in an allocated block. Operations are specified by the set of live blocks, and by
what they may do to the payloads of all others. Owners may store anything in their payloads.

**Framing** (`Checksum.dfy`, `Hdlc.dfy`, `FdlEngine.dfy`, after `bootloader/src/boot_fdl.c`). `Hdlc` gives
the frame format and the byte-driven parser as functions, `FdlEngine` the sender with its small
buffer and the receiver that swaps header bytes in place. `Transfer` connects the two over a channel
that splits writes and reads as it likes. The checksum is the Internet checksum of RFC 1071 over
little-endian words, stuffing is that of section 4.2 of RFC 1662.

**AES-128** (`AesTables.dfy`, `AesSbox.dfy`, `Aes.dfy`, after `bootloader/src/boot_aes.c`). The fused table
form against the cipher and the key expansion of sections 5.1 and 5.2 of FIPS 197, and the S-box
against its definition by inverses in the field. `AesInverse.dfy` proves that the inverse cipher of
section 5.3 undoes the cipher, `AesVector.dfy` the example vector of appendix C.1.

**PDL** (`Pdl.dfy`, `PdlDownload.dfy`, `PdlUimage.dfy`, after `bootloader/src/boot_pdl.c` and
`bootloader/src/boot_pdl_uimage.c`). The length-prefixed packet stream with noise between packets, and
the download of an image into RAM: what every command does, all sums taken in 32 bits, and over which
runs of commands no copy leaves the region.

**Mounts** (`Vfs.dfy`, after `bootloader/src/boot_vfs.c`). Lookup by path and by descriptor over a list of
mounts.

## Where the code does not do what it is for

Each item names the exact condition and an input at which the code fails; line numbers are those of
`bootloader/src/boot_fdl_dnld.c`.

- **Targets at the end of the window.** Offsets keep 24 bits of an address. When the 4K-aligned end of
  a target is the end of the 16M window, its offset is 0, and progressive mode stops after the first
  erase command. With a page or more beyond that command, END never leaves its loop
  (`ExampleWindowEnd`). With less, END programs cells that it did not erase; its reply depends on what
  they held, and it may acknowledge although the margin was not erased (`ExampleShortTail`). In
  whole-file mode the computed erase size wraps around (`WholeRangeExact`, `ExampleWhole`).
- **A prohibited block inside the target.** Only the first block of a target is looked at by START. A poll
  adds the result -1 of a refused erase command to the erase address (line 388) and waits for ever; with
  a page or more in the prohibited block END never leaves its loop (`ExampleProhibited`), with less it
  compares the CRC with data that is not there.
- **Tiny targets that wrap around in the ring.** The comment at lines 402-403 promises that page
  writes always find a linear buffer. The final write of END does so exactly if the target has at least
  a page or does not wrap around in the ring (`RestIsLinear`, `ExampleRing`). These three kinds are all: of
  the targets on the device that START accepts, exactly the others always succeed (`SucceedsExactly`).
- **Targets that are not on the device.** START looks at the end of the target modulo 16M only, so it
  acknowledges some targets that end at the end of the window on a smaller device, or that run past the
  window (`OutsideAccepted`, `ExampleOutside`, `ExamplePastWindow`). It also acknowledges an empty target
  that is not aligned (`ExampleEmpty`).
- **A progressive download that is not ended.** START in whole-file mode leaves the flash stage and its two
  addresses alone, and polls go on with them. Whatever the host sends, they leave the device alone exactly in
  these states (`LeftAloneExactly`): in stage WRITE with all that is erased programmed, if nothing is left to
  erase up to the end of the new target, or the erase command would be refused; in all others, if the stage
  is over, the program address has reached the erase address, or the new target ends less than a page behind
  the program address. Otherwise they erase or program for the old download: `ExampleLeftover` shows how
  they program what the ring happens to hold, far from the new target.
- **Packets above the maximum length.** The framing admits 26 bytes more than the room that MIDST keeps. What
  was received survives exactly if the packet fits behind the waiting bytes (`RingKeptExactly`); otherwise the
  oldest waiting bytes are replaced, and the wrong ones go to the device (`TakePacket`, `ExampleOverrun`).
- **Data behind the region start.** A RAM download accepts a START address above the region base, but
  writes the data to the region base (`InPlaceOnlyAtRegionStart`, `ExampleMisplaced`).
- **Copies outside the region.** The three sums that guard a RAM download wrap around at 32 bits. A START is
  harmless exactly if it is refused or asks for no more than the size of the region; a MID exactly if it is
  refused for its packet, if its size field plus the header does not wrap around, or if the region is smaller
  than what the size field lacks to 2^32 (`StaysInRegionExactly`). Two commands that are not
  (`ExampleStartWraps`, `ExampleMidWraps`) are acknowledged, and their data is copied outside the region.
- **A bad checksum.** The receiver panics when a complete frame with a wrong checksum is followed by
  a flag; `Resynchronises` shows that this is the only state from which the next frame is lost. A flag
  and six zero bytes lead to it (`ExampleBadChecksum`).
- **Descriptors.** They are found again exactly if the index fits 5 bits and the local descriptor 10
  bits (`OpenAndFind`, `DecodeEncode`, `ExampleManyMounts`).
- **Mount indices.** They are bytes. A mount gets an index of its own exactly if the highest live index is below
  255 or 0 is not used (`MountedValid`, `ExampleIndexReused`).
- **Mount points of one byte.** The lookup asks for no slash behind them, so it takes `ab` to lie below `a`; it
  decides whole-component containment exactly for the others and for the root (`AcceptsExactly`).

Without consequence: END adds the result of an erase, 0 or 1, to the erase address (lines 445-447). The
address is not used afterwards, and `EraseRest` keeps the addition.

## Assumptions

- The device does not fail, erases and programs instantly as far as its contents are concerned, and
  every busy time ends. What a command does that lies outside the device, at least in part, is not
  known. Caches and the memory encryption of the chip are transparent.
- `HAL_FLASH_OFFSET` is `address & 0xffffff` (`hal/include/hal_chip.h:75`), and the two flash windows
  start at 0x60000000 and 0x70000000. The capacity is a multiple of 64K of at most 16M. The prohibit
  bitmap has a bit for each block of 16M; what is read behind it is not known.
- `calclib/include/calclib/crc32.h` declares the CRC without its implementation. Initial value and byte
  step are parameters; that the update is a fold over the bytes is what its interface suggests.
- What the memory behind the ring holds is a parameter of END.
- A RAM region ends below 2^32, and its size and a packet together are less than 2^32. What a copy does
  that takes more than its packet holds, or leaves RAM, is not known.
- Numbers are unbounded except where the code can reach a wrap-around: flash offsets, sizes and addresses, what
  polls add to addresses and take for the waiting bytes, the sums of a RAM download, the checksum
  accumulator, mount indices, and all 16-bit fields.

## Model

| member | source | states |
|---|---|---|
| `SpiFlash.Driver.EraseNoWait` | bootloader/src/boot_spi_flash.c:282-313 | For every 32-bit offset and size: a command is refused without effect, or sets exactly the returned piece to 0xFF; the sum wraps at 32 bits, and beyond 16M, where the bitmap has no bit, either may happen |
| `SpiFlash.Driver.WriteNoWait` | bootloader/src/boot_spi_flash.c:263-280 | For every 32-bit offset and size, 0 included: a command is refused without effect, or ANDs the data up to the end of its page into the device |
| `SpiFlash.Driver.Erase` | bootloader/src/boot_spi_flash.c:325-342 | Success exactly if the pieces reach the whole range; exactly the reached part is 0xFF afterwards, also on failure; the commands issued are the greedy plan; a request that wraps at 32 bits succeeds only by erasing outside the device |
| `SpiFlash.Driver.Write` | bootloader/src/boot_spi_flash.c:344-362 | Success exactly if the chunks reach all data; exactly the reached part is ANDed into the device, also on failure; a request that wraps succeeds only by programming outside the device |
| `SpiFlash.Driver.IsDone` | bootloader/src/boot_spi_flash.c:252-255 | Tells whether the command in progress is finished; asking lets time pass |
| `SpiFlash.Driver.WaitDone` | bootloader/src/boot_spi_flash.c:257-261 | Returns when no command is in progress |
| `SpiFlash.Driver.ChipErase` | bootloader/src/boot_spi_flash.c:315-323 | Everything becomes 0xFF, prohibited blocks included |
| `SpiFlash.Driver.SetRangeWriteProhibit` | bootloader/src/boot_spi_flash.c:204-213 | For bounds within the capacity, sets the bit of exactly the 64K blocks wholly inside the range and changes no other bit; for others it changes none |
| `SpiFlash.Driver.ClearRangeWriteProhibit` | bootloader/src/boot_spi_flash.c:215-224 | For bounds within the capacity, clears the bit of exactly the 64K blocks wholly inside the range and changes no other bit; for others it changes none |
| `SpiFlash.WholeBlocks` | bootloader/src/boot_spi_flash.c:209-210 | The rounded block numbers enclose exactly the blocks wholly inside the range |
| `SpiFlash.PieceInOneBlock` | bootloader/src/boot_spi_flash.c:291-307 | An erase piece is aligned, not larger than asked for, and inside one 64K block |
| `SpiFlash.PieceInside` | bootloader/src/boot_spi_flash.c:282-313 | A piece that starts on the device ends on the device, although only the wrapped sum is compared |
| `SpiFlash.Chunk` | bootloader/src/boot_spi_flash.c:271-274 | A program command makes progress and never crosses a page; only the last one ends inside a page |
| `SpiFlash.ChunkByCode` | bootloader/src/boot_spi_flash.c:271-274 | The 32-bit page arithmetic gives that chunk, also in the last page below 2^32 |
| `SpiFlash.EraseReachesAll` | bootloader/src/boot_spi_flash.c:325-342 | An erase succeeds if and only if its size is 0, or offset and size are 4K multiples inside the capacity and no touched block is prohibited |
| `SpiFlash.WriteReachesAll` | bootloader/src/boot_spi_flash.c:344-362 | A write succeeds if and only if its size is 0, or it lies inside the capacity and touches no prohibited block |
| `SpiFlash.EraseReachIs` | bootloader/src/boot_spi_flash.c:325-342 | An aligned erase on the device gets exactly as far as the first prohibited block |
| `SpiFlash.WriteReachIs` | bootloader/src/boot_spi_flash.c:344-362 | A write on the device gets exactly as far as the first prohibited block |
| `SpiFlash.Execute` | bootloader/src/boot_spi_flash.c:204-362 | Each driver call that stays on the device takes it to the next state of the transition system that the run theorems are about |
| `SpiFlash.EraseReachPermitted` | bootloader/src/boot_spi_flash.c:124-128 | Everything an erase reaches lies in permitted blocks, though only first addresses are looked up |
| `SpiFlash.WriteReachPermitted` | bootloader/src/boot_spi_flash.c:124-128 | Everything a write reaches lies in permitted blocks |
| `SpiFlash.OneOperationProtects` | bootloader/src/boot_spi_flash.c:204-313 | No operation but a chip erase changes a byte of a prohibited block; only clearing a range around the whole block unmarks it |
| `SpiFlash.RunProtects` | bootloader/src/boot_spi_flash.c:204-362 | Over every run without such a clear and without a chip erase, a prohibited block stays marked and all its bytes unchanged |
| `SpiFlash.SetProtects` | bootloader/src/boot_spi_flash.c:204-213 | Setting a range protects every byte of the blocks wholly inside it over all operations that follow, until one clears the block or erases the chip |
| `SpiFlash.GreedyIsPlan` | bootloader/src/boot_spi_flash.c:325-342 | The commands of an erase are a tiling of the range by aligned 64K, 32K and 4K pieces |
| `SpiFlash.GreedyIsShortest` | bootloader/src/boot_spi_flash.c:291-307 | No other tiling by such pieces has fewer commands |
| `SpiFlash.TidyOnce` | bootloader/src/boot_fdl_dnld.c:337-390 | In the command log of a download, no byte is erased twice, programmed twice, or erased after it was programmed |
| `SpiFlash.TidyErasedBefore` | bootloader/src/boot_fdl_dnld.c:337-390 | In that log, every programmed byte was erased before |
| `Crc.Crc32.UpdateConcat` | calclib/include/calclib/crc32.h:12-29 | Updating piece by piece gives the checksum of the concatenation |
| `Crc.Crc32.UpdateByte` | calclib/include/calclib/crc32.h:12-29 | One more byte is one step more, with that byte |
| `Crc.Crc32.OneByteTells` | calclib/include/calclib/crc32.h:12-29 | If the step is injective in each argument, data that differs in exactly one byte has a different checksum |
| `FlashImage.BurnErase` | bootloader/src/boot_fdl_dnld.c:379-389 | Erasing ahead extends the erased part and does not touch programmed data |
| `FlashImage.BurnProgram` | bootloader/src/boot_fdl_dnld.c:355-367 | Programming erased cells stores the data itself |
| `FlashImage.Geometry` | bootloader/src/boot_fdl_dnld.c:312-316 | The 4K cover computed from addresses is the cover computed from offsets in the window |
| `FlashImage.ImageMeaning` | bootloader/src/boot_fdl_dnld.c:542-551 | The image holds the data, 0xFF in the margins of the 4K cover, and the old contents elsewhere |
| `FlashImage.RingPutAt` | bootloader/src/boot_fdl_dnld.c:401-412 | The two copies store byte number d of a packet d slots behind the start slot, cyclically, and change no other slot |
| `FlashImage.RingAppend` | bootloader/src/boot_fdl_dnld.c:395-412 | After any packet that is not larger than the ring, every received byte that waits is in the ring, indexed by address; a packet that does not fit replaces the oldest waiting bytes by its own last ones, and no others |
| `FlashImage.RingKeptExactly` | bootloader/src/boot_fdl_dnld.c:395-412 | Waiting bytes and packet are all in the ring afterwards, for all data, if and only if the packet fits behind the waiting bytes |
| `FlashImage.RingLinear` | bootloader/src/boot_fdl_dnld.c:361-362 | A stretch of the ring that does not wrap around is the payload itself |
| `FlashProgress.CodeEndIs` | bootloader/src/boot_fdl_dnld.c:316 | The end that the code computes in 32 bits is the end of the cover modulo the 16M window, for every address and size |
| `FlashProgress.StartRequest` | bootloader/src/boot_fdl_dnld.c:315-325 | For every flash address and size, the request of START is accepted if and only if the end of the cover, modulo the window, is inside the capacity and not the start of the cover, and the first block is not prohibited |
| `FlashProgress.OutsideAccepted` | bootloader/src/boot_fdl_dnld.c:315-325 | The request for a target that is not on the device is accepted if and only if the target ends at the end of the window or beyond and would be accepted for where it would end in the window |
| `FlashProgress.LimitIs` | bootloader/src/boot_fdl_dnld.c:379-389 | The limit of erasing lies in the cover, everything before it is permitted, and it is the end of the cover, the start of a prohibited block, or at the end of the window the end of the first piece |
| `FlashProgress.StartMove` | bootloader/src/boot_fdl_dnld.c:310-329 | The first erase command establishes the address invariant, also when its size wrapped around |
| `FlashProgress.WriteMove` | bootloader/src/boot_fdl_dnld.c:355-368 | A page write stays in the received data, in the erased part, in the window and in a linear part of the ring, and keeps the address invariant |
| `FlashProgress.EraseMove` | bootloader/src/boot_fdl_dnld.c:379-389 | When everything erased is written, another piece up to the limit is erased, or the command is refused at the limit, or the download is finished |
| `FlashProgress.PollKeepsGood` | bootloader/src/boot_fdl_dnld.c:337-390 | Whichever blocks are prohibited, every poll keeps the address invariant: start <= write <= received, nothing beyond the limit, WAIT_DATA implies write < erase unless a command was refused, FINISH implies everything up to the limit is written |
| `FlashProgress.PageStep` | bootloader/src/boot_fdl_dnld.c:357-367 | During a download on the device the program command of a poll is never refused, and its 32-bit arithmetic does not wrap around |
| `FlashProgress.AheadStep` | bootloader/src/boot_fdl_dnld.c:379-389 | The erase command of a poll is refused exactly at the limit, and otherwise stays before it |
| `FlashProgress.PageWaiting` | bootloader/src/boot_fdl_dnld.c:418-432 | While a page of data waits before the limit, the state machine moves on |
| `FlashProgress.RestIsLinear` | bootloader/src/boot_fdl_dnld.c:449-452 | The final write reads one stretch of the ring if and only if the target has at least a page or does not wrap around in the ring |
| `FlashProgress.RestToErase` | bootloader/src/boot_fdl_dnld.c:440-447 | What END still erases is exactly the part up to the limit, also after a refused command |
| `FlashProgress.RestToWrite` | bootloader/src/boot_fdl_dnld.c:449-452 | How many bytes of the target are on the device after the final write, prohibited blocks and the end of the window included |
| `FlashLeftover.QuietRun` | bootloader/src/boot_fdl_dnld.c:337-390 | From a quiet state no run of polls issues a command, whatever is received meanwhile and however long the device is busy |
| `FlashLeftover.LeftAloneExactly` | bootloader/src/boot_fdl_dnld.c:742-796 | After a START that leaves the stage alone, no run of polls with a growing received size issues a command, if and only if the state it found is quiet for the new target, a condition on stage, addresses, target and bitmap |
| `FlashLeftover.GoodIsOrderly` | bootloader/src/boot_fdl_dnld.c:337-390 | Every progressive download on the device leaves a state to which that applies |
| `FlashDownload.ProgramMove` | bootloader/src/boot_fdl_dnld.c:355-368 | The bytes that a page write takes from the ring are the next payload bytes, and they reach the device unchanged over erased cells |
| `FlashDownload.WholeRangeExact` | bootloader/src/boot_fdl_dnld.c:542-544 | The size that whole-file mode computes is that of the cover if and only if the target does not end at the end of the window |
| `FlashDownload.FdlContext.constructor` | bootloader/src/boot_fdl_dnld.c:106-125 | A context without a download |
| `FlashDownload.FdlContext.PollWaitData` | bootloader/src/boot_fdl_dnld.c:355-369 | In any state, programs exactly when a whole page seems to be available before the erase address, and moves as `Polled` says |
| `FlashDownload.FdlContext.ProgramPage` | bootloader/src/boot_fdl_dnld.c:361-368 | In any state, programs the ring slots of the address up to the end of the device page, or adds the -1 of a refused command to the address |
| `FlashDownload.FdlContext.PollWrite` | bootloader/src/boot_fdl_dnld.c:370-390 | While busy nothing happens; afterwards the step that `Polled` says |
| `FlashDownload.FdlContext.EraseAhead` | bootloader/src/boot_fdl_dnld.c:379-389 | In any state, erases the next piece, or finishes, or adds the -1 of a refused command to the address |
| `FlashDownload.FdlContext.FlashPolling` | bootloader/src/boot_fdl_dnld.c:337-390 | In any state, a poll takes the state machine exactly where `Polled` says and issues exactly the command that `Issued` says, and while the device is busy in an erase or write stage it only waits; during a progressive download it keeps the ring, device and command log invariant whichever blocks are prohibited, and comes lexicographically closer to the end whenever it can |
| `FlashDownload.FdlContext.StepKeeps` | bootloader/src/boot_fdl_dnld.c:337-390 | Any step of the state machine keeps the invariant of a progressive download, and lowers the measure of the polling loops if it can advance |
| `FlashDownload.FdlContext.PageKept` | bootloader/src/boot_fdl_dnld.c:355-368 | A programmed page extends the part of the received data that is on the device, over erased cells, and leaves the log tidy |
| `FlashDownload.FdlContext.AheadKept` | bootloader/src/boot_fdl_dnld.c:379-389 | Erasing ahead, being refused and finishing all keep the invariant |
| `FlashDownload.FdlContext.FirstErase` | bootloader/src/boot_fdl_dnld.c:313-328 | For every flash address and size, the first command is issued exactly for the startable targets, and erases the first piece |
| `FlashDownload.FdlContext.FlashStart` | bootloader/src/boot_fdl_dnld.c:306-331 | For every flash address and size, acknowledges exactly the startable targets; a refusal changes nothing on the device; for targets on the device the invariant is established |
| `FlashDownload.FdlContext.PutIntoRing` | bootloader/src/boot_fdl_dnld.c:401-412 | The two copies put the packet into the ring, wrapping around once |
| `FlashDownload.FdlContext.TakePacket` | bootloader/src/boot_fdl_dnld.c:395-412 | Any packet, whether or not it fits behind the waiting bytes, is put into the ring at its address; the invariant is kept for the received bytes as the packet left them |
| `FlashDownload.FdlContext.FlashMidst` | bootloader/src/boot_fdl_dnld.c:395-420 | Takes the packet likewise, keeps the invariant, ends with room for a packet of maximum length, and does not poll if there is room at once |
| `FlashDownload.FdlContext.Drain` | bootloader/src/boot_fdl_dnld.c:431-433 | The loop of END ends, with less than a page left in the ring |
| `FlashDownload.FdlContext.FlashEnd` | bootloader/src/boot_fdl_dnld.c:425-470 | What END leaves on the device when its loop ends is `Outcome`: prohibited blocks, the end of the window, tiny targets and overrun packets included, with the reply by the CRC comparison; with the limit at the end of the target, every byte is erased once and programmed once after that |
| `FlashDownload.EndTells` | bootloader/src/boot_fdl_dnld.c:456-469 | END acknowledges a device that holds what was sent; with an injective CRC step it replies VERIFY_ERROR when exactly one byte of the target differs |
| `FlashDownload.FdlContext.FlashRest` | bootloader/src/boot_fdl_dnld.c:435-454 | The remaining bytes are written as far as they can be |
| `FlashDownload.FdlContext.EraseRest` | bootloader/src/boot_fdl_dnld.c:441-448 | Erases the rest up to the limit without touching programmed data |
| `FlashDownload.FdlContext.FlashWhole` | bootloader/src/boot_fdl_dnld.c:541-555 | Before the window end: succeeds if and only if the cover is inside the capacity and not prohibited, and then leaves exactly the image; at the window end and beyond: acknowledged only without erasing, or after leaving the device |
| `FlashDownload.FdlContext.DataStart` | bootloader/src/boot_fdl_dnld.c:742-796 | The reply for every flash address and size in both modes, and when the flash cannot be opened; what it does to the flash stage; and, for targets on the device or with a quiet stage, a download with nothing received |
| `FlashDownload.FdlContext.AliveIsOrderly` | bootloader/src/boot_fdl_dnld.c:742-796 | Whatever was begun without an error leaves a state for which `LeftAloneExactly` decides what polls after the next START do |
| `FlashDownload.FdlContext.DataMidst` | bootloader/src/boot_fdl_dnld.c:801-876 | The reply in every state; an accepted packet, of any size, extends what was sent, and leaves the received bytes as it left the ring; a refused one touches nothing on the device |
| `FlashDownload.FdlContext.DataEnd` | bootloader/src/boot_fdl_dnld.c:881-968 | The reply in every state, and what the device holds afterwards in both modes; after a progressive write the following check decides |
| `FlashDownload.FdlContext.Polling` | bootloader/src/boot_fdl_dnld.c:1296-1302 | The polling callback takes one step in any state, and keeps the invariant of every mode; a quiet stage that was left behind stays quiet and leaves the device alone |
| `FlashRuns.LeavesMeaning` | bootloader/src/boot_fdl_dnld.c:425-454 | What END leaves, byte by byte: data, erased margins, old contents beyond the limit, and old contents ANDed with data where it was programmed without erasing |
| `FlashRuns.Download` | bootloader/src/boot_fdl_dnld.c:694-968 | For every target on the device that START accepts and END ends for, every split into packets, interleaving with polls and busy times: reply and device are those of `Outcome`, and with the limit at the end of the target every byte is erased once and programmed once after that |
| `FlashRuns.SucceedsExactly` | bootloader/src/boot_fdl_dnld.c:306-470 | For every target on the device that START accepts: END acknowledges and leaves the image, for all old contents and all data, if and only if no block of the target is prohibited, it does not end at the window end or is erased by one command, and it is not a tiny target that wraps around in the ring |
| `FlashRuns.RunAny` | bootloader/src/boot_fdl_dnld.c:337-433 | Over all interleavings of packets and polls nothing is erased or programmed beyond the limit; where END cannot end, the condition of its loop stays true, and likewise for MIDST |
| `FlashRuns.DownloadWhole` | bootloader/src/boot_fdl_dnld.c:475-968 | A whole-file download, for every target, split, old contents and quiet stage left behind: image and reply before the window end; at the window end and beyond an acknowledgement means that one of its own commands left the device, or that nothing was erased |
| `FlashRuns.ModesAgree` | bootloader/src/boot_fdl_dnld.c:306-556 | Both modes leave identical contents, including the erased margins |
| `FlashRuns.ExampleWindowEnd` | bootloader/src/boot_fdl_dnld.c:316-432 | The last 128K of the window are acknowledged by START, and END does not end |
| `FlashRuns.ExampleShortTail` | bootloader/src/boot_fdl_dnld.c:432-469 | A target with less than a page beyond the limit is acknowledged by END although its margin is not erased |
| `FlashRuns.ExampleProhibited` | bootloader/src/boot_fdl_dnld.c:386-432 | A target whose second block is prohibited is acknowledged by START, and END does not end |
| `FlashRuns.ExampleRing` | bootloader/src/boot_fdl_dnld.c:450-452 | 100 bytes at 0x6001FFFF: the first is the one that was sent, the other 99 come from the memory behind the ring |
| `FlashRuns.ExampleOutside` | bootloader/src/boot_fdl_dnld.c:315-325 | On an 8M device START acknowledges the end of the window, and erases outside the device |
| `FlashRuns.ExamplePastWindow` | bootloader/src/boot_fdl_dnld.c:315-325 | START acknowledges a target that runs past the window |
| `FlashRuns.ExampleEmpty` | bootloader/src/boot_fdl_dnld.c:312-325 | START acknowledges an empty target that is not aligned, and erases the sector around it |
| `FlashRuns.ExampleWhole` | bootloader/src/boot_fdl_dnld.c:542-551 | Whole-file mode acknowledges the last 64K of the window only after one of its commands left the device, and otherwise replies with a verify error |
| `FlashRuns.ExampleLeftover` | bootloader/src/boot_fdl_dnld.c:337-796 | START of 64K at 0x60000000, then START in whole-file mode of 4K at 0x60100000: both are acknowledged, and the next polls change the byte at offset 0 |
| `FlashRuns.ExampleOverrun` | bootloader/src/boot_fdl_dnld.c:395-420 | With a maximum length of 0x3000 and 0x1D000 bytes waiting, a packet of 0x301A bytes is acknowledged, and its last 26 bytes are programmed where the first 26 bytes of the file belong |
| `BootHeap.Heap.constructor` | bootloader/src/boot_mem.c:61-73 | The region is rounded inwards to words, starts at 4 modulo 8, and is empty |
| `BootHeap.Heap.SetHeadTail` | bootloader/src/boot_mem.c:51-54 | Writes the two tag words of an allocated block and nothing else |
| `BootHeap.Heap.UnsetHeadTail` | bootloader/src/boot_mem.c:56-59 | Writes the two tag words of a free block and nothing else |
| `BootHeap.Heap.Malloc` | bootloader/src/boot_mem.c:75-86 | The block has an even number of words w with size <= 4w < size + 8; fails exactly when w words and two tags do not fit behind the tail, changing nothing; otherwise adds one live block at the tail and changes no live payload |
| `BootHeap.Heap.Calloc` | bootloader/src/boot_mem.c:88-100 | As malloc of nmemb * size bytes, with a zeroed block |
| `BootHeap.Heap.ClearWords` | bootloader/src/boot_mem.c:94-98 | Clears exactly the payload of the new block, and no other payload or tag |
| `BootHeap.Heap.MergeFollowing` | bootloader/src/boot_mem.c:107-115 | Swallows all free blocks behind, in place, with the heap intact and the other payloads unchanged |
| `BootHeap.Heap.MergePreceding` | bootloader/src/boot_mem.c:117-125 | Merges into the free blocks before, in place, with the heap intact and the other payloads unchanged |
| `BootHeap.Heap.Free` | bootloader/src/boot_mem.c:102-130 | Removes exactly that live block; all other live payloads are unchanged and the heap is coalesced again |
| `BootHeap.Heap.Store` | bootloader/src/boot_mem.c:20-28 | An owner writing any word of a payload damages no tag and no other payload |
| `BootHeap.Heap.CopyWords` | bootloader/src/boot_mem.c:152-153 | Copies the first min(old, new) words into the new block and changes no other payload |
| `BootHeap.Heap.MoveBlock` | bootloader/src/boot_mem.c:140-154 | A new block for size bytes, rounded up to 8, that starts with the old words, or failure without any change, exactly if there is no room |
| `BootHeap.Heap.FreeOld` | bootloader/src/boot_mem.c:156-157 | Freeing the old block keeps what was copied into the new one |
| `BootHeap.Heap.Replace` | bootloader/src/boot_mem.c:140-158 | The new block takes the place of the old one and starts with its words |
| `BootHeap.Heap.Realloc` | bootloader/src/boot_mem.c:132-158 | The block is replaced by one for size bytes, rounded up to 8, that keeps at least the first min(old bytes, size) bytes; it fails exactly if there is no room, nothing is asked for or the head says free, and then everything is untouched, unless a block was to be freed; no other payload changes |
| `BootHeap.FreeAll` | bootloader/src/boot_mem.c:102-130 | Freeing all live blocks in any order gives the whole region back |
| `BootHeap.LiveAligned` | bootloader/src/boot_mem.c:66-85 | Every live payload is 8-byte aligned and inside the used part |
| `BootHeap.LiveDisjoint` | bootloader/src/boot_mem.c:20-28 | Live payloads are disjoint, with room for their tags between them |
| `BootHeap.TailIsHighest` | bootloader/src/boot_mem.c:128-129 | The tail is the end of the highest live block, and the start if there is none |
| `BootHeap.LiveInside` | bootloader/src/boot_mem.c:104-105 | The word before a live payload is its size, marked allocated |
| `BootHeap.StoreMove` | bootloader/src/boot_mem.c:20-28 | A word of a payload is no tag and belongs to no other payload |
| `BootHeap.MergeMove` | bootloader/src/boot_mem.c:107-125 | Retagging two neighbours as one keeps tiling, tags and all other payloads, though the tags in the middle become payload |
| `BootHeap.FreeMove` | bootloader/src/boot_mem.c:127-129 | Unmarking the coalesced block, and retracting the tail if it is the last, restores the full invariant |
| `BootHeap.MallocMove` | bootloader/src/boot_mem.c:79-85 | A block appended at the tail keeps the invariant and all payloads |
| `BootHeap.NextBlock` | bootloader/src/boot_mem.c:109-112 | The word behind a block is the head of the next block or the tail of the heap |
| `BootHeap.PreviousBlock` | bootloader/src/boot_mem.c:119-122 | The word before a block is the end tag of the previous block, unless it is the first |
| `Checksum.CalcCrc16Frm` | bootloader/src/boot_fdl.c:52-85 | The unrolled loop computes the Internet checksum of RFC 1071 for every length, without 32-bit overflow |
| `Checksum.DeferredCarries` | bootloader/src/boot_fdl.c:56-82 | Adding plainly and folding at the end equals addition with end-around carry at each step |
| `Checksum.TwoFoldsSuffice` | bootloader/src/boot_fdl.c:82-83 | Two folds of any 32-bit sum, kept to 16 bits, are complete |
| `Checksum.ChecksumCancels` | bootloader/src/boot_fdl.c:84 | Checksum plus the sum of the words is a positive multiple of 65535 |
| `Checksum.ChecksumVerifies` | bootloader/src/boot_fdl.c:334-340 | Appended to a message of even length, the checksum makes the sum all ones |
| `Hdlc.StuffedByte` | bootloader/src/boot_fdl.c:361-406 | The receiver takes every stuffed byte back as that byte |
| `Hdlc.OnlyWholeIsComplete` | bootloader/src/boot_fdl.c:399-405 | No proper prefix of a frame's payload is taken for a complete packet |
| `Hdlc.PayloadParses` | bootloader/src/boot_fdl.c:332-348 | A complete payload passes the checksum and stands for the packet that was sent |
| `Hdlc.IntactIsPayload` | bootloader/src/boot_fdl.c:332-348 | Only the whole payload of a packet, with all 16 bits of its checksum, is complete and verifies |
| `Hdlc.DeliversExactly` | bootloader/src/boot_fdl.c:327-358 | A byte delivers a packet if and only if it is a flag behind exactly that packet's payload |
| `Hdlc.SmoothConcat` | bootloader/src/boot_fdl.c:316-407 | Runs of the receiver compose |
| `Hdlc.SmoothChunks` | bootloader/src/boot_fdl.c:306-316 | Without panic and overflow, the result does not depend on how the bytes are divided into reads |
| `Hdlc.FrameSmooth` | bootloader/src/boot_fdl.c:316-407 | From any state but END with a bad checksum, a frame is delivered, after the packet END was holding |
| `Hdlc.FramesSmooth` | bootloader/src/boot_fdl.c:316-407 | A concatenation of frames delivers exactly their packets in order |
| `Hdlc.RoundTrip` | bootloader/src/boot_fdl.c:190-407 | However the sent frames are cut into reads, exactly the sent packets are delivered, in order, without panic |
| `Hdlc.Resynchronises` | bootloader/src/boot_fdl.c:316-407 | From any receiver state, the next frame is delivered last and the receiver is ready, if and only if it does not hold a packet with a bad checksum |
| `Hdlc.OnlyFramesDelivered` | bootloader/src/boot_fdl.c:306-407 | Over all byte streams in whatever reads, every packet that is delivered stands in the stream between two flags, stuffed, whole and with its checksum |
| `Hdlc.ExampleBadChecksum` | bootloader/src/boot_fdl.c:327-346 | A flag and six zero bytes, and then any frame in any reads, end in a panic |
| `Hdlc.ExampleFrame` | bootloader/src/boot_fdl.c:190-226 | The frame of one packet, byte by byte: big-endian header, little-endian checksum, stuffing |
| `FdlEngine.WriteAll` | bootloader/src/boot_fdl.c:146-155 | Everything is written in order, however little the channel takes at a time |
| `FdlEngine.FillSendByte` | bootloader/src/boot_fdl.c:175-188 | Appends the stuffed byte to the buffer |
| `FdlEngine.SwappedHeader` | bootloader/src/boot_fdl.c:195-199 | Swapping the header in memory gives the bytes that the frame format prescribes |
| `FdlEngine.SwapHeader` | bootloader/src/boot_fdl.c:196-197 | Both header fields are swapped in place and nothing else |
| `FdlEngine.SendPacket` | bootloader/src/boot_fdl.c:190-226 | Emits exactly the frame of the packet, and leaves the packet with its header swapped |
| `FdlEngine.SendBytes` | bootloader/src/boot_fdl.c:203-223 | The bytes emitted are flag, stuffed bytes and flag: flush points leave no trace and the 136-byte buffer never overflows |
| `FdlEngine.FinishFrame` | bootloader/src/boot_fdl.c:218-223 | Checksum and closing flag fit behind the buffered bytes and complete the frame |
| `FdlEngine.StoreByte` | bootloader/src/boot_fdl.c:392-398 | Swapping the size field in place when the header is complete still records the bytes as received |
| `FdlEngine.SwappedParses` | bootloader/src/boot_fdl.c:337-348 | With its header swapped to host order, a received packet is what the sender had in memory |
| `FdlEngine.Receiver.constructor` | bootloader/src/boot_fdl.c:295-305 | A receiver with 32 bytes to spare, waiting for a flag |
| `FdlEngine.Receiver.RunByte` | bootloader/src/boot_fdl.c:359-406 | A byte inside a packet does to the buffer what the parser function says, overflow included |
| `FdlEngine.Receiver.EndByte` | bootloader/src/boot_fdl.c:327-358 | The byte behind a packet delivers it, panics or resynchronises as the parser function says |
| `FdlEngine.Receiver.Verify` | bootloader/src/boot_fdl.c:334-340 | The comparison succeeds exactly if the trailing checksum is that of the bytes before it |
| `FdlEngine.Receiver.InBuffer` | bootloader/src/boot_fdl.c:348 | The callback finds the packet that the buffer holds |
| `FdlEngine.Receiver.TakePacket` | bootloader/src/boot_fdl.c:332-349 | With the header swapped back and forth, the checksum is verified over the received bytes and the packet delivered is the one sent |
| `FdlEngine.Receiver.Process` | bootloader/src/boot_fdl.c:316-407 | A read buffer has the effect of the parser function, up to a panic or an overflow |
| `FdlEngine.SendAll` | bootloader/src/boot_fdl.c:190-226 | A list of packets is sent as the concatenation of their frames |
| `FdlEngine.Transfer` | bootloader/src/boot_fdl.c:190-407 | What one end sends the other delivers: the same packets in the same order, however writes and reads are split |
| `AesTables.TableFacts` | bootloader/src/boot_aes.c:30-132 | In every row of the tables, x2 is xtime of the S-box and x3 is x2 plus the S-box |
| `AesTables.FusedTables` | bootloader/src/boot_aes.c:30-132 | The second table is {02} times and the third {03} times the S-box, for every byte |
| `AesSbox.SboxIsAffineInverse` | bootloader/src/boot_aes.c:100-132 | The S-box is the inverse in the field followed by the affine transformation of section 5.1.1 of FIPS 197, for all 256 entries |
| `Aes.RconTable` | bootloader/src/boot_aes.c:146-147 | The constants are the powers of x of section 5.2 of FIPS 197 |
| `Aes.NextWord` | bootloader/src/boot_aes.c:158-181 | The in-place scrambling of four bytes gives the next word of the key expansion of section 5.2 |
| `Aes.TempWord` | bootloader/src/boot_aes.c:158-169 | The four temporaries are the previous word, rotated, substituted and with the constant added every fourth time |
| `Aes.ExpandWord` | bootloader/src/boot_aes.c:156-182 | One pass appends the next word of the expansion |
| `Aes.ExpandKey` | bootloader/src/boot_aes.c:149-183 | The loop computes KeyExpansion of section 5.2 of FIPS 197 |
| `Aes.FusedColumnMixes` | bootloader/src/boot_aes.c:190-198 | The four table expressions of a column are MixColumns of the substituted bytes |
| `Aes.FusedState` | bootloader/src/boot_aes.c:186-231 | Four fused columns over the diagonals are MixColumns of ShiftRows of SubBytes |
| `Aes.MixSubColumns` | bootloader/src/boot_aes.c:186-231 | In place, the state becomes MixColumns of ShiftRows of SubBytes (sections 5.1.1 to 5.1.3) |
| `Aes.ShiftRowsInPlace` | bootloader/src/boot_aes.c:238-269 | Substituting while rotating in place is ShiftRows of SubBytes |
| `Aes.AddRoundKey` | bootloader/src/boot_aes.c:138-144 | The state becomes its sum with the round key (section 5.1.4) |
| `Aes.AesEncrypt` | bootloader/src/boot_aes.c:272-292 | One block in place becomes its cipher of section 5.1, and no other byte of the buffer changes |
| `Aes.RunRounds` | bootloader/src/boot_aes.c:278-289 | The round loop turns the state into its cipher of section 5.1 |
| `Aes.AesEncryptObj` | bootloader/src/boot_aes.c:294-313 | Every block of the buffer, the rounded-up last one included, becomes its cipher under the expanded key; the rest of the buffer is unchanged |
| `AesInverse.InvSboxUndoes` | bootloader/src/boot_aes.c:100-132 | The published inverse S-box (section 5.3.2 of FIPS 197) undoes the S-box |
| `AesInverse.MixColumnsUndone` | bootloader/src/boot_aes.c:190-231 | Mixing with the coefficients {0e}, {0b}, {0d}, {09} (section 5.3.3) undoes MixColumns |
| `AesInverse.CipherUndone` | bootloader/src/boot_aes.c:278-289 | The inverse cipher of section 5.3 undoes the cipher, for every block and every schedule |
| `AesVector.PublishedVector` | bootloader/src/boot_aes.c:146-313 | Key expansion and cipher give the ciphertext of the example vector of appendix C.1 of FIPS 197 |
| `Pdl.FeedConcat` | bootloader/src/boot_pdl.c:118-145 | The result does not depend on how the bytes are divided into reads |
| `Pdl.NoiseIgnored` | bootloader/src/boot_pdl.c:121-122 | Bytes without the tag between packets are ignored |
| `Pdl.PacketCompletes` | bootloader/src/boot_pdl.c:124-144 | From any proper prefix of a packet, its remaining bytes deliver it |
| `Pdl.StreamDelivered` | bootloader/src/boot_pdl.c:96-146 | Any sequence of packets with noise between them is delivered exactly and in order |
| `Pdl.ForeignHeader` | bootloader/src/boot_pdl.c:129-136 | A header of another flow, or with a size below 4 or above the maximum, is dropped as soon as it is complete |
| `Pdl.DeliversExactly` | bootloader/src/boot_pdl.c:120-144 | A byte delivers a payload if and only if it completes a packet: tag, size from 4 up to the maximum, the host's flow, two more bytes, payload |
| `Pdl.ResponseReadBack` | bootloader/src/boot_pdl.c:66-82 | The layout that is sent is the layout that is parsed, and only acknowledgements carry the accepted flow |
| `Pdl.ExampleReply` | bootloader/src/boot_pdl.c:66-82 | The bytes of an acknowledgement and of a 32-bit field |
| `PdlDownload.SendData` | bootloader/src/boot_pdl.c:66-75 | Header and data are emitted in order, however little the channel takes at a time |
| `PdlDownload.SendResp` | bootloader/src/boot_pdl.c:77-82 | The response code in a packet whose flow tells success from failure |
| `PdlDownload.Engine.constructor` | bootloader/src/boot_pdl.c:101-108 | A buffer with 32 bytes to spare and nothing collected |
| `PdlDownload.Engine.TakeByte` | bootloader/src/boot_pdl.c:120-144 | One byte does to the buffer what the parser function says, and the buffer cannot overflow |
| `PdlDownload.Engine.Take` | bootloader/src/boot_pdl.c:118-145 | A read buffer has the effect of the parser function |
| `PdlUimage.Uimage.constructor` | bootloader/src/boot_pdl_uimage.c:109-117 | A region with nothing received |
| `PdlUimage.Uimage.ProcessStart` | bootloader/src/boot_pdl_uimage.c:58-69 | For every address and size: accepted exactly if the address is not before the region and the 32-bit sum with the size not beyond its end; then the download starts over |
| `PdlUimage.Uimage.ProcessMid` | bootloader/src/boot_pdl_uimage.c:70-82 | For every command: accepted exactly if the two 32-bit sums pass; data of the packet goes behind what was received, counted from the start of the region; and inside the region nothing that was received is lost |
| `PdlUimage.Uimage.TakeData` | bootloader/src/boot_pdl_uimage.c:79-80 | The copy and the 32-bit count of accepted data; what the region held of the file stays, extended by the data |
| `PdlUimage.Uimage.Process` | bootloader/src/boot_pdl_uimage.c:47-105 | The response to every command, short ones included, and what it changes in context and RAM |
| `PdlUimage.Uimage.CopyToRam` | bootloader/src/boot_pdl_uimage.c:79 | Data of the packet is stored at its place in RAM, and nothing else in RAM changes |
| `PdlUimage.PlainRun` | bootloader/src/boot_pdl_uimage.c:58-82 | Over every run of harmless commands no copy leaves the region, and no more is received than the file and the region hold |
| `PdlUimage.StaysInRegionExactly` | bootloader/src/boot_pdl_uimage.c:58-82 | Over all runs in which a command stands among harmless ones, no copy leaves the region, if and only if that command is harmless: a condition on its fields, the region and its packet |
| `PdlUimage.InPlaceOnlyAtRegionStart` | bootloader/src/boot_pdl_uimage.c:58-82 | What such a download stores is, for every file and all old RAM, the file at the address of START, if and only if that is the region start or the file is empty |
| `PdlUimage.ExampleMisplaced` | bootloader/src/boot_pdl_uimage.c:58-82 | START one byte behind the region start and its data are acknowledged, and the file is not there |
| `PdlUimage.ExampleStartWraps` | bootloader/src/boot_pdl_uimage.c:58-82 | START of a 2-byte region for the rest of the address space is acknowledged, and the third byte is stored behind the region |
| `PdlUimage.ExampleMidWraps` | bootloader/src/boot_pdl_uimage.c:70-82 | After 12 bytes, a MID with size field 0xFFFFFFF4 is acknowledged, and copied with that size |
| `PdlUimage.ReceiveImage` | bootloader/src/boot_pdl_uimage.c:47-105 | An image sent in any pieces, with any noise and division into reads, and asked for anywhere in the region, is stored at the start of the region exactly, and nothing else in RAM changes |
| `PdlUimage.ExampleCommand` | bootloader/src/boot_pdl_uimage.c:47-69 | The bytes of a START command |
| `Vfs.Registry.GetFileByPath` | bootloader/src/boot_vfs.c:70-109 | Finds the mount with the longest whole-component prefix of the path, and the path below it |
| `Vfs.Registry.GetFileByFd` | bootloader/src/boot_vfs.c:111-128 | Finds the mount with the index in the descriptor, and the local descriptor |
| `Vfs.Registry.MountFs` | bootloader/src/boot_vfs.c:130-155 | Refuses exactly a path that is mounted; otherwise puts the mount in front, with the byte above all other indices; indices stay unique exactly if one is left |
| `Vfs.Registry.Umount` | bootloader/src/boot_vfs.c:176-191 | Removes exactly the mount of the path, if there is one |
| `Vfs.Registry.Open` | bootloader/src/boot_vfs.c:223-243 | The file system with the longest prefix opens the path below its mount point, and the descriptor encodes its result and its index; otherwise opening fails |
| `Vfs.Registry.OpenAndFind` | bootloader/src/boot_vfs.c:111-243 | An open file is found again by its descriptor if and only if mount index and local descriptor fit their bits |
| `Vfs.ExampleManyMounts` | bootloader/src/boot_vfs.c:111-243 | A file opened on the 32nd mount is not found again |
| `Vfs.UnderByCode` | bootloader/src/boot_vfs.c:80-101 | The comparisons of the loop accept a path if and only if it is the prefix or lies below it by whole components |
| `Vfs.AcceptsExactly` | bootloader/src/boot_vfs.c:80-101 | They do so for all paths if and only if the prefix is not a single byte other than a slash |
| `Vfs.OrderIndependent` | bootloader/src/boot_vfs.c:70-109 | The lookup does not depend on the order of the list |
| `Vfs.DecodeEncode` | bootloader/src/boot_vfs.c:37-40 | A descriptor decodes to what was encoded if and only if both parts fit their bits |
| `Vfs.MountedValid` | bootloader/src/boot_vfs.c:130-155 | Mounting keeps all mounts, and keeps indices and paths unique if and only if the path is mounted, the highest index is below 255, or index 0 is not used |
| `Vfs.MountFound` | bootloader/src/boot_vfs.c:70-155 | Looking up a path after it was mounted finds the file system that was mounted there |
| `Vfs.ExampleIndexReused` | bootloader/src/boot_vfs.c:139-151 | With indices 255 and 0 in use, the next mount gets index 0 again, and hides the other from its descriptors |
| `Vfs.UnmountedValid` | bootloader/src/boot_vfs.c:176-191 | Unmounting keeps them unique, and removes nothing else |
| `Vfs.RunKeeps` | bootloader/src/boot_vfs.c:130-191 | Over every run in which an index is left for each mount, a mount stays until its own path is unmounted |
| `Vfs.DescriptorStable` | bootloader/src/boot_vfs.c:111-243 | Over every such run, a descriptor keeps decoding to its mount and local descriptor while that mount lives |

## Left out

- FlashDownload.FdlContext.DataStart: what follows an acknowledged START is claimed for targets on the device, and in whole-file mode if the stage left behind is quiet (`LeftAloneExactly` is about the others). A context has one device, the code one for each window; a stage that NV and file downloads find is not part of this model.
- FlashDownload.FdlContext.DataMidst: asks for a target on which its loop ends (`RunAny` is about the others). After an error reply nothing is claimed until the next successful START, because the code clears the flash stage but not the stage.
- FlashDownload.FdlContext.FlashMidst: the same.
- FlashDownload.FdlContext.DataEnd: asks for a target on which its loop ends (`RunAny` is about the others). What the check after a progressive write answers (boot_fdl_dnld.c:561-667) depends on signatures and is a parameter.
- FlashDownload.FdlContext.FlashEnd: the same.
- FlashDownload.FdlContext.FlashWhole: without the signature, encryption and version steps of secure boot; on failure only the reply is stated, the device may be partly erased.
- FlashRuns.Download: one download; the commands of other sessions on other devices do not interleave with it.
- SpiFlash.Driver.WriteNoWait: without the NULL data pointer, which is refused.
- SpiFlash.RunProtects: runs contain no looping erase or write whose end wraps around at 32 bits, and no single command that starts beyond the capacity and wraps: those leave the device.
- SpiFlash.Driver.SetRangeWriteProhibit: the bitmap is a sequence of 256 booleans, not of 32-bit words. The same holds for clearing.
- BootHeap.Heap.constructor: addresses and sizes do not wrap around at 32 bits; the same holds for malloc, calloc and realloc. Word indices stand for pointers.
- BootHeap.Heap.Free: the pointer is that of a live block of this heap. Which of the two heaps a pointer belongs to, and freeing twice, are not modelled.
- FdlEngine.Receiver.Process: a panic ends the model; what the callback of a packet does is modelled in `FlashDownload` only.
- Hdlc.SmoothChunks: independence of the division into reads is claimed for streams that do not overflow the buffer; an overflow drops the rest of its read, as in the code.
- Aes.AesEncryptObj: input and output of a block are the same memory, as in the only caller. The round key is added byte by byte, the code does it a 32-bit word at a time.
- PdlUimage.Uimage.Process: what EXEC checks before it jumps is foreign, and so is what a copy outside RAM does to the context.
- PdlUimage.ReceiveImage: one image; without polling and time-outs.
- Vfs.Registry.Open: the file system is a function from local paths to descriptors and errors; the FAT hook is not modelled.
- Vfs.Registry.MountFs: mount points fit the 15 bytes of a registry entry, which bootVfsMount does not check; allocation succeeds.
- Vfs.Registry.GetFileByPath: mount points are not single bytes other than a slash (`AcceptsExactly` is about those).
- Vfs.DescriptorStable: descriptors of mounts with an index up to 31 only, the others do not fit (`DecodeEncode`).
- Register-level drivers, caches, memory encryption, secure boot, image headers and the NVM, package and file system commands of the download protocol: hardware or foreign calls.
- Remounting, unmounting everything, reading and writing through descriptors: they forward to the file system.
- Thin programs around these parts (`app_loader.c`, `fdl1_main.c`, `flash_test_main.c`, `boot_uimage.c`): they would only add easy members.
