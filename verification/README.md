# Verified model of the flash access stack

This project models how the bootloader reads, writes and erases flash, and proves what the code
guarantees. The stack has three layers, and the model keeps them apart:

1. **Device** (`NvmController.dfy`, `SpimNor.dfy`). The on-chip controller reads 32-bit words, programs one
   unit of 8 bytes (FMC) or 4 bytes (RMC) and erases one sector. The serial NOR flash takes commands, has a
   write-enable latch and stays busy after a program or erase.
2. **CMSIS driver** (`FlashDriver.dfy`, `SpimDriver.dfy`). It turns data items, program units and sectors
   into device operations and checks ranges and alignment in wrapping 32-bit arithmetic.
3. **Flash area** (`FlashArea.dfy`, `FlashMapExtended.dfy`, `FlashSectors.dfy`, and `SpimArea.dfy` with the serial
   driver below). Byte-granular read, write and erase at any offset and length, the emptiness check, and the two
   ways to find sectors.

`FlatFlash.dfy` is the specification: a byte sequence, the number of device operations so far, and a
schedule saying which operation numbers the device reports as failed. Every method of the stack is proved
equal to a function of that flat state, whatever fails (`FlashAreaRead`, `FlashAreaWrite`, `FlashAreaErase`,
`FlashAreaReadIsEmpty`), and so is every finite run of calls (`RunStack`). `FlashLaws.dfy`, `FlashCuts.dfy` and `RunLaws.dfy`
then prove what that function means: exact content, prefix on failure, retry, round trip, isolation of areas,
and when the whole stack is a plain byte array (`RunIsByteRun`). `SpimAreaLaws.dfy` does the same for calls over the
serial driver, whose content is a function of the device's memory (`SpimWrite`, `AreaErased`). `MixedRuns.dfy` refines runs
on a map with areas on both devices (`RunMixed`), and `MixedLaws.dfy` proves what such runs keep apart. `CallLaws.dfy` says byte by byte
what every call of a run does, plain or not, refused, failing or successful, and that a run is the only one whose calls do
that. `SpimRuns.dfy` does the same for runs of calls of the serial driver itself, with the commands they send.

## What the code does differently from its documentation

- **Middle run of a write.** `bl2/src/flash_map.c:303-306` sends `src` from its first byte, not from
  `src_written_idx`. `Landed` is the data that really arrive. It is the request's data for every source exactly
  if the request starts on a program unit or ends before the end of the second unit it touches
  (`FlashLaws.LandedIsSourceIff`, `FlashLaws.WriteIsByteWriteIff`). Twelve bytes written four bytes into an
  8-byte unit are the concrete case (`FlashCuts.MisalignedExample`). So cutting a write in two can change what it
  leaves; `FlashCuts.WriteSplitIff` says exactly when, and `FlashCuts.CutExample` is a failing cut.
- **`fa_off`.** `bl2/ext/mcuboot/include/flash_map/flash_map.h:47-50` calls it relative to its device;
  `flash_map.c` passes it on as an address. The model follows the code.
- **Last byte only.** The on-chip driver compares only the last byte of a request with its range. The exact gap is
  `FlashDriver.Driver.LastByteCheckIff`; requests that come through a valid area never fall into it. `BelowBaseExample` is an
  accepted program that starts below its device.
- **Late second range check.** A write whose last program unit leaves the area is refused after the head
  padding has been read, so it may consume device operations. It programs nothing.
- **Area id -1.** `bl2/ext/mcuboot/flash_map_extended.c:48` says opening -1 fails. The parameter is a `uint8_t`, so
  it opens id 255, the scratch area (`FlashSectors.OpenMinusOne`, `FlashLayouts.MinusOneOpensScratch`).
- **Serial flash.** Chunks start at the request's address and not at a page, so a chunk can wrap inside its page
  (`SpimDriver.PagedIsFlatIff`). An area write on serial flash can therefore overwrite bytes before its request
  (`SpimAreaLaws.WrapBeforeRequest`); `SpimAreaLaws.SpimWriteIsByteWriteIff` and
  `SpimAreaLaws.SpimWriteStaysInsideIff` give the exact requests. An erase command carries 24 address bits on a device
  advertised with 32 MiB (`SpimAreaLaws.EraseHitsItsBlockIff`), and erases 4 KiB where 256 bytes are advertised
  (`SpimAreaLaws.SpimEraseIsByteEraseIff`, `SpimAreaLaws.EraseAroundRequest`), so an erase can reach a neighbouring
  area (`SpimAreaLaws.SpimEraseStaysInsideIff`). The driver's range check wraps
  (`SpimDriver.SpimFlash.AcceptsAsIntendedIff`, `SpimDriver.SpimFlash.WrapExample`), its sector erase accepts the address
  one past the window, `NVT_NVSPIM_Program` reports failure after programming if an unrelated status bit is set, and the
  calls return 0 where CMSIS promises the item count.

## Assumptions

- Programming ANDs each byte with the old content; an erased byte is 0xFF. A device operation either happens
  completely or is reported as failed and changes nothing. A misaligned or out-of-range address makes an
  operation of the on-chip controller fail.
- The address space of the on-chip controller is shorter than 2^32 bytes and a multiple of 8. A driver describes whole sectors of
  it, starting on a sector, and has the controller's sector size and unit (`Driver.Describes`).
- `FLASH_PROGRAM_UNIT` is a power of two, a multiple of the controller's unit and a divisor of the sector size. An area starts
  on a program unit and lies inside its device (`ValidArea`). Its size is unrestricted, except where a law names
  the restriction (`SectorAligned`, `Granular`).
- `boot_u32_safe_add` is in a header that is not part of this model; it is taken as a checked 32-bit addition.
- A NOR page program wraps inside its 256-byte page; the latch clears when an operation completes; the busy time is a function
  of the operation number. Page programs and reads use the full address, although
  `spim_drv.c` selects no 4-byte addressing: what is proved of them above 16 MiB rests on this assumption alone.
  Addresses beyond the device have no byte.
- The mapped window of the serial flash ends below 2^32. For area writes on it, the window and the area start on
  program units, the window is a whole number of them, and the device has every byte of the area (`UnitArea`).
- The on-chip slots and the scratch area of a layout are on one controller, whose sector size is the layout's image sector
  size; chip header constants are not part of this model.

## Model

| member | source | states |
|---|---|---|
| FlashRuns.RunStack | bl2/src/flash_map.c:97-378 | every finite run of area calls, with any offsets, lengths and failing device operations, leaves the content, the operation count and the replies of the flat specification |
| FlashRuns.StackStep | bl2/src/flash_map.c:97-378 | the same for one call through all three layers |
| CallLaws.StepMeans | bl2/src/flash_map.c:97-378 | what any one call does, byte by byte: result, content and operation count of a refused, failing or successful read, write, erase or emptiness check |
| CallLaws.CallMeansOne | bl2/src/flash_map.c:97-378 | that leaves nothing open: state and reply after a call are determined by it |
| CallLaws.RunFollows | bl2/src/flash_map.c:97-378 | every call of every run does this, from the state the calls before it left |
| CallLaws.RunIsOnlyOne | bl2/src/flash_map.c:97-378 | states and replies whose calls all do this are those of the run |
| CallLaws.MisalignedRun | bl2/src/flash_map.c:303-306 | the run of one misaligned write: reply 0, and the middle run repeats the first bytes |
| RunLaws.RunIsByteRun | bl2/src/flash_map.c:92-96 | every run of which no performed device operation fails, of writes sent as given, whole-sector erases and arbitrary reads and emptiness checks, in or out of range, is the run on a plain byte array |
| RunLaws.StepIsByteStep | bl2/src/flash_map.c:92-96 | the same for one call, including the refused ones |
| RunLaws.RunKeepsOutside | bl2/src/flash_map.c:228-250 | no run, with any rejected or failing calls, changes a byte outside the areas it writes or erases |
| RunLaws.AreaIsolation | bl2/src/default_flash_map.c:86-126 | in a map of disjoint areas of whole sectors, calls on other areas leave an area and the bootloader byte for byte as they were |
| FlashLayouts.LayoutsAreDisjoint | bl2/platform/m460/partition/flash_layout.h:23-47 | on all eight platforms the slots, the scratch area and the bootloader are disjoint and sector-aligned |
| FlashLayouts.PlatformIsolation | bl2/platform/m55m1/partition/flash_layout.h:23-41 | isolation over whole runs for the real layouts |
| RunLaws.RunOnlyClears | bl2/src/flash_map.c:191-345 | a run without erases never turns a 0 bit into a 1 |
| RunLaws.UpdateRoundTrip | bl2/src/flash_map.c:97-378 | erase an area, write into it, read any part at any alignment: if no performed operation fails, the replies are 0, 0 and the source's bytes |
| FlashAreaLayer.FlashAreaWrite | bl2/src/flash_map.c:191-345 | result, content and operation count of a write at any offset, length and point of failure |
| FlashAreaLayer.WriteUnits | bl2/src/flash_map.c:258-342 | the program phase covers the units in ascending order; it ends complete or stopped at the first failing unit |
| FlashAreaLayer.WriteHead | bl2/src/flash_map.c:258-288 | the head unit is programmed with its padding kept, if the request starts inside a unit |
| FlashAreaLayer.WriteMiddle | bl2/src/flash_map.c:297-311 | the whole units behind it receive `src` from index 0 |
| FlashAreaLayer.WriteTail | bl2/src/flash_map.c:311-341 | the last unit is programmed with its padding kept, if bytes remain |
| FlashAreaLayer.FillHead | bl2/src/flash_map.c:259-282 | content of the head buffer; its two failure returns cannot be reached; no index is out of bounds |
| FlashAreaLayer.FillTail | bl2/src/flash_map.c:314-334 | content of the tail buffer; its two failure returns cannot be reached; no index is out of bounds |
| FlatFlash.WriteLayout | bl2/src/flash_map.c:214-224 | head, middle run and tail split a request's units exactly, for every offset and length |
| FlatFlash.CommitExtend | bl2/src/flash_map.c:283-340 | programming a unit filled with new data and present padding continues the partial write, and leaves the padding as it was |
| FlashAreaLayer.PlanStep | bl2/platform/common/Driver_Flash.c:413-428 | one driver call in the middle of a write, possibly failing, takes the write from one prefix to the next |
| FlashLaws.WriteSucceedsIff | bl2/src/flash_map.c:231-344 | a write returns 0 exactly if it and its units are in range and none of its operations fails |
| FlashLaws.WriteContent | bl2/src/flash_map.c:191-345 | a successful write changes exactly its own bytes, each to the AND of old content and landed data |
| FlashLaws.LandedIsSourceIff | bl2/src/flash_map.c:301-310 | the landed data are the source for every source exactly if no middle run follows a partial head unit |
| FlashCuts.MisalignedExample | bl2/src/flash_map.c:303-306 | a concrete write over an erased area that returns 0 and whose middle run repeats the first bytes |
| FlashLaws.WriteIsByteWriteIff | bl2/src/flash_map.c:301-310 | exactly which offsets and lengths make a write the plain byte-array write, for every source and every content of a memory of any size that holds the area |
| FlashLaws.WriteFailsAtPrefix | bl2/src/flash_map.c:231-344 | a write that fails in range stops at its first failing operation: everything below some unit boundary is final, everything from there on untouched; a refused write changes nothing |
| FlashLaws.WriteRetry | bl2/src/flash_map.c:191-345 | after any number of attempts, wherever each stops, the attempt that succeeds leaves what one successful write of the original content would have left |
| FlashCuts.WriteSplit | bl2/src/flash_map.c:191-345 | two successful adjoining writes after a clean cut leave what one write of the joined data leaves |
| FlashCuts.WriteSplitIff | bl2/src/flash_map.c:231-310 | exactly which cuts of a write, in range or refused, leave its content, for every source and content |
| FlashCuts.CutExample | bl2/src/flash_map.c:303-306 | a concrete cut after which three successful calls leave different content |
| FlashLaws.WriteStaysInside | bl2/src/flash_map.c:228-250 | however a write ends, it changes no byte outside its request and only clears bits inside |
| FlashLaws.ControllersAgree | bl2/platform/common/rmc_drv.c:37-49 | successful writes through the 64-bit and the 32-bit controller leave the same content |
| FlashLaws.WriteReadBack | bl2/src/flash_map.c:97-345 | a write over erased bytes reads back as the matching slice, at any alignment |
| FlashAreaLayer.WriteArithmetic | bl2/src/flash_map.c:229-247 | no 32-bit sum of a write wraps and both masks round as intended |
| FlashAreaLayer.CeilFits | bl2/src/flash_map.c:246 | the rounded-up length stays below 2^32 for any power-of-two program unit |
| FlashAreaLayer.ProgramAcceptable | bl2/platform/common/Driver_Flash.c:437-446 | a unit-aligned request inside the device passes every check of the driver, and nothing wraps |
| FlashAreaLayer.ReadAccepted | bl2/platform/common/Driver_Flash.c:361-368 | a read of whole items inside the device passes the check, and nothing wraps |
| FlashAreaLayer.IsRangeValid | bl2/src/flash_map.c:43-62 | accepts exactly the requests that end inside the area, over unbounded sums |
| FlashAreaLayer.FlashAreaRead | bl2/src/flash_map.c:97-186 | result, bytes and operation count of a read at any offset, length and point of failure; nothing behind the request is written |
| FlashAreaLayer.ReadHead | bl2/src/flash_map.c:130-148 | the bytes of the request in the item it starts inside |
| FlashAreaLayer.ReadWhole | bl2/src/flash_map.c:153-164 | the run of whole items |
| FlashAreaLayer.ReadTail | bl2/src/flash_map.c:165-176 | the bytes of the request in its last item |
| FlatFlash.WordSplit | bl2/src/flash_map.c:130-176 | the three pieces together read every touched word once |
| FlashLaws.ReadSucceedsIff | bl2/src/flash_map.c:97-186 | a read returns 0 exactly if it is in range and no word read fails; it then returns the bytes of the request and the flash is unchanged |
| FlashAreaLayer.FlashAreaErase | bl2/src/flash_map.c:347-378 | result, content and operation count of an erase; it terminates |
| FlashLaws.EraseSucceedsIff | bl2/src/flash_map.c:347-378 | an erase returns 0 exactly if it is in range, starts on a sector or is empty, and no sector fails |
| FlashLaws.EraseContent | bl2/src/flash_map.c:361-370 | a successful erase sets exactly the sectors that cover the request |
| FlashLaws.EraseFailsAtPrefix | bl2/src/flash_map.c:363-370 | a failure at sector k leaves exactly the first k sectors erased; a refused erase changes nothing |
| FlashLaws.EraseStaysInside | bl2/src/flash_map.c:347-378 | however an erase ends, it changes no byte outside an area of whole sectors |
| FlashLaws.EraseIsByteEraseIff | bl2/src/flash_map.c:347-378 | exactly which erases set the requested bytes and no others, over every content of a memory of any size that holds the area |
| FlashLaws.EraseRetry | bl2/src/flash_map.c:347-378 | after any number of attempts, wherever each stops, the attempt that succeeds leaves what one successful erase of the original content would have left |
| FlashMapExtended.FlashAreaReadIsEmpty | bl2/ext/mcuboot/flash_map_extended.c:79-102 | answer and operation count of the emptiness check, for any request and point of failure; the caller's buffer holds the bytes of the request |
| FlashLaws.IsEmptyMeans | bl2/ext/mcuboot/flash_map_extended.c:79-102 | -1 exactly if the read is out of range or fails, otherwise 1 exactly if every byte of the request is erased, with the bytes |
| FlatFlash.FirstFaultMeans | bl2/platform/common/Driver_Flash.c:414-428 | the prefix count is the only number with no failure before it and a failure at it |
| FlatFlash.FirstFaultJoin | bl2/platform/common/Driver_Flash.c:414-428 | consecutive loops fail where the joined loop fails |
| FlatFlash.ReachedInRange | bl2/platform/common/Driver_Flash.c:414-428 | inside the controller's range only the device's failures decide how far a loop gets |
| FlashDriver.Driver.ReadDataInternal | bl2/platform/common/Driver_Flash.c:314-353 | bytes, result and progress of the word loop, for any length and failure |
| FlashDriver.Driver.ReadData | bl2/platform/common/Driver_Flash.c:355-377 | refusal, success with the item count, or failure, with the destination's content |
| FlashDriver.Driver.ProgramDataInternal | bl2/platform/common/Driver_Flash.c:403-429 | exactly the units before the first failure are programmed |
| FlashDriver.Driver.ProgramUnit | bl2/platform/common/Driver_Flash.c:416-423 | one unit of bytes goes through the packed double word to the device unchanged |
| FlashDriver.Driver.ProgramData | bl2/platform/common/Driver_Flash.c:431-455 | refusal without effect, success with the item count, or a programmed prefix |
| FlashDriver.Driver.EraseSector | bl2/platform/common/Driver_Flash.c:265-284 | one sector is erased, or nothing changes |
| FlashDriver.Driver.RangeValidMeans | bl2/platform/common/Driver_Flash.c:182-195 | the wrapping difference test accepts exactly the addresses of the device |
| FlashDriver.Driver.LastByteCheckIff | bl2/platform/common/Driver_Flash.c:364-368 | what the last-byte check leaves out, in both directions |
| FlashDriver.Driver.ProgramRefusedIff | bl2/platform/common/Driver_Flash.c:439-446 | a program is refused exactly if its last byte lies outside the device, or address or size is off the unit |
| FlashDriver.Driver.BelowBaseExample | bl2/platform/common/Driver_Flash.c:439-446 | a concrete program request that starts below its device and is accepted |
| FlashDriver.Driver.SectorInside | bl2/platform/common/Driver_Flash.c:265-275 | an accepted sector lies in the device whole |
| NvmController.Nvmc.Read | bl2/platform/common/fmc_drv.c:26-58 | a legal word read without failure returns the four stored bytes |
| NvmController.Nvmc.Program | bl2/platform/common/fmc_drv.c:60-92 | a legal unit without failure is ANDed into the content: both words (FMC) or the low word (RMC); otherwise nothing changes |
| NvmController.Nvmc.Erase | bl2/platform/common/fmc_drv.c:94-119 | a legal sector without failure becomes 0xFF; otherwise nothing changes |
| Words.PackRoundTrip | bl2/platform/common/fmc_drv.c:67-73 | bytes packed into a double word and split into the controller's words are the same bytes, whatever the stale upper half |
| Words.WordRoundTrip | bl2/platform/common/Driver_Flash.c:336-347 | a word copied out byte by byte is the bytes that were stored |
| Bits.FloorAlignRoundsDown | bl2/src/flash_map.c:22 | the mask rounds down, for every power-of-two alignment and 32-bit value |
| Bits.CeilingAlignRoundsUp | bl2/src/flash_map.c:27-28 | the mask rounds up exactly if the result fits in 32 bits, and yields 0 otherwise |
| FlashSectors.FlashAreaOpen | bl2/src/flash_map.c:68-85 | the first entry with the id modulo 256, or none |
| FlashSectors.OpenMinusOne | bl2/ext/mcuboot/flash_map_extended.c:48 | opening -1 finds what opening 255 finds |
| FlashLayouts.MinusOneOpensScratch | bl2/src/default_flash_map.c:117-124 | on every platform that is the scratch area |
| FlashSectors.FlashAreaGetSectors | bl2/ext/mcuboot/flash_map_legacy.c:38-82 | exactly when the enumeration succeeds, its count and its entries; every entry from the count on is unchanged, on success and on failure |
| FlashSectors.FillSectors | bl2/ext/mcuboot/flash_map_legacy.c:56-76 | the filling loop; its overflow check cannot fire |
| FlashSectors.EnumerationTiles | bl2/ext/mcuboot/flash_map_legacy.c:58-69 | entries are contiguous from 0, sector-sized, inside the area, and cover it exactly if the sector size divides it |
| FlashSectors.FlashAreaGetSector | bl2/ext/mcuboot/include/flash_map_backend/flash_map_backend.h:64-79 | the page-aligned sector that contains the offset, or -1 with the struct untouched |
| FlashSectors.LookupIsEntry | bl2/ext/mcuboot/include/flash_map_backend/flash_map_backend.h:73-76 | the direct lookup is entry off / S of the enumeration, and the only entry that contains the offset |
| FlashSectors.LookupInsideIff | bl2/ext/mcuboot/include/flash_map_backend/flash_map_backend.h:69-76 | the direct lookup stays inside the area for every offset exactly if the page size divides the area |
| FlashSectors.SectorWiseErase | bl2/ext/mcuboot/flash_map_legacy.c:56-69 | erasing listed sectors in any order, with repetitions, sets exactly their bytes |
| FlashSectors.SectorWiseIsAreaErase | bl2/src/flash_map.c:361-370 | erasing every listed sector in any order is the erase of the whole area |
| FlashSectors.ErasedIsEmpty | bl2/ext/mcuboot/flash_map_extended.c:79-102 | over an erased area the emptiness check answers 1 for every request in range whose read does not fail |
| SpimRuns.RunSpim | bl2/platform/common/Driver_Flash.c:515-588 | every run of driver calls leaves the content, sends the commands and gives the replies of its calls, in order; every command reaches an idle device, and the device is idle between calls |
| SpimRuns.SpimCallStep | bl2/platform/common/Driver_Flash.c:515-588 | the same for one call |
| SpimRuns.EverySpimCall | bl2/platform/common/Driver_Flash.c:515-588 | what each call of a run does, byte by byte and command by command, with its refusals |
| SpimRuns.FoldProper | bl2/platform/common/spim_drv.c:267-327 | every command of a run reaches an idle device, and every program and erase finds the latch set |
| SpimRuns.ProgramAt | bl2/platform/common/Driver_Flash.c:560-572 | where each byte of a chunked program lands, on both sides of the 2^32 wrap |
| SpimDriver.ProgramCommandsAt | bl2/platform/common/spim_drv.c:278-299 | each chunk of a program is one write-enable and one page program at its wrapped address |
| SpimNor.Nor.CheckStatus | bl2/platform/common/spim_drv.c:73-94 | the two polls used end, with the awaited bits and the busy flag clear |
| SpimNor.Nor.EnableWrite | bl2/platform/common/spim_drv.c:96-111 | the latch is set on an idle device, so the failure returns behind it cannot be reached |
| SpimNor.Nor.Program | bl2/platform/common/spim_drv.c:278-299 | one page program with its commands, its wrap inside the page, and its return code |
| SpimNor.Nor.Erase | bl2/platform/common/spim_drv.c:301-327 | one 4 KiB block erase at the address modulo 2^24, with its commands |
| SpimNor.Nor.Read | bl2/platform/common/spim_drv.c:267-276 | the content, from a device that is not busy |
| SpimNor.ThreeBytes | bl2/platform/common/spim_drv.c:318-320 | the three bytes sent are the address without its bits from 24 on |
| SpimDriver.SpimFlash.ProgramData | bl2/platform/common/Driver_Flash.c:546-575 | refusal, or the chunked program with its content, commands and return code, also for requests that wrap past 2^32 |
| SpimDriver.SpimFlash.SendChunks | bl2/platform/common/Driver_Flash.c:560-572 | the chunks partition the request in order with matching source slices |
| SpimDriver.SpimFlash.ReadData | bl2/platform/common/Driver_Flash.c:515-544 | refusal, or one command per chunk and for each byte the device content at its chunk's wrapped address; nothing else in the destination is written |
| SpimDriver.ReadPositionIs | bl2/platform/common/Driver_Flash.c:530-541 | below 2^32 that address is the address of the byte |
| SpimDriver.SpimFlash.EraseSector | bl2/platform/common/Driver_Flash.c:577-588 | refusal, or one erased block and its commands; the address one past the window is accepted |
| SpimDriver.SpimFlash.AcceptsIff | bl2/platform/common/Driver_Flash.c:555-556 | exactly which requests the wrapping range check accepts |
| SpimDriver.SpimFlash.AcceptsAsIntendedIff | bl2/platform/common/Driver_Flash.c:555-556 | exactly when its verdict is that of the unbounded comparison |
| SpimDriver.SpimFlash.WrapExample | bl2/platform/common/Driver_Flash.c:555-556 | a concrete request outside the window that is accepted |
| SpimDriver.PagedStep | bl2/platform/common/Driver_Flash.c:562-571 | one more chunk continues the chunked program |
| SpimDriver.WrappingStep | bl2/platform/common/Driver_Flash.c:560-572 | the same across an address that wraps past 2^32 |
| SpimDriver.WrappingIsPaged | bl2/platform/common/Driver_Flash.c:560-572 | a request that ends at or below 2^32 does not wrap |
| SpimDriver.PagedIsFlatIff | bl2/platform/common/Driver_Flash.c:560-572 | on a device of any size, the chunked program is the plain byte-array program, for every content and data, exactly if the request is empty, starts on a page, or stays in its page |
| SpimAreaLayer.SpimAreaRead | bl2/src/flash_map.c:97-186 | over the serial driver: refusal, or the bytes of the request at any alignment; nothing behind the request is written |
| SpimAreaLayer.SpimAreaReadIsEmpty | bl2/ext/mcuboot/flash_map_extended.c:79-102 | over the serial driver: -1 exactly if out of range, otherwise 1 exactly if every byte of the request is erased; the caller's buffer holds the bytes |
| SpimAreaLayer.SpimAreaWrite | bl2/src/flash_map.c:191-345 | over the serial driver: content and result of a write at any offset and length; the device ends idle and every command was proper |
| SpimAreaLayer.SpimWriteHead | bl2/src/flash_map.c:258-288 | its head unit |
| SpimAreaLayer.SpimWriteMiddle | bl2/src/flash_map.c:297-311 | its middle run, sent from index 0 and in chunks that may wrap |
| SpimAreaLayer.SpimWriteTail | bl2/src/flash_map.c:311-341 | its tail unit |
| SpimAreaLaws.SpimWriteSucceedsIff | bl2/src/flash_map.c:231-344 | it returns 0 exactly if it is in range and the device has no other status bit set, or there is nothing to send |
| SpimAreaLaws.SerialContent | bl2/src/flash_map.c:258-344 | if its middle run stays in its page, it leaves what the on-chip write leaves |
| SpimAreaLaws.SerialPrefix | bl2/platform/common/spim_drv.c:293-298 | the same up to the end of the first chunk of its first call, if another status bit makes it fail there |
| SpimAreaLaws.SpimWriteContent | bl2/src/flash_map.c:258-344 | the content after every write in range on a clean device, byte by byte, whether or not its middle run leaves its page |
| SpimAreaLaws.UncleanContent | bl2/platform/common/spim_drv.c:293-298 | the content and reply of every write in range on a device with another status bit set, byte by byte |
| SpimAreaLaws.SpimWriteIsByteWriteIff | bl2/platform/common/Driver_Flash.c:560-572 | exactly which offsets and lengths make it the plain byte-array write, for every source and content: the misplaced middle run and the page wrap never cancel out |
| SpimAreaLaws.SpimWriteStaysInsideIff | bl2/platform/common/Driver_Flash.c:560-572 | exactly which offsets and lengths make it change only bytes of its own request |
| SpimAreaLaws.WrapBeforeRequest | bl2/platform/common/Driver_Flash.c:560-572 | a concrete write that returns 0 and overwrites the 128 bytes before its request |
| SpimAreaLayer.SpimAreaErase | bl2/src/flash_map.c:361-370 | an area erase on the serial flash is one block erase every 256 bytes; it terminates and leaves the device idle |
| SpimAreaLaws.ErasedIsUnionOfBlocks | bl2/platform/common/nvspim_drv.h:15 | it erases exactly the 4 KiB blocks that one of its steps hits |
| SpimAreaLaws.EraseMeans | bl2/src/flash_map.c:363-370 | an erase of any length clears exactly the bytes whose block one of its commands hits, one command every 256 bytes until the length is covered |
| SpimAreaLaws.EraseRange | bl2/src/flash_map.c:363-370 | below 16 MiB that is one range, from the block of its first byte to the block of its last command |
| SpimAreaLaws.StepsEraseRange | bl2/platform/common/nvspim_drv.h:15 | below 16 MiB those blocks are one range, from the first step's block to the last step's |
| SpimAreaLaws.SpimEraseIsByteEraseIff | bl2/platform/common/nvspim_drv.h:15 | on a device of any number of blocks, it erases exactly the requested bytes, over every content, if and only if it is empty, or 4 KiB aligned at both ends and within 16 MiB |
| SpimAreaLaws.EraseAroundRequest | bl2/platform/common/nvspim_drv.h:15 | a concrete 256-byte erase that clears its whole 4 KiB block and nothing else |
| SpimAreaLaws.SpimEraseStaysInsideIff | bl2/platform/common/nvspim_drv.h:14-15 | the erases in an area change no byte outside it exactly if it is whole 4 KiB blocks within 16 MiB, or contains all of the first 16 MiB |
| SpimAreaLaws.EraseHitsItsBlockIff | bl2/platform/common/spim_drv.c:316-320 | an erase command reaches the block of its address exactly below 16 MiB |
| MixedRuns.RunMixed | bl2/src/flash_map.c:97-378 | every finite run of area calls on a map with on-chip and serial areas gives the replies and the content of the flat specification of both devices, and follows the serial protocol |
| MixedRuns.SpimStep | bl2/src/flash_map.c:97-378 | the same for one call on a serial area |
| CallLaws.SerialStepMeans | bl2/src/flash_map.c:97-378 | what any one call on a serial area does, byte by byte |
| CallLaws.MixedFollows | bl2/src/flash_map.c:97-378 | every call of a mixed run does what it would do alone on its device, and nothing on the other |
| CallLaws.MixedIsOnlyOne | bl2/src/flash_map.c:97-378 | states and replies whose calls all do this are those of the mixed run |
| MixedLaws.MixedRunSplits | bl2/src/default_flash_map.c:86-126 | a mixed run is the on-chip run of its on-chip calls and the serial run of its serial calls, in content and replies |
| MixedLaws.ChipIsolation | bl2/src/default_flash_map.c:86-126 | in a mixed run an on-chip area that no on-chip call changes, and the bootloader, keep every byte |
| MixedLaws.SerialIsolation | bl2/platform/common/nvspim_drv.h:14-16 | in a mixed run the serial flash outside the changed areas keeps every byte, if erased areas are whole blocks and middle runs stay in their pages |
| MixedLaws.SerialRunKeepsOutside | bl2/platform/common/nvspim_drv.h:14-16 | the same for runs on the serial flash alone, whether or not its programs fail |
| MixedLaws.SerialRunIsByteRun | bl2/src/flash_map.c:92-96 | every run of plain calls on a clean serial flash, in or out of range, is the run on a plain byte array |
| MixedLaws.SerialStepIsByteStep | bl2/src/flash_map.c:92-96 | the same for one call |
| FlashLayouts.M460ChipIsolation | bl2/platform/m460/partition/flash_layout.h:23-47 | M460 with its secondary slot in serial flash: on-chip isolation over mixed runs |
| FlashLayouts.M460SlotIsolation | bl2/platform/m460/partition/flash_layout.h:35-42 | and the serial flash behind the slot keeps every byte, whatever is erased, if middle runs stay in their pages |

## Left out

- NvmController.Nvmc.Read: which of the timeout, fail-flag and parameter codes a failing operation returns; the driver maps all of them to one error.
- NvmController.Nvmc.Program: a timed-out or interrupted operation that has changed part of a unit.
- RunLaws.UpdateRoundTrip: runs in which an operation fails; those are covered by the laws of the single calls and by RunStack.
- FlashSectors.LookupIsEntry: areas that the sector size does not divide; LookupInsideIff says what goes wrong there.
- FlashAreaLayer.FlashAreaWrite: a caller's source buffer that overlaps a buffer of the call; a constant source buffer is a sequence.
- FlashAreaLayer.FlashAreaRead: the values that a failing read leaves in the first `len` bytes of the destination.
- SpimDriver.SpimFlash.ReadData: the values returned for addresses that the device does not have.
- SpimAreaLayer.SpimAreaErase: areas longer than 2^32 - 256 bytes, where the loop's counter would wrap.
- Maps over two on-chip controllers or two serial devices.
- Register sequences, polling counters, clock and pin setup, device initialisation and ID, and 4-byte address mode.
- Data cache maintenance and logging, which do not change content or results.
- The SPI and QSPI serial drivers: their program routines loop without an exit.
- Erase with an inhomogeneous sector layout: declared unsupported, it does nothing.
- The null area pointer, EraseChip, GetStatus, PowerControl and the other getters.
- Image and slot id mapping, and layouts with two images.
- The image verification and swap logic, the hand-over to the application, keys and cryptography.
