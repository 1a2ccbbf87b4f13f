# Verified model of the laboratory power supply firmware

A Dafny model of the logic that lies between the hardware drivers of the firmware, and proofs about it.
`dafny verify dfyconfig.toml` checks the whole project.

| part | files | what is proved |
|---|---|---|
| firmware update | `Word32`, `Crc32`, `Crc32Onto`, `Flash`, `Boot`, `BootSafety`, `BootProgress`, `BootMain`, `BootLimits`, `BootExact`, `Download` | the word-wide CRC unit computes plain CRC-32; exactly within which image sizes no power cut and no download leaves the device without a valid image; a start reaches the application exactly when the headers are readable; what has been upgraded stays |
| CRC-16 | `Crc16Tables`, `Crc16` | both table forms are one bit-serial register; bursts up to 16 bits and odd numbers of flips are seen |
| Modbus RTU | `ModbusFrame`, `ModbusBits`, `ModbusServer`, `ModbusClient`, `ModbusAnswer`, `ModbusRemote`, `ModbusDevice`, `ModbusMaster` | every client call over a perfect link is the same access made to the server's tables; which answers a client accepts, and why it refuses the others |
| parameter store | `Parameters`, `PrmSystem`, `Eeprom`, `Settings`, `Registers` | saving and loading restores every value; the register block reads back what was written |
| rasterisers | `Display`, `Line`, `Circle`, `Triangle`, `TriangleShape` | each paints exactly a set of pixels that is described without its loop |
| calendar, log, keys | `Calendar`, `LogRing`, `Keys` | closed form against loops, order of the log under DMA, firing ticks of keys |
| shared | `Bytes`, `MessageBytes`, `Division` | bytes and words, messages as bits, facts about quotients |

## How the firmware is modelled

- Bytes and 16-bit words are bounded integers; 16- and 32-bit wrap-around is written out (`I16`, `I32`, `U16`, `U32`, remainders)
  wherever the code can reach it. Bit operations are done on bit vectors of the width the code uses, except in the packing of
  coils, where an OR of parts without a common bit is a sum, in the RTC registers, where OR and shift are defined on natural
  numbers, and in the keyboard, where a mask is
  the set of the numbers of its bits.
- Flash is 1 MiB of bytes in the twelve sectors of the part, with the memory map of `systems/memory.ld`. An erase sets a sector to
  0xFF, programming a byte ANDs it in, and a power cut leaves anything in the sector being erased or the byte being programmed.
  Reading outside the flash is a bus fault that stops the device.
- The bootloader is a machine whose steps are the single flash operations; `BootMain.Bootloader` is the code itself and ends where the
  machine ends. Downloads by the running application may change the storage in any way. `BootSafety.Limits` says how large images
  that pass the check may be at first power-up, in the garbage of a power cut, and after a download; `BootExact.SafeExactlyWhen`
  says for which limits the device is safe.
- A Modbus request on a perfect link reaches the server as one message and its answer reaches the client as one message.
  A table access that C would make outside the array is the outcome `MemoryError`.
- `hide` statements only keep definitions out of a proof's sight that it does not need.
- The EEPROM is a 24AA08: control byte and word address name a byte of 1024, and a page write wraps inside 16 bytes.
  Which bus transfers fail is any function of their number; after a failed write nothing is known of the page. A save or load
  succeeds exactly when none of its transfers fails.
- Colours are values the frame buffer maps points to. Points are named by the coordinates before the driver's conversion to
  16 bits unsigned; clipping is the driver's.

## What the code does that its users may not expect

Each is proved by the members named.

- A buffer of fewer than four bytes after a reset never gets its CRC-32 (`Crc32.ShortBufferAlwaysWrong`), so an image of 8 to 11
  bytes is checked against something else (`BootLimits.ImageCrcIsCrc32ExactlyWhen`, `BootProgress.TinyImageNeverUpgrades`).
- Neither image size is compared with the region: one byte too many costs both images (`BootLimits.OneByteTooLongBricks`). Such a
  size can be the garbage of a power cut during the erase of storage, with main verified just before
  (`BootExact.GarbageCanLoseTheDevice`), and in main, once an application downloads (`BootExact.MainCutLimit`). The device is safe if
  and only if no image that passes exceeds the region in these places (`BootExact.SafeExactlyWhen`).
- A size that leads outside the flash stops the device, which a power cut during an erase can bring about
  (`BootProgress.AbsurdSizeFaults`, `BootProgress.CutCanStopTheDevice`).
- The server checks the read address of function 0x17 twice and the write address never
  (`ModbusRemote.WriteAndReadIsDirectExactlyWhen`).
- An exception to a request whose function code is 0x80 or above can look like a longer answer, and is then dropped
  (`ModbusServer.ResponseReadsExactlyWhen`).
- The doubled error of `line` and the tested error of `circle` leave 16 bits for long lines and large circles
  (`Line.LineFollowsExactlyWhen`, `Line.LongLevelLineStrays`, `Circle.CircleFollowsExactlyWhen`, `Circle.LargeCircleStrays`).
- A refused register block has changed parameters unless all before the refused one already had their values
  (`Registers.RefusedBlockMayChange`, `Registers.WriteChangesNothingExactlyWhen`).
- `rtc_setTime` lets a thirteenth month through, which still counts as the next January, and negative fields, which are not read
  back (`Calendar.ReadsBackExactlyWhen`, `Calendar.ConversionsAgreeExactlyWhen`).
- The last cell of the log buffer never holds data; a write that fills the other 4095 loses the ring or hangs
  (`LogRing.OverfullWrite`).

## Model

| member | source | states |
|---|---|---|
| `Word32.ReverseOfBit` | hal/include/hal/crc32.h:70-70 | the reversal takes bit 31 - i to bit i for every i |
| `Word32.XorReverses` | hal/include/hal/crc32.h:70-70 | and is linear, so that the bits decide it on every word |
| `Crc32.ClocksDual` | hal/include/hal/crc32.h:54-57 | 32 clocks of the most-significant-first unit on a bit-reversed word are 32 clocks of the reflected register, for every word and every number of clocks |
| `Crc32.UnitTakesWord` | hal/include/hal/crc32.h:68-72 | feeding the unit one bit-reversed word advances the reflected CRC-32 register by the word's 32 bits, lowest first |
| `Crc32.TailTrick` | hal/include/hal/crc32.h:77-94 | the tail expression for 1 to 3 bytes (for any number of bits) equals the bit-serial register after just those bits, from any register value |
| `Crc32.CrcUnit.CalcCRC` | hal/include/hal/crc32.h:54-57 | writing the data register clocks 32 times and reads back the result |
| `Crc32.CrcUnit.Posix` | hal/include/hal/crc32.h:63-96 | the loop and the tail return the complement of the bit-serial register over the buffer, started from what the call starts from; after whole words the unit holds the register for the next call |
| `Crc32.PosixIsCrcExactlyWhen` | hal/include/hal/crc32.h:66-76 | from a given register the result is CRC-32 continued over the buffer if and only if the buffer has at least four bytes or the register is the one value the constant of the short path leaves in place |
| `Crc32.ShortBufferAlwaysWrong` | hal/include/hal/crc32.h:73-76 | after a reset, a buffer of fewer than four bytes never gets its CRC-32: the short path feeds a constant word first |
| `BootLimits.ImageCrcIsCrc32ExactlyWhen` | boot.cpp:88-93 | for every image size of at least 8, whole words or not, the two chained calls return CRC-32 of eight zero bytes followed by the image from byte 8 if and only if the size is at least 12 |
| `BootLimits.CheckAcceptsExactlyLinked` | boot.cpp:80-94 | an image is accepted exactly when magic number, size and the CRC-32 field that the build writes agree |
| `BootLimits.CheckOnBytes` | boot.cpp:80-94 | the same told on bytes: the magic number is 0x38272585 and the first word is the CRC-32 of the image with its first eight bytes zero |
| `BootLimits.CheckBySize` | boot.cpp:80-92 | with the right magic number, size 0 fails and any other size below 8 or leading outside the flash faults |
| `BootLimits.LastByteMatters` | boot.cpp:93-93 | two images that differ only in their last byte never have the same CRC register |
| `Flash.SectorContains` | hal/src/flash.c:68-86 | the address arithmetic yields sector n if and only if the address lies in sector n of the part's layout (16, 64 and 128 KiB sectors) |
| `Flash.StrideMeetsEachSectorOnce` | boot.cpp:54-56 | from 0x08010000 up, the fixed 128 KiB stride names each sector of the region once, in order, and no other, although sector 4 has 64 KiB |
| `Flash.StrideErasesRegionExactlyWhen` | boot.cpp:61-63 | from a sector boundary to a 128 KiB boundary the stride erases exactly the region if and only if the region is empty or starts at 0x08010000 or above |
| `Flash.StrideSkipsSmallSectors` | hal/src/flash.c:68-86 | below that address the stride leaves part of the region as it was |
| `Flash.ErasePage` | hal/src/flash.c:68-92 | sets the whole sector of the address to 0xFF and changes nothing else |
| `Flash.FlashWrite` | hal/src/flash.c:94-112 | programs byte after byte from source to destination, where programming can only clear bits, also when the two overlap |
| `Boot.CheckProgram` | boot.cpp:80-94 | decides as the check over the flash contents does, including the fault of a size that leads outside the flash |
| `BootMain.Choose` | boot.cpp:36-49 | an upgrade is chosen exactly when storage is valid and main is not, or one of the twelve version bytes or four CRC bytes of the headers differs |
| `BootMain.EraseMainRegion` | boot.cpp:54-56 | leaves the machine where the single erase steps lead, with the storage still verifying |
| `BootMain.EraseStorageRegion` | boot.cpp:61-63 | leaves the machine where the single erase steps lead |
| `BootMain.Bootloader` | boot.cpp:25-75 | the whole program ends in exactly the state its single-step machine ends in, for every flash content |
| `BootSafety.NextKeeps` | boot.cpp:36-73 | every single erase or byte-programming step keeps the invariant from which safety follows, whatever main holds |
| `BootSafety.CutKeeps` | boot.cpp:51-67 | a power cut in any step keeps it too, whatever it leaves in the sector being erased up to the limits, or in the byte being programmed; without downloads nothing is asked of garbage in main |
| `BootSafety.MirroredCheck` | boot.cpp:58-58 | a byte-for-byte copy of an image passes the check exactly as its original does |
| `BootSafety.CrashSafety` | boot.cpp:36-73 | within the limits, over every run of steps, power cuts and downloads: one of the two images stays valid, only a verified main image is executed, main is touched only while storage verifies and storage only while main verifies |
| `BootSafety.ChangesAreCovered` | boot.cpp:51-67 | a transition changes main only while storage verifies, storage only while main does, and nothing outside, whatever the limits |
| `BootProgress.BootOutcome` | boot.cpp:36-73 | what one uninterrupted start leaves of every flash content: an upgraded main with erased storage, or the flash as it was |
| `BootProgress.UpgradesExactlyWhen` | boot.cpp:36-73 | with a valid storage image that fits, a start leaves the upgraded flash if and only if main is not valid or the headers differ in a byte of version or CRC; otherwise it leaves the flash as it was and executes main |
| `Boot.HeadersDifferInBytes` | boot.cpp:40-43 | the four comparisons of the headers are one of bytes 12 to 23 and 0 to 3 |
| `BootProgress.BootsExactlyWhen` | boot.cpp:69-73 | a start from a flash with one good image, where an image due for copying fits, ends in the application if and only if no header leads the check outside the flash and a due image has at least 12 bytes |
| `BootProgress.UpgradeIsFixpoint` | boot.cpp:36-49 | once main equals a still present storage image, starting again changes no byte and executes it |
| `BootProgress.UpgradedIsFixpoint` | boot.cpp:51-73 | the flash after an upgrade is a fixpoint of starting |
| `BootProgress.SecondBootChangesNothing` | boot.cpp:25-75 | so is every flash that one completed start leaves |
| `BootProgress.EveryRestartBootsExactlyWhen` | boot.cpp:36-73 | after any run cut off anywhere, with any garbage left in the sector unless it makes an image due that exceeds the region, the next uninterrupted start ends in the application exactly under those conditions |
| `BootProgress.AbsurdSizeFaults` | boot.cpp:88-92 | a right magic number with an absurd size stops the device before anything is decided |
| `BootProgress.CutCanStopTheDevice` | boot.cpp:54-56 | and a power cut can leave such a header |
| `BootProgress.TinyImageNeverUpgrades` | boot.cpp:58-60 | a storage image of 8 to 11 bytes passes, is copied, but never verifies in place of main once storage differs |
| `BootLimits.OneByteTooLongBricks` | boot.cpp:36-67 | a due image one byte longer than the main region is copied and erased with the storage, and leaves no valid image, also when main was good before |
| `BootLimits.OneByteTooLongExists` | boot.cpp:58-63 | such an image exists |
| `BootExact.GarbageCanLoseTheDevice` | boot.cpp:61-63 | in the first step of the storage erase, with main just verified, some garbage that a power cut can leave in the sector makes the next start lose both images |
| `BootExact.StorageFirstLimit` | boot.cpp:36-67 | with a first storage image beyond the region some run loses both images |
| `BootExact.StorageCutLimit` | boot.cpp:61-63 | so it does with garbage in storage that passes and exceeds the region |
| `BootExact.DownloadLimit` | portfreemodbus/src/porttcp.cpp:135-161 | and with a download of an image beyond the region |
| `BootExact.MainCutLimit` | boot.cpp:36-73 | garbage in main can pass, have the version and CRC of the storage image and reach into the storage; then the first download of an application loses both images |
| `BootExact.MainFirstLimit` | boot.cpp:36-49 | so it does with a first main image that reaches into the storage |
| `BootExact.SafeExactlyWhen` | boot.cpp:36-73 | no reachable state of the device is without a good image if and only if storage images that pass, first or left by a cut, fit the region and, where an application downloads, so do main images and downloads |
| `BootExact.OneLimitExactlyWhen` | boot.cpp:36-73 | with one limit for all sizes the device is safe if and only if the limit is at most the region |
| `BootExact.AloneSafeExactlyWhen` | boot.cpp:36-73 | without downloads garbage in main is harmless whatever it is: only the storage images have to fit |
| `Crc32Onto.MissingWordReaches` | hal/include/hal/crc32.h:63-96 | four bytes anywhere in a message bring the CRC-32 register to any value: a valid CRC says nothing about a size |
| `Download.FileRecord` | portfreemodbus/src/porttcp.cpp:135-161 | a record is taken exactly for file 1 below the storage size, its words are programmed at 128 times its number, and never a byte outside the storage |
| `Download.EraseUsedPages` | portfreemodbus/src/porttcp.cpp:166-180 | erasing only the pages that are not blank leaves the whole storage erased and everything else unchanged |
| `Download.DownloadStoresImage` | portfreemodbus/src/porttcp.cpp:149-180 | after that erase, the records of an image of any size that fits, sent in any order and any number of times, leave it in the storage byte for byte; an odd image goes with a padding byte of any value |
| `Download.DownloadedImageBoots` | boot.cpp:36-73 | a downloaded image that is valid in the storage is what the next start executes from main, byte for byte, if its version or CRC bytes differ from those of main; otherwise nothing changes |
| `Crc16.ModBusTableFeedsBack` | utils/src/crc.c:87-125 | each entry of the 16-bit table is the feedback that eight clocks produce for its index |
| `Crc16.TableLoFeedsBack` | libmodbus/src/modbus-rtu.c:47-74 | each entry of the low table is one byte of that feedback |
| `Crc16.TableHiFeedsBack` | libmodbus/src/modbus-rtu.c:17-44 | each entry of the high table is the other |
| `Crc16.CrcFromIsSerial` | utils/src/crc.c:21-35 | the table-driven CRC from any start value is the bit-serial register fed with the message, least significant bit first |
| `Crc16.Crc16Calc` | utils/src/crc.c:21-35 | returns the bit-serial register of polynomial 0x8005, reflected, started at 0xFFFF |
| `Crc16.Crc16CalcWithInit` | utils/src/crc.c:45-59 | continues from a given start value |
| `Crc16.CalcContinues` | utils/src/crc.c:45-59 | a CRC continued over a second block is the CRC of both blocks together |
| `Crc16.Crc16Split` | libmodbus/src/modbus-rtu.c:118-132 | the two-table form returns the two bytes of the same register in exchanged order |
| `Crc16.SealedExactlyWhenZero` | utils/src/crc.c:21-35 | a message ends in its own CRC, low byte first, if and only if the CRC over all of it is zero |
| `Crc16.WindowInjective` | utils/src/crc.c:27-32 | two different inputs of up to sixteen bits never lead one register to the same value |
| `Crc16.AdjacentDamageDetected` | libmodbus/src/modbus-rtu.c:217-252 | a change of one byte or of two neighbours, in data or CRC or across, is always seen |
| `Crc16.BurstDamageDetected` | libmodbus/src/modbus-rtu.c:217-252 | so is any burst of up to sixteen bits |
| `Crc16.OddDamageDetected` | libmodbus/src/modbus-rtu.c:217-252 | so is any odd number of flipped bits |
| `ModbusFrame.SendMsgPre` | libmodbus/src/modbus-rtu.c:142-149 | appends the CRC and leaves the rest of the buffer |
| `ModbusFrame.CheckIntegrityOf` | libmodbus/src/modbus-rtu.c:217-252 | foreign slaves are ignored, and a message is valid exactly when it ends in its CRC |
| `ModbusFrame.ReceiveMsg` | libmodbus/src/modbus.c:339-379 | a message is refused unless its length is the one its own bytes announce, whatever stale bytes the buffer holds; otherwise it is as valid as its CRC |
| `ModbusFrame.StaleBytesDoNotMatter` | libmodbus/src/modbus.c:292-323 | bytes of an earlier message never change whether a length is accepted |
| `ModbusFrame.DamagedFrameNeverValid` | libmodbus/src/modbus-rtu.c:217-252 | a damaged copy of a valid frame is never accepted |
| `ModbusBits.UnpackOfPack` | libmodbus/src/modbus.c:541-565 | unpacking packed bits returns them, for any number of bits |
| `ModbusBits.BitsOnWire` | libmodbus/src/modbus.c:1213-1230 | coil 8k + j travels as bit j of byte k, and the last byte is filled up with zeros |
| `ModbusBits.ResponseIoStatus` | libmodbus/src/modbus.c:541-565 | appends the packed cells to the response, given cells that are 0 or 1 |
| `ModbusBits.SetBitsFromBytes` | libmodbus/src/modbus-data.c:46-60 | stores the unpacked bits in the addressed cells and touches no other |
| `ModbusBits.SetBitsFromByte` | libmodbus/src/modbus-data.c:35-42 | the same for all eight bits of a byte |
| `ModbusBits.GetByteFromBits` | libmodbus/src/modbus-data.c:64-80 | packs up to eight cells, cutting a larger request to eight |
| `ModbusBits.AppendBits` | libmodbus/src/modbus.c:1213-1229 | the request carries the packed truth values of the source cells |
| `ModbusBits.UnpackStatus` | libmodbus/src/modbus.c:963-974 | the answer's bits land in the destination, one cell each, and only the requested number |
| `ModbusServer.WordsRoundTrip` | libmodbus/src/modbus.c:686-691 | registers written high byte first read back unchanged |
| `ModbusServer.WordsOnWire` | libmodbus/src/modbus.c:1269-1274 | a register travels as its high byte, then its low byte |
| `ModbusServer.ReplyKeeps` | libmodbus/src/modbus.c:604-901 | every request keeps table sizes and 0/1 cells, and no request changes an input table |
| `ModbusServer.ResponseShaped` | libmodbus/src/modbus.c:604-901 | every response is an exception, a counted answer or an echo, addressed as the request was |
| `ModbusServer.ResponseReadsExactlyWhen` | libmodbus/src/modbus.c:247-323 | the length the client computes from a response is its real length if and only if the request's function code was below 0x80 or its exception cannot be mistaken for a longer answer |
| `ModbusDevice.Mapping.constructor` | libmodbus/src/modbus.c:1645-1725 | tables of the given sizes, all zero, that share no storage |
| `ModbusDevice.AppendWords` | libmodbus/src/modbus.c:686-691 | appends registers high byte first and leaves the rest of the buffer |
| `ModbusDevice.StoreWords` | libmodbus/src/modbus.c:787-792 | stores the registers of a message in the addressed cells and in no other |
| `ModbusDevice.DoReadBits` | libmodbus/src/modbus.c:630-659 | response buffer and tables end as the reply function says, on every path |
| `ModbusDevice.DoReadRegisters` | libmodbus/src/modbus.c:661-694 | the same for reading registers |
| `ModbusDevice.DoWriteBit` | libmodbus/src/modbus.c:695-719 | the same for a single coil; only 0xFF00 and 0 are accepted |
| `ModbusDevice.DoWriteRegister` | libmodbus/src/modbus.c:720-737 | the same for a single register |
| `ModbusDevice.DoWriteBits` | libmodbus/src/modbus.c:738-769 | the same for several coils |
| `ModbusDevice.DoWriteRegisters` | libmodbus/src/modbus.c:770-800 | the same for several registers |
| `ModbusDevice.DoMaskWrite` | libmodbus/src/modbus.c:825-844 | the same for a mask write |
| `ModbusDevice.DoWriteAndRead` | libmodbus/src/modbus.c:845-889 | the same for write-and-read, where the write comes first |
| `ModbusDevice.ModbusReply` | libmodbus/src/modbus.c:604-901 | every request changes the tables as the reply function says and hands the sealed response to the line, or nothing for a broadcast |
| `ModbusRemote.ExceptionArrives` | libmodbus/src/modbus.c:429-449 | exception e of the server is error number 0x100 + e at the client |
| `ModbusRemote.Delivered` | libmodbus/src/modbus.c:339-379 | over a perfect link a request whose length reads right is answered, and the answer passes length and CRC checks |
| `ModbusRemote.ReadRegistersIsDirect` | libmodbus/src/modbus.c:1037-1078 | reading registers remotely is reading them in the table, for every mapping, address and number, errors included |
| `ModbusRemote.ReadBitsIsDirect` | libmodbus/src/modbus.c:938-1035 | the same for coils and discrete inputs |
| `ModbusRemote.WriteBitIsDirect` | libmodbus/src/modbus.c:1133-1169 | the same for writing a coil |
| `ModbusRemote.WriteRegisterIsDirect` | libmodbus/src/modbus.c:1133-1180 | the same for writing a register |
| `ModbusRemote.WriteBitsIsDirect` | libmodbus/src/modbus.c:1183-1240 | the same for writing coils |
| `ModbusRemote.WriteRegistersIsDirect` | libmodbus/src/modbus.c:1243-1286 | the same for writing registers |
| `ModbusRemote.MaskWriteIsDirect` | libmodbus/src/modbus.c:1288-1320 | the same for a mask write |
| `ModbusRemote.WriteAndReadIsDirectExactlyWhen` | libmodbus/src/modbus.c:845-889 | write-and-read is the direct access if and only if no accepted request writes below the mapping: the code checks the read address twice and the write address never |
| `ModbusRemote.WrittenRegistersReadBack` | libmodbus/src/modbus.c:1243-1286 | registers that were written are read back, and all others keep their values |
| `ModbusRemote.WrittenBitsReadBack` | libmodbus/src/modbus.c:1183-1240 | the same for coils, for any number of them: a cell that is not 0 reads as 1, so cells of 0 and 1 read as they were written |
| `ModbusRemote.BroadcastObeyedInSilence` | libmodbus/src/modbus.c:898-900 | a broadcast is obeyed and never answered |
| `ModbusRemote.ForeignRequestIsIgnored` | libmodbus/src/modbus-rtu.c:217-252 | a request for another slave changes no table and is not answered |
| `ModbusRemote.RequestLengths` | libmodbus/src/modbus.c:247-325 | a request is read exactly if its length is the one its function code and byte count tell, in literal numbers |
| `ModbusRemote.UnknownFunctionIsRefused` | libmodbus/src/modbus.c:891-895 | a function the server does not know is answered by exception 1 and changes nothing |
| `ModbusRemote.DamagedRequestIsIgnored` | libmodbus/src/modbus-rtu.c:217-252 | a request damaged on the way, in neighbouring bytes, an odd number of bits or a burst of sixteen, is not obeyed |
| `ModbusRemote.DamagedAnswerIsRefused` | libmodbus/src/modbus-rtu.c:217-252 | a damaged answer, whatever it was and whatever was asked, never makes a call succeed |
| `ModbusAnswer.AcceptedExactlyWhen` | libmodbus/src/modbus.c:410-541 | a call succeeds with k if and only if the answer ends in its CRC, comes from the slave asked, repeats the function of the request, and has the length and count the request calls for; k is that count |
| `ModbusAnswer.RefusedBecause` | libmodbus/src/modbus.c:410-541 | every other answer is refused, and in which order the reasons apply: length, slave, CRC, function and count, exception number |
| `ModbusRemote.MaskedSelects` | libmodbus/src/modbus.c:834-840 | a mask write keeps the bits the AND mask selects and takes the others from the OR mask, bit by bit |
| `ModbusMaster.Device.Serve` | libmodbus/src/modbus-rtu.c:157-178 | receiving, checking and answering a frame leaves tables and answer as the exchange function says |
| `ModbusMaster.Client.Query` | libmodbus/src/modbus.c:1052-1064 | send, receive and check: return code, error number and answer buffer as the confirmation function says |
| `ModbusMaster.Client.ReadRegisters` | libmodbus/src/modbus.c:1037-1078 | the destination holds exactly the remote registers, or the error number says why not and nothing was stored |
| `ModbusMaster.Client.ReadBits` | libmodbus/src/modbus.c:938-1035 | the same for coils and discrete inputs |
| `ModbusMaster.Client.WriteBit` | libmodbus/src/modbus.c:1133-1169 | the remote table changes in that one cell, or the error number says why not |
| `ModbusMaster.Client.WriteRegister` | libmodbus/src/modbus.c:1133-1180 | the same for a register |
| `ModbusMaster.Client.WriteBits` | libmodbus/src/modbus.c:1183-1240 | the same for several coils, built byte by byte in the request |
| `ModbusMaster.Client.WriteRegisters` | libmodbus/src/modbus.c:1243-1286 | the same for several registers |
| `ModbusMaster.Client.MaskWriteRegister` | libmodbus/src/modbus.c:1288-1320 | the same for a mask write |
| `ModbusMaster.Client.WriteAndReadRegisters` | libmodbus/src/modbus.c:1324-1397 | the remote registers change first, and the destination holds the values after the write |
| `Display.Disp.FastHLine` | window/src/display.cpp:269-273 | paints exactly the points of the span |
| `Display.Disp.FastVLine` | window/src/display.cpp:261-265 | paints exactly the points of the span |
| `Line.StepsWindow` | window/src/display.cpp:277-301 | each point of the rounded line is within half a pixel of the ideal line |
| `Line.PointInside` | window/src/display.cpp:277-301 | and inside the bounding box, and only the last one is the end point |
| `Line.TurnIdeal` | window/src/display.cpp:290-299 | one turn of the loop in 16-bit arithmetic moves to the next rounded point where the doubled error fits |
| `Line.LineFollowsExactlyWhen` | window/src/display.cpp:284-300 | the loop stays within half a pixel if and only if the doubled error fits 16 bits all the way; then it is the rounded line point by point |
| `Line.ShortLinesFit` | window/src/display.cpp:290-290 | a bound on the two differences under which the doubled error fits |
| `Line.LongLevelLineStrays` | window/src/display.cpp:290-290 | a level line of 16384 steps does not fit |
| `Line.DrawLine` | window/src/display.cpp:277-301 | ends after exactly max(dx, dy) turns, with exactly the points of the rounded line painted |
| `Circle.ArcIsNear` | window/src/display.cpp:305-330 | every pixel of the first octant satisfies x² + y² - r² is between -x and x |
| `Circle.ArcUnique` | window/src/display.cpp:321-328 | there is one such pixel on a line at most, and further lines never move outwards |
| `Circle.TurnIdeal` | window/src/display.cpp:321-328 | one turn of the loop in 16-bit arithmetic moves to that pixel of the next line, if the octant reaches that far |
| `Circle.CircleFollowsExactlyWhen` | window/src/display.cpp:311-329 | for every radius from 1 to 32767 the loop stays on the arc if and only if the value it tests fits 16 bits on every line but the last |
| `Circle.SmallCirclesFit` | window/src/display.cpp:306-328 | it does for every radius up to 16384 |
| `Circle.LargeCircleStrays` | window/src/display.cpp:321-328 | it does not for radius 32767, where a pixel off the arc is drawn |
| `Circle.DrawCircle` | window/src/display.cpp:305-330 | paints exactly the pixels whose two distances from the centre, in either order and with any signs, lie on the arc |
| `Triangle.EdgeIsNear` | window/src/display.cpp:496-503 | a crossing is less than a pixel off the edge |
| `Triangle.AreaInBox` | window/src/display.cpp:450-526 | nothing is painted outside the bounding box |
| `Triangle.CornersPainted` | window/src/display.cpp:450-526 | all three corners are painted |
| `Triangle.AnyOrder` | window/src/display.cpp:453-465 | the painted area does not depend on the order of the corners |
| `Triangle.FillUpper` | window/src/display.cpp:495-507 | the running sums give the crossings written out, without overflow or zero divisor |
| `Triangle.FillLower` | window/src/display.cpp:511-525 | the same for the lower part |
| `Triangle.FillTriangle` | window/src/display.cpp:450-526 | paints exactly the area between the crossings, every scanline from the lowest to the highest once, for any order and degeneracy of the corners |
| `TriangleShape.TriangleIsPainted` | window/src/display.cpp:450-526 | every integer point of the closed triangle, by the signs of its three edge products, is painted, for corners in any order and place |
| `TriangleShape.PaintedIsTriangle` | window/src/display.cpp:450-526 | every painted point is, along its scanline, less than a pixel away from a point of the closed triangle |
| `TriangleShape.ProperNeedsNoBox` | window/src/display.cpp:450-526 | for corners not on one line the signs of the three edge products alone describe the closed triangle |
| `Parameters.DecodeOfEncode` | prmsystem/include/prmSystem.h:163-180 | every value of every integer type comes back from its bytes |
| `Parameters.ValueInMemory` | prmsystem/include/prmSystem.h:163-180 | the bytes of a value are its digits to the base 256, lowest first, modulo its width |
| `Parameters.LoadOfImage` | prmsystem/src/prmSystem.cpp:59-87 | loading the image of a class restores every saved value from its minimum to its maximum, both included, and leaves all other parameters alone |
| `Parameters.ImageShows` | prmsystem/src/prmSystem.cpp:59-72 | an image begins with the bytes 0x05 and 0x28, holds each value of its class behind those before it, and ends in its CRC |
| `Parameters.DamagedImageLoadsNothing` | prmsystem/src/prmSystem.cpp:74-78 | a damaged image loads nothing and changes nothing |
| `PrmSystem.Store.GetSerialSize` | prmsystem/src/prmSystem.cpp:49-57 | the length of the image |
| `PrmSystem.Store.Serialize` | prmsystem/src/prmSystem.cpp:59-72 | the buffer begins with the image and is otherwise unchanged |
| `PrmSystem.Store.Deserialize` | prmsystem/src/prmSystem.cpp:74-87 | result and values as the load function says; a refused image changes no value |
| `PrmSystem.Store.GetByAddress` | prmsystem/src/prmSystem.cpp:30-39 | finds the first parameter with the address, or none, and remembers where |
| `PrmSystem.Store.GetNext` | prmsystem/src/prmSystem.cpp:41-47 | moves to the following parameter, or none after the last |
| `Eeprom.ChunkIsPut` | dev/src/24AAxx.cpp:75-81 | a chunk of the driver never wraps inside its page: the device stores it as a plain copy |
| `Eeprom.PutAppend` | dev/src/24AAxx.cpp:74-103 | consecutive copies are one copy |
| `Eeprom.PutIsSplice` | dev/src/24AAxx.cpp:53-58 | inside the memory a copy replaces exactly its bytes |
| `Eeprom.Write` | dev/src/24AAxx.cpp:59-105 | succeeds exactly when there is something to write and the bus fails none of the page transfers; any length at any address then arrives as one linear copy, and otherwise every page outside the range is as before |
| `Eeprom.Read` | dev/src/24AAxx.cpp:114-137 | succeeds exactly when there is something to read and the bus fails neither transfer, and then returns exactly the addressed bytes, around the end of the memory too |
| `Settings.SaveParameters` | task/src/systemTSK.cpp:262-283 | succeeds exactly when the bus fails no transfer; the image of the class is then at its place, and a failed save never touches the half of the other class |
| `Settings.LoadParameters` | task/src/systemTSK.cpp:233-257 | both classes are loaded in turn, each exactly when the bus lets it be read, and a flag tells which could be read but not used |
| `Settings.ImagesStay` | task/src/systemTSK.cpp:262-283 | the two images never disturb each other, in either order of saving |
| `Settings.SavedSettingsLoad` | task/src/systemTSK.cpp:233-283 | for every table whose images fit, saving both classes and loading into any values restores every saved parameter that is in range and leaves the others alone |
| `Settings.SaveThenLoad` | task/src/systemTSK.cpp:233-283 | the code itself: with a bus that fails no transfer, saving both classes in either order and starting anew restores every saved parameter that is in range, and raises neither flag |
| `Registers.AcceptedExactlyWhen` | portfreemodbus/src/porttcp.cpp:78-127 | a block write is accepted if and only if the block ends at a parameter and every value is in range; it then stores exactly those values and changes no other parameter |
| `Registers.BlockReadsBack` | portfreemodbus/src/porttcp.cpp:27-130 | after an accepted write, reading the block is accepted, takes exactly its registers, and returns what was written, with a zero high byte for one-byte parameters |
| `Registers.ReadByParameter` | portfreemodbus/src/porttcp.cpp:31-75 | a block that ends at a parameter is read whole, each parameter's registers in its place |
| `Registers.ValueInRegisters` | portfreemodbus/src/porttcp.cpp:52-71 | a value is its registers, the low one first in two, modulo its width |
| `Registers.WriteByAddress` | portfreemodbus/src/porttcp.cpp:78-127 | in a table without gaps, exactly the parameters whose addresses lie in the block change, each to the registers at its own address |
| `Registers.UnevenBlockRefused` | portfreemodbus/src/porttcp.cpp:40-43 | a block that ends inside a parameter or behind the table is refused, reading and writing |
| `Registers.RefusedBlockMayChange` | portfreemodbus/src/porttcp.cpp:112-115 | an instance: a refused write that has changed a parameter |
| `Registers.WriteStops` | portfreemodbus/src/porttcp.cpp:78-127 | every write, refused or not, stores exactly the values up to where it stops and changes no other, and the status tells why it stopped |
| `Registers.BlockStops` | portfreemodbus/src/porttcp.cpp:84-125 | every block stops somewhere: at its end, behind the table, inside a parameter or at a value out of range |
| `Registers.WriteChangesNothingExactlyWhen` | portfreemodbus/src/porttcp.cpp:112-115 | a write, and so a refused one, changes nothing if and only if the parameters before the one it stops at already have the values of their registers |
| `Registers.RegRead` | portfreemodbus/src/porttcp.cpp:31-75 | status and buffer as the block function says, from the address below the given one |
| `Registers.RegWrite` | portfreemodbus/src/porttcp.cpp:78-127 | status and values as the block function says |
| `Calendar.MonthsCarry` | utils/src/timegm.c:44-54 | month m + 12k of a year is month m of k years later, for all integers |
| `Calendar.NextDaySeconds` | utils/src/timegm.c:25-63 | the next calendar day is 86400 seconds later, across months, leap days and centuries |
| `Calendar.DayNumberOrders` | utils/src/timegm.c:25-41 | the count is the same for two dates only if they are the same, and grows with them |
| `Calendar.OneDatePerDay` | utils/src/timegm.c:25-41 | every day from 1970 on has exactly one date |
| `Calendar.TimegmIsPosix` | utils/src/timegm.c:43-63 | the formula of POSIX.1-2017, Base Definitions, section 4.16 |
| `Calendar.TmToUnixTime` | hal/src/rtc.c:63-93 | the loops add up the days of the closed form, none for a negative month, and the product with 86400 is taken in unsigned 32 bits |
| `Calendar.ConversionsAgreeExactlyWhen` | hal/src/rtc.c:86-92 | both conversions agree if and only if the seconds of the whole days fit 32 bits; so they do from 1970 to the end of 2105 |
| `Calendar.ReadsBackExactlyWhen` | hal/src/rtc.c:157-195 | a time that passes the check, the thirteenth month included, is read back from the registers as it was set if and only if no field is negative but for a month of -1 |
| `Calendar.Rtc.SetTime` | hal/src/rtc.c:178-215 | refuses exactly seconds and minutes from 60, hours from 24, days from 32, months from 13 and years before 2000 or after 2100, and writes nothing; otherwise writes the packed time, negative fields as unsigned 32-bit numbers |
| `Calendar.Rtc.Time` | hal/src/rtc.c:151-171 | right after a time was set that can be read back, its seconds by the closed form; a month of -1 counts as January |
| `Calendar.SetThenTime` | hal/src/rtc.c:151-215 | every date of the calendar from 2000 to 2100 and every time of day is accepted, and read as its seconds right after |
| `Calendar.PackedShowsDigits` | hal/src/rtc.c:190-195 | the digits of a legal time stand in the nibbles of the registers, seconds and days lowest, months counted from one |
| `LogRing.PendingIs` | systems/src/write.c:91-95 | the two pointers tell how many bytes are pending as long as they are fewer than 4095 |
| `LogRing.OverwritesInFlightExactlyWhen` | systems/src/write.c:91-103 | new bytes overwrite bytes the DMA has still to read if and only if those in flight, the pending and the new ones exceed 4095 |
| `LogRing.OverfullWrite` | systems/src/write.c:90-114 | a write that makes 4095 or more bytes pending loses the whole ring if the reader is at the start of the buffer, and otherwise comes to a state that every further pass of the loop repeats |
| `LogRing.StuckExactlyWhen` | systems/src/write.c:91-97 | the copying loop makes no progress exactly when a full ring lies before the reader |
| `LogRing.Ring.DmaByte` | hal/src/uart.c:306-313 | the byte that leaves is the next one that was written |
| `LogRing.Ring.TransmitComplete` | systems/src/write.c:36-48 | the handler goes on with the pending bytes, and the transmitter is idle only when everything has left |
| `LogRing.Ring.CopyPass` | systems/src/write.c:91-113 | moves the pointers as the pass function says for every ring, full or not; while there is room it copies at least one byte and overwrites none that has still to leave |
| `LogRing.Ring.Write` | systems/src/write.c:73-135 | ends, returns the length, and appends exactly the data to the log, while the ring is not exceeded |
| `LogRing.Step` | systems/src/write.c:36-135 | an event is carried out exactly when it can happen: a byte that leaves is the next one written, after the interrupt the transmitter runs exactly while something is left |
| `LogRing.Run` | systems/src/write.c:36-135 | over any interleaving of writes, DMA steps and interrupts, carried out up to the first that cannot happen, one byte has left for every DMA step, what has left is a prefix of what was written, and all of it once the transmitter is idle |
| `LogRing.Drain` | systems/src/write.c:36-48 | none is lost: from every state the DMA and its interrupt empty the ring in at most two steps for each byte and two more |
| `Keys.ChangeNeedsSamples` | hal/src/key.c:24-38 | over any sample history the debounced state changes only after more samples than the counter was away from its end |
| `Keys.ThreeSamplesDecide` | hal/src/key.c:24-38 | three equal samples decide, after any history and from any state: the key goes down, and it comes up |
| `Keys.Scan` | hal/src/key.c:24-90 | the driver called tick by tick: every key runs through its own samples, and three equal ones decide whether it is down |
| `Keys.HeldKeyFires` | hal/src/key.c:60-86 | a held key fires at tick 0 and then, if it repeats, exactly at the ticks the delays give; the counters have their closed forms |
| `Keys.RepetitionTicks` | hal/src/key.c:67-84 | those ticks are F + (k + 1)(R + 1) - 1 for k = 0, 1, 2 and so on |
| `Keys.HeldFromRestFires` | hal/src/key.c:24-90 | the same counted from the raw input: the press is its third sample |
| `Keys.EveryPressFires` | hal/src/key.c:45-90 | in every history from rest, however the input bounces, a key that went down t ticks ago fires exactly at its firing ticks |
| `Keys.DownSincePress` | hal/src/key.c:24-38 | every moment at which a key is down belongs to such a press |
| `Keys.UpIsClear` | hal/src/key.c:60-86 | a key that is up does not fire and has clear counters, in every history |
| `Keys.OncePerPress` | hal/src/key.c:60-65 | over any history a key without repeat fires exactly once for every press |
| `Keys.Keyboard.DInUpdate` | hal/src/key.c:24-38 | debounces one key and leaves the others alone |
| `Keys.Keyboard.KeyProc` | hal/src/key.c:45-90 | one tick advances every key by its own inputs alone |
| `Keys.Keyboard.KsSet` | hal/src/key.c:119-123 | sets the delays, cut to a byte, and the repeating keys |

## Left out

- Peripheral set-up, clocks, interrupt priorities and the RTOS: only what flash, the CRC unit, the RTC registers, the DMA and the two buses do to data is modelled.
- Modbus TCP, the ASCII transport, `modbus_report_slave_id` on the client side, raw requests, and error recovery with its delays and flushes.
- Debug output and the texts of error messages.
- `Val<float>`, the float helpers of libmodbus, `tostring`, and stepping a parameter with `step` and `bigstep`.
- Parameter callbacks are null; a callback that changes values is not modelled.
- Rounded rectangles, filled circles, text and images: drawn with the same spans, they would add easy members.
- The regulator task, the window tasks, the HTTP server, SNTP, MQTT and the host tools.
- BootExact.SafeExactlyWhen: the two limits on first images are at least 28 bytes, so that some image with a whole header exists; below that the limits allow no such first image to argue with.
- BootProgress.EveryRestartBootsExactlyWhen: a due image beyond the region is excluded; what it does when it is one byte too long is stated by `BootLimits.OneByteTooLongBricks`.
- BootMain.Bootloader: the entry address in the header and the jump to it; a start that reaches the application ends there.
- TriangleShape.TriangleIsPainted: three corners on one line are taken as the part of the line in their bounding box.
- Registers.RegRead: parameters of eight bytes are excluded, because the code serializes them into a buffer of four.
- Registers.RegWrite: parameters of eight bytes are excluded for the same reason.
- Download.FileRecord: more than 64 words in a record are excluded, because the code copies them into a buffer of 128 bytes.
- LogRing.Ring.Write: a ring that would be exceeded is excluded, because the loop then does not end; what happens is stated by `LogRing.OverfullWrite`.
- Line.DrawLine: lines whose doubled error leaves 16 bits are excluded; where they go wrong is stated by `Line.LineFollowsExactlyWhen`, the rest of their way is not followed. Differences above 32767, which wrap already in the first subtraction, are excluded too.
- Circle.DrawCircle: the same for large circles; a radius above 32767 becomes a negative 16-bit number and is excluded.
- Triangle.FillTriangle: coordinates and their differences fit 16 bits, and no corner lies on scanline 32767, where the loop variable would wrap.
- Calendar.Rtc.SetTime: the clock of the RTC is running; the wait for the register synchronisation is not modelled.
- Calendar.Rtc.Time: the clock does not advance between setting and reading.
- Calendar.TmToUnixTime: months above 12 are excluded, because the code reads behind its table; `time_t` is taken as wide enough for the sums after the 32-bit product.
- ModbusMaster.Client.WriteBit: the request is built in the shared buffer, not in a local one of twelve bytes; so are the other short requests.
- ModbusMaster.Client.WriteAndReadRegisters: calls that make the server write below its table are excluded, because the access is outside the array.
- Keys.Keyboard.KeyProc: the pins are a parameter, one truth value per key.
