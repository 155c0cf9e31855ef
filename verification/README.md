# Speeduino storage, wire protocols and arithmetic

A Dafny model, with proofs, of the self-contained algorithms of the Speeduino engine controller and of
its simulator: the byte store that the firmware keeps in a serial flash chip, the table-driven checksums,
the packet protocol between the simulator and its test server, the bit-banged serial pins, the two paths
that write microcontroller and chip flash, and the fixed-point arithmetic of crank angles and of the PID
controllers.

The sources change things step by step, and so does the model: objects whose methods update fields are
classes here, loops are loops, and each method is proved against a function of its inputs or of the old
state. What the sources promise is then proved about those functions.

## What is proved

**A byte store on NOR flash** (`NorFlash`, `Thermometer`, `EepromLayout`, `EepromModel`, `EepromRuns`,
`SpiAsEeprom`). Programming can only clear bits and wraps within a page; erasing sets a whole sector. Each
byte of the store owns a page of 256 slots and a block of 256 bits that counts the slots left. The flash
after any `Write` is exactly one step of an abstract store, `WriteStep`, including the branch that saves,
erases and rewrites the sector by calling `Write` again. The store is plain memory throughout a run of
writes *exactly when* no write of the run is the 256th change of a byte, to a value with a bit clear, while
the byte before it in the sector has never been written (`RunIsPlain`): such a write lands on the cell that
the untouched neighbour still reads. 255 writes after formatting are always safe, 256 need not be. A sector
is erased at most once per 255 changes of its bytes. A write interrupted between its two programs leaves
every read as it was, and the next write to that byte stores the two values anded.

**Checksums** (`BitwiseCrc`, `CrcChecks`, `CrcAlgebra`, `CrcRefinement`, `FastCrc`, `CrcProperties`). The reference is a
register shifted one bit at a time, in the register's own width and bit order. The alignment loop, the
slice-by-4 loop over sixteen bytes and the tail loop equal it for every start address and length; the
MSB-first checksums, which the sources compute with LSB-first tables on a byte-swapped register, equal an
MSB-first reference. Tables are defined by what their entries mean: block k at byte b is the shift step
taken 8(k+1) times on b. Updates may be cut anywhere, except that a CRC-32 call that complements can only
come last. Each checksum of the characters 123456789 is the value that the sources document. CRC-32 catches every change within four consecutive bytes, XMODEM within two.

**Packets** (`Cobs`, `Codec`, `PacketServer`, `EndToEnd`). Byte stuffing and its inverse, in place on
arrays; a payload with its checksum; zero-delimited frames picked out of a stream that arrives in any
pieces. However the bytes are cut and wherever reading has got to, the packets handled so far decode to
the first payloads sent, in order, and the others are still in the buffer and the unread bytes; of the
payloads that have arrived whole, each further nonempty read hands one over until none is left.
A reading call keeps every frame, now and later, exactly when its bytes are in a state that the model
names (`InSync`); starting with a delimiter is one.

**Serial pins** (`SerialBits`, `SerialPins`, `SerialWire`). Transmitter and receiver are two state machines
called by a clock; whatever string is pushed to an idle transmitter is queued by the receiver, whole and in
order, whenever each sample falls inside its bit, which the first and the last sample decide.

**Flash write paths** (`SpiFlash`, `FlashStorage`, `FlashAsEeprom`). A buffer of any length split over
256-byte pages, reported as written exactly when the region was erased and the chip agreed each time; a value written row by row and page by page; a cached EEPROM over it that behaves, over any
run of reads, updates, commits and reboots, as a pair of a volatile and a durable image.

**Arithmetic** (`CrankMaths`, `Pid`). Angle to time and back never overshoots and falls short by a stated
bound, with no overflow. The PID controllers keep their integral terms inside their limits over every run; inside
the limits sum and output move by the terms of the control law, rounded towards zero, and each in the
direction it should.

## Where the code and its comments differ

- `speeduino/src/PID_v1/PID_v1.cpp:483` says that taking the error out again sets the integral term back to
  its original value. `LimitingRestores` shows that it does so exactly when the clamps before it did not act.
- `sim/server.py:95-106`, the branch for a buffer that does not start with a delimiter, strips the delimiter
  that the code after it counts on, so it can drop a packet's first byte, or a later frame.
  `ConservesIffInSync` gives the exact condition.
- `speeduino/src/PID_v1/PID_v1.cpp:304-306` scales the integral gain into sixteen bits; it fits for all
  tunings exactly at sample times up to 250 ms (`IntegralGainFits`), and the derivative gain exactly at those
  from 4 ms (`DerivativeGainFits`).

## Model

| member | source | states |
|---|---|---|
| NorFlash.ProgrammedInPage | speeduino/src/SPIAsEEPROM/SPIFlash.cpp:460-466 | a program command that stays in its page ands its bytes into consecutive cells and touches no other cell |
| NorFlash.ProgrammedStaysInPage | speeduino/src/SPIAsEEPROM/SPIFlash.cpp:460-466 | a program command of any length touches no cell outside the page it starts in |
| NorFlash.Chip.WritePage | speeduino/src/SPIAsEEPROM/SPIAsEEPROM.cpp:118-121 | one page-program command: the cells become the anded ones, with the address wrapping inside the page |
| NorFlash.Chip.EraseSector | speeduino/src/SPIAsEEPROM/SPIAsEEPROM.cpp:150-153 | every cell of the sector, and no other, becomes 0xFF, and the sector's wear grows by one |
| Thermometer.Count | speeduino/src/SPIAsEEPROM/SPIAsEEPROM.cpp:217-227 | the two shifting loops count the set bits of the 32 bytes |
| Thermometer.ThermoCounted | speeduino/src/SPIAsEEPROM/SPIAsEEPROM.cpp:201-203 | counting the set bits of an info block with n slots left gives n, for every n up to 256 |
| Thermometer.ThermoSteps | speeduino/src/SPIAsEEPROM/SPIAsEEPROM.cpp:111-115 | the byte computed for the info block, anded in at the computed place, turns the block for n slots into the block for n - 1 |
| EepromLayout.DataProgramEffect | speeduino/src/SPIAsEEPROM/SPIAsEEPROM.cpp:117-121 | programming the next slot down stores the value exactly, because that slot is still erased, the one before the page included |
| EepromLayout.InfoProgramEffect | speeduino/src/SPIAsEEPROM/SPIAsEEPROM.cpp:123-127 | the info program clears exactly one bit: one slot fewer is left and all cells outside the block stay |
| EepromLayout.SlotWrittenHere | speeduino/src/SPIAsEEPROM/SPIAsEEPROM.cpp:111-127 | after both programs the byte reads as the value written, one slot fewer is left, the block is a thermometer code again and everything below the live slot is still erased |
| EepromLayout.OtherPage | speeduino/src/SPIAsEEPROM/SPIAsEEPROM.cpp:117-127 | every other byte keeps its value and slots, but for the page below when the last slot, offset -1, is used while that page was never written |
| EepromModel.AbsSlotStep | speeduino/src/SPIAsEEPROM/SPIAsEEPROM.cpp:111-127 | on every formatted flash the two programs are exactly one slot step of the abstract store, and the flash stays formatted |
| EepromModel.FormattedSector | speeduino/src/SPIAsEEPROM/SPIAsEEPROM.cpp:142-161 | formatting a sector makes it well formed, whatever it held, and keeps every other sector well formed |
| EepromModel.AbsFormatted | speeduino/src/SPIAsEEPROM/SPIAsEEPROM.cpp:97-98 | formatting a sector wipes its fourteen bytes in the store and no other byte |
| EepromModel.RewriteNext | speeduino/src/SPIAsEEPROM/SPIAsEEPROM.cpp:100-103 | writing saved byte i back after an erase is an ordinary write that always finds a slot and restores that byte |
| EepromRuns.WriteStepValues | speeduino/src/SPIAsEEPROM/SPIAsEEPROM.cpp:75-134 | whichever branch a write takes, the only byte that can change besides its own is the one before it, when slot -1 overlaps it |
| EepromRuns.WriteIsPlain | speeduino/src/SPIAsEEPROM/SPIAsEEPROM.cpp:75-134 | a write changes its own byte and no other if and only if it is not the 256th change, to a value with a bit clear, beside a never-written lower neighbour |
| EepromRuns.WriteKeepsUnspoilt | speeduino/src/SPIAsEEPROM/SPIAsEEPROM.cpp:75-134 | every write keeps the invariant that never-written bytes read 0xFF unless their upper neighbour has used its last slot |
| EepromRuns.FormattedIsUnspoilt | speeduino/src/SPIAsEEPROM/SPIAsEEPROM.cpp:201-206 | that invariant holds of every well-formed flash, so it needs no history |
| EepromRuns.RunIsPlain | speeduino/src/SPIAsEEPROM/SPIAsEEPROM.cpp:75-134 | over every sequence of writes, the store reads at every moment like plain memory if and only if no write of it disturbs a neighbour |
| EepromRuns.FewWritesArePlain | speeduino/src/SPIAsEEPROM/SPIAsEEPROM.cpp:163-170 | after formatting, any 255 writes behave like writes to plain memory |
| EepromRuns.ManyWritesAreNot | speeduino/src/SPIAsEEPROM/SPIAsEEPROM.cpp:117-120 | 256 writes to address 1 can leave address 0, never written, with another value than 0xFF |
| EepromRuns.WearIsLevelled | speeduino/src/SPIAsEEPROM/SPIAsEEPROM.cpp:88-107 | over every run since formatting, 255 times the erasures of a sector never exceed the value-changing writes to it |
| EepromRuns.TornWriteReads | speeduino/src/SPIAsEEPROM/SPIAsEEPROM.cpp:117-127 | stopping between the two programs of a write leaves every byte reading as before it, an overlapped neighbour excepted |
| EepromRuns.TornWriteThenWrite | speeduino/src/SPIAsEEPROM/SPIAsEEPROM.cpp:117-127 | the write after an interrupted one stores the and of the lost value and the new one |
| SpiAsEeprom.SpiAsEeprom.Read | speeduino/src/SPIAsEEPROM/SPIAsEEPROM.cpp:172-215 | returns the value of the live slot and leaves the five fields describing the address |
| SpiAsEeprom.SpiAsEeprom.WriteMagicNumber | speeduino/src/SPIAsEEPROM/SPIAsEEPROM.cpp:142-161 | the given sector, or the last one for numbers past it, is erased and marked; one wear is counted |
| SpiAsEeprom.SpiAsEeprom.FormatFlashForUse | speeduino/src/SPIAsEEPROM/SPIAsEEPROM.cpp:163-170 | from any contents: the flash is well formed, every byte reads 0xFF with 256 slots ahead, each sector was erased once |
| SpiAsEeprom.SpiAsEeprom.UseSlot | speeduino/src/SPIAsEEPROM/SPIAsEEPROM.cpp:111-127 | the two page programs land on the next slot and on the info byte of the located address |
| SpiAsEeprom.SpiAsEeprom.SaveSector | speeduino/src/SPIAsEEPROM/SPIAsEEPROM.cpp:91-95 | the buffer holds the fourteen bytes of the sector in order, and the fields still name the sector |
| SpiAsEeprom.SpiAsEeprom.RestoreByte | speeduino/src/SPIAsEEPROM/SPIAsEEPROM.cpp:102-102 | after i of the fourteen recursive writes exactly the first i bytes are back and the others read 0xFF, with no further erase |
| SpiAsEeprom.SpiAsEeprom.RestoreSector | speeduino/src/SPIAsEEPROM/SPIAsEEPROM.cpp:100-103 | all fourteen bytes are back, through writes that never erase again |
| SpiAsEeprom.SpiAsEeprom.RewriteSector | speeduino/src/SPIAsEEPROM/SPIAsEEPROM.cpp:89-103 | the sector is erased once and its bytes read as before, with fresh slots |
| SpiAsEeprom.SpiAsEeprom.Write | speeduino/src/SPIAsEEPROM/SPIAsEEPROM.cpp:75-134 | one write step of the abstract store, keeping the flash well formed, erasing exactly the sector of a full page and nothing otherwise; the recursion ends after one level |
| SpiAsEeprom.FormatWriteRead | speeduino/src/SPIAsEEPROM/SPIAsEEPROM.cpp:75-215 | format, any run of writes, read: the last value written there if no write disturbed a neighbour, and the exact wear of every sector |
| CrcAlgebra.StepsAdditive | speeduino/src/FastCRC/FastCRCsw.cpp:389-393 | any number of shift steps of either family is linear over exclusive or |
| CrcAlgebra.TableStepIsEightSteps | speeduino/src/FastCRC/FastCRCsw.cpp:419-422 | one lookup in the first table block absorbs one byte, also on the byte-swapped MSB-first register |
| CrcAlgebra.SliceStepIsFourBytes | speeduino/src/FastCRC/FastCRCsw.cpp:389-393 | the crc_n4d macro on a loaded word absorbs its four bytes in memory order |
| FastCrc.TableStep16IsTableStep | speeduino/src/FastCRC/FastCRCsw.cpp:309-312 | the 16-bit lookup step is the wide one, for every polynomial of sixteen bits |
| FastCrc.SliceStep16IsSliceStep | speeduino/src/FastCRC/FastCRCsw.cpp:129-133 | the crc_n4 macro, which truncates the word to the register's width, absorbs the word's four bytes |
| CrcRefinement.Lsb32IsFold | speeduino/src/FastCRC/FastCRCsw.cpp:413-448 | the table-friendly fold equals the LSB-first bitwise register |
| CrcRefinement.Msb16IsFold | speeduino/src/FastCRC/FastCRCsw.cpp:303-329 | the byte-swapped fold equals the byte-swap of the MSB-first bitwise register |
| CrcRefinement.Msb32IsFold | speeduino/src/FastCRC/FastCRCsw.cpp:468-501 | the same for the 32-bit MSB-first register |
| CrcRefinement.Lsb16IsFold | speeduino/src/FastCRC/FastCRCsw.cpp:262-287 | the fold equals the 16-bit LSB-first bitwise register |
| CrcRefinement.Rev16Involution | speeduino/src/FastCRC/FastCRC_cpu.h:42-45 | swapping the bytes of a register twice gives it back |
| Words.Rev32Involution | speeduino/src/FastCRC/FastCRC_cpu.h:62-66 | the same for four bytes |
| FastCrc.Absorb16 | speeduino/src/FastCRC/FastCRCsw.cpp:303-326 | the alignment, slice-by-4 and tail loops absorb the data byte by byte, for every address and length |
| FastCrc.Absorb32 | speeduino/src/FastCRC/FastCRCsw.cpp:413-441 | the same for the 32-bit checksums |
| FastCrc.FastCrc16.MsbUpdate | speeduino/src/FastCRC/FastCRCsw.cpp:303-329 | the result is the MSB-first bitwise checksum from the byte-swapped seed, and the seed is its byte-swap again |
| FastCrc.FastCrc16.LsbUpdate | speeduino/src/FastCRC/FastCRCsw.cpp:262-287 | the result, which is also the next seed, is the LSB-first bitwise checksum |
| FastCrc.FastCrc16.CcittUpd | speeduino/src/FastCRC/FastCRCsw.cpp:141-166 | the bitwise checksum with polynomial 0x1021 continued from the saved register |
| FastCrc.FastCrc16.Ccitt | speeduino/src/FastCRC/FastCRCsw.cpp:168-173 | the bitwise checksum with polynomial 0x1021 started from 0xFFFF |
| FastCrc.FastCrc16.XmodemUpd | speeduino/src/FastCRC/FastCRCsw.cpp:303-329 | the bitwise checksum with polynomial 0x1021 continued from the saved register |
| FastCrc.FastCrc16.Xmodem | speeduino/src/FastCRC/FastCRCsw.cpp:331-336 | the bitwise checksum with polynomial 0x1021 started from zero, which the check value pins |
| FastCrc.FastCrc16.Mcrf4xxUpd | speeduino/src/FastCRC/FastCRCsw.cpp:182-207 | the reflected 0x1021 checksum continued from the saved register |
| FastCrc.FastCrc16.Mcrf4xx | speeduino/src/FastCRC/FastCRCsw.cpp:209-214 | the reflected 0x1021 checksum started from 0xFFFF |
| FastCrc.FastCrc16.ModbusUpd | speeduino/src/FastCRC/FastCRCsw.cpp:222-247 | the reflected 0x8005 checksum continued from the saved register |
| FastCrc.FastCrc16.Modbus | speeduino/src/FastCRC/FastCRCsw.cpp:249-254 | the reflected 0x8005 checksum started from 0xFFFF |
| FastCrc.FastCrc16.KermitUpd | speeduino/src/FastCRC/FastCRCsw.cpp:262-287 | the reflected 0x1021 checksum continued from the saved register |
| FastCrc.FastCrc16.Kermit | speeduino/src/FastCRC/FastCRCsw.cpp:289-295 | the reflected 0x1021 checksum started from zero |
| FastCrc.FastCrc16.X25Upd | speeduino/src/FastCRC/FastCRCsw.cpp:344-371 | the complement of the continued register is both the result and the saved seed |
| FastCrc.FastCrc16.X25 | speeduino/src/FastCRC/FastCRCsw.cpp:373-378 | the complemented reflected 0x1021 checksum started from 0xFFFF |
| FastCrc.FastCrc32.Crc32Upd | speeduino/src/FastCRC/FastCRCsw.cpp:413-448 | the bitwise CRC-32 register continued from the seed, complemented on request, is both result and saved seed |
| FastCrc.FastCrc32.Crc32 | speeduino/src/FastCRC/FastCRCsw.cpp:450-455 | the CRC-32 of section 8 of RFC 1952 |
| FastCrc.FastCrc32.CksumUpd | speeduino/src/FastCRC/FastCRCsw.cpp:468-501 | the complemented MSB-first register with polynomial 0x04C11DB7; the seed keeps it uncomplemented and byte-swapped |
| FastCrc.FastCrc32.Cksum | speeduino/src/FastCRC/FastCRCsw.cpp:503-508 | the same started from zero |
| CrcChecks.XmodemCheck | speeduino/src/FastCRC/FastCRCsw.cpp:333-334 | the reference for XMODEM gives the documented check value 0x31C3 |
| CrcChecks.XmodemOfNothing | speeduino/src/FastCRC/FastCRCsw.cpp:334-334 | the XMODEM checksum of no bytes is zero |
| CrcChecks.XmodemSkipsZeros | speeduino/src/FastCRC/FastCRCsw.cpp:333-334 | leading zero bytes do not change the XMODEM checksum |
| CrcChecks.CcittCheck | speeduino/src/FastCRC/FastCRCsw.cpp:170-171 | the reference for CCITT gives 0x29B1 |
| CrcChecks.Mcrf4xxCheck | speeduino/src/FastCRC/FastCRCsw.cpp:211-212 | the reference for MCRF4XX gives 0x6F91, and its complement, for X25, 0x906E |
| CrcChecks.ModbusCheck | speeduino/src/FastCRC/FastCRCsw.cpp:251-252 | the reference for MODBUS gives 0x4B37 |
| CrcChecks.KermitCheck | speeduino/src/FastCRC/FastCRCsw.cpp:291-292 | the reference for KERMIT gives 0x2189 |
| CrcChecks.Crc32Check | speeduino/src/FastCRC/FastCRCsw.cpp:452-453 | the reference for CRC-32 gives 0xCBF43926 |
| CrcChecks.CksumCheck | speeduino/src/FastCRC/FastCRCsw.cpp:505-506 | the reference for POSIX cksum without the length gives 0x765E7680 |
| CrcProperties.Streaming | speeduino/src/FastCRC/FastCRCsw.cpp:141-336 | for each class of checksum, updates on any chunks leave the seed that one update on the whole leaves |
| CrcProperties.Crc32Chaining | speeduino/src/FastCRC/FastCRCsw.cpp:443-447 | two CRC-32 calls give the checksum of the concatenation if and only if the first did not complement |
| CrcProperties.Crc32Streaming | speeduino/src/FastCRC/FastCRCsw.cpp:413-448 | any number of uncomplemented calls, then one of either kind, equal one call on the whole |
| CrcProperties.FoldBurst | speeduino/src/FastCRC/FastCRCsw.cpp:129-133 | for every polynomial whose step is invertible, inputs that differ only within a register's width of consecutive bytes have different checksums |
| CrcProperties.Crc32Burst | speeduino/src/FastCRC/FastCRCsw.cpp:450-455 | a change within four consecutive bytes always changes the CRC-32 |
| CrcProperties.XmodemBurst | speeduino/src/FastCRC/FastCRCsw.cpp:331-336 | a change within two consecutive bytes always changes the XMODEM checksum |
| Cobs.RoundTrip | sim/test/server/src/cobs.cpp:12-81 | decoding undoes encoding for every byte string, runs of 254 or more and a final full block included |
| Cobs.EncodingShape | sim/test/server/src/cobs.cpp:12-44 | an encoding has no zero byte and costs between one byte and one plus one per 254 |
| Cobs.EncodeBlocks | sim/test/server/src/cobs.cpp:19-41 | the format block by block: a code byte one more than the zero-free bytes behind it, a zero after it unless the block is full (254 bytes) or the last |
| Cobs.DecodeBlock | sim/test/server/src/cobs.cpp:59-78 | a block decodes to its bytes, then a zero unless it is full or the last, then what follows it |
| Cobs.DecodeEdges | sim/test/server/src/cobs.cpp:63-66 | a block that runs past the end does not decode; a zero code byte stands for an empty block |
| Cobs.DecodingShape | sim/test/server/src/cobs.cpp:52-81 | what any input decodes to is shorter than the input |
| Cobs.CobsEncode | sim/test/server/src/cobs.cpp:12-44 | the loop with its back-patched code bytes writes exactly the encoding and nothing after it |
| Cobs.CopyBlock | sim/test/server/src/cobs.cpp:68-73 | the inner loop steps over the code byte and copies the code - 1 bytes after it |
| Cobs.CobsDecode | sim/test/server/src/cobs.cpp:52-81 | for any input the loop ends, writes exactly the decoding, or reports zero bytes if a block runs past the end, and never writes beyond one less than the input's length |
| Codec.PacketDecodeExact | sim/codec.py:56-68 | a packet decodes to a payload if and only if it is the encoding of that payload and the payload is not empty |
| Codec.CheckPacket | sim/codec.py:28-59 | the packet of the characters 123456789 ends with the bytes 0xC3 and 0x31, low byte first |
| Codec.SerialRoundTrip | sim/codec.py:76-82 | a payload survives packet, stuffing and their inverses if and only if it is not empty; the stuffed form is zero-free and long enough to be handled |
| Codec.PayloadBurstRejected | sim/codec.py:61-68 | a payload changed within two consecutive bytes is rejected with a checksum mismatch |
| Codec.LastByteEffect | sim/codec.py:44-48 | changing the last byte shifts the checksum by a word that depends on the difference only |
| Codec.StraddlingBurst | sim/codec.py:61-68 | a change of the last payload byte together with the low checksum byte passes the check in exactly one case, differences 0x89 and 0xA1 |
| PacketServer.ReadPackets | sim/server.py:64-124 | on delimiters, then a frame and its delimiter, then a rest: hands over the frame if it has three bytes or more and keeps the rest with its delimiter; an unfinished frame is kept with one delimiter; an empty read raises and an exhausted one changes nothing |
| PacketServer.HandsOver | sim/server.py:108-124 | the first complete frame is handed over whole and what is buffered gets shorter |
| PacketServer.KeepsOpen | sim/server.py:89-111 | an unfinished frame is kept, with exactly one delimiter in front |
| PacketServer.SkipsNoise | sim/server.py:95-124 | after noise the delimiters go too, and with them the first byte of the frame behind them |
| PacketServer.CallTakesOne | sim/server.py:84-124 | a call takes at most one frame off those ahead, and takes one whenever a complete one is there |
| PacketServer.Prompt | sim/server.py:30-124 | once n frames have arrived, that call and each later one hand one over until all n are, whatever arrives meanwhile |
| PacketServer.AlignedCall | sim/server.py:84-91 | a call whose bytes start with a delimiter loses no frame, whatever arrives later, and leaves a buffer that starts with a delimiter |
| PacketServer.ConservesIffInSync | sim/server.py:84-124 | a call loses no frame, for every continuation of the stream, if and only if its bytes are in sync |
| PacketServer.StreamConserved | sim/server.py:64-124 | at every moment of every stream that starts with a delimiter, frames handled plus frames of buffer and unread bytes are the frames of the stream |
| PacketServer.RunThread | sim/server.py:30-45 | the loop carries the buffer from call to call and stops at the first empty read |
| PacketServer.ReceivedOne | sim/server.py:66-79 | nonempty reads count in order, exhausted ones do not count, and nothing counts after an empty one |
| EndToEnd.FramesOfWire | sim/server.py:48-49 | the frames of the bytes sent for a list of payloads are their encodings, in order, and then those of whatever follows |
| EndToEnd.Delivered | sim/server.py:30-124 | for every list of nonempty payloads and every cutting of the wire bytes, the packets handled decode to a prefix of the payloads and the rest is still waiting; of n payloads arrived by read m, that read and each later one hand over one until all n are |
| EndToEnd.AllDelivered | sim/server.py:30-124 | once all the payloads have arrived, as many nonempty reads as there are payloads, whatever they bring, hand every one of them over, first and in order |
| SerialBits.SamplingExtends | sim/serial.py:82-83 | or-ing the level of bit k into a register that holds the frame's low k bits gives its low k + 1 bits |
| SerialBits.WholeFrame | sim/serial.py:88-88 | a register with all ten bits gives the character back |
| SerialBits.StartAndStop | sim/serial.py:127-127 | the first bit of a frame is low and the last is high |
| SerialBits.DataBits | sim/serial.py:127-130 | the bits between are the character's, low first |
| SerialPins.SerialTxPin.DoStep | sim/serial.py:120-136 | one step sends the next bit, loads a character first if none is under way, and asks to be called again unless there is nothing to send |
| SerialPins.SerialTxPin.PushChars | sim/serial.py:138-142 | characters are queued in order; the clock is asked to call the pin exactly when the queue was empty |
| SerialPins.SerialRxPin.SetInState | sim/serial.py:73-78 | a character starts exactly when the level is low and none is being received; a high level starts nothing and changes only the level seen |
| SerialPins.SerialRxPin.DoStep | sim/serial.py:81-97 | one sample, with one and a half bit times after the first and none after the last, which queues the character |
| SerialPins.SerialRxPin.PopChars | sim/serial.py:99-102 | the received characters are handed over once |
| SerialWire.CharacterDelivered | sim/serial.py:73-136 | twenty events take one character across and leave both pins ready at the end of its stop bit |
| SerialWire.RoundTrip | sim/serial.py:59-142 | every string pushed to an idle transmitter is queued by the receiver, whole and in order, whenever sample k falls in bit k for k = 1..9, and the system is idle again |
| SerialWire.EqualBaudIsTimely | sim/serial.py:86-97 | equal bit times meet that condition |
| SerialWire.TwoSamplesDecide | sim/serial.py:81-97 | all nine samples fall in their bits if and only if the first and the last do |
| SerialWire.SampledInTheMiddle | sim/serial.py:86-97 | with equal bit times each sample is taken in the middle of its bit, as near as whole ticks allow |
| SpiFlash.ProgrammedIsStored | speeduino/src/SPIAsEEPROM/SPIFlash.cpp:475-486 | on erased cells of one page a program command stores its bytes and nothing else |
| SpiFlash.SpiFlash.NotPrevWritten | speeduino/src/SPIAsEEPROM/SPIFlashIO.cpp:82-94 | true if and only if the whole region is erased |
| SpiFlash.SpiFlash.PrepProgram | speeduino/src/SPIAsEEPROM/SPIFlashIO.cpp:98-118 | succeeds if and only if the region is erased and the chip says yes to all four questions; then the current address is set |
| SpiFlash.SpiFlash.WritePages | speeduino/src/SPIAsEEPROM/SPIFlash.cpp:487-514 | succeeds if and only if the chip agreed each time; then the buffer is stored whole with one command per page touched, and otherwise a prefix of it is |
| SpiFlash.SpiFlash.ReadBack | speeduino/src/SPIAsEEPROM/SPIFlash.cpp:527-535 | true if and only if the flash holds the buffer |
| SpiFlash.SpiFlash.WriteByteArray | speeduino/src/SPIAsEEPROM/SPIFlash.cpp:468-542 | true if and only if the region was erased and every answer of the chip was yes; then the region holds the data and every other cell is unchanged; otherwise a prefix is stored, and a region not erased is untouched |
| FlashStorage.FlashClass.Erase | speeduino/src/FlashStorage/FlashStorage.cpp:81-90 | every cell of the rows that the value needs, one at least, becomes 0xFF, and no other cell changes |
| FlashStorage.RowsEndIs | speeduino/src/FlashStorage/FlashStorage.cpp:84-89 | the row loop reaches the size divided by the row size, rounded up, rows, or one for size zero |
| FlashStorage.RowsSuffice | speeduino/src/FlashStorage/FlashStorage.cpp:84-89 | that is the smallest number of rows, at least one, that holds the value |
| FlashStorage.FlashClass.FillPage | speeduino/src/FlashStorage/FlashStorage.cpp:62-73 | the page buffer holds the next words of the value, up to a page, and is blank after them |
| FlashStorage.FlashClass.Write | speeduino/src/FlashStorage/FlashStorage.cpp:50-79 | for every size and page size the value, rounded up to words, is anded into its region, and no other cell changes |
| FlashStorage.FlashClass.Store | speeduino/src/FlashStorage/FlashStorage.h:63-65 | erase then write: the value reads back exactly and no cell outside the smallest number of rows that hold it changes |
| FlashAsEeprom.EepromClass.Init | speeduino/src/FlashStorage/FlashAsEEPROM.cpp:50-57 | every byte is the one in flash if something was committed, and 0xFF otherwise |
| FlashAsEeprom.EepromClass.Read | speeduino/src/FlashStorage/FlashAsEEPROM.cpp:30-34 | returns the byte of the image, which stays as it was |
| FlashAsEeprom.EepromClass.Update | speeduino/src/FlashStorage/FlashAsEEPROM.cpp:36-43 | one byte of the image changes and the durable image does not; the image is marked dirty exactly when the value is a new one |
| FlashAsEeprom.EepromClass.Write | speeduino/src/FlashStorage/FlashAsEEPROM.cpp:45-48 | the same as an update |
| FlashAsEeprom.EepromClass.IsValid | speeduino/src/FlashStorage/FlashAsEEPROM.cpp:59-63 | tells whether anything was ever committed |
| FlashAsEeprom.EepromClass.Commit | speeduino/src/FlashStorage/FlashAsEEPROM.cpp:65-72 | the durable image becomes the image; a clean one leaves the flash untouched |
| FlashAsEeprom.RebootRestores | speeduino/src/FlashStorage/FlashAsEEPROM.cpp:30-72 | after any run, a reboot brings back the image of the last commit, or the initial durable image if there was none |
| FlashAsEeprom.Replay | speeduino/src/FlashStorage/FlashAsEEPROM.cpp:30-72 | every run of reads, updates, commits and reboots on the class ends where the pair of images ends |
| CrankMaths.CrankSpeed.DoCrankSpeedCalcs | speeduino/crankMaths.ino:136-148 | the times per degree and degrees per time are the rounded-down quotients, fit their widths, and are at most the exact values and short of them by a stated bound, for every speed from 41 rpm |
| CrankMaths.ConstantError | speeduino/crankMaths.ino:143-143 | the constant is four in a million short of sixteen times sixty million over 360 |
| CrankMaths.QuotientFits | speeduino/crankMaths.ino:143-143 | the time per degree fits sixteen bits if and only if the speed is at least 41 rpm |
| CrankMaths.AngleRoundTrip | speeduino/crankMaths.h:11-13 | angle to time and back is at most the angle, short by less than angle * x / 524288 + d / 32768 + 1, and no product leaves 32 bits |
| CrankMaths.ToothRoundTrip | speeduino/crankMaths.ino:27-63 | the same by the tooth interval, short by less than angle * toothAngle / gap + 1 |
| CrankMaths.IgnitionLimitsNormalise | speeduino/crankMaths.h:15-15 | the macro brings an angle into one revolution if and only if it was within one revolution of it, and then without changing what angle it is |
| Pid.IntegerPid.constructor | speeduino/src/PID_v1/PID_v1.cpp:212-230 | a new controller is in manual mode, with limits 0 to 255 and the tunings given, and one sample time has passed |
| Pid.IntegerPid.LimitSum | speeduino/src/PID_v1/PID_v1.cpp:253-254 | the integral sum is brought inside the limits |
| Pid.IntegerPid.Compute | speeduino/src/PID_v1/PID_v1.cpp:239-284 | acts exactly in automatic mode and a sample time or more after the last action; sum and output then lie inside the limits, and strictly inside them the sum has moved by ki * error / 1024, less kp * dInput with proportional action on the measurement, and the output is the sum plus the proportional part less kd * dInput / 128, rounded towards zero |
| Pid.QuotientRounds | speeduino/src/PID_v1/PID_v1.cpp:252-252 | division rounds towards zero, for either sign |
| Pid.OutputOpposes | speeduino/src/PID_v1/PID_v1.cpp:259-274 | the output never rises with the rise of the input and never falls with the error |
| Pid.SumFollows | speeduino/src/PID_v1/PID_v1.cpp:252-267 | the sum never falls with the error and never rises with the rise of the input |
| Pid.SumDirection | speeduino/src/PID_v1/PID_v1.cpp:252-267 | the sum never falls with a positive error and never rises with a negative one |
| Pid.ClampNearest | speeduino/src/PID_v1/PID_v1.cpp:253-254 | a limited value is the nearest inside the limits |
| Pid.ElapsedLater | speeduino/src/PID_v1/PID_v1.cpp:242-245 | the elapsed time is right across a wrap of the clock |
| Pid.GainsScaled | speeduino/src/PID_v1/PID_v1.cpp:304-307 | all three gains are the tunings scaled by the whole number of sample times in a second, as far as sixteen bits hold them |
| Pid.IntegerPid.SetTunings | speeduino/src/PID_v1/PID_v1.cpp:293-315 | the gains are those of the new tunings, unless nothing changed |
| Pid.IntegerPid.SetSampleTime | speeduino/src/PID_v1/PID_v1.cpp:320-329 | the tunings end up as they were, also at 0 and 255, and the gains fit the new sample time |
| Pid.IntegerPid.SetOutputLimits | speeduino/src/PID_v1/PID_v1.cpp:339-353 | limits out of order are ignored; in automatic mode output and sum are brought inside the new ones |
| Pid.IntegerPid.SetMode | speeduino/src/PID_v1/PID_v1.cpp:360-368 | any change of mode restarts the sum from the clamped output, no change leaves it |
| Pid.IntegerPid.Initialize | speeduino/src/PID_v1/PID_v1.cpp:374-381 | the sum becomes the output brought inside the limits |
| Pid.IntegralGainFits | speeduino/src/PID_v1/PID_v1.cpp:304-306 | the scaled gain is stored undamaged for every tuning if and only if the sample time is at most 250 ms |
| Pid.DerivativeGainFits | speeduino/src/PID_v1/PID_v1.cpp:307-307 | the derivative gain is stored undamaged for every tuning if and only if the sample time is at least 4 ms |
| Pid.SumRunMonotone | speeduino/src/PID_v1/PID_v1.cpp:252-254 | over every run of errors a larger starting sum never ends below a smaller one |
| Pid.SaturationForgets | speeduino/src/PID_v1/PID_v1.cpp:252-254 | errors that drive the sum from one limit to the other wipe out every earlier history |
| Pid.IntegerPidIdeal.constructor | speeduino/src/PID_v1/PID_v1.cpp:415-432 | the limits start at 20 and 80 percent, with the gains given and one sample time passed |
| Pid.IntegerPidIdeal.Compute | speeduino/src/PID_v1/PID_v1.cpp:440-500 | acts exactly when the sample time has passed; the output is the limited one, strictly inside the limits 50 percent and a tenth of the three terms, and the integral term stays within its clamps widened by one error |
| Pid.UnitlessScale | speeduino/src/PID_v1/PID_v1.cpp:448-450 | readings are scaled by ten thousand over 10001 less twice the sensitivity, rounded towards zero |
| Pid.ReachScale | speeduino/src/PID_v1/PID_v1.cpp:458-471 | each clamp of the integral term is what the gain turns into the way from the bias to that limit, or zero |
| Pid.IntegerPidIdeal.SetOutputLimits | speeduino/src/PID_v1/PID_v1.cpp:533-540 | new limits are taken if they are in order and ignored otherwise |
| Pid.OutputStoredWhole | speeduino/src/PID_v1/PID_v1.cpp:480-491 | the limited output survives its unsigned sixteen-bit store, whatever it is, if and only if both limits fit |
| Pid.LimitingRestores | speeduino/src/PID_v1/PID_v1.cpp:480-489 | taking the error out of the integral term again restores it if and only if the clamps had not acted |

## Left out

- SpiAsEeprom.SpiAsEeprom.Write: for addresses below 6006 only; others are pulled to 6006, itself outside the formatted sectors.
- `SPIAsEEPROM::begin` and its format check, which looks at one sector only; the model starts from any flash and formats it. `SpiFlashAvialable` and busy-waiting are taken as done.
- Power loss inside the erase branch of a write is not recovered from: between the erase and the last write back, the bytes not yet restored read 0xFF (`AbsFormatted` and `RestoreByte` give the store at each moment between calls).
- Power loss inside a single page program or sector erase, and cells that wear out.
- The literal entries of the CRC tables: the tables here are defined by what their entries must be.
- The CRC-32 variant with small tables, the 7- and 8-bit checksums, `FastCRChw.cpp`, and big-endian processors.
- `cobs` as a Python package is not part of this model: `sim/codec.py` is modelled with the C++ routines of `sim/test/server/src/cobs.cpp`, and a block that runs past the end becomes an error value.
- Cobs.CobsEncode: requires distinct input and output arrays, and room for the longest encoding.
- The requests and responses of `sim/messages.py`; exceptions out of a packet handler; epoll and pseudo-terminals, which appear as a list of reads.
- SerialWire.RoundTrip: the simulator's clock is modelled as the earliest call first, the transmitter first on ties; dump files are left out, and characters are pushed to an idle transmitter, since pushing while the last character is still being sent schedules the pin twice.
- SpiFlash.SpiFlash.WriteByteArray: regions that run past the end of the chip and buffers of 65536 bytes or more, which the sixteen-bit counters cut short; four-byte addressing and diagnostics. The chip's answers are arbitrary but given in advance, and overflow past the end is not disabled at compile time.
- `SPIFlash::_write` over several pages and `eraseSection`.
- FlashStorage.FlashClass.Store: the region starts on a row, as the linker's alignment makes it do for rows of 256 bytes.
- FlashAsEeprom.EepromClass.Commit: power loss inside a commit.
- CrankMaths.CrankSpeed.DoCrankSpeedCalcs: the second-derivative branch and the branch by the gap of the last two teeth.
- CrankMaths.ToothRoundTrip: negative angles; and the method by revolution time, a single division.
- Pid.IntegerPid.Compute: values of type long are unbounded.
- Pid.IntegerPid.SetSampleTime: sample times of 0 and above 1000 ms, where the source divides by zero.
- REVERSE action and `SetControllerDirection`, where the unsigned gains wrap; the floating-point PID.
- Board files, timers, interrupts, CAN and serial commands, and the scheduler, table and decoder code, whose bodies are not part of this model.
