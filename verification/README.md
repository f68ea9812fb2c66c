# Verified model of the avrlibx drivers and tools

avrlibx is a C++ driver library for AVR XMEGA microcontrollers, with a few Python tools beside it.
This project models its parts that carry state, interleaving or arithmetic, and proves what they
are for:

* **FAT16/FAT32 reader** (`Media`, `FatFormat`,
  `FatVolume`, `FatFileReader`, `FatRuns`, `FatInterleaving`). One
  static sector buffer holds directory, data and table sectors in turn. The disk is a map from sector
  numbers to sectors, every read of which may fail by an arbitrary schedule. Reading equals the flat
  content of the cluster chain, in any pieces, across faults, and in safe mode under any interleaving
  of handles.
* **TWI master, EEPROM driver, ring buffer** (`RingBuffer`, `RingProtocol`, `TwiModel`, `TwiMaster`,
  `TwiSafety`, `EepromBus`, `TwiEeprom`). The rings are proved as queues and again at the granularity
  of single memory accesses. The master's handler and calls refine a value model, and that model is
  put on a bus of EEPROM chips with wrapping page latches and busy write cycles. The driver then is
  a flat memory.
* **Buffered display and HD44780 driver** (`LcdDevice`, `Hd44780Lcd`, `BufferedDisplay`). The
  controller is modelled from its nibble bus. Everything is stated about the *settled* controller,
  the one that has received all nibbles still queued.
* **Fixed-point kernels** (`AvrKernels`). Each assembly block is a sequence of instructions on bytes
  and a carry flag, proved against plain integer arithmetic.
* **Random generator** (`Random`, `RandomPeriod`). The full period is proved by linearity, repeated
  squaring and the factors of 65535, without enumerating states.
* **MIDI writer and reader, hex files, firmware packaging** (`MidiFormat`, `MidiFile`,
  `MidiRoundTrip`, `MidiWire`, `IntelHex`, `HexRecord`, `HexRoundTrip`, `Hex2SysEx`,
  `FirmwareRoundTrip`). Encoders and decoders are proved inverse, or exactly when they are, and both
  are proved against the bytes that the standards give to each message and record.
* **Resource tables** (`ResourceTables`). Sharing equal values preserves lookup.

Where the code does not do what its comments or callers expect, the exact condition is proved:

* Cluster sizes that are not powers of two are addressed wrongly (`ClusterSizeMustBePowerOfTwo`). A
  volume is laid out wrongly if its type is not what its label test finds (a FAT12 volume with the
  usual label is taken for FAT16), its sectors are not 512 bytes, it keeps
  only a table other than the first up to date (the FAT32 flags word is declared but not read), it has
  more than two tables outside safe mode, or its root entries do not fill whole sectors (`LayoutIff`,
  `DetectedIff`, with examples). The last clusters of
  the largest FAT16 volumes are refused (`ClustersAcceptedIff`).
* In safe mode a Read that cannot restore the cache returns the error code 2 as a byte count, exactly
  when another sector is cached and the read of the handle's sector fails (`Reader.Read`,
  `ErrorCodeAsCount`).
* A Request begun while a reception is in progress can overrun the input ring, unless it leaves room for
  the bytes still outstanding (`RequestSafeIff`, `ReceiveRingSafety`). A
  Request the slave refuses leaves every Send before the next completed Request unable to complete
  (`SendCompletesIff`).
* The EEPROM driver's Read never ends if a request does not fit the input ring and no old error is on
  record (`TwiEeprom.Read`, `ReadSpins`); with the classes' own default sizes that is a request for
  15 bytes or more. Write stops at the first block that does not fit the output ring
  (`TwiEeprom.Write`). Its blocks reach their places if and only if the block size divides the page
  size of the chips; the default of 32 on a chip with 16-byte pages wraps within the page and is
  reported as written (`WritesStoredIff`).
* After `ForceStatus` a later character can go to the wrong place, unless the last character before was
  written at the first position, at the end of a line, or nowhere (`BufferedDisplay.ForceStatus`,
  `ForcedMisplacement`).
* Tick looks at the LCD driver's counter twice. A wrap between the two looks is missed: the cursor
  keeps its phase and the status stays for another period (`FollowBlink`, `DisplayBlink`).
* `S16ClipS8` is wrong from 32640 on (`S16ClipS8`).
* The MIDI reader keeps no channel across running status, drops system events, and misreads meta
  payloads of 128 bytes or more (`EventRoundTripIff`, `ReadBackIff`).
* `WriteHexFile` output for chunks over 255 bytes, or with a record starting beyond 65535, cannot be
  loaded (`FileRoundTripIff`). Gaps in a hex file cannot be packaged (`CollectPages`). Without a delay
  between pages their order in the MIDI file is open, which is harmless only if they are all the same
  (`PagesInOrderIff`).

`dafny verify dfyconfig.toml` checks everything.

## Conventions

Bytes and words are ranges of `int`, with every truncation written out. Masks by a power of two are
remainders, shifts are multiplications and divisions, and bit-wise operators are written as the
arithmetic they stand for; only the random generator uses bit vectors. Exceptions and failed
assertions of the Python tools are `None` or a false `ok`. Ghost parameters named `bound`, `k`, `o`
and the like are witnesses of the caller's obligations and have no counterpart in the code. Ghost
fields (interrupts so far, positions transmitted) record the past.

## Model

| member | source | states |
|---|---|---|
| FatFormat.DeliverableMeaning | filesystem/fat_file_reader.h:327-352 | what is delivered lies before the break of the chain, and a delivery that stops short has reached it |
| FatFormat.DeliverableIff | filesystem/fat_file_reader.h:327-352 | all that is asked for is delivered if and only if the stream has all of it |
| FatFormat.LongChainCovers | filesystem/fat_file_reader.h:327-352 | a chain of m clusters has everything within m times the cluster size |
| FatFormat.FatEntryBytes | filesystem/fat_file_reader.h:372-380 | a link is two bytes of the table, or four without the top four bits, the lowest first |
| FatFormat.DataAreaInOrder | filesystem/fat_file_reader.h:431-440 | cluster 2 starts the data area, and the sectors of one cluster and of the next follow each other |
| FatFormat.EntryFields | filesystem/fat_file_reader.h:115-126 | by the bytes of the stream from 32 k on: name at 0, attribute at 11, high word of the first cluster at 20 and low word at 26, size at 28 |
| FatFormat.StopBytes | filesystem/fat_file_reader.h:266-276 | what an enumeration does at index k, by those bytes: it ends at a first byte 0, passes over an attribute with bit 3 and a first byte 0x2e or 0xe5, and reports all others |
| FatFormat.NamedBytes | filesystem/fat_file_reader.h:284-292 | the first entry of a name is the first to be reported whose eleven bytes are the name, and its cluster and file attribute are those spelt there |
| FatFormat.ReportedFromAll | filesystem/fat_file_reader.h:255-280 | the indices to be reported, in order: exactly those before the first end whose bytes say so |
| FatFormat.FirstStop | filesystem/fat_file_reader.h:255-280 | the next directory index at which an enumeration stops: everything before it is a volume, dot or deleted entry, and it is none of these |
| FatVolumes.DetectedIff | filesystem/fat_file_reader.h:443-462 | the label test finds the volume's type by the specification, which goes by the number of clusters, exactly under this condition on label and clusters |
| FatVolumes.LabelledIff | filesystem/fat_file_reader.h:443-462 | with the label a formatter writes every FAT16 and FAT32 volume is taken for what it is, and a FAT12 volume for FAT16 |
| FatVolumes.DisketteIsMistaken | filesystem/fat_file_reader.h:443-462 | a FAT12 diskette that is taken for FAT16 |
| FatVolumes.LayoutIff | filesystem/fat_file_reader.h:213-230 | for a valid boot record the layout is the specification's if and only if the type is right, sectors have 512 bytes, the first table is an active one (on FAT32: mirroring, or table 0), all table copies are accounted for and the root entry count is a multiple of 16 |
| FatVolumes.LayoutArithmetic | filesystem/fat_file_reader.h:218-230 | where tables and data start, in wrapping 32-bit arithmetic against the specification's sums |
| FatVolumes.WideVolumeIsMisread | filesystem/fat_file_reader.h:213-230 | a volume with 1024-byte sectors whose data area is looked for at sector 113 and not 194 |
| FatVolumes.UnmirroredIsMisread | filesystem/fat_file_reader.h:86-87 | a FAT32 volume with mirroring off and table 1 in use, whose tables are read from sector 32 and not 1056 |
| FatVolumes.ReadableLayout | filesystem/fat_file_reader.h:213-230 | the layout of every valid record that is recognised, with a FAT32 root cluster in range, is one that can be read by |
| FatVolumes.MarksEndChains | filesystem/fat_file_reader.h:359-365 | no free, reserved, bad or end mark of the table is taken for a link |
| FatVolumes.ClustersAcceptedIff | filesystem/fat_file_reader.h:359-365 | every data cluster of a volume is accepted if and only if the volume has at most 0xffee (FAT32: 0x0fffffee) clusters |
| MediaAccess.Media.ReadSector | devices/sd_card.h:366-376 | a read delivers the sector or fails, as the schedule says; in Quiet mode a failed read leaves the buffer untouched |
| FatFileReader.Reader.ReadSector | filesystem/fat_file_reader.h:394-403 | a successful read fills the cache with the disk's sector and, in safe mode, retags it; a failed one keeps the tag |
| FatFileReader.Reader.SyncCache | filesystem/fat_file_reader.h:386-391 | restores the handle's sector behind the cache tag, and fails exactly when another sector is cached and the read fails; the tag tells the truth before and after |
| FatFileReader.Reader.ClusterToSector | filesystem/fat_file_reader.h:431-440 | the shift loop multiplies by the largest power of two not above the cluster size; for a power of two this is the first sector of the cluster |
| FatFileReader.ShiftLoopScale | filesystem/fat_file_reader.h:433-438 | the wrapping shift loop equals one multiplication modulo 2^32, for every cluster size and cluster number |
| FatFileReader.ClusterSizeMustBePowerOfTwo | filesystem/fat_file_reader.h:431-440 | clusters beyond the first are addressed correctly if and only if the cluster size is a power of two |
| FatFileReader.FatEntrySplit | filesystem/fat_file_reader.h:372-380 | the split index (sector, word) reads the entry of one flat FAT array, 16-bit or 28-bit |
| FatFileReader.Reader.NextCluster | filesystem/fat_file_reader.h:368-381 | the flat table's link, as its bytes spell it, or 0 on a fault or for a number below 2; the cache stays coherent although the FAT is read through it |
| FatFileReader.Reader.EnterNextCluster | filesystem/fat_file_reader.h:408-418 | at a cluster's end moves to the next cluster of the chain, or reports an error with the handle still in place |
| FatFileReader.Reader.ReadNextSector | filesystem/fat_file_reader.h:407-428 | fetches the next sector of the stream into the cache, or leaves the position so that a retry is correct |
| FatFileReader.Reader.FindBootSector | filesystem/fat_file_reader.h:443-462 | the type is the one detected from signature and label, every other outcome names its cause, and the cache holds the sector |
| FatFileReader.Reader.Init | filesystem/fat_file_reader.h:193-233 | finds a labelled volume at sector 0 or where bytes 8 to 11 of the first partition record say; for a valid boot record the layout is the specification's if and only if the record is understood, and the reader is mounted if the root cluster is in range |
| FatFileReader.Reader.OpenRootDir | filesystem/fat_file_reader.h:236-245 | a handle at index 0 of the root directory stream, ready to be served |
| FatFileReader.Reader.TakeEntry | filesystem/fat_file_reader.h:256-265 | one entry consumed: the handle holds the fields that the next 32 bytes of the stream spell, or nothing moved |
| FatFileReader.Reader.Next | filesystem/fat_file_reader.h:248-281 | stops at the next listed entry (also of a directory without an end), or the end of the table, or an error; what is passed over and what is reported is stated by the bytes of the directory, whatever faults occur |
| FatFileReader.Reader.OpenEntry | filesystem/fat_file_reader.h:295-315 | opens exactly the entries with a valid cluster (in safe mode also only live files on a directory handle) and otherwise leaves the handle as it was |
| FatFileReader.Reader.Open | filesystem/fat_file_reader.h:284-292 | without faults finds a name if and only if an enumerated entry bears it, and then the first such entry; it then opens the cluster that the entry's bytes spell, if that is a cluster (in safe mode: and the attribute is a file's), and the handle's place is stated in every case |
| FatFileReader.ScanTo | filesystem/fat_file_reader.h:286-291 | what a scan knows at each stop: no entry passed had the name, and at the end of the table no entry of the directory has it |
| FatFileReader.Reader.CopyOut | filesystem/fat_file_reader.h:340-344 | the copy loop moves exactly the next bytes of the cached sector and nothing else in the buffer |
| FatFileReader.Reader.ReadChunk | filesystem/fat_file_reader.h:328-347 | one round of Read: min(rest of sector, request, rest of file) bytes of the stream, fetching a sector first when none is open |
| FatFileReader.Reader.Read | filesystem/fat_file_reader.h:318-355 | the next bytes of the cluster chain: min(size, rest of the file) of them when nothing fails and the chain is long enough, a correct prefix otherwise; the count is another number, the error code, if and only if safe mode cannot restore its cache |
| FatRuns.ReadPiece | filesystem/fat_file_reader.h:318-355 | one call as its caller sees it, and exactly when the bytes are not the file's |
| FatRuns.ReadInPieces | filesystem/fat_file_reader.h:318-355 | any list of requests concatenates to one stretch of the file across arbitrary faults, but for the calls of safe mode that answer with an error code; without faults it is min(sum, rest of the file) on a long enough chain |
| FatRuns.ErrorCodeAsCount | filesystem/fat_file_reader.h:193-324 | a run, from Init on a FAT16 card that is pulled out after three reads, in which a request for 1 byte is answered with a count of 2 |
| FatRuns.DeliverMore | filesystem/fat_file_reader.h:327-352 | asking for a and then b bytes delivers what asking for a + b bytes delivers |
| FatRuns.Stuck | filesystem/fat_file_reader.h:327-336 | once a read stops short for a broken chain, every later read delivers nothing |
| FatRuns.Enumerate | filesystem/fat_file_reader.h:255-280 | repeated Next lists, in on-disk order, the entries at exactly the indices before the first end whose attribute has bit 3 clear and whose first byte is not 0x2e or 0xe5; a prefix of them when a read fails |
| FatRuns.ListingBytes | filesystem/fat_file_reader.h:255-280 | what is listed are the fields spelt at the indices to be reported |
| FatRuns.ListingStep | filesystem/fat_file_reader.h:255-280 | each successful Next removes exactly the first entry of the remaining listing |
| FatInterleaving.ApplyRead | filesystem/fat_file_reader.h:318-355 | in safe mode the outcome of Read is one allowed to its handle alone, whatever other handles did to the cache: the file's bytes, with a failed read a correct prefix or the error code with nothing moved |
| FatInterleaving.ApplyNext | filesystem/fat_file_reader.h:248-281 | the same for Next: with a failed read an error, at an index no later than the next stop |
| FatInterleaving.ApplyOpen | filesystem/fat_file_reader.h:295-315 | Open of an entry is a function of its handle |
| FatInterleaving.ApplyOpenRoot | filesystem/fat_file_reader.h:236-245 | OpenRootDir forgets the handle's past |
| FatInterleaving.ApplyOpenName | filesystem/fat_file_reader.h:284-292 | Open by name is a function of the disk; with a failed read it may stop early in the root directory |
| FatInterleaving.Interleave | filesystem/fat_file_reader.h:386-403 | any script of operations on any number of handles of one reader, with any faults that leave the buffer alone, is a run of allowed outcomes; with no faults none is marked failed |
| FatInterleaving.Projection | filesystem/fat_file_reader.h:386-403 | the part of such a run that concerns one handle is a run that the handle could have had by itself, and ends where the handle ends |
| FatInterleaving.NonInterference | filesystem/fat_file_reader.h:386-403 | a handle none of whose own operations met a fault gets the replies and the state it would get alone on a sound medium |
| RingBuffers.MaskNear | io/ring_buffer.h:44-46 | the masked pointer differences in range |
| RingBuffers.WindowAppend | io/ring_buffer.h:55-65 | moving the write pointer past stored bytes appends them to the queue, also across the wrap |
| RingBuffers.RingBuffer.Writable | io/ring_buffer.h:44-46 | capacity less one, less the unread bytes |
| RingBuffers.RingBuffer.Readable | io/ring_buffer.h:72-74 | the number of unread bytes |
| RingBuffers.RingBuffer.Overwrite | io/ring_buffer.h:55-59 | appends a byte; on a full queue every unread byte is lost |
| RingBuffers.RingBuffer.Overwrite2 | io/ring_buffer.h:60-65 | two bytes as if written one after the other: appended where there is room, and otherwise overtaking the reader; not at the last cell, where the second store leaves the array |
| RingBuffers.RingBuffer.ImmediateRead | io/ring_buffer.h:82-87 | removes and returns the oldest byte; from an empty queue it makes every other cell unread |
| RingBuffers.RingBuffer.NonBlockingWrite | io/ring_buffer.h:47-54 | appends if and only if there is room |
| RingBuffers.RingBuffer.NonBlockingRead | io/ring_buffer.h:75-81 | the oldest byte, or -1 from an empty queue |
| RingBuffers.RingBuffer.Flush | io/ring_buffer.h:88-90 | forgets every unread byte |
| RingProtocol.StepKeepsInv | io/ring_buffer.h:44-87 | every access by either side, with stale copies of the other's pointer, keeps the queue intact |
| RingProtocol.AccessesInBounds | io/ring_buffer.h:60-65 | no access leaves the array; the unmasked second store of a pair included |
| RingProtocol.StepIsQueueStep | io/ring_buffer.h:44-87 | only publishing appends and only releasing removes, by whole units; every other access leaves the queue alone |
| RingProtocol.BoundedFifo | io/ring_buffer.h:44-87 | in every run what was read is a prefix of what was published and the rest, at most size - 1 bytes, is still there in order |
| TwiMasters.TwiMaster.Request | io/twi.h:123-139 | the class does to its fields, rings and bus what the value model says |
| TwiMasters.TwiMaster.Send | io/twi.h:141-155 | the same for Send |
| TwiMasters.TwiMaster.InterruptHandler | io/twi.h:174-211 | the same for every status and data the handler can see; after each fault the master is READY with that error and both queues as they were |
| TwiMasters.TwiMaster.Wait | io/twi.h:113-116 | ends, with master and bus settled, whenever the bus will raise the interrupts the transfer needs |
| TwiSafety.StepKeepsInv | io/twi.h:123-211 | every main-side step and interrupt keeps the outstanding bytes within the free places |
| TwiSafety.ReceiveRingSafety | io/twi.h:123-139 | in every run from power-on whose Requests are refused at once or leave room for the bytes outstanding, the handler's unguarded store never meets a full ring, and READY without error means all requested bytes came |
| TwiSafety.RequestSafeIff | io/twi.h:123-139 | a Request interrupted between its check and its commitment is safe if and only if it is refused at once or leaves room for the bytes outstanding |
| TwiSafety.ReceptionAppends | io/twi.h:198-206 | arriving bytes are appended in order whatever is read meanwhile; the last one makes the master READY |
| TwiSafety.RequestDelivers | io/twi.h:123-139 | a granted Request for n >= 1 bytes yields exactly the n bytes of the bus, in order, and READY without error |
| TwiSafety.TransmissionIsFifo | io/twi.h:183-197 | bytes leave in the order they were queued, with refills at any moment |
| TwiSafety.TransmissionDrains | io/twi.h:190-197 | with no refill: the queue in order, one STOP when it is found empty, READY |
| TwiSafety.SendCompletesIff | io/twi.h:192-197 | a fault-free Send completes if and only if no reception was left unfinished |
| TwiSafety.RefusedRequestBlocksSend | io/twi.h:186-193 | after a Request the slave refuses, no Send before the next completed Request ever completes |
| EepromBus.AbsorbData | devices/twi_eeprom.h:116-133 | data within a page reaches consecutive cells of the device's wrapping latch |
| EepromBus.PageWrite | devices/twi_eeprom.h:116-133 | two address bytes and a page's worth of data change exactly those cells |
| EepromBus.BlocksStoredIff | devices/twi_eeprom.h:116-133 | on one chip every block sent to a place of its own is stored there exactly if and only if the block size divides the page size |
| EepromBus.SettleTransmit | io/twi.h:183-197 | a transmission delivers the whole queue to the chip and ends with STOP |
| EepromBus.SettleReceive | io/twi.h:198-206 | a reception reads consecutive cells, from an address the device advances |
| EepromBus.SendDelivers | io/twi.h:141-155 | Send to a listening chip ends with its bytes in the chip |
| EepromBus.SendRefused | io/twi.h:186-189 | Send to a busy or absent chip ends with NO_ACK and the queue untouched |
| EepromBus.RequestDrains | io/twi.h:123-139 | Request on an empty ring fills it with the chip's next cells |
| EepromBus.RequestRefused | io/twi.h:186-189 | Request to a busy or absent chip ends with NO_ACK and nothing received |
| EepromBus.RequestTooLong | io/twi.h:123-127 | Request for more than the ring holds does nothing at all |
| EepromBus.CellsRound | devices/twi_eeprom.h:54-74 | reading goes round inside the chip |
| EepromBus.CellsJoin | devices/twi_eeprom.h:54-74 | reading m and then n cells is reading m + n cells |
| EepromBus.FlatSlice | devices/twi_eeprom.h:76-81 | a slice inside one chip is a slice of the row's flat memory |
| EepromBus.FlatSplice | devices/twi_eeprom.h:120-126 | changing cells of one chip is one splice of the flat memory |
| EepromBus.BlockWritten | devices/twi_eeprom.h:116-133 | one block sent to the k-th chip is a splice of the flat memory; other chips are as they were |
| TwiEeproms.RowIsDistinct | devices/twi_eeprom.h:121-124 | with auto banking, banks that fit the address space have the different bus addresses 0x50 plus base and bank |
| TwiEeproms.TwiEeprom.Enqueue | devices/twi_eeprom.h:173-178 | header and payload go to the output ring in order |
| TwiEeproms.TwiEeprom.WriteRaw | devices/twi_eeprom.h:165-192 | all bytes delivered and their number returned, or 0 when they do not fit or the chip does not answer |
| TwiEeproms.TwiEeprom.SelectBank | devices/twi_eeprom.h:78-81 | bank and inner address are the chip and the cell the address stands for |
| TwiEeproms.TwiEeprom.SetAddress | devices/twi_eeprom.h:76-92 | moves the chip's pointer to the address and empties the input ring, changing no cell; fails exactly when the chip does not answer or the output ring has no room for two bytes |
| TwiEeproms.TwiEeprom.WriteWithinBlock | devices/twi_eeprom.h:116-133 | on pages that are whole blocks stores one block at its place in the flat memory; stores nothing when the chip does not answer or the block does not fit the ring; on any pages the bus afterwards is stated |
| TwiEeproms.TwiEeprom.WritesStoredIff | devices/twi_eeprom.h:94-114 | all that is sent, in blocks, for any range of the memory is stored exactly there if and only if the block size divides the page size |
| TwiEeproms.TwiEeprom.MisplacedBlock | devices/twi_eeprom.h:94-133 | otherwise some block in the first chip, is sent and is not afterwards where it should be |
| TwiEeproms.TwiEeprom.Storable | devices/twi_eeprom.h:94-114 | with rings that take a block everything is stored, whatever the address |
| TwiEeproms.TwiEeprom.Write | devices/twi_eeprom.h:94-114 | on pages that are whole blocks the memory changes in exactly the cells reported as written; when the chips listen these are all up to the first block that does not fit the ring; on any pages all data reported as written has been sent block by block |
| TwiEeproms.TwiEeprom.TakeWaiting | devices/twi_eeprom.h:58-62 | left-over bytes are taken first, oldest first |
| TwiEeproms.TwiEeprom.Read | devices/twi_eeprom.h:54-74 | left-over bytes and then the chip's next cells, whatever the sizes; if the chip does not answer the result is not a count. For every block and ring size for which the loop ends |
| TwiEeproms.ReadSpins | devices/twi_eeprom.h:56-72 | in all other cases the request is refused, Wait returns the error on record, and without one every turn of the loop begins as the one before |
| TwiEeproms.TwiEeprom.ReadAt | devices/twi_eeprom.h:151-157 | the memory's bytes at the address, going round inside its chip, so exactly those of a range inside it; no cell changes |
| TwiEeproms.TwiEeprom.WriteAndReadBack | devices/twi_eeprom.h:94-157 | on pages that are whole blocks what was written at an address is read back from it |
| LcdDevice.FeedAppend | devices/hd44780_lcd.h:191-202 | nibbles latched in two groups or in one leave the same controller |
| LcdDevice.FeedPair | devices/hd44780_lcd.h:130-142 | the two tagged nibbles of a byte make the controller execute that byte |
| Hd44780Lcds.Hd44780Lcd.Tick | devices/hd44780_lcd.h:117-128 | each interrupt moves at most one nibble and never changes the outcome once everything queued has arrived |
| Hd44780Lcds.Hd44780Lcd.WriteByte | devices/hd44780_lcd.h:130-142 | two free places or nothing; then the outcome is the controller having executed the byte |
| Hd44780Lcds.Hd44780Lcd.MoveCursor | devices/hd44780_lcd.h:155-157 | with two free places the outcome's display address becomes the row and column; otherwise nothing happens |
| Hd44780Lcds.Hd44780Lcd.Flush | devices/hd44780_lcd.h:179-184 | terminates with the queue empty and the outcome reached |
| BufferedDisplays.BufferedDisplay.Init | devices/buffered_display.h:51-60 | page of spaces, shadow of question marks, nothing counted as transmitted, no cursor, blink phase 0 |
| BufferedDisplays.BufferedDisplay.Print | devices/buffered_display.h:67-75 | exactly the cells of the line change, from its start as far as the text has neither ended nor a zero and the line has room |
| BufferedDisplays.BufferedDisplay.Elision | devices/buffered_display.h:149-152 | where Tick leaves out the cursor move, the controller's address already is the scan position |
| BufferedDisplays.BufferedDisplay.Transmit | devices/buffered_display.h:145-162 | the character reaches its place and the shadow records it there and nowhere else |
| BufferedDisplays.BufferedDisplay.BlinkPeriod | devices/buffered_display.h:121-132 | the cursor is shown for two phases and hidden for two, also where the phase counter wraps |
| BufferedDisplays.BufferedDisplay.StoreKeeps | devices/buffered_display.h:145-162 | a character stored in its place, with shadow and last position updated, keeps the shadow true and the address where the next character would go |
| BufferedDisplays.BufferedDisplay.AdvanceScan | devices/buffered_display.h:163-172 | row and column stay the coordinates of the scan position |
| BufferedDisplays.BufferedDisplay.FollowBlink | devices/buffered_display.h:121-125 | exactly when the LCD driver's counter is found below where it was left the blink phase moves on and the status goes out |
| BufferedDisplays.DisplayBlink | devices/buffered_display.h:111-125 | over any run whose Ticks with room come within 256 interrupts of each other the phase has moved once for every wrap of the counter but those between the two looks a Tick takes at it; the status stands until the first of them and is out from then on |
| BufferedDisplays.WrapSeen | devices/buffered_display.h:121-125 | between two such Ticks the counter falls if and only if it wraps |
| BufferedDisplays.BufferedDisplay.Tick | devices/buffered_display.h:111-173 | phase and status follow the counter; the shadow gets the rendered character at the scan position and stays true to the display everywhere; with under 4 free places nothing happens |
| BufferedDisplays.BufferedDisplay.ForceStatus | devices/buffered_display.h:98-109 | the shadow stays true, and every later cursor move that Tick leaves out is justified if and only if the last character was written at the first position, at the end of a line, or nowhere |
| BufferedDisplays.ForcedMisplacement | devices/buffered_display.h:98-162 | in every other state ForceStatus and a few more calls make the shadow false |
| BufferedDisplays.DisplayMirror | devices/buffered_display.h:51-173 | after any run of calls (ForceStatus where it is harmless) and interrupts the drained display shows the shadow wherever anything was transmitted since Init |
| BufferedDisplays.DisplayConvergence | devices/buffered_display.h:111-173 | one undisturbed scan makes the shadow at every position the cursor in two of four phases, the status on a blank at either end of the first line, or the page |
| AvrKernels.U16U16MulShift16 | utils/op.h:496-518 | floor of the product over 2^16 for all operands |
| AvrKernels.S16U16MulShift16 | utils/op.h:438-461 | the same with a signed operand: the carry of mulsu extends the sign |
| AvrKernels.S16U12MulShift12 | utils/op.h:463-494 | floor over 2^12 for a 12-bit factor; what a larger factor gives is stated as well |
| AvrKernels.S16U8MulShift8 | utils/op.h:520-534 | floor of the product over 2^8 |
| AvrKernels.U16U8MulShift8 | utils/op.h:536-550 | floor of the product over 2^8 |
| AvrKernels.S16S8MulShift8 | utils/op.h:552-568 | floor of the product over 2^8, both signed |
| AvrKernels.U8MixU16 | utils/op.h:221-236 | the exact weighted sum, with the balance register restored |
| AvrKernels.U8Mix | utils/op.h:170-185 | floor of the weighted mean, and the interval it lies in |
| AvrKernels.U8MixGains | utils/op.h:187-202 | exact if and only if the weighted sum fits 16 bits |
| AvrKernels.S8Mix | utils/op.h:204-219 | exact if and only if the signed weighted sum fits 16 bits |
| AvrKernels.U8U4MixU12 | utils/op.h:262-279 | the exact weighted sum with weights that add up to 15 |
| AvrKernels.U8U4MixU8 | utils/op.h:238-260 | the same over 16, through the nibble shuffle |
| AvrKernels.InterpolateSample | utils/op.h:574-599 | exact interpolation between neighbouring table cells and the interval it lies in |
| AvrKernels.U24AddC | utils/op.h:61-80 | sum and carry of 24-bit numbers, through the byte-wise carry chain |
| AvrKernels.U24Add | utils/op.h:82-98 | the sum modulo 2^24 |
| AvrKernels.U24Sub | utils/op.h:100-116 | the difference modulo 2^24, through the borrow chain |
| AvrKernels.AddThenSub | utils/op.h:82-116 | subtraction undoes addition |
| AvrKernels.Accumulate | utils/op.h:61-80 | start plus increments equals the final phase plus 2^24 for each carry |
| AvrKernels.S16ClipU8 | utils/op.h:150-164 | clips to 0..255 for every value |
| AvrKernels.S16ClipS8 | utils/op.h:166-168 | clips correctly if and only if value + 128 does not overflow |
| AvrKernels.U14ShiftRight6 | utils/op.h:410-423 | exact if and only if the value has 14 bits |
| Randoms.NextIsBijection | utils/random.h:32 | a step can be undone, from every state |
| Randoms.Random.Update | utils/random.h:29-33 | one step, from which the state before can be recovered: no seed is forgotten |
| Randoms.Random.Draw | utils/random.h:50-53 | n calls of GetWord return the first n iterates and leave the n-th as the state |
| RandomPeriod.NextIsLinear | utils/random.h:32 | a step commutes with XOR |
| RandomPeriod.PowerIsMul | utils/random.h:32 | n steps from any state are one multiplication by the n-th state reached from 0x8000 |
| RandomPeriod.FullTurn | utils/random.h:30-32 | 65535 steps lead every state back to itself |
| RandomPeriod.PeriodsAreMultiples | utils/random.h:30-32 | every period of a nonzero state is a multiple of 65535 |
| RandomPeriod.FullPeriod | utils/random.h:30-32 | from a nonzero seed the states after n and m steps agree if and only if n and m agree modulo 65535 |
| RandomPeriod.NeverZero | utils/random.h:30-32 | a nonzero seed never leads to zero |
| RandomPeriod.EveryWordOccurs | utils/random.h:30-32 | every nonzero word occurs within one period of every nonzero seed |
| MidiFormat.HeaderRequired | tools/midi/midifile.py:381-392 | a file is read only if it starts with MThd, a 6 and a format of at most 2; format and division are the signed fields at bytes 8 and 12 |
| MidiWire.PackedIsVarLen | tools/midi/midifile.py:40-53 | the shortest bytes whose lower seven bits, the first highest, are the number, with the top bit on all but the last |
| MidiWire.WireIff | tools/midi/midifile.py:60-275 | for every constructible event: its bytes with status are those written out for its constructor, and no others |
| MidiWire.EncodedTrack | tools/midi/midifile.py:309-323 | a track is, for each event, the time since the one before and its message, without the status byte that a channel message before left running |
| MidiWire.EncodedFile | tools/midi/midifile.py:325-371 | a file is MThd, 6, format, count and division, and for each track MTrk, the length of what follows in four bytes, and its events |
| MidiWire.DecodeOnWire | tools/midi/midifile.py:441-532 | every readable message at the front of any file is read as that event, with its time and size; without status after one of channel 1 as well |
| MidiWire.SkippedRead | tools/midi/midifile.py:446-532 | what is read as no event: other status bytes, channel prefixes, and data bytes before any channel message |
| MidiFiles.PackVariableLengthInteger | tools/midi/midifile.py:40-53 | the loops build the value's seven-bit groups, all but the last marked |
| MidiFiles.OrderOfAdding | tools/midi/midifile.py:303-323 | what may be written for a track, and whether it can be written, depends on its events and not on the order they were added in |
| MidiFiles.Track.Sort | tools/midi/midifile.py:306-307 | the same events in an order that respects their times |
| MidiFiles.Track.Serialize | tools/midi/midifile.py:309-323 | the bytes that the standard gives to some order by time with one end marker, which the track then holds; fails exactly on an empty track |
| MidiFiles.Track.Write | tools/midi/midifile.py:325-329 | the chunk with its exact length, byte by byte; fails exactly when empty or too long |
| MidiFiles.Writer.MergeTracks | tools/midi/midifile.py:346-352 | all events of all tracks, in an order by time |
| MidiFiles.Writer.Write | tools/midi/midifile.py:354-371 | header and chunks, byte by byte: all events as one track in format 0, each track otherwise; fails only if there are too many tracks or one is empty or can be too long in some order |
| MidiFiles.LightFits | tools/midi/midifile.py:309-329 | events of up to nearly 2 GB in all are never too long |
| MidiFiles.LengthBound | tools/midi/midifile.py:309-323 | the length of a track is at most the sum over its events, each counted with its own time and status |
| MidiFiles.Reader.ReadVariableLengthInteger | tools/midi/midifile.py:429-439 | the number at the front of the file and its length; fails at the end of the file |
| MidiFiles.Reader.ReadEvent | tools/midi/midifile.py:441-532 | file position, status byte and result are those of the decoding function, for all bytes, and every readable message spelt there is the result |
| MidiFiles.Reader.ReadTrack | tools/midi/midifile.py:395-408 | the same for a whole track; terminates because every event has a size of at least 1 |
| MidiFiles.Reader.Read | tools/midi/midifile.py:381-392 | the same for a whole file |
| MidiFiles.WriteThenRead | tools/midi/midifile.py:354-408 | a file of events legible in any order is written and reads back, as the reader hears them, and unchanged without system events and channels other than the first; so does any legible result; writing fails only as Write does |
| MidiFiles.AnyOrderLegible | tools/midi/midifile.py:303-323 | constructible events with short payloads and first operands below 128, under 1 GB, make a legible track in whatever order they are written |
| MidiFiles.AnyOrderHeard | tools/midi/midifile.py:441-532 | and if none is a system event or on a channel other than the first the track reads back as it was written |
| MidiRoundTrip.VarLenRoundTrip | tools/midi/midifile.py:40-53 | a packed number followed by anything reads back as that number and its length |
| MidiRoundTrip.EventRoundTripIff | tools/midi/midifile.py:177-181 | an event after any running status is read back, with exactly its size, if and only if: payload under 128 bytes, tempo in 1..2^24-1, ids of 3 and 2 bytes, first operand under 128 where the status is left out |
| MidiRoundTrip.EventRoundTrip | tools/midi/midifile.py:441-532 | the sufficient half, with what is heard: system events are dropped and a reused status means channel 1 |
| MidiRoundTrip.SysExPartsIff | tools/midi/midifile.py:523-528 | SysEx ids survive if and only if they have three and two bytes |
| MidiRoundTrip.LongPayload | tools/midi/midifile.py:492-498 | from 128 bytes on a meta event never reads back as itself |
| MidiRoundTrip.EventsRoundTrip | tools/midi/midifile.py:315-323 | the event sizes add up exactly to the track's length and the events return at their times |
| MidiRoundTrip.ReadBackIff | tools/midi/midifile.py:441-532 | a list returns unchanged if and only if it has no system events and channel 1 wherever a status byte is reused |
| MidiRoundTrip.TrackRoundTrip | tools/midi/midifile.py:325-408 | a chunk followed by anything reads back as its events and what follows, whatever status was left over from before |
| MidiRoundTrip.FileRoundTrip | tools/midi/midifile.py:354-392 | format, division and all tracks come back |
| HexRecords.DamageIsFound | tools/hexfile/hexfile.py:43-49 | a sound record with the digits of exactly one byte changed is not sound |
| IntelHex.LineIff | tools/hexfile/hexfile.py:33-63 | what each line is taken for, by its digits: it gives up exactly without nine characters, digits, its own length, a sum of 0 modulo 256, or zeros in an end record; a data record has its address in bytes 1 and 2 and its data from byte 4 on |
| IntelHex.LoadFails | tools/hexfile/hexfile.py:32-58 | loading fails if and only if such a line comes before any end record |
| IntelHex.LoadHexFile | tools/hexfile/hexfile.py:28-63 | the fold of the records over the cells; None if and only if a line before any end record is faulty, as every record with one changed byte is |
| IntelHex.WriteHexFile | tools/hexfile/hexfile.py:66-78 | the loop writes the text of all chunks and the end record; a chunk size of 0 raises |
| IntelHex.TwoDigits | tools/hexfile/hexfile.py:74-77 | a byte is written as two digits, letters in lower case |
| IntelHex.Checksum | tools/hexfile/hexfile.py:76 | a record's bytes with their checksum add up to a multiple of 256 |
| HexRoundTrip.RecordRoundTrip | tools/hexfile/hexfile.py:69-77 | a record with at most 255 bytes and a 16-bit address parses as its address and bytes |
| HexRoundTrip.WrittenIsSound | tools/hexfile/hexfile.py:69-77 | its digits are its length, the address, type 0, the bytes, and what makes a sum of 0 modulo 256 |
| HexRoundTrip.RecordTooLong | tools/hexfile/hexfile.py:38-41 | any other record makes the loader give up |
| HexRoundTrip.FileRoundTripIff | tools/hexfile/hexfile.py:28-78 | the text loads back as the data if and only if chunks have at most 255 bytes and the last record starts below 65536 |
| HexRoundTrip.FileRoundTrip | tools/hexfile/hexfile.py:28-78 | in particular for up to 65536 bytes in chunks of 1 to 255 |
| HexRoundTrip.LoadMeaning | tools/hexfile/hexfile.py:46-63 | a loaded file holds at each address the byte of the last record over it, NUL in gaps, and ends where the farthest record ends; it fails exactly on a bad line before the end record |
| Hex2SysEx.Nibblize | tools/midi/midifile.py:286-296 | element 2 i is the upper half of byte i and element 2 i + 1 the lower, the sum modulo 256 being the last byte |
| Hex2SysEx.NibblesRoundTrip | tools/midi/midifile.py:293-296 | nibbles join to their bytes, two to one, and are all below 16 |
| Hex2SysEx.PagesRoundTrip | tools/hex2sysex/hex2sysex.py:72-75 | the pages laid end to end are the data and the least padding to a page multiple |
| Hex2SysEx.PaddingFills | tools/hex2sysex/hex2sysex.py:74-75 | the padding is below a page and fills the last one |
| Hex2SysEx.PageConstructible | tools/hex2sysex/hex2sysex.py:77-80 | a page can be sent if and only if ids and command are 7-bit: nibbles always are |
| Hex2SysEx.PageMessage | tools/hex2sysex/hex2sysex.py:77-80 | the bytes of a page's message: 0xf0, manufacturer, device in two bytes, command, the halves of page and sum, 0xf7 |
| Hex2SysEx.PagesScheduled | tools/hex2sysex/hex2sysex.py:69-89 | the tempo at tick 0, page k at tick 1 + k steps, the reset message a step after the last page |
| Hex2SysEx.CollectPages | tools/hex2sysex/hex2sysex.py:65-90 | the track, on that schedule, and the .syx bytes of all pages and the reset message; fails exactly without data, with a page size below 1, on a gap cell or an 8-bit id or command |
| Hex2SysEx.CreateMidifile | tools/hex2sysex/hex2sysex.py:46-97 | the file written is that .syx or that track in format 1; nothing is written when the messages cannot be built, and otherwise writing fails only for a track that can be too long |
| FirmwareRoundTrip.OnlyOrder | tools/hex2sysex/hex2sysex.py:81-89 | events at different times have only one order |
| FirmwareRoundTrip.PageArrives | tools/hex2sysex/hex2sysex.py:77-80 | a receiver that checks length and checksum takes each page from its message |
| FirmwareRoundTrip.FirmwareRoundTrip | tools/hex2sysex/hex2sysex.py:65-97 | with a delay of at least a tick, reading the written file gives the pages in order, and the receiver the firmware with the least padding |
| FirmwareRoundTrip.PagesInOrderIff | tools/hex2sysex/hex2sysex.py:83-84 | the receiver gets the padded firmware in every admissible order of the events if and only if there is a delay of a tick or all pages are the same |
| FirmwareRoundTrip.AnyOrderWithoutDelay | tools/hex2sysex/hex2sysex.py:83-84 | without a delay every order of the pages is admissible and is what the receiver gets |
| FirmwareRoundTrip.SwappedWithoutDelay | tools/hex2sysex/hex2sysex.py:83-84 | in particular exchanging two pages that differ delivers something else |
| FirmwareRoundTrip.HexReachesPages | tools/hex2sysex/hex2sysex.py:134-152 | hex text of the firmware, loaded again, is complete input for the paging and has the firmware's bytes |
| FirmwareRoundTrip.SyxRoundTrip | tools/hex2sysex/hex2sysex.py:92-94 | a .syx file cut after each 0xf7 is one message a page and the reset message |
| ResourceTables.MakeIdentifier | tools/resources_compiler.py:117-132 | only characters of C identifiers are left |
| ResourceTables.WordsInLowerCase | tools/resources_compiler.py:117-132 | letters, digits and underscores stay, letters in lower case |
| ResourceTables.OtherCharacters | tools/resources_compiler.py:124-131 | which characters are left out, which stand for letters, and which become underscores |
| ResourceTables.UniqueKey | tools/resources_compiler.py:106-109 | terminates with the key that has the fewest underscores in front and is not taken |
| ResourceTables.FewerLongKeys | tools/resources_compiler.py:107-108 | the measure that makes the loop end: fewer taken keys are as long as the next candidate |
| ResourceTables.ResourceTable.FillEntries | tools/resources_compiler.py:96-115 | keys are pairwise different, values in order, and each entry shares the key of the first with its value |
| ResourceTables.ResourceTable.Compile | tools/resources_compiler.py:143-156 | the arrays written out and the names in the pointer table |
| ResourceTables.NamesEnd | tools/resources_compiler.py:38-40 | a name in the pointer table is the prefix, an underscore and the key of the first entry with the value |
| ResourceTables.WrittenIffFirst | tools/resources_compiler.py:67-70 | an entry is written out if and only if it is the first with its value |
| ResourceTables.LookupPreserved | tools/resources_compiler.py:143-156 | through the pointer table every entry finds an array with its own value |
| ResourceTables.CompiledOnce | tools/resources_compiler.py:67-84 | no value and no name is written out twice |
| ResourceTables.EveryValueCompiled | tools/resources_compiler.py:67-84 | every value is written out |

## Left out

- Hardware registers, pins, ports, clocks, DMA, timers and real delays. A delay of 5 ms is modelled only as the end of all EEPROM write cycles.
- SD card protocol and initialisation. `Reader.Init` takes the outcome of the media's own initialisation as given.
- Safe mode assumes that a failed media read leaves the buffer untouched (`Quiet`), as single-sector SD reads do on a timeout. Outside safe mode nothing is assumed.
- Reader.Init: whether sector 0 is a boot record or a partition table is decided as the code does, by signature and label; only the first partition entry is represented.
- Reader.Next: needs a witness that the enumeration can end, an index where an entry is listed or the directory stops, because on a cyclic chain with neither the original never returns; repeated calls after the end of the table are covered by the same contract.
- Reader.Read: reserved and time fields of directory entries are not represented, and name bytes are 0..255 (the signedness of `char` in the comparison with 0xe5 is a compiler matter).
- RingBuffer.Overwrite2: its contract excludes a write pointer at the last cell, where the second store leaves the array; `RingProtocol` proves that the LCD driver never gets there.
- The blocking Write and Read of the ring buffer: spinning until the other side has moved adds nothing to the non-blocking pair.
- Compiler reordering of accesses to the non-volatile ring array. Steps happen in program order.
- FlushInputBuffer, Flush and Done during a transfer, beyond what `TwiSafety` lists as actions of the main program.
- TwiEeprom.Read: the value returned when the chip does not answer is stated as the code computes it (size minus twice the bytes read), not as an error.
- TwiEeprom.ReadAt: for sizes whose first request fits the input ring, since otherwise the original does not return.
- TwiEeprom.Write: for a range inside the banks, and blocks of at most 253 bytes, so that the eight-bit sum of block and address bytes does not wrap; bus faults other than a chip that does not answer are left to `TwiSafety`.
- The two-argument Write(address, byte) of the EEPROM driver, which passes no address on, and the single-byte Read overloads.
- Hd44780Lcd.WriteByte: the original's WriteData and WriteCommand return no value when they succeed; the model returns true.
- Character-generator memory, string Write and the slow start-up sequence of the LCD driver. The constructor takes a controller that is set up.
- Kernels of one or two instructions (nibble swaps, other shifts, byte products), `Clip` and its variants, and the bodies for other compilers in `utils/op.h`.
- S16ClipS8: the overflowing addition is modelled as wrap-around of 16 bits, which C leaves undefined.
- Register allocation and operand constraints of the assembly blocks.
- Track.Sort: stands for the library sort; the order of simultaneous events is left open, as object addresses decide it in the original.
- Track.AddEvent: times are not negative; for a negative first time the original's integer packing does not end.
- Tempo and time-signature events carry the integers of the file (microseconds a beat, power of two) in place of the floating-point numbers computed from them. Channels are 1 to 16. Tempo maps and AbsoluteTime are not modelled.
- CreateMidifile: comment tracks and the formatting of options are left out, and the delay between pages is given in ticks.
- Log messages, option parsing, file names and file system errors of the tools.
- ResourceTable.Compile: the text of the C source, the declarations in the header and the `#define` aliases are left out; rows of string tables enter with their stripped value.
