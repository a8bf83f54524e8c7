# Verified models of the firmware's stateful core

Dafny models of the parts of the firmware that keep state and have to keep it right, with proofs of what they promise.
`dafny verify dfyconfig.toml` checks everything.

- **Flash key-value store** (`Flash`, `KvLog`, `KvCompact`, `KvImage`, `FlashKv`, `KvForeach`, `KvTorn`,
  `KvRecovery`). The log of checksummed records in one 4 KB sector is a map, for every sector content. Flash is NOR:
  erase gives 0xFF, programming is a bitwise AND, written block by block. The chip records the commands it is given, so
  what a call writes, and what a power cut leaves of it, is part of the contracts. The checksum is a parameter:
  everything holds for every checksum function.
- **UART transmit path** (`RingBuffer`, `Uart`, `UartProgress`, `UartPort`). Tasks, one interrupt level and one
  fast-interrupt level as atomic steps on one core; a section under the global mask is one step, and the class methods
  show that it is. Safety over every run, and that bytes get out.
- **Camera stream** (`CameraStream`, `CameraDevice`). The end-of-frame interrupt and the DMA may come between any two
  steps of the reader.
- **WPA2 station** (`AesTables`, `AesField`, `Aes`, `AesStandard`, `AesCode`, `KeyWrap`, `Sha1`, `Hmac`, `Kdf`,
  `Eapol`, `Wpa2Sm`, `Wpa2Station`, `Handshake`). The cryptography down to the S-box and against FIPS 197, RFC 3394,
  RFC 2104 and FIPS 180-4, the frames, the state machine with a trace of the ops it calls, and the agreement with an
  honest authenticator. The SHA-1 compression function is a parameter: everything holds for every such function.
- **Config page** (`Json`, `ConfigJson`, `JsonGrammar`, `JsonCode`), **DHCP pool** (`DhcpOptions`, `DhcpLeases`,
  `DhcpServer`), **clock** (`Calendar`, `SoftRtc`).

`Wrappers`, `Bytes`, `Octets`, `Buffers`, `Slices` and `Arithmetic` hold what several of them share. Code that works in
place is modelled in place: classes and arrays, with each method tied to a function of the old state; the properties are
lemmas about those functions.

## What the proofs show about the code

Where a promise does not hold for all inputs, the exact condition is proved, next to inputs that break it.

- *Write-protected flash.* `flash_kv_set` and `flash_kv_erase_key` verify by reading back. When a rebuild's image happens
  to be what the sector already starts with, the read-back passes on a protected chip and 0 is returned although the map
  did not change. `FlashKv.Kv.Append` states exactly when (`NeedsRebuild`, room, `AlreadyImage`); `FlashKv.LockedSetCanLie`
  and `FlashKv.LockedEraseCanLie` give sectors for any values. On unprotected flash 0 always means the update happened.
- *Torn append.* A partial value behind which the checksum field is still erased passes its check only if the checksum is
  0xFFFFFFFF (`KvTorn.Slips`). `KvTorn.TornAppend` says exactly when this shows, `KvRecovery.SlipShows` that for every
  checksum such a cut shows in a fresh store, and `KvRecovery.CutCanSlip` gives a checksum and a record with one.
- *Set after a torn append.* Storing a value that is already there writes nothing (`FlashKv.Kv.Set`). So the next set that
  succeeds leaves a valid sector exactly when it changed the map or the cut had left the sector valid
  (`KvRecovery.SetAfterPowerLoss`); `KvRecovery.SameValueAfterCut` is a family of sets after which it is still torn.
- *Synchronous UART write.* With only the interrupt masked, a fast interrupt that prints between the FIFO test and the
  FIFO write can fill the FIFO, and the byte is lost (`Uart.MaskedWriteCanLose`). `Uart.RunLoses` counts exactly these
  writes over every run; `Uart.RunAccounted` says that nobody else's bytes are touched by it.
- *EAPOL length.* A frame parses back exactly when its body is shorter than 65536 bytes (`Eapol.ParseOfFrame`); a longer
  one wraps the length field. The station's own frames are at most 512 bytes.
- *Key wrap counter.* The code puts 16 bits of the step counter into the tag, RFC 3394 64 bits. The two tags agree exactly
  below 65536, so the first counter that differs is 65536 (`KeyWrap.TagIsStandard`); no run reaches it exactly when six
  times the number of 8-byte registers is below 65536 (`KeyWrap.CountersFit`). The station unwraps at most 192 bytes.
- *Stream counters.* The camera's head and tail wrap at 2^32. Entries keep their ring place exactly when the slot count
  divides 2^32 (`CameraStream.WrapKeepsPlace`), which of the accepted counts 2, 4 and 8 do
  (`CameraStream.GoodSlotCounts`); for the others entry 2^32 is the first to be misplaced (`CameraStream.FirstWrap`).
- *Replay baseline.* An authentic frame whose key data does not unwrap is answered by a failure and does not move the
  baseline, so its counter can be used again (`Wpa2Sm.BaselineMoves`).
- *Group keys.* A group key goes in exactly when it is not the newest one (`Handshake.GroupRekey`), so going from one key
  to another and back installs the first one again (`Handshake.EarlierGtkReturns`); the replay counter must still grow
  for that.
- *SNonce.* A repeated message 1 keeps the SNonce exactly when an earlier answer went out, or the random bytes repeat
  (`Handshake.SNonceKept`); `Handshake.FailedSendRedraws` is a run in which it changes. From the first successful send on
  there is one SNonce, also for sends that fail (`Handshake.OneSNonce`).
- *DHCP clock.* Before the 32-bit clock wraps, the table is the least-recently-used list. At the wrap it stays in step
  with the list exactly when the list then has one entry (`DhcpLeases.FindAtWrap`, `TakeAtWrap`, `ClaimAtWrap`); otherwise
  the client that asked last looks like the one that asked longest ago (`DhcpLeases.WrapEvictsNewest`).
- *DHCP address range.* A client is given back the address it asks for exactly if the pool does not run past the end of
  the address space (`DhcpServer.SlotAtAddr`).
- *Config text.* The page reads a part of JSON, which `JsonGrammar.FromJsonIs` gives exactly: `\u` only up to 007F, at
  most nine digits in a number and no sign, and a string, number, bool or null as the value of an unknown key.

## Model

| member | source | states |
|---|---|---|
| `Flash.Chip.Read` | src/platform/drivers/hardware_flash/flash.c:46-69 | the block-wise read returns exactly the addressed cells |
| `Flash.Chip.Write` | src/platform/drivers/hardware_flash/flash.c:102-125 | the block-wise read-modify-write programs (ANDs) exactly the addressed cells and leaves all others as they were; a protected chip does not change |
| `Flash.Chip.EraseSector` | src/platform/drivers/hardware_flash/flash.c:96-100 | the whole sector around the address becomes 0xFF, nothing else changes |
| `Flash.AndBits` | src/platform/drivers/hardware_flash/flash.c:102-125 | a programmed cell has exactly the bits that it and the new byte both had |
| `Flash.TornWriteIsPrefix` | src/platform/drivers/hardware_flash/flash.c:102-125 | wherever the power fails during a write, the cells hold the old content with some prefix of the source programmed |
| `Flash.TornWriteIsCut` | src/platform/drivers/hardware_flash/flash.c:102-125 | what a power failure during a write leaves is what cutting the page programs of the write short leaves |
| `KvLog.EncodeParses` | src/platform/misc/flash_kv/flash_kv.c:56-65 | an encoded record parses back to its key and value wherever it stands |
| `KvLog.ParseIff` | src/platform/misc/flash_kv/flash_kv.c:86-122 | a reader finds a record exactly where the bytes of that record lie, whatever the padding holds |
| `KvLog.RecordBytes` | src/platform/misc/flash_kv/flash_kv.c:48-65 | a record is key, length, value, zeros up to a multiple of 4, and the checksum of what stands before the zeros, each least significant byte first |
| `KvLog.WalkUnique` | src/platform/misc/flash_kv/flash_kv.c:86-122 | a list of records that ends where no record follows is the whole result of the walk |
| `KvLog.ValidIs` | src/platform/misc/flash_kv/flash_kv.c:138-151 | a sector is valid exactly when it is the header, records one after the other and erased bytes to the end |
| `KvLog.StatesAre` | src/platform/misc/flash_kv/flash_kv.c:72-84 | blank exactly when the first eight bytes are 0xFF, foreign exactly when they are neither that nor the header |
| `KvCompact.CollectProperties` | src/platform/misc/flash_kv/flash_kv.c:219-243 | collecting keeps one record per key that has a value, stands for the same map as the log and is never longer than the log |
| `KvCompact.AppendView` | src/platform/misc/flash_kv/flash_kv.c:281-294 | a record written behind a valid log leaves a valid sector whose map is the old one with that update |
| `KvCompact.ImageSectorView` | src/platform/misc/flash_kv/flash_kv.c:260-278 | a compacted image in an erased sector is a valid sector whose map is that of its records |
| `KvImage.ImagePut` | src/platform/misc/flash_kv/flash_kv.c:220-237 | the in-place edit of the image buffer drops the key and appends the record; it fails exactly when the result exceeds the sector |
| `FlashKv.Kv.CollectImage` | src/platform/misc/flash_kv/flash_kv.c:239-243 | while collecting the image never outgrows the log, so the overflow flag stays false |
| `FlashKv.Kv.Rebuild` | src/platform/misc/flash_kv/flash_kv.c:260-278 | ENOMEM and ENOSPC exactly when memory or room is missing, with the flash untouched; otherwise the sector becomes the compacted image |
| `FlashKv.Kv.Append` | src/platform/misc/flash_kv/flash_kv.c:281-294 | with room behind a valid log the record is added at its end: the log is the old one and the record, the cells are the old ones with the record programmed there, and the only commands are the page programs of its bytes; otherwise the sector is compacted; through both paths the map becomes the old one with the update; every error leaves the flash unchanged |
| `FlashKv.Kv.Get` | src/platform/misc/flash_kv/flash_kv.c:168-184 | reads the map of the sector, whatever the sector holds, with each error code exactly when the code documents it |
| `FlashKv.Kv.Set` | src/platform/misc/flash_kv/flash_kv.c:297-310 | every code exactly when it is due: EINVAL for bad arguments, ENOMEM when an allocation the path needs fails, ENOSPC when header, other live records and the new one exceed the sector, EIO on protected flash only; every error leaves the flash unchanged; 0 on unprotected flash in all other cases, and then the map is exactly the old one with key set to value, the sector valid if the map changed, and no command given if it did not; with room the log grows by exactly this record and nothing is erased |
| `FlashKv.Kv.EraseKey` | src/platform/misc/flash_kv/flash_kv.c:312-317 | 0 on unprotected flash means the map is exactly the old one without the key, and no command given if the key was not set; with room the log grows by exactly one record without a value and nothing is erased; removing never fails for space |
| `FlashKv.RebuiltFits` | src/platform/misc/flash_kv/flash_kv.c:260-294 | the size test of a rebuild is a statement about the map: the live bytes of the other keys plus the new record |
| `FlashKv.WholeLive` | src/platform/misc/flash_kv/flash_kv.c:86-122 | the live records of any sector content fit a sector |
| `FlashKv.LockedSetCanLie` | src/platform/misc/flash_kv/flash_kv.c:246-278 | on protected flash a set can report success without changing the map: for any two values of a key there is a sector that shows it |
| `FlashKv.LockedEraseCanLie` | src/platform/misc/flash_kv/flash_kv.c:246-278 | the same for removing a key: for any stored value there is a sector that shows it |
| `KvTorn.TornAppend` | src/platform/misc/flash_kv/flash_kv.c:56-145 | after any prefix of an appended record every other key is untouched, and the map is the old or the new one exactly when no partial value slips through its checksum with another value than the old one |
| `KvRecovery.CutAppend` | src/platform/misc/flash_kv/flash_kv.c:281-294 | wherever the commands an append gives are cut short, what is left is a torn sector, and no cell outside it has changed |
| `KvTorn.TornThenRebuild` | src/platform/misc/flash_kv/flash_kv.c:260-278 | a rebuild over a torn sector leaves a valid sector holding the surviving map with the update |
| `KvRecovery.SetAfterPowerLoss` | src/platform/misc/flash_kv/flash_kv.c:281-310 | the next set after a torn append, through either path: it succeeds when arguments, memory and room allow; the map is then the old or the new one with that update, and the sector is valid exactly when the set changed the map or the cut had left it valid |
| `KvRecovery.SameValueAfterCut` | src/platform/misc/flash_kv/flash_kv.c:297-310 | after a cut behind the first byte of a record, storing a value that is already there succeeds and leaves the sector torn |
| `KvRecovery.SlipShows` | src/platform/misc/flash_kv/flash_kv.c:48-65 | for every checksum, a cut that slips through it shows: in a fresh store it leaves a value that nobody stored |
| `KvTorn.PowerLossDuringAppend` | src/platform/drivers/hardware_flash/flash.c:102-125 | a power failure inside the block-wise write of a record is one of the torn appends |
| `KvForeach.ListingAgrees` | src/platform/misc/flash_kv/flash_kv.c:340-399 | for every key of the log exactly one record is not OLD; it is LIVE exactly when the key is in the map, and then holds its value |
| `KvForeach.LiveIsTheMap` | src/platform/misc/flash_kv/flash_kv.c:340-399 | the LIVE records are exactly the map: a key is set exactly when one carries it, and each carries its value |
| `KvForeach.CollectIsLive` | src/platform/misc/flash_kv/flash_kv.c:219-243 | collecting keeps exactly the records that are newest of their key and have a value, in the order of the log |
| `KvForeach.RebuiltIsLive` | src/platform/misc/flash_kv/flash_kv.c:260-278 | what a compaction writes is the live records of the log with the new record behind it, in their order |
| `KvForeach.ReportStands` | src/platform/misc/flash_kv/flash_kv.c:383-399 | each report tells of a record that lies at its offset; the next one begins where it ends, the first one behind the header |
| `KvForeach.LogBounded` | src/platform/misc/flash_kv/flash_kv.c:24-24 | no sector holds more than MAX_RECORDS records, so the table never overflows |
| `KvForeach.Foreach` | src/platform/misc/flash_kv/flash_kv.c:383-399 | reports every record of the walk once, in order, with the status of the listing |
| `RingBuffer.RingBuf.Put` | src/platform/misc/ring_buffer/ring_buffer.c:12-23 | appends to the queued bytes exactly when there is room, with cursors that wrap at the word size |
| `RingBuffer.RingBuf.Get` | src/platform/misc/ring_buffer/ring_buffer.c:25-36 | takes the oldest queued byte exactly when there is one |
| `RingBuffer.WrapKeepsSlot` | src/platform/misc/ring_buffer/ring_buffer.c:12-36 | wrapping a cursor does not move the slot it stands for, because the capacity divides the word range |
| `Uart.StepKeeps` | src/platform/drivers/hardware_uart/uart.c:88-289 | every step of every context keeps wire + FIFO + queue equal to the accepted bytes, the FIFO within 128, and a non-empty queue armed whenever interruptible code runs; a byte is lost exactly when a synchronous write finds the FIFO filled by a fast interrupt |
| `Uart.RunOrdered` | src/platform/drivers/hardware_uart/uart.c:132-289 | the same over every interleaving of task writes, interrupts, FIFO drain and printing fast interrupts |
| `Uart.RunLoses` | src/platform/drivers/hardware_uart/uart.c:88-95 | over every run, the number of bytes lost is the number of masked writes that reach their register write with the FIFO full; nothing is lost exactly when there is none |
| `Uart.RunLossless` | src/platform/drivers/hardware_uart/uart.c:132-242 | no byte is lost in any run in which no fast interrupt starts to print between the room test of a masked write and its register write |
| `Uart.RunAccounted` | src/platform/drivers/hardware_uart/uart.c:187-242 | over every run: the bytes of each task and of the fast interrupt are accepted once and in their order, but for one still on its way; the bytes written with the interrupt masked are the accepted and the lost ones, each in order, but for one still on its way |
| `Uart.MaskedWriteCanLose` | src/platform/drivers/hardware_uart/uart.c:88-95 | a run in which a byte written with only the interrupt masked is lost to a fast interrupt that prints in between |
| `UartPort.TxPort.WriteSection` | src/platform/drivers/hardware_uart/uart.c:187-242 | the masked section of a write over the real ring buffer is one step of the model |
| `UartPort.TxPort.SendSection` | src/platform/drivers/hardware_uart/uart.c:132-152 | the masked section of a blocked send is one step of the model |
| `UartPort.TxPort.FlushSection` | src/platform/drivers/hardware_uart/uart.c:157-173 | the masked section of a flush is one step of the model |
| `UartPort.TxPort.IsrSection` | src/platform/drivers/hardware_uart/uart.c:256-289 | each turn of the interrupt handler is one step of the model |
| `UartPort.TxPort.Isr` | src/platform/drivers/hardware_uart/uart.c:256-289 | the handler with its loop: the first bytes of the queue go behind those in the FIFO, as many as there are places or as are queued, and it disarms exactly when the queue runs out before the room |
| `UartProgress.IsrSends` | src/platform/drivers/hardware_uart/uart.c:256-289 | the same step by step, while the wire takes bytes: with no fast interrupt in between it ends, having sent min(128 - FIFO, queue) bytes in order |
| `UartProgress.StepsForward` | src/platform/drivers/hardware_uart/uart.c:88-247 | every step of a write, send, flush or drain that finds the FIFO ready brings it closer to its end |
| `UartProgress.CallFinishes` | src/platform/drivers/hardware_uart/uart.c:88-247 | a call whose code finds the FIFO ready whenever it runs is done after at most three steps a queued byte and five more |
| `UartProgress.DrainWaits` | src/platform/drivers/hardware_uart/uart.c:244-247 | when a drain returns, whatever ran meanwhile, every byte accepted before the call is on the wire |
| `UartProgress.SlowNeverArms` | src/platform/drivers/hardware_uart/uart.c:212-218 | while every write finds room in the FIFO, nothing is queued and the interrupt is never armed |
| `CameraStream.StepKeeps` | src/platform/devices/camera/camera.c:374-470 | every step of the interrupt, the DMA and the reader keeps ownership exclusive and frames intact |
| `CameraStream.RunKeeps` | src/platform/devices/camera/camera.c:374-470 | over every interleaving: DMA target, queued and held slots are disjoint and exactly the busy ones; queued and held frames keep their bytes, start FF D8 and end FF D9; frames come out once, in order, with their size; interrupts = armed + queued + dropped |
| `CameraStream.FindsFree` | src/platform/devices/camera/camera.c:390-394 | a next slot is found exactly when one besides the current is free, and it is not the current one |
| `CameraStream.EndFrameOutcome` | src/platform/devices/camera/camera.c:374-409 | an armed stream queues its frame exactly when it arrived whole, from FF D8 to FF D9 with five bytes behind it, and some other slot is free; otherwise it counts one drop and changes nothing else |
| `CameraStream.RoomIs` | src/platform/devices/camera/camera.c:390-394 | some other slot is free exactly while the unread and held frames are fewer than the slots less one |
| `CameraStream.GetDelivers` | src/platform/devices/camera/camera.c:454-463 | with an unread frame, four steps of the reader give it the address and size of the oldest one, whatever the interrupt, the DMA and releases do in between |
| `CameraStream.UnreadBounded` | src/platform/devices/camera/camera.c:374-409 | fewer unread entries than slots, so no unread queue entry is overwritten |
| `CameraStream.CurrentIsPrivate` | src/platform/devices/camera/camera.c:374-409 | the slot the DMA writes is neither queued nor held |
| `CameraStream.SlotRoundTrip` | src/platform/devices/camera/camera.c:465-470 | the address handed out divides back to its slot on release |
| `CameraStream.WrapKeepsPlace` | src/platform/devices/camera/camera.c:399-399 | head and tail that wrap at 2^32 keep every entry in its ring place exactly when the slot count divides 2^32 |
| `CameraStream.FirstWrap` | src/platform/devices/camera/camera.c:399-399 | otherwise entry 2^32 is the first that goes to another place |
| `CameraDevice.Device.OnEndFrame` | src/platform/devices/camera/camera.c:374-409 | the handler over the real arrays does exactly the interrupt step, which EndFrameOutcome states |
| `CameraDevice.Device.Get` | src/platform/devices/camera/camera.c:454-463 | the reader call over the real arrays returns the oldest unread frame, or nothing |
| `CameraDevice.Device.Release` | src/platform/devices/camera/camera.c:465-470 | frees exactly the slot of the frame; an address outside the stream changes nothing |
| `AesTables.OrderOf3` | src/platform/port_wifi/api/wpa2_aes.c:12-29 | 3 has order 255 in the field: the walk that fills the table ends after visiting every non-zero byte |
| `AesTables.SboxPermutation` | src/platform/port_wifi/api/wpa2_aes.c:15-28 | the generated S-box is a permutation and the second table is its inverse |
| `AesTables.InitTables` | src/platform/port_wifi/api/wpa2_aes.c:15-28 | the loops of init_tables end and fill both tables with these functions |
| `AesField.SboxIsStandard` | src/platform/port_wifi/api/wpa2_aes.c:12-28 | the S-box of FIPS 197 section 5.1.1: the affine image of the multiplicative inverse in GF(2^8) |
| `AesField.MixIsStandard` | src/platform/port_wifi/api/wpa2_aes.c:73-83 | the column mix of FIPS 197 section 5.1.3: coefficients 2, 3, 1, 1 |
| `Aes.MixColumnsInverse` | src/platform/port_wifi/api/wpa2_aes.c:73-96 | inv_mix_columns, which corrects and then mixes, undoes mix_columns, and the other way round |
| `Aes.ShiftRowsInverse` | src/platform/port_wifi/api/wpa2_aes.c:57-71 | the two row shifts undo each other |
| `Aes.DecryptEncrypt` | src/platform/port_wifi/api/wpa2_aes.c:98-138 | for every key and block decrypt undoes encrypt and encrypt undoes decrypt |
| `AesCode.Expand` | src/platform/port_wifi/api/wpa2_aes.c:30-46 | the loop computes the schedule that ScheduleWords states |
| `AesStandard.ScheduleWords` | src/platform/port_wifi/api/wpa2_aes.c:30-46 | on the bytes of the schedule, by FIPS 197 section 5.2: the first words are the key; word i is word i - 4 plus word i - 1, the latter rotated, through the S-box and with the round constant 01, 02, 04 .. 80, 1b, 36 if i is a multiple of 4 |
| `AesStandard.EncryptIsStandard` | src/platform/port_wifi/api/wpa2_aes.c:98-117 | on the bytes of the states, by FIPS 197 section 5.1: key addition, nine full rounds of S-box, row r shifted by r columns, column mix and key addition, and a last one without the mix |
| `AesCode.EncryptBlock` | src/platform/port_wifi/api/wpa2_aes.c:98-117 | the in-place rounds compute the cipher |
| `AesCode.DecryptBlock` | src/platform/port_wifi/api/wpa2_aes.c:119-138 | the in-place rounds compute the inverse cipher |
| `KeyWrap.UnwrapOfWrap` | src/platform/port_wifi/api/wpa2_aes.c:142-188 | unwrapping a wrapped text of any length that is a multiple of 8 and at least 16 succeeds with that text |
| `KeyWrap.WrapOfUnwrap` | src/platform/port_wifi/api/wpa2_aes.c:142-188 | whatever unwraps successfully is the wrap of its result |
| `KeyWrap.KeyWrapCode` | src/platform/port_wifi/api/wpa2_aes.c:142-163 | the in-place loops compute the wrap, with the two-byte step counter of the code |
| `KeyWrap.KeyUnwrapCode` | src/platform/port_wifi/api/wpa2_aes.c:165-188 | the in-place loops compute the unwrap, failure included, with the two-byte step counter of the code |
| `KeyWrap.TagIsStandard` | src/platform/port_wifi/api/wpa2_aes.c:155-158 | two counter bytes give the 64-bit tag of RFC 3394 section 2.2.1 exactly while the counter is below 65536 |
| `KeyWrap.CountersFit` | src/platform/port_wifi/api/wpa2_aes.c:148-158 | all counters of a run are below 65536 exactly when six times the number of registers is |
| `KeyWrap.WrapIsStandard` | src/platform/port_wifi/api/wpa2_aes.c:142-163 | under that condition the wrap is that of RFC 3394 section 2.2.1 in its shifting form: the registers move by one place in each of the 6 n steps and the counter runs from 1 |
| `Sha1.AbsorbBlock` | src/platform/port_wifi/api/wpa2_sha1.c:55-70 | absorbing block by block is absorbing the whole |
| `Sha1.Context.Update` | src/platform/port_wifi/api/wpa2_sha1.c:55-70 | the buffered state always stands for the bytes fed so far |
| `Sha1.Context.PadTo56` | src/platform/port_wifi/api/wpa2_sha1.c:72-80 | the padding loop ends, after the number of zero bytes of FIPS 180-4 section 5.1.1 |
| `Sha1.PadIs` | src/platform/port_wifi/api/wpa2_sha1.c:72-86 | the padding of FIPS 180-4 section 5.1.1: 0x80, the fewest zeros that make whole blocks, and the length in bits, read back as a number |
| `Sha1.OutputReads` | src/platform/port_wifi/api/wpa2_sha1.c:85-90 | the digest read in words, most significant byte first, is the chaining value |
| `Sha1.OneBlock` | src/platform/port_wifi/api/wpa2_sha1.c:45-90 | a message of at most 55 bytes is one compression of the initial value of FIPS 180-4 |
| `Sha1.Context.Final` | src/platform/port_wifi/api/wpa2_sha1.c:72-90 | the result is the digest of the padded message |
| `Sha1.DigestOfParts` | src/platform/port_wifi/api/wpa2_sha1.c:55-90 | any split of a message into updates gives the digest of the whole |
| `Hmac.MacOfParts` | src/platform/port_wifi/api/wpa2_sha1.c:99-134 | any split of a message into updates gives the HMAC of RFC 2104 section 2 |
| `Hmac.MacIs` | src/platform/port_wifi/api/wpa2_sha1.c:99-134 | the MAC of RFC 2104 section 2, with 0x36 and 0x5c added to the key filled up to a block |
| `Kdf.PtkSymmetric` | src/platform/port_wifi/api/wpa2_kdf.c:83-99 | either side derives the same PTK, whoever's address and nonce comes first |
| `Kdf.PtkIs` | src/platform/port_wifi/api/wpa2_kdf.c:53-99 | the PTK is 48 bytes of three MACs with the counters 0, 1, 2 over the label, a zero byte, the smaller address, the larger, the smaller nonce and the larger |
| `Kdf.Prf` | src/platform/port_wifi/api/wpa2_kdf.c:53-81 | the block loop, with one HMAC base copied per block, computes the PRF; it fails exactly when the input exceeds the work buffer |
| `Kdf.PtkCode` | src/platform/port_wifi/api/wpa2_kdf.c:83-99 | computes the PTK from the ordered addresses and nonces |
| `Kdf.LessIsOrder` | src/platform/port_wifi/api/wpa2_kdf.c:87-90 | memcmp is a strict total order on byte strings of one length |
| `Eapol.ParseOfFrame` | src/platform/port_wifi/api/wpa2_eapol.c:12-61 | a built frame parses back to its fields, whatever follows it, exactly when its body length fits the 16-bit length field |
| `Eapol.ParseIff` | src/platform/port_wifi/api/wpa2_eapol.c:12-31 | every frame, field by field: it parses exactly when its bytes are those of a key frame, and then to these fields |
| `Eapol.MicOkIs` | src/platform/port_wifi/api/wpa2_eapol.c:63-81 | the MIC is the first 16 bytes of the MAC of the frame with bytes 81 to 96 zero |
| `Eapol.MicOfBuild` | src/platform/port_wifi/api/wpa2_eapol.c:33-81 | a frame built with a key passes the MIC check under that key |
| `Eapol.BuildCode` | src/platform/port_wifi/api/wpa2_eapol.c:33-61 | the buffer holds exactly the frame, or nothing is written when it does not fit |
| `Eapol.MicOkCode` | src/platform/port_wifi/api/wpa2_eapol.c:63-81 | the three updates and the compare without early exit decide the MIC |
| `Eapol.FindAfter` | src/platform/port_wifi/api/wpa2_eapol.c:83-101 | the GTK element is found behind any other elements, whatever follows it |
| `Eapol.FindGtkCases` | src/platform/port_wifi/api/wpa2_eapol.c:83-101 | every key data is ordinary elements followed by a GTK element, which is the one found, or by an end of the search, and then none is |
| `Eapol.FindGtkCode` | src/platform/port_wifi/api/wpa2_eapol.c:83-101 | the index walk finds the first GTK element |
| `Wpa2Sm.StepKeeps` | src/platform/port_wifi/api/wpa2_sm.c:33-146 | for every frame and every pattern of answers: ignored means no op and no change; done exactly when the port opens; the replay baseline moves only to the larger counter of an accepted frame, never for message 1 |
| `Wpa2Sm.BaselineMoves` | src/platform/port_wifi/api/wpa2_sm.c:86-123 | the replay baseline moves exactly for an authentic frame with a larger counter whose state, nonce and length checks pass and whose key data yields a GTK, and then to its counter |
| `Wpa2Sm.RunIsSafe` | src/platform/port_wifi/api/wpa2_sm.c:53-146 | over every run: install_ptk succeeds at most once and only behind a reply; open_port succeeds at most once and with both keys in; DONE once, for that frame; no group key goes in twice in a row; accepted counters strictly increase |
| `Wpa2Sm.PtkIsFinal` | src/platform/port_wifi/api/wpa2_sm.c:65-112 | once a temporal key is in, the PTK and its nonces never change, the port stays open and the trace only grows |
| `Wpa2Sm.LessIsNumeric` | src/platform/port_wifi/api/wpa2_sm.c:33-36 | memcmp orders replay counters as the big-endian numbers they are |
| `Wpa2Sm.ClassifyBits` | src/platform/port_wifi/api/wpa2_sm.c:130-146 | which of the three messages a parsed frame is, by the bits of the two bytes of the key information |
| `Wpa2Station.Station.Rx` | src/platform/port_wifi/api/wpa2_sm.c:130-146 | the code on its own fields does exactly one step of the machine per frame, with the answers that AnswerToMsg1, Msg3Taken and GroupRekey state |
| `Wpa2Station.Station.constructor` | src/platform/port_wifi/api/wpa2_sm.c:13-21 | starts the machine in its initial state |
| `Handshake.BuildParses` | src/platform/port_wifi/api/wpa2_eapol.c:12-81 | every frame built with a key parses back to its fields, whatever follows it, and passes the MIC check |
| `Handshake.AnswerToMsg1` | src/platform/port_wifi/api/wpa2_sm.c:65-84 | without a temporal key every message 1 gets exactly one answer: a message 2 with its counter, the station's nonce and RSN element, and a MIC by its PTK, nonces and PTK new unless the ANonce repeats; with one it is ignored |
| `Handshake.EveryMsg1IsAnswered` | src/platform/port_wifi/api/wpa2_sm.c:65-84 | over every run before message 3 the ops called are one answer for each message 1, in order, each with its counter |
| `Handshake.OneSNonce` | src/platform/port_wifi/api/wpa2_sm.c:65-84 | every message 2 from the first successful send on carries one SNonce and is made with its PTK |
| `Handshake.SNonceKept` | src/platform/port_wifi/api/wpa2_sm.c:72-76 | a message 1 keeps the SNonce exactly when the station has answered before or the random bytes repeat; it has answered exactly once a send succeeded |
| `Handshake.FailedSendRedraws` | src/platform/port_wifi/api/wpa2_sm.c:72-83 | two message 1 frames of which the first answer fails to go out: two message 2 frames with different nonces |
| `Handshake.Msg3Taken` | src/platform/port_wifi/api/wpa2_sm.c:86-112 | for every state behind message 1 and every pattern of answers: message 4, then TK, GTK and port as far as they are missing, up to the first op that fails; DONE exactly when the port opens, PROGRESS for a repeated message 3 |
| `Handshake.FirstMsg3` | src/platform/port_wifi/api/wpa2_sm.c:86-112 | a message 3 under the station's PTK, all ops succeeding, ends in DONE with exactly message 4, TK, GTK and port, in that order |
| `Handshake.Agreement` | src/platform/port_wifi/api/wpa2_sm.c:65-112 | against an honest authenticator, for any message 1 losses and repeats and any forged message 3 and group frames in between: whichever answer went out repeats the counter of its message 1 and is taken by the authenticator; the first authentic message 3 then ends in DONE with both sides holding the same PTK and GTK, and message 4 passes the authenticator's check |
| `Handshake.GroupRekey` | src/platform/port_wifi/api/wpa2_sm.c:114-128 | a newer group message 1 is answered with its counter, for every pattern of answers; the key then goes in exactly when it is not the one that went in last |
| `Handshake.EarlierGtkReturns` | src/platform/port_wifi/api/wpa2_sm.c:53-63 | only the newest group key is remembered: going to another key and back installs the first one again |
| `Handshake.GtkComesThrough` | src/platform/port_wifi/api/wpa2_sm.c:44-52 | the wrapped key data of an honest frame yields the authenticator's GTK and id |
| `Handshake.UnwrapGtkIs` | src/platform/port_wifi/api/wpa2_sm.c:44-52 | key data gives a group key exactly when it is encrypted and is the wrap of 16 to 192 bytes in which one is found |
| `Json.ReadStringAt` | src/applications/camera/web/config_json.cpp:33-49 | reading a printed string, with any bytes but NUL, gives it back |
| `Json.ReadNumberAt` | src/applications/camera/web/config_json.cpp:157-170 | numbers below a billion come back |
| `ConfigJson.RoundTrip` | src/applications/camera/web/config_json.cpp:251-385 | parsing a printed config gives it back exactly when it is valid, whatever the config was before |
| `ConfigJson.TextFits` | src/applications/camera/web/config_json.cpp:251-273 | the text never exceeds 933 characters, so it fits the 1024-byte buffer |
| `ConfigJson.ReadMembersAt` | src/applications/camera/web/config_json.cpp:371-378 | a list of members is read whole, in order, into the config |
| `JsonGrammar.FromJsonIs` | src/applications/camera/web/config_json.cpp:75-385 | exactly which texts are accepted and what they mean: one object, with white space anywhere between tokens, members in any order, strings with JSON's escapes up to \u007F, other keys with a string, number, bool or null skipped, missing keys kept, giving a valid config |
| `JsonGrammar.HexValueIs` | src/applications/camera/web/config_json.cpp:96-101 | a digit has the same value in upper and lower case |
| `JsonGrammar.ReadCharsSound` | src/applications/camera/web/config_json.cpp:105-155 | what is read between two quotes is a string of which the text is a spelling, within its length limit |
| `JsonGrammar.SpelledAllRead` | src/applications/camera/web/config_json.cpp:105-155 | every spelling of a string within the limit is read as that string |
| `JsonCode.ToJsonCode` | src/applications/camera/web/config_json.cpp:251-273 | the writer leaves the text and its NUL in the buffer, or returns 0 exactly when they do not fit |
| `JsonCode.FromJsonCode` | src/applications/camera/web/config_json.cpp:365-385 | the reader accepts exactly what the grammar accepts; a refused text leaves the config unchanged |
| `JsonCode.Reader.TakeString` | src/applications/camera/web/config_json.cpp:105-155 | the loop reads what the grammar reads, with its length limit |
| `JsonCode.Reader.TakeField` | src/applications/camera/web/config_json.cpp:216-236 | the value of a key goes into its field; the value of an unknown key is skipped |
| `DhcpLeases.FindStands` | src/platform/misc/dhcp_server/dhcp_leases.c:14-22 | finding a client moves it to the end of the list |
| `DhcpLeases.TakeStands` | src/platform/misc/dhcp_server/dhcp_leases.c:24-39 | own address, else the lowest free one, else that of the client at the front of the list |
| `DhcpLeases.ClaimStands` | src/platform/misc/dhcp_server/dhcp_leases.c:41-46 | a particular address goes to a client exactly when it is free |
| `DhcpLeases.Leases.TakeSlot` | src/platform/misc/dhcp_server/dhcp_leases.c:24-39 | the loops over the slot array compute the table operation |
| `DhcpLeases.FindAtWrap` | src/platform/misc/dhcp_server/dhcp_leases.c:14-22 | when the clock wraps on a client that holds an address, the table stays in step with the list exactly when that client is alone |
| `DhcpLeases.TakeAtWrap` | src/platform/misc/dhcp_server/dhcp_leases.c:24-39 | the same for a client that gets an address, evicting or not |
| `DhcpLeases.ClaimAtWrap` | src/platform/misc/dhcp_server/dhcp_leases.c:41-46 | the same for a client that claims one |
| `DhcpLeases.WrapEvictsNewest` | src/platform/misc/dhcp_server/dhcp_leases.c:7-39 | a table in which the 32-bit clock wraps and the newest client is evicted |
| `DhcpServer.TableRefinesList` | src/platform/misc/dhcp_server/dhcp_server.c:128-188 | over every run below 2^32 messages the table gives the answers of the list |
| `DhcpServer.RequestsRefineList` | src/platform/misc/dhcp_server/dhcp_server.c:128-188 | the same over every run of raw requests; malformed ones get no answer and change nothing |
| `DhcpServer.RunInOrder` | src/platform/misc/dhcp_server/dhcp_server.c:128-188 | over every run no client holds two addresses and the list is in the order of the clients' last messages |
| `DhcpServer.EvictsLeastRecent` | src/platform/misc/dhcp_server/dhcp_server.c:153-158 | a client loses its address only to a DISCOVER into a full pool, and only the one whose last message is oldest |
| `DhcpServer.AckIsHeld` | src/platform/misc/dhcp_server/dhcp_server.c:160-179 | ACK exactly for the address the client holds or a free one of the pool it asks for, in option 50 or else in ciaddr; the acknowledged address is that of the slot it then holds; NAK changes nothing |
| `DhcpServer.OfferIsHeld` | src/platform/misc/dhcp_server/dhcp_server.c:153-158 | an offer is the address of the slot the client then holds, the same one as before if it had one |
| `DhcpServer.DiscoverTakes` | src/platform/misc/dhcp_server/dhcp_server.c:153-158 | a client without an address gets the lowest free one, or, if none is free, that of the client that asked longest ago |
| `DhcpServer.ReleaseFrees` | src/platform/misc/dhcp_server/dhcp_server.c:181-183 | after its RELEASE a client holds no address, and gets no answer |
| `DhcpServer.OtherKinds` | src/platform/misc/dhcp_server/dhcp_server.c:185-186 | a message of any other type changes no address and gets no answer |
| `DhcpServer.OthersKeep` | src/platform/misc/dhcp_server/dhcp_server.c:128-188 | when one client asks, every other one keeps its address or lack of one, but for the one evicted |
| `DhcpServer.SlotAtAddr` | src/platform/misc/dhcp_server/dhcp_server.c:167-171 | addresses and slots correspond exactly when the pool does not run past the address space |
| `DhcpServer.Server.OnMessage` | src/platform/misc/dhcp_server/dhcp_server.c:128-188 | the code answers as the table does; a malformed option list changes nothing and gets no answer |
| `DhcpOptions.WalkFinds` | src/platform/misc/dhcp_server/dhcp_server.c:133-148 | behind any pads and options the walk finds the last one-byte option 53 and the last four-byte option 50, when the list ends with option 255 or with the request; nothing when an option runs past the end |
| `DhcpOptions.EveryRequest` | src/platform/misc/dhcp_server/dhcp_server.c:133-148 | every request is such a list with one of the two endings, so these are all cases |
| `DhcpServer.ParseFinds` | src/platform/misc/dhcp_server/dhcp_server.c:129-150 | what a request says, from the items of its option list |
| `SoftRtc.CivilDate` | src/platform/devices/soft_rtc/soft_rtc.c:46-58 | every day number gives a real Gregorian date, and counting days by month lengths and leap years gives the number back |
| `SoftRtc.TimeIsCounted` | src/platform/devices/soft_rtc/soft_rtc.c:39-59 | every time gives a real date and time of day whose count is the time |
| `SoftRtc.DayLater` | src/platform/devices/soft_rtc/soft_rtc.c:39-59 | 86400 seconds later the clock shows the next calendar day and the same time of day |
| `SoftRtc.EveryDateShown` | src/platform/devices/soft_rtc/soft_rtc.c:39-59 | every real date and time of day is shown at the time that counts it |
| `SoftRtc.YearFits` | src/platform/devices/soft_rtc/soft_rtc.c:56-56 | the year of every 32-bit time is at most 2106 |
| `SoftRtc.Rtc.SetTime` | src/platform/devices/soft_rtc/soft_rtc.c:28-33 | after setting, the clock shows the set time, whatever the uptime |
| `SoftRtc.Rtc.Tick` | src/platform/devices/soft_rtc/soft_rtc.c:15-15 | each tick moves the clock by one, modulo 2^32 |
| `SoftRtc.Rtc.GetDateTime` | src/platform/devices/soft_rtc/soft_rtc.c:61-61 | breaks down the current time |

## Left out

- Power loss during a rebuild: the sector is erased before it is rewritten, so no crash claim is made there.
- The visitor callbacks of `walk`: the visitors are loops over the record list that the walk returns.
- `flash_kv_erase`, the typed getters and setters, and the flash status registers: thin wrappers.
- Attaching and detaching the UART queue: one attached queue, empty at the start; `uart_set_tx_buffer` is not modelled.
- UART ready flag: it may be late (not ready with room in the FIFO), never early (ready with a full FIFO).
- Stream counters in the step model: they count without bound, so the camera results are for fewer than 2^32 frames.
- Camera power-up, I2C, single-frame capture and stopping a stream: hardware timing.
- Memory allocation: whether an allocation succeeds is a parameter.
- SHA-1 `compress` and the CRC: parameters, so nothing is claimed about their strength.
- `wpa2_pbkdf2_sha1` and `wpa2_pmk`: the PMK is an input of the handshake.
- The ops of the station: what each answers while a frame is handled, and the random nonce, are inputs of the step.
- Wi-Fi core glue, LMAC messages, scan, connect and AP sessions: they rest on code that is not part of this model.
- `scan_to_json`, HTTP, telnet, the config's storage in flash: input and output around the modelled core.
- `snprintf` in the JSON writer: its output for the formats used is a function of the value.
- C strings: a config string is the sequence of its characters before the NUL; what lies behind the NUL is not modelled.
- DHCP `reply` and the socket loop: the reply is its type and address; a request is at least 240 bytes, as the caller checks.
- The timer behind the clock and the masking in `rtc_set_time`: a tick and a set are atomic.
- Wpa2Station.Station.Rx: time taken by the comparisons is not modelled.
