# Behringer BCF2000/BCR2000 firmware tools, modelled in Dafny

This project models the core of the BCF2000/BCR2000 firmware toolkit:

- **SysEx page codec** (`SysexCodec`, sysex_codec.dfy). It repacks bits between 7-bit and
  8-bit form (`syx_implode` / `syx_explode`). It also models the 13-byte transport cipher
  (`syx_decode`), the 8-round page checksum (`syx_checksum_update`) and the 16-bit
  shift-register write cipher (`syx_decode_write`).
- **Stream and dump conversion** (`DumpConvert`, dump_convert.dfy). This covers
  `syx_parse_packet`, the F0…F7 scanner of `syx2dump` and `dump2syx`.
  `FirmwareRoundTrip` (firmware_round_trip.dfy) relates the two directions.
- **OS image codec** (`OsImage`, os_image.dfy). This covers `wpack` / `wunpack`,
  `os_decodeword`, `dump2os` and `os2dump`, including the rotating checksum mask, the size
  test and the 0xFF filler.
- **Device protocol** of the flashing script:
  - `FlashProtocol` (flash_protocol.dfy): `midi_receive_sysex`, `midi_check_sysex`,
    `flash_get_blob` and `flash_get`;
  - `FirmwareUpload` (flash_upload.dfy): `flash_upload`;
  - `FlashDisplay` (flash_display.dfy): `send_display`.

  The MIDI port is a class holding the bytes still to arrive and the bytes sent. Running out
  of inbound bytes stands for the `select` timeout.
- **Firmware helpers**:
  - `Keys` and `Leds` (hardware.dfy): the key and LED index macros of `hardware.h`;
  - `FirmwareLib` (firmware_lib.dfy): `strlen`, `disp_scroll`, `disp_scroll_right`,
    `disp_hword` and `disp_word` of `lib.c`, over a byte memory and a display panel that
    records what it was shown;
  - `LedCode` (ledcode.dfy): `disp_byte` and the two-digit code entry of the `ledcode`
    example.
- **Disassembly annotation tools**:
  - `DissToDa` (diss2da.dfy): `line`, `findlen` and the emission part of `parse_diss`;
  - `DaToDiss` (da2diss.dfy): `hexdump`, `outbuf_flush` and the header check of `parse_da`.

  `TextFormat` and `TextFiles` (text_format.dfy) give the Python 2 string operations these
  tools rely on, such as `split`, `join`, `int()`, `'%x'`, `format(v, '0Nx')`, text files and
  lists.

`Common` (common.dfy) holds powers of two, exclusive-or on naturals, Python slices and
`Flatten`.

Errors raised by the scripts (`BCFWException`, `IndexError`, `ValueError`) are modelled as the
`Failure` side of a `Result`.

Python 2 integer division is modelled as `nat` division. Arbitrary-precision integers become
`nat`/`int`. A byte is a `nat` below 0x100, and a word is a `nat` below 2^32.

## Model

| member | source | states |
|---|---|---|
| SysexCodec.SetHigh | bcfwconvert.py:85 | `x \| 0x80` has the high bit set and keeps the low seven bits of `x` |
| SysexCodec.Imploded | bcfwconvert.py:75-89 | the 8-to-7 repacking yields 7 bytes for every 8 of input |
| SysexCodec.ImplodedLength | bcfwconvert.py:81 | the output of syx_implode has `len/8*7` bytes |
| SysexCodec.ImplodedAt | bcfwconvert.py:83-88 | output byte `7g+m` is group `g`'s byte `m` with its high bit taken from the group's 8th byte |
| SysexCodec.HighFlagsBit | bcfwconvert.py:100 | bit `6-k` of a group's flag byte is the high bit of the group's byte `k` |
| SysexCodec.FlagByte | bcfwconvert.py:99-106 | the flag byte of a 7-byte group is below 0x80 |
| SysexCodec.Exploded | bcfwconvert.py:91-107 | the 7-to-8 repacking yields 8 bytes for every 7 of input |
| SysexCodec.ExplodedLength | bcfwconvert.py:97 | the output of syx_explode has `len/7*8` bytes |
| SysexCodec.ExplodedIsSevenBit | bcfwconvert.py:91-107 | every byte syx_explode produces is below 0x80, a legal SysEx data byte |
| SysexCodec.LowBits | bcfwconvert.py:101 | `& 0x7f` clears exactly the high bit |
| SysexCodec.ImplodeExplode | bcfwconvert.py:75-107 | imploding undoes exploding for every byte list whose length is a multiple of 7 |
| SysexCodec.ExplodeImplode | bcfwconvert.py:75-107 | exploding undoes imploding for 7-bit input whose length is a multiple of 8 |
| SysexCodec.ImplodeBitAt | bcfwconvert.py:83-85 | bit `k` of a group's 8th byte decides the high bit of output byte `j-k-1` |
| SysexCodec.OrHighBits | bcfwconvert.py:83-85 | the inner loop ORs 0x80 into exactly the seven bytes before `j` whose flag bits are set, and leaves the rest of the buffer unchanged |
| SysexCodec.Implode | bcfwconvert.py:75-89 | raises unless the length is a multiple of 8; otherwise the preallocated buffer ends up as the imploded data |
| SysexCodec.PartialFlagsHorner | bcfwconvert.py:99-100 | the flags accumulated bit by bit in `highbits` equal the group's flag byte, shifted by the bits still to come |
| SysexCodec.FlagsAdvance | bcfwconvert.py:99-105 | input byte `i`, written at output position `j`, contributes flag bit `6 - j%8` |
| SysexCodec.Explode | bcfwconvert.py:91-107 | raises unless the length is a multiple of 7; otherwise the buffer ends up as the exploded data |
| SysexCodec.Transported | bcfwconvert.py:110-115 | the transport cipher keeps the length |
| SysexCodec.TransportInvolution | bcfwconvert.py:110-115 | the transport cipher is its own inverse |
| SysexCodec.TransportDecode | bcfwconvert.py:110-115 | the loop fills the buffer with the ciphered bytes |
| SysexCodec.ChecksumUpdate | bcfwconvert.py:117-123 | the loop performs the eight shift/XOR-0x19 rounds; the result is a byte again |
| SysexCodec.ComputePageChecksum | bcfwconvert.py:171-172 | the checksum loop over a page computes the page checksum folded from 0 |
| SysexCodec.WriteCiphered | bcfwconvert.py:125-136 | the write cipher keeps the length |
| SysexCodec.WriteCipherInvolution | bcfwconvert.py:125-136 | with a fixed seed the write cipher is its own inverse |
| SysexCodec.WriteSeedZero | bcfwconvert.py:130 | seed 0 gives the same keystream as 0x545A |
| SysexCodec.WritePairAt | bcfwconvert.py:131-135 | both bytes of pair `p` are XORed with the low and the second byte of the register after `p+1` steps |
| SysexCodec.WritePairNext | bcfwconvert.py:131-135 | the ciphered text up to pair `p` is the ciphered text before it followed by the pair XORed with the register after `p+1` steps |
| SysexCodec.DecodeWrite | bcfwconvert.py:125-136 | raises on odd length, otherwise returns the write-ciphered data |
| DumpConvert.ParsedPacket | bcfwconvert.py:154-175 | a packet parses only when its payload has 296 bytes; it then yields 256 data bytes at an address that passes the jump check |
| DumpConvert.ParsePacket | bcfwconvert.py:154-175 | the method returns exactly what the packet specification says, errors included |
| DumpConvert.PacketArgument | bcfwconvert.py:242-247 | an upload argument has 0x103 bytes and carries the page from byte 3 on |
| DumpConvert.EncodedPayload | bcfwconvert.py:249 | the payload of an upload message is 296 bytes, each below 0x80 |
| DumpConvert.PacketRoundTrip | bcfwconvert.py:159-175 | an encoded packet parses back to its page and to the address its index bytes encode; it fails with the jump error exactly when that address does not follow `lastaddr` |
| DumpConvert.IndexSplitInverts | bcfwconvert.py:162 | below the split's limit, the address formula reads an index split back as `idx * 0x100` |
| DumpConvert.ScanAppend | bcfwconvert.py:185-216 | scanning `a + b` is scanning `a` and then `b`, unless `a` raises |
| DumpConvert.ScanStops | bcfwconvert.py:200-202 | once the scan raises, the rest of the input is not read |
| DumpConvert.FrameBody | bcfwconvert.py:186-187 | inside an open frame every byte but 0xF7 is buffered, 0xF0 included |
| DumpConvert.StrayBytes | bcfwconvert.py:213-216 | outside a frame, bytes other than 0xF0 change nothing but the warning flag |
| DumpConvert.FrameScan | bcfwconvert.py:185-209 | a whole F0…F7 frame met between frames is handled as one unit at its 0xF7 |
| DumpConvert.ForeignFrameIgnored | bcfwconvert.py:196-216 | a frame without manufacturer 00 20 32 or without command 0x34/0x74 adds no data and only sets the warning flag |
| DumpConvert.MixedFamiliesRejected | bcfwconvert.py:198-200 | a firmware frame of the other family than the first accepted one raises |
| DumpConvert.ScanByte | bcfwconvert.py:186-216 | one pass of the byte loop does what one step of the scanner specification says: buffer, open, handle the frame, or note a stray byte |
| DumpConvert.EndSysex | bcfwconvert.py:193-209 | the 0xF7 branch of the loop does what the frame specification says |
| DumpConvert.Syx2Dump | bcfwconvert.py:177-222 | syx2dump returns the pages of the accepted packets in stream order, write-deciphered per 4 KiB for an image |
| DumpConvert.DecipherChunks | bcfwconvert.py:218-221 | the in-place loop replaces each 0x1000 chunk at offset `i` by its write-deciphered form with seed `(i + first)/0x1000` |
| DumpConvert.ZeroPadded | bcfwconvert.py:235 | padding keeps the dump as a prefix, adds fewer than 0x1000 zero bytes and reaches a multiple of 0x1000 |
| DumpConvert.Sector | bcfwconvert.py:237-238 | each ciphered sector has 0x1000 bytes |
| DumpConvert.UploadMessage | bcfwconvert.py:249 | each upload message has 304 bytes |
| DumpConvert.SectorMessages | bcfwconvert.py:240-249 | `n` pages of a sector give `n` messages of 304 bytes |
| DumpConvert.DumpMessages | bcfwconvert.py:237-249 | `n` sectors give `16 n` messages of 304 bytes |
| DumpConvert.SectorAligned | bcfwconvert.py:237-243 | sector `n` after an aligned base starts on page index `base/0x100 + 16n` |
| DumpConvert.DumpStream | bcfwconvert.py:225-250 | raises for a base not aligned to 0x1000 or below 0x2000; otherwise emits 16 messages of 304 bytes for every 4 KiB of the padded dump |
| DumpConvert.Dump2Syx | bcfwconvert.py:225-250 | dump2syx returns the message stream with the page index split as `idx >> 8`, `idx & 0xff` |
| DumpConvert.UploadSectors | bcfwconvert.py:237-249 | the outer loop emits the messages of every sector in turn |
| DumpConvert.UploadSector | bcfwconvert.py:238-249 | one outer iteration emits the 16 messages of sector `n`, ciphered with its flash sector number |
| DumpConvert.UploadPages | bcfwconvert.py:240-249 | the inner loop emits the messages of the 16 pages of a sector |
| DumpConvert.PageMessage | bcfwconvert.py:241-249 | one inner iteration emits the message of the page `0x100 m` bytes into the sector, with index `first + m` |
| DumpConvert.FillArgument | bcfwconvert.py:242-247 | the argument built in place is the index bytes, the page checksum and the page |
| DumpConvert.UploadMessageBytes | bcfwconvert.py:249 | header, exploded ciphered argument and F7 make up the upload message |
| FirmwareRoundTrip.MessageScan | bcfwconvert.py:185-209 | scanning an upload message between frames appends its page at the address of its index bytes, or raises the jump error |
| FirmwareRoundTrip.SectorScan | bcfwconvert.py:185-209 | the messages of a sector, read after the pages before it, append that sector's pages while the indices stay below the split's limit |
| FirmwareRoundTrip.DumpScan | bcfwconvert.py:177-216 | the byte loop of syx2dump over dump2syx's messages collects the ciphered sectors in order |
| FirmwareRoundTrip.DecipherSectors | bcfwconvert.py:218-221 | the final loop, seeded with the dump's base, undoes the write cipher of every sector |
| FirmwareRoundTrip.Syx2DumpInvertsDump2Syx | bcfwconvert.py:177-250 | with a 7-bit index split, syx2dump returns the zero-padded dump that dump2syx was given, for every aligned base from 0x2000 up to 0x800000 |
| FirmwareRoundTrip.IndexWrapsAt64K | bcfwconvert.py:243-244 | page index 0x100 is split into 1, 0, which reads back as address 0x8000 and does not follow page 0xFF |
| FirmwareRoundTrip.SectorAt64KRejected | bcfwconvert.py:166-167 | with the 8-bit split, the sector at 0x10000 is rejected after the sector at 0xF000 |
| FirmwareRoundTrip.Dump2SyxRejectedAcross64K | bcfwconvert.py:243-244 | dump2syx as written produces a stream that syx2dump rejects when the dump crosses address 0x10000 |
| OsImage.Wunpack | bcfwconvert.py:51-54 | raises exactly when fewer than four bytes are given |
| OsImage.Wpack | bcfwconvert.py:56-58 | a word packs to four bytes |
| OsImage.UnpackWordWpack | bcfwconvert.py:51-58 | reading back a packed word gives the word |
| OsImage.WpackUnpackWord | bcfwconvert.py:51-58 | packing the word read from four bytes gives those bytes |
| OsImage.WunpackWpack | bcfwconvert.py:51-58 | `wunpack(wpack(w)) == w` for every 32-bit word |
| OsImage.Key1Table | bcfwconvert.py:255-257 | the first key is the 15-entry table taken cyclically |
| OsImage.Key2Table | bcfwconvert.py:259-261 | the second key is the 14-entry table taken cyclically |
| OsImage.DecodeWordInvolution | bcfwconvert.py:263-267 | os_decodeword with a fixed offset is its own inverse |
| OsImage.CipheredInvolution | bcfwconvert.py:263-267 | ciphering a word list twice with the same offsets gives it back |
| OsImage.RotateLeftRight | bcfwconvert.py:289-290 | the mask update is a 32-bit right rotation, undone by a left rotation |
| OsImage.RotateRightLeft | bcfwconvert.py:289-290 | a left rotation is undone by the mask update |
| OsImage.WordCountBound | bcfwconvert.py:283 | a word starts inside the image exactly when its index is below `(size+3)/4` |
| OsImage.PadEndsPage | bcfwconvert.py:306 | the filler makes the size and checksum words plus the image end on a 0x1000 page |
| OsImage.PaddedSize | bcfwconvert.py:306 | the filler makes header plus image end on a 0x1000 page, in whole words, covering every image word |
| OsImage.Filled | bcfwconvert.py:287 | slice assignment over `[0] * n` keeps what was written and grows the list past `n` |
| OsImage.StoreWord | bcfwconvert.py:287 | storing one word extends the written words by it |
| OsImage.AddToChecksum | bcfwconvert.py:289-291 | one update turns the mask once and adds the masked word to the sum |
| OsImage.DecipherWord | bcfwconvert.py:284-291 | one pass of dump2os deciphers the next word, stores it and adds it to the checksum |
| OsImage.DecipherImage | bcfwconvert.py:280-293 | the loop deciphers all `(size+3)/4` words and sums them, or raises when a word is cut short |
| OsImage.OsImageRejects | bcfwconvert.py:272-274 | a dump shorter than the two header words raises |
| OsImage.OsImageBadSize | bcfwconvert.py:277-278 | a size of 0 or one too large for the flash raises |
| OsImage.OsImageOutcome | bcfwconvert.py:269-296 | once the size is good, dump2os returns the deciphered words, or raises when they are cut short or their checksum differs |
| OsImage.Dump2Os | bcfwconvert.py:269-296 | the method returns what the dump2os specification says, errors included |
| OsImage.EncipherWord | bcfwconvert.py:313-321 | one pass of os2dump ciphers the next word with offset `offset/4+2`, stores it and sums only image words |
| OsImage.EncipherImage | bcfwconvert.py:312-323 | the loop stores every ciphered word of the padded image and sums the image's own words |
| OsImage.OsDumpValue | bcfwconvert.py:298-325 | os2dump's output is the ciphered size word, the ciphered checksum word and the ciphered padded image |
| OsImage.Os2Dump | bcfwconvert.py:298-325 | the method returns what the os2dump specification says |
| OsImage.OsDumpPages | bcfwconvert.py:302-306 | os2dump raises exactly for a bad size, and its output fills whole 0x1000 pages |
| OsImage.OsImageOfDump | bcfwconvert.py:269-325 | the flash portion os2dump makes passes dump2os's size and checksum tests |
| OsImage.OsImageInvertsOsDump | bcfwconvert.py:269-325 | `dump2os(os2dump(x))` is `x` followed by 0xFF up to a whole number of words |
| FlashProtocol.MidiPort.constructor | bcfwflash.py:76-84 | a port starts with its inbound bytes and nothing sent |
| FlashProtocol.MidiPort.Read | bcfwflash.py:81-84 | reading takes the next inbound byte, or reports the timeout when none is left |
| FlashProtocol.MidiPort.Write | bcfwflash.py:182-183 | writing appends the bytes to what was sent |
| FlashProtocol.FindFirstSpec | bcfwflash.py:152-154 | `index` finds nothing exactly when the byte is absent, and no earlier occurrence exists |
| FlashProtocol.FindLastSpec | bcfwflash.py:85-87 | the last 0xF0 is found exactly when there is one, and none follows it |
| FlashProtocol.NextMessage | bcfwflash.py:76-93 | a received message ends with 0xF7 and uses no more than the input |
| FlashProtocol.PendingStart | bcfwflash.py:85-87 | an 0xF0 discards any unterminated buffer and starts a fresh one |
| FlashProtocol.PendingData | bcfwflash.py:91-92 | other bytes join an open buffer and are dropped outside one |
| FlashProtocol.PendingEnd | bcfwflash.py:88-90 | an 0xF7 ends the read: the open buffer with the 0xF7, or a lone 0xF7 |
| FlashProtocol.NoEnd | bcfwflash.py:81-82 | without an 0xF7 the input runs out and the result is the timeout |
| FlashProtocol.ReceiveSysex | bcfwflash.py:76-93 | the byte loop returns the next message and consumes exactly the bytes it read |
| FlashProtocol.CheckSysexOutcome | bcfwflash.py:95-107 | returns byte 6 exactly for a present Behringer message whose command is in `cmds`; otherwise raises, or returns None when exceptions are off |
| FlashProtocol.LenientThenStrict | bcfwflash.py:164-167 | the lenient check singles out exactly the echoes, and where it stops the strict check decides |
| FlashProtocol.Awaited | bcfwflash.py:185-188 | a reply returned after skipping echoes is a Behringer message with the awaited command |
| FlashProtocol.AwaitSkipsEcho | bcfwflash.py:186-187 | an echoed message at the head of the input is skipped |
| FlashProtocol.AwaitTakesReply | bcfwflash.py:186-188 | a reply at the head of the input is returned whole |
| FlashProtocol.FramedFirst | bcfwflash.py:76-93 | a framed message at the head of the input is what is received next |
| FlashProtocol.AwaitReply | bcfwflash.py:185-188 | the wait loop returns the reply after the echoes and consumes exactly the bytes it read |
| FlashProtocol.PageRequest | bcfwflash.py:181 | the request is 10 bytes with command 0x74 whose two 7-bit bytes encode the page; it raises for pages outside 0..0x7FFF |
| FlashProtocol.GetBlob | bcfwflash.py:178-191 | a fetched blob is a Behringer message whose command byte has been rewritten to 0x74 |
| FlashProtocol.FlashGetBlob | bcfwflash.py:178-191 | the method sends the request and returns the blob the exchange specification gives |
| FlashProtocol.PageSpan | bcfwflash.py:195-199 | aligned bounds cover a whole number of pages starting at `addr/0x100` |
| FlashProtocol.FetchPage | bcfwflash.py:199-201 | one pass of flash_get's loop extends the data by the next page, or stops at its failure |
| FlashProtocol.FetchPages | bcfwflash.py:199-201 | the page loop fetches the pages in ascending order and concatenates them |
| FlashProtocol.FlashGet | bcfwflash.py:193-202 | flash_get raises for unaligned bounds, then returns the pages covering the range in order |
| FirmwareUpload.StatusOf | bcfwflash.py:169-172 | status bytes 1, 2 and 3 are failures and every other byte reads as ok |
| FirmwareUpload.Acknowledged | bcfwflash.py:168-173 | an acknowledgement needs 10 bytes and reports the 0x1000-byte range ending past the page in bytes 7 and 8 |
| FirmwareUpload.ChunkLength | bcfwflash.py:147-154 | a chunk ends at the first 0xF7 after an 0xF0, or the search raises |
| FirmwareUpload.EndsSector | bcfwflash.py:159-161 | the sector-end test fails only with implode's length error or an index error |
| FirmwareUpload.FindChunk | bcfwflash.py:148-154 | the two delimiter searches measure the chunk |
| FirmwareUpload.SectorCheck | bcfwflash.py:159-161 | the method computes the sector-end test |
| FirmwareUpload.AwaitAck | bcfwflash.py:163-173 | after a sector end, echoes of 0x34 are skipped and the 0x35 reply is read as an acknowledgement |
| FirmwareUpload.UploadChunk | bcfwflash.py:146-173 | one round writes the chunk and, at a sector end, reads the acknowledgement, as the round specification says |
| FirmwareUpload.FlashUpload | bcfwflash.py:141-173 | flash_upload sends, reads and reports what the upload specification says |
| FirmwareUpload.ChunkShape | bcfwflash.py:147-154 | the chunk written is an 0xF0 up to the first 0xF7 after it, stray bytes before it included |
| FirmwareUpload.RoundWrites | bcfwflash.py:148-157 | a round writes exactly the chunk and warns when it does not start with 0xF0 |
| FirmwareUpload.UploadWritesFile | bcfwflash.py:145-157 | what flash_upload writes is a prefix of the file, and the whole file when nothing fails |
| FirmwareUpload.RoundReadsAtSectorEnd | bcfwflash.py:161-167 | the device is read only after a chunk whose page ends a sector |
| FirmwareUpload.EndsSectorWithin | bcfwflash.py:159 | for a message of at least 15 bytes, the sector-end test reads only that message |
| FirmwareUpload.PayloadHead | bcfwflash.py:159 | the first eight payload bytes decode to the first seven bytes of the argument |
| FirmwareUpload.UploadMessageFramed | bcfwconvert.py:249 | a dump2syx message is one framed Behringer upload message |
| FirmwareUpload.SectorEndOfPage | bcfwflash.py:159-161 | for a dump2syx message the test is whether the page index ends in 0xF |
| FirmwareUpload.LowNibble | bcfwflash.py:160-161 | `(b0<<8)+b1` keeps the page index's low nibble under both index splits |
| FirmwareUpload.FramedChunk | bcfwflash.py:152-154 | a framed message at the head of the file is one chunk |
| FirmwareUpload.RoundOfPage | bcfwflash.py:145-161 | a message that does not end a sector is written and nothing is read |
| FirmwareUpload.RoundOfSectorEnd | bcfwflash.py:159-173 | a message that ends a sector is written and the acknowledgement after it is read and reported |
| FirmwareUpload.UploadedPage | bcfwflash.py:145-161 | uploading a page message, then the rest, composes |
| FirmwareUpload.UploadedSectorEnd | bcfwflash.py:159-173 | uploading a sector-ending message answered by an acknowledgement, then the rest, composes |
| FirmwareUpload.UploadConversation | bcfwflash.py:141-173 | a file of page messages is written whole; each acknowledgement is reported in turn and nothing fails |
| FlashDisplay.DisplayPage | bcfwflash.py:264-267 | the display page holds the string's first four bytes followed by zeros |
| FlashDisplay.DisplayIsPageUpload | bcfwflash.py:260-272 | a string of at least four bytes becomes the upload message of its page to index 0xFF00 with model 0x7F; a shorter one fails explode's length check |
| FlashDisplay.DisplayReadsBack | bcfwflash.py:260-272 | the device parses the display message back to the page whose first bytes are the string |
| FlashDisplay.SendDisplay | bcfwflash.py:260-275 | writes the display message, or nothing when explode raises |
| Keys.KeyAt | firmware/shared/include/hardware.h:27-36 | an index decodes only to a key whose macro gives that index; indices outside 0x08..0x27 name no key |
| Keys.KeyIndexDecodes | firmware/shared/include/hardware.h:27-36 | every key's index decodes back to that key |
| Keys.KeyIndicesDistinct | firmware/shared/include/hardware.h:27-36 | no two keys share an index |
| Keys.RowsFollowEachOther | firmware/shared/include/hardware.h:27-28 | the 16 indices from KEY_ROW1(0) on are row 1 (0-7), then row 2 (8-F) |
| Leds.GroupOffsets | firmware/shared/include/hardware.h:68-73 | the group offset is 0x000, 0x0C0, 0x140 or 0x1C0 for encoders 0-7, 8-15, 16-23 and 24-31 |
| Leds.EncoderDecodes | firmware/shared/include/hardware.h:55-57 | every LED_ENC index decodes back to its encoder and position |
| Leds.LedIndexDecodes | firmware/shared/include/hardware.h:41-59 | every light's index decodes back to that light |
| Leds.LedIndicesDistinct | firmware/shared/include/hardware.h:41-59 | no two lights share an index |
| Leds.DigitsCoverRange | firmware/shared/include/hardware.h:58-59 | LED_DISP covers exactly 0xA0 to 0xBF |
| Leds.Row1AboveRing | firmware/shared/include/hardware.h:41-57 | a row-1 button's LED sits at position 15 of the ring above it |
| FirmwareLib.Panel.DispPut | firmware/shared/lib.c:43 | the display is handed the C string at the pointer |
| FirmwareLib.Panel.SetLed | firmware/ledcode/main.c:92 | the LED is switched on and the display is untouched |
| FirmwareLib.NulFrom | firmware/shared/lib.c:26 | the first NUL at or after the pointer |
| FirmwareLib.CString | firmware/shared/lib.c:24-28 | a C string holds no NUL |
| FirmwareLib.CStringTail | firmware/shared/lib.c:43 | the string at `p+i` is the string at `p` minus its first `i` characters |
| FirmwareLib.StrLen | firmware/shared/lib.c:23-28 | lib.c's strlen returns the number of characters plus one |
| FirmwareLib.StandardStrLen | firmware/shared/lib.c:23-28 | the standard strlen returns the distance to the NUL |
| FirmwareLib.Windows | firmware/shared/lib.c:42-43 | the scroll windows are the tails from 0 to `len-4` |
| FirmwareLib.DispScroll | firmware/shared/lib.c:39-46 | disp_scroll shows the windows in increasing order and lights nothing |
| FirmwareLib.DispScrollRight | firmware/shared/lib.c:49-56 | disp_scroll_right shows the same windows in decreasing order |
| FirmwareLib.ScrollRightNext | firmware/shared/lib.c:52-55 | scrolling right, the window starting at `i` follows the windows that start after it |
| FirmwareLib.ScrollEndsShort | firmware/shared/lib.c:38-46 | as written, the last window holds only three characters |
| FirmwareLib.ScrollWindowsFull | firmware/shared/lib.c:38-46 | with the standard length every window holds at least four characters and the last holds the last four |
| FirmwareLib.HexCharDecodes | firmware/shared/lib.c:64 | digits 0-9 map to '0'-'9' and 10-15 to 'A'-'F', each reading back as its value |
| FirmwareLib.Nibble | firmware/shared/lib.c:63 | `(x >> s) & 0xf` is below 16 |
| FirmwareLib.HexWord | firmware/shared/lib.c:62-66 | the hex text has exactly `n` digits |
| FirmwareLib.HexWordValue | firmware/shared/lib.c:62-66 | the `n` digits read back as `x` modulo `16^n`, the two's complement pattern |
| FirmwareLib.Blank | firmware/shared/lib.c:61 | a fresh buffer of `n` spaces and a NUL |
| FirmwareLib.FillHex | firmware/shared/lib.c:62-66 | the digit loop fills the buffer with the hex digits of `x`, most significant first |
| FirmwareLib.DispHword | firmware/shared/lib.c:58-68 | disp_hword shows the four hex digits of `x` |
| FirmwareLib.DispWord | firmware/shared/lib.c:71-81 | disp_word scrolls the eight hex digits of `x` |
| FirmwareLib.HexWordPrintable | firmware/shared/lib.c:67 | no hex digit is NUL, so the buffer is one C string |
| FirmwareLib.HwordReadsBack | firmware/shared/lib.c:58-68 | what disp_hword shows reads back as the low 16 bits of `x` |
| FirmwareLib.WordReadsBack | firmware/shared/lib.c:71-81 | what disp_word scrolls reads back as the low 32 bits of `x` |
| LedCode.DispByte | firmware/ledcode/main.c:35-46 | disp_byte shows two spaces, the high digit, then '-' or the low digit |
| LedCode.FirstPressed | firmware/ledcode/main.c:68-74 | the scan finds the lowest pressed index, or reports that none is pressed |
| LedCode.ScanDigit | firmware/ledcode/main.c:68-74 | the scan loop returns that first pressed key |
| LedCode.DigitKey | firmware/ledcode/main.c:68-74 | a scanned digit is a row-1 key (0-7) or a row-2 key plus eight (8-F) |
| LedCode.OrLowBits | firmware/ledcode/main.c:83 | OR-ing bits below `2^k` into a multiple of `2^k` adds them |
| LedCode.OrNibbles | firmware/ledcode/main.c:83 | a high nibble OR a low nibble is `16 hi + lo` |
| LedCode.EnterCode | firmware/ledcode/main.c:66-92 | one round shows the code with its low digit masked, then in full, and switches that LED on |
| LedCode.CodeAsTyped | firmware/ledcode/main.c:70-90 | with both digits entered, the LED switched on is the code typed, high digit first |
| LedCode.ByteTextReadsBack | firmware/ledcode/main.c:35-46 | the digits disp_byte shows read back as the byte |
| TextFormat.IndexOf | disassembly/diss2da.py:56 | the first occurrence of the character, with none before it |
| TextFormat.Split | disassembly/diss2da.py:53 | `split` yields at least one piece and no piece holds the separator |
| TextFormat.SplitJoin | disassembly/diss2da.py:53 | joining the pieces of a split gives back the string |
| TextFormat.JoinCons | disassembly/da2diss.py:61 | joining a part in front of others puts one separator between it and the rest |
| TextFormat.JoinSplit | disassembly/da2diss.py:61 | splitting a join gives back parts that lack the separator |
| TextFormat.JoinLacks | disassembly/da2diss.py:61 | a join holds no character that is absent from its parts and from the separator |
| TextFormat.SplitWhitespace | disassembly/diss2da.py:54 | `split()` yields non-empty words without whitespace |
| TextFormat.JoinSplitWhitespace | disassembly/diss2da.py:54 | `split()` undoes a single-space join of non-empty words |
| TextFormat.DropSpace | disassembly/diss2da.py:57 | stripping leading whitespace leaves text starting with a non-space |
| TextFormat.Rstrip | disassembly/diss2da.py:84 | `rstrip()` removes exactly the trailing whitespace |
| TextFormat.DigitRun | disassembly/diss2da.py:57 | the leading decimal digits are all digits and are followed by a non-digit |
| TextFormat.ParseInt | disassembly/diss2da.py:57 | `int(s, 10)` fails only with the number error |
| TextFormat.ParseDecimal | disassembly/diss2da.py:57 | `int('%d' % k) == k` |
| TextFormat.DecimalText | disassembly/da2diss.py:55 | `'%d' % k` is a non-empty run of digits |
| TextFormat.LowerHex | disassembly/diss2da.py:46 | `'%x' % v` is a non-empty run of hex digits |
| TextFormat.LowerHexValue | disassembly/diss2da.py:46 | `'%x' % v` reads back as `v` |
| TextFormat.PaddedHex | disassembly/da2diss.py:59 | `format(v, '0Nx')` is a non-empty run of hex digits |
| TextFormat.PaddedHexValue | disassembly/da2diss.py:59 | the padded hex text reads back as `v` |
| TextFormat.PaddedHexLength | disassembly/da2diss.py:59 | a value below `16^N` is printed with exactly `N` digits |
| TextFormat.TerminatedJoin | disassembly/diss2da.py:46 | newline-terminated lines are the pieces between newlines |
| TextFormat.TerminatedSplit | disassembly/diss2da.py:46 | splitting a file of lines at newlines gives back the lines |
| TextFiles.TextFile.Write | disassembly/diss2da.py:46 | `write` appends the text to the file |
| TextFiles.LineList.Append | disassembly/diss2da.py:84 | `append` adds the line at the end |
| TextFiles.LineList.PopFront | disassembly/diss2da.py:44 | `pop(0)` returns the first line and removes it |
| DissToDa.Entries | disassembly/diss2da.py:44-46 | one annotation line per command |
| DissToDa.EntryReadsBack | disassembly/diss2da.py:46 | an annotation line reads back as its hex address before the colon and its command after `": "` |
| DissToDa.Line | disassembly/diss2da.py:45-46 | a single command writes exactly one line |
| DissToDa.LineEach | disassembly/diss2da.py:41-46 | a list of commands is written in order, one line each, and is left empty |
| DissToDa.CommasFirst | disassembly/diss2da.py:53-54 | the parts come from splitting at commas, or from splitting at whitespace exactly when there is no comma |
| DissToDa.CountPart | disassembly/diss2da.py:56-58 | the loop body counts a part as its decimal repeat count, or as 1 |
| DissToDa.PrefixFailure | disassembly/diss2da.py:57 | an `int()` failure in a part ends findlen with that failure |
| DissToDa.FindLen | disassembly/diss2da.py:48-59 | findlen splits at commas or whitespace and computes the element count, or raises on a bad repeat count |
| DissToDa.SumCounts | disassembly/diss2da.py:51-59 | the loop adds up the parts' counts in order and stops at the first count that is not a number |
| DissToDa.PlainParts | disassembly/diss2da.py:55-58 | parts without `*` count one each |
| DissToDa.RepeatedPart | disassembly/diss2da.py:56-57 | a part `v*n` counts `n` |
| DissToDa.MorePlainParts | disassembly/diss2da.py:55-58 | plain parts after parts worth `n` add one each |
| DissToDa.FindLenExample | disassembly/diss2da.py:48-50 | the documented example "01 92 85 00*5 29 04" counts 10 |
| DissToDa.FlushPending | disassembly/diss2da.py:124 | the waiting dot-commands are written and emptied only when the address moved past the previous one |
| DissToDa.WriteComment | disassembly/diss2da.py:125 | a non-empty line comment is written as `.cl` with trailing whitespace removed |
| DissToDa.WriteDirective | disassembly/diss2da.py:126 | the data directive is written with its element count |
| DissToDa.EmitAt | disassembly/diss2da.py:123-127 | a recognised line writes the flushed commands, its comment and its directive, and moves `prevaddr` |
| DissToDa.DissLineStep | disassembly/diss2da.py:69-130 | one pass of the line loop writes what the step specification says |
| DissToDa.ParseDiss | disassembly/diss2da.py:61-130 | parse_diss writes the two header lines first and then the lines of every pass, stopping at a bad count |
| DissToDa.RunStopped | disassembly/diss2da.py:69-130 | once a pass raises, later lines change nothing |
| DaToDiss.BinaryFile.constructor | disassembly/da2diss.py:45 | a freshly opened file is at position 0 |
| DaToDiss.BinaryFile.Seek | disassembly/da2diss.py:46 | `seek` moves to any position, even past the end |
| DaToDiss.BinaryFile.Read1 | disassembly/da2diss.py:51 | `read(1)` gives the next byte, or nothing at the end of the file |
| DaToDiss.LittleEndianBound | disassembly/da2diss.py:48-52 | `width` bytes give a value below `2^(8 width)` |
| DaToDiss.Values | disassembly/da2diss.py:48-52 | hexdump reads `count` values |
| DaToDiss.ReadValue | disassembly/da2diss.py:49-52 | the inner loop combines `width` bytes as Σ d_j << 8j, or raises at the end of the file |
| DaToDiss.ValuesNext | disassembly/da2diss.py:48-52 | the next value is made of the next `width` bytes |
| DaToDiss.ShortFile | disassembly/da2diss.py:51 | a read past the end means `count` values do not fit after the offset |
| DaToDiss.ReadNext | disassembly/da2diss.py:48-52 | reading value `i` gives the `i`-th value from the offset on, or fails because the file is short |
| DaToDiss.ReadFits | disassembly/da2diss.py:48-52 | the value read at place `i` is the next of the values read from the offset on |
| DaToDiss.Runs | disassembly/da2diss.py:53-59 | the runs are non-empty, adjacent runs have different values, and the last run ends with the last value |
| DaToDiss.RunsExpand | disassembly/da2diss.py:53-59 | expanding the run-length form gives back the values |
| DaToDiss.ExpandPush | disassembly/da2diss.py:53-59 | one step of run building, a repeat or a new value, adds the value to what the runs stand for |
| DaToDiss.Tokens | disassembly/da2diss.py:55-59 | one token per run |
| DaToDiss.TokensPush | disassembly/da2diss.py:53-59 | a repeated value rewrites the last token with the new count, and a new value appends a token |
| DaToDiss.AddValue | disassembly/da2diss.py:53-59 | the loop body keeps `b` equal to the tokens of the values read, and `last`/`dupcount` equal to their last run |
| DaToDiss.Hexdump | disassembly/da2diss.py:41-61 | hexdump returns the space-joined run-length tokens of the values, or raises when the file is short |
| DaToDiss.TokenCounts | disassembly/da2diss.py:55-59 | a token is one comma-free word that findlen counts as its run's length |
| DaToDiss.TokenReadsBack | disassembly/da2diss.py:55-59 | the digits of a token read back as its value, in exactly two digits per byte |
| DaToDiss.CountTokens | disassembly/da2diss.py:61 | findlen counts the tokens of runs as the runs' total length |
| DaToDiss.FindLenOfHexdump | disassembly/da2diss.py:41-61 | findlen applied to hexdump's output gives `count` |
| DaToDiss.OutbufFlush | disassembly/da2diss.py:93-95 | every buffered line is written in order with a newline, and the buffer is left empty |
| DaToDiss.ReadLine | disassembly/da2diss.py:99 | `readline` gives a prefix up to and including the first newline, or the rest of the text |
| DaToDiss.HeaderAccepted | disassembly/da2diss.py:97-102 | an accepted header starts with `:` |
| DaToDiss.HeaderLines | disassembly/da2diss.py:99-100 | two matching lines pass the header check, whatever follows them |
| DaToDiss.FirstHeaderLine | disassembly/diss2da.py:62 | the first header line diss2da writes matches `:\s+.__` |
| DaToDiss.SecondHeaderLine | disassembly/diss2da.py:63 | the second header line diss2da writes matches `:\s+.daversion` |
| DaToDiss.HeaderRecognised | disassembly/da2diss.py:97-102 | the header diss2da writes is accepted by da2diss, whatever follows it |

## Left out

- The second copy of `syx_implode`, `syx_explode`, `syx_decode` and `syx_checksum_update` at bcfwflash.py:210-258 is the same code as in bcfwconvert.py. It is modelled once, in `SysexCodec`.
- Real MIDI I/O is not modelled: `midi_detect`, the `select` timeout values, `array2str` and `str2array`. The port is a finite inbound byte sequence, and its end stands for a timeout.
- Warnings and progress lines on stderr are reduced to a `warned` flag or a list of acknowledgements. The `_offs` counter is never read and is not modelled.
- The command-line mains of all four scripts (option parsing, file handling) are not modelled.
- `sleep`, `PM0`/`eint`, the `"  --"` greeting, the `get_key` polling and the key-release waits of ledcode's `main` are not modelled. These are busy-waits and calls into the bootloader. Key state is a set of pressed indices passed in.
- `KEY_ENC` names an unbound `x` and has no value to model.
- The example programs `hello`, `hello-os` and `keycode` are not modelled.
- The regex classification of lines in `parse_diss` is not modelled. Each line is given already classified: skipped, a dot-command, a comment, an empty line, or a recognised line with its address, comment and directive. For an `.ascii` line the comment given is what `parse_diss` takes as one there (disassembly/diss2da.py:111): the blanks and optional comma after the string, not the `;` comment, which the source drops.
- `disassemble` runs objdump and is not modelled. Neither are `stringdump` nor the `.rebase` handling of `parse_da`.
- `IsSpace` covers the ASCII whitespace characters only. Python 2 strings are byte strings, so no other characters arise.
- Python 2 long integers print with an `L` suffix under `%x` only when they are longs. Every modelled value is a plain integer.
- The message text of each exception is not modelled; a `Failure` carries only the kind of error.
- `DissToDa.FindLenExample`: the example string is stated as the space-join of its six parts, not as a string literal.
- bootfun.h is not part of this model. The key-index bound it states is met: `Keys.KeyIndexDecodes` puts every key index in 0x08..0x27.

## Findings

| source | as written | input that shows it | evidently intended | confidence | as-written member | corrected member |
|---|---|---|---|---|---|---|
| bcfwconvert.py:243-244 | dump2syx writes the page index as `idx >> 8`, `idx & 0xff`, while syx_parse_packet (line 162) reads it back as `(b0 << 7) + b1` | a dump of two sectors from base 0xF000: page index 0x100 is written as 1, 0, which reads back as address 0x8000, so syx2dump raises the address-jump error | a 7-bit split (`idx >> 7`, `idx & 0x7f`) so that syx2dump inverts dump2syx at every address below 0x800000 | not executed | FirmwareRoundTrip.Dump2SyxRejectedAcross64K | FirmwareRoundTrip.Syx2DumpInvertsDump2Syx |
| firmware/shared/lib.c:23-28 | strlen increments the pointer past the NUL before subtracting, so it returns the number of characters plus one | the string "ABCD": strlen returns 5, and disp_scroll then shows "ABCD" and "BCD", the last window one character short | the standard strlen, which returns the number of characters, so every scroll window holds four characters | not executed | FirmwareLib.ScrollEndsShort | FirmwareLib.ScrollWindowsFull |
