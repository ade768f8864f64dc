# Verified models of a tower network's firmware

The repository is the firmware of a chain of radio towers that relay weather
readings and messages, with the components it builds on.  This project models
the parts of it that carry the hardest promises, in the form the source has
(arrays changed in place, objects whose methods update their fields, loops),
and proves what those parts promise.  `dafny verify dfyconfig.toml` checks
everything.

* **QR symbols** (`GaloisField`, `Polynomial`, `ReedSolomon`, `Interleave`,
  `PackedBits`, `Segments`, `BitStream`, `ModuleGrid`, `CodewordPlacement`,
  `SymbolReader`, `SymbolEncoder`, `QrExamples`).  The multiplication of bytes
  is proved to be that of a field, inverses included; the remainder is proved
  to be the only block that completes a codeword; and interleaving, zigzag
  placement, masking and segment packing are proved reversible.  `EncodeText`
  puts the stages together, from a text to the masked modules, and a reader
  gets the text back.
* **1-Wire search** (`Crc8`, `OneWireSearch`).  A bus that only ANDs bits and
  a few numbers of search state enumerate a hidden set of codes, each exactly
  once and in order.
* **Tower relay protocol** (`LoraPackage`, `LoraManager`, `TowerRules`,
  `RelaySession`, `RelayTimeouts`).  One tower is a class with the source's
  state functions; a session is a transition system over any number of towers and a channel that loses,
  duplicates and delays frames.  The frames are packed and unpacked in place.
* **CBOR** (`Bytes`, `CborFormat`, `CborTree`, `CborEncoder`, `CborCursor`,
  `CborParser`, `CborRoundTrip`, `CborMeaning`, `CborExamples`,
  `CborValidation`, `CborCanonical`, `CborBasic`, `CborPermitted`,
  `BaseEncoding`).  `CborTree`
  states well-formedness on its own; encoder, pull parser and validator are
  proved against it.
* **Secure certificate store and key derivation** (`SecureCertTlv`, `Pbkdf2`).

Where the source does not keep its promise, the model keeps the code as it
is, shows an input for which the promise fails, and proves for all inputs
exactly when it holds:

* A DATA frame whose payload is `R` (with or without a NUL) from a relay is
  taken for the return wave.  A reported success then need not mean that
  anything arrived (two hops or more), and a session can get stuck (any
  distance).  `SuccessIsTrueExactly` and `LiveExactly` say that this is the
  only case.
* `cbor_value_advance` on a tag moves over the tag only, so that a buffer with
  a tag in front of half an item is accepted.  The documentation of the basic
  validation promises more.  `AdvanceIsWellFormednessExactly` says when it
  holds, and `SkipThenAdvance` that skipping the tags first repairs it.
* The validator checks the order of map keys already when only
  `CborValidateNoIndeterminateLength` is set, because that bit is part of
  `CborValidateMapIsSorted` and the code tests for any of the bits.
  `KnownLengthsCheckOrder` gives the refused bytes, and
  `SortingAsDocumentedExactly` says for which flags code and documentation
  agree on all bytes (the field `anyBit` of a `Policy` tells the two apart;
  the code is the case where it is set).
* `cbor_value_validate` without flags is documented to give the result of
  `cbor_value_validate_basic`, which advances.  It counts tags and allows one
  level less, and it looks behind a tag (`BasicIsNotAdvance`,
  `BasicIsAdvanceExactly`).
* `esp_secure_cert_find_tlv` returns the last entry of the type for
  `ESP_SECURE_CERT_SUBTYPE_MAX`, not the one with the highest subtype as its
  comment says (`LastIsNotHighest`, `HighestSubtypeExactly`).
* `esp_secure_cert_list_tlv_entries` walks over all entries, but describes at
  each stop the entry that a search for the type and subtype finds, so that
  of two entries of one type and subtype the first is listed twice
  (`FirstIsListedTwice`, `ListIsEntriesExactly`).

What an encoder and a decoder, or a loop and its specification, have in common
is stated once more without it: as a shift register (`CrcIsRegister`), as
pictures (`InvertsIsPicture`), as a path (`ScanRow`), as signs of distances
(`Directions`), or by the examples of the standards (`QrExamples`,
`CborExamples`).

Bit-vectors are used where the source's bit operations are the point (field
arithmetic, CRC, module grid); elsewhere a byte is a number below 256.  In
proofs, `hide` keeps definitions out that the step at hand does not need.

## Model

| member | source | states |
|---|---|---|
| GaloisField.ReedSolomonMultiply | components/qrcode/src/qrcodegen.c:581-594 | The in-place Russian peasant loop computes the field product `Mul`, whose laws are proved below |
| GaloisField.DoubleBit | components/qrcode/src/qrcodegen.c:581-594 | Doubling, coefficient by coefficient, is multiplication by x modulo x^8 + x^4 + x^3 + x^2 + 1 |
| GaloisField.AddBit | components/qrcode/src/qrcodegen.c:581-594 | Addition is exclusive or, bit by bit |
| GaloisField.MulLeft | components/qrcode/src/qrcodegen.c:581-594 | Multiplication distributes over XOR in its left argument and commutes with doubling |
| GaloisField.MulCommutes | components/qrcode/src/qrcodegen.c:581-594 | Multiplication is commutative, although the loop treats its arguments differently |
| GaloisField.MulAssociates | components/qrcode/src/qrcodegen.c:581-594 | Multiplication is associative |
| GaloisField.MulUnit | components/qrcode/src/qrcodegen.c:581-594 | 1 is the unit of multiplication |
| GaloisField.MulInverse | components/qrcode/src/qrcodegen.c:581-594 | Every byte but 0 times its power 254 is 1: with the other laws a field, GF(2^8) with modulus 0x11D |
| GaloisField.MulZero | components/qrcode/src/qrcodegen.c:581-594 | A product is 0 if and only if a factor is |
| ReedSolomon.DivisorIsProduct | components/qrcode/src/qrcodegen.c:519-548 | The stored divisor, with its leading 1 put back, takes at every point the value of the product of (x - 2^i), i < degree |
| QrExamples.SmallDivisors | components/qrcode/src/qrcodegen.c:519-548 | The divisors of degree 1 and 2 are x + 1 and x^2 + 3x + 2, highest power first, the leading 1 left out |
| ReedSolomon.RootProductVanishes | components/qrcode/src/qrcodegen.c:519-548 | That product is zero at each of 2^0 ... 2^(degree-1) |
| ReedSolomon.Division | components/qrcode/src/qrcodegen.c:554-574 | data * x^degree + remainder = quotient * divisor, at every point of the field, for data of any length |
| ReedSolomon.RemainderMakesCodeword | components/qrcode/src/qrcodegen.c:554-574 | Data followed by its remainder vanishes at 2^0 ... 2^(degree-1) |
| ReedSolomon.RootsAreDistinct | components/qrcode/src/qrcodegen.c:519-548 | The roots 2^0 ... 2^29 of the divisors are distinct |
| ReedSolomon.RootsLeaveNothing | components/qrcode/src/qrcodegen.c:519-548 | A polynomial with as many of these roots as coefficients is zero |
| ReedSolomon.RemainderIsTheCode | components/qrcode/src/qrcodegen.c:554-574 | A block completes the data to a codeword if and only if it is the remainder: the error correction is the only one |
| ReedSolomon.ReedSolomonComputeDivisor | components/qrcode/src/qrcodegen.c:519-548 | The in-place loop stores the divisor of the given degree and leaves the rest of the array alone |
| ReedSolomon.ReedSolomonComputeRemainder | components/qrcode/src/qrcodegen.c:554-574 | The in-place loop stores the remainder of a slice of data, also when the result lies in the data array, and leaves the rest alone |
| Interleave.SlotAtPosition | components/qrcode/src/qrcodegen.c:430-473 | Every data and every error correction codeword has its own place in the stream: the place determines the slot |
| Interleave.PositionOfSlotAt | components/qrcode/src/qrcodegen.c:430-473 | Every index of the stream is the place of some slot: the copy loops write each index exactly once |
| Interleave.PositionsInOrder | components/qrcode/src/qrcodegen.c:430-473 | The order of the stream: all data before all error correction, and each by index first and by block second |
| Interleave.ShortBlocksFirst | components/qrcode/src/qrcodegen.c:441-464 | The blocks follow each other in the data, differ by one codeword at most, and the shorter ones come first |
| Interleave.InterleavingIsReversible | components/qrcode/src/qrcodegen.c:430-473 | A de-interleaver gets back the data in order, and each block with its error correction is a codeword |
| Interleave.CopyData | components/qrcode/src/qrcodegen.c:456-464 | The data loop of one block writes exactly the slots of that block |
| Interleave.CopyEcc | components/qrcode/src/qrcodegen.c:466-469 | The error correction loop of one block writes exactly the slots of that block |
| Interleave.AddEccAndInterleave | components/qrcode/src/qrcodegen.c:430-473 | The result is the interleaved stream of the data; the scratch area behind the data never disturbs data still unread, and nothing else changes |
| PackedBits.AppendBitsToBuffer | components/qrcode/src/qrcodegen.c:273-284 | The bits of a number are ORed in at the end of the stream, most significant first, and no other bit changes |
| PackedBits.ValueRoundTrip | components/qrcode/src/qrcodegen.c:273-284 | The appended bits read as a number are the number |
| PackedBits.BitIsDigit | components/qrcode/src/qrcodegen.c:1191-1195 | Bit i of a byte is the one that dividing its number by 2^i brings to the bottom |
| ModuleGrid.GetModule | components/qrcode/src/qrcodegen.c:1139-1148 | The bit-packed grid reads as a grid of modules |
| ModuleGrid.SetModule | components/qrcode/src/qrcodegen.c:1152-1172 | Setting a module changes that module and no other, and the grid stays a grid |
| ModuleGrid.ModuleIsDigit | components/qrcode/src/qrcodegen.c:1139-1148 | Module (x, y) is bit y * side + x behind the first byte, the least significant bit of a byte first |
| CodewordPlacement.ScanIsBijective | components/qrcode/src/qrcodegen.c:834-871 | On any side 4v+17 the zigzag visits every cell outside column 6 exactly once |
| CodewordPlacement.ScanStart | components/qrcode/src/qrcodegen.c:834-871 | The scan starts in the lower right corner |
| CodewordPlacement.ScanLeft | components/qrcode/src/qrcodegen.c:834-871 | In every row of a pair of columns the right module is followed by its left neighbour |
| CodewordPlacement.ScanRow | components/qrcode/src/qrcodegen.c:834-871 | From row to row the scan goes upward in the first pair of columns, and down and up in turn in the others |
| CodewordPlacement.ScanNextPair | components/qrcode/src/qrcodegen.c:834-871 | Behind a pair it goes on at its height in the next pair, and from column 7 to column 5: with the three above, the whole path is fixed |
| CodewordPlacement.DrawCodewords | components/qrcode/src/qrcodegen.c:834-871 | Function modules keep their colour, and the n-th free cell of the scan gets the n-th bit of the data, the cells left over white |
| CodewordPlacement.BitsReadBack | components/qrcode/src/qrcodegen.c:834-871 | Reading the free cells in scan order gives the bits in order, then white |
| CodewordPlacement.ApplyMask | components/qrcode/src/qrcodegen.c:879-940 | XORs exactly the cells that are no function modules with the mask pattern: cell by cell, with the picture of the mask |
| CodewordPlacement.InvertsIsPicture | components/qrcode/src/qrcodegen.c:879-940 | For all modules, each of the eight formulas draws its picture, given cell by cell as a tile |
| CodewordPlacement.MaskedAt | components/qrcode/src/qrcodegen.c:879-940 | After masking a module is inverted exactly where it is no function module and the picture is dark at its column and row |
| CodewordPlacement.MaskUndoesItself | components/qrcode/src/qrcodegen.c:879-940 | Masking twice with one mask changes nothing |
| CodewordPlacement.CodewordsSurviveMasking | components/qrcode/src/qrcodegen.c:387-420 | Draw, redraw function modules, mask; a reader that unmasks and scans finds the bits, then white |
| Segments.BitLengthIsExact | components/qrcode/src/qrcodegen.c:1259-1304 | The computed bit length is the length of the packed segment, and -1 exactly above 32767 |
| Segments.LongestSegments | components/qrcode/src/qrcodegen.c:1259-1304 | The bit lengths by mode, and the most characters of each mode whose length still fits: 9830, 5957, 4095 and 2520 |
| Segments.CountWidths | components/qrcode/src/qrcodegen.c:1506-1555 | The width of the count field, by mode and for versions 1 to 9, 10 to 26 and 27 to 40 (table 3 of ISO/IEC 18004:2015) |
| Segments.IndicatorBits | components/qrcode/src/qrcodegen.c:352-356 | The mode indicators bit by bit (table 2 of ISO/IEC 18004:2015) |
| Segments.PlaceByClass | components/qrcode/src/qrcodegen.c:137 | Digits have the values 0 to 9, capital letters 10 to 35, the nine symbols 36 to 44, and no other character is in the set |
| Segments.PackRoundTrip | components/qrcode/src/qrcodegen.c:1330-1422 | Packed groups of digits or characters decode to the string, whatever bits follow |
| Segments.MakeNumeric | components/qrcode/src/qrcodegen.c:1330-1374 | The in-place packing of a digit string of any length stores exactly the packed bits and clears the rest of the last byte |
| Segments.MakeAlphanumeric | components/qrcode/src/qrcodegen.c:1378-1422 | The same for alphanumeric text |
| BitStream.GetTotalBits | components/qrcode/src/qrcodegen.c:1470-1501 | -1 exactly when a count does not fit its field or the sum exceeds 32767, else the sum |
| BitStream.PadStream | components/qrcode/src/qrcodegen.c:367-385 | Terminator, zeros to a byte and alternating pad bytes fill the capacity exactly, earlier bits unchanged |
| BitStream.TailAt | components/qrcode/src/qrcodegen.c:367-385 | Every bit behind the segments: 0 up to the first whole byte behind the terminator, then the bytes 0xEC and 0x11 in turn, from any length and capacity |
| BitStream.EncodeStream | components/qrcode/src/qrcodegen.c:348-385 | The buffer carries the segments' headers and data, then the padding, up to exactly the capacity |
| BitStream.ItemsReadBack | components/qrcode/src/qrcodegen.c:348-363 | A reader of the stream gets back the segments that went in |
| BitStream.PaddedStreamReadsBack | components/qrcode/src/qrcodegen.c:367-385 | The same for the padded stream, with or without room for the terminator |
| QrExamples.NumericExample | components/qrcode/src/qrcodegen.c:1330-1374 | The bits for 01234567 in version 1 are those of section 7.4.3 of ISO/IEC 18004:2015 |
| QrExamples.AlphanumericExample | components/qrcode/src/qrcodegen.c:1378-1422 | The bits for AC-42 in version 1 are those of section 7.4.4 of ISO/IEC 18004:2015 |
| SymbolReader.StreamScansBack | components/qrcode/src/qrcodegen.c:387-420 | A reader that knows the function modules and the mask scans the codewords of the stream, whatever is drawn over the function modules before or after masking |
| SymbolReader.SymbolReadsBack | components/qrcode/src/qrcodegen.c:347-420 | All stages together: a symbol that carries the padded, interleaved, placed and masked segments reads as these segments |
| SymbolReader.TextReadsBack | components/qrcode/src/qrcodegen.c:174-235 | The segments of a text, in the mode chosen for it, stand for the text and have the lengths that a reader works out |
| SymbolEncoder.ChooseVersion | components/qrcode/src/qrcodegen.c:317-337 | The least version of the range that has room for the segments; failure exactly when none has |
| SymbolEncoder.BoostLevel | components/qrcode/src/qrcodegen.c:339-346 | The highest level for which the data still fit in the version |
| SymbolEncoder.ChooseMask | components/qrcode/src/qrcodegen.c:394-415 | A mask of the lowest penalty, and the modules are left as they were |
| SymbolEncoder.DrawSymbol | components/qrcode/src/qrcodegen.c:347-391 | Segments, error correction, interleaving and placement in turn, with the two buffers used alternately, give the modules of the symbol before masking |
| SymbolEncoder.EncodeSegmentsAdvanced | components/qrcode/src/qrcodegen.c:303-420 | There is a symbol if and only if some version of the range has room for the segments; it is in the least such version, of the highest level that fits or of the level given, with a mask of the lowest penalty or the mask given |
| SymbolEncoder.SymbolReads | components/qrcode/src/qrcodegen.c:347-420 | A reader that knows version, level and mask gets the segments back from such a symbol, whatever is drawn over its function modules |
| SymbolEncoder.MakeTextSegment | components/qrcode/src/qrcodegen.c:190-235 | The segment of a text in the first mode that has all its characters; failure only when its payload is too large for every version |
| SymbolEncoder.EncodeText | components/qrcode/src/qrcodegen.c:174-242 | A text gets a symbol if and only if some version of the range has room for it; it is in the least such version, of the highest level that fits or of the level given, with a mask of the lowest penalty or the mask given, and a reader of the symbol gets the text back |
| Crc8.TableIsShift | components/one-wire/owb.c:76-99 | Every entry of the CRC table is eight steps of the shift register |
| Crc8.TableIsPermutation | components/one-wire/owb.c:76-99 | The table is a permutation that fixes only 0 at 0 |
| Crc8.CalcCrcBlock | components/one-wire/owb.c:101-110 | The do-while loop computes the CRC of the block |
| Crc8.CrcIsRegister | components/one-wire/owb.c:76-110 | The CRC of any bytes is what a one-bit shift register for x^8 + x^5 + x^4 + 1 holds when their bits have entered one by one, least significant first |
| Crc8.KnownCode | components/one-wire/owb.c:101-110 | The code 02 1C B8 01 00 00 00 A2 has CRC 0 |
| Crc8.OneByteChangeDetected | components/one-wire/owb.c:101-110 | In a block of any length, a changed byte changes the CRC, and only a changed one |
| Crc8.LastByteDetermined | components/one-wire/owb.c:101-110 | In a block with CRC 0 the other bytes determine the last |
| OneWireSearch.SearchBit | components/one-wire/owb.c:152-227 | One turn of the search loop takes the direction of the trie walk and keeps last-zero, family discrepancy, code and CRC of the walk so far |
| OneWireSearch.SearchLoop | components/one-wire/owb.c:152-227 | The loop over 64 bits ends on a device that is on the bus, with the deepest branch at which 0 was taken |
| OneWireSearch.Search | components/one-wire/owb.c:116-259 | The whole search: not found after the last device or on an empty bus, accepted exactly with CRC 0 and non-zero family, and the state each leaves |
| OneWireSearch.SearchFirst | components/one-wire/owb.c:659-685 | A search from a cleared state: the code found follows the trie taking 0 at every branch |
| OneWireSearch.FirstIsLeast | components/one-wire/owb.c:659-685 | The first code found is the least in the order of the bits, least significant first |
| OneWireSearch.NextIsSuccessor | components/one-wire/owb.c:687-709 | The next code found is the immediate successor of the one before on the bus |
| OneWireSearch.NoneAfterLast | components/one-wire/owb.c:230-243 | When the last discrepancy is 0 no device comes after the code found |
| OneWireSearch.DiscrepanciesAre | components/one-wire/owb.c:186-204 | The last discrepancy is the deepest position at which the code has 0 and a device that agrees so far has 1; the family discrepancy the same among the first eight bits, or unchanged |
| OneWireSearch.AcceptedExactly | components/one-wire/owb.c:230-258 | A code is accepted exactly when its 64 bits leave an empty shift register empty and the first eight are not all 0 |
| OneWireSearch.EnumerateDevices | components/one-wire/owb.c:659-709 | First and then next: codes come in order, none twice, and the call after the last finds nothing; every device is found if and only if every device has CRC 0 and a non-zero family byte, and otherwise the search stops before the first that has not |
| OneWireSearch.LastBitDetermined | components/one-wire/owb.c:418-460 | Two codes with CRC 0 that agree up to the last byte are equal: there is no branch at bit 64 |
| OneWireSearch.SearchFindsItself | components/one-wire/owb.c:418-460 | A search that starts from a code of the bus with discrepancy 64 ends on that code, if and only if no other device differs from it at bit 64 alone and has a 1 there |
| OneWireSearch.VerifyRom | components/one-wire/owb.c:418-460 | On any bus: present if and only if the code is one of the devices, has CRC 0 and a non-zero family byte, and no other device differs from it at bit 64 alone and has a 1 there; where all codes have CRC 0 and a non-zero family byte, if and only if it is one of the devices |
| LoraPackage.FrameReadsBack | main/LoraPackage.cpp:15-118 | Unpacking undoes packing, tower numbers modulo 256 and readings modulo 65536, and the packed frame passes the sum check |
| LoraPackage.OneByteChangeFails | main/LoraPackage.cpp:199-207 | A frame that passes the sum check fails it after any change of one byte |
| LoraPackage.RelayingKeepsFrame | main/LoraManager.cpp:163-196 | Over any number of relays destination, original sender, type flags, payload and readings arrive as sent, the second battery replaced by the last non-zero reading, and the sum check holds at every hop |
| TowerRules.FrameLayout | main/LoraPackage.cpp:15-61 | Where each byte of a frame stands: six of header, the readings unless it is text, the payload |
| TowerRules.ReadingBytes | main/LoraPackage.cpp:31-47 | Readings low byte first, a negative one in two's complement |
| TowerRules.SumBytes | main/LoraPackage.cpp:49-60 | The sum of all bytes before it, low byte first |
| LoraPackage.LoraPackage.Encapsulate | main/LoraPackage.cpp:15-61 | The in-place packing stores exactly the bytes of the frame and its sum, and leaves the fields alone |
| LoraPackage.LoraPackage.Decapsulate | main/LoraPackage.cpp:63-118 | Unpacking fills the fields from the bytes; a text frame keeps the old readings, and the payload buffer behind the payload is unchanged |
| LoraPackage.LoraPackage.CalculateSum | main/LoraPackage.cpp:199-207 | The loop computes the sum modulo 65536 of all bytes but the last two |
| LoraPackage.LoraPackage.SetPackage | main/LoraPackage.cpp:120-131 | A received frame replaces the package; sizes 0 and from 1000 on leave everything as it was |
| LoraPackage.LoraPackage.SetPayload | main/LoraPackage.cpp:133-156 | A new package is filled in and packed; sizes 0 and from 1000 on leave everything as it was |
| LoraPackage.LoraPackage.SetSenderNumber | main/LoraPackage.cpp:183-187 | Changes the sender, and the packed frame with it |
| LoraPackage.LoraPackage.SetBattery2 | main/LoraPackage.cpp:270-274 | Changes the second battery reading, and the packed frame with it |
| LoraPackage.LoraPackage.AcceptAndRelay | main/LoraManager.cpp:163-196 | Accepts exactly the frames that pass the sum check and packs what the relay sends on |
| LoraManager.LoraManager.Exec | main/LoraManager.cpp:47-99 | One pass of the main loop in any state is the transition `Turn` with its effects |
| TowerRules.Directions | main/LoraManager.cpp:167-241 | The four conditions on sender and destination as signs of distances: behind, ahead, strictly ahead, passing by |
| TowerRules.AnswerBytes | main/LoraManager.cpp:116-158 | The bytes of both answers, with header, text, NUL and sum |
| TowerRules.AnswersRecognised | main/LoraManager.cpp:246-250 | The payloads that pass for an answer are the beginnings of its text, the empty one included |
| TowerRules.OverlaidAt | main/LoraPackage.cpp:63-118 | What stands in the payload buffer after a shorter payload, byte by byte |
| TowerRules.SentExactly | main/LoraManager.cpp:101-158 | A turn sends exactly in the three sending states, and what it sends there |
| TowerRules.ConsumedExactly | main/LoraManager.cpp:130-140 | Only the destination consumes, when it confirms; only the originator reports success |
| TowerRules.OutOfTime | main/LoraManager.cpp:60-70 | The global timeout ends the session for every tower that takes part in one, and changes nothing for one that waits for a package |
| TowerRules.TurnKeeps | main/LoraManager.cpp:47-99 | What no turn changes: number and battery, the package outside Receive_Payload, what was heard when nothing arrives |
| TowerRules.TakenExactly | main/LoraManager.cpp:160-207 | A waiting tower takes exactly the packages with information from the neighbour opposite to their destination while it takes part in no session |
| TowerRules.RelayedReadings | main/LoraManager.cpp:183-186 | The readings of a package taken are its own but for the second battery of a repeater that has one |
| TowerRules.SendsAgain | main/LoraManager.cpp:257-262 | Without an answer in time a tower sends again, and with nothing else changed |
| TowerRules.Waits | main/LoraManager.cpp:209-368 | Without anything heard and before its local timeout a tower that listens stays as it is |
| TowerRules.Confirmed | main/LoraManager.cpp:237-254 | What each answer means to a tower that waits for its confirmation, in terms of distances and the bytes of the payload |
| TowerRules.ReturnHeard | main/LoraManager.cpp:292-360 | What the return wave means to a tower that waits for it and to one that has passed it on |
| RelayTimeouts.TimedOutIsSilent | main/LoraManager.cpp:60-70 | A tower that takes a turn after the global timeout, outside Receive_Payload, no longer transmits nor counts as originator, and adds nothing to what is sent, consumed or accepted in any later step |
| RelayTimeouts.OverStaysOver | main/LoraManager.cpp:60-70 | When every tower sleeps or waits for a package and nothing is in the air, nothing is ever sent or consumed again |
| RelayTimeouts.TimeoutsEndSession | main/LoraManager.cpp:60-70 | From every reachable state the global timeouts of the towers, and the loss of what is in the air, end the session so |
| LoraManager.LoraManager.SendPackage | main/LoraManager.cpp:376-386 | Starts a session as its originator; a payload that is empty or of 1000 bytes or more leaves the old package to be sent |
| LoraManager.LoraManager.SendConfirmPrimary | main/LoraManager.cpp:116-141 | Confirms, and consumes exactly at the destination, which turns to answering |
| LoraManager.LoraManager.DoReceivePayload | main/LoraManager.cpp:160-207 | The rules for accepting a package and preparing to pass it on |
| LoraManager.LoraManager.DoReceiveConfirmPrimary | main/LoraManager.cpp:209-263 | The rules for confirmation by echo, by OK, or by the return wave, with the stale bytes behind a shorter payload |
| LoraManager.LoraManager.DoReceiveReturn | main/LoraManager.cpp:265-308 | The rules for hearing the return wave |
| LoraManager.LoraManager.DoReceiveReturnConfirm | main/LoraManager.cpp:310-368 | The rules for hearing that the tower before has answered |
| RelaySession.InvStep | main/LoraManager.cpp:101-368 | Every turn of every tower, with or without timeouts, and every loss keeps the session invariant |
| RelaySession.ReturnStep | main/LoraManager.cpp:209-368 | Every such step keeps the answers in order, unless DATA can be taken for an answer |
| RelaySession.ConsumedAtMostOnce | main/LoraManager.cpp:116-141 | In every run at most one package is consumed, by the destination, and it is the one sent, as the relays on the path passed it on |
| RelaySession.FramesTravelAsBytes | main/LoraPackage.cpp:15-118 | In every run each frame sent fits in the buffers of 256 bytes, and its bytes, received over any older package, say what was sent and pass the sum check |
| RelaySession.AcceptedRun | main/LoraManager.cpp:160-207 | In every run the towers that accepted the package are a contiguous run from the originator |
| RelaySession.FalseSuccess | main/LoraManager.cpp:265-308 | With a payload that reads like the return wave and at least two hops, a run ends in success although nothing was consumed |
| RelaySession.SuccessIsTrueExactly | main/LoraManager.cpp:310-368 | A reported success always means that the destination consumed the package, if and only if the payload does not read like the return wave or there is a single hop; the same condition decides whether the towers that answered are always a contiguous run to the destination |
| RelaySession.LiveExactly | main/LoraManager.cpp:209-368 | From every state reached without a global timeout, over a channel that may have lost everything, some run of deliveries and retransmissions ends in success, if and only if the payload does not read like the return wave |
| RelaySession.Succeeding | main/LoraManager.cpp:209-368 | The run itself: each tower in turn retransmits until the wave has moved one hop |
| RelaySession.GetsStuck | main/LoraManager.cpp:310-368 | Otherwise a neighbour falls asleep on repeated DATA and the originator waits for ever |
| CborFormat.HeadReadsBack | managed_components/espressif__cbor/tinycbor/src/cborencoder.c:308-335 | A head read back gives major type and value, and ends where it ends |
| CborFormat.HeadIsShortest | managed_components/espressif__cbor/tinycbor/src/cborencoder.c:308-335 | No head with the same value is shorter, and the only one as short is the encoder's |
| CborTree.ItemReadsBack | managed_components/espressif__cbor/tinycbor/src/cborparser.c:167-262 | What the encoder writes for a tree is well formed, means that tree and ends at its last byte, wherever it stands |
| CborTree.ParsedWithinDepth | managed_components/espressif__cbor/tinycbor/src/cborparser.c:475-516 | What is read is never nested deeper than the limit |
| CborMeaning.CallsReadBack | managed_components/espressif__cbor/tinycbor/src/cborencoder.c:355-585 | Any calls that make up whole items: a reader of what they write finds these items, in order |
| CborMeaning.CallReadsBack | managed_components/espressif__cbor/tinycbor/src/cborencoder.c:355-585 | The same for one call |
| CborMeaning.IntegersReadBack | managed_components/espressif__cbor/tinycbor/src/cborencoder.c:355-386 | What is written for an integer reads back as that integer, negative ones as -1 - n, and -2^64 for the absolute value 0 |
| CborExamples.SmallNumbers | managed_components/espressif__cbor/tinycbor/src/cborencoder.c:355-386 | Encodings of appendix A of RFC 8949: integers |
| CborExamples.FourBytes | managed_components/espressif__cbor/tinycbor/src/cborencoder.c:355-386 | The integer 1000000 in five bytes |
| CborExamples.EightBytes | managed_components/espressif__cbor/tinycbor/src/cborencoder.c:355-386 | The integer 1000000000000 in nine bytes, as in appendix A of RFC 8949 |
| CborExamples.SimpleValues | managed_components/espressif__cbor/tinycbor/src/cborencoder.c:395-414 | Simple values of appendix A of RFC 8949 |
| CborExamples.HalfFloat | managed_components/espressif__cbor/tinycbor/src/cborencoder.c:416-437 | 1.5 in half precision |
| CborExamples.SingleFloat | managed_components/espressif__cbor/tinycbor/src/cborencoder.c:416-437 | 100000.0 in single precision, as in appendix A of RFC 8949 |
| CborExamples.TagsAndStrings | managed_components/espressif__cbor/tinycbor/src/cborencoder.c:439-488 | A tagged number and strings of appendix A of RFC 8949 |
| CborExamples.ArrayOfThree | managed_components/espressif__cbor/tinycbor/src/cborencoder.c:490-585 | The array [1, 2, 3] |
| CborExamples.MapOfOne | managed_components/espressif__cbor/tinycbor/src/cborencoder.c:490-585 | A map of one pair |
| CborExamples.OpenLists | managed_components/espressif__cbor/tinycbor/src/cborparser.c:581-640 | Lists and maps of unknown length |
| CborExamples.Chunks | managed_components/espressif__cbor/tinycbor/src/cborparser.c:993-1043 | A string in chunks |
| CborExamples.CutHeads | managed_components/espressif__cbor/tinycbor/src/cborparser.c:167-262 | Heads and tags that end too soon are not well formed |
| CborExamples.CutStrings | managed_components/espressif__cbor/tinycbor/src/cborparser.c:303-330 | Strings that end too soon are not well formed |
| CborExamples.CutLists | managed_components/espressif__cbor/tinycbor/src/cborparser.c:475-552 | Lists that end too soon are not well formed (appendix F of RFC 8949) |
| CborExamples.Reserved | managed_components/espressif__cbor/tinycbor/src/cborparser.c:167-262 | Reserved additional information and misplaced indefinite lengths are not well formed |
| CborExamples.TwoByteSimple | managed_components/espressif__cbor/tinycbor/src/cborparser.c:167-262 | Simple values below 32 in two bytes are not well formed |
| CborExamples.WrongChunks | managed_components/espressif__cbor/tinycbor/src/cborparser.c:993-1043 | Chunks of another type or nested ones are not well formed |
| CborExamples.MisplacedBreak | managed_components/espressif__cbor/tinycbor/src/cborparser.c:264-281 | A break where an item is due is not well formed |
| CborExamples.BreakBehindKey | managed_components/espressif__cbor/tinycbor/src/cborparser.c:264-281 | A break behind a key is not well formed |
| CborEncoder.CountIsExact | managed_components/espressif__cbor/tinycbor/src/cborencoder.c:256-301 | For any chunks and any buffer size: an output that fits is in the buffer, byte for byte; of one that does not, a prefix is in the buffer, nothing else changed, and the count is exactly what is missing |
| CborEncoder.CborEncoder.AppendToBuffer | managed_components/espressif__cbor/tinycbor/src/cborencoder.c:272-301 | A chunk is written whole, or the encoder turns to counting; out of memory exactly when it does not fit |
| CborEncoder.CborEncoder.EncodeNumberNoUpdate | managed_components/espressif__cbor/tinycbor/src/cborencoder.c:308-335 | The head built from the end of a buffer is the shortest one |
| CborEncoder.CborEncoder.EncodeString | managed_components/espressif__cbor/tinycbor/src/cborencoder.c:445-451 | Head and content; a head that overflowed does not hide the overflow |
| CborEncoder.CborEncoder.CreateContainer | managed_components/espressif__cbor/tinycbor/src/cborencoder.c:490-514 | The child starts where its parent stands, writes the head and knows how many items are due |
| CborEncoder.CborEncoder.CloseContainer | managed_components/espressif__cbor/tinycbor/src/cborencoder.c:573-589 | The parent continues where the child stands; too many, too few and out of memory are told apart |
| CborEncoder.CborEncoder.Encode | managed_components/espressif__cbor/tinycbor/src/cborencoder.c:355-485 | Each operation appends exactly its chunks and counts as one item, except tags; misuse is reported exactly for illegal values and wrong counts |
| CborEncoder.CborEncoder.EncodeContainer | managed_components/espressif__cbor/tinycbor/src/cborencoder.c:490-589 | Containers nested to any depth append exactly the chunks of their operations |
| CborEncoder.EncodeSession | managed_components/espressif__cbor/tinycbor/src/cborencoder.c:203-301 | Any sequence of operations, with a buffer of any size or none: out of memory if and only if the output is larger than the buffer, with exact contents and count either way |
| CborEncoder.RunTwice | managed_components/espressif__cbor/tinycbor/src/cborencoder.c:256-301 | Running again with the missing bytes added succeeds and fills the buffer exactly |
| CborEncoder.OpsWriteTree | managed_components/espressif__cbor/tinycbor/src/cborencoder.c:355-514 | The calls for a tree are legal and write exactly its bytes |
| CborEncoder.EncodeTree | managed_components/espressif__cbor/tinycbor/src/cborencoder.c:355-589 | A tree written into a buffer |
| CborParser.CborValue.PreparseValue | managed_components/espressif__cbor/tinycbor/src/cborparser.c:167-262 | Succeeds exactly on a head that may start an item, tells what is wrong with any other, and knows type, number and sign |
| CborParser.HeadErrorsByByte | managed_components/espressif__cbor/tinycbor/src/cborparser.c:167-262 | The errors of a head in terms of its first byte and the number of bytes from there |
| CborCursor.TypesByByte | managed_components/espressif__cbor/tinycbor/src/cborparser.c:167-262 | The types in terms of the first byte |
| CborParser.CborValue.PreparseNextValueNoDecrement | managed_components/espressif__cbor/tinycbor/src/cborparser.c:264-281 | The break ends a container of unknown length, but not behind a key or a tag |
| CborParser.CborValue.PreparseNextValue | managed_components/espressif__cbor/tinycbor/src/cborparser.c:283-301 | Counts items, not tags, toggles key and value, and looks at what comes next |
| CborParser.CborValue.ExtractNumber | managed_components/espressif__cbor/tinycbor/src/cbor.h:369-373 | The number kept in the iterator or read again is the value of the head |
| CborParser.CborValue.ExtractNumberChecked | managed_components/espressif__cbor/tinycbor/src/cborinternal_p.h:282-315 | The number read again from the bytes of the head is its value, with the bytes it takes, and the error of any other head is given exactly |
| CborParser.CborValue.AdvanceInternal | managed_components/espressif__cbor/tinycbor/src/cborparser.c:303-314 | Over an item of fixed size |
| CborParser.CborValue.EnterContainer | managed_components/espressif__cbor/tinycbor/src/cborparser.c:581-616 | The iterator on the items of a container; impossible lengths are refused |
| CborParser.CborValue.LeaveContainer | managed_components/espressif__cbor/tinycbor/src/cborparser.c:630-639 | Past the container and its break, if it has one |
| CborParser.CborValue.GetStringChunk | managed_components/espressif__cbor/tinycbor/src/cborparser.c:993-1066 | The next chunk of a string, or that there is none, or an error |
| CborParser.CborValue.IterateStringChunks | managed_components/espressif__cbor/tinycbor/src/cborparser.c:1183-1228 | The concatenated chunks of a string, and past its end |
| CborCursor.StepRest | managed_components/espressif__cbor/tinycbor/src/cborparser.c:475-501 | One call of advance does not change where the container ends, and fails only where no well-formed end exists |
| CborCursor.EnterRest | managed_components/espressif__cbor/tinycbor/src/cborparser.c:581-616 | Entering a container fails only where it is not well formed, and leaves its content to be read |
| CborParser.CborValue.AdvanceRecursive | managed_components/espressif__cbor/tinycbor/src/cborparser.c:475-501 | Succeeds exactly over a well-formed item within the nesting limit, ends behind it, and never leaves the buffer |
| CborParser.CborValue.SkipTag | managed_components/espressif__cbor/tinycbor/src/cborparser.c:554-562 | Past all tags of an item |
| CborParser.AdvanceIsWellFormednessExactly | managed_components/espressif__cbor/tinycbor/src/cborparser.c:346-524 | Init and advance accept exactly the buffers that start with a well-formed item (Appendix C of RFC 8949) and stop right behind it, if and only if the buffer does not start with a tag in front of an acceptable head |
| CborParser.TaggedHalfArrayAccepted | managed_components/espressif__cbor/tinycbor/src/cborparser.c:518-524 | The bytes C0 82 are accepted, although no item follows |
| CborParser.SkipThenAdvance | managed_components/espressif__cbor/tinycbor/src/cborparser.c:518-562 | With the tags skipped first, advance accepts exactly what is well formed, for all buffers |
| CborParser.ParseAndAdvance | managed_components/espressif__cbor/tinycbor/src/cborparser.c:346-524 | Init and advance as one call: terminates, and the position stays inside the buffer |
| CborParser.ParseSkipAndAdvance | managed_components/espressif__cbor/tinycbor/src/cborparser.c:346-562 | No error if and only if a well-formed item of container depth at most 1024 starts the buffer, and the position is right behind it |
| CborParser.CborValue.ReadItem | managed_components/espressif__cbor/tinycbor/src/cborparser.c:466-639 | A walk with enter, leave, advance and string copies collects exactly the tree of the item |
| CborParser.ReadTree | managed_components/espressif__cbor/tinycbor/src/cborparser.c:346-639 | The first item of a buffer as a tree, if and only if it is well formed |
| CborRoundTrip.WriteAndRead | managed_components/espressif__cbor/tinycbor/src/cborencoder.c:308-514 | Every tree counted, written and read back is the same tree, and reading ends at the last byte |
| CborValidation.CompareIsOrder | managed_components/espressif__cbor/tinycbor/src/cborvalidation.c:476-488 | Comparing keys by memcmp and length is bytewise lexicographic order |
| CborValidation.NeighboursAreEnough | managed_components/espressif__cbor/tinycbor/src/cborvalidation.c:472-491 | Comparing each key with the one before it keeps all pairs of keys in order, and with uniqueness distinct |
| CborValidation.ValidateNumber | managed_components/espressif__cbor/tinycbor/src/cborvalidation.c:293-320 | Of the heads that can be read, accepts exactly those that are, byte for byte, the encoder's for their value |
| CborValidation.ValidateSimple | managed_components/espressif__cbor/tinycbor/src/cborvalidation.c:282-291 | Which simple values, undefined and floating point numbers the flags admit |
| CborValidation.ValidateContainer | managed_components/espressif__cbor/tinycbor/src/cborvalidation.c:438-499 | Accepts exactly valid contents whose keys are pairwise in order (section 4.2.1 of RFC 8949), and distinct if asked |
| CborValidation.ValidateString | managed_components/espressif__cbor/tinycbor/src/cborvalidation.c:541-573 | Accepts exactly strings whose chunks are all valid |
| CborValidation.ValidateTagged | managed_components/espressif__cbor/tinycbor/src/cborvalidation.c:322-372 | A tag costs one level of nesting and must admit what it tags |
| CborValidation.ValidateValue | managed_components/espressif__cbor/tinycbor/src/cborvalidation.c:501-628 | Accepts exactly the valid items, at every depth, and ends behind them |
| CborValidation.Validate | managed_components/espressif__cbor/tinycbor/src/cborvalidation.c:644-653 | Validates a copy of the iterator with the nesting limit |
| CborCanonical.AcceptedIsEncoding | managed_components/espressif__cbor/tinycbor/src/cborvalidation.c:293-499 | What is valid is well formed; with shortest integrals and known lengths it is, byte for byte, what the encoder writes for its tree |
| CborPermitted.PermittedExactly | managed_components/espressif__cbor/tinycbor/src/cborvalidation.c:282-642 | On the encoding of any tree, and for any flags, the validator decides exactly whether the flags permit the tree, said of the tree alone (lengths known, keys texts, in order, distinct, simple values, floating point numbers, texts, tags), and whether it is nested less than the limit |
| CborPermitted.CanonicalExactly | managed_components/espressif__cbor/tinycbor/src/cborvalidation.c:282-642 | Under any flags that ask for shortest numbers and known lengths, bytes are valid if and only if they are the encoding of a tree that the flags permit, nested less than the limit |
| CborPermitted.TypeOfEncoding | managed_components/espressif__cbor/tinycbor/src/cborparser.c:167-262 | The type the iterator sees at an encoding is that of the tree |
| CborPermitted.KeyIsTextExactly | managed_components/espressif__cbor/tinycbor/src/cborvalidation.c:450-464 | A key counts as a text exactly if it is one behind its tags |
| CborCanonical.AcceptedInOrder | managed_components/espressif__cbor/tinycbor/src/cborvalidation.c:438-499 | With shortest integrals, known lengths and sorting, every map at every depth of the accepted tree has the encodings of its keys pairwise in order, and distinct with uniqueness |
| CborCanonical.UniquenessExactly | managed_components/espressif__cbor/tinycbor/src/cborvalidation.c:473-489 | With all three bits of uniqueness set, what is accepted has no two keys of the same bytes in any map at any depth; with any of them clear, the bit for uniqueness changes nothing |
| CborCanonical.RepeatedKeyRefused | managed_components/espressif__cbor/tinycbor/src/cborvalidation.c:473-489 | With all three bits set the bytes A2 01 00 01 00 are refused, and without the bit for uniqueness accepted |
| CborCanonical.SimpleExactly | managed_components/espressif__cbor/tinycbor/src/cborvalidation.c:282-291 | Which simple values and which form of them each flag refuses |
| CborCanonical.SortingAddsOrder | managed_components/espressif__cbor/tinycbor/src/cborvalidation.c:438-499 | Under any policy, what is accepted is what is accepted without sorting and, if sorting is on, has in every map at every depth the bytes of the keys, as they stand in the buffer, pairwise in order, and distinct with uniqueness |
| CborCanonical.SortingAsDocumentedExactly | managed_components/espressif__cbor/tinycbor/src/cborvalidation.c:473 | For all bytes and nesting limits the code checks the order of keys as documented, if and only if the bits for sorting and for known lengths are set together or not at all |
| CborCanonical.KnownLengthsCheckOrder | managed_components/espressif__cbor/tinycbor/src/cborvalidation.c:473 | With the flag for known lengths alone the bytes A2 02 00 01 00 are refused, though sorting was not asked for |
| CborBasic.BasicIsNesting | managed_components/espressif__cbor/tinycbor/src/cborvalidation.c:501-628 | Validation without flags accepts exactly what is well formed and nested less deep than the limit, containers and tags counted |
| CborBasic.BasicIsAdvanceExactly | managed_components/espressif__cbor/tinycbor/src/cborvalidation.c:634-635 | Validation without flags and basic validation, which advances, accept the same buffer, if and only if a well-formed item in front is nested less than 1024 deep, tags counted, and a tag in front of an acceptable head starts a well-formed item |
| CborBasic.BasicIsNotAdvance | managed_components/espressif__cbor/tinycbor/src/cborvalidation.c:634-635 | The bytes C0 82, and 1024 arrays around a number, are accepted by the one and refused by the other |
| BaseEncoding.Base64ReadsBack | managed_components/espressif__cbor/tinycbor/src/cbortojson.c:202-278 | Decoding the text, padded or not, gives the bytes back |
| BaseEncoding.AlphabetIs | managed_components/espressif__cbor/tinycbor/src/cbortojson.c:280-292 | The two alphabets by class, and the filler |
| BaseEncoding.TextInAlphabet | managed_components/espressif__cbor/tinycbor/src/cbortojson.c:202-278 | Text of section 4 of RFC 4648 holds no '-' or '_', text of section 5 no '+', '/' or '=' |
| BaseEncoding.ShortExamples | managed_components/espressif__cbor/tinycbor/src/cbortojson.c:202-278 | The texts of f, fo and foo of section 10 of RFC 4648, and without padding |
| BaseEncoding.LongExamples | managed_components/espressif__cbor/tinycbor/src/cbortojson.c:202-278 | The texts of foob, fooba and foobar of section 10 of RFC 4648 |
| BaseEncoding.TextStaysBehind | managed_components/espressif__cbor/tinycbor/src/cbortojson.c:202-278 | What is written never reaches what is still to be read, for input of any length |
| BaseEncoding.ShiftsAreQuad | managed_components/espressif__cbor/tinycbor/src/cbortojson.c:230-247 | The four shifts take the right symbols, whatever stands above the low 24 bits |
| BaseEncoding.DumpBase64 | managed_components/espressif__cbor/tinycbor/src/cbortojson.c:202-292 | In place, the buffer ends up with the text of section 4 of RFC 4648, or of section 5 without padding, and a NUL behind it |
| BaseEncoding.Base16ReadsBack | managed_components/espressif__cbor/tinycbor/src/cbortojson.c:171-200 | Each byte is where its two digits are |
| BaseEncoding.HexDigitIs | managed_components/espressif__cbor/tinycbor/src/cbortojson.c:173 | The digits are 0 to 9 and a to f |
| BaseEncoding.HexExample | managed_components/espressif__cbor/tinycbor/src/cbortojson.c:171-200 | The text of three bytes |
| BaseEncoding.DumpBase16 | managed_components/espressif__cbor/tinycbor/src/cbortojson.c:171-200 | In place, the buffer ends up with the hexadecimal text and a NUL behind it |
| SecureCertTlv.PrepareTlv | components/espressif__esp_secure_cert_mgr/tools/esp_secure_cert/tlv_format.py:77-106 | Header, data, padding and CRC of an entry, a multiple of 16 bytes |
| SecureCertTlv.EntryBytes | components/espressif__esp_secure_cert_mgr/tools/esp_secure_cert/tlv_format.py:77-106 | An entry byte by byte: magic number, flags, type, subtype and length, low byte first, the data and the zeros behind |
| SecureCertTlv.GeneratePartition | components/espressif__esp_secure_cert_mgr/tools/esp_secure_cert/tlv_format.py:109-180 | The entries one after the other in an image filled with 0xff, and no magic number behind the last |
| SecureCertTlv.HeaderReadsBack | components/espressif__esp_secure_cert_mgr/srcs/esp_secure_cert_tlv_read.c:130-191 | Reading an entry gives back flags, type, subtype and length, its data in place and its CRC right |
| SecureCertTlv.WalkAt | components/espressif__esp_secure_cert_mgr/srcs/esp_secure_cert_tlv_read.c:130-155 | The total length leads from each entry to the next, inside the image, and behind the last one the magic number is missing |
| SecureCertTlv.VerifyTlvIntegrity | components/espressif__esp_secure_cert_mgr/srcs/esp_secure_cert_tlv_read.c:171-190 | Magic number and CRC |
| SecureCertTlv.ChangeDetected | components/espressif__esp_secure_cert_mgr/srcs/esp_secure_cert_tlv_read.c:171-190 | A byte of an entry changed behind the magic number, the length apart: the entry is intact exactly if the CRC of what it covers is unchanged, and a changed CRC byte is always noticed |
| SecureCertTlv.FindTlv | components/espressif__esp_secure_cert_mgr/srcs/esp_secure_cert_tlv_read.c:204-269 | Returns the first entry of type and subtype, the last entry of the type for SUBTYPE_MAX, the end for the END type, else fails; every offset is a multiple of 16, and the walk terminates |
| SecureCertTlv.LastFound | components/espressif__esp_secure_cert_mgr/srcs/esp_secure_cert_tlv_read.c:204-269 | For subtype 254 the last entry of the type is found |
| SecureCertTlv.FirstFound | components/espressif__esp_secure_cert_mgr/srcs/esp_secure_cert_tlv_read.c:204-269 | For any other subtype the first entry of type and subtype is found |
| SecureCertTlv.NothingFound | components/espressif__esp_secure_cert_mgr/srcs/esp_secure_cert_tlv_read.c:204-269 | Where there is none, the end for type 50 and else nothing |
| SecureCertTlv.IterateToNextTlv | components/espressif__esp_secure_cert_mgr/srcs/esp_secure_cert_tlv_read.c:417-456 | From each entry to the next, and failure behind the last |
| SecureCertTlv.VisitEntries | components/espressif__esp_secure_cert_mgr/srcs/esp_secure_cert_tlv_read.c:417-456 | A walk of the iterator stops exactly at the entries written, in order, each with its header fields and its data byte-identical in place |
| SecureCertTlv.HighestSubtypeExactly | components/espressif__esp_secure_cert_mgr/srcs/esp_secure_cert_tlv_read.c:199-250 | A search for SUBTYPE_MAX gives an entry of the highest subtype of the type, as documented, if and only if no entry of the type exceeds the last one |
| SecureCertTlv.LastIsNotHighest | components/espressif__esp_secure_cert_mgr/srcs/esp_secure_cert_tlv_read.c:246-252 | For subtype 1 and then subtype 0 of one type the search gives the second entry |
| SecureCertTlv.GetTlvInfo | components/espressif__esp_secure_cert_mgr/srcs/esp_secure_cert_tlv_read.c:297-404 | The information about what the search finds: its fields, its data as they are, opened, or the end address, and the subtype invalidated for the END type |
| SecureCertTlv.SealedRange | components/espressif__esp_secure_cert_mgr/srcs/esp_secure_cert_tlv_read.c:320-345 | Data are encrypted or derived for the flags from 64 to 191 |
| SecureCertTlv.GetTlvInfoFromIterator | components/espressif__esp_secure_cert_mgr/srcs/esp_secure_cert_tlv_read.c:458-473 | Describes not the entry at the iterator but the one that its type and subtype lead to from the start |
| SecureCertTlv.ListTlvEntries | components/espressif__esp_secure_cert_mgr/srcs/esp_secure_cert_tlv_read.c:483-497 | Lists for each entry, in order, the information about the entry that its type and subtype lead to, and skips it when its data cannot be opened |
| SecureCertTlv.ListIsEntriesExactly | components/espressif__esp_secure_cert_mgr/srcs/esp_secure_cert_tlv_read.c:458-497 | The list is what was written, if and only if entries of one type and subtype are equal and an entry of subtype 254 equals the last of its type |
| SecureCertTlv.ListIsOwnExactly | components/espressif__esp_secure_cert_mgr/srcs/esp_secure_cert_tlv_read.c:458-497 | For any entries, encrypted ones too: each stop is listed with the information about its own entry, whatever the device makes of the data, if and only if entries of one type and subtype are alike, and an entry of subtype 254 and the last of its type are |
| SecureCertTlv.FirstIsListedTwice | components/espressif__esp_secure_cert_mgr/srcs/esp_secure_cert_tlv_read.c:458-497 | Of two entries of one type and subtype the first is listed twice |
| Pbkdf2.Increment | components/espressif__esp_secure_cert_mgr/srcs/esp_secure_cert_crypto.c:77-81 | The carrying loop adds one to the big-endian counter |
| Pbkdf2.DeriveBlock | components/espressif__esp_secure_cert_mgr/srcs/esp_secure_cert_crypto.c:41-69 | One block is U_1 xor ... xor U_c of section 5.2 of RFC 8018; it fails exactly when an HMAC it needs fails |
| Pbkdf2.XorBitAt | components/espressif__esp_secure_cert_mgr/srcs/esp_secure_cert_crypto.c:60-68 | The exclusive or of two bytes, bit by bit |
| Pbkdf2.BlockIsParity | components/espressif__esp_secure_cert_mgr/srcs/esp_secure_cert_crypto.c:41-69 | A bit of a block is set where it is set in an odd number of the HMACs of its chain |
| Pbkdf2.KeyBit | components/espressif__esp_secure_cert_mgr/srcs/esp_secure_cert_crypto.c:17-92 | Every bit of the derived key: set where it is set in an odd number of the first c HMACs of its block, the blocks numbered from 1 in four bytes |
| Pbkdf2.Pbkdf2HmacSha256 | components/espressif__esp_secure_cert_mgr/srcs/esp_secure_cert_crypto.c:17-92 | The output is the derived key of section 5.2 of RFC 8018, the last block cut off, and nothing behind it changes; -1 exactly when an HMAC fails |

## Left out

- QR function modules (finder, timing, alignment, format and version bits), penalty scores and the per-version tables: finite tables and drawing routines; layouts, the grid of function modules and the penalty are parameters (`Tables`), of which it is required that the codewords fit in the modules left free (`TablesExist` has an example). Version, level and mask, which a reader finds in the format and version bits, are results of `EncodeText` and `EncodeSegmentsAdvanced`.
- `qrcodegen_encodeBinary`, `qrcodegen_makeBytes` and `qrcodegen_makeEci`: binary data and ECI designators as segments of their own.
- SymbolEncoder.EncodeSegmentsAdvanced: segments are taken as given, so that the symbol reads back as segments where these have the lengths that a reader works out (`SymbolReads`); that the ones made from a text have is proved (`TextReadsBack`).
- 1-Wire timing, reset pulses and bus drivers: the bus is a set of codes, of which those that differ from the direction written drop out; it is stable during an enumeration.
- The hardware radio, corrupted frames, keep-alive (Bluetooth) mode and the restart of a tower after deep sleep: in a session a tower that sleeps takes no further part, and received frames are frames that were sent.
- A payload longer than the text it is compared with by `memcmp` reads past the literal in the source when it begins with that text; the model takes it as different.
- Global and local timeouts are inputs that may come at any time; clocks and random waiting times are not modelled.
- The manager classes hold packages as values; packing them into bytes is modelled in `LoraPackage`. Signs of negative readings are lost in frames, as in the source.
- CBOR external sources and writer callbacks, half-float conversion, JSON printing, UTF-8 checks, tag tables and `CborValidateCompleteData`: what the code decides about floating point numbers, text and tags is a parameter of the validator.
- Simple value 24: the encoder accepts it and the parser rejects it; trees exclude it.
- The count of bytes needed and the offsets of the encoder are unbounded numbers; one string is at most half the address space, as pointer differences demand.
- CborParser.CborValue.AdvanceRecursive: the contract says when there is an error, not which; the bodies return the source's error codes.
- CborValidation.ValidateValue: errors are not told apart, only acceptance and rejection.
- CborValidation.ValidateContainer: errors are not told apart, only acceptance and rejection.
- CborValidation.ValidateString: errors are not told apart, and whether a text is UTF-8 is a parameter.
- CborValidation.ValidateTagged: errors are not told apart, and which tags may stand before what, a table and three flags in the source, is a parameter.
- CborValidation.Validate: errors are not told apart, and `CborValidateCompleteData`, which looks for bytes behind the item, is left out.
- CborCanonical.AcceptedInOrder: is about the encodings of trees and so asks for shortest integrals; what sorting alone promises, `SortingAddsOrder` says in terms of the bytes.
- CborCanonical.SortingAsDocumentedExactly: takes a policy that allows the texts `a` and `b`, as the UTF-8 check does.
- LoraPackage.LoraPackage.SetPackage: sizes from 257 to 999, which write past the buffer in the source, and frames too short for their header and readings are excluded.
- LoraPackage.LoraPackage.SetPayload: payloads of less than 1000 bytes whose frame is longer than 256 bytes, which write past the buffer in the source, are excluded.
- LoraManager.LoraManager.SendPackage: the same payloads are excluded; keep-alive mode is left out, and the busy wait until no other session is under way is a precondition.
- SecureCertTlv.ListIsEntriesExactly: is about entries stored as they are and not of the END type, which are listed as written; for the others, whose data depend on the device key, a parameter (`Opener`), `ListIsOwnExactly` says when each is listed for itself.
- The TLV store's HMAC-based decryption and key derivation, flash mapping and efuse handling: decryption, CRC-32 and HMAC are parameters, and memory allocation succeeds.
- SecureCertTlv.GetTlvInfo: when the end is asked for, a header has to fit behind it, which the source reads without a check.
- SecureCertTlv.GeneratePartition: takes any list of entries; which entries the tool puts in, and loading keys and certificates, is not modelled.
- Wi-Fi, MQTT, Bluetooth, sensors and the message splitters.
