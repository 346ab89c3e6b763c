# OpenRAR in Dafny

A model of the parts of OpenRAR whose correctness is hard to see by reading, with machine-checked proofs.
`dafny verify dfyconfig.toml` checks the whole project.

**Recovery records.** Arithmetic in GF(2^16) modulo x^16+x^12+x^3+x+1, the log/antilog tables, the Cauchy parity
matrix of inverses of slot numbers XORed, LU inversion, the word-folding kernel and the repair routine.
The main result is end to end: with the layout that `calculate_params` chooses, `repair_data` restores every protected
byte exactly when at least as many valid parity sectors as missing data sectors remain, whatever the damage left in the
invalid sectors; otherwise it refuses and changes nothing.
For other layouts the exact condition is proved, the 64 GiB buffer caps and the shared buffer of partial sectors included.
It rests on primitivity of the generator, nonsingularity of every square Cauchy submatrix, the two-sidedness of the
inverse that the elimination computes, and the fact that no coefficient of a recovery row is zero.

**Checksums.** CRC-32 and CRC-64/XZ by byte table and by slicing-by-eight equal the bit-at-a-time definition, which
is the remainder of the message polynomial by the standard generator polynomials. Updates compose, and any error burst
of at most 4 (respectively 8) bytes changes the checksum.
Hence up to four damaged bytes in a row of a header never go unnoticed by a listing, nor those of a stored payload by
an extraction.

**The container.** Block frames, variable-length integers, header parsing and printing, the header walk over a memory
source or a file stream, the two signature searches, the two listing surfaces, archive creation, extraction with
cumulative limits, and `extract_all`.
Creating, listing and extracting an entry give back the input for every valid file list, for any codec whose decoder
undoes its compressor; `extract_all` does so exactly when the inputs do not collide and fit its aggregate cap.

**Smaller algorithms.** The DOS time codec, collision detection with its file-tree meaning, JSON escaping with UTF-8
repair, path validation, the MT19937 generator, the LZ distance code, and the compression-block scanner.

Loops and updates in place are methods proved against specification functions; straight computations are functions.
Codecs, digests, case folding, Unicode normalisation and cancellation are arbitrary functions passed in as parameters.

## Findings

- The kernel's header comment says that arbitrary block sizes are supported. The trailing byte of an odd block is folded
  with truncated products. `OddBlocks.EvenExactly`: blocks of n bytes are restored after every recoverable loss if and
  only if n is even; `OddBlocks.OddBlockNotRecovered` is a loss for each odd n.
- `repair_data` keeps one buffer for all sectors that reach past the protected range. A later slot past the end overwrites
  the straddling one, and because every coefficient counts, every missing sector is then rebuilt wrongly:
  `RecoveryRecord.RepairData` states the exact condition and `RecoveryRecord.SharedBufferOverwritten` a layout. The layout of
  `calculate_params` has one such sector only.
- `calculate_params` rounds the size up in 64 bits. For sizes within one sector of 2^64 the sum wraps and a single data
  sector is chosen: `RecoveryGeometry.ChosenGeometry` is the exact condition, `RecoveryGeometry.LargestSizeWraps` the case
  2^64 - 1.
- `ReedSolomon16::init` adds its counts in 32 bits, so an encoder is set up for counts whose sum wraps to a small one, and
  some parity unit then does not see some data unit: `ReedSolomon.FullExactly`, `ReedSolomon.WrappedCountsAccepted`.
- The streaming signature scan peeks at 16 header bytes. A header whose padded size and type integers are together longer
  than 12 bytes is found in memory but not in a stream. `Signature.SearchesAgree` is the exact condition and
  `PaddedHeader.ListingsDiffer` an archive on which the two listings differ.
- Modification times are narrowed to 32 bits before they are packed, so the DOS codec's range up to 2107 is not reached:
  `ContainerRoundTrip.MtimeKept` gives the exact range.
- A compressed member above 64 GiB can be created but not extracted: `ArchiveRoundTrip.CreateListExtract` states the
  exact condition.
- The same path given twice is archived without complaint, and `extract_all` then refuses the archive:
  `ArchiveRoundTrip.SamePathTwiceRefused`.
- The block scanner's documentation calls a block cut by the end of a volume truncated. One that lacks only its last few
  bytes is counted and called unreliable: `BlockChain.CutBlockVerdict` is the exact boundary.

## Model

| member | source | states |
|---|---|---|
| `Gf16Primitive.PowOrder` | src/recovery/rs16.cpp:447-459 | the generator's 65535th power is one |
| `Gf16Primitive.PowProperDivisors` | src/recovery/rs16.cpp:447-459 | its powers at 65535 divided by 3, 5, 17 and 257 are not one |
| `Gf16Primitive.PowDistinct` | src/recovery/rs16.cpp:447-459 | the table loop never visits an element twice |
| `Gf16Primitive.LogExists` | src/recovery/rs16.cpp:447-459 | the table loop visits every nonzero element, at exactly one exponent |
| `Gf16.MulAssoc` | src/recovery/rs16.hpp:58-70 | carry-less multiplication modulo the field polynomial is associative |
| `Gf16.MulComm` | src/recovery/rs16.hpp:58-70 | it is commutative |
| `Gf16.MulAdd` | src/recovery/rs16.cpp:688-695 | it distributes over xor, which the byte tables rely on |
| `Gf16Polynomials.MulIsRemainder` | src/recovery/rs16.hpp:58-70 | a product is the polynomial product reduced modulo x^16 + x^12 + x^3 + x + 1 |
| `Gf16Field.InverseLaw` | src/recovery/rs16.hpp:71-75 | every nonzero element times its inverse is one |
| `Gf16Field.NoZeroDivisors` | src/recovery/rs16.hpp:66-70 | a product is zero only when a factor is |
| `GfTables.GfField.constructor` | src/recovery/rs16.cpp:447-461 | the loop fills both tables so that they are mutually inverse over the whole field |
| `GfTables.GfField.GfMul` | src/recovery/rs16.hpp:66-70 | the table product is the carry-less product, for all operands, with every index in range |
| `GfTables.GfField.GfInv` | src/recovery/rs16.hpp:71-75 | the table inverse is the field inverse, zero for zero |
| `GfTables.PyGf16Tables` | tools/scan_rr.py:348-360 | the Python tables, doubled exponent range included, hold the powers and logarithms |
| `GfTables.PyMul` | tools/scan_rr.py:368-371 | gmul is the field product |
| `GfTables.PyInv` | tools/scan_rr.py:373-374 | ginv is the field inverse |
| `Cauchy.CauchyNonsingular` | src/recovery/rs16.cpp:547-559 | a square Cauchy system over distinct coordinates has only the zero solution |
| `SquareInverse.InvertSquare` | src/recovery/rs16.cpp:620-680 | succeeds exactly on nonsingular matrices, with a two-sided inverse; otherwise the matrix is left as it was |
| `SquareInverse.RightInverseIsLeft` | src/recovery/rs16.cpp:620-680 | a right inverse of a square matrix over the field is a left inverse |
| `ErasureCode.SystemNonsingular` | src/recovery/rs16.cpp:575-592 | the system over missing units and substitute parity units is always solvable |
| `ErasureCode.RecoverUnit` | src/recovery/rs16.cpp:561-618 | a recovery row applied to the working slots gives the missing unit |
| `ErasureCode.CoefficientNonzero` | src/recovery/rs16.cpp:597-611 | no coefficient that a recovery row gives a valid unit is zero |
| `ErasureCode.ParityDetermines` | tools/scan_rr.py:376-402 | data vectors that agree outside k units and on any k parity units are equal |
| `SlotWords.CoordDigits` | src/recovery/rs16.cpp:553-556 | the element of a slot has the binary digits of the slot number |
| `SlotWords.SlotInverse` | src/recovery/rs16.cpp:556 | the coefficient of two slots is the inverse of the exclusive or of their numbers |
| `ReedSolomon.FillParityCoefficients` | src/recovery/rs16.cpp:547-559 | every entry times the word that spells (nd + i) xor d is one, in 32 bits; 0 where that does not fit the field |
| `ReedSolomon.EncoderIsGenerator` | src/recovery/rs16.cpp:547-559 | for counts whose sum does not wrap that is the Cauchy generator |
| `ReedSolomon.AcceptedExactly` | src/recovery/rs16.cpp:504-506 | the guard admits the representable counts and those whose 32-bit sum wraps to a small one |
| `ReedSolomon.FullExactly` | src/recovery/rs16.cpp:504-559 | every parity unit sees every data unit if and only if the sum does not wrap |
| `ReedSolomon.WrappedCountsAccepted` | src/recovery/rs16.cpp:504-506 | a wrapping pair of counts |
| `ReedSolomon.DeriveRecoveryCoefficients` | src/recovery/rs16.cpp:561-618 | the matrix recovers every missing unit from valid units and substitutes, and gives every valid unit a nonzero coefficient |
| `ReedSolomon.ReedSolomon16.Init` | src/recovery/rs16.cpp:498-545 | exactly when an encoder or decoder is set up, in 32-bit arithmetic, and what the matrix then does |
| `EccUpdate.UpdateEcc` | src/recovery/rs16.cpp:682-769 | both kernels fold coefficient times data into the parity words; the odd trailing byte as the code does |
| `EccUpdate.TableSplit` | src/recovery/rs16.cpp:688-692 | a product is the sum of the products of its two bytes |
| `RecoveryRecord.GenerateParity` | src/recovery/recovery_record.cpp:45-83 | exactly when parity is produced, buffer cap included, and that every sector is the Cauchy parity of the zero-padded data sectors |
| `ParityMeaning.ParitySectorMeaning` | src/recovery/recovery_record.cpp:45-83 | every parity word is the sum of the data words, each divided by the exclusive or of the two slot numbers |
| `ParityMeaning.WordBits` | src/recovery/rs16.cpp:717-719 | a word takes its low eight bits from the first byte and its high eight from the second |
| `ParityMeaning.SectorByte` | src/recovery/recovery_record.cpp:45-83 | a data sector holds the protected bytes at its offset, zero past their end |
| `RecoveryRecord.BufferFitsExactly` | src/recovery/recovery_record.hpp:20-29 | a buffer is granted exactly when it is not empty and its size is within the cap |
| `RecoveryRecord.MapSectors` | src/recovery/recovery_record.cpp:117-151 | healthy slots hold their sectors or the shared buffer, missing ones the next valid parity sector; refused exactly when one of those is beyond the cap |
| `RecoveryRecord.SectorRebuilt` | src/recovery/recovery_record.cpp:158-164 | with even sectors and a faithful buffer every missing sector is rebuilt |
| `RecoveryRecord.SectorSpoiled` | src/recovery/recovery_record.cpp:158-164 | with an unfaithful buffer every missing sector is rebuilt wrongly |
| `RecoveryRecord.WriteBack` | src/recovery/recovery_record.cpp:166-188 | exactly the bytes of missing sectors inside the range are replaced |
| `RecoveryRecord.RepairData` | src/recovery/recovery_record.cpp:85-191 | for every layout, exactly when repair succeeds; with even sectors, exactly when it then restores the covered bytes; with the chosen layout it restores all; on failure nothing changes |
| `RecoveryRecord.SharedBufferOverwritten` | src/recovery/recovery_record.cpp:119-134 | a repairable layout in which one partial sector overwrites another |
| `RecoveryGeometry.CalculateParams` | src/recovery/recovery_record.cpp:8-43 | the smallest fitting sector step is chosen, in 64-bit arithmetic; its counts fit the field, and its layout suits repair exactly when rounding up does not wrap |
| `RecoveryGeometry.RecoveryShare` | src/recovery/recovery_record.cpp:28-29 | the recovery count is the percentage rounded up, at least one |
| `RecoveryGeometry.FitsExactly` | src/recovery/recovery_record.cpp:31 | a sector size fits exactly when the two counts together are at most 65530 |
| `RecoveryGeometry.SectorSizes` | src/recovery/recovery_record.cpp:12-38 | sector sizes run from 512 bytes by doubling to 1 MiB |
| `RecoveryGeometry.ChosenRepresentable` | src/recovery/recovery_record.cpp:25-35 | any chosen step has addressable counts, for every size and percentage |
| `RecoveryGeometry.ChosenGeometry` | src/recovery/recovery_record.cpp:26-35 | a chosen step tiles the protected range with even sectors if and only if rounding the size up does not wrap |
| `RecoveryGeometry.LargestSizeWraps` | src/recovery/recovery_record.cpp:26-35 | the size 2^64 - 1 gets one 512-byte sector |
| `RecoveryGeometry.ChosenWithinCap` | src/recovery/recovery_record.hpp:20-29 | chosen parameters never reach a buffer cap, so the parity left alone decides |
| `ScanMatrix.MatrixRow` | tools/scan_rr.py:389 | the row holds the inverses of (j + d) xor i |
| `ScanMatrix.ParityShard` | tools/scan_rr.py:376-402 | the accumulation loops compute, in every word, the sum of the data words times that row |
| `OddBlocks.EvenExactly` | src/recovery/rs16.hpp:35-46 | blocks of n bytes are restored after every recoverable loss, for all counts, flags and data, if and only if n is even |
| `OddBlocks.EvenRestored` | src/recovery/rs16.cpp:682-769 | an even block comes back from any recovery matrix |
| `OddBlocks.OddBlockNotRecovered` | src/recovery/rs16.cpp:763-768 | for each odd size, a recoverable loss whose trailing byte comes back wrong |
| `CrcTables.BuildTables` | src/crypto/crc32.cpp:8-26 | the eight tables hold the effect of a byte followed by zero bytes |
| `CrcTables.ByteLoop` | tools/scan_rr.py:98-101 | the byte-table loop is the bit-at-a-time checksum |
| `CrcTables.SliceLoop` | src/crypto/crc64.cpp:36-53 | slicing by eight is the bit-at-a-time checksum, wherever the byte loop hands over |
| `CrcTables.HighHalfIsData` | src/crypto/crc32.cpp:58-70 | whatever was read before, the second word of a CRC-32 slice is message data alone |
| `Crc.ChecksumConcat` | src/crypto/crc32.cpp:83-85 | continuing a checksum is the checksum of the concatenation |
| `CrcPolynomials.Crc32IsRemainder` | src/crypto/crc32.cpp:8-26 | CRC-32 is the complement of the remainder that x^32 + x^26 + x^23 + x^22 + x^16 + x^12 + x^11 + x^10 + x^8 + x^7 + x^5 + x^4 + x^2 + x + 1 leaves of the message times x^32, its first 32 bits inverted |
| `CrcPolynomials.Crc64IsRemainder` | src/crypto/crc64.cpp:8-30 | the same of CRC-64/XZ and the polynomial of ECMA-182 |
| `Gf2Polynomials.RemainderUnique` | src/crypto/crc32.cpp:8-26 | a remainder is unique, so the two statements determine the checksums |
| `CrcCheckValues.CheckValue32` | src/crypto/crc32.cpp:8-26 | the CRC-32 of "123456789" is CBF43926 |
| `CrcCheckValues.CheckValue64` | src/crypto/crc64.cpp:8-30 | the CRC-64/XZ of "123456789" is 995DC9BBDF1939FA |
| `CrcTables.BurstsDetected` | tools/scan_rr.py:85-124 | messages that differ only within 4 (CRC-32) or 8 (CRC-64) consecutive bytes have different checksums |
| `Vint.PushVint` | src/core/vint.cpp:5-14 | appends the base-128 encoding |
| `Vint.ReadVintLoop` | src/core/vint.cpp:28-67 | accepts exactly the encodings of at most ten bytes and 64 bits; consumed bytes never exceed the input |
| `Vint.VintRoundTrip` | src/core/vint.cpp:5-67 | every 64-bit value is read back wherever its encoding stands |
| `Vint.VintExactly` | src/core/vint.cpp:5-67 | an integer is read exactly where an encoding stands: at most ten bytes marked by their top bits, seven bits a byte, the lowest first |
| `Vint.WindowReads` | src/format/header_reader.cpp:189-210 | a copied prefix that decides the integer reads the same value |
| `BlockFrame.ReadExactly` | src/format/header_reader.cpp:235-295 | a block is read exactly where a frame stands: checksum of all that follows it, size of at most 2 MiB, body with readable leading fields |
| `BlockFrame.FieldsExactly` | src/format/header_reader.cpp:272-295 | a body starts with type and flags, then the extra size if bit 1 is set and the data size if bit 2 is |
| `BlockFrame.DamagedHeader` | src/format/header_reader.cpp:259-267 | up to four damaged bytes in a row in a body, or any in the checksum field, give a checksum mismatch |
| `BlockFrame.ReadBlockStream` | src/format/header_reader.cpp:176-233 | the stream reader gives the memory reader's result and position, with end of file told apart |
| `BlockFrame.WrapRoundTrip` | src/format/header_writer.cpp:91-105 | a wrapped body is read back from anywhere in a byte string |
| `Headers.RecordsLaid` | src/format/header_reader.cpp:577-592 | extra records lie inside their area and do not overlap |
| `Headers.RecordsExactly` | src/format/header_reader.cpp:577-592 | the records are the one way to cut the area: each starts where the one before ends, and the last where no other follows |
| `Headers.ExtraMeaning` | src/format/header_reader.cpp:571-978 | the area rejects a header exactly when an encryption record is cut short; otherwise it sets the last digest and the encryption mark, and nothing else |
| `Headers.ParseExtraRecords` | src/format/header_reader.cpp:571-978 | the record loop does exactly that |
| `Headers.CryptExactly` | src/format/header_reader.cpp:607-627 | when an encryption record has all its fields |
| `Headers.MainExactly` | src/format/header_reader.cpp:297-340 | how a main header is read |
| `Headers.WindowExactly` | src/format/header_reader.cpp:498-545 | the window of every compression field, in both versions |
| `Headers.CountDictBits` | src/archive/buffer_archive.cpp:168-175 | the largest exponent up to 15 whose window fits |
| `Headers.FlagMeaning` | src/format/header_reader.cpp:498-545 | which bits of the header, file and compression flags mean what |
| `Headers.DataSizeBound` | src/format/header_reader.cpp:456-460 | a file header whose data size does not fit 63 bits is rejected |
| `Headers.FileRoundTrip` | src/archive/buffer_archive.cpp:130-183 | parsing a built file header gives back every field, for all field values |
| `DosTime.TimeGmInvertsGmTime` | src/archive/buffer_archive.cpp:51-70 | the calendar conversion and its inverse agree for every second since 1970 |
| `DosTime.MonthStartClosed` | src/archive/buffer_archive.cpp:51-70 | where months begin, by the 153-days-in-five-months rule |
| `DosTime.TimeGmClosed` | src/archive/buffer_archive.cpp:406-430 | the inverse conversion is the day-number formula of the Gregorian calendar |
| `DosTime.GmTimeClosed` | src/archive/buffer_archive.cpp:51-70 | the conversion gives the date with that day number and the time of day |
| `DosTime.LastOfMarch` | src/archive/buffer_archive.cpp:51-70 | 1617148800 is 31 March 2021 and packs to 527F0000 |
| `DosTime.Unpack` | src/archive/buffer_archive.cpp:45-70 | every field of a packed time stands in its bits |
| `DosTime.DosRoundTrip` | src/archive/buffer_archive.cpp:406-430 | a time survives to two seconds exactly when it is unset or lies in the years 1980 to 2107 |
| `DosTime.DosOrder` | src/archive/buffer_archive.cpp:51-70 | packing keeps order over those years |
| `DosTime.DosRange` | src/archive/buffer_archive.cpp:51-70 | the packed value fits 32 bits and is zero only for an unset time |
| `Signature.FindSignature` | src/archive/buffer_archive.cpp:91-126 | the first accepted candidate of the first 4 MiB |
| `Signature.SearchExactly` | src/archive/buffer_archive.cpp:91-126 | the result is 0 for a signature at the start, otherwise the first signature within 4 MiB that a whole, checksummed main or encryption header follows |
| `Signature.MemAcceptsExactly` | src/archive/buffer_archive.cpp:99-123 | the cheap look rejects nothing that the full header read would accept |
| `Signature.StreamAcceptsExactly` | src/archive/buffer_archive.cpp:589-610 | the streaming look rejects exactly the headers whose integers overrun the peek |
| `Signature.ScanStream` | src/archive/buffer_archive.cpp:568-616 | the nested scan loops are the chunk-by-chunk definition |
| `Signature.ChunkScanFindsFirst` | src/archive/buffer_archive.cpp:575-616 | stepping by got - 7 misses no window |
| `Signature.ChunkStep` | src/archive/buffer_archive.cpp:575-616 | a full chunk of 64 KiB without a find is reported once, and the next overlaps it by seven bytes |
| `Signature.SearchesAgree` | src/archive/buffer_archive.cpp:568-618 | both searches return the same offset if and only if the header found in memory fits the peek |
| `Signature.ScanNeverEarlier` | src/archive/buffer_archive.cpp:568-618 | the scan never reports an earlier offset |
| `HeaderWalk.WalkHeaders` | src/archive/buffer_archive.cpp:308-402 | terminates, and over either source takes the steps of one definition, cancellation and progress included |
| `HeaderWalk.StepKinds` | src/archive/buffer_archive.cpp:308-402 | what the walk does at each header type from 0 up |
| `HeaderWalk.Skip` | src/archive/buffer_archive.cpp:275-298 | moves past a data area exactly when it lies inside the source |
| `HeaderWalk.PackedSizeIsDataSize` | src/format/header_reader.cpp:452-461 | the packed size of a file header is the data size of its frame |
| `HeaderWalk.WalkSafe` | src/archive/buffer_archive.cpp:308-402 | on success the recorded extents are increasing, disjoint and inside the source |
| `HeaderWalk.WalkEvents` | src/archive/buffer_archive.cpp:315-316 | reported positions rise strictly inside the source |
| `Listing.ListFileStream` | src/archive/buffer_archive.cpp:545-660 | the streaming listing: scan, walk and status mapping |
| `Listing.ListedExactly` | src/archive/buffer_archive.cpp:505-534 | a walk counts as a listing exactly when it ended well in an archive without the volume and recovery bits |
| `Listing.ListingsAgree` | src/archive/buffer_archive.cpp:488-660 | both surfaces give the same entries and code, except for an encryption header |
| `Listing.ListProgress` | src/archive/buffer_archive.cpp:501-534 | progress is monotone and reaches the total exactly once, at the end |
| `Listing.StreamProgress` | src/archive/buffer_archive.cpp:578-658 | the same of the streaming listing |
| `Listing.ListedExtents` | src/archive/buffer_archive.cpp:488-540 | listed entries lie after the signature and do not overlap |
| `ListingDamage.DamagedHeaderNotListed` | src/archive/buffer_archive.cpp:488-660 | of an archive that starts with its signature, damage to any header that was read makes both listings report truncation |
| `ListingDamage.DamagedPayloadListed` | src/archive/buffer_archive.cpp:488-660 | damage inside a payload leaves both listings as they were |
| `PaddedHeader.ListingsDiffer` | src/archive/buffer_archive.cpp:589-603 | an archive that lists in memory and is not recognised in a stream |
| `Utf8.DecodeExact` | src/archive/extraction_report.cpp:52-78 | the range, minimum and surrogate tests accept exactly the sequences of section 3 of RFC 3629 |
| `Utf8.IsValidUtf8` | src/core/types.hpp:111-150 | accepts exactly the concatenations of encoded scalar values |
| `PathRules.HasDotDotSegment` | src/archive/buffer_archive.cpp:28-39 | true exactly when some segment is two dots |
| `PathRules.ValidatePath` | src/archive/buffer_archive.cpp:436-483 | accepts exactly the valid paths |
| `ProgressTrackers.ProgressTracker.Set` | src/archive/buffer_archive.cpp:213-226 | reports stay within the total and never fall back |
| `CreateArchive.Create` | src/archive/buffer_archive.cpp:952-1091 | exactly when it refuses, and the bytes it writes; progress is steady |
| `ContainerRoundTrip.CreatedLists` | src/archive/buffer_archive.cpp:130-540 | a created archive lists its inputs in order, with paths, kinds, sizes, checksums, methods, windows and payload places |
| `ContainerRoundTrip.CreatedListsStreamed` | src/archive/buffer_archive.cpp:545-660 | the streaming surface lists it the same way |
| `ContainerRoundTrip.WindowKept` | src/format/header_reader.cpp:509-545 | power-of-two windows of compressed members come back exactly |
| `CreateArchive.WindowTable` | src/archive/buffer_archive.cpp:74-87 | the four windows that can be chosen |
| `ContainerRoundTrip.CreatedHeaderLayout` | src/archive/buffer_archive.cpp:130-183 | the bytes of a member's header, field by field, for every input |
| `ContainerRoundTrip.MtimeKept` | src/archive/buffer_archive.cpp:999-1002 | a modification time survives if and only if it is unset or lies between 1980 and 2^32 |
| `Extraction.BufferArchive.List` | src/archive/buffer_archive.cpp:488-540 | the in-memory listing, cached for its buffer |
| `Extraction.BufferArchive.Extract` | src/archive/buffer_archive.cpp:665-835 | the outcome, output and charged total of one call |
| `Extraction.GoodIsChecked` | src/archive/buffer_archive.cpp:820-833 | a file that extracts without error has its declared size, checksum and digest, and a stored one is its payload |
| `Extraction.ExtractCodes` | src/archive/buffer_archive.cpp:665-835 | how every call on an entry ends, case by case |
| `Extraction.DecodeCodes` | src/archive/buffer_archive.cpp:790-812 | how a compressed member within its caps ends, by what its decoder does |
| `Extraction.DecoderRequest` | src/archive/buffer_archive.cpp:760-800 | the decoder is asked once, with the header's window or 32 MiB; nothing else about it matters |
| `Extraction.DamagedPayload` | src/archive/buffer_archive.cpp:820-823 | up to four damaged bytes in a row of a stored payload give a checksum error |
| `Extraction.CollectChunks` | src/archive/buffer_archive.cpp:772-787 | the callback keeps chunks up to the first that would break a cap |
| `Extraction.OutputCapped` | src/archive/buffer_archive.cpp:685-818 | whatever a call ends with, its output is within the member cap and the rest of the total cap |
| `Extraction.RunWithinLimits` | src/archive/extraction_limits.hpp:33-73 | over any run of calls the total is the sum of what was charged and stays within its cap |
| `Collisions.SplitComponents` | src/archive/collision_detector.cpp:14-27 | the components of a path |
| `Collisions.SplitInjective` | src/archive/collision_detector.cpp:14-27 | different paths have different components |
| `Collisions.Detect` | src/archive/collision_detector.cpp:46-123 | true exactly when two items collide; reports are true, no ordered pair is repeated, every later class member and every blocking pair is reported |
| `FileTree.CollisionFreeIsSatisfiable` | src/archive/collision_detector.cpp:106-121 | without collisions the entries can be created in any order, and all are there afterwards |
| `ExtractAll.Run` | src/archive/buffer_archive.cpp:840-947 | listing errors, collisions, and the outcome of the entry loop; a successful run fills the progress bar once, at the end |
| `ExtractAll.ExtractEntries` | src/archive/buffer_archive.cpp:872-947 | the entry loop with its budget, limits and progress |
| `ExtractAll.SuccessMatches` | src/archive/buffer_archive.cpp:904-946 | success gives one output per entry, in order, of its declared size and with its checksum and digest |
| `ArchiveRoundTrip.CreateListExtract` | src/archive/buffer_archive.cpp:665-1091 | entry i of a created archive extracts to input i unless it was compressed and exceeds the hard cap |
| `ArchiveRoundTrip.CreateExtractAll` | src/archive/buffer_archive.cpp:840-1091 | extract_all gives back every input if and only if together they are within the aggregate cap and none collide |
| `ArchiveRoundTrip.SamePathTwiceRefused` | src/archive/buffer_archive.cpp:849-863 | a path given twice is archived and then refused |
| `ArchiveDamage.CreatedHeaders` | src/archive/buffer_archive.cpp:955-1091 | the listing of a created archive reads the main header and every entry's header |
| `ArchiveDamage.CreatedHeaderDamage` | src/archive/buffer_archive.cpp:488-660 | a created archive with a damaged header is never listed, by either surface |
| `ArchiveDamage.CreatedPayloadDamage` | src/archive/buffer_archive.cpp:665-947 | with a damaged stored payload it lists as before, the member gives a checksum error, and extract_all does not succeed |
| `JsonEscape.Escape` | src/archive/extraction_report.cpp:7-91 | writes the escaped form of each character and a replacement for each ill-formed byte |
| `JsonEscape.EscapeRoundTrip` | src/archive/extraction_report.cpp:7-91 | reading the escaped form as a JSON string gives the input with ill-formed bytes replaced by U+FFFD |
| `JsonEscape.EscapeForms` | src/archive/extraction_report.cpp:7-91 | the form of every ASCII escape |
| `JsonEscape.EscapedIsWellFormed` | src/archive/extraction_report.cpp:50-53 | the escaped form is valid UTF-8 |
| `JsonEscape.EscapeInjective` | src/archive/extraction_report.cpp:7-91 | different well-formed texts have different escaped forms |
| `MersenneTwister.PyMt.Twist` | tools/bench_run.cpp:355-368 | overwriting in place yields the next 624 words of the recurrence |
| `MersenneTwister.PyMt.Draw` | tools/bench_run.cpp:295-304 | the k-th output is the tempered word at its place in the recurrence, for every seeded state |
| `MersenneTwister.TemperInjective` | tools/bench_run.cpp:298-302 | tempering is injective |
| `MersenneTwister.TemperBit` | tools/bench_run.cpp:298-302 | every bit of an output in terms of the bits of the word, with the mask bits spelled out |
| `MersenneTwister.MixBit` | tools/bench_run.cpp:355-368 | the same of the matrix step |
| `MersenneTwister.Recurrence` | tools/bench_run.cpp:355-368 | the recurrence with its offsets 397 and 624 |
| `DistanceCode.DistanceBijection` | tools/decode_kernel_probe.cpp:217-241 | 64 slots reach exactly the distances 1 to 2^32, 80 slots exactly 1 to 2^40 |
| `DistanceCode.DistanceInjective` | tools/decode_kernel_probe.cpp:217-241 | each distance has one slot and one payload |
| `DistanceCode.DistanceOrder` | tools/decode_kernel_probe.cpp:217-241 | distances grow with the slot, then with the high part, then with the low part |
| `BlockChain.ScanBlocks` | tools/scan_table_reuse.py:98-144 | aligned exactly when the range is a chain of blocks, with that chain's counts; otherwise the headers counted are a maximal walk, and what stopped it decides the verdict |
| `BlockChain.CountsMeaning` | tools/scan_table_reuse.py:136-140 | the counts are of all blocks, of those whose bit 0x80 is clear, and of those of each bit size |
| `BlockChain.ChecksumLaw` | tools/scan_table_reuse.py:133 | a header checks out exactly when its bytes XOR to 5A |
| `BlockChain.FlagBits` | tools/scan_table_reuse.py:125-139 | the bits of the flags byte that the scan looks at |
| `BlockChain.CutBlockVerdict` | tools/scan_table_reuse.py:109-135 | a cut block is called truncated exactly when its size exceeds all that is left of the range |
| `BlockChain.ChainUnique` | tools/scan_table_reuse.py:98-144 | a range has at most one chain |

## Left out

- Compressor and decompressor, AES, PBKDF2 and BLAKE2sp: arbitrary functions here, or absent.
- Password and header-decryption branches of the walk: only walks without a password are modelled.
- Vector and carry-less-multiply kernels of the recovery code and the CRCs, and the four-fold unrolling of the scalar loop: only the portable forms are modelled.
- Extra records of a main header, and the fields of file extra records other than the digest, the encryption mark and the sub-data fold: they do not reach a listing.
- Short reads other than at the end of a file, seek failures and I/O errors.
- Seeding of MT19937: outputs are proved for every 624-word starting state.
- Literal, length and filter tokens of the LZ token loop and the Huffman tables: only the distance decode is modelled.
- The 2 GiB caps of 32-bit targets, in extraction and in recovery: the 64-bit constants are used.
- The pointer identity that guards the listing cache is modelled as equality of the buffer's bytes.
- Volumes, solid archives, mutation, recovery volumes, command line, C interface and file-system effects.
- RecoveryRecord.GenerateParity: parity is a list of sectors, not one flat buffer, because the layout adds only index arithmetic; the contents for counts whose sum wraps are stated only through the matrix.
- RecoveryRecord.RepairData: for odd sector sizes it states when repair succeeds and not which bytes come back, because the trailing bytes are those of the odd blocks above.
- ReedSolomon.ReedSolomon16.Init: running out of memory for the matrix is not modelled, because it depends on the machine.
- EccUpdate.UpdateEcc: returns the new parity block instead of updating it in place, because the block belongs to the caller's list of sectors.
- Extraction.RunWithinLimits: the running total is unbounded when no total cap is set, because wrapping needs 2^64 bytes of output.
- ContainerRoundTrip.CreatedLists: requires each input to be at most 2^63 - 1 bytes, the largest size of a byte vector.
- Collisions.Detect: reports carry indices instead of names, because the names are those of the indexed items.
- BlockFrame.ReadExactly: models the cursor only after a successful read, because no caller uses it after a failure.
