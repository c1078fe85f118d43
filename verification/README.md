# zelda64: a verified model

A Dafny model of the arithmetic core of zelda64, a toolkit for Nintendo 64 Zelda ROMs: the
checksum that tells a ROM's lock-out chip, the chip's check-code engine, the file table
(DMADATA), and the program that writes a decompressed ROM. `dafny verify dfyconfig.toml`
verifies everything.

| module | what it models |
|---|---|
| `Bytes`, `Words`, `Status` | the big-endian codec; 32-bit sum, product, exclusive or and rotation on integers; result codes |
| `Crc32Table`, `Crc32`, `Crc32Theorems`, `CrcPolynomial` | `src/crc32.c`: the table, the byte loop, the bit-serial division it computes, error detection, and the polynomial remainder that IEEE 802.3 defines |
| `CheckCode`, `CheckCodeTheorems`, `CheckCodeFormula`, `WordOrder` | the check-code engine of `src/rom.c` as a class with an accumulator array, its behaviour over whole runs, its closed form, and what the order of the words changes |
| `RomLib`, `RomTheorems` | header, chip detection and whole-ROM check code of `src/rom.c`, and what they are in terms of a ROM's bytes |
| `Dma`, `DmaTheorems` | `src/dma.c`: search, entries, table codec |
| `Files` | an in-memory `FILE*`: bytes and a cursor |
| `RomFile`, `FinalizeTheorems` | `utils/rom.c`: ROM files, the search by blocks, chunked copying and check code, finalisation |
| `Decompress`, `PipelineTheorems`, `PlainImage` | the run of `utils/decompress.c`, the image it writes, running it on its own output, and all of this in terms of the entries' words and the input's bytes |

Code that changes buffers, files or structs is modelled by methods over arrays and objects;
each is proved to compute a function of its inputs or of the old state, and the theorems are
lemmas about those functions. For the checksum that function is bit-by-bit division, which
shares nothing with the table; for the searches it is the least offset at which a table that
describes itself lies.

The main results:

- **Checksum.** The table loop computes the remainder of the message by the CRC-32 generator, and
  no other polynomial below x^32 is one (`CrcPolynomial.CrcIsRemainder`). Differences within 32
  consecutive bits are always noticed, so that a boot block altered in such a window never passes
  for the same known chip.
- **Check code.** All six accumulators and the code have closed forms over the words, for every
  chip (`CheckCodeFormula.CheckCodeIsClosedForm`, `RomTheorems.RomCodeFormula`). However the data
  is cut up, the state is that of one update; accumulators 3 and 5 together hold the exact sum of
  all words; the high half of the code never depends on the order of the words, while the low half
  does for some words of every length, whatever the chip and the boot block; only bytes 0x710 to
  0x80F of the boot block are read.
- **Search.** The library finds the least 16-aligned table exactly when there is one. The
  program's search by 1024-byte blocks is *not* equivalent: it misses a table that starts in a
  partial last block. It finds the library's table exactly when the block in which that table
  starts is whole, and a ROM of 64 bytes shows the difference (`RomFile.SmallRomMissed`).
- **Finalisation.** The chunked check code is the library's, and exactly the eight code bytes of
  the header change; the result stores its own check code and is a fixed point.
- **Decompression.** `PlainImage` says, from the four words of each entry and the input's bytes
  alone, where every byte and every table entry of the image comes from, and what a run returns.
  Proved besides: exactly when a run succeeds, that the conditions on its image's bytes determine
  it uniquely, that all files read back uncompressed at their virtual addresses, and that a second
  run, with any decoder, reproduces the image byte for byte. The last one needs the second run to
  find the same table, and `PipelineTheorems.InputsRepeat` says exactly when it does: nothing
  below the input's table would be a table in a ROM of the output's size, the new check code does
  not complete one in the header, and the table's first block is whole. The check code cannot
  complete one unless the header's title starts with a number of at most 16, so that
  `PipelineTheorems.DecompressedTwiceFullSize` asks for conditions on the input's bytes alone.

## Model

| member | source | states |
|---|---|---|
| Bytes.WriteU32 | src/bytes.h:46-54 | the four bytes at the position become the big-endian bytes of the number, all others stay |
| Bytes.ReadAfterWrite | src/bytes.h:36-54 | reading what was written gives the number back |
| Bytes.WriteAfterRead | src/bytes.h:36-54 | writing what was read gives the bytes back |
| Words.XorDigit | src/rom.c:226-243 | the integer exclusive or used in the model is the exclusive or of each binary digit |
| Words.RotateDigit | src/rom.c:198-200 | rotation left by n < 32 moves digit k to k + n, wrapping at 32, including n = 0 |
| Words.ReadDigit | src/bytes.h:36-44 | binary digit j of byte k from the right is digit 8k + j of the number read |
| Words.MulSteps | src/rom.c:260-262 | the product used for a 6106 is repeated addition with wrap-around |
| Crc32Table.TableEntry | src/crc32.c:23-59 | each of the 256 constants is eight reflected division steps of its index |
| Crc32.TableStep | src/crc32.c:64 | one table look-up divides the register by the eight bits of the byte |
| Crc32.ComputeCrc32 | src/crc32.c:61-67 | for every initial value and message the loop returns the complemented bit-by-bit division by the reflected generator |
| Crc32.CrcComposes | src/crc32.c:61-67 | continuing a checksum over a second piece is the checksum of both pieces |
| Crc32Theorems.BurstDetected | src/crc32.c:61-67 | messages that differ only within 32 consecutive bits, at any bit offset, have different checksums |
| Crc32Theorems.FourBytesDetected | src/crc32.c:61-67 | messages that differ only within four consecutive bytes have different checksums |
| Crc32Theorems.CrcAffine | src/crc32.c:26-67 | the checksum of the exclusive or of three messages is the exclusive or of their checksums |
| Crc32Theorems.Residue | src/crc32.c:61-67 | any message followed by the little-endian bytes of its checksum checks to 0x2144DF1C |
| CrcPolynomial.DivideBitPoly | src/crc32.c:24 | a reflected register step is multiplication by x, addition of the message bit, and subtraction of x^32 + x^26 + ... + 1 if the sum has degree 32 |
| CrcPolynomial.DivisionWithRemainder | src/crc32.c:24-67 | dividend = quotient times generator plus the register, over the field of two elements |
| CrcPolynomial.RemainderUnique | src/crc32.c:24-67 | two remainders of the same polynomial are equal |
| CrcPolynomial.CrcIsRemainder | src/crc32.c:24-67 | a polynomial is the remainder of message times x^32 plus initial register times x^length if and only if it is the complemented checksum |
| CheckCode.IplIndex | src/rom.c:238-239 | a 6105 reads the boot block at an aligned word within 0x710 to 0x80F, depending on the position in the ROM only |
| CheckCodeTheorems.IplWord | src/rom.c:238-239 | word n from 0x1000 is mixed with the word at 0x710 + 4 * (n mod 64) of the boot block |
| CheckCode.CheckCodeState.Init | src/rom.c:170-196 | refuses an unknown chip and a 6105 with a short boot block, leaving the state alone; else six seeds at offset 0x1000 |
| CheckCode.CheckCodeState.StepWord | src/rom.c:219-243 | the in-place updates of the six accumulators, in the source's order, are one step on their old values |
| CheckCode.CheckCodeState.Update | src/rom.c:202-250 | refuses unaligned sizes, leaving the state alone; else folds the words up to 0x101000 into the accumulators and moves the offset |
| CheckCodeTheorems.AdvanceComposes | src/rom.c:202-250 | two updates are one update with the data of both, empty data and data past the end included |
| CheckCodeTheorems.RunIsOneUpdate | src/rom.c:202-250 | any sequence of updates, refused ones included, is one update with the accepted data |
| CheckCodeTheorems.ReachableStates | src/rom.c:177-247 | after any sequence of updates: same chip and boot block, aligned offset within 0x1000 to 0x101000, accumulators of one fold over the first min(total, 0x100000) bytes, no carry lost |
| CheckCodeTheorems.SumAndCarries | src/rom.c:221-225 | accumulators 5 and 3 are low word and carries of the exact sum of the words |
| CheckCodeTheorems.XorAndRotations | src/rom.c:226-229 | accumulator 2 is the exclusive or of the words, accumulator 4 the sum of the words each rotated by its low five bits |
| CheckCodeTheorems.FirstAccumulator | src/rom.c:237-243 | accumulator 0 is the sum of the words, each mixed with the word at 0x710 + 4 * (n mod 64) of the boot block (6105) or with accumulator 4 after that word |
| CheckCodeTheorems.SecondAccumulator | src/rom.c:228-235 | accumulator 1 takes in each word rotated by its low five bits if it is below the accumulator, and else together with the sum so far |
| CheckCodeFormula.CheckCodeIsClosedForm | src/rom.c:148-268 | for every chip, boot block and stream of words the check code is the closed form in exact sums, exclusive ors and products with the chip's seed |
| CheckCodeTheorems.CarryConservation | src/rom.c:148-225 | acc[3] * 2^32 + acc[5] is seed * 2^32 + seed + the sum of at most 2^18 words, exactly |
| CheckCodeTheorems.BootBlockWindow | src/rom.c:177-239 | boot blocks that agree on 0x710 to 0x80F give the same accumulators; other chips read none |
| CheckCodeTheorems.HighHalfIgnoresOrder | src/rom.c:221-268 | for every chip, any permutation of the words leaves the high 32 bits of the code unchanged |
| WordOrder.LowHalfSeesOrder | src/rom.c:229-268 | for every known chip, every boot block and every length from 2 there are words for which swapping the first two changes the low 32 bits of the code |
| WordOrder.ZerosKeep | src/rom.c:218-247 | accumulators that differ in the stated way still differ after any number of zero words |
| RomLib.WriteRomHeader | src/rom.c:85-108 | too small a buffer is refused untouched; else its first 64 bytes are the encoded header and the rest stays |
| RomLib.ReadRomHeader | src/rom.c:59-83 | fewer than 64 bytes are out of range; else the header is the one whose 64 bytes these are |
| RomLib.ReadRomInfo | src/rom.c:110-133 | fewer than 0x1000 bytes are out of range; else header, checksum of 0x40 to 0xFFF as bitwise division, chip, and entry point |
| RomLib.EntryPoint | src/rom.c:44-57 | adding the chip's displacement to the entry point, with wrap-around, gives the boot address |
| RomLib.RomCheckCode | src/rom.c:270-299 | succeeds exactly for at least 0x101000 bytes and a known chip, with the code of the words from 0x1000 to 0x100FFF; else invalid parameter, with the caller's variable untouched for a short ROM and 0 for an unknown chip |
| RomTheorems.HeaderLayout | src/rom.c:93-106 | each field of a written header lies at its offset, the check code as a big-endian number at 0x10 |
| RomTheorems.StoredCodeWords | src/rom.c:73-75 | the check code read is the big-endian number at 0x10 |
| RomTheorems.ChipLaw | src/rom.c:31-57 | the checksum of bytes 0x40 to 0xFFF decides chip, seed and entry point, for each of the five known values and all others |
| RomTheorems.RomCodeFormula | src/rom.c:270-299 | a ROM has a check code exactly if that checksum is known, and it is the closed form of the words at 0x1000 to 0x100FFC |
| RomLib.HeaderRoundTrip | src/rom.c:67-105 | writing the header that was read restores all 64 bytes |
| RomLib.HeaderReadBack | src/rom.c:67-105 | reading the header that was written gives every field back |
| RomLib.PatchedHeader | src/rom.c:67-105 | the header read, with another check code, written back differs in bytes 0x10 to 0x17 only |
| RomLib.StoredAfterSplice | src/rom.c:73-100 | the stored check code is read back |
| RomLib.RomCodeDependsOn | src/rom.c:279-298 | the check code depends on bytes 0x40 to 0x100FFF only |
| RomLib.RomCodeWindow | src/rom.c:238-298 | ROMs with the same chip, the same bytes 0x1000 to 0x100FFF and, for a 6105, the same bytes 0x750 to 0x84F have the same check code |
| FinalizeTheorems.AlteredBootBlock | src/rom.c:31-42 | different boot blocks that differ within 32 consecutive bits are never classified as the same known chip |
| FinalizeTheorems.AlteredRom | src/rom.c:126-129 | a ROM altered within four consecutive bytes of its boot block does not keep a known chip |
| Dma.FindDmadataStart | src/dma.c:43-61 | stops at the first possible MAKEROM entry in steps of 16 from the given offset, or, if there is none, at the first such position with fewer than 16 bytes left |
| Dma.ReadDmadataInfo | src/dma.c:63-136 | accepts exactly the entries for which sizes A, B and C exist that form the documented chain at this offset, and returns offset, size and count of DMADATA; out of range leaves the info alone |
| Dma.FindDmadata | src/dma.c:138-162 | terminates with the info of the least 16-aligned self-describing table, or NO_DMADATA and a zero info exactly when there is none |
| Dma.ReadDmadata | src/dma.c:164-180 | too few bytes leave the entries alone; else the entries are the decoded table, others stay |
| Dma.WriteDmadata | src/dma.c:182-202 | too small a buffer stays as it is; else the table is encoded at its start and all bytes behind stay |
| DmaTheorems.TableGeometry | src/dma.c:96-254 | an accepted table is 16-aligned, 16 * count = size > 0, inside the ROM up to the end that its third entry gives, behind MAKEROM, and its entry 0 is uncompressed with extent (0, MAKEROM size) |
| DmaTheorems.SignatureWords | src/dma.c:92-126 | a table lies at an offset exactly if its first twelve words satisfy the code's conditions |
| DmaTheorems.ExtentWords | src/dma.c:204-254 | offset and size, or error, of every kind of entry from its four words |
| DmaTheorems.EntryWords | src/dma.c:27-35 | entry i of a decoded table is the four words at 16 * i, in order |
| DmaTheorems.DecodeEncode | src/dma.c:164-202 | reading after writing returns any table |
| DmaTheorems.EncodeDecode | src/dma.c:164-202 | writing after reading restores the bytes |
| DmaTheorems.EncodeConcat | src/dma.c:192-199 | a table may be written piece by piece |
| DmaTheorems.DecodeConcat | src/dma.c:174-177 | a table may be read piece by piece |
| Files.OverwriteConcat | utils/rom.c:313-329 | two consecutive writes are one write of both pieces |
| RomFile.Rom.GetDmaInfo | utils/rom.c:34-76 | terminates; finds the table of the whole-ROM search, with the same info, if the 1024-byte block in which that table starts is whole, and reports an I/O error in every other case |
| RomFile.SearchBlocksFinds | utils/rom.c:34-76 | scanning block after block up to the first one that is not all there gives the least table if its block is whole, and otherwise there is no such table |
| RomFile.BlockSearchRefines | utils/rom.c:34-76 | the search by blocks gives the table of the whole-ROM search if and only if its block is whole; for multiples of 1024 the searches agree |
| RomFile.LastBlockMissed | utils/rom.c:43-47 | every table that starts in a partial last block is found by the library and missed by the program |
| RomFile.SmallRomMissed | utils/rom.c:43-47 | a concrete 64-byte ROM for which the two searches differ |
| RomFile.Rom.ReadDmadata | utils/rom.c:78-114 | reading 128 entries at a time gives the table that one call decodes, or an I/O error if the file is short |
| RomFile.Rom.ReadRomInfo | utils/rom.c:116-148 | the information of the bytes that entry 0 describes, or the error of its extent, of the read, or of a MAKEROM below 0x1000 bytes |
| RomFile.Rom.Open | utils/rom.c:150-225 | table info, table and ROM information of the file, or the first error |
| RomFile.Rom.Create | utils/rom.c:227-275 | exactly the asked number of zero bytes, whatever the file held, and a table of the given length |
| RomFile.Rom.CopyFile | utils/rom.c:284-340 | the chunked loop writes exactly the bytes of the file's extent at its virtual address, and the entry becomes uncompressed there; else the exact error |
| RomFile.Rom.DecompressFile | utils/rom.c:342-422 | what the decoder makes of the extent's bytes is written at the virtual address, and the entry becomes uncompressed there; else the exact error |
| RomFile.Rom.WriteDmadataToRom | utils/rom.c:424-452 | writing 128 entries at a time writes the table that one call encodes |
| RomFile.Rom.FeedChunks | utils/rom.c:489-511 | the 1024-byte loop terminates with the check code of the words from 0x1000 to 0x100FFF, or an I/O error exactly if the file is shorter |
| RomFile.Rom.CalculateRomCheckCode | utils/rom.c:454-518 | header and chip of the file are refreshed and its check code filled in, or the exact error |
| RomFile.Rom.Finalize | utils/rom.c:520-550 | the header with the new check code is written where entry 0 lies, or the exact error |
| FinalizeTheorems.CheckedIsRomCode | utils/rom.c:454-518 | with MAKEROM at 0 the chunked code is the library's, under exactly: MAKEROM of at least 0x1000 bytes and inside the file, a file of at least 0x101000, a known chip |
| FinalizeTheorems.CheckedErrors | utils/rom.c:454-518 | and otherwise exactly which error is returned |
| FinalizeTheorems.FinalizedIsPatched | utils/rom.c:520-550 | finalising succeeds under the same conditions and replaces exactly bytes 0x10 to 0x17 by the library's code |
| FinalizeTheorems.FinalizedIsConsistent | utils/rom.c:520-550 | the finalised image stores its own whole-ROM check code, other bytes stay, and finalising again changes nothing |
| Decompress.Run | utils/decompress.c:268-339 | the whole run, loop included, writes the image that placing the files, writing the table and finalising give, or returns the first error; the input file is unchanged |
| PipelineTheorems.PlaceFilesImage | utils/decompress.c:287-325 | disjoint files end up in their ranges and every byte in no range is zero |
| PipelineTheorems.RunSteps | utils/decompress.c:287-339 | a successful run is placing, then splicing in the table, then splicing in the check code; sizes fit |
| PipelineTheorems.RunSucceeds | utils/decompress.c:287-339 | a run succeeds if and only if every file can be read or expanded, the image has at least 0x101000 bytes and the input's chip is known |
| PipelineTheorems.ChipKept | utils/decompress.c:327-335 | the image to be finalised has the chip of the input |
| PipelineTheorems.DecompressedImage | utils/decompress.c:287-339 | every file's range holds its stored or expanded bytes (but for table and check code), the table range holds the new table, other bytes are zero, and the stored check code is that of the image |
| PipelineTheorems.ImageTable | utils/rom.c:331-337 | the table read back from the image describes every live file as uncompressed with its virtual range as extent, and empty and deleted entries are as they were |
| PlainImage.FilesArePlain | src/dma.c:204-217 | an entry is a file unless it is empty or its last word is 0xFFFFFFFF; its bytes, its errors and its new entry are given by its four words |
| PlainImage.OpenedWords | utils/rom.c:78-114 | the opened table consists of the words from the least table's offset to the end its third entry gives |
| PlainImage.StoredInImage | utils/rom.c:284-340 | byte p of a stored file's range is byte rom_start + (p - vrom_start) of the input |
| PlainImage.PackedInImage | utils/rom.c:342-422 | byte p of a packed file's range is byte p - vrom_start of what the bytes from rom_start to rom_end expand to |
| PlainImage.RestIsZero | utils/rom.c:246-259 | bytes in no range, or in that of deleted entries only, are zero |
| PlainImage.TableInImage | utils/decompress.c:291-332 | entry i of the image's table, word by word: files at their virtual addresses, empty and deleted entries unchanged |
| PlainImage.RunResult | utils/decompress.c:287-339 | if all files can be had, the run fails with INVALID_PARAMETER for an unknown checksum, with IO_ERROR for an image below 0x101000 bytes, and else succeeds |
| PlainImage.FirstFailure | utils/decompress.c:303-323 | the first file that cannot be had ends the run with its error, whatever the layout |
| PipelineTheorems.ImageUnique | utils/decompress.c:287-339 | no other image of the same size meets those conditions |
| PipelineTheorems.FirstEntries | src/dma.c:75-121 | entries 0, 1 and 2 of an opened table are MAKEROM, BOOTCODE and DMADATA, in place, so that the run keeps them |
| PipelineTheorems.OutputTable | src/dma.c:92-135 | the output satisfies the signature at the same offset with the same info |
| PipelineTheorems.OutputOpens | utils/rom.c:150-225 | opening the output finds that table and the moved entries |
| PipelineTheorems.OnlyRepeatable | utils/rom.c:34-76 | opening the output finds that table if and only if no earlier table lies in the output and the table's first block is whole |
| PipelineTheorems.BootPartKept | utils/decompress.c:303-312 | below its table the output is the input byte for byte, but for the check code |
| PipelineTheorems.EarlierTable | src/dma.c:92-121 | the output has an earlier table at an offset exactly where the input's entries would be one in a ROM of the output's size; at 0x10, exactly if the new check code, in front of the input's next bytes, is one |
| PipelineTheorems.InputsRepeat | src/dma.c:112-121 | for every successful run, an if-and-only-if condition for finding the same table again, read off the input except for the new check code; the part about other positions holds whenever the output is not larger than the input |
| PipelineTheorems.TitleHidesCode | src/dma.c:97-110 | no check code makes a table in the header if the word at 0x20 is above 16 |
| PipelineTheorems.DecompressedTwice | utils/decompress.c:287-339 | running on the output, with any decoder, gives the output again, byte for byte |
| PipelineTheorems.DecompressedTwiceFullSize | utils/decompress.c:277-339 | the same at the program's 64 MiB, under conditions on the input's own bytes only |

## Left out

- RomFile.Rom.DecompressFile: the Yaz0 decoder is not part of this repository; it is a parameter, a function from the compressed bytes to the expanded ones or none, and its 1024-byte streaming loop is one call and one write. That this loop ends, and what it has written when it fails, is not modelled.
- Decompress.Run: the same path given for input and output, which the program accepts and truncates, is not modelled; the two files are distinct. What the output file holds after a failed run is not stated. The image theorems assume that the files' ranges do not overlap, lie in the image, and that compressed files expand to the size of their range, none of which the program checks.
- PipelineTheorems.DecompressedTwice: repeats the run with the same output size; if an earlier table turns up in the output, the second run works on that table and nothing is claimed.
- RomFile.Rom.GetDmaInfo: what the info holds after a failed search is not stated.
- RomFile.Rom.ReadDmadata: a failed read leaves no table; the table's entries before the failure are not modelled.
- CheckCode.CheckCodeState.Update: a missing boot block and an empty one are the same; a missing state or missing data is not modelled.
- Stdio: opening, seeking and writing always succeed, a read is exact or fails, and the buffer after a short read is unspecified. Offsets are unbounded, so that a seek beyond the range of `long` is not modelled.
- Memory allocation always succeeds; MEMORY_ERROR is not part of this model. Nor are NULL arguments.
- `zelda64_swap_uint32`, result and chip names, version strings, logging, timing and the command line.
- Compression levels, cache and copy lists, which the program accepts without effect.
- Extents and kinds of entries are returned as values, not through out-parameters.
