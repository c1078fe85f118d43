/**
 The image of a run in plain terms: which bytes it holds is said from the four words of each entry
 and the bytes of the input, without the program's own notions of kinds and extents.
 */
module PlainImage {
  import opened Bytes
  import opened Status
  import Crc32
  import opened CheckCode
  import opened RomLib
  import opened RomTheorems
  import opened Dma
  import opened DmaTheorems
  import opened Files
  import opened RomFile
  import opened Decompress
  import opened FinalizeTheorems
  import opened PipelineTheorems

  // ----- files

  /** The entry stands for a file: it is neither empty nor deleted. */
  predicate IsFile(e: DmaEntry) {
    e.vromStart != e.vromEnd && e.romEnd != 0xFFFF_FFFF
  }

  /** The bytes from lo to hi, as far as there are any. */
  function Clip(rom: seq<uint8>, lo: nat, hi: nat): seq<uint8>
    requires lo <= hi
  {
    rom[Min(lo, |rom|)..Min(hi, |rom|)]
  }

  /** The bytes of a file, or why there are none. */
  function FileBytes(rom: seq<uint8>, e: DmaEntry, yaz0: Decoder): Result<seq<uint8>> {
    var size := e.vromEnd as int - e.vromStart as int;
    if e.romEnd == 0 then
      if size < 0 then Failure(OutOfRange)
      else if e.romStart as int + size > |rom| then Failure(IoError)
      else Success(rom[e.romStart as int..e.romStart as int + size])
    else if e.romEnd < e.romStart then Failure(OutOfRange)
    else
      match yaz0(Clip(rom, e.romStart as nat, e.romEnd as nat))
      case None => Failure(DecompressionError)
      case Some(data) => Success(data)
  }

  /** What the run makes of an entry: files are expanded or copied and move to their virtual address, the rest stays. */
  lemma FilesArePlain(rom: seq<uint8>, e: DmaEntry, yaz0: Decoder)
    ensures Live(e) <==> IsFile(e)
    ensures IsFile(e) ==> Content(rom, e, yaz0) == FileBytes(rom, e, yaz0)
    ensures NewEntry(e) == if IsFile(e) then DmaEntry(e.vromStart, e.vromEnd, e.vromStart, 0) else e
  {
    if e.romStart <= e.romEnd {
      ClipIsAvailable(rom, e);
    }
  }

  lemma ClipIsAvailable(rom: seq<uint8>, e: DmaEntry)
    requires e.romStart <= e.romEnd
    ensures Clip(rom, e.romStart as nat, e.romEnd as nat)
         == Available(rom, e.romStart as nat, (e.romEnd - e.romStart) as nat)
  {}

  // ----- the table of an opened ROM

  /** The table is the one that describes itself at the least offset, read word by word. */
  lemma OpenedWords(rom: seq<uint8>)
    requires OpenSpec(rom).Success?
    ensures var src := OpenSpec(rom).value;
            var t, o := src.dmaTable, src.dmaInfo.offset as nat;
            && LeastTable(rom, o) && o % 16 == 0 && o + 16 * |t| == ReadU32(rom, o + 0x24) as nat <= |rom|
            && src.dmaInfo.size as nat == 16 * |t| && src.dmaInfo.count == |t|
            && forall i: nat :: i < |t| ==> EntryAt(rom, o + 16 * i, t[i])
  {
    hide ReadU32, DmadataAt, OpenSpec, InfoAt;
    OpenedTable(rom);
    var t, o := OpenSpec(rom).value.dmaTable, OpenSpec(rom).value.dmaInfo.offset as nat;
    TableGeometry(rom, o);
    forall i: nat | i < |t|
      ensures EntryAt(rom, o + 16 * i, t[i])
    {
      EntriesBehind(rom, o, |t|, i);
    }
  }

  /** The four words at o. */
  predicate EntryAt(data: seq<uint8>, o: nat, e: DmaEntry) {
    && o + 16 <= |data|
    && ReadU32(data, o) == e.vromStart && ReadU32(data, o + 4) == e.vromEnd
    && ReadU32(data, o + 8) == e.romStart && ReadU32(data, o + 12) == e.romEnd
  }

  lemma EntriesBehind(data: seq<uint8>, o: nat, n: nat, i: nat)
    requires i < n && o + 16 * n <= |data|
    ensures EntryAt(data, o + 16 * i, DecodeTable(data[o..], n)[i])
  {
    hide ReadU32, DecodeTable;
    var d := data[o..];
    EntryWords(d, n, i);
    assert d == data[o..|data|];
    ReadSlice(data, o, |data|, 16 * i);
    ReadSlice(data, o, |data|, 16 * i + 4);
    ReadSlice(data, o, |data|, 16 * i + 8);
    ReadSlice(data, o, |data|, 16 * i + 12);
  }

  // ----- layouts

  /** Files end inside the image, do not overlap, and packed ones expand to as many bytes as their range has. */
  ghost predicate PlainLayout(rom: seq<uint8>, t: seq<DmaEntry>, yaz0: Decoder, outSize: nat) {
    && (forall i :: 0 <= i < |t| && IsFile(t[i]) ==> PlainFits(rom, t[i], yaz0, outSize))
    && (forall i, j :: 0 <= i < j < |t| && IsFile(t[i]) && IsFile(t[j]) ==>
          t[i].vromEnd <= t[j].vromStart || t[j].vromEnd <= t[i].vromStart)
  }

  ghost predicate PlainFits(rom: seq<uint8>, e: DmaEntry, yaz0: Decoder, outSize: nat) {
    && e.vromEnd as nat <= outSize
    && (e.romEnd != 0 && FileBytes(rom, e, yaz0).Success? ==>
          |FileBytes(rom, e, yaz0).value| == e.vromEnd as int - e.vromStart as int)
  }

  lemma FitsIsPlain(rom: seq<uint8>, e: DmaEntry, yaz0: Decoder, outSize: nat)
    requires IsFile(e)
    ensures Fits(rom, e, yaz0, outSize) <==> PlainFits(rom, e, yaz0, outSize)
  {
    hide FileBytes, ExpandedBytes, StoredBytes;
    FilesArePlain(rom, e, yaz0);
  }

  lemma LayoutIsPlain(rom: seq<uint8>, t: seq<DmaEntry>, yaz0: Decoder, outSize: nat)
    ensures Layout(rom, t, yaz0, outSize) <==> PlainLayout(rom, t, yaz0, outSize)
  {
    hide Live, IsFile, Fits, PlainFits, NewEntry, Content;
    forall i | 0 <= i < |t|
      ensures Live(t[i]) <==> IsFile(t[i])
      ensures IsFile(t[i]) ==> (Fits(rom, t[i], yaz0, outSize) <==> PlainFits(rom, t[i], yaz0, outSize))
    {
      FilesArePlain(rom, t[i], yaz0);
      if IsFile(t[i]) {
        FitsIsPlain(rom, t[i], yaz0, outSize);
      }
    }
  }

  /** What the theorems below ask of an input: three entries at least, and a layout. */
  ghost predicate PlainInput(rom: seq<uint8>, yaz0: Decoder, outSize: nat) {
    && OpenSpec(rom).Success? && |OpenSpec(rom).value.dmaTable| >= 3
    && PlainLayout(rom, OpenSpec(rom).value.dmaTable, yaz0, outSize)
  }

  lemma InputIsPlain(rom: seq<uint8>, yaz0: Decoder, outSize: nat)
    ensures WellFormed(rom, yaz0, outSize) <==> PlainInput(rom, yaz0, outSize)
  {
    hide OpenSpec, Layout, PlainLayout;
    if OpenSpec(rom).Success? {
      LayoutIsPlain(rom, OpenSpec(rom).value.dmaTable, yaz0, outSize);
    }
  }

  // ----- the image

  /** The byte at p is neither part of the check code nor of the table of n entries at o. */
  predicate OfFile(p: nat, o: nat, n: nat) {
    !(0x10 <= p < 0x18) && !(o <= p < o + 16 * n)
  }

  /** Every byte of the range of a file is the file's, outside the table and the check code. */
  lemma FileInImage(rom: seq<uint8>, yaz0: Decoder, outSize: nat, i: nat, p: nat)
    requires PlainInput(rom, yaz0, outSize) && Decompressed(rom, yaz0, outSize).Success?
    requires i < |OpenSpec(rom).value.dmaTable| && IsFile(OpenSpec(rom).value.dmaTable[i])
    requires OpenSpec(rom).value.dmaTable[i].vromStart as nat <= p < OpenSpec(rom).value.dmaTable[i].vromEnd as nat
    ensures var src := OpenSpec(rom).value;
            var t, o := src.dmaTable, src.dmaInfo.offset as nat;
            var image, data := Decompressed(rom, yaz0, outSize).value, FileBytes(rom, t[i], yaz0);
            && data.Success? && |data.value| == t[i].vromEnd as int - t[i].vromStart as int
            && p < |image| == outSize
            && (OfFile(p, o, |t|) ==> image[p] == data.value[p - t[i].vromStart as nat])
  {
    hide OpenSpec, Decompressed, Layout, PlainLayout, EncodeTable, RomCode, StoredCode, Live, IsFile, Content;
    hide FileBytes, NewEntry, Covered, NewTable;
    InputIsPlain(rom, yaz0, outSize);
    DecompressedImage(rom, yaz0, outSize);
    var src, image := OpenSpec(rom).value, Decompressed(rom, yaz0, outSize).value;
    var t, o := src.dmaTable, src.dmaInfo.offset as nat;
    FilesArePlain(rom, t[i], yaz0);
    assert HasByte(rom, t[i], o, |t|, yaz0, image, p);
  }

  /** A stored file is copied from its own position in the ROM. */
  lemma StoredInImage(rom: seq<uint8>, yaz0: Decoder, outSize: nat, i: nat, p: nat)
    requires PlainInput(rom, yaz0, outSize) && Decompressed(rom, yaz0, outSize).Success?
    requires i < |OpenSpec(rom).value.dmaTable|
    requires var e := OpenSpec(rom).value.dmaTable[i]; e.romEnd == 0 && e.vromStart as nat <= p < e.vromEnd as nat
    requires OfFile(p, OpenSpec(rom).value.dmaInfo.offset as nat, |OpenSpec(rom).value.dmaTable|)
    ensures var e := OpenSpec(rom).value.dmaTable[i];
            var image := Decompressed(rom, yaz0, outSize).value;
            var q := e.romStart as nat + (p - e.vromStart as nat);
            p < |image| && q < |rom| && image[p] == rom[q]
  {
    hide OpenSpec, Decompressed, PlainLayout;
    FileInImage(rom, yaz0, outSize, i, p);
  }

  /** A packed file is expanded from the bytes between its two ROM addresses. */
  lemma PackedInImage(rom: seq<uint8>, yaz0: Decoder, outSize: nat, i: nat, p: nat)
    requires PlainInput(rom, yaz0, outSize) && Decompressed(rom, yaz0, outSize).Success?
    requires i < |OpenSpec(rom).value.dmaTable|
    requires var e := OpenSpec(rom).value.dmaTable[i];
             && 0 < e.romEnd < 0xFFFF_FFFF && e.romEnd as nat <= |rom| && e.vromStart as nat <= p < e.vromEnd as nat
    requires OfFile(p, OpenSpec(rom).value.dmaInfo.offset as nat, |OpenSpec(rom).value.dmaTable|)
    ensures var e := OpenSpec(rom).value.dmaTable[i];
            var image := Decompressed(rom, yaz0, outSize).value;
            && e.romStart <= e.romEnd
            && var data := yaz0(rom[e.romStart as nat..e.romEnd as nat]);
            && data.Some? && |data.value| == e.vromEnd as int - e.vromStart as int
            && p < |image| && image[p] == data.value[p - e.vromStart as nat]
  {
    hide OpenSpec, Decompressed, PlainLayout;
    FileInImage(rom, yaz0, outSize, i, p);
    var e := OpenSpec(rom).value.dmaTable[i];
    assert rom[e.romStart as nat..e.romEnd as nat] == Clip(rom, e.romStart as nat, e.romEnd as nat);
  }

  /** Bytes in the range of no file are zero; empty and deleted entries cover nothing. */
  lemma RestIsZero(rom: seq<uint8>, yaz0: Decoder, outSize: nat, p: nat)
    requires PlainInput(rom, yaz0, outSize) && Decompressed(rom, yaz0, outSize).Success? && p < outSize
    requires var t := OpenSpec(rom).value.dmaTable;
             forall i :: 0 <= i < |t| && t[i].vromStart as nat <= p < t[i].vromEnd as nat ==> t[i].romEnd == 0xFFFF_FFFF
    ensures var image := Decompressed(rom, yaz0, outSize).value;
            p < |image| && image[p] == 0
  {
    hide OpenSpec, Decompressed, Layout, PlainLayout, EncodeTable, RomCode, StoredCode, Live, Content, HasByte;
    hide NewTable;
    InputIsPlain(rom, yaz0, outSize);
    DecompressedImage(rom, yaz0, outSize);
    var t := OpenSpec(rom).value.dmaTable;
    if Covered(t, p) {
      var i :| 0 <= i < |t| && Live(t[i]) && InRange(t[i], p);
      FilesArePlain(rom, t[i], yaz0);
    }
  }

  /** The table of the image, word by word: files lie at their virtual addresses, all other entries are as they were. */
  lemma TableInImage(rom: seq<uint8>, yaz0: Decoder, outSize: nat, i: nat)
    requires PlainInput(rom, yaz0, outSize) && Decompressed(rom, yaz0, outSize).Success?
    requires i < |OpenSpec(rom).value.dmaTable|
    ensures var src := OpenSpec(rom).value;
            var e, o := src.dmaTable[i], src.dmaInfo.offset as nat;
            var image := Decompressed(rom, yaz0, outSize).value;
            EntryAt(image, o + 16 * i,
              if e.vromStart == e.vromEnd || e.romEnd == 0xFFFF_FFFF then e
              else DmaEntry(e.vromStart, e.vromEnd, e.vromStart, 0))
  {
    hide OpenSpec, Decompressed, Layout, PlainLayout, EncodeTable, RomCode, StoredCode, Live, Content, HasByte;
    hide DecodeTable, NewEntry, Covered, EntryAt, IsImage;
    InputIsPlain(rom, yaz0, outSize);
    DecompressedImage(rom, yaz0, outSize);
    var src, image := OpenSpec(rom).value, Decompressed(rom, yaz0, outSize).value;
    var t, o := src.dmaTable, src.dmaInfo.offset as nat;
    ImageTable(rom, t, o, yaz0, image);
    EntriesBehind(image, o, |t|, i);
    FilesArePlain(rom, t[i], yaz0);
  }

  /** The stored check code is that of the image's own words and boot block. */
  lemma CodeInImage(rom: seq<uint8>, yaz0: Decoder, outSize: nat)
    requires PlainInput(rom, yaz0, outSize) && Decompressed(rom, yaz0, outSize).Success?
    ensures var image := Decompressed(rom, yaz0, outSize).value;
            |image| >= 0x10_1000 && RomCode(image) == Some(StoredCode(image))
  {
    hide OpenSpec, Decompressed, Layout, PlainLayout, EncodeTable, RomCode, StoredCode, Live, HasByte, Covered;
    hide NewTable;
    InputIsPlain(rom, yaz0, outSize);
    DecompressedImage(rom, yaz0, outSize);
  }

  // ----- the result

  /** A run on a laid-out input whose files can all be had fails for an unknown chip or a short image only. */
  lemma RunResult(rom: seq<uint8>, yaz0: Decoder, outSize: nat)
    requires PlainInput(rom, yaz0, outSize)
    ensures var t := OpenSpec(rom).value.dmaTable;
            var result := Decompressed(rom, yaz0, outSize);
            |rom| >= 0x1000 &&
            ((forall i :: 0 <= i < |t| && IsFile(t[i]) ==> FileBytes(rom, t[i], yaz0).Success?) ==>
               if !KnownChecksum(Crc32.Crc(0, rom[0x40..0x1000])) then result == Failure(InvalidParameter)
               else if outSize < 0x10_1000 then result == Failure(IoError)
               else result.Success?)
  {
    hide OpenSpec, PlaceFiles, Layout, PlainLayout, EncodeTable, Finalized, CheckedInfo, CicForCrc32, Crc32.Crc, Live;
    hide Content, FileBytes, IsFile, NewEntry, KnownChecksum, WithTable;
    InputIsPlain(rom, yaz0, outSize);
    var src := OpenSpec(rom).value;
    var t := src.dmaTable;
    FirstEntries(rom);
    OpenedChip(rom);
    ChipKnown(rom);
    if forall i :: 0 <= i < |t| && IsFile(t[i]) ==> FileBytes(rom, t[i], yaz0).Success? {
      forall i | 0 <= i < |t| && Live(t[i])
        ensures Content(rom, t[i], yaz0).Success?
      {
        FilesArePlain(rom, t[i], yaz0);
      }
      RunSucceeds(rom, yaz0, outSize);
      PlaceFilesSucceeds(rom, t, yaz0, Zeros(outSize));
      ChipKept(rom, yaz0, outSize);
      var tabled := WithTable(PlaceFiles(rom, t, yaz0, Zeros(outSize)).value, src);
      CheckedErrors(tabled, t[0], t[0].vromEnd as nat);
      ResultOf(rom, yaz0, outSize, tabled);
    }
  }

  lemma OpenedChip(rom: seq<uint8>)
    requires OpenSpec(rom).Success? && |OpenSpec(rom).value.dmaTable| >= 3
    ensures |rom| >= 0x1000 && OpenSpec(rom).value.info.cic == CicOf(rom)
  {
    hide OpenSpec, CicOf, ParseHeader, ParseInfo, DmadataAt, InfoAt, ReadEntry, DecodeTable, BlockTable, LeastTable;
    hide NewEntry, Live;
    OpenedTable(rom);
    FirstEntries(rom);
    MakeromInfo(rom, OpenSpec(rom).value.dmaTable[0].vromEnd as nat);
  }

  lemma ResultOf(rom: seq<uint8>, yaz0: Decoder, outSize: nat, tabled: seq<uint8>)
    requires WellFormed(rom, yaz0, outSize)
    requires var src := OpenSpec(rom).value;
             var placing := PlaceFiles(rom, src.dmaTable, yaz0, Zeros(outSize));
             placing.Success? && tabled == WithTable(placing.value, src)
    ensures Decompressed(rom, yaz0, outSize) == Finalized(tabled, OpenSpec(rom).value.dmaTable[0])
  {
    hide OpenSpec, PlaceFiles, Layout, Finalized, EncodeTable;
    FirstEntries(rom);
  }

  /** Whatever the layout, a file that fails ends the run with its error if none before it does. */
  lemma FirstFailure(rom: seq<uint8>, yaz0: Decoder, outSize: nat, i: nat)
    requires OpenSpec(rom).Success? && i < |OpenSpec(rom).value.dmaTable|
    requires var t := OpenSpec(rom).value.dmaTable;
             && IsFile(t[i]) && FileBytes(rom, t[i], yaz0).Failure?
             && forall j :: 0 <= j < i && IsFile(t[j]) ==> FileBytes(rom, t[j], yaz0).Success?
    ensures Decompressed(rom, yaz0, outSize) == Failure(FileBytes(rom, OpenSpec(rom).value.dmaTable[i], yaz0).error)
  {
    hide OpenSpec, PlaceFiles, Finalized, Live, Content, FileBytes, IsFile, NewEntry;
    var t := OpenSpec(rom).value.dmaTable;
    forall j | 0 <= j < i && Live(t[..i][j])
      ensures Content(rom, t[..i][j], yaz0).Success?
    {
      FilesArePlain(rom, t[j], yaz0);
    }
    PlaceFilesSucceeds(rom, t[..i], yaz0, Zeros(outSize));
    FilesArePlain(rom, t[i], yaz0);
    PlaceOne(rom, t, yaz0, Zeros(outSize), i);
    PlaceFailed(rom, t, yaz0, Zeros(outSize), i + 1);
  }
}
