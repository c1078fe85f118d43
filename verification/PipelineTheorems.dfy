/** The image that the decompression run of utils/decompress.c writes, and running it on its own output. */
module PipelineTheorems {
  import opened Bytes
  import opened Status
  import opened Files
  import opened CheckCode
  import opened RomLib
  import opened Dma
  import opened DmaTheorems
  import opened RomFile
  import opened Decompress
  import opened FinalizeTheorems

  // ----- splices

  lemma SpliceApart<T>(s: seq<T>, at: nat, piece: seq<T>, lo: nat, hi: nat)
    requires at + |piece| <= |s| && lo <= hi <= |s|
    requires hi <= at || at + |piece| <= lo
    ensures Splice(s, at, piece)[lo..hi] == s[lo..hi]
  {}

  lemma SpliceInside<T>(s: seq<T>, at: nat, piece: seq<T>)
    requires at + |piece| <= |s|
    ensures Splice(s, at, piece)[at..at + |piece|] == piece
  {}

  // ----- tables that a run can lay out

  predicate InRange(e: DmaEntry, p: nat) {
    e.vromStart as nat <= p < e.vromEnd as nat
  }

  predicate Apart(e: DmaEntry, f: DmaEntry) {
    e.vromEnd <= f.vromStart || f.vromEnd <= e.vromStart
  }

  function VromSize(e: DmaEntry): int {
    e.vromEnd as int - e.vromStart as int
  }

  /** The byte at p belongs to a file of the table. */
  ghost predicate Covered(t: seq<DmaEntry>, p: nat) {
    exists i :: 0 <= i < |t| && Live(t[i]) && InRange(t[i], p)
  }

  ghost predicate Fits(rom: seq<uint8>, e: DmaEntry, yaz0: Decoder, outSize: nat) {
    && e.vromEnd as nat <= outSize
    && (Kind(e).Compressed? ==>
          match ExpandedBytes(rom, e, yaz0)
          case Success(data) => |data| == VromSize(e)
          case Failure(_) => true)
  }

  /** Files lie inside the image, apart from each other, and expand to as many bytes as their range has. */
  ghost predicate Layout(rom: seq<uint8>, t: seq<DmaEntry>, yaz0: Decoder, outSize: nat) {
    && (forall i :: 0 <= i < |t| && Live(t[i]) ==> Fits(rom, t[i], yaz0, outSize))
    && (forall i, j :: 0 <= i < j < |t| && Live(t[i]) && Live(t[j]) ==> Apart(t[i], t[j]))
  }

  lemma ContentSize(rom: seq<uint8>, e: DmaEntry, yaz0: Decoder, outSize: nat)
    requires Live(e) && Fits(rom, e, yaz0, outSize) && Content(rom, e, yaz0).Success?
    ensures e.vromStart <= e.vromEnd && |Content(rom, e, yaz0).value| == VromSize(e) > 0
  {
    hide ExpandedBytes;
  }

  /** image holds every file in its range and zeros outside all ranges. */
  ghost predicate Placed(rom: seq<uint8>, t: seq<DmaEntry>, yaz0: Decoder, image: seq<uint8>) {
    && (forall i :: 0 <= i < |t| && Live(t[i]) ==> HoldsFile(rom, t[i], yaz0, image))
    && (forall p: nat :: p < |image| && !Covered(t, p) ==> image[p] == 0)
  }

  ghost predicate HoldsFile(rom: seq<uint8>, e: DmaEntry, yaz0: Decoder, image: seq<uint8>) {
    && Content(rom, e, yaz0).Success?
    && e.vromStart <= e.vromEnd && e.vromEnd as nat <= |image|
    && image[e.vromStart as nat..e.vromEnd as nat] == Content(rom, e, yaz0).value
  }

  /** Placing the files of a table that can be laid out. */
  lemma {:induction false} PlaceFilesImage(rom: seq<uint8>, t: seq<DmaEntry>, yaz0: Decoder, outSize: nat)
    requires Layout(rom, t, yaz0, outSize) && PlaceFiles(rom, t, yaz0, Zeros(outSize)).Success?
    ensures var image := PlaceFiles(rom, t, yaz0, Zeros(outSize)).value;
            |image| == outSize && Placed(rom, t, yaz0, image)
    decreases |t|
  {
    hide Content, Live, Fits, Apart, Overwrite, Covered, HoldsFile;
    if |t| == 0 {
    } else {
      var n := |t| - 1;
      PlaceFilesImage(rom, t[..n], yaz0, outSize);
      var prev := PlaceFiles(rom, t[..n], yaz0, Zeros(outSize)).value;
      var e := t[n];
      if !Live(e) {
        PlaceSkipped(rom, t, yaz0, prev);
      } else {
        ContentSize(rom, e, yaz0, outSize);
        FitsInside(rom, e, yaz0, outSize);
        OverwriteInside(prev, e.vromStart as nat, Content(rom, e, yaz0).value);
        PlaceLast(rom, t, yaz0, prev);
      }
    }
  }

  lemma FitsInside(rom: seq<uint8>, e: DmaEntry, yaz0: Decoder, outSize: nat)
    requires Fits(rom, e, yaz0, outSize)
    ensures e.vromEnd as nat <= outSize
  {}

  lemma CoveredPrefix(t: seq<DmaEntry>, n: nat, p: nat)
    requires n <= |t|
    ensures Covered(t[..n], p) ==> Covered(t, p)
  {
    hide Live, InRange;
  }

  lemma PlaceSkipped(rom: seq<uint8>, t: seq<DmaEntry>, yaz0: Decoder, image: seq<uint8>)
    requires |t| > 0 && !Live(t[|t| - 1]) && Placed(rom, t[..|t| - 1], yaz0, image)
    ensures Placed(rom, t, yaz0, image)
  {
    hide Live, HoldsFile, InRange;
    var n := |t| - 1;
    forall p: nat | p < |image| && !Covered(t, p)
      ensures image[p] == 0
    {
      CoveredPrefix(t, n, p);
    }
    forall i | 0 <= i < |t| && Live(t[i])
      ensures HoldsFile(rom, t[i], yaz0, image)
    {
      assert t[..n][i] == t[i];
    }
  }

  lemma PlaceLast(rom: seq<uint8>, t: seq<DmaEntry>, yaz0: Decoder, prev: seq<uint8>)
    requires |t| > 0 && Live(t[|t| - 1]) && Placed(rom, t[..|t| - 1], yaz0, prev)
    requires forall i :: 0 <= i < |t| - 1 && Live(t[i]) ==> Apart(t[i], t[|t| - 1])
    requires var e := t[|t| - 1];
             && Content(rom, e, yaz0).Success? && e.vromStart <= e.vromEnd && e.vromEnd as nat <= |prev|
             && |Content(rom, e, yaz0).value| == VromSize(e)
    ensures Placed(rom, t, yaz0, Splice(prev, t[|t| - 1].vromStart as nat, Content(rom, t[|t| - 1], yaz0).value))
  {
    hide Live, Content, Splice;
    var n := |t| - 1;
    var e := t[n];
    var data := Content(rom, e, yaz0).value;
    var image := Splice(prev, e.vromStart as nat, data);
    SpliceInside(prev, e.vromStart as nat, data);
    forall i | 0 <= i < |t| && Live(t[i])
      ensures HoldsFile(rom, t[i], yaz0, image)
    {
      if i < n {
        assert t[..n][i] == t[i] && HoldsFile(rom, t[i], yaz0, prev) && Apart(t[i], e);
        SpliceApart(prev, e.vromStart as nat, data, t[i].vromStart as nat, t[i].vromEnd as nat);
      }
    }
    forall p: nat | p < |image| && !Covered(t, p)
      ensures image[p] == 0
    {
      assert !InRange(e, p);
      CoveredPrefix(t, n, p);
      SpliceApart(prev, e.vromStart as nat, data, p, p + 1);
      assert image[p..p + 1] == prev[p..p + 1];
      assert image[p] == image[p..p + 1][0] && prev[p] == prev[p..p + 1][0];
    }
  }

  // ----- the first three entries of the table that is found

  /** What the table of an opened ROM says about itself. */
  lemma OpenedTable(rom: seq<uint8>)
    requires OpenSpec(rom).Success?
    ensures var src := OpenSpec(rom).value;
            var o := src.dmaInfo.offset as nat;
            && LeastTable(rom, o) && BlockTable(rom) == Some(o) && src.dmaInfo == InfoAt(rom, o)
            && |src.dmaTable| == src.dmaInfo.count
            && o + ENTRY_SIZE * |src.dmaTable| <= |rom|
            && src.dmaTable == DecodeTable(rom[o..], |src.dmaTable|)
            && src.dmaTable[0] == ReadEntry(rom, o)
            && InfoSpec(rom, src.dmaTable[0]) == Success(src.info)
  {
    hide InfoSpec, ReadEntry, InfoAt, DmadataAt, Slot, LeastTable;
    var o := BlockTable(rom).value;
    OpenedAt(rom, o);
    var t := OpenSpec(rom).value.dmaTable;
    DecodeAt(rom[o..], |t|, 0);
    ReadEntries(rom, o);
  }

  lemma OpenedAt(rom: seq<uint8>, o: nat)
    requires LeastTable(rom, o)
    ensures InfoAt(rom, o).offset as nat == o && InfoAt(rom, o).count > 0
    ensures o + ENTRY_SIZE * InfoAt(rom, o).count <= |rom|
  {
    TableGeometry(rom, o);
  }

  /** The entries of MAKEROM, BOOTCODE and DMADATA in a table with at least three entries. */
  lemma FirstEntries(rom: seq<uint8>)
    requires OpenSpec(rom).Success? && |OpenSpec(rom).value.dmaTable| >= 3
    ensures var src := OpenSpec(rom).value;
            var t, o := src.dmaTable, src.dmaInfo.offset as nat;
            && t[0] == ReadEntry(rom, o) && t[1] == ReadEntry(rom, o + ENTRY_SIZE)
            && t[2] == ReadEntry(rom, o + 2 * ENTRY_SIZE)
            && Live(t[0]) && Live(t[2]) && NewEntry(t[0]) == t[0] && NewEntry(t[1]) == t[1] && NewEntry(t[2]) == t[2]
            && t[2].vromStart as nat == o && t[2].vromEnd as nat == o + ENTRY_SIZE * |t|
            && Makerom(t[0], t[0].vromEnd as nat) && 0 < t[0].vromEnd as nat <= o && t[0].vromStart == 0
            && InPlace(t[0]) && InPlace(t[1]) && t[1].vromStart == t[0].vromEnd && t[1].vromEnd as nat == o
  {
    hide ReadEntry;
    OpenedTable(rom);
    var src := OpenSpec(rom).value;
    var t, o := src.dmaTable, src.dmaInfo.offset as nat;
    DecodeAt(rom[o..], |t|, 1);
    DecodeAt(rom[o..], |t|, 2);
    ReadEntries(rom, o);
    ChainEntries(t[0], t[1], t[2], o, |rom|);
    TableGeometry(rom, o);
  }

  /** An uncompressed file that lies at its virtual address. */
  predicate InPlace(e: DmaEntry) {
    e.romStart == e.vromStart && e.romEnd == 0
  }

  lemma ChainEntries(e0: DmaEntry, e1: DmaEntry, e2: DmaEntry, o: nat, romSize: nat)
    requires Signature(e0, e1, e2, o, romSize)
    ensures Live(e0) && Live(e2) && NewEntry(e0) == e0 && NewEntry(e1) == e1 && NewEntry(e2) == e2
    ensures e2.vromStart as nat == o && e2.vromEnd > e2.vromStart
    ensures Makerom(e0, e0.vromEnd as nat) && 0 < e0.vromEnd as nat <= o && e0.vromStart == 0
    ensures InPlace(e0) && InPlace(e1) && e1.vromStart == e0.vromEnd && e1.vromEnd as nat == o
  {
    var a: nat, b: nat, c: nat :| Chain(e0, e1, e2, o, romSize, a, b, c);
  }

  // ----- the image of a run

  /** Which inputs a run is meant for: the table has its three leading entries and can be laid out. */
  ghost predicate WellFormed(rom: seq<uint8>, yaz0: Decoder, outSize: nat) {
    && OpenSpec(rom).Success?
    && |OpenSpec(rom).value.dmaTable| >= 3
    && Layout(rom, OpenSpec(rom).value.dmaTable, yaz0, outSize)
  }

  /** The bytes of the check code in the header. */
  predicate InCheckCode(p: nat) {
    OFFSET_CHECK_CODE <= p < OFFSET_CHECK_CODE + 8
  }

  /** Every byte of the image of table t at offset o. */
  ghost predicate IsImage(rom: seq<uint8>, t: seq<DmaEntry>, o: nat, yaz0: Decoder, image: seq<uint8>)
    requires |image| >= CHECK_END
  {
    && o + ENTRY_SIZE * |t| <= |image|
    && image[o..o + ENTRY_SIZE * |t|] == EncodeTable(NewTable(t))
    && RomCode(image) == Some(StoredCode(image))
    && (forall i, p: nat :: 0 <= i < |t| && Live(t[i]) && InRange(t[i], p) ==>
          HasByte(rom, t[i], o, |t|, yaz0, image, p))
    && (forall p: nat :: p < |image| && !Covered(t, p) ==> image[p] == 0)
  }

  /** Byte p of the image is that of file e, unless table or check code lie there. */
  ghost predicate HasByte(rom: seq<uint8>, e: DmaEntry, o: nat, n: nat, yaz0: Decoder, image: seq<uint8>, p: nat)
    requires InRange(e, p)
  {
    && Content(rom, e, yaz0).Success? && |Content(rom, e, yaz0).value| == VromSize(e) && p < |image|
    && (InCheckCode(p) || o <= p < o + ENTRY_SIZE * n
        || image[p] == Content(rom, e, yaz0).value[p - e.vromStart as nat])
  }

  /** The steps of a run that succeeds. */
  lemma RunSteps(rom: seq<uint8>, yaz0: Decoder, outSize: nat)
    requires WellFormed(rom, yaz0, outSize) && Decompressed(rom, yaz0, outSize).Success?
    ensures var src := OpenSpec(rom).value;
            var t, o := src.dmaTable, src.dmaInfo.offset as nat;
            var placing := PlaceFiles(rom, t, yaz0, Zeros(outSize));
            var image := Decompressed(rom, yaz0, outSize).value;
            && placing.Success? && |placing.value| == |image| == outSize >= CHECK_END
            && o + ENTRY_SIZE * |t| <= outSize && CIC_DETECT_END <= t[0].vromEnd as nat <= o
            && var tabled := Splice(placing.value, o, EncodeTable(NewTable(t)));
            && Finalized(tabled, t[0]) == Success(image)
            && RomCode(tabled).Some?
            && image == Splice(tabled, OFFSET_CHECK_CODE, CodeBytes(RomCode(tabled).value))
  {
    hide OpenSpec, PlaceFiles, Finalized, RomCode, CodeBytes, EncodeTable, Layout;
    var src := OpenSpec(rom).value;
    var t, o := src.dmaTable, src.dmaInfo.offset as nat;
    FirstEntries(rom);
    PlaceFilesImage(rom, t, yaz0, outSize);
    LayoutFits(rom, t, yaz0, outSize, 2);
    var placed := PlaceFiles(rom, t, yaz0, Zeros(outSize)).value;
    OverwriteInside(placed, o, EncodeTable(NewTable(t)));
    FinalizedIsPatched(WithTable(placed, src), t[0], t[0].vromEnd as nat);
  }

  lemma LayoutFits(rom: seq<uint8>, t: seq<DmaEntry>, yaz0: Decoder, outSize: nat, i: nat)
    requires Layout(rom, t, yaz0, outSize) && i < |t| && Live(t[i])
    ensures t[i].vromEnd as nat <= outSize
  {
    hide Live, Apart;
  }

  // ----- when a run succeeds

  ghost predicate AllContents(rom: seq<uint8>, t: seq<DmaEntry>, yaz0: Decoder) {
    forall i :: 0 <= i < |t| && Live(t[i]) ==> Content(rom, t[i], yaz0).Success?
  }

  /** The boot block is copied as it is, so that the image has the chip of the input. */
  lemma ChipKept(rom: seq<uint8>, yaz0: Decoder, outSize: nat)
    requires WellFormed(rom, yaz0, outSize)
    requires PlaceFiles(rom, OpenSpec(rom).value.dmaTable, yaz0, Zeros(outSize)).Success?
    ensures var src := OpenSpec(rom).value;
            var tabled := WithTable(PlaceFiles(rom, src.dmaTable, yaz0, Zeros(outSize)).value, src);
            && |tabled| == outSize && CIC_DETECT_END <= src.dmaTable[0].vromEnd as nat <= outSize
            && CicOf(tabled) == src.info.cic
  {
    hide OpenSpec, PlaceFiles, EncodeTable, Layout, Placed, CicForCrc32;
    var src := OpenSpec(rom).value;
    var t, o := src.dmaTable, src.dmaInfo.offset as nat;
    var placed := PlaceFiles(rom, t, yaz0, Zeros(outSize)).value;
    OpenedTable(rom);
    FirstEntries(rom);
    PlaceFilesImage(rom, t, yaz0, outSize);
    LayoutFits(rom, t, yaz0, outSize, 0);
    LayoutFits(rom, t, yaz0, outSize, 2);
    OverwriteInside(placed, o, EncodeTable(NewTable(t)));
    MakeromPlaced(rom, t, yaz0, placed, src.info);
    SpliceApart(placed, o, EncodeTable(NewTable(t)), CIC_DETECT_START, CIC_DETECT_END);
  }

  lemma MakeromPlaced(rom: seq<uint8>, t: seq<DmaEntry>, yaz0: Decoder, placed: seq<uint8>, info: RomInfo)
    requires |t| > 0 && Placed(rom, t, yaz0, placed) && Live(t[0]) && t[0].vromStart == 0
    requires NewEntry(t[0]) == t[0] && Makerom(t[0], t[0].vromEnd as nat) && InfoSpec(rom, t[0]) == Success(info)
    ensures CIC_DETECT_END <= t[0].vromEnd as nat <= |placed| && CicOf(placed) == info.cic
  {
    hide CicForCrc32, ParseInfo, Covered;
    var size := t[0].vromEnd as nat;
    assert HoldsFile(rom, t[0], yaz0, placed);
    MakeromInfo(rom, size);
    assert placed[0..size][CIC_DETECT_START..CIC_DETECT_END] == placed[CIC_DETECT_START..CIC_DETECT_END];
    assert rom[0..size][CIC_DETECT_START..CIC_DETECT_END] == rom[CIC_DETECT_START..CIC_DETECT_END];
  }

  /** A run succeeds exactly when every file can be read, the image is large enough and the chip is known. */
  lemma RunSucceeds(rom: seq<uint8>, yaz0: Decoder, outSize: nat)
    requires WellFormed(rom, yaz0, outSize)
    ensures Decompressed(rom, yaz0, outSize).Success? <==>
              && AllContents(rom, OpenSpec(rom).value.dmaTable, yaz0)
              && outSize >= CHECK_END
              && OpenSpec(rom).value.info.cic != CicUnknown
  {
    hide OpenSpec, PlaceFiles, Finalized, EncodeTable, Layout, Content, Live, RomCode, CicOf, NewEntry, Overwrite;
    var src := OpenSpec(rom).value;
    var t := src.dmaTable;
    var placing := PlaceFiles(rom, t, yaz0, Zeros(outSize));
    FirstEntries(rom);
    if AllContents(rom, t, yaz0) {
      PlaceFilesSucceeds(rom, t, yaz0, Zeros(outSize));
    }
    if placing.Success? {
      PlacedContents(rom, t, yaz0, outSize);
      ChipKept(rom, yaz0, outSize);
      var tabled := WithTable(placing.value, src);
      FinalizedIsPatched(tabled, t[0], t[0].vromEnd as nat);
      if |tabled| >= CHECK_END {
        KnownCode(tabled);
      }
    }
  }

  lemma KnownCode(rom: seq<uint8>)
    requires |rom| >= CHECK_END
    ensures RomCode(rom).Some? <==> CicOf(rom) != CicUnknown
  {
    hide CicOf, CheckCodeOf;
  }

  lemma PlacedContents(rom: seq<uint8>, t: seq<DmaEntry>, yaz0: Decoder, outSize: nat)
    requires Layout(rom, t, yaz0, outSize) && PlaceFiles(rom, t, yaz0, Zeros(outSize)).Success?
    ensures AllContents(rom, t, yaz0)
  {
    hide PlaceFiles, Live, Content, Fits, Apart, Covered;
    PlaceFilesImage(rom, t, yaz0, outSize);
    forall i | 0 <= i < |t| && Live(t[i])
      ensures Content(rom, t[i], yaz0).Success?
    {
      assert HoldsFile(rom, t[i], yaz0, PlaceFiles(rom, t, yaz0, Zeros(outSize)).value);
    }
  }

  /** What a successful run writes, byte by byte. */
  lemma DecompressedImage(rom: seq<uint8>, yaz0: Decoder, outSize: nat)
    requires WellFormed(rom, yaz0, outSize) && Decompressed(rom, yaz0, outSize).Success?
    ensures var src := OpenSpec(rom).value;
            var image := Decompressed(rom, yaz0, outSize).value;
            && |image| == outSize >= CHECK_END
            && IsImage(rom, src.dmaTable, src.dmaInfo.offset as nat, yaz0, image)
  {
    hide OpenSpec, PlaceFiles, Finalized, RomCode, CodeBytes, EncodeTable, Layout, Content, Live, StoredCode;
    hide Splice, Placed;
    RunSteps(rom, yaz0, outSize);
    FirstEntries(rom);
    var src := OpenSpec(rom).value;
    var t, o := src.dmaTable, src.dmaInfo.offset as nat;
    PlaceFilesImage(rom, t, yaz0, outSize);
    var placed := PlaceFiles(rom, t, yaz0, Zeros(outSize)).value;
    var table := EncodeTable(NewTable(t));
    var tabled := Splice(placed, o, table);
    FinalizedIsConsistent(tabled, t[0], t[0].vromEnd as nat);
    var image := Decompressed(rom, yaz0, outSize).value;
    var code := CodeBytes(RomCode(tabled).value);
    SpliceInside(placed, o, table);
    SpliceApart(tabled, OFFSET_CHECK_CODE, code, o, o + ENTRY_SIZE * |t|);
    SplicedImage(rom, t, o, yaz0, placed, table, code);
  }

  /** Bytes apart from table and check code are those of the placed files. */
  lemma SplicedImage(
    rom: seq<uint8>, t: seq<DmaEntry>, o: nat, yaz0: Decoder, placed: seq<uint8>, table: seq<uint8>, code: seq<uint8>)
    requires |t| >= 3 && |table| == ENTRY_SIZE * |t| && |code| == 8 && CHECK_END <= |placed| && o + |table| <= |placed|
    requires Placed(rom, t, yaz0, placed) && Live(t[0]) && Live(t[2])
    requires t[2].vromStart as nat == o && t[2].vromEnd as nat == o + ENTRY_SIZE * |t|
    requires t[0].vromStart == 0 && CIC_DETECT_END <= t[0].vromEnd as nat
    ensures var image := Splice(Splice(placed, o, table), OFFSET_CHECK_CODE, code);
            && (forall i, p: nat :: 0 <= i < |t| && Live(t[i]) && InRange(t[i], p) ==>
                  HasByte(rom, t[i], o, |t|, yaz0, image, p))
            && (forall p: nat :: p < |image| && !Covered(t, p) ==> image[p] == 0)
  {
    hide Content, Live;
    var image := Splice(Splice(placed, o, table), OFFSET_CHECK_CODE, code);
    assert forall p: nat :: p < |image| && !InCheckCode(p) && !(o <= p < o + |table|) ==> image[p] == placed[p];
    forall i, p: nat | 0 <= i < |t| && Live(t[i]) && InRange(t[i], p)
      ensures HasByte(rom, t[i], o, |t|, yaz0, image, p)
    {
      assert HoldsFile(rom, t[i], yaz0, placed);
      var data := placed[t[i].vromStart as nat..t[i].vromEnd as nat];
      assert data[p - t[i].vromStart as nat] == placed[p];
    }
    forall p: nat | p < |image| && !Covered(t, p)
      ensures image[p] == 0
    {
      assert !InRange(t[0], p) && !InRange(t[2], p);
    }
  }

  /** f describes the file of e as it lies in an image: uncompressed, at its virtual address. */
  predicate LiesAtVrom(e: DmaEntry, f: DmaEntry) {
    && Kind(f) == Uncompressed && f.vromStart == e.vromStart && f.vromEnd == e.vromEnd
    && (e.vromStart <= e.vromEnd ==> Extent(f) == Success(Range(e.vromStart, e.vromEnd - e.vromStart)))
  }

  lemma MovedEntry(e: DmaEntry)
    requires Live(e)
    ensures LiesAtVrom(e, NewEntry(e))
  {}

  lemma KeptEntry(e: DmaEntry)
    requires !Live(e)
    ensures NewEntry(e) == e
  {}

  lemma NoFile(e: DmaEntry)
    ensures e.vromStart == e.vromEnd || e.romEnd == UINT32_MAX ==> !Live(e)
  {}

  lemma DecodeWritten(image: seq<uint8>, o: nat, u: seq<DmaEntry>)
    requires o + ENTRY_SIZE * |u| <= |image| && image[o..o + ENTRY_SIZE * |u|] == EncodeTable(u)
    ensures DecodeTable(image[o..], |u|) == u
  {
    hide EncodeTable, DecodeTable;
    DecodeEncode(u);
    var n := ENTRY_SIZE * |u|;
    assert image[o..][..n] == image[o..o + n];
    DecodePrefix(image[o..], n, |u|);
  }

  /** Reading the image's table back: every file lies uncompressed at its virtual address. */
  lemma ImageTable(rom: seq<uint8>, t: seq<DmaEntry>, o: nat, yaz0: Decoder, image: seq<uint8>)
    requires |image| >= CHECK_END && IsImage(rom, t, o, yaz0, image)
    ensures o + ENTRY_SIZE * |t| <= |image| && DecodeTable(image[o..], |t|) == NewTable(t)
    ensures forall i :: 0 <= i < |t| && Live(t[i]) ==> LiesAtVrom(t[i], DecodeTable(image[o..], |t|)[i])
    ensures forall i :: 0 <= i < |t| && (t[i].vromStart == t[i].vromEnd || t[i].romEnd == UINT32_MAX) ==>
              DecodeTable(image[o..], |t|)[i] == t[i]
  {
    hide EncodeTable, DecodeTable, RomCode, StoredCode, HasByte, Covered, Live, NewEntry, LiesAtVrom;
    DecodeWritten(image, o, NewTable(t));
    hide IsImage;
    forall i | 0 <= i < |t|
      ensures Live(t[i]) ==> LiesAtVrom(t[i], NewTable(t)[i])
      ensures t[i].vromStart == t[i].vromEnd || t[i].romEnd == UINT32_MAX ==> NewTable(t)[i] == t[i]
    {
      if Live(t[i]) {
        MovedEntry(t[i]);
      } else {
        KeptEntry(t[i]);
      }
      NoFile(t[i]);
    }
  }

  /** The conditions leave no freedom: there is only one such image of a given size. */
  lemma ImageUnique(rom: seq<uint8>, t: seq<DmaEntry>, o: nat, yaz0: Decoder, x: seq<uint8>, y: seq<uint8>)
    requires |x| == |y| >= CHECK_END && IsImage(rom, t, o, yaz0, x) && IsImage(rom, t, o, yaz0, y)
    ensures x == y
  {
    hide EncodeTable, RomCode, StoredCode, Live, Content, CodeBytes;
    forall p: nat | p < |x| && !InCheckCode(p)
      ensures x[p] == y[p]
    {
      SameByte(rom, t, o, yaz0, x, y, p);
    }
    assert x[HEADER_SIZE..CHECK_END] == y[HEADER_SIZE..CHECK_END];
    RomCodeDependsOn(x, y);
    CodeRoundTrip(x);
    CodeRoundTrip(y);
    var l, h := OFFSET_CHECK_CODE, OFFSET_CHECK_CODE + 8;
    assert x == x[..l] + x[l..h] + x[h..] && y == y[..l] + y[l..h] + y[h..];
  }

  lemma SameByte(rom: seq<uint8>, t: seq<DmaEntry>, o: nat, yaz0: Decoder, x: seq<uint8>, y: seq<uint8>, p: nat)
    requires |x| == |y| >= CHECK_END && IsImage(rom, t, o, yaz0, x) && IsImage(rom, t, o, yaz0, y)
    requires p < |x| && !InCheckCode(p)
    ensures x[p] == y[p]
  {
    hide EncodeTable, RomCode, StoredCode, Live, Content;
    var n := ENTRY_SIZE * |t|;
    if o <= p < o + n {
      assert x[o..o + n][p - o] == x[p] && y[o..o + n][p - o] == y[p];
    } else if Covered(t, p) {
      var i :| 0 <= i < |t| && Live(t[i]) && InRange(t[i], p);
      assert HasByte(rom, t[i], o, |t|, yaz0, x, p) && HasByte(rom, t[i], o, |t|, yaz0, y, p);
    }
  }

  // ----- running on the output of a run

  lemma ChainFitsElsewhere(e0: DmaEntry, e1: DmaEntry, e2: DmaEntry, o: nat, romSize: nat, size: nat)
    requires Signature(e0, e1, e2, o, romSize) && e2.vromEnd as nat <= size
    ensures Signature(e0, e1, e2, o, size)
  {
    var a: nat, b: nat, c: nat :| Chain(e0, e1, e2, o, romSize, a, b, c);
    assert Chain(e0, e1, e2, o, size, a, b, c);
  }

  /** The table of the output describes itself, at the same place and with the same size. */
  lemma OutputTable(rom: seq<uint8>, yaz0: Decoder, outSize: nat)
    requires WellFormed(rom, yaz0, outSize) && Decompressed(rom, yaz0, outSize).Success?
    ensures var src := OpenSpec(rom).value;
            var o := src.dmaInfo.offset as nat;
            var image := Decompressed(rom, yaz0, outSize).value;
            && DmadataAt(image, o) && InfoAt(image, o) == src.dmaInfo
            && o + ENTRY_SIZE * |src.dmaTable| <= |image|
            && DecodeTable(image[o..], |src.dmaTable|) == NewTable(src.dmaTable)
  {
    hide OpenSpec, Decompressed, ReadEntry, DecodeTable, Layout, Signature, Live, NewEntry, IsImage;
    var src := OpenSpec(rom).value;
    var t, o := src.dmaTable, src.dmaInfo.offset as nat;
    var image := Decompressed(rom, yaz0, outSize).value;
    OpenedTable(rom);
    FirstEntries(rom);
    DecompressedImage(rom, yaz0, outSize);
    TableInside(rom, t, o, yaz0, image);
    ImageTable(rom, t, o, yaz0, image);
    DecodeAt(image[o..], |t|, 0);
    DecodeAt(image[o..], |t|, 1);
    DecodeAt(image[o..], |t|, 2);
    ReadEntries(image, o);
    LayoutFits(rom, t, yaz0, outSize, 2);
    ChainFitsElsewhere(t[0], t[1], t[2], o, |rom|, |image|);
  }

  lemma TableInside(rom: seq<uint8>, t: seq<DmaEntry>, o: nat, yaz0: Decoder, image: seq<uint8>)
    requires |image| >= CHECK_END && IsImage(rom, t, o, yaz0, image)
    ensures o + ENTRY_SIZE * |t| <= |image|
  {}

  /** A run that succeeds, and whose output has no table before the new one, which lies in a whole block. */
  ghost predicate Repeatable(rom: seq<uint8>, yaz0: Decoder, outSize: nat) {
    && WellFormed(rom, yaz0, outSize)
    && Decompressed(rom, yaz0, outSize).Success?
    && var o := OpenSpec(rom).value.dmaInfo.offset as nat;
    && NoTableBelow(Decompressed(rom, yaz0, outSize).value, o)
    && InWholeBlock(Decompressed(rom, yaz0, outSize).value, o)
  }

  /** Opening the output finds the new table. */
  lemma OutputOpens(rom: seq<uint8>, yaz0: Decoder, outSize: nat)
    requires Repeatable(rom, yaz0, outSize)
    ensures var src := OpenSpec(rom).value;
            var again := OpenSpec(Decompressed(rom, yaz0, outSize).value);
            again.Success? && again.value.dmaInfo == src.dmaInfo && again.value.dmaTable == NewTable(src.dmaTable)
  {
    hide Decompressed, DmadataAt, InfoAt, Slot, Layout, DecodeTable, Live, ParseInfo, BlockTable, InWholeBlock;
    var src := OpenSpec(rom).value;
    var t, o := src.dmaTable, src.dmaInfo.offset as nat;
    var image := Decompressed(rom, yaz0, outSize).value;
    OutputTable(rom, yaz0, outSize);
    OpenedTable(rom);
    RunSteps(rom, yaz0, outSize);
    FirstEntries(rom);
    assert LeastTable(image, o);
    LeastTableUnique(image, o, TableOffset(image).value);
    BlockSearchRefines(image);
    assert NewTable(t)[0] == t[0];
  }

  /** It finds that table under no other conditions. */
  lemma OnlyRepeatable(rom: seq<uint8>, yaz0: Decoder, outSize: nat)
    requires WellFormed(rom, yaz0, outSize) && Decompressed(rom, yaz0, outSize).Success?
    ensures var again := OpenSpec(Decompressed(rom, yaz0, outSize).value);
            Repeatable(rom, yaz0, outSize) <==> again.Success? && again.value.dmaInfo == OpenSpec(rom).value.dmaInfo
  {
    hide OpenSpec, Decompressed, PlaceFiles, Finalized, RomCode, EncodeTable, NoTableBelow, Layout, CodeBytes, NewTable;
    var image := Decompressed(rom, yaz0, outSize).value;
    RunSteps(rom, yaz0, outSize);
    if Repeatable(rom, yaz0, outSize) {
      OutputOpens(rom, yaz0, outSize);
    } else if OpenSpec(image).Success? {
      OpenedBlock(image);
    }
  }

  lemma OpenedBlock(rom: seq<uint8>)
    requires OpenSpec(rom).Success?
    ensures var o := OpenSpec(rom).value.dmaInfo.offset as nat;
            NoTableBelow(rom, o) && InWholeBlock(rom, o)
  {
    hide OpenSpec, DmadataAt, Slot, BlockTable, InWholeBlock;
    OpenedTable(rom);
    BlockSearchRefines(rom);
    var o := OpenSpec(rom).value.dmaInfo.offset as nat;
    LeastTableUnique(rom, o, TableOffset(rom).value);
  }

  // ----- which inputs have such an output

  lemma StoredInPlace(rom: seq<uint8>, e: DmaEntry, yaz0: Decoder)
    requires Live(e) && InPlace(e) && Content(rom, e, yaz0).Success?
    ensures e.vromStart <= e.vromEnd && e.vromEnd as nat <= |rom|
    ensures Content(rom, e, yaz0).value == rom[e.vromStart as nat..e.vromEnd as nat]
  {}

  /** Below its table the image is the input, but for the check code. */
  lemma BootPartKept(rom: seq<uint8>, yaz0: Decoder, outSize: nat, p: nat)
    requires WellFormed(rom, yaz0, outSize) && Decompressed(rom, yaz0, outSize).Success?
    requires p < OpenSpec(rom).value.dmaInfo.offset as nat && !InCheckCode(p)
    ensures p < |rom| && p < |Decompressed(rom, yaz0, outSize).value|
    ensures Decompressed(rom, yaz0, outSize).value[p] == rom[p]
  {
    hide OpenSpec, Decompressed, EncodeTable, RomCode, StoredCode, Live, Content, Layout, Covered;
    DecompressedImage(rom, yaz0, outSize);
    FirstEntries(rom);
    var t := OpenSpec(rom).value.dmaTable;
    var i := if p < t[0].vromEnd as nat then 0 else 1;
    assert Live(t[i]) by {
      LiveInPlace(t[i], p);
    }
    var o, image := OpenSpec(rom).value.dmaInfo.offset as nat, Decompressed(rom, yaz0, outSize).value;
    assert HasByte(rom, t[i], o, |t|, yaz0, image, p);
    StoredInPlace(rom, t[i], yaz0);
  }

  lemma LiveInPlace(e: DmaEntry, p: nat)
    requires InPlace(e) && InRange(e, p)
    ensures Live(e)
  {}

  /** So are the entries up to the table's second, but for the one in which the check code lies. */
  lemma EntryKept(rom: seq<uint8>, yaz0: Decoder, outSize: nat, q: nat)
    requires WellFormed(rom, yaz0, outSize) && Decompressed(rom, yaz0, outSize).Success?
    requires Slot(0, q) && q <= OpenSpec(rom).value.dmaInfo.offset as nat + ENTRY_SIZE && q != OFFSET_CHECK_CODE
    ensures q + ENTRY_SIZE <= |rom| && q + ENTRY_SIZE <= |Decompressed(rom, yaz0, outSize).value|
    ensures ReadEntry(Decompressed(rom, yaz0, outSize).value, q) == ReadEntry(rom, q)
  {
    hide OpenSpec, Decompressed, DecodeTable, ReadEntry, DmadataAt, InfoAt, Layout, Live, NewEntry, LeastTable;
    var src, image := OpenSpec(rom).value, Decompressed(rom, yaz0, outSize).value;
    var t, o := src.dmaTable, src.dmaInfo.offset as nat;
    OpenedTable(rom);
    FirstEntries(rom);
    OutputTable(rom, yaz0, outSize);
    SlotBelow(rom, o, q);
    if q < o {
      hide OpenSpec, WellFormed;
      forall p: nat | q <= p < q + ENTRY_SIZE
        ensures image[p] == rom[p]
      {
        BootPartKept(rom, yaz0, outSize, p);
      }
      SameEntry(image, rom, q);
    } else {
      DecodeAt(image[o..], |t|, (q - o) / ENTRY_SIZE);
      ReadEntries(image, o);
    }
  }

  lemma SameEntry(x: seq<uint8>, y: seq<uint8>, q: nat)
    requires q + ENTRY_SIZE <= |x| && q + ENTRY_SIZE <= |y|
    requires forall p: nat :: q <= p < q + ENTRY_SIZE ==> x[p] == y[p]
    ensures ReadEntry(x, q) == ReadEntry(y, q)
  {
    hide ReadEntry;
    assert x[q..q + ENTRY_SIZE] == y[q..q + ENTRY_SIZE];
    EntrySlice(x, q, q + ENTRY_SIZE, 0);
    EntrySlice(y, q, q + ENTRY_SIZE, 0);
  }

  lemma SlotBelow(rom: seq<uint8>, o: nat, q: nat)
    requires LeastTable(rom, o) && Slot(0, q) && q <= o + ENTRY_SIZE && q != OFFSET_CHECK_CODE
    ensures q < o ==> q + ENTRY_SIZE <= o && forall p: nat :: q <= p < q + ENTRY_SIZE ==> !InCheckCode(p)
    ensures q >= o ==> q == o || q == o + ENTRY_SIZE
  {
    hide DmadataAt;
  }

  /** The entries at p of rom would make a table in a ROM of n bytes. */
  ghost predicate TableIfSized(rom: seq<uint8>, p: nat, n: nat) {
    && p + 3 * ENTRY_SIZE <= |rom|
    && Signature(ReadEntry(rom, p), ReadEntry(rom, p + ENTRY_SIZE), ReadEntry(rom, p + 2 * ENTRY_SIZE), p, n)
  }

  /**
   What follows the check code in rom would make a table there, in a ROM of n bytes, if the check
   code were MAKEROM's end in the second entry.
   */
  ghost predicate TableBehindCode(rom: seq<uint8>, n: nat) {
    && |rom| >= HEADER_SIZE
    && Signature(DmaEntry(0, ReadU32(rom, 0x20), ReadU32(rom, 0x18), ReadU32(rom, 0x1C)),
                 ReadEntry(rom, 0x20), ReadEntry(rom, 0x30), OFFSET_CHECK_CODE, n)
  }

  /** With this check code there is a table where the check code lies. */
  ghost predicate CodeTable(rom: seq<uint8>, code: uint64, n: nat) {
    TableBehindCode(rom, n) && code as nat == ReadU32(rom, 0x20) as nat
  }

  /** Where the output has tables before its own, read off the input and, at one position, the new check code. */
  lemma EarlierTable(rom: seq<uint8>, yaz0: Decoder, outSize: nat, p: nat)
    requires WellFormed(rom, yaz0, outSize) && Decompressed(rom, yaz0, outSize).Success?
    requires Slot(0, p) && p < OpenSpec(rom).value.dmaInfo.offset as nat
    ensures var image := Decompressed(rom, yaz0, outSize).value;
            |image| >= HEADER_SIZE &&
            (DmadataAt(image, p) <==>
               if p == OFFSET_CHECK_CODE then CodeTable(rom, StoredCode(image), outSize)
               else TableIfSized(rom, p, outSize))
  {
    hide OpenSpec, Decompressed, Signature, StoredCode, TableIfSized, CodeTable, WellFormed, ReadEntry, DmadataAt;
    var image := Decompressed(rom, yaz0, outSize).value;
    CodeEntryKept(rom, yaz0, outSize);
    if p == 0 {
      NotAtZero(image, image, outSize);
      NotAtZero(rom, image, outSize);
    } else if p == OFFSET_CHECK_CODE {
      CodeAsTable(rom, image);
    } else {
      EntriesKept(rom, yaz0, outSize, p);
      SameSignature(rom, image, p);
    }
  }

  lemma EntriesKept(rom: seq<uint8>, yaz0: Decoder, outSize: nat, p: nat)
    requires WellFormed(rom, yaz0, outSize) && Decompressed(rom, yaz0, outSize).Success?
    requires Slot(0, p) && 0 < p < OpenSpec(rom).value.dmaInfo.offset as nat && p != OFFSET_CHECK_CODE
    ensures var image := Decompressed(rom, yaz0, outSize).value;
            && p + 3 * ENTRY_SIZE <= |rom| && p + 3 * ENTRY_SIZE <= |image|
            && ReadEntry(image, p) == ReadEntry(rom, p)
            && ReadEntry(image, p + ENTRY_SIZE) == ReadEntry(rom, p + ENTRY_SIZE)
            && ReadEntry(image, p + 2 * ENTRY_SIZE) == ReadEntry(rom, p + 2 * ENTRY_SIZE)
  {
    hide OpenSpec, Decompressed, Layout, ReadEntry, DmadataAt;
    OpenedSlot(rom);
    SlotsAfter(OpenSpec(rom).value.dmaInfo.offset as nat, p);
    EntryKept(rom, yaz0, outSize, p);
    EntryKept(rom, yaz0, outSize, p + ENTRY_SIZE);
    EntryKept(rom, yaz0, outSize, p + 2 * ENTRY_SIZE);
  }

  lemma OpenedSlot(rom: seq<uint8>)
    requires OpenSpec(rom).Success?
    ensures Slot(0, OpenSpec(rom).value.dmaInfo.offset as nat)
  {
    hide OpenSpec, ReadEntry, DmadataAt;
    OpenedTable(rom);
  }

  /** The rest of the header, and what the entries around it hold. */
  lemma CodeEntryKept(rom: seq<uint8>, yaz0: Decoder, outSize: nat)
    requires WellFormed(rom, yaz0, outSize) && Decompressed(rom, yaz0, outSize).Success?
    ensures var image := Decompressed(rom, yaz0, outSize).value;
            && HEADER_SIZE <= |rom| && HEADER_SIZE <= |image| == outSize
            && ReadEntry(image, 0x20) == ReadEntry(rom, 0x20) && ReadEntry(image, 0x30) == ReadEntry(rom, 0x30)
            && image[0x18..0x20] == rom[0x18..0x20]
  {
    hide OpenSpec, Decompressed, PlaceFiles, Finalized, EncodeTable, RomCode, CodeBytes, NewTable, ReadEntry;
    RunSteps(rom, yaz0, outSize);
    hide WellFormed;
    var image := Decompressed(rom, yaz0, outSize).value;
    EntryKept(rom, yaz0, outSize, 0x20);
    EntryKept(rom, yaz0, outSize, 0x30);
    forall p: nat | 0x18 <= p < 0x20
      ensures image[p] == rom[p]
    {
      BootPartKept(rom, yaz0, outSize, p);
    }
  }

  lemma SameSignature(rom: seq<uint8>, image: seq<uint8>, p: nat)
    requires p + 3 * ENTRY_SIZE <= |rom| && p + 3 * ENTRY_SIZE <= |image|
    requires ReadEntry(image, p) == ReadEntry(rom, p)
    requires ReadEntry(image, p + ENTRY_SIZE) == ReadEntry(rom, p + ENTRY_SIZE)
    requires ReadEntry(image, p + 2 * ENTRY_SIZE) == ReadEntry(rom, p + 2 * ENTRY_SIZE)
    ensures DmadataAt(image, p) <==> TableIfSized(rom, p, |image|)
  {
    hide ReadEntry, Signature;
  }

  lemma SlotsAfter(o: nat, p: nat)
    requires Slot(0, o) && Slot(0, p) && p < o && p > 0
    ensures Slot(0, p + ENTRY_SIZE) && Slot(0, p + 2 * ENTRY_SIZE) && p + ENTRY_SIZE <= o
    ensures p + ENTRY_SIZE != OFFSET_CHECK_CODE && p + 2 * ENTRY_SIZE != OFFSET_CHECK_CODE
  {}

  lemma NotAtZero(rom: seq<uint8>, image: seq<uint8>, n: nat)
    ensures !TableIfSized(rom, 0, n) && !DmadataAt(image, 0)
  {
    hide ReadEntry;
  }

  /** The entry that starts with the check code makes a table with that of TableBehindCode only. */
  lemma CodeAsTable(rom: seq<uint8>, image: seq<uint8>)
    requires |rom| >= HEADER_SIZE && |image| >= HEADER_SIZE && image[0x18..0x20] == rom[0x18..0x20]
    requires ReadEntry(image, 0x20) == ReadEntry(rom, 0x20) && ReadEntry(image, 0x30) == ReadEntry(rom, 0x30)
    ensures DmadataAt(image, OFFSET_CHECK_CODE) <==> CodeTable(rom, StoredCode(image), |image|)
  {
    hide ReadU32, Join, Signature;
    var code := StoredCode(image);
    ReadSlice(image, 0x18, 0x20, 0);
    ReadSlice(rom, 0x18, 0x20, 0);
    ReadSlice(image, 0x18, 0x20, 4);
    ReadSlice(rom, 0x18, 0x20, 4);
    JoinParts(ReadU32(image, 0x10), ReadU32(image, 0x14));
    SmallCode(code, ReadU32(rom, 0x20));
    var e0, e1, e2 := ReadEntry(image, 0x10), ReadEntry(image, 0x20), ReadEntry(image, 0x30);
    assert e0.vromStart == High(code) && e0.vromEnd == Low(code) && e1.vromStart == ReadU32(rom, 0x20);
    SignatureStarts(e0, e1, e2, OFFSET_CHECK_CODE, |image|);
  }

  lemma SignatureStarts(e0: DmaEntry, e1: DmaEntry, e2: DmaEntry, offset: nat, romSize: nat)
    ensures Signature(e0, e1, e2, offset, romSize) ==> e0.vromStart == 0 && e0.vromEnd == e1.vromStart
  {}

  lemma SmallCode(code: uint64, low: uint32)
    ensures code as nat == low as nat <==> High(code) == 0 && Low(code) == low
  {}

  /** In particular it does not if the title starts with a word above 16, as every printable title does. */
  lemma TitleHidesCode(rom: seq<uint8>, n: nat)
    requires |rom| >= HEADER_SIZE && ReadU32(rom, 0x20) > 0x10
    ensures !TableBehindCode(rom, n)
  {
    hide ReadU32;
  }

  ghost predicate NoTableIfSized(rom: seq<uint8>, o: nat, n: nat) {
    forall p: nat :: Slot(0, p) && p < o && p != OFFSET_CHECK_CODE ==> !TableIfSized(rom, p, n)
  }

  /**
   Whether the output can be run on again: nothing below the table would be one in a ROM of the
   output's size, the check code does not make one, and the table's first block is whole.
   */
  lemma InputsRepeat(rom: seq<uint8>, yaz0: Decoder, outSize: nat)
    requires WellFormed(rom, yaz0, outSize) && Decompressed(rom, yaz0, outSize).Success?
    ensures var o := OpenSpec(rom).value.dmaInfo.offset as nat;
            var image := Decompressed(rom, yaz0, outSize).value;
            && |image| == outSize >= HEADER_SIZE
            && (NoTableBelow(image, o) <==>
                  NoTableIfSized(rom, o, outSize) && !CodeTable(rom, StoredCode(image), outSize))
            && (Repeatable(rom, yaz0, outSize) <==>
                  && NoTableIfSized(rom, o, outSize) && !CodeTable(rom, StoredCode(image), outSize)
                  && (o / BLOCK_SIZE + 1) * BLOCK_SIZE <= outSize)
            && (outSize <= |rom| ==> NoTableIfSized(rom, o, outSize))
  {
    hide OpenSpec, Decompressed, DmadataAt, Layout, TableIfSized, StoredCode, Slot, CodeTable, PlaceFiles, Finalized;
    hide EncodeTable, RomCode, CodeBytes, NewTable;
    var image, o := Decompressed(rom, yaz0, outSize).value, OpenSpec(rom).value.dmaInfo.offset as nat;
    RunSteps(rom, yaz0, outSize);
    OpenedTable(rom);
    forall p: nat | Slot(0, p) && p < o
      ensures DmadataAt(image, p) <==>
        if p == OFFSET_CHECK_CODE then CodeTable(rom, StoredCode(image), outSize) else TableIfSized(rom, p, outSize)
      ensures outSize <= |rom| ==> !TableIfSized(rom, p, outSize)
    {
      EarlierTable(rom, yaz0, outSize, p);
      TableIfLarger(rom, p, outSize);
    }
    CodeSlot();
  }

  lemma CodeSlot()
    ensures Slot(0, OFFSET_CHECK_CODE)
  {}

  lemma TableIfLarger(rom: seq<uint8>, p: nat, n: nat)
    ensures n <= |rom| && TableIfSized(rom, p, n) ==> DmadataAt(rom, p)
  {
    hide ReadEntry;
    if n <= |rom| && TableIfSized(rom, p, n) {
      var e0, e1, e2 := ReadEntry(rom, p), ReadEntry(rom, p + ENTRY_SIZE), ReadEntry(rom, p + 2 * ENTRY_SIZE);
      var a: nat, b: nat, c: nat :| Chain(e0, e1, e2, p, n, a, b, c);
      assert Chain(e0, e1, e2, p, |rom|, a, b, c);
    }
  }

  lemma {:induction false} PlaceFilesSucceeds(rom: seq<uint8>, t: seq<DmaEntry>, yaz0: Decoder, image: seq<uint8>)
    requires forall i :: 0 <= i < |t| && Live(t[i]) ==> Content(rom, t[i], yaz0).Success?
    ensures PlaceFiles(rom, t, yaz0, image).Success?
    decreases |t|
  {
    hide Live, Content, Overwrite;
    if |t| > 0 {
      PlaceFilesSucceeds(rom, t[..|t| - 1], yaz0, image);
    }
  }

  /** A moved file is read where it was placed. */
  lemma MovedContent(image: seq<uint8>, e: DmaEntry, yaz0: Decoder)
    requires Live(e) && e.vromStart <= e.vromEnd && e.vromEnd as nat <= |image|
    ensures Live(NewEntry(e))
    ensures Content(image, NewEntry(e), yaz0) == Success(image[e.vromStart as nat..e.vromEnd as nat])
    ensures Fits(image, NewEntry(e), yaz0, |image|)
  {
    MovedEntry(e);
  }

  lemma NewEntryKeeps(e: DmaEntry)
    ensures NewEntry(e).vromStart == e.vromStart && NewEntry(e).vromEnd == e.vromEnd
    ensures Live(NewEntry(e)) <==> Live(e)
    ensures NewEntry(NewEntry(e)) == NewEntry(e)
  {}

  /** Every file has a proper range within the first n bytes. */
  ghost predicate FilesIn(t: seq<DmaEntry>, n: nat) {
    forall i :: 0 <= i < |t| && Live(t[i]) ==> t[i].vromStart <= t[i].vromEnd && t[i].vromEnd as nat <= n
  }

  /** The files of a laid-out image, placed from it, make it up again. */
  lemma PlacedAgain(t: seq<DmaEntry>, yaz0: Decoder, image: seq<uint8>)
    requires FilesIn(t, |image|)
    requires forall i, j :: 0 <= i < j < |t| && Live(t[i]) && Live(t[j]) ==> Apart(t[i], t[j])
    requires forall p: nat :: p < |image| && !Covered(t, p) ==> image[p] == 0
    ensures Layout(image, NewTable(t), yaz0, |image|)
    ensures PlaceFiles(image, NewTable(t), yaz0, Zeros(|image|)) == Success(image)
  {
    hide Live, Content, Fits, NewEntry, PlaceFiles;
    var u := NewTable(t);
    forall i | 0 <= i < |t| && Live(u[i])
      ensures Live(t[i]) && Content(image, u[i], yaz0) == Success(image[t[i].vromStart as nat..t[i].vromEnd as nat])
      ensures Fits(image, u[i], yaz0, |image|)
    {
      NewEntryKeeps(t[i]);
      MovedContent(image, t[i], yaz0);
    }
    forall i, j | 0 <= i < j < |u| && Live(u[i]) && Live(u[j])
      ensures Apart(u[i], u[j])
    {
      NewEntryKeeps(t[i]);
      NewEntryKeeps(t[j]);
    }
    PlaceFilesSucceeds(image, u, yaz0, Zeros(|image|));
    PlaceFilesImage(image, u, yaz0, |image|);
    var again := PlaceFiles(image, u, yaz0, Zeros(|image|)).value;
    forall p: nat | p < |image|
      ensures again[p] == image[p]
    {
      PlacedSame(t, yaz0, image, again, p);
    }
    assert again == image;
  }

  lemma PlacedSame(t: seq<DmaEntry>, yaz0: Decoder, image: seq<uint8>, again: seq<uint8>, p: nat)
    requires p < |image| == |again|
    requires FilesIn(t, |image|)
    requires forall p: nat :: p < |image| && !Covered(t, p) ==> image[p] == 0
    requires Placed(image, NewTable(t), yaz0, again)
    ensures again[p] == image[p]
  {
    hide Live, Content, Fits, NewEntry;
    var u := NewTable(t);
    if Covered(t, p) {
      var i :| 0 <= i < |t| && Live(t[i]) && InRange(t[i], p);
      NewEntryKeeps(t[i]);
      MovedContent(image, t[i], yaz0);
      assert HoldsFile(image, u[i], yaz0, again);
      var lo, hi := t[i].vromStart as nat, t[i].vromEnd as nat;
      assert again[lo..hi][p - lo] == again[p] && image[lo..hi][p - lo] == image[p];
    } else if Covered(u, p) {
      CoveredBefore(t, p);
    }
  }

  lemma CoveredBefore(t: seq<DmaEntry>, p: nat)
    ensures Covered(NewTable(t), p) ==> Covered(t, p)
  {
    hide Live, NewEntry;
    if Covered(NewTable(t), p) {
      var i :| 0 <= i < |t| && Live(NewTable(t)[i]) && InRange(NewTable(t)[i], p);
      NewEntryKeeps(t[i]);
    }
  }

  /** Running again on the output, with any decoder, reproduces it byte for byte. */
  lemma DecompressedTwice(rom: seq<uint8>, yaz0: Decoder, yaz0': Decoder, outSize: nat)
    requires Repeatable(rom, yaz0, outSize)
    ensures Decompressed(Decompressed(rom, yaz0, outSize).value, yaz0', outSize) == Decompressed(rom, yaz0, outSize)
  {
    hide OpenSpec, PlaceFiles, Finalized, EncodeTable, Live, NewEntry, NoTableBelow, Fits, Decompressed, Layout;
    var src, image := OpenSpec(rom).value, Decompressed(rom, yaz0, outSize).value;
    var t := src.dmaTable;
    FirstEntries(rom);
    OutputOpens(rom, yaz0, outSize);
    OutputPlaced(rom, yaz0, yaz0', outSize);
    OutputFinal(rom, yaz0, outSize);
    NewTableTwice(t);
    NewEntryKeeps(t[0]);
    var again := OpenSpec(image).value;
    assert again.dmaTable[0] == t[0];
    RunOf(image, yaz0', outSize, again, image);
  }

  /** Placing the files of the output makes up the output. */
  lemma OutputPlaced(rom: seq<uint8>, yaz0: Decoder, yaz0': Decoder, outSize: nat)
    requires WellFormed(rom, yaz0, outSize) && Decompressed(rom, yaz0, outSize).Success?
    ensures var image := Decompressed(rom, yaz0, outSize).value;
            PlaceFiles(image, NewTable(OpenSpec(rom).value.dmaTable), yaz0', Zeros(outSize)) == Success(image)
  {
    hide OpenSpec, PlaceFiles, Decompressed, RomCode, EncodeTable, Live, NewEntry, HasByte, Fits, StoredCode, Covered;
    DecompressedImage(rom, yaz0, outSize);
    FilesInside(rom, yaz0, outSize);
    PlacedAgain(OpenSpec(rom).value.dmaTable, yaz0', Decompressed(rom, yaz0, outSize).value);
  }

  /** The output holds its own table and its own check code already. */
  lemma OutputFinal(rom: seq<uint8>, yaz0: Decoder, outSize: nat)
    requires WellFormed(rom, yaz0, outSize) && Decompressed(rom, yaz0, outSize).Success?
    ensures var src := OpenSpec(rom).value;
            var image := Decompressed(rom, yaz0, outSize).value;
            && Overwrite(image, src.dmaInfo.offset as nat, EncodeTable(NewTable(src.dmaTable))) == image
            && Finalized(image, src.dmaTable[0]) == Success(image)
  {
    hide OpenSpec, EncodeTable, Decompressed, Layout, HasByte, Finalized, RomCode, StoredCode, Covered, Overwrite;
    var src := OpenSpec(rom).value;
    var t, o := src.dmaTable, src.dmaInfo.offset as nat;
    var image, table := Decompressed(rom, yaz0, outSize).value, EncodeTable(NewTable(t));
    DecompressedImage(rom, yaz0, outSize);
    OverwriteInside(image, o, table);
    SpliceSame(image, o, table);
    OutputFinalizes(rom, yaz0, outSize);
  }

  lemma OutputFinalizes(rom: seq<uint8>, yaz0: Decoder, outSize: nat)
    requires WellFormed(rom, yaz0, outSize) && Decompressed(rom, yaz0, outSize).Success?
    ensures var image := Decompressed(rom, yaz0, outSize).value;
            Finalized(image, OpenSpec(rom).value.dmaTable[0]) == Success(image)
  {
    hide OpenSpec, PlaceFiles, Finalized, RomCode, CodeBytes, EncodeTable, NewEntry, Decompressed, Layout, Splice;
    var src := OpenSpec(rom).value;
    var t, o := src.dmaTable, src.dmaInfo.offset as nat;
    FirstEntries(rom);
    RunSteps(rom, yaz0, outSize);
    var placed := PlaceFiles(rom, t, yaz0, Zeros(outSize)).value;
    FinalizedIsConsistent(Splice(placed, o, EncodeTable(NewTable(t))), t[0], t[0].vromEnd as nat);
  }

  lemma SpliceSame<T>(s: seq<T>, at: nat, piece: seq<T>)
    requires at + |piece| <= |s| && s[at..at + |piece|] == piece
    ensures Splice(s, at, piece) == s
  {}

  lemma RunOf(rom: seq<uint8>, yaz0: Decoder, outSize: nat, src: Opened, placed: seq<uint8>)
    requires OpenSpec(rom) == Success(src) && |src.dmaTable| > 0
    requires PlaceFiles(rom, src.dmaTable, yaz0, Zeros(outSize)) == Success(placed)
    ensures Decompressed(rom, yaz0, outSize) == Finalized(WithTable(placed, src), NewEntry(src.dmaTable[0]))
  {
    hide OpenSpec, PlaceFiles, Finalized, WithTable, NewEntry;
  }

  lemma NewTableTwice(t: seq<DmaEntry>)
    ensures NewTable(NewTable(t)) == NewTable(t)
  {
    hide Live, NewEntry;
    forall i | 0 <= i < |t|
      ensures NewTable(NewTable(t))[i] == NewTable(t)[i]
    {
      NewEntryKeeps(t[i]);
    }
  }

  /** Every file of a run that succeeds has a proper range inside the image. */
  lemma FilesInside(rom: seq<uint8>, yaz0: Decoder, outSize: nat)
    requires WellFormed(rom, yaz0, outSize) && Decompressed(rom, yaz0, outSize).Success?
    ensures FilesIn(OpenSpec(rom).value.dmaTable, outSize)
  {
    hide OpenSpec, PlaceFiles, Finalized, Live, Content, Fits, Apart, RomCode;
    var t := OpenSpec(rom).value.dmaTable;
    RunSteps(rom, yaz0, outSize);
    PlaceFilesImage(rom, t, yaz0, outSize);
    forall i | 0 <= i < |t| && Live(t[i])
      ensures t[i].vromStart <= t[i].vromEnd && t[i].vromEnd as nat <= outSize
    {
      assert HoldsFile(rom, t[i], yaz0, PlaceFiles(rom, t, yaz0, Zeros(outSize)).value);
    }
  }

  /**
   At the program's own image size, all that is asked is that nothing below the input's table would
   be a table in an image of that size, and that what follows the check code would not be.
   */
  lemma DecompressedTwiceFullSize(rom: seq<uint8>, yaz0: Decoder, yaz0': Decoder)
    requires WellFormed(rom, yaz0, 0x400_0000) && Decompressed(rom, yaz0, 0x400_0000).Success?
    requires NoTableIfSized(rom, OpenSpec(rom).value.dmaInfo.offset as nat, 0x400_0000)
    requires !TableBehindCode(rom, 0x400_0000)
    ensures var once := Decompressed(rom, yaz0, 0x400_0000);
            Decompressed(once.value, yaz0', 0x400_0000) == once
  {
    hide OpenSpec, Decompressed, NoTableBelow, Layout, Finalized, PlaceFiles, RomCode, EncodeTable, NoTableIfSized;
    hide StoredCode, TableBehindCode, Repeatable, NewTable, CodeBytes;
    var o := OpenSpec(rom).value.dmaInfo.offset as nat;
    RunSteps(rom, yaz0, DECOMPRESSED_SIZE);
    InputsRepeat(rom, yaz0, DECOMPRESSED_SIZE);
    assert o < DECOMPRESSED_SIZE && DECOMPRESSED_SIZE % BLOCK_SIZE == 0;
    DecompressedTwice(rom, yaz0, yaz0', DECOMPRESSED_SIZE);
  }
}
