/** ROM files, as utils/rom.c works on them: a file, its table and its header information. */
module RomFile {
  import opened Bytes
  import opened Status
  import opened Files
  import opened CheckCode
  import opened CheckCodeTheorems
  import opened RomLib
  import opened Dma
  import opened DmaTheorems

  const BLOCK_SIZE: nat := 1024

  /** How many table entries are read or written at a time. */
  const CHUNK_COUNT: nat := 128

  /** The Yaz0 decoder: the bytes that a compressed file expands to, unless it is damaged. */
  type Decoder = seq<uint8> -> Option<seq<uint8>>

  // ----- what the operations compute, as functions of the bytes of the files

  /** The first table at one of the positions o, o + 16, .. before end. */
  ghost function ScanSlots(rom: seq<uint8>, o: nat, end: nat): Option<nat>
    decreases end - o
  {
    if o >= end then None else if DmadataAt(rom, o) then Some(o) else ScanSlots(rom, o + ENTRY_SIZE, end)
  }

  /** Block after block is scanned, until a table is found or a block is not all there. */
  ghost function SearchBlocks(rom: seq<uint8>, offset: nat): Option<nat>
    decreases |rom| - offset
  {
    if offset + BLOCK_SIZE > |rom| then None
    else
      match ScanSlots(rom, offset, offset + BLOCK_SIZE)
      case Some(o) => Some(o)
      case None => SearchBlocks(rom, offset + BLOCK_SIZE)
  }

  /** The table of a ROM, as a search block by block sees it. */
  ghost function BlockTable(rom: seq<uint8>): (r: Option<nat>)
    ensures r.Some? ==> LeastTable(rom, r.value)
  {
    NothingBelowZero(rom);
    SearchBlocksFinds(rom, 0);
    SearchBlocks(rom, 0)
  }

  /** The block in which o lies is all there. */
  predicate InWholeBlock(rom: seq<uint8>, o: nat) {
    (o / BLOCK_SIZE + 1) * BLOCK_SIZE <= |rom|
  }

  /** The information in MAKEROM, which entry e0 describes. */
  function InfoSpec(rom: seq<uint8>, e0: DmaEntry): (r: Result<RomInfo>)
    ensures r.Success? ==> r.value.header.Sized()
  {
    match Extent(e0)
    case Failure(error) => Failure(error)
    case Success(r) =>
      var offset, size := r.offset as nat, r.size as nat;
      if size == 0 || offset + size > |rom| then Failure(IoError)
      else if size < CIC_DETECT_END then Failure(OutOfRange)
      else Success(ParseInfo(rom[offset..offset + size]))
  }

  /** The bytes of an uncompressed file. */
  function StoredBytes(rom: seq<uint8>, e: DmaEntry): Result<seq<uint8>> {
    match Extent(e)
    case Failure(error) => Failure(error)
    case Success(r) =>
      var offset, size := r.offset as nat, r.size as nat;
      if size == 0 then Success([])
      else if offset + size > |rom| then Failure(IoError)
      else Success(rom[offset..offset + size])
  }

  /** The bytes that a compressed file expands to. */
  function ExpandedBytes(rom: seq<uint8>, e: DmaEntry, yaz0: Decoder): Result<seq<uint8>> {
    match Extent(e)
    case Failure(error) => Failure(error)
    case Success(r) =>
      match yaz0(Available(rom, r.offset as nat, r.size as nat))
      case None => Failure(DecompressionError)
      case Some(data) => Success(data)
  }

  /** The entry of a file that lies uncompressed at its virtual address. */
  function Moved(e: DmaEntry): DmaEntry {
    DmaEntry(e.vromStart, e.vromEnd, e.vromStart, 0)
  }

  /** MAKEROM's information with the check code of the file. */
  function CheckedInfo(rom: seq<uint8>, e0: DmaEntry): (r: Result<RomInfo>)
    ensures r.Success? ==> r.value.header.Sized()
  {
    match InfoSpec(rom, e0)
    case Failure(error) => Failure(error)
    case Success(info) =>
      if |rom| < CIC_DETECT_END then Failure(IoError)
      else if Seed(info.cic) == 0 then Failure(InvalidParameter)
      else if |rom| < CHECK_END then Failure(IoError)
      else
        var code := CheckCodeOf(info.cic, IplOf(rom), WordsOf(rom[CHECK_START..CHECK_END]));
        Success(info.(header := info.header.(checkCode := code)))
  }

  /** The file with the new header in MAKEROM. */
  function Finalized(rom: seq<uint8>, e0: DmaEntry): Result<seq<uint8>> {
    match CheckedInfo(rom, e0)
    case Failure(error) => Failure(error)
    case Success(info) =>
      match Extent(e0)
      case Failure(error) => Failure(error)
      case Success(r) => Success(Overwrite(rom, r.offset as nat, HeaderBytes(info.header)))
  }

  function StatusOf<T>(r: Result<T>): Status {
    match r
    case Success(_) => Ok
    case Failure(error) => error
  }

  /** The table that info describes. */
  function TableSpec(rom: seq<uint8>, info: DmadataInfo): (r: Result<seq<DmaEntry>>)
    ensures r.Success? ==> |r.value| == info.count
  {
    if info.count == 0 then Success([])
    else if info.offset as nat + ENTRY_SIZE * info.count > |rom| then Failure(IoError)
    else Success(DecodeTable(rom[info.offset as nat..], info.count))
  }

  datatype Opened = Opened(dmaInfo: DmadataInfo, dmaTable: seq<DmaEntry>, info: RomInfo)

  /** What opening a ROM file finds. */
  ghost function OpenSpec(rom: seq<uint8>): (r: Result<Opened>)
    ensures r.Success? ==> |r.value.dmaTable| == r.value.dmaInfo.count > 0
  {
    match BlockTable(rom)
    case None => Failure(IoError)
    case Some(o) =>
      TableNotEmpty(rom, o);
      var dmaInfo := InfoAt(rom, o);
      match TableSpec(rom, dmaInfo)
      case Failure(error) => Failure(error)
      case Success(table) =>
        match InfoSpec(rom, table[0])
        case Failure(error) => Failure(error)
        case Success(info) => Success(Opened(dmaInfo, table, info))
  }

  lemma TableNotEmpty(rom: seq<uint8>, o: nat)
    requires LeastTable(rom, o)
    ensures InfoAt(rom, o).count > 0
  {
    TableGeometry(rom, o);
  }

  // ----- scanning a file block by block

  ghost predicate NoTableBelow(rom: seq<uint8>, n: nat) {
    forall o: nat :: Slot(0, o) && o < n ==> !DmadataAt(rom, o)
  }

  lemma {:induction false} ScanSlotsFinds(rom: seq<uint8>, o: nat, end: nat)
    requires Slot(0, o) && Slot(0, end) && NoTableBelow(rom, o)
    ensures match ScanSlots(rom, o, end)
            case Some(v) => o <= v < end && LeastTable(rom, v)
            case None => NoTableBelow(rom, end)
    decreases end - o
  {
    hide DmadataAt;
    if o < end && !DmadataAt(rom, o) {
      ScanSlotsFinds(rom, o + ENTRY_SIZE, end);
    }
  }

  lemma {:induction false} SearchBlocksFinds(rom: seq<uint8>, offset: nat)
    requires offset % BLOCK_SIZE == 0 && NoTableBelow(rom, offset)
    ensures match SearchBlocks(rom, offset)
            case Some(v) => LeastTable(rom, v) && InWholeBlock(rom, v)
            case None => forall v: nat :: LeastTable(rom, v) ==> !InWholeBlock(rom, v)
    decreases |rom| - offset
  {
    hide DmadataAt, ScanSlots, Slot, NoTableBelow;
    BlockEnds(offset);
    if offset + BLOCK_SIZE > |rom| {
      forall v: nat | LeastTable(rom, v)
        ensures !InWholeBlock(rom, v)
      {
        BlockMissing(rom, offset, v);
      }
    } else {
      ScanSlotsFinds(rom, offset, offset + BLOCK_SIZE);
      match ScanSlots(rom, offset, offset + BLOCK_SIZE)
      case Some(v) => InBlock(rom, offset, v);
      case None => SearchBlocksFinds(rom, offset + BLOCK_SIZE);
    }
  }

  lemma BlockEnds(offset: nat)
    requires offset % BLOCK_SIZE == 0
    ensures Slot(0, offset) && Slot(0, offset + BLOCK_SIZE) && (offset + BLOCK_SIZE) % BLOCK_SIZE == 0
  {}

  lemma InBlock(rom: seq<uint8>, offset: nat, o: nat)
    requires offset % BLOCK_SIZE == 0 && offset <= o < offset + BLOCK_SIZE <= |rom|
    ensures InWholeBlock(rom, o)
  {}

  /** What a scan of the block at offset, from `from` to `to`, says about the file. */
  lemma ScanBlock(rom: seq<uint8>, offset: nat, chunk: seq<uint8>, from: nat, to: nat, done: bool)
    requires offset % BLOCK_SIZE == 0 && offset + BLOCK_SIZE <= |rom| && chunk == rom[offset..offset + BLOCK_SIZE]
    requires Slot(0, from) && Slot(from, to) && NoTableBelow(rom, offset + from)
    requires forall o: nat :: Slot(from, o) && (o < to || done) ==> !Candidate(chunk, o)
    requires !done ==> to + ENTRY_SIZE <= BLOCK_SIZE
    ensures Slot(0, to) && from <= to
    ensures NoTableBelow(rom, offset + if done then BLOCK_SIZE else to)
  {
    hide DmadataAt, Candidate;
    forall o: nat | Slot(0, o) && o < offset + if done then BLOCK_SIZE else to
      ensures !DmadataAt(rom, o)
    {
      if o >= offset + from && DmadataAt(rom, o) {
        var k := o - offset;
        BlockSlots(offset, from, o);
        TableIsCandidate(rom, o);
        CandidateInBlock(rom, offset, chunk, k);
      }
    }
  }

  lemma BlockSlots(offset: nat, from: nat, o: nat)
    requires offset % BLOCK_SIZE == 0 && Slot(0, from) && Slot(0, o) && offset + from <= o
    ensures Slot(from, o - offset)
    ensures o - offset < BLOCK_SIZE ==> o - offset + ENTRY_SIZE <= BLOCK_SIZE
  {}

  lemma CandidateInBlock(rom: seq<uint8>, offset: nat, chunk: seq<uint8>, k: nat)
    requires offset + BLOCK_SIZE <= |rom| && chunk == rom[offset..offset + BLOCK_SIZE]
    requires k + ENTRY_SIZE <= BLOCK_SIZE
    ensures Candidate(chunk, k) <==> Candidate(rom, offset + k)
  {
    hide ReadEntry, CanBeMakerom;
    EntrySlice(rom, offset, offset + BLOCK_SIZE, k);
  }

  /** The three entries read at o decide whether a table lies there. */
  lemma EntriesAt(rom: seq<uint8>, o: nat, entries: seq<uint8>)
    requires o + 3 * ENTRY_SIZE <= |rom| && entries == rom[o..o + 3 * ENTRY_SIZE]
    ensures ReadEntry(entries, 0) == ReadEntry(rom, o)
    ensures ReadEntry(entries, ENTRY_SIZE) == ReadEntry(rom, o + ENTRY_SIZE)
    ensures ReadEntry(entries, 2 * ENTRY_SIZE) == ReadEntry(rom, o + 2 * ENTRY_SIZE)
  {
    hide ReadEntry;
    EntrySlice(rom, o, o + 3 * ENTRY_SIZE, 0);
    EntrySlice(rom, o, o + 3 * ENTRY_SIZE, ENTRY_SIZE);
    EntrySlice(rom, o, o + 3 * ENTRY_SIZE, 2 * ENTRY_SIZE);
  }

  /** Where a block is not all there, no table in a whole block is left. */
  lemma BlockMissing(rom: seq<uint8>, offset: nat, o: nat)
    requires offset % BLOCK_SIZE == 0 && NoTableBelow(rom, offset) && offset + BLOCK_SIZE > |rom|
    requires LeastTable(rom, o)
    ensures !InWholeBlock(rom, o)
  {
    hide DmadataAt, Slot;
    assert o / BLOCK_SIZE >= offset / BLOCK_SIZE;
  }

  /** Too close to the end of the file no table is left at all. */
  lemma EntriesMissing(rom: seq<uint8>, o: nat)
    requires NoTableBelow(rom, o) && o + 3 * ENTRY_SIZE > |rom|
    ensures TableOffset(rom) == None
  {
    hide Signature, Slot;
  }

  lemma FoundTable(rom: seq<uint8>, offset: nat, seekPos: nat)
    requires offset % BLOCK_SIZE == 0 && offset + BLOCK_SIZE <= |rom| && seekPos < BLOCK_SIZE && Slot(0, seekPos)
    requires NoTableBelow(rom, offset + seekPos) && DmadataAt(rom, offset + seekPos)
    ensures TableOffset(rom) == Some(offset + seekPos) && InWholeBlock(rom, offset + seekPos)
  {
    hide DmadataAt, Slot;
    var o := offset + seekPos;
    SameBlock(offset, seekPos);
    assert LeastTable(rom, o);
    LeastTableUnique(rom, o, TableOffset(rom).value);
  }

  lemma NotHere(rom: seq<uint8>, offset: nat, seekPos: nat)
    requires offset % BLOCK_SIZE == 0 && Slot(0, seekPos)
    requires NoTableBelow(rom, offset + seekPos) && !DmadataAt(rom, offset + seekPos)
    ensures NoTableBelow(rom, offset + seekPos + ENTRY_SIZE) && Slot(0, seekPos + ENTRY_SIZE)
  {
    hide DmadataAt;
  }

  /**
   The search by blocks and the search of the whole ROM: it finds the same table, exactly when
   the block in which the table starts is all there.
   */
  lemma BlockSearchRefines(rom: seq<uint8>)
    ensures match TableOffset(rom)
            case None => BlockTable(rom) == None
            case Some(o) => BlockTable(rom) == if InWholeBlock(rom, o) then Some(o) else None
    ensures |rom| % BLOCK_SIZE == 0 ==> BlockTable(rom) == TableOffset(rom)
  {
    hide DmadataAt, Slot, SearchBlocks, InWholeBlock;
    NothingBelowZero(rom);
    SearchBlocksFinds(rom, 0);
    if TableOffset(rom).Some? {
      var o := TableOffset(rom).value;
      if BlockTable(rom).Some? {
        LeastTableUnique(rom, o, BlockTable(rom).value);
      }
      TableFits(rom, o);
    }
  }

  lemma TableFits(rom: seq<uint8>, o: nat)
    requires DmadataAt(rom, o)
    ensures o < |rom|
    ensures |rom| % BLOCK_SIZE == 0 ==> InWholeBlock(rom, o)
  {
    hide Signature;
    WholeBlock(o, |rom|);
  }

  lemma WholeBlock(o: nat, n: nat)
    requires o < n
    ensures n % BLOCK_SIZE == 0 ==> (o / BLOCK_SIZE + 1) * BLOCK_SIZE <= n
  {}

  lemma SameBlock(offset: nat, k: nat)
    requires offset % BLOCK_SIZE == 0 && k < BLOCK_SIZE
    ensures (offset + k) / BLOCK_SIZE == offset / BLOCK_SIZE && offset / BLOCK_SIZE * BLOCK_SIZE == offset
    ensures Slot(0, k) ==> Slot(0, offset + k)
  {}

  /** With a partial last block the two searches can differ: the table in it is missed. */
  lemma LastBlockMissed(rom: seq<uint8>, o: nat)
    requires LeastTable(rom, o) && !InWholeBlock(rom, o)
    ensures TableOffset(rom) == Some(o) && BlockTable(rom) == None
  {
    hide DmadataAt, Slot, BlockTable, InWholeBlock;
    BlockSearchRefines(rom);
    LeastTableUnique(rom, o, TableOffset(rom).value);
  }

  /** A ROM of 64 bytes whose table starts at 16: MAKEROM takes up 16 bytes, BOOTCODE none, DMADATA 48. */
  function SmallTable(): seq<DmaEntry> {
    [DmaEntry(0, 16, 0, 0), DmaEntry(16, 16, 16, 0), DmaEntry(16, 64, 16, 0)]
  }

  function SmallRom(): seq<uint8> {
    Zeros(16) + EncodeTable(SmallTable())
  }

  /** The library finds the table of this ROM; the program, which reads whole blocks only, does not. */
  lemma SmallRomMissed()
    ensures TableOffset(SmallRom()) == Some(16) && BlockTable(SmallRom()) == None
  {
    hide EncodeTable, ReadU32, DecodeTable;
    var rom, t := SmallRom(), SmallTable();
    assert rom[16..] == EncodeTable(t);
    DecodeEncode(t);
    DecodeAt(rom[16..], 3, 0);
    DecodeAt(rom[16..], 3, 1);
    DecodeAt(rom[16..], 3, 2);
    ReadEntries(rom, 16);
    assert Chain(t[0], t[1], t[2], 16, |rom|, 16, 0, 48);
    NothingAtZero(rom);
    assert LeastTable(rom, 16);
    LastBlockMissed(rom, 16);
  }

  lemma NothingAtZero(rom: seq<uint8>)
    requires |rom| >= 16 && rom[..16] == Zeros(16)
    ensures !DmadataAt(rom, 0)
  {
    assert ReadU32(rom, 4) == 0 by {
      assert rom[4] == Zeros(16)[4] && rom[5] == Zeros(16)[5] && rom[6] == Zeros(16)[6] && rom[7] == Zeros(16)[7];
    }
  }

  // ----- the operations

  const NO_HEADER := RomHeader(0, [0, 0, 0], 0, 0, 0, 0, Zeros(8), Zeros(20), Zeros(7), Zeros(4), 0)

  class Rom {
    const file: File
    var fileSize: nat
    var dmaInfo: DmadataInfo
    var info: RomInfo
    var dmaTable: array<DmaEntry>

    constructor (file: File)
      ensures this.file == file && fresh(dmaTable)
    {
      this.file := file;
      fileSize := 0;
      dmaInfo := NO_INFO;
      info := RomInfo(NO_HEADER, 0, CicUnknown, 0);
      dmaTable := new DmaEntry[0];
    }

    method GetDmaInfo() returns (result: Status)
      requires fileSize == |file.bytes|
      modifies this`dmaInfo, file`pos
      ensures match TableOffset(file.bytes)
              case None => result == IoError
              case Some(o) =>
                if InWholeBlock(file.bytes, o) then result == Ok && dmaInfo == InfoAt(file.bytes, o)
                else result == IoError
    {
      hide Candidate, DmadataAt, Signature, Slot, NoTableBelow, ReadEntry, InfoOf, InWholeBlock;
      ghost var rom := file.bytes;
      var offset := 0;
      var chunk := new uint8[1024];
      var entries := new uint8[3 * ENTRY_SIZE];
      FirstSlot(0);
      NothingBelowZero(rom);
      while true
        invariant offset % BLOCK_SIZE == 0 && NoTableBelow(rom, offset)
        decreases |rom| - offset
      {
        file.Seek(offset);
        var ok := file.Read(chunk, 1024);
        if !ok {
          if TableOffset(rom).Some? {
            BlockMissing(rom, offset, TableOffset(rom).value);
          }
          return IoError;
        }
        ghost var block := chunk[..];
        assert block == rom[offset..offset + BLOCK_SIZE];
        var seekPos := 0;
        while true
          invariant chunk[..] == block && Slot(0, seekPos) && NoTableBelow(rom, offset + seekPos)
          decreases BLOCK_SIZE - seekPos
        {
          ghost var from := seekPos;
          result, seekPos := FindDmadataStart(chunk[..], seekPos);
          ScanBlock(rom, offset, block, from, seekPos, result == NoDmadata);
          if result != Ok {
            break;
          }
          var dmaStart := offset + seekPos;
          file.Seek(dmaStart);
          ok := file.Read(entries, 3 * ENTRY_SIZE);
          if !ok {
            EntriesMissing(rom, dmaStart);
            return IoError;
          }
          EntriesAt(rom, dmaStart, entries[..]);
          TableHere(rom, dmaStart);
          result, dmaInfo := ReadDmadataInfo(dmaInfo, dmaStart, fileSize, entries[..]);
          if result == Ok {
            FoundTable(rom, offset, seekPos);
            return result;
          }
          NotHere(rom, offset, seekPos);
          seekPos := seekPos + ENTRY_SIZE;
        }
        offset := offset + 1024;
      }
    }

    /** The table, read 128 entries at a time. */
    method ReadDmadata() returns (result: Status)
      modifies this`dmaTable, file`pos
      ensures result == StatusOf(TableSpec(file.bytes, dmaInfo))
      ensures result == Ok ==> fresh(dmaTable) && TableSpec(file.bytes, dmaInfo) == Success(dmaTable[..])
    {
      hide ReadEntry;
      var count := dmaInfo.count;
      file.Seek(dmaInfo.offset as nat);
      dmaTable := new DmaEntry[count](i => DmaEntry(0, 0, 0, 0));
      ghost var start := dmaInfo.offset as nat;
      var data := new uint8[CHUNK_COUNT * ENTRY_SIZE];
      var i := 0;
      while i < count
        invariant i <= count && file.pos == start + ENTRY_SIZE * i
        invariant fresh(dmaTable) && dmaTable.Length == count && dmaInfo == old(dmaInfo)
        invariant i > 0 ==> file.pos <= |file.bytes|
        invariant file.pos <= |file.bytes| ==> dmaTable[..i] == DecodeTable(file.bytes[start..], i)
        decreases count - i
      {
        var remaining := count - i;
        var want := if remaining < CHUNK_COUNT then remaining else CHUNK_COUNT;
        var ok := file.Read(data, ENTRY_SIZE * want);
        if !ok {
          dmaTable := new DmaEntry[0];
          return IoError;
        }
        ChunkDecodes(file.bytes, start, i, want, data[..]);
        result := Dma.ReadDmadata(dmaTable, i, want, data[..]);
        if result != Ok {
          return result;
        }
        i := i + want;
      }
      assert dmaTable[..i] == dmaTable[..];
      return Ok;
    }

    method ReadRomInfo() returns (result: Status)
      requires dmaTable.Length > 0
      modifies this`info, file`pos
      ensures result == StatusOf(InfoSpec(file.bytes, dmaTable[0]))
      ensures result == Ok ==> InfoSpec(file.bytes, dmaTable[0]) == Success(info)
    {
      hide ParseInfo;
      var extent := Extent(dmaTable[0]);
      if extent.Failure? {
        return extent.error;
      }
      var makeromOffset, makeromSize := extent.value.offset as nat, extent.value.size as nat;
      var makerom := new uint8[makeromSize];
      file.Seek(makeromOffset);
      var ok := file.Read(makerom, makeromSize);
      if !ok {
        return IoError;
      }
      assert makerom[..] == makerom[..makeromSize];
      var parsed;
      result, parsed := RomLib.ReadRomInfo(makerom[..]);
      if result == Ok {
        info := parsed.value;
      }
    }

    /** Write a file of another ROM at its virtual address, 1024 bytes at a time. */
    method CopyFile(inRom: Rom, index: nat) returns (result: Status)
      requires index < dmaTable.Length && index < inRom.dmaTable.Length
      requires file != inRom.file && dmaTable != inRom.dmaTable
      modifies file, inRom.file`pos, dmaTable
      ensures result == StatusOf(StoredBytes(inRom.file.bytes, inRom.dmaTable[index]))
      ensures result == Ok <==> StoredBytes(inRom.file.bytes, inRom.dmaTable[index]).Success?
      ensures result == Ok ==>
        && file.bytes == Overwrite(old(file.bytes), inRom.dmaTable[index].vromStart as nat,
                                   StoredBytes(inRom.file.bytes, inRom.dmaTable[index]).value)
        && dmaTable[..] == old(dmaTable[..])[index := Moved(inRom.dmaTable[index])]
    {
      hide Overwrite;
      var inEntry := inRom.dmaTable[index];
      var extent := Extent(inEntry);
      if extent.Failure? {
        return extent.error;
      }
      var fileOffset, fileSize := extent.value.offset as nat, extent.value.size as nat;
      file.Seek(inEntry.vromStart as nat);
      inRom.file.Seek(fileOffset);
      ghost var source, was, at := inRom.file.bytes, file.bytes, inEntry.vromStart as nat;
      OverwriteNothing(was, at);
      NothingAvailable(source, fileOffset);
      var bytesOut := 0;
      var chunk := new uint8[1024];
      while bytesOut < fileSize
        invariant bytesOut <= fileSize && file.pos == at + bytesOut && inRom.file.pos == fileOffset + bytesOut
        invariant bytesOut > 0 ==> fileOffset + bytesOut <= |source|
        invariant dmaTable[..] == old(dmaTable[..])
        invariant file.bytes == Overwrite(was, at, Available(source, fileOffset, bytesOut))
        decreases fileSize - bytesOut
      {
        var remaining := fileSize - bytesOut;
        var have := if remaining < 1024 then remaining else 1024;
        var ok := inRom.file.Read(chunk, have);
        if !ok {
          return IoError;
        }
        file.Write(chunk[..have]);
        MoreAvailable(source, fileOffset, bytesOut, have);
        OverwriteConcat(was, at, Available(source, fileOffset, bytesOut), chunk[..have]);
        bytesOut := bytesOut + have;
      }
      dmaTable[index] := Moved(inEntry);
      return Ok;
    }

    /** Write what a compressed file of another ROM expands to at its virtual address. */
    method DecompressFile(inRom: Rom, index: nat, yaz0: Decoder) returns (result: Status)
      requires index < dmaTable.Length && index < inRom.dmaTable.Length
      requires file != inRom.file && dmaTable != inRom.dmaTable
      modifies file, inRom.file`pos, dmaTable
      ensures result == StatusOf(ExpandedBytes(inRom.file.bytes, inRom.dmaTable[index], yaz0))
      ensures result == Ok <==> ExpandedBytes(inRom.file.bytes, inRom.dmaTable[index], yaz0).Success?
      ensures result == Ok ==>
        && file.bytes == Overwrite(old(file.bytes), inRom.dmaTable[index].vromStart as nat,
                                   ExpandedBytes(inRom.file.bytes, inRom.dmaTable[index], yaz0).value)
        && dmaTable[..] == old(dmaTable[..])[index := Moved(inRom.dmaTable[index])]
    {
      hide Overwrite;
      var inEntry := inRom.dmaTable[index];
      var extent := Extent(inEntry);
      if extent.Failure? {
        return extent.error;
      }
      file.Seek(inEntry.vromStart as nat);
      inRom.file.Seek(extent.value.offset as nat);
      var compressed := inRom.file.ReadSome(extent.value.size as nat);
      var expanded := yaz0(compressed);
      if expanded.None? {
        return DecompressionError;
      }
      file.Write(expanded.value);
      dmaTable[index] := Moved(inEntry);
      return Ok;
    }

    /** Write the table, 128 entries at a time. */
    method WriteDmadataToRom() returns (result: Status)
      requires dmaTable.Length == dmaInfo.count
      modifies file
      ensures result == Ok
      ensures file.bytes == Overwrite(old(file.bytes), dmaInfo.offset as nat, EncodeTable(dmaTable[..]))
    {
      hide EncodeTable, Overwrite;
      ghost var was, table := file.bytes, dmaTable[..];
      file.Seek(dmaInfo.offset as nat);
      var data := new uint8[CHUNK_COUNT * ENTRY_SIZE];
      var i := 0;
      EncodeNothing(table);
      OverwriteNothing(was, dmaInfo.offset as nat);
      while i < dmaInfo.count
        invariant i <= dmaInfo.count && file.pos == dmaInfo.offset as nat + ENTRY_SIZE * i
        invariant dmaTable[..] == table
        invariant file.bytes == Overwrite(was, dmaInfo.offset as nat, EncodeTable(table[..i]))
        decreases dmaInfo.count - i
      {
        var remaining := dmaInfo.count - i;
        var have := if remaining < CHUNK_COUNT then remaining else CHUNK_COUNT;
        result := Dma.WriteDmadata(data, dmaTable[i..i + have]);
        if result != Ok {
          return result;
        }
        assert dmaTable[i..i + have] == table[i..i + have];
        assert data[..ENTRY_SIZE * have] == EncodeTable(table[i..i + have]);
        file.Write(data[..ENTRY_SIZE * have]);
        ChunkEncodes(was, dmaInfo.offset as nat, table, i, have);
        i := i + have;
      }
      assert table[..i] == table;
      return Ok;
    }

    /** The check code of the file, fed to the engine 1024 bytes at a time. */
    method CalculateRomCheckCode() returns (result: Status)
      requires dmaTable.Length > 0
      modifies this`info, file`pos
      ensures result == StatusOf(CheckedInfo(file.bytes, dmaTable[0]))
      ensures result == Ok ==> CheckedInfo(file.bytes, dmaTable[0]) == Success(info)
    {
      hide InfoSpec, CheckCodeOf, Mix, Fold, Advance, WordsOf, Seeded, Seed, FedUpTo, Aligned;
      result := ReadRomInfo();
      if result != Ok {
        return result;
      }
      var iplOffset, iplSize := 0x40, 0xFC0;
      var ipl := new uint8[iplSize];
      file.Seek(iplOffset);
      var ok := file.Read(ipl, iplSize);
      if !ok {
        return IoError;
      }
      assert ipl[..] == IplOf(file.bytes);
      ghost var rom := file.bytes;
      var state := new CheckCodeState();
      result := state.Init(info.cic, ipl[..]);
      if result != Ok {
        return result;
      }
      result := FeedChunks(state);
      if result != Ok {
        return result;
      }
      var checkCode := Mix(state.cic, state.Acc());
      info := info.(header := info.header.(checkCode := checkCode));
      return Ok;
    }

    /** The loop of CalculateRomCheckCode: feed the checked part of the file, 1024 bytes at a time. */
    method FeedChunks(state: CheckCodeState) returns (result: Status)
      requires state.Valid() && state.offset == CHECK_START && |file.bytes| >= CHECK_START
      requires HasIpl(state.cic, state.ipl) && state.Acc() == Seeded(Seed(state.cic))
      modifies file`pos, state, state.acc
      ensures state.Valid()
      ensures result == if |file.bytes| < CHECK_END then IoError else Ok
      ensures result == Ok ==>
        var ws := WordsOf(file.bytes[CHECK_START..CHECK_END]);
        Mix(state.cic, state.Acc()) == CheckCodeOf(old(state.cic), old(state.ipl), ws)
    {
      hide CheckCodeOf, Mix, Fold, Advance, WordsOf, Seed, Available, Taken;
      ghost var s, rom := state.Value(), file.bytes;
      StartChunks(s, rom);
      var chunk := new uint8[1024];
      while state.offset < 0x10_1000
        invariant state.Valid() && state.acc == old(state.acc) && file.bytes == rom
        invariant CHECK_START <= state.offset <= CHECK_END && ChunkStart(state.offset)
        invariant FedUpTo(s, rom, state.offset, state.Value())
        decreases CHECK_END - state.offset
      {
        file.Seek(state.offset);
        var remaining := 0x10_1000 - state.offset;
        var want := if remaining < 1024 then remaining else 1024;
        NextChunk(state.offset);
        var ok := file.Read(chunk, want);
        if !ok {
          return IoError;
        }
        FeedChunk(s, rom, state.offset, state.Value(), want, chunk[..want]);
        result := state.Update(chunk[..want]);
        if result != Ok {
          return result;
        }
      }
      AllFed(s, rom, state.Value());
      return Ok;
    }

    /** Put the file's check code into the header in MAKEROM. */
    method Finalize() returns (result: Status)
      requires dmaTable.Length > 0
      modifies this`info, file
      ensures result == StatusOf(Finalized(old(file.bytes), dmaTable[0]))
      ensures result == Ok ==> Finalized(old(file.bytes), dmaTable[0]) == Success(file.bytes)
    {
      hide CheckedInfo, HeaderBytes, Overwrite;
      result := CalculateRomCheckCode();
      if result != Ok {
        return result;
      }
      var extent := Extent(dmaTable[0]);
      if extent.Failure? {
        return extent.error;
      }
      var header := new uint8[HEADER_SIZE];
      result := WriteRomHeader(header, info.header);
      if result != Ok {
        return result;
      }
      assert header[..] == HeaderBytes(info.header);
      file.Seek(extent.value.offset as nat);
      file.Write(header[..]);
      return Ok;
    }

    /** Start a ROM of fileSize zero bytes, written 1024 at a time, with an empty table. */
    method Create(fileSize: nat, dmaInfo: DmadataInfo)
      modifies this, file
      ensures file.bytes == Zeros(fileSize) && this.fileSize == fileSize && this.dmaInfo == dmaInfo
      ensures fresh(dmaTable) && dmaTable.Length == dmaInfo.count
    {
      this.fileSize := fileSize;
      file.bytes := [];
      file.Seek(0);
      var bytesOut := 0;
      while bytesOut < fileSize
        invariant bytesOut <= fileSize && this.fileSize == fileSize
        invariant file.bytes == Zeros(bytesOut) && file.pos == bytesOut
        decreases fileSize - bytesOut
      {
        var remaining := fileSize - bytesOut;
        var have := if remaining < 1024 then remaining else 1024;
        file.Write(Zeros(have));
        bytesOut := bytesOut + have;
      }
      this.dmaInfo := dmaInfo;
      dmaTable := new DmaEntry[dmaInfo.count](i => DmaEntry(0, 0, 0, 0));
    }

    /** Find and read the table, then MAKEROM's information. */
    method Open() returns (result: Status)
      modifies this, file`pos
      ensures result == StatusOf(OpenSpec(file.bytes))
      ensures result == Ok ==>
        && OpenSpec(file.bytes) == Success(Opened(dmaInfo, dmaTable[..], info))
        && fresh(dmaTable) && dmaTable.Length == dmaInfo.count > 0
    {
      hide BlockTable, TableSpec, InfoSpec, InfoAt, LeastTable, InWholeBlock;
      fileSize := |file.bytes|;
      BlockSearchRefines(file.bytes);
      result := GetDmaInfo();
      if result != Ok {
        return result;
      }
      result := ReadDmadata();
      if result != Ok {
        return result;
      }
      TableNotEmpty(file.bytes, BlockTable(file.bytes).value);
      result := ReadRomInfo();
    }
  }

  lemma NothingBelowZero(rom: seq<uint8>)
    ensures NoTableBelow(rom, 0)
  {}

  lemma TableHere(rom: seq<uint8>, o: nat)
    requires o + 3 * ENTRY_SIZE <= |rom|
    ensures DmadataAt(rom, o) <==>
      Signature(ReadEntry(rom, o), ReadEntry(rom, o + ENTRY_SIZE), ReadEntry(rom, o + 2 * ENTRY_SIZE), o, |rom|)
  {}

  lemma OverwriteNothing(s: seq<uint8>, at: nat)
    ensures Overwrite(s, at, []) == s
  {}

  lemma EncodeNothing(t: seq<DmaEntry>)
    ensures EncodeTable(t[..0]) == []
  {}

  lemma NothingAvailable(s: seq<uint8>, from: nat)
    ensures Available(s, from, 0) == []
  {}

  lemma MoreAvailable(s: seq<uint8>, from: nat, n: nat, m: nat)
    requires m > 0 && from + n + m <= |s|
    ensures Available(s, from, n + m) == Available(s, from, n) + s[from + n..from + n + m]
  {}

  lemma ChunkEncodes(was: seq<uint8>, at: nat, table: seq<DmaEntry>, i: nat, have: nat)
    requires i + have <= |table|
    ensures Overwrite(Overwrite(was, at, EncodeTable(table[..i])), at + ENTRY_SIZE * i, EncodeTable(table[i..i + have]))
         == Overwrite(was, at, EncodeTable(table[..i + have]))
  {
    hide EncodeTable, Overwrite;
    assert table[..i] + table[i..i + have] == table[..i + have];
    EncodeConcat(table[..i], table[i..i + have]);
    OverwriteConcat(was, at, EncodeTable(table[..i]), EncodeTable(table[i..i + have]));
  }

  lemma ChunkDecodes(rom: seq<uint8>, start: nat, i: nat, want: nat, data: seq<uint8>)
    requires start + ENTRY_SIZE * (i + want) <= |rom| && ENTRY_SIZE * want <= |data|
    requires data[..ENTRY_SIZE * want] == rom[start + ENTRY_SIZE * i..start + ENTRY_SIZE * (i + want)]
    ensures DecodeTable(rom[start..], i + want) == DecodeTable(rom[start..], i) + DecodeTable(data, want)
  {
    hide DecodeTable;
    var n := ENTRY_SIZE * want;
    DecodeConcat(rom[start..], i, want);
    DecodePrefix(rom[start..][ENTRY_SIZE * i..], n, want);
    DecodePrefix(data, n, want);
    assert rom[start..][ENTRY_SIZE * i..][..n] == data[..n];
  }

  // ----- the check code, chunk by chunk

  /** t is s after the bytes of rom up to offset. */
  ghost predicate FedUpTo(s: Stream, rom: seq<uint8>, offset: nat, t: Stream)
    requires CHECK_START <= offset <= CHECK_END && Aligned(s.offset) && HasIpl(s.cic, s.ipl)
  {
    && (offset > CHECK_START ==> offset <= |rom|)
    && t.offset == offset && t.cic == s.cic && t.ipl == s.ipl
    && Aligned(offset - CHECK_START)
    && t == Advance(s, Available(rom, CHECK_START, offset - CHECK_START))
  }

  /** offset lies a whole number of chunks after CHECK_START. */
  predicate ChunkStart(offset: nat) {
    offset >= CHECK_START && (offset - CHECK_START) % 1024 == 0
  }

  lemma NextChunk(offset: nat)
    requires ChunkStart(offset) && offset < CHECK_END
    ensures ChunkStart(offset + 1024) && offset + 1024 <= CHECK_END
  {}

  lemma StartChunks(s: Stream, rom: seq<uint8>)
    requires s.offset == CHECK_START && HasIpl(s.cic, s.ipl)
    ensures Aligned(s.offset) && ChunkStart(CHECK_START) && FedUpTo(s, rom, CHECK_START, s)
  {
    hide Advance;
    NothingAvailable(rom, CHECK_START);
    AdvanceByNothing(s);
  }

  lemma FeedChunk(s: Stream, rom: seq<uint8>, offset: nat, t: Stream, want: nat, data: seq<uint8>)
    requires CHECK_START <= offset && offset + want <= CHECK_END && offset + want <= |rom|
    requires s.offset == CHECK_START && Aligned(s.offset) && HasIpl(s.cic, s.ipl) && FedUpTo(s, rom, offset, t)
    requires want == 1024 && data == rom[offset..offset + want]
    ensures Aligned(t.offset) && Accepts(t, data) && FedUpTo(s, rom, offset + want, Advance(t, data))
  {
    hide Advance;
    var fed := Available(rom, CHECK_START, offset - CHECK_START);
    MoreAvailable(rom, CHECK_START, offset - CHECK_START, want);
    TakenAligned(0, offset - CHECK_START, want);
    TakenAligned(CHECK_START, offset - CHECK_START, 0);
    assert |fed| == offset - CHECK_START;
    AdvanceComposes(s, fed, data);
    AdvanceKeeps(t, data);
  }

  lemma AllFed(s: Stream, rom: seq<uint8>, t: Stream)
    requires s.offset == CHECK_START && Aligned(s.offset) && HasIpl(s.cic, s.ipl) && s.acc == Seeded(Seed(s.cic))
    requires FedUpTo(s, rom, CHECK_END, t)
    ensures |rom| >= CHECK_END
    ensures Mix(t.cic, t.acc) == CheckCodeOf(s.cic, s.ipl, WordsOf(rom[CHECK_START..CHECK_END]))
  {
    hide Advance, CheckCodeOf, Mix, WordsOf;
    assert Available(rom, CHECK_START, CHECK_END - CHECK_START) == rom[CHECK_START..CHECK_END];
    WholeUpdate(s.cic, s.ipl, rom[CHECK_START..CHECK_END]);
  }
}
