/** The ROM header, the boot block's chip, and the whole-ROM check code of src/rom.c. */
module RomLib {
  import opened Bytes
  import opened Status
  import opened Words
  import opened Crc32
  import opened CheckCode
  import opened CheckCodeTheorems

  const HEADER_SIZE: nat := 0x40

  const OFFSET_CHECK_CODE: nat := 0x10

  /** The boot block, whose checksum tells the chip. */
  const CIC_DETECT_START: nat := 0x40
  const CIC_DETECT_END: nat := 0x1000

  datatype RomHeader = RomHeader(
    reserved0: uint8,
    piConfig: seq<uint8>,
    clockRate: uint32,
    bootAddress: uint32,
    libultraVersion: uint32,
    checkCode: uint64,
    reserved1: seq<uint8>,
    title: seq<uint8>,
    reserved2: seq<uint8>,
    gameCode: seq<uint8>,
    version: uint8)
  {
    /** The fixed sizes of the byte arrays. */
    predicate Sized() {
      |piConfig| == 3 && |reserved1| == 8 && |title| == 20 && |reserved2| == 7 && |gameCode| == 4
    }
  }

  datatype RomInfo = RomInfo(header: RomHeader, iplChecksum: bv32, cic: Cic, entryPoint: uint32)

  // ----- the header

  function ParseHeader(data: seq<uint8>): (h: RomHeader)
    requires |data| >= HEADER_SIZE
    ensures h.Sized()
  {
    RomHeader(
      data[0], data[0x01..0x04], ReadU32(data, 0x04), ReadU32(data, 0x08), ReadU32(data, 0x0C),
      Join(ReadU32(data, 0x10), ReadU32(data, 0x14)),
      data[0x18..0x20], data[0x20..0x34], data[0x34..0x3B], data[0x3B..0x3F], data[0x3F])
  }

  /** A check code as it is stored. */
  function CodeBytes(code: uint64): (b: seq<uint8>)
    ensures |b| == 8
  {
    U32Bytes(High(code)) + U32Bytes(Low(code))
  }

  function HeaderBytes(h: RomHeader): (b: seq<uint8>)
    requires h.Sized()
    ensures |b| == HEADER_SIZE
  {
    [h.reserved0] + h.piConfig + U32Bytes(h.clockRate) + U32Bytes(h.bootAddress) + U32Bytes(h.libultraVersion)
    + CodeBytes(h.checkCode) + h.reserved1 + h.title + h.reserved2 + h.gameCode + [h.version]
  }

  /** The check code that the header stores. */
  function StoredCode(rom: seq<uint8>): uint64
    requires |rom| >= HEADER_SIZE
  {
    Join(ReadU32(rom, OFFSET_CHECK_CODE), ReadU32(rom, OFFSET_CHECK_CODE + 4))
  }

  method CopyBytes(p: array<uint8>, at: nat, src: seq<uint8>)
    requires at + |src| <= p.Length
    modifies p
    ensures p[..] == Splice(old(p[..]), at, src)
    ensures p[..at + |src|] == old(p[..at]) + src
    ensures forall k :: at + |src| <= k < p.Length ==> p[k] == old(p[k])
  {
    forall k | 0 <= k < |src| {
      p[at + k] := src[k];
    }
  }

  method WriteRomHeader(data: array<uint8>, h: RomHeader) returns (result: Status)
    requires h.Sized()
    modifies data
    ensures result == if data.Length < HEADER_SIZE then OutOfRange else Ok
    ensures data[..] == if result.Ok? then Splice(old(data[..]), 0, HeaderBytes(h)) else old(data[..])
  {
    hide U32Bytes, CodeBytes, Splice;
    if data.Length < HEADER_SIZE {
      return OutOfRange;
    }
    CopyBytes(data, 0x00, [h.reserved0]);
    CopyBytes(data, 0x01, h.piConfig);
    WriteNumbers(data, h);
    WriteTexts(data, h);
    CopyBytes(data, 0x3F, [h.version]);
    assert data[..HEADER_SIZE] == HeaderBytes(h);
    SpliceAtStart(old(data[..]), data[..], HeaderBytes(h));
    return Ok;
  }

  lemma SpliceAtStart(was: seq<uint8>, now: seq<uint8>, piece: seq<uint8>)
    requires |was| == |now| >= |piece| && now[..|piece|] == piece
    requires forall k :: |piece| <= k < |was| ==> now[k] == was[k]
    ensures now == Splice(was, 0, piece)
  {}

  /** The words of the header. */
  method WriteNumbers(data: array<uint8>, h: RomHeader)
    requires data.Length >= HEADER_SIZE
    modifies data
    ensures data[..0x18] ==
      old(data[..0x04]) + U32Bytes(h.clockRate) + U32Bytes(h.bootAddress) + U32Bytes(h.libultraVersion)
      + CodeBytes(h.checkCode)
    ensures forall k :: 0x18 <= k < data.Length ==> data[k] == old(data[k])
  {
    hide U32Bytes, High, Low, Splice;
    WriteU32(data, 0x04, h.clockRate);
    WriteU32(data, 0x08, h.bootAddress);
    WriteU32(data, 0x0C, h.libultraVersion);
    WriteU32(data, 0x10, High(h.checkCode));
    WriteU32(data, 0x14, Low(h.checkCode));
  }

  /** The byte arrays behind the words. */
  method WriteTexts(data: array<uint8>, h: RomHeader)
    requires data.Length >= HEADER_SIZE && h.Sized()
    modifies data
    ensures data[..0x3F] == old(data[..0x18]) + h.reserved1 + h.title + h.reserved2 + h.gameCode
    ensures forall k :: 0x3F <= k < data.Length ==> data[k] == old(data[k])
  {
    hide Splice;
    CopyBytes(data, 0x18, h.reserved1);
    CopyBytes(data, 0x20, h.title);
    CopyBytes(data, 0x34, h.reserved2);
    CopyBytes(data, 0x3B, h.gameCode);
  }

  method ReadRomHeader(data: seq<uint8>) returns (result: Status, header: Option<RomHeader>)
    ensures result == if |data| < HEADER_SIZE then OutOfRange else Ok
    ensures header == if result.Ok? then Some(ParseHeader(data)) else None
    ensures result.Ok? ==> header.value.Sized() && HeaderBytes(header.value) == data[..HEADER_SIZE]
  {
    if |data| < HEADER_SIZE {
      return OutOfRange, None;
    }
    HeaderRoundTrip(data);
    var high := ReadU32(data, 0x10);
    var low := ReadU32(data, 0x14);
    return Ok, Some(RomHeader(
      data[0x00], data[0x01..0x04], ReadU32(data, 0x04), ReadU32(data, 0x08), ReadU32(data, 0x0C), Join(high, low),
      data[0x18..0x20], data[0x20..0x34], data[0x34..0x3B], data[0x3B..0x3F], data[0x3F]));
  }

  // ----- the chip

  function CicOf(rom: seq<uint8>): Cic
    requires |rom| >= CIC_DETECT_END
  {
    CicForCrc32(Crc(0, rom[CIC_DETECT_START..CIC_DETECT_END]))
  }

  /** How far before its boot address a chip enters the program. */
  function Displacement(cic: Cic): uint32 {
    match cic
    case Cic6103 => 0x10_0000
    case Cic6106 => 0x20_0000
    case _ => 0
  }

  /** The address, with wrap-around, that lies the chip's displacement before the boot address. */
  function EntryPoint(bootAddress: uint32, cic: Cic): (e: uint32)
    ensures Add32(e, Displacement(cic)) == bootAddress
  {
    var d := Displacement(cic);
    if d <= bootAddress then bootAddress - d else UINT32_MAX - (d - bootAddress) + 1
  }

  function ParseInfo(data: seq<uint8>): (info: RomInfo)
    requires |data| >= CIC_DETECT_END
    ensures info.header.Sized()
  {
    var header, cic := ParseHeader(data), CicOf(data);
    RomInfo(header, Crc(0, data[CIC_DETECT_START..CIC_DETECT_END]), cic, EntryPoint(header.bootAddress, cic))
  }

  method ReadRomInfo(data: seq<uint8>) returns (result: Status, info: Option<RomInfo>)
    ensures result == if |data| < CIC_DETECT_END then OutOfRange else Ok
    ensures info == if result.Ok? then Some(ParseInfo(data)) else None
  {
    if |data| < CIC_DETECT_END {
      return OutOfRange, None;
    }
    var header;
    result, header := ReadRomHeader(data);
    if result != Ok {
      return result, None;
    }
    var crc := ComputeCrc32(0, data[CIC_DETECT_START..CIC_DETECT_END]);
    var cic := CicForCrc32(crc);
    return Ok, Some(RomInfo(header.value, crc, cic, EntryPoint(header.value.bootAddress, cic)));
  }

  // ----- the check code of a whole ROM

  function IplOf(rom: seq<uint8>): (ipl: seq<uint8>)
    requires |rom| >= CIC_DETECT_END
    ensures |ipl| == 0xFC0
  {
    rom[HEADER_SIZE..CIC_DETECT_END]
  }

  /** The check code of a ROM that is long enough, unless its chip is unknown. */
  function RomCode(rom: seq<uint8>): Option<uint64>
    requires |rom| >= CHECK_END
  {
    if Seed(CicOf(rom)) == 0 then None
    else Some(CheckCodeOf(CicOf(rom), IplOf(rom), WordsOf(rom[CHECK_START..CHECK_END])))
  }

  /** checkCode0 is what the caller's variable holds before the call. */
  method RomCheckCode(rom: seq<uint8>, checkCode0: uint64) returns (result: Status, checkCode: uint64)
    ensures result.Ok? <==> |rom| >= CHECK_END && RomCode(rom).Some?
    ensures result.Ok? ==> RomCode(rom) == Some(checkCode)
    ensures !result.Ok? ==> result == InvalidParameter && checkCode == if |rom| < CHECK_END then checkCode0 else 0
  {
    hide Crc, Fold, WordsOf, Mix;
    checkCode := checkCode0;
    if |rom| < 0x10_1000 {
      return InvalidParameter, checkCode;
    }
    checkCode := 0;
    var crc := ComputeCrc32(0, rom[CIC_DETECT_START..CIC_DETECT_END]);
    var cic := CicForCrc32(crc);
    var ipl := rom[HEADER_SIZE..HEADER_SIZE + 0xFC0];
    var state := new CheckCodeState();
    result := state.Init(cic, ipl);
    if result != Ok {
      return result, checkCode;
    }
    var data := rom[state.offset..0x10_1000];
    WholeUpdate(cic, ipl, data);
    result := state.Update(data);
    if result != Ok {
      return result, checkCode;
    }
    checkCode := Mix(state.cic, state.Acc());
  }

  /** The one update that takes in everything from CHECK_START to CHECK_END. */
  lemma WholeUpdate(cic: Cic, ipl: seq<uint8>, data: seq<uint8>)
    requires HasIpl(cic, ipl) && |data| == CHECK_END - CHECK_START
    ensures var s := Stream(cic, Seeded(Seed(cic)), CHECK_START, ipl);
            && Accepts(s, data) && Aligned(s.offset)
            && Mix(cic, Advance(s, data).acc) == CheckCodeOf(cic, ipl, WordsOf(data))
  {
    hide Fold, WordsOf, Mix;
    assert data[..|data|] == data;
  }

  // ----- properties

  /** Writing the header that was read restores it. */
  lemma HeaderRoundTrip(data: seq<uint8>)
    requires |data| >= HEADER_SIZE
    ensures HeaderBytes(ParseHeader(data)) == data[..HEADER_SIZE]
  {
    CodeRoundTrip(data);
    WriteAfterRead(data, 0x04);
    WriteAfterRead(data, 0x08);
    WriteAfterRead(data, 0x0C);
  }

  /** Reading the header that was written gives it back, whatever lies behind it. */
  lemma HeaderReadBack(h: RomHeader, rest: seq<uint8>)
    requires h.Sized()
    ensures ParseHeader(HeaderBytes(h) + rest) == h
  {
    hide ReadU32, U32Bytes, High, Low, Join;
    var b := HeaderBytes(h) + rest;
    NumberReadBack(b, 0x04, h.clockRate);
    NumberReadBack(b, 0x08, h.bootAddress);
    NumberReadBack(b, 0x0C, h.libultraVersion);
    NumberReadBack(b, 0x10, High(h.checkCode));
    NumberReadBack(b, 0x14, Low(h.checkCode));
    JoinOfParts(h.checkCode);
  }

  lemma NumberReadBack(data: seq<uint8>, at: nat, n: uint32)
    requires at + 4 <= |data| && data[at..at + 4] == U32Bytes(n)
    ensures ReadU32(data, at) == n
  {
    hide ReadU32, U32Bytes;
    ReadSlice(data, at, at + 4, 0);
    ReadAfterWrite(n);
  }

  lemma JoinParts(high: uint32, low: uint32)
    ensures High(Join(high, low)) == high && Low(Join(high, low)) == low
  {}

  lemma JoinOfParts(code: uint64)
    ensures Join(High(code), Low(code)) == code
  {}

  lemma CodeRoundTrip(data: seq<uint8>)
    requires |data| >= HEADER_SIZE
    ensures CodeBytes(StoredCode(data)) == data[0x10..0x18]
  {
    hide ReadU32, U32Bytes, Join, High, Low;
    JoinParts(ReadU32(data, 0x10), ReadU32(data, 0x14));
    WriteAfterRead(data, 0x10);
    WriteAfterRead(data, 0x14);
  }

  /** A header with another check code differs in those eight bytes only. */
  lemma PatchedHeader(data: seq<uint8>, code: uint64)
    requires |data| >= HEADER_SIZE
    ensures HeaderBytes(ParseHeader(data).(checkCode := code)) ==
      Splice(data[..HEADER_SIZE], OFFSET_CHECK_CODE, CodeBytes(code))
  {
    hide U32Bytes, ReadU32;
    WriteAfterRead(data, 0x04);
    WriteAfterRead(data, 0x08);
    WriteAfterRead(data, 0x0C);
  }

  /** The code stored is the code read back. */
  lemma StoredAfterSplice(rom: seq<uint8>, code: uint64)
    requires |rom| >= HEADER_SIZE
    ensures StoredCode(Splice(rom, OFFSET_CHECK_CODE, CodeBytes(code))) == code
  {
    hide ReadU32, U32Bytes, High, Low, Join;
    var r := Splice(rom, OFFSET_CHECK_CODE, CodeBytes(code));
    assert r[0x10..0x14] == U32Bytes(High(code)) && r[0x14..0x18] == U32Bytes(Low(code));
    ReadSlice(r, 0x10, 0x14, 0);
    ReadSlice(r, 0x14, 0x18, 0);
    ReadAfterWrite(High(code));
    ReadAfterWrite(Low(code));
    JoinOfParts(code);
  }

  /** Beyond the chip, the check code depends on the checked part and, for a 6105, on 256 bytes of the boot block. */
  lemma RomCodeWindow(rom: seq<uint8>, rom': seq<uint8>)
    requires |rom| >= CHECK_END && |rom'| >= CHECK_END
    requires CicOf(rom) == CicOf(rom')
    requires CicOf(rom).Cic6105? ==> rom[0x750..0x850] == rom'[0x750..0x850]
    requires rom[CHECK_START..CHECK_END] == rom'[CHECK_START..CHECK_END]
    ensures RomCode(rom) == RomCode(rom')
  {
    hide CicOf, Fold, WordsOf, Mix;
    var cic, ws := CicOf(rom), WordsOf(rom[CHECK_START..CHECK_END]);
    assert IplOf(rom)[0x710..IPL_SIZE] == rom[0x750..0x850];
    assert IplOf(rom')[0x710..IPL_SIZE] == rom'[0x750..0x850];
    BootBlockWindow(cic, IplOf(rom), IplOf(rom'), CHECK_START, Seeded(Seed(cic)), ws);
  }

  /** The check code depends only on the bytes from 0x40 to 0x100FFF. */
  lemma RomCodeDependsOn(rom: seq<uint8>, rom': seq<uint8>)
    requires |rom| >= CHECK_END && |rom'| >= CHECK_END
    requires rom[HEADER_SIZE..CHECK_END] == rom'[HEADER_SIZE..CHECK_END]
    ensures RomCode(rom) == RomCode(rom')
  {
    hide Crc, CheckCodeOf, WordsOf;
    SubSlices(rom, HEADER_SIZE, CHECK_START, CHECK_END);
    SubSlices(rom', HEADER_SIZE, CHECK_START, CHECK_END);
  }

  lemma SubSlices<T>(s: seq<T>, lo: nat, mid: nat, hi: nat)
    requires lo <= mid <= hi <= |s|
    ensures s[lo..mid] == s[lo..hi][..mid - lo] && s[mid..hi] == s[lo..hi][mid - lo..]
  {}
}
