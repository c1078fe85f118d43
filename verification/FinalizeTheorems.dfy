/** Finalising a ROM: what is written, when it succeeds, and that it agrees with the whole-ROM check code. */
module FinalizeTheorems {
  import opened Bytes
  import opened Status
  import opened Crc32
  import opened Crc32Theorems
  import opened CheckCode
  import opened RomLib
  import opened Dma
  import opened Files
  import opened RomFile

  // ----- boot codes and chips

  /** Two different boot blocks that differ in a window of 32 bits are never taken for the same known chip. */
  lemma AlteredBootBlock(a: seq<uint8>, b: seq<uint8>, lo: nat, hi: nat)
    requires |a| == |b| && lo <= hi <= 8 * |a| && hi - lo <= 32
    requires AgreeOutside(Bits(a), Bits(b), lo, hi) && a != b
    requires CicForCrc32(Crc(0, a)) == CicForCrc32(Crc(0, b))
    ensures CicForCrc32(Crc(0, a)) == CicUnknown
  {
    hide Crc, Bits, CicForCrc32;
    BurstDetected(0, a, b, lo, hi);
    OneChecksum(Crc(0, a), Crc(0, b));
  }

  lemma OneChecksum(x: bv32, y: bv32)
    ensures CicForCrc32(x) == CicForCrc32(y) != CicUnknown ==> x == y
  {}

  /** Hence a single altered window of the boot block changes the chip of a ROM, or it had no known one. */
  lemma AlteredRom(rom: seq<uint8>, rom': seq<uint8>, lo: nat, hi: nat)
    requires |rom| == |rom'| >= 0x1000
    requires 0x40 <= lo <= hi <= 0x1000 && hi - lo <= 4
    requires AgreeOutside(rom, rom', lo, hi) && rom != rom'
    ensures CicOf(rom) != CicOf(rom') || CicOf(rom) == CicUnknown
  {
    hide Crc;
    var a, b := rom[CIC_DETECT_START..CIC_DETECT_END], rom'[CIC_DETECT_START..CIC_DETECT_END];
    var l, h := lo - CIC_DETECT_START, hi - CIC_DETECT_START;
    assert rom == rom[..CIC_DETECT_START] + a + rom[CIC_DETECT_END..];
    assert rom' == rom'[..CIC_DETECT_START] + b + rom'[CIC_DETECT_END..];
    PartsAgree(rom, rom', CIC_DETECT_START, CIC_DETECT_END, lo, hi);
    FourBytesDetected(0, a, b, l, h);
  }

  lemma PartsAgree(x: seq<uint8>, y: seq<uint8>, from: nat, to: nat, lo: nat, hi: nat)
    requires |x| == |y| && from <= lo <= hi <= to <= |x| && AgreeOutside(x, y, lo, hi)
    ensures x[..from] == y[..from] && x[to..] == y[to..]
    ensures AgreeOutside(x[from..to], y[from..to], lo - from, hi - from)
  {
    assert x[..from] == x[..lo][..from] && y[..from] == y[..lo][..from];
    assert x[to..] == x[hi..][to - hi..] && y[to..] == y[hi..][to - hi..];
    assert x[from..to][..lo - from] == x[..lo][from..] && y[from..to][..lo - from] == y[..lo][from..];
    assert x[from..to][hi - from..] == x[hi..][..to - hi] && y[from..to][hi - from..] == y[hi..][..to - hi];
  }

  // ----- the check code by chunks and the whole-ROM check code

  /** Entry 0 as it is in every ROM: MAKEROM, uncompressed, at the start. */
  predicate Makerom(e0: DmaEntry, size: nat) {
    Extent(e0).Success? && Extent(e0).value.offset == 0 && Extent(e0).value.size as nat == size
  }

  /** The program's check code is the library's, and it has one under exactly these conditions. */
  lemma CheckedIsRomCode(rom: seq<uint8>, e0: DmaEntry, size: nat)
    requires Makerom(e0, size)
    ensures CheckedInfo(rom, e0).Success? <==>
              CIC_DETECT_END <= size <= |rom| && CHECK_END <= |rom| && RomCode(rom).Some?
    ensures CheckedInfo(rom, e0).Success? ==>
              CheckedInfo(rom, e0).value.header == ParseHeader(rom).(checkCode := RomCode(rom).value)
  {
    hide Crc, CheckCodeOf, WordsOf, Join, ReadU32;
    if CIC_DETECT_END <= size <= |rom| {
      MakeromInfo(rom, size);
    }
  }

  /** And otherwise it fails with exactly these errors. */
  lemma CheckedErrors(rom: seq<uint8>, e0: DmaEntry, size: nat)
    requires Makerom(e0, size)
    ensures size == 0 || size > |rom| ==> CheckedInfo(rom, e0) == Failure(IoError)
    ensures 0 < size <= |rom| && size < 0x1000 ==> CheckedInfo(rom, e0) == Failure(OutOfRange)
    ensures 0x1000 <= size <= |rom| && CicOf(rom) == CicUnknown ==> CheckedInfo(rom, e0) == Failure(InvalidParameter)
    ensures 0x1000 <= size <= |rom| < 0x10_1000 && CicOf(rom) != CicUnknown ==> CheckedInfo(rom, e0) == Failure(IoError)
    ensures CheckedInfo(rom, e0).Failure? ==> Finalized(rom, e0) == Failure(CheckedInfo(rom, e0).error)
  {
    hide Crc, CheckCodeOf, WordsOf, Join, ReadU32, CicForCrc32;
    if CIC_DETECT_END <= size <= |rom| {
      MakeromInfo(rom, size);
    }
  }

  /** What MAKEROM says is what the ROM says. */
  lemma MakeromInfo(rom: seq<uint8>, size: nat)
    requires CIC_DETECT_END <= size <= |rom|
    ensures ParseInfo(rom[0..size]).cic == CicOf(rom)
    ensures ParseInfo(rom[0..size]).header == ParseHeader(rom)
  {
    hide Crc, ReadU32, Join;
    var m := rom[0..size];
    assert m[CIC_DETECT_START..CIC_DETECT_END] == rom[CIC_DETECT_START..CIC_DETECT_END];
    ReadSlice(rom, 0, size, 0x04);
    ReadSlice(rom, 0, size, 0x08);
    ReadSlice(rom, 0, size, 0x0C);
    ReadSlice(rom, 0, size, 0x10);
    ReadSlice(rom, 0, size, 0x14);
  }

  /** The library and the program store the same code: only the eight bytes at 0x10 are written. */
  lemma FinalizedIsPatched(rom: seq<uint8>, e0: DmaEntry, size: nat)
    requires Makerom(e0, size)
    ensures Finalized(rom, e0).Success? <==>
              CIC_DETECT_END <= size <= |rom| && CHECK_END <= |rom| && RomCode(rom).Some?
    ensures Finalized(rom, e0).Success? ==>
              Finalized(rom, e0).value == Splice(rom, OFFSET_CHECK_CODE, CodeBytes(RomCode(rom).value))
  {
    hide RomCode, HeaderBytes, CodeBytes, ParseHeader, CheckedInfo;
    CheckedIsRomCode(rom, e0, size);
    if Finalized(rom, e0).Success? {
      var code := RomCode(rom).value;
      PatchedHeader(rom, code);
      OverwriteInside(rom, 0, HeaderBytes(ParseHeader(rom).(checkCode := code)));
      SpliceHead(rom, HEADER_SIZE, OFFSET_CHECK_CODE, CodeBytes(code));
    }
  }

  lemma SpliceHead(s: seq<uint8>, n: nat, at: nat, piece: seq<uint8>)
    requires at + |piece| <= n <= |s|
    ensures Splice(s, 0, Splice(s[..n], at, piece)) == Splice(s, at, piece)
  {}

  /** After a finalisation the header stores the check code of the very image it is part of. */
  lemma FinalizedIsConsistent(rom: seq<uint8>, e0: DmaEntry, size: nat)
    requires Makerom(e0, size) && Finalized(rom, e0).Success?
    ensures var image := Finalized(rom, e0).value;
            && |image| == |rom| >= CHECK_END
            && image[..OFFSET_CHECK_CODE] == rom[..OFFSET_CHECK_CODE]
            && image[OFFSET_CHECK_CODE + 8..] == rom[OFFSET_CHECK_CODE + 8..]
            && RomCode(image) == RomCode(rom) == Some(StoredCode(image))
            && Finalized(image, e0) == Success(image)
  {
    hide RomCode, CodeBytes, StoredCode, Finalized;
    FinalizedIsPatched(rom, e0, size);
    var code := RomCode(rom).value;
    var image := Finalized(rom, e0).value;
    assert image[HEADER_SIZE..CHECK_END] == rom[HEADER_SIZE..CHECK_END];
    RomCodeDependsOn(rom, image);
    StoredAfterSplice(rom, code);
    FinalizedIsPatched(image, e0, size);
    assert Splice(image, OFFSET_CHECK_CODE, CodeBytes(code)) == image;
  }
}
