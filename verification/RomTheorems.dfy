/** The header's layout, the chips, and the check code of a whole ROM, in terms of its bytes. */
module RomTheorems {
  import opened Bytes
  import opened Status
  import opened Words
  import opened Crc32
  import opened CheckCode
  import opened CheckCodeFormula
  import opened RomLib

  /** Where each field of a header lies. */
  lemma HeaderLayout(h: RomHeader)
    requires h.Sized()
    ensures var b := HeaderBytes(h);
            && b[0x00] == h.reserved0 && b[0x01..0x04] == h.piConfig
            && ReadU32(b, 0x04) == h.clockRate && ReadU32(b, 0x08) == h.bootAddress
            && ReadU32(b, 0x0C) == h.libultraVersion
            && ReadU32(b, 0x10) as nat * 0x1_0000_0000 + ReadU32(b, 0x14) as nat == h.checkCode as nat
            && b[0x18..0x20] == h.reserved1 && b[0x20..0x34] == h.title && b[0x34..0x3B] == h.reserved2
            && b[0x3B..0x3F] == h.gameCode && b[0x3F] == h.version
  {
    hide ReadU32, U32Bytes;
    var b := HeaderBytes(h);
    NumberReadBack(b, 0x04, h.clockRate);
    NumberReadBack(b, 0x08, h.bootAddress);
    NumberReadBack(b, 0x0C, h.libultraVersion);
    NumberReadBack(b, 0x10, High(h.checkCode));
    NumberReadBack(b, 0x14, Low(h.checkCode));
  }

  /** The stored code is the big-endian number at 0x10. */
  lemma StoredCodeWords(rom: seq<uint8>)
    requires |rom| >= 0x40
    ensures StoredCode(rom) as nat == ReadU32(rom, 0x10) as nat * 0x1_0000_0000 + ReadU32(rom, 0x14) as nat
    ensures ParseHeader(rom).checkCode == StoredCode(rom)
  {
    hide ReadU32;
  }

  /** From the checksum of bytes 0x40 to 0xFFF to the chip, its seed, and where it enters the program. */
  lemma ChipLaw(rom: seq<uint8>)
    requires |rom| >= 0x1000
    ensures var crc := Crc(0, rom[0x40..0x1000]);
            var info := ParseInfo(rom);
            var boot, seed := ReadU32(rom, 0x08) as nat, Seed(info.cic);
            && info.iplChecksum == crc && info.cic == CicOf(rom) && info.header == ParseHeader(rom)
            && (crc == 0x6170A4A1 ==> info.cic == Cic6101 && seed == 0xF8CA4DDC && info.entryPoint as nat == boot)
            && (crc == 0x90BB6CB5 ==> info.cic == Cic6102 && seed == 0xF8CA4DDC && info.entryPoint as nat == boot)
            && (crc == 0x0B050EE0 ==>
                  info.cic == Cic6103 && seed == 0xA3886759 && info.entryPoint == Wrapped(boot + 0xFFF0_0000))
            && (crc == 0x98BC2C86 ==> info.cic == Cic6105 && seed == 0xDF26F436 && info.entryPoint as nat == boot)
            && (crc == 0xACC8580A ==>
                  info.cic == Cic6106 && seed == 0x1FEA617A && info.entryPoint == Wrapped(boot + 0xFFE0_0000))
            && (!KnownChecksum(crc) ==> info.cic == CicUnknown && seed == 0 && info.entryPoint as nat == boot)
  {
    hide Crc, ReadU32;
  }

  predicate KnownChecksum(crc: bv32) {
    || crc == 0x6170A4A1 || crc == 0x90BB6CB5 || crc == 0x0B050EE0 || crc == 0x98BC2C86 || crc == 0xACC8580A
  }

  lemma ChipKnown(rom: seq<uint8>)
    requires |rom| >= 0x1000
    ensures CicOf(rom) != CicUnknown <==> KnownChecksum(Crc(0, rom[0x40..0x1000]))
    ensures CicOf(rom) != CicUnknown <==> Seed(CicOf(rom)) != 0
  {
    hide Crc;
  }

  /** The check code of a ROM, from the words at 0x1000, 0x1004, .. 0x100FFC and its boot block. */
  lemma RomCodeFormula(rom: seq<uint8>, ws: seq<uint32>)
    requires |rom| >= 0x10_1000
    requires |ws| == 0x4_0000 && forall k: nat :: k < |ws| ==> ws[k] == ReadU32(rom, 0x1000 + 4 * k)
    ensures RomCode(rom).Some? <==> KnownChecksum(Crc(0, rom[0x40..0x1000]))
    ensures RomCode(rom).Some? ==> RomCode(rom).value as nat == ClosedForm(CicOf(rom), rom[0x40..0x1000], ws)
  {
    hide Crc, ReadU32, ClosedForm, CheckCodeOf, CicOf, KnownChecksum, Seed;
    ChipKnown(rom);
    CheckedWords(rom, ws);
    CheckCodeIsClosedForm(CicOf(rom), rom[0x40..0x1000], ws);
  }

  lemma CheckedWords(rom: seq<uint8>, ws: seq<uint32>)
    requires |rom| >= 0x10_1000
    requires |ws| == 0x4_0000 && forall k: nat :: k < |ws| ==> ws[k] == ReadU32(rom, 0x1000 + 4 * k)
    ensures WordsOf(rom[CHECK_START..CHECK_END]) == ws
  {
    hide ReadU32;
    var vs := WordsOf(rom[CHECK_START..CHECK_END]);
    forall k: nat | k < |vs|
      ensures vs[k] == ws[k]
    {
      ReadSlice(rom, CHECK_START, CHECK_END, 4 * k);
    }
  }
}
