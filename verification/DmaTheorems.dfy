/** What a found table guarantees, and the table codec's round trips. */
module DmaTheorems {
  import opened Bytes
  import opened Status
  import opened Dma

  // ----- geometry

  /** The table that a search accepts lies inside the ROM, behind MAKEROM, and can be read whole. */
  lemma TableGeometry(rom: seq<uint8>, o: nat)
    requires Slot(0, o) && DmadataAt(rom, o)
    ensures var info := InfoAt(rom, o);
            var makerom := ReadEntry(rom, o);
            && info.offset as nat == o && o % ENTRY_SIZE == 0
            && ENTRY_SIZE * info.count == info.size as nat > 0
            && o + info.size as nat == ReadU32(rom, o + 0x24) as nat
            && o + info.size as nat <= |rom|
            && makerom.vromStart == 0 && makerom.vromEnd as nat <= o
            && Kind(makerom) == Uncompressed && Extent(makerom) == Success(Range(0, makerom.vromEnd))
  {
    hide ReadU32;
    var e0, e1, e2 := ReadEntry(rom, o), ReadEntry(rom, o + ENTRY_SIZE), ReadEntry(rom, o + 2 * ENTRY_SIZE);
    var a: nat, b: nat, c: nat :| Chain(e0, e1, e2, o, |rom|, a, b, c);
    assert c / ENTRY_SIZE * ENTRY_SIZE == c;
  }

  /** The signature, word by word. */
  lemma SignatureWords(rom: seq<uint8>, o: nat)
    ensures DmadataAt(rom, o) <==>
      && o + 48 <= |rom|
      && ReadU32(rom, o) == 0 && ReadU32(rom, o + 4) > 0 && ReadU32(rom, o + 8) == 0 && ReadU32(rom, o + 12) == 0
      && ReadU32(rom, o + 16) == ReadU32(rom, o + 24) == ReadU32(rom, o + 4) <= ReadU32(rom, o + 20)
      && ReadU32(rom, o + 28) == 0
      && ReadU32(rom, o + 32) == ReadU32(rom, o + 40) == ReadU32(rom, o + 20) < ReadU32(rom, o + 36)
      && ReadU32(rom, o + 44) == 0
      && ReadU32(rom, o + 20) as nat == o && ReadU32(rom, o + 36) as nat <= |rom|
      && (ReadU32(rom, o + 36) as nat - o) % 16 == 0
  {
    hide ReadU32;
    if o + 48 <= |rom| {
      var e0, e1, e2 := ReadEntry(rom, o), ReadEntry(rom, o + ENTRY_SIZE), ReadEntry(rom, o + 2 * ENTRY_SIZE);
      SignatureFields(e0, e1, e2, o, |rom|);
    }
  }

  lemma SignatureFields(e0: DmaEntry, e1: DmaEntry, e2: DmaEntry, o: nat, romSize: nat)
    ensures Signature(e0, e1, e2, o, romSize) <==>
      && e0.vromStart == 0 && e0.vromEnd > 0 && e0.romStart == 0 && e0.romEnd == 0
      && e1.vromStart == e1.romStart == e0.vromEnd <= e1.vromEnd && e1.romEnd == 0
      && e2.vromStart == e2.romStart == e1.vromEnd < e2.vromEnd && e2.romEnd == 0
      && e1.vromEnd as nat == o && e2.vromEnd as nat <= romSize && (e2.vromEnd as nat - o) % 16 == 0
  {
    if e0.vromEnd <= e1.vromEnd < e2.vromEnd {
      var a, b, c := e0.vromEnd as nat, (e1.vromEnd - e0.vromEnd) as nat, (e2.vromEnd - e1.vromEnd) as nat;
      if Chain(e0, e1, e2, o, romSize, a, b, c) {
        assert Signature(e0, e1, e2, o, romSize);
      }
    }
  }

  /** Which bytes of the ROM an entry stands for, from its four words. */
  lemma ExtentWords(e: DmaEntry)
    ensures e.vromStart == e.vromEnd ==> Extent(e) == Success(Range(e.romStart, 0))
    ensures e.vromStart != e.vromEnd && e.romEnd == 0xFFFF_FFFF ==> Extent(e) == Failure(InvalidParameter)
    ensures e.vromStart < e.vromEnd && e.romEnd == 0 ==>
      Extent(e).Success? && Extent(e).value.offset == e.romStart && e.vromStart + Extent(e).value.size == e.vromEnd
    ensures e.vromStart > e.vromEnd && e.romEnd == 0 ==> Extent(e) == Failure(OutOfRange)
    ensures e.vromStart != e.vromEnd && e.romStart <= e.romEnd < 0xFFFF_FFFF && e.romEnd > 0 ==>
      Extent(e).Success? && Extent(e).value.offset == e.romStart && e.romStart + Extent(e).value.size == e.romEnd
    ensures e.vromStart != e.vromEnd && 0 < e.romEnd < e.romStart && e.romEnd < 0xFFFF_FFFF ==>
      Extent(e) == Failure(OutOfRange)
  {}

  /** Each entry is four words, one after the other. */
  lemma EntryWords(data: seq<uint8>, n: nat, i: nat)
    requires i < n && 16 * n <= |data|
    ensures DecodeTable(data, n)[i] ==
      DmaEntry(ReadU32(data, 16 * i), ReadU32(data, 16 * i + 4), ReadU32(data, 16 * i + 8), ReadU32(data, 16 * i + 12))
  {
    hide ReadU32, DecodeTable;
    DecodeAt(data, n, i);
  }

  // ----- the codec

  lemma EntryRoundTrip(e: DmaEntry)
    ensures ReadEntry(EntryBytes(e), 0) == e
  {
    hide ReadU32, U32Bytes;
    var b := EntryBytes(e);
    assert b[0..4] == U32Bytes(e.vromStart) && b[4..8] == U32Bytes(e.vromEnd);
    assert b[8..12] == U32Bytes(e.romStart) && b[12..16] == U32Bytes(e.romEnd);
    ReadSlice(b, 0, 4, 0);
    ReadSlice(b, 4, 8, 0);
    ReadSlice(b, 8, 12, 0);
    ReadSlice(b, 12, 16, 0);
    ReadAfterWrite(e.vromStart);
    ReadAfterWrite(e.vromEnd);
    ReadAfterWrite(e.romStart);
    ReadAfterWrite(e.romEnd);
  }

  lemma BytesRoundTrip(data: seq<uint8>, at: nat)
    requires at + ENTRY_SIZE <= |data|
    ensures EntryBytes(ReadEntry(data, at)) == data[at..at + ENTRY_SIZE]
  {
    hide ReadU32, U32Bytes;
    WriteAfterRead(data, at);
    WriteAfterRead(data, at + 4);
    WriteAfterRead(data, at + 8);
    WriteAfterRead(data, at + 12);
  }

  /** Decoding looks at the bytes of the table only. */
  lemma {:induction false} DecodePrefix(data: seq<uint8>, hi: nat, n: nat)
    requires ENTRY_SIZE * n <= hi <= |data|
    ensures DecodeTable(data[..hi], n) == DecodeTable(data, n)
    decreases n
  {
    hide ReadEntry;
    if n > 0 {
      DecodePrefix(data, hi, n - 1);
      assert data[..hi] == data[0..hi];
      EntrySlice(data, 0, hi, ENTRY_SIZE * (n - 1));
    }
  }

  /** Reading after writing gives back any table. */
  lemma {:induction false} DecodeEncode(t: seq<DmaEntry>)
    ensures DecodeTable(EncodeTable(t), |t|) == t
    decreases |t|
  {
    hide ReadEntry, EntryBytes;
    if |t| > 0 {
      var n := |t| - 1;
      var b := EncodeTable(t);
      DecodeEncode(t[..n]);
      assert b[..ENTRY_SIZE * n] == EncodeTable(t[..n]);
      DecodePrefix(b, ENTRY_SIZE * n, n);
      assert b[ENTRY_SIZE * n..ENTRY_SIZE * n + ENTRY_SIZE] == EntryBytes(t[n]);
      EntrySlice(b, ENTRY_SIZE * n, ENTRY_SIZE * n + ENTRY_SIZE, 0);
      EntryRoundTrip(t[n]);
    }
  }

  /** Writing after reading restores the bytes of the table. */
  lemma {:induction false} EncodeDecode(data: seq<uint8>, n: nat)
    requires ENTRY_SIZE * n <= |data|
    ensures EncodeTable(DecodeTable(data, n)) == data[..ENTRY_SIZE * n]
    decreases n
  {
    hide ReadEntry, EntryBytes;
    if n > 0 {
      EncodeDecode(data, n - 1);
      var t := DecodeTable(data, n);
      assert t[..n - 1] == DecodeTable(data, n - 1);
      BytesRoundTrip(data, ENTRY_SIZE * (n - 1));
    }
  }

  /** A table may be encoded piece by piece. */
  lemma {:induction false} EncodeConcat(t: seq<DmaEntry>, u: seq<DmaEntry>)
    ensures EncodeTable(t + u) == EncodeTable(t) + EncodeTable(u)
    decreases |u|
  {
    hide EntryBytes;
    if |u| == 0 {
      assert t + u == t;
    } else {
      var n := |u| - 1;
      assert (t + u)[..|t| + n] == t + u[..n];
      EncodeConcat(t, u[..n]);
    }
  }

  /** And decoded piece by piece. */
  lemma {:induction false} DecodeConcat(data: seq<uint8>, n: nat, m: nat)
    requires ENTRY_SIZE * (n + m) <= |data|
    ensures DecodeTable(data, n + m) == DecodeTable(data, n) + DecodeTable(data[ENTRY_SIZE * n..], m)
    decreases m
  {
    hide ReadEntry;
    if m > 0 {
      DecodeConcat(data, n, m - 1);
      ReadEntries(data, ENTRY_SIZE * n);
    }
  }

  lemma {:induction false} DecodeAt(data: seq<uint8>, n: nat, i: nat)
    requires i < n && ENTRY_SIZE * n <= |data|
    ensures DecodeTable(data, n)[i] == ReadEntry(data, ENTRY_SIZE * i)
    decreases n
  {
    hide ReadEntry;
    if i < n - 1 {
      DecodeAt(data, n - 1, i);
    }
  }
}
