/** The file table (DMADATA) of src/dma.c: finding it, decoding and encoding it, and its entries. */
module Dma {
  import opened Bytes
  import opened Status

  const ENTRY_SIZE: nat := 0x10

  datatype DmaEntry = DmaEntry(vromStart: uint32, vromEnd: uint32, romStart: uint32, romEnd: uint32)

  datatype DmadataInfo = DmadataInfo(offset: uint32, size: uint32, count: nat)

  const NO_INFO := DmadataInfo(0, 0, 0)

  function ReadEntry(data: seq<uint8>, at: nat): DmaEntry
    requires at + ENTRY_SIZE <= |data|
  {
    DmaEntry(ReadU32(data, at), ReadU32(data, at + 4), ReadU32(data, at + 8), ReadU32(data, at + 12))
  }

  predicate CanBeMakerom(e: DmaEntry) {
    e.vromStart == 0 && e.vromEnd != 0 && e.romStart == 0 && e.romEnd == 0
  }

  // ----- the signature

  /**
   MAKEROM takes up a bytes, BOOTCODE b bytes and DMADATA c bytes, one after the other and
   uncompressed, and the three entries that say so lie where they say DMADATA is.
   */
  predicate Chain(e0: DmaEntry, e1: DmaEntry, e2: DmaEntry, offset: nat, romSize: nat, a: nat, b: nat, c: nat) {
    && e0.vromStart == 0 && e0.vromEnd as nat == a && e0.romStart == 0 && e0.romEnd == 0
    && e1.vromStart as nat == a && e1.vromEnd as nat == a + b && e1.romStart as nat == a && e1.romEnd == 0
    && e2.vromStart as nat == a + b && e2.vromEnd as nat == a + b + c && e2.romStart as nat == a + b && e2.romEnd == 0
    && a > 0 && c > 0 && c % ENTRY_SIZE == 0
    && offset == a + b && a + b + c <= romSize
  }

  ghost predicate Signature(e0: DmaEntry, e1: DmaEntry, e2: DmaEntry, offset: nat, romSize: nat) {
    exists a: nat, b: nat, c: nat :: Chain(e0, e1, e2, offset, romSize, a, b, c)
  }

  /** A table that describes itself lies at offset o of rom. */
  ghost predicate DmadataAt(rom: seq<uint8>, o: nat) {
    && o + 3 * ENTRY_SIZE <= |rom|
    && Signature(ReadEntry(rom, o), ReadEntry(rom, o + ENTRY_SIZE), ReadEntry(rom, o + 2 * ENTRY_SIZE), o, |rom|)
  }

  /** o lies a whole number of entries after base. */
  predicate Slot(base: nat, o: nat) {
    base <= o && (o - base) % ENTRY_SIZE == 0
  }

  ghost predicate LeastTable(rom: seq<uint8>, o: nat) {
    && Slot(0, o) && DmadataAt(rom, o)
    && forall p: nat :: Slot(0, p) && p < o ==> !DmadataAt(rom, p)
  }

  /** Where the first table of rom lies, if there is one. */
  ghost function TableOffset(rom: seq<uint8>): (r: Option<nat>)
    ensures r.Some? ==> LeastTable(rom, r.value)
    ensures r.None? ==> forall o: nat :: Slot(0, o) ==> !DmadataAt(rom, o)
  {
    if o: nat :| LeastTable(rom, o) then Some(o) else NoLeastMeansNone(rom); None
  }

  lemma NoLeastMeansNone(rom: seq<uint8>)
    requires forall o: nat :: !LeastTable(rom, o)
    ensures forall o: nat :: Slot(0, o) ==> !DmadataAt(rom, o)
  {
    hide DmadataAt, Slot;
    forall o: nat | Slot(0, o)
      ensures !DmadataAt(rom, o)
    {
      NoTableUpTo(rom, o);
    }
  }

  lemma {:induction false} NoTableUpTo(rom: seq<uint8>, o: nat)
    requires forall p: nat :: !LeastTable(rom, p)
    ensures forall p: nat :: Slot(0, p) && p <= o ==> !DmadataAt(rom, p)
  {
    hide DmadataAt, Slot;
    if o > 0 {
      NoTableUpTo(rom, o - 1);
    }
    assert !LeastTable(rom, o);
  }

  lemma LeastTableUnique(rom: seq<uint8>, o: nat, p: nat)
    requires LeastTable(rom, o) && LeastTable(rom, p)
    ensures o == p
  {
    hide DmadataAt, Slot;
  }

  function InfoOf(e2: DmaEntry): DmadataInfo
    requires e2.vromStart <= e2.vromEnd
  {
    var size := e2.vromEnd - e2.vromStart;
    DmadataInfo(e2.vromStart, size, size as nat / ENTRY_SIZE)
  }

  function InfoAt(rom: seq<uint8>, o: nat): DmadataInfo
    requires DmadataAt(rom, o)
  {
    InfoOf(ReadEntry(rom, o + 2 * ENTRY_SIZE))
  }

  // ----- the search

  /** The four words at o could be the entry of MAKEROM. */
  predicate Candidate(data: seq<uint8>, o: nat) {
    && o + ENTRY_SIZE <= |data|
    && ReadU32(data, o) == 0 && ReadU32(data, o + 4) != 0 && ReadU32(data, o + 8) == 0 && ReadU32(data, o + 12) == 0
  }

  method FindDmadataStart(data: seq<uint8>, start: nat) returns (result: Status, offset: nat)
    ensures result == Ok || result == NoDmadata
    ensures Slot(start, offset)
    ensures forall o: nat :: Slot(start, o) && o < offset ==> !Candidate(data, o)
    ensures result == Ok ==> offset + ENTRY_SIZE <= |data| && Candidate(data, offset)
    ensures forall o: nat :: Slot(start, o) && o < offset ==> o + ENTRY_SIZE <= |data|
    ensures result == NoDmadata ==> offset + ENTRY_SIZE > |data|
    ensures result == NoDmadata ==> forall o: nat :: Slot(start, o) ==> !Candidate(data, o)
  {
    hide ReadU32;
    offset := start;
    while offset < |data| && |data| - offset >= ENTRY_SIZE
      invariant Slot(start, offset)
      invariant forall o: nat :: Slot(start, o) && o < offset ==> o + ENTRY_SIZE <= |data| && !Candidate(data, o)
      decreases |data| - offset
    {
      var entry := ReadEntry(data, offset);
      if CanBeMakerom(entry) {
        return Ok, offset;
      }
      NextSlot(start, offset);
      offset := offset + ENTRY_SIZE;
    }
    return NoDmadata, offset;
  }

  lemma NextSlot(base: nat, o: nat)
    requires Slot(base, o)
    ensures Slot(base, o + ENTRY_SIZE)
    ensures forall p: nat :: Slot(base, p) && o < p ==> o + ENTRY_SIZE <= p
  {}

  method ReadDmadataInfo(info0: DmadataInfo, offset: nat, romSize: nat, data: seq<uint8>)
    returns (result: Status, info: DmadataInfo)
    ensures result == OutOfRange <==> |data| < 3 * ENTRY_SIZE
    ensures result == OutOfRange ==> info == info0
    ensures |data| >= 3 * ENTRY_SIZE ==>
      var e2 := ReadEntry(data, 2 * ENTRY_SIZE);
      if Signature(ReadEntry(data, 0), ReadEntry(data, ENTRY_SIZE), e2, offset, romSize)
      then e2.vromStart <= e2.vromEnd && result == Ok && info == InfoOf(e2)
      else result == NoDmadata && info == NO_INFO
  {
    hide ReadU32;
    info := info0;
    if |data| < ENTRY_SIZE * 3 {
      return OutOfRange, info;
    }
    info := NO_INFO;
    var e0 := ReadEntry(data, ENTRY_SIZE * 0);
    var e1 := ReadEntry(data, ENTRY_SIZE * 1);
    var e2 := ReadEntry(data, ENTRY_SIZE * 2);
    if !CanBeMakerom(e0) {
      return NoDmadata, info;
    }
    var e1IsBootcode := e1.vromStart == e0.vromEnd && e1.romStart == e0.vromEnd && e1.romEnd == 0;
    var e2IsDmadata := e2.vromStart == e1.vromEnd && e2.romStart == e1.vromEnd && e2.romEnd == 0;
    if !e1IsBootcode || !e2IsDmadata {
      return NoDmadata, info;
    }
    if e1.vromEnd < e1.vromStart || e2.vromEnd as nat > romSize {
      return NoDmadata, info;
    }
    if e2.vromEnd <= e2.vromStart || e2.vromStart as nat != offset {
      return NoDmadata, info;
    }
    var span := e2.vromEnd - e2.vromStart;
    if span as nat % ENTRY_SIZE != 0 {
      return NoDmadata, info;
    }
    info := DmadataInfo(e2.vromStart, span, span as nat / ENTRY_SIZE);
    assert Chain(e0, e1, e2, offset, romSize, e0.vromEnd as nat, (e1.vromEnd - e1.vromStart) as nat, span as nat);
    return Ok, info;
  }

  method FindDmadata(rom: seq<uint8>) returns (result: Status, info: DmadataInfo)
    ensures match TableOffset(rom)
            case Some(o) => result == Ok && info == InfoAt(rom, o)
            case None => result == NoDmadata && info == NO_INFO
  {
    hide Candidate, Signature, ReadEntry, Slot;
    info := NO_INFO;
    var dmaStart := 0;
    FirstSlot(0);
    while true
      invariant Slot(0, dmaStart)
      invariant info == NO_INFO
      invariant forall o: nat :: Slot(0, o) && o < dmaStart ==> !DmadataAt(rom, o)
      decreases |rom| + ENTRY_SIZE - dmaStart
    {
      ghost var from := dmaStart;
      result, dmaStart := FindDmadataStart(rom, dmaStart);
      SkipToCandidate(rom, from, dmaStart, result == NoDmadata);
      if result != Ok {
        break;
      }
      var dmadata := rom[dmaStart..];
      ReadEntries(rom, dmaStart);
      result, info := ReadDmadataInfo(info, dmaStart, |rom|, dmadata);
      if result == Ok {
        break;
      }
      NextSlot(0, dmaStart);
      dmaStart := dmaStart + ENTRY_SIZE;
    }
    if result == Ok {
      assert LeastTable(rom, dmaStart);
      LeastTableUnique(rom, dmaStart, TableOffset(rom).value);
    }
  }

  lemma FirstSlot(base: nat)
    ensures Slot(base, base)
  {}

  lemma SlotsCompose(a: nat, b: nat, c: nat)
    requires Slot(a, b)
    ensures a <= b && (b <= c ==> (Slot(b, c) <==> Slot(a, c)))
    ensures Slot(b, c) ==> b <= c
  {}

  lemma TableIsCandidate(rom: seq<uint8>, o: nat)
    requires DmadataAt(rom, o)
    ensures Candidate(rom, o)
  {
    hide ReadU32;
  }

  /** What a scan from `from` to `to` says about tables. */
  lemma SkipToCandidate(rom: seq<uint8>, from: nat, to: nat, done: bool)
    requires Slot(0, from) && Slot(from, to)
    requires forall o: nat :: Slot(0, o) && o < from ==> !DmadataAt(rom, o)
    requires forall o: nat :: Slot(from, o) && (o < to || done) ==> !Candidate(rom, o)
    ensures Slot(0, to) && from <= to
    ensures forall o: nat :: Slot(0, o) && (o < to || done) ==> !DmadataAt(rom, o)
  {
    hide Slot, DmadataAt, Candidate;
    SlotsCompose(0, from, to);
    forall o: nat | Slot(0, o) && (o < to || done)
      ensures !DmadataAt(rom, o)
    {
      SlotsCompose(0, from, o);
      if DmadataAt(rom, o) {
        TableIsCandidate(rom, o);
      }
    }
  }

  lemma ReadEntries(rom: seq<uint8>, o: nat)
    requires o <= |rom|
    ensures forall k: nat :: k + ENTRY_SIZE <= |rom| - o ==> ReadEntry(rom[o..], k) == ReadEntry(rom, o + k)
  {
    hide ReadU32;
    forall k: nat | k + ENTRY_SIZE <= |rom| - o
      ensures ReadEntry(rom[o..], k) == ReadEntry(rom, o + k)
    {
      assert rom[o..] == rom[o..|rom|];
      EntrySlice(rom, o, |rom|, k);
    }
  }

  lemma EntrySlice(rom: seq<uint8>, lo: nat, hi: nat, k: nat)
    requires lo <= hi <= |rom| && k + ENTRY_SIZE <= hi - lo
    ensures ReadEntry(rom[lo..hi], k) == ReadEntry(rom, lo + k)
  {
    hide ReadU32;
    ReadSlice(rom, lo, hi, k);
    ReadSlice(rom, lo, hi, k + 4);
    ReadSlice(rom, lo, hi, k + 8);
    ReadSlice(rom, lo, hi, k + 12);
  }

  // ----- kinds and extents

  datatype DmaKind = Empty | Deleted | Uncompressed | Compressed

  function Kind(e: DmaEntry): DmaKind {
    if e.vromEnd == e.vromStart then Empty
    else if e.romEnd == UINT32_MAX then Deleted
    else if e.romEnd == 0 then Uncompressed
    else Compressed
  }

  datatype Range = Range(offset: uint32, size: uint32)

  /** Where the bytes of a file lie in the ROM. */
  function Extent(e: DmaEntry): Result<Range> {
    match Kind(e)
    case Empty => Success(Range(e.romStart, 0))
    case Deleted => Failure(InvalidParameter)
    case Uncompressed =>
      if e.vromStart > e.vromEnd then Failure(OutOfRange) else Success(Range(e.romStart, e.vromEnd - e.vromStart))
    case Compressed =>
      if e.romStart > e.romEnd then Failure(OutOfRange) else Success(Range(e.romStart, e.romEnd - e.romStart))
  }

  // ----- the table codec

  function EntryBytes(e: DmaEntry): (b: seq<uint8>)
    ensures |b| == ENTRY_SIZE
  {
    U32Bytes(e.vromStart) + U32Bytes(e.vromEnd) + U32Bytes(e.romStart) + U32Bytes(e.romEnd)
  }

  function EncodeTable(t: seq<DmaEntry>): (b: seq<uint8>)
    ensures |b| == ENTRY_SIZE * |t|
  {
    if |t| == 0 then [] else EncodeTable(t[..|t| - 1]) + EntryBytes(t[|t| - 1])
  }

  function DecodeTable(data: seq<uint8>, n: nat): (t: seq<DmaEntry>)
    requires ENTRY_SIZE * n <= |data|
    ensures |t| == n
  {
    if n == 0 then [] else DecodeTable(data, n - 1) + [ReadEntry(data, ENTRY_SIZE * (n - 1))]
  }

  method ReadDmadata(entries: array<DmaEntry>, base: nat, count: nat, data: seq<uint8>)
    returns (result: Status)
    requires base + count <= entries.Length
    modifies entries
    ensures result == if ENTRY_SIZE * count > |data| then OutOfRange else Ok
    ensures entries[..] ==
      if result == Ok then Splice(old(entries[..]), base, DecodeTable(data, count)) else old(entries[..])
  {
    hide ReadEntry;
    if count > |data| / ENTRY_SIZE {
      return OutOfRange;
    }
    ghost var was := entries[..];
    for i := 0 to count
      invariant entries[..base] == was[..base] && entries[base + i..] == was[base + i..]
      invariant entries[base..base + i] == DecodeTable(data, i)
    {
      var position := i * ENTRY_SIZE;
      entries[base + i] := ReadEntry(data, position);
    }
    assert entries[..] == entries[..base] + entries[base..base + count] + entries[base + count..];
    return Ok;
  }

  method WriteDmadata(data: array<uint8>, entries: seq<DmaEntry>) returns (result: Status)
    modifies data
    ensures result == if ENTRY_SIZE * |entries| > data.Length then OutOfRange else Ok
    ensures data[..] == if result == Ok then Splice(old(data[..]), 0, EncodeTable(entries)) else old(data[..])
  {
    hide U32Bytes, EntryBytes;
    if |entries| > data.Length / ENTRY_SIZE {
      return OutOfRange;
    }
    ghost var was := data[..];
    for i := 0 to |entries|
      invariant data[..] == EncodeTable(entries[..i]) + was[ENTRY_SIZE * i..]
    {
      WriteEntry(data, i * ENTRY_SIZE, entries[i]);
      assert entries[..i + 1][..i] == entries[..i];
    }
    assert entries[..|entries|] == entries;
    return Ok;
  }

  /** The body of WriteDmadata's loop. */
  method WriteEntry(data: array<uint8>, position: nat, entry: DmaEntry)
    requires position + ENTRY_SIZE <= data.Length
    modifies data
    ensures data[..] == Splice(old(data[..]), position, EntryBytes(entry))
  {
    hide U32Bytes;
    WriteU32(data, position + 0, entry.vromStart);
    WriteU32(data, position + 4, entry.vromEnd);
    WriteU32(data, position + 8, entry.romStart);
    WriteU32(data, position + 12, entry.romEnd);
  }
}
