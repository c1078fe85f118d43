/** The decompression run of utils/decompress.c. */
module Decompress {
  import opened Bytes
  import opened Status
  import opened Files
  import opened Dma
  import opened RomFile

  /** The size of the image that the program writes. */
  const DECOMPRESSED_SIZE: nat := 0x400_0000

  predicate Live(e: DmaEntry) {
    Kind(e).Uncompressed? || Kind(e).Compressed?
  }

  /** The bytes of a file as they should be in the image. */
  function Content(rom: seq<uint8>, e: DmaEntry, yaz0: Decoder): Result<seq<uint8>> {
    if Kind(e).Compressed? then ExpandedBytes(rom, e, yaz0) else StoredBytes(rom, e)
  }

  function NewEntry(e: DmaEntry): DmaEntry {
    if Live(e) then Moved(e) else e
  }

  function NewTable(t: seq<DmaEntry>): (u: seq<DmaEntry>)
    ensures |u| == |t|
  {
    seq(|t|, i requires 0 <= i < |t| => NewEntry(t[i]))
  }

  /** The image after the files of table t are placed in it one after the other. */
  function PlaceFiles(rom: seq<uint8>, t: seq<DmaEntry>, yaz0: Decoder, image: seq<uint8>): Result<seq<uint8>> {
    if |t| == 0 then Success(image)
    else
      var e := t[|t| - 1];
      match PlaceFiles(rom, t[..|t| - 1], yaz0, image)
      case Failure(error) => Failure(error)
      case Success(placed) =>
        if !Live(e) then Success(placed)
        else
          match Content(rom, e, yaz0)
          case Failure(error) => Failure(error)
          case Success(data) => Success(Overwrite(placed, e.vromStart as nat, data))
  }

  /** The image after the table has been written as well. */
  function WithTable(placed: seq<uint8>, src: Opened): seq<uint8> {
    Overwrite(placed, src.dmaInfo.offset as nat, EncodeTable(NewTable(src.dmaTable)))
  }

  /** The image that a run writes, from the bytes of the input file. */
  ghost function Decompressed(rom: seq<uint8>, yaz0: Decoder, outSize: nat): Result<seq<uint8>> {
    match OpenSpec(rom)
    case Failure(error) => Failure(error)
    case Success(src) =>
      match PlaceFiles(rom, src.dmaTable, yaz0, Zeros(outSize))
      case Failure(error) => Failure(error)
      case Success(placed) =>
        Finalized(WithTable(placed, src), NewEntry(src.dmaTable[0]))
  }

  method Run(inFile: File, outFile: File, outSize: nat, yaz0: Decoder) returns (result: Status)
    requires inFile != outFile
    modifies inFile`pos, outFile
    ensures result == StatusOf(Decompressed(inFile.bytes, yaz0, outSize))
    ensures result == Ok <==> Decompressed(inFile.bytes, yaz0, outSize).Success?
    ensures result == Ok ==> Decompressed(inFile.bytes, yaz0, outSize) == Success(outFile.bytes)
  {
    hide OpenSpec, Finalized, StoredBytes, ExpandedBytes, PlaceFiles, Overwrite, EncodeTable, Moved;
    var inRom := new Rom(inFile);
    result := inRom.Open();
    if result != Ok {
      return result;
    }
    ghost var rom, t := inFile.bytes, inRom.dmaTable[..];
    ghost var src := OpenSpec(rom).value;
    var outRom := new Rom(outFile);
    outRom.Create(outSize, inRom.dmaInfo);
    PlaceNothing(rom, t, yaz0, Zeros(outSize));
    var i := 0;
    while i < inRom.dmaInfo.count
      invariant i <= inRom.dmaInfo.count == |t| && inRom.dmaTable.Length == |t| == outRom.dmaTable.Length
      invariant inFile.bytes == rom && inRom.dmaTable[..] == t && outRom.dmaInfo == inRom.dmaInfo == src.dmaInfo
      invariant inRom.file == inFile && outRom.file == outFile && inRom.dmaTable != outRom.dmaTable
      invariant fresh(inRom) && fresh(outRom) && fresh(inRom.dmaTable) && fresh(outRom.dmaTable)
      invariant PlaceFiles(rom, t[..i], yaz0, Zeros(outSize)) == Success(outFile.bytes)
      invariant forall k :: 0 <= k < i ==> outRom.dmaTable[k] == NewEntry(t[k])
      decreases |t| - i
    {
      var inEntry := inRom.dmaTable[i];
      PlaceOne(rom, t, yaz0, Zeros(outSize), i);
      match Kind(inEntry) {
        case Empty =>
          outRom.dmaTable[i] := inEntry;
        case Deleted =>
          outRom.dmaTable[i] := inEntry;
        case Uncompressed =>
          result := outRom.CopyFile(inRom, i);
          if result != Ok {
            PlaceFailed(rom, t, yaz0, Zeros(outSize), i + 1);
            return result;
          }
        case Compressed =>
          result := outRom.DecompressFile(inRom, i, yaz0);
          if result != Ok {
            PlaceFailed(rom, t, yaz0, Zeros(outSize), i + 1);
            return result;
          }
      }
      i := i + 1;
    }
    assert t[..i] == t;
    assert outRom.dmaTable[..] == NewTable(t);
    result := outRom.WriteDmadataToRom();
    if result != Ok {
      return result;
    }
    result := outRom.Finalize();
  }

  lemma PlaceNothing(rom: seq<uint8>, t: seq<DmaEntry>, yaz0: Decoder, image: seq<uint8>)
    ensures PlaceFiles(rom, t[..0], yaz0, image) == Success(image)
  {}

  /** One step of PlaceFiles. */
  lemma PlaceOne(rom: seq<uint8>, t: seq<DmaEntry>, yaz0: Decoder, image: seq<uint8>, i: nat)
    requires i < |t| && PlaceFiles(rom, t[..i], yaz0, image).Success?
    ensures var placed := PlaceFiles(rom, t[..i], yaz0, image).value;
            PlaceFiles(rom, t[..i + 1], yaz0, image) ==
              if !Live(t[i]) then Success(placed)
              else match Content(rom, t[i], yaz0)
                   case Failure(error) => Failure(error)
                   case Success(data) => Success(Overwrite(placed, t[i].vromStart as nat, data))
  {
    hide Content, Overwrite, Live;
    assert t[..i + 1][..i] == t[..i];
  }

  /** Once a file fails, the whole run does, with the same code. */
  lemma {:induction false} PlaceFailed(rom: seq<uint8>, t: seq<DmaEntry>, yaz0: Decoder, image: seq<uint8>, i: nat)
    requires i <= |t| && PlaceFiles(rom, t[..i], yaz0, image).Failure?
    ensures PlaceFiles(rom, t, yaz0, image) == PlaceFiles(rom, t[..i], yaz0, image)
    decreases |t| - i
  {
    hide Content, Overwrite, Live;
    if i == |t| {
      assert t[..i] == t;
    } else {
      assert t[..i + 1][..i] == t[..i];
      PlaceFailed(rom, t, yaz0, image, i + 1);
    }
  }
}
