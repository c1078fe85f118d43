/** The CIC check-code engine of src/rom.c: seeds, one word's step, and the streaming interface. */
module CheckCode {
  import opened Bytes
  import opened Words
  import opened Status

  datatype Cic = CicUnknown | Cic6101 | Cic6102 | Cic6103 | Cic6105 | Cic6106

  function CicForCrc32(crc: bv32): Cic {
    if crc == 0x6170A4A1 then Cic6101
    else if crc == 0x90BB6CB5 then Cic6102
    else if crc == 0x0B050EE0 then Cic6103
    else if crc == 0x98BC2C86 then Cic6105
    else if crc == 0xACC8580A then Cic6106
    else CicUnknown
  }

  function Seed(cic: Cic): uint32 {
    match cic
    case Cic6101 => 0xF8CA4DDC
    case Cic6102 => 0xF8CA4DDC
    case Cic6103 => 0xA3886759
    case Cic6105 => 0xDF26F436
    case Cic6106 => 0x1FEA617A
    case CicUnknown => 0
  }

  /** Bytes of a boot block that the 6105 variant needs. */
  const IPL_SIZE: nat := 0x810

  /** Where the checked part of a ROM starts and ends. */
  const CHECK_START: nat := 0x1000
  const CHECK_END: nat := 0x10_1000

  // ----- one word

  datatype Accumulators = Accumulators(a0: uint32, a1: uint32, a2: uint32, a3: uint32, a4: uint32, a5: uint32)

  function Seeded(seed: uint32): Accumulators {
    Accumulators(seed, seed, seed, seed, seed, seed)
  }

  /** A 6105 needs its boot block; every other chip works without one. */
  predicate HasIpl(cic: Cic, ipl: seq<uint8>) {
    cic.Cic6105? ==> |ipl| >= IPL_SIZE
  }

  predicate Aligned(n: nat) {
    n % 4 == 0
  }

  /** The position of word n of data that starts at pos. */
  function WordAt(pos: nat, n: nat): (p: nat)
    requires Aligned(pos)
    ensures Aligned(p)
  {
    pos + 4 * n
  }

  /** Where the 6105 variant reads the boot block for the word at position pos of the ROM. */
  function IplIndex(pos: nat): (i: nat)
    requires Aligned(pos)
    ensures 0x710 <= i && i + 4 <= IPL_SIZE && Aligned(i)
  {
    0x710 + pos % 0x100
  }

  function Step(cic: Cic, ipl: seq<uint8>, pos: nat, a: Accumulators, d: uint32): Accumulators
    requires HasIpl(cic, ipl) && Aligned(pos)
  {
    var a5 := Add32(a.a5, d);
    var a3 := if a5 < a.a5 then Add32(a.a3, 1) else a.a3;
    var a2 := Xor32(a.a2, d);
    var r := Rotate32(d, d as nat % 32);
    var a4 := Add32(a.a4, r);
    var a1 := if a.a1 > d then Xor32(a.a1, r) else Xor32(a.a1, Xor32(a5, d));
    var mix := if cic.Cic6105? then ReadU32(ipl, IplIndex(pos)) else a4;
    Accumulators(Add32(a.a0, Xor32(mix, d)), a1, a2, a3, a4, a5)
  }

  /** The accumulators after the words ws, the first of which lies at position pos. */
  function Fold(cic: Cic, ipl: seq<uint8>, pos: nat, a: Accumulators, ws: seq<uint32>): Accumulators
    requires HasIpl(cic, ipl) && Aligned(pos)
  {
    if |ws| == 0 then a
    else Step(cic, ipl, WordAt(pos, |ws| - 1), Fold(cic, ipl, pos, a, ws[..|ws| - 1]), ws[|ws| - 1])
  }

  /** The big-endian words of data. */
  function WordsOf(data: seq<uint8>): (ws: seq<uint32>)
    ensures |ws| == |data| / 4
  {
    seq(|data| / 4, i requires 0 <= i < |data| / 4 => ReadU32(data, 4 * i))
  }

  function Mix(cic: Cic, a: Accumulators): uint64 {
    match cic
    case Cic6103 =>
      Join(Add32(Xor32(a.a5, a.a3), a.a2), Add32(Xor32(a.a4, a.a1), a.a0))
    case Cic6106 =>
      Join(Add32(Mul32(a.a5, a.a3), a.a2), Add32(Mul32(a.a4, a.a1), a.a0))
    case _ =>
      Join(Xor32(Xor32(a.a5, a.a3), a.a2), Xor32(Xor32(a.a4, a.a1), a.a0))
  }

  function Join(high: uint32, low: uint32): uint64 {
    (high as nat * WORD + low as nat) as uint64
  }

  function High(code: uint64): uint32 {
    (code as nat / WORD) as uint32
  }

  function Low(code: uint64): uint32 {
    (code as nat % WORD) as uint32
  }

  /** The check code of the words ws that follow position CHECK_START. */
  function CheckCodeOf(cic: Cic, ipl: seq<uint8>, ws: seq<uint32>): uint64
    requires HasIpl(cic, ipl)
  {
    Mix(cic, Fold(cic, ipl, CHECK_START, Seeded(Seed(cic)), ws))
  }

  // ----- the streaming interface

  /** The value of a check-code state. */
  datatype Stream = Stream(cic: Cic, acc: Accumulators, offset: nat, ipl: seq<uint8>)

  function Min(a: nat, b: nat): nat {
    if a < b then a else b
  }

  /** How many of n bytes an update at this offset still takes in. */
  function Taken(offset: nat, n: nat): nat {
    if offset < CHECK_END then Min(n, CHECK_END - offset) else 0
  }

  predicate Accepts(s: Stream, data: seq<uint8>) {
    Aligned(|data|) && HasIpl(s.cic, s.ipl)
  }

  function Advance(s: Stream, data: seq<uint8>): Stream
    requires Aligned(s.offset) && Accepts(s, data)
  {
    var n := Taken(s.offset, |data|);
    s.(acc := Fold(s.cic, s.ipl, s.offset, s.acc, WordsOf(data[..n])), offset := s.offset + n)
  }

  class CheckCodeState {
    var cic: Cic
    var acc: array<uint32>
    var offset: nat
    var ipl: seq<uint8>

    constructor ()
      ensures Valid() && fresh(acc)
    {
      cic := CicUnknown;
      acc := new uint32[6](i => 0);
      offset := 0;
      ipl := [];
    }

    predicate Valid()
      reads this
    {
      acc.Length == 6 && Aligned(offset)
    }

    function Acc(): Accumulators
      requires Valid()
      reads this, acc
    {
      Accumulators(acc[0], acc[1], acc[2], acc[3], acc[4], acc[5])
    }

    function Value(): Stream
      requires Valid()
      reads this, acc
    {
      Stream(cic, Acc(), offset, ipl)
    }

    method Init(cic: Cic, ipl: seq<uint8>) returns (result: Status)
      requires Valid()
      modifies this, acc
      ensures Valid() && acc == old(acc)
      ensures result == if (cic.Cic6105? ==> |ipl| >= 0x810) && Seed(cic) != 0 then Ok else InvalidParameter
      ensures Value() == if result.Ok? then Stream(cic, Seeded(Seed(cic)), CHECK_START, ipl) else old(Value())
    {
      if cic.Cic6105? && |ipl| < IPL_SIZE {
        return InvalidParameter;
      }
      var seed := Seed(cic);
      if seed == 0 {
        return InvalidParameter;
      }
      this.cic := cic;
      acc[0], acc[1], acc[2], acc[3], acc[4], acc[5] := seed, seed, seed, seed, seed, seed;
      offset := 0x1000;
      this.ipl := ipl;
      return Ok;
    }

    method Update(data: seq<uint8>) returns (result: Status)
      requires Valid()
      modifies this, acc
      ensures Valid() && acc == old(acc)
      ensures result == if |data| % 4 == 0 && (old(cic).Cic6105? ==> |old(ipl)| >= 0x810) then Ok else InvalidParameter
      ensures Value() == if result.Ok? then Advance(old(Value()), data) else old(Value())
    {
      hide Fold, WordsOf, Aligned;
      AlignedStart(|data|);
      if !Aligned(|data|) {
        return InvalidParameter;
      }
      if cic.Cic6105? && |ipl| < IPL_SIZE {
        return InvalidParameter;
      }
      ghost var s := Value();
      var start := offset;
      var i := 0;
      FoldNothing(s, data);
      while offset < 0x10_1000 && i + 4 <= |data|
        invariant Valid() && acc == old(acc) && cic == s.cic && ipl == s.ipl
        invariant Aligned(i) && i <= |data| && offset == start + i
        invariant i > 0 ==> offset <= CHECK_END
        invariant Acc() == Fold(s.cic, s.ipl, start, s.acc, WordsOf(data[..i]))
        decreases |data| - i
      {
        var d := ReadU32(data, i);
        AlignedNext(i);
        AlignedNext(offset);
        FoldWord(s, data, i);
        StepWord(d, start + i);
        i := i + 4;
        offset := offset + 4;
      }
      assert i == Taken(start, |data|);
      return Ok;
    }

    /** The body of Update's loop, for the word d at position pos. */
    method StepWord(d: uint32, pos: nat)
      requires Valid() && HasIpl(cic, ipl) && Aligned(pos)
      modifies acc
      ensures Acc() == Step(cic, ipl, pos, old(Acc()), d)
    {
      hide Add32, Xor32, Rotate32, ReadU32;
      if Add32(acc[5], d) < acc[5] {
        acc[3] := Add32(acc[3], 1);
      }
      acc[5] := Add32(acc[5], d);
      acc[2] := Xor32(acc[2], d);
      var r := Rotate32(d, d as nat % 0x20);
      acc[4] := Add32(acc[4], r);
      if acc[1] > d {
        acc[1] := Xor32(acc[1], r);
      } else {
        acc[1] := Xor32(acc[1], Xor32(acc[5], d));
      }
      if cic.Cic6105? {
        var makeromOffset := 0x710 + pos % 0x100;
        var b := ReadU32(ipl, makeromOffset);
        acc[0] := Add32(acc[0], Xor32(b, d));
      } else {
        acc[0] := Add32(acc[0], Xor32(acc[4], d));
      }
    }
  }

  lemma AlignedStart(n: nat)
    ensures Aligned(0) && (Aligned(n) <==> n % 4 == 0)
    ensures Aligned(n) ==> forall i :: 0 <= i <= n && Aligned(i) && n < i + 4 ==> i == n
  {}

  lemma AlignedNext(i: nat)
    requires Aligned(i)
    ensures Aligned(i + 4) && (i < CHECK_END ==> i + 4 <= CHECK_END)
  {}

  lemma FoldNothing(s: Stream, data: seq<uint8>)
    requires HasIpl(s.cic, s.ipl) && Aligned(s.offset)
    ensures Fold(s.cic, s.ipl, s.offset, s.acc, WordsOf(data[..0])) == s.acc
  {}

  /** Taking in the word at i of data is one more step of the fold. */
  lemma FoldWord(s: Stream, data: seq<uint8>, i: nat)
    requires HasIpl(s.cic, s.ipl) && Aligned(s.offset) && Aligned(i) && i + 4 <= |data|
    ensures Fold(s.cic, s.ipl, s.offset, s.acc, WordsOf(data[..i + 4]))
         == Step(s.cic, s.ipl, s.offset + i, Fold(s.cic, s.ipl, s.offset, s.acc, WordsOf(data[..i])), ReadU32(data, i))
  {
    hide Step, ReadU32;
    WordsOfPrefix(data, i);
    WordsOfPrefix(data, i + 4);
    var ws := WordsOf(data[..i + 4]);
    assert ws[..|ws| - 1] == WordsOf(data[..i]);
  }

  lemma WordsOfPrefix(data: seq<uint8>, i: nat)
    requires Aligned(i) && i <= |data|
    ensures WordsOf(data[..i]) == WordsOf(data)[..i / 4]
  {
    hide ReadU32;
    forall k: nat | k < i / 4
      ensures WordsOf(data[..i])[k] == WordsOf(data)[k]
    {
      ReadSlice(data, 0, i, 4 * k);
    }
  }
}
