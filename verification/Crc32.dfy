/**
 The checksum of src/crc32.c: a byte loop over a table, proved to compute the bit-serial
 division by the reflected CRC-32 generator (clause 3.2.9 of IEEE 802.3, section 8 of
 RFC 1952), and what follows from the definition.
 */
module Crc32 {
  import opened Bytes
  import opened Crc32Table

  // ----- the definition: division, one message bit at a time

  function Divide(reg: bv32, bits: seq<bool>): bv32
    decreases |bits|
  {
    if |bits| == 0 then reg else Divide(DivideBit(reg, bits[0]), bits[1..])
  }

  /** The n low bits of x, least significant first: the order in which they are sent. */
  function LowBits(x: bv8, n: nat): (bits: seq<bool>)
    ensures |bits| == n
    decreases n
  {
    if n == 0 then [] else [x & 1 == 1] + LowBits(x >> 1, n - 1)
  }

  function BitsOf(x: bv8): (bits: seq<bool>)
    ensures |bits| == 8
  {
    LowBits(x, 8)
  }

  function Bits(data: seq<uint8>): (bits: seq<bool>)
    ensures |bits| == 8 * |data|
  {
    if |data| == 0 then [] else BitsOf(data[0] as bv8) + Bits(data[1..])
  }

  function Complement(x: bv32): bv32 {
    !x
  }

  /** The checksum of data, continuing from crc: complement, divide, complement. */
  function Crc(crc: bv32, data: seq<uint8>): bv32 {
    Complement(Divide(Complement(crc), Bits(data)))
  }

  // ----- the table-driven loop computes it

  method ComputeCrc32(crc: bv32, data: seq<uint8>) returns (r: bv32)
    ensures r == Crc(crc, data)
  {
    r := Complement(crc);
    var i := 0;
    assert data[..0] == [];
    while i < |data|
      invariant 0 <= i <= |data|
      invariant r == Divide(Complement(crc), Bits(data[..i]))
    {
      var x := data[i] as bv8;
      TableStep(r, x);
      BitsSnoc(data, i);
      DivideConcat(Complement(crc), Bits(data[..i]), BitsOf(x));
      r := CRC32_TABLE[((r ^ x as bv32) & 0xFF) as bv8 as nat] ^ (r >> 8);
      i := i + 1;
    }
    assert data[..i] == data;
    r := Complement(r);
  }

  /** One table look-up divides by the eight bits of a byte. */
  lemma TableStep(c: bv32, x: bv8)
    ensures |CRC32_TABLE| == 256
    ensures Divide(c, BitsOf(x)) == CRC32_TABLE[((c ^ x as bv32) & 0xFF) as bv8 as nat] ^ (c >> 8)
  {
    var low := ((c ^ x as bv32) & 0xFF) as bv8;
    DivideByByte(c, x, low);
    TableEntry(low);
  }

  lemma DivideByByte(c: bv32, x: bv8, low: bv8)
    requires low as bv32 == (c ^ x as bv32) & 0xFF
    ensures Divide(c, BitsOf(x)) == EightSteps(low as bv32) ^ (c >> 8)
  {
    hide EightSteps, Divide, BitsOf, Room, Up;
    DivideIsEightSteps(c, x);
    SplitWord(c ^ x as bv32, c);
    EightStepsSplit(c ^ x as bv32, low as bv32, c >> 8);
  }

  lemma DivideIsEightSteps(c: bv32, x: bv8)
    ensures Divide(c, BitsOf(x)) == EightSteps(c ^ x as bv32)
  {
    hide EightSteps, Steps, Word, Divide, BitsOf;
    DivideIsSteps(c, BitsOf(x));
    WordOfByte(x);
    StepsEight(Add(c, x as bv32));
  }

  lemma EightStepsSplit(v: bv32, low: bv32, y: bv32)
    requires Room(y, 8) && v == Add(low, Up(y, 8))
    ensures EightSteps(v) == EightSteps(low) ^ y
  {
    hide EightSteps, Steps, Room, Up;
    StepsEight(v);
    StepsEight(low);
    StepsShift(low, y, 8);
  }

  /** Addition of remainders, which are polynomials over the field of two elements. */
  function Add(a: bv32, b: bv32): bv32 {
    a ^ b
  }

  function Twice(a: bv32): bv32 {
    a << 1
  }

  predicate TopClear(a: bv32) {
    a & 0x8000_0000 == 0
  }

  lemma AddIsXor(a: bv32, b: bv32)
    ensures Add(a, b) == a ^ b
  {}

  lemma AddAssociates(a: bv32, b: bv32, c: bv32)
    ensures Add(Add(a, b), c) == Add(a, Add(b, c)) && Add(a, b) == Add(b, a)
  {}

  lemma TwiceAdd(a: bv32, b: bv32)
    ensures Twice(Add(a, b)) == Add(Twice(a), Twice(b))
  {}

  /** The parts of a division step: shift, and feed back if the bit that leaves says so. */
  predicate Odd(a: bv32) {
    a & 1 == 1
  }

  function Half(a: bv32): bv32 {
    a >> 1
  }

  function Feedback(b: bool): bv32 {
    if b then GENERATOR else 0
  }

  lemma AddZero(a: bv32)
    ensures Add(a, 0) == a
  {}

  lemma DivideBitParts(r: bv32, bit: bool)
    ensures DivideBit(r, bit) == Add(Half(r), Feedback(Odd(r) != bit))
  {
    hide Add;
    if Odd(r) != bit {
      AddIsXor(Half(r), GENERATOR);
    } else {
      AddZero(Half(r));
    }
  }

  lemma ShiftedOdd(x: bv32, y: bv32)
    ensures Odd(Add(x, Twice(y))) == Odd(x)
  {}

  lemma ShiftedHalf(x: bv32, y: bv32)
    requires TopClear(y)
    ensures Half(Add(x, Twice(y))) == Add(Half(x), y)
  {}

  /** A zero bit shifted out leaves the rest of the register alone. */
  lemma StepShift(x: bv32, y: bv32)
    requires TopClear(y)
    ensures Step(Add(x, Twice(y))) == Add(Step(x), y)
  {
    hide Add, Twice, TopClear, Odd, Half, Feedback, DivideBit;
    DivideBitParts(x, false);
    DivideBitParts(Add(x, Twice(y)), false);
    ShiftedOdd(x, y);
    ShiftedHalf(x, y);
    AddAssociates(Half(x), y, Feedback(Odd(x)));
    AddAssociates(y, Feedback(Odd(x)), 0);
    AddAssociates(Half(x), Feedback(Odd(x)), y);
  }

  function Steps(c: bv32, n: nat): bv32
    decreases n
  {
    if n == 0 then c else Steps(Step(c), n - 1)
  }

  /** y moved up n places. */
  function Up(y: bv32, n: nat): bv32 {
    if n == 0 then y else Twice(Up(y, n - 1))
  }

  predicate Room(y: bv32, n: nat) {
    n == 0 || (Room(y, n - 1) && TopClear(Up(y, n - 1)))
  }

  lemma {:induction false} StepsShift(x: bv32, y: bv32, n: nat)
    requires Room(y, n)
    ensures Steps(Add(x, Up(y, n)), n) == Add(Steps(x, n), y)
    decreases n
  {
    hide Add, Step, Twice, TopClear;
    if n > 0 {
      StepShift(x, Up(y, n - 1));
      StepsShift(Step(x), y, n - 1);
    }
  }

  lemma StepsEight(c: bv32)
    ensures Steps(c, 8) == EightSteps(c)
  {
    hide Step;
  }

  lemma SplitWord(v: bv32, c: bv32)
    requires v >> 8 == c >> 8
    ensures Room(c >> 8, 8) && v == Add(v & 0xFF, Up(c >> 8, 8))
  {
    UpEight(c >> 8);
  }

  lemma UpEight(y: bv32)
    requires y & 0xFF00_0000 == 0
    ensures Room(y, 8) && Up(y, 8) == y << 8
  {
    assert Room(y, 1) && Up(y, 1) == y << 1;
    assert Room(y, 2) && Up(y, 2) == y << 2;
    assert Room(y, 3) && Up(y, 3) == y << 3;
    assert Room(y, 4) && Up(y, 4) == y << 4;
    assert Room(y, 5) && Up(y, 5) == y << 5;
    assert Room(y, 6) && Up(y, 6) == y << 6;
    assert Room(y, 7) && Up(y, 7) == y << 7;
  }

  // ----- up to 32 message bits act like a word added to the register

  /** The word with these bits, least significant first. */
  function Word(bits: seq<bool>): bv32
    decreases |bits|
  {
    if |bits| == 0 then 0 else Add(Bit(bits[0]), Twice(Word(bits[1..])))
  }

  function Bit(b: bool): bv32 {
    if b then 1 else 0
  }

  lemma WordOfByte(x: bv8)
    ensures Word(BitsOf(x)) == x as bv32
  {
    assert Fits(x, 8) by {
      assert Fits(x >> 4, 4);
    }
    WordOfLowBits(x, 8);
  }

  predicate Fits(x: bv8, n: nat)
    decreases n
  {
    if n == 0 then x == 0 else Fits(x >> 1, n - 1)
  }

  lemma {:induction false} WordOfLowBits(x: bv8, n: nat)
    requires Fits(x, n)
    ensures Word(LowBits(x, n)) == x as bv32
    decreases n
  {
    if n > 0 {
      WordOfLowBits(x >> 1, n - 1);
      assert LowBits(x, n)[1..] == LowBits(x >> 1, n - 1);
      JoinLowBit(x);
    }
  }

  lemma JoinLowBit(x: bv8)
    ensures Add(Bit(x & 1 == 1), Twice((x >> 1) as bv32)) == x as bv32
  {}

  function Mask(n: nat): bv32 {
    if n == 0 then 0 else Add(1, Twice(Mask(n - 1)))
  }

  predicate Within(w: bv32, mask: bv32) {
    w & !mask == 0
  }

  lemma WithinShift(w: bv32, m: bv32, b: bv32)
    requires Within(w, m) && b <= 1
    ensures Within(Add(b, Twice(w)), Add(1, Twice(m)))
  {}

  lemma {:induction false} WordFits(bits: seq<bool>)
    ensures Within(Word(bits), Mask(|bits|))
    decreases |bits|
  {
    hide Within, Add, Twice;
    if |bits| == 0 {
      NothingFits(0);
    } else {
      WordFits(bits[1..]);
      WithinShift(Word(bits[1..]), Mask(|bits| - 1), Bit(bits[0]));
    }
  }

  lemma NothingFits(m: bv32)
    ensures Within(0, m)
  {}

  lemma {:induction false} MaskGrows(n: nat)
    ensures Within(Mask(n), Mask(n + 1))
  {
    hide Within, Add, Twice;
    if n == 0 {
      NothingFits(Mask(1));
    } else {
      MaskGrows(n - 1);
      WithinShift(Mask(n - 1), Mask(n), 1);
    }
  }

  lemma WithinTop(w: bv32, m: bv32)
    requires Within(w, m) && TopClear(m)
    ensures TopClear(w)
  {}

  lemma {:induction false} MaskTop(n: nat)
    requires n <= 31
    ensures TopClear(Mask(n))
    decreases 31 - n
  {
    if n == 31 {
      assert Mask(8) == 0xFF && Mask(16) == 0xFFFF && Mask(24) == 0xFF_FFFF;
    } else {
      MaskTop(n + 1);
      MaskGrows(n);
      WithinTop(Mask(n), Mask(n + 1));
    }
  }

  lemma WordTop(bits: seq<bool>)
    requires |bits| <= 31
    ensures TopClear(Word(bits))
  {
    hide Within, TopClear;
    WordFits(bits);
    MaskTop(|bits|);
    WithinTop(Word(bits), Mask(|bits|));
  }

  lemma {:induction false} DivideIsSteps(c: bv32, bits: seq<bool>)
    requires |bits| <= 32
    ensures Divide(c, bits) == Steps(Add(c, Word(bits)), |bits|)
    decreases |bits|
  {
    hide DivideBit, Step, Bit, Add, Twice, TopClear;
    if |bits| > 0 {
      var rest := Word(bits[1..]);
      DivideIsSteps(DivideBit(c, bits[0]), bits[1..]);
      WordTop(bits[1..]);
      BitIsStep(c, bits[0], rest);
    } else {
      AddIsXor(c, 0);
    }
  }

  lemma BitIsStep(c: bv32, bit: bool, rest: bv32)
    requires TopClear(rest)
    ensures Step(Add(c, Add(Bit(bit), Twice(rest)))) == Add(DivideBit(c, bit), rest)
  {
    hide DivideBit, Step, Bit, Add, Twice, TopClear;
    AddAssociates(c, Bit(bit), Twice(rest));
    StepShift(Add(c, Bit(bit)), rest);
    StepOfBit(c, bit);
  }

  lemma StepOfBit(c: bv32, bit: bool)
    ensures Step(Add(c, Bit(bit))) == DivideBit(c, bit)
  {
    hide Add, Odd, Half, Feedback, DivideBit, Bit;
    DivideBitParts(c, bit);
    DivideBitParts(Add(c, Bit(bit)), false);
    LastBitOdd(c, bit);
    LastBitHalf(c, bit);
  }

  lemma LastBitOdd(c: bv32, bit: bool)
    ensures Odd(Add(c, Bit(bit))) == (Odd(c) != bit)
  {}

  lemma LastBitHalf(c: bv32, bit: bool)
    ensures Half(Add(c, Bit(bit))) == Half(c)
  {}

  // ----- composition

  lemma {:induction false} DivideConcat(reg: bv32, a: seq<bool>, b: seq<bool>)
    ensures Divide(reg, a + b) == Divide(Divide(reg, a), b)
    decreases |a|
  {
    hide DivideBit;
    if |a| == 0 {
      assert a + b == b;
    } else {
      assert (a + b)[1..] == a[1..] + b;
      DivideConcat(DivideBit(reg, a[0]), a[1..], b);
    }
  }

  lemma {:induction false} BitsConcat(a: seq<uint8>, b: seq<uint8>)
    ensures Bits(a + b) == Bits(a) + Bits(b)
  {
    hide BitsOf;
    if |a| == 0 {
      assert a + b == b;
    } else {
      assert (a + b)[1..] == a[1..] + b;
      BitsConcat(a[1..], b);
    }
  }

  lemma BitsSnoc(data: seq<uint8>, i: nat)
    requires i < |data|
    ensures Bits(data[..i + 1]) == Bits(data[..i]) + BitsOf(data[i] as bv8)
  {
    hide BitsOf;
    assert data[..i + 1] == data[..i] + [data[i]];
    BitsConcat(data[..i], [data[i]]);
    assert Bits([data[i]]) == BitsOf(data[i] as bv8);
  }

  /** Checksumming in two calls is checksumming in one. */
  lemma CrcComposes(crc: bv32, a: seq<uint8>, b: seq<uint8>)
    ensures Crc(Crc(crc, a), b) == Crc(crc, a + b)
  {
    hide Divide, Bits, Complement;
    BitsConcat(a, b);
    DivideConcat(Complement(crc), Bits(a), Bits(b));
    ComplementTwice(Divide(Complement(crc), Bits(a)));
  }

  lemma ComplementTwice(x: bv32)
    ensures Complement(Complement(x)) == x
  {}
}
