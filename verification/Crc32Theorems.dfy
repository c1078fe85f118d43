/** What the checksum of src/crc32.c guarantees: error detection, affinity and its residue. */
module Crc32Theorems {
  import opened Bytes
  import opened Crc32Table
  import opened Crc32

  // ----- error detection

  lemma StepInjective(a: bv32, b: bv32)
    requires Step(a) == Step(b)
    ensures a == b
  {}

  lemma {:induction false} StepsInjective(a: bv32, b: bv32, n: nat)
    requires Steps(a, n) == Steps(b, n)
    ensures a == b
    decreases n
  {
    hide Step;
    if n > 0 {
      StepsInjective(Step(a), Step(b), n - 1);
      StepInjective(a, b);
    }
  }

  lemma AddCancels(c: bv32, a: bv32, b: bv32)
    requires Add(c, a) == Add(c, b)
    ensures a == b
  {}

  /** From the same register, two different runs of at most 32 bits leave different remainders. */
  lemma WindowDetected(c: bv32, a: seq<bool>, b: seq<bool>)
    requires |a| == |b| <= 32 && a != b
    ensures Divide(c, a) != Divide(c, b)
  {
    hide Steps, Add, Divide, Word;
    DivideIsSteps(c, a);
    DivideIsSteps(c, b);
    if Divide(c, a) == Divide(c, b) {
      StepsInjective(Add(c, Word(a)), Add(c, Word(b)), |a|);
      AddCancels(c, Word(a), Word(b));
      WordInjective(a, b);
    }
  }

  lemma {:induction false} WordInjective(a: seq<bool>, b: seq<bool>)
    requires |a| == |b| <= 32 && Word(a) == Word(b)
    ensures a == b
    decreases |a|
  {
    hide Add, Twice, Bit, TopClear;
    if |a| > 0 {
      WordTop(a[1..]);
      WordTop(b[1..]);
      JoinInjective(a[0], Word(a[1..]), b[0], Word(b[1..]));
      WordInjective(a[1..], b[1..]);
      assert a == [a[0]] + a[1..] && b == [b[0]] + b[1..];
    }
  }

  lemma JoinInjective(x: bool, a: bv32, y: bool, b: bv32)
    requires TopClear(a) && TopClear(b) && Add(Bit(x), Twice(a)) == Add(Bit(y), Twice(b))
    ensures x == y && a == b
  {}

  lemma {:induction false} DivideInjective(a: bv32, b: bv32, bits: seq<bool>)
    requires Divide(a, bits) == Divide(b, bits)
    ensures a == b
    decreases |bits|
  {
    hide DivideBit;
    if |bits| > 0 {
      DivideInjective(DivideBit(a, bits[0]), DivideBit(b, bits[0]), bits[1..]);
      DivideBitInjective(a, b, bits[0]);
    }
  }

  lemma DivideBitInjective(a: bv32, b: bv32, bit: bool)
    requires DivideBit(a, bit) == DivideBit(b, bit)
    ensures a == b
  {}

  /** The two bit strings agree outside [lo, hi). */
  ghost predicate AgreeOutside<T>(a: seq<T>, b: seq<T>, lo: nat, hi: nat)
    requires |a| == |b| && lo <= hi <= |a|
  {
    a[..lo] == b[..lo] && a[hi..] == b[hi..]
  }

  lemma BitBurstDetected(c: bv32, a: seq<bool>, b: seq<bool>, lo: nat, hi: nat)
    requires |a| == |b| && lo <= hi <= |a| && hi - lo <= 32
    requires AgreeOutside(a, b, lo, hi) && a != b
    ensures Divide(c, a) != Divide(c, b)
  {
    hide Divide;
    var d := Divide(c, a[..lo]);
    assert a == a[..lo] + a[lo..hi] + a[hi..] && b == b[..lo] + b[lo..hi] + b[hi..];
    DivideConcat(c, a[..lo], a[lo..hi]);
    DivideConcat(c, b[..lo], b[lo..hi]);
    DivideConcat(c, a[..lo] + a[lo..hi], a[hi..]);
    DivideConcat(c, b[..lo] + b[lo..hi], b[hi..]);
    WindowDetected(d, a[lo..hi], b[lo..hi]);
    if Divide(c, a) == Divide(c, b) {
      DivideInjective(Divide(d, a[lo..hi]), Divide(d, b[lo..hi]), a[hi..]);
    }
  }

  /** Every difference confined to 32 consecutive bits, wherever it starts, changes the checksum. */
  lemma BurstDetected(crc: bv32, a: seq<uint8>, b: seq<uint8>, lo: nat, hi: nat)
    requires |a| == |b| && lo <= hi <= 8 * |a| && hi - lo <= 32
    requires AgreeOutside(Bits(a), Bits(b), lo, hi) && a != b
    ensures Crc(crc, a) != Crc(crc, b)
  {
    hide Divide, Complement;
    if Bits(a) == Bits(b) {
      BitsInjective(a, b);
    }
    BitBurstDetected(Complement(crc), Bits(a), Bits(b), lo, hi);
    ComplementTwice(Divide(Complement(crc), Bits(a)));
    ComplementTwice(Divide(Complement(crc), Bits(b)));
  }

  /** In particular every difference confined to four consecutive bytes. */
  lemma FourBytesDetected(crc: bv32, a: seq<uint8>, b: seq<uint8>, lo: nat, hi: nat)
    requires |a| == |b| && lo <= hi <= |a| && hi - lo <= 4
    requires AgreeOutside(a, b, lo, hi) && a != b
    ensures Crc(crc, a) != Crc(crc, b)
  {
    hide Crc;
    BitsOutside(a, b, lo, hi);
    BurstDetected(crc, a, b, 8 * lo, 8 * hi);
  }

  lemma BitsOutside(a: seq<uint8>, b: seq<uint8>, lo: nat, hi: nat)
    requires |a| == |b| && lo <= hi <= |a| && AgreeOutside(a, b, lo, hi)
    ensures AgreeOutside(Bits(a), Bits(b), 8 * lo, 8 * hi)
  {
    BitsSplit(a, lo);
    BitsSplit(b, lo);
    BitsSplit(a, hi);
    BitsSplit(b, hi);
  }

  lemma BitsSplit(a: seq<uint8>, i: nat)
    requires i <= |a|
    ensures Bits(a)[..8 * i] == Bits(a[..i]) && Bits(a)[8 * i..] == Bits(a[i..])
  {
    assert a == a[..i] + a[i..];
    BitsConcat(a[..i], a[i..]);
  }

  lemma {:induction false} BitsInjective(a: seq<uint8>, b: seq<uint8>)
    requires |a| == |b| && Bits(a) == Bits(b)
    ensures a == b
    decreases |a|
  {
    hide BitsOf;
    if |a| > 0 {
      var x, y := BitsOf(a[0] as bv8), BitsOf(b[0] as bv8);
      assert x == Bits(a)[..8] && y == Bits(b)[..8];
      assert Bits(a[1..]) == Bits(a)[8..] && Bits(b[1..]) == Bits(b)[8..];
      BitsInjective(a[1..], b[1..]);
      ByteInjective(a[0], b[0]);
      assert a == [a[0]] + a[1..] && b == [b[0]] + b[1..];
    }
  }

  lemma ByteInjective(a: uint8, b: uint8)
    requires BitsOf(a as bv8) == BitsOf(b as bv8)
    ensures a == b
  {
    hide BitsOf, Word;
    WordOfByte(a as bv8);
    WordOfByte(b as bv8);
    ByteRoundTrip(a);
    ByteRoundTrip(b);
    assert a as bv8 == b as bv8 by { WidenInjective(a as bv8, b as bv8); }
  }

  lemma WidenInjective(x: bv8, y: bv8)
    requires x as bv32 == y as bv32
    ensures x == y
  {}

  lemma {:induction false} ByteRoundTrip(a: uint8)
    ensures (a as bv8) as uint8 == a
  {
    if a > 0 {
      ByteRoundTrip(a - 1);
      Successor((a - 1) as bv8);
    }
  }

  lemma Successor(x: bv8)
    requires x != 0xFF
    ensures (x + 1) as nat == x as nat + 1
  {}

  // ----- affinity

  lemma PartsAreLinear(r: bv32, s: bv32, p: bool, q: bool)
    ensures Odd(Add(r, s)) == (Odd(r) != Odd(s))
    ensures Half(Add(r, s)) == Add(Half(r), Half(s))
    ensures Feedback(p != q) == Add(Feedback(p), Feedback(q))
  {}

  lemma AddSwap(a: bv32, b: bv32, c: bv32, d: bv32)
    ensures Add(Add(a, b), Add(c, d)) == Add(Add(a, c), Add(b, d))
  {
    hide Add;
    AddAssociates(a, b, Add(c, d));
    AddAssociates(b, c, d);
    AddAssociates(c, b, d);
    AddAssociates(a, c, Add(b, d));
  }

  lemma DivideBitLinear(r: bv32, x: bool, s: bv32, y: bool)
    ensures DivideBit(Add(r, s), x != y) == Add(DivideBit(r, x), DivideBit(s, y))
  {
    hide DivideBit, Add, Odd, Half, Feedback;
    DivideBitParts(r, x);
    DivideBitParts(s, y);
    DivideBitParts(Add(r, s), x != y);
    PartsAreLinear(r, s, Odd(r) != x, Odd(s) != y);
    assert (Odd(Add(r, s)) != (x != y)) == ((Odd(r) != x) != (Odd(s) != y));
    AddSwap(Half(r), Half(s), Feedback(Odd(r) != x), Feedback(Odd(s) != y));
  }

  function XorBits(a: seq<bool>, b: seq<bool>): (r: seq<bool>)
    requires |a| == |b|
    ensures |r| == |a|
  {
    seq(|a|, i requires 0 <= i < |a| => a[i] != b[i])
  }

  lemma {:induction false} DivideLinear(r: bv32, a: seq<bool>, s: bv32, b: seq<bool>)
    requires |a| == |b|
    ensures Divide(Add(r, s), XorBits(a, b)) == Add(Divide(r, a), Divide(s, b))
    decreases |a|
  {
    hide DivideBit, Add;
    if |a| > 0 {
      DivideBitLinear(r, a[0], s, b[0]);
      DivideLinear(DivideBit(r, a[0]), a[1..], DivideBit(s, b[0]), b[1..]);
      assert XorBits(a, b)[1..] == XorBits(a[1..], b[1..]);
    }
  }

  function XorByte(a: uint8, b: uint8): uint8 {
    ((a as bv8) ^ (b as bv8)) as uint8
  }

  function XorBytes(a: seq<uint8>, b: seq<uint8>): (r: seq<uint8>)
    requires |a| == |b|
    ensures |r| == |a|
  {
    seq(|a|, i requires 0 <= i < |a| => XorByte(a[i], b[i]))
  }

  lemma XorBitsConcat(a: seq<bool>, b: seq<bool>, c: seq<bool>, d: seq<bool>)
    requires |a| == |c| && |b| == |d|
    ensures XorBits(a + b, c + d) == XorBits(a, c) + XorBits(b, d)
  {}

  lemma XorBitsEmpty()
    ensures XorBits([], []) == []
  {}

  lemma XorBitsCons(p: bool, a: seq<bool>, q: bool, b: seq<bool>)
    requires |a| == |b|
    ensures XorBits([p] + a, [q] + b) == [p != q] + XorBits(a, b)
  {}

  lemma {:induction false} LowBitsXor(x: bv8, y: bv8, z: bv8, n: nat)
    requires z == x ^ y
    ensures LowBits(z, n) == XorBits(LowBits(x, n), LowBits(y, n))
    decreases n
  {
    hide XorBits;
    if n == 0 {
      XorBitsEmpty();
    } else {
      ShiftXor(x, y, z);
      LowBitsXor(x >> 1, y >> 1, z >> 1, n - 1);
      XorBitsCons(x & 1 == 1, LowBits(x >> 1, n - 1), y & 1 == 1, LowBits(y >> 1, n - 1));
    }
  }

  lemma ShiftXor(x: bv8, y: bv8, z: bv8)
    requires z == x ^ y
    ensures z >> 1 == (x >> 1) ^ (y >> 1)
    ensures (z & 1 == 1) == ((x & 1 == 1) != (y & 1 == 1))
  {}

  lemma {:induction false} BitsXor(a: seq<uint8>, b: seq<uint8>)
    requires |a| == |b|
    ensures Bits(XorBytes(a, b)) == XorBits(Bits(a), Bits(b))
    decreases |a|
  {
    hide BitsOf, XorByte, XorBits;
    if |a| == 0 {
      XorBitsEmpty();
    } else {
      BitsXor(a[1..], b[1..]);
      assert XorBytes(a, b)[1..] == XorBytes(a[1..], b[1..]);
      ByteXor(a[0], b[0]);
      XorBitsConcat(BitsOf(a[0] as bv8), Bits(a[1..]), BitsOf(b[0] as bv8), Bits(b[1..]));
    }
  }

  lemma ByteXor(a: uint8, b: uint8)
    ensures BitsOf(XorByte(a, b) as bv8) == XorBits(BitsOf(a as bv8), BitsOf(b as bv8))
  {
    hide LowBits;
    LowBitsXor(a as bv8, b as bv8, XorByte(a, b) as bv8, 8);
  }

  /** The checksum of the exclusive or of three messages is that of their checksums. */
  lemma CrcAffine(crc: bv32, a: seq<uint8>, b: seq<uint8>, c: seq<uint8>)
    requires |a| == |b| == |c|
    ensures Crc(crc, XorBytes(XorBytes(a, b), c)) == Add(Add(Crc(crc, a), Crc(crc, b)), Crc(crc, c))
  {
    hide Divide, Bits, Add, Complement, XorBytes, XorBits;
    BitsXor(a, b);
    BitsXor(XorBytes(a, b), c);
    AffineBits(Complement(crc), Bits(a), Bits(b), Bits(c));
  }

  lemma AffineBits(r: bv32, a: seq<bool>, b: seq<bool>, c: seq<bool>)
    requires |a| == |b| == |c|
    ensures Complement(Divide(r, XorBits(XorBits(a, b), c)))
         == Add(Add(Complement(Divide(r, a)), Complement(Divide(r, b))), Complement(Divide(r, c)))
  {
    hide Divide, Add, Complement, XorBits;
    DivideThree(r, a, b, c);
    ComplementOfThree(Divide(r, a), Divide(r, b), Divide(r, c));
  }

  lemma DivideThree(r: bv32, a: seq<bool>, b: seq<bool>, c: seq<bool>)
    requires |a| == |b| == |c|
    ensures Divide(r, XorBits(XorBits(a, b), c)) == Add(Add(Divide(r, a), Divide(r, b)), Divide(r, c))
  {
    hide Divide, Add, XorBits;
    DivideLinear(r, a, r, b);
    DivideLinear(Add(r, r), XorBits(a, b), r, c);
    AddTwice(r);
  }

  lemma AddTwice(r: bv32)
    ensures Add(Add(r, r), r) == r
  {}

  lemma ComplementOfThree(a: bv32, b: bv32, c: bv32)
    ensures Complement(Add(Add(a, b), c)) == Add(Add(Complement(a), Complement(b)), Complement(c))
  {}

  // ----- residue

  function LowByte(x: bv32): uint8 {
    (x & 0xFF) as bv8 as uint8
  }

  lemma LowByteBits(x: bv32)
    ensures (LowByte(x) as bv8) as bv32 == x & 0xFF
  {}

  /** The n low bytes of x, least significant first. */
  function LowBytes(x: bv32, n: nat): (b: seq<uint8>)
    ensures |b| == n
    decreases n
  {
    if n == 0 then [] else [LowByte(x)] + LowBytes(x >> 8, n - 1)
  }

  function LittleEndian(x: bv32): (b: seq<uint8>)
    ensures |b| == 4
  {
    LowBytes(x, 4)
  }

  lemma {:induction false} WordConcat(a: seq<bool>, b: seq<bool>)
    ensures Word(a + b) == Add(Word(a), Up(Word(b), |a|))
    decreases |a|
  {
    hide Add, Twice, Bit;
    if |a| == 0 {
      assert a + b == b;
      AddIsXor(0, Word(b));
    } else {
      assert (a + b)[1..] == a[1..] + b;
      WordConcat(a[1..], b);
      TwiceAdd(Word(a[1..]), Up(Word(b), |a| - 1));
      AddAssociates(Bit(a[0]), Twice(Word(a[1..])), Up(Word(b), |a|));
    }
  }

  predicate FitsBytes(x: bv32, n: nat)
    decreases n
  {
    if n == 0 then x == 0 else FitsBytes(x >> 8, n - 1)
  }

  lemma {:induction false} WordOfLowBytes(x: bv32, n: nat)
    requires FitsBytes(x, n)
    ensures Word(Bits(LowBytes(x, n))) == x
    decreases n
  {
    hide Add, Up, Word, BitsOf, LowByte;
    if n == 0 {
      WordOfNothing();
    } else {
      var rest := LowBytes(x >> 8, n - 1);
      WordOfLowBytes(x >> 8, n - 1);
      assert LowBytes(x, n)[1..] == rest;
      PrependByte(x, x >> 8, LowByte(x), Bits(rest));
    }
  }

  lemma WordOfNothing()
    ensures Word(Bits([])) == 0
  {}

  lemma PrependByte(x: bv32, rest: bv32, b: uint8, bits: seq<bool>)
    requires rest == x >> 8 && b == LowByte(x) && Word(bits) == rest
    ensures Word(BitsOf(b as bv8) + bits) == x
  {
    hide Add, Up, Word, BitsOf, LowByte;
    LowByteBits(x);
    WordConcat(BitsOf(b as bv8), bits);
    WordOfByte(b as bv8);
    JoinByte(x, b as bv8, rest);
  }

  lemma WordOfLittleEndian(x: bv32)
    ensures Word(Bits(LittleEndian(x))) == x
  {
    hide Word, Bits;
    assert FitsBytes(x, 4);
    WordOfLowBytes(x, 4);
  }

  lemma JoinByte(y: bv32, b: bv8, rest: bv32)
    requires b as bv32 == y & 0xFF && rest == y >> 8
    ensures Add(b as bv32, Up(rest, 8)) == y
  {
    hide Up, Room;
    UpEight(rest);
  }

  /** A message followed by its own checksum always checks to the same value. */
  lemma Residue(crc: bv32, data: seq<uint8>)
    ensures Crc(crc, data + LittleEndian(Crc(crc, data))) == 0x2144DF1C
  {
    hide Divide, Steps, Bits, Word, Add, LittleEndian;
    var r := Divide(Complement(crc), Bits(data));
    var tail := LittleEndian(Complement(r));
    BitsConcat(data, tail);
    DivideConcat(Complement(crc), Bits(data), Bits(tail));
    DivideIsSteps(r, Bits(tail));
    WordOfLittleEndian(Complement(r));
    ResidueSteps(r);
  }

  lemma ResidueSteps(r: bv32)
    ensures Complement(Steps(Add(r, Complement(r)), 32)) == 0x2144DF1C
  {
    hide Steps, EightSteps, Add;
    OnesOf(r);
    EightStepsOf(0xFFFF_FFFF, 24);
    EightStepsOf(0x2DFD_1072, 16);
    EightStepsOf(0xBE26_ED00, 8);
    StepsEight(0x00BE_26ED);
    FirstOnes();
    LastOnes();
  }

  lemma OnesOf(r: bv32)
    ensures Add(r, Complement(r)) == 0xFFFF_FFFF
  {}

  lemma FirstOnes()
    ensures EightSteps(0xFFFF_FFFF) == 0x2DFD_1072 && EightSteps(0x2DFD_1072) == 0xBE26_ED00
  {}

  lemma LastOnes()
    ensures EightSteps(0xBE26_ED00) == 0x00BE_26ED && EightSteps(0x00BE_26ED) == 0xDEBB_20E3
  {}

  lemma EightStepsOf(c: bv32, m: nat)
    ensures Steps(c, 8 + m) == Steps(EightSteps(c), m)
  {
    hide Step, EightSteps;
    StepsAdd(c, 8, m);
    StepsEight(c);
  }

  lemma {:induction false} StepsAdd(c: bv32, n: nat, m: nat)
    ensures Steps(c, n + m) == Steps(Steps(c, n), m)
    decreases n
  {
    hide Step;
    if n > 0 {
      StepsAdd(Step(c), n - 1, m);
    }
  }
}
