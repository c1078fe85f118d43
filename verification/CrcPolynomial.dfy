/**
 The register of the bit-serial division, read as a polynomial over the field of two
 elements, is the remainder of the message by the generator of clause 3.2.9 of IEEE 802.3.
 A polynomial is a natural number: binary digit k is the coefficient of x to the k.
 */
module CrcPolynomial {
  import opened Bytes
  import opened Words
  import opened Crc32Table
  import opened Crc32

  /** x^32 + x^26 + x^23 + x^22 + x^16 + x^12 + x^11 + x^10 + x^8 + x^7 + x^5 + x^4 + x^2 + x + 1 */
  const G: nat := 0x1_04C1_1DB7

  /** The product of two polynomials. */
  function Times(p: nat, q: nat): nat {
    if p == 0 then 0 else Xor(if p % 2 == 1 then q else 0, 2 * Times(p / 2, q))
  }

  /** The polynomial whose coefficients, highest first, are the bits. */
  function Message(bits: seq<bool>): nat {
    if |bits| == 0 then 0 else 2 * Message(bits[..|bits| - 1]) + BitNat(bits[|bits| - 1])
  }

  function BitNat(b: bool): nat {
    if b then 1 else 0
  }

  predicate TopBit(r: bv32) {
    r & 0x8000_0000 == 0x8000_0000
  }

  /** The polynomial of the n highest bits of a register; the highest bit is the constant coefficient. */
  function Coefficients(r: bv32, n: nat): nat
    decreases n
  {
    if n == 0 then 0 else BitNat(TopBit(r)) + 2 * Coefficients(Twice(r), n - 1)
  }

  /** The polynomial of a register, which is kept with its lowest coefficient in its highest bit. */
  function Poly(r: bv32): nat {
    Coefficients(r, 32)
  }

  // ----- the register as a polynomial

  lemma {:induction false} CoefficientsBound(r: bv32, n: nat)
    ensures Coefficients(r, n) < Pow2(n)
    decreases n
  {
    hide TopBit, Twice;
    if n > 0 {
      CoefficientsBound(Twice(r), n - 1);
    }
  }

  lemma XorParts(a: nat, b: nat, x: nat, y: nat)
    requires x < 2 && y < 2
    ensures Xor(x + 2 * a, y + 2 * b) == XorBit(x, y) + 2 * Xor(a, b)
  {
    hide Xor;
    XorDigits(x + 2 * a, y + 2 * b);
  }

  lemma TopBitAdds(r: bv32, s: bv32)
    ensures BitNat(TopBit(Add(r, s))) == XorBit(BitNat(TopBit(r)), BitNat(TopBit(s)))
  {}

  /** Addition of registers is addition of polynomials. */
  lemma {:induction false} CoefficientsAdd(r: bv32, s: bv32, n: nat)
    ensures Coefficients(Add(r, s), n) == Xor(Coefficients(r, n), Coefficients(s, n))
    decreases n
  {
    hide TopBit, Xor, Twice, Add;
    if n == 0 {
      XorZero(0);
    } else {
      TwiceAdd(r, s);
      TopBitAdds(r, s);
      CoefficientsAdd(Twice(r), Twice(s), n - 1);
      XorParts(Coefficients(Twice(r), n - 1), Coefficients(Twice(s), n - 1), BitNat(TopBit(r)), BitNat(TopBit(s)));
    }
  }

  /** One more coefficient: that of the bit below. */
  lemma {:induction false} OneMore(r: bv32, n: nat)
    ensures Coefficients(r, n + 1) == Coefficients(r, n) + Pow2(n) * BitNat(TopBit(Up(r, n)))
    decreases n
  {
    hide TopBit, Twice;
    if n > 0 {
      OneMore(Twice(r), n - 1);
      UpTwice(r, n - 1);
    }
  }

  lemma {:induction false} UpTwice(r: bv32, n: nat)
    ensures Up(Twice(r), n) == Twice(Up(r, n))
  {
    hide Twice;
    if n > 0 {
      UpTwice(r, n - 1);
    }
  }

  lemma {:induction false} UpAdd(r: bv32, n: nat, m: nat)
    ensures Up(Up(r, n), m) == Up(r, n + m)
  {
    hide Twice;
    if m > 0 {
      UpAdd(r, n, m - 1);
    }
  }

  lemma UpFour(r: bv32)
    ensures Up(r, 4) == r << 4 && Up(r, 3) == r << 3
  {
    hide Twice;
    assert Up(r, 0) == r;
    assert Up(r, 1) == Twice(r);
    assert Up(r, 2) == Twice(Twice(r));
    TwiceShifts(r);
  }

  lemma TwiceShifts(r: bv32)
    ensures Twice(Twice(Twice(r))) == r << 3
    ensures Twice(Twice(Twice(Twice(r)))) == r << 4
  {}

  lemma UpEightShift(r: bv32)
    ensures Up(r, 8) == r << 8
  {
    hide Up;
    UpAdd(r, 4, 4);
    UpFour(r);
    UpFour(r << 4);
  }

  lemma LastBitUp(r: bv32)
    ensures TopBit(Up(r, 31)) <==> Odd(r)
  {
    hide Up;
    UpEightShift(r);
    UpAdd(r, 8, 8);
    UpEightShift(r << 8);
    UpAdd(r, 16, 8);
    UpEightShift(r << 16);
    UpAdd(r, 24, 4);
    UpFour(r << 24);
    UpAdd(r, 28, 3);
    UpFour(r << 28);
  }

  lemma Distribute(p: nat, c: nat)
    ensures (2 * p) * c == 2 * (p * c)
  {}

  lemma {:induction false} CoefficientsSplit(r: bv32, n: nat, m: nat)
    ensures Coefficients(r, n + m) == Coefficients(r, n) + Pow2(n) * Coefficients(Up(r, n), m)
    decreases n
  {
    hide TopBit, Twice;
    if n > 0 {
      CoefficientsSplit(Twice(r), n - 1, m);
      UpTwice(r, n - 1);
      Distribute(Pow2(n - 1), Coefficients(Up(r, n), m));
    }
  }

  lemma LowBitVanishes(b: bv32)
    requires b <= 1
    ensures Coefficients(b, 31) == 0
  {
    if b == 0 {
      ZeroVanishes(31);
    } else {
      OneVanishes();
    }
  }

  lemma OneVanishes()
    ensures Coefficients(1, 31) == 0
  {
    FirstByte();
    SecondByte();
    ThirdByte();
    LastByte();
    hide Coefficients, Up, Pow2;
    CoefficientsSplit(1, 8, 23);
    CoefficientsSplit(0x100, 8, 15);
    CoefficientsSplit(0x1_0000, 8, 7);
  }

  lemma FirstByte()
    ensures Coefficients(1, 8) == 0 && Up(1, 8) == 0x100
  {}

  lemma SecondByte()
    ensures Coefficients(0x100, 8) == 0 && Up(0x100, 8) == 0x1_0000
  {}

  lemma ThirdByte()
    ensures Coefficients(0x1_0000, 8) == 0 && Up(0x1_0000, 8) == 0x100_0000
  {
    assert Coefficients(0x10_0000, 4) == 0;
  }

  lemma LastByte()
    ensures Coefficients(0x100_0000, 7) == 0
  {}

  lemma {:induction false} ZeroVanishes(n: nat)
    ensures Coefficients(0, n) == 0
  {
    if n > 0 {
      ZeroVanishes(n - 1);
    }
  }

  /** Shifting a register to the right multiplies its polynomial by x and drops the highest coefficient. */
  lemma PolyHalf(r: bv32)
    ensures Poly(Half(r)) == 2 * Coefficients(r, 31)
  {
    hide TopBit, Twice, Half, Up, Add, Xor;
    HalfParts(r);
    LowBitVanishes(r & 1);
    CoefficientsAdd(r, r & 1, 31);
    XorZero(Coefficients(r, 31));
  }

  lemma PolyParts(r: bv32)
    ensures Poly(r) == Coefficients(r, 31) + Pow2(31) * BitNat(Odd(r))
  {
    hide TopBit, Twice, Up, Coefficients, Pow2;
    OneMore(r, 31);
    LastBitUp(r);
  }

  lemma PowDoubles(n: nat)
    ensures Pow2(n + 1) == 2 * Pow2(n)
  {}

  lemma HalfParts(r: bv32)
    ensures !TopBit(Half(r)) && Twice(Half(r)) == Add(r, r & 1)
  {}

  // ----- one division step

  /** The generator without its highest term. */
  lemma GeneratorPoly()
    ensures Poly(GENERATOR) == G - 0x1_0000_0000
  {
    hide Coefficients, Up, Pow2;
    GeneratorTop();
    GeneratorSecond();
    GeneratorThird();
    GeneratorLast();
    Pow8();
    CoefficientsSplit(0xEDB8_8320, 8, 24);
    CoefficientsSplit(0xB883_2000, 8, 16);
    CoefficientsSplit(0x8320_0000, 8, 8);
  }

  lemma Pow8()
    ensures Pow2(8) == 0x100
  {}

  lemma GeneratorTop()
    ensures Coefficients(0xEDB8_8320, 8) == 0xB7 && Up(0xEDB8_8320, 8) == 0xB883_2000
  {}

  lemma GeneratorSecond()
    ensures Coefficients(0xB883_2000, 8) == 0x1D && Up(0xB883_2000, 8) == 0x8320_0000
  {}

  lemma GeneratorThird()
    ensures Coefficients(0x8320_0000, 8) == 0xC1 && Up(0x8320_0000, 8) == 0x2000_0000
  {}

  lemma GeneratorLast()
    ensures Coefficients(0x2000_0000, 8) == 0x04
  {}

  lemma XorDoubles(a: nat, b: nat)
    ensures Xor(2 * a, 2 * b) == 2 * Xor(a, b)
  {
    hide Xor;
    XorDigits(2 * a, 2 * b);
  }

  /** Digits below n and multiples of 2 to the n do not meet. */
  lemma {:induction false} XorDisjoint(a: nat, b: nat, n: nat)
    requires a < Pow2(n)
    ensures Xor(a, Pow2(n) * b) == a + Pow2(n) * b
  {
    if n == 0 {
      XorCommutes(0, b);
      XorZero(b);
    } else {
      var p := Pow2(n - 1);
      Distribute(p, b);
      XorDisjoint(a / 2, b, n - 1);
      XorParts(a / 2, p * b, a % 2, 0);
    }
  }

  lemma XorMiddle(a: nat, b: nat, c: nat)
    ensures Xor(Xor(a, b), Xor(c, b)) == Xor(a, c)
  {
    hide Xor;
    XorAssociates(a, b, Xor(c, b));
    XorCommutes(c, b);
    XorAssociates(b, b, c);
    XorSelf(b);
    XorCommutes(0, c);
    XorZero(c);
  }

  function Term(b: bool): nat {
    if b then 0x1_0000_0000 else 0
  }

  function Quotient(q: bool): nat {
    if q then G else 0
  }

  lemma Pow32()
    ensures Pow2(32) == 0x1_0000_0000
  {
    assert Pow2(8) == 0x100 && Pow2(16) == 0x1_0000 && Pow2(24) == 0x100_0000;
  }

  /** Dividing by one bit more: append the bit's term and take the generator off if the sum has a highest term. */
  lemma DivideBitPoly(r: bv32, bit: bool)
    ensures Poly(DivideBit(r, bit))
         == Xor(Xor(2 * Poly(r), Term(bit)), Quotient(Odd(r) != bit))
  {
    hide Coefficients, Add, Half, DivideBit, Xor, Pow2, Feedback;
    var low, odd := Coefficients(r, 31), Odd(r);
    var q := odd != bit;
    DivideBitParts(r, bit);
    CoefficientsAdd(Half(r), Feedback(q), 32);
    PolyHalf(r);
    FeedbackPoly(q);
    DoublePoly(r);
    DivideTerms(2 * low, odd, bit);
  }

  /** The feedback is the generator without its highest term. */
  lemma FeedbackPoly(q: bool)
    ensures Poly(Feedback(q)) == Quotient(q) - Term(q) >= 0
  {
    hide Coefficients;
    ZeroVanishes(32);
    GeneratorPoly();
  }

  lemma DoublePoly(r: bv32)
    ensures 2 * Poly(r) == Xor(2 * Coefficients(r, 31), Term(Odd(r)))
  {
    hide Coefficients, Xor, Pow2;
    PolyParts(r);
    CoefficientsBound(r, 31);
    PowDoubles(31);
    Pow32();
    XorDisjoint(2 * Coefficients(r, 31), BitNat(Odd(r)), 32);
  }

  lemma DivideTerms(a: nat, odd: bool, bit: bool)
    ensures var q := odd != bit;
            Quotient(q) >= Term(q) &&
            Xor(a, Quotient(q) - Term(q)) == Xor(Xor(Xor(a, Term(odd)), Term(bit)), Quotient(q))
  {
    hide Xor;
    XorZero(a);
    if odd == bit {
      XorMiddle(a, Term(odd), 0);
      XorCommutes(0, Term(odd));
      XorZero(Term(odd));
    } else {
      var top, rest := 0x1_0000_0000, G - 0x1_0000_0000;
      XorZero(Xor(a, top));
      GeneratorParts();
      XorMiddle(a, top, rest);
    }
  }

  lemma GeneratorParts()
    ensures Xor(G - 0x1_0000_0000, 0x1_0000_0000) == G
  {
    hide Xor, Pow2;
    Pow32();
    XorDisjoint(G - 0x1_0000_0000, 1, 32);
  }

  // ----- the whole message

  /** What is divided: the message times x^32, plus the initial register times x to the message length. */
  function Dividend(c: bv32, bits: seq<bool>): nat {
    Xor(Raised(Message(bits), 32), Raised(Poly(c), |bits|))
  }

  /** p times x to the n. */
  function Raised(p: nat, n: nat): nat {
    Pow2(n) * p
  }

  /** r is the remainder of the polynomial d by the generator. */
  ghost predicate IsRemainder(r: nat, d: nat) {
    r < Pow2(32) && exists q: nat :: Xor(Times(q, G), r) == d
  }

  lemma {:induction false} DivideSnoc(c: bv32, bits: seq<bool>)
    requires |bits| > 0
    ensures Divide(c, bits) == DivideBit(Divide(c, bits[..|bits| - 1]), bits[|bits| - 1])
  {
    hide DivideBit;
    var n := |bits| - 1;
    assert bits == bits[..n] + [bits[n]];
    DivideConcat(c, bits[..n], [bits[n]]);
    var r := Divide(c, bits[..n]);
    assert Divide(r, [bits[n]]) == DivideBit(r, bits[n]);
  }

  /** One bit more doubles the dividend and adds the bit's term. */
  lemma DividendStep(c: bv32, bits: seq<bool>)
    requires |bits| > 0
    ensures Dividend(c, bits) == Xor(2 * Dividend(c, bits[..|bits| - 1]), Term(bits[|bits| - 1]))
  {
    hide Xor, Poly, Pow2;
    var n := |bits| - 1;
    var m, p, b := Message(bits[..n]), Poly(c), bits[n];
    Pow32();
    PowDoubles(n);
    Distribute(Pow2(n), p);
    XorDoubles(Pow2(32) * m, Pow2(n) * p);
    TermJoins(m, b);
    XorSwap(2 * (Pow2(32) * m), Term(b), 2 * (Pow2(n) * p));
  }

  lemma TermJoins(m: nat, b: bool)
    ensures Pow2(32) * (2 * m + BitNat(b)) == Xor(2 * (Pow2(32) * m), Term(b))
  {
    hide Xor, Pow2;
    Pow32();
    PowDoubles(32);
    XorDisjoint(Term(b), m, 33);
    XorCommutes(Term(b), Pow2(33) * m);
  }

  /** The quotient that the division finds, one coefficient a bit. */
  function QuotientOf(c: bv32, bits: seq<bool>): nat {
    if |bits| == 0 then 0
    else
      var n := |bits| - 1;
      2 * QuotientOf(c, bits[..n]) + BitNat(Odd(Divide(c, bits[..n])) != bits[n])
  }

  lemma {:induction false} DivisionWithRemainder(c: bv32, bits: seq<bool>)
    ensures Xor(Times(QuotientOf(c, bits), G), Poly(Divide(c, bits))) == Dividend(c, bits)
    decreases |bits|
  {
    hide Xor, Poly, DivideBit, Divide, Pow2, Times, Dividend;
    if |bits| == 0 {
      DivideNothing(c, bits);
    } else {
      var n := |bits| - 1;
      DivisionWithRemainder(c, bits[..n]);
      DivideSnoc(c, bits);
      DividendStep(c, bits);
      var r, b := Divide(c, bits[..n]), bits[n];
      var f := Odd(r) != b;
      DivideBitPoly(r, b);
      TimesStep(QuotientOf(c, bits[..n]), f);
      Regroup(Quotient(f), Times(QuotientOf(c, bits[..n]), G), Poly(r), Term(b));
    }
  }

  lemma DivideNothing(c: bv32, bits: seq<bool>)
    requires |bits| == 0
    ensures Xor(Times(0, G), Poly(Divide(c, bits))) == Dividend(c, bits)
  {
    hide Poly, Xor;
  }

  lemma TimesStep(q: nat, f: bool)
    ensures Times(2 * q + BitNat(f), G) == Xor(Quotient(f), 2 * Times(q, G))
  {
    hide Xor, Times;
    TimesDigit(2 * q + BitNat(f), G);
  }

  /** The sums on both sides of a division step. */
  lemma Regroup(f: nat, t: nat, p: nat, b: nat)
    ensures Xor(Xor(f, 2 * t), Xor(Xor(2 * p, b), f)) == Xor(2 * Xor(t, p), b)
  {
    hide Xor;
    XorCommutes(f, 2 * t);
    XorMiddle(2 * t, f, Xor(2 * p, b));
    XorAssociates(2 * t, 2 * p, b);
    XorDoubles(t, p);
  }

  // ----- remainders are unique

  lemma {:induction false} TimesAdds(p: nat, q: nat, g: nat)
    ensures Times(Xor(p, q), g) == Xor(Times(p, g), Times(q, g))
    decreases p + q
  {
    hide Xor;
    if p + q == 0 {
      XorZero(0);
    } else {
      TimesAdds(p / 2, q / 2, g);
      XorDigits(p, q);
      TimesDigit(p, g);
      TimesDigit(q, g);
      TimesDigit(Xor(p, q), g);
      XorDoubles(Times(p / 2, g), Times(q / 2, g));
      XorFour(Pick(p, g), 2 * Times(p / 2, g), Pick(q, g), 2 * Times(q / 2, g));
      PickAdds(p, q, Xor(p, q), g);
    }
  }

  function Pick(p: nat, g: nat): nat {
    if p % 2 == 1 then g else 0
  }

  lemma TimesDigit(p: nat, g: nat)
    ensures Times(p, g) == Xor(Pick(p, g), 2 * Times(p / 2, g))
  {
    hide Xor;
    XorZero(0);
  }

  lemma PickAdds(p: nat, q: nat, s: nat, g: nat)
    requires s % 2 == XorBit(p % 2, q % 2)
    ensures Pick(s, g) == Xor(Pick(p, g), Pick(q, g))
  {
    hide Xor;
    XorZero(g);
    XorZero(0);
    XorSelf(g);
    XorCommutes(0, g);
  }

  lemma XorFour(a: nat, b: nat, c: nat, d: nat)
    ensures Xor(Xor(a, b), Xor(c, d)) == Xor(Xor(a, c), Xor(b, d))
  {
    hide Xor;
    XorAssociates(Xor(a, b), c, d);
    XorSwap(a, b, c);
    XorAssociates(Xor(a, c), b, d);
  }

  /** No multiple of the generator but zero is below x^32. */
  lemma {:induction false} MultipleIsLarge(p: nat)
    requires p > 0
    ensures Times(p, G) >= 0x1_0000_0000
  {
    hide Xor;
    TimesDigit(p, G);
    if p == 1 {
      XorZero(G);
    } else {
      MultipleIsLarge(p / 2);
      Pow32();
      PowDoubles(32);
      XorLarge(Pick(p, G), 2 * Times(p / 2, G), 33);
    }
  }

  lemma RemainderUnique(q: nat, r: nat, q': nat, r': nat)
    requires r < Pow2(32) && r' < Pow2(32) && Xor(Times(q, G), r) == Xor(Times(q', G), r')
    ensures r == r'
  {
    hide Xor, Times, Pow2;
    var d := Xor(q, q');
    TimesAdds(q, q', G);
    XorFour(Times(q, G), r, Times(q', G), r');
    XorSelf(Xor(Times(q, G), r));
    SumIsZero(Times(d, G), Xor(r, r'));
    XorBound(r, r', 32);
    Pow32();
    if d > 0 {
      MultipleIsLarge(d);
    }
    SumIsZero(q, q');
    XorCancels(Times(q, G), r, r');
  }

  lemma SumIsZero(a: nat, b: nat)
    ensures Xor(a, b) == 0 ==> a == b
  {
    hide Xor;
    if Xor(a, b) == 0 {
      XorSelf(a);
      XorCancels(a, a, b);
    }
  }

  /** The checksum is the remainder of the polynomial division that the standard defines, and only it is. */
  lemma CrcIsRemainder(crc: bv32, data: seq<uint8>, r: nat)
    ensures IsRemainder(r, Dividend(Complement(crc), Bits(data))) <==> r == Poly(Complement(Crc(crc, data)))
  {
    hide Xor, Times, Poly, Divide, Bits, Dividend, Complement, Pow2;
    var c, bits := Complement(crc), Bits(data);
    var p := Poly(Divide(c, bits));
    ComplementTwice(Divide(c, bits));
    DivisionWithRemainder(c, bits);
    PolyBound(Divide(c, bits));
    if IsRemainder(r, Dividend(c, bits)) {
      var q: nat :| Xor(Times(q, G), r) == Dividend(c, bits);
      RemainderUnique(q, r, QuotientOf(c, bits), p);
    }
  }

  lemma PolyBound(r: bv32)
    ensures Poly(r) < Pow2(32)
  {
    CoefficientsBound(r, 32);
  }
}
