/**
 Operations on 32-bit words, as integers: wrap-around sum and product, exclusive or,
 rotation. The lemmas at the end tie exclusive or and rotation to machine words.
 */
module Words {
  import opened Bytes

  const WORD: nat := 0x1_0000_0000

  function Add32(a: uint32, b: uint32): uint32 {
    ((a as nat + b as nat) % WORD) as uint32
  }

  function Mul32(a: uint32, b: uint32): uint32 {
    ((a as nat * b as nat) % WORD) as uint32
  }

  /** Multiplication is repeated addition, with wrap-around. */
  lemma MulSteps(a: uint32, b: uint32)
    ensures Mul32(a, 0) == 0
    ensures b < UINT32_MAX ==> Mul32(a, b + 1) == Add32(Mul32(a, b), a)
  {
    if b < UINT32_MAX {
      assert a as nat * (b + 1) as nat == a as nat * b as nat + a as nat;
      AddWrapped(a as nat * b as nat, a as nat);
    }
  }

  lemma AddWrapped(n: nat, m: nat)
    ensures (n % WORD + m) % WORD == (n + m) % WORD
  {}

  function XorBit(a: nat, b: nat): nat {
    if a == b then 0 else 1
  }

  /** Exclusive or of two naturals, bit by bit. */
  function Xor(a: nat, b: nat): nat
    decreases a + b
  {
    if a == 0 && b == 0 then 0 else 2 * Xor(a / 2, b / 2) + XorBit(a % 2, b % 2)
  }

  function Pow2(n: nat): nat {
    if n == 0 then 1 else 2 * Pow2(n - 1)
  }

  lemma {:induction false} XorBound(a: nat, b: nat, n: nat)
    requires a < Pow2(n) && b < Pow2(n)
    ensures Xor(a, b) < Pow2(n)
  {
    if n > 0 {
      XorBound(a / 2, b / 2, n - 1);
    }
  }

  function Xor32(a: uint32, b: uint32): uint32 {
    assert Pow2(8) == 0x100 && Pow2(16) == 0x1_0000 && Pow2(24) == 0x100_0000 && Pow2(32) == WORD;
    XorBound(a as nat, b as nat, 32);
    Xor(a as nat, b as nat) as uint32
  }

  function RotateOne(a: uint32): uint32 {
    (a as nat * 2 % WORD + a as nat / 0x8000_0000) as uint32
  }

  /** a rotated left by n bits. */
  function Rotate32(a: uint32, n: nat): uint32 {
    if n == 0 then a else RotateOne(Rotate32(a, n - 1))
  }

  lemma {:induction false} XorCommutes(a: nat, b: nat)
    ensures Xor(a, b) == Xor(b, a)
    decreases a + b
  {
    if a != 0 || b != 0 {
      XorCommutes(a / 2, b / 2);
    }
  }

  lemma {:induction false} XorAssociates(a: nat, b: nat, c: nat)
    ensures Xor(Xor(a, b), c) == Xor(a, Xor(b, c))
    decreases a + b + c
  {
    if a != 0 || b != 0 || c != 0 {
      XorAssociates(a / 2, b / 2, c / 2);
      XorDigits(a, b);
      XorDigits(b, c);
      XorDigits(Xor(a, b), c);
      XorDigits(a, Xor(b, c));
    }
  }

  lemma XorDigits(a: nat, b: nat)
    ensures Xor(a, b) == 2 * Xor(a / 2, b / 2) + XorBit(a % 2, b % 2)
    ensures Xor(a, b) / 2 == Xor(a / 2, b / 2) && Xor(a, b) % 2 == XorBit(a % 2, b % 2)
  {}

  /** Two operands of a chain of exclusive ors may change places. */
  lemma XorSwap(a: nat, b: nat, c: nat)
    ensures Xor(Xor(a, b), c) == Xor(Xor(a, c), b)
  {
    hide Xor;
    XorAssociates(a, b, c);
    XorCommutes(b, c);
    XorAssociates(a, c, b);
  }

  lemma Xor32Swap(a: uint32, b: uint32, c: uint32)
    ensures Xor32(Xor32(a, b), c) == Xor32(Xor32(a, c), b)
  {
    XorSwap(a as nat, b as nat, c as nat);
  }

  lemma {:induction false} XorSelf(a: nat)
    ensures Xor(a, a) == 0
  {
    if a > 0 {
      XorSelf(a / 2);
    }
  }

  lemma {:induction false} XorZero(a: nat)
    ensures Xor(a, 0) == a
  {
    if a > 0 {
      XorZero(a / 2);
    }
  }

  lemma Xor32Zero(a: uint32)
    ensures Xor32(a, 0) == a
  {
    XorZero(a as nat);
  }

  lemma {:induction false} XorCancels(x: nat, a: nat, b: nat)
    requires Xor(x, a) == Xor(x, b)
    ensures a == b
    decreases x + a + b
  {
    hide Xor;
    XorDigits(x, a);
    XorDigits(x, b);
    if x + a + b > 0 {
      XorCancels(x / 2, a / 2, b / 2);
    }
  }

  lemma Xor32Cancels(x: uint32, a: uint32, b: uint32)
    requires Xor32(x, a) == Xor32(x, b)
    ensures a == b
  {
    XorCancels(x as nat, a as nat, b as nat);
  }

  lemma Xor32CancelsEither(x: uint32, y: uint32, d: uint32)
    ensures Xor32(d, x) == Xor32(d, y) <==> x == y
    ensures Xor32(x, d) == Xor32(y, d) <==> x == y
  {
    hide Xor;
    XorCommutes(x as nat, d as nat);
    XorCommutes(y as nat, d as nat);
    if Xor32(d, x) == Xor32(d, y) {
      Xor32Cancels(d, x, y);
    }
  }

  lemma XorLarge(x: nat, y: nat, n: nat)
    requires x < Pow2(n) <= y
    ensures Xor(x, y) >= Pow2(n)
  {
    hide Xor;
    if Xor(x, y) < Pow2(n) {
      XorBound(x, Xor(x, y), n);
      XorAssociates(x, x, y);
      XorSelf(x);
      XorCommutes(0, y);
      XorZero(y);
    }
  }

  lemma Xor32Large(x: uint32, y: uint32)
    requires x < 0x8000_0000 <= y
    ensures Xor32(y, x) >= 0x8000_0000
  {
    hide Xor;
    Pow31();
    XorLarge(x as nat, y as nat, 31);
    XorCommutes(x as nat, y as nat);
  }

  // ----- what exclusive or and rotation do to each binary digit

  /** Binary digit k of n, digit 0 being the least significant. */
  function Digit(n: nat, k: nat): nat {
    if k == 0 then n % 2 else Digit(n / 2, k - 1)
  }

  /** Every digit of an exclusive or is the exclusive or of the operands' digits. */
  lemma {:induction false} XorDigit(a: nat, b: nat, k: nat)
    ensures Digit(Xor(a, b), k) == XorBit(Digit(a, k), Digit(b, k))
  {
    XorDigits(a, b);
    if k > 0 {
      XorDigit(a / 2, b / 2, k - 1);
    }
  }

  /** Rotation left by n < 32 moves digit k to digit k + n, wrapping at 32. */
  lemma {:induction false} RotateDigit(a: uint32, n: nat, k: nat)
    requires n < 32 && k < 32
    ensures Digit(Rotate32(a, n) as nat, Wrap(k + n)) == Digit(a as nat, k)
  {
    if n > 0 {
      RotateDigit(a, n - 1, k);
      RotateOneDigit(Rotate32(a, n - 1), Wrap(k + n - 1));
    }
  }

  function Wrap(i: nat): nat {
    if i < 32 then i else i - 32
  }

  lemma RotateOneDigit(a: uint32, k: nat)
    requires k < 32
    ensures Digit(RotateOne(a) as nat, Wrap(k + 1)) == Digit(a as nat, k)
  {
    var low, top := a as nat % 0x8000_0000, a as nat / 0x8000_0000;
    Pow31();
    LowDigits(a as nat, 31, top, low, k);
    assert RotateOne(a) as nat == 2 * low + top;
    if k < 31 {
      assert (2 * low + top) / 2 == low;
    }
  }

  lemma Pow31()
    ensures Pow2(31) == 0x8000_0000
  {
    assert Pow2(8) == 0x100 && Pow2(16) == 0x1_0000 && Pow2(24) == 0x100_0000;
  }

  lemma PowStep(q: nat, m: nat)
    requires m > 0
    ensures Pow2(m) == 2 * Pow2(m - 1) && q * Pow2(m) == 2 * (q * Pow2(m - 1))
  {}

  /** The digits of a below m are those of its remainder by 2 to the m; digit m is the quotient's last. */
  lemma {:induction false} LowDigits(a: nat, m: nat, q: nat, r: nat, k: nat)
    requires k <= m && r < Pow2(m) && a == q * Pow2(m) + r
    ensures k < m ==> Digit(r, k) == Digit(a, k)
    ensures k == m ==> Digit(a, k) == q % 2
  {
    if m == 0 {
      assert Pow2(0) == 1;
    } else {
      hide Pow2;
      PowStep(q, m);
      if k > 0 {
        LowDigits(a / 2, m - 1, q, r / 2, k - 1);
      }
    }
  }

  // ----- the bytes of a word

  lemma {:induction false} DigitAbove(q: nat, b: nat, m: nat, k: nat)
    requires b < Pow2(m)
    ensures Digit(q * Pow2(m) + b, m + k) == Digit(q, k)
  {
    if m > 0 {
      hide Pow2;
      PowStep(q, m);
      DigitAbove(q, b / 2, m - 1, k);
    } else {
      assert Pow2(0) == 1;
    }
  }

  lemma ByteDigits(q: nat, b: nat, k: nat)
    requires b < 0x100
    ensures Digit(q * 0x100 + b, k) == if k < 8 then Digit(b, k) else Digit(q, k - 8)
  {
    assert Pow2(8) == 0x100;
    if k < 8 {
      LowDigits(q * 0x100 + b, 8, q, b, k);
    } else {
      DigitAbove(q, b, 8, k - 8);
    }
  }

  /** Digit j of byte k from the right, of four, is digit 8k + j of the word that they make up. */
  lemma ReadDigit(data: seq<uint8>, at: nat, k: nat, j: nat)
    requires at + 4 <= |data| && k < 4 && j < 8
    ensures Digit(ReadU32(data, at) as nat, 8 * k + j) == Digit(data[at + 3 - k] as nat, j)
  {
    var b0, b1, b2, b3 := data[at] as nat, data[at + 1] as nat, data[at + 2] as nat, data[at + 3] as nat;
    hide Digit;
    ByteDigits((b0 * 0x100 + b1) * 0x100 + b2, b3, 8 * k + j);
    if k > 0 {
      ByteDigits(b0 * 0x100 + b1, b2, 8 * (k - 1) + j);
    }
    if k > 1 {
      ByteDigits(b0, b1, 8 * (k - 2) + j);
    }
  }
}
