/** Streams whose order shows in the low half of the check code: for every chip, boot block and length. */
module WordOrder {
  import opened Bytes
  import opened Words
  import opened CheckCode
  import opened CheckCodeTheorems

  function ZeroWords(n: nat): (ws: seq<uint32>)
    ensures |ws| == n
  {
    seq(n, i => 0)
  }

  // ----- a difference that zeros do not undo

  /** The accumulators differ in accumulator 0, or, for a 6105, in accumulator 1. */
  predicate Differ(cic: Cic, a: Accumulators, b: Accumulators) {
    && a.a4 == b.a4 && a.a5 == b.a5
    && ((a.a1 == b.a1 && a.a0 != b.a0)
        || (cic.Cic6105? && a.a0 == b.a0 && a.a1 != b.a1 && a.a1 > 0 && b.a1 > 0))
  }

  lemma AddCancels(x: uint32, y: uint32, d: uint32)
    ensures Add32(x, d) == Add32(y, d) <==> x == y
    ensures Add32(d, x) == Add32(d, y) <==> x == y
  {}

  lemma ZeroKeeps(cic: Cic, ipl: seq<uint8>, pos: nat, a: Accumulators, b: Accumulators)
    requires HasIpl(cic, ipl) && Aligned(pos) && Differ(cic, a, b)
    ensures Differ(cic, Step(cic, ipl, pos, a, 0), Step(cic, ipl, pos, b, 0))
  {
    hide Add32, Xor32, ReadU32, IplIndex;
    assert Rotate32(0, 0) == 0;
    Xor32Zero(a.a1);
    Xor32Zero(b.a1);
    var mix := if cic.Cic6105? then ReadU32(ipl, IplIndex(pos)) else Add32(a.a4, 0);
    AddCancels(a.a0, b.a0, Xor32(mix, 0));
  }

  lemma {:induction false} ZerosKeep(cic: Cic, ipl: seq<uint8>, pos: nat, a: Accumulators, b: Accumulators, n: nat)
    requires HasIpl(cic, ipl) && Aligned(pos) && Differ(cic, a, b)
    ensures Differ(cic, Fold(cic, ipl, pos, a, ZeroWords(n)), Fold(cic, ipl, pos, b, ZeroWords(n)))
  {
    hide Step, Differ, Aligned, HasIpl;
    if n > 0 {
      assert ZeroWords(n)[..n - 1] == ZeroWords(n - 1);
      ZerosKeep(cic, ipl, pos, a, b, n - 1);
      var x, y := Fold(cic, ipl, pos, a, ZeroWords(n - 1)), Fold(cic, ipl, pos, b, ZeroWords(n - 1));
      ZeroKeeps(cic, ipl, WordAt(pos, n - 1), x, y);
    }
  }

  /** Accumulators that differ give different low halves. */
  lemma DifferShows(cic: Cic, a: Accumulators, b: Accumulators)
    requires Differ(cic, a, b)
    ensures Low(Mix(cic, a)) != Low(Mix(cic, b))
  {
    hide Xor32, Mul32, Add32, Join, Low;
    LowOfMix(cic, a);
    LowOfMix(cic, b);
    var x, y := Xor32(a.a4, a.a1), Xor32(b.a4, b.a1);
    if a.a1 == b.a1 {
      AddCancels(a.a0, b.a0, x);
      AddCancels(a.a0, b.a0, Mul32(a.a4, a.a1));
      Xor32CancelsEither(a.a0, b.a0, x);
    } else {
      Xor32CancelsEither(a.a1, b.a1, a.a4);
      Xor32CancelsEither(x, y, a.a0);
    }
  }

  /** The low half is made of accumulators 4, 1 and 0 alone. */
  lemma LowOfMix(cic: Cic, a: Accumulators)
    ensures Low(Mix(cic, a)) ==
      match cic
      case Cic6103 => Add32(Xor32(a.a4, a.a1), a.a0)
      case Cic6106 => Add32(Mul32(a.a4, a.a1), a.a0)
      case _ => Xor32(Xor32(a.a4, a.a1), a.a0)
  {
    hide Xor32, Mul32, Add32;
  }

  // ----- words after which the accumulators differ: 0 and 1, unless the chip is a 6105

  lemma ZeroWord(cic: Cic, ipl: seq<uint8>, pos: nat, a: Accumulators)
    requires !cic.Cic6105? && Aligned(pos) && a.a1 > 0
    ensures Step(cic, ipl, pos, a, 0) == a.(a0 := Add32(a.a0, a.a4))
  {
    hide Xor32, Xor;
    assert Rotate32(0, 0) == 0;
    Xor32Zero(a.a1);
    Xor32Zero(a.a2);
    Xor32Zero(a.a4);
  }

  lemma OneWord(cic: Cic, ipl: seq<uint8>, pos: nat, a: Accumulators)
    requires !cic.Cic6105? && Aligned(pos) && a.a1 > 1
    ensures var b := Step(cic, ipl, pos, a, 1);
            && b.a0 == Add32(a.a0, Xor32(Add32(a.a4, 2), 1)) && b.a1 == Xor32(a.a1, 2)
            && b.a4 == Add32(a.a4, 2) && b.a5 == Add32(a.a5, 1)
  {
    hide Xor32, Add32;
    assert Rotate32(1, 0) == 1 && Rotate32(1, 1) == 2;
  }

  lemma XorPositive(a: uint32, b: uint32)
    requires a != b
    ensures Xor32(a, b) > 0
  {
    hide Xor;
    XorSelf(a as nat);
    if Xor32(a, b) == 0 {
      Xor32Cancels(a, a, b);
    }
  }

  lemma TwoApart(s: uint32, m: uint32)
    ensures Add32(Add32(s, s), m) != Add32(Add32(s, m), Add32(s, 2))
  {}

  /** The accumulators after the words c and d. */
  function Pair(cic: Cic, ipl: seq<uint8>, c: uint32, d: uint32): Accumulators
    requires HasIpl(cic, ipl)
  {
    Step(cic, ipl, CHECK_START + 4, Step(cic, ipl, CHECK_START, Seeded(Seed(cic)), c), d)
  }

  lemma ZeroAndOne(cic: Cic, ipl: seq<uint8>)
    requires !cic.Cic6105? && Seed(cic) != 0
    ensures Differ(cic, Pair(cic, ipl, 0, 1), Pair(cic, ipl, 1, 0))
  {
    hide Step, Xor32, Add32;
    var s := Seeded(Seed(cic));
    var zero, one := Step(cic, ipl, CHECK_START, s, 0), Step(cic, ipl, CHECK_START, s, 1);
    ZeroWord(cic, ipl, CHECK_START, s);
    OneWord(cic, ipl, CHECK_START + 4, zero);
    OneWord(cic, ipl, CHECK_START, s);
    XorPositive(s.a1, 2);
    ZeroWord(cic, ipl, CHECK_START + 4, one);
    TwoApart(Seed(cic), Xor32(Add32(Seed(cic), 2), 1));
  }

  // ----- and for a 6105 a word of ones with 0, or with 1 if the boot block hides that

  const ONES: uint32 := 0xFFFF_FFFF

  const HALF: int := 0x8000_0000

  lemma {:induction false} XorOnes(a: nat, n: nat)
    requires a < Pow2(n)
    ensures Xor(a, Pow2(n) - 1) == Pow2(n) - 1 - a
  {
    if n > 0 {
      XorOnes(a / 2, n - 1);
      XorDigits(a, Pow2(n) - 1);
    }
  }

  lemma Xor32Ones(a: uint32)
    ensures Xor32(a, ONES) == ONES - a
  {
    hide Xor;
    assert Pow2(8) == 0x100 && Pow2(16) == 0x1_0000 && Pow2(24) == 0x100_0000 && Pow2(32) == WORD;
    XorOnes(a as nat, 32);
  }

  lemma Xor32One(a: uint32)
    ensures Xor32(a, 1) == if a % 2 == 0 then a + 1 else a - 1
  {
    XorDigits(a as nat, 1);
    XorZero(a as nat / 2);
  }

  lemma {:induction false} RotateOnes(n: nat)
    ensures Rotate32(ONES, n) == ONES
  {
    if n > 0 {
      RotateOnes(n - 1);
    }
  }

  /** A word c of 0 or 1. */
  lemma LowWord(ipl: seq<uint8>, pos: nat, a: Accumulators, c: uint32)
    requires HasIpl(Cic6105, ipl) && Aligned(pos) && a.a1 > 1 && c <= 1
    ensures var b := Step(Cic6105, ipl, pos, a, c);
            && b.a0 == Add32(a.a0, Xor32(ReadU32(ipl, IplIndex(pos)), c)) && b.a1 == Xor32(a.a1, 2 * c)
            && b.a4 == Add32(a.a4, 2 * c) && b.a5 == Add32(a.a5, c)
  {
    hide Xor32, Add32, ReadU32, IplIndex;
    assert Rotate32(0, 0) == 0 && Rotate32(1, 0) == 1 && Rotate32(1, 1) == 2;
  }

  lemma OnesWord(ipl: seq<uint8>, pos: nat, a: Accumulators)
    requires HasIpl(Cic6105, ipl) && Aligned(pos)
    ensures var b := Step(Cic6105, ipl, pos, a, ONES);
            && b.a0 == Add32(a.a0, ONES - ReadU32(ipl, IplIndex(pos)))
            && b.a1 == Xor32(a.a1, ONES - Add32(a.a5, ONES))
            && b.a4 == Add32(a.a4, ONES) && b.a5 == Add32(a.a5, ONES)
  {
    hide Xor32, Add32, ReadU32, IplIndex, Rotate32;
    RotateOnes(31);
    Xor32Ones(ReadU32(ipl, IplIndex(pos)));
    Xor32Ones(Add32(a.a5, ONES));
  }

  /** Accumulator 1 after a word of ones and a word of 0 or 1; the seed is that of a 6105. */
  lemma OnesInFirst(s: uint32)
    requires s > 0x8000_0000
    ensures Xor32(s, ONES - Add32(s, ONES)) > 1
    ensures Xor32(Xor32(s, 0), ONES - Add32(Add32(s, 0), ONES)) == Xor32(Xor32(s, ONES - Add32(s, ONES)), 0)
    ensures var x := Xor32(Xor32(s, 2), ONES - Add32(Add32(s, 1), ONES));
            var y := Xor32(Xor32(s, ONES - Add32(s, ONES)), 2);
            x != y && x > 0 && y > 0
  {
    hide Xor32;
    var u, v := ONES - Add32(s, ONES), ONES - Add32(Add32(s, 1), ONES);
    assert u == ONES - (s - 1) && v == ONES - (if s == ONES then ONES else s);
    Xor32Large(u, s);
    Xor32Large(2, s);
    Xor32Large(2, Xor32(s, u));
    Xor32Large(v, Xor32(s, 2));
    Xor32Zero(s);
    Xor32Zero(Xor32(s, u));
    Xor32Swap(s, u, 2);
    Xor32CancelsEither(u, v, Xor32(s, 2));
  }

  /** What the accumulators are after a word of ones and a word c of 0 or 1, in either order. */
  lemma OnesAndLow(ipl: seq<uint8>, c: uint32)
    requires HasIpl(Cic6105, ipl) && c <= 1
    ensures var s := Seed(Cic6105);
            var b0, b1 := ReadU32(ipl, IplIndex(CHECK_START)), ReadU32(ipl, IplIndex(CHECK_START + 4));
            var x, y := Pair(Cic6105, ipl, c, ONES), Pair(Cic6105, ipl, ONES, c);
            && x.a4 == y.a4 && x.a5 == y.a5
            && x.a0 == Add32(Add32(s, Xor32(b0, c)), ONES - b1) && y.a0 == Add32(Add32(s, ONES - b0), Xor32(b1, c))
            && (c == 0 ==> x.a1 == y.a1) && (c == 1 ==> x.a1 != y.a1 && x.a1 > 0 && y.a1 > 0)
  {
    hide Step, Xor32, ReadU32, IplIndex, Add32;
    OnesInFirst(Seed(Cic6105));
    var s := Seeded(Seed(Cic6105));
    LowWord(ipl, CHECK_START, s, c);
    OnesWord(ipl, CHECK_START + 4, Step(Cic6105, ipl, CHECK_START, s, c));
    OnesWord(ipl, CHECK_START, s);
    LowWord(ipl, CHECK_START + 4, Step(Cic6105, ipl, CHECK_START, s, ONES), c);
    AddSwaps(s.a4, 2 * c, ONES);
    AddSwaps(s.a5, c, ONES);
  }

  lemma AddSwaps(s: uint32, u: uint32, v: uint32)
    ensures Add32(Add32(s, u), v) == Add32(Add32(s, v), u)
  {}

  /** The words of the boot block that are read first agree, but for their highest bit. */
  predicate Hidden(b0: uint32, b1: uint32) {
    b0 as int % HALF == b1 as int % HALF
  }

  lemma AddThree(s: uint32, u: uint32, v: uint32)
    ensures Add32(Add32(s, u), v) as nat == (s as nat + u as nat + v as nat) % WORD
  {}

  lemma SameInWord(x: int, y: int)
    requires -2 * (WORD as int) < x - y < 2 * WORD
    ensures x % WORD == y % WORD <==> x - y in {-(WORD as int), 0, WORD}
  {}

  lemma SameInHalf(x: int, y: int)
    requires -2 * HALF < x - y < 2 * HALF
    ensures x % HALF == y % HALF <==> x - y in {-HALF, 0, HALF}
  {}

  lemma SumsApart(s: uint32, b0: uint32, b1: uint32)
    ensures Add32(Add32(s, b0), ONES - b1) == Add32(Add32(s, ONES - b0), b1) <==> Hidden(b0, b1)
  {
    hide Add32;
    AddThree(s, b0, ONES - b1);
    AddThree(s, ONES - b0, b1);
    SameInWord(s as int + b0 as int + (ONES - b1) as int, s as int + (ONES - b0) as int + b1 as int);
    SameInHalf(b0 as int, b1 as int);
  }

  lemma SumsAgree(s: uint32, b0: uint32, b1: uint32)
    requires Hidden(b0, b1)
    ensures Add32(Add32(s, Xor32(b0, 1)), ONES - b1) == Add32(Add32(s, ONES - b0), Xor32(b1, 1))
  {
    hide Add32, Xor32;
    var c0, c1 := Xor32(b0, 1), Xor32(b1, 1);
    Xor32One(b0);
    Xor32One(b1);
    AddThree(s, c0, ONES - b1);
    AddThree(s, ONES - b0, c1);
    SameInHalf(b0 as int, b1 as int);
    SameInWord(s as int + c0 as int + (ONES - b1) as int, s as int + (ONES - b0) as int + c1 as int);
  }

  /** The word that shows the order together with a word of ones. */
  function Partner(ipl: seq<uint8>): (c: uint32)
    requires HasIpl(Cic6105, ipl)
    ensures c <= 1
  {
    if Hidden(ReadU32(ipl, IplIndex(CHECK_START)), ReadU32(ipl, IplIndex(CHECK_START + 4))) then 1 else 0
  }

  lemma PartnerAndOnes(ipl: seq<uint8>)
    requires HasIpl(Cic6105, ipl)
    ensures Differ(Cic6105, Pair(Cic6105, ipl, Partner(ipl), ONES), Pair(Cic6105, ipl, ONES, Partner(ipl)))
  {
    hide Pair, Xor32, Add32, Hidden, ReadU32, IplIndex;
    var b0, b1 := ReadU32(ipl, IplIndex(CHECK_START)), ReadU32(ipl, IplIndex(CHECK_START + 4));
    OnesAndLow(ipl, Partner(ipl));
    SumsApart(Seed(Cic6105), b0, b1);
    Xor32Zero(b0);
    Xor32Zero(b1);
    if Hidden(b0, b1) {
      SumsAgree(Seed(Cic6105), b0, b1);
    }
  }

  // ----- the theorem

  lemma FoldTwo(cic: Cic, ipl: seq<uint8>, pos: nat, a: Accumulators, c: uint32, d: uint32)
    requires HasIpl(cic, ipl) && Aligned(pos)
    ensures Aligned(pos + 4)
    ensures Fold(cic, ipl, pos, a, [c, d]) == Step(cic, ipl, pos + 4, Step(cic, ipl, pos, a, c), d)
  {
    hide Step, HasIpl;
    var ws := [c, d];
    assert ws[..1] == [c] && [c][..0] == [];
    assert Fold(cic, ipl, pos, a, []) == a;
    assert Fold(cic, ipl, pos, a, [c]) == Step(cic, ipl, pos, a, c);
  }

  lemma FoldPadded(cic: Cic, ipl: seq<uint8>, c: uint32, d: uint32, n: nat)
    requires HasIpl(cic, ipl)
    ensures Aligned(CHECK_START + 8)
    ensures Fold(cic, ipl, CHECK_START, Seeded(Seed(cic)), [c, d] + ZeroWords(n))
         == Fold(cic, ipl, CHECK_START + 8, Pair(cic, ipl, c, d), ZeroWords(n))
  {
    hide Fold, Step, Seed;
    FoldConcat(cic, ipl, CHECK_START, Seeded(Seed(cic)), [c, d], ZeroWords(n));
    FoldTwo(cic, ipl, CHECK_START, Seeded(Seed(cic)), c, d);
  }

  /**
   Order does show in the low half: for every known chip, every boot block and every length,
   swapping the first two of some words changes it.
   */
  lemma LowHalfSeesOrder(cic: Cic, ipl: seq<uint8>, n: nat) returns (ws: seq<uint32>, vs: seq<uint32>)
    requires HasIpl(cic, ipl) && Seed(cic) != 0 && n >= 2
    ensures |ws| == |vs| == n && multiset(ws) == multiset(vs)
    ensures ws == [vs[1], vs[0]] + vs[2..]
    ensures Low(CheckCodeOf(cic, ipl, ws)) != Low(CheckCodeOf(cic, ipl, vs))
  {
    hide Fold, Pair, Differ, Mix, Low, Partner;
    var c, d := 0, 1;
    if cic.Cic6105? {
      c, d := Partner(ipl), ONES;
      PartnerAndOnes(ipl);
    } else {
      ZeroAndOne(cic, ipl);
    }
    ws, vs := [c, d] + ZeroWords(n - 2), [d, c] + ZeroWords(n - 2);
    FoldPadded(cic, ipl, c, d, n - 2);
    FoldPadded(cic, ipl, d, c, n - 2);
    ZerosKeep(cic, ipl, CHECK_START + 8, Pair(cic, ipl, c, d), Pair(cic, ipl, d, c), n - 2);
    DifferShows(cic,
      Fold(cic, ipl, CHECK_START, Seeded(Seed(cic)), ws), Fold(cic, ipl, CHECK_START, Seeded(Seed(cic)), vs));
  }
}
