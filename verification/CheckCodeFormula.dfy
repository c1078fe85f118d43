/** The check code of every stream, in closed form. */
module CheckCodeFormula {
  import opened Bytes
  import opened Words
  import opened CheckCode
  import opened CheckCodeTheorems

  /** n, with wrap-around. */
  function Wrapped(n: nat): uint32 {
    (n % 0x1_0000_0000) as uint32
  }

  function Product(a: uint32, b: uint32): nat {
    a as nat * b as nat
  }

  /** The number with these halves, each with wrap-around. */
  function Halves(high: nat, low: nat): nat {
    Wrapped(high) as nat * 0x1_0000_0000 + Wrapped(low) as nat
  }

  /** The seeds, chip by chip. */
  function SeedOf(cic: Cic): uint32 {
    if cic == Cic6101 || cic == Cic6102 then 0xF8CA_4DDC
    else if cic == Cic6103 then 0xA388_6759
    else if cic == Cic6105 then 0xDF26_F436
    else if cic == Cic6106 then 0x1FEA_617A
    else 0
  }

  /** The check code of the words ws, with a 6105's boot block. */
  function ClosedForm(cic: Cic, ipl: seq<uint8>, ws: seq<uint32>): nat
    requires cic.Cic6105? ==> |ipl| >= 0x810
  {
    var seed := SeedOf(cic);
    var s := seed as nat;
    var total := s + Sum(ws);
    var sum, carries := Wrapped(total), Wrapped(s + total / 0x1_0000_0000);
    var xor, second := XorAll(seed, ws), SecondAfter(seed, ws);
    var rotated := Wrapped(s + RotatedSum(ws));
    var mixed := s + MixedSum(cic, ipl, 0x1000, seed, ws);
    match cic
    case Cic6103 =>
      Halves(Xor32(sum, carries) as nat + xor as nat, Xor32(rotated, second) as nat + mixed)
    case Cic6106 =>
      Halves(Product(sum, carries) + xor as nat, Product(rotated, second) + mixed)
    case _ =>
      Halves(Xor32(Xor32(sum, carries), xor) as nat, Xor32(Xor32(rotated, second), Wrapped(mixed)) as nat)
  }

  lemma JoinHalves(high: uint32, low: uint32)
    ensures Join(high, low) as nat == Halves(high as nat, low as nat)
  {}

  lemma WrapAgain(n: nat, m: nat)
    ensures Halves(Wrapped(n) as nat, Wrapped(m) as nat) == Halves(n, m)
  {}

  lemma AddWraps(x: uint32, y: uint32, n: nat)
    ensures Add32(x, y) == Wrapped(x as nat + y as nat)
    ensures Add32(x, Wrapped(n)) == Wrapped(x as nat + n)
  {
    AddWrapped(n, x as nat);
  }

  lemma MulAddWraps(x: uint32, y: uint32, u: uint32, n: nat)
    ensures Add32(Mul32(x, y), u) == Wrapped(Product(x, y) + u as nat)
    ensures Add32(Mul32(x, y), Wrapped(n)) == Wrapped(Product(x, y) + n)
  {
    var p := Product(x, y);
    AddWrapped(p, u as nat);
    AddWrapped(p, n);
    hide Product;
    AddWraps(Mul32(x, y), u, n);
  }

  lemma SeedsAgree(cic: Cic)
    ensures Seed(cic) == SeedOf(cic)
  {}

  /** The accumulators and their last mixing, for every chip: what the whole engine computes. */
  lemma CheckCodeIsClosedForm(cic: Cic, ipl: seq<uint8>, ws: seq<uint32>)
    requires cic.Cic6105? ==> |ipl| >= 0x810
    ensures HasIpl(cic, ipl) && CheckCodeOf(cic, ipl, ws) as nat == ClosedForm(cic, ipl, ws)
  {
    hide Xor32, Add32, Mul32, Join, Halves, Fold, Sum, RotatedSum, XorAll, SecondAfter, MixedSum, Seed, SeedOf, Product;
    SeedsAgree(cic);
    var seed := Seed(cic);
    SumAndCarries(cic, ipl, CHECK_START, seed, ws);
    XorAndRotations(cic, ipl, CHECK_START, seed, ws);
    FirstAccumulator(cic, ipl, CHECK_START, seed, ws);
    SecondAccumulator(cic, ipl, CHECK_START, seed, ws);
    var mixed := seed as nat + MixedSum(cic, ipl, CHECK_START, seed, ws);
    MixIsHalves(cic, Fold(cic, ipl, CHECK_START, Seeded(seed), ws), mixed);
  }

  lemma MixIsHalves(cic: Cic, a: Accumulators, mixed: nat)
    requires a.a0 == Wrapped(mixed)
    ensures Mix(cic, a) as nat ==
      match cic
      case Cic6103 => Halves(Xor32(a.a5, a.a3) as nat + a.a2 as nat, Xor32(a.a4, a.a1) as nat + mixed)
      case Cic6106 => Halves(Product(a.a5, a.a3) + a.a2 as nat, Product(a.a4, a.a1) + mixed)
      case _ => Halves(Xor32(Xor32(a.a5, a.a3), a.a2) as nat, Xor32(Xor32(a.a4, a.a1), a.a0) as nat)
  {
    hide Xor32, Add32, Mul32, Join, Halves, Wrapped, Product;
    match cic
    case Cic6103 =>
      var x, y := Xor32(a.a5, a.a3), Xor32(a.a4, a.a1);
      AddWraps(x, a.a2, mixed);
      AddWraps(y, a.a0, mixed);
      JoinHalves(Add32(x, a.a2), Add32(y, a.a0));
      WrapAgain(x as nat + a.a2 as nat, y as nat + mixed);
    case Cic6106 =>
      MulAddWraps(a.a5, a.a3, a.a2, mixed);
      MulAddWraps(a.a4, a.a1, a.a2, mixed);
      JoinHalves(Add32(Mul32(a.a5, a.a3), a.a2), Add32(Mul32(a.a4, a.a1), a.a0));
      WrapAgain(Product(a.a5, a.a3) + a.a2 as nat, Product(a.a4, a.a1) + mixed);
    case _ =>
      JoinHalves(Xor32(Xor32(a.a5, a.a3), a.a2), Xor32(Xor32(a.a4, a.a1), a.a0));
  }
}
