/** What the check-code engine of src/rom.c guarantees over whole runs. */
module CheckCodeTheorems {
  import opened Bytes
  import opened Words
  import opened CheckCode

  // ----- streaming: however the data is cut, the state is that of one update

  lemma {:induction false} FoldConcat(
    cic: Cic, ipl: seq<uint8>, pos: nat, a: Accumulators, xs: seq<uint32>, ys: seq<uint32>)
    requires HasIpl(cic, ipl) && Aligned(pos)
    ensures Fold(cic, ipl, pos, a, xs + ys) == Fold(cic, ipl, WordAt(pos, |xs|), Fold(cic, ipl, pos, a, xs), ys)
    decreases |ys|
  {
    hide Step, Aligned, HasIpl;
    if |ys| == 0 {
      assert xs + ys == xs;
    } else {
      var zs := xs + ys;
      assert zs[..|zs| - 1] == xs + ys[..|ys| - 1];
      FoldConcat(cic, ipl, pos, a, xs, ys[..|ys| - 1]);
    }
  }

  lemma WordsOfConcat(p: seq<uint8>, q: seq<uint8>)
    requires Aligned(|p|)
    ensures WordsOf(p + q) == WordsOf(p) + WordsOf(q)
    ensures 4 * |WordsOf(p)| == |p|
  {
    hide ReadU32;
    var m := |p| / 4;
    forall k: nat | k < (|p| + |q|) / 4
      ensures WordsOf(p + q)[k] == (WordsOf(p) + WordsOf(q))[k]
    {
      if k < m {
        ReadSlice(p + q, 0, |p|, 4 * k);
        assert (p + q)[0..|p|] == p;
      } else {
        ReadSlice(p + q, |p|, |p| + |q|, 4 * (k - m));
        assert (p + q)[|p|..|p| + |q|] == q;
      }
    }
  }

  /** Two updates are one update with the concatenated data. */
  lemma AdvanceComposes(s: Stream, x: seq<uint8>, y: seq<uint8>)
    requires Aligned(s.offset) && Accepts(s, x) && Accepts(s, y)
    ensures Accepts(s, x + y) && Aligned(Advance(s, x).offset)
    ensures Advance(Advance(s, x), y) == Advance(s, x + y)
  {
    hide Fold, WordsOf;
    var n, m := Taken(s.offset, |x|), Taken(s.offset + Taken(s.offset, |x|), |y|);
    TakenAligned(s.offset, |x|, |y|);
    assert (x + y)[..n + m] == x[..n] + y[..m];
    WordsOfConcat(x[..n], y[..m]);
    FoldConcat(s.cic, s.ipl, s.offset, s.acc, WordsOf(x[..n]), WordsOf(y[..m]));
  }

  lemma TakenAligned(o: nat, n: nat, m: nat)
    requires Aligned(o) && Aligned(n) && Aligned(m)
    ensures Aligned(Taken(o, n)) && Aligned(o + Taken(o, n)) && Aligned(n + m)
    ensures Taken(o, n + m) == Taken(o, n) + Taken(o + Taken(o, n), m)
    ensures Taken(o, n) < n ==> Taken(o + Taken(o, n), m) == 0
  {}

  /** A run of updates; one that is turned away leaves the state as it was. */
  function Run(s: Stream, chunks: seq<seq<uint8>>): Stream
    requires Aligned(s.offset) && HasIpl(s.cic, s.ipl)
    decreases |chunks|
  {
    if |chunks| == 0 then s
    else if Accepts(s, chunks[0]) then
      AdvanceComposes(s, chunks[0], []);
      Run(Advance(s, chunks[0]), chunks[1..])
    else Run(s, chunks[1..])
  }

  /** The data of the chunks that are not turned away. */
  function Fed(chunks: seq<seq<uint8>>): (data: seq<uint8>)
    ensures Aligned(|data|)
    decreases |chunks|
  {
    if |chunks| == 0 then []
    else if Aligned(|chunks[0]|) then
      TakenAligned(0, |chunks[0]|, |Fed(chunks[1..])|);
      chunks[0] + Fed(chunks[1..])
    else Fed(chunks[1..])
  }

  /** Streaming, for every way of cutting the data and from every aligned state. */
  lemma {:induction false} RunIsOneUpdate(s: Stream, chunks: seq<seq<uint8>>)
    requires Aligned(s.offset) && HasIpl(s.cic, s.ipl)
    ensures Run(s, chunks) == Advance(s, Fed(chunks))
    decreases |chunks|
  {
    hide Advance, Aligned;
    if |chunks| == 0 {
      AdvanceByNothing(s);
    } else if Accepts(s, chunks[0]) {
      var rest := Fed(chunks[1..]);
      AdvanceKeeps(s, chunks[0]);
      AdvanceComposes(s, chunks[0], rest);
      RunIsOneUpdate(Advance(s, chunks[0]), chunks[1..]);
    } else {
      RunIsOneUpdate(s, chunks[1..]);
    }
  }

  lemma AdvanceByNothing(s: Stream)
    requires Aligned(s.offset) && HasIpl(s.cic, s.ipl)
    ensures Accepts(s, []) && Advance(s, []) == s
  {}

  lemma AdvanceKeeps(s: Stream, data: seq<uint8>)
    requires Aligned(s.offset) && Accepts(s, data)
    ensures var t := Advance(s, data);
            t.cic == s.cic && t.ipl == s.ipl && t.offset == s.offset + Taken(s.offset, |data|)
  {}

  // ----- closed forms of the accumulators that make up the high half

  function Sum(ws: seq<uint32>): nat {
    if |ws| == 0 then 0 else Sum(ws[..|ws| - 1]) + ws[|ws| - 1] as nat
  }

  function XorAll(x: uint32, ws: seq<uint32>): uint32 {
    if |ws| == 0 then x else Xor32(XorAll(x, ws[..|ws| - 1]), ws[|ws| - 1])
  }

  /** The sum of the words, each rotated left by its own low five bits. */
  function RotatedSum(ws: seq<uint32>): nat {
    if |ws| == 0 then 0 else RotatedSum(ws[..|ws| - 1]) + Rotate32(ws[|ws| - 1], ws[|ws| - 1] as nat % 32) as nat
  }

  /** What one word does to the four accumulators that do not look at the others. */
  lemma StepSums(cic: Cic, ipl: seq<uint8>, pos: nat, a: Accumulators, d: uint32)
    requires HasIpl(cic, ipl) && Aligned(pos)
    ensures var b := Step(cic, ipl, pos, a, d);
            && b.a5 == Add32(a.a5, d)
            && b.a3 == (if Add32(a.a5, d) < a.a5 then Add32(a.a3, 1) else a.a3)
            && b.a2 == Xor32(a.a2, d)
            && b.a4 == Add32(a.a4, Rotate32(d, d as nat % 32))
  {
    hide Add32, Xor32, Rotate32, ReadU32, IplIndex;
  }

  /** Accumulators 5 and 3 are the low word and the carries of the exact sum of all words, whatever its size. */
  lemma {:induction false} SumAndCarries(cic: Cic, ipl: seq<uint8>, pos: nat, seed: uint32, ws: seq<uint32>)
    requires HasIpl(cic, ipl) && Aligned(pos)
    ensures var a := Fold(cic, ipl, pos, Seeded(seed), ws);
            var total := seed as nat + Sum(ws);
            a.a5 as nat == total % WORD && a.a3 as nat == (seed as nat + total / WORD) % WORD
  {
    hide Xor32, Rotate32, Aligned, HasIpl, Step;
    if |ws| > 0 {
      var n := |ws| - 1;
      SumAndCarries(cic, ipl, pos, seed, ws[..n]);
      StepSums(cic, ipl, WordAt(pos, n), Fold(cic, ipl, pos, Seeded(seed), ws[..n]), ws[n]);
      hide Fold;
      CarryStep(seed as nat + Sum(ws[..n]), seed as nat, ws[n]);
    }
  }

  /** Accumulator 2 is the exclusive or of all words, accumulator 4 the sum of the rotated words. */
  lemma {:induction false} XorAndRotations(cic: Cic, ipl: seq<uint8>, pos: nat, seed: uint32, ws: seq<uint32>)
    requires HasIpl(cic, ipl) && Aligned(pos)
    ensures var a := Fold(cic, ipl, pos, Seeded(seed), ws);
            a.a2 == XorAll(seed, ws) && a.a4 as nat == (seed as nat + RotatedSum(ws)) % WORD
  {
    hide Xor32, Rotate32, Aligned, HasIpl, Step;
    if |ws| > 0 {
      var n := |ws| - 1;
      XorAndRotations(cic, ipl, pos, seed, ws[..n]);
      StepSums(cic, ipl, WordAt(pos, n), Fold(cic, ipl, pos, Seeded(seed), ws[..n]), ws[n]);
      hide Fold;
      AddStep(seed as nat + RotatedSum(ws[..n]), Rotate32(ws[n], ws[n] as nat % 32));
    }
  }

  lemma AddStep(total: nat, d: uint32)
    ensures Add32((total % WORD) as uint32, d) as nat == (total + d as nat) % WORD
  {}

  /** One addition with its carry. */
  lemma CarryStep(total: nat, seed: nat, d: uint32)
    ensures var low := (total % WORD) as uint32;
            var high := ((seed + total / WORD) % WORD) as uint32;
            && Add32(low, d) as nat == (total + d as nat) % WORD
            && (if Add32(low, d) < low then Add32(high, 1) else high) as nat
               == (seed + (total + d as nat) / WORD) % WORD
  {
    var q, low := total / WORD, total % WORD;
    assert total == q * WORD + low;
    var carry := if low + d as nat >= WORD then 1 else 0;
    assert (total + d as nat) / WORD == q + carry;
  }

  /** What the last of the words ws is mixed with on its way into accumulator 0. */
  function MixedWith(cic: Cic, ipl: seq<uint8>, pos: nat, seed: uint32, ws: seq<uint32>): uint32
    requires HasIpl(cic, ipl) && Aligned(pos) && |ws| > 0
  {
    if cic.Cic6105? then ReadU32(ipl, 0x710 + 4 * ((pos / 4 + |ws| - 1) % 64))
    else ((seed as nat + RotatedSum(ws)) % WORD) as uint32
  }

  /** What the words add to accumulator 0: each with the boot block (6105) or with accumulator 4 as it is by then. */
  function MixedSum(cic: Cic, ipl: seq<uint8>, pos: nat, seed: uint32, ws: seq<uint32>): nat
    requires HasIpl(cic, ipl) && Aligned(pos)
  {
    if |ws| == 0 then 0
    else MixedSum(cic, ipl, pos, seed, ws[..|ws| - 1]) + Xor32(MixedWith(cic, ipl, pos, seed, ws), ws[|ws| - 1]) as nat
  }

  lemma {:induction false} FirstAccumulator(cic: Cic, ipl: seq<uint8>, pos: nat, seed: uint32, ws: seq<uint32>)
    requires HasIpl(cic, ipl) && Aligned(pos)
    ensures Fold(cic, ipl, pos, Seeded(seed), ws).a0 as nat == (seed as nat + MixedSum(cic, ipl, pos, seed, ws)) % WORD
  {
    hide Xor32, Aligned, HasIpl, MixedWith, Step, Add32;
    if |ws| > 0 {
      var n := |ws| - 1;
      FirstAccumulator(cic, ipl, pos, seed, ws[..n]);
      MixedStep(cic, ipl, pos, seed, ws);
      AddStep(seed as nat + MixedSum(cic, ipl, pos, seed, ws[..n]), Xor32(MixedWith(cic, ipl, pos, seed, ws), ws[n]));
    }
  }

  lemma MixedStep(cic: Cic, ipl: seq<uint8>, pos: nat, seed: uint32, ws: seq<uint32>)
    requires HasIpl(cic, ipl) && Aligned(pos) && |ws| > 0
    ensures var mixed := Xor32(MixedWith(cic, ipl, pos, seed, ws), ws[|ws| - 1]);
            Fold(cic, ipl, pos, Seeded(seed), ws).a0
            == Add32(Fold(cic, ipl, pos, Seeded(seed), ws[..|ws| - 1]).a0, mixed)
  {
    hide Xor32, Add32, Step, Sum, RotatedSum, Aligned, HasIpl;
    var n := |ws| - 1;
    XorAndRotations(cic, ipl, pos, seed, ws);
    IplWord(pos, n);
    FirstStep(cic, ipl, WordAt(pos, n), Fold(cic, ipl, pos, Seeded(seed), ws[..n]), ws[n]);
  }

  /** The boot block's window is read word by word, cyclically. */
  lemma IplWord(pos: nat, n: nat)
    requires Aligned(pos)
    ensures IplIndex(WordAt(pos, n)) == 0x710 + 4 * ((pos / 4 + n) % 64)
    ensures pos == CHECK_START ==> IplIndex(WordAt(pos, n)) == 0x710 + 4 * (n % 64)
  {
    var m := pos / 4 + n;
    FourTimes(m, m / 64, m % 64);
    if pos == CHECK_START {
      Cycles(n);
    }
  }

  lemma FourTimes(m: nat, k: nat, r: nat)
    requires m == 64 * k + r && r < 64
    ensures 4 * m % 0x100 == 4 * r
  {
    assert 4 * m == 0x100 * k + 4 * r;
  }

  lemma Cycles(n: nat)
    ensures (0x400 + n) % 64 == n % 64
  {}

  /** Accumulator 1 after the words: each comes in rotated if it is below, and else together with the sum so far. */
  function SecondAfter(seed: uint32, ws: seq<uint32>): uint32 {
    if |ws| == 0 then seed
    else
      var p, d := SecondAfter(seed, ws[..|ws| - 1]), ws[|ws| - 1];
      var sum := ((seed as nat + Sum(ws)) % WORD) as uint32;
      Xor32(p, if p > d then Rotate32(d, d as nat % 32) else Xor32(sum, d))
  }

  lemma {:induction false} SecondAccumulator(cic: Cic, ipl: seq<uint8>, pos: nat, seed: uint32, ws: seq<uint32>)
    requires HasIpl(cic, ipl) && Aligned(pos)
    ensures Fold(cic, ipl, pos, Seeded(seed), ws).a1 == SecondAfter(seed, ws)
  {
    hide Xor32, Rotate32, Aligned, HasIpl, Step, Sum, Add32;
    if |ws| > 0 {
      var n := |ws| - 1;
      SecondAccumulator(cic, ipl, pos, seed, ws[..n]);
      SumAndCarries(cic, ipl, pos, seed, ws);
      SecondStep(cic, ipl, WordAt(pos, n), Fold(cic, ipl, pos, Seeded(seed), ws[..n]), ws[n]);
    }
  }

  lemma SecondStep(cic: Cic, ipl: seq<uint8>, pos: nat, a: Accumulators, d: uint32)
    requires HasIpl(cic, ipl) && Aligned(pos)
    ensures var b := Step(cic, ipl, pos, a, d);
            b.a1 == Xor32(a.a1, if a.a1 > d then Rotate32(d, d as nat % 32) else Xor32(b.a5, d))
  {
    hide Add32, Xor32, Rotate32, ReadU32, IplIndex;
  }

  lemma FirstStep(cic: Cic, ipl: seq<uint8>, pos: nat, a: Accumulators, d: uint32)
    requires HasIpl(cic, ipl) && Aligned(pos)
    ensures var b := Step(cic, ipl, pos, a, d);
            b.a0 == Add32(a.a0, Xor32(if cic.Cic6105? then ReadU32(ipl, IplIndex(pos)) else b.a4, d))
  {
    hide Add32, Xor32, Rotate32, ReadU32, IplIndex;
  }

  lemma {:induction false} SumBound(ws: seq<uint32>)
    ensures Sum(ws) <= |ws| * (WORD - 1)
  {
    if |ws| > 0 {
      SumBound(ws[..|ws| - 1]);
    }
  }

  /** How many words a run takes in at most. */
  const MAX_WORDS: nat := 0x4_0000

  /** Read as one number, accumulators 3 and 5 hold the seeds plus the sum of all words: no carry is lost. */
  lemma CarryConservation(cic: Cic, ipl: seq<uint8>, ws: seq<uint32>)
    requires HasIpl(cic, ipl) && |ws| <= MAX_WORDS
    ensures var seed := Seed(cic);
            var a := Fold(cic, ipl, CHECK_START, Seeded(seed), ws);
            a.a3 as nat * WORD + a.a5 as nat == seed as nat * WORD + seed as nat + Sum(ws)
  {
    hide Fold, Sum, Seed;
    SumAndCarries(cic, ipl, CHECK_START, Seed(cic), ws);
    SumBound(ws);
    SeedBound(cic);
    NoWrap(Seed(cic) as nat, Sum(ws), |ws|);
  }

  lemma SeedBound(cic: Cic)
    ensures Seed(cic) as nat + MAX_WORDS < WORD
  {}

  lemma NoWrap(seed: nat, sum: nat, n: nat)
    requires seed + MAX_WORDS < WORD && n <= MAX_WORDS && sum <= n * (WORD - 1)
    ensures (seed + (seed + sum) / WORD) % WORD * WORD + (seed + sum) % WORD == seed * WORD + seed + sum
  {
    var carries := (seed + sum) / WORD;
    assert seed + sum < (MAX_WORDS + 1) * WORD;
    assert carries <= MAX_WORDS;
  }

  // ----- every reachable state

  /** What every sequence of updates, accepted or not, leaves of a freshly initialised state. */
  lemma ReachableStates(cic: Cic, ipl: seq<uint8>, chunks: seq<seq<uint8>>)
    requires HasIpl(cic, ipl)
    ensures var s := Run(Stream(cic, Seeded(Seed(cic)), CHECK_START, ipl), chunks);
            var n := Min(|Fed(chunks)|, CHECK_END - CHECK_START);
            var ws := WordsOf(Fed(chunks)[..n]);
            && s.cic == cic && s.ipl == ipl
            && s.offset == CHECK_START + n && Aligned(s.offset) && CHECK_START <= s.offset <= CHECK_END
            && s.acc == Fold(cic, ipl, CHECK_START, Seeded(Seed(cic)), ws)
            && s.acc.a3 as nat * WORD + s.acc.a5 as nat == Seed(cic) as nat * WORD + Seed(cic) as nat + Sum(ws)
  {
    hide Fold, Sum, WordsOf, Run, Fed;
    var s := Stream(cic, Seeded(Seed(cic)), CHECK_START, ipl);
    var data := Fed(chunks);
    RunIsOneUpdate(s, chunks);
    TakenAligned(CHECK_START, |data|, 0);
    CarryConservation(cic, ipl, WordsOf(data[..Taken(CHECK_START, |data|)]));
  }

  // ----- the boot block

  /** Only bytes 0x710 to 0x80F of the boot block are ever read. */
  lemma {:induction false} BootBlockWindow(
    cic: Cic, ipl: seq<uint8>, ipl': seq<uint8>, pos: nat, a: Accumulators, ws: seq<uint32>)
    requires HasIpl(cic, ipl) && HasIpl(cic, ipl') && Aligned(pos)
    requires cic.Cic6105? ==> ipl[0x710..IPL_SIZE] == ipl'[0x710..IPL_SIZE]
    ensures Fold(cic, ipl, pos, a, ws) == Fold(cic, ipl', pos, a, ws)
    decreases |ws|
  {
    hide Add32, Xor32, Rotate32, Aligned, ReadU32;
    if |ws| > 0 {
      BootBlockWindow(cic, ipl, ipl', pos, a, ws[..|ws| - 1]);
      if cic.Cic6105? {
        var i := IplIndex(WordAt(pos, |ws| - 1));
        ReadSlice(ipl, 0x710, IPL_SIZE, i - 0x710);
        ReadSlice(ipl', 0x710, IPL_SIZE, i - 0x710);
      }
    }
  }

  // ----- the order of the words

  function Without<T>(s: seq<T>, j: nat): seq<T>
    requires j < |s|
  {
    s[..j] + s[j + 1..]
  }

  lemma {:induction false} TakeOut(ws: seq<uint32>, j: nat, x: uint32)
    requires j < |ws|
    ensures Sum(ws) == Sum(Without(ws, j)) + ws[j] as nat
    ensures XorAll(x, ws) == Xor32(XorAll(x, Without(ws, j)), ws[j])
    decreases |ws|
  {
    hide Xor32;
    var n := |ws| - 1;
    if j == n {
      assert Without(ws, j) == ws[..n];
    } else {
      var vs := Without(ws, j);
      TakeOut(ws[..n], j, x);
      assert vs[..n - 1] == Without(ws[..n], j) && vs[n - 1] == ws[n];
      Xor32Swap(XorAll(x, Without(ws[..n], j)), ws[j], ws[n]);
    }
  }

  /** Sums and exclusive ors see only how often each word occurs. */
  lemma {:induction false} Permuted(ws: seq<uint32>, vs: seq<uint32>, x: uint32)
    requires multiset(ws) == multiset(vs)
    ensures Sum(ws) == Sum(vs) && XorAll(x, ws) == XorAll(x, vs)
    decreases |ws|
  {
    hide Xor32;
    if |ws| == 0 {
      assert |multiset(vs)| == 0;
    } else {
      var n := |ws| - 1;
      var j := FindLast(ws, vs);
      hide Without;
      Permuted(ws[..n], Without(vs, j), x);
      TakeOut(vs, j, x);
    }
  }

  /** The last word of ws occurs in every rearrangement vs, and the rest is a rearrangement of the rest. */
  lemma FindLast<T>(ws: seq<T>, vs: seq<T>) returns (j: nat)
    requires |ws| > 0 && multiset(ws) == multiset(vs)
    ensures j < |vs| && vs[j] == ws[|ws| - 1]
    ensures multiset(ws[..|ws| - 1]) == multiset(Without(vs, j))
  {
    var n := |ws| - 1;
    assert ws[n] in multiset(ws);
    j :| 0 <= j < |vs| && vs[j] == ws[n];
    MultisetWithout(ws, n);
    MultisetWithout(vs, j);
    assert Without(ws, n) == ws[..n];
    MultisetCancels(multiset(ws[..n]), multiset(Without(vs, j)), ws[n]);
  }

  lemma MultisetWithout<T>(s: seq<T>, j: nat)
    requires j < |s|
    ensures multiset(s) == multiset(Without(s, j)) + multiset{s[j]}
  {
    assert s == s[..j] + [s[j]] + s[j + 1..];
  }

  lemma MultisetCancels<T>(a: multiset<T>, b: multiset<T>, d: T)
    requires a + multiset{d} == b + multiset{d}
    ensures a == b
  {
    assert a == a + multiset{d} - multiset{d};
    assert b == b + multiset{d} - multiset{d};
  }

  /** Reordering the words never changes the high half of the check code, for any chip. */
  lemma HighHalfIgnoresOrder(cic: Cic, ipl: seq<uint8>, ws: seq<uint32>, vs: seq<uint32>)
    requires HasIpl(cic, ipl) && multiset(ws) == multiset(vs)
    ensures High(CheckCodeOf(cic, ipl, ws)) == High(CheckCodeOf(cic, ipl, vs))
  {
    hide Fold, Sum, XorAll, Xor32, Add32, Mul32, Join, High;
    var seed := Seed(cic);
    Permuted(ws, vs, seed);
    SumAndCarries(cic, ipl, CHECK_START, seed, ws);
    SumAndCarries(cic, ipl, CHECK_START, seed, vs);
    XorAndRotations(cic, ipl, CHECK_START, seed, ws);
    XorAndRotations(cic, ipl, CHECK_START, seed, vs);
    HighOfMix(cic, Fold(cic, ipl, CHECK_START, Seeded(seed), ws));
    HighOfMix(cic, Fold(cic, ipl, CHECK_START, Seeded(seed), vs));
  }

  /** The high half is made of accumulators 5, 3 and 2 alone. */
  function HighMix(cic: Cic, a2: uint32, a3: uint32, a5: uint32): uint32 {
    match cic
    case Cic6103 => Add32(Xor32(a5, a3), a2)
    case Cic6106 => Add32(Mul32(a5, a3), a2)
    case _ => Xor32(Xor32(a5, a3), a2)
  }

  lemma HighOfMix(cic: Cic, a: Accumulators)
    ensures High(Mix(cic, a)) == HighMix(cic, a.a2, a.a3, a.a5)
  {
    hide Xor32, Add32, Mul32;
  }
}
