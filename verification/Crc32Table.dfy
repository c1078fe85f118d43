/** The table of src/crc32.c, and a proof that each entry is eight division steps of its index. */
module Crc32Table {

  const GENERATOR: bv32 := 0xEDB88320

  /** Shift one message bit through the remainder register. */
  function DivideBit(reg: bv32, bit: bool): bv32 {
    if (reg & 1 == 1) != bit then (reg >> 1) ^ GENERATOR else reg >> 1
  }

  /** The step for a zero bit. */
  function Step(reg: bv32): bv32 {
    DivideBit(reg, false)
  }

  function EightSteps(c: bv32): bv32 {
    Step(Step(Step(Step(Step(Step(Step(Step(c))))))))
  }

  const BLOCK_00: seq<bv32> := [
    0x00000000, 0x77073096, 0xEE0E612C, 0x990951BA, 0x076DC419, 0x706AF48F, 0xE963A535, 0x9E6495A3,
    0x0EDB8832, 0x79DCB8A4, 0xE0D5E91E, 0x97D2D988, 0x09B64C2B, 0x7EB17CBD, 0xE7B82D07, 0x90BF1D91
  ]
  const BLOCK_10: seq<bv32> := [
    0x1DB71064, 0x6AB020F2, 0xF3B97148, 0x84BE41DE, 0x1ADAD47D, 0x6DDDE4EB, 0xF4D4B551, 0x83D385C7,
    0x136C9856, 0x646BA8C0, 0xFD62F97A, 0x8A65C9EC, 0x14015C4F, 0x63066CD9, 0xFA0F3D63, 0x8D080DF5
  ]
  const BLOCK_20: seq<bv32> := [
    0x3B6E20C8, 0x4C69105E, 0xD56041E4, 0xA2677172, 0x3C03E4D1, 0x4B04D447, 0xD20D85FD, 0xA50AB56B,
    0x35B5A8FA, 0x42B2986C, 0xDBBBC9D6, 0xACBCF940, 0x32D86CE3, 0x45DF5C75, 0xDCD60DCF, 0xABD13D59
  ]
  const BLOCK_30: seq<bv32> := [
    0x26D930AC, 0x51DE003A, 0xC8D75180, 0xBFD06116, 0x21B4F4B5, 0x56B3C423, 0xCFBA9599, 0xB8BDA50F,
    0x2802B89E, 0x5F058808, 0xC60CD9B2, 0xB10BE924, 0x2F6F7C87, 0x58684C11, 0xC1611DAB, 0xB6662D3D
  ]
  const BLOCK_40: seq<bv32> := [
    0x76DC4190, 0x01DB7106, 0x98D220BC, 0xEFD5102A, 0x71B18589, 0x06B6B51F, 0x9FBFE4A5, 0xE8B8D433,
    0x7807C9A2, 0x0F00F934, 0x9609A88E, 0xE10E9818, 0x7F6A0DBB, 0x086D3D2D, 0x91646C97, 0xE6635C01
  ]
  const BLOCK_50: seq<bv32> := [
    0x6B6B51F4, 0x1C6C6162, 0x856530D8, 0xF262004E, 0x6C0695ED, 0x1B01A57B, 0x8208F4C1, 0xF50FC457,
    0x65B0D9C6, 0x12B7E950, 0x8BBEB8EA, 0xFCB9887C, 0x62DD1DDF, 0x15DA2D49, 0x8CD37CF3, 0xFBD44C65
  ]
  const BLOCK_60: seq<bv32> := [
    0x4DB26158, 0x3AB551CE, 0xA3BC0074, 0xD4BB30E2, 0x4ADFA541, 0x3DD895D7, 0xA4D1C46D, 0xD3D6F4FB,
    0x4369E96A, 0x346ED9FC, 0xAD678846, 0xDA60B8D0, 0x44042D73, 0x33031DE5, 0xAA0A4C5F, 0xDD0D7CC9
  ]
  const BLOCK_70: seq<bv32> := [
    0x5005713C, 0x270241AA, 0xBE0B1010, 0xC90C2086, 0x5768B525, 0x206F85B3, 0xB966D409, 0xCE61E49F,
    0x5EDEF90E, 0x29D9C998, 0xB0D09822, 0xC7D7A8B4, 0x59B33D17, 0x2EB40D81, 0xB7BD5C3B, 0xC0BA6CAD
  ]
  const BLOCK_80: seq<bv32> := [
    0xEDB88320, 0x9ABFB3B6, 0x03B6E20C, 0x74B1D29A, 0xEAD54739, 0x9DD277AF, 0x04DB2615, 0x73DC1683,
    0xE3630B12, 0x94643B84, 0x0D6D6A3E, 0x7A6A5AA8, 0xE40ECF0B, 0x9309FF9D, 0x0A00AE27, 0x7D079EB1
  ]
  const BLOCK_90: seq<bv32> := [
    0xF00F9344, 0x8708A3D2, 0x1E01F268, 0x6906C2FE, 0xF762575D, 0x806567CB, 0x196C3671, 0x6E6B06E7,
    0xFED41B76, 0x89D32BE0, 0x10DA7A5A, 0x67DD4ACC, 0xF9B9DF6F, 0x8EBEEFF9, 0x17B7BE43, 0x60B08ED5
  ]
  const BLOCK_A0: seq<bv32> := [
    0xD6D6A3E8, 0xA1D1937E, 0x38D8C2C4, 0x4FDFF252, 0xD1BB67F1, 0xA6BC5767, 0x3FB506DD, 0x48B2364B,
    0xD80D2BDA, 0xAF0A1B4C, 0x36034AF6, 0x41047A60, 0xDF60EFC3, 0xA867DF55, 0x316E8EEF, 0x4669BE79
  ]
  const BLOCK_B0: seq<bv32> := [
    0xCB61B38C, 0xBC66831A, 0x256FD2A0, 0x5268E236, 0xCC0C7795, 0xBB0B4703, 0x220216B9, 0x5505262F,
    0xC5BA3BBE, 0xB2BD0B28, 0x2BB45A92, 0x5CB36A04, 0xC2D7FFA7, 0xB5D0CF31, 0x2CD99E8B, 0x5BDEAE1D
  ]
  const BLOCK_C0: seq<bv32> := [
    0x9B64C2B0, 0xEC63F226, 0x756AA39C, 0x026D930A, 0x9C0906A9, 0xEB0E363F, 0x72076785, 0x05005713,
    0x95BF4A82, 0xE2B87A14, 0x7BB12BAE, 0x0CB61B38, 0x92D28E9B, 0xE5D5BE0D, 0x7CDCEFB7, 0x0BDBDF21
  ]
  const BLOCK_D0: seq<bv32> := [
    0x86D3D2D4, 0xF1D4E242, 0x68DDB3F8, 0x1FDA836E, 0x81BE16CD, 0xF6B9265B, 0x6FB077E1, 0x18B74777,
    0x88085AE6, 0xFF0F6A70, 0x66063BCA, 0x11010B5C, 0x8F659EFF, 0xF862AE69, 0x616BFFD3, 0x166CCF45
  ]
  const BLOCK_E0: seq<bv32> := [
    0xA00AE278, 0xD70DD2EE, 0x4E048354, 0x3903B3C2, 0xA7672661, 0xD06016F7, 0x4969474D, 0x3E6E77DB,
    0xAED16A4A, 0xD9D65ADC, 0x40DF0B66, 0x37D83BF0, 0xA9BCAE53, 0xDEBB9EC5, 0x47B2CF7F, 0x30B5FFE9
  ]
  const BLOCK_F0: seq<bv32> := [
    0xBDBDF21C, 0xCABAC28A, 0x53B39330, 0x24B4A3A6, 0xBAD03605, 0xCDD70693, 0x54DE5729, 0x23D967BF,
    0xB3667A2E, 0xC4614AB8, 0x5D681B02, 0x2A6F2B94, 0xB40BBE37, 0xC30C8EA1, 0x5A05DF1B, 0x2D02EF8D
  ]

  const CRC32_TABLE: seq<bv32> :=
    BLOCK_00 + BLOCK_10 + BLOCK_20 + BLOCK_30 + BLOCK_40 + BLOCK_50 + BLOCK_60 + BLOCK_70
    + BLOCK_80 + BLOCK_90 + BLOCK_A0 + BLOCK_B0 + BLOCK_C0 + BLOCK_D0 + BLOCK_E0 + BLOCK_F0

  // ----- tables of a function at consecutive words

  function Tabulate(f: bv32 -> bv32, c: bv32, n: nat): (r: seq<bv32>)
    ensures |r| == n
    decreases n
  {
    if n == 0 then [] else Tabulate(f, c, n - 1) + [f(Advance(c, n - 1))]
  }

  function Advance(c: bv32, n: nat): bv32
    decreases n
  {
    if n == 0 then c else Next(Advance(c, n - 1))
  }

  function Next(c: bv32): bv32 {
    c + 1
  }

  /** t lists the values of f at from, from + 1, .. up to, but not including, to. */
  ghost predicate Tabulated(f: bv32 -> bv32, from: bv32, t: seq<bv32>, to: bv32) {
    t == Tabulate(f, from, |t|) && to == Advance(from, |t|)
  }

  lemma {:induction false} AdvanceAdds(c: bv32, n: nat, m: nat)
    ensures Advance(c, n + m) == Advance(Advance(c, n), m)
  {
    hide Next;
    if m > 0 {
      AdvanceAdds(c, n, m - 1);
    }
  }

  lemma {:induction false} JoinTabulate(f: bv32 -> bv32, c: bv32, n: nat, m: nat)
    ensures Tabulate(f, c, n + m) == Tabulate(f, c, n) + Tabulate(f, Advance(c, n), m)
  {
    hide Advance;
    if m > 0 {
      JoinTabulate(f, c, n, m - 1);
      AdvanceAdds(c, n, m - 1);
    }
  }

  lemma Join(f: bv32 -> bv32, from: bv32, t: seq<bv32>, mid: bv32, u: seq<bv32>, to: bv32)
    requires Tabulated(f, from, t, mid) && Tabulated(f, mid, u, to)
    ensures Tabulated(f, from, t + u, to)
  {
    hide Next;
    JoinTabulate(f, from, |t|, |u|);
    AdvanceAdds(from, |t|, |u|);
  }

  lemma Extend(f: bv32 -> bv32, from: bv32, t: seq<bv32>, c: bv32)
    requires Tabulated(f, from, t, c)
    ensures Tabulated(f, from, t + [f(c)], c + 1)
  {}

  lemma Nothing(f: bv32 -> bv32, c: bv32)
    ensures Tabulated(f, c, [], c)
  {}

  lemma Four(f: bv32 -> bv32, c: bv32, c1: bv32, c2: bv32, c3: bv32, c4: bv32)
    requires c1 == c + 1 && c2 == c1 + 1 && c3 == c2 + 1 && c4 == c3 + 1
    ensures Tabulated(f, c, [f(c), f(c1), f(c2), f(c3)], c4)
  {
    hide Tabulated;
    Nothing(f, c);
    Extend(f, c, [], c);
    Extend(f, c, [f(c)], c1);
    Extend(f, c, [f(c)] + [f(c1)], c2);
    Extend(f, c, [f(c)] + [f(c1)] + [f(c2)], c3);
    assert [f(c)] + [f(c1)] + [f(c2)] + [f(c3)] == [f(c), f(c1), f(c2), f(c3)];
  }

  function Images(
    f: bv32 -> bv32, c: bv32, c1: bv32, c2: bv32, c3: bv32, c4: bv32, c5: bv32, c6: bv32, c7: bv32): seq<bv32>
  {
    [f(c), f(c1), f(c2), f(c3), f(c4), f(c5), f(c6), f(c7)]
  }

  lemma Eight(f: bv32 -> bv32, c: bv32, c1: bv32, c2: bv32, c3: bv32, c4: bv32, c5: bv32, c6: bv32, c7: bv32, c8: bv32)
    requires c1 == c + 1 && c2 == c1 + 1 && c3 == c2 + 1 && c4 == c3 + 1
    requires c5 == c4 + 1 && c6 == c5 + 1 && c7 == c6 + 1 && c8 == c7 + 1
    ensures Tabulated(f, c, Images(f, c, c1, c2, c3, c4, c5, c6, c7), c8)
  {
    hide Tabulated;
    var t, u := [f(c), f(c1), f(c2), f(c3)], [f(c4), f(c5), f(c6), f(c7)];
    Four(f, c, c1, c2, c3, c4);
    Four(f, c4, c5, c6, c7, c8);
    Join(f, c, t, c4, u, c8);
    assert t + u == [f(c), f(c1), f(c2), f(c3), f(c4), f(c5), f(c6), f(c7)];
  }

  lemma {:induction false} TabulateAt(f: bv32 -> bv32, c: bv32, n: nat, i: nat)
    requires i < n
    ensures Tabulate(f, c, n)[i] == f(Advance(c, i))
  {
    if i < n - 1 {
      TabulateAt(f, c, n - 1, i);
    }
  }

  lemma {:induction false} AdvanceByte(y: bv8)
    ensures Advance(0, y as nat) == y as bv32
    decreases y as nat
  {
    if y != 0 {
      AdvanceByte(y - 1);
    }
  }

  // ----- the blocks

  lemma Block00()
    ensures Tabulated(EightSteps, 0x00, BLOCK_00, 0x10)
  {
    Eight(EightSteps, 0x00, 0x01, 0x02, 0x03, 0x04, 0x05, 0x06, 0x07, 0x08);
    Eight(EightSteps, 0x08, 0x09, 0x0A, 0x0B, 0x0C, 0x0D, 0x0E, 0x0F, 0x10);
    Join(EightSteps,
      0x00, Images(EightSteps, 0x00, 0x01, 0x02, 0x03, 0x04, 0x05, 0x06, 0x07),
      0x08, Images(EightSteps, 0x08, 0x09, 0x0A, 0x0B, 0x0C, 0x0D, 0x0E, 0x0F), 0x10);
  }

  lemma Block10()
    ensures Tabulated(EightSteps, 0x10, BLOCK_10, 0x20)
  {
    Eight(EightSteps, 0x10, 0x11, 0x12, 0x13, 0x14, 0x15, 0x16, 0x17, 0x18);
    Eight(EightSteps, 0x18, 0x19, 0x1A, 0x1B, 0x1C, 0x1D, 0x1E, 0x1F, 0x20);
    Join(EightSteps,
      0x10, Images(EightSteps, 0x10, 0x11, 0x12, 0x13, 0x14, 0x15, 0x16, 0x17),
      0x18, Images(EightSteps, 0x18, 0x19, 0x1A, 0x1B, 0x1C, 0x1D, 0x1E, 0x1F), 0x20);
  }

  lemma Block20()
    ensures Tabulated(EightSteps, 0x20, BLOCK_20, 0x30)
  {
    Eight(EightSteps, 0x20, 0x21, 0x22, 0x23, 0x24, 0x25, 0x26, 0x27, 0x28);
    Eight(EightSteps, 0x28, 0x29, 0x2A, 0x2B, 0x2C, 0x2D, 0x2E, 0x2F, 0x30);
    Join(EightSteps,
      0x20, Images(EightSteps, 0x20, 0x21, 0x22, 0x23, 0x24, 0x25, 0x26, 0x27),
      0x28, Images(EightSteps, 0x28, 0x29, 0x2A, 0x2B, 0x2C, 0x2D, 0x2E, 0x2F), 0x30);
  }

  lemma Block30()
    ensures Tabulated(EightSteps, 0x30, BLOCK_30, 0x40)
  {
    Eight(EightSteps, 0x30, 0x31, 0x32, 0x33, 0x34, 0x35, 0x36, 0x37, 0x38);
    Eight(EightSteps, 0x38, 0x39, 0x3A, 0x3B, 0x3C, 0x3D, 0x3E, 0x3F, 0x40);
    Join(EightSteps,
      0x30, Images(EightSteps, 0x30, 0x31, 0x32, 0x33, 0x34, 0x35, 0x36, 0x37),
      0x38, Images(EightSteps, 0x38, 0x39, 0x3A, 0x3B, 0x3C, 0x3D, 0x3E, 0x3F), 0x40);
  }

  lemma Block40()
    ensures Tabulated(EightSteps, 0x40, BLOCK_40, 0x50)
  {
    Eight(EightSteps, 0x40, 0x41, 0x42, 0x43, 0x44, 0x45, 0x46, 0x47, 0x48);
    Eight(EightSteps, 0x48, 0x49, 0x4A, 0x4B, 0x4C, 0x4D, 0x4E, 0x4F, 0x50);
    Join(EightSteps,
      0x40, Images(EightSteps, 0x40, 0x41, 0x42, 0x43, 0x44, 0x45, 0x46, 0x47),
      0x48, Images(EightSteps, 0x48, 0x49, 0x4A, 0x4B, 0x4C, 0x4D, 0x4E, 0x4F), 0x50);
  }

  lemma Block50()
    ensures Tabulated(EightSteps, 0x50, BLOCK_50, 0x60)
  {
    Eight(EightSteps, 0x50, 0x51, 0x52, 0x53, 0x54, 0x55, 0x56, 0x57, 0x58);
    Eight(EightSteps, 0x58, 0x59, 0x5A, 0x5B, 0x5C, 0x5D, 0x5E, 0x5F, 0x60);
    Join(EightSteps,
      0x50, Images(EightSteps, 0x50, 0x51, 0x52, 0x53, 0x54, 0x55, 0x56, 0x57),
      0x58, Images(EightSteps, 0x58, 0x59, 0x5A, 0x5B, 0x5C, 0x5D, 0x5E, 0x5F), 0x60);
  }

  lemma Block60()
    ensures Tabulated(EightSteps, 0x60, BLOCK_60, 0x70)
  {
    Eight(EightSteps, 0x60, 0x61, 0x62, 0x63, 0x64, 0x65, 0x66, 0x67, 0x68);
    Eight(EightSteps, 0x68, 0x69, 0x6A, 0x6B, 0x6C, 0x6D, 0x6E, 0x6F, 0x70);
    Join(EightSteps,
      0x60, Images(EightSteps, 0x60, 0x61, 0x62, 0x63, 0x64, 0x65, 0x66, 0x67),
      0x68, Images(EightSteps, 0x68, 0x69, 0x6A, 0x6B, 0x6C, 0x6D, 0x6E, 0x6F), 0x70);
  }

  lemma Block70()
    ensures Tabulated(EightSteps, 0x70, BLOCK_70, 0x80)
  {
    Eight(EightSteps, 0x70, 0x71, 0x72, 0x73, 0x74, 0x75, 0x76, 0x77, 0x78);
    Eight(EightSteps, 0x78, 0x79, 0x7A, 0x7B, 0x7C, 0x7D, 0x7E, 0x7F, 0x80);
    Join(EightSteps,
      0x70, Images(EightSteps, 0x70, 0x71, 0x72, 0x73, 0x74, 0x75, 0x76, 0x77),
      0x78, Images(EightSteps, 0x78, 0x79, 0x7A, 0x7B, 0x7C, 0x7D, 0x7E, 0x7F), 0x80);
  }

  lemma Block80()
    ensures Tabulated(EightSteps, 0x80, BLOCK_80, 0x90)
  {
    Eight(EightSteps, 0x80, 0x81, 0x82, 0x83, 0x84, 0x85, 0x86, 0x87, 0x88);
    Eight(EightSteps, 0x88, 0x89, 0x8A, 0x8B, 0x8C, 0x8D, 0x8E, 0x8F, 0x90);
    Join(EightSteps,
      0x80, Images(EightSteps, 0x80, 0x81, 0x82, 0x83, 0x84, 0x85, 0x86, 0x87),
      0x88, Images(EightSteps, 0x88, 0x89, 0x8A, 0x8B, 0x8C, 0x8D, 0x8E, 0x8F), 0x90);
  }

  lemma Block90()
    ensures Tabulated(EightSteps, 0x90, BLOCK_90, 0xA0)
  {
    Eight(EightSteps, 0x90, 0x91, 0x92, 0x93, 0x94, 0x95, 0x96, 0x97, 0x98);
    Eight(EightSteps, 0x98, 0x99, 0x9A, 0x9B, 0x9C, 0x9D, 0x9E, 0x9F, 0xA0);
    Join(EightSteps,
      0x90, Images(EightSteps, 0x90, 0x91, 0x92, 0x93, 0x94, 0x95, 0x96, 0x97),
      0x98, Images(EightSteps, 0x98, 0x99, 0x9A, 0x9B, 0x9C, 0x9D, 0x9E, 0x9F), 0xA0);
  }

  lemma BlockA0()
    ensures Tabulated(EightSteps, 0xA0, BLOCK_A0, 0xB0)
  {
    Eight(EightSteps, 0xA0, 0xA1, 0xA2, 0xA3, 0xA4, 0xA5, 0xA6, 0xA7, 0xA8);
    Eight(EightSteps, 0xA8, 0xA9, 0xAA, 0xAB, 0xAC, 0xAD, 0xAE, 0xAF, 0xB0);
    Join(EightSteps,
      0xA0, Images(EightSteps, 0xA0, 0xA1, 0xA2, 0xA3, 0xA4, 0xA5, 0xA6, 0xA7),
      0xA8, Images(EightSteps, 0xA8, 0xA9, 0xAA, 0xAB, 0xAC, 0xAD, 0xAE, 0xAF), 0xB0);
  }

  lemma BlockB0()
    ensures Tabulated(EightSteps, 0xB0, BLOCK_B0, 0xC0)
  {
    Eight(EightSteps, 0xB0, 0xB1, 0xB2, 0xB3, 0xB4, 0xB5, 0xB6, 0xB7, 0xB8);
    Eight(EightSteps, 0xB8, 0xB9, 0xBA, 0xBB, 0xBC, 0xBD, 0xBE, 0xBF, 0xC0);
    Join(EightSteps,
      0xB0, Images(EightSteps, 0xB0, 0xB1, 0xB2, 0xB3, 0xB4, 0xB5, 0xB6, 0xB7),
      0xB8, Images(EightSteps, 0xB8, 0xB9, 0xBA, 0xBB, 0xBC, 0xBD, 0xBE, 0xBF), 0xC0);
  }

  lemma BlockC0()
    ensures Tabulated(EightSteps, 0xC0, BLOCK_C0, 0xD0)
  {
    Eight(EightSteps, 0xC0, 0xC1, 0xC2, 0xC3, 0xC4, 0xC5, 0xC6, 0xC7, 0xC8);
    Eight(EightSteps, 0xC8, 0xC9, 0xCA, 0xCB, 0xCC, 0xCD, 0xCE, 0xCF, 0xD0);
    Join(EightSteps,
      0xC0, Images(EightSteps, 0xC0, 0xC1, 0xC2, 0xC3, 0xC4, 0xC5, 0xC6, 0xC7),
      0xC8, Images(EightSteps, 0xC8, 0xC9, 0xCA, 0xCB, 0xCC, 0xCD, 0xCE, 0xCF), 0xD0);
  }

  lemma BlockD0()
    ensures Tabulated(EightSteps, 0xD0, BLOCK_D0, 0xE0)
  {
    Eight(EightSteps, 0xD0, 0xD1, 0xD2, 0xD3, 0xD4, 0xD5, 0xD6, 0xD7, 0xD8);
    Eight(EightSteps, 0xD8, 0xD9, 0xDA, 0xDB, 0xDC, 0xDD, 0xDE, 0xDF, 0xE0);
    Join(EightSteps,
      0xD0, Images(EightSteps, 0xD0, 0xD1, 0xD2, 0xD3, 0xD4, 0xD5, 0xD6, 0xD7),
      0xD8, Images(EightSteps, 0xD8, 0xD9, 0xDA, 0xDB, 0xDC, 0xDD, 0xDE, 0xDF), 0xE0);
  }

  lemma BlockE0()
    ensures Tabulated(EightSteps, 0xE0, BLOCK_E0, 0xF0)
  {
    Eight(EightSteps, 0xE0, 0xE1, 0xE2, 0xE3, 0xE4, 0xE5, 0xE6, 0xE7, 0xE8);
    Eight(EightSteps, 0xE8, 0xE9, 0xEA, 0xEB, 0xEC, 0xED, 0xEE, 0xEF, 0xF0);
    Join(EightSteps,
      0xE0, Images(EightSteps, 0xE0, 0xE1, 0xE2, 0xE3, 0xE4, 0xE5, 0xE6, 0xE7),
      0xE8, Images(EightSteps, 0xE8, 0xE9, 0xEA, 0xEB, 0xEC, 0xED, 0xEE, 0xEF), 0xF0);
  }

  lemma BlockF0()
    ensures Tabulated(EightSteps, 0xF0, BLOCK_F0, 0x100)
  {
    Eight(EightSteps, 0xF0, 0xF1, 0xF2, 0xF3, 0xF4, 0xF5, 0xF6, 0xF7, 0xF8);
    Eight(EightSteps, 0xF8, 0xF9, 0xFA, 0xFB, 0xFC, 0xFD, 0xFE, 0xFF, 0x100);
    Join(EightSteps,
      0xF0, Images(EightSteps, 0xF0, 0xF1, 0xF2, 0xF3, 0xF4, 0xF5, 0xF6, 0xF7),
      0xF8, Images(EightSteps, 0xF8, 0xF9, 0xFA, 0xFB, 0xFC, 0xFD, 0xFE, 0xFF), 0x100);
  }

  lemma TableIsTabulated()
    ensures Tabulated(EightSteps, 0, CRC32_TABLE, 0x100)
  {
    Block00(); Block10(); Block20(); Block30(); Block40(); Block50(); Block60(); Block70();
    Block80(); Block90(); BlockA0(); BlockB0(); BlockC0(); BlockD0(); BlockE0(); BlockF0();
    var t := BLOCK_00;
    Join(EightSteps, 0, t, 0x10, BLOCK_10, 0x20);
    t := t + BLOCK_10;
    Join(EightSteps, 0, t, 0x20, BLOCK_20, 0x30);
    t := t + BLOCK_20;
    Join(EightSteps, 0, t, 0x30, BLOCK_30, 0x40);
    t := t + BLOCK_30;
    Join(EightSteps, 0, t, 0x40, BLOCK_40, 0x50);
    t := t + BLOCK_40;
    Join(EightSteps, 0, t, 0x50, BLOCK_50, 0x60);
    t := t + BLOCK_50;
    Join(EightSteps, 0, t, 0x60, BLOCK_60, 0x70);
    t := t + BLOCK_60;
    Join(EightSteps, 0, t, 0x70, BLOCK_70, 0x80);
    t := t + BLOCK_70;
    Join(EightSteps, 0, t, 0x80, BLOCK_80, 0x90);
    t := t + BLOCK_80;
    Join(EightSteps, 0, t, 0x90, BLOCK_90, 0xA0);
    t := t + BLOCK_90;
    Join(EightSteps, 0, t, 0xA0, BLOCK_A0, 0xB0);
    t := t + BLOCK_A0;
    Join(EightSteps, 0, t, 0xB0, BLOCK_B0, 0xC0);
    t := t + BLOCK_B0;
    Join(EightSteps, 0, t, 0xC0, BLOCK_C0, 0xD0);
    t := t + BLOCK_C0;
    Join(EightSteps, 0, t, 0xD0, BLOCK_D0, 0xE0);
    t := t + BLOCK_D0;
    Join(EightSteps, 0, t, 0xE0, BLOCK_E0, 0xF0);
    t := t + BLOCK_E0;
    Join(EightSteps, 0, t, 0xF0, BLOCK_F0, 0x100);
    t := t + BLOCK_F0;
  }

  /** Every entry of the table is eight division steps of its index. */
  lemma TableEntry(y: bv8)
    ensures |CRC32_TABLE| == 256 && CRC32_TABLE[y as nat] == EightSteps(y as bv32)
  {
    hide EightSteps, Tabulate, Advance;
    TableIsTabulated();
    TabulateAt(EightSteps, 0, 256, y as nat);
    AdvanceByte(y);
  }
}
