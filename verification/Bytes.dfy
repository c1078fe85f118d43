/** Bytes, 32-bit words and the big-endian codec of src/bytes.h. */
module Bytes {

  newtype uint8 = x: int | 0 <= x < 0x100
  newtype uint32 = x: int | 0 <= x < 0x1_0000_0000
  newtype uint64 = x: int | 0 <= x < 0x1_0000_0000_0000_0000

  const UINT32_MAX: uint32 := 0xFFFF_FFFF

  function ReadU32(data: seq<uint8>, at: nat): uint32
    requires at + 4 <= |data|
  {
    data[at] as uint32 * 0x100_0000 + data[at + 1] as uint32 * 0x1_0000
    + data[at + 2] as uint32 * 0x100 + data[at + 3] as uint32
  }

  /** The four bytes of n, most significant first. */
  function U32Bytes(n: uint32): (b: seq<uint8>)
    ensures |b| == 4
  {
    [(n / 0x100_0000) as uint8, (n / 0x1_0000 % 0x100) as uint8, (n / 0x100 % 0x100) as uint8, (n % 0x100) as uint8]
  }

  /** s with the bytes from `at` on replaced by those of piece. */
  function Splice<T>(s: seq<T>, at: nat, piece: seq<T>): (r: seq<T>)
    requires at + |piece| <= |s|
    ensures |r| == |s|
  {
    s[..at] + piece + s[at + |piece|..]
  }

  method WriteU32(p: array<uint8>, at: nat, n: uint32)
    requires at + 4 <= p.Length
    modifies p
    ensures p[..] == Splice(old(p[..]), at, U32Bytes(n))
    ensures p[..at + 4] == old(p[..at]) + U32Bytes(n)
    ensures forall k :: at + 4 <= k < p.Length ==> p[k] == old(p[k])
  {
    p[at] := (n / 0x100_0000) as uint8;
    p[at + 1] := (n / 0x1_0000 % 0x100) as uint8;
    p[at + 2] := (n / 0x100 % 0x100) as uint8;
    p[at + 3] := (n % 0x100) as uint8;
  }

  lemma ReadSlice(data: seq<uint8>, lo: nat, hi: nat, at: nat)
    requires lo <= hi <= |data| && at + 4 <= hi - lo
    ensures ReadU32(data[lo..hi], at) == ReadU32(data, lo + at)
  {
    var s := data[lo..hi];
    assert s[at] == data[lo + at] && s[at + 1] == data[lo + at + 1];
    assert s[at + 2] == data[lo + at + 2] && s[at + 3] == data[lo + at + 3];
  }

  lemma ReadAfterWrite(n: uint32)
    ensures ReadU32(U32Bytes(n), 0) == n
  {
    var m := n as int;
    assert m == m / 0x100 * 0x100 + m % 0x100;
    assert m / 0x100 == m / 0x1_0000 * 0x100 + m / 0x100 % 0x100;
    assert m / 0x1_0000 == m / 0x100_0000 * 0x100 + m / 0x1_0000 % 0x100;
  }

  lemma WriteAfterRead(data: seq<uint8>, at: nat)
    requires at + 4 <= |data|
    ensures U32Bytes(ReadU32(data, at)) == data[at..at + 4]
  {
    var b0, b1, b2, b3 := data[at] as nat, data[at + 1] as nat, data[at + 2] as nat, data[at + 3] as nat;
    FromDigits(b0, b1, b2, b3);
    assert data[at..at + 4] == [data[at], data[at + 1], data[at + 2], data[at + 3]];
  }

  lemma FromDigits(b0: nat, b1: nat, b2: nat, b3: nat)
    requires b0 < 0x100 && b1 < 0x100 && b2 < 0x100 && b3 < 0x100
    ensures var n := b0 * 0x100_0000 + b1 * 0x1_0000 + b2 * 0x100 + b3;
            n / 0x100_0000 == b0 && n / 0x1_0000 % 0x100 == b1 && n / 0x100 % 0x100 == b2 && n % 0x100 == b3
  {
    var n := b0 * 0x100_0000 + b1 * 0x1_0000 + b2 * 0x100 + b3;
    assert n / 0x100 == b0 * 0x1_0000 + b1 * 0x100 + b2;
    assert n / 0x1_0000 == b0 * 0x100 + b1;
  }
}
