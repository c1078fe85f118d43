/** An open file: its bytes and a cursor. Seeks and writes succeed; a read is exact or fails. */
module Files {
  import opened Bytes

  function Zeros(n: nat): (z: seq<uint8>)
    ensures |z| == n && forall i :: 0 <= i < n ==> z[i] == 0
  {
    seq(n, i => 0)
  }

  /** s grown with zeros to at least n bytes. */
  function Padded(s: seq<uint8>, n: nat): (r: seq<uint8>)
    ensures |r| >= n && |r| >= |s|
  {
    if |s| < n then s + Zeros(n - |s|) else s
  }

  /** The bytes of a file after piece is written at offset at. */
  function Overwrite(s: seq<uint8>, at: nat, piece: seq<uint8>): seq<uint8> {
    if |piece| == 0 then s else Splice(Padded(s, at + |piece|), at, piece)
  }

  /** The bytes from offset `from` on, at most n of them. */
  function Available(s: seq<uint8>, from: nat, n: nat): seq<uint8> {
    if from >= |s| then [] else if from + n <= |s| then s[from..from + n] else s[from..]
  }

  class File {
    var bytes: seq<uint8>
    var pos: nat

    constructor (bytes: seq<uint8>)
      ensures this.bytes == bytes && pos == 0
    {
      this.bytes := bytes;
      pos := 0;
    }

    method Seek(offset: nat)
      modifies this`pos
      ensures pos == offset
    {
      pos := offset;
    }

    /** Fill the first n bytes of buffer. As in stdio, reading zero bytes counts as a failure. */
    method Read(buffer: array<uint8>, n: nat) returns (ok: bool)
      requires n <= buffer.Length
      modifies this`pos, buffer
      ensures ok <==> n > 0 && old(pos) + n <= |bytes|
      ensures ok ==> pos == old(pos) + n && buffer[..n] == bytes[old(pos)..pos]
    {
      var data := Available(bytes, pos, n);
      forall k | 0 <= k < |data| {
        buffer[k] := data[k];
      }
      ok := n > 0 && |data| == n;
      pos := pos + |data|;
    }

    /** Read at most n bytes. */
    method ReadSome(n: nat) returns (data: seq<uint8>)
      modifies this`pos
      ensures data == Available(bytes, old(pos), n) && pos == old(pos) + |data|
    {
      data := Available(bytes, pos, n);
      pos := pos + |data|;
    }

    method Write(data: seq<uint8>)
      modifies this
      ensures bytes == Overwrite(old(bytes), old(pos), data) && pos == old(pos) + |data|
    {
      bytes := Overwrite(bytes, pos, data);
      pos := pos + |data|;
    }
  }

  /** Every byte after a write. */
  lemma OverwriteAt(s: seq<uint8>, at: nat, piece: seq<uint8>)
    requires |piece| > 0
    ensures |Overwrite(s, at, piece)| == if |s| < at + |piece| then at + |piece| else |s|
    ensures forall k :: 0 <= k < |Overwrite(s, at, piece)| ==>
              Overwrite(s, at, piece)[k] ==
                if at <= k < at + |piece| then piece[k - at] else if k < |s| then s[k] else 0
  {}

  /** Two writes in a row are one write of both pieces. */
  lemma OverwriteConcat(s: seq<uint8>, at: nat, p: seq<uint8>, q: seq<uint8>)
    ensures Overwrite(Overwrite(s, at, p), at + |p|, q) == Overwrite(s, at, p + q)
  {
    if |p| == 0 {
      assert p + q == q;
    } else if |q| == 0 {
      assert p + q == p;
    } else {
      OverwriteTwice(s, at, p, q);
    }
  }

  lemma OverwriteTwice(s: seq<uint8>, at: nat, p: seq<uint8>, q: seq<uint8>)
    requires |p| > 0 && |q| > 0
    ensures Overwrite(Overwrite(s, at, p), at + |p|, q) == Overwrite(s, at, p + q)
  {
    hide Overwrite;
    var r := Overwrite(s, at, p);
    OverwriteAt(s, at, p);
    OverwriteAt(s, at, p + q);
    OverwriteAt(r, at + |p|, q);
    var x, y := Overwrite(r, at + |p|, q), Overwrite(s, at, p + q);
    forall k | 0 <= k < |x|
      ensures x[k] == y[k]
    {
      if at + |p| <= k < at + |p| + |q| {
        assert (p + q)[k - at] == q[k - at - |p|];
      } else if at <= k < at + |p| {
        assert (p + q)[k - at] == p[k - at];
      }
    }
  }

  lemma OverwriteInside(s: seq<uint8>, at: nat, piece: seq<uint8>)
    requires at + |piece| <= |s|
    ensures Overwrite(s, at, piece) == Splice(s, at, piece)
  {}
}
