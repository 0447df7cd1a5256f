/**
 * Bytes of a file and the 32-bit integers stored in them.
 *
 * A C `int` is written to the container as four bytes. The model keeps
 * in-memory integers unbounded and wraps them to 32 bits (two's complement,
 * little-endian) exactly where they are written into the file image.
 */
module Bytes {

  type byte = b: int | 0 <= b < 256

  const TWO_31: int := 0x8000_0000
  const TWO_32: int := 0x1_0000_0000

  datatype Option<T> = None | Some(value: T)

  function Max(a: int, b: int): int { if a < b then b else a }
  function Min(a: int, b: int): int { if a < b then a else b }

  /** The range of a C `int`. */
  predicate IsInt32(n: int) { -TWO_31 <= n < TWO_31 }

  /** The value a C `int` ends up holding when `n` is stored in it. */
  function Wrap32(n: int): (r: int)
    ensures IsInt32(r)
    ensures (n - r) % TWO_32 == 0
    ensures IsInt32(n) ==> r == n
  {
    var u := n % TWO_32;
    if u < TWO_31 then u else u - TWO_32
  }

  /** The four little-endian bytes of the low 32 bits of `n`. */
  function EncodeInt(n: int): (r: seq<byte>)
    ensures |r| == 4
  {
    var u := n % TWO_32;
    [u % 256, (u / 0x100) % 256, (u / 0x1_0000) % 256, u / 0x100_0000]
  }

  /** The C `int` whose in-memory representation is the four bytes `b`. */
  function DecodeInt(b: seq<byte>): (r: int)
    requires |b| == 4
    ensures IsInt32(r)
  {
    var u := b[0] as int + 0x100 * (b[1] as int) + 0x1_0000 * (b[2] as int) + 0x100_0000 * (b[3] as int);
    if u < TWO_31 then u else u - TWO_32
  }

  lemma UnsignedDigits(u: int)
    requires 0 <= u < TWO_32
    ensures u == u % 256 + 0x100 * ((u / 0x100) % 256) + 0x1_0000 * ((u / 0x1_0000) % 256) + 0x100_0000 * (u / 0x100_0000)
    ensures u / 0x100_0000 < 256
  {
    var q1 := u / 0x100;
    var q2 := q1 / 0x100;
    var q3 := q2 / 0x100;
    assert u == u % 256 + 0x100 * q1;
    assert q1 == q1 % 256 + 0x100 * q2;
    assert q2 == q2 % 256 + 0x100 * q3;
    assert q2 == u / 0x1_0000;
    assert q3 == u / 0x100_0000;
  }

  /** Reading back an `int` that was written gives its 32-bit wrap-around. */
  lemma DecodeEncodeInt(n: int)
    ensures DecodeInt(EncodeInt(n)) == Wrap32(n)
  {
    UnsignedDigits(n % TWO_32);
  }

  /** Every four bytes are the representation of exactly one `int`. */
  lemma EncodeDecodeInt(b: seq<byte>)
    requires |b| == 4
    ensures EncodeInt(DecodeInt(b)) == b
  {
    var u := b[0] as int + 0x100 * (b[1] as int) + 0x1_0000 * (b[2] as int) + 0x100_0000 * (b[3] as int);
    assert 0 <= u < TWO_32;
    assert DecodeInt(b) % TWO_32 == u;
    var q1 := b[1] as int + 0x100 * (b[2] as int) + 0x1_0000 * (b[3] as int);
    assert u == b[0] + 0x100 * q1;
    assert u % 256 == b[0] && u / 0x100 == q1;
    var q2 := b[2] as int + 0x100 * (b[3] as int);
    assert q1 == b[1] + 0x100 * q2;
    assert q1 % 256 == b[1] && q1 / 0x100 == q2;
    assert u / 0x1_0000 == q2;
    assert q2 % 256 == b[2] && q2 / 0x100 == b[3];
    assert u / 0x100_0000 == b[3];
  }

  function Zeros(n: nat): (r: seq<byte>)
    ensures |r| == n
    ensures forall k :: 0 <= k < n ==> r[k] == 0
  {
    seq(n, _ => 0)
  }

  /**
   * The file after `fseek(f, off, SEEK_SET); fwrite(data, ...)`: the bytes at
   * `off` are replaced by `data`, a gap past the old end reads as zeros, and
   * the file grows if the write runs past its end.
   */
  function WriteAt(file: seq<byte>, off: nat, data: seq<byte>): (r: seq<byte>)
    ensures |r| == Max(|file|, off + |data|)
    ensures r[off..off + |data|] == data
  {
    if off + |data| <= |file| then
      file[..off] + data + file[off + |data|..]
    else if off <= |file| then
      file[..off] + data
    else
      file + Zeros(off - |file|) + data
  }

  /** Byte by byte: a write leaves the bytes it does not cover as they were, and a gap reads as zeros. */
  lemma WriteAtBytes(file: seq<byte>, off: nat, data: seq<byte>)
    ensures forall k :: 0 <= k < |WriteAt(file, off, data)| && !(off <= k < off + |data|) ==>
              WriteAt(file, off, data)[k] == (if k < |file| then file[k] else 0)
  {
  }

  /** A write leaves every byte range it does not touch as it was. */
  lemma WriteAtElsewhere(file: seq<byte>, off: nat, data: seq<byte>, lo: nat, hi: nat)
    requires lo <= hi <= |file|
    requires hi <= off || off + |data| <= lo
    ensures hi <= |WriteAt(file, off, data)|
    ensures WriteAt(file, off, data)[lo..hi] == file[lo..hi]
  {
    var r := WriteAt(file, off, data);
    WriteAtBytes(file, off, data);
    assert forall k :: lo <= k < hi ==> r[k] == file[k];
  }

  /** Two writes back to back are one write of both. */
  lemma WriteAtSplit(file: seq<byte>, off: nat, a: seq<byte>, b: seq<byte>)
    ensures WriteAt(WriteAt(file, off, a), off + |a|, b) == WriteAt(file, off, a + b)
  {
    var r1 := WriteAt(file, off, a);
    var r := WriteAt(r1, off + |a|, b);
    var q := WriteAt(file, off, a + b);
    WriteAtBytes(file, off, a);
    WriteAtBytes(r1, off + |a|, b);
    WriteAtBytes(file, off, a + b);
    assert |r| == |q|;
    forall k | 0 <= k < |r| ensures r[k] == q[k] {
      if off <= k < off + |a| {
        assert r1[off..off + |a|][k - off] == r1[k];
        assert q[off..off + |a + b|][k - off] == q[k];
      } else if off + |a| <= k < off + |a| + |b| {
        assert r[off + |a|..off + |a| + |b|][k - off - |a|] == r[k];
        assert q[off..off + |a + b|][k - off] == q[k];
      }
    }
  }

  /** Writing at the end of the file appends. */
  lemma WriteAtEnd(file: seq<byte>, data: seq<byte>)
    ensures WriteAt(file, |file|, data) == file + data
  {
    if data == [] {
      assert file[..|file|] + data + file[|file|..] == file + data;
    }
  }

  /** Writing inside the file keeps its length. */
  lemma WriteAtInside(file: seq<byte>, off: nat, data: seq<byte>)
    requires off + |data| <= |file|
    ensures |WriteAt(file, off, data)| == |file|
    ensures WriteAt(file, off, data) == file[..off] + data + file[off + |data|..]
  {
  }
}
