/** Bytes and the big-endian 32-bit length field that `DataView.setUint32`
    writes and `DataView.getUint32` reads (both big-endian by default). */
module Bytes {
  type byte = b: int | 0 <= b < 256

  const TWO32: nat := 0x1_0000_0000

  /** `setUint32(0, n)`: the value is first reduced modulo 2^32 (ToUint32),
      then written most significant byte first. */
  function U32BE(n: nat): (b: seq<byte>)
    ensures |b| == 4
  {
    var w := n % TWO32;
    var r3 := w / 256;
    var r2 := r3 / 256;
    [r2 / 256, r2 % 256, r3 % 256, w % 256]
  }

  /** `getUint32(0)` on a buffer of at least four bytes. */
  function ReadU32BE(b: seq<byte>): (n: nat)
    requires |b| >= 4
    ensures n < TWO32
  {
    ((b[0] as int * 256 + b[1]) * 256 + b[2]) * 256 + b[3]
  }

  /** Reading back a written length gives the length modulo 2^32. */
  lemma ReadWritten(n: nat)
    ensures ReadU32BE(U32BE(n)) == n % TWO32
  {
    var w := n % TWO32;
    var r3 := w / 256;
    var r2 := r3 / 256;
    assert w == r3 * 256 + w % 256;
    assert r3 == r2 * 256 + r3 % 256;
    assert r2 == (r2 / 256) * 256 + r2 % 256;
  }

  /** Writing a read length reproduces the four bytes it was read from. */
  lemma WrittenRead(b: seq<byte>)
    requires |b| == 4
    ensures U32BE(ReadU32BE(b)) == b
  {
    var a2: int := b[0] as int * 256 + b[1];
    var a: int := a2 * 256 + b[2];
    var n := ReadU32BE(b);
    assert n == a * 256 + b[3];
    DigitSplit(a, b[3]);
    DigitSplit(a2, b[2]);
    DigitSplit(b[0], b[1]);
    assert n < TWO32 && n % TWO32 == n;
    var w := n % TWO32;
    assert w / 256 == a && w % 256 == b[3];
    assert (w / 256) / 256 == a2 && (w / 256) % 256 == b[2];
    assert ((w / 256) / 256) / 256 == b[0] && ((w / 256) / 256) % 256 == b[1];
  }

  lemma DigitSplit(q: nat, r: byte)
    ensures (q * 256 + r) / 256 == q && (q * 256 + r) % 256 == r
  {
  }

  /** Concatenation of a sequence of byte strings, in order (what a `Blob`
      built from an array of parts holds). */
  function Flatten<T>(ss: seq<seq<T>>): (r: seq<T>)
    decreases |ss|
  {
    if ss == [] then [] else ss[0] + Flatten(ss[1..])
  }

  lemma {:induction false} FlattenAppend<T>(a: seq<seq<T>>, b: seq<seq<T>>)
    ensures Flatten(a + b) == Flatten(a) + Flatten(b)
    decreases |a|
  {
    if a == [] {
      assert a + b == b;
    } else {
      assert (a + b)[1..] == a[1..] + b;
      FlattenAppend(a[1..], b);
    }
  }
}
