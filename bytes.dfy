/**
 * Bytes of the in-memory container and the big-endian 32-bit length field.
 */
module Bytes {
  /** One byte of the container, as an unsigned value. */
  type byte = b: int | 0 <= b < 256

  /** 2^32: one more than the largest value of a `uint32_t`. */
  const TWO_32: int := 0x1_0000_0000

  /** A run of `n` zero bytes (the padding that may separate sections). */
  function Zeros(n: nat): (z: seq<byte>)
    ensures |z| == n
    ensures forall i :: 0 <= i < n ==> z[i] == 0
  {
    seq(n, _ => 0)
  }

  /** The unsigned value of four bytes stored most significant first (`ntohl`). */
  function BE32(b: seq<byte>): (v: nat)
    requires |b| == 4
    ensures v < TWO_32
  {
    var hi: int := b[0] as int * 256 + b[1] as int;
    var mid: int := hi * 256 + b[2] as int;
    mid * 256 + b[3] as int
  }

  /** The four bytes, most significant first, that store `v`. */
  function EncodeBE32(v: nat): (b: seq<byte>)
    requires v < TWO_32
    ensures |b| == 4
  {
    var q1 := v / 256;
    var q2 := q1 / 256;
    [q2 / 256, q2 % 256, q1 % 256, v % 256]
  }

  /** Decoding what was encoded gives the value back. */
  lemma {:induction false} DecodeEncodeBE32(v: nat)
    requires v < TWO_32
    ensures BE32(EncodeBE32(v)) == v
  {
    var q1 := v / 256;
    var q2 := q1 / 256;
    var b := EncodeBE32(v);
    assert b[0] as int * 256 + b[1] as int == q2;
    assert q2 * 256 + b[2] as int == q1;
    assert q1 * 256 + b[3] as int == v;
  }

  /** Encoding what was decoded gives the same four bytes back. */
  lemma {:induction false} EncodeDecodeBE32(b: seq<byte>)
    requires |b| == 4
    ensures EncodeBE32(BE32(b)) == b
  {
    var hi: int := b[0] as int * 256 + b[1] as int;
    var mid: int := hi * 256 + b[2] as int;
    var v := BE32(b);
    assert v == mid * 256 + b[3] as int;
    assert v / 256 == mid && v % 256 == b[3];
    assert mid / 256 == hi && mid % 256 == b[2];
    assert hi / 256 == b[0] && hi % 256 == b[1];
  }

  /** A slice that lies after a prefix `p` is a slice of what follows it. */
  lemma {:induction false} SliceAfter<T>(p: seq<T>, r: seq<T>, a: nat, b: nat)
    requires a <= b <= |r|
    ensures (p + r)[|p| + a .. |p| + b] == r[a .. b]
  {
    var q := (p + r)[|p| + a .. |p| + b];
    assert forall i :: 0 <= i < b - a ==> q[i] == r[a + i];
  }

  /** A slice that lies inside `r` is unaffected by what is appended to `r`. */
  lemma {:induction false} SliceBefore<T>(r: seq<T>, t: seq<T>, a: nat, b: nat)
    requires a <= b <= |r|
    ensures (r + t)[a .. b] == r[a .. b]
  {
    var q := (r + t)[a .. b];
    assert forall i :: 0 <= i < b - a ==> q[i] == r[a + i];
  }

  /** Concatenation is associative. */
  lemma {:induction false} Associative<T>(a: seq<T>, b: seq<T>, c: seq<T>)
    ensures a + b + c == a + (b + c)
  {
  }

  /** Dropping a prefix leaves what followed it. */
  lemma {:induction false} DropPrefix<T>(p: seq<T>, q: seq<T>)
    ensures (p + q)[|p|..] == q
  {
  }

  /** Dropping a prefix and `n` more elements leaves what followed the first `n` elements after it. */
  lemma {:induction false} DropPast<T>(p: seq<T>, q: seq<T>, n: nat)
    requires n <= |q|
    ensures (p + q)[|p| + n ..] == q[n..]
  {
    var d := (p + q)[|p| + n ..];
    assert forall i :: 0 <= i < |d| ==> d[i] == q[n + i];
  }
}
