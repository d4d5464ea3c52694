/** Bytes as the Java code handles them (`byte[]`), with the helpers the cipher needs. */
module Bytes {

  /** One octet. Java's `byte` is signed, but nothing modelled here depends on the sign. */
  newtype byte = x: int | 0 <= x < 256

  /** A freshly allocated Java `byte[n]`: every element is zero. */
  function Zeros(n: nat): (r: seq<byte>)
    ensures |r| == n
    ensures forall i :: 0 <= i < n ==> r[i] == 0
  {
    seq(n, _ => 0)
  }

  function Pow2(k: nat): (r: nat)
    ensures r >= 1
  {
    if k == 0 then 1 else 2 * Pow2(k - 1)
  }

  /** The number formed by the low `k` bits of `a`. */
  function LowBits(a: nat, k: nat): nat
  {
    if k == 0 then 0 else a % 2 + 2 * LowBits(a / 2, k - 1)
  }

  /** The exclusive or of the low `k` bits of `a` and `b`, one bit at a time. */
  function XorBits(a: nat, b: nat, k: nat): (r: nat)
    ensures r < Pow2(k)
  {
    if k == 0 then 0 else (if a % 2 == b % 2 then 0 else 1) + 2 * XorBits(a / 2, b / 2, k - 1)
  }

  lemma {:induction false} LowBitsOfSmall(a: nat, k: nat)
    requires a < Pow2(k)
    ensures LowBits(a, k) == a
  {
    if k > 0 {
      LowBitsOfSmall(a / 2, k - 1);
    }
  }

  /** Xoring twice with the same `b` keeps exactly the low `k` bits of `a`. */
  lemma {:induction false} XorBitsCancel(a: nat, b: nat, k: nat)
    ensures XorBits(XorBits(a, b, k), b, k) == LowBits(a, k)
  {
    if k > 0 {
      var q := XorBits(a / 2, b / 2, k - 1);
      var bit := if a % 2 == b % 2 then 0 else 1;
      var r := bit + 2 * q;
      assert r == XorBits(a, b, k);
      assert r % 2 == bit && r / 2 == q;
      assert (if bit == b % 2 then 0 else 1) == a % 2;
      XorBitsCancel(a / 2, b / 2, k - 1);
      assert XorBits(r, b, k) == a % 2 + 2 * LowBits(a / 2, k - 1);
    }
  }

  function XorByte(a: byte, b: byte): byte
  {
    assert Pow2(8) == 256;
    XorBits(a as nat, b as nat, 8) as byte
  }

  lemma XorByteCancel(a: byte, b: byte)
    ensures XorByte(XorByte(a, b), b) == a
  {
    XorBitsCancel(a as nat, b as nat, 8);
    assert Pow2(8) == 256;
    LowBitsOfSmall(a as nat, 8);
  }

  /** Exclusive or, byte by byte, of two equally long byte strings. */
  function Xor(a: seq<byte>, b: seq<byte>): (r: seq<byte>)
    requires |a| == |b|
    ensures |r| == |a|
  {
    seq(|a|, i requires 0 <= i < |a| => XorByte(a[i], b[i]))
  }

  /** Xoring twice with the same mask gives back the original bytes. */
  lemma XorCancel(a: seq<byte>, b: seq<byte>)
    requires |a| == |b|
    ensures Xor(Xor(a, b), b) == a
  {
    forall i | 0 <= i < |a|
      ensures Xor(Xor(a, b), b)[i] == a[i]
    {
      XorByteCancel(a[i], b[i]);
    }
  }
}
