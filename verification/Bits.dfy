/**
 Bitwise operators on octets, and the constant-time comparison built from them.
 */
module Bits {
  import opened Bytes
  import Modular

  function Pow2(n: nat): (p: nat)
    ensures p >= 1
  {
    if n == 0 then 1 else 2 * Pow2(n - 1)
  }

  function XorBits(a: nat, b: nat, n: nat): (x: nat)
    ensures x < Pow2(n)
  {
    if n == 0 then 0 else (if a % 2 == b % 2 then 0 else 1) + 2 * XorBits(a / 2, b / 2, n - 1)
  }

  function OrBits(a: nat, b: nat, n: nat): (x: nat)
    ensures x < Pow2(n)
  {
    if n == 0 then 0 else (if a % 2 + b % 2 == 0 then 0 else 1) + 2 * OrBits(a / 2, b / 2, n - 1)
  }

  /** Bit k of a number, the lowest first. */
  function Bit(x: nat, k: nat): (b: nat)
    ensures b <= 1
  {
    if k == 0 then x % 2 else Bit(x / 2, k - 1)
  }

  /** A number is its bits in base two. */
  lemma {:induction false} BitIsDigit(x: nat, k: nat)
    ensures Bit(x, k) == x / Pow2(k) % 2
  {
    if k > 0 {
      BitIsDigit(x / 2, k - 1);
      var (p, q) := (Pow2(k - 1), x / Pow2(k));
      var r := x % Pow2(k);
      assert x == 2 * p * q + r;
      Modular.MulAssociates(2, p, q);
      Modular.RemainderUnique(x / 2, q, r / 2, p);
    }
  }

  lemma {:induction false} XorBitAt(a: nat, b: nat, n: nat, k: nat)
    requires k < n
    ensures Bit(XorBits(a, b, n), k) == (Bit(a, k) + Bit(b, k)) % 2
  {
    if k > 0 {
      XorBitAt(a / 2, b / 2, n - 1, k - 1);
    }
  }

  lemma {:induction false} OrBitAt(a: nat, b: nat, n: nat, k: nat)
    requires k < n
    ensures Bit(OrBits(a, b, n), k) == if Bit(a, k) == 1 || Bit(b, k) == 1 then 1 else 0
  {
    if k > 0 {
      OrBitAt(a / 2, b / 2, n - 1, k - 1);
    }
  }

  lemma OctetIsEightBits()
    ensures Pow2(8) == 256
  {
    assert Pow2(4) == 16;
  }

  function Xor(a: Byte, b: Byte): Byte {
    OctetIsEightBits();
    XorBits(a as nat, b as nat, 8) as Byte
  }

  function Or(a: Byte, b: Byte): Byte {
    OctetIsEightBits();
    OrBits(a as nat, b as nat, 8) as Byte
  }

  lemma {:induction false} XorBitsZero(a: nat, b: nat, n: nat)
    requires a < Pow2(n) && b < Pow2(n)
    ensures XorBits(a, b, n) == 0 <==> a == b
  {
    if n > 0 {
      XorBitsZero(a / 2, b / 2, n - 1);
    }
  }

  lemma {:induction false} OrBitsZero(a: nat, b: nat, n: nat)
    requires a < Pow2(n) && b < Pow2(n)
    ensures OrBits(a, b, n) == 0 <==> a == 0 && b == 0
  {
    if n > 0 {
      OrBitsZero(a / 2, b / 2, n - 1);
    }
  }

  lemma {:induction false} XorBitsInvolution(a: nat, b: nat, n: nat)
    requires a < Pow2(n)
    ensures XorBits(XorBits(a, b, n), b, n) == a
  {
    if n > 0 {
      XorBitsInvolution(a / 2, b / 2, n - 1);
    }
  }

  /** The operators on octets, bit by bit. */
  lemma {:induction false} OctetBitwise(a: Byte, b: Byte, k: nat)
    requires k < 8
    ensures Bit(Xor(a, b) as nat, k) == (Bit(a as nat, k) + Bit(b as nat, k)) % 2
    ensures Bit(Or(a, b) as nat, k) == if Bit(a as nat, k) == 1 || Bit(b as nat, k) == 1 then 1 else 0
  {
    XorBitAt(a as nat, b as nat, 8, k);
    OrBitAt(a as nat, b as nat, 8, k);
  }

  lemma XorZero(a: Byte, b: Byte)
    ensures Xor(a, b) == 0 <==> a == b
  {
    OctetIsEightBits();
    XorBitsZero(a as nat, b as nat, 8);
  }

  lemma OrZero(a: Byte, b: Byte)
    ensures Or(a, b) == 0 <==> a == 0 && b == 0
  {
    OctetIsEightBits();
    OrBitsZero(a as nat, b as nat, 8);
  }

  lemma XorTwice(a: Byte, b: Byte)
    ensures Xor(Xor(a, b), b) == a
  {
    OctetIsEightBits();
    XorBitsInvolution(a as nat, b as nat, 8);
  }

  /** Position by position, as far as both strings go. */
  function XorOctets(a: Octets, b: Octets): (x: Octets)
    requires |a| == |b|
    ensures |x| == |a|
    ensures forall i :: 0 <= i < |a| ==> x[i] == Xor(a[i], b[i])
  {
    seq(|a|, i requires 0 <= i < |a| => Xor(a[i], b[i]))
  }

  lemma XorOctetsTwice(a: Octets, b: Octets)
    requires |a| == |b|
    ensures XorOctets(XorOctets(a, b), b) == a
  {
    forall i | 0 <= i < |a|
      ensures XorOctets(XorOctets(a, b), b)[i] == a[i]
    {
      XorTwice(a[i], b[i]);
    }
  }

  /** The fold over the zipped octets, every pair visited. */
  function Differences(a: Octets, b: Octets, acc: Byte): (d: Byte)
    requires |a| == |b|
    ensures d == 0 <==> acc == 0 && a == b
  {
    if a == [] then acc
    else
      XorZero(a[0], b[0]);
      OrZero(acc, Xor(a[0], b[0]));
      assert a == [a[0]] + a[1..] && b == [b[0]] + b[1..];
      Differences(a[1..], b[1..], Or(acc, Xor(a[0], b[0])))
  }

  /** True exactly for equal, nonempty strings. */
  function ConstantTimeEq(a: Octets, b: Octets): (equal: bool)
    ensures equal <==> a == b && a != []
  {
    if |a| != |b| || a == [] then false else Differences(a, b, 0) == 0
  }
}
