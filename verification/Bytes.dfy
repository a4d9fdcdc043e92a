/**
 Octet strings and the integers they encode, most significant octet first.
 */
module Bytes {
  import Modular

  newtype Byte = b: int | 0 <= b < 256

  type Octets = seq<Byte>

  function Zeros(n: nat): (s: Octets)
    ensures |s| == n
  {
    seq(n, _ => 0)
  }

  function Pow256(n: nat): (p: nat)
    ensures p >= 1
  {
    if n == 0 then 1 else 256 * Pow256(n - 1)
  }

  /** The integer an octet string encodes. */
  function BeNat(s: Octets): nat
  {
    if s == [] then 0 else 256 * BeNat(s[..|s| - 1]) + s[|s| - 1] as nat
  }

  /** The low `width` octets of n. */
  function ToBe(n: nat, width: nat): (s: Octets)
    ensures |s| == width
  {
    if width == 0 then [] else ToBe(n / 256, width - 1) + [(n % 256) as Byte]
  }

  /** The shortest octet string that encodes n; empty for zero. */
  function MinimalBe(n: nat): Octets
  {
    if n == 0 then [] else if n < 256 then [n as Byte] else MinimalBe(n / 256) + [(n % 256) as Byte]
  }

  /** Index of the first nonzero octet, or the length if there is none. */
  function FirstNonZero(s: Octets): (i: nat)
    ensures i <= |s|
    ensures forall j :: 0 <= j < i ==> s[j] == 0
    ensures i < |s| ==> s[i] != 0
  {
    if s == [] || s[0] != 0 then 0 else 1 + FirstNonZero(s[1..])
  }

  lemma {:induction false} Pow256Add(m: nat, n: nat)
    ensures Pow256(m + n) == Pow256(m) * Pow256(n)
  {
    if m > 0 {
      Pow256Add(m - 1, n);
      Modular.MulAssociates(256, Pow256(m - 1), Pow256(n));
    }
  }

  lemma {:induction false} Pow256Monotone(m: nat, n: nat)
    requires m <= n
    ensures Pow256(m) <= Pow256(n)
  {
    if m < n {
      Pow256Monotone(m, n - 1);
    }
  }

  lemma {:induction false} BeNatBound(s: Octets)
    ensures BeNat(s) < Pow256(|s|)
  {
    if s != [] {
      BeNatBound(s[..|s| - 1]);
    }
  }

  /** Reading one octet more of a slice. */
  lemma BeNatNext(s: Octets, lo: nat, i: nat)
    requires lo <= i < |s|
    ensures BeNat(s[lo..i + 1]) == 256 * BeNat(s[lo..i]) + s[i] as nat
  {
    var longer := s[lo..i + 1];
    assert longer[..|longer| - 1] == s[lo..i];
  }

  lemma {:induction false} BeNatConcat(a: Octets, b: Octets)
    ensures BeNat(a + b) == BeNat(a) * Pow256(|b|) + BeNat(b)
  {
    if b == [] {
      assert a + b == a;
    } else {
      var b' := b[..|b| - 1];
      BeNatConcat(a, b');
      assert (a + b)[..|a + b| - 1] == a + b';
      assert 256 * (BeNat(a) * Pow256(|b'|)) == BeNat(a) * (256 * Pow256(|b'|));
    }
  }

  lemma {:induction false} BeNatZeros(k: nat)
    ensures BeNat(Zeros(k)) == 0
  {
    if k > 0 {
      assert Zeros(k)[..k - 1] == Zeros(k - 1);
      BeNatZeros(k - 1);
    }
  }

  lemma BeNatLeadingZeros(k: nat, s: Octets)
    ensures BeNat(Zeros(k) + s) == BeNat(s)
  {
    BeNatConcat(Zeros(k), s);
    BeNatZeros(k);
  }

  /** Fixed-width encoding and decoding undo each other. */
  lemma {:induction false} BeNatToBe(n: nat, width: nat)
    requires n < Pow256(width)
    ensures BeNat(ToBe(n, width)) == n
  {
    if width > 0 {
      BeNatToBe(n / 256, width - 1);
      assert ToBe(n, width)[..width - 1] == ToBe(n / 256, width - 1);
    }
  }

  /** Fixed width keeps a number modulo 256^width. */
  lemma {:induction false} LowOctets(n: nat, width: nat)
    ensures BeNat(ToBe(n, width)) == n % Pow256(width)
  {
    if width > 0 {
      var p := Pow256(width - 1);
      LowOctets(n / 256, width - 1);
      assert ToBe(n, width)[..width - 1] == ToBe(n / 256, width - 1);
      RemainderByDigits(n, p);
    }
  }

  lemma RemainderByDigits(n: nat, p: nat)
    requires p > 0
    ensures n % (256 * p) == 256 * (n / 256 % p) + n % 256
  {
    var (q, d) := (n / 256, n % 256);
    var (k, r) := (q / p, q % p);
    assert q == p * k + r;
    Modular.MulAssociates(256, p, k);
    Modular.RemainderUnique(n, k, 256 * r + d, 256 * p);
  }

  lemma {:induction false} ToBeBeNat(s: Octets)
    ensures ToBe(BeNat(s), |s|) == s
  {
    if s != [] {
      ToBeBeNat(s[..|s| - 1]);
      assert s == s[..|s| - 1] + [s[|s| - 1]];
    }
  }

  lemma BeNatInjective(a: Octets, b: Octets)
    requires |a| == |b| && BeNat(a) == BeNat(b)
    ensures a == b
  {
    ToBeBeNat(a);
    ToBeBeNat(b);
  }

  /** The shortest encoding has no leading zero and decodes to its number. */
  lemma {:induction false} MinimalBeDecodes(n: nat)
    ensures BeNat(MinimalBe(n)) == n
    ensures n > 0 ==> MinimalBe(n) != [] && MinimalBe(n)[0] != 0
  {
    if n >= 256 {
      MinimalBeDecodes(n / 256);
      assert MinimalBe(n)[..|MinimalBe(n)| - 1] == MinimalBe(n / 256);
    }
  }

  /** An octet string without a leading zero is the shortest encoding. */
  lemma {:induction false} MinimalBeUnique(s: Octets)
    requires s != [] ==> s[0] != 0
    ensures MinimalBe(BeNat(s)) == s
  {
    if |s| == 1 {
      assert s[..0] == [];
    } else if |s| > 1 {
      var init := s[..|s| - 1];
      MinimalBeUnique(init);
      NonZeroLead(init);
      assert BeNat(init) >= 1;
      assert s == init + [s[|s| - 1]];
      assert BeNat(s) / 256 == BeNat(init);
    }
  }

  lemma {:induction false} NonZeroLead(s: Octets)
    requires s != [] && s[0] != 0
    ensures BeNat(s) >= Pow256(|s| - 1)
  {
    if |s| > 1 {
      NonZeroLead(s[..|s| - 1]);
    } else {
      assert s[..0] == [];
    }
  }

  /** The octets after the leading zeros are the shortest encoding. */
  lemma StripIsMinimal(s: Octets)
    ensures s[FirstNonZero(s)..] == MinimalBe(BeNat(s))
  {
    var i := FirstNonZero(s);
    assert s == Zeros(i) + s[i..];
    BeNatLeadingZeros(i, s[i..]);
    MinimalBeUnique(s[i..]);
  }

  lemma {:induction false} MinimalBeLength(n: nat, width: nat)
    ensures |MinimalBe(n)| <= width <==> n < Pow256(width)
  {
    if n >= 256 && width > 0 {
      MinimalBeLength(n / 256, width - 1);
    }
  }

  /** Fixed width is the shortest encoding behind zeros. */
  lemma ToBeIsPadding(n: nat, width: nat)
    requires n < Pow256(width)
    ensures |MinimalBe(n)| <= width
    ensures ToBe(n, width) == Zeros(width - |MinimalBe(n)|) + MinimalBe(n)
  {
    MinimalBeLength(n, width);
    MinimalBeDecodes(n);
    var padded := Zeros(width - |MinimalBe(n)|) + MinimalBe(n);
    BeNatLeadingZeros(width - |MinimalBe(n)|, MinimalBe(n));
    ToBeBeNat(padded);
  }
}
