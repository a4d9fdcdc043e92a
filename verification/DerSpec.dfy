/**
 The distinguished encoding of the ASN.1 values an ECDSA signature is made of
 (ITU-T X.690), as functions of the integers encoded. Nothing here parses: the
 readers in DerCodec are proved to accept exactly what these functions produce.
 */
module DerSpec {
  import opened Bytes

  /** One more than the largest `usize`, eight octets wide. */
  const USIZE_LIMIT: nat := 0x1_0000_0000_0000_0000

  /** The longest slice the language allows. */
  const MAX_SLICE: nat := 0x7fff_ffff_ffff_ffff

  const TAG_INTEGER: Byte := 0x02
  const TAG_SEQUENCE: Byte := 0x30

  /** X.690 sections 8.1.3 and 10.1: the shortest definite form. The remainder
      only makes the function total; no `usize` needs more than eight octets. */
  function LengthOctets(n: nat): (s: Octets)
    ensures |s| >= 1
  {
    if n < 128 then [n as Byte] else [(128 + |MinimalBe(n)| % 128) as Byte] + MinimalBe(n)
  }

  /** X.690 section 8.3: the shortest two's-complement form of n >= 0. */
  function IntegerContent(n: nat): (c: Octets)
    ensures |c| >= 1
  {
    MinimalBeDecodes(n);
    if n == 0 then [0]
    else if MinimalBe(n)[0] >= 128 then [0] + MinimalBe(n)
    else MinimalBe(n)
  }

  function Header(tag: Byte, n: nat): (s: Octets)
    ensures |s| >= 2
  {
    [tag] + LengthOctets(n)
  }

  /** One tag-length-value element. */
  function Tlv(tag: Byte, content: Octets): (s: Octets)
    ensures |s| >= 2 + |content|
  {
    Header(tag, |content|) + content
  }

  function IntegerDer(n: nat): Octets {
    Tlv(TAG_INTEGER, IntegerContent(n))
  }

  /** SEQUENCE { r INTEGER, s INTEGER }. */
  function SignatureDer(r: nat, s: nat): Octets {
    Tlv(TAG_SEQUENCE, IntegerDer(r) + IntegerDer(s))
  }

  /** X.690 section 8.3.2, and not negative. */
  predicate IsMinimalContent(c: Octets) {
    c != [] && c[0] < 128 && !(|c| > 1 && c[0] == 0 && c[1] < 128)
  }

  lemma UsizeIsEightOctets()
    ensures Pow256(8) == USIZE_LIMIT
  {
    assert Pow256(4) == 0x1_0000_0000;
    Pow256Add(4, 4);
  }

  /** What a string must look like to begin with the length octets of n. */
  lemma LengthPrefixShape(n: nat, s: Octets)
    requires n < USIZE_LIMIT && LengthOctets(n) <= s
    ensures n < 128 ==> s[0] as int == n
    ensures n >= 128 ==>
              var k := |MinimalBe(n)|;
              && 1 <= k <= 8 && s[0] as int == 128 + k && 1 + k <= |s|
              && s[1..1 + k] == MinimalBe(n) && s[1] != 0 && BeNat(s[1..1 + k]) == n
  {
    if n >= 128 {
      var (l, m) := (LengthOctets(n), MinimalBe(n));
      assert 1 <= |m| <= 8 && m[0] != 0 && BeNat(m) == n by {
        UsizeIsEightOctets();
        MinimalBeLength(n, 8);
        MinimalBeDecodes(n);
      }
      assert l == s[..|l|];
      assert s[1..|l|] == m;
    }
  }

  /** The length octets themselves: one octet below 128, else the count of the
      octets that follow, without a leading zero. */
  lemma LengthForm(n: nat)
    requires n < USIZE_LIMIT
    ensures var l := LengthOctets(n);
            && (n < 128 ==> l == [n as Byte])
            && (n >= 128 ==> 2 <= |l| <= 9 && l[0] as int == 127 + |l| && l[1] != 0 && BeNat(l[1..]) == n)
  {
    var l := LengthOctets(n);
    LengthPrefixShape(n, l);
    if n >= 128 {
      assert l[1..1 + |MinimalBe(n)|] == l[1..];
    }
  }

  lemma EightOctetsFit(octets: Octets)
    requires |octets| <= 8
    ensures BeNat(octets) < USIZE_LIMIT
  {
    UsizeIsEightOctets();
    BeNatBound(octets);
    Pow256Monotone(|octets|, 8);
  }

  /** The reader's long form: no leading zero, and at least 128. */
  lemma LongFormIsMinimal(n: nat, octets: Octets)
    requires 1 <= |octets| <= 8 && octets[0] != 0 && n == BeNat(octets) >= 128
    ensures LengthOctets(n) == [(128 + |octets|) as Byte] + octets
  {
    assert MinimalBe(n) == octets by { MinimalBeUnique(octets); }
    assert |octets| % 128 == |octets|;
  }

  /** Length octets are prefix-free. */
  lemma LengthPrefixUnique(m: nat, n: nat, s: Octets)
    requires m < USIZE_LIMIT && n < USIZE_LIMIT
    requires LengthOctets(m) <= s && LengthOctets(n) <= s
    ensures m == n
  {
    LengthPrefixShape(m, s);
    LengthPrefixShape(n, s);
  }

  lemma ContentIsMinimal(n: nat)
    ensures IsMinimalContent(IntegerContent(n)) && BeNat(IntegerContent(n)) == n
  {
    MinimalBeDecodes(n);
    if n > 0 {
      BeNatLeadingZeros(1, MinimalBe(n));
      assert Zeros(1) + MinimalBe(n) == [0] + MinimalBe(n);
    }
  }

  /** The octets of a signature: a SEQUENCE of the two contents, each the shortest
      that encodes its integer and is not negative. */
  lemma SignatureOctets(r: nat, s: nat) returns (a: Octets, b: Octets)
    ensures BeNat(a) == r && a != [] && a[0] < 128 && (|a| > 1 && a[0] == 0 ==> a[1] >= 128)
    ensures BeNat(b) == s && b != [] && b[0] < 128 && (|b| > 1 && b[0] == 0 ==> b[1] >= 128)
    ensures var body := ([0x02] + LengthOctets(|a|) + a) + ([0x02] + LengthOctets(|b|) + b);
            SignatureDer(r, s) == [0x30] + LengthOctets(|body|) + body
  {
    a, b := IntegerContent(r), IntegerContent(s);
    ContentIsMinimal(r);
    ContentIsMinimal(s);
  }

  /** Strictness of section 8.3.2 leaves one content per integer. */
  lemma {:induction false} MinimalContentUnique(c: Octets)
    requires IsMinimalContent(c)
    ensures c == IntegerContent(BeNat(c))
  {
    if c[0] != 0 {
      MinimalBeUnique(c);
    } else {
      assert c == Zeros(1) + c[1..];
      BeNatLeadingZeros(1, c[1..]);
      MinimalBeUnique(c[1..]);
      MinimalBeDecodes(BeNat(c));
    }
  }

  /** A value of `width` octets needs at most one sign octet more. */
  lemma ContentLength(n: nat, width: nat)
    requires n < Pow256(width)
    ensures |IntegerContent(n)| <= width + 1
  {
    MinimalBeLength(n, width);
  }

  lemma HeaderTail(tag: Byte, n: nat, s: Octets)
    requires Header(tag, n) <= s
    ensures LengthOctets(n) <= s[1..]
  {
    assert s[1..][..|LengthOctets(n)|] == Header(tag, n)[1..];
  }

  /** Headers are prefix-free. */
  lemma HeaderPrefixUnique(tag: Byte, m: nat, n: nat, s: Octets)
    requires m < USIZE_LIMIT && n < USIZE_LIMIT
    requires Header(tag, m) <= s && Header(tag, n) <= s
    ensures m == n
  {
    HeaderTail(tag, m, s);
    HeaderTail(tag, n, s);
    LengthPrefixUnique(m, n, s[1..]);
  }

  /** Where the parts of an element lie. */
  lemma TlvShape(tag: Byte, content: Octets, s: Octets)
    requires Tlv(tag, content) <= s
    ensures var body := |Header(tag, |content|)|;
            && Header(tag, |content|) <= s
            && body + |content| <= |s| && s[body..body + |content|] == content
  {
    var (h, t) := (Header(tag, |content|), Tlv(tag, content));
    assert t == s[..|t|];
    assert s[..|h|] == t[..|h|] == h;
    assert s[|h|..|h| + |content|] == t[|h|..];
  }

  /** An element is determined by any string it begins. */
  lemma TlvPrefixUnique(tag: Byte, c: Octets, c': Octets, s: Octets)
    requires |s| <= MAX_SLICE && Tlv(tag, c) <= s && Tlv(tag, c') <= s
    ensures c == c'
  {
    TlvShape(tag, c, s);
    TlvShape(tag, c', s);
    HeaderPrefixUnique(tag, |c|, |c'|, s);
  }

  lemma IntegerPrefixUnique(m: nat, n: nat, s: Octets)
    requires |s| <= MAX_SLICE && IntegerDer(m) <= s && IntegerDer(n) <= s
    ensures m == n
  {
    TlvPrefixUnique(TAG_INTEGER, IntegerContent(m), IntegerContent(n), s);
    ContentIsMinimal(m);
    ContentIsMinimal(n);
  }

  lemma IntegerPairUnique(r: nat, s: nat, r': nat, s': nat)
    requires IntegerDer(r) + IntegerDer(s) == IntegerDer(r') + IntegerDer(s')
    requires |IntegerDer(r) + IntegerDer(s)| <= MAX_SLICE
    ensures r == r' && s == s'
  {
    var (a, b, a', b') := (IntegerDer(r), IntegerDer(s), IntegerDer(r'), IntegerDer(s'));
    IntegerPrefixUnique(r, r', a + b);
    assert b == (a + b)[|a|..];
    assert b' == (a' + b')[|a'|..];
    IntegerPrefixUnique(s, s', b);
  }

  /** No two pairs of integers have the same encoding. */
  lemma SignatureDerInjective(r: nat, s: nat, r': nat, s': nat)
    requires SignatureDer(r, s) == SignatureDer(r', s')
    requires |SignatureDer(r, s)| <= MAX_SLICE
    ensures r == r' && s == s'
  {
    TlvPrefixUnique(TAG_SEQUENCE, IntegerDer(r) + IntegerDer(s), IntegerDer(r') + IntegerDer(s'),
                    SignatureDer(r, s));
    IntegerPairUnique(r, s, r', s');
  }
}
