/**
 The RSA modulus length read from a SubjectPublicKeyInfo (src/alternate/key.rs)
 and from a token attribute (src/pkcs11/mod.rs).
 */
module SpkiModulus {
  import opened Wrappers
  import opened Bytes
  import opened Bits
  import opened DerSpec

  const TAG_BIT_STRING: Byte := 0x03

  // ---- Elements with any definite length ----------------------------------

  /** A definite length field of up to eight length octets, not necessarily
      the shortest (X.690 section 8.1.3). */
  predicate IsLength(l: Octets, n: nat) {
    || (|l| == 1 && l[0] < 128 && n == l[0] as nat)
    || (2 <= |l| <= 9 && l[0] as nat == 127 + |l| && n == BeNat(l[1..]))
  }

  ghost predicate IsTlv(input: Octets, tag: Byte, value: Octets, rest: Octets) {
    exists l: Octets :: IsLength(l, |value|) && input == [tag] + l + value + rest
  }

  /** Octets of the tag and length field. */
  ghost function HeaderLen(input: Octets): nat
    requires |input| >= 2
  {
    if input[1] < 128 then 2 else input[1] as nat - 126
  }

  ghost function ValueLen(input: Octets): nat
    requires |input| >= 2 && HeaderLen(input) <= |input|
  {
    if input[1] < 128 then input[1] as nat else BeNat(input[2..HeaderLen(input)])
  }

  ghost predicate WellHeaded(input: Octets, tag: Byte) {
    && |input| >= 2
    && input[0] == tag
    && (input[1] < 128 || 129 <= input[1] <= 136)
    && HeaderLen(input) + (if HeaderLen(input) <= |input| then ValueLen(input) else 0) <= |input|
  }

  lemma TlvHeader(input: Octets, tag: Byte, l: Octets, value: Octets, rest: Octets)
    requires IsLength(l, |value|) && input == [tag] + l + value + rest
    ensures WellHeaded(input, tag)
    ensures HeaderLen(input) == 1 + |l| && ValueLen(input) == |value|
  {
    if |l| > 1 {
      assert input[2..1 + |l|] == l[1..];
    }
  }

  lemma TlvParts(input: Octets, tag: Byte, l: Octets, value: Octets, rest: Octets)
    requires input == [tag] + l + value + rest
    ensures var h := 1 + |l|;
            && input[h..h + |value|] == value
            && input[h + |value|..] == rest
  {
  }

  lemma HeadedTlv(input: Octets, tag: Byte)
    requires WellHeaded(input, tag)
    ensures var (h, n) := (HeaderLen(input), ValueLen(input));
            IsTlv(input, tag, input[h..h + n], input[h + n..])
  {
    var (h, n) := (HeaderLen(input), ValueLen(input));
    var l := input[1..h];
    assert IsLength(l, n) by {
      if h > 2 {
        assert l[1..] == input[2..h];
      }
    }
    assert input == [tag] + l + input[h..h + n] + input[h + n..];
  }

  /** The element at the head of the input, and what follows it. */
  lemma TlvIff(input: Octets, tag: Byte, value: Octets, rest: Octets)
    ensures IsTlv(input, tag, value, rest) <==>
            && WellHeaded(input, tag)
            && value == input[HeaderLen(input)..HeaderLen(input) + ValueLen(input)]
            && rest == input[HeaderLen(input) + ValueLen(input)..]
  {
    if IsTlv(input, tag, value, rest) {
      var l: Octets :| IsLength(l, |value|) && input == [tag] + l + value + rest;
      TlvHeader(input, tag, l, value, rest);
      TlvParts(input, tag, l, value, rest);
    }
    if WellHeaded(input, tag) {
      HeadedTlv(input, tag);
    }
  }

  lemma TlvUnique(input: Octets, tag: Byte, value: Octets, rest: Octets, value': Octets, rest': Octets)
    requires IsTlv(input, tag, value, rest) && IsTlv(input, tag, value', rest')
    ensures value == value' && rest == rest'
  {
    TlvIff(input, tag, value, rest);
    TlvIff(input, tag, value', rest');
  }

  /** One to eight length octets are read, whether so many are needed or not. */
  lemma AnyLengthForm(tag: Byte, octets: Octets, value: Octets, rest: Octets)
    requires 1 <= |octets| <= 8 && BeNat(octets) == |value|
    ensures IsTlv([tag] + ([(128 + |octets|) as Byte] + octets) + value + rest, tag, value, rest)
  {
    LongLength(octets);
  }

  lemma LongLength(octets: Octets)
    requires 1 <= |octets| <= 8
    ensures IsLength([(128 + |octets|) as Byte] + octets, BeNat(octets))
  {
    assert ([(128 + |octets|) as Byte] + octets)[1..] == octets;
  }

  lemma NoTlv(input: Octets, tag: Byte)
    requires !WellHeaded(input, tag)
    ensures forall value, rest :: !IsTlv(input, tag, value, rest)
  {
    forall value, rest
      ensures !IsTlv(input, tag, value, rest)
    {
      TlvIff(input, tag, value, rest);
    }
  }

  method TakeTlv(input: Octets, tag: Byte) returns (r: Option<(Octets, Octets)>)
    requires |input| <= MAX_SLICE
    ensures r.Some? ==> IsTlv(input, tag, r.value.0, r.value.1)
    ensures r.None? ==> forall value, rest :: !IsTlv(input, tag, value, rest)
  {
    if WellHeaded(input, tag) {
      TlvIff(input, tag, input[HeaderLen(input)..HeaderLen(input) + ValueLen(input)],
             input[HeaderLen(input) + ValueLen(input)..]);
    } else {
      NoTlv(input, tag);
    }
    if input == [] || input[0] != tag || |input| < 2 {
      return None;
    }
    var firstLen := input[1];
    var headerLen: nat, valueLen: nat;
    if firstLen < 128 {
      headerLen, valueLen := 2, firstLen as nat;
    } else {
      var lengthOctets := firstLen as nat - 128;
      if lengthOctets == 0 || lengthOctets > 8 || 2 + lengthOctets > |input| {
        return None;
      }
      valueLen := ReadBigEndian(input, 2, 2 + lengthOctets);
      headerLen := 2 + lengthOctets;
    }
    var valueEnd := headerLen + valueLen;
    if valueEnd >= USIZE_LIMIT || valueEnd > |input| {
      return None;
    }
    return Some((input[headerLen..valueEnd], input[valueEnd..]));
  }

  /** The checked multiplication and addition of the loop cannot fail. */
  method ReadBigEndian(input: Octets, lo: nat, hi: nat) returns (n: nat)
    requires lo <= hi <= |input| && hi - lo <= 8
    ensures n == BeNat(input[lo..hi]) < USIZE_LIMIT
  {
    n := 0;
    for i := lo to hi
      invariant n == BeNat(input[lo..i])
    {
      BeNatNext(input, lo, i);
      EightOctetsFit(input[lo..i + 1]);
      assert n * 256 + input[i] as nat < USIZE_LIMIT;
      n := n * 256 + input[i] as nat;
    }
    EightOctetsFit(input[lo..hi]);
  }

  // ---- Bit length ---------------------------------------------------------

  /** 2^(b-1) <= n < 2^b. */
  predicate IsBitLength(n: nat, b: nat) {
    b > 0 && Pow2(b - 1) <= n < Pow2(b)
  }

  lemma {:induction false} Pow2Monotone(m: nat, n: nat)
    requires m <= n
    ensures Pow2(m) <= Pow2(n)
  {
    if m < n {
      Pow2Monotone(m, n - 1);
    }
  }

  lemma BitLengthUnique(n: nat, b: nat, b': nat)
    requires IsBitLength(n, b) && IsBitLength(n, b')
    ensures b == b'
  {
    if b < b' {
      Pow2Monotone(b, b' - 1);
    } else if b' < b {
      Pow2Monotone(b', b - 1);
    }
  }

  function LeadingZeros(octet: Byte): (z: nat)
    ensures z <= 8
  {
    if octet >= 128 then 0 else if octet >= 64 then 1 else if octet >= 32 then 2
    else if octet >= 16 then 3 else if octet >= 8 then 4 else if octet >= 4 then 5
    else if octet >= 2 then 6 else if octet >= 1 then 7 else 8
  }

  /** (len - 1) * 8 + (8 - leading_zeros(first)). */
  function CountBits(stripped: Octets): nat
    requires stripped != []
  {
    (|stripped| - 1) * 8 + (8 - LeadingZeros(stripped[0]))
  }

  lemma OctetBits(octet: Byte)
    requires octet > 0
    ensures LeadingZeros(octet) < 8 && IsBitLength(octet as nat, 8 - LeadingZeros(octet))
  {
    assert Pow2(0) == 1 && Pow2(1) == 2 && Pow2(2) == 4 && Pow2(3) == 8;
    assert Pow2(4) == 16 && Pow2(5) == 32 && Pow2(6) == 64;
    assert Pow2(7) == 128;
  }

  /** Each further octet adds eight bits. */
  lemma {:induction false} CountBitsIsLog(s: Octets)
    requires s != [] && s[0] != 0
    ensures IsBitLength(BeNat(s), CountBits(s))
  {
    if |s| == 1 {
      assert s[..0] == [];
      OctetBits(s[0]);
    } else {
      var init := s[..|s| - 1];
      CountBitsIsLog(init);
      var b := CountBits(init);
      EightDoublings(b);
      EightDoublings(b - 1);
    }
  }

  lemma EightDoublings(b: nat)
    ensures Pow2(b + 8) == 256 * Pow2(b)
  {
    assert Pow2(b + 1) == 2 * Pow2(b);
    assert Pow2(b + 2) == 2 * Pow2(b + 1);
    assert Pow2(b + 3) == 2 * Pow2(b + 2);
    assert Pow2(b + 4) == 2 * Pow2(b + 3);
    assert Pow2(b + 5) == 2 * Pow2(b + 4);
    assert Pow2(b + 6) == 2 * Pow2(b + 5);
    assert Pow2(b + 7) == 2 * Pow2(b + 6);
  }

  /** Leading zero octets do not change the number. */
  lemma StripKeepsValue(s: Octets)
    ensures BeNat(s[FirstNonZero(s)..]) == BeNat(s)
    ensures FirstNonZero(s) == |s| <==> BeNat(s) == 0
  {
    StripIsMinimal(s);
    MinimalBeDecodes(BeNat(s));
  }

  // ---- SubjectPublicKeyInfo -----------------------------------------------

  /** RSAPublicKey: m is the content of the first INTEGER; anything may follow it. */
  ghost predicate RsaPublicKey(s: Octets, m: Octets) {
    exists rsa: Octets, more: Octets ::
      IsTlv(s, TAG_SEQUENCE, rsa, []) && IsTlv(rsa, TAG_INTEGER, m, more)
  }

  /** A BIT STRING without unused bits that holds an RSAPublicKey. */
  ghost predicate SubjectPublicKey(s: Octets, m: Octets) {
    exists bits: Octets ::
      IsTlv(s, TAG_BIT_STRING, bits, []) && bits != [] && bits[0] == 0 && RsaPublicKey(bits[1..], m)
  }

  /** SEQUENCE { AlgorithmIdentifier, BIT STRING }. */
  ghost predicate HasModulus(der: Octets, m: Octets) {
    exists spki: Octets, algorithm: Octets, after: Octets ::
      && IsTlv(der, TAG_SEQUENCE, spki, [])
      && IsTlv(spki, TAG_SEQUENCE, algorithm, after)
      && SubjectPublicKey(after, m)
  }

  /** The octets an encoding with a modulus is made of, outermost first. The
      algorithm and what follows the modulus are not looked at. */
  lemma ModulusOctets(der: Octets, m: Octets)
    returns (algorithm: Octets, more: Octets, l0: Octets, l1: Octets, l2: Octets, l3: Octets, l4: Octets)
    requires HasModulus(der, m)
    ensures var key := [0x02] + l4 + m + more;
            var bits := [0x00] + ([0x30] + l3 + key);
            var spki := [0x30] + l1 + algorithm + ([0x03] + l2 + bits);
            && der == [0x30] + l0 + spki
            && IsLength(l0, |spki|) && IsLength(l1, |algorithm|) && IsLength(l2, |bits|)
            && IsLength(l3, |key|) && IsLength(l4, |m|)
  {
    var spki: Octets, after: Octets;
    spki, algorithm, after :|
      IsTlv(der, TAG_SEQUENCE, spki, []) && IsTlv(spki, TAG_SEQUENCE, algorithm, after) && SubjectPublicKey(after, m);
    var bits: Octets :|
      IsTlv(after, TAG_BIT_STRING, bits, []) && bits != [] && bits[0] == 0 && RsaPublicKey(bits[1..], m);
    var key: Octets;
    key, more :| IsTlv(bits[1..], TAG_SEQUENCE, key, []) && IsTlv(key, TAG_INTEGER, m, more);
    assert bits == [0x00] + bits[1..];
    l0 := WholeElement(der, TAG_SEQUENCE, spki);
    l1 :| IsLength(l1, |algorithm|) && spki == [TAG_SEQUENCE] + l1 + algorithm + after;
    l2 := WholeElement(after, TAG_BIT_STRING, bits);
    l3 := WholeElement(bits[1..], TAG_SEQUENCE, key);
    l4 :| IsLength(l4, |m|) && key == [TAG_INTEGER] + l4 + m + more;
  }

  lemma WholeElement(s: Octets, tag: Byte, value: Octets) returns (l: Octets)
    requires IsTlv(s, tag, value, [])
    ensures IsLength(l, |value|) && s == [tag] + l + value
  {
    l :| IsLength(l, |value|) && s == [tag] + l + value + [];
  }

  lemma RsaPublicKeyUnique(s: Octets, m: Octets, m': Octets)
    requires RsaPublicKey(s, m) && RsaPublicKey(s, m')
    ensures m == m'
  {
    var rsa: Octets, more: Octets :| IsTlv(s, TAG_SEQUENCE, rsa, []) && IsTlv(rsa, TAG_INTEGER, m, more);
    var rsa': Octets, more': Octets :|
      IsTlv(s, TAG_SEQUENCE, rsa', []) && IsTlv(rsa', TAG_INTEGER, m', more');
    TlvUnique(s, TAG_SEQUENCE, rsa, [], rsa', []);
    TlvUnique(rsa, TAG_INTEGER, m, more, m', more');
  }

  lemma SubjectPublicKeyUnique(s: Octets, m: Octets, m': Octets)
    requires SubjectPublicKey(s, m) && SubjectPublicKey(s, m')
    ensures m == m'
  {
    var bits: Octets :|
      IsTlv(s, TAG_BIT_STRING, bits, []) && bits != [] && bits[0] == 0 && RsaPublicKey(bits[1..], m);
    var bits': Octets :|
      IsTlv(s, TAG_BIT_STRING, bits', []) && bits' != [] && bits'[0] == 0 && RsaPublicKey(bits'[1..], m');
    TlvUnique(s, TAG_BIT_STRING, bits, [], bits', []);
    RsaPublicKeyUnique(bits[1..], m, m');
  }

  /** At most one modulus can be read from an encoding. */
  lemma HasModulusUnique(der: Octets, m: Octets, m': Octets)
    requires HasModulus(der, m) && HasModulus(der, m')
    ensures m == m'
  {
    var spki: Octets, algorithm: Octets, after: Octets :|
      && IsTlv(der, TAG_SEQUENCE, spki, [])
      && IsTlv(spki, TAG_SEQUENCE, algorithm, after)
      && SubjectPublicKey(after, m);
    var spki': Octets, algorithm': Octets, after': Octets :|
      && IsTlv(der, TAG_SEQUENCE, spki', [])
      && IsTlv(spki', TAG_SEQUENCE, algorithm', after')
      && SubjectPublicKey(after', m');
    TlvUnique(der, TAG_SEQUENCE, spki, [], spki', []);
    TlvUnique(spki, TAG_SEQUENCE, algorithm, after, algorithm', after');
    SubjectPublicKeyUnique(after, m, m');
  }

  lemma TlvSizes(input: Octets, tag: Byte, value: Octets, rest: Octets)
    requires IsTlv(input, tag, value, rest)
    ensures |value| <= |input| && |rest| <= |input|
  {
  }

  method TakeRsaPublicKey(s: Octets) returns (r: Option<Octets>)
    requires |s| <= MAX_SLICE
    ensures r.Some? ==> RsaPublicKey(s, r.value)
    ensures r.None? ==> forall m :: !RsaPublicKey(s, m)
  {
    var outer := TakeTlv(s, TAG_SEQUENCE);
    if outer.None? {
      return None;
    }
    var (rsa, trailing) := outer.value;
    TlvSizes(s, TAG_SEQUENCE, rsa, trailing);
    forall v, t | IsTlv(s, TAG_SEQUENCE, v, t)
      ensures v == rsa && t == trailing
    {
      TlvUnique(s, TAG_SEQUENCE, v, t, rsa, trailing);
    }
    if trailing != [] {
      return None;
    }
    var inner := TakeTlv(rsa, TAG_INTEGER);
    if inner.None? {
      return None;
    }
    return Some(inner.value.0);
  }

  method TakeSubjectPublicKey(s: Octets) returns (r: Option<Octets>)
    requires |s| <= MAX_SLICE
    ensures r.Some? ==> SubjectPublicKey(s, r.value)
    ensures r.None? ==> forall m :: !SubjectPublicKey(s, m)
  {
    var outer := TakeTlv(s, TAG_BIT_STRING);
    if outer.None? {
      return None;
    }
    var (bits, trailing) := outer.value;
    TlvSizes(s, TAG_BIT_STRING, bits, trailing);
    forall v, t | IsTlv(s, TAG_BIT_STRING, v, t)
      ensures v == bits && t == trailing
    {
      TlvUnique(s, TAG_BIT_STRING, v, t, bits, trailing);
    }
    if trailing != [] || bits == [] || bits[0] != 0 {
      return None;
    }
    r := TakeRsaPublicKey(bits[1..]);
  }

  method TakeModulus(der: Octets) returns (r: Option<Octets>)
    requires |der| <= MAX_SLICE
    ensures r.Some? ==> HasModulus(der, r.value)
    ensures r.None? ==> forall m :: !HasModulus(der, m)
  {
    var outer := TakeTlv(der, TAG_SEQUENCE);
    if outer.None? {
      return None;
    }
    var (spki, trailing) := outer.value;
    TlvSizes(der, TAG_SEQUENCE, spki, trailing);
    forall v, t | IsTlv(der, TAG_SEQUENCE, v, t)
      ensures v == spki && t == trailing
    {
      TlvUnique(der, TAG_SEQUENCE, v, t, spki, trailing);
    }
    if trailing != [] {
      return None;
    }
    var inner := TakeTlv(spki, TAG_SEQUENCE);
    if inner.None? {
      return None;
    }
    var (algorithm, after) := inner.value;
    TlvSizes(spki, TAG_SEQUENCE, algorithm, after);
    forall v, t | IsTlv(spki, TAG_SEQUENCE, v, t)
      ensures v == algorithm && t == after
    {
      TlvUnique(spki, TAG_SEQUENCE, v, t, algorithm, after);
    }
    r := TakeSubjectPublicKey(after);
  }

  /** b is the bit length of a modulus the encoding holds. */
  ghost predicate SpkiBits(der: Octets, b: nat) {
    exists m: Octets :: HasModulus(der, m) && IsBitLength(BeNat(m), b)
  }

  method RsaSpkiModulusBits(der: Octets) returns (r: Option<nat>)
    requires |der| <= MAX_SLICE
    ensures r.Some? ==> SpkiBits(der, r.value)
    ensures r.None? ==> forall m :: HasModulus(der, m) ==> BeNat(m) == 0
  {
    var modulus := TakeModulus(der);
    if modulus.None? {
      return None;
    }
    var m := modulus.value;
    forall m' | HasModulus(der, m')
      ensures m' == m
    {
      HasModulusUnique(der, m, m');
    }
    StripKeepsValue(m);
    if FirstNonZero(m) == |m| {
      return None;
    }
    var stripped := m[FirstNonZero(m)..];
    CountBitsIsLog(stripped);
    return Some(CountBits(stripped));
  }

  // ---- Minimally encoded keys ---------------------------------------------

  function RsaKeyDer(n: nat, more: Octets): Octets {
    Tlv(TAG_SEQUENCE, IntegerDer(n) + more)
  }

  /** The distinguished encoding of a SubjectPublicKeyInfo with modulus n. */
  function SpkiDer(algorithm: Octets, n: nat, more: Octets): Octets {
    Tlv(TAG_SEQUENCE, Tlv(TAG_SEQUENCE, algorithm) + Tlv(TAG_BIT_STRING, [0] + RsaKeyDer(n, more)))
  }

  lemma MinimalIsLength(n: nat)
    requires n < USIZE_LIMIT
    ensures IsLength(LengthOctets(n), n)
  {
    LengthPrefixShape(n, LengthOctets(n));
  }

  lemma TlvIsTlv(tag: Byte, content: Octets, rest: Octets)
    requires |content| < USIZE_LIMIT
    ensures IsTlv(Tlv(tag, content) + rest, tag, content, rest)
  {
    MinimalIsLength(|content|);
    var l := LengthOctets(|content|);
    assert Tlv(tag, content) + rest == [tag] + l + content + rest;
  }

  lemma WholeTlvIsTlv(tag: Byte, content: Octets)
    requires |content| < USIZE_LIMIT
    ensures IsTlv(Tlv(tag, content), tag, content, [])
  {
    TlvIsTlv(tag, content, []);
    assert Tlv(tag, content) + [] == Tlv(tag, content);
  }

  lemma RsaKeyDerParses(n: nat, more: Octets)
    requires |RsaKeyDer(n, more)| <= MAX_SLICE
    ensures RsaPublicKey(RsaKeyDer(n, more), IntegerContent(n))
  {
    WholeTlvIsTlv(TAG_SEQUENCE, IntegerDer(n) + more);
    TlvIsTlv(TAG_INTEGER, IntegerContent(n), more);
  }

  /** Every distinguished encoding is read, and its modulus is n. */
  lemma SpkiDerParses(algorithm: Octets, n: nat, more: Octets)
    requires |SpkiDer(algorithm, n, more)| <= MAX_SLICE
    ensures HasModulus(SpkiDer(algorithm, n, more), IntegerContent(n))
    ensures BeNat(IntegerContent(n)) == n
  {
    var bits := [0] + RsaKeyDer(n, more);
    var (first, after) := (Tlv(TAG_SEQUENCE, algorithm), Tlv(TAG_BIT_STRING, bits));
    assert bits[1..] == RsaKeyDer(n, more);
    RsaKeyDerParses(n, more);
    WholeTlvIsTlv(TAG_BIT_STRING, bits);
    assert SubjectPublicKey(after, IntegerContent(n));
    TlvIsTlv(TAG_SEQUENCE, algorithm, after);
    WholeTlvIsTlv(TAG_SEQUENCE, first + after);
    ContentIsMinimal(n);
  }

  /** For a distinguished encoding the only bit length is that of n. */
  lemma SpkiBitsOfDer(algorithm: Octets, n: nat, more: Octets, b: nat)
    requires |SpkiDer(algorithm, n, more)| <= MAX_SLICE
    ensures SpkiBits(SpkiDer(algorithm, n, more), b) <==> IsBitLength(n, b)
  {
    var der := SpkiDer(algorithm, n, more);
    SpkiDerParses(algorithm, n, more);
    if SpkiBits(der, b) {
      var m: Octets :| HasModulus(der, m) && IsBitLength(BeNat(m), b);
      HasModulusUnique(der, m, IntegerContent(n));
    }
  }

  // ---- Token attribute ----------------------------------------------------

  /** `validate_fips_rsa_modulus_bits`. */
  method ValidateFipsBits(bits: nat) returns (r: Result<()>)
    ensures r == if bits >= 2048 && bits % 2 == 0 then Ok(()) else Err(Unsupported)
  {
    if bits < 2048 {
      return Err(Unsupported);
    }
    if bits % 2 != 0 {
      return Err(Unsupported);
    }
    return Ok(());
  }

  lemma SpkiBitsUnique(der: Octets, b: nat, b': nat)
    requires SpkiBits(der, b) && SpkiBits(der, b')
    ensures b == b'
  {
    var m: Octets :| HasModulus(der, m) && IsBitLength(BeNat(m), b);
    var m': Octets :| HasModulus(der, m') && IsBitLength(BeNat(m'), b');
    HasModulusUnique(der, m, m');
    BitLengthUnique(BeNat(m), b, b');
  }

  lemma NoBits(der: Octets)
    requires forall m :: HasModulus(der, m) ==> BeNat(m) == 0
    ensures forall b :: !SpkiBits(der, b)
  {
  }

  /** `enforce_key_strength`: what a FIPS build imports as an RSA key is exactly
      an encoding of a modulus of 2048 bits or more and even length; a key without
      a modulus and a modulus of another size are told apart. */
  method EnforceKeyStrength(rsa: bool, der: Octets, fips: bool) returns (r: Result<()>)
    requires |der| <= MAX_SLICE
    ensures r.Ok? <==> (fips && rsa ==> exists b :: SpkiBits(der, b) && b >= 2048 && b % 2 == 0)
    ensures r.Err? ==> r.error == if exists b :: SpkiBits(der, b) then Unsupported else Key
  {
    if !fips || !rsa {
      return Ok(());
    }
    var bits := RsaSpkiModulusBits(der);
    if bits.None? {
      NoBits(der);
      return Err(Key);
    }
    forall b | SpkiBits(der, b)
      ensures b == bits.value
    {
      SpkiBitsUnique(der, b, bits.value);
    }
    r := ValidateFipsBits(bits.value);
  }

  /** For the distinguished encoding of a key the bound is one on the modulus. */
  lemma ImportedKeyStrength(algorithm: Octets, n: nat, more: Octets)
    requires |SpkiDer(algorithm, n, more)| <= MAX_SLICE
    ensures (exists b :: SpkiBits(SpkiDer(algorithm, n, more), b) && b >= 2048 && b % 2 == 0)
            <==> exists b :: IsBitLength(n, b) && b >= 2048 && b % 2 == 0
  {
    forall b
      ensures SpkiBits(SpkiDer(algorithm, n, more), b) <==> IsBitLength(n, b)
    {
      SpkiBitsOfDer(algorithm, n, more, b);
    }
  }

  lemma ParityIsLast(s: Octets)
    requires s != []
    ensures BeNat(s) % 2 == s[|s| - 1] as nat % 2
  {
    assert BeNat(s) == 256 * BeNat(s[..|s| - 1]) + s[|s| - 1] as nat;
  }

  /** What a modulus attribute says about the number it encodes. */
  lemma AttributeBits(modulus: Octets, stripped: Octets)
    requires stripped == modulus[FirstNonZero(modulus)..]
    ensures stripped == [] ==> BeNat(modulus) == 0
    ensures stripped != [] ==> IsBitLength(BeNat(modulus), CountBits(stripped))
    ensures stripped != [] ==> BeNat(modulus) % 2 == stripped[|stripped| - 1] as nat % 2
  {
    StripKeepsValue(modulus);
    if stripped != [] {
      CountBitsIsLog(stripped);
      ParityIsLast(stripped);
    }
  }

  lemma OnlyBitLength(n: nat, bits: nat, b: nat)
    requires n == 0 || IsBitLength(n, bits)
    requires IsBitLength(n, b)
    ensures n > 0 && b == bits
  {
    if n > 0 {
      BitLengthUnique(n, b, bits);
    }
  }

  /** The CKA_MODULUS check of `validate_token_key_attributes`. */
  method CheckTokenModulus(modulus: Octets, fips: bool) returns (r: Result<()>)
    ensures r.Ok? <==>
      && BeNat(modulus) % 2 == 1
      && exists b :: IsBitLength(BeNat(modulus), b) && b >= 2048 && (fips ==> b % 2 == 0)
    ensures r.Err? ==> r.error == Pkcs11
  {
    var stripped := modulus[FirstNonZero(modulus)..];
    var bits := if stripped == [] then 0 else CountBits(stripped);
    AttributeBits(modulus, stripped);
    forall b | IsBitLength(BeNat(modulus), b)
      ensures BeNat(modulus) > 0 && b == bits
    {
      OnlyBitLength(BeNat(modulus), bits, b);
    }
    if bits < 2048 || stripped == [] || stripped[|stripped| - 1] % 2 == 0 || (fips && bits % 2 != 0) {
      return Err(Pkcs11);
    }
    return Ok(());
  }

  /** The two bit counts agree on every modulus a key can carry: what the SPKI
      reader finds in the encoding is what the attribute check counts. */
  lemma {:induction false} CountsAgree(algorithm: Octets, attribute: Octets, more: Octets, b: nat)
    requires |SpkiDer(algorithm, BeNat(attribute), more)| <= MAX_SLICE
    requires SpkiBits(SpkiDer(algorithm, BeNat(attribute), more), b)
    ensures FirstNonZero(attribute) < |attribute|
    ensures b == CountBits(attribute[FirstNonZero(attribute)..])
  {
    var stripped := attribute[FirstNonZero(attribute)..];
    SpkiBitsOfDer(algorithm, BeNat(attribute), more, b);
    StripKeepsValue(attribute);
    CountBitsIsLog(stripped);
    BitLengthUnique(BeNat(attribute), b, CountBits(stripped));
  }
}
