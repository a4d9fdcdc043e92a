/**
 ECDSA signature conversion as its callers see it: what the DER codec promises
 over every input, the normalisation that precedes verification
 (src/alternate/software.rs), and the sibling provider's raw normaliser
 (src/digest.rs).
 */
module EcdsaSignatures {
  import opened Wrappers
  import opened Bytes
  import opened DerSpec
  import opened DerCodec

  datatype EcCurve = P256 | P384 | P521

  function FieldLen(curve: EcCurve): (n: nat)
    ensures FieldFits(n)
  {
    match curve
    case P256 => 32
    case P384 => 48
    case P521 => 66
  }

  // ---- Canonicity ---------------------------------------------------------

  lemma SignatureFits(field: nat, r: nat, s: nat)
    requires FieldFits(field) && r < Pow256(field) && s < Pow256(field)
    ensures |SignatureDer(r, s)| <= MAX_SLICE
  {
    ScalarLength(field, r);
    ScalarLength(field, s);
    LengthLength(|IntegerDer(r) + IntegerDer(s)|);
  }

  lemma ScalarLength(field: nat, n: nat)
    requires FieldFits(field) && n < Pow256(field)
    ensures |IntegerDer(n)| <= field + 11
  {
    IntegerLength(ToBe(n, field));
    BeNatToBe(n, field);
  }

  lemma LengthLength(n: nat)
    requires n < USIZE_LIMIT
    ensures |LengthOctets(n)| <= 9
  {
    UsizeIsEightOctets();
    MinimalBeLength(n, 8);
  }

  /** Every accepted string is the encoding of what it decodes to, so no two
      strings decode to the same r || s. */
  lemma {:induction false} CanonicalDer(field: nat, der: Octets, other: Octets)
    requires FieldFits(field) && |der| <= MAX_SLICE && |other| <= MAX_SLICE
    requires DecodeSignature(field, der).Ok?
    ensures EncodeSignature(field, DecodeSignature(field, der).value) == Ok(der)
    ensures DecodeSignature(field, other) == DecodeSignature(field, der) ==> other == der
  {
    ReencodeDecoded(field, der);
    if DecodeSignature(field, other) == DecodeSignature(field, der) {
      ReencodeDecoded(field, other);
    }
  }

  /** Fixed-width r || s survives the trip through DER, zero halves included. */
  lemma RawRoundTrip(field: nat, raw: Octets)
    requires FieldFits(field) && |raw| == 2 * field
    ensures EncodeSignature(field, raw).Ok?
    ensures DecodeSignature(field, EncodeSignature(field, raw).value) == Ok(raw)
  {
    var (first, second) := (raw[..field], raw[field..]);
    var (r, s) := (BeNat(first), BeNat(second));
    assert raw == first + second;
    BeNatBound(first);
    BeNatBound(second);
    assert RawSignature(field, r, s) == raw by {
      ToBeBeNat(first);
      ToBeBeNat(second);
    }
    EncodedRaw(field, r, s);
  }

  /** The raw widths of the three curves are encoded whatever the octets. */
  lemma {:induction false} RawWidthsEncode(curve: EcCurve, raw: Octets)
    requires |raw| == match curve case P256 => 64 case P384 => 96 case P521 => 132
    ensures EncodeSignature(FieldLen(curve), raw).Ok?
    ensures DecodeSignature(FieldLen(curve), EncodeSignature(FieldLen(curve), raw).value) == Ok(raw)
  {
    RawRoundTrip(FieldLen(curve), raw);
  }

  lemma EncodedRaw(field: nat, r: nat, s: nat)
    requires FieldFits(field) && r < Pow256(field) && s < Pow256(field)
    ensures EncodeSignature(field, RawSignature(field, r, s)) == Ok(SignatureDer(r, s))
    ensures DecodeSignature(field, SignatureDer(r, s)) == Ok(RawSignature(field, r, s))
  {
    EncodesRaw(field, r, s);
    SignatureFits(field, r, s);
    DecodesTo(field, SignatureDer(r, s), r, s);
  }

  /** Whatever branch produced it, an output is canonical; off the DER branch it
      carries the integers of the two halves of the input. */
  lemma EncodedValues(field: nat, raw: Octets, der: Octets)
    requires FieldFits(field) && |raw| <= MAX_SLICE && EncodeSignature(field, raw) == Ok(der)
    ensures |der| <= MAX_SLICE && DecodeSignature(field, der).Ok?
    ensures |raw| == 2 * field || DecodeSignature(field, raw).Err? ==>
              DecodeSignature(field, der) == Ok(RawSignature(field, Halves(raw).0, Halves(raw).1))
  {
    if |raw| == 2 * field || DecodeSignature(field, raw).Err? {
      var (r, s) := Halves(raw);
      SignatureFits(field, r, s);
      DecodesTo(field, der, r, s);
    }
  }

  // ---- Idempotence --------------------------------------------------------

  /** Re-encoding an output returns it exactly when its length is not the raw
      width: an output of that width is split as r || s again. */
  lemma {:induction false} IdempotentExactly(curve: EcCurve, raw: Octets, der: Octets)
    requires |raw| <= MAX_SLICE && EncodeSignature(FieldLen(curve), raw) == Ok(der)
    ensures EncodeSignature(FieldLen(curve), der) == Ok(der) <==> |der| != 2 * FieldLen(curve)
  {
    IdempotentForField(FieldLen(curve), raw, der);
  }

  lemma IdempotentForField(field: nat, raw: Octets, der: Octets)
    requires 5 <= field < 128 && |raw| <= MAX_SLICE && EncodeSignature(field, raw) == Ok(der)
    ensures EncodeSignature(field, der) == Ok(der) <==> |der| != 2 * field
  {
    EncodedValues(field, raw, der);
    if |der| == 2 * field {
      OnlyTaggedDecodes(field, der);
      SplitAgain(field, der);
    }
  }

  lemma SplitAgain(field: nat, der: Octets)
    requires 5 <= field < 128 && |der| == 2 * field && der[0] == TAG_SEQUENCE
    ensures EncodeSignature(field, der) != Ok(der)
  {
    var (x, y) := (BeNat(der[..field]), BeNat(der[field..]));
    assert Halves(der) == (x, y);
    NotItsOwnHalves(field, der, x, y);
  }

  /** A signature as wide as r || s is never the encoding of its own halves: its
      opening octets would repeat up to the second half, whose integer would then
      be too long to fit. */
  lemma NotItsOwnHalves(field: nat, d: Octets, x: nat, y: nat)
    requires 5 <= field < 128 && |d| == 2 * field && d[0] == TAG_SEQUENCE
    requires x == BeNat(d[..field]) && y == BeNat(d[field..])
    ensures d != SignatureDer(x, y)
  {
    FirstIntegerOf(d[..field]);
    if d == SignatureDer(x, y) {
      var start := OpeningRepeats(field, d, IntegerDer(y));
      NoZeroBefore(d, start, field, field);
      WideInteger(d[field..]);
    }
  }

  lemma FirstIntegerOf(first: Octets)
    requires 0 < |first| < 128 && first[0] == TAG_SEQUENCE
    ensures IntegerDer(BeNat(first)) == [TAG_INTEGER, |first| as Byte] + first
  {
    MinimalContentUnique(first);
  }

  lemma OpeningRepeats(field: nat, d: Octets, tail: Octets) returns (start: nat)
    requires 5 <= field < 128 && |d| == 2 * field
    requires d == Tlv(TAG_SEQUENCE, [TAG_INTEGER, field as Byte] + d[..field] + tail)
    ensures 0 < start <= 5 && start + field <= |d|
    ensures forall j :: 0 <= j < start ==> d[j] != 0
    ensures forall i :: 0 <= i < field ==> d[start + i] == d[i]
    ensures |d| == start + field + |tail|
  {
    var first := d[..field];
    var n := 2 + field + |tail|;
    ShortHeader(n);
    var h := Header(TAG_SEQUENCE, n);
    assert |[TAG_INTEGER, field as Byte] + first + tail| == n;
    Spread(h, [TAG_INTEGER, field as Byte], first, tail, d);
    start := |h| + 2;
    forall i | 0 <= i < field
      ensures d[start + i] == d[i]
    {
      assert d[start + i] == first[i];
    }
  }

  lemma ShortHeader(n: nat)
    requires 0 < n < 256
    ensures Header(TAG_SEQUENCE, n) == if n < 128 then [TAG_SEQUENCE, n as Byte] else [TAG_SEQUENCE, 129, n as Byte]
  {
    assert MinimalBe(n / 256) == [];
    assert MinimalBe(n) == [n as Byte];
  }

  lemma Spread(h: Octets, two: Octets, first: Octets, tail: Octets, d: Octets)
    requires |two| == 2 && d == h + (two + first + tail)
    ensures d[..|h|] == h && d[|h|] == two[0] && d[|h| + 1] == two[1]
    ensures forall i :: 0 <= i < |first| ==> d[|h| + 2 + i] == first[i]
  {
  }

  lemma {:induction false} NoZeroBefore(d: Octets, start: nat, field: nat, j: nat)
    requires 0 < start && j <= field && start + field <= |d|
    requires forall i :: 0 <= i < start ==> d[i] != 0
    requires forall i :: 0 <= i < field ==> d[start + i] == d[i]
    ensures d[j] != 0
  {
    if j >= start {
      NoZeroBefore(d, start, field, j - start);
      assert d[start + (j - start)] == d[j - start];
    }
  }

  lemma WideInteger(s: Octets)
    requires s != [] && s[0] != 0
    ensures |IntegerDer(BeNat(s))| >= |s| + 2
  {
    MinimalBeUnique(s);
    NonZeroLead(s);
  }

  /** The exception does occur: this P-256 signature encodes to 64 octets. */
  lemma {:induction false} ExactWidthOutputExists()
    ensures var raw := RawSignature(32, Pow256(25), Pow256(31));
            EncodeSignature(32, raw).Ok? && |EncodeSignature(32, raw).value| == 64
  {
    SizedOutput(32, 25, 31);
  }

  lemma SizedOutput(field: nat, j: nat, k: nat)
    requires FieldFits(field) && j < field && k < field && field < 60
    ensures var raw := RawSignature(field, Pow256(j), Pow256(k));
            EncodeSignature(field, raw).Ok? && |EncodeSignature(field, raw).value| == j + k + 8
  {
    Pow256Monotone(j + 1, field);
    Pow256Monotone(k + 1, field);
    EncodedRaw(field, Pow256(j), Pow256(k));
    PowerOctets(j);
    PowerOctets(k);
    assert |IntegerDer(Pow256(j))| == j + 3;
    assert |IntegerDer(Pow256(k))| == k + 3;
  }

  lemma {:induction false} PowerOctets(k: nat)
    ensures MinimalBe(Pow256(k)) == [1] + Zeros(k)
  {
    if k > 0 {
      PowerOctets(k - 1);
      assert Zeros(k) == Zeros(k - 1) + [0];
    } else {
      assert MinimalBe(1 / 256) == [];
    }
  }

  // ---- Verification input -------------------------------------------------

  predicate AllZero(s: Octets) {
    forall i :: 0 <= i < |s| ==> s[i] == 0
  }

  /** Positive integers that fit the field, in DER or in two halves. */
  ghost predicate AcceptedForVerification(field: nat, signature: Octets) {
    if AlreadyDer(field, signature) then
      exists x: nat, y: nat ::
        0 < x < Pow256(field) && 0 < y < Pow256(field) && signature == SignatureDer(x, y)
    else
      && SplitsInHalves(field, signature)
      && BeNat(signature[..|signature| / 2]) > 0 && BeNat(signature[|signature| / 2..]) > 0
  }

  ghost predicate EncodesPositive(field: nat, signature: Octets) {
    && EncodeSignature(field, signature).Ok?
    && exists x: nat, y: nat ::
        x > 0 && y > 0 && IsSignatureDer(field, EncodeSignature(field, signature).value, x, y)
  }

  lemma AcceptedExactly(field: nat, signature: Octets)
    requires FieldFits(field) && |signature| <= MAX_SLICE
    ensures EncodesPositive(field, signature) <==> AcceptedForVerification(field, signature)
  {
    EncodesExactly(field, signature);
    if AlreadyDer(field, signature) {
      PositiveDer(field, signature);
    } else if SplitsInHalves(field, signature) {
      PositiveHalves(field, signature);
    }
  }

  lemma PositiveDer(field: nat, der: Octets)
    ensures (exists x: nat, y: nat :: x > 0 && y > 0 && IsSignatureDer(field, der, x, y)) <==>
            exists x: nat, y: nat :: 0 < x < Pow256(field) && 0 < y < Pow256(field) && der == SignatureDer(x, y)
  {
    if x: nat, y: nat :| 0 < x < Pow256(field) && 0 < y < Pow256(field) && der == SignatureDer(x, y) {
      assert IsSignatureDer(field, der, x, y);
    }
  }

  lemma PositiveHalves(field: nat, raw: Octets)
    requires FieldFits(field) && SplitsInHalves(field, raw)
    ensures var (r, s) := (BeNat(raw[..|raw| / 2]), BeNat(raw[|raw| / 2..]));
            (exists x: nat, y: nat :: x > 0 && y > 0 && IsSignatureDer(field, SignatureDer(r, s), x, y))
            <==> r > 0 && s > 0
  {
    var (r, s) := (BeNat(raw[..|raw| / 2]), BeNat(raw[|raw| / 2..]));
    SignatureFits(field, r, s);
    assert IsSignatureDer(field, SignatureDer(r, s), r, s);
    ScalarsOf(field, SignatureDer(r, s), r, s);
  }

  /** A signature is normalised to the DER of its two scalars; a zero scalar is
      malformed. */
  method EcdsaSignatureToDer(curve: EcCurve, signature: Octets) returns (r: Result<Octets>)
    requires |signature| <= MAX_SLICE
    ensures var field := FieldLen(curve);
            var encoded := EncodeSignature(field, signature);
            && (r.Ok? <==> encoded.Ok? && exists x: nat, y: nat ::
                  x > 0 && y > 0 && IsSignatureDer(field, encoded.value, x, y))
            && (r.Ok? ==> r == encoded)
            && (r.Err? ==> r.error == Crypto)
    ensures r.Ok? <==> AcceptedForVerification(FieldLen(curve), signature)
    ensures r.Ok? ==> r.value == if AlreadyDer(FieldLen(curve), signature) then signature
                                 else SignatureDer(BeNat(signature[..|signature| / 2]),
                                                   BeNat(signature[|signature| / 2..]))
  {
    var field := FieldLen(curve);
    AcceptedExactly(field, signature);
    var der := RawSignatureToDer(field, signature);
    if der.Err? {
      return Err(Crypto);
    }
    EncodedValues(field, signature, der.value);
    var raw := DerSignatureToRaw(field, der.value);
    var (first, second) := (raw.value[..field], raw.value[field..]);
    ghost var x, y := DecodedHalves(field, der.value);
    ScalarsOf(field, der.value, x, y);
    if AllZero(first) || AllZero(second) {
      return Err(Crypto);
    }
    return der;
  }

  lemma DecodedHalves(field: nat, der: Octets) returns (x: nat, y: nat)
    requires |der| <= MAX_SLICE && DecodeSignature(field, der).Ok?
    ensures IsSignatureDer(field, der, x, y)
  {
    x, y :| IsSignatureDer(field, der, x, y);
  }

  lemma ScalarsOf(field: nat, der: Octets, x: nat, y: nat)
    requires |der| <= MAX_SLICE && IsSignatureDer(field, der, x, y)
    ensures DecodeSignature(field, der).Ok?
    ensures var raw := DecodeSignature(field, der).value;
            && |raw| == 2 * field
            && (AllZero(raw[..field]) <==> x == 0) && (AllZero(raw[field..]) <==> y == 0)
    ensures (exists x': nat, y': nat :: x' > 0 && y' > 0 && IsSignatureDer(field, der, x', y'))
            <==> x > 0 && y > 0
  {
    DecodesTo(field, der, x, y);
    var raw := RawSignature(field, x, y);
    assert raw[..field] == ToBe(x, field) && raw[field..] == ToBe(y, field);
    AllZeroIsZero(x, field);
    AllZeroIsZero(y, field);
    forall x', y' | IsSignatureDer(field, der, x', y')
      ensures x' == x && y' == y
    {
      SignatureDerInjective(x, y, x', y');
    }
  }

  lemma AllZeroIsZero(n: nat, width: nat)
    requires n < Pow256(width)
    ensures AllZero(ToBe(n, width)) <==> n == 0
  {
    BeNatToBe(n, width);
    BeNatZeros(width);
    if AllZero(ToBe(n, width)) {
      assert ToBe(n, width) == Zeros(width);
    }
    if n == 0 {
      BeNatInjective(ToBe(n, width), Zeros(width));
    }
  }

  /** Two accepted inputs with the same scalars normalise to the same DER, and
      the DER determines the scalars. */
  lemma NormalisedByScalars(curve: EcCurve, d: Octets, d': Octets, x: nat, y: nat, x': nat, y': nat)
    requires |d| <= MAX_SLICE && |d'| <= MAX_SLICE
    requires IsSignatureDer(FieldLen(curve), d, x, y) && IsSignatureDer(FieldLen(curve), d', x', y')
    ensures d == d' <==> x == x' && y == y'
  {
    if d == d' {
      SignatureDerInjective(x, y, x', y');
    }
  }

  // ---- The sibling provider's raw normaliser ------------------------------

  /** Both providers must bring an even-length string to fixed width alike. */
  ghost function NormalizedRaw(field: nat, sig: Octets): Result<Octets> {
    if |sig| % 2 == 0 && Halves(sig).0 < Pow256(field) && Halves(sig).1 < Pow256(field) then
      Ok(RawSignature(field, Halves(sig).0, Halves(sig).1))
    else
      Err(Crypto)
  }

  /** One turn of the loop: a trimmed component, right-aligned in its chunk. */
  method NormalizeComponent(component: Octets, out: array<Byte>, lo: nat, hi: nat) returns (ok: bool)
    requires lo < hi <= out.Length && forall i :: lo <= i < hi ==> out[i] == 0
    modifies out
    ensures ok <==> BeNat(component) < Pow256(hi - lo)
    ensures ok ==> FieldHolds(old(out[..]), out[..], lo, hi, BeNat(component))
  {
    var trimmed := TrimRaw(component);
    TrimmedRawAligned(component, hi - lo);
    if |trimmed| > hi - lo {
      return false;
    }
    var copied := CopyAligned(trimmed, out, lo, hi, BeNat(component));
    return true;
  }

  method NormalizeRawEcdsa(sig: Octets, field: nat) returns (r: Result<Octets>)
    requires FieldFits(field) && |sig| <= MAX_SLICE
    ensures r == NormalizedRaw(field, sig)
    ensures r.Ok? <==> |sig| % 2 == 0 && BeNat(sig[..|sig| / 2]) < Pow256(field)
                       && BeNat(sig[|sig| / 2..]) < Pow256(field)
    ensures r.Ok? ==> |r.value| == 2 * field
                      && BeNat(r.value[..field]) == BeNat(sig[..|sig| / 2])
                      && BeNat(r.value[field..]) == BeNat(sig[|sig| / 2..])
  {
    if |sig| % 2 != 0 {
      return Err(Crypto);
    }
    var half := |sig| / 2;
    var components := [sig[..half], sig[half..]];
    var out := new Byte[field * 2](_ => 0);
    ghost var first := out[..];
    for i := 0 to 2
      invariant |first| == 2 * field
      invariant NormalizedUpTo(field, sig, first, out[..], i)
    {
      var ok := NormalizeComponent(components[i], out, i * field, i * field + field);
      if !ok {
        return Err(Crypto);
      }
      if i == 0 {
        first := out[..];
      }
    }
    BothFieldsHeld(field, Zeros(2 * field), first, out[..], Halves(sig).0, Halves(sig).1);
    RawHalves(field, Halves(sig).0, Halves(sig).1);
    return Ok(out[..]);
  }

  /** Progress of the normaliser: `first` is the buffer after the first half. */
  ghost predicate NormalizedUpTo(field: nat, sig: Octets, first: Octets, out: Octets, i: int)
    requires |first| == |out| == 2 * field
  {
    var (x, y) := Halves(sig);
    && (forall j :: 0 <= i * field <= j < 2 * field ==> out[j] == 0)
    && (i == 1 ==> out == first)
    && (i >= 1 ==> x < Pow256(field) && FieldHolds(Zeros(2 * field), first, 0, field, x))
    && (i >= 2 ==> y < Pow256(field) && FieldHolds(first, out, field, 2 * field, y))
  }

  /** On every even-length string of at least two octets both providers accept
      the same, with the same octets, whichever branch it would take. */
  lemma ProviderParity(field: nat, sig: Octets)
    requires FieldFits(field) && 2 <= |sig| <= MAX_SLICE && |sig| % 2 == 0
    ensures NormalizedRaw(field, sig).Ok? <==> EncodedHalves(field, sig).Ok?
    ensures NormalizedRaw(field, sig).Ok? ==>
              DecodeSignature(field, EncodedHalves(field, sig).value) == NormalizedRaw(field, sig)
  {
    var (x, y) := Halves(sig);
    if x < Pow256(field) && y < Pow256(field) {
      SignatureFits(field, x, y);
      DecodesTo(field, SignatureDer(x, y), x, y);
    }
  }
}
