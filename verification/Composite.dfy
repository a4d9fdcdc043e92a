/**
 Composite ML-DSA signatures (src/software/composite.rs): the framing of the
 signed message and the aggregation of two abstract component schemes.
 */
module Composite {
  import opened Wrappers
  import opened Bytes
  import opened Blocks

  datatype MlDsa = MlDsa44 | MlDsa65 | MlDsa87

  datatype Variant =
    MlDsa44Es256 | MlDsa65Es256 | MlDsa87Es384 | MlDsa44Ed25519 | MlDsa65Ed25519 | MlDsa87Ed448

  const SEED_LEN: nat := 32
  const PREFIX: string := "CompositeAlgorithmSignatures2025"

  function LabelText(v: Variant): string {
    match v
    case MlDsa44Es256 => "COMPSIG-MLDSA44-ECDSA-P256-SHA256"
    case MlDsa65Es256 => "COMPSIG-MLDSA65-ECDSA-P256-SHA512"
    case MlDsa87Es384 => "COMPSIG-MLDSA87-ECDSA-P384-SHA512"
    case MlDsa44Ed25519 => "COMPSIG-MLDSA44-Ed25519-SHA512"
    case MlDsa65Ed25519 => "COMPSIG-MLDSA65-Ed25519-SHA512"
    case MlDsa87Ed448 => "COMPSIG-MLDSA87-Ed448-SHAKE256"
  }

  /** Labels are ASCII; wider characters do not occur in them. */
  function Octet(ch: char): Byte {
    if ch as int < 256 then ch as int as Byte else 255
  }

  function Ascii(s: string): (t: Octets)
    ensures |t| == |s|
    ensures forall i :: 0 <= i < |s| ==> t[i] == Octet(s[i])
  {
    seq(|s|, i requires 0 <= i < |s| => Octet(s[i]))
  }

  function MlDsaOf(v: Variant): MlDsa {
    match v
    case MlDsa44Es256 => MlDsa44
    case MlDsa44Ed25519 => MlDsa44
    case MlDsa65Es256 => MlDsa65
    case MlDsa65Ed25519 => MlDsa65
    case MlDsa87Es384 => MlDsa87
    case MlDsa87Ed448 => MlDsa87
  }

  function MlPublicLen(m: MlDsa): nat {
    match m
    case MlDsa44 => 1312
    case MlDsa65 => 1952
    case MlDsa87 => 2592
  }

  function MlSignatureLen(m: MlDsa): nat {
    match m
    case MlDsa44 => 2420
    case MlDsa65 => 3309
    case MlDsa87 => 4627
  }

  function TraditionalPublicLen(v: Variant): nat {
    match v
    case MlDsa44Es256 => 64
    case MlDsa65Es256 => 64
    case MlDsa87Es384 => 96
    case MlDsa44Ed25519 => 32
    case MlDsa65Ed25519 => 32
    case MlDsa87Ed448 => 57
  }

  function TraditionalPrivateLen(v: Variant): nat {
    match v
    case MlDsa44Es256 => 32
    case MlDsa65Es256 => 32
    case MlDsa87Es384 => 48
    case MlDsa44Ed25519 => 32
    case MlDsa65Ed25519 => 32
    case MlDsa87Ed448 => 57
  }

  function TraditionalSignatureLen(v: Variant): nat {
    match v
    case MlDsa44Es256 => 64
    case MlDsa65Es256 => 64
    case MlDsa87Es384 => 96
    case MlDsa44Ed25519 => 64
    case MlDsa65Ed25519 => 64
    case MlDsa87Ed448 => 114
  }

  function PublicKeyLen(v: Variant): nat {
    MlPublicLen(MlDsaOf(v)) + TraditionalPublicLen(v)
  }

  function PrivateKeyLen(v: Variant): nat {
    32 + TraditionalPrivateLen(v)
  }

  function SignatureLen(v: Variant): nat {
    MlSignatureLen(MlDsaOf(v)) + TraditionalSignatureLen(v)
  }

  // ---- Message representative ---------------------------------------------

  /** SHA-256, SHA-512 and the first 64 octets of SHAKE256. */
  datatype Hashes = Hashes(sha256: Digest, sha512: Digest, shake256: Digest)

  function Prehash(h: Hashes, v: Variant, message: Octets): Octets {
    match v
    case MlDsa44Es256 => h.sha256(message)
    case MlDsa87Ed448 => h.shake256(message)
    case _ => h.sha512(message)
  }

  /** prefix || label || 0 || prehash. */
  function Framed(v: Variant, prehash: Octets): Octets {
    Ascii(PREFIX) + (Ascii(LabelText(v)) + [0] + prehash)
  }

  method MessageRepresentative(h: Hashes, v: Variant, message: Octets) returns (representative: Octets)
    ensures representative == Framed(v, Prehash(h, v, message))
    ensures representative ==
            Ascii("CompositeAlgorithmSignatures2025") + (Ascii(LabelText(v)) + [0] +
            match v
            case MlDsa44Es256 => h.sha256(message)
            case MlDsa65Es256 | MlDsa87Es384 | MlDsa44Ed25519 | MlDsa65Ed25519 => h.sha512(message)
            case MlDsa87Ed448 => h.shake256(message))
  {
    var prehash := Prehash(h, v, message);
    representative := Ascii(PREFIX);
    representative := representative + Ascii(LabelText(v));
    representative := representative + [0];
    representative := representative + prehash;
  }

  predicate ZeroFree(s: Octets) {
    forall i :: 0 <= i < |s| ==> s[i] != 0
  }

  lemma FirstZero(a: Octets, p: Octets, s: Octets)
    requires ZeroFree(a) && s == a + [0] + p
    ensures |a| < |s| && s[|a|] == 0 && (forall i :: 0 <= i < |a| ==> s[i] != 0)
    ensures a == s[..|a|] && p == s[|a| + 1..]
  {
  }

  /** A zero octet ends a zero-free label. */
  lemma LabelEnds(a: Octets, p: Octets, b: Octets, q: Octets)
    requires ZeroFree(a) && ZeroFree(b) && a + [0] + p == b + [0] + q
    ensures a == b && p == q
  {
    FirstZero(a, p, a + [0] + p);
    FirstZero(b, q, a + [0] + p);
  }

  lemma NoNul(v: Variant)
    ensures (0 as char) !in LabelText(v)
  {
  }

  lemma LabelsZeroFree(v: Variant)
    ensures ZeroFree(Ascii(LabelText(v)))
  {
    NoNul(v);
  }

  lemma LabelsDistinct(v: Variant, v': Variant)
    requires Ascii(LabelText(v)) == Ascii(LabelText(v'))
    ensures v == v'
  {
    var (s, t) := (Ascii(LabelText(v)), Ascii(LabelText(v')));
    assert s[13] == t[13];
    assert |s| == |t|;
  }

  /** Domain separation: equal representatives mean the same algorithm and prehash. */
  lemma FramedInjective(v: Variant, p: Octets, v': Variant, p': Octets)
    ensures Framed(v, p) == Framed(v', p') <==> v == v' && p == p'
  {
    if Framed(v, p) == Framed(v', p') {
      var (a, b) := (Ascii(LabelText(v)), Ascii(LabelText(v')));
      var (s, t) := (a + [0] + p, b + [0] + p');
      assert s == Framed(v, p)[|PREFIX|..] && t == Framed(v', p')[|PREFIX|..];
      LabelsZeroFree(v);
      LabelsZeroFree(v');
      LabelEnds(a, p, b, p');
      LabelsDistinct(v, v');
    }
  }

  // ---- Component schemes --------------------------------------------------

  /** The library calls: ML-DSA under a 32-octet seed, and the traditional scheme of a variant.
      A signature may depend on fresh randomness. */
  datatype Components = Components(
    mlPublic: (MlDsa, Octets) -> Octets,
    mlSign: (MlDsa, Octets, Octets, Octets, Octets) -> Result<Octets>,
    mlVerify: (MlDsa, Octets, Octets, Octets, Octets) -> bool,
    publicValid: (Variant, Octets) -> bool,
    publicOf: (Variant, Octets) -> Result<Octets>,
    sign: (Variant, Octets, Octets) -> Result<Octets>,
    verify: (Variant, Octets, Octets, Octets) -> bool)

  /** Public keys have the registered length. */
  ghost predicate PublicLengths(c: Components) {
    && (forall m, seed :: |seed| == SEED_LEN ==> |c.mlPublic(m, seed)| == MlPublicLen(m))
    && (forall v, private :: c.publicOf(v, private).Ok? ==>
                                 |c.publicOf(v, private).value| == TraditionalPublicLen(v))
  }

  /** ML-DSA accepts what it signed, and its signatures have the registered length. */
  ghost predicate MlCorrect(c: Components) {
    forall m, seed, message, context, random ::
      var r := c.mlSign(m, seed, message, context, random);
      |seed| == SEED_LEN && r.Ok? ==>
        && |r.value| == MlSignatureLen(m)
        && c.mlVerify(m, c.mlPublic(m, seed), message, context, r.value)
  }

  /** So does the traditional scheme, for keys it derives a public key from. */
  ghost predicate TraditionalCorrect(c: Components) {
    forall v, private, message ::
      var (p, r) := (c.publicOf(v, private), c.sign(v, private, message));
      p.Ok? && r.Ok? ==>
        |r.value| == TraditionalSignatureLen(v) && c.verify(v, p.value, message, r.value)
  }

  ghost predicate ComponentsOk(c: Components) {
    PublicLengths(c) && MlCorrect(c) && TraditionalCorrect(c)
  }

  // ---- Import -------------------------------------------------------------

  /** public = ml || traditional at the registered split point, the second part valid. */
  ghost predicate PublicAccepted(c: Components, v: Variant, public: Octets) {
    exists ml: Octets, traditional: Octets ::
      && |ml| == MlPublicLen(MlDsaOf(v)) && |traditional| == TraditionalPublicLen(v)
      && public == ml + traditional && c.publicValid(v, traditional)
  }

  /** The aggregate public key of seed || traditional private key. */
  ghost predicate DerivesFrom(c: Components, v: Variant, seed: Octets, secret: Octets, private: Octets,
                              public: Octets)
  {
    && |seed| == SEED_LEN && |secret| == TraditionalPrivateLen(v) && private == seed + secret
    && c.publicOf(v, secret).Ok?
    && public == c.mlPublic(MlDsaOf(v), seed) + c.publicOf(v, secret).value
  }

  ghost predicate Derives(c: Components, v: Variant, private: Octets, public: Octets) {
    exists seed: Octets, secret: Octets :: DerivesFrom(c, v, seed, secret, private, public)
  }

  ghost predicate Accepted(c: Components, v: Variant, private: Option<Octets>, public: Octets) {
    PublicAccepted(c, v, public) && (private.Some? ==> Derives(c, v, private.value, public))
  }

  lemma SplitUnique(a: Octets, b: Octets, a': Octets, b': Octets)
    requires a + b == a' + b' && |a| == |a'|
    ensures a == a' && b == b'
  {
    assert a == (a + b)[..|a|] && a' == (a' + b')[..|a'|];
    assert b == (a + b)[|a|..] && b' == (a' + b')[|a'|..];
  }

  method DerivePublic(c: Components, v: Variant, private: Octets) returns (r: Result<Octets>)
    ensures r.Ok? <==> |private| == 32 + TraditionalPrivateLen(v) && c.publicOf(v, private[32..]).Ok?
    ensures r.Ok? ==> r.value == c.mlPublic(MlDsaOf(v), private[..32]) + c.publicOf(v, private[32..]).value
    ensures r.Ok? ==> Derives(c, v, private, r.value)
    ensures forall public :: Derives(c, v, private, public) ==> r == Ok(public)
  {
    forall seed: Octets, secret: Octets | |seed| == SEED_LEN && private == seed + secret
      ensures |private| >= SEED_LEN && seed == private[..SEED_LEN] && secret == private[SEED_LEN..]
    {
    }
    if |private| != PrivateKeyLen(v) {
      return Err(Key);
    }
    var (seed, secret) := (private[..SEED_LEN], private[SEED_LEN..]);
    assert private == seed + secret;
    var traditional := c.publicOf(v, secret);
    if traditional.Err? {
      return traditional;
    }
    var public := c.mlPublic(MlDsaOf(v), seed) + traditional.value;
    assert DerivesFrom(c, v, seed, secret, private, public);
    return Ok(public);
  }

  method ValidateImport(c: Components, v: Variant, private: Option<Octets>, public: Octets)
    returns (r: Result<()>)
    ensures r.Ok? <==> Accepted(c, v, private, public)
    ensures r.Ok? <==>
      && |public| == MlPublicLen(MlDsaOf(v)) + TraditionalPublicLen(v)
      && c.publicValid(v, public[MlPublicLen(MlDsaOf(v))..])
      && (private.Some? ==>
            && |private.value| == 32 + TraditionalPrivateLen(v)
            && c.publicOf(v, private.value[32..]).Ok?
            && public == c.mlPublic(MlDsaOf(v), private.value[..32]) + c.publicOf(v, private.value[32..]).value)
  {
    forall ml: Octets, traditional: Octets |
      |ml| == MlPublicLen(MlDsaOf(v)) && public == ml + traditional
      ensures traditional == public[MlPublicLen(MlDsaOf(v))..]
    {
    }
    if |public| != PublicKeyLen(v) {
      return Err(Key);
    }
    var (ml, traditional) := (public[..MlPublicLen(MlDsaOf(v))], public[MlPublicLen(MlDsaOf(v))..]);
    assert public == ml + traditional;
    if !c.publicValid(v, traditional) {
      return Err(Key);
    }
    if private.Some? {
      var derived := DerivePublic(c, v, private.value);
      if derived.Err? {
        return Err(derived.error);
      }
      if derived.value != public {
        return Err(Key);
      }
    }
    return Ok(());
  }

  // ---- Signing and verification -------------------------------------------

  datatype SoftwareKey =
    | CompositeKey(variant: Variant, private: Option<Octets>, public: Octets)
    | OtherKey

  /** Composite keys exist only with material the import accepted. */
  ghost predicate KeyOk(c: Components, key: SoftwareKey) {
    key.CompositeKey? ==> Accepted(c, key.variant, key.private, key.public)
  }

  ghost predicate Signs(c: Components, v: Variant, seed: Octets, secret: Octets, m: Octets, random: Octets,
                        private: Octets, signature: Octets)
  {
    && |seed| == SEED_LEN && private == seed + secret
    && c.mlSign(MlDsaOf(v), seed, m, Ascii(LabelText(v)), random).Ok?
    && c.sign(v, secret, m).Ok?
    && signature == c.mlSign(MlDsaOf(v), seed, m, Ascii(LabelText(v)), random).value + c.sign(v, secret, m).value
  }

  /** Both components signed the representative. */
  ghost predicate SignedBy(c: Components, h: Hashes, v: Variant, private: Octets, message: Octets,
                           signature: Octets)
  {
    exists seed: Octets, secret: Octets, random: Octets ::
      Signs(c, v, seed, secret, Framed(v, Prehash(h, v, message)), random, private, signature)
  }

  ghost predicate Verifies(c: Components, v: Variant, ml: Octets, traditional: Octets, m: Octets,
                           mlSignature: Octets, other: Octets, public: Octets, signature: Octets)
  {
    && |ml| == MlPublicLen(MlDsaOf(v)) && public == ml + traditional
    && |mlSignature| == MlSignatureLen(MlDsaOf(v)) && |other| == TraditionalSignatureLen(v)
    && signature == mlSignature + other
    && c.mlVerify(MlDsaOf(v), ml, m, Ascii(LabelText(v)), mlSignature)
    && c.verify(v, traditional, m, other)
  }

  /** Both halves verify under the halves of the public key, for this variant's representative. */
  ghost predicate VerifiedBy(c: Components, h: Hashes, v: Variant, public: Octets, message: Octets,
                             signature: Octets)
  {
    exists ml: Octets, traditional: Octets, mlSignature: Octets, other: Octets ::
      Verifies(c, v, ml, traditional, Framed(v, Prehash(h, v, message)), mlSignature, other, public, signature)
  }

  method Sign(c: Components, h: Hashes, key: SoftwareKey, v: Variant, message: Octets, random: Octets)
    returns (r: Result<Octets>)
    requires KeyOk(c, key)
    ensures r.Ok? ==>
      && key.CompositeKey? && key.variant == v && key.private.Some?
      && SignedBy(c, h, v, key.private.value, message, r.value)
    ensures !(key.CompositeKey? && key.variant == v && key.private.Some?) ==> r == Err(Key)
    ensures key.CompositeKey? && key.variant == v && key.private.Some? ==>
      var m := Framed(v, Prehash(h, v, message));
      forall seed: Octets, secret: Octets :: |seed| == SEED_LEN && key.private.value == seed + secret ==>
        (r.Ok? <==> && c.mlSign(MlDsaOf(v), seed, m, Ascii(LabelText(v)), random).Ok?
                    && c.sign(v, secret, m).Ok?)
    ensures r.Ok? ==>
      var (m, private) := (Framed(v, Prehash(h, v, message)), key.private.value);
      && |private| >= 32
      && var ml := c.mlSign(MlDsaOf(v), private[..32], m, Ascii(LabelText(v)), random);
      var other := c.sign(v, private[32..], m);
      ml.Ok? && other.Ok? && r.value == ml.value + other.value
  {
    if !key.CompositeKey? || key.private.None? {
      return Err(Key);
    }
    if key.variant != v {
      return Err(Key);
    }
    var representative := MessageRepresentative(h, v, message);
    var private := key.private.value;
    var (seed, secret) := (private[..SEED_LEN], private[SEED_LEN..]);
    SplitsAt(private, SEED_LEN);
    var mlSignature := c.mlSign(MlDsaOf(v), seed, representative, Ascii(LabelText(v)), random);
    if mlSignature.Err? {
      return mlSignature;
    }
    var traditional := c.sign(v, secret, representative);
    if traditional.Err? {
      return traditional;
    }
    var signature := mlSignature.value + traditional.value;
    assert Signs(c, v, seed, secret, representative, random, private, signature);
    return Ok(signature);
  }

  method Verify(c: Components, h: Hashes, key: SoftwareKey, v: Variant, message: Octets, signature: Octets)
    returns (r: Result<bool>)
    requires KeyOk(c, key)
    ensures r.Ok? <==> key.CompositeKey? && key.variant == v
    ensures r.Ok? ==> (r.value <==> VerifiedBy(c, h, v, key.public, message, signature))
    ensures r.Ok? ==>
      var (m, i, j) := (Framed(v, Prehash(h, v, message)), MlPublicLen(MlDsaOf(v)), MlSignatureLen(MlDsaOf(v)));
      && |key.public| >= i
      && (r.value <==>
            && |signature| == j + TraditionalSignatureLen(v)
            && c.mlVerify(MlDsaOf(v), key.public[..i], m, Ascii(LabelText(v)), signature[..j])
            && c.verify(v, key.public[i..], m, signature[j..]))
    ensures r.Err? ==> r.error == Key
  {
    if !key.CompositeKey? {
      return Err(Key);
    }
    if key.variant != v {
      return Err(Key);
    }
    if |signature| != SignatureLen(v) {
      return Ok(false);
    }
    var representative := MessageRepresentative(h, v, message);
    var (i, j) := (MlPublicLen(MlDsaOf(v)), MlSignatureLen(MlDsaOf(v)));
    var (ml, traditional) := (key.public[..i], key.public[i..]);
    var (mlSignature, other) := (signature[..j], signature[j..]);
    SplitsAt(key.public, i);
    SplitsAt(signature, j);
    var mlValid := c.mlVerify(MlDsaOf(v), ml, representative, Ascii(LabelText(v)), mlSignature);
    var traditionalValid := c.verify(v, traditional, representative, other);
    assert mlValid && traditionalValid
      <==> Verifies(c, v, ml, traditional, representative, mlSignature, other, key.public, signature);
    return Ok(mlValid && traditionalValid);
  }

  lemma SplitsAt(s: Octets, i: nat)
    requires i <= |s|
    ensures s == s[..i] + s[i..]
    ensures forall a: Octets, b: Octets :: s == a + b && |a| == i ==> a == s[..i] && b == s[i..]
  {
  }

  lemma BothVerify(c: Components, v: Variant, seed: Octets, secret: Octets, m: Octets, random: Octets)
    requires ComponentsOk(c) && |seed| == SEED_LEN
    requires c.mlSign(MlDsaOf(v), seed, m, Ascii(LabelText(v)), random).Ok?
    requires c.publicOf(v, secret).Ok? && c.sign(v, secret, m).Ok?
    ensures var ml := c.mlSign(MlDsaOf(v), seed, m, Ascii(LabelText(v)), random).value;
            && |ml| == MlSignatureLen(MlDsaOf(v))
            && c.mlVerify(MlDsaOf(v), c.mlPublic(MlDsaOf(v), seed), m, Ascii(LabelText(v)), ml)
    ensures var t := c.sign(v, secret, m).value;
            |t| == TraditionalSignatureLen(v) && c.verify(v, c.publicOf(v, secret).value, m, t)
    ensures |c.mlPublic(MlDsaOf(v), seed)| == MlPublicLen(MlDsaOf(v))
  {
  }

  /** Every signature made with an imported key verifies under its public half. */
  lemma SignedVerifies(c: Components, h: Hashes, v: Variant, private: Octets, public: Octets,
                       message: Octets, signature: Octets)
    requires ComponentsOk(c) && Accepted(c, v, Some(private), public)
    requires SignedBy(c, h, v, private, message, signature)
    ensures VerifiedBy(c, h, v, public, message, signature)
  {
    var m := Framed(v, Prehash(h, v, message));
    var seed: Octets, secret: Octets, random: Octets :| Signs(c, v, seed, secret, m, random, private, signature);
    var seed': Octets, secret': Octets :| DerivesFrom(c, v, seed', secret', private, public);
    SplitUnique(seed, secret, seed', secret');
    BothVerify(c, v, seed, secret, m, random);
    assert Verifies(c, v, c.mlPublic(MlDsaOf(v), seed), c.publicOf(v, secret).value, m,
                    c.mlSign(MlDsaOf(v), seed, m, Ascii(LabelText(v)), random).value, c.sign(v, secret, m).value,
                    public, signature);
  }
}
