/**
 Finite-field Diffie-Hellman (src/hazmat/dh.rs): the checks, the exponentiation
 and the padding on octet strings, and what the checks give two parties.
 Montgomery exponentiation is the mathematical power modulo p.
 */
module DhAgreement {
  import opened Wrappers
  import opened Bytes
  import opened Modular

  // ---- Octets -------------------------------------------------------------

  /** Drops leading zeros, keeping one octet of a zero. */
  function StripLeadingZeros(input: Octets): (s: Octets)
    ensures BeNat(s) == BeNat(input)
    ensures |s| <= |input|
  {
    var first := FirstNonZero(input);
    var start := if first < |input| then first else if |input| == 0 then 0 else |input| - 1;
    assert input == Zeros(start) + input[start..];
    BeNatLeadingZeros(start, input[start..]);
    input[start..]
  }

  function LeftPadTo(input: Octets, target: nat): (s: Octets)
    ensures |s| == target
  {
    if |input| == target then input
    else if |input| < target then Zeros(target - |input|) + input
    else input[|input| - target..]
  }

  /** An integer of `bits` bits from octets; too many octets do not parse. */
  function FromBeSlice(bytes: Octets, bits: nat): Option<nat> {
    if |bytes| > (bits + 7) / 8 then None else Some(BeNat(bytes))
  }

  /** Whole 64-bit limbs, as the big-integer library prints them. */
  function LimbOctets(n: nat, bits: nat): Octets {
    ToBe(n, (bits + 63) / 64 * 8)
  }

  lemma {:induction false} PaddedLimbs(n: nat, width: nat)
    requires n < Pow256(width)
    ensures LeftPadTo(LimbOctets(n, 8 * width), width) == ToBe(n, width)
  {
    var limbs := (8 * width + 63) / 64 * 8;
    Truncated(n, width, limbs);
  }

  lemma Truncated(n: nat, width: nat, limbs: nat)
    requires n < Pow256(width) && width <= limbs
    ensures LeftPadTo(ToBe(n, limbs), width) == ToBe(n, width)
  {
    Pow256Monotone(width, limbs);
    ToBeIsPadding(n, limbs);
    ToBeIsPadding(n, width);
    LowEnd(MinimalBe(n), width, limbs);
  }

  lemma LowEnd(s: Octets, width: nat, limbs: nat)
    requires |s| <= width <= limbs
    ensures (Zeros(limbs - |s|) + s)[limbs - width..] == Zeros(width - |s|) + s
  {
  }

  // ---- Agreement ----------------------------------------------------------

  /** `compute`, given the peer's public value and one's own private exponent. */
  function Compute(otherPublic: Octets, myPrivate: Octets, p: Octets, q: Option<Octets>)
    : (r: Result<Octets>)
  {
    if p == [] then Err(Key) else
    if q.None? then Err(Key) else
    var qBytes := StripLeadingZeros(q.value);
    var yBytes := StripLeadingZeros(otherPublic);
    if |myPrivate| > |p| then Err(Key) else
    // A 32-bit product: a modulus of 2^29 octets or more does not parse.
    var bits := |p| * 8 % 0x1_0000_0000;
    var shared := CheckedPower(
      FromBeSlice(p, bits), FromBeSlice(qBytes, bits), FromBeSlice(yBytes, bits),
      FromBeSlice(myPrivate, bits));
    if shared.Err? then Err(shared.error) else
    Ok(LeftPadTo(LimbOctets(shared.value, bits), |p|))
  }

  /** The checks on the parsed integers, in the order they are made, then y^x. */
  function CheckedPower(p: Option<nat>, q: Option<nat>, y: Option<nat>, x: Option<nat>): Result<nat> {
    if p.None? || p.value % 2 == 0 then Err(Key) else
    if q.None? || !(1 < q.value < p.value) then Err(Key) else
    if (p.value - 1) % q.value != 0 then Err(Key) else
    if y.None? || !(1 < y.value < p.value) then Err(Key) else
    if ModPow(y.value, q.value, p.value) != 1 then Err(Key) else
    if x.None? || !(0 < x.value < q.value) then Err(Key) else
    Ok(ModPow(y.value, x.value, p.value))
  }

  /** The group parameters and a peer value that pass the checks. */
  predicate ValidGroup(p: nat, q: nat) {
    p % 2 == 1 && 1 < q < p && (p - 1) % q == 0
  }

  predicate ValidPeer(y: nat, p: nat, q: nat) {
    1 < y < p && ModPow(y, q, p) == 1
  }

  const MAX_MODULUS_LEN: nat := 0x2000_0000

  lemma ShortestFits(s: Octets, n: nat, width: nat)
    requires BeNat(s) == n < Pow256(width) && width > 0
    ensures |StripLeadingZeros(s)| <= width
  {
    MinimalBeLength(n, width);
    StripIsMinimal(s);
    if FirstNonZero(s) < |s| {
      assert StripLeadingZeros(s) == MinimalBe(n);
    }
  }

  /** `compute` in terms of the integers it is given, whatever zeros lead them:
      when it succeeds, and that the result is the shared power in as many octets
      as the modulus has. */
  lemma {:induction false} ComputesSharedPower(otherPublic: Octets, myPrivate: Octets, p: Octets, q: Option<Octets>)
    ensures var (Y, X, P) := (BeNat(otherPublic), BeNat(myPrivate), BeNat(p));
            var r := Compute(otherPublic, myPrivate, p, q);
            && (r.Ok? <==>
                 && 0 < |p| < MAX_MODULUS_LEN && q.Some? && |myPrivate| <= |p|
                 && ValidGroup(P, BeNat(q.value)) && ValidPeer(Y, P, BeNat(q.value))
                 && 0 < X < BeNat(q.value))
            && (r.Ok? ==> r.value == ToBe(ModPow(Y, X, P), |p|))
            && (r.Ok? ==> BeNat(r.value) == ModPow(Y, X, P))
            && (r.Err? ==> r.error == Key)
  {
    if 0 < |p| < MAX_MODULUS_LEN && q.Some? && |myPrivate| <= |p| {
      ComputesOnParsed(otherPublic, myPrivate, p, q.value);
    } else {
      assert |p| >= MAX_MODULUS_LEN ==> |p| > (|p| * 8 % 0x1_0000_0000 + 7) / 8;
    }
  }

  /** Below 2^29 octets the bit count does not wrap, and both own operands parse. */
  lemma ComputeUnwrapped(otherPublic: Octets, myPrivate: Octets, p: Octets, q: Octets)
    requires 0 < |p| < MAX_MODULUS_LEN && |myPrivate| <= |p|
    ensures var bits := 8 * |p|;
            var shared := CheckedPower(
              Some(BeNat(p)), FromBeSlice(StripLeadingZeros(q), bits),
              FromBeSlice(StripLeadingZeros(otherPublic), bits), Some(BeNat(myPrivate)));
            Compute(otherPublic, myPrivate, p, Some(q))
            == (if shared.Err? then Err(shared.error) else Ok(LeftPadTo(LimbOctets(shared.value, bits), |p|)))
  {
    assert |p| * 8 % 0x1_0000_0000 == 8 * |p|;
  }

  lemma ComputesOnParsed(otherPublic: Octets, myPrivate: Octets, p: Octets, q: Octets)
    requires 0 < |p| < MAX_MODULUS_LEN && |myPrivate| <= |p|
    ensures var (Y, X, P, Q) := (BeNat(otherPublic), BeNat(myPrivate), BeNat(p), BeNat(q));
            var r := Compute(otherPublic, myPrivate, p, Some(q));
            && (r.Ok? <==> ValidGroup(P, Q) && ValidPeer(Y, P, Q) && 0 < X < Q)
            && (r.Ok? ==> r.value == ToBe(ModPow(Y, X, P), |p|) && BeNat(r.value) == ModPow(Y, X, P))
            && (r.Err? ==> r.error == Key)
  {
    var (Y, X, P, Q) := (BeNat(otherPublic), BeNat(myPrivate), BeNat(p), BeNat(q));
    ComputeUnwrapped(otherPublic, myPrivate, p, q);
    ParsedOrTooLarge(q, p);
    ParsedOrTooLarge(otherPublic, p);
    CheckedPowerChecks(P, Q, Y, X, FromBeSlice(StripLeadingZeros(q), 8 * |p|),
                       FromBeSlice(StripLeadingZeros(otherPublic), 8 * |p|));
    if P > 0 {
      PowerPadded(Y, X, p);
    }
  }

  lemma ParsedOrTooLarge(s: Octets, p: Octets)
    requires p != []
    ensures var parsed := FromBeSlice(StripLeadingZeros(s), 8 * |p|);
            parsed == Some(BeNat(s)) || (parsed == None && BeNat(s) >= BeNat(p))
  {
    BeNatBound(p);
    if BeNat(s) < BeNat(p) {
      ShortestFits(s, BeNat(s), |p|);
    }
  }

  lemma PowerPadded(y: nat, x: nat, p: Octets)
    requires BeNat(p) > 0
    ensures var power := ModPow(y, x, BeNat(p));
            && LeftPadTo(LimbOctets(power, 8 * |p|), |p|) == ToBe(power, |p|)
            && BeNat(ToBe(power, |p|)) == power
  {
    BeNatBound(p);
    var power := ModPow(y, x, BeNat(p));
    PaddedLimbs(power, |p|);
    BeNatToBe(power, |p|);
  }

  lemma CheckedPowerChecks(p: nat, q: nat, y: nat, x: nat, q': Option<nat>, y': Option<nat>)
    requires q' == Some(q) || (q' == None && q >= p)
    requires y' == Some(y) || (y' == None && y >= p)
    ensures var r := CheckedPower(Some(p), q', y', Some(x));
            && (r.Ok? <==> ValidGroup(p, q) && ValidPeer(y, p, q) && 0 < x < q)
            && (r.Ok? ==> r.value == ModPow(y, x, p))
            && (r.Err? ==> r.error == Key)
  {
  }

  lemma ChecksWrittenOut(Y: nat, X: nat, P: nat, Q: nat)
    ensures ValidGroup(P, Q) && ValidPeer(Y, P, Q) && 0 < X < Q <==>
              && P % 2 == 1 && 1 < Q < P && (P - 1) % Q == 0
              && 1 < Y < P && Pow(Y, Q) % P == 1
              && 0 < X < Q
  {
  }

  /** A call succeeds exactly when its inputs pass every check. */
  lemma {:induction false} AcceptedInputs(otherPublic: Octets, myPrivate: Octets, p: Octets, q: Octets)
    ensures Compute(otherPublic, myPrivate, p, Some(q)).Ok? <==>
              && 0 < |p| < 0x2000_0000 && |myPrivate| <= |p|
              && var (Y, X, P, Q) := (BeNat(otherPublic), BeNat(myPrivate), BeNat(p), BeNat(q));
              && P % 2 == 1 && 1 < Q < P && (P - 1) % Q == 0
              && 1 < Y < P && Pow(Y, Q) % P == 1
              && 0 < X < Q
  {
    var (Y, X, P, Q) := (BeNat(otherPublic), BeNat(myPrivate), BeNat(p), BeNat(q));
    ComputesSharedPower(otherPublic, myPrivate, p, Some(q));
    ChecksWrittenOut(Y, X, P, Q);
  }

  /** Whatever peer value is accepted, an honest one or not, the shared value
      lies in the subgroup of order q, and for a prime q it is never 1. */
  lemma {:induction false} SharedInSubgroup(otherPublic: Octets, myPrivate: Octets, p: Octets, q: Octets)
    requires Compute(otherPublic, myPrivate, p, Some(q)).Ok?
    ensures var (P, Q) := (BeNat(p), BeNat(q));
            var s := BeNat(Compute(otherPublic, myPrivate, p, Some(q)).value);
            && P > 1 && 0 < s < P && Pow(s, Q) % P == 1
            && (IsPrime(Q) ==> s != 1)
  {
    ComputesSharedPower(otherPublic, myPrivate, p, Some(q));
    var (Y, X, P, Q) := (BeNat(otherPublic), BeNat(myPrivate), BeNat(p), BeNat(q));
    AcceptedPower(Y, X, P, Q);
  }

  lemma AcceptedPower(y: nat, x: nat, p: nat, q: nat)
    requires 1 < q && 1 < y < p && Pow(y, q) % p == 1 && 0 < x < q
    ensures 0 < ModPow(y, x, p) < p && ModPow(ModPow(y, x, p), q, p) == 1
    ensures IsPrime(q) ==> ModPow(y, x, p) != 1
  {
    var s := ModPow(y, x, p);
    PowOfPower(y, x, q, p);
    assert x * q == q * x;
    PowerOfUnit(y, q, x, p);
    if s == 0 {
      assert Pow(0, q) == 0 * Pow(0, q - 1) == 0;
      RemainderUnique(0, 0, 0, p);
    }
    if IsPrime(q) && s == 1 {
      RemainderUnique(x, 0, x, q);
      OrderIsPrime(y, q, x, p);
      RemainderUnique(y, 0, y, p);
    }
  }

  /** Leading zeros of the peer's value and of the subgroup order do not matter. */
  lemma {:induction false} LeadingZerosIgnored(y: Octets, y': Octets, x: Octets, p: Octets, q: Octets, q': Octets)
    requires BeNat(y) == BeNat(y') && BeNat(q) == BeNat(q')
    ensures Compute(y, x, p, Some(q)) == Compute(y', x, p, Some(q'))
  {
    ComputesSharedPower(y, x, p, Some(q));
    ComputesSharedPower(y', x, p, Some(q'));
  }

  // ---- Two parties --------------------------------------------------------

  /** A generator of a subgroup of prime order q modulo p; p need not be prime. */
  predicate Generator(g: nat, p: nat, q: nat) {
    IsPrime(q) && ValidGroup(p, q) && 1 < g < p && ModPow(g, q, p) == 1
  }

  /** A power of the generator that q does not divide is a valid peer value. */
  lemma {:induction false} PowersAreValid(g: nat, m: nat, p: nat, q: nat)
    requires Generator(g, p, q) && m % q != 0
    ensures ValidPeer(ModPow(g, m, p), p, q)
  {
    var y := ModPow(g, m, p);
    PowOfPower(g, m, q, p);
    assert m * q == q * m;
    PowerOfUnit(g, q, m, p);
    assert ModPow(y, q, p) == 1;
    if y == 0 {
      assert Pow(0, q) == 0 * Pow(0, q - 1) == 0;
      RemainderUnique(0, 0, 0, p);
    }
    if y == 1 {
      OrderIsPrime(g, q, m, p);
      RemainderUnique(g, 0, g, p);
    }
  }

  /** Each party's public value passes every check; both compute the same octets;
      and the shared value is again valid, hence never 1. */
  lemma {:induction false} Agreement(g: nat, a: Octets, b: Octets, p: Octets, q: Octets)
    requires 0 < |p| < MAX_MODULUS_LEN && Generator(g, BeNat(p), BeNat(q))
    requires |a| <= |p| && 0 < BeNat(a) < BeNat(q)
    requires |b| <= |p| && 0 < BeNat(b) < BeNat(q)
    ensures var P := BeNat(p);
            var (pubA, pubB) := (ToBe(ModPow(g, BeNat(a), P), |p|), ToBe(ModPow(g, BeNat(b), P), |p|));
            && Compute(pubB, a, p, Some(q)).Ok?
            && Compute(pubB, a, p, Some(q)) == Compute(pubA, b, p, Some(q))
            && BeNat(Compute(pubB, a, p, Some(q)).value) != 1
            && ValidPeer(BeNat(Compute(pubB, a, p, Some(q)).value), P, BeNat(q))
  {
    var (P, Q, x, y) := (BeNat(p), BeNat(q), BeNat(a), BeNat(b));
    BeNatBound(p);
    var (A, B) := (ModPow(g, x, P), ModPow(g, y, P));
    BeNatToBe(A, |p|);
    BeNatToBe(B, |p|);
    RemainderUnique(x, 0, x, Q);
    RemainderUnique(y, 0, y, Q);
    PowersAreValid(g, x, P, Q);
    PowersAreValid(g, y, P, Q);
    ComputesSharedPower(ToBe(B, |p|), a, p, Some(q));
    ComputesSharedPower(ToBe(A, |p|), b, p, Some(q));
    PowOfPower(g, y, x, P);
    PowOfPower(g, x, y, P);
    assert x * y == y * x;
    ProductNotDivisible(x, y, Q);
    PowersAreValid(g, x * y, P, Q);
  }
}
