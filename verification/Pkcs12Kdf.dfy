/**
 The PKCS#12 password derivation (src/pkcs12.rs): loops over buffers updated in
 place, proved to compute appendix B.2 of RFC 7292.
 */
module Pkcs12Kdf {
  import opened Wrappers
  import opened Bytes
  import opened Blocks
  import opened Rfc7292
  import Modular

  const ID_KEY: Byte := 1
  const ID_IV: Byte := 2
  const ID_MAC: Byte := 3

  // ---- Definition ---------------------------------------------------------

  /** Repeats the data up to the next multiple of the block size. */
  function ExtendToMultiple(data: Octets, block: nat): (s: Octets)
    requires block > 0
    ensures |s| == CeilDiv(|data|, block) * block
    ensures forall i :: 0 <= i < |s| ==> s[i] == data[i % |data|]
  {
    if data == [] then
      assert CeilDiv(0, block) == 0 by { Modular.RemainderUnique(block - 1, 0, block - 1, block); }
      []
    else
      seq(CeilDiv(|data|, block) * block, i requires 0 <= i => data[i % |data|])
  }

  /** The octets of a BMPString: UTF-16 code units, then a zero unit. */
  function PasswordToBmpString(units: seq<CodeUnit>): Octets {
    BmpUnits(units) + [0, 0]
  }

  function BmpUnits(units: seq<CodeUnit>): Octets {
    if units == [] then []
    else BmpUnits(units[..|units| - 1]) + ToBe(units[|units| - 1] as nat, 2)
  }

  /** H applied n times, n >= 1. */
  function Iterated(digest: Digest, m: Octets, n: nat): Octets
    requires n > 0
  {
    if n == 1 then digest(m) else digest(Iterated(digest, m, n - 1))
  }

  /** Step 6C on one block: the low octets of I_j + B + 1. */
  function NextBlock(block: Octets, b: Octets): (s: Octets)
    ensures |s| == |block|
  {
    ToBe(BeNat(block) + BeNat(b) + 1, |block|)
  }

  /** As the standard puts it: (I_j + B + 1) modulo 2^(8v). */
  lemma NextBlockModulo(block: Octets, b: Octets)
    ensures BeNat(NextBlock(block, b)) == (BeNat(block) + BeNat(b) + 1) % Pow256(|block|)
  {
    LowOctets(BeNat(block) + BeNat(b) + 1, |block|);
  }

  /** 256^width does not reach the low octets. */
  lemma {:induction false} ToBeDropsTop(n: nat, width: nat)
    ensures ToBe(n + Pow256(width), width) == ToBe(n, width)
  {
    if width > 0 {
      ToBeDropsTop(n / 256, width - 1);
    }
  }

  /** The chunk from lo to hi replaced by its next value. */
  function WithNextBlock(s: Octets, b: Octets, lo: nat, hi: nat): (t: Octets)
    requires lo <= hi <= |s|
    ensures |t| == |s|
  {
    s[..lo] + NextBlock(s[lo..hi], b) + s[hi..]
  }

  /** The input when step 6C is done on the v-octet blocks below lo. */
  function Advanced(before: Octets, b: Octets, v: nat, lo: nat): (s: Octets)
    requires v > 0 && WholeChunks(lo, v) && lo <= |before|
    ensures |s| == |before|
  {
    if lo == 0 then before else WithNextBlock(Advanced(before, b, v, lo - v), b, lo - v, lo)
  }

  /** Step 6C on every v-octet block of I. */
  function NextInput(input: Octets, b: Octets, v: nat): (s: Octets)
    requires v > 0 && WholeChunks(|input|, v)
    ensures |s| == |input|
  {
    Advanced(input, b, v, |input|)
  }

  /** The derivation's parameters: hash, D, I_0, iteration count and block size. */
  datatype Kdf = Kdf(digest: Digest, d: Octets, input: Octets, iterations: nat, v: nat)

  predicate WellFormed(k: Kdf) {
    k.v > 0 && k.iterations > 0 && WholeChunks(|k.input|, k.v)
  }

  /** A_(i+1) from I_i. */
  function BlockFrom(k: Kdf, input: Octets): Octets
    requires WellFormed(k)
  {
    Iterated(k.digest, k.d + input, k.iterations)
  }

  /** I_i: the input after i rounds. */
  function InputAt(k: Kdf, i: nat): (s: Octets)
    requires WellFormed(k)
    ensures |s| == |k.input|
  {
    if i == 0 then k.input
    else NextInput(InputAt(k, i - 1), ExtendToMultiple(BlockFrom(k, InputAt(k, i - 1)), k.v), k.v)
  }

  function OutputBlocks(k: Kdf): BlockAt
    requires WellFormed(k)
  {
    (i: nat) => BlockFrom(k, InputAt(k, i))
  }

  lemma {:induction false} IteratedLength(digest: Digest, m: Octets, n: nat, size: nat)
    requires n > 0 && DigestOk(digest, size)
    ensures |Iterated(digest, m, n)| == size
  {
  }

  lemma OutputBlocksOk(k: Kdf, size: nat)
    requires WellFormed(k) && DigestOk(k.digest, size)
    ensures BlocksOk(OutputBlocks(k), size)
  {
    forall i: nat
      ensures |OutputBlocks(k)(i)| == size
    {
      IteratedLength(k.digest, k.d + InputAt(k, i), k.iterations, size);
    }
  }

  // ---- In-place addition --------------------------------------------------

  /** The integer the octets from k to hi encode. */
  ghost function Value(s: Octets, k: nat, hi: nat): nat
    requires k <= hi <= |s|
    decreases hi - k
  {
    if k == hi then 0 else s[k] as nat * Pow256(hi - k - 1) + Value(s, k + 1, hi)
  }

  lemma {:induction false} ValueIsBeNat(s: Octets, k: nat, hi: nat)
    requires k <= hi <= |s|
    ensures Value(s, k, hi) == BeNat(s[k..hi])
    decreases hi - k
  {
    if k < hi {
      ValueIsBeNat(s, k + 1, hi);
      var (first, rest) := ([s[k]], s[k + 1..hi]);
      assert s[k..hi] == first + rest;
      BeNatConcat(first, rest);
      assert first[..0] == [];
      assert BeNat(first) == s[k] as nat;
    }
  }

  lemma {:induction false} ValueFrame(s: Octets, t: Octets, k: nat, hi: nat)
    requires k <= hi <= |s| == |t| && forall i :: k <= i < hi ==> s[i] == t[i]
    ensures Value(s, k, hi) == Value(t, k, hi)
    decreases hi - k
  {
    if k < hi {
      ValueFrame(s, t, k + 1, hi);
    }
  }

  function Top(carry: nat, width: nat): nat {
    if carry == 0 then 0 else Pow256(width)
  }

  /** The value of the octets handled so far, with the carry on top, is the sum. */
  ghost predicate Summed(before: Octets, after: Octets, b: Octets, lo: nat, k: nat, hi: nat, carry: nat)
    requires lo <= k <= hi <= |before| == |after| && hi - lo <= |b|
  {
    Value(after, k, hi) + Top(carry, hi - k) == Value(before, k, hi) + Value(b, k - lo, hi - lo) + 1
  }

  lemma {:induction false} SummedNext(before: Octets, mid: Octets, after: Octets, b: Octets,
                                      lo: nat, k: nat, hi: nat, carry: nat, carry': nat)
    requires lo <= k < hi <= |before| == |mid| == |after| && hi - lo <= |b|
    requires Summed(before, mid, b, lo, k + 1, hi, carry)
    requires forall i :: k < i < hi ==> after[i] == mid[i]
    requires carry <= 1 && carry' <= 1
    requires carry' * 256 + after[k] as nat == before[k] as nat + b[k - lo] as nat + carry
    ensures Summed(before, after, b, lo, k, hi, carry')
  {
    ValueFrame(mid, after, k + 1, hi);
    CarryArithmetic(after[k] as nat, before[k] as nat, b[k - lo] as nat, carry, carry', Pow256(hi - k - 1));
  }

  lemma CarryArithmetic(x: int, y: int, z: int, c: int, c': int, p: int)
    requires 0 <= c <= 1 && 0 <= c' <= 1 && c' * 256 + x == y + z + c
    ensures x * p + (if c' == 0 then 0 else 256 * p) == y * p + z * p + (if c == 0 then 0 else p)
  {
    Modular.MulEqual(c' * 256 + x, p, y + z + c, p);
    Modular.Distribute(p, c' * 256, x);
    Modular.Distribute(p, y, z);
    Modular.Distribute(p, y + z, c);
  }

  /** `add_one_plus_b` on the chunk of `input` from lo to hi. */
  method AddOnePlusB(input: array<Byte>, lo: nat, hi: nat, b: Octets, ghost before: Octets)
    requires lo <= hi <= input.Length && |b| == hi - lo
    requires input[..] == before
    modifies input
    ensures input[..] == WithNextBlock(before, b, lo, hi)
  {
    var carry: nat := 1;
    var index := hi;
    while index > lo
      invariant lo <= index <= hi && carry <= 1
      invariant forall i :: 0 <= i < input.Length && !(index <= i < hi) ==> input[i] == before[i]
      invariant Summed(before, input[..], b, lo, index, hi, carry)
    {
      index := index - 1;
      ghost var mid := input[..];
      var sum := input[index] as nat + b[index - lo] as nat + carry;
      input[index] := (sum % 256) as Byte;
      SummedNext(before, mid, input[..], b, lo, index, hi, carry, sum / 256);
      carry := sum / 256;
    }
    AllSummed(before, input[..], b, lo, hi, carry);
  }

  lemma {:induction false} AllSummed(before: Octets, after: Octets, b: Octets, lo: nat, hi: nat, carry: nat)
    requires lo <= hi <= |before| == |after| && |b| == hi - lo
    requires Summed(before, after, b, lo, lo, hi, carry)
    requires forall i :: 0 <= i < |before| && !(lo <= i < hi) ==> after[i] == before[i]
    ensures after == WithNextBlock(before, b, lo, hi)
  {
    ValueIsBeNat(before, lo, hi);
    ValueIsBeNat(after, lo, hi);
    ValueIsBeNat(b, 0, hi - lo);
    assert b[0..hi - lo] == b;
    SumWithoutCarry(before[lo..hi], after[lo..hi], b, carry);
    assert after == after[..lo] + after[lo..hi] + after[hi..];
    assert after[..lo] == before[..lo] && after[hi..] == before[hi..];
  }

  /** Fixed width keeps the sum and drops the last carry. */
  lemma {:induction false} SumWithoutCarry(block: Octets, after: Octets, b: Octets, carry: nat)
    requires |block| == |after|
    requires BeNat(after) + Top(carry, |block|) == BeNat(block) + BeNat(b) + 1
    ensures after == NextBlock(block, b)
  {
    ToBeDropsTop(BeNat(after), |block|);
    ToBeBeNat(after);
  }

  /** The chunks below lo are done; whole chunks are left. */
  ghost predicate DoneBelow(now: Octets, before: Octets, b: Octets, v: nat, lo: nat)
    requires v > 0
  {
    && lo <= |before| && WholeChunks(lo, v) && WholeChunks(|before| - lo, v)
    && now == Advanced(before, b, v, lo)
  }

  lemma AllDone(now: Octets, before: Octets, b: Octets, v: nat)
    requires v > 0 && DoneBelow(now, before, b, v, |before|)
    ensures now == NextInput(before, b, v)
  {
  }

  /** One chunk of the buffer. */
  method AdvanceChunk(input: array<Byte>, lo: nat, b: Octets, v: nat, ghost before: Octets)
    requires v > 0 && |b| == v && lo < |before| == input.Length
    requires DoneBelow(input[..], before, b, v, lo)
    modifies input
    ensures lo + v <= |before| && DoneBelow(input[..], before, b, v, lo + v)
  {
    AddOnePlusB(input, lo, lo + v, b, Advanced(before, b, v, lo));
  }

  /** `add_one_plus_b` on every v-octet chunk. */
  method AdvanceInput(input: array<Byte>, b: Octets, v: nat)
    requires v > 0 && WholeChunks(input.Length, v) && |b| == v
    modifies input
    ensures input[..] == NextInput(old(input[..]), b, v)
  {
    ghost var before := input[..];
    var lo := 0;
    while lo < input.Length
      invariant DoneBelow(input[..], before, b, v, lo)
    {
      AdvanceChunk(input, lo, b, v, before);
      lo := lo + v;
    }
    AllDone(input[..], before, b, v);
  }

  method EncodePassword(units: seq<CodeUnit>) returns (out: Octets)
    ensures out == PasswordToBmpString(units)
    ensures IsBmp(out, units)
  {
    out := [];
    for i := 0 to |units|
      invariant out == BmpUnits(units[..i])
    {
      assert units[..i + 1][..i] == units[..i];
      out := out + ToBe(units[i] as nat, 2);
    }
    assert units[..|units|] == units;
    out := out + [0, 0];
    PasswordIsBmp(units);
  }

  function KdfFor(digest: Digest, id: Byte, password: seq<CodeUnit>, salt: Octets, iterations: nat): (k: Kdf)
    requires iterations > 0
    ensures WellFormed(k)
  {
    var (s, p) := (ExtendToMultiple(salt, 64), ExtendToMultiple(PasswordToBmpString(password), 64));
    WholeChunksOfMultiple(CeilDiv(|salt|, 64), 64);
    WholeChunksOfMultiple(CeilDiv(|PasswordToBmpString(password)|, 64), 64);
    WholeChunksAdd(|s|, |p|, 64);
    Kdf(digest, Diversifier(id, 64), s + p, iterations, 64)
  }

  /** The first digest of a round and its repetitions. */
  method IterateDigest(digest: Digest, material: Octets, iterations: nat) returns (a: Octets)
    requires iterations > 0
    ensures a == Iterated(digest, material, iterations)
  {
    a := digest(material);
    for n := 1 to iterations
      invariant a == Iterated(digest, material, n)
    {
      a := digest(a);
    }
  }

  lemma OneBlock(u: nat, v: nat)
    requires 0 < u <= v
    ensures CeilDiv(u, v) * v == v
  {
    Modular.RemainderUnique(u + v - 1, 1, u - 1, v);
  }

  // ---- What is hashed, octet by octet -------------------------------------

  lemma {:induction false} BmpUnitsAt(units: seq<CodeUnit>, i: nat)
    requires i < |units|
    ensures |BmpUnits(units)| == 2 * |units|
    ensures BmpUnits(units)[2 * i] as int == units[i] as int / 256
    ensures BmpUnits(units)[2 * i + 1] as int == units[i] as int % 256
  {
    var n := |units| - 1;
    BmpUnitsLength(units[..n]);
    TwoOctets(units[n] as nat);
    if i < n {
      BmpUnitsAt(units[..n], i);
    }
  }

  lemma {:induction false} BmpUnitsLength(units: seq<CodeUnit>)
    ensures |BmpUnits(units)| == 2 * |units|
  {
    if units != [] {
      BmpUnitsLength(units[..|units| - 1]);
    }
  }

  lemma TwoOctets(n: nat)
    requires n < 0x1_0000
    ensures ToBe(n, 2) == [(n / 256) as Byte, (n % 256) as Byte]
  {
    assert ToBe(n / 256, 1) == ToBe(n / 256 / 256, 0) + [(n / 256 % 256) as Byte];
  }

  lemma PasswordIsBmp(units: seq<CodeUnit>)
    ensures IsBmp(PasswordToBmpString(units), units)
  {
    BmpUnitsLength(units);
    forall i | 0 <= i < |units|
      ensures var o := PasswordToBmpString(units);
              o[2 * i] as int == units[i] as int / 256 && o[2 * i + 1] as int == units[i] as int % 256
    {
      BmpUnitsAt(units, i);
    }
  }

  lemma ExtendedRepeats(data: Octets, v: nat)
    requires v > 0
    ensures Repeats(ExtendToMultiple(data, v), data, v)
  {
    var n := CeilDiv(|data|, v);
    CeilDivBounds(|data|, v);
    assert (n - 1) * v == n * v - v;
    Modular.RemainderUnique(n * v, n, 0, v);
    if data == [] {
      assert |ExtendToMultiple(data, v)| == 0;
    }
  }

  lemma FirstInput(salt: Octets, units: seq<CodeUnit>, v: nat)
    requires v > 0
    ensures IsFirstInput(ExtendToMultiple(salt, v) + ExtendToMultiple(PasswordToBmpString(units), v), units, salt, v)
  {
    ExtendedRepeats(salt, v);
    ExtendedRepeats(PasswordToBmpString(units), v);
    PasswordIsBmp(units);
  }

  lemma {:induction false} IteratedChain(digest: Digest, m: Octets, n: nat) returns (h: seq<Octets>)
    requires n > 0
    ensures IsChain(h, digest, m) && |h| == n && h[n - 1] == Iterated(digest, m, n)
  {
    if n == 1 {
      h := [digest(m)];
    } else {
      var shorter := IteratedChain(digest, m, n - 1);
      h := shorter + [digest(shorter[n - 2])];
      forall i | 0 < i < n
        ensures LinkAt(h, digest, i)
      {
        assert i < n - 1 ==> LinkAt(shorter, digest, i);
      }
    }
  }

  lemma MultiplesApart(lo: nat, k: nat, v: nat)
    requires v > 0 && lo % v == 0 && k % v == 0 && lo < k
    ensures lo + v <= k
  {
    Modular.Distribute(v, k / v, lo / v);
    assert v * (k / v - lo / v) == k - lo;
    if k / v - lo / v < 1 {
      Modular.MulMonotone(v, k / v - lo / v, 0);
    }
    Modular.MulMonotone(v, 1, k / v - lo / v);
  }

  lemma WithNextBlockParts(s: Octets, b: Octets, lo: nat, hi: nat)
    requires lo <= hi <= |s|
    ensures var t := WithNextBlock(s, b, lo, hi);
            && t[lo..hi] == NextBlock(s[lo..hi], b)
            && (forall i :: 0 <= i < lo ==> t[i] == s[i])
            && (forall i :: hi <= i < |s| ==> t[i] == s[i])
  {
    SliceOfTail(s[..lo], NextBlock(s[lo..hi], b), s[hi..]);
  }

  lemma SliceOfTail(head: Octets, middle: Octets, tail: Octets)
    ensures (head + middle + tail)[|head|..|head| + |middle|] == middle
  {
  }

  /** Blocks not reached yet are as they were. */
  lemma {:induction false} NotYetAdvanced(before: Octets, b: Octets, v: nat, lo: nat)
    requires v > 0 && WholeChunks(lo, v) && lo <= |before|
    ensures forall i :: lo <= i < |before| ==> Advanced(before, b, v, lo)[i] == before[i]
  {
    if lo > 0 {
      NotYetAdvanced(before, b, v, lo - v);
      WithNextBlockParts(Advanced(before, b, v, lo - v), b, lo - v, lo);
    }
  }

  /** Advancing one block leaves the blocks below it as they are. */
  lemma EarlierChunk(before: Octets, s: Octets, b: Octets, v: nat, lo: nat, k: nat, hi: nat)
    requires |s| == |before| && lo + v <= k <= hi <= |before|
    requires ChunkIsNext(before, s, b, v, lo)
    ensures ChunkIsNext(before, WithNextBlock(s, b, k, hi), b, v, lo)
  {
    WithNextBlockParts(s, b, k, hi);
    assert WithNextBlock(s, b, k, hi)[lo..lo + v] == s[lo..lo + v];
  }

  lemma ThisChunk(before: Octets, s: Octets, b: Octets, v: nat, k: nat, hi: nat)
    requires |s| == |before| && k + v == hi <= |before| && forall i :: k <= i < |before| ==> s[i] == before[i]
    ensures ChunkIsNext(before, WithNextBlock(s, b, k, hi), b, v, k)
  {
    WithNextBlockParts(s, b, k, hi);
    assert s[k..hi] == before[k..hi];
    NextBlockModulo(before[k..hi], b);
  }

  lemma AdvancedFrom(before: Octets, b: Octets, v: nat, hi: nat, k: nat)
    requires v > 0 && WholeChunks(hi, v) && k + v == hi <= |before|
    ensures Advanced(before, b, v, hi) == WithNextBlock(Advanced(before, b, v, k), b, k, hi)
  {
  }

  lemma LastAdvanced(before: Octets, b: Octets, v: nat, hi: nat, k: nat)
    requires v > 0 && WholeChunks(hi, v) && k + v == hi <= |before|
    ensures ChunkIsNext(before, Advanced(before, b, v, hi), b, v, k)
  {
    NotYetAdvanced(before, b, v, k);
    AdvancedFrom(before, b, v, hi, k);
    ThisChunk(before, Advanced(before, b, v, k), b, v, k, hi);
  }

  lemma StillAdvanced(before: Octets, b: Octets, v: nat, hi: nat, k: nat, lo: nat)
    requires v > 0 && WholeChunks(hi, v) && k + v == hi <= |before| && lo + v <= k
    requires ChunkIsNext(before, Advanced(before, b, v, k), b, v, lo)
    ensures ChunkIsNext(before, Advanced(before, b, v, hi), b, v, lo)
  {
    AdvancedFrom(before, b, v, hi, k);
    EarlierChunk(before, Advanced(before, b, v, k), b, v, lo, k, hi);
  }

  lemma BelowLastChunk(hi: nat, v: nat, lo: nat)
    requires v > 0 && WholeChunks(hi, v) && lo + v <= hi && WholeChunks(lo, v)
    ensures lo + v == hi || lo + v <= hi - v
  {
    WholeChunksIff(hi - v, v);
    WholeChunksIff(lo, v);
    if lo < hi - v {
      MultiplesApart(lo, hi - v, v);
    }
  }

  /** A block below hi has its next value. */
  lemma {:induction false} AdvancedChunk(before: Octets, b: Octets, v: nat, hi: nat, lo: nat)
    requires v > 0 && WholeChunks(hi, v) && lo + v <= hi <= |before| && WholeChunks(lo, v)
    ensures ChunkIsNext(before, Advanced(before, b, v, hi), b, v, lo)
  {
    BelowLastChunk(hi, v, lo);
    if lo + v == hi {
      LastAdvanced(before, b, v, hi, lo);
    } else {
      var k := hi - v;
      AdvancedChunk(before, b, v, k, lo);
      StillAdvanced(before, b, v, hi, k, lo);
    }
  }

  lemma NextInputIsNext(input: Octets, b: Octets, v: nat)
    requires v > 0 && WholeChunks(|input|, v)
    ensures IsNextInput(input, NextInput(input, b, v), b, v)
  {
    forall lo: nat | lo + v <= |input| && lo % v == 0
      ensures ChunkIsNext(input, NextInput(input, b, v), b, v, lo)
    {
      WholeChunksIff(lo, v);
      AdvancedChunk(input, b, v, |input|, lo);
    }
  }

  function Inputs(k: Kdf, n: nat): (inputs: seq<Octets>)
    requires WellFormed(k)
    ensures |inputs| == n && forall i :: 0 <= i < n ==> inputs[i] == InputAt(k, i)
  {
    seq(n, i requires 0 <= i => InputAt(k, i))
  }

  function Outputs(k: Kdf, n: nat): (blocks: seq<Octets>)
    requires WellFormed(k)
    ensures |blocks| == n && forall i :: 0 <= i < n ==> blocks[i] == OutputBlocks(k)(i)
  {
    seq(n, i requires 0 <= i => OutputBlocks(k)(i))
  }

  lemma BlockIsIterated(k: Kdf, input: Octets)
    requires WellFormed(k)
    ensures IsIterated(BlockFrom(k, input), k.digest, k.d + input, k.iterations)
  {
    var h := IteratedChain(k.digest, k.d + input, k.iterations);
  }

  lemma InputAdvances(k: Kdf, u: nat, i: nat)
    requires WellFormed(k) && DigestOk(k.digest, u) && u <= k.v
    ensures IsAdvanced(InputAt(k, i), InputAt(k, i + 1), OutputBlocks(k)(i), k.v)
  {
    OutputBlocksOk(k, u);
    assert |OutputBlocks(k)(i)| == u;
    BlockAdvances(InputAt(k, i), OutputBlocks(k)(i), k.v);
  }

  lemma BlockAdvances(input: Octets, a: Octets, v: nat)
    requires 0 < |a| <= v && WholeChunks(|input|, v)
    ensures IsAdvanced(input, NextInput(input, ExtendToMultiple(a, v), v), a, v)
  {
    OneBlock(|a|, v);
    ExtendedRepeats(a, v);
    NextInputIsNext(input, ExtendToMultiple(a, v), v);
  }

  lemma StepsForward(k: Kdf, u: nat, n: nat, i: nat)
    requires WellFormed(k) && DigestOk(k.digest, u) && u <= k.v && i + 1 < n
    ensures StepAt(Inputs(k, n), Outputs(k, n), k.v, i)
  {
    var (before, after, a) := (Inputs(k, n)[i], Inputs(k, n)[i + 1], Outputs(k, n)[i]);
    assert IsAdvanced(before, after, a, k.v) by {
      InputAdvances(k, u, i);
    }
  }

  /** The derived octets, with every input and block they come from. */
  lemma DerivedIsDerived(k: Kdf, u: nat, id: Byte, units: seq<CodeUnit>, salt: Octets, length: nat)
    returns (inputs: seq<Octets>, blocks: seq<Octets>)
    requires WellFormed(k) && DigestOk(k.digest, u) && u <= k.v && k.d == Diversifier(id, k.v) && length > 0
    requires k.input == ExtendToMultiple(salt, k.v) + ExtendToMultiple(PasswordToBmpString(units), k.v)
    ensures BlocksOk(OutputBlocks(k), u)
    ensures IsDerived(Cut(OutputBlocks(k), u, length), k.digest, id, units, salt, k.iterations, k.v,
                      inputs, blocks)
  {
    OutputBlocksOk(k, u);
    var n := CeilDiv(length, u);
    BlockIndex(0, length, u);
    inputs, blocks := Inputs(k, n), Outputs(k, n);
    FirstInput(salt, units, k.v);
    forall i | 0 <= i < n
      ensures BlockOf(k.digest, k.d, k.iterations, inputs, blocks, i)
    {
      BlockIsIterated(k, inputs[i]);
    }
    forall i | 0 <= i < n - 1
      ensures StepAt(inputs, blocks, k.v, i)
    {
      StepsForward(k, u, n, i);
    }
    CutIsJoin(OutputBlocks(k), u, length, blocks);
  }

  method Derive(alg: HashAlgorithm, digest: Digest, id: Byte, password: seq<CodeUnit>, salt: Octets,
                iterations: nat, outputLen: nat)
    returns (r: Result<Octets>)
    requires DigestOk(digest, HashLen(alg))
    ensures r.Ok? <==> id in {1, 2, 3} && 1 <= iterations <= 100_000_000 && 1 <= outputLen <= 1048576
                       && (alg == Sha1 || alg == Sha256)
    ensures r.Ok? ==>
      var k := KdfFor(digest, id, password, salt, iterations);
      && BlocksOk(OutputBlocks(k), HashLen(alg))
      && r.value == Cut(OutputBlocks(k), HashLen(alg), outputLen)
    ensures r.Ok? ==> |r.value| == outputLen
    ensures r.Ok? ==> exists inputs, blocks ::
              IsDerived(r.value, digest, id, password, salt, iterations, 64, inputs, blocks)
    ensures r.Err? ==>
      r.error == if id in {1, 2, 3} && 1 <= iterations <= 100_000_000 && 1 <= outputLen <= 1048576
                 then Unsupported else Crypto
  {
    if id !in {ID_KEY, ID_IV, ID_MAC} {
      return Err(Crypto);
    }
    if iterations == 0 || iterations > 100_000_000 || outputLen == 0 || outputLen > 0x10_0000 {
      return Err(Crypto);
    }
    var u, v;
    match alg {
      case Sha1 => u, v := 20, 64;
      case Sha256 => u, v := 32, 64;
      case _ => return Err(Unsupported);
    }
    r := DeriveAccepted(digest, id, password, salt, iterations, outputLen, u, v);
  }

  /** The derivation itself. */
  method DeriveAccepted(digest: Digest, id: Byte, password: seq<CodeUnit>, salt: Octets, iterations: nat,
                        outputLen: nat, u: nat, v: nat)
    returns (r: Result<Octets>)
    requires DigestOk(digest, u) && 0 < u <= v == 64 && iterations > 0 && outputLen > 0
    ensures var k := KdfFor(digest, id, password, salt, iterations);
            BlocksOk(OutputBlocks(k), u) && r == Ok(Cut(OutputBlocks(k), u, outputLen))
    ensures exists inputs, blocks ::
              IsDerived(r.value, digest, id, password, salt, iterations, v, inputs, blocks)
  {
    var d := Diversifier(id, v);
    var encoded := EncodePassword(password);
    var initial := ExtendToMultiple(salt, v) + ExtendToMultiple(encoded, v);
    var k := Kdf(digest, d, initial, iterations, v);
    assert k == KdfFor(digest, id, password, salt, iterations);
    var output := Fill(k, u, outputLen);
    ghost var inputs, blocks := DerivedIsDerived(k, u, id, password, salt, outputLen);
    return Ok(output);
  }

  method CopyOf(s: Octets) returns (a: array<Byte>)
    ensures fresh(a) && a[..] == s
  {
    a := new Byte[|s|](i requires 0 <= i < |s| => s[i]);
  }

  /** From I_i to I_(i+1), B being A_(i+1) repeated to one block. */
  method NextRound(k: Kdf, input: array<Byte>, a: Octets, ghost i: nat)
    requires WellFormed(k) && 0 < |a| <= k.v
    requires input[..] == InputAt(k, i) && a == BlockFrom(k, InputAt(k, i))
    modifies input
    ensures input[..] == InputAt(k, i + 1)
  {
    OneBlock(|a|, k.v);
    var b := ExtendToMultiple(a, k.v);
    AdvanceInput(input, b, k.v);
  }

  /** The block loop: `input` is advanced in place after every block but the last. */
  method Fill(k: Kdf, u: nat, outputLen: nat) returns (output: Octets)
    requires WellFormed(k) && DigestOk(k.digest, u) && u <= k.v && outputLen > 0
    ensures BlocksOk(OutputBlocks(k), u)
    ensures output == Cut(OutputBlocks(k), u, outputLen)
  {
    OutputBlocksOk(k, u);
    ghost var f := OutputBlocks(k);
    var input := CopyOf(k.input);
    var blocks := CeilDiv(outputLen, u);
    output := [];
    for block := 0 to blocks
      invariant Filled(output, f, u, outputLen, block)
      invariant block < blocks ==> input[..] == InputAt(k, block)
    {
      var a := IterateDigest(k.digest, k.d + input[..], k.iterations);
      assert a == f(block);
      output := AppendWanted(output, a, outputLen, f, block);
      if block + 1 < blocks {
        NextRound(k, input, a, block);
      }
    }
    FilledIsCut(output, f, u, outputLen);
  }

  /** A shorter derivation is a prefix of a longer one with the same inputs. */
  lemma {:induction false} ShorterIsPrefix(k: Kdf, u: nat, m: nat, n: nat)
    requires WellFormed(k) && DigestOk(k.digest, u) && m <= n
    ensures BlocksOk(OutputBlocks(k), u)
    ensures Cut(OutputBlocks(k), u, m) <= Cut(OutputBlocks(k), u, n)
  {
    OutputBlocksOk(k, u);
    CutIsPrefixMonotone(OutputBlocks(k), u, m, n);
  }
}
