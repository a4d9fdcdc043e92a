/**
 The portable derivation loops (src/alternate/kdf.rs, src/kdf.rs) over an
 abstract digest or HMAC, each proved to compute its standard's definition.
 */
module Kdf {
  import opened Wrappers
  import opened Bytes
  import opened Bits
  import opened Blocks
  import Modular

  const U32_LIMIT: nat := 0x1_0000_0000
  const MAX_KEY_LEN: nat := 0x10_0000

  /** A cap of 2^20 octets keeps every block counter far below 2^32. */
  lemma CounterFits(length: nat, size: nat)
    requires length <= MAX_KEY_LEN && size > 0
    ensures CeilDiv(length, size) <= MAX_KEY_LEN
  {
    CeilDivBounds(length, size);
    if CeilDiv(length, size) > MAX_KEY_LEN {
      Modular.MulMonotone(CeilDiv(length, size) - 1, 1, size);
    }
  }

  lemma FirstBlocks(f: BlockAt, n: nat) returns (blocks: seq<Octets>)
    ensures |blocks| == n && forall i :: 0 <= i < n ==> blocks[i] == f(i)
  {
    blocks := seq(n, i requires 0 <= i => f(i));
  }

  // ---- ConcatKDF, section 5.8.1 of SP 800-56A -----------------------------

  datatype PartyInfo = PartyInfo(algorithmId: Option<Octets>, partyU: Option<Octets>, partyV: Option<Octets>)

  function OrEmpty(o: Option<Octets>): Octets {
    if o.Some? then o.value else []
  }

  function OtherInfo(info: PartyInfo): Octets {
    OrEmpty(info.algorithmId) + OrEmpty(info.partyU) + OrEmpty(info.partyV)
  }

  /** K(i + 1) = H(counter || Z || OtherInfo). */
  function ConcatBlocks(digest: Digest, secret: Octets, otherInfo: Octets): BlockAt {
    (i: nat) => digest(ToBe(i + 1, 4) + secret + otherInfo)
  }

  lemma ConcatBlocksOk(digest: Digest, secret: Octets, otherInfo: Octets, size: nat)
    requires DigestOk(digest, size)
    ensures BlocksOk(ConcatBlocks(digest, secret, otherInfo), size)
  {
    forall i: nat
      ensures |ConcatBlocks(digest, secret, otherInfo)(i)| == size
    {
      var m := ToBe(i + 1, 4) + secret + otherInfo;
      assert |digest(m)| == size;
    }
  }

  ghost predicate ConcatDerived(r: Result<Octets>, digest: Digest, size: nat, secret: Octets,
                                info: PartyInfo, keyLen: nat)
    requires DigestOk(digest, size)
  {
    ConcatBlocksOk(digest, secret, OtherInfo(info), size);
    && (r.Ok? <==> 1 <= keyLen <= MAX_KEY_LEN)
    && (r.Ok? ==> r.value == Cut(ConcatBlocks(digest, secret, OtherInfo(info)), size, keyLen))
    && (r.Err? ==> r.error == Crypto)
  }

  /** `concat_kdf` of the AWS-LC provider: append what is still wanted of each block. */
  method ConcatKdfAppending(digest: Digest, size: nat, secret: Octets, keyLen: nat, info: PartyInfo)
    returns (r: Result<Octets>)
    requires DigestOk(digest, size)
    ensures ConcatDerived(r, digest, size, secret, info, keyLen)
  {
    if keyLen == 0 || keyLen > MAX_KEY_LEN {
      return Err(Crypto);
    }
    var otherInfo := [];
    var values := [info.algorithmId, info.partyU, info.partyV];
    for i := 0 to 3
      invariant i == 0 ==> otherInfo == []
      invariant i == 1 ==> otherInfo == OrEmpty(values[0])
      invariant i == 2 ==> otherInfo == OrEmpty(values[0]) + OrEmpty(values[1])
      invariant i == 3 ==> otherInfo == OtherInfo(info)
    {
      if values[i].Some? {
        otherInfo := otherInfo + values[i].value;
      }
    }
    ghost var f := ConcatBlocks(digest, secret, otherInfo);
    ConcatBlocksOk(digest, secret, otherInfo, size);
    CounterFits(keyLen, size);
    var output := [];
    for i := 0 to CeilDiv(keyLen, size)
      invariant Filled(output, f, size, keyLen, i)
    {
      var counter := i + 1;
      assert counter < U32_LIMIT;
      var block := digest(ToBe(counter, 4) + secret + otherInfo);
      output := AppendWanted(output, block, keyLen, f, i);
    }
    FilledIsCut(output, f, size, keyLen);
    return Ok(output);
  }

  /** `concat_kdf` of the RustCrypto provider: all blocks, then truncate. */
  method ConcatKdfTruncating(digest: Digest, size: nat, secret: Octets, keyLen: nat, info: PartyInfo)
    returns (r: Result<Octets>)
    requires DigestOk(digest, size)
    ensures ConcatDerived(r, digest, size, secret, info, keyLen)
  {
    var otherInfo := [];
    if info.algorithmId.Some? {
      otherInfo := otherInfo + info.algorithmId.value;
    }
    if info.partyU.Some? {
      otherInfo := otherInfo + info.partyU.value;
    }
    if info.partyV.Some? {
      otherInfo := otherInfo + info.partyV.value;
    }
    assert otherInfo == OtherInfo(info);
    r := ConcatKdfInner(digest, size, secret, otherInfo, keyLen);
  }

  method ConcatKdfInner(digest: Digest, size: nat, secret: Octets, otherInfo: Octets, keyLen: nat)
    returns (r: Result<Octets>)
    requires DigestOk(digest, size)
    ensures BlocksOk(ConcatBlocks(digest, secret, otherInfo), size)
    ensures r.Ok? <==> 1 <= keyLen <= MAX_KEY_LEN
    ensures r.Ok? ==> r.value == Cut(ConcatBlocks(digest, secret, otherInfo), size, keyLen)
    ensures r.Err? ==> r.error == Crypto
  {
    ghost var f := ConcatBlocks(digest, secret, otherInfo);
    ConcatBlocksOk(digest, secret, otherInfo, size);
    if keyLen == 0 || keyLen > MAX_KEY_LEN {
      return Err(Crypto);
    }
    CounterFits(keyLen, size);
    var reps := CeilDiv(keyLen, size);
    var last := reps % U32_LIMIT;
    assert last == reps;
    var derived := [];
    for i := 0 to last
      invariant derived == Concat(f, i)
    {
      derived := derived + digest(ToBe(i + 1, 4) + secret + otherInfo);
    }
    derived := derived[..Min(keyLen, |derived|)];
    FilledAll(f, size, keyLen);
    FilledIsCut(derived, f, size, keyLen);
    return Ok(derived);
  }

  lemma FilledAll(f: BlockAt, size: nat, length: nat)
    requires BlocksOk(f, size)
    ensures |Concat(f, CeilDiv(length, size))| >= length
    ensures Filled(Concat(f, CeilDiv(length, size))[..length], f, size, length, CeilDiv(length, size))
  {
    CeilDivBounds(length, size);
    ConcatLength(f, size, CeilDiv(length, size));
  }

  /** The key, block by block: each is the digest of a four-octet counter, the
      secret and the parts of OtherInfo that are present. */
  lemma {:induction false} ConcatOctets(r: Result<Octets>, digest: Digest, size: nat, secret: Octets,
                                        info: PartyInfo, keyLen: nat)
    returns (blocks: seq<Octets>, a: Octets, u: Octets, v: Octets)
    requires DigestOk(digest, size) && ConcatDerived(r, digest, size, secret, info, keyLen)
    ensures r.Ok? <==> 1 <= keyLen <= 1048576
    ensures info.algorithmId == Some(a) || (info.algorithmId == None && a == [])
    ensures info.partyU == Some(u) || (info.partyU == None && u == [])
    ensures info.partyV == Some(v) || (info.partyV == None && v == [])
    ensures forall i :: 0 <= i < |blocks| ==> blocks[i] == digest(ToBe(i + 1, 4) + secret + (a + u + v))
    ensures r.Ok? ==> |r.value| == keyLen && r.value <= Join(blocks)
  {
    a, u, v := OrEmpty(info.algorithmId), OrEmpty(info.partyU), OrEmpty(info.partyV);
    var f := ConcatBlocks(digest, secret, OtherInfo(info));
    ConcatBlocksOk(digest, secret, OtherInfo(info), size);
    blocks := FirstBlocks(f, CeilDiv(keyLen, size));
    CutIsJoin(f, size, keyLen, blocks);
  }

  /** Whatever the two loops return for the same request is the same. */
  lemma ConcatKdfsAgree(r: Result<Octets>, r': Result<Octets>, digest: Digest, size: nat, secret: Octets,
                        info: PartyInfo, keyLen: nat)
    requires DigestOk(digest, size)
    requires ConcatDerived(r, digest, size, secret, info, keyLen)
    requires ConcatDerived(r', digest, size, secret, info, keyLen)
    ensures r == r'
  {
  }

  /** A shorter ConcatKDF key is a prefix of a longer one. */
  lemma {:induction false} ConcatPrefixOfLonger(r: Result<Octets>, r': Result<Octets>, digest: Digest, size: nat,
                             secret: Octets, info: PartyInfo, m: nat, n: nat)
    requires DigestOk(digest, size) && 1 <= m <= n
    requires ConcatDerived(r, digest, size, secret, info, m)
    requires ConcatDerived(r', digest, size, secret, info, n) && r'.Ok?
    ensures r.Ok? && |r.value| == m && r.value <= r'.value
  {
    ConcatBlocksOk(digest, secret, OtherInfo(info), size);
    CutIsPrefixMonotone(ConcatBlocks(digest, secret, OtherInfo(info)), size, m, n);
  }

  // ---- PBKDF2, section 5.2 of RFC 8018 ------------------------------------

  /** U_c of block i. */
  function Chain(prf: Prf, password: Octets, salt: Octets, i: nat, c: nat): Octets
    requires c > 0
  {
    if c == 1 then prf(password, salt + ToBe(i, 4))
    else prf(password, Chain(prf, password, salt, i, c - 1))
  }

  lemma {:induction false} ChainLength(prf: Prf, size: nat, password: Octets, salt: Octets, i: nat, c: nat)
    requires c > 0 && PrfOk(prf, size)
    ensures |Chain(prf, password, salt, i, c)| == size
  {
  }

  /** F = U_1 xor ... xor U_c. */
  ghost function Sum(prf: Prf, size: nat, password: Octets, salt: Octets, i: nat, c: nat): (s: Octets)
    requires c > 0 && PrfOk(prf, size)
    ensures |s| == size
  {
    ChainLength(prf, size, password, salt, i, c);
    if c == 1 then Chain(prf, password, salt, i, c)
    else XorOctets(Sum(prf, size, password, salt, i, c - 1), Chain(prf, password, salt, i, c))
  }

  ghost function Pbkdf2Blocks(prf: Prf, size: nat, password: Octets, salt: Octets, c: nat): (f: BlockAt)
    requires c > 0 && PrfOk(prf, size)
    ensures BlocksOk(f, size)
  {
    (i: nat) => Sum(prf, size, password, salt, i + 1, c)
  }

  /** `iter_mut().zip()` with xor: in place. */
  method XorInto(accumulator: array<Byte>, u: Octets)
    requires accumulator.Length == |u|
    modifies accumulator
    ensures accumulator[..] == XorOctets(old(accumulator[..]), u)
  {
    for j := 0 to accumulator.Length
      invariant forall k :: 0 <= k < j ==> accumulator[k] == Xor(old(accumulator[k]), u[k])
      invariant forall k :: j <= k < accumulator.Length ==> accumulator[k] == old(accumulator[k])
    {
      accumulator[j] := Xor(accumulator[j], u[j]);
    }
  }

  method Pbkdf2Block(prf: Prf, size: nat, password: Octets, salt: Octets, i: nat, c: nat)
    returns (t: Octets)
    requires PrfOk(prf, size) && c > 0
    ensures t == Sum(prf, size, password, salt, i, c)
  {
    var u := prf(password, salt + ToBe(i, 4));
    var accumulator := new Byte[|u|](k requires 0 <= k < |u| => u[k]);
    assert accumulator[..] == u;
    for n := 1 to c
      invariant u == Chain(prf, password, salt, i, n)
      invariant accumulator[..] == Sum(prf, size, password, salt, i, n)
    {
      u := prf(password, u);
      XorInto(accumulator, u);
    }
    t := accumulator[..];
  }

  /** How many of the strings have bit b set in octet k. */
  function Ones(us: seq<Octets>, k: nat, b: nat): nat
    requires forall u :: u in us ==> k < |u|
  {
    if us == [] then 0 else Ones(us[..|us| - 1], k, b) + Bit(us[|us| - 1][k] as nat, b)
  }

  /** U_1, ..., U_c: each the HMAC of the one before, the first of salt and index. */
  ghost predicate IsChain(us: seq<Octets>, prf: Prf, password: Octets, salt: Octets, i: nat) {
    forall n :: 0 <= n < |us| ==> ChainAt(us, prf, password, salt, i, n)
  }

  ghost predicate ChainAt(us: seq<Octets>, prf: Prf, password: Octets, salt: Octets, i: nat, n: nat)
    requires n < |us|
  {
    us[n] == prf(password, if n == 0 then salt + ToBe(i, 4) else us[n - 1])
  }

  /** A bit of block i is the parity of that bit in U_1, ..., U_c. */
  lemma {:induction false} SumIsParity(prf: Prf, size: nat, password: Octets, salt: Octets, i: nat, c: nat)
    returns (us: seq<Octets>)
    requires c > 0 && PrfOk(prf, size)
    ensures |us| == c && IsChain(us, prf, password, salt, i)
    ensures us[c - 1] == Chain(prf, password, salt, i, c)
    ensures forall u :: u in us ==> |u| == size
    ensures forall k, b :: 0 <= k < size && 0 <= b < 8 ==>
              Bit(Sum(prf, size, password, salt, i, c)[k] as nat, b) == Ones(us, k, b) % 2
  {
    ChainLength(prf, size, password, salt, i, c);
    var last := Chain(prf, password, salt, i, c);
    if c == 1 {
      us := [last];
      forall k, b | 0 <= k < size && 0 <= b < 8
        ensures Bit(last[k] as nat, b) == Ones(us, k, b) % 2
      {
        assert Ones(us[..0], k, b) == 0;
      }
    } else {
      var earlier := SumIsParity(prf, size, password, salt, i, c - 1);
      us := earlier + [last];
      ChainLonger(earlier, last, prf, password, salt, i);
      var sum := Sum(prf, size, password, salt, i, c - 1);
      forall k, b | 0 <= k < size && 0 <= b < 8
        ensures Bit(XorOctets(sum, last)[k] as nat, b) == Ones(us, k, b) % 2
      {
        OneMore(sum, last, earlier, k, b);
      }
    }
  }

  lemma OneMore(sum: Octets, last: Octets, us: seq<Octets>, k: nat, b: nat)
    requires k < |sum| == |last| && b < 8 && (forall u :: u in us ==> k < |u|)
    requires Bit(sum[k] as nat, b) == Ones(us, k, b) % 2
    ensures Bit(XorOctets(sum, last)[k] as nat, b) == Ones(us + [last], k, b) % 2
  {
    assert (us + [last])[..|us|] == us;
    OctetBitwise(sum[k], last[k], b);
  }

  lemma ChainLonger(us: seq<Octets>, last: Octets, prf: Prf, password: Octets, salt: Octets, i: nat)
    requires us != [] && IsChain(us, prf, password, salt, i) && last == prf(password, us[|us| - 1])
    ensures IsChain(us + [last], prf, password, salt, i)
  {
    forall n | 0 <= n < |us| + 1
      ensures ChainAt(us + [last], prf, password, salt, i, n)
    {
      assert n < |us| ==> ChainAt(us, prf, password, salt, i, n);
    }
  }

  ghost predicate IsPbkdf2Block(block: Octets, us: seq<Octets>, prf: Prf, size: nat, password: Octets,
                                salt: Octets, i: nat, c: nat)
  {
    && |us| == c && |block| == size && (forall u :: u in us ==> |u| == size)
    && IsChain(us, prf, password, salt, i)
    && forall k, b :: 0 <= k < size && 0 <= b < 8 ==> Bit(block[k] as nat, b) == Ones(us, k, b) % 2
  }

  lemma BlockChain(prf: Prf, size: nat, password: Octets, salt: Octets, i: nat, c: nat)
    returns (us: seq<Octets>)
    requires PrfOk(prf, size) && c > 0
    ensures IsPbkdf2Block(Pbkdf2Blocks(prf, size, password, salt, c)(i), us, prf, size, password, salt, i + 1, c)
  {
    us := SumIsParity(prf, size, password, salt, i + 1, c);
  }

  lemma {:induction false} BlockChains(prf: Prf, size: nat, password: Octets, salt: Octets, c: nat,
                                       blocks: seq<Octets>)
    returns (us: seq<seq<Octets>>)
    requires PrfOk(prf, size) && c > 0
    requires forall i :: 0 <= i < |blocks| ==> blocks[i] == Pbkdf2Blocks(prf, size, password, salt, c)(i)
    ensures |us| == |blocks|
    ensures forall i :: 0 <= i < |blocks| ==>
              IsPbkdf2Block(blocks[i], us[i], prf, size, password, salt, i + 1, c)
  {
    if blocks == [] {
      us := [];
    } else {
      var n := |blocks| - 1;
      us := BlockChains(prf, size, password, salt, c, blocks[..n]);
      var last := BlockChain(prf, size, password, salt, n, c);
      us := us + [last];
    }
  }

  /** The key, block by block and bit by bit. */
  lemma {:induction false} Pbkdf2Octets(prf: Prf, size: nat, password: Octets, salt: Octets, c: nat, length: nat)
    returns (blocks: seq<Octets>, us: seq<seq<Octets>>)
    requires PrfOk(prf, size) && c > 0
    ensures Cut(Pbkdf2Blocks(prf, size, password, salt, c), size, length) <= Join(blocks)
    ensures |us| == |blocks|
    ensures forall i :: 0 <= i < |blocks| ==>
              IsPbkdf2Block(blocks[i], us[i], prf, size, password, salt, i + 1, c)
  {
    var f := Pbkdf2Blocks(prf, size, password, salt, c);
    blocks := FirstBlocks(f, CeilDiv(length, size));
    CutIsJoin(f, size, length, blocks);
    us := BlockChains(prf, size, password, salt, c, blocks);
  }

  datatype Pbkdf2Params = Pbkdf2Params(salt: Octets, iterationCount: nat, keyLength: nat)

  /** Within the limits of RFC 8018, and the SP 800-132 minimums of a FIPS build. */
  method Pbkdf2(prf: Prf, size: nat, password: Octets, p: Pbkdf2Params, fips: bool)
    returns (r: Result<Octets>)
    requires PrfOk(prf, size)
    ensures r.Ok? <==>
      && |p.salt| >= (if fips then 16 else 8)
      && (if fips then 1000 else 1) <= p.iterationCount <= 100_000_000
      && 1 <= p.keyLength <= 1048576
      && (fips ==> |password| >= 14)
    ensures r.Ok? ==>
      r.value == Cut(Pbkdf2Blocks(prf, size, password, p.salt, p.iterationCount), size, p.keyLength)
    ensures r.Err? ==> r.error == Crypto
  {
    if |p.salt| < 8 || p.iterationCount < 1 || p.iterationCount > 100_000_000
       || p.keyLength == 0 || p.keyLength > MAX_KEY_LEN {
      return Err(Crypto);
    }
    if fips && (|p.salt| < 16 || p.iterationCount < 1000 || |password| < 14) {
      return Err(Crypto);
    }
    ghost var f := Pbkdf2Blocks(prf, size, password, p.salt, p.iterationCount);
    CounterFits(p.keyLength, size);
    var output := [];
    for i := 0 to CeilDiv(p.keyLength, size)
      invariant Filled(output, f, size, p.keyLength, i)
    {
      var block := i + 1;
      assert block < U32_LIMIT;
      var accumulator := Pbkdf2Block(prf, size, password, p.salt, block, p.iterationCount);
      output := AppendWanted(output, accumulator, p.keyLength, f, i);
    }
    FilledIsCut(output, f, size, p.keyLength);
    return Ok(output);
  }

  /** A shorter PBKDF2 key is a prefix of a longer one. */
  lemma {:induction false} Pbkdf2PrefixOfLonger(prf: Prf, size: nat, password: Octets, salt: Octets, c: nat,
                                                m: nat, n: nat)
    requires PrfOk(prf, size) && c > 0 && m <= n
    ensures var f := Pbkdf2Blocks(prf, size, password, salt, c); Cut(f, size, m) <= Cut(f, size, n)
  {
    CutIsPrefixMonotone(Pbkdf2Blocks(prf, size, password, salt, c), size, m, n);
  }

  // ---- HKDF, section 2 of RFC 5869 ----------------------------------------

  /** T(i): T(0) is empty, T(i) = HMAC(PRK, T(i-1) || info || i). */
  function Expanded(prf: Prf, prk: Octets, info: Octets, i: nat): Octets {
    if i == 0 then [] else prf(prk, Expanded(prf, prk, info, i - 1) + info + ToBe(i, 1))
  }

  ghost function HkdfBlocks(prf: Prf, size: nat, prk: Octets, info: Octets): (f: BlockAt)
    requires PrfOk(prf, size)
    ensures BlocksOk(f, size)
  {
    (i: nat) => Expanded(prf, prk, info, i + 1)
  }

  datatype HkdfParams = HkdfParams(salt: Option<Octets>, info: Option<Octets>, keyLengthBits: nat)

  /** The output bound is what keeps the one-octet counter from wrapping. */
  lemma {:induction false} CounterIsOneOctet(length: nat, size: nat)
    requires size > 0
    ensures CeilDiv(length, size) <= 255 <==> length <= 255 * size
  {
    CeilDivBounds(length, size);
    var k := CeilDiv(length, size);
    if k <= 255 {
      Modular.MulMonotone(size, k, 255);
    } else {
      Modular.MulMonotone(size, 255, k - 1);
    }
  }

  method Hkdf(prf: Prf, size: nat, secret: Octets, keyLen: nat, p: HkdfParams, fips: bool)
    returns (r: Result<Octets>)
    requires PrfOk(prf, size)
    ensures r.Ok? <==>
      && (fips ==> p.salt != Some([]) && p.info.Some? && p.info.value != [])
      && p.keyLengthBits % 8 == 0
      && 1 <= (if p.keyLengthBits > 0 then p.keyLengthBits / 8 else keyLen) <= 255 * size
    ensures r.Ok? ==>
      r.value == Cut(HkdfBlocks(prf, size,
                                prf(if p.salt.Some? then p.salt.value else Zeros(size), secret),
                                if p.info.Some? then p.info.value else []),
                     size, if p.keyLengthBits > 0 then p.keyLengthBits / 8 else keyLen)
    ensures r.Err? ==>
      r.error == if fips && (p.salt == Some([]) || p.info.None? || p.info.value == []) then Unsupported else Crypto
  {
    if fips && !((p.salt.None? || p.salt.value != []) && p.info.Some? && p.info.value != []) {
      return Err(Unsupported);
    }
    var outputLen := keyLen;
    if p.keyLengthBits > 0 {
      if p.keyLengthBits % 8 != 0 {
        return Err(Crypto);
      }
      outputLen := p.keyLengthBits / 8;
    }
    if outputLen == 0 || outputLen > 255 * size {
      return Err(Crypto);
    }
    var salt := if p.salt.Some? then p.salt.value else Zeros(size);
    var info := OrEmpty(p.info);
    var prk := prf(salt, secret);
    var output := Expand(prf, size, prk, info, outputLen);
    return Ok(output);
  }

  method Expand(prf: Prf, size: nat, prk: Octets, info: Octets, outputLen: nat) returns (output: Octets)
    requires PrfOk(prf, size) && outputLen <= 255 * size
    ensures output == Cut(HkdfBlocks(prf, size, prk, info), size, outputLen)
  {
    ghost var f := HkdfBlocks(prf, size, prk, info);
    CounterIsOneOctet(outputLen, size);
    output := [];
    var previous := [];
    for i := 0 to CeilDiv(outputLen, size)
      invariant Filled(output, f, size, outputLen, i)
      invariant previous == Expanded(prf, prk, info, i)
    {
      var counter := i + 1;
      var octet := counter as Byte;
      OneOctet(counter);
      previous := prf(prk, previous + info + [octet]);
      output := AppendWanted(output, previous, outputLen, f, i);
    }
    FilledIsCut(output, f, size, outputLen);
  }

  /** A shorter HKDF output is a prefix of a longer one. */
  lemma {:induction false} HkdfPrefixOfLonger(prf: Prf, size: nat, prk: Octets, info: Octets, m: nat, n: nat)
    requires PrfOk(prf, size) && m <= n
    ensures var f := HkdfBlocks(prf, size, prk, info); Cut(f, size, m) <= Cut(f, size, n)
  {
    CutIsPrefixMonotone(HkdfBlocks(prf, size, prk, info), size, m, n);
  }

  /** The output, block by block: T(i) is the HMAC of T(i-1), info and the octet i,
      T(0) being empty. */
  lemma {:induction false} HkdfOctets(prf: Prf, size: nat, prk: Octets, info: Octets, length: nat)
    returns (ts: seq<Octets>)
    requires PrfOk(prf, size) && length <= 255 * size
    ensures |ts| <= 255
    ensures forall i :: 0 <= i < |ts| ==> ExpandedAt(ts, prf, prk, info, i)
    ensures Cut(HkdfBlocks(prf, size, prk, info), size, length) <= Join(ts)
  {
    var f := HkdfBlocks(prf, size, prk, info);
    CounterIsOneOctet(length, size);
    ts := FirstBlocks(f, CeilDiv(length, size));
    CutIsJoin(f, size, length, ts);
    forall i | 0 <= i < |ts|
      ensures ExpandedAt(ts, prf, prk, info, i)
    {
      OneOctet(i + 1);
      assert ts[i] == Expanded(prf, prk, info, i + 1);
      assert i > 0 ==> ts[i - 1] == Expanded(prf, prk, info, i);
    }
  }

  ghost predicate ExpandedAt(ts: seq<Octets>, prf: Prf, prk: Octets, info: Octets, i: nat)
    requires i < |ts| <= 255
  {
    ts[i] == prf(prk, (if i == 0 then [] else ts[i - 1]) + info + [(i + 1) as Byte])
  }

  lemma OneOctet(n: nat)
    requires n < 256
    ensures ToBe(n, 1) == [n as Byte]
  {
    assert ToBe(n / 256, 0) == [];
  }
}
