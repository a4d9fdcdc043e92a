/**
 Outputs assembled from equally long blocks and cut to length, and the digests
 and MACs the derivations are built from.
 */
module Blocks {
  import opened Bytes
  import Modular

  datatype HashAlgorithm =
    Sha1 | Sha224 | Sha256 | Sha384 | Sha512 | Sha3_224 | Sha3_256 | Sha3_384 | Sha3_512 | Md5 | Ripemd160

  function HashLen(alg: HashAlgorithm): (n: nat)
    ensures n > 0
  {
    match alg
    case Sha1 => 20
    case Sha224 => 28
    case Sha256 => 32
    case Sha384 => 48
    case Sha512 => 64
    case Sha3_224 => 28
    case Sha3_256 => 32
    case Sha3_384 => 48
    case Sha3_512 => 64
    case Md5 => 16
    case Ripemd160 => 20
  }

  type Digest = Octets -> Octets

  /** A keyed MAC: key, then message. */
  type Prf = (Octets, Octets) -> Octets

  ghost predicate DigestOk(digest: Digest, size: nat) {
    size > 0 && forall m :: |digest(m)| == size
  }

  ghost predicate PrfOk(prf: Prf, size: nat) {
    size > 0 && forall k, m :: |prf(k, m)| == size
  }

  /** n octets split into chunks of exactly v. */
  predicate WholeChunks(n: nat, v: nat)
    requires v > 0
  {
    n == 0 || (n >= v && WholeChunks(n - v, v))
  }

  lemma {:induction false} WholeChunksOfMultiple(k: nat, v: nat)
    requires v > 0
    ensures WholeChunks(k * v, v)
  {
    if k > 0 {
      WholeChunksOfMultiple(k - 1, v);
      assert k * v - v == (k - 1) * v;
    }
  }

  lemma {:induction false} WholeChunksAdd(m: nat, n: nat, v: nat)
    requires v > 0 && WholeChunks(m, v) && WholeChunks(n, v)
    ensures WholeChunks(m + n, v)
  {
    if n > 0 {
      WholeChunksAdd(m, n - v, v);
    }
  }

  lemma {:induction false} WholeChunksIff(n: nat, v: nat)
    requires v > 0
    ensures WholeChunks(n, v) <==> n % v == 0
  {
    if n >= v {
      WholeChunksIff(n - v, v);
      Modular.AddMultiple(n - v, 1, v);
    } else {
      Modular.RemainderUnique(n, 0, n, v);
    }
  }

  type BlockAt = nat -> Octets

  ghost predicate BlocksOk(f: BlockAt, size: nat) {
    size > 0 && forall i: nat :: |f(i)| == size
  }

  /** f(0) || ... || f(n - 1). */
  function Concat(f: BlockAt, n: nat): Octets {
    if n == 0 then [] else Concat(f, n - 1) + f(n - 1)
  }

  function CeilDiv(n: nat, d: nat): nat
    requires d > 0
  {
    (n + d - 1) / d
  }

  function Min(a: nat, b: nat): nat {
    if a <= b then a else b
  }

  lemma {:induction false} ConcatLength(f: BlockAt, size: nat, n: nat)
    requires BlocksOk(f, size)
    ensures |Concat(f, n)| == n * size
  {
    if n > 0 {
      ConcatLength(f, size, n - 1);
    }
  }

  lemma CeilDivBounds(n: nat, d: nat)
    requires d > 0
    ensures CeilDiv(n, d) * d >= n
    ensures n > 0 ==> (CeilDiv(n, d) - 1) * d < n
  {
    var k := CeilDiv(n, d);
    assert n + d - 1 == d * k + (n + d - 1) % d;
    assert (k - 1) * d == k * d - d;
  }

  /** The first `length` octets of the blocks. */
  ghost function Cut(f: BlockAt, size: nat, length: nat): (s: Octets)
    requires BlocksOk(f, size)
    ensures |s| == length
  {
    CeilDivBounds(length, size);
    ConcatLength(f, size, CeilDiv(length, size));
    Concat(f, CeilDiv(length, size))[..length]
  }

  /** Octet j of the output is octet j mod size of block j / size. */
  lemma {:induction false} ConcatAt(f: BlockAt, size: nat, n: nat, j: nat)
    requires BlocksOk(f, size) && |Concat(f, n)| > j
    ensures j / size >= 0 && 0 <= j % size < size == |f(j / size)|
    ensures Concat(f, n)[j] == f(j / size)[j % size]
  {
    ConcatLength(f, size, n - 1);
    if j < (n - 1) * size {
      ConcatAt(f, size, n - 1, j);
    } else {
      Modular.RemainderUnique(j, n - 1, j - (n - 1) * size, size);
    }
  }

  lemma CutAt(f: BlockAt, size: nat, length: nat, j: nat)
    requires BlocksOk(f, size) && j < length
    ensures j / size >= 0 && 0 <= j % size < size == |f(j / size)|
    ensures Cut(f, size, length)[j] == f(j / size)[j % size]
  {
    CeilDivBounds(length, size);
    ConcatLength(f, size, CeilDiv(length, size));
    ConcatAt(f, size, CeilDiv(length, size), j);
  }

  /** The strings of a sequence, one behind the other. */
  function Join(blocks: seq<Octets>): Octets {
    if blocks == [] then [] else Join(blocks[..|blocks| - 1]) + blocks[|blocks| - 1]
  }

  lemma {:induction false} ConcatIsJoin(f: BlockAt, blocks: seq<Octets>)
    requires forall i :: 0 <= i < |blocks| ==> blocks[i] == f(i)
    ensures Concat(f, |blocks|) == Join(blocks)
  {
    if blocks != [] {
      ConcatIsJoin(f, blocks[..|blocks| - 1]);
    }
  }

  /** The output is the beginning of its blocks put together. */
  lemma CutIsJoin(f: BlockAt, size: nat, length: nat, blocks: seq<Octets>)
    requires BlocksOk(f, size) && |blocks| == CeilDiv(length, size)
    requires forall i :: 0 <= i < |blocks| ==> blocks[i] == f(i)
    ensures length <= |Join(blocks)| && Cut(f, size, length) == Join(blocks)[..length]
  {
    ConcatIsJoin(f, blocks);
    CeilDivBounds(length, size);
    ConcatLength(f, size, |blocks|);
  }

  /** A block index of an octet within `length` is within the blocks. */
  lemma BlockIndex(j: nat, length: nat, size: nat)
    requires size > 0 && j < length
    ensures 0 <= j / size < CeilDiv(length, size)
  {
    CeilDivBounds(length, size);
    var (q, n) := (j / size, CeilDiv(length, size));
    assert j == size * q + j % size;
    if q >= n {
      Modular.MulMonotone(size, n, q);
    }
  }

  lemma {:induction false} ConcatPrefix(f: BlockAt, m: nat, n: nat)
    requires m <= n
    ensures Concat(f, m) <= Concat(f, n)
  {
    if m < n {
      ConcatPrefix(f, m, n - 1);
    }
  }

  /** A shorter output is a prefix of a longer one. */
  lemma CutIsPrefixMonotone(f: BlockAt, size: nat, m: nat, n: nat)
    requires BlocksOk(f, size) && m <= n
    ensures Cut(f, size, m) <= Cut(f, size, n)
  {
    CeilDivMonotone(m, n, size);
    ConcatPrefix(f, CeilDiv(m, size), CeilDiv(n, size));
    CeilDivBounds(m, size);
    ConcatLength(f, size, CeilDiv(m, size));
    var (short, long) := (Concat(f, CeilDiv(m, size)), Concat(f, CeilDiv(n, size)));
    assert short == long[..|short|];
    assert short[..m] == long[..m];
  }

  lemma CeilDivMonotone(m: nat, n: nat, d: nat)
    requires d > 0 && m <= n
    ensures CeilDiv(m, d) <= CeilDiv(n, d)
  {
    var (a, b) := (CeilDiv(m, d), CeilDiv(n, d));
    CeilDivBounds(m, d);
    CeilDivBounds(n, d);
    if a > b {
      Modular.MulMonotone(d, b, a - 1);
    }
  }

  /** What a loop has after i blocks: all of them, up to the length wanted. */
  ghost predicate Filled(output: Octets, f: BlockAt, size: nat, length: nat, i: nat)
    requires BlocksOk(f, size)
  {
    ConcatLength(f, size, i);
    output == Concat(f, i)[..Min(i * size, length)]
  }

  lemma NotYetFilled(i: nat, length: nat, size: nat)
    requires size > 0 && i < CeilDiv(length, size)
    ensures i * size < length && (i + 1) * size == i * size + size
  {
    CeilDivBounds(length, size);
    Modular.MulMonotone(size, i, CeilDiv(length, size) - 1);
  }

  /** Appending as much of the next block as is still wanted. */
  lemma FilledNext(output: Octets, f: BlockAt, size: nat, length: nat, i: nat)
    requires BlocksOk(f, size) && Filled(output, f, size, length, i)
    requires i < CeilDiv(length, size)
    ensures |output| <= length
    ensures Filled(output + f(i)[..Min(length - |output|, size)], f, size, length, i + 1)
  {
    NotYetFilled(i, length, size);
    ConcatLength(f, size, i);
    AppendBlock(output, Concat(f, i), f(i), length);
  }

  lemma AppendBlock(output: Octets, whole: Octets, block: Octets, length: nat)
    requires output == whole && |whole| <= length
    ensures output + block[..Min(length - |output|, |block|)]
            == (whole + block)[..Min(|whole| + |block|, length)]
  {
  }

  lemma FilledIsCut(output: Octets, f: BlockAt, size: nat, length: nat)
    requires BlocksOk(f, size) && Filled(output, f, size, length, CeilDiv(length, size))
    ensures output == Cut(f, size, length)
  {
    CeilDivBounds(length, size);
  }

  /** Appends as much of the next block as is still wanted. */
  method AppendWanted(output: Octets, block: Octets, length: nat, ghost f: BlockAt, ghost i: nat)
    returns (longer: Octets)
    requires BlocksOk(f, |block|) && block == f(i)
    requires Filled(output, f, |block|, length, i) && i < CeilDiv(length, |block|)
    ensures Filled(longer, f, |block|, length, i + 1)
  {
    FilledNext(output, f, |block|, length, i);
    var remaining := length - |output|;
    longer := output + block[..Min(remaining, |block|)];
  }
}
