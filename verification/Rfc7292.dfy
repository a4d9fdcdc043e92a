/**
 Appendix B of RFC 7292 as a relation between a password, a salt and the key they
 give: what is hashed, octet by octet, and how one block leads to the next.
 Pkcs12Kdf proves its loops against it.
 */
module Rfc7292 {
  import opened Bytes
  import opened Blocks

  newtype CodeUnit = u: int | 0 <= u < 0x1_0000

  /** Section B.1: each UTF-16 unit's high octet before its low one, then two
      zeros. */
  predicate IsBmp(o: Octets, units: seq<CodeUnit>) {
    && |o| == 2 * |units| + 2
    && (forall i :: 0 <= i < |units| ==>
          o[2 * i] as int == units[i] as int / 256 && o[2 * i + 1] as int == units[i] as int % 256)
    && o[2 * |units|] == 0 && o[2 * |units| + 1] == 0
  }

  /** `s` is `data` over and over, up to the next multiple of v octets. */
  predicate Repeats(s: Octets, data: Octets, v: nat)
    requires v > 0
  {
    && |s| % v == 0 && |data| <= |s| < |data| + v
    && (data != [] ==> forall i :: 0 <= i < |s| ==> s[i] == data[i % |data|])
  }

  /** D: v octets of the identifier. */
  function Diversifier(id: Byte, v: nat): (d: Octets)
    ensures |d| == v && forall i :: 0 <= i < v ==> d[i] == id
  {
    seq(v, _ => id)
  }

  /** I_0: the salt, then the password, each repeated to whole blocks. */
  ghost predicate IsFirstInput(input: Octets, units: seq<CodeUnit>, salt: Octets, v: nat)
    requires v > 0
  {
    exists s: Octets, p: Octets, bmp: Octets ::
      input == s + p && Repeats(s, salt, v) && Repeats(p, bmp, v) && IsBmp(bmp, units)
  }

  /** The digest of m, digested again and again, `iterations` digests in all. */
  ghost predicate IsIterated(a: Octets, digest: Digest, m: Octets, iterations: nat) {
    exists h: seq<Octets> :: IsChain(h, digest, m) && |h| == iterations > 0 && a == h[iterations - 1]
  }

  ghost predicate IsChain(h: seq<Octets>, digest: Digest, m: Octets) {
    && (h != [] ==> h[0] == digest(m))
    && (forall i :: 0 < i < |h| ==> LinkAt(h, digest, i))
  }

  ghost predicate LinkAt(h: seq<Octets>, digest: Digest, i: nat)
    requires 0 < i < |h|
  {
    h[i] == digest(h[i - 1])
  }

  /** The v octets from lo on encode those of the input before, plus B, plus 1. */
  predicate ChunkIsNext(before: Octets, after: Octets, b: Octets, v: nat, lo: nat)
    requires lo + v <= |before| == |after|
  {
    BeNat(after[lo..lo + v]) == (BeNat(before[lo..lo + v]) + BeNat(b) + 1) % Pow256(v)
  }

  predicate IsNextInput(before: Octets, after: Octets, b: Octets, v: nat)
    requires v > 0
  {
    && |after| == |before|
    && (forall lo: nat :: lo + v <= |before| && lo % v == 0 ==> ChunkIsNext(before, after, b, v, lo))
  }

  /** Step 6: B is the block repeated to v octets. */
  ghost predicate IsAdvanced(before: Octets, after: Octets, a: Octets, v: nat)
    requires v > 0
  {
    exists b: Octets :: |b| == v && Repeats(b, a, v) && IsNextInput(before, after, b, v)
  }

  /** Block i is made from D and input i. */
  ghost predicate BlockOf(digest: Digest, d: Octets, iterations: nat,
                          inputs: seq<Octets>, blocks: seq<Octets>, i: nat)
    requires i < |inputs| == |blocks|
  {
    IsIterated(blocks[i], digest, d + inputs[i], iterations)
  }

  /** Input i and block i make input i + 1. */
  ghost predicate StepAt(inputs: seq<Octets>, blocks: seq<Octets>, v: nat, i: nat)
    requires v > 0 && i + 1 < |inputs| == |blocks|
  {
    IsAdvanced(inputs[i], inputs[i + 1], blocks[i], v)
  }

  /** Section B.2, from the inputs I_0, I_1, ... and the blocks A_1, A_2, ... to the
      key, which is their beginning. */
  ghost predicate IsDerived(key: Octets, digest: Digest, id: Byte, units: seq<CodeUnit>, salt: Octets,
                            iterations: nat, v: nat, inputs: seq<Octets>, blocks: seq<Octets>)
    requires v > 0
  {
    && |inputs| == |blocks| > 0
    && IsFirstInput(inputs[0], units, salt, v)
    && (forall i :: 0 <= i < |blocks| ==> BlockOf(digest, Diversifier(id, v), iterations, inputs, blocks, i))
    && (forall i :: 0 <= i < |blocks| - 1 ==> StepAt(inputs, blocks, v, i))
    && key <= Join(blocks)
  }

  /** One iteration, and no more octets than a digest has: the key is the beginning
      of the digest of D, the salt and the password. */
  lemma {:induction false} OneBlockKey(key: Octets, digest: Digest, id: Byte, units: seq<CodeUnit>, salt: Octets,
                                       u: nat, v: nat, inputs: seq<Octets>, blocks: seq<Octets>)
    returns (s: Octets, p: Octets, bmp: Octets)
    requires v > 0 && DigestOk(digest, u) && |key| <= u
    requires IsDerived(key, digest, id, units, salt, 1, v, inputs, blocks)
    ensures Repeats(s, salt, v) && IsBmp(bmp, units) && Repeats(p, bmp, v)
    ensures key == digest(Diversifier(id, v) + s + p)[..|key|]
  {
    s, p, bmp :| inputs[0] == s + p && Repeats(s, salt, v) && Repeats(p, bmp, v) && IsBmp(bmp, units);
    var d := Diversifier(id, v);
    assert d + (s + p) == d + s + p;
    assert BlockOf(digest, d, 1, inputs, blocks, 0);
    assert blocks[0] == digest(d + s + p);
    FirstOfJoin(blocks);
    assert key == Join(blocks)[..|key|];
  }

  lemma {:induction false} FirstOfJoin(blocks: seq<Octets>)
    requires blocks != []
    ensures blocks[0] <= Join(blocks)
  {
    if |blocks| == 1 {
      assert Join(blocks[..0]) == [];
    } else {
      FirstOfJoin(blocks[..|blocks| - 1]);
    }
  }
}
