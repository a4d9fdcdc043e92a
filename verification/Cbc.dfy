/**
 Cipher block chaining over an abstract block cipher, and the constructions the
 crate layers on it: 3DES key wrap and padded AES-CBC.
 */
module Cbc {
  import opened Bytes
  import opened Bits
  import opened Blocks

  /** A block cipher under one key. */
  datatype Cipher = Cipher(enc: Octets -> Octets, dec: Octets -> Octets)

  predicate IsBlock(b: Octets, size: nat) {
    |b| == size
  }

  /** On blocks of this size enc is a permutation and dec its inverse. */
  ghost predicate CipherOk(c: Cipher, size: nat) {
    && size > 0
    && forall b: Octets {:trigger IsBlock(b, size)} | IsBlock(b, size) ::
         && |c.enc(b)| == size && c.dec(c.enc(b)) == b
         && |c.dec(b)| == size && c.enc(c.dec(b)) == b
  }

  /** A block cipher: what each key makes of it. */
  type KeyedCipher = Octets -> Cipher

  ghost predicate KeyedOk(k: KeyedCipher, keyLen: nat, size: nat) {
    forall key: Octets :: |key| == keyLen ==> CipherOk(k(key), size)
  }

  function Enc(c: Cipher, size: nat, b: Octets): (y: Octets)
    requires CipherOk(c, size) && |b| == size
    ensures |y| == size
  {
    assert IsBlock(b, size);
    c.enc(b)
  }

  function Dec(c: Cipher, size: nat, b: Octets): (x: Octets)
    requires CipherOk(c, size) && |b| == size
    ensures |x| == size
  {
    assert IsBlock(b, size);
    c.dec(b)
  }

  lemma DecEnc(c: Cipher, size: nat, b: Octets)
    requires CipherOk(c, size) && |b| == size
    ensures Dec(c, size, Enc(c, size, b)) == b && Enc(c, size, Dec(c, size, b)) == b
  {
    assert IsBlock(b, size);
  }

  function Encrypted(c: Cipher, size: nat, iv: Octets, data: Octets): (s: Octets)
    requires CipherOk(c, size) && |iv| == size && WholeChunks(|data|, size)
    ensures |s| == |data|
    decreases |data|
  {
    if data == [] then []
    else
      var block := Enc(c, size, XorOctets(data[..size], iv));
      block + Encrypted(c, size, block, data[size..])
  }

  function Decrypted(c: Cipher, size: nat, iv: Octets, data: Octets): (s: Octets)
    requires CipherOk(c, size) && |iv| == size && WholeChunks(|data|, size)
    ensures |s| == |data|
    decreases |data|
  {
    if data == [] then []
    else
      XorOctets(Dec(c, size, data[..size]), iv) + Decrypted(c, size, data[..size], data[size..])
  }

  lemma EncryptedStep(c: Cipher, size: nat, iv: Octets, head: Octets, tail: Octets)
    requires CipherOk(c, size) && |iv| == |head| == size && WholeChunks(|tail|, size)
    ensures WholeChunks(|head + tail|, size)
    ensures var block := Enc(c, size, XorOctets(head, iv));
            Encrypted(c, size, iv, head + tail) == block + Encrypted(c, size, block, tail)
  {
    var data := head + tail;
    assert data[..size] == head && data[size..] == tail;
  }

  lemma DecryptedStep(c: Cipher, size: nat, iv: Octets, block: Octets, tail: Octets)
    requires CipherOk(c, size) && |iv| == |block| == size && WholeChunks(|tail|, size)
    ensures WholeChunks(|block + tail|, size)
    ensures Decrypted(c, size, iv, block + tail)
            == XorOctets(Dec(c, size, block), iv) + Decrypted(c, size, block, tail)
  {
    var data := block + tail;
    assert data[..size] == block && data[size..] == tail;
  }

  lemma DecryptedEncryptedStep(c: Cipher, size: nat, iv: Octets, head: Octets, tail: Octets)
    requires CipherOk(c, size) && |iv| == |head| == size && WholeChunks(|tail|, size)
    requires var block := Enc(c, size, XorOctets(head, iv));
             Decrypted(c, size, block, Encrypted(c, size, block, tail)) == tail
    ensures WholeChunks(|head + tail|, size)
    ensures Decrypted(c, size, iv, Encrypted(c, size, iv, head + tail)) == head + tail
  {
    var block := Enc(c, size, XorOctets(head, iv));
    EncryptedStep(c, size, iv, head, tail);
    DecryptedStep(c, size, iv, block, Encrypted(c, size, block, tail));
    DecEnc(c, size, XorOctets(head, iv));
    XorOctetsTwice(head, iv);
  }

  lemma {:induction false} DecryptedEncrypted(c: Cipher, size: nat, iv: Octets, data: Octets)
    requires CipherOk(c, size) && |iv| == size && WholeChunks(|data|, size)
    ensures Decrypted(c, size, iv, Encrypted(c, size, iv, data)) == data
    decreases |data|
  {
    if data != [] {
      var (head, tail) := (data[..size], data[size..]);
      DecryptedEncrypted(c, size, Enc(c, size, XorOctets(head, iv)), tail);
      DecryptedEncryptedStep(c, size, iv, head, tail);
      assert data == head + tail;
    }
  }

  lemma EncryptedDecryptedStep(c: Cipher, size: nat, iv: Octets, block: Octets, tail: Octets)
    requires CipherOk(c, size) && |iv| == |block| == size && WholeChunks(|tail|, size)
    requires Encrypted(c, size, block, Decrypted(c, size, block, tail)) == tail
    ensures WholeChunks(|block + tail|, size)
    ensures Encrypted(c, size, iv, Decrypted(c, size, iv, block + tail)) == block + tail
  {
    var head := XorOctets(Dec(c, size, block), iv);
    DecryptedStep(c, size, iv, block, tail);
    EncryptedStep(c, size, iv, head, Decrypted(c, size, block, tail));
    DecEnc(c, size, block);
    XorOctetsTwice(Dec(c, size, block), iv);
  }

  lemma {:induction false} EncryptedDecrypted(c: Cipher, size: nat, iv: Octets, data: Octets)
    requires CipherOk(c, size) && |iv| == size && WholeChunks(|data|, size)
    ensures Encrypted(c, size, iv, Decrypted(c, size, iv, data)) == data
    decreases |data|
  {
    if data != [] {
      var (block, tail) := (data[..size], data[size..]);
      EncryptedDecrypted(c, size, block, tail);
      EncryptedDecryptedStep(c, size, iv, block, tail);
      assert data == block + tail;
    }
  }

  /** Cipher block i is the cipher of data block i xored with the cipher block
      before it, or with the IV. */
  ghost predicate ChainedAt(c: Cipher, size: nat, iv: Octets, ps: seq<Octets>, cs: seq<Octets>, i: nat)
    requires |iv| == size && i < |ps| == |cs|
  {
    && |ps[i]| == |cs[i]| == size
    && var before := if i == 0 then iv else cs[i - 1];
       |before| == size && cs[i] == c.enc(XorOctets(ps[i], before))
  }

  ghost predicate Chained(c: Cipher, size: nat, iv: Octets, ps: seq<Octets>, cs: seq<Octets>)
    requires |iv| == size
  {
    |ps| == |cs| && forall i :: 0 <= i < |ps| ==> ChainedAt(c, size, iv, ps, cs, i)
  }

  lemma ChainedBefore(c: Cipher, size: nat, iv: Octets, p: Octets, ps: seq<Octets>, cs: seq<Octets>)
    requires |iv| == |p| == size && CipherOk(c, size)
    requires var block := Enc(c, size, XorOctets(p, iv)); Chained(c, size, block, ps, cs)
    ensures Chained(c, size, iv, [p] + ps, [Enc(c, size, XorOctets(p, iv))] + cs)
  {
    var block := Enc(c, size, XorOctets(p, iv));
    forall i | 0 <= i < |ps| + 1
      ensures ChainedAt(c, size, iv, [p] + ps, [block] + cs, i)
    {
      if i > 0 {
        assert ChainedAt(c, size, block, ps, cs, i - 1);
      }
    }
  }

  lemma {:induction false} JoinBefore(b: Octets, blocks: seq<Octets>)
    ensures Join([b] + blocks) == b + Join(blocks)
  {
    var all := [b] + blocks;
    if blocks == [] {
      assert Join(all[..0]) == [];
    } else {
      assert all[..|all| - 1] == [b] + blocks[..|blocks| - 1];
      JoinBefore(b, blocks[..|blocks| - 1]);
    }
  }

  /** What CBC is: the blocks of the data and of the ciphertext, chained. */
  lemma {:induction false} EncryptedIsChained(c: Cipher, size: nat, iv: Octets, data: Octets)
    returns (ps: seq<Octets>, cs: seq<Octets>)
    requires CipherOk(c, size) && |iv| == size && WholeChunks(|data|, size)
    ensures data == Join(ps) && Encrypted(c, size, iv, data) == Join(cs)
    ensures Chained(c, size, iv, ps, cs)
    decreases |data|
  {
    if data == [] {
      ps, cs := [], [];
    } else {
      var (head, tail) := (data[..size], data[size..]);
      var block := Enc(c, size, XorOctets(head, iv));
      var ps', cs' := EncryptedIsChained(c, size, block, tail);
      ps, cs := [head] + ps', [block] + cs';
      JoinBefore(head, ps');
      JoinBefore(block, cs');
      ChainedBefore(c, size, iv, head, ps', cs');
    }
  }
}
