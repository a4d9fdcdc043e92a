/**
 3DES key wrap (src/software/keywrap.rs): two CBC passes around a byte reversal,
 section 3 of RFC 3217.
 */
module KeyWrap {
  import opened Wrappers
  import opened Bytes
  import opened Bits
  import opened Blocks
  import opened Cbc

  const FIXED_IV: Octets := [0x4a, 0xdd, 0xa2, 0x2c, 0x79, 0xe8, 0x21, 0x05]

  function Reversed(s: Octets): (r: Octets)
    ensures |r| == |s|
  {
    if s == [] then [] else Reversed(s[1..]) + [s[0]]
  }

  lemma {:induction false} ReversedAt(s: Octets, k: nat)
    requires k < |s|
    ensures Reversed(s)[k] == s[|s| - 1 - k]
  {
    if k < |s| - 1 {
      ReversedAt(s[1..], k);
    }
  }

  lemma ReversedTwice(s: Octets)
    ensures Reversed(Reversed(s)) == s
  {
    forall k | 0 <= k < |s|
      ensures Reversed(Reversed(s))[k] == s[k]
    {
      ReversedAt(Reversed(s), k);
      ReversedAt(s, |s| - 1 - k);
    }
  }

  /** The CMS key checksum: the first eight octets of SHA-1. */
  function Checksum(sha1: Digest, key: Octets): (s: Octets)
    requires DigestOk(sha1, 20)
    ensures |s| == 8
    ensures |sha1(key)| == 20 && forall i :: 0 <= i < 8 ==> s[i] == sha1(key)[i]
  {
    assert |sha1(key)| == 20;
    sha1(key)[..8]
  }

  ghost predicate Request(c: Cipher, sha1: Digest, iv: Octets, key: Octets) {
    CipherOk(c, 8) && DigestOk(sha1, 20) && |iv| == 8 && WholeChunks(|key|, 8) && WholeChunks(|key| + 8, 8)
  }

  /** The two passes: CBC under iv, the byte reversal, CBC under the outer IV. */
  function Sealed(c: Cipher, outer: Octets, iv: Octets, wkcks: Octets): (w: Octets)
    requires CipherOk(c, 8) && |outer| == 8 && |iv| == 8 && WholeChunks(|wkcks|, 8)
    ensures |w| == |wkcks| + 8 && WholeChunks(|w|, 8)
  {
    Encrypted(c, 8, outer, Reversed(iv + Encrypted(c, 8, iv, wkcks)))
  }

  /** The IV and the data the two passes hid. */
  function Unsealed(c: Cipher, outer: Octets, w: Octets): (r: (Octets, Octets))
    requires CipherOk(c, 8) && |outer| == 8 && |w| >= 8 && WholeChunks(|w|, 8)
    ensures |r.0| == 8 && |r.1| == |w| - 8 && WholeChunks(|r.1|, 8)
  {
    var temp2 := Reversed(Decrypted(c, 8, outer, w));
    (temp2[..8], Decrypted(c, 8, temp2[..8], temp2[8..]))
  }

  /** The outer pass and the reversal, undone. */
  lemma OuterPass(c: Cipher, outer: Octets, t: Octets)
    requires CipherOk(c, 8) && |outer| == 8 && WholeChunks(|t|, 8)
    ensures Reversed(Decrypted(c, 8, outer, Encrypted(c, 8, outer, Reversed(t)))) == t
    ensures Encrypted(c, 8, outer, Reversed(Reversed(Decrypted(c, 8, outer, t)))) == t
  {
    DecryptedEncrypted(c, 8, outer, Reversed(t));
    ReversedTwice(t);
    ReversedTwice(Decrypted(c, 8, outer, t));
    EncryptedDecrypted(c, 8, outer, t);
  }

  lemma {:induction false} UnsealedSealed(c: Cipher, outer: Octets, iv: Octets, wkcks: Octets)
    requires CipherOk(c, 8) && |outer| == 8 && |iv| == 8 && WholeChunks(|wkcks|, 8)
    ensures Unsealed(c, outer, Sealed(c, outer, iv, wkcks)) == (iv, wkcks)
  {
    var temp1 := Encrypted(c, 8, iv, wkcks);
    var temp2 := iv + temp1;
    OuterPass(c, outer, temp2);
    assert temp2[..8] == iv && temp2[8..] == temp1;
    DecryptedEncrypted(c, 8, iv, wkcks);
  }

  lemma SealedSplit(c: Cipher, outer: Octets, t: Octets)
    requires CipherOk(c, 8) && |outer| == 8 && |t| >= 8 && WholeChunks(|t|, 8)
    ensures Sealed(c, outer, t[..8], Decrypted(c, 8, t[..8], t[8..])) == Encrypted(c, 8, outer, Reversed(t))
  {
    EncryptedDecrypted(c, 8, t[..8], t[8..]);
    assert t == t[..8] + t[8..];
  }

  lemma {:induction false} SealedUnsealed(c: Cipher, outer: Octets, w: Octets)
    requires CipherOk(c, 8) && |outer| == 8 && |w| >= 8 && WholeChunks(|w|, 8)
    ensures var (iv, wkcks) := Unsealed(c, outer, w); Sealed(c, outer, iv, wkcks) == w
  {
    SealedSplit(c, outer, Reversed(Decrypted(c, 8, outer, w)));
    OuterPass(c, outer, w);
  }

  function Wrapped(c: Cipher, sha1: Digest, iv: Octets, key: Octets): (s: Octets)
    requires Request(c, sha1, iv, key)
    ensures |s| == |key| + 16
  {
    Sealed(c, FIXED_IV, iv, key + Checksum(sha1, key))
  }

  /** The steps of section 3.1 of RFC 3217: TEMP1, its octets behind the IV in
      reverse order, and the second pass under the constant IV. */
  lemma {:induction false} WrappedSteps(c: Cipher, sha1: Digest, iv: Octets, key: Octets)
    returns (temp1: Octets, temp3: Octets)
    requires Request(c, sha1, iv, key)
    ensures |sha1(key)| == 20 && WholeChunks(|key + sha1(key)[..8]|, 8)
    ensures temp1 == Encrypted(c, 8, iv, key + sha1(key)[..8])
    ensures |temp3| == 8 + |temp1| && WholeChunks(|temp3|, 8)
    ensures forall i :: 0 <= i < |temp3| ==> temp3[i] == (iv + temp1)[|temp3| - 1 - i]
    ensures Wrapped(c, sha1, iv, key) ==
            Encrypted(c, 8, [0x4a, 0xdd, 0xa2, 0x2c, 0x79, 0xe8, 0x21, 0x05], temp3)
  {
    assert Checksum(sha1, key) == sha1(key)[..8];
    temp1 := Encrypted(c, 8, iv, key + Checksum(sha1, key));
    temp3 := Reversed(iv + temp1);
    forall i | 0 <= i < |temp3|
      ensures temp3[i] == (iv + temp1)[|temp3| - 1 - i]
    {
      ReversedAt(iv + temp1, i);
    }
  }

  /** w is a wrap of key under some IV. */
  ghost predicate Wraps(c: Cipher, sha1: Digest, w: Octets, key: Octets) {
    exists iv: Octets :: Request(c, sha1, iv, key) && w == Wrapped(c, sha1, iv, key)
  }

  lemma WrapOpens(c: Cipher, sha1: Digest, w: Octets, key: Octets)
    requires Wraps(c, sha1, w, key)
    ensures |w| >= 16 && WholeChunks(|w|, 8) && Unsealed(c, FIXED_IV, w).1 == key + Checksum(sha1, key)
  {
    var iv: Octets :| Request(c, sha1, iv, key) && w == Wrapped(c, sha1, iv, key);
    UnsealedSealed(c, FIXED_IV, iv, key + Checksum(sha1, key));
  }

  lemma OpenedIsWrap(c: Cipher, sha1: Digest, w: Octets, iv: Octets, key: Octets)
    requires Request(c, sha1, iv, key)
    requires |w| >= 16 && WholeChunks(|w|, 8)
    requires Unsealed(c, FIXED_IV, w) == (iv, key + Checksum(sha1, key))
    ensures w == Wrapped(c, sha1, iv, key)
  {
    SealedUnsealed(c, FIXED_IV, w);
  }

  /** A wrap is what the two passes open to a key and its checksum. */
  lemma {:induction false} WrapsIff(c: Cipher, sha1: Digest, w: Octets, key: Octets)
    requires CipherOk(c, 8) && DigestOk(sha1, 20)
    ensures Wraps(c, sha1, w, key) <==>
            && |w| >= 16
            && WholeChunks(|w|, 8)
            && Unsealed(c, FIXED_IV, w).1 == key + Checksum(sha1, key)
  {
    if Wraps(c, sha1, w, key) {
      WrapOpens(c, sha1, w, key);
    } else if |w| >= 16 && WholeChunks(|w|, 8) && Unsealed(c, FIXED_IV, w).1 == key + Checksum(sha1, key) {
      var iv := Unsealed(c, FIXED_IV, w).0;
      assert |key| + 16 == |w|;
      assert Request(c, sha1, iv, key);
      OpenedIsWrap(c, sha1, w, iv, key);
    }
  }

  /** A wrap determines the IV and the key. */
  lemma WrappedInjective(c: Cipher, sha1: Digest, iv: Octets, key: Octets, iv': Octets, key': Octets)
    requires Request(c, sha1, iv, key) && Request(c, sha1, iv', key')
    requires Wrapped(c, sha1, iv, key) == Wrapped(c, sha1, iv', key')
    ensures iv == iv' && key == key'
  {
    var (k, k') := (key + Checksum(sha1, key), key' + Checksum(sha1, key'));
    UnsealedSealed(c, FIXED_IV, iv, k);
    UnsealedSealed(c, FIXED_IV, iv', k');
    assert key == k[..|key|] && key' == k'[..|key'|];
  }

  /** `tdes_cbc_encrypt`: no padding, so only whole blocks. */
  method TdesCbcEncrypt(c: Cipher, iv: Octets, data: Octets) returns (r: Result<Octets>)
    requires CipherOk(c, 8) && |iv| == 8
    ensures r.Ok? <==> WholeChunks(|data|, 8)
    ensures r.Ok? ==> r.value == Encrypted(c, 8, iv, data)
    ensures r.Err? ==> r.error == Crypto
  {
    WholeChunksIff(|data|, 8);
    if |data| % 8 != 0 {
      return Err(Crypto);
    }
    return Ok(Encrypted(c, 8, iv, data));
  }

  /** `tdes_cbc_decrypt`: the NoPadding mode itself refuses a partial block. */
  method TdesCbcDecrypt(c: Cipher, iv: Octets, data: Octets) returns (r: Result<Octets>)
    requires CipherOk(c, 8) && |iv| == 8
    ensures r.Ok? <==> WholeChunks(|data|, 8)
    ensures r.Ok? ==> r.value == Decrypted(c, 8, iv, data)
    ensures r.Err? ==> r.error == Crypto
  {
    WholeChunksIff(|data|, 8);
    if |data| % 8 != 0 {
      return Err(Crypto);
    }
    return Ok(Decrypted(c, 8, iv, data));
  }

  method TdesKwWrap(tdes: KeyedCipher, sha1: Digest, kek: Octets, key: Octets, iv: Octets)
    returns (r: Result<Octets>)
    requires KeyedOk(tdes, 24, 8) && DigestOk(sha1, 20) && |iv| == 8
    ensures r.Ok? <==> |kek| == 24 && |key| % 8 == 0
    ensures r.Ok? ==> Request(tdes(kek), sha1, iv, key) && r.value == Wrapped(tdes(kek), sha1, iv, key)
    ensures r.Err? ==> r.error == Crypto
  {
    if |kek| != 24 {
      return Err(Crypto);
    }
    var c := tdes(kek);
    WholeChunksIff(|key|, 8);
    WholeChunksIff(|key| + 8, 8);
    assert |sha1(key)| == 20;
    var checksum := sha1(key)[..8];
    var wkcks := key + checksum;
    var temp1 := TdesCbcEncrypt(c, iv, wkcks);
    if temp1.Err? {
      return temp1;
    }
    var temp2 := Reversed(iv + temp1.value);
    r := TdesCbcEncrypt(c, FIXED_IV, temp2);
  }

  /** Accepts exactly the wraps, and returns the one key each of them holds. */
  method TdesKwUnwrap(tdes: KeyedCipher, sha1: Digest, kek: Octets, wrapped: Octets) returns (r: Result<Octets>)
    requires KeyedOk(tdes, 24, 8) && DigestOk(sha1, 20)
    ensures r.Ok? ==> |kek| == 24 && Wraps(tdes(kek), sha1, wrapped, r.value)
    ensures r.Err? ==> r.error == Crypto
    ensures |kek| == 24 ==> forall key :: Wraps(tdes(kek), sha1, wrapped, key) ==> r == Ok(key)
  {
    if |kek| != 24 {
      return Err(Crypto);
    }
    var c := tdes(kek);
    forall key
      ensures Wraps(c, sha1, wrapped, key) <==>
              |wrapped| >= 16 && WholeChunks(|wrapped|, 8)
              && Unsealed(c, FIXED_IV, wrapped).1 == key + Checksum(sha1, key)
    {
      WrapsIff(c, sha1, wrapped, key);
    }
    if |wrapped| < 16 {
      return Err(Crypto);
    }
    var temp1 := TdesCbcDecrypt(c, FIXED_IV, wrapped);
    if temp1.Err? {
      return temp1;
    }
    var temp2 := Reversed(temp1.value);
    var (iv, encData) := (temp2[..8], temp2[8..]);
    var inner := TdesCbcDecrypt(c, iv, encData);
    if inner.Err? {
      return inner;
    }
    var wkcks := inner.value;
    assert |wkcks| >= 8 && Unsealed(c, FIXED_IV, wrapped) == (iv, wkcks);
    r := CheckKey(sha1, wkcks);
  }

  /** Splits off the checksum and compares it in constant time. */
  method CheckKey(sha1: Digest, wkcks: Octets) returns (r: Result<Octets>)
    requires DigestOk(sha1, 20) && |wkcks| >= 8
    ensures r.Ok? ==> wkcks == r.value + Checksum(sha1, r.value)
    ensures forall key :: wkcks == key + Checksum(sha1, key) ==> r == Ok(key)
    ensures r.Err? ==> r.error == Crypto
  {
    var key := wkcks[..|wkcks| - 8];
    var checksum := wkcks[|wkcks| - 8..];
    assert wkcks == key + checksum;
    forall k | wkcks == k + Checksum(sha1, k)
      ensures k == key && checksum == Checksum(sha1, key)
    {
      assert k == wkcks[..|k|];
    }
    assert |sha1(key)| == 20;
    if !ConstantTimeEq(checksum, sha1(key)[..8]) {
      return Err(Crypto);
    }
    return Ok(key);
  }
}
