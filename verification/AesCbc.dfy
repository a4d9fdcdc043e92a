/**
 Padded AES-CBC in both providers (src/hazmat/aes_cbc.rs, src/alternate/hazmat.rs
 and the padding of src/software/cipher.rs) over one CBC model.
 */
module AesCbc {
  import opened Wrappers
  import opened Bytes
  import opened Blocks
  import opened Cbc
  import Modular

  datatype AesKeySize = Aes128 | Aes192 | Aes256

  function KeyLen(size: AesKeySize): nat {
    match size
    case Aes128 => 16
    case Aes192 => 24
    case Aes256 => 32
  }

  // ---- Padding ------------------------------------------------------------

  /** Up to one block of filler whose last octet counts it (ISO 10126). */
  predicate IsFiller(filler: Octets, block: nat) {
    1 <= |filler| <= block && filler[|filler| - 1] as nat == |filler|
  }

  ghost predicate IsPadded(data: Octets, plain: Octets, block: nat) {
    exists filler: Octets :: IsFiller(filler, block) && data == plain + filler
  }

  lemma PaddedUnique(data: Octets, plain: Octets, plain': Octets, block: nat)
    requires IsPadded(data, plain, block) && IsPadded(data, plain', block)
    ensures plain == plain'
  {
    var f: Octets :| IsFiller(f, block) && data == plain + f;
    var f': Octets :| IsFiller(f', block) && data == plain' + f';
    assert data[|data| - 1] == f[|f| - 1] == f'[|f'| - 1];
    assert plain == data[..|data| - |f|] && plain' == data[..|data| - |f'|];
  }

  /** The filler of PKCS#7: every octet counts it. */
  function Filler(n: nat): (filler: Octets)
    requires n < 256
    ensures |filler| == n && forall i :: 0 <= i < n ==> filler[i] as nat == n
  {
    seq(n, _ => n as Byte)
  }

  /** `pkcs7_pad` and `xmlenc_pad`: the same octets. */
  method Pad(data: Octets, block: nat) returns (padded: Octets)
    requires 1 <= block < 256
    ensures padded == data + Filler(block - |data| % block)
    ensures WholeChunks(|padded|, block) && padded != []
    ensures IsPadded(padded, data, block)
  {
    var padLen := block - |data| % block;
    padded := data + Filler(padLen);
    assert IsFiller(Filler(padLen), block);
    assert |padded| == |data| - |data| % block + block == block * (|data| / block) + block;
    Modular.RemainderUnique(|padded|, |data| / block + 1, 0, block);
    WholeChunksIff(|padded|, block);
  }

  /** `xmlenc_unpad` of the RustCrypto provider: three conditions combined without a branch. */
  method Unpad(data: Octets, block: nat) returns (r: Result<Octets>)
    ensures data == [] ==> r == Ok([])
    ensures data != [] ==> (r.Ok? <==> exists plain :: IsPadded(data, plain, block))
    ensures data != [] && r.Ok? ==> IsPadded(data, r.value, block)
    ensures data != [] ==>
              var n := data[|data| - 1] as nat;
              (r.Ok? <==> 1 <= n <= block && n <= |data|) && (r.Ok? ==> r.value == data[..|data| - n])
    ensures r.Err? ==> r.error == Crypto
  {
    if data == [] {
      return Ok([]);
    }
    var padLen := data[|data| - 1] as nat;
    var nonzero, inBlock, inData := padLen != 0, padLen <= block, padLen <= |data|;
    PaddedIff(data, block);
    if !(nonzero && inBlock && inData) {
      return Err(Crypto);
    }
    return Ok(data[..|data| - padLen]);
  }

  /** `xmlenc_unpad` of the AWS-LC provider: refuses empty data. */
  method UnpadNonEmpty(data: Octets, block: nat) returns (r: Result<Octets>)
    ensures r.Ok? <==> exists plain :: IsPadded(data, plain, block)
    ensures r.Ok? ==> IsPadded(data, r.value, block)
    ensures r.Ok? <==> data != [] && 1 <= data[|data| - 1] as nat <= block && data[|data| - 1] as nat <= |data|
    ensures r.Ok? ==> r.value == data[..|data| - data[|data| - 1] as nat]
    ensures r.Err? ==> r.error == Crypto
  {
    if data == [] {
      return Err(Crypto);
    }
    var padding := data[|data| - 1] as nat;
    PaddedIff(data, block);
    if padding == 0 || padding > block || padding > |data| {
      return Err(Crypto);
    }
    return Ok(data[..|data| - padding]);
  }

  lemma PaddedIff(data: Octets, block: nat)
    requires data != []
    ensures var n := data[|data| - 1] as nat;
            && ((exists plain :: IsPadded(data, plain, block)) <==> 1 <= n <= block && n <= |data|)
            && (1 <= n <= block && n <= |data| ==> IsPadded(data, data[..|data| - n], block))
  {
    var n := data[|data| - 1] as nat;
    if plain: Octets :| IsPadded(data, plain, block) {
      var filler: Octets :| IsFiller(filler, block) && data == plain + filler;
      assert data[|data| - 1] == filler[|filler| - 1];
    }
    if 1 <= n <= block && n <= |data| {
      assert IsFiller(data[|data| - n..], block);
      assert data == data[..|data| - n] + data[|data| - n..];
      assert IsPadded(data, data[..|data| - n], block);
    }
  }

  // ---- Encryption and decryption ------------------------------------------

  /** IV, then CBC of the padded plaintext. */
  ghost predicate EncryptsUnder(c: Cipher, iv: Octets, padded: Octets, data: Octets, plain: Octets)
    requires CipherOk(c, 16)
  {
    && |iv| == 16
    && WholeChunks(|padded|, 16)
    && IsPadded(padded, plain, 16)
    && data == iv + Encrypted(c, 16, iv, padded)
  }

  /** The same, whatever the IV and the filler. */
  ghost predicate Encrypts(c: Cipher, data: Octets, plain: Octets) {
    CipherOk(c, 16) && exists iv: Octets, padded: Octets :: EncryptsUnder(c, iv, padded, data, plain)
  }

  lemma Opened(c: Cipher, data: Octets, plain: Octets)
    requires Encrypts(c, data, plain)
    ensures |data| >= 32 && WholeChunks(|data| - 16, 16)
    ensures IsPadded(Decrypted(c, 16, data[..16], data[16..]), plain, 16)
  {
    var iv: Octets, padded: Octets :| EncryptsUnder(c, iv, padded, data, plain);
    assert data[..16] == iv && data[16..] == Encrypted(c, 16, iv, padded);
    DecryptedEncrypted(c, 16, iv, padded);
    assert padded != [];
  }

  lemma OpenedIsEncrypted(c: Cipher, data: Octets, plain: Octets)
    requires CipherOk(c, 16) && |data| >= 32 && WholeChunks(|data| - 16, 16)
    requires IsPadded(Decrypted(c, 16, data[..16], data[16..]), plain, 16)
    ensures Encrypts(c, data, plain)
  {
    EncryptedDecrypted(c, 16, data[..16], data[16..]);
    assert data == data[..16] + data[16..];
    assert EncryptsUnder(c, data[..16], Decrypted(c, 16, data[..16], data[16..]), data, plain);
  }

  /** A ciphertext has at most one plaintext. */
  lemma {:induction false} PlaintextUnique(c: Cipher, data: Octets, plain: Octets, plain': Octets)
    requires Encrypts(c, data, plain) && Encrypts(c, data, plain')
    ensures plain == plain'
  {
    Opened(c, data, plain);
    Opened(c, data, plain');
    PaddedUnique(Decrypted(c, 16, data[..16], data[16..]), plain, plain', 16);
  }

  /** What `decrypt` promises in either provider. */
  ghost predicate DecryptsTo(aes: KeyedCipher, size: AesKeySize, key: Octets, data: Octets, r: Result<Octets>)
  {
    && (r.Ok? <==> |key| == KeyLen(size) && exists plain :: Encrypts(aes(key), data, plain))
    && (r.Ok? ==> Encrypts(aes(key), data, r.value))
    && (r.Err? ==> r.error == Crypto)
  }

  /** `encrypt` of either provider, under the IV the random source returned. */
  method Encrypt(aes: KeyedCipher, size: AesKeySize, key: Octets, plain: Octets, iv: Octets)
    returns (r: Result<Octets>)
    requires KeyedOk(aes, KeyLen(size), 16) && |iv| == 16
    ensures r.Ok? <==> |key| == match size case Aes128 => 16 case Aes192 => 24 case Aes256 => 32
    ensures r.Ok? ==>
      var padded := plain + Filler(16 - |plain| % 16);
      WholeChunks(|padded|, 16) && r.value == iv + Encrypted(aes(key), 16, iv, padded)
    ensures r.Ok? ==> Encrypts(aes(key), r.value, plain)
    ensures r.Ok? ==> |r.value| == 32 + |plain| / 16 * 16
    ensures r.Err? ==> r.error == Crypto
  {
    if |key| != KeyLen(size) {
      return Err(Crypto);
    }
    var output := EncryptPadded(aes(key), plain, iv);
    return Ok(output);
  }

  method EncryptPadded(c: Cipher, plain: Octets, iv: Octets) returns (output: Octets)
    requires CipherOk(c, 16) && |iv| == 16
    ensures var padded := plain + Filler(16 - |plain| % 16);
            WholeChunks(|padded|, 16) && output == iv + Encrypted(c, 16, iv, padded)
    ensures Encrypts(c, output, plain)
    ensures |output| == 32 + |plain| / 16 * 16
  {
    var padded := Pad(plain, 16);
    EncryptsPadded(c, iv, padded, plain);
    output := iv + Encrypted(c, 16, iv, padded);
  }

  lemma EncryptsPadded(c: Cipher, iv: Octets, padded: Octets, plain: Octets)
    requires CipherOk(c, 16) && |iv| == 16 && WholeChunks(|padded|, 16) && IsPadded(padded, plain, 16)
    ensures Encrypts(c, iv + Encrypted(c, 16, iv, padded), plain)
    ensures |padded| == |plain| / 16 * 16 + 16
  {
    PaddedLength(padded, plain);
    assert EncryptsUnder(c, iv, padded, iv + Encrypted(c, 16, iv, padded), plain);
  }

  lemma PaddedLength(padded: Octets, plain: Octets)
    requires WholeChunks(|padded|, 16) && IsPadded(padded, plain, 16)
    ensures |padded| == |plain| / 16 * 16 + 16
  {
    WholeChunksIff(|padded|, 16);
  }

  /** `decrypt` of the RustCrypto provider. */
  method Decrypt(aes: KeyedCipher, size: AesKeySize, key: Octets, data: Octets) returns (r: Result<Octets>)
    requires KeyedOk(aes, KeyLen(size), 16)
    ensures DecryptsTo(aes, size, key, data, r)
  {
    if |key| != KeyLen(size) {
      return Err(Crypto);
    }
    var c := aes(key);
    AllOpened(c, data);
    WholeChunksIff(|data|, 16);
    if |data| < 32 || |data| % 16 != 0 {
      return Err(Crypto);
    }
    var buf := Decrypted(c, 16, data[..16], data[16..]);
    r := Unpad(buf, 16);
  }

  /** `decrypt` of the AWS-LC provider. */
  method DecryptAws(aes: KeyedCipher, size: AesKeySize, key: Octets, data: Octets) returns (r: Result<Octets>)
    requires KeyedOk(aes, KeyLen(size), 16)
    ensures DecryptsTo(aes, size, key, data, r)
  {
    if |key| != KeyLen(size) {
      return Err(Crypto);
    }
    var c := aes(key);
    AllOpened(c, data);
    if |data| >= 16 {
      WholeChunksIff(|data| - 16, 16);
    }
    if |data| < 32 || (|data| - 16) % 16 != 0 {
      return Err(Crypto);
    }
    var (iv, ciphertext) := (data[..16], data[16..]);
    var buf := Decrypted(c, 16, iv, ciphertext);
    r := UnpadNonEmpty(buf, 16);
  }

  lemma AllOpened(c: Cipher, data: Octets)
    requires CipherOk(c, 16)
    ensures forall plain :: Encrypts(c, data, plain) <==>
              && |data| >= 32
              && WholeChunks(|data| - 16, 16)
              && IsPadded(Decrypted(c, 16, data[..16], data[16..]), plain, 16)
  {
    forall plain
      ensures Encrypts(c, data, plain) <==>
              && |data| >= 32
              && WholeChunks(|data| - 16, 16)
              && IsPadded(Decrypted(c, 16, data[..16], data[16..]), plain, 16)
    {
      if Encrypts(c, data, plain) {
        Opened(c, data, plain);
      } else if |data| >= 32 && WholeChunks(|data| - 16, 16)
                && IsPadded(Decrypted(c, 16, data[..16], data[16..]), plain, 16) {
        OpenedIsEncrypted(c, data, plain);
      }
    }
  }

  /** The two providers decrypt every input alike, errors included. */
  lemma {:induction false} DecryptParity(aes: KeyedCipher, size: AesKeySize, key: Octets, data: Octets,
                                         r: Result<Octets>, r': Result<Octets>)
    requires DecryptsTo(aes, size, key, data, r) && DecryptsTo(aes, size, key, data, r')
    ensures r == r'
  {
    if r.Ok? {
      PlaintextUnique(aes(key), data, r.value, r'.value);
    }
  }

  /** Either decryption undoes either encryption. */
  lemma {:induction false} DecryptUndoesEncrypt(aes: KeyedCipher, size: AesKeySize, key: Octets, plain: Octets,
                                                data: Octets, r: Result<Octets>)
    requires |key| == KeyLen(size)
    requires Encrypts(aes(key), data, plain) && DecryptsTo(aes, size, key, data, r)
    ensures r == Ok(plain)
  {
    PlaintextUnique(aes(key), data, plain, r.value);
  }
}
