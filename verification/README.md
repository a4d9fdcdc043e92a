# Verified models of riptering's hand-written cores

riptering is mostly a dispatch layer over cryptographic crates. These modules
model the parts it implements itself and prove what they are for. Hashes, MACs,
block ciphers and signature schemes are parameters with stated laws (a fixed
output length, a permutation with its inverse, a scheme that accepts its own
signatures). `dafny verify dfyconfig.toml` checks everything.

| module | what it models |
|---|---|
| `DerSpec`, `DerCodec`, `EcdsaSignatures` | the strict DER reader, the minimal DER printer and the raw/DER dispatcher for ECDSA signatures, and the sibling provider's normaliser |
| `LoginRecords`, `LoginProtocol`, `LoginPromise`, `LoginRights` | the PKCS#11 login registry as classes, the process around it as a state machine, and exactly when its promises hold |
| `TemporaryObjects` | secrets created on a token for one call and destroyed again |
| `DhAgreement`, `Modular` | finite-field Diffie-Hellman and the group theory behind its checks |
| `Rfc7292`, `Pkcs12Kdf`, `Kdf`, `Blocks` | the PKCS#12 derivation, ConcatKDF, PBKDF2 and HKDF loops |
| `SpkiModulus` | the SubjectPublicKeyInfo walk and the RSA modulus bit length |
| `Cbc`, `KeyWrap`, `AesCbc` | CBC over an abstract permutation, 3DES key wrap, padded AES-CBC |
| `Composite` | composite ML-DSA message framing, signing, verification and import |
| `Bytes`, `Bits`, `Wrappers` | big-endian arithmetic, bitwise operators, results |

Methods follow the code's loops, cursors and buffers; each is proved against a
function or predicate that does not mention them, and the lemmas are about those.

## Where a promise has a condition

**Joining a login.** The comments at src/pkcs11/mod.rs:255-264 and 456-460 say
that the record is kept only while a session of riptering's is alive, so that a
PIN that matches it is the PIN of the login in place. Liveness is looked at
before C_OpenSession, and the registry lock does not keep sessions from being
closed in between. When the last recorded session is dropped and closed there,
the login ends while the verifier stays, and a login that other code makes before
C_Login, after a PIN change, is then joined on the old PIN.
`LoginPromise.GapOccurs` is such a run, through to the grant, from every initial
state with an unused token.

What a caller can do about it is to keep a reference to one of riptering's
sessions on the token until C_OpenSession has returned, and that is exactly what
it takes, as long as referenced sessions stay open on the token. In every state a
run can reach, a call joins only a login for its PIN, whatever the modelled steps
of the process do meanwhile short of C_Logout, if and only if its PIN matches no
record, or it keeps such a session and the login is one for the PIN
(`CallIsSafeExactly`, `RunsStayGrounded`). After a run without C_Logout in which
every call whose PIN matched kept one, the next call is safe if and only if, should
its PIN match, it keeps one too (`NextCallExactly`).

When other code may call C_Logout, what is left of the promise is that a granted
PIN is that of riptering's latest accepted C_Login, with a session of its own open
ever since. That fails in the same runs (`GapOccurs`) and holds under the same
condition, again exactly: `LoginRights.CallIsRightExactly` for every reachable
state, `LoginRights.NextCallRightExactly` after every run whose matching calls kept
a session. Whole runs in which they all do meet both promises
(`GrantedPinsWhenKept`).

**Encoding twice.** `raw_signature_to_der` (src/alternate/digest.rs:121-151)
returns DER unchanged unless its length is 2 * field: a string of the fixed width
is always raw. An output of that very length is therefore split as r || s when
encoded again. Re-encoding is the identity if and only if the length differs
(`IdempotentExactly`), and the exception occurs (`ExactWidthOutputExists`).

**Wrapping bit count.** `compute` (src/hazmat/dh.rs) multiplies the modulus
length by eight in 32 bits. A modulus of 2^29 octets or more is refused for that
reason, which `ComputesSharedPower` includes in its condition.

## Model

| member | source | states |
|---|---|---|
| `DerCodec.DerLength` | src/alternate/digest.rs:198-210 | Prints the shortest definite length of any `usize`; the 64-bit word, its stripped octets and the leading count octet are modelled. |
| `DerCodec.ReadLength` | src/alternate/digest.rs:220-251 | Accepts exactly the octets `DerLength` prints for a number below 2^64, whatever follows them, returns that number and stops right behind them; every other length form (indefinite, zero-padded, over eight octets, needlessly long, cut short) is refused. With `DerLength` this is the inverse in both directions. |
| `DerCodec.ReadLongForm` | src/alternate/digest.rs:232-251 | The shift-and-or loop computes the number; what passes both minimality tests is the printer's long form. |
| `DerSpec.LengthForm` | src/alternate/digest.rs:198-210 | The length octets themselves: n below 128 is one octet, any other n is the count of the octets that follow, which encode n without a leading zero. |
| `DerSpec.LengthPrefixUnique` | src/alternate/digest.rs:220-251 | No string begins with the length octets of two different numbers. |
| `DerCodec.DerInteger` | src/alternate/digest.rs:183-196 | Prints the minimal INTEGER of the number the octets encode, a sign octet added when the top bit is set, whatever zeros lead the input. |
| `DerCodec.ExpectTag` | src/alternate/digest.rs:212-218 | Advances the cursor by one exactly on the expected octet. |
| `DerCodec.ReadHeader` | src/alternate/digest.rs:157-160 | Accepts exactly the tag followed by a shortest-form length. |
| `DerCodec.ReadInteger` | src/alternate/digest.rs:253-274 | Succeeds exactly when the rest of the input begins with the distinguished encoding of a non-negative integer, returns its content and the position behind it. |
| `DerCodec.ReadContent` | src/alternate/digest.rs:256-274 | Ok exactly when the content lies inside the input and is non-empty, not negative and minimal; the sum that finds its end may wrap. |
| `DerSpec.MinimalContentUnique` | src/alternate/digest.rs:253-274 | The two strictness checks of X.690 section 8.3.2 leave one content per integer. |
| `DerCodec.CopyInteger` | src/alternate/digest.rs:276-290 | Writes the integer right-aligned and zero-filled into its half of the buffer, in place, leaves the rest alone, and fails exactly when it does not fit. |
| `DerCodec.CopyRawComponent` | src/alternate/digest.rs:292-307 | The same for a raw component of any width: fails exactly when its value is 256^field or more. |
| `DerCodec.ReadSignature` | src/alternate/digest.rs:157-173 | Parses exactly SEQUENCE of two INTEGERs with no trailing octet at either level. |
| `DerCodec.DerSignatureToRaw` | src/alternate/digest.rs:157-173 | Equals `DecodeSignature`: Ok(r followed by s) for exactly the strings that are the distinguished encoding of integers below 256^field, Err for all others. |
| `DerCodec.DecodesExactly` | src/alternate/digest.rs:157-173 | What that is: a string decodes if and only if it is the encoding of two integers below 256^field, and the halves of the result encode those two. |
| `DerCodec.NormalizeHalves` | src/alternate/digest.rs:138-141 | Both halves at fixed width in one buffer, or an error exactly when one does not fit. |
| `DerCodec.EncodeHalves` | src/alternate/digest.rs:138-150 | Splits an even, nonempty input into two integers; Ok exactly when both fit the field, and then the encoding of that pair. |
| `DerCodec.RawSignatureToDer` | src/alternate/digest.rs:121-151 | Ok if and only if the string does not have the raw width and is the encoding of two integers that fit the field, or has an even length of at least two and both halves fit; returned as it is in the first case, else as the encoding of the halves. The one recursive call is shown to take the raw branch, so the dispatcher ends. |
| `DerCodec.EncodesExactly` | src/alternate/digest.rs:121-151 | The same of `EncodeSignature`, the function the lemmas below are about: odd lengths and the empty string are refused. |
| `DerCodec.ReencodeDecoded` | src/alternate/digest.rs:121-131 | The recursive call re-prints the DER it came from. |
| `DerSpec.SignatureDerInjective` | src/alternate/digest.rs:132-150 | No two pairs (r, s) have the same encoding. |
| `DerSpec.SignatureOctets` | src/alternate/digest.rs:132-150 | The octets of an encoding, tag by tag: 0x30 and a length, then twice 0x02, a length and the shortest content that encodes the integer and is not negative. |
| `EcdsaSignatures.CanonicalDer` | src/alternate/digest.rs:121-173 | Whenever decoding d succeeds, encoding the result gives d back; no two distinct strings decode to the same r followed by s. |
| `EcdsaSignatures.RawRoundTrip` | src/alternate/digest.rs:121-173 | Fixed-width r followed by s is unchanged by encoding and decoding, zero halves included. |
| `EcdsaSignatures.RawWidthsEncode` | src/alternate/digest.rs:175-181 | Any 64, 96 or 132 octets are encoded for P-256, P-384 and P-521, and decode to themselves. |
| `EcdsaSignatures.EncodedValues` | src/alternate/digest.rs:132-150 | Every output decodes; off the DER branch it decodes to the two integers of the input's halves. |
| `EcdsaSignatures.IdempotentExactly` | src/alternate/digest.rs:121-131 | Re-encoding an output d returns d if and only if the length of d is not 2 * field. |
| `EcdsaSignatures.NotItsOwnHalves` | src/alternate/digest.rs:121-151 | A string of the exact raw width is never the encoding of its own two halves (why the exception above is always a failure). |
| `EcdsaSignatures.ExactWidthOutputExists` | src/alternate/digest.rs:121-151 | A concrete P-256 signature whose encoding has 64 octets, so idempotence does fail. |
| `EcdsaSignatures.EcdsaSignatureToDer` | src/alternate/software.rs:433-446 | Ok exactly for the encoding of two positive integers that fit the field, off the raw width, and for other strings of two halves that are positive and fit; returns the input in the first case and the encoding of the halves in the other. |
| `EcdsaSignatures.NormalisedByScalars` | src/alternate/software.rs:433-446 | Two normalised signatures are equal if and only if their scalars are. |
| `EcdsaSignatures.NormalizeRawEcdsa` | src/digest.rs:232-258 | Accepts exactly the even-length strings whose halves fit the field and returns as many octets as two fields, whose halves encode the two integers; written in place by the loop. |
| `EcdsaSignatures.ProviderParity` | src/digest.rs:232-258 | On every even-length input of at least two octets the two providers' normalisers accept alike and yield the same fixed-width octets, both integers preserved. |
| `Bits.ConstantTimeEq` | src/digest.rs:96-104 | True exactly when both inputs are equal and nonempty, through the or-fold of octet differences. |
| `Bits.OctetBitwise` | src/digest.rs:96-104 | Each bit of the exclusive or is the sum of the two bits modulo two, each bit of the or is set when one of the two is. |
| `LoginRecords.LoginRecord.LoggedIn` | src/pkcs11/mod.rs:311-314 | Records the verifier and clears the mismatch count; keeps the record invariant. |
| `LoginRecords.LoginRecord.Check` | src/pkcs11/mod.rs:318-344 | Ok exactly for the recorded verifier with fewer than three mismatches, and then the count is zero and the verifier stays; another verifier adds one to the count, the third drops the verifier; a record that is locked or has none does not change. The sessions stay. |
| `LoginRecords.LoginRegistry.Verifier` | src/pkcs11/mod.rs:283-294 | Draws the key only when there is none; Ok exactly when a key is there and the digest works. |
| `LoginRecords.LoginRegistry.Track` | src/pkcs11/mod.rs:298-306 | Creates or finds the token's record, prunes dead sessions, resets it when none is left; every other record is unchanged. |
| `LoginRecords.RetainInOrder` | src/pkcs11/mod.rs:300-301 | Pruning keeps exactly the live sessions, in their order and each as often as it was there. |
| `LoginRecords.LoginRegistry.Finish` | src/pkcs11/mod.rs:160-166 | The record after C_Login's answer, for each of the three answers, and whether the session was pushed; `OpenedByAnswer` writes the records out. |
| `LoginRecords.OpenSessionOnSlot` | src/pkcs11/mod.rs:130-173 | The registry's whole value and the result of a call, on every failure path: digest or RNG, C_OpenSession, C_Login, a refused PIN. |
| `LoginRecords.OpenedByAnswer` | src/pkcs11/mod.rs:130-173 | The record and the result of a call that gets a session, for each answer of C_Login, field by field: accepted, the new verifier, the session and no mismatch; already logged in with the right PIN under three mismatches, the session and no mismatch; with a wrong one, a mismatch more and no verifier at the third; otherwise the pruned record and an error. |
| `LoginRecords.OpenedWithoutSession` | src/pkcs11/mod.rs:130-148 | Without a verifier no record is looked at; without a session only the pruning stays, and the record is reset when no session is left. |
| `LoginProtocol.UninterruptedCall` | src/pkcs11/mod.rs:130-173 | The step relation used for whole runs, taken without interruption, does to the registry what `OpenSessionOnSlot` does and grants when it does, on every path: failed generator or digest, failed C_OpenSession, each answer of C_Login. |
| `LoginProtocol.NextInv` | src/pkcs11/mod.rs:250-273 | Every step of the process (calls, drops, slow closes, outside sessions and logins, PIN changes, C_Logout) keeps the invariant, a gap at C_OpenSession excepted. |
| `LoginPromise.GrantedPinsWhenKept` | src/pkcs11/mod.rs:255-264 | In every run in which each call whose PIN matches the record keeps one referenced session of the token up to C_OpenSession, each granted PIN is the one of riptering's latest accepted C_Login with a session of its own open ever since; without C_Logout it is the PIN of the login in effect. The condition is exact at every call: `LoginPromise.NextCallExactly`, `LoginRights.NextCallRightExactly`. |
| `LoginPromise.RunsStayGrounded` | src/pkcs11/mod.rs:255-264 | In every run, gaps or not: referenced sessions are open, a login is kept by some session, an unbroken one by a session of riptering's, and the session a call holds is open. |
| `LoginPromise.CallIsSafeExactly` | src/pkcs11/mod.rs:130-173 | In every such state, whatever happens during the call: its grant joins a login for its PIN if and only if the PIN matches no record, or the caller keeps a referenced session of the token up to C_OpenSession and the login is one for the PIN. Both halves are over all runs of the process. |
| `LoginPromise.SafeIffKept` | src/pkcs11/mod.rs:255-264 | While the invariant holds and nobody has called C_Logout on the token, a call joins only a login for its PIN if and only if, should its PIN match the record, the caller keeps such a session: the condition it can check before the call. `LoginRights.RightIffKept` decides the promise that is left on other tokens. |
| `LoginPromise.NextCallExactly` | src/pkcs11/mod.rs:255-264 | After every run from the start, without C_Logout, in which the calls met this condition, it decides in both directions whether the next call joins only a login for its PIN. |
| `LoginRights.CallIsRightExactly` | src/pkcs11/mod.rs:130-173 | With C_Logout allowed before and during the call, in every state a run can reach, over all runs of the process: a grant is for the PIN of riptering's latest accepted C_Login with a session of its own open ever since (and for the login in effect unless somebody logged out) if and only if the PIN matches no record, or the caller keeps a referenced session of the token up to C_OpenSession and that held before the call. |
| `LoginRights.RightIffKept` | src/pkcs11/mod.rs:255-264 | While the invariant holds, whoever logged out, that is so if and only if, should the PIN match the record, the caller keeps such a session. |
| `LoginRights.NextCallRightExactly` | src/pkcs11/mod.rs:255-264 | After every run from the start in which the calls met this condition, C_Logout included, it decides the next call in both directions. |
| `LoginPromise.MisjoinReachedExactly` | src/pkcs11/mod.rs:148-164 | The same from `track` on: another login can be reached before C_OpenSession if and only if no recorded, referenced session is kept. |
| `LoginPromise.MisjoinsExactly` | src/pkcs11/mod.rs:149-164 | From C_OpenSession on: a matching call can join a login made with another PIN if and only if the login then in effect is not one for its PIN. The other code that logs in has a session of its own. |
| `LoginPromise.GapOccurs` | src/pkcs11/mod.rs:255-264 | From every initial state with an unused token an explicit run without C_Logout that ends in a grant for a PIN that is not the login's, no session of riptering's having stayed open: the comment's claim, and the weaker one left under C_Logout, do not hold of every run. |
| `LoginPromise.CoveredJoinsItsLogin` | src/pkcs11/mod.rs:255-264 | If a recorded session is still open at C_OpenSession and nobody logged out, a matching call has its own login and cannot misjoin. |
| `LoginProtocol.CounterStep` | src/pkcs11/mod.rs:311-344 | What every step of the process does to a token's count and verifier: a match and an accepted C_Login leave no mismatch, a match keeps the verifier, a wrong PIN adds one and the third drops the verifier, nothing else touches them. |
| `LoginProtocol.CounterIsWrongPins` | src/pkcs11/mod.rs:271-272 | In every run the count is the number of wrong PINs compared since the latest match or fresh start, and it stays at three or less with no verifier at three. |
| `LoginProtocol.CounterFromStart` | src/pkcs11/mod.rs:271-272 | In runs from the start that number begins at zero and never passes three. |
| `LoginProtocol.WrongPinsCounted` | src/pkcs11/mod.rs:318-344 | Between fresh starts and matches the counter is the number of wrong PINs compared, at most three, over whole runs. |
| `LoginProtocol.LockedOut` | src/pkcs11/mod.rs:318-325 | After the third, every join is refused, the right PIN included, until riptering logs in afresh or has no session left. |
| `LoginProtocol.RecordsStayConsistent` | src/pkcs11/mod.rs:265-273 | In every run: at most three mismatches; a present verifier means fewer than three; an absent one means none or three. |
| `LoginProtocol.OthersUntouched` | src/pkcs11/mod.rs:298-306 | Runs whose steps are on other tokens leave a token's record and state unchanged. |
| `LoginProtocol.KeyIsDrawnOnce` | src/pkcs11/mod.rs:283-294 | A drawn verifier key never changes. |
| `TemporaryObjects.ExtractSecretValue` | src/pkcs11/mod.rs:1447-1468 | Ok exactly when one attribute of the response is a CKA_VALUE and no other is, and returns that attribute's value. |
| `TemporaryObjects.TokenSession.ReadAndDestroy` | src/pkcs11/mod.rs:1473-1481 | Ok if and only if the destroy succeeds and the response holds exactly one CKA_VALUE, and then the object's value; the destroy error if and only if the destroy fails, whatever the read did; the object is gone exactly when the destroy succeeded. |
| `TemporaryObjects.TokenSession.WrapWithWrapKey` | src/pkcs11/mod.rs:1353-1386 | Whatever the token answers: Ok if and only if creating, wrapping and destroying succeed, with the token's wrap of the key; the destroy error if and only if the object was created and not destroyed, and then it is the one object left behind; objects unchanged otherwise. |
| `TemporaryObjects.TokenSession.UnwrapWithUnwrapKey` | src/pkcs11/mod.rs:1390-1419 | Ok if and only if the token unwraps and creates the object, the response holds exactly one CKA_VALUE and the destroy succeeds, with what the token unwrapped; the destroy error if and only if the object was created and not destroyed, with that object left behind. |
| `TemporaryObjects.TokenSession.Agree` | src/pkcs11/mod.rs:1594-1633 | The same for the derived ECDH secret. |
| `TemporaryObjects.RunConserves` | src/pkcs11/mod.rs:1353-1419 | Over any sequence of such calls no object is lost or changed, the count grows by the destroy errors reported and nothing else, and what survives closing the session is unchanged. |
| `DhAgreement.StripLeadingZeros` | src/hazmat/dh.rs:197-207 | Keeps the integer. |
| `DhAgreement.PaddedLimbs` | src/hazmat/dh.rs:210-222 | Padding or truncating whole limbs to the modulus width loses nothing of a number below 256^width. |
| `DhAgreement.ComputesSharedPower` | src/hazmat/dh.rs:77-193 | `compute` succeeds if and only if the integers pass every check, and then returns y^x mod p in exactly as many octets as p; moduli of 2^29 octets or more, whose bit count wraps, are refused. |
| `DhAgreement.AcceptedInputs` | src/hazmat/dh.rs:77-173 | Success if and only if every check holds, each written out on the integers: p odd and below 2^29 octets, x no longer than p, 1 < q < p, q divides p - 1, 1 < y < p, y^q mod p = 1, 0 < x < q. |
| `DhAgreement.SharedInSubgroup` | src/hazmat/dh.rs:138-160 | Whatever peer value is accepted, the shared value s is between 0 and p with s^q mod p = 1, and for a prime q it is not 1. |
| `DhAgreement.LeadingZerosIgnored` | src/hazmat/dh.rs:77-193 | The result depends on y and q only through the integers they encode. |
| `DhAgreement.PowersAreValid` | src/hazmat/dh.rs:138-160 | A power of a generator of prime order that q does not divide passes the range and subgroup checks. |
| `DhAgreement.Agreement` | src/hazmat/dh.rs:77-193 | Each party's public value passes every check, both compute the same octets, the shared value is never 1 and passes the checks again; p need not be prime. |
| `Modular.OrderIsPrime` | src/hazmat/dh.rs:150-160 | If g^q = g^m = 1 and the prime q does not divide m then g = 1 (by Bezout). |
| `Pkcs12Kdf.ExtendToMultiple` | src/pkcs12.rs:161-167 | Length the next multiple of v; octet i is octet i modulo the input length. |
| `Pkcs12Kdf.EncodePassword` | src/pkcs12.rs:26-34 | Two octets for each UTF-16 code unit, the high one first, and two zeros. |
| `Pkcs12Kdf.AddOnePlusB` | src/pkcs12.rs:169-176 | The in-place byte loop replaces one chunk by the low octets of chunk + B + 1 and touches nothing else; the carry is accounted for at every step. |
| `Pkcs12Kdf.NextBlockModulo` | src/pkcs12.rs:169-176 | Those octets encode (I_j + B + 1) modulo 256^v. |
| `Pkcs12Kdf.AdvanceInput` | src/pkcs12.rs:96-101 | The chunk loop advances every block of I; every chunk has exactly v octets. |
| `Pkcs12Kdf.NextInputIsNext` | src/pkcs12.rs:96-101 | Every v octets of the advanced buffer encode what they did before, plus B, plus 1, modulo 256^v. |
| `Pkcs12Kdf.NextRound` | src/pkcs12.rs:96-101 | B has exactly v octets on every round and I becomes the next I. |
| `Pkcs12Kdf.Fill` | src/pkcs12.rs:80-103 | The block loop returns the first output_len octets of A_1, A_2, ..., the last round's update skipped. |
| `Pkcs12Kdf.Derive` | src/pkcs12.rs:47-104 | Ok exactly for the identifiers 1 to 3, up to 10^8 iterations, up to 2^20 octets, SHA-1 and SHA-256, with the errors told apart; the key is the beginning of blocks A_1, A_2, ..., each the iterated digest of D and an input, the first input the salt and then the password, each octet by octet repeated to whole 64-octet blocks, and every later one advanced by the block before it (appendix B.2 of RFC 7292, `Rfc7292.IsDerived`). |
| `Rfc7292.OneBlockKey` | src/pkcs12.rs:75-95 | Of such a key, with one iteration and at most one block: the beginning of the digest of D, the repeated salt and the repeated password, in that order. |
| `Pkcs12Kdf.ShorterIsPrefix` | src/pkcs12.rs:80-103 | A shorter derivation is a prefix of a longer one. |
| `Kdf.ConcatKdfAppending` | src/alternate/kdf.rs:91-135 | Ok exactly for 1..2^20 octets; equals K(1), K(2), ... cut to length; the u32 counter loses nothing. |
| `Kdf.ConcatKdfInner` | src/kdf.rs:234-261 | All blocks concatenated, then truncated: the same value and the same refusals. |
| `Kdf.ConcatKdfTruncating` | src/kdf.rs:181-199 | The same with OtherInfo built from the three optional parts. |
| `Kdf.ConcatKdfsAgree` | src/kdf.rs:234-261 | The two providers' ConcatKDFs return the same for every hash, secret, info and length. |
| `Kdf.ConcatOctets` | src/alternate/kdf.rs:104-134 | Such a key block by block: the digest of a four-octet counter from 1, the secret, and those of algorithm ID, party U and party V that are present. |
| `Kdf.ConcatPrefixOfLonger` | src/alternate/kdf.rs:119-134 | A shorter ConcatKDF key is a prefix of a longer one. |
| `Kdf.XorInto` | src/alternate/kdf.rs:177-179 | In-place xor, position by position. |
| `Kdf.Pbkdf2Block` | src/alternate/kdf.rs:173-180 | F of section 5.2 of RFC 8018: the xor of U_1 to U_c. |
| `Kdf.Pbkdf2` | src/alternate/kdf.rs:137-185 | Ok exactly for the accepted parameters, each limit written out, FIPS minimums included; the value is T_1, T_2, ... cut to length; the block counter never exceeds u32. |
| `Kdf.Pbkdf2Octets` | src/alternate/kdf.rs:165-184 | That value bit by bit: a bit of block i is the parity of the bit in U_1 to U_c, U_1 the HMAC of the salt and the four-octet i, each U the HMAC of the one before. |
| `Kdf.CounterIsOneOctet` | src/alternate/kdf.rs:213-216 | The counter stays within one octet if and only if the output is at most 255 hash lengths. |
| `Kdf.Expand` | src/alternate/kdf.rs:236-251 | T(1), T(2), ... of section 2.3 of RFC 5869, each block fed the previous one. |
| `Kdf.Hkdf` | src/alternate/kdf.rs:195-251 | Ok exactly for accepted parameters, written out, the FIPS refusal told apart; extract with the salt or a hash length of zeros, then expand. |
| `Kdf.HkdfOctets` | src/alternate/kdf.rs:236-251 | The expansion block by block: T(i) is the HMAC of T(i-1), info and the single octet i, from an empty T(0). |
| `Kdf.Pbkdf2PrefixOfLonger` | src/alternate/kdf.rs:165-184 | A shorter PBKDF2 key is a prefix of a longer one. |
| `Kdf.HkdfPrefixOfLonger` | src/alternate/kdf.rs:236-251 | A shorter HKDF output is a prefix of a longer one. |
| `Blocks.CutIsPrefixMonotone` | src/alternate/kdf.rs:165-184 | Cutting a block sequence shorter gives a prefix, for any blocks of one length. |
| `Blocks.CutAt` | src/alternate/kdf.rs:165-184 | Octet j of an output is octet j mod size of block j / size. |
| `SpkiModulus.TakeTlv` | src/alternate/key.rs:266-288 | Some exactly when the input begins with an element of that tag with a definite length of up to eight octets, and then header, value and rest make up the input. |
| `SpkiModulus.ReadBigEndian` | src/alternate/key.rs:277-281 | The checked multiplication and addition never fail on up to eight octets. |
| `SpkiModulus.AnyLengthForm` | src/alternate/key.rs:272-284 | Any count of one to eight length octets is an element's length, leading zeros included. |
| `SpkiModulus.TlvUnique` | src/alternate/key.rs:266-288 | An input splits in at most one way. |
| `SpkiModulus.TakeModulus` | src/alternate/key.rs:290-303 | Finds the modulus octets exactly when the nested structure is there. |
| `SpkiModulus.ModulusOctets` | src/alternate/key.rs:290-303 | What the nested structure is, octet by octet: a SEQUENCE of a SEQUENCE and a BIT STRING that begins with a zero octet and holds a SEQUENCE that begins with the INTEGER; nothing follows at any level but behind the INTEGER. |
| `SpkiModulus.HasModulusUnique` | src/alternate/key.rs:290-303 | At most one modulus can be read from an encoding. |
| `SpkiModulus.CountBitsIsLog` | src/alternate/key.rs:304-307 | The count b of stripped octets satisfies 2^(b-1) <= N < 2^b. |
| `SpkiModulus.RsaSpkiModulusBits` | src/alternate/key.rs:265-307 | Some(b) with b the bit length of the modulus the encoding holds; None only if there is none or it is zero. |
| `SpkiModulus.SpkiBitsOfDer` | src/alternate/key.rs:265-307 | For every distinguished encoding with modulus N the result can only be the bit length of N. |
| `SpkiModulus.SpkiDerParses` | src/alternate/key.rs:290-303 | Every distinguished SubjectPublicKeyInfo is read, and its modulus is N. |
| `SpkiModulus.EnforceKeyStrength` | src/alternate/key.rs:231-261 | A FIPS build imports as an RSA key exactly an encoding whose modulus has at least 2048 bits and an even bit length; an encoding without a modulus is a Key error, a modulus of another size an unsupported operation; other keys and builds pass. |
| `SpkiModulus.ImportedKeyStrength` | src/alternate/key.rs:231-261 | For a distinguished encoding that is a bound on the modulus N itself. |
| `SpkiModulus.CheckTokenModulus` | src/pkcs11/mod.rs:632-651 | Accepts exactly odd moduli of at least 2048 bits, in FIPS builds of even bit length. |
| `SpkiModulus.CountsAgree` | src/pkcs11/mod.rs:638-644 | The attribute bit count equals the one read from the SubjectPublicKeyInfo of the same modulus. |
| `Cbc.DecryptedEncrypted` | src/software/keywrap.rs:196-227 | CBC decryption undoes encryption over any block permutation. |
| `Cbc.EncryptedDecrypted` | src/software/keywrap.rs:196-227 | And encryption undoes decryption. |
| `Cbc.EncryptedIsChained` | src/software/keywrap.rs:196-210 | What CBC is, on the blocks of the data: each cipher block is the cipher of the data block xored with the cipher block before it, the IV before the first. |
| `KeyWrap.TdesCbcEncrypt` | src/software/keywrap.rs:196-210 | Whole blocks only; refuses anything else. |
| `KeyWrap.TdesCbcDecrypt` | src/software/keywrap.rs:214-228 | The same for decryption. |
| `KeyWrap.TdesKwWrap` | src/software/keywrap.rs:100-136 | Ok exactly for a 24-octet KEK and block-aligned key data; the value is the wrap of section 3.1 of RFC 3217 under the IV drawn. |
| `KeyWrap.WrappedSteps` | src/software/keywrap.rs:108-135 | That wrap step by step: CBC under the IV of the key and the first eight octets of its SHA-1, the IV put in front, all octets in reverse order, CBC under the constant IV. |
| `KeyWrap.UnsealedSealed` | src/software/keywrap.rs:120-165 | Opening the two passes recovers the IV and the data they hid. |
| `KeyWrap.SealedUnsealed` | src/software/keywrap.rs:120-165 | Sealing what was opened under the IV found inside gives exactly the input back. |
| `KeyWrap.WrapsIff` | src/software/keywrap.rs:140-192 | A string is a wrap of k if and only if it opens to k and the checksum of k. |
| `KeyWrap.WrappedInjective` | src/software/keywrap.rs:100-136 | A wrap determines the IV and the key. |
| `KeyWrap.TdesKwUnwrap` | src/software/keywrap.rs:140-192 | Accepts exactly the wraps: unwrapping any wrap of k returns k, and whatever is accepted is a wrap of the result under some IV. |
| `AesCbc.Pad` | src/software/cipher.rs:210-216 | Appends one to `block` octets, each their number, up to a whole block; what results is padded in the sense both decryptions accept. |
| `AesCbc.Unpad` | src/software/cipher.rs:234-257 | Ok exactly for data whose last octet is from one to the block size and to the length of the data, and for empty data; removes that many octets. |
| `AesCbc.UnpadNonEmpty` | src/alternate/hazmat.rs:92-102 | The same, but refuses empty data: the only input on which the two differ. |
| `AesCbc.Encrypt` | src/hazmat/aes_cbc.rs:42-81 | Ok exactly for the right key length; the IV, then the CBC of the PKCS#7-padded plaintext; 32 + 16 * floor(n / 16) octets in all. |
| `AesCbc.Decrypt` | src/hazmat/aes_cbc.rs:89-131 | Ok exactly when the key length is right and the data is IV and CBC of some plaintext with up to a block of filler whose last octet counts it; returns that plaintext. |
| `AesCbc.DecryptAws` | src/alternate/hazmat.rs:20-30 | The same contract for the other provider. |
| `AesCbc.PlaintextUnique` | src/hazmat/aes_cbc.rs:108-131 | A ciphertext has at most one plaintext. |
| `AesCbc.DecryptParity` | src/alternate/hazmat.rs:20-30 | The providers return the same for every input. |
| `AesCbc.DecryptUndoesEncrypt` | src/hazmat/aes_cbc.rs:42-131 | Either decryption undoes either encryption. |
| `Composite.MessageRepresentative` | src/software/composite.rs:523-551 | Prefix, label, one zero octet, prehash: SHA-256 for the first variant, SHAKE256 for Ed448, SHA-512 for the others. |
| `Composite.LabelEnds` | src/software/composite.rs:545-549 | A zero octet ends a zero-free label: the split of label and prehash is unique. |
| `Composite.FramedInjective` | src/software/composite.rs:523-551 | Representatives are equal if and only if variant and prehash are. |
| `Composite.DerivePublic` | src/software/composite.rs:173-190 | The aggregate public key of the seed and the traditional key, split at 32. |
| `Composite.ValidateImport` | src/software/composite.rs:69-102 | Accepts exactly public keys of the registered length with a valid second part and, with a private key of the registered length, only the public key it derives, all written out on the two parts. |
| `Composite.Sign` | src/software/composite.rs:250-289 | Ok exactly when both components sign the representative under the two parts of the private key; the concatenation of both signatures. |
| `Composite.Verify` | src/software/composite.rs:368-417 | True exactly when both parts of the signature verify under the two parts of the public key; wrong key or variant is an error, a wrong length is false. |
| `Composite.SignedVerifies` | src/software/composite.rs:250-417 | If both component schemes accept their own signatures, every signature made with an imported key verifies: the split points match. |

## Left out

- Word size: `usize` is 64 bits wide, and no slice is longer than 2^63 - 1 octets; 32-bit targets are not modelled.
- Overflow panics: sums past `usize` wrap as in release builds; a debug build stops instead.
- Error messages: an error is its variant of the crate's error type; the PKCS#11 destroy error, which only its message tells apart, has a name of its own in `TemporaryObjects`.
- Capability tables, FIPS allowlists and backend initialisation: the `require_supported` calls at the head of the public functions are not modelled; FIPS parameter minimums are.
- Library arithmetic: curves, RSA, ML-DSA, Ed448, AES, SHA and Montgomery exponentiation are parameters or mathematical functions, and so are the AWS-LC implementations of PBKDF2, HKDF and ConcatKDF that are used for some digests.
- Digest and HMAC errors inside the derivation loops: the digest of a derivation is total, since an unavailable one has already failed by then.
- In-place CBC and `Vec::reverse`: the buffers that crates transform in place in src/software/keywrap.rs, src/hazmat/aes_cbc.rs and src/alternate/hazmat.rs are values here; aliasing and order of writes inside those calls are not captured.
- UTF-8 to UTF-16: `EncodePassword` starts from the code units of the password.
- Random numbers: IVs, keys and signature randomness are arguments, and every statement holds for all of them.
- Wiping and timing: zeroization, constant-time execution and the branch-free form of the padding check are not observable in these models.
- Lock poisoning and token identity: the registry lock always locks, and a token identity is an opaque value.
- RustCrypto's `from_der`: the providers are compared on raw signatures only; the other dispatcher gates DER on another length condition (src/digest.rs:274).
- 3DES-CBC of src/software/cipher.rs: the same padding and CBC as AES with another block size.
- AES key wrap: a length check around a library call.
- Key generation of composite keys (src/software/composite.rs:23-61): its rejection sampling has no bound.
- PKCS#8 and SubjectPublicKeyInfo import and export, key encapsulation, TLS configuration, slot discovery and mechanism mapping: thin matching over library calls.
- Attribute lists: `CheckTokenModulus` starts from the modulus; missing or duplicate attributes and the key-type comparison of src/pkcs11/mod.rs:602-631 are not modelled.
- SpkiModulus.RsaSpkiModulusBits: reads the INTEGER as unsigned, as the code does; a negative modulus is not refused.
- Sessions closed under a reference: C_CloseAllSessions or C_Finalize by other code, and removing or resetting the token, close sessions riptering still references; the login state machine has no such step, and a kept reference does not help against it.
- TemporaryObjects.TokenSession.WrapWithWrapKey: when the wrapping key's handle names no object, success is described in one direction only, since the token may give that handle to the temporary object.
- Token responses: a read may return any attributes, but every CKA_VALUE among them is the object's own value.
- LoginPromise.GrantedPinsWhenKept: the promise over whole runs has a condition because `LoginPromise.GapOccurs` shows it false of others.
