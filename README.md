# RSA engine of the OpenPGP card tests, in Dafny

This project models `tests/rsa_keys.py` of pico-openpgp: the RSA-2048 engine
that the card test harness uses to import keys, check signatures made by the
card and encrypt data for it. It follows the structure of the file:

- `wrappers.dfy` (`Wrappers`): `Option` and `Result`. Every Python exception
  is a `Failure` carrying one `RsaKeys.Error`.
- `bytes.dfy` (`Bytes`): the built-ins used on byte strings. These are
  `int.from_bytes(b, 'big')` and `int(hexlify(b), 16)` (`BytesToNat`),
  `int.to_bytes` (`NatToBytes`), `int.bit_length` (`BitLength`),
  `struct.pack('>H' / '>I')` (`Be16`, `PackU32`) and clamped slicing
  (`Slice`, `SliceFrom`).
- `arith.dfy` (`Arith`): divisibility, Python's floor `%` (`PyMod`),
  three-argument `pow` (`ModPow`), and the Chinese-remainder recombination.
- `rsa_keys.dfy` (`RsaKeys`): the module-level functions. These are `egcd`,
  `modinv`, the key-slot byte, `build_privkey_template_for_remove`,
  `pkcs1_pad_for_sign` (EMSA-PKCS1-v1_5, section 9.2 of RFC 8017),
  `pkcs1_pad_for_crypt` (EME-PKCS1-v1_5, section 7.2.1 of RFC 8017) and
  `integer_to_bytes_256`.
- `pk_crypto.dfy` (`PkCrypto`): the `PK_Crypto` class. `__init__` sets every
  field once and nothing changes them later, so a key is an immutable record.
  `PKCrypto.New` is the checked constructor. The methods are functions of the
  record.

Parameters stand in for the outside world:

- SHA-1 and SHA-256 are function parameters (`Sha1`, `Sha256`) whose results
  are 20 and 32 bytes long.
- The clock is the integer `now`, packed with `'>I'`.
- `os.urandom(padlen)` is the byte string `rnd`, which must have the requested
  length.

Each encoding has a partner: a decoder proved to invert it, or layout lemmas
that read each field back at its offset and check its length field.

- `EmsaDigestInfo` is the signature-side check of RFC 8017.
- `EmeMessage` is the decryption-side unpadding.

Where the code departs from RFC 8017 and RFC 4880, the model follows the code:

- The sign padding always has 202 `FF` bytes, whatever the DigestInfo's
  length. Section 9.2 of RFC 8017 derives the length of the padding string
  PS from the length of the encoded input.
- The fingerprint's length field is always 270 (`6 + 2 + 256 + 2 + 4`),
  whatever the exponent's length. Section 12.2 of RFC 4880 makes it the
  length of the packet body. `PkCrypto.FprLengthFieldExact` proves that the
  two agree exactly when the exponent has 4 bytes.
- The encryption padding has no minimum length. Section 7.2.1 of RFC 8017
  demands at least 8 padding bytes. Here a message of up to 253 bytes is
  padded, and a longer one makes `os.urandom` fail on a negative length.

## Model

| member | source | states |
|---|---|---|
| `Bytes.BytesToNat` | tests/rsa_keys.py:79-80 | The big-endian value of `s` is below 256^\|s\|. |
| `Bytes.NatToBytes` | tests/rsa_keys.py:46 | `to_bytes(w, 'big')` has exactly `w` bytes and decodes back to `x`. |
| `Bytes.NatToBytesOfBytesToNat` | tests/rsa_keys.py:79-80 | A byte string is the only encoding of its value at its own width (decode then encode is the identity). |
| `Bytes.BytesToNatAppend` | tests/rsa_keys.py:37 | The value of `a + b` is `value(a) * 256^\|b\| + value(b)`. |
| `Bytes.BitLength` | tests/rsa_keys.py:132 | `bit_length`: 2^(r-1) <= x < 2^r for x > 0, and 0 exactly for 0. |
| `Bytes.ByteLength` | tests/rsa_keys.py:132 | `int((bit_length + 7) / 8)` is the least width that holds x: x < 256^r and 256^(r-1) <= x. |
| `Bytes.MinimalBytes` | tests/rsa_keys.py:132 | The signature encoding decodes to x, has ByteLength(x) bytes, has no leading zero byte, and is empty exactly for 0. |
| `Bytes.PackU32` | tests/rsa_keys.py:74 | `pack('>I', x)` succeeds exactly for 0 <= x < 2^32 and gives 4 bytes whose value is x. |
| `Bytes.Be16` | tests/rsa_keys.py:97-98 | `pack('>H', x)` for x < 2^16 is 2 bytes whose big-endian value is x. |
| `Bytes.Slice` | tests/rsa_keys.py:52 | Python `s[i:j]` is `s[i..j]` when j is within the string, the tail from i when j runs past the end, and empty when i is at or past the end. |
| `Bytes.SliceFrom` | tests/rsa_keys.py:78 | Python `s[i:]` is the tail from i, or empty when i is at or past the end. |
| `Arith.PyMod` | tests/rsa_keys.py:32 | Python `x % m` has the sign of m, lies strictly inside (m, 0] or [0, m), equals Dafny's `%` for m > 0, and m divides x minus it. |
| `Arith.ModPow` | tests/rsa_keys.py:128-129 | `pow(x, e, m)` lies in [0, m). |
| `Arith.ModPowIsPowMod` | tests/rsa_keys.py:128-129 | `pow(x, e, m)` is x^e mod m. |
| `Arith.CrtRecombine` | tests/rsa_keys.py:130-131 | When q·qp ≡ 1 (mod p), t1 < p and t2 < q, the value sig = t2 + ((t1 - t2)·qp mod p)·q satisfies 0 <= sig < p·q, sig mod q = t2 and sig mod p = t1. |
| `RsaKeys.Egcd` | tests/rsa_keys.py:20-25 | Bézout: a·x + b·y = g. g divides a and b, g >= 0 when b >= 0, and the base case a = 0 returns exactly (b, 0, 1). |
| `RsaKeys.EgcdGreatest` | tests/rsa_keys.py:20-25 | Every common divisor of a and b divides g, so g is a greatest common divisor. |
| `RsaKeys.ModInv` | tests/rsa_keys.py:27-32 | Raises "no inverse" exactly when g != 1. It fails with a division by zero for m = 0. Otherwise m divides a·x - 1. For m > 0, 0 <= x < m and a·x mod m = 1 mod m; for m < 0, m < x <= 0. |
| `RsaKeys.ModInvComplete` | tests/rsa_keys.py:27-32 | If any x has a·x ≡ 1 (mod m), m > 1, then modinv succeeds. |
| `RsaKeys.KeySpec` | tests/rsa_keys.py:9-14 | Slot 1 gives B6, slot 2 gives B8, and any other slot gives A4. Each holds in both directions. |
| `RsaKeys.BuildPrivkeyTemplateForRemove` | tests/rsa_keys.py:8-15 | The result is four bytes `4D len spec 00`. The length byte counts the two bytes after it, and spec is the slot's tag. |
| `RsaKeys.SignBlock` | tests/rsa_keys.py:35-36 | The block is `00 01`, then exactly 202 `FF` bytes, then `00`, then the DigestInfo. Its length is 205 + \|digestinfo\| for any input. |
| `RsaKeys.PadForSign` | tests/rsa_keys.py:34-37 | For every DigestInfo, the integer's encoding at the block's width is exactly the block, so no length is rejected. The integer is below 256^(204+\|di\|), because of the leading zero byte. For a 51-byte DigestInfo the encoding is 256 bytes. |
| `RsaKeys.PadForSignInverse` | tests/rsa_keys.py:34-37 | A representative decodes to `di` by the RFC 8017 check exactly when \|di\| = 51 and it is `pkcs1_pad_for_sign(di)`. Both directions are proved. |
| `RsaKeys.NonZeroPadding` | tests/rsa_keys.py:42 | `bytes.replace(r, 00, 01)` keeps the length, leaves no zero byte, and maps each byte to itself or to 01 when it is zero. |
| `RsaKeys.PadForCrypt` | tests/rsa_keys.py:39-43 | The result is an error exactly when \|msg\| > 253. Otherwise the integer is below 256^256, and its 256-byte encoding is `CryptBlock`, the `byte_repr` of lines 41-42. That block is `00 02`, then the random bytes with each zero replaced by 01, then `00`, then the message. |
| `RsaKeys.PadForCryptDecodes` | tests/rsa_keys.py:39-43 | The reference decoder `EmeMessage` recovers the message from the representative, for every message and random string. It follows section 7.2.2 of RFC 8017, and `FirstZero` is its search for the separator byte. It finds the separator right after PS because PS has no zero byte. The source has no decoder; this is the partner of the padding. |
| `RsaKeys.IntegerToBytes256` | tests/rsa_keys.py:45-46 | The result is 256 bytes whose value is i. It fails (OverflowError) exactly when i lies outside [0, 256^256). |
| `PkCrypto.FprMessageLayout` | tests/rsa_keys.py:95-99 | `FprMessage` is the message `m` that `calc_fpr` (`PKCrypto.CalcFpr`) hashes with SHA-1. With a 4-byte timestamp and a 256-byte modulus, it is `99 ‖ BE16(270) ‖ 04 ‖ timestamp ‖ 01 ‖ BE16(2048) ‖ n ‖ BE16(17) ‖ e`, each field at its offset. |
| `PkCrypto.FprLengthFieldExact` | tests/rsa_keys.py:96-97 | The constant length field 270 equals the real body length exactly when \|e\| = 4. |
| `PkCrypto.FprMessageInjective` | tests/rsa_keys.py:97-98 | For a 4-byte timestamp and a 256-byte modulus, equal fingerprint messages come from equal timestamp, modulus and exponent. Changing a modulus byte changes the hashed message. |
| `PkCrypto.PrivkeyTemplate` | tests/rsa_keys.py:110-117 | The import template is 22 bytes of headers followed by the key data. |
| `PkCrypto.PrivkeyTemplateLayout` | tests/rsa_keys.py:110-117 | Field by field: `4D 82 0115/0116`, then spec `00`, `7F48 08`, `91 03/04 92 81 80 93 81 80`, `5F48 82 0103/0104`. From offset 22 comes `TemplateKeyData`, the key data of lines 116-117: `[00] ‖ e ‖ p ‖ q`, with the zero byte only outside the yubikey variant. |
| `PkCrypto.PrivkeyTemplateLengths` | tests/rsa_keys.py:110-117 | The 4D and 5F48 length fields equal the bytes they cover exactly when \|e\|+\|p\|+\|q\| = 259. The 7F48 length covers the 8-byte key template. |
| `PkCrypto.PrivkeyTemplateSizes` | tests/rsa_keys.py:110-111 | For \|e\| = 3 and \|p\| = \|q\| = 128, the `91` size is the stored exponent's length, which includes the zero byte in the non-yubikey variant. The `92` and `93` sizes are \|p\| and \|q\|. |
| `PkCrypto.PKCrypto.PkFromPkInfo` | tests/rsa_keys.py:51-52 | The result is `pk_info[9:265]`, 256 bytes when the blob is long enough, and shorter otherwise; Python slicing clamps and does not raise. |
| `PkCrypto.PKCrypto.ComputeDigestInfo` | tests/rsa_keys.py:55-58 | The result is 51 bytes: the SHA-256 prefix, then the digest. Its DER lengths (SEQUENCE 49, AlgorithmIdentifier 13, OID 9, OCTET STRING 32) match what they cover. |
| `PkCrypto.PKCrypto.New` | tests/rsa_keys.py:68-93 | Succeeds exactly when the time packs and either a public blob is given or n = p·q. It raises "wrong key" exactly when the factors disagree. The result is `Valid`: each integer is its bytes' value, n = p·q, and fpr is the SHA-1 of its fingerprint message. Its fields come from the chosen branch. |
| `PkCrypto.NewAccessors` | tests/rsa_keys.py:144-151 | The accessors `PKCrypto.GetTimestamp`, `PKCrypto.GetPk` and `PKCrypto.GetFpr` of a new key return the packed time, the stored modulus bytes, and the SHA-1 of `FprMessage` over exactly those and the stored exponent bytes. That last is the fpr `__init__` stores from `calc_fpr`, through `Valid`. |
| `PkCrypto.PKCrypto.BuildPrivkeyTemplate` | tests/rsa_keys.py:101-117 | Fails exactly on a public-only key. Otherwise the template names slot keyno + 1, marks the variant with 03 or 04, and carries `[00] ‖ e ‖ p ‖ q`. |
| `PkCrypto.SlotTagsAgree` | tests/rsa_keys.py:101-108 | The import template and the delete template of a key carry the same slot tag. |
| `PkCrypto.PKCrypto.CrtParams` | tests/rsa_keys.py:119-126 | Succeeds exactly when the key is private and both inverses exist. On success: p, q >= 2; d·e ≡ 1 (mod (p-1)(q-1)) with 0 <= d < (p-1)(q-1); dp = d mod (p-1) and dq = d mod (q-1); and q·qp ≡ 1 (mod p). |
| `PkCrypto.CrtModuli` | tests/rsa_keys.py:120-126 | When `modinv(e, (p-1)(q-1))` and `modinv(q, p)` both succeed, p >= 2, q >= 2 and (p-1)(q-1) > 0, so the degenerate keys always raise before `pow`. |
| `PkCrypto.PKCrypto.ComputeSignature` | tests/rsa_keys.py:119-132 | Succeeds exactly when the CRT parameters exist. The signature value s satisfies s < p·q, s ≡ m^dp (mod p) and s ≡ m^dq (mod q), where m is the padded DigestInfo. Its bytes are the minimal big-endian encoding, with no leading zero byte. |
| `PkCrypto.SignatureFitsModulus` | tests/rsa_keys.py:132 | For a valid key, a signature is never longer than the modulus bytes. |
| `PkCrypto.PKCrypto.VerifySignature` | tests/rsa_keys.py:134-138 | Raises only for an empty signature or n = 0, never on a mismatch. For every DigestInfo it answers true exactly when s = pow(sig, e, n) fits the block's width and that encoding of s is the sign block of the DigestInfo. For 51-byte DigestInfos this is the same as s decoding to the DigestInfo by the RFC 8017 check. |
| `PkCrypto.PKCrypto.Encrypt` | tests/rsa_keys.py:140-142 | Succeeds exactly when \|msg\| <= 253, n > 0 and pow(m, e, n) < 256^256. The result returns the plaintext unchanged and a 257-byte ciphertext `00 ‖ pow(m, e, n)`, which decodes back to that value. `RsaKeys.PadForCryptDecodes` shows that m unpads back to the plaintext. |
| `PkCrypto.CiphertextField` | tests/rsa_keys.py:142 | `b'\x00' + integer_to_bytes_256(c)` fails exactly when c lies outside [0, 256^256). Otherwise it is 257 bytes beginning with 00, and both the whole field and its last 256 bytes decode to c. |
| `PkCrypto.EncryptSucceeds` | tests/rsa_keys.py:140-142 | For a valid key whose modulus has at most 256 bytes and n > 0, encryption of a message of at most 253 bytes succeeds. |
| `PkCrypto.DigestInfoRoundTrip` | tests/rsa_keys.py:55-58 | The signing input built from any message decodes back to its DigestInfo. |

## Left out

- SHA-1 and SHA-256 are function parameters, not implementations. Only the
  messages fed to them and the digest lengths are modelled.
- `os.urandom` is the parameter `rnd` of the requested length. The clock is
  the integer `now`; the truncation `int(time())` of a float is not modelled.
- The `keyno=None` path of `__init__` (lines 69-71) is left out. It builds an
  empty object used only as a namespace for the fixtures.
- The literal key material, the test vectors and the module-level fixture
  objects `key`, `test_vector` and `rsa_pk` (lines 153-284) are fixture data,
  not logic. `KEY_ATTRIBUTES_RSA2K` from `card_const` is not part of this
  model.
- `enc_data` and `enc_check` (lines 59-65) only pick a tuple element or
  compare one.
- `verify_signature(sign(m))` end to end is left out. It needs p and q prime
  and Euler's theorem, which this model does not prove. The model proves only
  the CRT congruences of the signature.
- The RSA round trip of `encrypt` is left out for the same reason. This is
  the claim that decrypting the ciphertext with d (m^d mod n) gives back the
  padded plaintext. The model proves only that the padding decodes back to
  the message (`RsaKeys.PadForCryptDecodes`) and that the ciphertext field
  holds pow(m, e, n).
- The model does not cover timing or side-channel behaviour.
- `PkCrypto.PKCrypto.BuildPrivkeyTemplate`: the contract names the slot tag,
  the variant byte and the key data. The full layout is stated by
  `PkCrypto.PrivkeyTemplateLayout` about `PkCrypto.PrivkeyTemplate`.
- The `data` tuple always has four elements. A shorter tuple (an IndexError
  in Python) is not modelled.
- The float division at line 132 is modelled as integer division. It is exact
  for any realistic bit length, since it divides a small integer by 8.
