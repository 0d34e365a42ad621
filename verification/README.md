# Quantum-Safe LWE Encryption Tool: a Dafny model of its core

The repository has two independent cores, and this project models both as
pure functions over integers, bytes and strings.

1. **The Regev-style LWE scheme** (`src/algorithem/LWE_wrapper.py`). It covers:
   - the character/bit codec;
   - key generation `b = A·s + e (mod q)`;
   - per-bit encryption by subset sums and threshold decryption;
   - the byte layouts of the KEM layer (`serialize_pk`, `serialize_ct`,
     `ct_equal`, the length framing inside `H`);
   - the `LWEAdapter` that carries 32-byte seeds through the text scheme as
     base64;
   - the demo's repeating-key XOR.

   Every random draw is an explicit argument: the secret `s`, the matrix
   `A`, the reduced noise `e` and each bit's row subset. SHAKE-256 is a
   function-valued parameter.
2. **The `EncryptionService` façade** (`src/services/encryptionService.ts`),
   which the interface calls. It covers:
   - parameter merging over the defaults `{512, 1024, 3, 256}`;
   - dummy key tokens: JSON, then `btoa`, then `+`→`-` and `/`→`_`;
   - the placeholder cipher: reverse the message, append `|` and the first
     16 key characters, then `btoa`;
   - its inverse: `atob`, keep the text before the first `|`, reverse;
   - result records that never throw.

   JavaScript strings are sequences of UTF-16 code units. `btoa` fails on a
   unit above 0xFF. `atob` is the forgiving-base64 decode of the WHATWG
   Infra Standard.

Modules, one per file:
- `Wrappers`: `Option`, and `Result` with `Raise` for a Python exception.
- `Bytes`: `int.to_bytes(k, "big")` and the `int32` `tobytes()` layout in
  either byte order.
- `ModArith`: congruences.
- `BitCodec`, `Lwe`, `Serialize`, `PkCodec`, `Adapter`.
- `Base64`: the RFC 4648 section 4 encoder, `atob`, and Python's
  `b64decode(validate=True)`.
- `JsText`: `trim`, `btoa`/`atob`, the URL-safe substitution, `split('|')[0]`.
- `EncryptionService`.

Three behaviours of the façade's code are worth stating plainly:
- **The round trip does not hold for every non-empty message.**
  - A message containing `|` comes back as only the part after its last
    `|` (`EncryptionService.DecryptEncryptAfterLastBar`).
  - A message with a code unit above 0xFF cannot be encrypted at all.
- **`decrypt` reports an invalid ciphertext only when `atob` fails.** A token
  that decodes but has no `|` still succeeds.
- **Overridden parameters are not checked for positivity.**

## Model

| member | source | states |
|---|---|---|
| Lwe.NewLwe | src/algorithem/LWE_wrapper.py:8-14 | A new scheme object keeps the given n and q, holds no keys, and has n + 50 public samples. |
| Lwe.DefaultLweFitsInt32 | src/algorithem/LWE_wrapper.py:8 | The default parameters n = 128, q = 2053 give m = 178 and satisfy the int32 bound (n+1)·q ≤ 2^31 − 1. |
| Lwe.GenerateKeys | src/algorithem/LWE_wrapper.py:21-28 | Key generation installs the given secret as the private key and (A, b) as the public key, leaves n and q unchanged, and every unreduced entry ⟨A[i], s⟩ + e[i] fits in int32 when (n+1)·q does. |
| Lwe.DotBound | src/algorithem/LWE_wrapper.py:25 | With a 0/1 secret, ⟨u, s⟩ lies in [0, n·(q−1)], so `np.dot(A, s) + e` cannot overflow. |
| Lwe.KeyRelation | src/algorithem/LWE_wrapper.py:25 | The generated public key has m rows of length n with entries in [0, q), and b[i] = (⟨A[i], s⟩ + e[i]) mod q. |
| Lwe.Accumulate | src/algorithem/LWE_wrapper.py:58-62 | The subset loop yields a length-n vector u with entries in [0, q) and a v in [0, q). |
| Lwe.AccumulateSums | src/algorithem/LWE_wrapper.py:58-62 | The reduced u and v are congruent mod q to the unreduced column sums of the chosen rows of A and the sum of the chosen entries of b. |
| Lwe.EncryptBit | src/algorithem/LWE_wrapper.py:55-64 | Each ciphertext pair has a length-n u with entries in [0, q) and a v in [0, q). |
| Lwe.Encrypt | src/algorithem/LWE_wrapper.py:49-65 | Encryption fails exactly when no keys were generated. Otherwise it yields one pair per bit of `_string_to_bits(plaintext)`, every entry in [0, q), and 8·len(plaintext) pairs for Latin-1 text. |
| Lwe.Diff | src/algorithem/LWE_wrapper.py:73-74 | (v − ⟨u, s⟩ mod q) mod q lies in [0, q). |
| Lwe.DecryptBit | src/algorithem/LWE_wrapper.py:73-75 | One pair decodes to 0 exactly when (v − ⟨u, s⟩ mod q) mod q is below q//4 or above 3·q//4. |
| Lwe.DecryptBits | src/algorithem/LWE_wrapper.py:72-76 | There is one bit per ciphertext pair, and bit k is 0 exactly when diff < q//4 or diff > 3·q//4. |
| Lwe.Decrypt | src/algorithem/LWE_wrapper.py:67-77 | Decryption succeeds exactly when a private key is present and every u has length n. Its text has only characters 1..255 and at most ⌈len(ct)/8⌉ of them. |
| Lwe.DiffIsNoise | src/algorithem/LWE_wrapper.py:60-74 | Under b = A·s + e, the decryption difference is congruent mod q to the chosen rows' noise sum plus bit·(q//2). |
| Lwe.Threshold | src/algorithem/LWE_wrapper.py:75 | When the centred noise is strictly inside (−q//4, q//4), the threshold rule returns 0 exactly for bit 0. |
| Lwe.Centre | src/algorithem/LWE_wrapper.py:75 | The centred representative is congruent to x mod q and lies in (−q/2, q/2]. |
| Lwe.DecryptBitOfNoise | src/algorithem/LWE_wrapper.py:56-75 | For any public key satisfying b = A·s + e (mod q) and a subset with small noise, decryption returns the encrypted bit. |
| Lwe.EncryptDecryptBit | src/algorithem/LWE_wrapper.py:21-75 | One bit survives encryption and decryption under generated keys whenever its subset's centred noise is below q//4. |
| Lwe.DecryptEncryptBits | src/algorithem/LWE_wrapper.py:49-77 | Under generated keys and small noise for every subset, decrypt(encrypt(t)) is `_bits_to_string(_string_to_bits(t))` for any text t. |
| Lwe.DecryptEncrypt | src/algorithem/LWE_wrapper.py:49-77 | Under generated keys and small noise, every Latin-1 text without NUL survives encryption and decryption unchanged. |
| BitCodec.Format08b | src/algorithem/LWE_wrapper.py:33 | `format(c, '08b')` denotes c, has at least 8 digits, and has exactly 8 if and only if c < 256. |
| BitCodec.StringToBits | src/algorithem/LWE_wrapper.py:30-34 | `_string_to_bits` emits at least 8 bits per character. |
| BitCodec.StringToBitsLatin1 | src/algorithem/LWE_wrapper.py:30-34 | For Latin-1 text it emits exactly 8 bits per character, and bit 8k+j is binary digit j of character k, most significant first. |
| BitCodec.PadToBytes | src/algorithem/LWE_wrapper.py:37-38 | Padding extends the bits by fewer than 8 zeros to a multiple of 8 and keeps the original bits as a prefix. |
| BitCodec.DecodeGroups | src/algorithem/LWE_wrapper.py:40-46 | Each group of 8 bits yields at most one character, and every character is in 1..255 because zero bytes are dropped. |
| BitCodec.BitsToString | src/algorithem/LWE_wrapper.py:36-47 | `_bits_to_string` returns at most ⌈len(bits)/8⌉ characters, all in 1..255. |
| BitCodec.BitsToStringLoop | src/algorithem/LWE_wrapper.py:36-47 | The source's pad-then-accumulate loops compute exactly the functional `_bits_to_string`. |
| BitCodec.PadLoop | src/algorithem/LWE_wrapper.py:37-38 | The append-zero loop ends with exactly the padded sequence. |
| BitCodec.GroupValue | src/algorithem/LWE_wrapper.py:42-44 | Summing bit·2^(7−j) gives the most-significant-first value of the group, which is below 256. |
| BitCodec.BitsToStringOfStringToBits | src/algorithem/LWE_wrapper.py:30-47 | `_bits_to_string(_string_to_bits(t)) == t` for every text whose code points are in 1..255. |
| Bytes.ToBytesBig | src/algorithem/LWE_wrapper.py:85 | `x.to_bytes(k, "big")` succeeds exactly for 0 ≤ x < 256^k, with k bytes whose big-endian value is x. |
| Bytes.DecodeBEInjective | src/algorithem/LWE_wrapper.py:85 | Two big-endian byte strings of one width with the same value are equal. |
| Bytes.Int32RoundTrip | src/algorithem/LWE_wrapper.py:103 | One int32 element's four `tobytes()` bytes read back as the element, in either byte order. |
| Bytes.Int32sRoundTrip | src/algorithem/LWE_wrapper.py:103 | An int32 array's `tobytes()` image reads back as the array. |
| Serialize.SerializePair | src/algorithem/LWE_wrapper.py:102-105 | A pair encodes exactly when 4·len(u) < 2^32 and 0 ≤ v < 2^64, in 12 + 4·len(u) bytes. |
| Serialize.SerializePairs | src/algorithem/LWE_wrapper.py:102-105 | The pair list encodes exactly when every pair does, in Σ(12 + 4·len(u)) bytes. |
| Serialize.SerializeCt | src/algorithem/LWE_wrapper.py:95-106 | `serialize_ct` succeeds exactly on serialisable ciphertexts. The output has 6 + Σ(12 + 4·len(u)) bytes, starts with "CT", and bytes 2..6 hold the pair count big-endian. |
| Serialize.CtEqual | src/algorithem/LWE_wrapper.py:108-109 | `ct_equal` raises exactly when either side cannot be serialised. |
| Serialize.ParseSerializePairs | src/algorithem/LWE_wrapper.py:102-105 | Reading back `count` encoded pairs recovers the pairs. |
| Serialize.ParseSerializeCt | src/algorithem/LWE_wrapper.py:95-106 | For int32 entries, parsing the `serialize_ct` output recovers the ciphertext, so the layout is injective. |
| Serialize.CtEqualIsEquality | src/algorithem/LWE_wrapper.py:108-109 | On serialisable ciphertexts with int32 entries, `ct_equal(a, b)` is exactly a == b. |
| Serialize.Frame | src/algorithem/LWE_wrapper.py:82-85 | Framing succeeds exactly when every part is shorter than 2^32 bytes. |
| Serialize.UnframeFrame | src/algorithem/LWE_wrapper.py:82-85 | The 4-byte length framing can be split back into the original parts. |
| Serialize.H | src/algorithem/LWE_wrapper.py:79-86 | `H` raises exactly when some part has 2^32 bytes or more. |
| Serialize.HFramingInjective | src/algorithem/LWE_wrapper.py:79-86 | Distinct part lists reach SHAKE-256 as distinct byte strings, and `H` is SHAKE-256 of the framed input. |
| PkCodec.FlattenUnflatten | src/algorithem/LWE_wrapper.py:93 | Row-major flattening of an m×n matrix has m·n entries and can be undone. |
| PkCodec.PkHeaderBytes | src/algorithem/LWE_wrapper.py:91-92 | The header encodes exactly when n and m fit in 2 bytes and q fits in 4. |
| PkCodec.SerializePk | src/algorithem/LWE_wrapper.py:89-93 | `serialize_pk` raises exactly when n, q or m does not fit its field (2, 4 and 2 bytes). |
| PkCodec.ParseSerializePk | src/algorithem/LWE_wrapper.py:89-93 | For a key of the declared shape with int32 entries, parsing the `serialize_pk` output recovers n, q, m, A and b. |
| PkCodec.SerializePkInjective | src/algorithem/LWE_wrapper.py:89-93 | Two public keys of one shape with equal encodings are equal. |
| Base64.EncodeAscii | src/algorithem/LWE_wrapper.py:126 | Every character of a base64 encoding is an alphabet character or `=`, so `.decode("ascii")` cannot fail. |
| Base64.EncodeInjective | src/algorithem/LWE_wrapper.py:126 | Distinct byte strings have distinct base64 encodings. |
| Base64.Encode | src/algorithem/LWE_wrapper.py:126 | `b64encode` output has 4·⌈n/3⌉ characters, a multiple of four. |
| Base64.PyB64Decode | src/algorithem/LWE_wrapper.py:134 | `b64decode(validate=True)` succeeds exactly when the input is alphabet characters followed by exactly the `=` that complete the last group of four: none, two after a final group of two, one after a final group of three. It then returns the bytes those characters encode. |
| Base64.PyB64DecodeRejectsExtraPad | src/algorithem/LWE_wrapper.py:134-137 | Any encoding with one more `=` appended, such as `QUJD=` or `QUI==`, is refused, so the adapter falls back to zero bytes. |
| Base64.PyB64DecodeEncode | src/algorithem/LWE_wrapper.py:126-134 | Python's validating decoder inverts the encoder. |
| Base64.ForgivingDecode | src/services/encryptionService.ts:69 | `atob` succeeds exactly when the characters left after removing ASCII white space, and one or two final `=` when that length is a multiple of four, are all in the alphabet and are not one more than a multiple of four. It then yields 3 bytes per 4 characters, rounded down. |
| Base64.ForgivingDecodeEncode | src/services/encryptionService.ts:69 | `atob` inverts the base64 encoder on every byte string. |
| Base64.ForgivingDecodeRejects | src/services/encryptionService.ts:69 | `atob` fails on every input holding a character that is not in the alphabet, not `=` and not ASCII whitespace. |
| Adapter.Normalise | src/algorithem/LWE_wrapper.py:139 | `ljust(32, b"\x00")[:32]` always gives 32 bytes. Longer input is truncated, and shorter input is kept with zeros after it. |
| Adapter.AsciiEncode | src/algorithem/LWE_wrapper.py:134 | `.encode("ascii")` succeeds exactly when every code point is below 128, and then yields those code points as bytes. |
| Adapter.DecodeSeed | src/algorithem/LWE_wrapper.py:133-137 | Non-ASCII text and failed base64 both give 32 zero bytes. Otherwise the result is the decoded bytes. |
| Adapter.AdapterDecrypt | src/algorithem/LWE_wrapper.py:130-139 | `LWEAdapter.decrypt` fails exactly when the scheme's `decrypt` raises, and otherwise returns exactly 32 bytes: the normalised decoded seed. |
| Adapter.AdapterDecryptRejects | src/algorithem/LWE_wrapper.py:133-139 | When the decrypted text is not ASCII base64, the adapter returns 32 zero bytes. |
| Adapter.SeedText | src/algorithem/LWE_wrapper.py:126 | The base64 text of a seed is Latin-1 without NUL, so the bit codec carries it losslessly. |
| Adapter.EncryptDet | src/algorithem/LWE_wrapper.py:120-128 | `encrypt_det` fails exactly when no keys exist, and otherwise yields 8 pairs per base64 character of the seed. |
| Adapter.AdapterDecryptSeedText | src/algorithem/LWE_wrapper.py:130-139 | If the scheme returns a 32-byte seed's base64 text, the adapter returns that seed. |
| Adapter.AdapterRoundTrip | src/algorithem/LWE_wrapper.py:120-139 | Under generated keys and small noise, a 32-byte seed passed through `encrypt_det` comes back from the adapter's `decrypt` unchanged. |
| Adapter.Xor | src/algorithem/LWE_wrapper.py:181 | The bitwise exclusive or of the low k bits is below 2^k. |
| Adapter.XorCancel | src/algorithem/LWE_wrapper.py:181 | (x ^ y) ^ y == x for every x below 2^k. |
| Adapter.XorCipher | src/algorithem/LWE_wrapper.py:180-181 | `xor_encrypt_decrypt` raises ZeroDivisionError exactly for an empty key with a non-empty message, and otherwise keeps the length. |
| Adapter.XorInvolution | src/algorithem/LWE_wrapper.py:180-181 | With a non-empty key, applying the cipher twice returns the message. |
| JsText.Trim | src/services/encryptionService.ts:41 | `s.trim()` is an infix of s with only white space before and after it, and it neither starts nor ends with white space. It is empty exactly when every code unit of s is ECMAScript white space or a line terminator; the same call guards `decrypt` at line 64. |
| JsText.Btoa | src/services/encryptionService.ts:47 | `btoa` succeeds exactly when every code unit is at most 0xFF. |
| JsText.Atob | src/services/encryptionService.ts:69 | A successful `atob` yields code units of at most 0xFF. |
| JsText.AtobBtoa | src/services/encryptionService.ts:47 | `atob(btoa(s)) == s` for every Latin-1 string. |
| JsText.BtoaAlphabet | src/services/encryptionService.ts:36 | `btoa` output holds only alphabet characters and `=`. |
| JsText.BtoaNotBlank | src/services/encryptionService.ts:47 | The `btoa` image of a non-empty string is not blank. |
| JsText.ToUrlSafe | src/services/encryptionService.ts:36 | The key substitution maps `+` to `-` and `/` to `_`, changes no other unit, and keeps the length. |
| JsText.FromUrlSafe | src/services/encryptionService.ts:88 | The `validateKey` substitution maps `-` to `+` and `_` to `/`, changes no other unit, and keeps the length. |
| JsText.FromUrlSafeToUrlSafe | src/services/encryptionService.ts:88 | The reverse substitution undoes the forward one on every string without `-` or `_`. |
| JsText.ToUrlSafeAlphabet | src/services/encryptionService.ts:36 | After the forward substitution no `+` or `/` is left. |
| JsText.FirstSegment | src/services/encryptionService.ts:70 | `split('|')[0]` is the longest `|`-free prefix: a prefix without `|`, followed by `|` or by the end. |
| JsText.AfterLastBar | src/services/encryptionService.ts:70-71 | The part after the last `|` is a `|`-free suffix, preceded by `|` or by nothing. |
| JsText.FirstSegmentStops | src/services/encryptionService.ts:70 | Whatever follows a `|` does not change `split('|')[0]`. |
| JsText.FirstSegmentReverse | src/services/encryptionService.ts:70-71 | The first segment of a reversed string is the reversal of the original's part after its last `|`. |
| EncryptionService.Override | src/services/encryptionService.ts:12 | In the spread `{ ...base, ...patch }` every supplied field takes the patch's value, and every absent field keeps the base's. |
| EncryptionService.Merge | src/services/encryptionService.ts:4-12 | Without overrides the parameters are exactly the defaults {512, 1024, 3, 256}. |
| EncryptionService.MergeOverrides | src/services/encryptionService.ts:4-12 | Each supplied field overrides its default independently. An empty patch leaves the defaults, and a complete patch replaces them. |
| EncryptionService.KeyJson | src/services/encryptionService.ts:27-35 | The key record's JSON is Latin-1 and starts with `{"type":"` followed by the type name. |
| EncryptionService.KeyJsonTypesDiffer | src/services/encryptionService.ts:27-35 | The JSON of a public key record differs from that of a private key record, whatever the timestamps. |
| EncryptionService.GenerateDummyKey | src/services/encryptionService.ts:26-37 | Undoing the URL-safe substitution and decoding a generated token, as `validateKey` does, recovers exactly the key record's JSON, and every code unit of the token is at most 0xFF. |
| EncryptionService.ValidateKeyDecode | src/services/encryptionService.ts:88 | A successful decode in `validateKey` yields Latin-1 text. |
| EncryptionService.GenerateKeyPair | src/services/encryptionService.ts:11-24 | The key pair carries the merged parameters and the given date. The public and private keys differ, and each decodes to its own record's JSON. |
| EncryptionService.KeyPrefix | src/services/encryptionService.ts:47 | `substring(0, 16)` is a prefix of length min(16, len). |
| EncryptionService.Payload | src/services/encryptionService.ts:46-47 | The string given to `btoa` is the reversed message, a `|` at position len(message), then the key prefix. Its first `|`-segment, reversed, is the message's part after its last `|`. |
| EncryptionService.PayloadLatin1 | src/services/encryptionService.ts:46-47 | The string given to `btoa` is Latin-1 exactly when the message and the key prefix are. |
| EncryptionService.Encrypt | src/services/encryptionService.ts:39-60 | A blank message gives the empty-message error. Success holds exactly for a non-blank Latin-1 message with a Latin-1 key prefix, and its ciphertext decodes to reverse(m) + `|` + prefix. Any failure has an empty ciphertext, and a non-blank failure carries the `Encryption failed: ` prefix. |
| EncryptionService.Decrypt | src/services/encryptionService.ts:62-84 | A blank ciphertext gives the empty-ciphertext error. Success holds exactly when `atob` succeeds, and otherwise the decryption-failed error comes with an empty plaintext. On success the plaintext has no `|`, its reversal begins the decoded text, and a `|` or the end follows. |
| EncryptionService.Unreverse | src/services/encryptionService.ts:70-71 | The decoded text up to its first `|`, reversed, is `|`-free, and its reversal is a prefix ending at a `|` or at the end. |
| EncryptionService.CiphertextNotBlank | src/services/encryptionService.ts:47-64 | A successful ciphertext is never blank, so `decrypt` does not reject it as empty. |
| EncryptionService.DecryptEncryptAfterLastBar | src/services/encryptionService.ts:46-71 | For any non-blank Latin-1 message with a Latin-1 key prefix, decrypt(encrypt(m)) returns the part of m after its last `|`, whatever the private key. |
| EncryptionService.DecryptEncrypt | src/services/encryptionService.ts:39-75 | A non-blank Latin-1 message without `|` comes back unchanged for any public key with a Latin-1 prefix and any private key. |
| EncryptionService.DecryptRejectsForeign | src/services/encryptionService.ts:69-82 | A non-blank ciphertext with a character outside base64, `=` and ASCII white space gives the decryption-failed result. |
| EncryptionService.DecryptRejectsSample | src/services/encryptionService.ts:62-84 | `decrypt("not-a-valid-token", key)` fails with "Decryption failed: Invalid ciphertext or key". |
| EncryptionService.HelloLatticeNotBase64 | src/services/encryptionService.ts:69 | "Hello, Lattice!" itself is not valid base64 input. |
| EncryptionService.HelloLatticeRoundTrip | src/services/encryptionService.ts:11-75 | With default parameters, "Hello, Lattice!" encrypts to a token different from itself, and that token decrypts back to it with the paired private key. |
| EncryptionService.GeneratedKeyPrefixLatin1 | src/services/encryptionService.ts:36-47 | Every code unit of a generated key's prefix is at most 0xFF, so only the message decides whether `encrypt` succeeds. |

## Left out

- Randomness and entropy are not modelled: `random.sample`, `random.randint`, `np.random.*`, `os.urandom` and the seeding in `encrypt_det`. The secret, matrix, noise, subsets and coins are arguments instead.
- `_discrete_gaussian` is floating-point Box-Muller sampling and is not modelled. The noise enters as its reduced integer vector `e`.
- SHAKE-256 is a foreign hash and is a function parameter of `H`. The `LWE_KEM_AD` keygen/encaps/decaps flow and its security argument are not modelled. Its building blocks are: `serialize_pk`, `serialize_ct`, `ct_equal`, `H` framing, the adapter.
- `H` also accepts `str` parts and encodes them to UTF-8 first. Only byte parts are modelled.
- numpy's native byte order is not fixed by the source, so it is a `ByteOrder` argument.
- Lwe.Decrypt: numpy `int32` wrap-around on out-of-range ciphertext entries is not modelled. Results are stated for well-formed ciphertexts, whose entries stay far below 2^31.
- Lwe.NewLwe: the `sigma` constructor argument only feeds the noise sampler, so it is not a field of the model.
- Lwe.GenerateKeys: requires (n+1)·q ≤ 2^31 − 1, and so do `Encrypt` and `Decrypt` through `Valid`. This bound keeps numpy's `int32` arithmetic exact; the source does not check it.
- BitCodec.BitsToString: `_bits_to_string` pads its argument list in place. This side effect on the caller's list is not modelled.
- Adapter.AdapterDecrypt: the `sk` argument is unused by the source and is omitted.
- Adapter.EncryptDet: the coins only seed the random generators. They are replaced by the row subsets those generators would draw.
- Adapter.EncryptDet: the `pk` argument is unused by the source, which encrypts with the key held inside the scheme object, and is omitted.
- Base64.PyB64Decode: models CPython 3.11 and later, where `validate=True` runs `binascii.a2b_base64` in strict mode. CPython 3.10 and earlier also accept excess `=` after a complete group, such as `QUJD=` and `QUI==`; that variant is not modelled. The one-character-too-many message omits the character count CPython inserts into it.
- `JSON.stringify` is modelled only for the key record, with integer numbers. Exponent notation for magnitudes of 1e21 and above, fractions, NaN and infinities are left out.
- `JSON.parse` and the truthiness check in `validateKey` are not modelled; only its decoding half is.
- `Date.now()` and `new Date()` are clock reads and become integer arguments.
- EncryptionService.Encrypt: the host's `btoa` error message is an argument (`btoaMessage`), because its text is not fixed by any standard.
- `Partial<LWEParameters>` with an explicitly `undefined` field is not modelled. JavaScript's spread would copy the `undefined` over the default; here a field is either supplied or absent.
- The React components, the clipboard and the simulated latency are presentation and are not modelled. So are the `__main__` demo and its printing.
