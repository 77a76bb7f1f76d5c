# Hybrid RSA-OAEP / AES-GCM envelope, modelled in Dafny

This project models the deterministic byte-level code of the `aes-gcm-rsa-oaep`
library (`src/index.ts`, `src/utils.ts`). The library seals a text as follows:

1. A fresh AES-GCM session key is wrapped with RSA-OAEP under the recipient's
   public key, bound to an OAEP label.
2. The text is encrypted with AES-GCM under that session key and an all-zero
   12-byte nonce.
3. Both ciphertexts go into one buffer:
   a two-byte length, the RSA ciphertext, then the AES ciphertext.

Decryption cuts the buffer apart again and reverses both steps. A third entry
point imports an RSA public key from PEM text.

The WebCrypto primitives are not code of this repository. They are the fields
of a `Provider` value supplied by the caller:

- key export and import;
- RSA-OAEP encryption and decryption (section 7.1 of RFC 8017);
- AES-GCM encryption and decryption (NIST SP 800-38D).

`atob`, `btoa` and the SPKI import are function parameters too. Nothing is
assumed about these functions. Each round-trip lemma states what it needs from
them as a precondition (`RsaKeyPair`, `SessionKeyRecoverable`, `LabelBound`).

Modules, one per concern:

- `Bytes` (bytes.dfy): byte and UTF-16 code-unit types, JavaScript strings as
  `seq<CodeUnit>`, and the clamping `ArrayBuffer.slice`.
- `Utils` (utils.dfy): `str2ab`, as a method filling a zero-initialised byte
  array through a Uint16 view, and the binary-string step of `arrayBufferToB64`.
- `Codecs` (codecs.dfy): `ab2str` and `uint8Str2Ab`.
- `Framing` (framing.dfy): `numberToLEBuffer` and `numberFromLEBuffer`, the
  three `set` writes that assemble the envelope, and the slicing in
  `HybridDecrypt`.
- `Pem` (pem.dfy): the three `replace` calls of `pemPublicKeyToCryptoKey`, and
  the import itself.
- `Hybrid` (hybrid.dfy): the zero nonce, the AES-GCM wrappers, `HybridEncrypt`
  and `HybridDecrypt`, and the round trip.

A Uint16Array view stores its elements in host byte order. This is the `Endian`
parameter. The round trip holds for either order, as long as both sides use the
same one.

Points where the code behaves differently from what its names or its use
suggest, all modelled as the code does them:

- The helpers `numberToLEBuffer` and `numberFromLEBuffer` are named "LE" but
  write and read the high byte first.
- A length of 65536 or more wraps modulo 65536 without error. `SplitFrame` shows
  what the split then returns.
- `HybridDecrypt` checks no length. A buffer shorter than its declared length
  gives a clamped RSA slice and an empty AES slice. A buffer shorter than two
  bytes makes the length NaN: the RSA slice is then empty and the AES slice is
  the whole buffer.
- The text is encoded as two bytes per UTF-16 code unit. So "Bonjour le monde"
  (16 code units) gives a 306-byte envelope with a 2048-bit key.
- The code defines no error of its own (overflow, malformed envelope, key
  import). Failures are only the primitives' rejections, plus the RangeError
  that `new Uint16Array` throws on an odd byte count.

## Model

| member | source | states |
|---|---|---|
| Bytes.Slice | src/index.ts:108-110 | `ArrayBuffer.slice` clamps both positions to the length: an in-range slice is exact, an end past the buffer stops at its end, and a start past the end or an end before the start gives an empty buffer |
| Utils.Str2Ab | src/utils.ts:8-15 | `str2ab` returns a freshly allocated buffer of exactly 2·\|s\| bytes, and its loop leaves it equal to the two-bytes-per-unit encoding of s; invariant: bytes [0, 2i) encode the first i code units, the rest are still 0 |
| Utils.EncodeUnitsAt | src/utils.ts:11-13 | element i of the Uint16 view on `str2ab(s)` is `s.charCodeAt(i)` for every i < \|s\|, units above 255 included (nothing is truncated) |
| Utils.EncodeUnitsAppend | src/utils.ts:9-13 | the empty string gives the empty buffer, and `str2ab(a + b)` is `str2ab(a)` followed by `str2ab(b)` |
| Utils.BinaryString | src/utils.ts:1-2 | the binary string `arrayBufferToB64` gives to `btoa` has one character per byte (same length as the buffer), and character i has code buf[i], so every code is below 256 |
| Codecs.ArrayBufferToB64RoundTrip | src/utils.ts:1-2 | given an `atob` that undoes `btoa` on binary strings, `uint8Str2Ab(atob(arrayBufferToB64(buf)))` is buf, byte for byte |
| Codecs.Ab2Str | src/index.ts:13-15 | `ab2str` succeeds exactly on buffers of even length (otherwise the Uint16Array view throws), and a buffer of 2k bytes gives k code units |
| Codecs.Ab2StrStr2Ab | src/index.ts:13-15 | `ab2str(str2ab(s)) == s` for every string and either host byte order |
| Codecs.Str2AbAb2Str | src/index.ts:13-15 | conversely, a buffer that `ab2str` decodes to s is exactly `str2ab(s)`, so the two codecs are inverse bijections |
| Codecs.TruncateUnits | src/index.ts:127-134 | the bytes `uint8Str2Ab` stores have the string's length, and they read back as the same string exactly when every code unit is below 256 |
| Codecs.TruncateBinaryString | src/index.ts:142-142 | `uint8Str2Ab` on a binary string (what `atob` returns) gives back the bytes it was made of |
| Codecs.Uint8Str2Ab | src/index.ts:127-134 | `uint8Str2Ab` returns a freshly allocated buffer of \|s\| bytes with byte i = `charCodeAt(i) % 256`; invariant: bytes [0, i) are written |
| Framing.NumberToLEBuffer | src/index.ts:17-21 | `numberToLEBuffer(n)` is two bytes, high byte first, which hold n modulo 65536 (`b0·256 + b1 == n % 65536`) |
| Framing.NumberFromLEBuffer | src/index.ts:23-26 | `numberFromLEBuffer` gives a number exactly when there are two bytes (NaN otherwise), and that number is below 65536 |
| Framing.PrefixRoundTrip | src/index.ts:17-26 | decoding an encoded length gives it back modulo 65536, so exactly for lengths below 65536; larger ones wrap silently |
| Framing.PrefixDecodeEncode | src/index.ts:17-26 | the first two bytes of any buffer are the encoding of the length they declare |
| Framing.Frame | src/index.ts:89-97 | the envelope has length 2 + \|rsa\| + \|aes\|, holds the RSA ciphertext at offset 2 and the AES ciphertext at 2 + \|rsa\|, and its prefix declares \|rsa\| mod 65536 |
| Framing.SetBytes | src/index.ts:94-96 | `Uint8Array.set(src, offset)` overwrites exactly bytes [offset, offset + \|src\|) with src and keeps every other byte |
| Framing.BuildEnvelope | src/index.ts:89-97 | the three `set` writes into a freshly allocated zeroed buffer of the total length leave exactly the framed envelope |
| Framing.SplitEnvelope | src/index.ts:108-110 | for L ≥ 2 bytes declaring N, the RSA part is bytes [2, min(2+N, L)) and the AES part bytes [min(2+N, L), L), which together with the prefix are the whole buffer; below 2 bytes the RSA part is empty and the AES part is the whole buffer |
| Framing.SplitFrame | src/index.ts:89-110 | splitting a framed envelope returns exactly (rsa, aes) if and only if \|rsa\| < 65536; otherwise it returns rsa cut at \|rsa\| mod 65536 and hands the rest to the AES part |
| Pem.FindFrom | src/index.ts:138-139 | gives the first occurrence of the marker at or after a position, or none when there is no occurrence |
| Pem.MatchSpan | src/index.ts:138-139 | the span found matches `-*MARKER-*`, and no span is found exactly when the text has no match at all |
| Pem.FirstMatchIsLeftmostLongest | src/index.ts:138-139 | the span removed is the one a JavaScript regular expression picks: no match starts further left, and none starting there is longer |
| Pem.ReplaceFirst | src/index.ts:138-139 | for a marker not starting with a dash, a single `replace` of `-*MARKER-*` leaves the text unchanged when it has no match; otherwise a first match (leftmost start, marker and greedy end fixed by that start) exists and the result is the text with exactly that match cut out, everything before and after it kept |
| Pem.RemoveNewlines | src/index.ts:140-140 | `replace(/\n/g, '')` leaves no line feed, and leaves a text without line feeds unchanged |
| Pem.RemoveNewlinesKeepsOthers | src/index.ts:140-140 | line-feed removal keeps the number of occurrences of every other code unit, carriage returns included: the multiset of the result is that of the input with line feeds taken out |
| Pem.RemoveNewlinesAppend | src/index.ts:140-140 | line-feed removal works piece by piece, so other units keep their order |
| Pem.StripPem | src/index.ts:137-140 | the text handed to `atob` contains no line feed |
| Pem.StripPemBlock | src/index.ts:137-140 | a PEM block (five-dash header line, body, five-dash footer line) whose body has no dash or space is stripped to its body without line feeds |
| Pem.PemPublicKeyToCryptoKey | src/index.ts:136-145 | the SPKI import receives exactly the bytes `atob` decodes from the stripped text, and a rejected decode yields no key |
| Hybrid.ZeroNonce | src/index.ts:34-35 | the AES-GCM IV is exactly `AES_GCM_NONCE_SIZE` = 12 bytes, all zero |
| Hybrid.AesGcmEncrypt | src/index.ts:33-44 | `aesGcmEncrypt` encrypts the `str2ab` bytes of the text under the all-zero nonce |
| Hybrid.HybridEncrypt | src/index.ts:75-98 | `HybridEncrypt` resolves to the framed envelope of the wrapped session key and the AES ciphertext, or to the first rejection; the prefix declares the RSA ciphertext's length mod 65536 |
| Hybrid.AesGcmDecrypt | src/index.ts:51-64 | `aesGcmDecrypt` fails with the AES rejection exactly when the primitive rejects, with the RangeError of the Uint16Array view when the primitive's plaintext has an odd byte count, and succeeds otherwise; then `str2ab` of the result is that plaintext |
| Hybrid.HybridDecrypt | src/index.ts:107-125 | `HybridDecrypt` fails at the RSA step exactly when RSA-OAEP decryption of the slice after the prefix rejects, fails at the import when the decrypted session key does not import, and succeeds exactly when RSA decryption, key import and AES-GCM decryption of the remaining slice under the zero nonce all succeed with an even-length plaintext; `str2ab` of the returned text is then that plaintext |
| Hybrid.AesGcmRoundTrip | src/index.ts:33-64 | `aesGcmDecrypt` undoes `aesGcmEncrypt` for a recoverable session key: same zero nonce, and `ab2str` undoes `str2ab` |
| Hybrid.HybridRoundTrip | src/__tests__/index.test.ts:20-27 | for a key pair, the same label and the same host byte order, `HybridDecrypt(HybridEncrypt(text))` is the text |
| Hybrid.LabelMismatchRejected | src/index.ts:107-118 | decrypting under a different label fails at the RSA step with no plaintext, when the primitive binds the label |
| Hybrid.BonjourEnvelopeLength | src/__tests__/index.test.ts:20-23 | "Bonjour le monde" under a 2048-bit key and a 16-byte GCM tag gives an envelope of 2 + 256 + 32 + 16 = 306 bytes |

`Hybrid.EncryptedEnvelope` is the value-level definition that
`Hybrid.HybridEncrypt` and the round-trip lemmas are stated against.

## Left out

- WebCrypto primitives (`generateKey`, `exportKey`, `importKey`, `encrypt`, `decrypt`): library calls, supplied as functions; their cryptographic strength (confidentiality, tag checking, tamper detection) is not modelled.
- Session key generation: the key is a parameter of `HybridEncrypt`, so that it is fresh and single-use is the caller's matter and is not modelled; the 256-bit key length is an argument of the primitives.
- Crypto provider selection by runtime environment (src/index.ts:4): host plumbing, replaced by the `Provider` parameter.
- `atob` and `btoa` (src/utils.ts:2, 17-22): platform base64 functions, supplied as parameters.
- Promise sequencing: the calls are modelled in order, without asynchrony.
- The RangeError that `String.fromCharCode.apply` throws when its argument list is too long (very large buffers in `ab2str` and `arrayBufferToB64`): an engine limit, not modelled.
- JavaScript numbers are doubles; lengths are modelled as unbounded naturals, which agree with them for every buffer size the engine allows.
- Envelopes exchanged between hosts of different byte order: the round trip is stated for one `Endian` on both sides.
- Framing.SetBytes: models only the in-bounds path of `TypedArray.prototype.set`, the only one the envelope code reaches; the RangeError for an overlong source is not modelled.
- Pem.ReplaceFirst: stated for markers that do not begin with a dash, as both markers the code uses; for such a marker the first match of `-*MARKER-*` starts at the dashes right before the first occurrence of the marker.
- Pem.StripPemBlock: stated for the standard five-dash layout with a line feed after each line; other layouts are covered only by Pem.ReplaceFirst, Pem.FirstMatchIsLeftmostLongest and Pem.RemoveNewlines.
- The example script, the Jest environment and the test file (other than as the source of the round-trip and scenario lemmas).
