# h-crypto envelope core in Dafny

A model of the core of h-crypto, a TypeScript library for hybrid encryption,
with proofs about that model. Three parts are modelled:

- **Hybrid envelope** (`hybrid.dfy`, `jsvalue.dfy`).
  - `hybridEncrypt` AES-encrypts the data.
  - It RSA-encrypts the JSON text of a *KeyInfo* object `{secretKey, iv, salt}` taken from `config.aes`.
  - It returns the JSON envelope `{encryptedData, encryptedKey}`.
  - `hybridDecrypt` parses the envelope, unwraps and parses the KeyInfo, and merges it over the caller's AES configuration with an object spread (recovered values win).
  - It then AES-decrypts. Any failure becomes `null`.
  - JavaScript values are the datatype `JsValue.Value`. Object spread is map union: the right-hand operand wins.
- **Key and IV generation** (`keygen.dfy`).
  - `randomKey`, `randomIV` and `randomIVHex` are functions of the random bytes they would draw.
  - Both code paths are modelled: browser `map`/`padStart`/`join`/`slice`, and Node `toString("hex")`/`toString("latin1")`.
  - Both are proved to match one hex reference encoding.
- **Base64 codec and sealed box** (`base64.dfy`, `sodium.dfy`, `bytes.dfy`).
  - `toBase64` and `fromBase64` are methods. Their browser-path loops run over arrays.
  - Encoding is RFC 4648, section 4.
  - The browser's `atob` is the forgiving-base64 decode of the WHATWG Infra Standard, which the HTML standard's `atob` calls.
  - `generateSodiumKeyPair`, `sodiumSeal` and `sodiumUnseal` are compositions over the libsodium calls.

The cryptographic primitives, `JSON.stringify`/`JSON.parse`, `TextEncoder`/`TextDecoder`
and Node's base64 decoder are passed in as functions. They are the fields of
`HybridEncryptor.Primitives`, `Sodium.SealedBox`, `Sodium.TextCodec` and
`Sodium.Env`. `None` stands for an exception or a rejected promise.

What these functions are trusted to do is stated as ghost predicates:
`JsonRoundTrips`, `AesRoundTrips`, `RsaRoundTrips`, `OpensSealed`,
`TextRoundTrips` and `DecoderInvertsEncoding`. The lemmas that need them take them as `requires`.

Notes on the code:

- The configuration fields are `aes` and `rsa`.
- The hybrid envelope always wraps with RSA. The sealed-box functions are separate exports and are not wired into it.
- `hybridDecrypt` applies one policy to every field, `algorithm` included: recovered KeyInfo values win over the caller's.

## Model

| member | source | states |
|---|---|---|
| `HybridEncryptor.HybridEncrypt` | src/hybrid/hybridEncryptor.ts:5-24 | `hybridEncrypt`: succeeds exactly when both AES encryption and RSA wrapping succeed; its token is described by `EnvelopeShape` and `RoundTrip` |
| `HybridEncryptor.Destructure` | src/hybrid/hybridEncryptor.ts:31 | destructuring throws exactly on `null` and `undefined`; an object yields its `encryptedData` and `encryptedKey` properties (`undefined` where missing); any other value yields two `undefined` fields |
| `HybridEncryptor.OpenEnvelope` | src/hybrid/hybridEncryptor.ts:30-37 | succeeds exactly when the token parses, destructures, its key unwraps and the key info parses; then yields `encryptedData` with the recovered key info spread over `config.aes`, which keeps all four AES properties |
| `HybridEncryptor.HybridDecrypt` | src/hybrid/hybridEncryptor.ts:26-43 | `hybridDecrypt`: a non-`null` result is AES decryption under a configuration holding all four AES properties; `StepsSucceedDecrypts` and `SuccessPassesEveryStep` give both directions, `RoundTrip` and the fail-closed lemmas the rest |
| `HybridEncryptor.WrappedKeyInfoShape` | src/hybrid/hybridEncryptor.ts:12-16 | the wrapped text parses back to an object with exactly `secretKey`, `iv`, `salt`, copied from `config.aes`; `algorithm` is absent |
| `HybridEncryptor.EnvelopeShape` | src/hybrid/hybridEncryptor.ts:5-24 | encryption succeeds iff AES and RSA both do; the token parses to an object with exactly `encryptedData` (the AES output) and `encryptedKey` (the RSA output) |
| `HybridEncryptor.Spread` | src/hybrid/hybridEncryptor.ts:37 | merged keys are the union; every recovered property wins; every caller property not recovered is kept unchanged |
| `JsValue.OwnProps` | src/hybrid/hybridEncryptor.ts:37 | what a spread copies: an object's entries, array elements and string characters under their index names (exact key set), nothing for other values |
| `HybridEncryptor.AlgorithmComesFromCaller` | src/hybrid/hybridEncryptor.ts:37 | a recovered object without `algorithm` leaves the caller's algorithm, and each recovered property overrides |
| `HybridEncryptor.HonestKeyInfoKeepsConfig` | src/hybrid/hybridEncryptor.ts:37 | merging the sender's own KeyInfo over its AES config yields that config unchanged |
| `HybridEncryptor.RoundTrip` | src/hybrid/hybridEncryptor.ts:5-43 | with round-tripping JSON, AES and an RSA key pair, every produced token opens to the AES output under an effective config equal to `config.aes`, and decrypts to the original data |
| `HybridEncryptor.FailsClosedOnToken` | src/hybrid/hybridEncryptor.ts:30-42 | an unparsable token, or one parsing to `null`, yields `null` |
| `HybridEncryptor.FailsClosedOnKey` | src/hybrid/hybridEncryptor.ts:34-41 | if unwrapping under the supplied private key fails or yields non-JSON, the result is `null` whatever AES decryption would do |
| `HybridEncryptor.SuccessPassesEveryStep` | src/hybrid/hybridEncryptor.ts:30-42 | a non-`null` result implies every step succeeded and equals AES decryption under the merged config |
| `HybridEncryptor.StepsSucceedDecrypts` | src/hybrid/hybridEncryptor.ts:30-39 | when the token parses, destructures, unwraps and its key info parses, the result is AES decryption of `encryptedData` under that key info spread over `config.aes`, whatever the key info holds |
| `HybridEncryptor.ForeignSenderKeyInfoWins` | src/hybrid/hybridEncryptor.ts:34-39 | key info recovered from another sender makes AES decryption run with that sender's `secretKey`, `iv` and `salt` and the receiver's own `algorithm` |
| `KeyGenerator.RandomKey` | src/utils/keyGenerator.ts:9-29 | exactly `length` lowercase hex digits, char i the proper nibble of byte i/2, the `length`-prefix of the hex encoding, on both paths |
| `KeyGenerator.OddKeyDropsLastNibble` | src/utils/keyGenerator.ts:15-21 | for odd `length` the key is the hex encoding minus the last byte's low nibble |
| `KeyGenerator.PaddedByteIsTwoNibbles` | src/utils/keyGenerator.ts:19 | `toString(16).padStart(2, "0")` of a byte is its two nibbles |
| `KeyGenerator.BrowserHex` | src/utils/keyGenerator.ts:18-20 | the map/padStart/join rendering equals `toString("hex")` (`HexEncode`) for every byte array |
| `KeyGenerator.HexEncodeAt` | src/utils/keyGenerator.ts:26-28 | characters 2i and 2i+1 of the hex encoding are the high and low nibble of byte i |
| `KeyGenerator.HexEncode` | src/utils/keyGenerator.ts:27 | n bytes give 2n characters |
| `KeyGenerator.RandomIV` | src/utils/keyGenerator.ts:35-49 | exactly 16 characters, char i has code byte i (< 256), on both paths |
| `KeyGenerator.RandomIVHex` | src/utils/keyGenerator.ts:52-69 | exactly 2*bytes lowercase hex digits, equal to the hex encoding (the slice never cuts) |
| `KeyGenerator.DefaultSizes` | src/utils/keyGenerator.ts:9-52 | with default arguments `randomKey()` and `randomIVHex()` have 32 characters |
| `Base64.EncodeShape` | src/hybrid/sodium.ts:12-17 | the encoding has length 4*ceil(n/3), alphabet characters and `=` only, `=` exactly as the final (3 - n mod 3) mod 3 characters |
| `Base64.Btoa` | src/hybrid/sodium.ts:12 | `btoa` succeeds iff every character is below U+0100; its text has 4*ceil(n/3) characters and `atob` reads the original string back from it |
| `Base64.Atob` | src/hybrid/sodium.ts:22 | `atob` fails exactly where the forgiving decode does; otherwise a binary string no longer than the input, each character below U+0100 and the code of the corresponding decoded byte |
| `Base64.DecodeEncode` | src/hybrid/sodium.ts:22 | the forgiving decode recovers every byte sequence from its encoding |
| `Base64.AtobBtoa` | src/hybrid/sodium.ts:12-22 | `btoa` of a binary string is the encoding of its bytes, and `atob` gives the binary string back |
| `Sodium.BinaryFromBytes` | src/hybrid/sodium.ts:10-11 | the binary string has `buf.length` characters and char i has code `buf[i]` |
| `Sodium.ToBase64` | src/hybrid/sodium.ts:8-18 | both environments return the RFC 4648 encoding of the buffer; `btoa` cannot throw |
| `Sodium.BytesFromBinary` | src/hybrid/sodium.ts:23-25 | a fresh array of the string's length, element i being `charCodeAt(i)` stored as a byte |
| `Sodium.DecodeBase64` | src/hybrid/sodium.ts:20-31 | the bytes `fromBase64` yields: the server decoder never fails; in a browser it fails exactly where `atob` throws and yields no more bytes than characters |
| `Sodium.FromBase64` | src/hybrid/sodium.ts:20-31 | fails iff the environment's decoder fails; otherwise a fresh array with the decoded bytes |
| `Sodium.CodecRoundTrip` | src/hybrid/sodium.ts:8-31 | in both environments decoding the encoding of `b` gives `b` |
| `Sodium.GenerateSodiumKeyPair` | src/hybrid/sodium.ts:33-43 | both keys are base64 text of length 4*ceil(n/3) that the forgiving decode reads back to the raw keys |
| `Sodium.SodiumSeal` | src/hybrid/sodium.ts:45-54 | fails exactly when the recipient key does not decode or sealing throws; the result decodes back to the sealed box |
| `Sodium.SodiumUnseal` | src/hybrid/sodium.ts:56-67 | succeeds exactly when all three inputs decode and the box opens, and then yields the UTF-8 decoding of the opened message |
| `Sodium.GeneratedKeysDecode` | src/hybrid/sodium.ts:33-43 | the generated base64 keys decode to the raw key pair |
| `Sodium.SealUnsealRoundTrip` | src/hybrid/sodium.ts:45-67 | a successful seal to the recipient's public key unseals with its key pair to the plaintext |
| `Sodium.GeneratedKeyPairRoundTrip` | src/hybrid/sodium.ts:33-67 | with keys from `generateSodiumKeyPair`, seal then unseal returns the plaintext |
| `Sodium.UnsealFailsOnBadInput` | src/hybrid/sodium.ts:56-67 | a key or box that does not decode, or a box that does not open, makes unsealing fail; an undecodable input fails whatever `crypto_box_seal_open` would do |
| `Bytes.Latin1Codes` | src/hybrid/sodium.ts:25 | storing each char code of a binary string in a byte array gives back its bytes |

## Left out

- AES, RSA and libsodium. Their internals are not modelled: cipher modes, OAEP size limits and GCM tags. They are abstract functions. Their round trips are hypotheses of the lemmas.
- Key mismatch is not derived from RSA itself. `FailsClosedOnKey` assumes that unwrapping under the wrong key fails and proves what follows from that.
- `JSON.stringify`/`JSON.parse` are an abstract pair. So are `TextEncoder`/`TextDecoder` (UTF-8). Each round trip is a hypothesis.
- JSON numbers are modelled as integers, not IEEE doubles. Property order of objects is not modelled, since objects are maps.
- Characters are Unicode scalar values, not UTF-16 code units. So a spread string's elements are per scalar value, and lone surrogates cannot occur.
- Prototype properties are not modelled beyond the envelope's two names.
- Node's `Buffer.from(text, "base64")` decoder is a parameter. It is assumed to invert canonical encodings, because that lenient handling of malformed text belongs to Node's built-in decoder, outside this library. Node's encoder is modelled as the RFC 4648 encoding.
- The secure random sources are not modelled. `getRandomValues` and `randomBytes` become the `entropy` parameter, and the `typeof window`/`window.crypto` tests become the `webCrypto` flag or `Sodium.Env`.
- `KeyGenerator.RandomKey`, `KeyGenerator.RandomIV` and `KeyGenerator.RandomIVHex`: when `window` exists but `window.crypto.getRandomValues` does not, the source falls through to the Node path, where `require("crypto")` can throw. The model's `webCrypto == false` path always succeeds, so that failure is not modelled.
- `KeyGenerator.RandomKey` and `KeyGenerator.RandomIVHex`: `length` and `bytes` are natural numbers. Negative or fractional JavaScript numbers, and the `RangeError` some of them cause, are not modelled.
- `KeyGenerator.RandomKey` and `KeyGenerator.RandomIVHex`: the browser's `getRandomValues` throws a `QuotaExceededError` for more than 65536 bytes, so `randomKey(length)` with `length` above 131072, or `randomIVHex(bytes)` with `bytes` above 65536, throws in a browser. The model's entropy parameter has no such bound, so its results on both paths do not cover that failure.
- `crypto_box_keypair` is not modelled. Neither is the one-time asynchronous `sodium.ready` initialisation. `generateSodiumKeyPair` takes the raw key pair as input.
- `async`/`await` is modelled as sequential composition.
- `HybridEncryptor.HybridDecrypt` returns `Some(Null)` when AES decryption yields JSON `null`. The source cannot tell this apart from a failure.
- `randomIVForAlgorithm` is imported by a test but is not defined in src/utils/keyGenerator.ts. It is not part of this model.
