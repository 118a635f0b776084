# Deterministic Ed25519 key generation — verified model of the byte logic

The key generator derives an Ed25519 key pair from a passphrase and a salt in
four steps:

1. It runs PBKDF2-HMAC-SHA-256 over the UTF-8 passphrase and salt, with
   100000 iterations, for 256 bits.
2. It puts a fixed 16-byte PKCS#8 header in front of those 32 bytes.
3. It imports the result as an Ed25519 private key and exports it as a JSON
   Web Key (JWK).
4. It deletes the private member `d`, sets `key_ops` to `["verify"]`, and
   imports the edited JWK again as the public key.

The file also has two hex helpers. `ab2hex` writes bytes as lower-case hex
text. `hex2ab` collects every non-overlapping pair of adjacent hex digits of
a string and parses each pair as a byte.

The model covers the parts the file computes itself:

- the hex codec: `HexCodec`, `HexLemmas`, and `RegExpScan`, which is the
  regular-expression engine's global match loop;
- the header constant and the PKCS#8 concatenation: `Pkcs8`, checked
  against a small DER encoder `Der` that builds the RFC 8410 structure from
  its ASN.1 definition;
- the JWK edit: `Jwk`;
- the data flow of `genDetEd25519KeyPair`: `KeyGen`.

`KeyGen` passes the WebCrypto calls (PBKDF2, the key imports and exports)
and `TextEncoder` in as uninterpreted functions.

The model keeps the code's lenient behaviour:

- `hex2ab` does not reject odd-length input or non-hex characters. It skips
  them silently.
- `hex2ab` throws only when it finds no pair of adjacent hex digits. The
  empty string is such a case, so `hex2ab(ab2hex([]))` throws and does not
  return `[]`.
- The code has no inverse of the PKCS#8 wrap. It also has no iteration
  parameter, since the count is a constant.

## Model

| member | source | states |
|---|---|---|
| HexCodec.ByteToHex | det_key_gen_ed25519.js:36 | `('00' + x.toString(16)).slice(-2)` is always two characters: the high nibble's digit, then the low nibble's, zero-padded |
| HexCodec.Ab2hex | det_key_gen_ed25519.js:35-37 | the text is 2·n characters long, uses only `0-9a-f`, and characters 2i and 2i+1 are byte i's high and low nibble |
| HexCodec.Matches | det_key_gen_ed25519.js:40 | every piece the global match collects is two hex digits, and there are at most half as many pieces as characters |
| HexCodec.ParseAll | det_key_gen_ed25519.js:40 | one byte per matched pair, each equal to `parseInt(pair, 16)`, whose high and low nibbles are the values of the pair's two digits |
| HexCodec.Hex2ab | det_key_gen_ed25519.js:39-41 | a successful decode yields at least one byte and at most half as many bytes as input characters |
| HexLemmas.Ab2hexUnique | det_key_gen_ed25519.js:35-36 | `ab2hex(b)` is the only string of length 2·n with the nibble digits of each byte at 2i and 2i+1 |
| HexLemmas.Ab2hexAppend | det_key_gen_ed25519.js:36 | the hex of a concatenation is the concatenation of the hex texts, because `join('')` adds no separator |
| HexLemmas.MatchesOfAb2hex | det_key_gen_ed25519.js:35-41 | scanning the output of `ab2hex` finds exactly one pair per byte, and parsing the pairs gives the bytes back |
| HexLemmas.RoundTrip | det_key_gen_ed25519.js:35-41 | `hex2ab(ab2hex(b)) == b` for every non-empty b; for the empty buffer `hex2ab("")` throws |
| HexLemmas.MatchesEmptyIff | det_key_gen_ed25519.js:40 | the global match finds nothing exactly when no two adjacent characters are hex digits |
| HexLemmas.Hex2abFailsIff | det_key_gen_ed25519.js:40 | `hex2ab` throws (null `match`, then `.map`) if and only if the input has no two adjacent hex digits |
| HexLemmas.MatchesUpToHexCase | det_key_gen_ed25519.js:40 | strings that differ only in the case of hex letters scan to the same number of pairs with the same values |
| HexLemmas.Hex2abIgnoresCase | det_key_gen_ed25519.js:40 | the `i` flag: inputs that differ only in the case of hex letters decode to the same result, failures included |
| HexLemmas.Hex2abSwapCaseAt | det_key_gen_ed25519.js:40 | switching the case of the hex letter at any one position does not change the result |
| HexLemmas.MatchesAcrossSeparator | det_key_gen_ed25519.js:40 | a non-hex character splits the scan: the pairs of `a + c + b` are the pairs of a followed by the pairs of b |
| HexLemmas.Hex2abJoinedBySeparator | det_key_gen_ed25519.js:35-41 | the hex of two buffers joined by any non-hex character decodes to the two buffers concatenated, unless both buffers are empty |
| HexLemmas.ExampleOddLength | det_key_gen_ed25519.js:40 | `hex2ab("abc")` is `[0xab]` and `hex2ab("a1b")` is `[0xa1]`: an odd trailing digit is dropped and pairs never overlap |
| HexLemmas.ExampleSeparator | det_key_gen_ed25519.js:40 | `hex2ab("0A:ff")` is `[0x0a, 0xff]`: separators are skipped and upper-case digits are read |
| HexLemmas.ExampleNoPair | det_key_gen_ed25519.js:40 | `""`, `"a-b-c"` and `"zz"` make `hex2ab` throw |
| RegExpScan.GlobalMatch | det_key_gen_ed25519.js:40 | the engine's `lastIndex` loop returns null exactly when there is no adjacent hex pair, and otherwise returns the pairs of the left-to-right scanning rule |
| Pkcs8.PrefixDecodes | det_key_gen_ed25519.js:3 | `hex2ab(prefixHex)` does not throw and yields the 16 bytes `30 2e 02 01 00 30 05 06 03 2b 65 70 04 22 04 20` |
| Pkcs8.WrapSeed | det_key_gen_ed25519.js:16 | the private key buffer is the 16 header bytes followed by the raw PBKDF2 output, unchanged |
| Pkcs8.WrapSeedDerFields | det_key_gen_ed25519.js:3-4 | for a 256-bit seed the buffer is 48 bytes. The header's DER fields agree with it: SEQUENCE length 0x2e = 48−2, INTEGER 0, OID `2b 65 70`, OCTET STRING length 0x22 = 2+32, inner OCTET STRING length 0x20 = 32 |
| Pkcs8.WrapSeedIsEd25519PrivateKeyInfo | det_key_gen_ed25519.js:16 | for a 256-bit seed the buffer equals the DER of the RFC 8410 section 7 `OneAsymmetricKey`, built independently from its ASN.1 definition |
| Pkcs8.WrapSeedInjective | det_key_gen_ed25519.js:16 | distinct seeds give distinct private key buffers |
| Jwk.ToPublicJwk | det_key_gen_ed25519.js:29-32 | the JWK handed to import has no `d`, has `key_ops` equal to `["verify"]`, and has every other member unchanged, with no member added or dropped |
| Jwk.ToPublicJwkIgnoresPrivate | det_key_gen_ed25519.js:30-31 | the public JWK is the same for any two keys that agree outside `d` and `key_ops`, so it depends on no private material |
| Jwk.ToPublicJwkIdempotent | det_key_gen_ed25519.js:30-31 | stripping an already stripped JWK changes nothing |
| KeyGen.DeriveRawPrivate | det_key_gen_ed25519.js:24-26 | `deriveBits` is called with the file's fixed arguments: PBKDF2 over the passphrase bytes and salt bytes, 100000 iterations, SHA-256, 256 bits |
| KeyGen.PublicSpki | det_key_gen_ed25519.js:20-33 | the public key is the SPKI export of a JWK that has no `d`, has `key_ops` equal to `["verify"]`, has exactly the private export's other members plus `key_ops`, and carries each of those members unchanged |
| KeyGen.PublicSpkiIgnoresPrivate | det_key_gen_ed25519.js:29-32 | two private keys whose JWK exports agree outside `d` and `key_ops` give the same public key, so `d` never reaches it |
| KeyGen.GenDetEd25519KeyPair | det_key_gen_ed25519.js:8-22 | `pkcs8AB` is the header followed by PBKDF2(utf8(passphrase), utf8(salt), 100000, SHA-256, 256), and `spkiAB` is the SPKI export of the stripped JWK of the key imported from that same `pkcs8AB` |
| KeyGen.GenDetPrivateKeyIsPkcs8 | det_key_gen_ed25519.js:24-26 | when `deriveBits` returns the 256 bits it was asked for, `pkcs8AB` is the 48-byte RFC 8410 private key around that seed |
| KeyGen.GenDetDependsOnlyOnEncodings | det_key_gen_ed25519.js:8-16 | the key pair is a function of the UTF-8 bytes of passphrase and salt alone, so equal encodings give equal keys |

## Left out

- WebCrypto (`importKey`, `deriveBits`, `exportKey`, `sign`, `verify`) is foreign browser code. It appears only as uninterpreted function parameters of `KeyGen.WebCrypto`. Ed25519 arithmetic and PBKDF2 internals are out of scope for the same reason.
- `TextEncoder` UTF-8 encoding is a library call, so it is an uninterpreted string→bytes function.
- The SPKI buffer's layout comes from the browser's `exportKey`, not from this file, so only the JWK it is exported from is modelled.
- A thrown import or export is not modelled. An example is a browser without Ed25519 support. The primitives are total functions.
- `async`/`await` sequencing and the wrapping IIFE form a linear data chain, so they become function composition.
- The demo block (sign/verify of a sample message) and the `console.log` output are I/O.
- JavaScript strings are UTF-16 code units, while the model's strings are Dafny `char` sequences. The two agree on every character the hex pattern can match, since those are ASCII.
- A JWK is a map from member names to values. JavaScript's member order is not modelled because importing a JWK does not depend on it.
- Pkcs8.WrapSeed: its body uses the decoded header constant, not a call to `hex2ab(prefixHex)`. `Pkcs8.PrefixDecodes` proves the two are equal.
- KeyGen.GenDetPrivateKeyIsPkcs8: it assumes `deriveBits` returns exactly 256 bits. That is what WebCrypto promises, not something this file checks.
