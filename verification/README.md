# PKCE helpers of the Spotify example app, in Dafny

This project models `src/utils.js`, the four helpers an OAuth 2.0 PKCE
client needs: `generateRandomString` (the code verifier),
`sha256` (the digest of the verifier's UTF-8 octets),
`base64UrlEncode` (padded base64, then `+`→`-`, `/`→`_` and the trailing
`=` removed), and `generateCodeChallenge`. That last one repeats the
encoding steps in a nested `base64encode` and applies them to the SHA-256
digest of the verifier. This is the "S256" method of section 4.2 of RFC 7636.

Modules:

- `Wrappers`, `Bytes`: `Option` and the octet type, one file each.
- `Base64`: padded standard base64 (section 4 of RFC 4648), which
  `btoa(String.fromCharCode.apply(null, new Uint8Array(b)))` computes. It
  also has a strict decoder (section 3.5) that is proved to be the exact
  inverse of the encoder.
- `Base64Url`: `base64UrlEncode` as the source writes it. It is proved equal
  to a direct unpadded base64url encoder (section 5 of RFC 4648). The module
  also covers its length, its alphabet, the padding the strip removes, an
  if-and-only-if with a decoder, and injectivity.
- `RandomString`: `generateRandomString` as a loop over an oracle sequence
  of `Math.random()` results.
- `Utf8`: the octets `TextEncoder.encode` produces.
- `CodeChallenge`: `sha256` and `generateCodeChallenge`, with SHA-256 as a
  parameter. A parameter `hash` is any function from octets to 32-octet
  digests, and every result holds for all of them.

The repository has no complete PKCE authorization-code flow
(RFC 7636). `src/App.js` logs in with the implicit grant
(`response_type: "token"`, App.js:17), reads the access token from the URL
fragment (App.js:66-67) and never imports `utils.js`. The code therefore
has no `state` check, no code verifier storage and no token exchange. The
helpers in `src/utils.js` are the whole of the PKCE part, and
`generateRandomString` draws from `Math.random` (utils.js:6), not from a
cryptographically strong source.

## Model

| member | source | states |
|---|---|---|
| Base64.DecodeEncode | src/utils.js:18 | the strict decoder recovers any octet sequence from the padded base64 that `btoa` of its Latin-1 string produces |
| Base64.EncodeDecode | src/utils.js:18 | every string the strict decoder accepts is the padded encoding of what it decodes to, so the padded encoding is canonical |
| Base64.EncodeLength | src/utils.js:18 | padded base64 has four characters for every started group of three octets |
| Base64.EncodeAlphabet | src/utils.js:18 | padded base64 uses only the 64 characters of Table 1 and `=` |
| Base64Url.ReplaceAll | src/utils.js:19 | a global one-character `replace` keeps the length, turns every `from` into `to` and leaves every other character unchanged |
| Base64Url.StripTrailing | src/utils.js:19 | `replace(/=+$/, "")` returns a prefix that does not end in `=`, and only `=` is removed |
| Base64Url.UrlSafePadded | src/utils.js:18-19 | after the two replacements, padded base64 is the unpadded base64url text followed by exactly `PadCount` `=` |
| Base64Url.Encode | src/utils.js:17-20 | `base64UrlEncode` equals the direct unpadded base64url encoder of Table 2, has `UnpaddedLength(n)` characters for `n` octets and uses only `A–Z a–z 0–9 - _` |
| Base64Url.UnpaddedLengthIsCeiling | src/utils.js:18-19 | the output length for `n` octets is the ceiling of 4n/3 |
| Base64Url.EncodeUnpadded | src/utils.js:17-20 | the reference encoder produces `UnpaddedLength(n)` characters, all from the URL-safe alphabet |
| Base64Url.StripRemovesPadding | src/utils.js:18-19 | the strip removes exactly the at most two `=` of the padded encoding; re-padding and mapping back gives the `btoa` output again |
| Base64Url.DecodeOfEncode | src/utils.js:17-20 | decoding the output of `base64UrlEncode` gives back the input octets |
| Base64Url.EncodeOfDecode | src/utils.js:17-20 | every string the decoder accepts is the `base64UrlEncode` output of its decoding |
| Base64Url.DecodeIff | src/utils.js:17-20 | a string decodes to `bytes` if and only if it is `base64UrlEncode(bytes)` |
| Base64Url.EncodeInjective | src/utils.js:17-20 | distinct buffers have distinct encodings |
| RandomString.PossibleIsAlphabet | src/utils.js:3 | `possible` has 62 characters, all distinct, and they are exactly the ASCII letters and digits |
| RandomString.CharAt | src/utils.js:6 | `charAt` gives a one-character string exactly when the index is in range, otherwise the empty string |
| RandomString.ScaledIndexInRange | src/utils.js:6 | `Math.floor(Math.random() * 62)` is a valid index into `possible`, so `charAt` always contributes a character |
| RandomString.Pick | src/utils.js:6 | every draw selects an ASCII letter or digit |
| RandomString.Generate | src/utils.js:1-9 | the loop returns `length` characters (none when `length <= 0`), each the one selected by the corresponding draw, all alphanumeric |
| RandomString.EveryAlphanumericStringPossible | src/utils.js:3-7 | every alphanumeric string is produced by some sequence of draws |
| Utf8.EncodeChar | src/utils.js:12-13 | a character encodes to one octet equal to its code exactly when it is below U+0080, otherwise to two to four octets all at least 0x80 |
| Utf8.Encode | src/utils.js:12-13 | the encoded text has between one and four octets per character |
| Utf8.AsciiEncoding | src/utils.js:30-31 | a string encodes to one octet per character, each the character's code, if and only if it is ASCII |
| Utf8.AsciiOctets | src/utils.js:12-13 | for an ASCII string, the octets `TextEncoder` produces are exactly its character codes, `ASCII(s)` in the sense of RFC 7636 |
| CodeChallenge.Sha256 | src/utils.js:11-15 | on every ASCII string, hashing the `TextEncoder` octets equals hashing `ASCII(plain)` as section 4.2 of RFC 7636 defines it, the character codes one octet each |
| CodeChallenge.InnerBase64Encode | src/utils.js:23-28 | the nested `base64encode` computes the same function as `base64UrlEncode` |
| CodeChallenge.GenerateCodeChallenge | src/utils.js:22-35 | the challenge is the unpadded base64url encoding of the SHA-256 digest of the verifier's octets; it has 43 URL-safe characters and decodes back to that digest |
| CodeChallenge.ChallengeBindsDigest | src/utils.js:30-34 | two verifiers give the same challenge if and only if their digests are equal |
| CodeChallenge.RandomVerifierOctets | src/utils.js:1-9 | a verifier from `generateRandomString` is hashed as one octet per character, each the character's ASCII code |

## Left out

- `src/App.js` and the rest of the application: routing, the Spotify API calls, storage of tokens and the login redirect are not part of this model.
- The authorization-code exchange, `state` checking and verifier storage of an RFC 7636 client: the repository does not implement them, since `src/App.js` uses the implicit grant.
- `crypto.subtle.digest`: SHA-256 itself is not modelled. It is a parameter that returns 32 octets, and properties are proved for every such function.
- `Math.random`: its results are an oracle sequence of reals in [0, 1). IEEE-754 rounding of `r * 62` is not modelled. Exact real multiplication keeps the same index range.
- RandomString.Generate: requires at least `length` draws. The source asks `Math.random` once per iteration, so this only sizes the oracle. A non-integer or non-number `length` is not modelled: the parameter is an `int`.
- Promises and `async`/`await`: the model's `sha256` and `generateCodeChallenge` return their values directly.
- `String.fromCharCode.apply` argument-count limits of JavaScript engines for very large buffers are not modelled. The model encodes buffers of any length.
- Utf8.Encode: JavaScript strings can hold lone surrogates, which `TextEncoder` replaces by U+FFFD. Dafny characters are Unicode scalar values, so that case is not modelled.
- `btoa` failing on characters above U+00FF cannot happen here: the input is always built from octets.
