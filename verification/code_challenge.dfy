/**
 `sha256` and `generateCodeChallenge` of src/utils.js: the PKCE "S256"
 code challenge of section 4.2 of RFC 7636,
 BASE64URL-ENCODE(SHA256(ASCII(code_verifier))), computed as the unpadded
 base64url encoding of the SHA-256 digest of the verifier's UTF-8 octets.

 SHA-256 itself (`crypto.subtle.digest`) is not modelled: it is a parameter
 `hash`, any function from octets to 32-octet digests, and every result
 here holds for all such functions.
 */
module CodeChallenge {
  import opened Wrappers
  import opened Bytes
  import Base64
  import Base64Url
  import Utf8
  import RandomString

  /** A SHA-256 digest is 256 bits: 32 octets. */
  type Digest = d: seq<byte> | |d| == 32 witness seq(32, _ => 0)

  /** The digest function `crypto.subtle.digest("SHA-256", ·)`. */
  type Hash = seq<byte> -> Digest

  /** `sha256(plain)`: the digest of the UTF-8 octets of `plain`. On an
      ASCII string this is the digest of `ASCII(plain)` that section 4.2 of
      RFC 7636 hashes. */
  function Sha256(plain: string, hash: Hash): (d: Digest)
    ensures d == hash(Utf8.Encode(plain))
    ensures Utf8.IsAscii(plain) ==> d == hash(Utf8.AsciiOctets(plain))
  {
    var data := Utf8.Encode(plain);
    hash(data)
  }

  /** The `base64encode` helper nested in `generateCodeChallenge`, which
      repeats the steps of `base64UrlEncode`; it computes the same function. */
  function InnerBase64Encode(bytes: seq<byte>): (r: string)
    ensures r == Base64Url.Encode(bytes)
  {
    var base64 := Base64.Encode(bytes);
    var plusReplaced := Base64Url.ReplaceAll(base64, '+', '-');
    var slashReplaced := Base64Url.ReplaceAll(plusReplaced, '/', '_');
    Base64Url.StripTrailing(slashReplaced, Base64.Pad)
  }

  /** `generateCodeChallenge(codeVerifier)`: 43 URL-safe characters, the
      direct unpadded base64url encoding of the verifier's digest, which
      decode back to that digest. */
  function GenerateCodeChallenge(verifier: string, hash: Hash): (challenge: string)
    ensures challenge == Base64Url.EncodeUnpadded(Sha256(verifier, hash))
    ensures |challenge| == 43
    ensures Base64Url.AllUrlChars(challenge)
    ensures Base64Url.Decode(challenge) == Some(hash(Utf8.Encode(verifier)))
  {
    var data := Utf8.Encode(verifier);
    var digest := hash(data);
    Base64Url.DecodeOfEncode(digest);
    InnerBase64Encode(digest)
  }

  /** Two verifiers give the same challenge exactly when their digests agree:
      the encoding layer neither merges nor separates digests. */
  lemma ChallengeBindsDigest(v1: string, v2: string, hash: Hash)
    ensures GenerateCodeChallenge(v1, hash) == GenerateCodeChallenge(v2, hash)
        <==> Sha256(v1, hash) == Sha256(v2, hash)
  {
    Base64Url.EncodeInjective(Sha256(v1, hash), Sha256(v2, hash));
  }

  /** A verifier from `generateRandomString` is ASCII, so the octets hashed
      are its character codes, one per character. */
  lemma RandomVerifierOctets(draws: seq<real>, length: int)
    requires RandomString.ValidDraws(draws) && length <= |draws|
    ensures var v := RandomString.RandomText(draws, length);
      |Utf8.Encode(v)| == |v| && forall i :: 0 <= i < |v| ==> Utf8.Encode(v)[i] == v[i] as int
  {
    var v := RandomString.RandomText(draws, length);
    assert Utf8.IsAscii(v) by {
      forall i | 0 <= i < |v| ensures v[i] as int < 0x80 {
        assert RandomString.IsAlphanumeric(v[i]);
      }
    }
    Utf8.AsciiEncoding(v);
  }
}
