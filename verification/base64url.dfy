/**
 `base64UrlEncode` of src/utils.js: padded standard base64, then every `+`
 replaced by `-`, every `/` by `_`, and the trailing run of `=` removed.
 The result is the unpadded "base64url" encoding of section 5 of RFC 4648,
 which Appendix A of RFC 7636 prescribes for PKCE code challenges.

 The model keeps the pipeline as the source writes it (`Encode`) and proves
 it equal to a direct unpadded encoder (`EncodeUnpadded`). `Decode`, which
 re-adds the padding, reverses the character map and decodes strictly, is
 its exact inverse.
 */
module Base64Url {
  import opened Wrappers
  import opened Bytes
  import Base64

  /** Characters of the URL- and filename-safe alphabet (Table 2 of RFC 4648). */
  predicate IsUrlChar(c: char) {
    'A' <= c <= 'Z' || 'a' <= c <= 'z' || '0' <= c <= '9' || c == '-' || c == '_'
  }

  predicate AllUrlChars(s: string) {
    forall i :: 0 <= i < |s| ==> IsUrlChar(s[i])
  }

  /** Table 2 of RFC 4648: it agrees with Table 1 except for values 62 and 63. */
  function UrlChar(v: Base64.sextet): (c: char)
    ensures IsUrlChar(c)
  {
    if v < 62 then Base64.Char(v) else if v == 62 then '-' else '_'
  }

  /* ---------------- The string operations the source applies ---------------- */

  /** `s.replace(/x/g, y)` for a one-character pattern `x`: every occurrence
      of `from` becomes `to`, and nothing else changes. */
  function ReplaceAll(s: string, from: char, to: char): (r: string)
    ensures |r| == |s|
    ensures forall i :: 0 <= i < |s| ==> r[i] == (if s[i] == from then to else s[i])
    decreases |s|
  {
    if |s| == 0 then []
    else [if s[0] == from then to else s[0]] + ReplaceAll(s[1..], from, to)
  }

  /** `s.replace(/c+$/, "")`: the leftmost match of `c+` that reaches the end
      of the input is the whole trailing run of `c`, and it is deleted. */
  function StripTrailing(s: string, c: char): (r: string)
    ensures r <= s
    ensures |r| == 0 || r[|r| - 1] != c
    ensures forall i :: |r| <= i < |s| ==> s[i] == c
    decreases |s|
  {
    if |s| > 0 && s[|s| - 1] == c then StripTrailing(s[..|s| - 1], c) else s
  }

  /** The three properties of `StripTrailing` determine its result. */
  lemma StripUnique(s: string, c: char, t: string)
    requires t <= s
    requires |t| == 0 || t[|t| - 1] != c
    requires forall i :: |t| <= i < |s| ==> s[i] == c
    ensures StripTrailing(s, c) == t
  {
  }

  /** The two global replacements `base64UrlEncode` chains. */
  function ToUrlSafe(s: string): string {
    ReplaceAll(ReplaceAll(s, '+', '-'), '/', '_')
  }

  /** What the two replacements do to one character. */
  function UrlSafeChar(c: char): char {
    if c == '+' then '-' else if c == '/' then '_' else c
  }

  lemma ToUrlSafeQuad(a: char, b: char, c: char, d: char)
    ensures ToUrlSafe([a, b, c, d]) == [UrlSafeChar(a), UrlSafeChar(b), UrlSafeChar(c), UrlSafeChar(d)]
  {
    var l := ToUrlSafe([a, b, c, d]);
    assert |l| == 4;
    assert l[0] == UrlSafeChar(a) && l[1] == UrlSafeChar(b) && l[2] == UrlSafeChar(c) && l[3] == UrlSafeChar(d);
  }

  /** The replacements turn Table 1 into Table 2. */
  lemma UrlSafeCharOf(v: Base64.sextet)
    ensures UrlSafeChar(Base64.Char(v)) == UrlChar(v)
  {
  }

  /** The reverse character map, used by the decoder. */
  function FromUrlSafe(s: string): string {
    ReplaceAll(ReplaceAll(s, '-', '+'), '_', '/')
  }

  lemma {:induction false} ReplaceAllAppend(x: string, y: string, from: char, to: char)
    ensures ReplaceAll(x + y, from, to) == ReplaceAll(x, from, to) + ReplaceAll(y, from, to)
    decreases |x|
  {
    if |x| == 0 {
      assert x + y == y;
    } else {
      assert (x + y)[1..] == x[1..] + y;
      ReplaceAllAppend(x[1..], y, from, to);
    }
  }

  lemma ToUrlSafeAppend(x: string, y: string)
    ensures ToUrlSafe(x + y) == ToUrlSafe(x) + ToUrlSafe(y)
  {
    ReplaceAllAppend(x, y, '+', '-');
    ReplaceAllAppend(ReplaceAll(x, '+', '-'), ReplaceAll(y, '+', '-'), '/', '_');
  }

  lemma FromUrlSafeAppend(x: string, y: string)
    ensures FromUrlSafe(x + y) == FromUrlSafe(x) + FromUrlSafe(y)
  {
    ReplaceAllAppend(x, y, '-', '+');
    ReplaceAllAppend(ReplaceAll(x, '-', '+'), ReplaceAll(y, '-', '+'), '_', '/');
  }

  /** On a string of the standard alphabet and `=`, the map back undoes the map. */
  lemma FromToUrlSafe(s: string)
    requires forall i :: 0 <= i < |s| ==> Base64.IsAlphabetChar(s[i]) || s[i] == Base64.Pad
    ensures FromUrlSafe(ToUrlSafe(s)) == s
  {
  }

  /** On a string of the URL-safe alphabet, the map undoes the map back. */
  lemma ToFromUrlSafe(s: string)
    requires AllUrlChars(s)
    ensures ToUrlSafe(FromUrlSafe(s)) == s
  {
  }

  /* ---------------- Lengths and padding ---------------- */

  /** Characters of unpadded base64url for `n` octets: four per full triple,
      then two or three for a final group of one or two octets. */
  function UnpaddedLength(n: nat): nat {
    4 * (n / 3) + (if n % 3 == 0 then 0 else if n % 3 == 1 then 2 else 3)
  }

  /** The unpadded length is the ceiling of 4n/3. */
  lemma UnpaddedLengthIsCeiling(n: nat)
    ensures UnpaddedLength(n) == (4 * n + 2) / 3
    ensures 3 * UnpaddedLength(n) >= 4 * n && 3 * (UnpaddedLength(n) - 1) < 4 * n
  {
  }

  /** Number of `=` that section 4 of RFC 4648 appends for `n` octets. */
  function PadCount(n: nat): nat {
    if n % 3 == 0 then 0 else 3 - n % 3
  }

  lemma PadCountStep(n: nat)
    requires n >= 3
    ensures PadCount(n) == PadCount(n - 3)
  {
  }

  function Padding(k: nat): (p: string)
    ensures |p| == k && forall i :: 0 <= i < k ==> p[i] == Base64.Pad
  {
    seq(k, _ => Base64.Pad)
  }

  /** The padding the decoder restores from the length of an unpadded string
      is the padding the encoder appended. */
  lemma PadCountFromLength(n: nat)
    ensures (4 - UnpaddedLength(n) % 4) % 4 == PadCount(n)
    ensures UnpaddedLength(n) + PadCount(n) == 4 * ((n + 2) / 3)
    ensures PadCount(n) <= 2
  {
  }

  /* ---------------- The direct encoder ---------------- */

  /** A full triple in Table 2 characters. */
  function UrlTriple(b0: byte, b1: byte, b2: byte): string {
    [UrlChar(Base64.Hi6(b0)), UrlChar(Base64.Lo2Hi4(b0, b1)), UrlChar(Base64.Lo4Hi2(b1, b2)), UrlChar(Base64.Lo6(b2))]
  }

  /** A final pair of octets: three characters and no padding. */
  function UrlPair(b0: byte, b1: byte): string {
    [UrlChar(Base64.Hi6(b0)), UrlChar(Base64.Lo2Hi4(b0, b1)), UrlChar(Base64.Lo4Hi2(b1, 0))]
  }

  /** A final single octet: two characters and no padding. */
  function UrlSingle(b0: byte): string {
    [UrlChar(Base64.Hi6(b0)), UrlChar(Base64.Lo2Hi4(b0, 0))]
  }

  /** Unpadded base64url written directly from Table 2 of RFC 4648. */
  function EncodeUnpadded(bytes: seq<byte>): (r: string)
    ensures |r| == UnpaddedLength(|bytes|)
    ensures AllUrlChars(r)
    decreases |bytes|
  {
    if |bytes| == 0 then []
    else if |bytes| == 1 then UrlSingle(bytes[0])
    else if |bytes| == 2 then UrlPair(bytes[0], bytes[1])
    else UrlTriple(bytes[0], bytes[1], bytes[2]) + EncodeUnpadded(bytes[3..])
  }

  lemma UrlSafeTriple(b0: byte, b1: byte, b2: byte)
    ensures ToUrlSafe(Base64.EncodeTriple(b0, b1, b2)) == UrlTriple(b0, b1, b2)
  {
    var c0, c1, c2, c3 := Base64.Hi6(b0), Base64.Lo2Hi4(b0, b1), Base64.Lo4Hi2(b1, b2), Base64.Lo6(b2);
    ToUrlSafeQuad(Base64.Char(c0), Base64.Char(c1), Base64.Char(c2), Base64.Char(c3));
    UrlSafeCharOf(c0);
    UrlSafeCharOf(c1);
    UrlSafeCharOf(c2);
    UrlSafeCharOf(c3);
  }

  lemma UrlSafePair(b0: byte, b1: byte)
    ensures ToUrlSafe(Base64.EncodePair(b0, b1)) == UrlPair(b0, b1) + Padding(1)
  {
    var c0, c1, c2 := Base64.Hi6(b0), Base64.Lo2Hi4(b0, b1), Base64.Lo4Hi2(b1, 0);
    ToUrlSafeQuad(Base64.Char(c0), Base64.Char(c1), Base64.Char(c2), Base64.Pad);
    UrlSafeCharOf(c0);
    UrlSafeCharOf(c1);
    UrlSafeCharOf(c2);
  }

  lemma UrlSafeSingle(b0: byte)
    ensures ToUrlSafe(Base64.EncodeSingle(b0)) == UrlSingle(b0) + Padding(2)
  {
    var c0, c1 := Base64.Hi6(b0), Base64.Lo2Hi4(b0, 0);
    ToUrlSafeQuad(Base64.Char(c0), Base64.Char(c1), Base64.Pad, Base64.Pad);
    UrlSafeCharOf(c0);
    UrlSafeCharOf(c1);
  }

  lemma EncodeUnpaddedCons(bytes: seq<byte>)
    requires |bytes| >= 3
    ensures EncodeUnpadded(bytes) == UrlTriple(bytes[0], bytes[1], bytes[2]) + EncodeUnpadded(bytes[3..])
  {
  }

  lemma UrlSafeConcat(h: string, t: string, uh: string, ut: string, p: string)
    requires ToUrlSafe(h) == uh && ToUrlSafe(t) == ut + p
    ensures ToUrlSafe(h + t) == uh + ut + p
  {
    ToUrlSafeAppend(h, t);
  }

  /** Mapping the padded standard encoding to the URL-safe alphabet gives the
      direct encoding followed by the padding. */
  lemma {:induction false} UrlSafePadded(bytes: seq<byte>)
    ensures ToUrlSafe(Base64.Encode(bytes)) == EncodeUnpadded(bytes) + Padding(PadCount(|bytes|))
    decreases |bytes|
  {
    if |bytes| == 0 {
      assert Padding(0) == [];
    } else if |bytes| == 1 {
      UrlSafeSingle(bytes[0]);
    } else if |bytes| == 2 {
      UrlSafePair(bytes[0], bytes[1]);
    } else {
      var rest := bytes[3..];
      UrlSafePadded(rest);
      UrlSafeTriple(bytes[0], bytes[1], bytes[2]);
      Base64.EncodeCons(bytes);
      EncodeUnpaddedCons(bytes);
      PadCountStep(|bytes|);
      UrlSafeConcat(Base64.EncodeTriple(bytes[0], bytes[1], bytes[2]), Base64.Encode(rest),
                    UrlTriple(bytes[0], bytes[1], bytes[2]), EncodeUnpadded(rest), Padding(PadCount(|rest|)));
    }
  }

  /* ---------------- The encoder as the source writes it ---------------- */

  /** `base64UrlEncode(arrayBuffer)`: padded base64, `+` to `-`, `/` to `_`,
      trailing `=` removed. It is the unpadded base64url encoding. */
  function Encode(bytes: seq<byte>): (r: string)
    ensures r == EncodeUnpadded(bytes)
    ensures |r| == UnpaddedLength(|bytes|)
    ensures AllUrlChars(r)
  {
    var base64 := Base64.Encode(bytes);
    var urlSafe := ToUrlSafe(base64);
    UrlSafePadded(bytes);
    StripUnique(urlSafe, Base64.Pad, EncodeUnpadded(bytes));
    StripTrailing(urlSafe, Base64.Pad)
  }

  /** What the strip removes is exactly the `=` padding of the standard
      encoding: re-adding it and mapping back gives the padded base64. */
  lemma StripRemovesPadding(bytes: seq<byte>)
    ensures |Base64.Encode(bytes)| == |Encode(bytes)| + PadCount(|bytes|)
    ensures PadCount(|bytes|) <= 2
    ensures Base64.Encode(bytes) == Restore(Encode(bytes))
  {
    var std := Base64.Encode(bytes);
    var u := Encode(bytes);
    Base64.EncodeLength(bytes);
    var p := Padding(PadCount(|bytes|));
    UrlSafePadded(bytes);
    assert ToUrlSafe(std) == u + p;
    RestorePads(u, |bytes|);
    Base64.EncodeAlphabet(bytes);
    FromToUrlSafe(std);
    FromUrlSafeAppend(u, p);
    assert FromUrlSafe(p) == p;
  }

  /* ---------------- The decoder ---------------- */

  /** Re-pad to a multiple of four and map back to the standard alphabet. */
  function Restore(s: string): string {
    FromUrlSafe(s) + Padding((4 - |s| % 4) % 4)
  }

  /** On an unpadded encoding of `n` octets, `Restore` re-adds the padding
      the standard encoding of `n` octets has. */
  lemma RestorePads(u: string, n: nat)
    requires |u| == UnpaddedLength(n)
    ensures Restore(u) == FromUrlSafe(u) + Padding(PadCount(n))
  {
    PadCountFromLength(n);
  }

  /** Unpadded base64url decoding: characters outside Table 2 are rejected,
      the rest is padded and decoded strictly per section 4 of RFC 4648. */
  function Decode(s: string): Option<seq<byte>> {
    if !AllUrlChars(s) then None else Base64.Decode(Restore(s))
  }

  /** An encoding decodes to the octets it encodes. */
  lemma DecodeOfEncode(bytes: seq<byte>)
    ensures Decode(Encode(bytes)) == Some(bytes)
  {
    StripRemovesPadding(bytes);
    Base64.DecodeEncode(bytes);
  }

  /** A string that decodes is the encoding of what it decodes to. */
  lemma EncodeOfDecode(s: string)
    requires Decode(s).Some?
    ensures Encode(Decode(s).value) == s
  {
    var bytes := Decode(s).value;
    var p := Padding((4 - |s| % 4) % 4);
    Base64.EncodeDecode(Restore(s));
    assert Base64.Encode(bytes) == FromUrlSafe(s) + p;
    ToUrlSafeAppend(FromUrlSafe(s), p);
    ToFromUrlSafe(s);
    assert ToUrlSafe(p) == p;
    StripUnique(s + p, Base64.Pad, s);
  }

  /** Decoding and encoding are inverse: a string decodes to `bytes` exactly
      when it is the encoding of `bytes`. */
  lemma DecodeIff(s: string, bytes: seq<byte>)
    ensures Decode(s) == Some(bytes) <==> Encode(bytes) == s
  {
    if Encode(bytes) == s {
      DecodeOfEncode(bytes);
    }
    if Decode(s) == Some(bytes) {
      EncodeOfDecode(s);
    }
  }

  /** Distinct octet sequences have distinct encodings. */
  lemma EncodeInjective(a: seq<byte>, b: seq<byte>)
    ensures Encode(a) == Encode(b) ==> a == b
  {
    DecodeOfEncode(a);
    DecodeOfEncode(b);
  }
}
