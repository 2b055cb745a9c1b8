/**
 The standard base64 encoding of section 4 of RFC 4648, with padding: the
 string `btoa(String.fromCharCode.apply(null, new Uint8Array(buffer)))`
 produces in src/utils.js. `String.fromCharCode` turns each octet into one
 Latin-1 code unit and `btoa` encodes those code units as octets again, so
 the pair amounts to base64 of the octets themselves.

 The decoder is the strict one section 3.5 of RFC 4648 allows: it rejects
 characters outside the alphabet, misplaced padding and non-zero pad bits,
 which makes it the exact inverse of the encoder.
 */
module Base64 {
  import opened Wrappers
  import opened Bytes

  /** A 6-bit group: the value one base64 character stands for. */
  type sextet = x: int | 0 <= x < 64

  /** The padding character of section 3.2 of RFC 4648. */
  const Pad: char := '='

  /** Characters of the standard alphabet (Table 1 of RFC 4648). */
  predicate IsAlphabetChar(c: char) {
    'A' <= c <= 'Z' || 'a' <= c <= 'z' || '0' <= c <= '9' || c == '+' || c == '/'
  }

  /** Table 1 of RFC 4648, from value to character. */
  function Char(v: sextet): (c: char)
    ensures IsAlphabetChar(c)
  {
    if v < 26 then ('A' as int + v) as char
    else if v < 52 then ('a' as int + (v - 26)) as char
    else if v < 62 then ('0' as int + (v - 52)) as char
    else if v == 62 then '+'
    else '/'
  }

  /** Table 1 of RFC 4648 read backwards; `None` for a character outside it. */
  function Value(c: char): (r: Option<sextet>)
    ensures r.Some? <==> IsAlphabetChar(c)
    ensures r.Some? ==> Char(r.value) == c
  {
    if 'A' <= c <= 'Z' then Some(c as int - 'A' as int)
    else if 'a' <= c <= 'z' then Some(c as int - 'a' as int + 26)
    else if '0' <= c <= '9' then Some(c as int - '0' as int + 52)
    else if c == '+' then Some(62)
    else if c == '/' then Some(63)
    else None
  }

  lemma ValueOfChar(v: sextet)
    ensures Value(Char(v)) == Some(v)
  {
  }

  /* How three octets split into four sextets (Figure 1 of RFC 4648) and
     back. A missing octet is passed as 0, which is what the padding rules
     of section 4 amount to. */

  function Hi6(b0: byte): sextet { b0 / 4 }
  function Lo2Hi4(b0: byte, b1: byte): sextet { (b0 % 4) * 16 + b1 / 16 }
  function Lo4Hi2(b1: byte, b2: byte): sextet { (b1 % 16) * 4 + b2 / 64 }
  function Lo6(b2: byte): sextet { b2 % 64 }

  function First(c0: sextet, c1: sextet): byte { c0 * 4 + c1 / 16 }
  function Second(c1: sextet, c2: sextet): byte { (c1 % 16) * 16 + c2 / 4 }
  function Third(c2: sextet, c3: sextet): byte { (c2 % 4) * 64 + c3 }

  /** Regrouping octets into sextets and back is the identity. */
  lemma OctetsSurvive(b0: byte, b1: byte, b2: byte)
    ensures First(Hi6(b0), Lo2Hi4(b0, b1)) == b0
    ensures Second(Lo2Hi4(b0, b1), Lo4Hi2(b1, b2)) == b1
    ensures Third(Lo4Hi2(b1, b2), Lo6(b2)) == b2
  {
  }

  /** Regrouping sextets into octets and back is the identity. */
  lemma SextetsSurvive(c0: sextet, c1: sextet, c2: sextet, c3: sextet)
    ensures Hi6(First(c0, c1)) == c0
    ensures Lo2Hi4(First(c0, c1), Second(c1, c2)) == c1
    ensures Lo4Hi2(Second(c1, c2), Third(c2, c3)) == c2
    ensures Lo6(Third(c2, c3)) == c3
  {
  }

  /** A final single octet: its pad bits are zero and it survives regrouping. */
  lemma SingleSextets(b0: byte)
    ensures Lo2Hi4(b0, 0) % 16 == 0
    ensures First(Hi6(b0), Lo2Hi4(b0, 0)) == b0
  {
  }

  /** A final pair of octets: its pad bits are zero and it survives regrouping. */
  lemma PairSextets(b0: byte, b1: byte)
    ensures Lo4Hi2(b1, 0) % 4 == 0
    ensures First(Hi6(b0), Lo2Hi4(b0, b1)) == b0
    ensures Second(Lo2Hi4(b0, b1), Lo4Hi2(b1, 0)) == b1
  {
  }

  /** Three octets become four characters (section 4 of RFC 4648). */
  function EncodeTriple(b0: byte, b1: byte, b2: byte): string {
    [Char(Hi6(b0)), Char(Lo2Hi4(b0, b1)), Char(Lo4Hi2(b1, b2)), Char(Lo6(b2))]
  }

  /** A final quantum of two octets: three characters and one `=`. */
  function EncodePair(b0: byte, b1: byte): string {
    [Char(Hi6(b0)), Char(Lo2Hi4(b0, b1)), Char(Lo4Hi2(b1, 0)), Pad]
  }

  /** A final quantum of one octet: two characters and two `=`. */
  function EncodeSingle(b0: byte): string {
    [Char(Hi6(b0)), Char(Lo2Hi4(b0, 0)), Pad, Pad]
  }

  /** Padded standard base64 of `bytes`. */
  function Encode(bytes: seq<byte>): string
    decreases |bytes|
  {
    if |bytes| == 0 then []
    else if |bytes| == 1 then EncodeSingle(bytes[0])
    else if |bytes| == 2 then EncodePair(bytes[0], bytes[1])
    else EncodeTriple(bytes[0], bytes[1], bytes[2]) + Encode(bytes[3..])
  }

  lemma QuantaStep(n: nat)
    requires n >= 3
    ensures 4 * ((n + 2) / 3) == 4 + 4 * ((n - 3 + 2) / 3)
  {
  }

  /** Four characters for every started group of three octets. */
  lemma {:induction false} EncodeLength(bytes: seq<byte>)
    ensures |Encode(bytes)| == 4 * ((|bytes| + 2) / 3)
    decreases |bytes|
  {
    if |bytes| >= 3 {
      EncodeLength(bytes[3..]);
      QuantaStep(|bytes|);
    }
  }

  /** Padded base64 uses only the alphabet and `=`. */
  lemma {:induction false} EncodeAlphabet(bytes: seq<byte>)
    ensures forall i :: 0 <= i < |Encode(bytes)| ==> IsAlphabetChar(Encode(bytes)[i]) || Encode(bytes)[i] == Pad
    decreases |bytes|
  {
    if |bytes| > 3 {
      EncodeAlphabet(bytes[3..]);
      EncodeCons(bytes);
    }
  }

  /** A quantum of four alphabet characters, without padding. */
  function DecodeFull(q: string): (r: Option<seq<byte>>)
    requires |q| == 4
    ensures r.Some? ==> |r.value| == 3
  {
    match (Value(q[0]), Value(q[1]), Value(q[2]), Value(q[3]))
    case (Some(c0), Some(c1), Some(c2), Some(c3)) =>
      Some([First(c0, c1), Second(c1, c2), Third(c2, c3)])
    case _ => None
  }

  /** The last quantum, which may end in one or two `=`; the bits the
      padding leaves unused must be zero. */
  function DecodeFinal(q: string): (r: Option<seq<byte>>)
    requires |q| == 4
    ensures r.Some? ==> 1 <= |r.value| <= 3
  {
    if q[2] == Pad && q[3] == Pad then
      match (Value(q[0]), Value(q[1]))
      case (Some(c0), Some(c1)) =>
        if c1 % 16 == 0 then Some([First(c0, c1)]) else None
      case _ => None
    else if q[3] == Pad then
      match (Value(q[0]), Value(q[1]), Value(q[2]))
      case (Some(c0), Some(c1), Some(c2)) =>
        if c2 % 4 == 0 then Some([First(c0, c1), Second(c1, c2)]) else None
      case _ => None
    else
      DecodeFull(q)
  }

  /** Strict decoding of padded standard base64. */
  function Decode(s: string): (r: Option<seq<byte>>)
    decreases |s|
  {
    if |s| == 0 then Some([])
    else if |s| < 4 then None
    else if |s| == 4 then DecodeFinal(s)
    else
      match DecodeFull(s[..4])
      case None => None
      case Some(head) =>
        match Decode(s[4..])
        case None => None
        case Some(tail) => Some(head + tail)
  }

  /* Decoding one quantum, for quanta built from arbitrary sextets. */

  lemma DecodeFullChars(c0: sextet, c1: sextet, c2: sextet, c3: sextet)
    ensures DecodeFull([Char(c0), Char(c1), Char(c2), Char(c3)])
         == Some([First(c0, c1), Second(c1, c2), Third(c2, c3)])
  {
    ValueOfChar(c0);
    ValueOfChar(c1);
    ValueOfChar(c2);
    ValueOfChar(c3);
  }

  lemma DecodePairChars(c0: sextet, c1: sextet, c2: sextet)
    requires c2 % 4 == 0
    ensures DecodeFinal([Char(c0), Char(c1), Char(c2), Pad]) == Some([First(c0, c1), Second(c1, c2)])
  {
    ValueOfChar(c0);
    ValueOfChar(c1);
    ValueOfChar(c2);
  }

  lemma DecodeSingleChars(c0: sextet, c1: sextet)
    requires c1 % 16 == 0
    ensures DecodeFinal([Char(c0), Char(c1), Pad, Pad]) == Some([First(c0, c1)])
  {
    ValueOfChar(c0);
    ValueOfChar(c1);
  }

  lemma TripleRoundTrip(b0: byte, b1: byte, b2: byte)
    ensures DecodeFull(EncodeTriple(b0, b1, b2)) == Some([b0, b1, b2])
  {
    DecodeFullChars(Hi6(b0), Lo2Hi4(b0, b1), Lo4Hi2(b1, b2), Lo6(b2));
    OctetsSurvive(b0, b1, b2);
  }

  lemma SingleRoundTrip(bytes: seq<byte>)
    requires |bytes| == 1
    ensures DecodeFinal(EncodeSingle(bytes[0])) == Some(bytes)
  {
    var b0 := bytes[0];
    SingleSextets(b0);
    DecodeSingleChars(Hi6(b0), Lo2Hi4(b0, 0));
    assert bytes == [b0];
  }

  lemma PairRoundTrip(bytes: seq<byte>)
    requires |bytes| == 2
    ensures DecodeFinal(EncodePair(bytes[0], bytes[1])) == Some(bytes)
  {
    var b0, b1 := bytes[0], bytes[1];
    PairSextets(b0, b1);
    DecodePairChars(Hi6(b0), Lo2Hi4(b0, b1), Lo4Hi2(b1, 0));
    assert bytes == [b0, b1];
  }

  /** The leading triple of octets survives encoding and decoding. */
  lemma HeadRoundTrip(bytes: seq<byte>)
    requires |bytes| >= 3
    ensures DecodeFull(EncodeTriple(bytes[0], bytes[1], bytes[2])) == Some(bytes[..3])
  {
    TripleRoundTrip(bytes[0], bytes[1], bytes[2]);
    assert bytes[..3] == [bytes[0], bytes[1], bytes[2]];
  }

  lemma FinalRoundTrip(bytes: seq<byte>)
    requires 1 <= |bytes| <= 3
    ensures |Encode(bytes)| == 4
    ensures DecodeFinal(Encode(bytes)) == Some(bytes)
  {
    if |bytes| == 1 {
      SingleRoundTrip(bytes);
    } else if |bytes| == 2 {
      PairRoundTrip(bytes);
    } else {
      assert Encode(bytes[3..]) == [];
      HeadRoundTrip(bytes);
      assert bytes[..3] == bytes;
    }
  }

  /** Encoding proceeds one leading triple at a time. */
  lemma EncodeCons(bytes: seq<byte>)
    requires |bytes| >= 3
    ensures Encode(bytes) == EncodeTriple(bytes[0], bytes[1], bytes[2]) + Encode(bytes[3..])
  {
  }

  /** Decoding proceeds one leading quantum at a time. */
  lemma DecodeConcat(q: string, t: string, h: seq<byte>, u: seq<byte>)
    requires |q| == 4 && |t| > 0
    requires DecodeFull(q) == Some(h) && Decode(t) == Some(u)
    ensures Decode(q + t) == Some(h + u)
  {
    var s := q + t;
    assert s[..4] == q && s[4..] == t;
  }

  /** Decoding undoes encoding. */
  lemma {:induction false} DecodeEncode(bytes: seq<byte>)
    ensures Decode(Encode(bytes)) == Some(bytes)
    decreases |bytes|
  {
    if |bytes| == 0 {
    } else if |bytes| <= 3 {
      FinalRoundTrip(bytes);
    } else {
      var rest := bytes[3..];
      DecodeEncode(rest);
      EncodeCons(bytes);
      EncodeLength(rest);
      HeadRoundTrip(bytes);
      DecodeConcat(EncodeTriple(bytes[0], bytes[1], bytes[2]), Encode(rest), bytes[..3], rest);
      assert bytes[..3] + rest == bytes;
    }
  }

  lemma FullCanonical(q: string)
    requires |q| == 4 && DecodeFull(q).Some?
    ensures var t := DecodeFull(q).value; EncodeTriple(t[0], t[1], t[2]) == q
  {
    var c0, c1, c2, c3 := Value(q[0]).value, Value(q[1]).value, Value(q[2]).value, Value(q[3]).value;
    SextetsSurvive(c0, c1, c2, c3);
  }

  lemma SingleCanonicalChars(c0: sextet, c1: sextet)
    requires c1 % 16 == 0
    ensures EncodeSingle(First(c0, c1)) == [Char(c0), Char(c1), Pad, Pad]
  {
    var b := First(c0, c1);
    assert Hi6(b) == c0 && Lo2Hi4(b, 0) == c1 by {
      SextetsSurvive(c0, c1, 0, 0);
    }
  }

  lemma PairCanonicalChars(c0: sextet, c1: sextet, c2: sextet)
    requires c2 % 4 == 0
    ensures EncodePair(First(c0, c1), Second(c1, c2)) == [Char(c0), Char(c1), Char(c2), Pad]
  {
    var b0, b1 := First(c0, c1), Second(c1, c2);
    assert Hi6(b0) == c0 && Lo2Hi4(b0, b1) == c1 && Lo4Hi2(b1, 0) == c2 by {
      SextetsSurvive(c0, c1, c2, 0);
    }
  }

  lemma SingleCanonical(q: string)
    requires |q| == 4 && q[2] == Pad && q[3] == Pad && DecodeFinal(q).Some?
    ensures Encode(DecodeFinal(q).value) == q
  {
    var c0, c1 := Value(q[0]).value, Value(q[1]).value;
    assert q == [Char(c0), Char(c1), Pad, Pad];
    SingleCanonicalChars(c0, c1);
    assert Encode([First(c0, c1)]) == EncodeSingle(First(c0, c1));
  }

  lemma PairCanonical(q: string)
    requires |q| == 4 && q[2] != Pad && q[3] == Pad && DecodeFinal(q).Some?
    ensures Encode(DecodeFinal(q).value) == q
  {
    var c0, c1, c2 := Value(q[0]).value, Value(q[1]).value, Value(q[2]).value;
    assert q == [Char(c0), Char(c1), Char(c2), Pad];
    PairCanonicalChars(c0, c1, c2);
    assert Encode([First(c0, c1), Second(c1, c2)]) == EncodePair(First(c0, c1), Second(c1, c2));
  }

  lemma FinalCanonical(q: string)
    requires |q| == 4 && DecodeFinal(q).Some?
    ensures Encode(DecodeFinal(q).value) == q
  {
    if q[2] == Pad && q[3] == Pad {
      SingleCanonical(q);
    } else if q[3] == Pad {
      PairCanonical(q);
    } else {
      var t := DecodeFinal(q).value;
      FullCanonical(q);
      assert t[3..] == [];
    }
  }

  /** A string the strict decoder accepts is the encoding of what it decodes to. */
  lemma {:induction false} EncodeDecode(s: string)
    requires Decode(s).Some?
    ensures Encode(Decode(s).value) == s
    decreases |s|
  {
    if |s| == 0 {
    } else if |s| == 4 {
      FinalCanonical(s);
    } else {
      var head := DecodeFull(s[..4]).value;
      var tail := Decode(s[4..]).value;
      FullCanonical(s[..4]);
      EncodeDecode(s[4..]);
      var bytes := head + tail;
      assert bytes[3..] == tail;
      assert s == s[..4] + s[4..];
    }
  }
}
