/**
 The octets `new TextEncoder().encode(s)` produces: UTF-8 (section 3 of
 RFC 3629) of the string's code points. A Dafny `char` is a Unicode scalar
 value, so every string here is well formed.
 */
module Utf8 {
  import opened Bytes

  /** UTF-8 of one code point: one octet below U+0080, otherwise a lead
      octet followed by continuation octets `10xxxxxx`. */
  function EncodeChar(c: char): (r: seq<byte>)
    ensures 1 <= |r| <= 4
    ensures |r| == 1 <==> c as int < 0x80
    ensures |r| == 1 ==> r[0] == c as int
    ensures |r| > 1 ==> forall i :: 0 <= i < |r| ==> r[i] >= 0x80
  {
    var cp := c as int;
    if cp < 0x80 then [cp]
    else if cp < 0x800 then [0xC0 + cp / 0x40, 0x80 + cp % 0x40]
    else if cp < 0x1_0000 then [0xE0 + cp / 0x1000, 0x80 + (cp / 0x40) % 0x40, 0x80 + cp % 0x40]
    else [0xF0 + cp / 0x4_0000, 0x80 + (cp / 0x1000) % 0x40, 0x80 + (cp / 0x40) % 0x40, 0x80 + cp % 0x40]
  }

  /** UTF-8 of a string: the encodings of its characters, in order. */
  function Encode(s: string): (r: seq<byte>)
    ensures |s| <= |r| <= 4 * |s|
    decreases |s|
  {
    if |s| == 0 then [] else EncodeChar(s[0]) + Encode(s[1..])
  }

  predicate IsAscii(s: string) {
    forall i :: 0 <= i < |s| ==> s[i] as int < 0x80
  }

  /** `ASCII(s)` of section 2.1 of RFC 7636: the octets of the character
      codes of an ASCII string. They are its UTF-8 encoding. */
  function AsciiOctets(s: string): (r: seq<byte>)
    requires IsAscii(s)
    ensures |r| == |s|
    ensures r == Encode(s)
  {
    AsciiEncoding(s);
    seq(|s|, i requires 0 <= i < |s| => s[i] as int)
  }

  /** An ASCII string encodes to one octet per character, the character's
      code; and only an ASCII string encodes to as many octets as it has
      characters. */
  lemma {:induction false} AsciiEncoding(s: string)
    ensures IsAscii(s) <==> |Encode(s)| == |s|
    ensures IsAscii(s) ==> forall i :: 0 <= i < |s| ==> Encode(s)[i] == s[i] as int
    decreases |s|
  {
    if |s| > 0 {
      AsciiEncoding(s[1..]);
      if IsAscii(s) {
        assert IsAscii(s[1..]) by {
          forall i | 0 <= i < |s[1..]| ensures s[1..][i] as int < 0x80 {
            assert s[1..][i] == s[i + 1];
          }
        }
        forall i | 0 <= i < |s| ensures Encode(s)[i] == s[i] as int {
          if i > 0 {
            assert Encode(s)[i] == Encode(s[1..])[i - 1];
          }
        }
      }
    }
  }
}
