/**
 `generateRandomString(length)` of src/utils.js: a loop that appends, once
 per iteration, the character of a fixed 62-character alphabet at index
 `Math.floor(Math.random() * possible.length)`.

 `Math.random` is not modelled; its successive results are an oracle
 sequence `draws` of reals in [0, 1), the range the language guarantees.
 */
module RandomString {

  /** The characters `generateRandomString` draws from. */
  predicate IsAlphanumeric(c: char) {
    'A' <= c <= 'Z' || 'a' <= c <= 'z' || '0' <= c <= '9'
  }

  /** `n` consecutive characters starting at `first`. */
  function Span(first: char, n: nat): (s: string)
    requires first as int + n <= 0xD800
    ensures |s| == n
    ensures forall i :: 0 <= i < n ==> s[i] as int == first as int + i
  {
    seq(n, i requires 0 <= i < n => (first as int + i) as char)
  }

  /** The `possible` string: `A`–`Z`, then `a`–`z`, then `0`–`9`. */
  const Possible: string := Span('A', 26) + Span('a', 26) + Span('0', 10)

  /** Position of an alphanumeric character in `Possible`. */
  function IndexOf(c: char): (k: int)
    requires IsAlphanumeric(c)
    ensures 0 <= k < |Possible| && Possible[k] == c
  {
    if 'A' <= c <= 'Z' then c as int - 'A' as int
    else if 'a' <= c <= 'z' then 26 + (c as int - 'a' as int)
    else 52 + (c as int - '0' as int)
  }

  /** `Possible` holds exactly the 62 alphanumeric characters, each once. */
  lemma PossibleIsAlphabet()
    ensures |Possible| == 62
    ensures forall k :: 0 <= k < |Possible| ==> IsAlphanumeric(Possible[k])
    ensures forall c :: IsAlphanumeric(c) ==> c in Possible
    ensures forall j, k :: 0 <= j < k < |Possible| ==> Possible[j] != Possible[k]
  {
    forall c | IsAlphanumeric(c) ensures c in Possible {
      var k := IndexOf(c);
    }
  }

  /** `possible.charAt(k)`: the one-character string at `k`, or the empty
      string when `k` is out of range. */
  function CharAt(s: string, k: int): (r: string)
    ensures |r| <= 1
    ensures 0 <= k < |s| <==> |r| == 1
    ensures |r| == 1 ==> r[0] == s[k]
  {
    if 0 <= k < |s| then [s[k]] else []
  }

  /** `Math.floor(r * n)`. */
  function ScaledIndex(r: real, n: nat): int {
    (r * n as real).Floor
  }

  /** A draw in [0, 1) scales to an index in [0, n): `charAt` never reads
      out of range. */
  lemma ScaledIndexInRange(r: real, n: nat)
    requires 0.0 <= r < 1.0 && n > 0
    ensures 0 <= ScaledIndex(r, n) < n
  {
    assert 0.0 <= r * n as real < n as real;
  }

  /** `Math.random()` results: each in [0, 1). */
  predicate ValidDraws(draws: seq<real>) {
    forall j :: 0 <= j < |draws| ==> 0.0 <= draws[j] < 1.0
  }

  /** The character one draw selects. */
  function Pick(r: real): (c: char)
    requires 0.0 <= r < 1.0
    ensures IsAlphanumeric(c)
  {
    PossibleIsAlphabet();
    ScaledIndexInRange(r, |Possible|);
    Possible[ScaledIndex(r, |Possible|)]
  }

  /** Reference definition: the string of the first `length` picks, empty
      for `length <= 0`. */
  function RandomText(draws: seq<real>, length: int): string
    requires ValidDraws(draws) && length <= |draws|
  {
    seq(if length <= 0 then 0 else length, j requires 0 <= j < |draws| && j < length => Pick(draws[j]))
  }

  /** `generateRandomString(length)`, with `draws[i]` the `i`-th result of
      `Math.random()`. */
  method Generate(length: int, draws: seq<real>) returns (text: string)
    requires ValidDraws(draws)
    requires length <= |draws|
    ensures |text| == if length <= 0 then 0 else length
    ensures forall j :: 0 <= j < |text| ==> IsAlphanumeric(text[j])
    ensures text == RandomText(draws, length)
  {
    text := "";
    var i := 0;
    while i < length
      invariant 0 <= i && (length <= 0 ==> i == 0) && (length > 0 ==> i <= length)
      invariant |text| == i
      invariant forall j :: 0 <= j < i ==> text[j] == Pick(draws[j])
    {
      PossibleIsAlphabet();
      ScaledIndexInRange(draws[i], |Possible|);
      text := text + CharAt(Possible, ScaledIndex(draws[i], |Possible|));
      i := i + 1;
    }
  }

  /** Draws that make the builder produce a given string. */
  function DrawsFor(t: string): (draws: seq<real>)
    requires forall j :: 0 <= j < |t| ==> IsAlphanumeric(t[j])
    ensures |draws| == |t| && ValidDraws(draws)
  {
    seq(|t|, j requires 0 <= j < |t| => IndexOf(t[j]) as real / 62.0)
  }

  /** Every alphanumeric string of length `n` is an outcome of the builder:
      the alphabet is all 62 characters and nothing else. */
  lemma EveryAlphanumericStringPossible(t: string)
    requires forall j :: 0 <= j < |t| ==> IsAlphanumeric(t[j])
    ensures RandomText(DrawsFor(t), |t|) == t
  {
    var draws := DrawsFor(t);
    PossibleIsAlphabet();
    forall j | 0 <= j < |t| ensures Pick(draws[j]) == t[j] {
      var k := IndexOf(t[j]);
      assert draws[j] * 62.0 == k as real;
    }
  }
}
