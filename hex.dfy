/**
 * Lower-case hexadecimal encoding of bytes, as used to build the random
 * suffix that is appended to the names of launched jobs.
 */
module Hex {
  import opened Wrappers

  type byte = x: int | 0 <= x < 256

  /** The number of random bytes read for one slug. */
  const SlugBytes := 6

  predicate IsHexDigit(c: char) {
    '0' <= c <= '9' || 'a' <= c <= 'f'
  }

  /** The character of the lower-case table `0123456789abcdef` at position `n`. */
  function Digit(n: int): (c: char)
    requires 0 <= n < 16
    ensures IsHexDigit(c)
    ensures DigitValue(c) == n
  {
    if n < 10 then ('0' as int + n) as char else ('a' as int + n - 10) as char
  }

  /** The value of a hexadecimal digit; the inverse of `Digit`. */
  function DigitValue(c: char): (n: int)
    requires IsHexDigit(c)
    ensures 0 <= n < 16
  {
    if c <= '9' then c as int - '0' as int else c as int - 'a' as int + 10
  }

  /** Two characters per byte, high nibble first. */
  function Encode(b: seq<byte>): (s: string)
    ensures |s| == 2 * |b|
    ensures forall i :: 0 <= i < |s| ==> IsHexDigit(s[i])
    ensures forall i :: 0 <= i < |b| ==> s[2 * i] == Digit(b[i] / 16) && s[2 * i + 1] == Digit(b[i] % 16)
  {
    if b == [] then "" else [Digit(b[0] / 16), Digit(b[0] % 16)] + Encode(b[1..])
  }

  /** Reads pairs of hexadecimal digits back into bytes; None on odd length or a non-digit. */
  function Decode(s: string): (r: Option<seq<byte>>)
    decreases |s|
  {
    if s == [] then Some([])
    else if |s| == 1 || !IsHexDigit(s[0]) || !IsHexDigit(s[1]) then None
    else match Decode(s[2..])
      case None => None
      case Some(rest) => Some([DigitValue(s[0]) * 16 + DigitValue(s[1])] + rest)
  }

  lemma {:induction false} DecodeEncode(b: seq<byte>)
    ensures Decode(Encode(b)) == Some(b)
  {
    if b != [] {
      var s := Encode(b);
      assert s[2..] == Encode(b[1..]);
      DecodeEncode(b[1..]);
      assert DigitValue(s[0]) * 16 + DigitValue(s[1]) == b[0];
      assert [b[0]] + b[1..] == b;
    }
  }

  /** Distinct byte strings never encode to the same text. */
  lemma EncodeInjective(a: seq<byte>, b: seq<byte>)
    ensures Encode(a) == Encode(b) <==> a == b
  {
    if Encode(a) == Encode(b) {
      DecodeEncode(a);
      DecodeEncode(b);
    }
  }

  /** The random name suffix: the hexadecimal text of the bytes read from the random source. */
  function Slug(random: seq<byte>): (slug: string)
    requires |random| == SlugBytes
    ensures |slug| == 12
    ensures forall i :: 0 <= i < |slug| ==> IsHexDigit(slug[i])
  {
    Encode(random)
  }

  /** Different random bytes always give different slugs. */
  lemma SlugInjective(r1: seq<byte>, r2: seq<byte>)
    requires |r1| == SlugBytes && |r2| == SlugBytes
    ensures Slug(r1) == Slug(r2) <==> r1 == r2
  {
    EncodeInjective(r1, r2);
  }
}
