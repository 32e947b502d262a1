/**
 * Hexadecimal text encoding of bytes, as Go's encoding/hex writes it: Base16
 * (section 8 of RFC 4648) with lower-case digits, high nibble first.  Session
 * identifiers are produced by EncodeToString; DecodeString is its inverse and
 * serves to state that the encoding loses nothing.
 */
module Hex {
  import opened Wrappers

  newtype Byte = b: int | 0 <= b < 256

  predicate IsLowerHexDigit(c: char) {
    '0' <= c <= '9' || 'a' <= c <= 'f'
  }

  predicate IsLowerHex(s: string) {
    forall i :: 0 <= i < |s| ==> IsLowerHexDigit(s[i])
  }

  /** The lower-case digit that writes the nibble `n`. */
  function Digit(n: int): (c: char)
    requires 0 <= n < 16
    ensures IsLowerHexDigit(c)
  {
    if n < 10 then ('0' as int + n) as char else ('a' as int + (n - 10)) as char
  }

  /** The nibble a lower-case digit stands for. */
  function Nibble(c: char): (n: int)
    requires IsLowerHexDigit(c)
    ensures 0 <= n < 16 && Digit(n) == c
  {
    if c <= '9' then c as int - '0' as int else c as int - 'a' as int + 10
  }

  lemma NibbleOfDigit(n: int)
    requires 0 <= n < 16
    ensures Nibble(Digit(n)) == n
  {
  }

  /** Two digits per byte, high nibble first. */
  function EncodeToString(src: seq<Byte>): (s: string)
    ensures |s| == 2 * |src|
    ensures IsLowerHex(s)
  {
    if src == [] then ""
    else [Digit(src[0] as int / 16), Digit(src[0] as int % 16)] + EncodeToString(src[1..])
  }

  /** Reads back pairs of lower-case digits; odd length or any other character fails. */
  function DecodeString(s: string): (r: Option<seq<Byte>>)
    ensures r.Some? ==> 2 * |r.value| == |s| && IsLowerHex(s)
  {
    if s == [] then Some([])
    else if |s| == 1 || !IsLowerHexDigit(s[0]) || !IsLowerHexDigit(s[1]) then None
    else
      match DecodeString(s[2..])
      case None => None
      case Some(rest) => Some([(Nibble(s[0]) * 16 + Nibble(s[1])) as Byte] + rest)
  }

  /** Decoding an encoded string gives back the bytes. */
  lemma {:induction false} DecodeEncode(src: seq<Byte>)
    ensures DecodeString(EncodeToString(src)) == Some(src)
  {
    if src != [] {
      var s := EncodeToString(src);
      var v := src[0] as int;
      DecodeEncode(src[1..]);
      assert s[2..] == EncodeToString(src[1..]);
      NibbleOfDigit(v / 16);
      NibbleOfDigit(v % 16);
      assert Nibble(s[0]) * 16 + Nibble(s[1]) == v;
      assert src == [src[0]] + src[1..];
    }
  }

  /** Encoding decoded bytes gives back the string: every lower-case hex string of even length is an encoding. */
  lemma {:induction false} EncodeDecode(s: string)
    requires DecodeString(s).Some?
    ensures EncodeToString(DecodeString(s).value) == s
  {
    if s != [] {
      var hi, lo := Nibble(s[0]), Nibble(s[1]);
      var v := hi * 16 + lo;
      assert v / 16 == hi && v % 16 == lo;
      EncodeDecode(s[2..]);
      assert s == [s[0], s[1]] + s[2..];
    }
  }

  /** Distinct byte strings have distinct encodings. */
  lemma EncodeInjective(a: seq<Byte>, b: seq<Byte>)
    requires EncodeToString(a) == EncodeToString(b)
    ensures a == b
  {
    DecodeEncode(a);
    DecodeEncode(b);
  }
}
