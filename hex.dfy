/**
 * Hexadecimal pairs: the decoder of the `b` type sign (each pair through
 * Convert.ToByte(pair, 16)) and the "X2" rendering of a byte array.
 */
module Hex {
  import opened Wrappers

  type Byte = b: int | 0 <= b < 256

  predicate IsHexDigit(c: char)
  {
    ('0' <= c <= '9') || ('a' <= c <= 'f') || ('A' <= c <= 'F')
  }

  function HexValue(c: char): (d: nat)
    requires IsHexDigit(c)
    ensures d < 16
  {
    if '0' <= c <= '9' then c as int - '0' as int
    else if 'a' <= c <= 'f' then c as int - 'a' as int + 10
    else c as int - 'A' as int + 10
  }

  /** The upper-case digit that the "X" format uses for a nibble. */
  function UpperDigit(d: nat): (c: char)
    requires d < 16
    ensures IsHexDigit(c) && HexValue(c) == d
    ensures !('a' <= c <= 'f')
  {
    if d < 10 then ('0' as int + d) as char else ('A' as int + d - 10) as char
  }

  predicate AllHex(s: string)
  {
    forall k | 0 <= k < |s| :: IsHexDigit(s[k])
  }

  /** Upper-case hex text, the only text "X2" produces. */
  predicate IsUpperHex(s: string)
  {
    AllHex(s) && forall k | 0 <= k < |s| :: !('a' <= s[k] <= 'f')
  }

  /**
   * Even-length text to bytes: byte k is the base-16 value of the pair at
   * 2k, 2k+1; None when some pair is not two hex digits.
   */
  function DecodePairs(s: string): (r: Option<seq<Byte>>)
    requires |s| % 2 == 0
    ensures r.Some? <==> AllHex(s)
    ensures r.Some? ==> |r.value| == |s| / 2
  {
    if s == [] then Some([])
    else if IsHexDigit(s[0]) && IsHexDigit(s[1]) then
      match DecodePairs(s[2..])
      case Some(rest) =>
        Some([HexValue(s[0]) * 16 + HexValue(s[1]) as Byte] + rest)
      case None => None
    else None
  }

  /** Byte k of the decoded text is the base-16 value of the characters at 2k and 2k+1. */
  lemma {:induction false} DecodePairsAt(s: string, k: nat)
    requires |s| % 2 == 0 && AllHex(s) && k < |s| / 2
    ensures DecodePairs(s).Some? && |DecodePairs(s).value| == |s| / 2
    ensures DecodePairs(s).value[k] == HexValue(s[2 * k]) * 16 + HexValue(s[2 * k + 1])
  {
    if k > 0 {
      DecodePairsAt(s[2..], k - 1);
      assert s[2 * k] == s[2..][2 * (k - 1)] && s[2 * k + 1] == s[2..][2 * (k - 1) + 1];
    }
  }

  /** `string.Concat(bytes.Select(x => $"{x:X2}"))`. */
  function EncodePairs(bytes: seq<Byte>): (s: string)
    ensures |s| == 2 * |bytes|
    ensures IsUpperHex(s)
  {
    if bytes == [] then ""
    else [UpperDigit(bytes[0] / 16), UpperDigit(bytes[0] % 16)] + EncodePairs(bytes[1..])
  }

  /** Decoding the "X2" text of a byte array gives the array back. */
  lemma {:induction false} DecodeEncode(bytes: seq<Byte>)
    ensures DecodePairs(EncodePairs(bytes)) == Some(bytes)
  {
    if bytes != [] {
      DecodeEncode(bytes[1..]);
      var s := EncodePairs(bytes);
      var b := bytes[0];
      assert s[0] == UpperDigit(b / 16) && s[1] == UpperDigit(b % 16);
      assert s[2..] == EncodePairs(bytes[1..]);
      NibblesOf(b);
      DoubleIsEven(|bytes|);
      DecodeCons(s);
      assert DecodePairs(s) == Some([b] + bytes[1..]);
      assert bytes == [b] + bytes[1..];
    }
  }

  /** Encoding the bytes of upper-case hex text gives the text back. */
  lemma {:induction false} EncodeDecode(s: string)
    requires |s| % 2 == 0 && IsUpperHex(s)
    ensures DecodePairs(s).Some? && EncodePairs(DecodePairs(s).value) == s
  {
    if s != [] {
      EncodeDecode(s[2..]);
      var b := DecodePairs(s).value;
      assert b[1..] == DecodePairs(s[2..]).value;
      var hi, lo := HexValue(s[0]), HexValue(s[1]);
      assert b[0] / 16 == hi && b[0] % 16 == lo;
      UpperUnique(s[0]);
      UpperUnique(s[1]);
      assert s == [s[0], s[1]] + s[2..];
    }
  }

  lemma DoubleIsEven(n: nat)
    ensures (2 * n) % 2 == 0
  {
  }

  lemma NibblesOf(b: Byte)
    ensures HexValue(UpperDigit(b / 16)) * 16 + HexValue(UpperDigit(b % 16)) == b
  {
  }

  /** DecodePairs, one pair at a time. */
  lemma DecodeCons(s: string)
    requires |s| >= 2 && |s| % 2 == 0 && IsHexDigit(s[0]) && IsHexDigit(s[1])
    requires DecodePairs(s[2..]).Some?
    ensures DecodePairs(s) == Some([HexValue(s[0]) * 16 + HexValue(s[1]) as Byte] + DecodePairs(s[2..]).value)
  {
  }

  /** An upper-case hex digit is the "X" digit of its own value. */
  lemma UpperUnique(c: char)
    requires IsHexDigit(c) && !('a' <= c <= 'f')
    ensures UpperDigit(HexValue(c)) == c
  {
  }
}
