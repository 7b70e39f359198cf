/**
 * Uri.EscapeDataString: percent-encoding as in section 2.1 of RFC 3986,
 * leaving only the unreserved characters of section 2.3 as they are. A
 * character outside that set is written as its UTF-8 bytes, each as "%"
 * followed by two upper-case hex digits. The decoder below is the inverse
 * that the round-trip lemma checks the encoder against.
 */
module Percent {
  import opened Wrappers
  import Hex

  type Byte = Hex.Byte

  /** ALPHA / DIGIT / "-" / "." / "_" / "~" (section 2.3 of RFC 3986). */
  predicate IsUnreserved(c: char)
  {
    ('A' <= c <= 'Z') || ('a' <= c <= 'z') || ('0' <= c <= '9') || c == '-' || c == '.' || c == '_' || c == '~'
  }

  /** The UTF-8 encoding of one Unicode scalar value. */
  function Utf8(c: char): (bs: seq<Byte>)
    ensures 1 <= |bs| <= 4
  {
    var v := c as int;
    if v < 0x80 then [v]
    else if v < 0x800 then [0xC0 + v / 64, 0x80 + v % 64]
    else if v < 0x1_0000 then [0xE0 + v / 4096, 0x80 + (v / 64) % 64, 0x80 + v % 64]
    else [0xF0 + v / 262144, 0x80 + (v / 4096) % 64, 0x80 + (v / 64) % 64, 0x80 + v % 64]
  }

  function PercentByte(b: Byte): string
  {
    ['%', Hex.UpperDigit(b / 16), Hex.UpperDigit(b % 16)]
  }

  function PercentBytes(bs: seq<Byte>): (t: string)
    ensures |t| == 3 * |bs|
  {
    if bs == [] then "" else PercentByte(bs[0]) + PercentBytes(bs[1..])
  }

  function EscapeChar(c: char): string
  {
    if IsUnreserved(c) then [c] else PercentBytes(Utf8(c))
  }

  /** A character that may appear in escaped text: an unreserved character or '%'. */
  predicate IsEscapedChar(c: char)
  {
    IsUnreserved(c) || c == '%'
  }

  /**
   * Text made only of unreserved characters comes out unchanged; a single
   * other character becomes "%XX" per byte of its UTF-8 encoding, and
   * EscapeAppend extends this character by character.
   */
  function EscapeDataString(s: string): (t: string)
    ensures forall k | 0 <= k < |t| :: IsEscapedChar(t[k])
    ensures (forall k | 0 <= k < |s| :: IsUnreserved(s[k])) ==> t == s
    ensures |s| == 1 && !IsUnreserved(s[0]) ==> t == PercentBytes(Utf8(s[0]))
  {
    if s == [] then ""
    else
      var head := EscapeChar(s[0]);
      var tail := EscapeDataString(s[1..]);
      assert forall k | 0 <= k < |head| :: IsEscapedChar(head[k]) by {
        if !IsUnreserved(s[0]) { PercentBytesChars(Utf8(s[0])); }
      }
      assert (forall k | 0 <= k < |s| :: IsUnreserved(s[k])) ==> head + tail == s by {
        if forall k | 0 <= k < |s| :: IsUnreserved(s[k]) {
          assert forall k | 0 <= k < |s[1..]| :: s[1..][k] == s[k + 1];
          assert s == [s[0]] + s[1..];
        }
      }
      head + tail
  }

  /** Escaping works character by character: the escape of a concatenation is the concatenation of the escapes. */
  lemma {:induction false} EscapeAppend(s: string, u: string)
    ensures EscapeDataString(s + u) == EscapeDataString(s) + EscapeDataString(u)
  {
    if s != [] {
      var c, rest := s[0], s[1..];
      ConsSplit(s);
      AppendAssoc([c], rest, u);
      calc {
        EscapeDataString(s + u);
        EscapeDataString([c] + (rest + u));
        { EscapeCons(c, rest + u); }
        EscapeChar(c) + EscapeDataString(rest + u);
        { EscapeAppend(rest, u); }
        EscapeChar(c) + (EscapeDataString(rest) + EscapeDataString(u));
        { AppendAssoc(EscapeChar(c), EscapeDataString(rest), EscapeDataString(u)); }
        (EscapeChar(c) + EscapeDataString(rest)) + EscapeDataString(u);
        { EscapeCons(c, rest); }
        EscapeDataString(s) + EscapeDataString(u);
      }
    } else {
      assert s + u == u;
    }
  }

  lemma ConsSplit(s: string)
    requires s != []
    ensures s == [s[0]] + s[1..]
  {
  }

  lemma AppendAssoc(a: string, b: string, c: string)
    ensures a + (b + c) == (a + b) + c
  {
  }

  lemma EscapeCons(c: char, rest: string)
    ensures EscapeDataString([c] + rest) == EscapeChar(c) + EscapeDataString(rest)
  {
    assert ([c] + rest)[1..] == rest;
  }

  lemma {:induction false} PercentBytesChars(bs: seq<Byte>)
    ensures forall k | 0 <= k < |PercentBytes(bs)| :: IsEscapedChar(PercentBytes(bs)[k])
  {
    if bs != [] {
      PercentBytesChars(bs[1..]);
      var t := PercentBytes(bs);
      assert t == PercentByte(bs[0]) + PercentBytes(bs[1..]);
      forall k | 0 <= k < |t| ensures IsEscapedChar(t[k]) {
        if k >= 3 { assert t[k] == PercentBytes(bs[1..])[k - 3]; }
      }
    }
  }

  /** The number of bytes a UTF-8 sequence with this lead byte has. */
  function Utf8Width(lead: Byte): nat
  {
    if lead < 0x80 then 1 else if lead < 0xE0 then 2 else if lead < 0xF0 then 3 else 4
  }

  function ScalarOf(v: int): Option<char>
  {
    if (0 <= v < 0xD800) || (0xE000 <= v < 0x11_0000) then Some(v as char) else None
  }

  /** The scalar value a complete UTF-8 sequence encodes (continuation bytes taken as 10xxxxxx). */
  function DecodeUtf8(bs: seq<Byte>): Option<char>
  {
    if |bs| == 1 then ScalarOf(bs[0])
    else if |bs| == 2 then ScalarOf((bs[0] as int - 0xC0) * 64 + (bs[1] as int - 0x80))
    else if |bs| == 3 then ScalarOf((bs[0] as int - 0xE0) * 4096 + (bs[1] as int - 0x80) * 64 + (bs[2] as int - 0x80))
    else if |bs| == 4 then ScalarOf((bs[0] as int - 0xF0) * 262144 + (bs[1] as int - 0x80) * 4096 + (bs[2] as int - 0x80) * 64 + (bs[3] as int - 0x80))
    else None
  }

  /** Reads n "%XX" groups from the front of t. */
  function ReadBytes(t: string, n: nat): Option<seq<Byte>>
    requires |t| >= 3 * n
  {
    if n == 0 then Some([])
    else if t[0] == '%' && Hex.IsHexDigit(t[1]) && Hex.IsHexDigit(t[2]) then
      match ReadBytes(t[3..], n - 1)
      case Some(rest) => Some([Hex.HexValue(t[1]) * 16 + Hex.HexValue(t[2]) as Byte] + rest)
      case None => None
    else None
  }

  /** Uri.UnescapeDataString for well-formed input; None for a malformed escape. */
  function UnescapeDataString(t: string): Option<string>
    decreases |t|
  {
    if t == [] then Some("")
    else if t[0] != '%' then
      match UnescapeDataString(t[1..])
      case Some(rest) => Some([t[0]] + rest)
      case None => None
    else if |t| < 3 || !Hex.IsHexDigit(t[1]) || !Hex.IsHexDigit(t[2]) then None
    else
      var w := Utf8Width(Hex.HexValue(t[1]) * 16 + Hex.HexValue(t[2]));
      if |t| < 3 * w then None
      else match ReadBytes(t, w)
        case None => None
        case Some(bs) =>
          match DecodeUtf8(bs)
          case None => None
          case Some(c) =>
            match UnescapeDataString(t[3 * w..])
            case Some(rest) => Some([c] + rest)
            case None => None
  }

  lemma {:induction false} ReadPercentBytes(bs: seq<Byte>, rest: string)
    ensures ReadBytes(PercentBytes(bs) + rest, |bs|) == Some(bs)
  {
    if bs != [] {
      var b := bs[0];
      var tail := PercentBytes(bs[1..]) + rest;
      assert PercentBytes(bs) + rest == PercentByte(b) + tail;
      ReadPercentBytes(bs[1..], rest);
      ReadOneByte(b, tail, |bs| - 1);
      assert bs == [b] + bs[1..];
    }
  }

  /** One "%XX" group in front is read as its byte. */
  lemma ReadOneByte(b: Byte, tail: string, n: nat)
    requires |tail| >= 3 * n
    ensures ReadBytes(PercentByte(b) + tail, n + 1) ==
              match ReadBytes(tail, n)
              case Some(r) => Some([b] + r)
              case None => None
  {
    var t := PercentByte(b) + tail;
    assert t[0] == '%' && t[1] == Hex.UpperDigit(b / 16) && t[2] == Hex.UpperDigit(b % 16);
    assert t[3..] == tail;
    Hex.NibblesOf(b);
  }

  lemma Utf8Decodes(c: char)
    ensures DecodeUtf8(Utf8(c)) == Some(c)
    ensures Utf8Width(Utf8(c)[0]) == |Utf8(c)|
  {
    var v := c as int;
    if v < 0x80 {
    } else if v < 0x800 {
      assert (v / 64) * 64 + v % 64 == v;
    } else if v < 0x1_0000 {
      Split3(v);
    } else {
      Split4(v);
    }
  }

  lemma Split3(v: nat)
    requires v < 0x1_0000
    ensures (v / 4096) * 4096 + ((v / 64) % 64) * 64 + v % 64 == v
  {
    assert v == (v / 64) * 64 + v % 64;
    assert v / 64 == ((v / 64) / 64) * 64 + (v / 64) % 64;
    assert (v / 64) / 64 == v / 4096;
  }

  lemma Split4(v: nat)
    requires v < 0x11_0000
    ensures (v / 262144) * 262144 + ((v / 4096) % 64) * 4096 + ((v / 64) % 64) * 64 + v % 64 == v
  {
    assert v == (v / 64) * 64 + v % 64;
    assert v / 64 == ((v / 64) / 64) * 64 + (v / 64) % 64;
    assert (v / 64) / 64 == v / 4096;
    assert v / 4096 == ((v / 4096) / 64) * 64 + (v / 4096) % 64;
    assert (v / 4096) / 64 == v / 262144;
  }

  lemma UnescapeCons(c: char, rest: string)
    ensures UnescapeDataString(EscapeChar(c) + rest) ==
      match UnescapeDataString(rest) case Some(r) => Some([c] + r) case None => None
  {
    var t := EscapeChar(c) + rest;
    if IsUnreserved(c) {
      assert t[0] == c && t[1..] == rest;
    } else {
      var bs := Utf8(c);
      Utf8Decodes(c);
      ReadPercentBytes(bs, rest);
      assert t[0] == '%' && t[1] == Hex.UpperDigit(bs[0] / 16) && t[2] == Hex.UpperDigit(bs[0] % 16);
      Hex.NibblesOf(bs[0]);
      assert t[3 * |bs|..] == rest;
    }
  }

  /** Unescaping the escaped text gives back the original string. */
  lemma {:induction false} UnescapeEscape(s: string)
    ensures UnescapeDataString(EscapeDataString(s)) == Some(s)
  {
    if s != [] {
      UnescapeEscape(s[1..]);
      UnescapeCons(s[0], EscapeDataString(s[1..]));
      assert s == [s[0]] + s[1..];
    }
  }
}
