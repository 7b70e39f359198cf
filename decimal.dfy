/**
 * Decimal text of 32-bit integers: Int32.ToString() for output and
 * Convert.ToInt32 / int.TryParse (NumberStyles.Integer) for input.
 */
module Decimal {
  import opened Wrappers
  import Text

  const Int32Min: int := -0x8000_0000
  const Int32Max: int := 0x7FFF_FFFF

  predicate IsInt32(n: int)
  {
    Int32Min <= n <= Int32Max
  }

  predicate IsDigit(c: char)
  {
    '0' <= c <= '9'
  }

  predicate AllDigits(s: string)
  {
    forall k | 0 <= k < |s| :: IsDigit(s[k])
  }

  function DigitChar(d: nat): (c: char)
    requires d < 10
    ensures IsDigit(c) && c as int - '0' as int == d
  {
    ('0' as int + d) as char
  }

  /** The base-10 value of a run of digits, most significant first. */
  function DigitsValue(s: string): nat
    requires AllDigits(s)
  {
    if s == [] then 0 else DigitsValue(s[..|s| - 1]) * 10 + (s[|s| - 1] as int - '0' as int)
  }

  /** The canonical digits of a natural number: no leading zero, "0" for zero. */
  function NatText(n: nat): string
  {
    if n < 10 then [DigitChar(n)] else NatText(n / 10) + [DigitChar(n % 10)]
  }

  /** Int32.ToString() with the invariant culture's "-" sign. */
  function IntText(n: int): string
  {
    if n < 0 then "-" + NatText(-n) else NatText(n)
  }

  /** The white space NumberStyles.AllowLeadingWhite/AllowTrailingWhite admit: TAB to CR, and SPACE. */
  predicate IsNumberWhite(c: char)
  {
    c == ' ' || '\t' <= c <= '\r'
  }

  /** Drops the number white space around `s`. */
  function StripNumberWhite(s: string): (r: string)
    ensures |r| <= |s|
    ensures r != [] ==> !IsNumberWhite(r[0]) && !IsNumberWhite(r[|r| - 1])
    decreases |s|
  {
    if s != [] && IsNumberWhite(s[0]) then StripNumberWhite(s[1..])
    else if s != [] && IsNumberWhite(s[|s| - 1]) then StripNumberWhite(s[..|s| - 1])
    else s
  }

  /**
   * The integer an optionally signed run of digits denotes, after the white
   * space that NumberStyles.Integer allows around it is trimmed; None when the
   * text has any other shape.
   */
  function ParseInteger(s: string): (r: Option<int>)
  {
    var t := StripNumberWhite(s);
    if t == [] then None
    else if t[0] == '-' || t[0] == '+' then
      var digits := t[1..];
      if digits != [] && AllDigits(digits) then
        var v: int := DigitsValue(digits);
        Some(if t[0] == '-' then -v else v)
      else None
    else if AllDigits(t) then Some(DigitsValue(t))
    else None
  }

  /** Convert.ToInt32(string): a parse that also fails (overflows) outside the 32-bit range. */
  function ParseInt32(s: string): (r: Option<int>)
    ensures r.Some? ==> IsInt32(r.value) && ParseInteger(s) == r
    ensures r.None? ==> ParseInteger(s).None? || !IsInt32(ParseInteger(s).value)
  {
    match ParseInteger(s)
    case Some(n) => if IsInt32(n) then Some(n) else None
    case None => None
  }

  lemma {:induction false} NatTextDigits(n: nat)
    ensures NatText(n) != [] && AllDigits(NatText(n))
    ensures DigitsValue(NatText(n)) == n
  {
    if n >= 10 {
      NatTextDigits(n / 10);
      var s := NatText(n);
      assert s[..|s| - 1] == NatText(n / 10);
    }
  }

  /** The decimal text of an integer holds no white space, sign only in front, digits after it. */
  lemma IntTextShape(n: int)
    ensures IntText(n) != [] && Text.Trim(IntText(n)) == IntText(n)
    ensures StripNumberWhite(IntText(n)) == IntText(n)
    ensures forall k | 0 <= k < |IntText(n)| :: IntText(n)[k] == '-' || IsDigit(IntText(n)[k])
  {
    NatTextDigits(if n < 0 then -n else n);
    Text.TrimUnchanged(IntText(n));
  }

  /** The decimal text of an integer holds neither CR nor LF. */
  lemma IntTextNoLineBreak(n: int)
    ensures '\r' !in IntText(n) && '\n' !in IntText(n)
  {
    var t := IntText(n);
    IntTextShape(n);
    forall k | 0 <= k < |t|
      ensures t[k] != '\r' && t[k] != '\n'
    {
    }
  }

  /** Parsing the decimal text of an integer gives the integer back. */
  lemma ParseIntText(n: int)
    ensures ParseInteger(IntText(n)) == Some(n)
  {
    IntTextShape(n);
    var m: nat := if n < 0 then -n else n;
    NatTextDigits(m);
    if n < 0 {
      assert IntText(n)[1..] == NatText(m);
    } else {
      assert NatText(m)[0] != '-' && NatText(m)[0] != '+';
    }
  }

  /** Convert.ToInt32(n.ToString()) == n for every 32-bit n. */
  lemma ParseInt32Text(n: int)
    requires IsInt32(n)
    ensures ParseInt32(IntText(n)) == Some(n)
  {
    ParseIntText(n);
  }
}
