/**
 * The .NET string operations the connection-property code relies on:
 * char.IsWhiteSpace, Trim, string.IsNullOrWhiteSpace, Split with
 * RemoveEmptyEntries, string.Join and OrdinalIgnoreCase equality.
 */
module Text {
  import opened Wrappers

  /** char.IsWhiteSpace: the Unicode space separators plus the control characters it lists. */
  predicate IsWhiteSpace(c: char)
  {
    || c == ' ' || ('\t' <= c <= '\r') || c == '\U{85}' || c == '\U{A0}' || c == '\U{1680}'
    || ('\U{2000}' <= c <= '\U{200A}') || c == '\U{2028}' || c == '\U{2029}'
    || c == '\U{202F}' || c == '\U{205F}' || c == '\U{3000}'
  }

  predicate AllWhiteSpace(s: string)
  {
    forall k | 0 <= k < |s| :: IsWhiteSpace(s[k])
  }

  /** The first plane of Unicode; a character beyond it takes two UTF-16 code units. */
  predicate InBasicPlane(c: char)
  {
    c as int < 0x1_0000
  }

  /** String.Length: the number of UTF-16 code units, two for each character beyond the first plane. */
  function Utf16Length(s: string): (n: nat)
    ensures |s| <= n <= 2 * |s|
    ensures (forall k | 0 <= k < |s| :: InBasicPlane(s[k])) ==> n == |s|
  {
    if s == [] then 0
    else
      assert forall k | 0 <= k < |s[1..]| :: s[1..][k] == s[k + 1];
      (if InBasicPlane(s[0]) then 1 else 2) + Utf16Length(s[1..])
  }

  /** string.IsNullOrWhiteSpace; None stands for a null reference. */
  predicate IsNullOrWhiteSpace(s: Option<string>)
  {
    s.None? || AllWhiteSpace(s.value)
  }

  function TrimStart(s: string): (r: string)
    ensures |r| <= |s| && r == s[|s| - |r|..]
    ensures AllWhiteSpace(s[..|s| - |r|])
    ensures r != [] ==> !IsWhiteSpace(r[0])
  {
    if s != [] && IsWhiteSpace(s[0]) then TrimStart(s[1..]) else s
  }

  function TrimEnd(s: string): (r: string)
    ensures |r| <= |s| && r == s[..|r|]
    ensures AllWhiteSpace(s[|r|..])
    ensures r != [] ==> !IsWhiteSpace(r[|r| - 1])
  {
    if s != [] && IsWhiteSpace(s[|s| - 1]) then
      var r := TrimEnd(s[..|s| - 1]);
      assert s[|r|..] == s[..|s| - 1][|r|..] + [s[|s| - 1]];
      r
    else s
  }

  /** string.Trim: drops leading and trailing white space, keeps the middle untouched. */
  function Trim(s: string): (r: string)
    ensures |r| <= |s|
    ensures r != [] ==> !IsWhiteSpace(r[0]) && !IsWhiteSpace(r[|r| - 1])
    ensures r == [] <==> AllWhiteSpace(s)
  {
    TrimEnd(TrimStart(s))
  }

  /** What Trim keeps is a slice of the input, and everything it drops on either side is white space. */
  lemma TrimDropsWhiteEnds(s: string)
    ensures exists from | 0 <= from <= |s| - |Trim(s)| ::
              && Trim(s) == s[from..from + |Trim(s)|]
              && AllWhiteSpace(s[..from]) && AllWhiteSpace(s[from + |Trim(s)|..])
  {
    var t := TrimStart(s);
    var r := Trim(s);
    var from := |s| - |t|;
    SliceOfSuffix(s, from, |r|);
    assert r == s[from..from + |r|] && AllWhiteSpace(s[..from]) && AllWhiteSpace(s[from + |r|..]);
  }

  lemma SliceOfSuffix(s: string, from: nat, n: nat)
    requires from + n <= |s|
    ensures s[from..][..n] == s[from..from + n]
    ensures s[from..][n..] == s[from + n..]
  {
  }

  /** Trim leaves a string alone when its first and last characters are not white space. */
  lemma {:induction false} TrimUnchanged(s: string)
    requires s != [] ==> !IsWhiteSpace(s[0]) && !IsWhiteSpace(s[|s| - 1])
    ensures Trim(s) == s
  {
  }

  /** The position of the first `sep` in `s`, or |s| when there is none. */
  function IndexOf(s: string, sep: char): (i: nat)
    ensures i <= |s|
    ensures i < |s| ==> s[i] == sep
    ensures forall k | 0 <= k < i :: s[k] != sep
  {
    if s == [] || s[0] == sep then 0 else 1 + IndexOf(s[1..], sep)
  }

  /**
   * string.Split(sep) with no options: every piece, empty ones included.
   * The pieces are free of `sep` and joined by `sep` they give `s` back;
   * SplitJoin shows that no other list of pieces does.
   */
  function SplitAll(s: string, sep: char): (pieces: seq<string>)
    ensures |pieces| > 0
    ensures forall k | 0 <= k < |pieces| :: sep !in pieces[k]
    ensures Join(pieces, sep) == s
    decreases |s|
  {
    var i := IndexOf(s, sep);
    if i == |s| then [s]
    else
      var rest := SplitAll(s[i + 1..], sep);
      assert ([s[..i]] + rest)[1..] == rest;
      assert s == s[..i] + [sep] + s[i + 1..];
      [s[..i]] + rest
  }

  /** The items of `xs` that are not empty, in their order. */
  function RemoveEmpty(xs: seq<string>): (r: seq<string>)
    ensures |r| <= |xs|
    ensures forall k | 0 <= k < |r| :: r[k] in xs && r[k] != []
    ensures forall k | 0 <= k < |xs| :: xs[k] != [] ==> xs[k] in r
  {
    if xs == [] then []
    else
      var rest := RemoveEmpty(xs[1..]);
      assert forall k | 1 <= k < |xs| :: xs[k] == xs[1..][k - 1];
      if xs[0] == [] then rest else [xs[0]] + rest
  }

  /** `s?.Split(sep, StringSplitOptions.RemoveEmptyEntries) ?? Enumerable.Empty<string>()` */
  function SplitNonEmpty(s: Option<string>, sep: char): (r: seq<string>)
    ensures s.None? ==> r == []
    ensures forall k | 0 <= k < |r| :: r[k] != [] && sep !in r[k]
    ensures s.Some? && sep !in s.value ==> r == if s.value == [] then [] else [s.value]
  {
    if s.None? then [] else RemoveEmpty(SplitAll(s.value, sep))
  }

  /** string.Join(sep, xs). */
  function Join(xs: seq<string>, sep: char): string
  {
    if xs == [] then ""
    else if |xs| == 1 then xs[0]
    else xs[0] + [sep] + Join(xs[1..], sep)
  }

  /** Joining two non-empty lists puts one separator between their joins. */
  lemma {:induction false} JoinAppend(xs: seq<string>, ys: seq<string>, sep: char)
    requires xs != [] && ys != []
    ensures Join(xs + ys, sep) == Join(xs, sep) + [sep] + Join(ys, sep)
  {
    if |xs| == 1 {
      assert (xs + ys)[1..] == ys;
    } else {
      JoinAppend(xs[1..], ys, sep);
      assert (xs + ys)[1..] == xs[1..] + ys;
    }
  }

  /** A separator splits the text in two: the pieces before it, then the pieces after it. */
  lemma SplitAppend(x: string, y: string, sep: char)
    ensures SplitAll(x + [sep] + y, sep) == SplitAll(x, sep) + SplitAll(y, sep)
  {
    var a, b := SplitAll(x, sep), SplitAll(y, sep);
    JoinAppend(a, b, sep);
    SeparatorFreeAppend(a, b, sep);
    SplitJoin(a + b, sep);
  }

  lemma SeparatorFreeAppend(a: seq<string>, b: seq<string>, sep: char)
    requires forall k | 0 <= k < |a| :: sep !in a[k]
    requires forall k | 0 <= k < |b| :: sep !in b[k]
    ensures forall k | 0 <= k < |a + b| :: sep !in (a + b)[k]
  {
    forall k | 0 <= k < |a + b| ensures sep !in (a + b)[k] {
      if k >= |a| { assert (a + b)[k] == b[k - |a|]; }
    }
  }

  /** Dropping empty items commutes with concatenation. */
  lemma {:induction false} RemoveEmptyAppend(xs: seq<string>, ys: seq<string>)
    ensures RemoveEmpty(xs + ys) == RemoveEmpty(xs) + RemoveEmpty(ys)
  {
    if xs != [] {
      RemoveEmptyAppend(xs[1..], ys);
      assert (xs + ys)[1..] == xs[1..] + ys;
    } else {
      assert xs + ys == ys;
    }
  }

  /**
   * The non-empty items of the text on each side of a separator, in order.
   * With the single-piece case in SplitNonEmpty's contract this pins the
   * result down for every text.
   */
  lemma SplitNonEmptyAppend(x: string, y: string, sep: char)
    ensures SplitNonEmpty(Some(x + [sep] + y), sep) == SplitNonEmpty(Some(x), sep) + SplitNonEmpty(Some(y), sep)
  {
    SplitAppend(x, y, sep);
    RemoveEmptyAppend(SplitAll(x, sep), SplitAll(y, sep));
  }

  /** A join starts with the first item. */
  lemma JoinStart(xs: seq<string>, sep: char)
    requires xs != [] && xs[0] != []
    ensures Join(xs, sep) != [] && Join(xs, sep)[0] == xs[0][0]
  {
  }

  /** A list the `Set*` helpers can store so that the matching `Get*` gives it back. */
  predicate SeparableItems(xs: seq<string>, sep: char)
  {
    forall k | 0 <= k < |xs| :: xs[k] != [] && sep !in xs[k]
  }

  /** Splitting a join on the same separator gives back the pieces. */
  lemma {:induction false} SplitJoin(xs: seq<string>, sep: char)
    requires xs != []
    requires forall k | 0 <= k < |xs| :: sep !in xs[k]
    ensures SplitAll(Join(xs, sep), sep) == xs
  {
    if |xs| > 1 {
      var s := Join(xs, sep);
      assert s == xs[0] + [sep] + Join(xs[1..], sep);
      var i := IndexOf(s, sep);
      assert s[|xs[0]|] == sep;
      assert forall k | 0 <= k < |xs[0]| :: s[k] == xs[0][k];
      assert i == |xs[0]|;
      assert s[..i] == xs[0];
      assert s[i + 1..] == Join(xs[1..], sep);
      SplitJoin(xs[1..], sep);
      assert xs == [xs[0]] + xs[1..];
    } else {
      assert Join(xs, sep) == xs[0];
      assert IndexOf(xs[0], sep) == |xs[0]|;
    }
  }

  lemma {:induction false} RemoveEmptyKeeps(xs: seq<string>)
    requires forall k | 0 <= k < |xs| :: xs[k] != []
    ensures RemoveEmpty(xs) == xs
  {
    if xs != [] {
      var rest := xs[1..];
      assert forall k | 0 <= k < |rest| :: rest[k] == xs[k + 1];
      RemoveEmptyKeeps(rest);
      assert RemoveEmpty(xs) == [xs[0]] + RemoveEmpty(rest);
      assert xs == [xs[0]] + rest;
    }
  }

  /** The round trip behind every list helper: Split(Join(xs)) == xs for separable items. */
  lemma SplitNonEmptyJoin(xs: seq<string>, sep: char)
    requires xs != [] && SeparableItems(xs, sep)
    ensures SplitNonEmpty(Some(Join(xs, sep)), sep) == xs
  {
    SplitJoin(xs, sep);
    RemoveEmptyKeeps(xs);
  }

  /** Char.ToUpperInvariant restricted to ASCII letters. */
  function AsciiUpper(c: char): char
  {
    if 'a' <= c <= 'z' then (c as int - 32) as char else c
  }

  /** String.ToUpperInvariant restricted to ASCII letters. */
  function Upper(s: string): (u: string)
    ensures |u| == |s| && forall k | 0 <= k < |s| :: u[k] == AsciiUpper(s[k])
  {
    seq(|s|, k requires 0 <= k < |s| => AsciiUpper(s[k]))
  }

  /** string.Equals(a, b, StringComparison.OrdinalIgnoreCase); a null side compares equal only to null. */
  predicate EqualsIgnoreCase(a: string, b: Option<string>)
  {
    b.Some? && |a| == |b.value| && forall k | 0 <= k < |a| :: AsciiUpper(a[k]) == AsciiUpper(b.value[k])
  }

  /** Ignoring case, two texts are equal exactly when their upper-case forms are. */
  lemma EqualsIgnoreCaseUpper(a: string, b: Option<string>)
    ensures EqualsIgnoreCase(a, b) <==> b.Some? && Upper(a) == Upper(b.value)
  {
    if b.Some? && Upper(a) == Upper(b.value) {
      forall k | 0 <= k < |a| ensures AsciiUpper(a[k]) == AsciiUpper(b.value[k]) {
        assert Upper(a)[k] == Upper(b.value)[k];
      }
    }
  }
}
