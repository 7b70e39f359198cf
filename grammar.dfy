/**
 * The property-line pattern `(?<PropertyName>[^:]+):(?<TypeSign>[^:]+):(?<Rest>[^\r\n]*)`
 * as Regex.Match applies it: unanchored, the leftmost start that can match,
 * and at that start the greedy choice for every group.
 *
 * ScanFrom is a hand-written matcher; ShapedAt is the declarative reading of
 * the pattern, and the lemmas below connect the two.
 */
module LineGrammar {
  import opened Wrappers

  datatype LineParts = LineParts(key: string, sign: string, rest: string)

  /** A successful match: where it starts, and the three captured groups. */
  datatype Match = Match(start: nat, parts: LineParts)

  predicate NoColon(s: string)
  {
    ':' !in s
  }

  predicate NoLineBreak(s: string)
  {
    '\r' !in s && '\n' !in s
  }

  predicate IsLineBreak(c: char)
  {
    c == '\r' || c == '\n'
  }

  /** The length of the text the pattern consumes when it captures `p`. */
  function MatchLength(p: LineParts): nat
  {
    |p.key| + 1 + |p.sign| + 1 + |p.rest|
  }

  /**
   * The pattern read declaratively: at position `start`, `line` continues with
   * the key, a colon, the sign, a colon and the rest; the key and the sign are
   * non-empty and colon-free and the rest is free of CR and LF.
   */
  ghost predicate ShapedAt(line: string, start: nat, p: LineParts)
  {
    && p.key != [] && NoColon(p.key)
    && p.sign != [] && NoColon(p.sign)
    && NoLineBreak(p.rest)
    && start + MatchLength(p) <= |line|
    && var c1 := start + |p.key|;
    && var c2 := c1 + 1 + |p.sign|;
    && line[start..c1] == p.key && line[c1] == ':'
    && line[c1 + 1..c2] == p.sign && line[c2] == ':'
    && line[c2 + 1..c2 + 1 + |p.rest|] == p.rest
  }

  /** The greedy choice for the last group: the rest runs to the end of the line or to a CR/LF. */
  ghost predicate RestIsGreedy(line: string, start: nat, p: LineParts)
    requires start + MatchLength(p) <= |line|
  {
    start + MatchLength(p) == |line| || IsLineBreak(line[start + MatchLength(p)])
  }

  /** The first colon at or after `i`, or |line| when there is none. */
  function FirstColonFrom(line: string, i: nat): (c: nat)
    requires i <= |line|
    ensures i <= c <= |line|
    ensures c < |line| ==> line[c] == ':'
    ensures forall k | i <= k < c :: line[k] != ':'
    decreases |line| - i
  {
    if i == |line| || line[i] == ':' then i else FirstColonFrom(line, i + 1)
  }

  /** The first CR or LF at or after `i`, or |line| when there is none. */
  function FirstBreakFrom(line: string, i: nat): (e: nat)
    requires i <= |line|
    ensures i <= e <= |line|
    ensures e < |line| ==> IsLineBreak(line[e])
    ensures forall k | i <= k < e :: !IsLineBreak(line[k])
    decreases |line| - i
  {
    if i == |line| || IsLineBreak(line[i]) then i else FirstBreakFrom(line, i + 1)
  }

  /** Whether the pattern can match starting at `i`: a non-empty key up to a colon, then a non-empty sign up to a colon. */
  predicate StartOk(line: string, i: nat)
  {
    && i < |line|
    && var c1 := FirstColonFrom(line, i);
    && i < c1 < |line|
    && var c2 := FirstColonFrom(line, c1 + 1);
    && c1 + 1 < c2 < |line|
  }

  /** The groups captured at a start where the pattern matches. */
  function PartsAt(line: string, i: nat): LineParts
    requires StartOk(line, i)
  {
    var c1 := FirstColonFrom(line, i);
    var c2 := FirstColonFrom(line, c1 + 1);
    var e := FirstBreakFrom(line, c2 + 1);
    LineParts(line[i..c1], line[c1 + 1..c2], line[c2 + 1..e])
  }

  /** The captured groups are a match of the pattern at that start, with the greedy rest. */
  lemma PartsAtShaped(line: string, i: nat)
    requires StartOk(line, i)
    ensures ShapedAt(line, i, PartsAt(line, i))
    ensures RestIsGreedy(line, i, PartsAt(line, i))
  {
    var c1 := FirstColonFrom(line, i);
    var c2 := FirstColonFrom(line, c1 + 1);
    var e := FirstBreakFrom(line, c2 + 1);
    var p := PartsAt(line, i);
    assert MatchLength(p) == e - i;
  }

  /** Any match of the pattern at `i` is the one PartsAt captures, unless its rest stops short. */
  lemma ShapedIsStartOk(line: string, i: nat, p: LineParts)
    requires ShapedAt(line, i, p)
    ensures StartOk(line, i)
    ensures p.key == PartsAt(line, i).key && p.sign == PartsAt(line, i).sign
    ensures RestIsGreedy(line, i, p) ==> p == PartsAt(line, i)
  {
    var c1 := i + |p.key|;
    var c2 := c1 + 1 + |p.sign|;
    var e := c2 + 1 + |p.rest|;
    assert e == i + MatchLength(p);
    SlicesGiveParts(line, i, c1, c2, e, p);
  }

  /** The same, from the positions of the two colons and of the end of the rest. */
  lemma SlicesGiveParts(line: string, i: nat, c1: nat, c2: nat, e: nat, p: LineParts)
    requires p.key != [] && NoColon(p.key) && p.sign != [] && NoColon(p.sign) && NoLineBreak(p.rest)
    requires c1 == i + |p.key| && c2 == c1 + 1 + |p.sign| && e == c2 + 1 + |p.rest| && e == i + MatchLength(p) && e <= |line|
    requires line[i..c1] == p.key && line[c1] == ':'
    requires line[c1 + 1..c2] == p.sign && line[c2] == ':'
    requires line[c2 + 1..e] == p.rest
    ensures StartOk(line, i)
    ensures p.key == PartsAt(line, i).key && p.sign == PartsAt(line, i).sign
    ensures RestIsGreedy(line, i, p) ==> p == PartsAt(line, i)
  {
    ColonAfter(line, i, c1, p.key);
    ColonAfter(line, c1 + 1, c2, p.sign);
    CapturedSlices(line, i, c1, c2);
    if RestIsGreedy(line, i, p) {
      BreakAfter(line, c2 + 1, e, p.rest);
      assert PartsAt(line, i) == LineParts(line[i..c1], line[c1 + 1..c2], line[c2 + 1..e]);
    }
  }

  /** The groups PartsAt captures when the two colons are at `c1` and `c2`. */
  lemma CapturedSlices(line: string, i: nat, c1: nat, c2: nat)
    requires i < c1 && c1 + 1 < c2 < |line|
    requires FirstColonFrom(line, i) == c1 && FirstColonFrom(line, c1 + 1) == c2
    ensures StartOk(line, i)
    ensures PartsAt(line, i) == LineParts(line[i..c1], line[c1 + 1..c2], line[c2 + 1..FirstBreakFrom(line, c2 + 1)])
  {
  }

  /** A colon-free segment followed by a colon: the first colon is the one right after it. */
  lemma ColonAfter(line: string, from: nat, to: nat, seg: string)
    requires from <= to < |line| && line[from..to] == seg && NoColon(seg) && line[to] == ':'
    ensures FirstColonFrom(line, from) == to
  {
    forall k | from <= k < to
      ensures line[k] != ':'
    {
      assert line[k] == seg[k - from];
    }
  }

  /** A break-free segment that ends the line or is followed by CR/LF: the first break is right after it. */
  lemma BreakAfter(line: string, from: nat, to: nat, seg: string)
    requires from <= to <= |line| && line[from..to] == seg && NoLineBreak(seg)
    requires to == |line| || IsLineBreak(line[to])
    ensures FirstBreakFrom(line, from) == to
  {
    forall k | from <= k < to
      ensures !IsLineBreak(line[k])
    {
      assert line[k] == seg[k - from];
    }
  }

  /**
   * Regex.Match from position `i` onwards: the leftmost start at which the
   * pattern can match, with its groups, or None. A start that fails makes every
   * start up to its first colon fail as well, so the scan resumes after it.
   */
  function ScanFrom(line: string, i: nat): (r: Option<Match>)
    ensures r.Some? ==> i <= r.value.start && StartOk(line, r.value.start)
                        && r.value.parts == PartsAt(line, r.value.start)
    ensures r.Some? ==> forall j | i <= j < r.value.start :: !StartOk(line, j)
    ensures r.None? ==> forall j | i <= j :: !StartOk(line, j)
    decreases |line| - i
  {
    if i >= |line| then None
    else
      var c1 := FirstColonFrom(line, i);
      if c1 == |line| then
        assert forall j | i <= j < |line| :: FirstColonFrom(line, j) == |line|;
        None
      else if StartOk(line, i) then Some(Match(i, PartsAt(line, i)))
      else
        assert forall j | i <= j <= c1 :: FirstColonFrom(line, j) == c1;
        ScanFrom(line, c1 + 1)
  }

  /** The match the deserializer performs on one line. */
  function MatchLine(line: string): (r: Option<Match>)
    ensures r.Some? ==> StartOk(line, r.value.start) && r.value.parts == PartsAt(line, r.value.start)
    ensures r.Some? ==> forall j | 0 <= j < r.value.start :: !StartOk(line, j)
    ensures r.None? <==> forall j: nat :: !StartOk(line, j)
  {
    ScanFrom(line, 0)
  }

  /**
   * MatchLine agrees with the declarative pattern: it fails exactly when no
   * start admits the shape, and otherwise captures the leftmost shaped start
   * with the greedy rest.
   */
  lemma MatchLineMeaning(line: string)
    ensures MatchLine(line).None? <==> forall i: nat, p: LineParts :: !ShapedAt(line, i, p)
    ensures MatchLine(line).Some? ==>
              var m := MatchLine(line).value;
              && ShapedAt(line, m.start, m.parts)
              && RestIsGreedy(line, m.start, m.parts)
              && forall i: nat, p: LineParts | i < m.start :: !ShapedAt(line, i, p)
  {
    forall i: nat, p: LineParts | ShapedAt(line, i, p)
      ensures StartOk(line, i)
    {
      ShapedIsStartOk(line, i, p);
    }
    if MatchLine(line).Some? {
      PartsAtShaped(line, MatchLine(line).value.start);
    }
  }

  /** A line written as key ":" sign ":" rest is read back as exactly those three groups. */
  lemma KeyLineParses(key: string, sign: string, rest: string)
    requires key != [] && NoColon(key)
    requires sign != [] && NoColon(sign)
    requires NoLineBreak(rest)
    ensures MatchLine(key + [':'] + sign + [':'] + rest) == Some(Match(0, LineParts(key, sign, rest)))
  {
    var line := key + [':'] + sign + [':'] + rest;
    var p := LineParts(key, sign, rest);
    var c1 := |key|;
    var c2 := c1 + 1 + |sign|;
    assert line[0..c1] == key && line[c1 + 1..c2] == sign && line[c2 + 1..] == rest;
    assert ShapedAt(line, 0, p);
    ShapedIsStartOk(line, 0, p);
  }
}
