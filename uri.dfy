/**
 * SerializeAsRdpUri: the properties written as `rdp://` followed by
 * `key=value` fragments joined by '&', where the key is the percent-escaped
 * [DataMember] name and the value the percent-escaped `sign:text`. After the
 * loop the fragment at the FullAddress mark is moved to the front.
 *
 * UriWalk is the specification of the property loop; the method Serialize
 * builds the escaped fragments as the code does and is proved against it.
 */
module UriSerializer {
  import opened Wrappers
  import opened DataModel
  import Text
  import Percent
  import Serializer
  import Properties

  const Scheme: string := "rdp://"

  /** The C# name of the property whose fragment is moved to the front. */
  const FullAddressName: string := "FullAddress"

  /** What one fragment carries, before escaping: the serialized name and `sign:text`. */
  datatype Pair = Pair(key: string, value: string)

  function FragmentOf(p: Pair): string
  {
    Percent.EscapeDataString(p.key) + "=" + Percent.EscapeDataString(p.value)
  }

  function FragmentsOf(ps: seq<Pair>): (fs: seq<string>)
    ensures |fs| == |ps|
    ensures forall i | 0 <= i < |ps| :: fs[i] == FragmentOf(ps[i])
  {
    seq(|ps|, i requires 0 <= i < |ps| => FragmentOf(ps[i]))
  }

  /**
   * The property loop after the properties `fields`: the pairs written, the
   * value of `fullAddressFragmentIndex` (the number of fragments written when
   * the loop reached FullAddress, whether or not FullAddress is then written),
   * the position FullAddress's own pair was written at, and the exception that
   * ended the loop.
   */
  datatype UriWalk = UriWalk(pairs: seq<Pair>, mark: nat, fullAt: Option<nat>, error: Option<Error>)

  predicate IsFullAddress(f: Field)
  {
    f.name == FullAddressName
  }

  /** The pair a property writes, if the loop body reaches `fragments.Add` for it. */
  function PairOf(f: Field, inst: Instance, strict: bool): (r: Option<Pair>)
    ensures r.Some? ==> !Serializer.Suppressed(f, inst)
  {
    match Serializer.SerializeField(f, inst, strict, Serializer.UriFormat)
    case Emit(key, sign, text) => Some(Pair(key, sign + ":" + text))
    case _ => None
  }

  function Walk(fields: seq<Field>, inst: Instance, strict: bool): (r: UriWalk)
    ensures r.mark <= |r.pairs| <= |fields|
    ensures r.fullAt.Some? ==> r.fullAt.value < |r.pairs|
    ensures !strict && r.error.Some? ==> r.error.value.RangeOverflow?
  {
    if fields == [] then UriWalk([], 0, None, None)
    else
      var f := fields[|fields| - 1];
      var prev := Walk(fields[..|fields| - 1], inst, strict);
      if prev.error.Some? then prev
      else
        var mark := if IsFullAddress(f) then |prev.pairs| else prev.mark;
        var step := Serializer.SerializeField(f, inst, strict, Serializer.UriFormat);
        if step.Throw? then UriWalk(prev.pairs, mark, prev.fullAt, Some(step.error))
        else
          var pairs := if step.Emit? then prev.pairs + [Pair(step.key, step.sign + ":" + step.text)] else prev.pairs;
          var fullAt := if IsFullAddress(f) && step.Emit? then Some(|prev.pairs|) else prev.fullAt;
          UriWalk(pairs, mark, fullAt, None)
  }

  /**
   * `fullAt` tracks FullAddress's own pair: when it is set, the pair there is
   * the one a FullAddress property wrote; when it is not, no FullAddress
   * property wrote one.
   */
  lemma {:induction false} WalkFullAt(fields: seq<Field>, inst: Instance, strict: bool)
    ensures var r := Walk(fields, inst, strict);
            r.error.None? && r.fullAt.Some? ==>
              exists i | 0 <= i < |fields| :: IsFullAddress(fields[i]) && PairOf(fields[i], inst, strict) == Some(r.pairs[r.fullAt.value])
    ensures var r := Walk(fields, inst, strict);
            r.error.None? && r.fullAt.None? ==>
              forall i | 0 <= i < |fields| && IsFullAddress(fields[i]) :: PairOf(fields[i], inst, strict).None?
  {
    if fields != [] {
      var n := |fields| - 1;
      var init := fields[..n];
      var f := fields[n];
      WalkFullAt(init, inst, strict);
      WalkSnoc(fields, inst, strict);
      var r := Walk(fields, inst, strict);
      var prev := Walk(init, inst, strict);
      var p := PairOf(f, inst, strict);
      if r.error.None? {
        if r.fullAt.Some? {
          if IsFullAddress(f) && p.Some? {
            assert r.pairs[r.fullAt.value] == p.value;
            assert IsFullAddress(fields[n]) && PairOf(fields[n], inst, strict) == Some(r.pairs[r.fullAt.value]);
          } else {
            var i :| 0 <= i < n && IsFullAddress(init[i]) && PairOf(init[i], inst, strict) == Some(prev.pairs[prev.fullAt.value]);
            assert init[i] == fields[i];
            assert r.pairs[r.fullAt.value] == prev.pairs[prev.fullAt.value];
          }
        } else {
          forall i | 0 <= i < |fields| && IsFullAddress(fields[i])
            ensures PairOf(fields[i], inst, strict).None?
          {
            if i < n {
              assert init[i] == fields[i];
            }
          }
        }
      }
    }
  }

  /** One more property in the walk, when it does not throw: its pair, if any, is appended, and FullAddress's is tracked. */
  lemma WalkSnoc(fields: seq<Field>, inst: Instance, strict: bool)
    requires fields != []
    ensures var n := |fields| - 1;
            var r := Walk(fields, inst, strict);
            var prev := Walk(fields[..n], inst, strict);
            var p := PairOf(fields[n], inst, strict);
            r.error.None? ==>
              && prev.error.None?
              && r.pairs == (if p.Some? then prev.pairs + [p.value] else prev.pairs)
              && r.fullAt == (if IsFullAddress(fields[n]) && p.Some? then Some(|prev.pairs|) else prev.fullAt)
  {
  }

  /** `x = xs[k]; xs.RemoveAt(k); xs.Insert(0, x)`. */
  function MoveToFront<T>(xs: seq<T>, k: nat): (r: seq<T>)
    requires k < |xs|
    ensures |r| == |xs| && r[0] == xs[k]
    ensures forall i | 0 <= i < k :: r[i + 1] == xs[i]
    ensures forall i | k < i < |xs| :: r[i] == xs[i]
    ensures multiset(r) == multiset(xs)
  {
    var removed := xs[..k] + xs[k + 1..];
    assert xs == xs[..k] + [xs[k]] + xs[k + 1..];
    [xs[k]] + removed
  }

  /**
   * The move after the loop, as written: a mark of 0 leaves the order alone;
   * otherwise the fragment at the mark is moved to the front, and a mark past
   * the last fragment makes `fragments[index]` throw, in both modes.
   */
  function Reorder<T>(xs: seq<T>, mark: nat): (r: Result<seq<T>, Error>)
    ensures mark == 0 ==> r == Ok(xs)
    ensures r.Err? <==> 0 < mark && |xs| <= mark
    ensures r.Err? ==> r.error == IndexOutOfRange(mark)
    ensures 0 < mark < |xs| ==> r == Ok(MoveToFront(xs, mark))
  {
    if mark == 0 then Ok(xs)
    else if mark < |xs| then Ok(MoveToFront(xs, mark))
    else Err(IndexOutOfRange(mark))
  }

  /** The pairs the URI carries, in the order it carries them, or the exception. */
  function UriPairs(schema: Schema, inst: Instance, strict: bool): (r: Result<seq<Pair>, Error>)
    requires schema.dataContract
  {
    var w := Walk(schema.fields, inst, strict);
    if w.error.Some? then Err(w.error.value) else Reorder(w.pairs, w.mark)
  }

  /** The URI as written; a type without [DataContract] gives the bare scheme when lenient. */
  function SerializeAsRdpUri(schema: Schema, inst: Instance, strict: bool): (r: Result<string, Error>)
    ensures !schema.dataContract ==> r == if strict then Err(NotDataContract) else Ok(Scheme)
    ensures schema.dataContract && UriPairs(schema, inst, strict).Err? ==> r == Err(UriPairs(schema, inst, strict).error)
    ensures r.Ok? ==> |r.value| >= |Scheme| && r.value[..|Scheme|] == Scheme
  {
    if !schema.dataContract then
      if strict then Err(NotDataContract) else Ok(Scheme)
    else
      match UriPairs(schema, inst, strict)
      case Err(e) => Err(e)
      case Ok(ps) => Ok(Scheme + Text.Join(FragmentsOf(ps), '&'))
  }

  /** The property loop: each property checked and, if written, its escaped fragment appended. */
  method WalkFields(fields: seq<Field>, inst: Instance, strict: bool)
    returns (fragments: seq<string>, fullAddressFragmentIndex: nat, error: Option<Error>)
    ensures var w := Walk(fields, inst, strict);
            error == w.error && (error.None? ==> fragments == FragmentsOf(w.pairs) && fullAddressFragmentIndex == w.mark)
  {
    fragments, fullAddressFragmentIndex, error := [], 0, None;
    var index := 0;
    var i := 0;
    while i < |fields|
      invariant 0 <= i <= |fields|
      invariant var w := Walk(fields[..i], inst, strict);
                w.error.None? && fragments == FragmentsOf(w.pairs) && fullAddressFragmentIndex == w.mark
      invariant index == |fragments|
    {
      var f := fields[i];
      assert fields[..i + 1][..i] == fields[..i];
      if IsFullAddress(f) {
        fullAddressFragmentIndex := index;
      }
      var step := Serializer.SerializeField(f, inst, strict, Serializer.UriFormat);
      if step.Throw? {
        error := Some(step.error);
        WalkErrorIsFinal(fields, inst, strict, i + 1);
        return;
      }
      if step.Emit? {
        FragmentsSnoc(Walk(fields[..i], inst, strict).pairs, Pair(step.key, step.sign + ":" + step.text));
        fragments := fragments + [FragmentOf(Pair(step.key, step.sign + ":" + step.text))];
        index := index + 1;
      }
      i := i + 1;
    }
    assert fields[..i] == fields;
  }

  lemma FragmentsSnoc(ps: seq<Pair>, p: Pair)
    ensures FragmentsOf(ps + [p]) == FragmentsOf(ps) + [FragmentOf(p)]
  {
  }

  /** SerializeAsRdpUri: the [DataContract] check, the property loop, the FullAddress move and the join. */
  method Serialize(schema: Schema, props: Properties.RdpProperties, strict: bool)
    returns (uri: string, error: Option<Error>)
    ensures SerializeAsRdpUri(schema, props.values, strict) == if error.Some? then Err(error.value) else Ok(uri)
  {
    uri, error := Scheme, None;
    if !schema.dataContract {
      if strict {
        error := Some(NotDataContract);
      }
      return;
    }
    var fragments, fullAddressFragmentIndex;
    fragments, fullAddressFragmentIndex, error := WalkFields(schema.fields, props.values, strict);
    if error.Some? {
      return;
    }
    ghost var w := Walk(schema.fields, props.values, strict);
    if fullAddressFragmentIndex > 0 {
      if fullAddressFragmentIndex >= |fragments| {
        error := Some(IndexOutOfRange(fullAddressFragmentIndex));
        return;
      }
      var fullAddressFragment := fragments[fullAddressFragmentIndex];
      fragments := fragments[..fullAddressFragmentIndex] + fragments[fullAddressFragmentIndex + 1..];
      fragments := [fullAddressFragment] + fragments;
      MoveFragments(w.pairs, fullAddressFragmentIndex);
    }
    uri := Scheme + Text.Join(fragments, '&');
  }

  /** Moving the escaped fragments is moving the pairs and then escaping. */
  lemma MoveFragments(ps: seq<Pair>, k: nat)
    requires k < |ps|
    ensures FragmentsOf(MoveToFront(ps, k)) == MoveToFront(FragmentsOf(ps), k)
  {
    var l := FragmentsOf(MoveToFront(ps, k));
    var r := MoveToFront(FragmentsOf(ps), k);
    forall i | 0 <= i < |ps|
      ensures l[i] == r[i]
    {
      if 0 < i <= k {
        assert l[(i - 1) + 1] == FragmentOf(ps[i - 1]);
      }
    }
  }

  lemma {:induction false} WalkErrorIsFinal(fields: seq<Field>, inst: Instance, strict: bool, i: nat)
    requires i <= |fields| && Walk(fields[..i], inst, strict).error.Some?
    ensures Walk(fields, inst, strict).error == Walk(fields[..i], inst, strict).error
    decreases |fields|
  {
    if i < |fields| {
      var init := fields[..|fields| - 1];
      assert init[..i] == fields[..i];
      WalkErrorIsFinal(init, inst, strict, i);
    } else {
      assert fields[..i] == fields;
    }
  }

  /** Reading a fragment back: split at its first '=' and unescape both halves. */
  function DecodeFragment(fragment: string): Option<Pair>
  {
    var i := Text.IndexOf(fragment, '=');
    if i == |fragment| then None
    else
      match (Percent.UnescapeDataString(fragment[..i]), Percent.UnescapeDataString(fragment[i + 1..]))
      case (Some(key), Some(value)) => Some(Pair(key, value))
      case _ => None
  }

  function DecodeFragments(fragments: seq<string>): Option<seq<Pair>>
  {
    if fragments == [] then Some([])
    else
      match (DecodeFragment(fragments[0]), DecodeFragments(fragments[1..]))
      case (Some(p), Some(ps)) => Some([p] + ps)
      case _ => None
  }

  /** Escaped text holds neither '=' nor '&'. */
  lemma EscapedHasNoDelimiters(s: string)
    ensures '=' !in Percent.EscapeDataString(s) && '&' !in Percent.EscapeDataString(s)
  {
    var t := Percent.EscapeDataString(s);
    assert forall j | 0 <= j < |t| :: Percent.IsEscapedChar(t[j]);
  }

  /** A text with no '=' before the first '=' splits there into its two halves. */
  lemma SplitAtFirstEquals(k: string, v: string)
    requires '=' !in k
    ensures Text.IndexOf(k + "=" + v, '=') == |k|
    ensures (k + "=" + v)[..|k|] == k && (k + "=" + v)[|k| + 1..] == v
  {
    var fr := k + "=" + v;
    assert fr[|k|] == '=';
    assert forall j | 0 <= j < |k| :: fr[j] == k[j];
  }

  /** A fragment is never empty, holds no '&', and decodes back to its pair. */
  lemma FragmentReadsBack(p: Pair)
    ensures FragmentOf(p) != [] && '&' !in FragmentOf(p)
    ensures DecodeFragment(FragmentOf(p)) == Some(p)
  {
    var k := Percent.EscapeDataString(p.key);
    var v := Percent.EscapeDataString(p.value);
    EscapedHasNoDelimiters(p.key);
    EscapedHasNoDelimiters(p.value);
    SplitAtFirstEquals(k, v);
    Percent.UnescapeEscape(p.key);
    Percent.UnescapeEscape(p.value);
    assert '&' !in k + "=" + v;
  }

  lemma {:induction false} FragmentsReadBack(ps: seq<Pair>)
    ensures Text.SeparableItems(FragmentsOf(ps), '&')
    ensures DecodeFragments(FragmentsOf(ps)) == Some(ps)
  {
    if ps != [] {
      FragmentReadsBack(ps[0]);
      FragmentsReadBack(ps[1..]);
      assert FragmentsOf(ps)[1..] == FragmentsOf(ps[1..]);
      assert [ps[0]] + ps[1..] == ps;
      forall k | 0 <= k < |ps|
        ensures FragmentOf(ps[k]) != [] && '&' !in FragmentOf(ps[k])
      {
        FragmentReadsBack(ps[k]);
      }
    }
  }

  /**
   * The URI reads back: after the scheme, splitting on '&' and decoding each
   * fragment gives the written pairs in the order the URI carries them.
   */
  lemma UriReadsBack(schema: Schema, inst: Instance, strict: bool)
    requires schema.dataContract && SerializeAsRdpUri(schema, inst, strict).Ok?
    ensures var uri := SerializeAsRdpUri(schema, inst, strict).value;
            DecodeFragments(Text.SplitNonEmpty(Some(uri[|Scheme|..]), '&')) == Some(UriPairs(schema, inst, strict).value)
  {
    var ps := UriPairs(schema, inst, strict).value;
    var fs := FragmentsOf(ps);
    var uri := SerializeAsRdpUri(schema, inst, strict).value;
    assert uri[|Scheme|..] == Text.Join(fs, '&');
    FragmentsReadBack(ps);
    if fs != [] {
      Text.SplitNonEmptyJoin(fs, '&');
    } else {
      assert Text.SplitAll("", '&') == [""];
    }
  }

  /** The pairs the URI carries are exactly the pairs written, moved around and never lost or duplicated. */
  lemma UriPairsArePermutation(schema: Schema, inst: Instance, strict: bool)
    requires schema.dataContract && UriPairs(schema, inst, strict).Ok?
    ensures multiset(UriPairs(schema, inst, strict).value) == multiset(Walk(schema.fields, inst, strict).pairs)
  {
  }

  /** When FullAddress is written, the mark is where its own pair went, so the move puts it first. */
  lemma {:induction false} MarkIsFullAddress(fields: seq<Field>, inst: Instance, strict: bool)
    requires forall i, j | 0 <= i < j < |fields| :: fields[i].name != fields[j].name
    requires Walk(fields, inst, strict).error.None? && Walk(fields, inst, strict).fullAt.Some?
    ensures Walk(fields, inst, strict).mark == Walk(fields, inst, strict).fullAt.value
  {
    var n := |fields| - 1;
    var init := fields[..n];
    assert forall i | 0 <= i < n :: init[i] == fields[i];
    if !IsFullAddress(fields[n]) {
      MarkIsFullAddress(init, inst, strict);
    } else {
      WalkFullAt(init, inst, strict);
    }
  }

  /**
   * The move intended: FullAddress's own fragment goes to the front when it is
   * written, and nothing moves when it is not.
   */
  function UriPairsIntended(schema: Schema, inst: Instance, strict: bool): (r: Result<seq<Pair>, Error>)
    requires schema.dataContract
    ensures Walk(schema.fields, inst, strict).error.None? ==> r.Ok?
    ensures r.Ok? ==> multiset(r.value) == multiset(Walk(schema.fields, inst, strict).pairs)
    ensures r.Ok? && Walk(schema.fields, inst, strict).fullAt.Some? ==>
              exists i | 0 <= i < |schema.fields| :: IsFullAddress(schema.fields[i]) && PairOf(schema.fields[i], inst, strict) == Some(r.value[0])
    ensures r.Ok? && Walk(schema.fields, inst, strict).fullAt.Some? ==>
              r.value == MoveToFront(Walk(schema.fields, inst, strict).pairs, Walk(schema.fields, inst, strict).fullAt.value)
    ensures r.Ok? && Walk(schema.fields, inst, strict).fullAt.None? ==> r.value == Walk(schema.fields, inst, strict).pairs
  {
    var w := Walk(schema.fields, inst, strict);
    WalkFullAt(schema.fields, inst, strict);
    if w.error.Some? then Err(w.error.value)
    else if w.fullAt.Some? then Ok(MoveToFront(w.pairs, w.fullAt.value))
    else Ok(w.pairs)
  }

  /** The URI with the intended move. */
  function SerializeAsRdpUriIntended(schema: Schema, inst: Instance, strict: bool): (r: Result<string, Error>)
    ensures !schema.dataContract ==> r == if strict then Err(NotDataContract) else Ok(Scheme)
    ensures schema.dataContract && Walk(schema.fields, inst, strict).error.None? ==>
              r == Ok(Scheme + Text.Join(FragmentsOf(UriPairsIntended(schema, inst, strict).value), '&'))
  {
    if !schema.dataContract then
      if strict then Err(NotDataContract) else Ok(Scheme)
    else
      match UriPairsIntended(schema, inst, strict)
      case Err(e) => Err(e)
      case Ok(ps) => Ok(Scheme + Text.Join(FragmentsOf(ps), '&'))
  }

  /** Where FullAddress is written and property names are distinct, the code as written does what is intended. */
  lemma AgreesWhenFullAddressWritten(schema: Schema, inst: Instance, strict: bool)
    requires schema.dataContract
    requires forall i, j | 0 <= i < j < |schema.fields| :: schema.fields[i].name != schema.fields[j].name
    requires Walk(schema.fields, inst, strict).fullAt.Some?
    ensures UriPairs(schema, inst, strict) == UriPairsIntended(schema, inst, strict)
  {
    var w := Walk(schema.fields, inst, strict);
    if w.error.None? {
      MarkIsFullAddress(schema.fields, inst, strict);
      if w.mark == 0 {
        assert MoveToFront(w.pairs, 0) == w.pairs;
      }
    }
  }

  // A three-property URI type: `a`, FullAddress and `b`, all strings.

  function TextField(name: string, key: string): Field
  {
    Field(name, TextKind, DataMember(Some(key)), None, None, None, None, false)
  }

  const Sample: Schema := Schema(true, [TextField("A", "a"), TextField(FullAddressName, "full address"), TextField("B", "b")])

  /**
   * With FullAddress null and `b` set, the mark is 1 and points at `b`'s
   * fragment, which the code moves in front of `a`'s; with `b` null as well the
   * mark points past the last fragment and the call throws, even when lenient.
   */
  lemma FullAddressMarkQuirk(strict: bool)
    ensures UriPairs(Sample, map["A" := Values.TextVal("x"), "B" := Values.TextVal("y")], strict)
              == Ok([Pair("b", "s:y"), Pair("a", "s:x")])
    ensures UriPairs(Sample, map["A" := Values.TextVal("x")], strict) == Err(IndexOutOfRange(1))
    ensures UriPairsIntended(Sample, map["A" := Values.TextVal("x"), "B" := Values.TextVal("y")], strict)
              == Ok([Pair("a", "s:x"), Pair("b", "s:y")])
    ensures UriPairsIntended(Sample, map["A" := Values.TextVal("x")], strict) == Ok([Pair("a", "s:x")])
  {
    SampleWalkBoth(strict);
    SampleWalkFirst(strict);
    assert MoveToFront([Pair("a", "s:x"), Pair("b", "s:y")], 1) == [Pair("b", "s:y"), Pair("a", "s:x")];
  }

  lemma SampleWalkBoth(strict: bool)
    ensures Walk(Sample.fields, map["A" := Values.TextVal("x"), "B" := Values.TextVal("y")], strict)
              == UriWalk([Pair("a", "s:x"), Pair("b", "s:y")], 1, None, None)
  {
    var inst := map["A" := Values.TextVal("x"), "B" := Values.TextVal("y")];
    var fs := Sample.fields;
    assert fs[..2][..1] == fs[..1] && fs[..1][..0] == [] && fs[..3] == fs;
    assert Values.ToText(Values.TextVal("x")) == "x" && "s" + ":" + "x" == "s:x";
    assert Serializer.SerializeField(fs[0], inst, strict, Serializer.UriFormat) == Serializer.Emit("a", "s", "x");
    assert Walk(fs[..1], inst, strict) == UriWalk([Pair("a", "s:x")], 0, None, None);
    assert Walk(fs[..2], inst, strict) == UriWalk([Pair("a", "s:x")], 1, None, None);
    assert Values.ToText(Values.TextVal("y")) == "y" && "s" + ":" + "y" == "s:y";
    assert Serializer.SerializeField(fs[2], inst, strict, Serializer.UriFormat) == Serializer.Emit("b", "s", "y");
  }

  lemma SampleWalkFirst(strict: bool)
    ensures Walk(Sample.fields, map["A" := Values.TextVal("x")], strict) == UriWalk([Pair("a", "s:x")], 1, None, None)
  {
    var inst := map["A" := Values.TextVal("x")];
    var fs := Sample.fields;
    assert fs[..2][..1] == fs[..1] && fs[..1][..0] == [] && fs[..3] == fs;
    assert Values.ToText(Values.TextVal("x")) == "x" && "s" + ":" + "x" == "s:x";
    assert Serializer.SerializeField(fs[0], inst, strict, Serializer.UriFormat) == Serializer.Emit("a", "s", "x");
    assert Walk(fs[..1], inst, strict) == UriWalk([Pair("a", "s:x")], 0, None, None);
    assert Walk(fs[..2], inst, strict) == UriWalk([Pair("a", "s:x")], 1, None, None);
  }

  /** A byte array has no sign in the URI form: strict serialization refuses it, lenient serialization skips it. */
  lemma BytesUnsupported(f: Field, inst: Instance)
    requires f.kind == BytesKind && !Serializer.Suppressed(f, inst) && f.member.DataMember? && f.member.key.Some?
    requires f.allowed.None? && f.range.None?
    ensures Serializer.SerializeField(f, inst, true, Serializer.UriFormat) == Serializer.Throw(UnsupportedType(f.name))
    ensures PairOf(f, inst, false).None?
  {
  }
}
