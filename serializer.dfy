/**
 * RdpSerializer.Serialize and RdpSerializer.Deserialize: a property object
 * to and from lines of the form `key:sign:text`, where the sign is `i`
 * (integer), `s` (string) or `b` (bytes).
 *
 * `strict` is the `throwIfNotValid` flag: when set, a failed check ends
 * the operation with an error; when clear, the property or line is
 * skipped, except for the failures the code raises in both modes.
 */
module Serializer {
  import opened Wrappers
  import opened Values
  import opened DataModel
  import Text
  import Decimal
  import Hex
  import LineGrammar
  import Properties

  /** Where a property's text goes: a line of the property file, or a fragment of an rdp:// URI. */
  datatype Format = LineFormat | UriFormat

  /** What one property contributes: a `key:sign:text` triple, nothing, or an exception. */
  datatype FieldStep = Emit(key: string, sign: string, text: string) | Pass | Throw(error: Error)

  /**
   * The type sign for a declared type: `i` for integers, `s` for string-like
   * types, `b` for byte arrays in the line format; None for an unsupported type.
   */
  function SignOf(kind: Kind, format: Format): (sign: Option<string>)
    ensures sign.Some? ==> sign.value in {"i", "s", "b"}
    ensures sign == Some("b") <==> kind == BytesKind && format == LineFormat
    ensures kind == OtherKind ==> sign.None?
  {
    match kind
    case IntKind => Some("i")
    case TextKind => Some("s")
    case TextLikeKind => Some("s")
    case BytesKind => if format == LineFormat then Some("b") else None
    case OtherKind => None
  }

  /** Whether the property is left out without any check: ignored, or (with a [DataMember]) null or equal to its default. */
  predicate Suppressed(f: Field, inst: Instance)
  {
    f.ignored || (f.member.DataMember? && (f.name !in inst || f.defaultValue == Some(inst[f.name])))
  }

  /**
   * One pass of the property loop, in the order the code applies its checks:
   * [IgnoreDataMember], [DataMember], null, [DefaultValue], [AllowedValues],
   * [Range], the serialized name, and the declared type. A byte array is
   * written with empty text.
   */
  function SerializeField(f: Field, inst: Instance, strict: bool, format: Format): (r: FieldStep)
    ensures Suppressed(f, inst) ==> r == Pass
    ensures r.Emit? ==> !Suppressed(f, inst) && f.member == DataMember(Some(r.key))
    ensures r.Emit? ==> Some(r.sign) == SignOf(f.kind, format)
    ensures r.Emit? ==> r.text == (if r.sign == "b" then "" else ToText(inst[f.name]))
    ensures r.Emit? && strict ==> AllowedAccepts(f.allowed, inst[f.name]) && RangeCheck(f.range, inst[f.name]) == Inside
    ensures r.Throw? && !strict ==> r.error == RangeOverflow(f.name)
    ensures r.Throw? ==> !Suppressed(f, inst)
    ensures strict && r.Pass? ==> Suppressed(f, inst)
    ensures !strict && r.Pass? && !Suppressed(f, inst) ==>
              f.member.NoDataMember? || f.member.key.None? || SignOf(f.kind, format).None?
  {
    if f.ignored then Pass
    else if f.member.NoDataMember? then
      if strict then Throw(MissingDataMember(f.name)) else Pass
    else if f.name !in inst then Pass
    else
      var v := inst[f.name];
      if f.defaultValue == Some(v) then Pass
      else if strict && !AllowedAccepts(f.allowed, v) then Throw(UnsupportedValue(f.name))
      else
        var verdict := RangeCheck(f.range, v);
        if verdict == Overflow then Throw(RangeOverflow(f.name))
        else if strict && verdict == Outside then Throw(OutOfRangeValue(f.name))
        else if f.member.key.None? then
          if strict then Throw(MissingSerializedName(f.name)) else Pass
        else
          match SignOf(f.kind, format)
          case None => if strict then Throw(UnsupportedType(f.name)) else Pass
          case Some(sign) => Emit(f.member.key.value, sign, if sign == "b" then "" else ToText(v))
  }

  /** Validation is advisory when lenient: a property that passes the other checks is written whatever its allowed set or range says. */
  lemma LenientValidationIsAdvisory(f: Field, inst: Instance, format: Format)
    requires !Suppressed(f, inst) && f.member.DataMember? && f.member.key.Some?
    requires SignOf(f.kind, format).Some? && RangeCheck(f.range, inst[f.name]) != Overflow
    ensures SerializeField(f, inst, false, format).Emit?
    ensures SerializeField(f, inst, true, format).Throw? <==>
              !AllowedAccepts(f.allowed, inst[f.name]) || RangeCheck(f.range, inst[f.name]) == Outside
  {
  }

  /** A property the strict mode writes is written the same way by the lenient mode. */
  lemma StrictEmitIsLenientEmit(f: Field, inst: Instance, format: Format)
    requires !SerializeField(f, inst, true, format).Throw?
    ensures SerializeField(f, inst, false, format) == SerializeField(f, inst, true, format)
  {
  }

  function LineText(key: string, sign: string, text: string): string
  {
    key + [':'] + sign + [':'] + text
  }

  /** The lines produced so far and, if one was thrown, the exception that ended the enumeration. */
  datatype Emitted = Emitted(lines: seq<string>, error: Option<Error>)

  /** Enumerating the lines for the properties `fields`, in order, stopping at the first exception. */
  function SerializeFields(fields: seq<Field>, inst: Instance, strict: bool): (r: Emitted)
    ensures |r.lines| <= |fields|
    ensures !strict && r.error.Some? ==> r.error.value.RangeOverflow?
  {
    if fields == [] then Emitted([], None)
    else
      var prev := SerializeFields(fields[..|fields| - 1], inst, strict);
      if prev.error.Some? then prev
      else
        match SerializeField(fields[|fields| - 1], inst, strict, LineFormat)
        case Emit(key, sign, text) => Emitted(prev.lines + [LineText(key, sign, text)], None)
        case Pass => prev
        case Throw(e) => Emitted(prev.lines, Some(e))
  }

  /** Once an exception has been thrown, later properties change nothing. */
  lemma {:induction false} ErrorIsFinal(fields: seq<Field>, inst: Instance, strict: bool, i: nat)
    requires i <= |fields| && SerializeFields(fields[..i], inst, strict).error.Some?
    ensures SerializeFields(fields, inst, strict) == SerializeFields(fields[..i], inst, strict)
    decreases |fields|
  {
    if i < |fields| {
      var init := fields[..|fields| - 1];
      assert init[..i] == fields[..i];
      ErrorIsFinal(init, inst, strict, i);
    } else {
      assert fields[..i] == fields;
    }
  }

  /**
   * The lines come in schema order: after a run of properties that threw
   * nothing, the lines of the next properties follow those already written.
   */
  lemma {:induction false} SerializeFieldsAppend(xs: seq<Field>, ys: seq<Field>, inst: Instance, strict: bool)
    requires SerializeFields(xs, inst, strict).error.None?
    ensures SerializeFields(xs + ys, inst, strict) ==
              Emitted(SerializeFields(xs, inst, strict).lines + SerializeFields(ys, inst, strict).lines,
                      SerializeFields(ys, inst, strict).error)
    decreases |ys|
  {
    var a := SerializeFields(xs, inst, strict);
    if ys == [] {
      assert xs + ys == xs;
      assert a.lines + [] == a.lines;
    } else {
      var n := |ys| - 1;
      var init := ys[..n];
      AppendDropLast(xs, ys);
      SerializeFieldsAppend(xs, init, inst, strict);
      var b := SerializeFields(init, inst, strict);
      if b.error.None? {
        match SerializeField(ys[n], inst, strict, LineFormat)
        case Emit(key, sign, text) =>
          assert a.lines + b.lines + [LineText(key, sign, text)] == a.lines + (b.lines + [LineText(key, sign, text)]);
        case Pass =>
        case Throw(e) =>
      }
    }
  }

  lemma AppendDropLast(xs: seq<Field>, ys: seq<Field>)
    requires ys != []
    ensures (xs + ys)[..|xs + ys| - 1] == xs + ys[..|ys| - 1]
    ensures (xs + ys)[|xs + ys| - 1] == ys[|ys| - 1]
  {
  }

  /**
   * Serialize(properties, throwIfNotValid): no lines for a null object;
   * for a class without [DataContract] an exception when strict and no
   * lines when lenient; otherwise the property loop.
   */
  function SerializeLines(schema: Schema, inst: Option<Instance>, strict: bool): (r: Emitted)
    ensures inst.None? ==> r == Emitted([], None)
    ensures |r.lines| <= |schema.fields|
    ensures !strict && r.error.Some? ==> r.error.value.RangeOverflow?
  {
    if inst.None? then Emitted([], None)
    else if !schema.dataContract then Emitted([], if strict then Some(NotDataContract) else None)
    else SerializeFields(schema.fields, inst.value, strict)
  }

  /** The property loop of Serialize, producing its lines one property at a time. */
  method Serialize(schema: Schema, props: Properties.RdpProperties?, strict: bool)
    returns (lines: seq<string>, error: Option<Error>)
    ensures Emitted(lines, error) == SerializeLines(schema, if props == null then None else Some(props.values), strict)
  {
    lines, error := [], None;
    if props == null {
      return;
    }
    if !schema.dataContract {
      if strict {
        error := Some(NotDataContract);
      }
      return;
    }
    var fields := schema.fields;
    var i := 0;
    while i < |fields|
      invariant 0 <= i <= |fields|
      invariant Emitted(lines, None) == SerializeFields(fields[..i], props.values, strict)
    {
      assert fields[..i + 1][..i] == fields[..i];
      var step := SerializeField(fields[i], props.values, strict, LineFormat);
      match step {
        case Emit(key, sign, text) =>
          lines := lines + [LineText(key, sign, text)];
        case Pass =>
        case Throw(e) =>
          error := Some(e);
          ErrorIsFinal(fields, props.values, strict, i + 1);
          return;
      }
      i := i + 1;
    }
    assert fields[..i] == fields;
  }

  // ---------------------------------------------------------------- Deserialize

  /** What one property contributes to the key index: a binding of its serialized name, nothing, or an exception. */
  datatype BindStep = Bind(key: string) | Skip | Refuse(error: Error)

  /** A serialized name the index accepts: present and not blank. */
  predicate Bindable(f: Field)
  {
    !f.ignored && f.member.DataMember? && !Text.IsNullOrWhiteSpace(f.member.key)
  }

  function BindField(f: Field, strict: bool): (r: BindStep)
    ensures r.Bind? <==> Bindable(f)
    ensures r.Bind? ==> f.member == DataMember(Some(r.key))
    ensures r.Refuse? <==> strict && !f.ignored && !Bindable(f)
  {
    if f.ignored then Skip
    else if f.member.NoDataMember? || Text.IsNullOrWhiteSpace(f.member.key) then
      if strict then Refuse(MissingDataMember(f.name)) else Skip
    else Bind(f.member.key.value)
  }

  /** The `propertyBindings` dictionary after the properties `fields`; Dictionary.Add throws on a repeated key in both modes. */
  function BindingsUpTo(fields: seq<Field>, strict: bool): Result<map<string, Field>, Error>
  {
    if fields == [] then Ok(map[])
    else
      var prev := BindingsUpTo(fields[..|fields| - 1], strict);
      var f := fields[|fields| - 1];
      if prev.Err? then prev
      else
        match BindField(f, strict)
        case Skip => prev
        case Refuse(e) => Err(e)
        case Bind(key) => if key in prev.value then Err(DuplicateKey(key)) else Ok(prev.value[key := f])
  }

  /** Two bindable properties never share a serialized name. */
  predicate DistinctKeys(fields: seq<Field>)
  {
    forall i, j | 0 <= i < j < |fields| && Bindable(fields[i]) && Bindable(fields[j]) ::
      fields[i].member.key != fields[j].member.key
  }

  /** What the index needs: distinct names and, when strict, a usable [DataMember] name on every property that is not ignored. */
  predicate BindingsPossible(fields: seq<Field>, strict: bool)
  {
    DistinctKeys(fields) && (strict ==> forall i | 0 <= i < |fields| :: fields[i].ignored || Bindable(fields[i]))
  }

  /** The index maps each name it holds to a bindable property of that name, and holds the name of every bindable property. */
  predicate IndexOf(b: map<string, Field>, fields: seq<Field>)
  {
    && (forall key | key in b :: b[key] in fields && Bindable(b[key]) && b[key].member.key == Some(key))
    && (forall i | 0 <= i < |fields| && Bindable(fields[i]) :: fields[i].member.key.value in b)
  }

  /** No earlier bindable property has the name of `f`. */
  predicate FreshKey(fields: seq<Field>, f: Field)
  {
    Bindable(f) ==> forall i | 0 <= i < |fields| && Bindable(fields[i]) :: fields[i].member.key != f.member.key
  }

  lemma DistinctKeysSnoc(fields: seq<Field>)
    requires fields != []
    ensures DistinctKeys(fields) <==>
              DistinctKeys(fields[..|fields| - 1]) && FreshKey(fields[..|fields| - 1], fields[|fields| - 1])
  {
    var n := |fields| - 1;
    assert forall i | 0 <= i < n :: fields[..n][i] == fields[i];
  }

  /** Building the index fails exactly when two properties share a name or, when strict, a property lacks one. */
  lemma {:induction false} BindingsMeaning(fields: seq<Field>, strict: bool)
    ensures BindingsUpTo(fields, strict).Ok? <==> BindingsPossible(fields, strict)
    ensures BindingsUpTo(fields, strict).Ok? ==> IndexOf(BindingsUpTo(fields, strict).value, fields)
  {
    if fields != [] {
      var n := |fields| - 1;
      var init := fields[..n];
      var f := fields[n];
      assert fields == init + [f];
      BindingsMeaning(init, strict);
      DistinctKeysSnoc(fields);
      PossibleSnoc(init, f, strict);
      var prev := BindingsUpTo(init, strict);
      if prev.Ok? && Bindable(f) {
        FreshKeyIndex(prev.value, init, f);
      }
      if prev.Ok? && (!Bindable(f) || f.member.key.value !in prev.value) {
        IndexSnoc(prev.value, init, f);
      }
    }
  }

  /** The strict half of BindingsPossible, one property at a time. */
  lemma PossibleSnoc(init: seq<Field>, f: Field, strict: bool)
    ensures (strict ==> forall i | 0 <= i < |init + [f]| :: (init + [f])[i].ignored || Bindable((init + [f])[i]))
        <==> (strict ==> (forall i | 0 <= i < |init| :: init[i].ignored || Bindable(init[i])) && (f.ignored || Bindable(f)))
  {
    assert forall i | 0 <= i < |init| :: (init + [f])[i] == init[i];
    assert (init + [f])[|init|] == f;
  }

  /** Against an index of `init`, the name of `f` is already taken exactly when it is not fresh. */
  lemma FreshKeyIndex(b: map<string, Field>, init: seq<Field>, f: Field)
    requires IndexOf(b, init) && Bindable(f)
    ensures f.member.key.value in b <==> !FreshKey(init, f)
  {
    var key := f.member.key.value;
    if key in b {
      var i :| 0 <= i < |init| && init[i] == b[key];
    }
  }

  /** Adding a property whose name is fresh (or that is not bindable) keeps the index exact. */
  lemma IndexSnoc(b: map<string, Field>, init: seq<Field>, f: Field)
    requires IndexOf(b, init)
    requires Bindable(f) ==> f.member.key.value !in b
    ensures IndexOf(if Bindable(f) then b[f.member.key.value := f] else b, init + [f])
  {
    var fields := init + [f];
    assert forall i | 0 <= i < |init| :: fields[i] == init[i];
    assert fields[|init|] == f;
    assert forall g | g in init :: g in fields;
  }

  /** In a built index, every bindable property sits under its own name. */
  lemma IndexLookup(fields: seq<Field>, strict: bool, i: nat)
    requires BindingsUpTo(fields, strict).Ok? && i < |fields| && Bindable(fields[i])
    ensures fields[i].member.key.value in BindingsUpTo(fields, strict).value
    ensures BindingsUpTo(fields, strict).value[fields[i].member.key.value] == fields[i]
  {
    BindingsMeaning(fields, strict);
    var b := BindingsUpTo(fields, strict).value;
    var key := fields[i].member.key.value;
    var j :| 0 <= j < |fields| && fields[j] == b[key];
    assert j == i;
  }

  /** What one line does: assign a value to a property, nothing, or end the operation. */
  datatype LineStep = Assign(name: string, value: Value) | SkipLine | Fail(error: Error)

  /** A failure that throws when strict and skips the line when lenient. */
  function Reject(strict: bool, e: Error): LineStep
  {
    if strict then Fail(e) else SkipLine
  }

  /** The failures that skip a line in lenient mode; every other one throws in both modes. */
  predicate Recoverable(e: Error)
  {
    e.InvalidLineSyntax? || e.UnknownKey? || e.UnknownTypeSign? || e.OddLengthByteText?
    || e.ValueNotAllowed? || e.ValueOutOfRange?
  }

  /** PropertyInfo.SetValue succeeds only when the value's runtime type fits the declared type. */
  predicate Assignable(kind: Kind, v: Value)
  {
    (kind == IntKind && v.IntVal?) || (kind == TextKind && v.TextVal?) || (kind == BytesKind && v.BytesVal?)
  }

  /** [AllowedValues], then [Range], then SetValue, for a decoded value. */
  function CheckValue(f: Field, key: string, v: Value, lineIndex: nat, strict: bool): (r: LineStep)
    ensures r == Assign(f.name, v) <==>
              AllowedAccepts(f.allowed, v) && RangeCheck(f.range, v) == Inside && Assignable(f.kind, v)
    ensures r.Assign? ==> r == Assign(f.name, v)
    ensures !AllowedAccepts(f.allowed, v) ==> r == Reject(strict, ValueNotAllowed(key, lineIndex))
    ensures AllowedAccepts(f.allowed, v) && RangeCheck(f.range, v) == Overflow ==> r == Fail(RangeOverflow(f.name))
    ensures AllowedAccepts(f.allowed, v) && RangeCheck(f.range, v) == Outside ==>
              r == Reject(strict, ValueOutOfRange(key, lineIndex))
    ensures AllowedAccepts(f.allowed, v) && RangeCheck(f.range, v) == Inside && !Assignable(f.kind, v) ==>
              r == Fail(TypeMismatch(f.name, lineIndex))
  {
    if !AllowedAccepts(f.allowed, v) then Reject(strict, ValueNotAllowed(key, lineIndex))
    else
      match RangeCheck(f.range, v)
      case Overflow => Fail(RangeOverflow(f.name))
      case Outside => Reject(strict, ValueOutOfRange(key, lineIndex))
      case Inside => if Assignable(f.kind, v) then Assign(f.name, v) else Fail(TypeMismatch(f.name, lineIndex))
  }

  /**
   * The body of the line loop: match the pattern, look the key up, decode the
   * text by its sign (Convert.ToInt32, the text itself, or hex pairs), then
   * validate and assign.
   */
  function DecodeLine(bindings: map<string, Field>, line: string, lineIndex: nat, strict: bool): (r: LineStep)
    ensures LineGrammar.MatchLine(line).None? ==> r == Reject(strict, InvalidLineSyntax(lineIndex))
    ensures LineGrammar.MatchLine(line).Some? ==> r == DecodeParts(bindings, LineGrammar.MatchLine(line).value.parts, lineIndex, strict)
  {
    match LineGrammar.MatchLine(line)
    case None => Reject(strict, InvalidLineSyntax(lineIndex))
    case Some(m) => DecodeParts(bindings, m.parts, lineIndex, strict)
  }

  /** The captured groups of a line that matched: the key looked up, the text decoded by its sign, the value checked. */
  function DecodeParts(bindings: map<string, Field>, parts: LineGrammar.LineParts, lineIndex: nat, strict: bool): (r: LineStep)
    ensures r.Assign? ==> parts.key in bindings
    ensures parts.key !in bindings ==> r == Reject(strict, UnknownKey(parts.key, lineIndex))
    ensures parts.key in bindings && parts.sign !in {"i", "s", "b"} ==>
              r == Reject(strict, UnknownTypeSign(parts.key, lineIndex))
    ensures parts.key in bindings && parts.sign == "i" && Decimal.ParseInt32(parts.rest).None? ==>
              r == Fail(MalformedInteger(lineIndex))
    ensures parts.key in bindings && parts.sign == "i" && Decimal.ParseInt32(parts.rest).Some? ==>
              r == CheckValue(bindings[parts.key], parts.key, IntVal(Decimal.ParseInt32(parts.rest).value), lineIndex, strict)
    ensures parts.key in bindings && parts.sign == "s" ==>
              r == CheckValue(bindings[parts.key], parts.key, TextVal(parts.rest), lineIndex, strict)
    ensures parts.key in bindings && parts.sign == "b" && Text.Utf16Length(parts.rest) % 2 != 0 ==>
              r == Reject(strict, OddLengthByteText(parts.key, lineIndex))
    ensures parts.key in bindings && parts.sign == "b" && Text.Utf16Length(parts.rest) % 2 == 0 &&
            (|parts.rest| % 2 != 0 || Hex.DecodePairs(parts.rest).None?) ==>
              r == Fail(MalformedHex(lineIndex))
    ensures parts.key in bindings && parts.sign == "b" && Text.Utf16Length(parts.rest) % 2 == 0 &&
            |parts.rest| % 2 == 0 && Hex.DecodePairs(parts.rest).Some? ==>
              r == CheckValue(bindings[parts.key], parts.key, BytesVal(Hex.DecodePairs(parts.rest).value), lineIndex, strict)
  {
    var key, sign, rest := parts.key, parts.sign, parts.rest;
    if key !in bindings then Reject(strict, UnknownKey(key, lineIndex))
    else
      var f := bindings[key];
      if sign == "i" then
        match Decimal.ParseInt32(rest)
        case None => Fail(MalformedInteger(lineIndex))
        case Some(n) => CheckValue(f, key, IntVal(n), lineIndex, strict)
      else if sign == "s" then CheckValue(f, key, TextVal(rest), lineIndex, strict)
      else if sign == "b" then
        if Text.Utf16Length(rest) % 2 != 0 then Reject(strict, OddLengthByteText(key, lineIndex))
        // An even count of code units with an odd count of characters splits a surrogate pair,
        // and Convert.ToByte throws on the half.
        else if |rest| % 2 != 0 then Fail(MalformedHex(lineIndex))
        else
          match Hex.DecodePairs(rest)
          case None => Fail(MalformedHex(lineIndex))
          case Some(bytes) => CheckValue(f, key, BytesVal(bytes), lineIndex, strict)
      else Reject(strict, UnknownTypeSign(key, lineIndex))
  }

  /**
   * Byte text is measured in UTF-16 code units. A hex digit followed by a
   * character beyond the first plane is three units, so the line is refused
   * as odd-length; that character alone is two units, and its surrogate
   * halves do not parse as hex, which throws in both modes.
   */
  lemma OutsidePlaneByteText(bindings: map<string, Field>, key: string, h: char, c: char, lineIndex: nat, strict: bool)
    requires key in bindings && Hex.IsHexDigit(h) && !Text.InBasicPlane(c)
    ensures DecodeParts(bindings, LineGrammar.LineParts(key, "b", [h, c]), lineIndex, strict)
              == Reject(strict, OddLengthByteText(key, lineIndex))
    ensures DecodeParts(bindings, LineGrammar.LineParts(key, "b", [c]), lineIndex, strict)
              == Fail(MalformedHex(lineIndex))
  {
    assert Text.Utf16Length([h, c]) == 3 by {
      assert [h, c][1..] == [c] && [c][1..] == [];
    }
    assert Text.Utf16Length([c]) == 2 by {
      assert [c][1..] == [];
    }
  }

  /**
   * The strict flag only decides what happens to a recoverable failure: the
   * lenient mode skips exactly the lines that the strict mode rejects with one,
   * and does the same as the strict mode on every other line.
   */
  lemma LenientSkipsRecoverable(bindings: map<string, Field>, line: string, lineIndex: nat)
    ensures var s := DecodeLine(bindings, line, lineIndex, true);
            var l := DecodeLine(bindings, line, lineIndex, false);
            && (s.Fail? && Recoverable(s.error) ==> l == SkipLine)
            && (!(s.Fail? && Recoverable(s.error)) ==> l == s)
  {
    match LineGrammar.MatchLine(line)
    case None =>
    case Some(m) => PartsLenientSkipsRecoverable(bindings, m.parts, lineIndex);
  }

  lemma PartsLenientSkipsRecoverable(bindings: map<string, Field>, parts: LineGrammar.LineParts, lineIndex: nat)
    ensures var s := DecodeParts(bindings, parts, lineIndex, true);
            var l := DecodeParts(bindings, parts, lineIndex, false);
            && (s.Fail? && Recoverable(s.error) ==> l == SkipLine)
            && (!(s.Fail? && Recoverable(s.error)) ==> l == s)
  {
    if parts.key in bindings {
      var f := bindings[parts.key];
      var n := Decimal.ParseInt32(parts.rest);
      if n.Some? { CheckLenientSkipsRecoverable(f, parts.key, IntVal(n.value), lineIndex); }
      CheckLenientSkipsRecoverable(f, parts.key, TextVal(parts.rest), lineIndex);
      if |parts.rest| % 2 == 0 {
        var b := Hex.DecodePairs(parts.rest);
        if b.Some? { CheckLenientSkipsRecoverable(f, parts.key, BytesVal(b.value), lineIndex); }
      }
    }
  }

  lemma CheckLenientSkipsRecoverable(f: Field, key: string, v: Value, lineIndex: nat)
    ensures var s := CheckValue(f, key, v, lineIndex, true);
            var l := CheckValue(f, key, v, lineIndex, false);
            && (s.Fail? && Recoverable(s.error) ==> l == SkipLine)
            && (!(s.Fail? && Recoverable(s.error)) ==> l == s)
  {
  }

  /** What each line does, in input order. */
  function LineSteps(bindings: map<string, Field>, lines: seq<string>, strict: bool): (steps: seq<LineStep>)
    ensures |steps| == |lines|
    ensures forall i | 0 <= i < |lines| :: steps[i] == DecodeLine(bindings, lines[i], i, strict)
  {
    seq(|lines|, i requires 0 <= i < |lines| => DecodeLine(bindings, lines[i], i, strict))
  }

  /** The instance after the steps, in order, starting from a new object; or the exception that ended the loop. */
  function ApplySteps(steps: seq<LineStep>): Result<Instance, Error>
  {
    if steps == [] then Ok(map[])
    else
      var prev := ApplySteps(steps[..|steps| - 1]);
      if prev.Err? then prev
      else
        match steps[|steps| - 1]
        case Assign(name, v) => Ok(prev.value[name := v])
        case SkipLine => prev
        case Fail(e) => Err(e)
  }

  function ApplyLines(bindings: map<string, Field>, lines: seq<string>, strict: bool): Result<Instance, Error>
  {
    ApplySteps(LineSteps(bindings, lines, strict))
  }

  predicate AssignsName(step: LineStep, name: string)
  {
    step.Assign? && step.name == name
  }

  /** A property no line assigns stays null, and one that some line assigns does not. */
  lemma {:induction false} UnassignedStaysNull(steps: seq<LineStep>, name: string)
    requires ApplySteps(steps).Ok?
    ensures name !in ApplySteps(steps).value <==> forall i | 0 <= i < |steps| :: !AssignsName(steps[i], name)
  {
    if steps != [] {
      var n := |steps| - 1;
      UnassignedStaysNull(steps[..n], name);
      assert forall i | 0 <= i < n :: steps[..n][i] == steps[i];
    }
  }

  /** Lines are applied in input order: a property holds the value of the last line that assigns it. */
  lemma {:induction false} LastAssignmentWins(steps: seq<LineStep>, name: string)
    requires ApplySteps(steps).Ok? && name in ApplySteps(steps).value
    ensures exists i | 0 <= i < |steps| ::
              && steps[i] == Assign(name, ApplySteps(steps).value[name])
              && forall j | i < j < |steps| :: !AssignsName(steps[j], name)
  {
    var n := |steps| - 1;
    var inst := ApplySteps(steps).value;
    var init := steps[..n];
    ApplyStepsSnoc(steps, n);
    assert steps[..n + 1] == steps;
    if !AssignsName(steps[n], name) {
      LastAssignmentWins(init, name);
      var i :| 0 <= i < n && init[i] == Assign(name, ApplySteps(init).value[name])
               && forall j | i < j < n :: !AssignsName(init[j], name);
      assert steps[i] == init[i];
      assert forall j | i < j < n :: steps[j] == init[j];
    } else {
      assert steps[n] == Assign(name, inst[name]);
    }
  }

  /**
   * Deserialize(lines, throwIfNotValid): for a class without [DataContract]
   * an exception when strict and a null object when lenient; otherwise the
   * key index, then the lines applied to a new object.
   */
  function DeserializeLines(schema: Schema, lines: seq<string>, strict: bool): (r: Result<Option<Instance>, Error>)
    ensures r.Ok? && r.value.None? <==> !schema.dataContract && !strict
  {
    if !schema.dataContract then
      if strict then Err(NotDataContract) else Ok(None)
    else
      match BindingsUpTo(schema.fields, strict)
      case Err(e) => Err(e)
      case Ok(bindings) =>
        match ApplyLines(bindings, lines, strict)
        case Err(e) => Err(e)
        case Ok(inst) => Ok(Some(inst))
  }

  /** The index loop of Deserialize: `propertyBindings.Add(name, property)` for each bindable property. */
  method BuildBindings(fields: seq<Field>, strict: bool) returns (bindings: map<string, Field>, error: Option<Error>)
    ensures BindingsUpTo(fields, strict) == if error.Some? then Err(error.value) else Ok(bindings)
  {
    bindings, error := map[], None;
    var i := 0;
    while i < |fields|
      invariant 0 <= i <= |fields|
      invariant BindingsUpTo(fields[..i], strict) == Ok(bindings)
    {
      assert fields[..i + 1][..i] == fields[..i];
      match BindField(fields[i], strict) {
        case Skip =>
        case Refuse(e) =>
          error := Some(e);
          BindingsErrorIsFinal(fields, strict, i + 1);
          return;
        case Bind(key) =>
          if key in bindings {
            error := Some(DuplicateKey(key));
            BindingsErrorIsFinal(fields, strict, i + 1);
            return;
          }
          bindings := bindings[key := fields[i]];
      }
      i := i + 1;
    }
    assert fields[..i] == fields;
  }

  /** The line loop of Deserialize: each line decoded in turn and assigned with SetValue. */
  method ApplyAll(instance: Properties.RdpProperties, bindings: map<string, Field>, lines: seq<string>, strict: bool)
    returns (error: Option<Error>)
    requires instance.values == map[]
    modifies instance
    ensures ApplyLines(bindings, lines, strict) == if error.Some? then Err(error.value) else Ok(instance.values)
  {
    error := None;
    ghost var steps := LineSteps(bindings, lines, strict);
    var lineIndex := 0;
    while lineIndex < |lines|
      invariant 0 <= lineIndex <= |lines|
      invariant ApplySteps(steps[..lineIndex]) == Ok(instance.values)
    {
      var step := DecodeLine(bindings, lines[lineIndex], lineIndex, strict);
      ApplyStepsSnoc(steps, lineIndex);
      match step {
        case Assign(name, v) =>
          instance.values := instance.values[name := v];
        case SkipLine =>
        case Fail(e) =>
          error := Some(e);
          ApplyErrorIsFinal(steps, lineIndex + 1);
          return;
      }
      lineIndex := lineIndex + 1;
    }
    assert steps[..lineIndex] == steps;
  }

  /** One more step of ApplySteps. */
  lemma ApplyStepsSnoc(steps: seq<LineStep>, k: nat)
    requires k < |steps|
    ensures ApplySteps(steps[..k + 1]) ==
              var prev := ApplySteps(steps[..k]);
              if prev.Err? then prev
              else match steps[k]
                case Assign(name, v) => Ok(prev.value[name := v])
                case SkipLine => prev
                case Fail(e) => Err(e)
  {
    assert steps[..k + 1][..k] == steps[..k];
  }

  /** Deserialize: the [DataContract] check, the index, then the lines applied to a new property object. */
  method Deserialize(schema: Schema, lines: seq<string>, strict: bool)
    returns (props: Properties.RdpProperties?, error: Option<Error>)
    ensures props != null ==> fresh(props) && error.None?
    ensures DeserializeLines(schema, lines, strict) ==
              if error.Some? then Err(error.value)
              else Ok(if props == null then None else Some(props.values))
  {
    props, error := null, None;
    if !schema.dataContract {
      if strict {
        error := Some(NotDataContract);
      }
      return;
    }
    var bindings;
    bindings, error := BuildBindings(schema.fields, strict);
    if error.Some? {
      return;
    }
    var instance := new Properties.RdpProperties();
    error := ApplyAll(instance, bindings, lines, strict);
    if error.None? {
      props := instance;
    }
  }

  lemma {:induction false} BindingsErrorIsFinal(fields: seq<Field>, strict: bool, i: nat)
    requires i <= |fields| && BindingsUpTo(fields[..i], strict).Err?
    ensures BindingsUpTo(fields, strict) == BindingsUpTo(fields[..i], strict)
    decreases |fields|
  {
    if i < |fields| {
      var init := fields[..|fields| - 1];
      assert init[..i] == fields[..i];
      BindingsErrorIsFinal(init, strict, i);
    } else {
      assert fields[..i] == fields;
    }
  }

  lemma {:induction false} ApplyErrorIsFinal(steps: seq<LineStep>, i: nat)
    requires i <= |steps| && ApplySteps(steps[..i]).Err?
    ensures ApplySteps(steps) == ApplySteps(steps[..i])
    decreases |steps|
  {
    if i < |steps| {
      var init := steps[..|steps| - 1];
      assert init[..i] == steps[..i];
      ApplyErrorIsFinal(init, i);
    } else {
      assert steps[..i] == steps;
    }
  }
}
