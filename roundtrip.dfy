/**
 * Serialize followed by Deserialize, both strict: for a well-formed schema
 * and an instance whose values the line format can carry, reading the lines
 * back gives the instance restricted to the properties that were written.
 * Also the byte-array case, where the text written is empty and the value is
 * lost.
 */
module RoundTrip {
  import opened Wrappers
  import opened Values
  import opened DataModel
  import Decimal
  import Text
  import Hex
  import LineGrammar
  import Serializer

  /** A property the round trip can carry: ignored, or bound under a colon-free name and of integer or string type. */
  predicate WellFormedField(f: Field)
  {
    f.ignored ||
    (Serializer.Bindable(f) && LineGrammar.NoColon(f.member.key.value) && (f.kind == IntKind || f.kind == TextKind))
  }

  /** A value the line format carries for the property: the declared type, 32 bits, no line break, and passing its checks. */
  predicate Carried(f: Field, v: Value)
  {
    && ((f.kind == IntKind && v.IntVal? && Decimal.IsInt32(v.n))
        || (f.kind == TextKind && v.TextVal? && LineGrammar.NoLineBreak(v.s)))
    && AllowedAccepts(f.allowed, v)
    && RangeCheck(f.range, v) == Inside
  }

  predicate RoundTrips(schema: Schema, inst: Instance)
  {
    && schema.dataContract
    && Serializer.DistinctKeys(schema.fields)
    && forall i | 0 <= i < |schema.fields| ::
         && WellFormedField(schema.fields[i])
         && (Serializer.Suppressed(schema.fields[i], inst) || Carried(schema.fields[i], inst[schema.fields[i].name]))
  }

  /** The instance restricted to the properties Serialize writes: not ignored, not null, not equal to their default. */
  function Written(fields: seq<Field>, inst: Instance): (r: Instance)
    ensures forall name | name in r :: name in inst && r[name] == inst[name]
  {
    map name | name in inst && (exists i | 0 <= i < |fields| :: fields[i].name == name && !Serializer.Suppressed(fields[i], inst))
      :: inst[name]
  }

  /** The text Serialize writes for a property that is neither suppressed nor refused. */
  lemma EmitsValueText(f: Field, inst: Instance)
    requires WellFormedField(f) && !Serializer.Suppressed(f, inst) && Carried(f, inst[f.name])
    ensures Serializer.SerializeField(f, inst, true, Serializer.LineFormat)
              == Serializer.Emit(f.member.key.value, if f.kind == IntKind then "i" else "s", ToText(inst[f.name]))
  {
  }

  /** The groups of a written line decode to the value it was written from. */
  lemma PartsReadBack(f: Field, v: Value, bindings: map<string, Field>, lineIndex: nat)
    requires WellFormedField(f) && !f.ignored && Carried(f, v)
    requires f.member.key.value in bindings && bindings[f.member.key.value] == f
    ensures Serializer.DecodeParts(bindings,
              LineGrammar.LineParts(f.member.key.value, if f.kind == IntKind then "i" else "s", ToText(v)), lineIndex, true)
            == Serializer.Assign(f.name, v)
  {
    if f.kind == IntKind {
      Decimal.ParseInt32Text(v.n);
    }
  }

  /** One written line is read back as the assignment of the value it was written from. */
  lemma LineReadsBack(f: Field, inst: Instance, bindings: map<string, Field>, lineIndex: nat)
    requires WellFormedField(f) && !Serializer.Suppressed(f, inst) && Carried(f, inst[f.name])
    requires f.member.key.value in bindings && bindings[f.member.key.value] == f
    ensures Serializer.SerializeField(f, inst, true, Serializer.LineFormat).Emit?
    ensures var e := Serializer.SerializeField(f, inst, true, Serializer.LineFormat);
            Serializer.DecodeLine(bindings, Serializer.LineText(e.key, e.sign, e.text), lineIndex, true)
              == Serializer.Assign(f.name, inst[f.name])
  {
    var v := inst[f.name];
    EmitsValueText(f, inst);
    var key := f.member.key.value;
    var sign := if f.kind == IntKind then "i" else "s";
    WrittenPartsMatch(key, v);
    LineGrammar.KeyLineParses(key, sign, ToText(v));
    PartsReadBack(f, v, bindings, lineIndex);
    assert Serializer.LineText(key, sign, ToText(v)) == key + [':'] + sign + [':'] + ToText(v);
  }

  /** The groups of a written line meet the pattern: a non-blank key and a value text without line breaks. */
  lemma WrittenPartsMatch(key: string, v: Value)
    requires !Text.AllWhiteSpace(key)
    requires v.IntVal? || (v.TextVal? && LineGrammar.NoLineBreak(v.s))
    ensures key != [] && LineGrammar.NoLineBreak(ToText(v))
  {
    if v.IntVal? {
      Decimal.IntTextNoLineBreak(v.n);
    }
  }

  /** Appending a line that assigns a value extends the instance with it. */
  lemma ApplyLinesSnoc(bindings: map<string, Field>, lines: seq<string>, line: string, m: Instance, name: string, v: Value)
    requires Serializer.ApplyLines(bindings, lines, true) == Ok(m)
    requires Serializer.DecodeLine(bindings, line, |lines|, true) == Serializer.Assign(name, v)
    ensures Serializer.ApplyLines(bindings, lines + [line], true) == Ok(m[name := v])
  {
    var steps := Serializer.LineSteps(bindings, lines + [line], true);
    assert steps[..|lines|] == Serializer.LineSteps(bindings, lines, true);
  }

  lemma WrittenSnoc(fields: seq<Field>, inst: Instance)
    requires fields != [] && (fields[|fields| - 1].ignored || fields[|fields| - 1].member.DataMember?)
    ensures var n := |fields| - 1;
            var f := fields[n];
            Written(fields, inst) ==
              if Serializer.Suppressed(f, inst) then Written(fields[..n], inst)
              else Written(fields[..n], inst)[f.name := inst[f.name]]
  {
    var n := |fields| - 1;
    var f := fields[n];
    assert forall i | 0 <= i < n :: fields[..n][i] == fields[i];
  }

  /** Every property is carried, and every bindable one sits in the index under its own name. */
  predicate FieldsCarried(fields: seq<Field>, inst: Instance, bindings: map<string, Field>)
  {
    && (forall i | 0 <= i < |fields| ::
          WellFormedField(fields[i]) && (Serializer.Suppressed(fields[i], inst) || Carried(fields[i], inst[fields[i].name])))
    && (forall i | 0 <= i < |fields| && Serializer.Bindable(fields[i]) ::
          fields[i].member.key.value in bindings && bindings[fields[i].member.key.value] == fields[i])
  }

  lemma FieldCarriedAt(fields: seq<Field>, inst: Instance, bindings: map<string, Field>, i: nat)
    requires FieldsCarried(fields, inst, bindings) && i < |fields|
    ensures var f := fields[i];
            WellFormedField(f) && (Serializer.Suppressed(f, inst) || Carried(f, inst[f.name]))
    ensures var f := fields[i];
            Serializer.Bindable(f) ==> f.member.key.value in bindings && bindings[f.member.key.value] == f
  {
  }

  /** The round trip over the first `k` properties. */
  lemma {:induction false} PrefixReadsBack(fields: seq<Field>, inst: Instance, bindings: map<string, Field>, k: nat)
    requires k <= |fields| && FieldsCarried(fields, inst, bindings)
    ensures Serializer.SerializeFields(fields[..k], inst, true).error.None?
    ensures Serializer.ApplyLines(bindings, Serializer.SerializeFields(fields[..k], inst, true).lines, true)
              == Ok(Written(fields[..k], inst))
  {
    if k > 0 {
      PrefixReadsBack(fields, inst, bindings, k - 1);
      var pre := fields[..k];
      assert |pre| == k && pre[..k - 1] == fields[..k - 1];
      FieldCarriedAt(fields, inst, bindings, k - 1);
      assert pre[k - 1] == fields[k - 1];
      PrefixStep(pre, inst, bindings);
    } else {
      assert fields[..0] == [];
    }
  }

  /** One more property keeps the round trip: its line, if any, reads back as its value. */
  lemma PrefixStep(pre: seq<Field>, inst: Instance, bindings: map<string, Field>)
    requires pre != []
    requires var f := pre[|pre| - 1];
             WellFormedField(f) && (Serializer.Suppressed(f, inst) || Carried(f, inst[f.name]))
    requires var f := pre[|pre| - 1];
             Serializer.Bindable(f) ==> f.member.key.value in bindings && bindings[f.member.key.value] == f
    requires Serializer.SerializeFields(pre[..|pre| - 1], inst, true).error.None?
    requires Serializer.ApplyLines(bindings, Serializer.SerializeFields(pre[..|pre| - 1], inst, true).lines, true)
               == Ok(Written(pre[..|pre| - 1], inst))
    ensures Serializer.SerializeFields(pre, inst, true).error.None?
    ensures Serializer.ApplyLines(bindings, Serializer.SerializeFields(pre, inst, true).lines, true)
              == Ok(Written(pre, inst))
  {
    var n := |pre| - 1;
    var f := pre[n];
    WrittenSnoc(pre, inst);
    if !Serializer.Suppressed(f, inst) {
      var lines := Serializer.SerializeFields(pre[..n], inst, true).lines;
      LineReadsBack(f, inst, bindings, |lines|);
      var e := Serializer.SerializeField(f, inst, true, Serializer.LineFormat);
      ApplyLinesSnoc(bindings, lines, Serializer.LineText(e.key, e.sign, e.text), Written(pre[..n], inst), f.name, inst[f.name]);
    }
  }

  /**
   * Strict Deserialize of the lines strict Serialize writes gives back the
   * written properties: every property that was not ignored, null or equal to
   * its default keeps its value, and every other one is null.
   */
  lemma SerializeThenDeserialize(schema: Schema, inst: Instance)
    requires RoundTrips(schema, inst)
    ensures Serializer.SerializeLines(schema, Some(inst), true).error.None?
    ensures Serializer.DeserializeLines(schema, Serializer.SerializeLines(schema, Some(inst), true).lines, true)
              == Ok(Some(Written(schema.fields, inst)))
  {
    var fields := schema.fields;
    Serializer.BindingsMeaning(fields, true);
    var bindings := Serializer.BindingsUpTo(fields, true).value;
    forall i | 0 <= i < |fields| && Serializer.Bindable(fields[i])
      ensures fields[i].member.key.value in bindings && bindings[fields[i].member.key.value] == fields[i]
    {
      Serializer.IndexLookup(fields, true, i);
    }
    assert FieldsCarried(fields, inst, bindings);
    PrefixReadsBack(fields, inst, bindings, |fields|);
    assert fields[..|fields|] == fields;
  }

  /**
   * As written, a byte array is serialized as `key:b:` whatever its contents,
   * and that line reads back as an empty array: any non-empty array is lost.
   */
  lemma BytesLoseData(f: Field, inst: Instance, bindings: map<string, Field>, lineIndex: nat)
    requires f.kind == BytesKind && !Serializer.Suppressed(f, inst) && f.member.DataMember? && f.member.key.Some?
    requires f.member.key.value != [] && LineGrammar.NoColon(f.member.key.value)
    requires f.member.key.value in bindings && bindings[f.member.key.value] == f
    requires f.allowed.None? && f.range.None?
    ensures Serializer.SerializeField(f, inst, true, Serializer.LineFormat) == Serializer.Emit(f.member.key.value, "b", "")
    ensures Serializer.DecodeLine(bindings, Serializer.LineText(f.member.key.value, "b", ""), lineIndex, true)
              == Serializer.Assign(f.name, BytesVal([]))
  {
    LineGrammar.KeyLineParses(f.member.key.value, "b", "");
  }

  /**
   * The evidently intended text for a byte array: its bytes as upper-case hex
   * pairs, as the unreachable second branch would write them. Read back by
   * the `b` decoder, it gives the array itself.
   */
  function BytesTextIntended(bytes: seq<Hex.Byte>): (text: string)
    ensures |text| % 2 == 0 && Hex.DecodePairs(text) == Some(bytes)
  {
    Hex.DecodeEncode(bytes);
    var text := Hex.EncodePairs(bytes);
    Hex.DoubleIsEven(|bytes|);
    text
  }

  /** With the intended hex text, a byte-array line reads back as the array it was written from. */
  lemma BytesRoundTripIntended(f: Field, bytes: seq<Hex.Byte>, bindings: map<string, Field>, lineIndex: nat)
    requires f.kind == BytesKind && f.member.DataMember? && f.member.key.Some?
    requires f.member.key.value != [] && LineGrammar.NoColon(f.member.key.value)
    requires f.member.key.value in bindings && bindings[f.member.key.value] == f
    requires f.allowed.None? && f.range.None?
    ensures Serializer.DecodeLine(bindings, Serializer.LineText(f.member.key.value, "b", BytesTextIntended(bytes)), lineIndex, true)
              == Serializer.Assign(f.name, BytesVal(bytes))
  {
    var text := BytesTextIntended(bytes);
    assert LineGrammar.NoLineBreak(text) && Text.Utf16Length(text) == |text| by {
      assert Hex.IsUpperHex(Hex.EncodePairs(bytes));
      assert forall k | 0 <= k < |text| :: Text.InBasicPlane(text[k]);
    }
    LineGrammar.KeyLineParses(f.member.key.value, "b", text);
  }
}
