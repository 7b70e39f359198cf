/**
 * The engine applied to the two sample property classes: the range of the
 * desktop size in the service base class, and the [RdpAllowedValues] sets of
 * the URI class, which nothing enforces.
 */
module Samples {
  import opened Wrappers
  import opened Values
  import opened DataModel
  import Catalog
  import Serializer
  import UriSerializer
  import Decimal

  /** The desktop size properties: a [Range(200, 8192)] on each dimension, and allowed sets that list null. */
  lemma ServiceBaseConstraints()
    ensures |Catalog.ServiceBaseSchema.fields| == 39
    ensures var f := Catalog.ServiceBaseSchema.fields[31];
            f.member == DataMember(Some("desktopheight")) && f.range == Some(Range(200, 8192))
    ensures var f := Catalog.ServiceBaseSchema.fields[32];
            f.member == DataMember(Some("desktopwidth")) && f.range == Some(Range(200, 8192))
    ensures var f := Catalog.ServiceBaseSchema.fields[30];
            f.member == DataMember(Some("desktop size id")) && f.allowed.Some? && None in f.allowed.value
    ensures var f := Catalog.ServiceBaseSchema.fields[33];
            f.member == DataMember(Some("desktopscalefactor")) && f.allowed.Some? && None in f.allowed.value
  {
  }

  /**
   * A desktop height of 100 is below the [Range]: strict serialization throws
   * for it, lenient serialization still writes `desktopheight:i:100`.
   */
  lemma DesktopHeightBelowRange()
    ensures var f := Catalog.ServiceBaseSchema.fields[31];
            var inst := map[f.name := IntVal(100)];
            && Serializer.SerializeField(f, inst, true, Serializer.LineFormat) == Serializer.Throw(OutOfRangeValue("DesktopHeight"))
            && Serializer.SerializeField(f, inst, false, Serializer.LineFormat) == Serializer.Emit("desktopheight", "i", "100")
  {
    var f := Catalog.ServiceBaseSchema.fields[31];
    assert f.name == "DesktopHeight";
    assert ToText(IntVal(100)) == "100" by {
      assert Decimal.NatText(1) == "1" && Decimal.NatText(10) == "10";
    }
  }

  /**
   * `allow desktop composition` is declared [RdpAllowedValues(0, 1)], yet a
   * value of 7 is written even by the strict mode.
   */
  lemma UriAllowedValuesNotEnforced()
    ensures var f := Catalog.UriSchema.fields[0];
            && f.member == DataMember(Some("allow desktop composition"))
            && f.rdpAllowed.Some? && !f.rdpAllowed.value.IsValid(Some(IntVal(7)))
            && UriSerializer.PairOf(f, map[f.name := IntVal(7)], true) == Some(UriSerializer.Pair("allow desktop composition", "i:7"))
  {
    var f := Catalog.UriSchema.fields[0];
    assert ToText(IntVal(7)) == "7";
    assert "i" + ":" + "7" == "i:7";
  }
}
