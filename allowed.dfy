/** The `[RdpAllowedValues(...)]` attribute: a read-only list of permitted values. */
module RdpAllowed {
  import opened Wrappers
  import opened Values

  /**
   * The attribute's readonly `_allowedValues` array, exposed as `Values`.
   * Being a datatype value, nothing can change it after construction.
   */
  datatype RdpAllowedValuesAttribute = RdpAllowedValuesAttribute(values: seq<Option<Value>>)
  {
    /** IsValid(o): o equals one of the stored values; a stored null admits a null. */
    predicate IsValid(o: Option<Value>)
      ensures IsValid(o) <==> exists i | 0 <= i < |values| :: values[i] == o
    {
      o in values
    }
  }

  /** The `params object[]` constructor; a null array is stored as an empty one. */
  function Create(args: Option<seq<Option<Value>>>): (a: RdpAllowedValuesAttribute)
    ensures args.None? ==> a.values == []
    ensures args.Some? ==> a.values == args.value
  {
    RdpAllowedValuesAttribute(if args.None? then [] else args.value)
  }

  /** With a null argument array nothing is valid, not even null. */
  lemma NullArgumentsAdmitNothing(o: Option<Value>)
    ensures !Create(None).IsValid(o)
  {
  }
}
