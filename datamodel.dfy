/**
 * The field descriptors that replace reflection over a property class:
 * for each public instance property, in declaration order, its name, its
 * declared type, its [DataMember], [AllowedValues], [RdpAllowedValues],
 * [Range], [DefaultValue] and [IgnoreDataMember] attributes. Also the
 * validators the serializer applies and the errors it throws.
 */
module DataModel {
  import opened Wrappers
  import opened Values
  import Decimal
  import RdpAllowed

  /**
   * The declared property type, as the serializer classifies it:
   * IntKind is int/int?, TextKind is string, TextLikeKind is char, char?,
   * StringBuilder, Uri, IPAddress or IPEndPoint (written with the `s` sign but
   * not assignable from a string), BytesKind is byte[], OtherKind anything else.
   */
  datatype Kind = IntKind | TextKind | TextLikeKind | BytesKind | OtherKind

  /** No [DataMember], or [DataMember] with its Name (which may be null). */
  datatype Member = NoDataMember | DataMember(key: Option<string>)

  /** [Range(min, max)] over integers, bounds included. */
  datatype Range = Range(min: int, max: int)

  datatype Field = Field(
    name: string,
    kind: Kind,
    member: Member,
    allowed: Option<seq<Option<Value>>>,
    rdpAllowed: Option<RdpAllowed.RdpAllowedValuesAttribute>,
    range: Option<Range>,
    defaultValue: Option<Value>,
    ignored: bool)

  /** A property class: whether it carries [DataContract], and its properties in order. */
  datatype Schema = Schema(dataContract: bool, fields: seq<Field>)

  /** Property values of one instance by property name; a missing name is a null property. */
  type Instance = map<string, Value>

  datatype Error =
    | NotDataContract
    | MissingDataMember(property: string)
    | MissingSerializedName(property: string)
    | UnsupportedValue(property: string)
    | OutOfRangeValue(property: string)
    | RangeOverflow(property: string)
    | UnsupportedType(property: string)
    | DuplicateKey(key: string)
    | InvalidLineSyntax(lineIndex: nat)
    | UnknownKey(key: string, lineIndex: nat)
    | MalformedInteger(lineIndex: nat)
    | OddLengthByteText(key: string, lineIndex: nat)
    | MalformedHex(lineIndex: nat)
    | UnknownTypeSign(key: string, lineIndex: nat)
    | ValueNotAllowed(key: string, lineIndex: nat)
    | ValueOutOfRange(key: string, lineIndex: nat)
    | TypeMismatch(property: string, lineIndex: nat)
      /** The ArgumentOutOfRangeException of a List<string> indexer. */
    | IndexOutOfRange(index: nat)

  /** [AllowedValues] membership; a field without the attribute accepts everything. */
  predicate AllowedAccepts(allowed: Option<seq<Option<Value>>>, v: Value)
  {
    allowed.None? || Some(v) in allowed.value
  }

  datatype RangeVerdict = Inside | Outside | Overflow

  /**
   * RangeAttribute.IsValid for integer bounds: the value goes through
   * Convert.ToInt32 first. An empty string passes; text that is not a number
   * and a byte array fail; a number outside 32 bits throws (Overflow).
   */
  function RangeCheck(range: Option<Range>, v: Value): (r: RangeVerdict)
    ensures range.None? ==> r == Inside
    ensures range.Some? && v.IntVal? ==> (r == Inside <==> range.value.min <= v.n <= range.value.max)
    ensures r == Overflow ==> v.TextVal?
  {
    if range.None? || v == TextVal("") then Inside
    else
      var converted: Option<int> :=
        match v
        case IntVal(n) => Some(n)
        case BoolVal(b) => Some(if b then 1 else 0)
        case BytesVal(_) => None
        case TextVal(s) => Decimal.ParseInteger(s);
      if converted.None? then Outside
      else if v.TextVal? && !Decimal.IsInt32(converted.value) then Overflow
      else if range.value.min <= converted.value <= range.value.max then Inside
      else Outside
  }
}
