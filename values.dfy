/** Runtime property values as the serializer sees them through reflection. */
module Values {
  import Hex
  import Decimal

  type Byte = Hex.Byte

  /**
   * A boxed property value. A null reference is not a Value: the places
   * that can hold null use Option<Value>.
   */
  datatype Value =
    | IntVal(n: int)
    | TextVal(s: string)
    | BytesVal(bytes: seq<Byte>)
    | BoolVal(b: bool)

  /** object.ToString() of a value of each shape. */
  function ToText(v: Value): string
  {
    match v
    case IntVal(n) => Decimal.IntText(n)
    case TextVal(s) => s
    case BytesVal(_) => "System.Byte[]"
    case BoolVal(b) => if b then "True" else "False"
  }
}
