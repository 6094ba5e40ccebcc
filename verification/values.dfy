/** The Python values the client handles: request parameter values,
    settings values and the raw JSON scalars carried by articles. */
module Values {

  datatype Option<+T> = None | Some(value: T)

  /** A scalar as the Python program sees it. JSON `null` and an omitted
      keyword argument are both `Null`. */
  datatype Value = Null | Bool(b: bool) | Int(i: int) | Text(s: string)

  /** Python truthiness: `None`, `False`, `0` and `""` are falsy. */
  predicate Truthy(v: Value)
    ensures !Truthy(v) <==> v in {Null, Bool(false), Int(0), Text("")}
  {
    match v
    case Null => false
    case Bool(b) => b
    case Int(i) => i != 0
    case Text(s) => s != ""
  }
}
