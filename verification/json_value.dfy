/**
  The values a parsed JSON request body can hold in the `senha` field, reduced
  to what the password endpoint distinguishes: whether the value is a string,
  and whether JavaScript treats it as truthy.
 */
module JsonValue {

  /** A JavaScript value as it arrives from a JSON body.
      `Absent` is a missing field (`undefined`); a number carries only whether
      it is falsy (0, -0 or NaN), which is all the handler looks at. */
  datatype Value =
    | Absent
    | Null
    | Bool(b: bool)
    | Num(falsy: bool)
    | Str(s: string)
    | Arr
    | Obj

  /** JavaScript truthiness (the `!value` test): `undefined`, `null`, `false`,
      a falsy number and the empty string are falsy; every array and object,
      even an empty one, is truthy. */
  predicate Truthy(v: Value)
  {
    match v
    case Absent => false
    case Null => false
    case Bool(b) => b
    case Num(falsy) => !falsy
    case Str(s) => |s| > 0
    case Arr => true
    case Obj => true
  }
}
