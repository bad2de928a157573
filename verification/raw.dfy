/** The untyped JavaScript values a request carries before zod has looked at them.
    Numbers are integers here; objects are string-keyed maps, and a key an object does not
    have reads as `undefined`. */
module Raw {

  datatype Value =
    | Undefined
    | Null
    | Bool(b: bool)
    | Number(n: int)
    | Str(s: string)
    /** A `Date` instance holding a time value in milliseconds since the epoch. */
    | Date(time: int)
    | Object(fields: map<string, Value>)

  /** zod's names for the type it found, reported as `received` in an `invalid_type` issue. */
  datatype Kind = KUndefined | KNull | KBoolean | KNumber | KString | KDate | KObject

  function KindOf(v: Value): Kind {
    match v
    case Undefined => KUndefined
    case Null => KNull
    case Bool(_) => KBoolean
    case Number(_) => KNumber
    case Str(_) => KString
    case Date(_) => KDate
    case Object(_) => KObject
  }

  /** `v[key]` for an object `v`: the property, or `undefined` when it is absent. */
  function Field(v: Value, key: string): Value
    requires v.Object?
  {
    if key in v.fields then v.fields[key] else Undefined
  }
}
