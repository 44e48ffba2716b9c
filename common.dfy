/** Small value types shared by every module of the model. */
module Common {

  /** An optional value; `None` stands for JavaScript's `null` or `undefined`. */
  datatype Option<+T> = None | Some(value: T)

  /** A JSON string property that may be absent, `null`, or a string. */
  datatype StrField = Missing | Null | Str(s: string)

  /** JavaScript truthiness of such a property: only a non-empty string is truthy. */
  predicate Truthy(f: StrField)
  {
    f.Str? && f.s != ""
  }

  /** What a template literal `${f}` prints for the property. */
  function Show(f: StrField): (r: string)
    ensures f.Str? ==> r == f.s
  {
    match f
    case Missing => "undefined"
    case Null => "null"
    case Str(s) => s
  }
}
