/** The primitive JavaScript values the library's operators observe, and the
    host's notion of truthiness that several of them test. */
module Values {

  /** `undefined` where the library returns it in place of a value. */
  datatype Option<+T> = None | Some(value: T)

  /** A primitive value. Numbers are modelled as integers: the floating-point
      cases (NaN, -0, fractions) play no part in the operators modelled here. */
  datatype Value = Undefined | Null | Bool(b: bool) | Num(n: int) | Str(s: string)

  /** JavaScript truthiness of a primitive value. */
  predicate Truthy(v: Value)
  {
    match v
    case Undefined => false
    case Null => false
    case Bool(b) => b
    case Num(n) => n != 0
    case Str(s) => s != ""
  }

  /** `_.identity`: the default iterator of the library. */
  function Identity<T>(val: T): (r: T)
    ensures r == val
  {
    val
  }
}
