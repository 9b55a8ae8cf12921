/** Python values as the pipeline sees them after JSON or XML decoding. */
module Values {

  datatype Option<+T> = None | Some(value: T)

  /** A Python exception that is not a network error: the ones the pipeline
      raises by touching `None` (`TypeError`) or calling a method on it
      (`AttributeError`). */
  datatype Fault = TypeError | AttributeError

  /** A computation that either yields a value or raises a `Fault`. */
  datatype Result<+T> = Success(value: T) | Failure(fault: Fault)

  /** One key of a decoded JSON object: absent, present as `null`, or present
      with a value of the documented type. */
  datatype Field<+T> = Missing | Null | Present(value: T)

  /** `obj.get(key)`: `None` both for a missing key and for `null`. */
  function Get<T>(f: Field<T>): (r: Option<T>)
    ensures r.Some? <==> f.Present?
    ensures f.Present? ==> r.value == f.value
  {
    if f.Present? then Some(f.value) else None
  }

  /** `obj.get(key, default)`: the default replaces a missing key only; a
      `null` still comes back as `None`. */
  function GetOr<T>(f: Field<T>, default: T): (r: Option<T>)
    ensures f.Missing? ==> r == Some(default)
    ensures f.Null? ==> r == None
    ensures f.Present? ==> r == Some(f.value)
  {
    match f
    case Missing => Some(default)
    case Null => None
    case Present(v) => Some(v)
  }

  /** Truth value of an optional string: `None` and `""` are false. */
  predicate TruthyText(v: Option<string>) {
    v.Some? && v.value != ""
  }

  /** `2 ** k`, the factor of an exponential back-off after `k` doublings. */
  function Pow2(k: nat): (p: nat)
    ensures p >= 1
  {
    if k == 0 then 1 else 2 * Pow2(k - 1)
  }
}
