/**
 * The decoded JSON that niri reports and that users write in match rules.
 * A record is a Python mapping from field name to value; reading a field
 * that is not there gives `None`, so `Null` stands both for JSON `null`
 * and for a missing key.
 */
module Values {
  import opened Wrappers

  datatype Value = Null | Bool(b: bool) | Int(i: int) | Str(s: string)

  /** Python's `==` on these values: `bool` is a subclass of `int`,
      so `True == 1` and `False == 0` hold, and no other kinds mix. */
  predicate PyEq(a: Value, b: Value) {
    match (a, b)
    case (Null, Null) => true
    case (Bool(x), Bool(y)) => x == y
    case (Int(x), Int(y)) => x == y
    case (Bool(x), Int(y)) => y == (if x then 1 else 0)
    case (Int(x), Bool(y)) => x == (if y then 1 else 0)
    case (Str(x), Str(y)) => x == y
    case _ => false
  }

  type Record = map<string, Value>

  /** `item.get(key)`: the stored value, or `None` when the key is absent. */
  function Get(r: Record, key: string): (v: Value) {
    if key in r then r[key] else Null
  }

  /** An optional text field as the record stores it. */
  function OptStr(o: Option<string>): (r: Value) {
    match o
    case None => Null
    case Some(s) => Str(s)
  }

  /** An optional integer field as the record stores it. */
  function OptInt(o: Option<int>): (r: Value) {
    match o
    case None => Null
    case Some(n) => Int(n)
  }
}
