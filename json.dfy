/**
 * The scalar JSON values of the Open Food Facts feed, with Python's view of
 * them: truthiness, `dict.get`, and the `int()` coercion Django applies when
 * an integer column is written.
 */
module Json {
  import opened Wrappers
  import opened Text

  datatype Value = Null | Bool(b: bool) | Number(n: real) | Str(s: string)

  /** Python's `bool(v)`. */
  function Truthy(v: Value): (t: bool)
    ensures !t <==> v in {Null, Bool(false), Number(0.0), Str("")}
  {
    match v
    case Null => false
    case Bool(b) => b
    case Number(n) => n != 0.0
    case Str(s) => s != []
  }

  /** `m.get(key)`: an absent key reads as `None`. */
  function Get(m: map<string, Value>, key: string): Value {
    if key in m then m[key] else Null
  }

  /** The text a text column receives; `None` is SQL NULL. */
  function AsText(v: Value): Option<string> {
    if v.Str? then Some(v.s) else None
  }

  /** Python's `int(x)` on a number: truncation toward zero. */
  function Truncate(x: real): (r: int)
    ensures x >= 0.0 ==> r as real <= x < r as real + 1.0
    ensures x < 0.0 ==> r as real - 1.0 < x <= r as real
  {
    if x >= 0.0 then x.Floor else -((-x).Floor)
  }

  /** Python's `int(v)` as an integer column applies it; `None` when it raises. */
  function AsInteger(v: Value): (r: Option<int>)
    ensures r.None? <==> v.Null? || (v.Str? && ParseInt(v.s).None?)
    ensures v.Bool? ==> r.Some? && 0 <= r.value <= 1 && (r.value == 1 <==> v.b)
    ensures v.Number? && v.n >= 0.0 ==> r.Some? && 0 <= r.value && r.value as real <= v.n < r.value as real + 1.0
    ensures v.Number? && v.n < 0.0 ==> r.Some? && r.value <= 0 && r.value as real - 1.0 < v.n <= r.value as real
  {
    match v
    case Null => None
    case Bool(b) => Some(if b then 1 else 0)
    case Number(n) => Some(Truncate(n))
    case Str(s) => ParseInt(s)
  }

  /** Writing the decimal text of `n` to an integer column stores `n`. */
  lemma AsIntegerDecimal(n: int)
    ensures AsInteger(Str(Decimal(n))) == Some(n)
  {
    ParseDecimal(n);
  }
}
