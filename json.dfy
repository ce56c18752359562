/** JSON values as Python's `json` module hands them to the program, and the
    three Python conversions the configuration code applies to them:
    truthiness (`bool(v)`), `int(v)` and `float(v)`, plus `str(v)`. */
module Json {
  import opened Wrappers
  import opened Text

  datatype Json =
    | JNull
    | JBool(b: bool)
    | JInt(i: int)
    | JFloat(f: PyFloat)
    | JStr(s: string)
    | JList(items: seq<Json>)
    | JObject(fields: map<string, Json>)

  /** `bool(v)`: `None`, `False`, zero, and empty strings, lists and objects
      are false; everything else (NaN and the infinities included) is true. */
  predicate Truthy(v: Json) {
    match v
    case JNull => false
    case JBool(b) => b
    case JInt(i) => i != 0
    case JFloat(f) => f != Finite(0.0)
    case JStr(s) => s != []
    case JList(xs) => xs != []
    case JObject(m) => m != map[]
  }

  /** `d.get(key, default)` on a JSON object. */
  function Get(d: map<string, Json>, key: string, default: Json): (r: Json)
    ensures key in d ==> r == d[key]
    ensures key !in d ==> r == default
  {
    if key in d then d[key] else default
  }

  /** The three ways a Python conversion can end: a value, an exception the
      configuration code catches (`ValueError`, `TypeError`), or one it does
      not catch (`OverflowError`). */
  datatype Conversion<+T> = Value(v: T) | Rejected | Overflow

  /** `int(r)` for a finite float: truncation toward zero. */
  function TruncateReal(r: real): (n: int)
    ensures r >= 0.0 ==> n as real <= r < n as real + 1.0
    ensures r < 0.0 ==> n as real - 1.0 < r <= n as real
  {
    if r >= 0.0 then r.Floor else -((-r).Floor)
  }

  /** `int(v)`. */
  function ToInt(v: Json): Conversion<int> {
    match v
    case JBool(b) => Value(if b then 1 else 0)
    case JInt(i) => Value(i)
    case JFloat(f) =>
      (match f
       case Finite(r) => Value(TruncateReal(r))
       case NaN => Rejected
       case _ => Overflow)
    case JStr(s) =>
      (match ParseInt(s)
       case Some(n) => Value(n)
       case None => Rejected)
    case _ => Rejected
  }

  /** `float(v)`. Integers convert exactly (the model has no double rounding). */
  function ToFloat(v: Json): Conversion<PyFloat> {
    match v
    case JBool(b) => Value(Finite(if b then 1.0 else 0.0))
    case JInt(i) => Value(Finite(i as real))
    case JFloat(f) => Value(f)
    case JStr(s) =>
      (match ParseFloat(s)
       case Some(f) => Value(f)
       case None => Rejected)
    case _ => Rejected
  }

  /** `str(v)`, exact for strings, integers, booleans, `None` and the
      non-finite floats; a finite float, a list or an object gets a fixed
      placeholder instead of Python's `repr`. */
  function Str(v: Json): string {
    match v
    case JNull => "None"
    case JBool(b) => if b then "True" else "False"
    case JInt(i) => IntToString(i)
    case JStr(s) => s
    case JFloat(f) =>
      (match f
       case PosInf => "inf"
       case NegInf => "-inf"
       case NaN => "nan"
       case Finite(_) => "<float>")
    case JList(_) => "[...]"
    case JObject(_) => "{...}"
  }
}
