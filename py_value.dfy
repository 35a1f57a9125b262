/** The dynamically typed values that reach the validators: text typed at the
    terminal, or a value loaded from the YAML configuration. */
module PyValue {
  import opened Wrappers
  import opened PyText
  import opened PyInt

  /** A Python `str`, `int`, `bool` or `None`. */
  datatype Value = Text(s: string) | Int(i: int) | Bool(b: bool) | Nothing

  /** Python truthiness (`bool(v)`). */
  predicate Truthy(v: Value) {
    match v
    case Text(s) => s != ""
    case Int(i) => i != 0
    case Bool(b) => b
    case Nothing => false
  }

  /** `int(v)`: `None` where Python raises `ValueError` (bad text) or `TypeError` (`None`).
      A `bool` is the integer 0 or 1. */
  function ToInt(v: Value): Option<int> {
    match v
    case Text(s) => ParseInt(s, Decimal)
    case Int(i) => Some(i)
    case Bool(b) => Some(if b then 1 else 0)
    case Nothing => None
  }

  /** `str(v)`. */
  function Str(v: Value): string {
    match v
    case Text(s) => s
    case Int(i) => DecimalString(i)
    case Bool(b) => if b then "True" else "False"
    case Nothing => "None"
  }
}
