/** The scalar values a report record holds. */
module Values {
  import opened Text

  /** An integer, a float (modelled by the exact real it denotes) or a string. */
  datatype Value = VInt(i: int) | VFloat(x: real) | VStr(s: string)

  /** One report record: field name to value, as the tool's dicts are. */
  type Record = map<string, Value>

  /** `isinstance(v, (float, int))`. */
  predicate IsNumeric(v: Value) {
    v.VInt? || v.VFloat?
  }

  function AsReal(v: Value): real
    requires IsNumeric(v)
  {
    if v.VInt? then v.i as real else v.x
  }

  /** What Python's `==` and a dict lookup see of a value: the number an
      int or a float denotes, or the text of a string. */
  datatype KeyClass = NumberKey(r: real) | TextKey(t: string)

  function DictKey(v: Value): KeyClass {
    if IsNumeric(v) then NumberKey(AsReal(v)) else TextKey(v.s)
  }

  /** Python's `==` on these values: an int and a float are equal when they
      denote the same number; a string equals only the same string. */
  predicate PyEq(a: Value, b: Value) {
    DictKey(a) == DictKey(b)
  }

  /** `str(v)`; the text of a float is given by `showFloat`, which stands for
      Python's shortest round-trip float printing. */
  function Show(v: Value, showFloat: real -> string): string {
    match v
    case VInt(n) => IntToString(n)
    case VFloat(x) => showFloat(x)
    case VStr(s) => s
  }
}
