/** The generic value tree that the format adapters hand to the selector:
    Go's `any` holding maps, slices and scalars, as an explicit variant. */
module Values {
  import opened Wrappers

  /** Go's `int` and `int64` are both VInt (the selector compares them
      numerically); `float64` is a real number (no NaN or infinities). */
  datatype Value =
    | VStr(s: string)
    | VInt(i: int)
    | VFloat(f: real)
    | VBool(b: bool)
    | VNull
    | VMap(m: map<string, Value>)
    | VSeq(items: seq<Value>)

  predicate IsScalar(v: Value) {
    !v.VMap? && !v.VSeq?
  }

  /** The standard-library calls the selector makes but this model keeps
      abstract: strconv.ParseFloat(_, 64), which either yields a number or
      fails, and fmt.Sprint, which renders any value as text. */
  datatype Builtins = Builtins(parseFloat: string -> Option<real>, sprint: Value -> string)
}
