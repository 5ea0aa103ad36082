/** The component types and values that the source's tests store. */
module Fixtures {

  /** The component types the tests declare or register (`f64`, `String`, `i32`). */
  datatype Kind = F64 | Str | I32

  /** A component value of one of those types. */
  datatype Component = Float(x: real) | Text(s: string) | Int(n: int)
}
