/** What every module shares. */
module Prelude {

  datatype Option<+T> = None | Some(value: T)

  /** What the parser produces: a value, or the HTTP status its exception carries. */
  datatype Result<+T> = Ok(value: T) | Rejected(status: int)

  function Max(a: nat, b: nat): nat {
    if a >= b then a else b
  }
}
