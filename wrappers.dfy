/** Option and Result, the shapes the backend's Rust code returns. */
module Wrappers {

  datatype Option<+T> = None | Some(value: T)

  /** A registry or canister result: a value, or the error text the caller sees. */
  datatype Result<+T> = Ok(value: T) | Err(msg: string)
}
