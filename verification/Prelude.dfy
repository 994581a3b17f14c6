/** Small types shared by the component models. */
module Prelude {

  datatype Option<+T> = None | Some(value: T)

  /** A 256-bit hash value; zero is the null hash. */
  type Hash = nat

  const NULL_HASH: Hash := 0

  function Min(a: int, b: int): (r: int) { if a < b then a else b }

  function Max(a: int, b: int): (r: int) { if a < b then b else a }
}
