/** The conventional optional value, used wherever the program returns None. */
module Wrappers {

  datatype Option<+T> = None | Some(value: T)

  /** The smaller of two integers. */
  function Min(a: int, b: int): int {
    if a <= b then a else b
  }
}
