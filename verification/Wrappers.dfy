// Result types shared by the models.
module Wrappers {

  datatype Option<+T> = None | Some(value: T)

  /** What a database makes of a statement: done, refused, or done and answered by an error. */
  datatype Answer = Works | Fails | Half

  function Min(a: int, b: int): int {
    if a < b then a else b
  }

  function Max(a: int, b: int): int {
    if a > b then a else b
  }
}
