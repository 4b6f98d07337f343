/** What every module needs: an optional value, and the smaller and the larger of two numbers. */
module Basics {

  datatype Option<T> = None | Some(value: T)

  function Min(x: int, y: int): (r: int)
    ensures r <= x && r <= y && (r == x || r == y)
  {
    if x <= y then x else y
  }

  function Max(x: int, y: int): (r: int)
    ensures x <= r && y <= r && (r == x || r == y)
  {
    if x <= y then y else x
  }
}
