/** Optional values: `None` stands for JavaScript's empty object `{}` or
    `undefined` where the screen keeps "nothing selected". */
module Wrappers {

  datatype Option<+T> = None | Some(value: T)

  function Min(a: int, b: int): (m: int)
    ensures m <= a && m <= b
    ensures m == a || m == b
  {
    if a <= b then a else b
  }
}
