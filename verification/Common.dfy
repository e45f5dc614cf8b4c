/** Result and option values shared by every component. */
module Common {
  datatype Option<+T> = None | Some(value: T)

  /** The two-valued return `(value, err)` of the repository. */
  datatype Result<+T> = Success(value: T) | Failure(error: string)

  function Min(a: int, b: int): (m: int)
    ensures m <= a && m <= b && (m == a || m == b)
  {
    if a <= b then a else b
  }

  function Max(a: int, b: int): (m: int)
    ensures m >= a && m >= b && (m == a || m == b)
  {
    if a >= b then a else b
  }
}
