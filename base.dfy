/** Types shared by every part of the DG-200 model. */
module Base {

  /** One byte on the serial line (the Python code keeps bytes as '0xHH' strings; only their value matters). */
  type byte = x: int | 0 <= x < 256

  datatype Option<T> = None | Some(value: T)

  /** How a call of the original program ends when it does not return normally:
      `ShortRead` is `receive` returning None because the line delivered fewer than four header bytes;
      `Malformed` stands for any Python exception raised on data that is too short (an IndexError,
      a ValueError from `int('', 16)`). Where the program goes on to index, slice or `pop` the None
      that `receive` returned (a TypeError or AttributeError), the failure keeps the label
      `ShortRead`. */
  datatype Error = ShortRead | Malformed

  datatype Result<T> = Success(value: T) | Failure(error: Error)

  /** The smaller of two lengths, for slices that Python clips at the end of a list. */
  function Min(a: nat, b: nat): nat
  {
    if a < b then a else b
  }

  /** Appending in three steps is appending the last two first. */
  lemma Concat3<T>(a: seq<T>, b: seq<T>, c: seq<T>)
    ensures a + b + c == a + (b + c)
  {
  }
}
