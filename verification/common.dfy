/** Small value types shared by the modules of the model. */
module Common {

  /** Python's `None` or a value. */
  datatype Option<T> = None | Some(value: T)

  /** A rectangle `(x1, y1, x2, y2)` as the tool passes it around in tuples:
      a monitor area in virtual-desktop coordinates, or a crop box in
      overlay coordinates. */
  datatype Box = Box(x1: int, y1: int, x2: int, y2: int)

  function Min(a: int, b: int): int { if a <= b then a else b }

  function Max(a: int, b: int): int { if a <= b then b else a }

  function Abs(a: int): int { if a < 0 then -a else a }
}
