/** The smaller and the larger of two integers, as `tf.math.minimum` and `tf.math.maximum` give them. */
module MinMax {
  function Min(a: int, b: int): int
  {
    if a <= b then a else b
  }

  function Max(a: int, b: int): int
  {
    if a <= b then b else a
  }
}
