/** Types that several parts of the model share. */
module Common {
  datatype Option<T> = None | Some(value: T)

  type Byte = bv8
  type Word = bv16
  type Value = bv64

  /** A byte as a number. */
  type Octet = x: int | 0 <= x < 0x100

  function Max(a: int, b: int): int {
    if a > b then a else b
  }

  function Min(a: int, b: int): int {
    if a < b then a else b
  }
}
