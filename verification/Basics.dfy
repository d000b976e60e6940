/** Types that every part of the model shares. */
module Basics {
  datatype Option<+T> = None | Some(value: T)

  type byte = b: int | 0 <= b < 256

  type uint32 = w: int | 0 <= w < 0x1_0000_0000

  const TWO32: nat := 0x1_0000_0000
  const TWO64: nat := 0x1_0000_0000_0000_0000

  lemma Regroup<T>(a: seq<T>, b: seq<T>, c: seq<T>)
    ensures a + b + c == a + (b + c)
  {
  }
}
