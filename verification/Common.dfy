/** Types shared by the models. */
module Common {
  datatype Option<T> = None | Some(value: T)

  type byte = x: int | 0 <= x < 256

  /** 2^32: addresses and counters are 32 bits wide. */
  const TWO32: nat := 0x1_0000_0000
}
