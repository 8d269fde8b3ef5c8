/** Names shared by the models. */
module Common {
  datatype Option<T> = None | Some(value: T)

  const TWO32: nat := 0x1_0000_0000
  const TWO64: nat := 0x1_0000_0000_0000_0000
}
