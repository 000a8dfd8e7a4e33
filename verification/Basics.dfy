/** What several of the models share. */
module Basics {
  datatype Option<T> = None | Some(value: T)

  /** A block of a device of the buffer cache; devices are compared by address. */
  datatype Key = Key(dd: nat, block: nat)

  const U32: nat := 0x1_0000_0000

  function Min(a: nat, b: nat): nat {
    if a < b then a else b
  }
}
