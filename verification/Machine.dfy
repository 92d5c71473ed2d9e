/** Word sizes, the page size, the minimum and the option type shared by the other modules. */
module Machine {

  const TWO32: nat := 0x1_0000_0000
  const TWO64: nat := 0x1_0000_0000_0000_0000

  const PAGE_SIZE: nat := 4096

  function Min(a: nat, b: nat): nat { if a < b then a else b }

  datatype Option<+T> = None | Some(value: T)
}
