/** What several of the models share. */
module Common {

  datatype Option<+T> = None | Some(value: T)

  const UINT32 := 0x1_0000_0000

  function Min(a: nat, b: nat): nat {
    if a < b then a else b
  }
}
