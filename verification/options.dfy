/** What several modules share: a value that may be missing, and a truth value as a count. */
module Options {
  datatype Option<+T> = None | Some(value: T)

  function Bit(b: bool): nat {
    if b then 1 else 0
  }
}
