/** Names both indexes use. */
module Common {

  datatype Option<+T> = None | Some(value: T)

  type Key = nat    // a fixed-width key compared byte by byte, so as a number
  type Value = nat
}
