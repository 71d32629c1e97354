/** The "value or nothing" result used where the game returns `null`. */
module Optional {
  datatype Option<+T> = None | Some(value: T)
}
