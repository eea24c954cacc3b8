/** The JavaScript `null` that the game uses for "no fruit" and for a failed lookup. */
module Options {
  datatype Option<+T> = None | Some(value: T)
}
