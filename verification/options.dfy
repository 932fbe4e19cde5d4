/** The optional result every intersection query returns. */
module Options {

  datatype Option<+T> = None | Some(value: T)
}
