/** The optional value used wherever the game answers "maybe nothing". */
module Options {

  datatype Option<+T> = None | Some(value: T)
}
