/** The optional value used where the program skips a day or finds no pattern. */
module Wrappers {

  datatype Option<+T> = None | Some(value: T)
}
