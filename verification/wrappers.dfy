/** The Some/None datatype that stands for a value pandas may leave as NaN/NaT. */
module Wrappers {

  datatype Option<+T> = None | Some(value: T)

}
