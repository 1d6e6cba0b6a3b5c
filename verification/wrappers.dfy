/** The optional value used for the intersectors' optional result accumulator. */
module Wrappers {

  datatype Option<+T> = None | Some(value: T)
}
