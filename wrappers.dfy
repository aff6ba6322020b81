/** An optional value: `None` stands for a file that does not exist, or for a
    run that stopped with an uncaught exception. */
module Wrappers {
  datatype Option<+T> = None | Some(value: T)
}
