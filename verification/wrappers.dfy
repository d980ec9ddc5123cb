/** The optional value used wherever the modelled code returns `null` or reads
    an environment variable that may be unset. */
module Wrappers {

  datatype Option<+T> = None | Some(value: T)
}
