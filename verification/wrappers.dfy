/** Option type used for values that may be absent: a failed fetch, an unparsable price,
    a missing history file or an unset configuration value. */
module Wrappers {

  datatype Option<+T> = None | Some(value: T)
}
