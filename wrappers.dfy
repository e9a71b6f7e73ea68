/** A value that may be absent: an undefined request field, a price the quote
    service could not supply, or a lookup that found no row. */
module Wrappers {

  datatype Option<+T> = None | Some(value: T)
}
