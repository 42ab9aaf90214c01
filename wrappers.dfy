/** The optional value used for "absent" query parameters, lookups that find
    nothing and integer parses that give NaN. */
module Wrappers {

  datatype Option<+T> = None | Some(value: T)
}
