/** The optional value used wherever the source produces `undefined`, `null`
    or "nothing found". */
module Wrappers {

  datatype Option<+T> = None | Some(value: T)
}
