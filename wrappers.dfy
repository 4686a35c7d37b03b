/** Python's `None`-or-value, used for `Optional[...]` results and for CSV
    cells that the reader fills with `None`. */
module Wrappers {

  datatype Option<+T> = None | Some(value: T)
}
