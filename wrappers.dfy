/** A table cell that may be missing: `None` stands for a null (NaN/NaT) cell. */
module Wrappers {
  datatype Option<+T> = None | Some(value: T)
}
