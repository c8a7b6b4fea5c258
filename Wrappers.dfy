/** Missing values: a cell that pandas would hold as NaN/NaT is `None`. */
module Wrappers {
  datatype Option<+T> = None | Some(value: T)
}
