/** A value that may be missing: the model's stand-in for a dataframe cell
    that holds NaN / NaT / <NA>. */
module Wrappers {

  datatype Option<+T> = None | Some(value: T)

}
