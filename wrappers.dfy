/** The optional-value datatype used for results that `hexToRgb` in src/app.ts reports as `null`. */
module Wrappers {

  datatype Option<+T> = None | Some(value: T)
}
