/** The optional value used throughout the model: `None` stands for JavaScript's
    `undefined` (a missing field, a missing key) or, for numbers, `NaN`. */
module Wrappers {
  datatype Option<+T> = None | Some(value: T)
}
