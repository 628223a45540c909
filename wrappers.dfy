/** JavaScript `null` / `undefined` and NaN results are modelled as `None`. */
module Wrappers {

  datatype Option<+T> = None | Some(value: T)
}
