/** Optional values. In this model `None` stands for a floating-point NaN
    (or a missing catalog cell), `Some(v)` for a finite value. */
module Wrappers {

  datatype Option<+T> = None | Some(value: T)
}
