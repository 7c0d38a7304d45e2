/** Optional values. In this model `None` also stands for JavaScript's
    `undefined` (an absent request field) and for `NaN` (a number that
    could not be parsed). */
module Wrappers {

  datatype Option<+T> = None | Some(value: T)

}
