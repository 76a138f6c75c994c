/** Optional values: a probe that found nothing, a cell pandas holds as None/NaN. */
module Wrappers {
  datatype Option<+T> = None | Some(value: T)
}
