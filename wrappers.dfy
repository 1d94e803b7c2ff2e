/** The optional-value wrapper used across the model. */
module Wrappers {

  /** `None` stands for PHP's `false`/`null` results and for results the model does not define (a negative shift count). */
  datatype Option<+T> = None | Some(value: T)
}
