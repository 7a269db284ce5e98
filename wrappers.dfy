/** Small value wrappers shared by the modules of this model. */
module Wrappers {

  /** A value that may be absent (a lookup that found nothing). */
  datatype Option<+T> = None | Some(value: T)
}
