/** The optional-value datatype shared by the other modules. */
module Wrappers {

  /** `None` stands for Python's `None`, or for a lookup or parse that found nothing. */
  datatype Option<+T> = None | Some(value: T)
}
