/** Small failure-carrying datatypes shared by the model. */
module Wrappers {

  /** A value that may be absent: JavaScript's `undefined` for a field or a lookup. */
  datatype Option<+T> = None | Some(value: T)

  /** How an event handler ended: normally, or by a TypeError thrown part-way
      (a property read on `undefined`), which leaves whatever it changed before the throw. */
  datatype Outcome = Completed | Aborted
}
