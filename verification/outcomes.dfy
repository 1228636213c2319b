/** What a call of the modelled program produces. The source signals a bad
    address by returning Python's `None`; a later step that computes with that
    `None` (a comparison, a multiplication, an addition) raises a `TypeError`
    that nobody catches. The two are kept apart because the callers react to
    them differently. */
module Outcomes {

  datatype Ret<+T> =
    | Value(value: T)  // a usable result
    | Null             // the call returned `None`
    | Raised           // the call raised an uncaught `TypeError`
}
