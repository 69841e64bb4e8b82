/** Small value wrappers shared by the syntax tree and the parser. */
module Wrappers {

  /** An optional value: stands for a Go pointer or interface that may be nil. */
  datatype Option<+T> = None | Some(value: T)

  /** The outcome of a routine that contains an unbounded skip loop: either it
      finishes with a value, or the loop would spin forever. */
  datatype Run<+T> = Done(value: T) | Diverges
}
