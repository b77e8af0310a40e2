/**
 The standard iterator categories, as far as the generation algorithms
 inspect them: `generate` needs at least a forward iterator, `generate_n`
 also accepts a plain output iterator but then runs sequentially.
 */
module Iterators {

  datatype Category = Input | Output | Forward | Bidirectional | RandomAccess

  /** The category tag derives from `std::forward_iterator_tag`. */
  predicate IsForward(c: Category) {
    c == Forward || c == Bidirectional || c == RandomAccess
  }

  /** What `generate_n` accepts: forward-derived, or exactly the output tag. */
  predicate IsForwardOrOutput(c: Category) {
    IsForward(c) || c == Output
  }

  /** An output-only iterator cannot be split into chunks. */
  predicate IsOutputOnly(c: Category) {
    c == Output
  }
}
