/**
 * The outcome ranges printed on a card. The class that implements them is
 * not part of this model; it is taken to be either an inclusive interval
 * `lo-hi` (a single value `a` is `a-a`) or the sentinel `-`, which matches
 * no roll at all.
 */
module Ranges {
  datatype Range = Span(lo: int, hi: int) | Never
  {
    /** Whether a die roll falls inside the range. */
    predicate InRange(x: int)
    {
      Span? && lo <= x <= hi
    }
  }
}
