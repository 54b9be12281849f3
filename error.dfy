/** The failure reasons a validator can report (src/error.rs). */
module Errors {

  /** Rust's `usize` on a 64-bit target: the bound carried by MinLen and MaxLen. */
  newtype Usize = x: int | 0 <= x < 0x1_0000_0000_0000_0000

  /** The closed set of failure reasons.  `Other` wraps a foreign error value, of which
      only its description is kept; `Multi` is an ordered, possibly nested list of
      failures that nothing flattens. */
  datatype Error =
    | Required
    | MinLen(minBound: Usize)
    | MaxLen(maxBound: Usize)
    | Other(description: string)
    | Multi(errors: seq<Error>)
    | Custom(message: string)

  /** The `Display` rendering: the formatter is never written to and formatting never
      fails, so every error, nested `Multi` included, renders as the empty string. */
  function Display(e: Error): (s: string)
    ensures |s| == 0
  {
    ""
  }

  /** An error in which no `Multi` node, at any depth, is empty.  Combinators report the
      absence of failures as success, never as `Multi([])`. */
  predicate NoEmptyMulti(e: Error)
    decreases e
  {
    match e
    case Multi(es) => |es| > 0 && forall x :: x in es ==> NoEmptyMulti(x)
    case _ => true
  }
}
