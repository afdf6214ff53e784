/** The two error kinds an operation can report, and the messages they display as. */
module Errors {

  datatype Error =
    | InvalidPointer  // a pointer that does not resolve, a bad index, a wrong container, a move into a child
    | InvalidTest     // a `test` operation whose comparison failed

  datatype Result<+T> = Ok(value: T) | Err(error: Error)

  /** The `Display` text of an error; a conformance harness compares these strings. */
  function Display(e: Error): (s: string)
    ensures e == InvalidPointer <==> s == "Invalid JSON Pointer"
    ensures e == InvalidTest <==> s == "Test Operation Failed"
  {
    match e
    case InvalidPointer => "Invalid JSON Pointer"
    case InvalidTest => "Test Operation Failed"
  }

  /** There are exactly two kinds, and their messages tell them apart. */
  lemma DisplayDistinguishes(a: Error, b: Error)
    ensures a == InvalidPointer || a == InvalidTest
    ensures Display(a) == Display(b) <==> a == b
  {
  }
}
