/** An enumerator is a value-semantics forward cursor over a finite sequence:
    it knows whether it denotes a live element, yields that element, and
    advances. Copies are independent values, which a datatype gives for free. */
module Enumerators {

  datatype Enumerator<T> = Enumerator(s: seq<T>, pos: nat) {

    /** A cursor never stands beyond the one-past-the-end position. */
    predicate Valid() {
      pos <= |s|
    }

    /** `operator bool`: the cursor denotes an element. */
    predicate Live() {
      pos < |s|
    }

    /** `operator*`: the element at the cursor. */
    function Current(): T
      requires Live()
    {
      s[pos]
    }

    /** Prefix `operator++`: the next position; an exhausted cursor stays where it is. */
    function Next(): Enumerator<T> {
      if pos < |s| then Enumerator(s, pos + 1) else this
    }
  }
}
