/**
 * The regex text as the parser sees it: a NUL-terminated C string walked by a
 * cursor. Characters are modelled as unsigned bytes, and the cursor is a plain
 * index that may run past the end of the text.
 */
module Cursor {

  /** One `char` of the regex text, read as an unsigned byte. */
  type byte = b: int | 0 <= b < 256

  /** The regex text holds no NUL byte: the terminating NUL is implicit. */
  predicate NoNul(input: seq<byte>)
  {
    forall i | 0 <= i < |input| :: input[i] != 0
  }

  /**
   * `*str` with `str` at index `i`: the byte there, or 0 at and beyond the
   * end of the text. In C++ only the read at `|input|` is defined (the NUL
   * terminator); reads further on are modelled as reading 0 as well.
   */
  function At(input: seq<byte>, i: nat): (c: byte)
    ensures c != 0 ==> i < |input|
  {
    if i < |input| then input[i] else 0
  }

  /**
   * How much text is left in front of the cursor, counting the terminator.
   * It never grows as the cursor advances, and it shrinks whenever the
   * cursor steps past a byte that is not the terminator.
   */
  function Remaining(input: seq<byte>, i: nat): (n: nat)
    ensures i <= |input| ==> n == |input| + 1 - i
  {
    if i <= |input| then |input| + 1 - i else 0
  }
}

/** The failure value that replaces a thrown `Regex_Exception`. */
module Outcome {

  /** Either a value or the message a `Regex_Exception` would carry. */
  datatype Result<T> = Ok(value: T) | Err(message: string)

  /** A value, or none when a bounded run has not finished. */
  datatype Option<T> = None | Some(value: T)
}
