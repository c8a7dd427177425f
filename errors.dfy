/** Errors raised through `JsonIterator.reportError`, and the diagnostic window it computes. */
module Errors {

  datatype Result<T, E> = Ok(value: T) | Err(error: E)

  datatype ErrorKind =
    | PrematureEnd           // no byte left before `tail`
    | UnreadUnderflow        // `unreadByte` at head 0
    | ExpectBoolean          // `readBoolean` found neither `t` nor `f`
    | ShortOverflow          // `readShort` value outside 16 bits
    | InvalidNumber          // integer literal does not start with a digit
    | LeadingZero            // `0` followed by another digit
    | NumberOverflow         // magnitude beyond the target width
    | TableIndexOutOfBounds  // negative byte used as an index into the 256-entry type table
    | TrailingGarbage        // `deserialize` stopped before the end of the trimmed input

  /** The slice `buf[start .. start + size)` that the error message quotes as "peek". */
  datatype Window = Window(start: int, size: int)

  datatype Error = Error(kind: ErrorKind, head: int, peek: Window)

  /** The peek window of `reportError`: up to ten bytes before `head`, cut at `tail` when head ran past it. */
  function PeekWindow(head: int, tail: int): (w: Window)
    ensures 0 <= w.start
    ensures w.start + w.size == if head > tail then tail else head
    ensures 0 <= head ==> w.start <= head && head - w.start <= 10
    ensures 0 <= head ==> (w.start == 0 || head - w.start == 10)
  {
    var peekStart := if head - 10 < 0 then 0 else head - 10;
    var peekSize := if head > tail then tail - peekStart else head - peekStart;
    Window(peekStart, peekSize)
  }

  /** The error `reportError` raises. Within the window its peek is the at most ten bytes before `head`. */
  function Report(kind: ErrorKind, head: int, tail: int): (e: Error)
    ensures e.kind == kind && e.head == head
    ensures 0 <= head <= tail ==> 0 <= e.peek.start && e.peek.start + e.peek.size == head
    ensures 0 <= head <= tail ==> 0 <= e.peek.size <= 10
  {
    Error(kind, head, PeekWindow(head, tail))
  }

  /** The window is a well-formed slice of a buffer holding `[0, tail)` exactly when `head` overshoots
      `tail` by at most ten bytes; otherwise its size is negative. */
  lemma PeekWindowInBuffer(head: int, tail: int, length: int)
    requires 0 <= head && 0 <= tail <= length
    ensures PeekWindow(head, tail).size >= 0 <==> head <= tail + 10
    ensures head <= tail + 10 ==>
              var w := PeekWindow(head, tail); w.size <= 10 && w.start + w.size <= length
  {
  }
}
