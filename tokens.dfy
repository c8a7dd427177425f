/** Whitespace skipping shared by `nextToken` and the integer decoder. */
module Tokens {
  import opened Bytes

  ghost predicate AllWhitespace(b: seq<byte>, from: int, to: int) {
    0 <= from && to <= |b| && forall k :: from <= k < to ==> IsWhitespace(b[k])
  }

  /** `p` is the first byte of `[head, tail)` that is not whitespace. */
  ghost predicate IsTokenAt(b: seq<byte>, head: int, tail: int, p: int) {
    0 <= head <= p < tail <= |b| && !IsWhitespace(b[p]) && AllWhitespace(b, head, p)
  }

  /** Index of the first non-whitespace byte at or after `i`, or `tail` if there is none. */
  function SkipWhitespace(b: seq<byte>, i: int, tail: int): (p: int)
    requires 0 <= i <= tail <= |b|
    ensures i <= p <= tail
    ensures AllWhitespace(b, i, p)
    ensures p < tail ==> !IsWhitespace(b[p])
    decreases tail - i
  {
    if i == tail || !IsWhitespace(b[i]) then i else SkipWhitespace(b, i + 1, tail)
  }

  lemma TokenUnique(b: seq<byte>, head: int, tail: int, p: int, q: int)
    requires IsTokenAt(b, head, tail, p) && IsTokenAt(b, head, tail, q)
    ensures p == q
  {
  }

  /** The scanning loop of `nextToken`. */
  method FindToken(buf: array<byte>, from: int, tail: int) returns (p: int)
    requires 0 <= from <= tail <= buf.Length
    ensures p == SkipWhitespace(buf[..], from, tail)
  {
    p := from;
    while p < tail && IsWhitespace(buf[p])
      invariant from <= p <= tail
      invariant SkipWhitespace(buf[..], p, tail) == SkipWhitespace(buf[..], from, tail)
    {
      p := p + 1;
    }
  }
}
