/** The reads of `JsonIterator` as transitions of the cursor over a fixed buffer: each takes the buffer
    contents and the two cursors and gives the outcome together with the new `head`. */
module Reads {
  import opened Bytes
  import opened Errors
  import opened Tokens
  import opened Integers
  import opened ValueTypes

  /** The outcome of a read and where it leaves `head`. */
  datatype Step<T> = Step(result: Result<T, Error>, head: int)

  /** `IterImpl.nextToken`: skip whitespace, return the next byte and move past it; fail at `tail`. */
  function NextToken(b: seq<byte>, head: int, tail: int): (s: Step<byte>)
    requires 0 <= head <= tail <= |b|
    ensures head <= s.head <= tail
    ensures s.result.Ok? <==> !AllWhitespace(b, head, tail)
    ensures s.result.Ok? ==> IsTokenAt(b, head, tail, s.head - 1) && s.result.value == b[s.head - 1]
    ensures s.result.Err? ==> s == Step(Err(Report(PrematureEnd, head, tail)), head)
  {
    var p := SkipWhitespace(b, head, tail);
    if p == tail then Step(Err(Report(PrematureEnd, head, tail)), head)
    else Step(Ok(b[p]), p + 1)
  }

  /** `IterImpl.skipFixedBytes`: move `head` forward by `n` without looking at the bytes, provided
      that many bytes remain before `tail`. */
  function SkipFixedBytes(head: int, tail: int, n: nat): (s: Step<()>)
    ensures s.result.Ok? <==> head + n <= tail
    ensures s.head == if s.result.Ok? then head + n else head
  {
    if head + n <= tail then Step(Ok(()), head + n)
    else Step(Err(Report(PrematureEnd, head, tail)), head)
  }

  function ReadNull(b: seq<byte>, head: int, tail: int): (s: Step<bool>)
    requires 0 <= head <= tail <= |b|
    ensures head <= s.head <= tail
  {
    var t := NextToken(b, head, tail);
    if t.result.Err? then Step(Err(t.result.error), t.head)
    else if t.result.value != LOWER_N then Step(Ok(false), t.head - 1)
    else
      var k := SkipFixedBytes(t.head, tail, 3);
      Step(if k.result.Err? then Err(k.result.error) else Ok(true), k.head)
  }

  function ReadBoolean(b: seq<byte>, head: int, tail: int): (s: Step<bool>)
    requires 0 <= head <= tail <= |b|
    ensures head <= s.head <= tail
  {
    var t := NextToken(b, head, tail);
    if t.result.Err? then Step(Err(t.result.error), t.head)
    else if t.result.value == LOWER_T then
      var k := SkipFixedBytes(t.head, tail, 3);
      Step(if k.result.Err? then Err(k.result.error) else Ok(true), k.head)
    else if t.result.value == LOWER_F then
      var k := SkipFixedBytes(t.head, tail, 4);
      Step(if k.result.Err? then Err(k.result.error) else Ok(false), k.head)
    else Step(Err(Report(ExpectBoolean, t.head, tail)), t.head)
  }

  /** `readInt` (width `Int32`) and `readLong` (width `Int64`). */
  function ReadInteger(b: seq<byte>, head: int, tail: int, w: Width): (s: Step<int>)
    requires 0 <= head <= tail <= |b|
    ensures head <= s.head <= tail
    ensures s.result.Ok? ==> InRange(s.result.value, w)
  {
    match ParseInteger(b, head, tail, w)
    case Ok(p) => Step(Ok(p.value), p.end)
    case Err(k) => Step(Err(Report(k, head, tail)), head)
  }

  const SHORT_MIN_VALUE := -0x8000
  const SHORT_MAX_VALUE := 0x7FFF

  /** `readShort`: the 32-bit read, refused when it does not fit 16 bits. */
  function ReadShort(b: seq<byte>, head: int, tail: int): (s: Step<int>)
    requires 0 <= head <= tail <= |b|
    ensures head <= s.head <= tail
    ensures s.result.Ok? ==> SHORT_MIN_VALUE <= s.result.value <= SHORT_MAX_VALUE
  {
    var i := ReadInteger(b, head, tail, Int32);
    if i.result.Ok? && !(SHORT_MIN_VALUE <= i.result.value <= SHORT_MAX_VALUE) then
      Step(Err(Report(ShortOverflow, i.head, tail)), i.head)
    else i
  }

  /** `whatIsNext`: classify the next token through the table and unread it. A byte of 0x80 or more
      is negative on the JVM, an index outside the table. */
  function WhatIsNext(b: seq<byte>, head: int, tail: int): (s: Step<ValueType>)
    requires 0 <= head <= tail <= |b|
    ensures head <= s.head <= tail
    ensures s.result.Ok? ==> IsTokenAt(b, head, tail, s.head) && 0 <= b[s.head] && s.result.value == Classify(b[s.head])
  {
    var t := NextToken(b, head, tail);
    if t.result.Err? then Step(Err(t.result.error), t.head)
    else if t.result.value < 0 then Step(Err(Report(TableIndexOutOfBounds, t.head, tail)), t.head)
    else Step(Ok(Classify(t.result.value)), t.head - 1)
  }

  // ---------------------------------------------------------------------------------------------
  // The behaviour of each read, stated from the position of the next token

  lemma ReadNullOutcomes(b: seq<byte>, head: int, tail: int, p: int)
    requires IsTokenAt(b, head, tail, p)
    ensures b[p] != LOWER_N ==> ReadNull(b, head, tail) == Step(Ok(false), p)
    ensures b[p] == LOWER_N && p + 4 <= tail ==> ReadNull(b, head, tail) == Step(Ok(true), p + 4)
    ensures b[p] == LOWER_N && p + 4 > tail ==>
              ReadNull(b, head, tail).result.Err? && ReadNull(b, head, tail).result.error.kind == PrematureEnd
  {
    TokenUnique(b, head, tail, p, NextToken(b, head, tail).head - 1);
  }

  lemma ReadBooleanOutcomes(b: seq<byte>, head: int, tail: int, p: int)
    requires IsTokenAt(b, head, tail, p)
    ensures b[p] == LOWER_T && p + 4 <= tail ==> ReadBoolean(b, head, tail) == Step(Ok(true), p + 4)
    ensures b[p] == LOWER_F && p + 5 <= tail ==> ReadBoolean(b, head, tail) == Step(Ok(false), p + 5)
    ensures b[p] !in {LOWER_T, LOWER_F} ==>
              ReadBoolean(b, head, tail) == Step(Err(Report(ExpectBoolean, p + 1, tail)), p + 1)
    ensures ReadBoolean(b, head, tail).result.Err? <==>
              b[p] !in {LOWER_T, LOWER_F} || (b[p] == LOWER_T && p + 4 > tail) || (b[p] == LOWER_F && p + 5 > tail)
  {
    TokenUnique(b, head, tail, p, NextToken(b, head, tail).head - 1);
  }

  lemma WhatIsNextPeeks(b: seq<byte>, head: int, tail: int, p: int)
    requires IsTokenAt(b, head, tail, p)
    ensures b[p] >= 0 ==> WhatIsNext(b, head, tail) == Step(Ok(Classify(b[p])), p)
    ensures b[p] < 0 ==> WhatIsNext(b, head, tail).result.Err?
  {
    TokenUnique(b, head, tail, p, NextToken(b, head, tail).head - 1);
  }

  /** At the end of the window every read fails with `PrematureEnd` and leaves `head` alone. */
  lemma ReadsFailOnBlankWindow(b: seq<byte>, head: int, tail: int)
    requires 0 <= head <= tail <= |b| && AllWhitespace(b, head, tail)
    ensures ReadNull(b, head, tail) == Step(Err(Report(PrematureEnd, head, tail)), head)
    ensures ReadBoolean(b, head, tail) == Step(Err(Report(PrematureEnd, head, tail)), head)
    ensures WhatIsNext(b, head, tail) == Step(Err(Report(PrematureEnd, head, tail)), head)
  {
  }

  lemma ReadShortNarrows(b: seq<byte>, head: int, tail: int)
    requires 0 <= head <= tail <= |b|
    ensures var i := ReadInteger(b, head, tail, Int32);
            ReadShort(b, head, tail).result.Ok? <==>
              i.result.Ok? && SHORT_MIN_VALUE <= i.result.value <= SHORT_MAX_VALUE
    ensures ReadShort(b, head, tail).result.Ok? ==> ReadShort(b, head, tail) == ReadInteger(b, head, tail, Int32)
    ensures ReadShort(b, head, tail).result.Err? && ReadInteger(b, head, tail, Int32).result.Ok? ==>
              ReadShort(b, head, tail).result.error.kind == ShortOverflow
  {
  }

  // ---------------------------------------------------------------------------------------------
  // Top-level decoding

  /** The typed reads a top-level `deserialize` can be asked for. */
  datatype Target = IntTarget | LongTarget | ShortTarget | BooleanTarget

  datatype Value = IntValue(n: int) | BoolValue(b: bool)

  function AsInt(s: Step<int>): Step<Value> {
    Step(if s.result.Ok? then Ok(IntValue(s.result.value)) else Err(s.result.error), s.head)
  }

  function AsBool(s: Step<bool>): Step<Value> {
    Step(if s.result.Ok? then Ok(BoolValue(s.result.value)) else Err(s.result.error), s.head)
  }

  function ReadValue(b: seq<byte>, head: int, tail: int, target: Target): (s: Step<Value>)
    requires 0 <= head <= tail <= |b|
    ensures head <= s.head <= tail
  {
    match target
    case IntTarget => AsInt(ReadInteger(b, head, tail, Int32))
    case LongTarget => AsInt(ReadInteger(b, head, tail, Int64))
    case ShortTarget => AsInt(ReadShort(b, head, tail))
    case BooleanTarget => AsBool(ReadBoolean(b, head, tail))
  }

  /** `findLastNotSpacePos`: one past the last byte that is not whitespace, 0 if there is none. */
  function LastNotSpacePos(b: seq<byte>): (p: nat)
    ensures p <= |b| && AllWhitespace(b, p, |b|)
    ensures p > 0 ==> !IsWhitespace(b[p - 1])
  {
    if b == [] then 0
    else if !IsWhitespace(b[|b| - 1]) then |b|
    else LastNotSpacePos(b[..|b| - 1])
  }

  lemma LastNotSpacePosIs(b: seq<byte>, p: int)
    requires 0 <= p <= |b| && AllWhitespace(b, p, |b|)
    requires p > 0 ==> !IsWhitespace(b[p - 1])
    ensures LastNotSpacePos(b) == p
  {
  }

  /** `deserialize(bytes, type)`: trim trailing whitespace, read one value from the trimmed window and
      refuse it unless the read ended exactly at the window's end. */
  function Deserialize(input: seq<byte>, target: Target): (r: Result<Value, Error>)
    ensures var s := ReadValue(input, 0, LastNotSpacePos(input), target);
            r.Ok? <==> s.result.Ok? && s.head == LastNotSpacePos(input)
  {
    var last := LastNotSpacePos(input);
    var s := ReadValue(input, 0, last, target);
    if s.result.Err? then Err(s.result.error)
    else if s.head != last then Err(Report(TrailingGarbage, s.head, last))
    else Ok(s.result.value)
  }

  /** Top-level decoding succeeds exactly when the read over the trimmed window succeeds and consumes
      all of it; a read that stops short is trailing garbage, whatever follows is whitespace. */
  lemma DeserializeExactlyConsumes(input: seq<byte>, target: Target)
    ensures var last := LastNotSpacePos(input);
            var s := ReadValue(input, 0, last, target);
            && (Deserialize(input, target).Ok? <==> s.result.Ok? && s.head == last)
            && (Deserialize(input, target).Ok? ==> Deserialize(input, target).value == s.result.value)
            && (s.result.Ok? && s.head != last ==> Deserialize(input, target).error.kind == TrailingGarbage)
            && AllWhitespace(input, last, |input|)
  {
  }
}
