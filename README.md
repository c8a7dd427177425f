# jsoniter cursor engine and integer decoder, in Dafny

This project models the core of the Kotlin port of jsoniter, a JSON decoder that pulls values out of a byte buffer
one read at a time. The buffer holds the input. `head` points at the next byte to read, and `tail` ends the readable window.

The model covers these parts:

- **The iterator (`Iterator.JsonIterator`).** A class with the fields `buf`, `head` and `tail`. It has the byte-array and slice overloads of `parse` and `reset`, `unreadByte`, and the typed reads `readNull`, `readBoolean`, `readShort`, `readInt` and `readLong`. It also has `whatIsNext` and the error report that quotes up to ten bytes before `head`.
- **The byte-class table (`ValueTypes`).** This table is what `whatIsNext` uses.
- **Top-level decoding (`Iterator.Deserialize`).** It trims trailing whitespace (`findLastNotSpacePos`), reads one value from the trimmed window, and refuses the result unless the read ended exactly at the window's end.
- **The 32/64-bit decimal decoder (`Integers`).** It accumulates digits negatively in a 64-bit accumulator, with the usual `MIN_VALUE / 10` threshold and a last-digit bound of 8. It refuses empty input, a missing first digit, a leading zero and overflow.

The reads are given twice:

- as **transitions**: pure functions in module `Reads` that take the buffer contents and the cursors, and return the outcome with the new `head`;
- as **methods of the class** that update `head` in place. Each method is proved to produce exactly its transition.

Lemmas then state what the transitions do:

- where `readNull` and `readBoolean` leave the cursor;
- that `whatIsNext` does not consume;
- that `readShort` narrows `readInt`;
- that top-level decoding succeeds exactly when the read consumes the trimmed window.

Module `IntegerTests` states the contract that the repository's integer test suite pins down, for all inputs of the shapes it uses:

- the text of any in-range integer decodes to that integer, with `head` at the end of the text;
- the text of an out-of-range integer is an overflow;
- every number in the tested ranges with a `0` appended overflows;
- a leading zero is refused.

Bytes are JVM signed bytes (`-128..127`). Errors are values: `Error(kind, head, peek)` records the kind, the cursor and the peek window. Where the source throws, the model returns `Err`.

## Model

| member | source | states |
|---|---|---|
| Iterator.JsonIterator.constructor | src/main/kotlin/com/jsoniter/JsonIterator.kt:39 | the pooled iterator starts on an empty buffer with both cursors at 0 |
| Iterator.JsonIterator.Parse | src/main/kotlin/com/jsoniter/JsonIterator.kt:400-402 | `parse(buf)` makes the whole array the window, and the session is valid |
| Iterator.JsonIterator.ParseRange | src/main/kotlin/com/jsoniter/JsonIterator.kt:404-406 | `parse(buf, head, tail)` stores the cursors unchecked; the session is valid exactly when `0 <= head <= tail <= size` |
| Iterator.JsonIterator.ParseSlice | src/main/kotlin/com/jsoniter/JsonIterator.kt:412-414 | `parse(slice)` takes the slice's array and bounds; valid exactly when the bounds lie in the array |
| Iterator.JsonIterator.Reset | src/main/kotlin/com/jsoniter/JsonIterator.kt:41-45 | after `reset(buf)` the iterator reads all of the new array from 0 |
| Iterator.JsonIterator.ResetRange | src/main/kotlin/com/jsoniter/JsonIterator.kt:47-51 | after `reset(buf, head, tail)` the three fields are exactly the arguments; valid exactly when they are in bounds |
| Iterator.JsonIterator.ResetSlice | src/main/kotlin/com/jsoniter/JsonIterator.kt:53-57 | after `reset(slice)` the fields are the slice's array and bounds |
| Iterator.JsonIterator.ReportError | src/main/kotlin/com/jsoniter/JsonIterator.kt:80-91 | `Errors.Report` at the current cursors: the error carries its kind and the current `head`; on a valid session its peek window is at most ten bytes, inside the buffer and ending at `head` |
| Errors.PeekWindow | src/main/kotlin/com/jsoniter/JsonIterator.kt:81-87 | the peek start is `max(0, head - 10)`; the window ends at `head`, or at `tail` when `head` ran past `tail`; from a non-negative head it spans at most ten bytes, ten unless clipped at 0 |
| Errors.PeekWindowInBuffer | src/main/kotlin/com/jsoniter/JsonIterator.kt:81-88 | the peek size is non-negative exactly when `head <= tail + 10`, and then the window lies inside the buffer and spans at most ten bytes |
| Errors.Report | src/main/kotlin/com/jsoniter/JsonIterator.kt:80-91 | the error `reportError` raises keeps its kind and the cursor it was raised at; when `0 <= head <= tail` its peek window is at most ten bytes ending at `head` and starting at or after 0 (`PeekWindow` gives the window in general) |
| Iterator.JsonIterator.UnreadByte | src/main/kotlin/com/jsoniter/JsonIterator.kt:73-78 | at `head == 0` it fails with an underflow error and changes nothing; otherwise `head` goes back by exactly one |
| Iterator.JsonIterator.NextToken | src/main/kotlin/com/jsoniter/JsonIterator.kt:104 | the method moves `head` exactly as the transition `Reads.NextToken` says |
| Reads.NextToken | src/main/kotlin/com/jsoniter/JsonIterator.kt:104 | succeeds exactly when the window holds a byte that is not whitespace; it then returns the first such byte and leaves `head` just past it; at the end of the window it fails and leaves `head` where it was |
| Tokens.FindToken | src/main/kotlin/com/jsoniter/JsonIterator.kt:104 | the whitespace-skipping loop stops at the first non-whitespace byte of the window, or at `tail` |
| Tokens.SkipWhitespace | src/main/kotlin/com/jsoniter/JsonIterator.kt:560 | the skipped bytes are all space, tab, LF or CR; the byte it stops at, if any, is not |
| Tokens.TokenUnique | src/main/kotlin/com/jsoniter/JsonIterator.kt:104 | the next token of a window is unique |
| Iterator.JsonIterator.SkipFixedBytes | src/main/kotlin/com/jsoniter/JsonIterator.kt:109 | `head` moves by exactly `n` when `n` bytes remain and stays put otherwise, as `Reads.SkipFixedBytes` says |
| Reads.SkipFixedBytes | src/main/kotlin/com/jsoniter/JsonIterator.kt:109 | succeeds exactly when `head + n <= tail`, and then advances `head` by `n` |
| Iterator.JsonIterator.ReadNull | src/main/kotlin/com/jsoniter/JsonIterator.kt:103-111 | the method changes `head` and answers exactly as `Reads.ReadNull` |
| Reads.ReadNull | src/main/kotlin/com/jsoniter/JsonIterator.kt:103-111 | a read never moves `head` backwards past its start nor beyond `tail` |
| Reads.ReadNullOutcomes | src/main/kotlin/com/jsoniter/JsonIterator.kt:103-111 | with the next token at `p`: a token other than `n` gives false and leaves `head` on the token; `n` with three more bytes gives true and leaves `head` at `p + 4`; a cut-off `null` is a premature end |
| Iterator.JsonIterator.ReadBoolean | src/main/kotlin/com/jsoniter/JsonIterator.kt:114-125 | the method changes `head` and answers exactly as `Reads.ReadBoolean` |
| Reads.ReadBoolean | src/main/kotlin/com/jsoniter/JsonIterator.kt:114-125 | the new `head` stays within `[head, tail]` |
| Reads.ReadBooleanOutcomes | src/main/kotlin/com/jsoniter/JsonIterator.kt:114-125 | `t` gives true with `head` at `p + 4`, and `f` gives false with `head` at `p + 5`; any other token is an `ExpectBoolean` error reported just past it; the read fails exactly in those cases or when the literal is cut off |
| Reads.ReadsFailOnBlankWindow | src/main/kotlin/com/jsoniter/JsonIterator.kt:103-125 | on a window of whitespace only, `readNull`, `readBoolean` and `whatIsNext` fail with premature end and leave `head` alone |
| Iterator.JsonIterator.ReadInt | src/main/kotlin/com/jsoniter/JsonIterator.kt:138-140 | the 32-bit read: as `Reads.ReadInteger` at width 32 |
| Iterator.JsonIterator.ReadLong | src/main/kotlin/com/jsoniter/JsonIterator.kt:143-145 | the 64-bit read: as `Reads.ReadInteger` at width 64 |
| Iterator.JsonIterator.ReadInteger | src/main/kotlin/com/jsoniter/JsonIterator.kt:138-145 | on success `head` moves to the end of the literal; on failure it stays put and the error is reported at it |
| Reads.ReadInteger | src/main/kotlin/com/jsoniter/JsonIterator.kt:138-145 | a successful read yields a value in the width's range, and `head` stays within the window |
| Iterator.JsonIterator.ReadShort | src/main/kotlin/com/jsoniter/JsonIterator.kt:128-135 | the method answers exactly as `Reads.ReadShort` |
| Reads.ReadShortNarrows | src/main/kotlin/com/jsoniter/JsonIterator.kt:128-135 | `readShort` succeeds exactly when `readInt` does with a value in `[-32768, 32767]`, and then agrees with it; a 32-bit value outside that range is a short overflow |
| Reads.ReadShort | src/main/kotlin/com/jsoniter/JsonIterator.kt:128-135 | a successful `short` read lies in `[-32768, 32767]` and leaves `head` within the window; `ReadShortNarrows` relates it to `readInt` |
| Iterator.JsonIterator.WhatIsNext | src/main/kotlin/com/jsoniter/JsonIterator.kt:357-361 | looking the token up in the built table and unreading it is exactly `Reads.WhatIsNext` |
| Reads.WhatIsNextPeeks | src/main/kotlin/com/jsoniter/JsonIterator.kt:357-361 | with the next token at `p`, a non-negative byte gives its class and leaves `head` on the token, so nothing is consumed; a negative byte is an index outside the table |
| Reads.WhatIsNext | src/main/kotlin/com/jsoniter/JsonIterator.kt:357-361 | on success `head` is left on the next token, which is a non-negative byte, and the answer is that byte's class |
| ValueTypes.ClassifyTable | src/main/kotlin/com/jsoniter/JsonIterator.kt:376-392 | each class holds exactly its starting bytes: `"`, then `-` and `0`-`9`, `t`/`f`, `n`, `[` and `{` |
| ValueTypes.Classify | src/main/kotlin/com/jsoniter/JsonIterator.kt:373-392 | an entry is INVALID exactly when its index is none of the seventeen starting bytes; `ClassifyTable` gives the class of each of them |
| ValueTypes.Table | src/main/kotlin/com/jsoniter/JsonIterator.kt:370 | the table has 256 entries, the class of each index |
| ValueTypes.InitialisedTable | src/main/kotlin/com/jsoniter/JsonIterator.kt:373-392 | writing the seventeen entries over an all-invalid table gives the table |
| ValueTypes.BuildValueTypes | src/main/kotlin/com/jsoniter/JsonIterator.kt:372-393 | the static initialiser yields a fresh array equal to the table |
| Iterator.JsonIterator.Read | src/main/kotlin/com/jsoniter/JsonIterator.kt:336-353 | the typed read a decode dispatches to is exactly `Reads.ReadValue` for that type |
| Reads.ReadValue | src/main/kotlin/com/jsoniter/JsonIterator.kt:336-353 | the typed read leaves `head` within the window |
| Iterator.FindLastNotSpacePos | src/main/kotlin/com/jsoniter/JsonIterator.kt:557-565 | the reverse scan returns `Reads.LastNotSpacePos` of the input |
| Reads.LastNotSpacePos | src/main/kotlin/com/jsoniter/JsonIterator.kt:557-565 | one past the last byte that is not whitespace: everything after it is whitespace and the byte before it is not; 0 when all is whitespace |
| Reads.LastNotSpacePosIs | src/main/kotlin/com/jsoniter/JsonIterator.kt:557-565 | that characterisation determines the position uniquely |
| Iterator.Deserialize | src/main/kotlin/com/jsoniter/JsonIterator.kt:469-486 | resetting a pooled iterator to the trimmed input, reading, and checking `head` gives exactly `Reads.Deserialize` |
| Reads.DeserializeExactlyConsumes | src/main/kotlin/com/jsoniter/JsonIterator.kt:469-486 | decoding succeeds exactly when the read over the trimmed window succeeds and ends at its end, with the read's value; a read that stops short is trailing garbage; only whitespace was trimmed |
| Reads.Deserialize | src/main/kotlin/com/jsoniter/JsonIterator.kt:469-486 | decoding succeeds exactly when the read over the trimmed window succeeds and ends at the window's end; `DeserializeExactlyConsumes` adds the value, the trailing-garbage kind and what was trimmed |
| Integers.MultMin | src/test/kotlin/com/jsoniter/TestIntegerKt.kt:52-64 | the overflow threshold: ten times it, minus the last-digit bound 8, is the width's minimum |
| Integers.ParseInteger | src/main/kotlin/com/jsoniter/JsonIterator.kt:138-145 | a decoded value is in range and ends after at least one byte, at a byte that is not a digit or at the window end |
| Integers.ParseDigits | src/main/kotlin/com/jsoniter/JsonIterator.kt:138-145 | a decoded run of digits is in range, is non-empty, and is maximal |
| Integers.ScanInteger | src/main/kotlin/com/jsoniter/JsonIterator.kt:138-145 | the decoder is exactly `ParseInteger` |
| Integers.ScanDigits | src/test/kotlin/com/jsoniter/TestIntegerKt.kt:26-113 | the negative-accumulator loop with its threshold checks computes exactly `ParseDigits`: no representable value is refused and nothing out of range wraps |
| Integers.OverflowPersists | src/test/kotlin/com/jsoniter/TestIntegerKt.kt:66-113 | once the digits read so far exceed the limit, the literal is an overflow whatever follows |
| Integers.DigitRunEnd | src/main/kotlin/com/jsoniter/JsonIterator.kt:138-145 | the run of digits is maximal: the byte after it, if any, is not a digit |
| Integers.ValuePrefix | src/main/kotlin/com/jsoniter/JsonIterator.kt:138-145 | the value of a prefix of a digit run is at most the value of the run |
| Integers.ValueShift | src/main/kotlin/com/jsoniter/JsonIterator.kt:138-145 | a digit run's value depends on its bytes only, not on where it sits |
| Integers.DigitsDenote | src/test/kotlin/com/jsoniter/TestIntegerKt.kt:53-63 | the decimal text of `n` is a non-empty run of digits that denotes `n`, with no leading zero unless `n` is 0 |
| Integers.ParsesRun | src/test/kotlin/com/jsoniter/TestIntegerKt.kt:26-64 | a maximal digit run without a redundant leading zero decodes to its signed value, or overflows when it exceeds the limit |
| Integers.ParsesDigits | src/test/kotlin/com/jsoniter/TestIntegerKt.kt:26-64 | the same for any digit string placed in the buffer |
| Integers.ParsesDecimal | src/test/kotlin/com/jsoniter/TestIntegerKt.kt:26-64 | round trip: the decimal text of `v`, followed by the window end or a non-digit, decodes to `v` with `head` just past it exactly when `v` fits the width; otherwise it is an overflow |
| Integers.LeadingZeroRefused | src/test/kotlin/com/jsoniter/TestIntegerKt.kt:133-158 | a literal starting with `0` and another digit is refused |
| Integers.DecimalTimesTen | src/test/kotlin/com/jsoniter/TestIntegerKt.kt:77 | appending `0` to the text of a non-zero `v` writes `10 * v` |
| Integers.Digits | src/test/kotlin/com/jsoniter/TestIntegerKt.kt:53-63 | the digits of a natural number, as `Integer.toString` writes them: never empty and starting with a digit; `DigitsDenote` shows they denote the number |
| Integers.Decimal | src/test/kotlin/com/jsoniter/TestIntegerKt.kt:53-63 | the text of an integer: never empty, and it starts with `-` exactly when the integer is negative |
| IntegerTests.DecimalEndsInDigit | src/test/kotlin/com/jsoniter/TestIntegerKt.kt:53-63 | the text of an integer ends in a digit |
| IntegerTests.ParsesWholeDecimal | src/test/kotlin/com/jsoniter/TestIntegerKt.kt:190-212 | reading the whole text of `v` yields `v` with `head` on the input length exactly when `v` fits, and otherwise overflows without moving |
| IntegerTests.DeserializesDecimal | src/main/kotlin/com/jsoniter/JsonIterator.kt:469-486 | top-level decoding of the text of `v` followed by whitespace gives `v` when it fits and an overflow otherwise |
| IntegerTests.DeserializesExactDecimal | src/test/kotlin/com/jsoniter/TestIntegerKt.kt:66-72 | the same for exactly the text of `v` |
| IntegerTests.DeserializesShort | src/main/kotlin/com/jsoniter/JsonIterator.kt:128-135 | a top-level `short` decodes exactly when it fits 16 bits; a 32-bit value outside that is a short overflow; past 32 bits it is a number overflow |
| IntegerTests.TrailingGarbageRefused | src/main/kotlin/com/jsoniter/JsonIterator.kt:476-478 | an in-range number followed by a byte that is neither a digit nor whitespace is trailing garbage, reported where the number ended |
| IntegerTests.PositiveNegativeInt | src/test/kotlin/com/jsoniter/TestIntegerKt.kt:26-57 | each tested 32-bit value reads back from its text, with `head` at the end |
| IntegerTests.PositiveNegativeLong | src/test/kotlin/com/jsoniter/TestIntegerKt.kt:39-64 | each tested 64-bit value reads back from its text, with `head` at the end |
| IntegerTests.AppendedZeroRefused | src/test/kotlin/com/jsoniter/TestIntegerKt.kt:73-112 | appending `0` to a non-zero number whose tenfold does not fit is an overflow |
| IntegerTests.OnePastMaximumRefused | src/test/kotlin/com/jsoniter/TestIntegerKt.kt:66-95 | `2147483648` as an `Int` and `9223372036854775808` as a `Long` are refused |
| IntegerTests.LargeIntRefused | src/test/kotlin/com/jsoniter/TestIntegerKt.kt:73-90 | for every `i` in `[300000000, 2000000000)`, not only the tested steps, `i` and `-i` with a `0` appended overflow as `Int` |
| IntegerTests.LargeLongRefused | src/test/kotlin/com/jsoniter/TestIntegerKt.kt:97-112 | for every `i` in `[10^18, 9*10^18)`, `i` and `-i` with a `0` appended overflow as `Long` |
| IntegerTests.LeadingZeroDeserialize | src/test/kotlin/com/jsoniter/TestIntegerKt.kt:133-158 | `0` followed by any digits is refused with a leading-zero error at position 0, at either width |
| IntegerTests.LeadingZeroVectors | src/test/kotlin/com/jsoniter/TestIntegerKt.kt:133-158 | `0` decodes to 0 at both widths; `01`, `02147483647` and `09223372036854775807` are refused |
| IntegerTests.ParseInt | src/test/kotlin/com/jsoniter/TestIntegerKt.kt:190-200 | a fresh iterator over the input plus one `readInt` is the 32-bit transition; on the text of a value it yields that value with `head` at the input's length exactly when the value fits |
| IntegerTests.ParseLong | src/test/kotlin/com/jsoniter/TestIntegerKt.kt:202-212 | the same for `readLong` |

## Left out

- Streaming input (`parse(InputStream, bufSize)`, `reset(InputStream)`, refilling, `close`): the model covers fixed buffers only. Streaming needs I/O.
- Binding and configuration (`read(Type)` through code generation, `Config`, decoding modes, `existingObject`, the iterator pool): `Iterator.JsonIterator.Read` stands for the generated decoder of `Int`, `Long`, `Short` and `Boolean` only. Pooling becomes a fresh iterator.
- The string, array, object, float, double, big-number, `Any` and skip reads, the generic `read()`, and `currentBuffer`: these are outside the modelled core. Floating point and arbitrary precision are not modelled.
- `parse(String)` and the `String` overloads of `deserialize` encode their input with `toByteArray()`; the model starts from the bytes. Every input of the integer test suite is ASCII, so `Decimal(v)` is its encoding and the string's length, which the suite compares with `head`, is its byte length.
- Message text of errors: an error keeps its kind, `head` and peek window (start and size). The formatted string and the copy of the whole buffer are not modelled.
- `IterImpl` and `IterImplNumber` are not part of this model. The model assumes the following about them:
  - `nextToken` skips space, tab, LF and CR, returns the next byte, and fails with premature end at `tail` without moving `head`.
  - `skipFixedBytes(n)` fails with premature end when fewer than `n` bytes remain, instead of letting `head` run past `tail`.
  - The integer decoder skips the same whitespace and reads an optional `-` and at least one digit. `0` followed by a digit is a leading-zero error. It accumulates negatively with the overflow thresholds `MIN_VALUE / 10` and 8, stops at the first non-digit, and leaves `head` unchanged on failure.
  - A fixed-buffer `nextToken` that reads past `tail` until the array ends gives the same result inside `deserialize`, because only whitespace follows the trimmed window there.
- Iterator.JsonIterator.ReadNull and the other reads require `Valid()` (`0 <= head <= tail <= buf.size`). `reset(buf, head, tail)` and `parse(buf, head, tail)` accept any cursors and the model keeps that, but reads on sessions that do not satisfy `Valid()` are not modelled.
- Iterator.JsonIterator.ReportError states its window bounds only on valid sessions. `Errors.PeekWindowInBuffer` covers `head` past `tail`. When `head > tail + 10` the size is negative, and the JVM string constructor would throw; that is not modelled beyond the size.
- Iterator.JsonIterator.ReadShort returns an unbounded `int` rather than a 16-bit `short`. The range check before narrowing is modelled, and the narrowing itself is the identity on values that pass it.
- Errors.PeekWindow and Reads.SkipFixedBytes: the cursors are unbounded integers, and the 32-bit wrap-around of `head - 10` in `reportError` and of `head + n` in `skipFixedBytes` is not modelled. It is reachable only through unchecked cursors passed to `reset(buf, head, tail)`, `parse(buf, head, tail)`, `reset(slice)` or `parse(slice)`, for instance a `head` near `Int.MIN_VALUE`.
- `whatIsNext` on a byte of `0x80` or more throws an array index exception on the JVM. The model reports it as its own error kind, and the catch in `deserialize` that turns it into "premature end" is not modelled, since the modelled typed reads never index the table.
- `test_char`, `test_byte`, `test_max_int` (an array of ints), `testBigInteger` and the `Any` tests exercise readers outside this model.
