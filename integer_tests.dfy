/** The contract of `readInt`, `readLong` and top-level integer decoding as the integer test suite of
    the repository pins it down, stated for all inputs of the shapes it exercises. The decimal text of
    `v` is `Decimal(v)`, what `Integer.toString` and `Long.toString` produce. */
module IntegerTests {
  import opened Bytes
  import opened Errors
  import opened Tokens
  import opened Integers
  import Reads
  import Iterator

  /** The typed read a top-level decode of an `Int` or a `Long` asks for. */
  function IntegerTarget(w: Width): Reads.Target {
    match w
    case Int32 => Reads.IntTarget
    case Int64 => Reads.LongTarget
  }

  lemma DecimalEndsInDigit(v: int)
    ensures |Decimal(v)| >= 1 && IsDigit(Decimal(v)[|Decimal(v)| - 1])
  {
    DigitsDenote(if v < 0 then -v else v);
  }

  /** `parseInt` / `parseLong` of the test suite: the whole text of `v` is the window; the read
      yields `v` and leaves `head` at the end of the text, or overflows without moving. */
  lemma ParsesWholeDecimal(v: int, w: Width)
    ensures var n := |Decimal(v)|;
            Reads.ReadInteger(Decimal(v), 0, n, w) ==
              if InRange(v, w) then Reads.Step(Ok(v), n) else Reads.Step(Err(Report(NumberOverflow, 0, n)), 0)
  {
    ParsesDecimal(Decimal(v), 0, |Decimal(v)|, v, w);
  }

  /** Top-level decoding of an input that is the text of `v` followed by whitespace only. */
  lemma DeserializesDecimal(input: seq<byte>, v: int, w: Width)
    requires |Decimal(v)| <= |input| && input[..|Decimal(v)|] == Decimal(v)
    requires AllWhitespace(input, |Decimal(v)|, |input|)
    ensures Reads.Deserialize(input, IntegerTarget(w)) ==
              if InRange(v, w) then Ok(Reads.IntValue(v)) else Err(Report(NumberOverflow, 0, |Decimal(v)|))
  {
    var n := |Decimal(v)|;
    DecimalEndsInDigit(v);
    assert input[n - 1] == input[..n][n - 1];
    Reads.LastNotSpacePosIs(input, n);
    assert input[0..n] == Decimal(v);
    ParsesDecimal(input, 0, n, v, w);
  }

  /** Top-level decoding of exactly the text of `v`. */
  lemma DeserializesExactDecimal(v: int, w: Width)
    ensures Reads.Deserialize(Decimal(v), IntegerTarget(w)) ==
              if InRange(v, w) then Ok(Reads.IntValue(v)) else Err(Report(NumberOverflow, 0, |Decimal(v)|))
  {
    DeserializesDecimal(Decimal(v), v, w);
  }

  /** A `short` decodes exactly when it fits 16 bits; a value that fits 32 bits but not 16 is a
      short overflow reported at the end of the text. */
  lemma DeserializesShort(input: seq<byte>, v: int)
    requires |Decimal(v)| <= |input| && input[..|Decimal(v)|] == Decimal(v)
    requires AllWhitespace(input, |Decimal(v)|, |input|)
    ensures var n := |Decimal(v)|;
            Reads.Deserialize(input, Reads.ShortTarget) ==
              if Reads.SHORT_MIN_VALUE <= v <= Reads.SHORT_MAX_VALUE then Ok(Reads.IntValue(v))
              else if InRange(v, Int32) then Err(Report(ShortOverflow, n, n))
              else Err(Report(NumberOverflow, 0, n))
  {
    var n := |Decimal(v)|;
    DecimalEndsInDigit(v);
    assert input[n - 1] == input[..n][n - 1];
    Reads.LastNotSpacePosIs(input, n);
    assert input[0..n] == Decimal(v);
    ParsesDecimal(input, 0, n, v, Int32);
  }

  /** A byte that is neither whitespace nor a digit right after the number is trailing garbage,
      reported where the number ended. */
  lemma TrailingGarbageRefused(input: seq<byte>, v: int, w: Width)
    requires |Decimal(v)| < |input| && input[..|Decimal(v)|] == Decimal(v)
    requires !IsWhitespace(input[|Decimal(v)|]) && !IsDigit(input[|Decimal(v)|])
    requires AllWhitespace(input, |Decimal(v)| + 1, |input|)
    ensures var n := |Decimal(v)|;
            Reads.Deserialize(input, IntegerTarget(w)) ==
              if InRange(v, w) then Err(Report(TrailingGarbage, n, n + 1))
              else Err(Report(NumberOverflow, 0, n + 1))
  {
    var n := |Decimal(v)|;
    Reads.LastNotSpacePosIs(input, n + 1);
    assert input[0..n] == Decimal(v);
    ParsesDecimal(input, 0, n + 1, v, w);
  }

  /** `test_positive_negative_int` and `test_max_min_int`. */
  lemma PositiveNegativeInt()
    ensures forall v | v in {0, 4321, 54321, 654321, 7654321, 87654321, 987654321, 2147483647, 2147483646,
                             -4321, -2147483647, -2147483648} ::
              Reads.ReadInteger(Decimal(v), 0, |Decimal(v)|, Int32) == Reads.Step(Ok(v), |Decimal(v)|)
  {
    forall v | v in {0, 4321, 54321, 654321, 7654321, 87654321, 987654321, 2147483647, 2147483646,
                     -4321, -2147483647, -2147483648}
      ensures Reads.ReadInteger(Decimal(v), 0, |Decimal(v)|, Int32) == Reads.Step(Ok(v), |Decimal(v)|)
    {
      ParsesWholeDecimal(v, Int32);
    }
  }

  /** `test_positive_negative_long` and `test_max_min_long`. */
  lemma PositiveNegativeLong()
    ensures forall v | v in {0, 4321, 54321, 654321, 7654321, 87654321, 987654321, 9223372036854775807,
                             9223372036854775806, -4321, -9223372036854775807, -9223372036854775808} ::
              Reads.ReadInteger(Decimal(v), 0, |Decimal(v)|, Int64) == Reads.Step(Ok(v), |Decimal(v)|)
  {
    forall v | v in {0, 4321, 54321, 654321, 7654321, 87654321, 987654321, 9223372036854775807,
                     9223372036854775806, -4321, -9223372036854775807, -9223372036854775808}
      ensures Reads.ReadInteger(Decimal(v), 0, |Decimal(v)|, Int64) == Reads.Step(Ok(v), |Decimal(v)|)
    {
      ParsesWholeDecimal(v, Int64);
    }
  }

  /** Appending a `0` to the text of a non-zero `v` whose tenfold does not fit is an overflow. */
  lemma AppendedZeroRefused(v: int, w: Width)
    requires v != 0 && !InRange(10 * v, w)
    ensures Reads.Deserialize(Decimal(v) + [ZERO], IntegerTarget(w)) ==
              Err(Report(NumberOverflow, 0, |Decimal(v)| + 1))
  {
    DecimalTimesTen(v);
    DeserializesExactDecimal(10 * v, w);
  }

  /** `test_large_number`: one past the maximum overflows, at either width. */
  lemma OnePastMaximumRefused()
    ensures Reads.Deserialize(Decimal(2147483648), Reads.IntTarget).Err?
    ensures Reads.Deserialize(Decimal(9223372036854775808), Reads.LongTarget).Err?
  {
    DeserializesExactDecimal(2147483648, Int32);
    DeserializesExactDecimal(9223372036854775808, Int64);
  }

  /** `test_large_number`, 32-bit loop: every `i` of the tested range with a `0` appended overflows,
      positive or negative. */
  lemma LargeIntRefused(i: int)
    requires 300000000 <= i < 2000000000
    ensures Reads.Deserialize(Decimal(i) + [ZERO], Reads.IntTarget) == Err(Report(NumberOverflow, 0, |Decimal(i)| + 1))
    ensures Reads.Deserialize(Decimal(-i) + [ZERO], Reads.IntTarget) == Err(Report(NumberOverflow, 0, |Decimal(-i)| + 1))
  {
    AppendedZeroRefused(i, Int32);
    AppendedZeroRefused(-i, Int32);
  }

  /** `test_large_number`, 64-bit loop. */
  lemma LargeLongRefused(i: int)
    requires 1000000000000000000 <= i < 9000000000000000000
    ensures Reads.Deserialize(Decimal(i) + [ZERO], Reads.LongTarget) == Err(Report(NumberOverflow, 0, |Decimal(i)| + 1))
    ensures Reads.Deserialize(Decimal(-i) + [ZERO], Reads.LongTarget) == Err(Report(NumberOverflow, 0, |Decimal(-i)| + 1))
  {
    AppendedZeroRefused(i, Int64);
    AppendedZeroRefused(-i, Int64);
  }

  /** A `0` followed by any further digits is refused, reported at the start of the input. */
  lemma LeadingZeroDeserialize(ds: seq<byte>, w: Width)
    requires |ds| >= 1 && DigitsAt(ds, 0, |ds|)
    ensures Reads.Deserialize([ZERO] + ds, IntegerTarget(w)) == Err(Report(LeadingZero, 0, |ds| + 1))
  {
    var input := [ZERO] + ds;
    assert input[|input| - 1] == ds[|ds| - 1];
    Reads.LastNotSpacePosIs(input, |input|);
    LeadingZeroRefused(input, 0, |input|, w);
  }

  /** `test_leading_zero`. */
  lemma LeadingZeroVectors()
    ensures Reads.Deserialize(Decimal(0), Reads.IntTarget) == Ok(Reads.IntValue(0))
    ensures Reads.Deserialize(Decimal(0), Reads.LongTarget) == Ok(Reads.IntValue(0))
    ensures Reads.Deserialize([ZERO] + Decimal(1), Reads.IntTarget).Err?
    ensures Reads.Deserialize([ZERO] + Decimal(2147483647), Reads.IntTarget).Err?
    ensures Reads.Deserialize([ZERO] + Decimal(1), Reads.LongTarget).Err?
    ensures Reads.Deserialize([ZERO] + Decimal(9223372036854775807), Reads.LongTarget).Err?
  {
    DeserializesExactDecimal(0, Int32);
    DeserializesExactDecimal(0, Int64);
    DigitsDenote(1);
    DigitsDenote(2147483647);
    DigitsDenote(9223372036854775807);
    LeadingZeroDeserialize(Decimal(1), Int32);
    LeadingZeroDeserialize(Decimal(2147483647), Int32);
    LeadingZeroDeserialize(Decimal(1), Int64);
    LeadingZeroDeserialize(Decimal(9223372036854775807), Int64);
  }

  /** `parseInt` of the test suite: a fresh iterator over the whole input, one `readInt`, and the
      position of `head` afterwards. */
  method ParseInt(input: array<byte>) returns (r: Result<int, Error>, head: int)
    ensures Reads.Step(r, head) == Reads.ReadInteger(input[..], 0, input.Length, Int32)
    ensures forall v :: input[..] == Decimal(v) ==> (InRange(v, Int32) <==> r == Ok(v) && head == input.Length)
  {
    var iter := new Iterator.JsonIterator.Parse(input);
    r := iter.ReadInt();
    head := iter.head;
    forall v | input[..] == Decimal(v)
      ensures InRange(v, Int32) <==> r == Ok(v) && head == input.Length
    {
      ParsesWholeDecimal(v, Int32);
    }
  }

  /** `parseLong` of the test suite. */
  method ParseLong(input: array<byte>) returns (r: Result<int, Error>, head: int)
    ensures Reads.Step(r, head) == Reads.ReadInteger(input[..], 0, input.Length, Int64)
    ensures forall v :: input[..] == Decimal(v) ==> (InRange(v, Int64) <==> r == Ok(v) && head == input.Length)
  {
    var iter := new Iterator.JsonIterator.Parse(input);
    r := iter.ReadLong();
    head := iter.head;
    forall v | input[..] == Decimal(v)
      ensures InRange(v, Int64) <==> r == Ok(v) && head == input.Length
    {
      ParsesWholeDecimal(v, Int64);
    }
  }
}
