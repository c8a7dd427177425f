/** The 32/64-bit decimal integer decoder behind `readInt` and `readLong`. */
module Integers {
  import opened Bytes
  import opened Errors
  import opened Tokens

  /** A JVM `long`: the accumulator of the decoder. */
  newtype int64 = x: int | -0x8000_0000_0000_0000 <= x < 0x8000_0000_0000_0000

  datatype Width = Int32 | Int64

  function MinValue(w: Width): int {
    match w
    case Int32 => -0x8000_0000
    case Int64 => -0x8000_0000_0000_0000
  }

  function MaxValue(w: Width): int {
    -MinValue(w) - 1
  }

  predicate InRange(v: int, w: Width) {
    MinValue(w) <= v <= MaxValue(w)
  }

  /** The largest magnitude a literal may have: `-MIN_VALUE` after a minus sign, `MAX_VALUE` otherwise. */
  function Limit(w: Width, negative: bool): nat {
    if negative then -MinValue(w) else MaxValue(w)
  }

  /** Overflow thresholds of the negative accumulator: `MIN_VALUE / 10` truncated toward zero, and
      the last digit allowed when the accumulator sits exactly on it. */
  function MultMin(w: Width): (m: int64)
    ensures m as int * 10 - MAX_LAST_DIGIT as int == MinValue(w)
  {
    match w
    case Int32 => -214748364
    case Int64 => -922337203685477580
  }

  const MAX_LAST_DIGIT: int64 := 8

  /** Every byte of `b[i..j)` is a decimal digit. */
  ghost predicate DigitsAt(b: seq<byte>, i: int, j: int) {
    0 <= i <= j <= |b| && forall k :: i <= k < j ==> IsDigit(b[k])
  }

  /** The number the digits `b[i..j)` denote, most significant digit first. */
  function ValueAt(b: seq<byte>, i: int, j: int): nat
    requires DigitsAt(b, i, j)
    decreases j - i
  {
    if j == i then 0 else 10 * ValueAt(b, i, j - 1) + DigitOf(b[j - 1])
  }

  /** End of the maximal run of digits starting at `i`. */
  function DigitRunEnd(b: seq<byte>, i: int, tail: int): (e: int)
    requires 0 <= i <= tail <= |b|
    ensures i <= e <= tail
    ensures DigitsAt(b, i, e)
    ensures e < tail ==> !IsDigit(b[e])
    decreases tail - i
  {
    if i == tail || !IsDigit(b[i]) then i else DigitRunEnd(b, i + 1, tail)
  }

  /** A decoded literal and the index of the first byte after it. */
  datatype Parsed = Parsed(value: int, end: int)

  /** What the decoder does with the window `[head, tail)`: skip whitespace, read an optional minus
      sign, then the digits. */
  function ParseInteger(b: seq<byte>, head: int, tail: int, w: Width): (r: Result<Parsed, ErrorKind>)
    requires 0 <= head <= tail <= |b|
    ensures r.Ok? ==> InRange(r.value.value, w)
    ensures r.Ok? ==> head < r.value.end <= tail
    ensures r.Ok? ==> r.value.end == tail || !IsDigit(b[r.value.end])
  {
    var p := SkipWhitespace(b, head, tail);
    if p == tail then Err(PrematureEnd)
    else
      var negative := b[p] == MINUS;
      ParseDigits(b, if negative then p + 1 else p, tail, w, negative)
  }

  /** The digits of a literal from `start`: a maximal run of digits that must not start with a
      redundant zero and whose magnitude must fit the target width for the sign already read. */
  function ParseDigits(b: seq<byte>, start: int, tail: int, w: Width, negative: bool): (r: Result<Parsed, ErrorKind>)
    requires 0 <= start <= tail <= |b|
    ensures r.Ok? ==> InRange(r.value.value, w)
    ensures r.Ok? ==> start < r.value.end <= tail && IsDigit(b[r.value.end - 1])
    ensures r.Ok? ==> r.value.end == tail || !IsDigit(b[r.value.end])
  {
    if start == tail then Err(PrematureEnd)
    else if !IsDigit(b[start]) then Err(InvalidNumber)
    else
      var end := DigitRunEnd(b, start, tail);
      if b[start] == ZERO && end > start + 1 then Err(LeadingZero)
      else
        var magnitude := ValueAt(b, start, end);
        if magnitude > Limit(w, negative) then Err(NumberOverflow)
        else Ok(Parsed(if negative then -(magnitude as int) else magnitude, end))
  }

  // ---------------------------------------------------------------------------------------------
  // Facts about digit runs

  lemma {:induction false} ValuePrefix(b: seq<byte>, i: int, k: int, j: int)
    requires DigitsAt(b, i, j) && i <= k <= j
    ensures ValueAt(b, i, k) <= ValueAt(b, i, j)
    decreases j - k
  {
    if k < j {
      ValuePrefix(b, i, k, j - 1);
    }
  }

  /** The value of a run depends only on its digits. */
  lemma {:induction false} ValueShift(b: seq<byte>, i: int, j: int, c: seq<byte>, m: int)
    requires DigitsAt(b, i, j) && 0 <= m && m + (j - i) <= |c|
    requires forall k :: i <= k < j ==> c[m + (k - i)] == b[k]
    ensures DigitsAt(c, m, m + (j - i)) && ValueAt(c, m, m + (j - i)) == ValueAt(b, i, j)
    decreases j - i
  {
    if j > i {
      ValueShift(b, i, j - 1, c, m);
      assert c[m + (j - 1 - i)] == b[j - 1];
    }
  }

  lemma DigitRunEndIs(b: seq<byte>, i: int, tail: int, e: int)
    requires DigitsAt(b, i, e) && e <= tail <= |b|
    requires e == tail || !IsDigit(b[e])
    ensures DigitRunEnd(b, i, tail) == e
  {
  }

  lemma DigitRunEndAtLeast(b: seq<byte>, i: int, tail: int, e: int)
    requires DigitsAt(b, i, e) && e <= tail <= |b|
    ensures DigitRunEnd(b, i, tail) >= e
  {
  }

  /** Once the digits read so far denote more than the limit, the literal overflows. */
  lemma OverflowPersists(b: seq<byte>, start: int, i: int, tail: int, w: Width, negative: bool)
    requires DigitsAt(b, start, i) && start < i <= tail <= |b| && b[start] != ZERO
    requires ValueAt(b, start, i) > Limit(w, negative)
    ensures ParseDigits(b, start, tail, w, negative) == Err(NumberOverflow)
  {
    var end := DigitRunEnd(b, start, tail);
    DigitRunEndAtLeast(b, start, tail, i);
    ValuePrefix(b, start, i, end);
  }

  // ---------------------------------------------------------------------------------------------
  // The decoding loop

  /** The decoder over `buf[head..tail)`. */
  method ScanInteger(buf: array<byte>, head: int, tail: int, w: Width) returns (r: Result<Parsed, ErrorKind>)
    requires 0 <= head <= tail <= buf.Length
    ensures r == ParseInteger(buf[..], head, tail, w)
  {
    var i := FindToken(buf, head, tail);
    if i == tail {
      return Err(PrematureEnd);
    }
    var negative := buf[i] == MINUS;
    r := ScanDigits(buf, if negative then i + 1 else i, tail, w, negative);
  }

  /** The digit loop. Digits are accumulated negatively, so that `MIN_VALUE` needs no positive
      counterpart, and the overflow test runs before each step, so the accumulator never leaves
      the target width. */
  method ScanDigits(buf: array<byte>, start: int, tail: int, w: Width, negative: bool)
    returns (r: Result<Parsed, ErrorKind>)
    requires 0 <= start <= tail <= buf.Length
    ensures r == ParseDigits(buf[..], start, tail, w, negative)
  {
    ghost var b := buf[..];
    if start == tail {
      return Err(PrematureEnd);
    }
    var c := buf[start];
    if !IsDigit(c) {
      return Err(InvalidNumber);
    }
    var i := start + 1;
    if c == ZERO {
      if i < tail && IsDigit(buf[i]) {
        DigitRunEndAtLeast(b, start, tail, i + 1);
        return Err(LeadingZero);
      }
      DigitRunEndIs(b, start, tail, i);
      assert ValueAt(b, start, i) == 10 * ValueAt(b, start, start) + DigitOf(c);
      return Ok(Parsed(0, i));
    }
    var multmin := MultMin(w);
    var acc: int64 := -(DigitOf(c) as int64);
    while i < tail && IsDigit(buf[i])
      invariant start < i <= tail
      invariant DigitsAt(b, start, i) && acc as int == -(ValueAt(b, start, i) as int)
      invariant MinValue(w) <= acc as int < 0
    {
      var d := DigitOf(buf[i]) as int64;
      assert ValueAt(b, start, i + 1) == 10 * ValueAt(b, start, i) + d as int;
      if acc < multmin || (acc == multmin && d > MAX_LAST_DIGIT) {
        OverflowPersists(b, start, i + 1, tail, w, negative);
        return Err(NumberOverflow);
      }
      acc := acc * 10 - d;
      i := i + 1;
    }
    DigitRunEndIs(b, start, tail, i);
    if negative {
      return Ok(Parsed(acc as int, i));
    }
    if acc as int == MinValue(w) {
      return Err(NumberOverflow);
    }
    return Ok(Parsed(-acc as int, i));
  }

  // ---------------------------------------------------------------------------------------------
  // The decimal text of an integer, as `Integer.toString` and `Long.toString` write it

  function Digits(n: nat): (s: seq<byte>)
    ensures |s| >= 1 && IsDigit(s[0])
    decreases n
  {
    if n < 10 then [DigitByte(n)] else Digits(n / 10) + [DigitByte(n % 10)]
  }

  function Decimal(v: int): (s: seq<byte>)
    ensures |s| >= 1 && (s[0] == MINUS <==> v < 0)
  {
    if v < 0 then [MINUS] + Digits(-v) else Digits(v)
  }

  lemma {:induction false} DigitsDenote(n: nat)
    ensures |Digits(n)| >= 1 && DigitsAt(Digits(n), 0, |Digits(n)|)
    ensures ValueAt(Digits(n), 0, |Digits(n)|) == n
    ensures Digits(n)[0] == ZERO ==> n == 0
    decreases n
  {
    if n >= 10 {
      var s := Digits(n / 10);
      DigitsDenote(n / 10);
      ValueShift(s, 0, |s|, Digits(n), 0);
    }
  }

  /** A maximal digit run without a redundant leading zero decodes to its value, or overflows. */
  lemma ParsesRun(b: seq<byte>, start: int, end: int, tail: int, w: Width, negative: bool)
    requires DigitsAt(b, start, end) && start < end <= tail <= |b|
    requires end == tail || !IsDigit(b[end])
    requires b[start] == ZERO ==> end == start + 1
    ensures var m := ValueAt(b, start, end);
            ParseDigits(b, start, tail, w, negative) ==
              if m > Limit(w, negative) then Err(NumberOverflow)
              else Ok(Parsed(if negative then -(m as int) else m, end))
  {
    DigitRunEndIs(b, start, tail, end);
  }

  /** A digit string `ds` without a redundant leading zero, placed at `start` and followed by the window
      end or a non-digit, decodes to the number it denotes. */
  lemma ParsesDigits(b: seq<byte>, start: int, tail: int, ds: seq<byte>, w: Width, negative: bool)
    requires 0 <= start && start + |ds| <= tail <= |b| && |ds| >= 1
    requires DigitsAt(ds, 0, |ds|) && (ds[0] == ZERO ==> |ds| == 1)
    requires b[start..start + |ds|] == ds
    requires start + |ds| == tail || !IsDigit(b[start + |ds|])
    ensures var n := ValueAt(ds, 0, |ds|);
            ParseDigits(b, start, tail, w, negative) ==
              if n > Limit(w, negative) then Err(NumberOverflow)
              else Ok(Parsed(if negative then -(n as int) else n, start + |ds|))
  {
    forall k | start <= k < start + |ds| ensures b[k] == ds[k - start] {
      assert b[k] == b[start..start + |ds|][k - start];
    }
    ValueShift(ds, 0, |ds|, b, start);
    ParsesRun(b, start, start + |ds|, tail, w, negative);
  }

  /** A window holding exactly the decimal text of `v` (followed by the window end or a non-digit)
      decodes to `v` when `v` fits the width, ending just past the text, and overflows otherwise. */
  lemma ParsesDecimal(b: seq<byte>, head: int, tail: int, v: int, w: Width)
    requires 0 <= head && head + |Decimal(v)| <= tail <= |b|
    requires b[head..head + |Decimal(v)|] == Decimal(v)
    requires head + |Decimal(v)| == tail || !IsDigit(b[head + |Decimal(v)|])
    ensures ParseInteger(b, head, tail, w) ==
              if InRange(v, w) then Ok(Parsed(v, head + |Decimal(v)|)) else Err(NumberOverflow)
  {
    var end := head + |Decimal(v)|;
    DigitsDenote(if v < 0 then -v else v);
    assert b[head] == Decimal(v)[0];
    assert SkipWhitespace(b, head, tail) == head;
    if v < 0 {
      assert b[head + 1..end] == b[head..end][1..];
      ParsesDigits(b, head + 1, tail, Digits(-v), w, true);
    } else {
      ParsesDigits(b, head, tail, Digits(v), w, false);
    }
  }

  /** A literal that starts with `0` followed by another digit is refused, whatever follows. */
  lemma LeadingZeroRefused(b: seq<byte>, head: int, tail: int, w: Width)
    requires 0 <= head && head + 2 <= tail <= |b|
    requires b[head] == ZERO && IsDigit(b[head + 1])
    ensures ParseInteger(b, head, tail, w) == Err(LeadingZero)
  {
    assert SkipWhitespace(b, head, tail) == head;
    DigitRunEndAtLeast(b, head, tail, head + 2);
  }

  /** Appending a `0` to the text of a non-zero integer gives the text of ten times it. */
  lemma DecimalTimesTen(v: int)
    requires v != 0
    ensures Decimal(v) + [ZERO] == Decimal(10 * v)
  {
    var n: nat := if v < 0 then -v else v;
    assert Digits(10 * n) == Digits(n) + [ZERO];
  }
}
