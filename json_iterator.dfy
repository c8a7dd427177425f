/** `JsonIterator` over a fixed buffer: the byte array `buf` and the two cursors `head` (next byte to
    read) and `tail` (end of the readable window). Every read is proved to move the cursor exactly as
    the corresponding transition of module `Reads` says. */
module Iterator {
  import opened Bytes
  import opened Errors
  import opened Tokens
  import opened Integers
  import opened ValueTypes
  import Reads

  /** `Slice`: the window `[head, tail)` of a byte array. */
  datatype Slice = Slice(data: array<byte>, head: int, tail: int)

  class JsonIterator {
    var buf: array<byte>
    var head: int
    var tail: int

    /** The window lies inside the buffer; the reads are defined on such sessions only. */
    predicate Valid()
      reads this
    {
      0 <= head <= tail <= buf.Length
    }

    /** The pooled, empty iterator: an empty buffer and both cursors at 0. */
    constructor ()
      ensures Valid() && buf.Length == 0 && head == 0 && tail == 0
    {
      buf := new byte[0];
      head := 0;
      tail := 0;
    }

    /** `parse(buf)`: the whole array is the window. */
    constructor Parse(input: array<byte>)
      ensures Valid() && buf == input && head == 0 && tail == input.Length
    {
      buf := input;
      head := 0;
      tail := input.Length;
    }

    /** `parse(buf, head, tail)`: the cursors are taken as given, unchecked. */
    constructor ParseRange(input: array<byte>, h: int, t: int)
      ensures buf == input && head == h && tail == t
      ensures Valid() <==> 0 <= h <= t <= input.Length
    {
      buf := input;
      head := h;
      tail := t;
    }

    /** `parse(slice)`. */
    constructor ParseSlice(s: Slice)
      ensures buf == s.data && head == s.head && tail == s.tail
      ensures Valid() <==> 0 <= s.head <= s.tail <= s.data.Length
    {
      buf := s.data;
      head := s.head;
      tail := s.tail;
    }

    /** `reset(buf)`: reuse the iterator for a whole new array. */
    method Reset(input: array<byte>)
      modifies this
      ensures Valid() && buf == input && head == 0 && tail == input.Length
    {
      buf := input;
      head := 0;
      tail := input.Length;
    }

    /** `reset(buf, head, tail)`: the cursors are taken as given, unchecked. */
    method ResetRange(input: array<byte>, h: int, t: int)
      modifies this
      ensures buf == input && head == h && tail == t
      ensures Valid() <==> 0 <= h <= t <= input.Length
    {
      buf := input;
      head := h;
      tail := t;
    }

    /** `reset(slice)`. */
    method ResetSlice(s: Slice)
      modifies this
      ensures buf == s.data && head == s.head && tail == s.tail
      ensures Valid() <==> 0 <= s.head <= s.tail <= s.data.Length
    {
      buf := s.data;
      head := s.head;
      tail := s.tail;
    }

    /** `reportError`: the error at the current cursors. On a valid session its peek window is a
        run of at most ten bytes of the buffer that ends at `head`. */
    function ReportError(kind: ErrorKind): (e: Error)
      reads this
      ensures e.kind == kind && e.head == head
      ensures Valid() ==> 0 <= e.peek.start && e.peek.start + e.peek.size == head <= buf.Length
      ensures Valid() ==> 0 <= e.peek.size <= 10
    {
      Report(kind, head, tail)
    }

    /** `unreadByte`: step `head` back over the byte just read; refused at the start of the buffer. */
    method UnreadByte() returns (r: Result<(), Error>)
      modifies this`head
      ensures old(head) == 0 ==> r == Err(Report(UnreadUnderflow, 0, tail)) && head == 0
      ensures old(head) != 0 ==> r == Ok(()) && head == old(head) - 1
    {
      if head == 0 {
        return Err(ReportError(UnreadUnderflow));
      }
      head := head - 1;
      return Ok(());
    }

    /** `IterImpl.nextToken` on a fixed buffer. */
    method NextToken() returns (r: Result<byte, Error>)
      requires Valid()
      modifies this`head
      ensures Valid()
      ensures Reads.Step(r, head) == Reads.NextToken(buf[..], old(head), tail)
    {
      var p := FindToken(buf, head, tail);
      if p == tail {
        return Err(ReportError(PrematureEnd));
      }
      r := Ok(buf[p]);
      head := p + 1;
    }

    /** `IterImpl.skipFixedBytes`, refused when fewer than `n` bytes remain in the window. */
    method SkipFixedBytes(n: nat) returns (r: Result<(), Error>)
      requires Valid()
      modifies this`head
      ensures Valid()
      ensures Reads.Step(r, head) == Reads.SkipFixedBytes(old(head), tail, n)
    {
      if head + n <= tail {
        head := head + n;
        return Ok(());
      }
      return Err(ReportError(PrematureEnd));
    }

    /** `readNull`: consume `null` and answer true, or put the token back and answer false. */
    method ReadNull() returns (r: Result<bool, Error>)
      requires Valid()
      modifies this`head
      ensures Valid()
      ensures Reads.Step(r, head) == Reads.ReadNull(buf[..], old(head), tail)
    {
      var c := NextToken();
      if c.Err? {
        return Err(c.error);
      }
      if c.value != LOWER_N {
        var u := UnreadByte();
        assert u.Ok?;  // `NextToken` has just moved `head` past the token, so it is at least 1
        return Ok(false);
      }
      var k := SkipFixedBytes(3);
      if k.Err? {
        return Err(k.error);
      }
      return Ok(true);
    }

    /** `readBoolean`: `t` starts `true`, `f` starts `false`, any other token is an error. */
    method ReadBoolean() returns (r: Result<bool, Error>)
      requires Valid()
      modifies this`head
      ensures Valid()
      ensures Reads.Step(r, head) == Reads.ReadBoolean(buf[..], old(head), tail)
    {
      var c := NextToken();
      if c.Err? {
        return Err(c.error);
      }
      if c.value == LOWER_T {
        var k := SkipFixedBytes(3);
        if k.Err? {
          return Err(k.error);
        }
        return Ok(true);
      }
      if c.value == LOWER_F {
        var k := SkipFixedBytes(4);
        if k.Err? {
          return Err(k.error);
        }
        return Ok(false);
      }
      return Err(ReportError(ExpectBoolean));
    }

    /** The integer decoder at width `w`; on success `head` moves past the last digit. */
    method ReadInteger(w: Width) returns (r: Result<int, Error>)
      requires Valid()
      modifies this`head
      ensures Valid()
      ensures Reads.Step(r, head) == Reads.ReadInteger(buf[..], old(head), tail, w)
    {
      var p := ScanInteger(buf, head, tail, w);
      match p
      case Ok(parsed) =>
        head := parsed.end;
        return Ok(parsed.value);
      case Err(k) =>
        return Err(ReportError(k));
    }

    /** `readInt`. */
    method ReadInt() returns (r: Result<int, Error>)
      requires Valid()
      modifies this`head
      ensures Valid()
      ensures Reads.Step(r, head) == Reads.ReadInteger(buf[..], old(head), tail, Int32)
    {
      r := ReadInteger(Int32);
    }

    /** `readLong`. */
    method ReadLong() returns (r: Result<int, Error>)
      requires Valid()
      modifies this`head
      ensures Valid()
      ensures Reads.Step(r, head) == Reads.ReadInteger(buf[..], old(head), tail, Int64)
    {
      r := ReadInteger(Int64);
    }

    /** `readShort`: the 32-bit read, refused when the value does not fit 16 bits. */
    method ReadShort() returns (r: Result<int, Error>)
      requires Valid()
      modifies this`head
      ensures Valid()
      ensures Reads.Step(r, head) == Reads.ReadShort(buf[..], old(head), tail)
    {
      r := ReadInt();
      if r.Ok? && !(Reads.SHORT_MIN_VALUE <= r.value <= Reads.SHORT_MAX_VALUE) {
        r := Err(ReportError(ShortOverflow));
      }
    }

    /** `whatIsNext`: the kind of the next value, looked up in the table, without consuming it. */
    method WhatIsNext(valueTypes: array<ValueType>) returns (r: Result<ValueType, Error>)
      requires Valid()
      requires valueTypes[..] == Table()
      modifies this`head
      ensures Valid()
      ensures Reads.Step(r, head) == Reads.WhatIsNext(buf[..], old(head), tail)
    {
      var c := NextToken();
      if c.Err? {
        return Err(c.error);
      }
      if c.value < 0 {
        return Err(ReportError(TableIndexOutOfBounds));
      }
      var u := UnreadByte();
      assert u.Ok?;  // `NextToken` has just moved `head` past the token, so it is at least 1
      return Ok(valueTypes[c.value]);
    }

    /** The typed read a top-level `deserialize` dispatches to. */
    method Read(target: Reads.Target) returns (r: Result<Reads.Value, Error>)
      requires Valid()
      modifies this`head
      ensures Valid()
      ensures Reads.Step(r, head) == Reads.ReadValue(buf[..], old(head), tail, target)
    {
      match target
      case IntTarget =>
        var v := ReadInt();
        r := if v.Ok? then Ok(Reads.IntValue(v.value)) else Err(v.error);
      case LongTarget =>
        var v := ReadLong();
        r := if v.Ok? then Ok(Reads.IntValue(v.value)) else Err(v.error);
      case ShortTarget =>
        var v := ReadShort();
        r := if v.Ok? then Ok(Reads.IntValue(v.value)) else Err(v.error);
      case BooleanTarget =>
        var v := ReadBoolean();
        r := if v.Ok? then Ok(Reads.BoolValue(v.value)) else Err(v.error);
    }
  }

  /** `findLastNotSpacePos`: scan from the end for the last byte that is not whitespace. */
  method FindLastNotSpacePos(input: array<byte>) returns (p: int)
    ensures p == Reads.LastNotSpacePos(input[..])
  {
    var i := input.Length;
    while i > 0
      invariant 0 <= i <= input.Length
      invariant AllWhitespace(input[..], i, input.Length)
    {
      if !IsWhitespace(input[i - 1]) {
        Reads.LastNotSpacePosIs(input[..], i);
        return i;
      }
      i := i - 1;
    }
    Reads.LastNotSpacePosIs(input[..], 0);
    return 0;
  }

  /** `deserialize(input, type)`: trim the trailing whitespace, read one value of the requested type
      from the trimmed window and refuse it unless it ends exactly at the window's end. */
  method Deserialize(input: array<byte>, target: Reads.Target) returns (r: Result<Reads.Value, Error>)
    ensures r == Reads.Deserialize(input[..], target)
  {
    var last := FindLastNotSpacePos(input);
    var iter := new JsonIterator();
    iter.ResetRange(input, 0, last);
    var v := iter.Read(target);
    if v.Err? {
      return Err(v.error);
    }
    if iter.head != last {
      return Err(iter.ReportError(TrailingGarbage));
    }
    return v;
  }
}
