/** The first-byte classification used by `whatIsNext`. */
module ValueTypes {
  import opened Bytes

  datatype ValueType = Invalid | String | Number | Null | Boolean | Array | Object

  /** Entry `i` of the 256-entry `valueTypes` table. */
  function Classify(i: int): (v: ValueType)
    requires 0 <= i < 256
    ensures v == Invalid <==> i !in {34, 45, 48, 49, 50, 51, 52, 53, 54, 55, 56, 57, 91, 102, 110, 116, 123}
  {
    if i == QUOTE then String
    else if i == MINUS || ZERO <= i <= NINE then Number
    else if i == LOWER_T || i == LOWER_F then Boolean
    else if i == LOWER_N then Null
    else if i == LEFT_BRACKET then Array
    else if i == LEFT_BRACE then Object
    else Invalid
  }

  /** Each value type is the class of exactly the bytes JSON starts such a value with. */
  lemma ClassifyTable(i: int)
    requires 0 <= i < 256
    ensures Classify(i) == String <==> i == '"' as int
    ensures Classify(i) == Number <==> i == '-' as int || '0' as int <= i <= '9' as int
    ensures Classify(i) == Boolean <==> i == 't' as int || i == 'f' as int
    ensures Classify(i) == Null <==> i == 'n' as int
    ensures Classify(i) == Array <==> i == '[' as int
    ensures Classify(i) == Object <==> i == '{' as int
  {
  }

  /** The table as the static initialiser leaves it. */
  function Table(): (s: seq<ValueType>)
    ensures |s| == 256 && forall i :: 0 <= i < 256 ==> s[i] == Classify(i)
  {
    seq(256, i requires 0 <= i < 256 => Classify(i))
  }

  /** The seventeen stores of the static initialiser, applied to `s`. */
  function Initialised(s: seq<ValueType>): seq<ValueType>
    requires |s| == 256
  {
    s[QUOTE := String][MINUS := Number]['0' as int := Number]['1' as int := Number]['2' as int := Number]['3' as int := Number]['4' as int := Number]['5' as int := Number]['6' as int := Number]['7' as int := Number]['8' as int := Number]['9' as int := Number][LOWER_T := Boolean][LOWER_F := Boolean][LOWER_N := Null][LEFT_BRACKET := Array][LEFT_BRACE := Object]
  }

  /** Writing the seventeen starting bytes over an all-INVALID table yields the table. */
  lemma InitialisedTable(s: seq<ValueType>)
    requires |s| == 256 && forall k :: 0 <= k < 256 ==> s[k] == Invalid
    ensures Initialised(s) == Table()
  {
    var u := Initialised(s);
    forall i | 0 <= i < 256 ensures u[i] == Classify(i) {
    }
  }

  /** The static initialiser of the table: every entry INVALID, then the seventeen starting bytes. */
  method BuildValueTypes() returns (t: array<ValueType>)
    ensures fresh(t) && t[..] == Table()
  {
    t := new ValueType[256];
    for i := 0 to 256
      invariant forall k :: 0 <= k < i ==> t[k] == Invalid
    {
      t[i] := Invalid;
    }
    ghost var s := t[..];
    InitialisedTable(s);
    t[QUOTE] := String;
    t[MINUS] := Number;
    t['0' as int] := Number;
    t['1' as int] := Number;
    t['2' as int] := Number;
    t['3' as int] := Number;
    t['4' as int] := Number;
    t['5' as int] := Number;
    t['6' as int] := Number;
    t['7' as int] := Number;
    t['8' as int] := Number;
    t['9' as int] := Number;
    t[LOWER_T] := Boolean;
    t[LOWER_F] := Boolean;
    t[LOWER_N] := Null;
    t[LEFT_BRACKET] := Array;
    t[LEFT_BRACE] := Object;
    assert t[..] == Initialised(s);
  }
}
