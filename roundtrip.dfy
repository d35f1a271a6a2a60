/** The printed form of an operation and the grammar that reads operations
    agree: the line printed after a query or an assignment
    (src/data.rs:90-121) parses back to the same target, assigning the value
    that was printed. */
module RoundTrip {
  import opened Errors
  import opened Numerals
  import opened Literals
  import opened Data
  import opened Grammar

  /** Text made only of digits holds none of the grammar's separators. */
  lemma DigitsFree(t: string)
    requires AllDec(t)
    ensures ':' !in t && '(' !in t && '=' !in t
  {
    assert forall k :: 0 <= k < |t| ==> IsDecDigit(t[k]);
  }

  /** A `0x` number holds none of the grammar's separators. */
  lemma HexFree(t: string)
    requires |t| >= 2 && t[0] == '0' && t[1] == 'x' && AllHex(t[2..])
    ensures ':' !in t && '(' !in t && '=' !in t
  {
    forall k | 2 <= k < |t| ensures IsHexDigit(t[k]) {
      assert t[k] == t[2..][k - 2];
    }
  }

  /** Decimal text is read back by the decimal-first parser. */
  lemma DecimalBack(n: nat)
    ensures DecThenHex(DecimalText(n)) == Ok(n)
  {
    DecimalRoundTrip(n);
  }

  /** The bracketed identifier text, empty when there is none. */
  function IdText(id: Option<nat>): string {
    match id
    case None => ""
    case Some(n) => "(" + DecimalText(n) + ")"
  }

  /** The bracketed size text, empty for a single byte. */
  function SizeText(size: nat): string {
    if size == 1 then "" else "(" + DecimalText(size) + ")"
  }

  /** The printed name and identifier are read back. */
  lemma NameBack(name: string, id: Option<nat>, text: string)
    requires '(' !in name && text == name + IdText(id)
    ensures NameAndId(text) == Ok((name, id))
    ensures ':' !in IdText(id)
  {
    if id.Some? {
      var digits := DecimalText(id.value);
      DigitsFree(digits);
      DecimalBack(id.value);
      assert text == name + "(" + digits + ")";
      NameWithId(name, digits, id.value);
    } else {
      assert text == name;
    }
  }

  /** The printed offset and size are read back. */
  lemma PositionBack(offsetText: string, size: nat, text: string)
    requires '(' !in offsetText && text == offsetText + SizeText(size)
    ensures OffsetAndSize(text) == Ok((offsetText, size))
    ensures ':' !in SizeText(size) && '=' !in SizeText(size)
  {
    if size != 1 {
      var digits := DecimalText(size);
      DigitsFree(digits);
      DecimalBack(size);
      assert text == offsetText + "(" + digits + ")";
      OffsetWithSize(offsetText, digits, size);
    } else {
      assert text == offsetText;
    }
  }

  /** The printed line, grouped as the grammar reads it. */
  lemma PrintedShape(op: ArgOperation, value: seq<byte>)
    requires |value| <= 8
    ensures ToStringWithVal(op, value) ==
              (op.target.name + IdText(op.target.id)) + ":" +
              ((PrefixedHex(op.target.offset, 6) + SizeText(op.target.size)) + "=" +
               ValueText(value, op.target.size))
  {
  }

  /** The printed value is read back, as the number its bytes hold. */
  lemma ValueBack(value: seq<byte>, size: nat)
    requires |value| <= 8 && size <= 8
    ensures HexThenDec(ValueText(value, size)) == Ok(LeValue(value))
    ensures ':' !in ValueText(value, size) && '=' !in ValueText(value, size)
    ensures ValueText(value, size) != []
  {
    var text := ValueText(value, size);
    HexFree(text);
    LeValueBound(value);
    PowMonotone(256, |value|, 8);
    PowBytes(8);
    HexRoundTrip(LeValue(value), 2 + 2 * size);
  }

  /** The printed offset and size are read back, and hold no separator. */
  lemma OffsetBack(offset: nat, size: nat, position: string)
    requires size <= 8 && offset < Pow(16, 16)
    requires position == PrefixedHex(offset, 6) + SizeText(size)
    ensures ':' !in position && '=' !in position
    ensures OffsetAndSize(position) == Ok((PrefixedHex(offset, 6), size))
    ensures HexThenDec(PrefixedHex(offset, 6)) == Ok(offset)
  {
    var offsetText := PrefixedHex(offset, 6);
    HexFree(offsetText);
    HexRoundTrip(offset, 6);
    PositionBack(offsetText, size, position);
  }

  /** The part right of the offset indicator is read back as the position
      and an assignment of the printed value. */
  lemma RestBack(position: string, size: nat, value: seq<byte>, rest: string)
    requires |value| <= 8 && size <= 8 && ':' !in position && '=' !in position
    requires rest == position + "=" + ValueText(value, size)
    ensures ':' !in rest && rest != []
    ensures OperationTypeOf(rest) == Ok((position, Set(LeValue(value))))
  {
    ValueBack(value, size);
    AssignmentOf(position, ValueText(value, size), LeValue(value));
  }

  /** Reading the printed line of an operation gives an assignment of the
      printed value to the same target: name, identifier, offset and size
      survive printing, provided the name holds no separator, the size is at
      most eight bytes and the offset has at most sixteen digits. */
  lemma PrintedOperationParses(op: ArgOperation, value: seq<byte>)
    requires ':' !in op.target.name && '(' !in op.target.name
    requires |value| <= 8 && op.target.size <= 8 && op.target.offset < Pow(16, 16)
    ensures OperationOf(ToStringWithVal(op, value)) ==
              Ok(ArgOperation(Set(LeValue(value)), op.target))
  {
    var target := op.target;
    var offsetText := PrefixedHex(target.offset, 6);
    var nameText := target.name + IdText(target.id);
    var position := offsetText + SizeText(target.size);
    var rest := position + "=" + ValueText(value, target.size);
    PrintedShape(op, value);
    NameBack(target.name, target.id, nameText);
    OffsetBack(target.offset, target.size, position);
    RestBack(position, target.size, value, rest);
    OperationOfParts(nameText, rest, (target.name, target.id), (position, Set(LeValue(value))),
                     (offsetText, target.size), target.offset);
  }

  /** A number that fits the target's size, once stored as the target's
      bytes and printed, is read back as that number. */
  lemma AssignedValueParses(op: ArgOperation, v: nat)
    requires ':' !in op.target.name && '(' !in op.target.name
    requires op.target.size <= 8 && op.target.offset < Pow(16, 16)
    requires v < Pow(256, op.target.size)
    ensures OperationOf(ToStringWithVal(op, FromUsize(v, op.target.size))) ==
              Ok(ArgOperation(Set(v), op.target))
  {
    ValidateFits(v, op.target);
    PrintedOperationParses(op, FromUsize(v, op.target.size));
  }
}
