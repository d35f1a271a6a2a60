/** The operation grammar `Name[(Id)]:Offset[(Size)][=Value]`, shared by the
    command line and scripts (src/parse.rs:284-409). */
module Grammar {
  import opened Errors
  import opened Strings
  import opened Numerals
  import opened Literals
  import opened Data

  /** The errors the two number parsers can report. */
  predicate IsNumberError(e: AppError) {
    e.ArgMore? || e.ArgNumDec? || e.ArgNumHex? || e.ArgNumHexPrefix? || e.ArgSizeLimit?
  }

  /** `parse_multiple!(s, parse_value_dec, parse_value_hex)`, used for
      identifiers and sizes: decimal wins when both would succeed. */
  function DecThenHex(s: string): (r: Result<nat>)
    ensures r == if ParseValueDec(s).Ok? then ParseValueDec(s) else ParseValueHex(s)
    ensures r.Err? ==> IsNumberError(r.error)
  {
    ParseMultipleTwo(s, ParseValueDec, ParseValueHex);
    ParseMultiple(s, [ParseValueDec, ParseValueHex])
  }

  /** `parse_multiple!(s, parse_value_hex, parse_value_dec)`, used for
      offsets and values: a failing hexadecimal attempt is reported as the
      decimal parser's error. */
  function HexThenDec(s: string): (r: Result<nat>)
    ensures r == if ParseValueHex(s).Ok? then ParseValueHex(s) else ParseValueDec(s)
    ensures r.Err? ==> r.error == ArgNumDec(s)
  {
    ParseMultipleTwo(s, ParseValueHex, ParseValueDec);
    ParseMultiple(s, [ParseValueHex, ParseValueDec])
  }

  /** `parse_operation_type`: the text right of the offset indicator is
      either a query, or the offset and a value after a single `=`. The
      split tolerates one trailing `=`. */
  function OperationTypeOf(arg: string): (r: Result<(string, OperationType)>)
    ensures '=' !in arg ==> r == Ok((arg, Get))
    ensures r == Err(ArgAss) <==> '=' in arg && |Pieces(arg, '=')| != 2
    ensures r.Err? ==> r.error == ArgAss || r.error.ArgNumDec?
    ensures r.Ok? && '=' in arg ==> r.value.1.Set?
  {
    if Has(arg, '=') then
      var parts := Pieces(arg, '=');
      if |parts| != 2 then
        Err(ArgAss)
      else
        var value :- HexThenDec(parts[1]);
        Ok((parts[0], Set(value)))
    else
      Ok((arg, Get))
  }

  /** An accepted assignment is the offset, `=` and the value text, possibly
      followed by one more `=`. */
  lemma OperationTypeShape(arg: string)
    requires OperationTypeOf(arg).Ok? && OperationTypeOf(arg).value.1.Set?
    ensures var r := OperationTypeOf(arg).value;
            && '=' !in r.0
            && exists v :: '=' !in v && HexThenDec(v) == Ok(r.1.value) &&
                           (arg == r.0 + "=" + v || arg == r.0 + "=" + v + "=")
  {
    var parts := Pieces(arg, '=');
    PiecesTwoShape(arg, '=');
    PiecesFree(arg, '=');
    assert '=' !in parts[1] && HexThenDec(parts[1]) == Ok(OperationTypeOf(arg).value.1.value);
  }

  /** Text split into two pieces at `(`, the second closed by `)`, is the
      first piece, the bracketed text and possibly one trailing `(`. */
  lemma BracketShape(s: string, inner: string)
    requires |Pieces(s, '(')| == 2 && WithoutLast(Pieces(s, '(')[1], ')') == Some(inner)
    ensures var head := Pieces(s, '(')[0];
            && '(' !in head
            && (s == head + "(" + inner + ")" || s == head + "(" + inner + ")(")
  {
    var p := Pieces(s, '(');
    PiecesTwoShape(s, '(');
    PiecesFree(s, '(');
    assert p[1] == inner + [')'];
    assert p[0] + ['('] + p[1] == p[0] + "(" + inner + ")";
    assert p[0] + ['('] + p[1] + ['('] == p[0] + "(" + inner + ")(";
  }

  /** The variable name and its optional bracketed identifier. */
  function NameAndId(name: string): (r: Result<(string, Option<nat>)>)
    ensures '(' !in name ==> r == Ok((name, None))
    ensures r == Err(ArgVarBktL) <==> '(' in name && |Pieces(name, '(')| != 2
    ensures r == Err(ArgVarBktR) <==>
              '(' in name && |Pieces(name, '(')| == 2 && WithoutLast(Pieces(name, '(')[1], ')').None?
    ensures r.Err? ==> r.error in {ArgVarBktL, ArgVarBktR} || IsNumberError(r.error)
    ensures r.Ok? ==> '(' !in r.value.0
  {
    if Has(name, '(') then
      var parts := Pieces(name, '(');
      if |parts| != 2 then
        Err(ArgVarBktL)
      else match WithoutLast(parts[1], ')')
        case None => Err(ArgVarBktR)
        case Some(idText) =>
          var id :- DecThenHex(idText);
          PiecesFree(name, '(');
          Ok((parts[0], Some(id)))
    else
      Ok((name, None))
  }

  /** The offset text and its optional bracketed size, 1 by default. */
  function OffsetAndSize(offset: string): (r: Result<(string, nat)>)
    ensures '(' !in offset ==> r == Ok((offset, 1))
    ensures r == Err(ArgPosBktL) <==> '(' in offset && |Pieces(offset, '(')| != 2
    ensures r == Err(ArgPosBktR) <==>
              '(' in offset && |Pieces(offset, '(')| == 2 && WithoutLast(Pieces(offset, '(')[1], ')').None?
    ensures r.Err? ==> r.error in {ArgPosBktL, ArgPosBktR} || IsNumberError(r.error)
    ensures r.Ok? ==> '(' !in r.value.0
  {
    if Has(offset, '(') then
      var parts := Pieces(offset, '(');
      if |parts| != 2 then
        Err(ArgPosBktL)
      else match WithoutLast(parts[1], ')')
        case None => Err(ArgPosBktR)
        case Some(sizeText) =>
          var size :- DecThenHex(sizeText);
          PiecesFree(offset, '(');
          Ok((parts[0], size))
    else
      Ok((offset, 1))
  }

  /** An accepted identifier is a bracketed number after the name, possibly
      followed by one more `(`. */
  lemma NameAndIdShape(name: string)
    requires NameAndId(name).Ok? && NameAndId(name).value.1.Some?
    ensures var r := NameAndId(name).value;
            exists t :: DecThenHex(t) == Ok(r.1.value) &&
                        (name == r.0 + "(" + t + ")" || name == r.0 + "(" + t + ")(")
  {
    var t := WithoutLast(Pieces(name, '(')[1], ')').value;
    BracketShape(name, t);
  }

  /** An accepted size is a bracketed number after the offset, possibly
      followed by one more `(`. */
  lemma OffsetAndSizeShape(offset: string)
    requires OffsetAndSize(offset).Ok? && '(' in offset
    ensures var r := OffsetAndSize(offset).value;
            exists t :: DecThenHex(t) == Ok(r.1) &&
                        (offset == r.0 + "(" + t + ")" || offset == r.0 + "(" + t + ")(")
  {
    var t := WithoutLast(Pieces(offset, '(')[1], ')').value;
    BracketShape(offset, t);
  }

  /** What `parse_operation` returns. Errors are reported in the order the
      parts are examined: offset indicator, name and identifier, assignment,
      size, offset. */
  function OperationOf(arg: string): (r: Result<ArgOperation>)
    ensures r == Err(ArgPos) <==> |Pieces(arg, ':')| != 2
    ensures r.Err? ==> r.error in {ArgPos, ArgVarBktL, ArgVarBktR, ArgAss, ArgPosBktL, ArgPosBktR} ||
                       IsNumberError(r.error)
  {
    var parts := Pieces(arg, ':');
    if |parts| != 2 then
      Err(ArgPos)
    else
      var named :- NameAndId(parts[0]);
      var typed :- OperationTypeOf(parts[1]);
      var sized :- OffsetAndSize(typed.0);
      var offset :- HexThenDec(sized.0);
      Ok(ArgOperation(typed.1, OperationTarget(named.1, named.0, offset, sized.1)))
  }

  /** What an accepted operation says about its text: the name holds neither
      separator, it is an assignment exactly when the part after `:` holds
      `=`, it names an identifier exactly when the part before `:` holds `(`,
      and without a bracket after `:` the size is one byte. */
  lemma OperationOfShape(arg: string)
    requires OperationOf(arg).Ok?
    ensures var r, parts := OperationOf(arg).value, Pieces(arg, ':');
            && |parts| == 2
            && ':' !in r.target.name && '(' !in r.target.name
            && (r.action.Get? <==> '=' !in parts[1])
            && (r.target.id.None? <==> '(' !in parts[0])
            && ('(' !in parts[1] ==> r.target.size == 1)
  {
    var parts := Pieces(arg, ':');
    PiecesFree(arg, ':');
    OffsetPartWithin(parts[1]);
  }

  /** The offset part of an accepted operation type is a prefix of it. */
  lemma OffsetPartWithin(arg: string)
    requires OperationTypeOf(arg).Ok?
    ensures '(' !in arg ==> '(' !in OperationTypeOf(arg).value.0
  {
    if '=' in arg {
      PiecesHead(arg, '=');
    }
  }

  /** Splits the argument and reassigns the name, identifier, offset and
      size as each part is recognised (src/parse.rs:287-374). */
  method ParseOperation(arg: string) returns (r: Result<ArgOperation>)
    ensures r == OperationOf(arg)
  {
    var argSplit := Split(arg, ':');
    if |argSplit| != 2 {
      return Err(ArgPos);
    }
    var name := argSplit[0];
    var id: Option<nat> := None;
    if Has(name, '(') {
      var nameSplit := Split(name, '(');
      if |nameSplit| != 2 {
        return Err(ArgVarBktL);
      }
      var idString := StripLast(nameSplit[1], ')');
      if idString.None? {
        return Err(ArgVarBktR);
      }
      var idValue :- DecThenHex(idString.value);
      id := Some(idValue);
      name := nameSplit[0];
    }
    var typed :- OperationTypeOf(argSplit[1]);
    var offset := typed.0;
    var size := 1;
    if Has(offset, '(') {
      var offsetSplit := Split(offset, '(');
      if |offsetSplit| != 2 {
        return Err(ArgPosBktL);
      }
      var sizeString := StripLast(offsetSplit[1], ')');
      if sizeString.None? {
        return Err(ArgPosBktR);
      }
      size :- DecThenHex(sizeString.value);
      offset := offsetSplit[0];
    }
    var offsetValue :- HexThenDec(offset);
    r := Ok(ArgOperation(typed.1, OperationTarget(id, name, offsetValue, size)));
  }

  // ---------------------------------------------------------------------
  // Properties
  // ---------------------------------------------------------------------

  /** Exactly one offset indicator is needed: a trailing `:` is dropped by
      the split, so `Name:` has one piece and fails, while a second `:`
      makes three pieces. */
  lemma OffsetIndicator()
    ensures OperationOf("Lang:") == Err(ArgPos)
    ensures OperationOf("Lang") == Err(ArgPos)
    ensures OperationOf("-x") == Err(ArgPos)
    ensures OperationOf("A:0:1") == Err(ArgPos)
  {
    assert "Lang:" == "Lang" + [':'] + [];
    PiecesCons("Lang", [], ':');
    PiecesWithout("Lang", ':');
    PiecesWithout("-x", ':');
    assert "A:0:1" == "A" + [':'] + ("0" + [':'] + "1");
    PiecesCons("A", "0" + [':'] + "1", ':');
    PiecesOfPair("0", "1", ':');
  }

  /** Assembling an operation from the results of its parts. */
  lemma OperationOfParts(nameText: string, rest: string, named: (string, Option<nat>),
                         typed: (string, OperationType), sized: (string, nat), offset: nat)
    requires ':' !in nameText && ':' !in rest && rest != []
    requires NameAndId(nameText) == Ok(named) && OperationTypeOf(rest) == Ok(typed)
    requires OffsetAndSize(typed.0) == Ok(sized) && HexThenDec(sized.0) == Ok(offset)
    ensures OperationOf(nameText + ":" + rest) ==
              Ok(ArgOperation(typed.1, OperationTarget(named.1, named.0, offset, sized.1)))
  {
    PiecesOfPair(nameText, rest, ':');
  }

  /** A bracketed identifier after a name. */
  lemma NameWithId(name: string, idText: string, id: nat)
    requires '(' !in name && '(' !in idText && DecThenHex(idText) == Ok(id)
    ensures NameAndId(name + "(" + idText + ")") == Ok((name, Some(id)))
  {
    var t := idText + ")";
    assert name + "(" + idText + ")" == name + ['('] + t;
    PiecesOfPair(name, t, '(');
    assert WithoutLast(t, ')') == Some(idText);
  }

  /** A single assignment with a non-empty value. */
  lemma AssignmentOf(offset: string, valueText: string, value: nat)
    requires '=' !in offset && '=' !in valueText && valueText != []
    requires HexThenDec(valueText) == Ok(value)
    ensures OperationTypeOf(offset + "=" + valueText) == Ok((offset, Set(value)))
  {
    assert offset + "=" + valueText == offset + ['='] + valueText;
    PiecesOfPair(offset, valueText, '=');
  }

  /** A bracketed size after an offset. */
  lemma OffsetWithSize(offset: string, sizeText: string, size: nat)
    requires '(' !in offset && '(' !in sizeText && DecThenHex(sizeText) == Ok(size)
    ensures OffsetAndSize(offset + "(" + sizeText + ")") == Ok((offset, size))
  {
    var t := sizeText + ")";
    assert offset + "(" + sizeText + ")" == offset + ['('] + t;
    PiecesOfPair(offset, t, '(');
    assert WithoutLast(t, ')') == Some(sizeText);
  }

  /** A prefixed hexadecimal text of at most sixteen digits is read as the
      value of its digits. */
  lemma HexPrefixedValue(text: string)
    requires HexPrefixed(text) && |text| <= 18 && AllHex(text[2..])
    ensures HexThenDec(text) == Ok(HexValue(text[2..]))
  {
  }

  lemma HexPairValue(a: char, b: char)
    requires IsHexDigit(a) && IsHexDigit(b)
    ensures AllHex([a, b]) && HexValue([a, b]) == 16 * HexDigitValue(a) + HexDigitValue(b)
  {
    assert [a, b][1..] == [b] && [b][1..] == [];
    assert HexValue([b]) == HexDigitValue(b);
    assert HexValue([a, b]) == HexDigitValue(a) * Pow(16, 1) + HexValue([b]);
  }

  lemma HexTripleValue(a: char, b: char, c: char)
    requires IsHexDigit(a) && IsHexDigit(b) && IsHexDigit(c)
    ensures AllHex([a, b, c])
    ensures HexValue([a, b, c]) == 256 * HexDigitValue(a) + 16 * HexDigitValue(b) + HexDigitValue(c)
  {
    HexPairValue(b, c);
    assert [a, b, c][1..] == [b, c];
    assert HexValue([a, b, c]) == HexDigitValue(a) * Pow(16, 2) + HexValue([b, c]);
    assert Pow(16, 2) == 256;
  }

  lemma HexQuadValue(a: char, b: char, c: char, d: char)
    requires IsHexDigit(a) && IsHexDigit(b) && IsHexDigit(c) && IsHexDigit(d)
    ensures AllHex([a, b, c, d])
    ensures HexValue([a, b, c, d]) ==
              4096 * HexDigitValue(a) + 256 * HexDigitValue(b) + 16 * HexDigitValue(c) + HexDigitValue(d)
  {
    HexTripleValue(b, c, d);
    assert [a, b, c, d][1..] == [b, c, d];
    assert HexValue([a, b, c, d]) == HexDigitValue(a) * Pow(16, 3) + HexValue([b, c, d]);
    assert Pow(16, 3) == 4096;
  }

  /** A `0x` literal of two digits. */
  lemma HexTwo(text: string, a: char, b: char)
    requires text == ['0', 'x', a, b] && IsHexDigit(a) && IsHexDigit(b)
    ensures HexThenDec(text) == Ok(16 * HexDigitValue(a) + HexDigitValue(b))
  {
    assert text[2..] == [a, b];
    HexPairValue(a, b);
    HexPrefixedValue(text);
  }

  /** A `0x` literal of three digits. */
  lemma HexThree(text: string, a: char, b: char, c: char)
    requires text == ['0', 'x', a, b, c] && IsHexDigit(a) && IsHexDigit(b) && IsHexDigit(c)
    ensures HexThenDec(text) == Ok(256 * HexDigitValue(a) + 16 * HexDigitValue(b) + HexDigitValue(c))
  {
    assert text[2..] == [a, b, c];
    HexTripleValue(a, b, c);
    HexPrefixedValue(text);
  }

  /** A `0x` literal of four digits. */
  lemma HexFour(text: string, a: char, b: char, c: char, d: char)
    requires text == ['0', 'x', a, b, c, d]
    requires IsHexDigit(a) && IsHexDigit(b) && IsHexDigit(c) && IsHexDigit(d)
    ensures HexThenDec(text) == Ok(4096 * HexDigitValue(a) + 256 * HexDigitValue(b) +
                                   16 * HexDigitValue(c) + HexDigitValue(d))
  {
    assert text[2..] == [a, b, c, d];
    HexQuadValue(a, b, c, d);
    HexPrefixedValue(text);
  }

  /** `0x00` is zero. */
  lemma HexZero(text: string)
    requires text == "0x00"
    ensures HexThenDec(text) == Ok(0)
  {
    HexTwo(text, '0', '0');
  }

  /** `0x10` is sixteen. */
  lemma HexTen(text: string)
    requires text == "0x10"
    ensures HexThenDec(text) == Ok(16)
  {
    HexTwo(text, '1', '0');
  }

  /** `0x05` is five. */
  lemma HexFive(text: string)
    requires text == "0x05"
    ensures HexThenDec(text) == Ok(5)
  {
    HexTwo(text, '0', '5');
  }

  /** `0x100` is 256, the first value too wide for one byte. */
  lemma HexHundred(text: string)
    requires text == "0x100"
    ensures HexThenDec(text) == Ok(256)
  {
    HexThree(text, '1', '0', '0');
  }

  /** `0x101` is 257. */
  lemma HexHundredOne(text: string)
    requires text == "0x101"
    ensures HexThenDec(text) == Ok(257)
  {
    HexThree(text, '1', '0', '1');
  }

  /** `0x0102` is 258. */
  lemma HexExample(text: string)
    requires text == "0x0102"
    ensures HexThenDec(text) == Ok(0x0102)
  {
    HexFour(text, '0', '1', '0', '2');
  }

  /** A query with the default size. */
  lemma QueryExample(arg: string)
    requires arg == "Lang:0x00"
    ensures OperationOf(arg) == Ok(ArgOperation(Get, OperationTarget(None, "Lang", 0, 1)))
  {
    var name, offset := "Lang", "0x00";
    assert name + ":" + offset == arg;
    assert '(' !in name && '(' !in offset && '=' !in offset;
    HexZero(offset);
    OperationOfParts(name, offset, (name, None), (offset, Get), (offset, 1), 0);
  }

  lemma DecExample(c: char)
    requires '0' <= c <= '9'
    ensures DecThenHex([c]) == Ok(c as int - '0' as int)
  {
    assert [c][..0] == [] && [c][0] == c;
    assert AllDec([c]);
    assert DecValue([c]) == DecDigitValue(c);
  }

  lemma IdExample(name: string)
    requires name == "Lang(2)"
    ensures NameAndId(name) == Ok(("Lang", Some(2)))
  {
    assert "Lang" + "(" + "2" + ")" == name;
    DecExample('2');
    assert '(' !in "Lang" && '(' !in "2";
    NameWithId("Lang", "2", 2);
  }

  lemma SetExample(text: string)
    requires text == "0x10(4)=0x0102"
    ensures OperationTypeOf(text) == Ok(("0x10(4)", Set(0x0102)))
  {
    var offset, value := "0x10(4)", "0x0102";
    assert text == offset + "=" + value;
    assert '=' !in offset && '=' !in value;
    HexExample(value);
    AssignmentOf(offset, value, 0x0102);
  }

  lemma SizeExample(text: string)
    requires text == "0x10(4)"
    ensures OffsetAndSize(text) == Ok(("0x10", 4))
  {
    assert "0x10" + "(" + "4" + ")" == text;
    DecExample('4');
    assert '(' !in "0x10" && '(' !in "4";
    OffsetWithSize("0x10", "4", 4);
  }

  /** An assignment of four bytes to the second of several namesakes. */
  lemma AssignmentExample(arg: string)
    requires arg == "Lang(2):0x10(4)=0x0102"
    ensures OperationOf(arg) ==
              Ok(ArgOperation(Set(0x0102), OperationTarget(Some(2), "Lang", 0x10, 4)))
  {
    var named, rest, position, offset := "Lang(2)", "0x10(4)=0x0102", "0x10(4)", "0x10";
    assert named + ":" + rest == arg;
    assert ':' !in named && ':' !in rest;
    IdExample(named);
    SetExample(rest);
    SizeExample(position);
    HexTen(offset);
    OperationOfParts(named, rest, ("Lang", Some(2)), (position, Set(0x0102)), (offset, 4), 16);
  }

  /** A value field ending in a second `=` is tolerated. */
  lemma TrailingAssignment(text: string)
    requires text == "0x10=0x05="
    ensures OperationTypeOf(text) == Ok(("0x10", Set(5)))
  {
    var value := "0x05";
    TrailingPieces(text, "0x10", value);
    HexFive(value);
  }

  lemma TrailingPieces(text: string, offset: string, value: string)
    requires text == "0x10=0x05=" && offset == "0x10" && value == "0x05"
    ensures Pieces(text, '=') == [offset, value]
  {
    var rest := value + ['='] + [];
    assert text == offset + ['='] + rest;
    assert '=' !in offset && '=' !in value;
    PiecesCons(offset, rest, '=');
    PiecesCons(value, [], '=');
  }

  /** An empty value between two `=` is decimal 0. */
  lemma EmptyAssignment(text: string)
    requires text == "0x10=="
    ensures OperationTypeOf(text) == Ok(("0x10", Set(0)))
  {
    var offset, rest := "0x10", "=";
    assert text == offset + ['='] + rest;
    assert rest == [] + ['='] + [];
    PiecesCons(offset, rest, '=');
    PiecesCons([], [], '=');
    assert Pieces(text, '=') == [offset, []];
  }

  /** Two assignment operators are refused. */
  lemma DoubleAssignment(text: string)
    requires text == "0x10=1=2"
    ensures OperationTypeOf(text) == Err(ArgAss)
  {
    var offset, rest := "0x10", "1=2";
    assert text == offset + ['='] + rest;
    assert rest == "1" + ['='] + "2";
    PiecesCons(offset, rest, '=');
    PiecesOfPair("1", "2", '=');
  }

  /** The operation `Lang:0x00=<value>`. */
  lemma ByteAssignment(token: string, valueText: string, value: nat)
    requires token == "Lang:0x00=" + valueText
    requires '=' !in valueText && ':' !in valueText && valueText != [] && HexThenDec(valueText) == Ok(value)
    ensures OperationOf(token) == Ok(ArgOperation(Set(value), OperationTarget(None, "Lang", 0, 1)))
  {
    var name, offset := "Lang", "0x00";
    var rest := offset + "=" + valueText;
    ByteAssignmentText(token, valueText, name, offset, rest);
    HexZero(offset);
    AssignmentOf(offset, valueText, value);
    OperationOfParts(name, rest, (name, None), (offset, Set(value)), (offset, 1), 0);
  }

  lemma ByteAssignmentText(token: string, valueText: string, name: string, offset: string, rest: string)
    requires name == "Lang" && offset == "0x00"
    requires token == "Lang:0x00=" + valueText && rest == offset + "=" + valueText && ':' !in valueText
    ensures token == name + ":" + rest
    ensures ':' !in name && '(' !in name && '(' !in offset && '=' !in offset && ':' !in rest
  {
    assert "Lang:0x00=" == name + ":" + offset + "=";
    assert ':' !in "0x00=";
  }
}
