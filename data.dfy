/** Data types of the tool and their pure operations (src/data.rs): the
    operation and argument structures, size validation, the little-endian
    encoding of a value and the printed form of an operation. */
module Data {
  import opened Errors
  import opened Numerals

  /** A value inside a firmware variable: which variable (by name and, for
      namesakes, by position), where in it and how many bytes. */
  datatype OperationTarget = OperationTarget(id: Option<nat>, name: string, offset: nat, size: nat)

  /** Query the current value, or assign a new one. */
  datatype OperationType = Get | Set(value: nat)

  datatype ArgOperation = ArgOperation(action: OperationType, target: OperationTarget)

  datatype ArgOption = Force | Restart | Simulate | Usage

  /** Every command-line argument is an operation or an option. */
  datatype Arg = Operation(operation: ArgOperation) | Option(option: ArgOption)

  datatype Args = Args(op: seq<ArgOperation>, force: bool, restart: bool, simulate: bool, usage: bool)

  /** One line of a script. */
  datatype InputEntry =
    | Operation(operation: ArgOperation)
    | Option(option: ArgOption)
    | TargetDefinition(name: string, target: OperationTarget)
    | TargetReference(name: string, action: OperationType)

  /** A byte of a variable's content. */
  newtype byte = x: int | 0 <= x < 256

  // ---------------------------------------------------------------------
  // Validation
  // ---------------------------------------------------------------------

  /** `ArgOperation::validate`: an assignment must fit the value size. The
      source compares with `1 << (8 * size)` using `>`, so the value
      2^(8 size) itself is accepted. */
  function Validate(op: ArgOperation): (r: Result<()>)
    ensures r.Err? <==> op.action.Set? && op.action.value > Pow(256, op.target.size)
    ensures r.Err? ==> r.error == ArgSizeMismatch(op.action.value, op.target.size)
  {
    PowBytes(op.target.size);
    match op.action
    case Get => Ok(())
    case Set(value) =>
      if value > Pow(2, op.target.size * 8) then Err(ArgSizeMismatch(value, op.target.size)) else Ok(())
  }

  /** A first failure in the tail, behind a valid head, is the first
      failure of the whole sequence. */
  lemma FirstFailureShift(ops: seq<ArgOperation>, i: nat, r: Result<()>)
    requires 0 <= i < |ops| - 1 && Validate(ops[0]).Ok?
    requires Validate(ops[1..][i]) == r && forall j :: 0 <= j < i ==> Validate(ops[1..][j]).Ok?
    ensures exists k :: 0 <= k < |ops| && Validate(ops[k]) == r && forall j :: 0 <= j < k ==> Validate(ops[j]).Ok?
  {
    assert ops[i + 1] == ops[1..][i];
    assert forall j :: 1 <= j < i + 1 ==> ops[j] == ops[1..][j - 1];
  }

  /** `try_for_each` over the operations: the first failure, if any. */
  function ValidateAll(ops: seq<ArgOperation>): (r: Result<()>)
    ensures r.Ok? <==> forall i :: 0 <= i < |ops| ==> Validate(ops[i]).Ok?
    ensures r.Err? ==> exists i :: 0 <= i < |ops| && Validate(ops[i]) == r &&
                                   forall j :: 0 <= j < i ==> Validate(ops[j]).Ok?
  {
    if ops == [] then Ok(())
    else if Validate(ops[0]).Err? then Validate(ops[0])
    else
      var r := ValidateAll(ops[1..]);
      assert forall i :: 1 <= i < |ops| ==> ops[i] == ops[1..][i - 1];
      if r.Err? then
        var i :| 0 <= i < |ops[1..]| && Validate(ops[1..][i]) == r &&
                 forall j :: 0 <= j < i ==> Validate(ops[1..][j]).Ok?;
        FirstFailureShift(ops, i, r);
        r
      else
        r
  }

  /** `Args::validate`: nothing is checked when usage help was requested. */
  function ValidateArgs(args: Args): (r: Result<()>)
    ensures args.usage ==> r.Ok?
    ensures !args.usage ==> r == ValidateAll(args.op)
  {
    if args.usage then Ok(()) else ValidateAll(args.op)
  }

  // ---------------------------------------------------------------------
  // Entry accessors
  // ---------------------------------------------------------------------

  /** `as_def`; the source panics on any other kind of entry. */
  function AsDef(e: InputEntry): (r: (string, OperationTarget))
    requires e.TargetDefinition?
    ensures InputEntry.TargetDefinition(r.0, r.1) == e
  {
    (e.name, e.target)
  }

  /** `as_op`; the source panics on any other kind of entry. */
  function AsOp(e: InputEntry): (r: ArgOperation)
    requires e.Operation?
    ensures InputEntry.Operation(r) == e
  {
    e.operation
  }

  // ---------------------------------------------------------------------
  // Little-endian bytes
  // ---------------------------------------------------------------------

  /** The number whose little-endian encoding is `bytes`. */
  function LeValue(bytes: seq<byte>): nat {
    if bytes == [] then 0 else bytes[0] as nat + 256 * LeValue(bytes[1..])
  }

  /** The `n` low-order bytes of `v`, least significant first. */
  function LeBytes(v: nat, n: nat): (r: seq<byte>)
    ensures |r| == n
  {
    if n == 0 then [] else [(v % 256) as byte] + LeBytes(v / 256, n - 1)
  }

  lemma {:induction false} LeValueBound(bytes: seq<byte>)
    ensures LeValue(bytes) < Pow(256, |bytes|)
  {
    if bytes != [] {
      LeValueBound(bytes[1..]);
      var p := Pow(256, |bytes| - 1);
      assert LeValue(bytes[1..]) + 1 <= p;
      assert 256 * (LeValue(bytes[1..]) + 1) <= 256 * p;
    }
  }

  /** Encoding then decoding gives back any value that fits. */
  lemma {:induction false} LeValueOfBytes(v: nat, n: nat)
    requires v < Pow(256, n)
    ensures LeValue(LeBytes(v, n)) == v
  {
    if n > 0 {
      var r := LeBytes(v, n);
      assert r[1..] == LeBytes(v / 256, n - 1);
      assert v / 256 < Pow(256, n - 1);
      LeValueOfBytes(v / 256, n - 1);
    }
  }

  /** Taking a prefix of the encoding keeps the low-order bytes. */
  lemma {:induction false} LeBytesPrefix(v: nat, n: nat, k: nat)
    requires k <= n
    ensures LeBytes(v, n)[..k] == LeBytes(v, k)
  {
    if k > 0 {
      LeBytesPrefix(v / 256, n - 1, k - 1);
      assert LeBytes(v, n)[..k] == [(v % 256) as byte] + LeBytes(v / 256, n - 1)[..k - 1];
    }
  }

  /** Zero bytes at the high end do not change the value. */
  lemma {:induction false} LeValueZeroExtend(bytes: seq<byte>, k: nat)
    ensures LeValue(bytes + seq(k, _ => 0 as byte)) == LeValue(bytes)
  {
    var z := seq(k, _ => 0 as byte);
    if bytes == [] {
      assert bytes + z == z;
      if k > 0 {
        assert z[0] == 0 && z[1..] == seq(k - 1, _ => 0 as byte);
        LeValueZeroExtend([], k - 1);
        assert [] + z[1..] == z[1..];
        assert LeValue(z) == 256 * LeValue(z[1..]);
      }
    } else {
      assert (bytes + z)[1..] == bytes[1..] + z;
      LeValueZeroExtend(bytes[1..], k);
    }
  }

  /** `UefiValue::from_usize`: the value masked to `length` bytes, then the
      first `length` bytes of its little-endian encoding. */
  function FromUsize(value: nat, length: nat): (r: seq<byte>)
    requires length <= 8
    ensures |r| == length
    ensures LeValue(r) == value % Pow(256, length)
  {
    var masked := value % Pow(256, length);
    LeBytesPrefix(masked, 8, length);
    LeValueOfBytes(masked, length);
    LeBytes(masked, 8)[..length]
  }

  // ---------------------------------------------------------------------
  // Printed forms
  // ---------------------------------------------------------------------

  /** What `to_string_with_size` prints: the bytes read as a little-endian
      number, as `0x` and lower-case digits zero-padded to `2 + 2 length`
      characters. */
  function ValueText(value: seq<byte>, length: nat): (r: string)
    requires |value| <= 8
    ensures |r| >= 2 + 2 * length && r[..2] == "0x"
    ensures AllHex(r[2..]) && HexValue(r[2..]) == LeValue(value)
  {
    PrefixedHex(LeValue(value), 2 + 2 * length)
  }

  /** Eight bytes print as at most sixteen digits. */
  lemma ValueTextLength(value: seq<byte>, length: nat)
    requires |value| <= 8 && length <= 8
    ensures |ValueText(value, length)| <= 18
  {
    LeValueBound(value);
    PowMonotone(256, |value|, 8);
    PowBytes(8);
    PrefixedHexLength(LeValue(value), 2 + 2 * length, 16);
  }

  /** Zero-extends the bytes into an eight-byte buffer, reads it as a
      little-endian number and prints it (src/data.rs:250-256). */
  method ToStringWithSize(value: seq<byte>, length: nat) returns (s: string)
    requires |value| <= 8
    ensures s == ValueText(value, length)
  {
    var bytes := new byte[8](_ => 0);
    for i := 0 to |value|
      invariant forall k :: 0 <= k < i ==> bytes[k] == value[k]
      invariant forall k :: i <= k < 8 ==> bytes[k] == 0
    {
      bytes[i] := value[i];
    }
    assert bytes[..] == value + seq(8 - |value|, _ => 0 as byte);
    LeValueZeroExtend(value, 8 - |value|);
    s := PrefixedHex(LeValue(bytes[..]), 2 + length * 2);
  }

  /** `to_string_with_val`: the operation as it is printed after a query or
      an assignment, `Name(Id):0xOFFS(Size)=0xVALUE`. */
  function ToStringWithVal(op: ArgOperation, value: seq<byte>): (r: string)
    requires |value| <= 8
    ensures var name, tail := op.target.name, "=" + ValueText(value, op.target.size);
            && |name| + |tail| < |r|
            && r[..|name|] == name
            && r[|r| - |tail|..] == tail
  {
    var idText := match op.target.id
      case None => ""
      case Some(id) => "(" + DecimalText(id) + ")";
    var sizeText := if op.target.size == 1 then "" else "(" + DecimalText(op.target.size) + ")";
    var middle := idText + ":" + PrefixedHex(op.target.offset, 6) + sizeText;
    var tail := "=" + ValueText(value, op.target.size);
    Framed(op.target.name, middle, tail);
    op.target.name + middle + tail
  }

  /** A text framed by a head and a tail starts with the head and ends with
      the tail. */
  lemma Framed(head: string, middle: string, tail: string)
    requires middle != []
    ensures var r := head + middle + tail;
            |head| + |tail| < |r| && r[..|head|] == head && r[|r| - |tail|..] == tail
  {
  }

  // ---------------------------------------------------------------------
  // Properties
  // ---------------------------------------------------------------------

  /** A value that fits its size passes validation and is encoded without
      loss. */
  lemma ValidateFits(v: nat, target: OperationTarget)
    requires target.size <= 8 && v < Pow(256, target.size)
    ensures Validate(ArgOperation(Set(v), target)).Ok?
    ensures LeValue(FromUsize(v, target.size)) == v
  {
    ModBelow(v, Pow(256, target.size));
  }

  /** The off-by-one as written: 2^(8 size) passes validation, yet its
      encoding in `size` bytes is all zeros. */
  lemma ValidateOffByOne(target: OperationTarget)
    requires target.size <= 8
    ensures Validate(ArgOperation(Set(Pow(256, target.size)), target)).Ok?
    ensures Validate(ArgOperation(Set(Pow(256, target.size) + 1), target)).Err?
    ensures LeValue(FromUsize(Pow(256, target.size), target.size)) == 0
  {
    var p := Pow(256, target.size);
    assert p % p == 0;
  }
}
