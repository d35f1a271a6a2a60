/** Error taxonomy of the tool and the two failure-compatible wrappers every
    parser returns. Only the payloads are modelled; the message text that the
    tool prints for each error is not. */
module Errors {

  /** The tool's error kinds (src/error.rs:23-74), restricted to the ones the
      modelled core can produce. */
  datatype AppError =
    // Command-line arguments
    | ArgToken(token: string, cause: AppError)    // "\"token\" - cause"
    | ArgAss                                      // surplus assignment operator
    | ArgMore(text: string)                       // premature end of a literal
    | ArgNone                                     // empty argument list
    | ArgNumDec(text: string)                     // not a decimal literal
    | ArgNumHex(text: string)                     // not a hexadecimal literal
    | ArgNumHexPrefix(text: string)               // missing 0x / 0X prefix
    | ArgOpt                                      // unknown option
    | ArgPos                                      // not exactly one offset indicator
    | ArgPosBktL                                  // surplus bracket after the offset
    | ArgPosBktR                                  // missing bracket after the offset
    | ArgSizeLimit(text: string)                  // hexadecimal literal too long
    | ArgSizeMismatch(value: nat, size: nat)      // value does not fit its size
    | ArgVarBktL                                  // surplus bracket after the name
    | ArgVarBktR                                  // missing bracket after the name
    // Script input
    | Input(text: string)                         // malformed line
    | InputDef(text: string)                      // malformed definition
    | InputDefSet(text: string)                   // definition carrying a value
    | InputNone                                   // empty input
    | InputOpt(text: string)                      // unknown directive
    | InputRef(text: string)                      // reference without prefix
    | InputRefNone(name: string)                  // undefined alias
    // Variable store
    | UefiVarGetMany                              // ambiguous name, no id
    | UefiVarGetNone(name: string)                // no variable of that name
    | UefiVarSet(name: string, status: nat)       // the store refused the write
    | UefiVarSize(offset: nat, length: nat, size: nat)  // range beyond the content

  datatype Option<+T> = None | Some(value: T)

  /** Success or an AppError; usable with `:-`. */
  datatype Result<+T> = Ok(value: T) | Err(error: AppError) {

    predicate IsFailure() {
      Err?
    }

    function PropagateFailure<U>(): Result<U>
      requires Err?
    {
      Err(error)
    }

    function Extract(): T
      requires Ok?
    {
      value
    }
  }

  /** `Collect` can classify the items without a panic. Collecting stops at
      the first item that fails, so only the items up to and including that
      one are ever classified, and only they need to be in the domain. */
  ghost predicate Collectable<T, U>(xs: seq<T>, f: T --> Result<U>) {
    xs == [] || (f.requires(xs[0]) && (f(xs[0]).Ok? ==> Collectable(xs[1..], f)))
  }

  /** `map(f).collect::<Result<Vec<_>, _>>()`: the results of all items in
      order, or the error of the first item that fails. */
  function Collect<T, U>(xs: seq<T>, f: T --> Result<U>): (r: Result<seq<U>>)
    requires Collectable(xs, f)
    ensures r.Ok? <==> forall i :: 0 <= i < |xs| ==> f.requires(xs[i]) && f(xs[i]).Ok?
    ensures r.Ok? ==> |r.value| == |xs| &&
                      forall i :: 0 <= i < |xs| ==> f.requires(xs[i]) && f(xs[i]) == Ok(r.value[i])
    ensures r.Err? ==> exists i :: 0 <= i < |xs| && f.requires(xs[i]) && f(xs[i]) == Err(r.error) &&
                                   forall j :: 0 <= j < i ==> f.requires(xs[j]) && f(xs[j]).Ok?
  {
    if xs == [] then
      Ok([])
    else
      var first :- f(xs[0]);
      var rest := Collect(xs[1..], f);
      if rest.Err? then
        FirstFailureBehind(xs, rest.error, f);
        Err(rest.error)
      else
        SuccessesBehind(xs, first, rest.value, f);
        Ok([first] + rest.value)
  }

  /** The first failure in the tail, behind a successful head, is the first
      failure of the whole sequence. */
  lemma FirstFailureBehind<T, U>(xs: seq<T>, e: AppError, f: T --> Result<U>)
    requires xs != [] && f.requires(xs[0]) && f(xs[0]).Ok?
    requires exists i :: 0 <= i < |xs[1..]| && f.requires(xs[1..][i]) && f(xs[1..][i]) == Err(e) &&
                         forall j :: 0 <= j < i ==> f.requires(xs[1..][j]) && f(xs[1..][j]).Ok?
    ensures exists k :: 0 <= k < |xs| && f.requires(xs[k]) && f(xs[k]) == Err(e) &&
                        forall j :: 0 <= j < k ==> f.requires(xs[j]) && f(xs[j]).Ok?
  {
    var i :| 0 <= i < |xs[1..]| && f.requires(xs[1..][i]) && f(xs[1..][i]) == Err(e) &&
             forall j :: 0 <= j < i ==> f.requires(xs[1..][j]) && f(xs[1..][j]).Ok?;
    assert xs[i + 1] == xs[1..][i];
    forall j | 0 <= j < i + 1 ensures f.requires(xs[j]) && f(xs[j]).Ok? {
      if j > 0 {
        assert xs[j] == xs[1..][j - 1];
      }
    }
  }

  /** A successful head in front of successful tail items. */
  lemma SuccessesBehind<T, U>(xs: seq<T>, first: U, rest: seq<U>, f: T --> Result<U>)
    requires xs != [] && |rest| == |xs| - 1 && f.requires(xs[0]) && f(xs[0]) == Ok(first)
    requires forall i :: 0 <= i < |xs[1..]| ==> f.requires(xs[1..][i]) && f(xs[1..][i]) == Ok(rest[i])
    ensures forall i :: 0 <= i < |xs| ==> f.requires(xs[i]) && f(xs[i]) == Ok(([first] + rest)[i])
  {
    forall i | 0 <= i < |xs| ensures f.requires(xs[i]) && f(xs[i]) == Ok(([first] + rest)[i]) {
      if i > 0 {
        assert xs[i] == xs[1..][i - 1];
      }
    }
  }

  /** Items that are all in the domain can be collected. */
  lemma {:induction false} AllCollectable<T, U>(xs: seq<T>, f: T --> Result<U>)
    requires forall i :: 0 <= i < |xs| ==> f.requires(xs[i])
    ensures Collectable(xs, f)
  {
    if xs != [] {
      assert forall i :: 0 <= i < |xs[1..]| ==> xs[1..][i] == xs[i + 1];
      AllCollectable(xs[1..], f);
    }
  }
}
