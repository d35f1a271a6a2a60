# UEFI Variable Tool: the text front end, in Dafny

UEFI Variable Tool (UVT) reads and writes values inside UEFI firmware
variables. An operation has the form `Name[(Id)]:Offset[(Size)][=Value]`. It
queries or assigns `Size` bytes at `Offset` in the variable `Name`. The
optional `Id` picks one variable among several that share a name. Operations
come from the command line, or from a script read from standard input. A
script adds `#` comments, `!force`/`!restart`/`!simulate` directives,
`Alias,Target` definitions and `@Alias[=Value]` references.

This project models the part of the tool that turns text into a list of
operations. It also models the pure parts of the firmware layer, and proves
properties of both:

- `errors.dfy` (module `Errors`) holds the error kinds, `Option` and
  `Result`, and the collection of results that stops at the first error.
- `strings.dfy` (module `Strings`) holds the wide-string helpers. They cover
  search, split, split at the first occurrence, strip first or last
  character, inclusive substring and trim. The module also holds the
  first-success parser combinator.
- `numerals.dfy` and `literals.dfy` (modules `Numerals` and `Literals`) hold
  the decimal and `0x` hexadecimal number parsers. They also hold the
  spellings that Rust's `{}`, `{:x}` and `{:#0w$x}` print.
- `grammar.dfy` (module `Grammar`) holds the operation grammar, shared by both
  front ends.
- `commandline.dfy` (module `CommandLine`) holds the command-line front end:
  option or operation per token, flags, then validation.
- `script.dfy` (module `Script`) holds the script front end. It cleans lines,
  classifies each line in four ways, resolves references and assembles the
  result.
- `data.dfy` (module `Data`) holds the data types, size validation, the
  little-endian encoding of a value and the printed form of an operation.
- `firmware.dfy` (module `Firmware`) holds the buffer-level variable logic:
  - the bounds-checked read;
  - the compare-then-overwrite write, with its force and simulate switches;
  - the choice of a variable among namesakes;
  - the load-option filter;
  - the image-name rule.
- `roundtrip.dfy` (module `RoundTrip`) proves the round trip: the printed line
  of an operation parses back to the same target, with the value assigned.

The source's loops are modelled as methods, each proved equal to a
specification function. This covers `split`, `trim`, `strip_last`,
`parse_args`, `parse_input`, `parse_operation`, `parse_target_ref`,
`to_string_with_size`, `set_value` and the sort in `get_variable`. The
properties are stated about those functions. `set_value` writes into an
`array` of bytes, and the namesakes are sorted in place in an `array`.
Everything the firmware supplies is passed in as plain data. That is the
variable content, the key list, the load-option text, the image path and
the status of a refused write.

One check in the code does less than its comment says, and the model
follows the code:

- **Size check.** The comment at `src/data.rs:64-65` says a value to be
  assigned must fit within its size. The comparison at `src/data.rs:66` is
  `value > 1 << (size * 8)`, so it also accepts 2^(8·size), one more than
  the largest value that fits (`Data.ValidateOffByOne`). `from_usize` then
  stores that value as all zeros.

The hexadecimal length limit does what its error text says. The size
constraint at `src/parse.rs:456-457` compares the literal's UTF-16 byte
count, terminator included, with 2 × (18 + 1). That admits at most 18
characters, so `0x` and at most 16 digits, which is 64 bits
(`Literals.HexDigitLimit`).

Other behaviours of the code are kept as written:

- `trim` returns a lone blank unchanged.
- A `#` after a single blank leaves the line ` `. No parser accepts that line,
  so the whole script fails on it.
- Scripts are never validated.
- A definition that assigns a value falls through to the operation parser.
  The operation's variable name then holds the comma.
- `split` emits no piece after a final delimiter. So `Name:` has one piece and
  fails, and one trailing `=` after a value is tolerated.
- The image name keeps a path separator that is the first character.

## Model

| member | source | states |
|---|---|---|
| `Errors.Collect` | src/parse.rs:189-193 | `collect` into a `Result` succeeds exactly when every item succeeds, keeping the results in order. Otherwise it returns the error of the first item that fails. Only the items up to that one need to be classifiable. |
| `Strings.TryNextChar` | src/string.rs:32-39 | It fails exactly when the iterator is exhausted, and then reports `ArgMore` with the whole literal. Otherwise the character it yields and the remaining text rebuild what was left. |
| `Strings.ParseMultipleFirstSuccess` | src/string.rs:44-73 | The combinator returns the result of some parser k. Every parser before k ran and failed. It returns an error only when k is the last parser, so earlier errors are discarded. |
| `Strings.ParseMultipleTwo` | src/string.rs:44-73 | With two parsers, the second runs only when the first fails. |
| `Strings.ParseMultipleFour` | src/string.rs:44-73 | With four parsers, each runs only when all before it failed. The last one may be partial and is reached only when needed. |
| `Strings.FindFirst` | src/string.rs:115-126 | It is `None` exactly when the character is absent. Otherwise it is an index holding the character, with no occurrence before it. |
| `Strings.FindLast` | src/string.rs:129-140 | It is `None` exactly when the character is absent. Otherwise it is an index holding the character, with no occurrence after it. |
| `Strings.FindFirstAt` | src/string.rs:115-126 | In `a + [c] + b`, where `a` holds no `c`, the first `c` is at index `\|a\|`. |
| `Strings.Has` | src/string.rs:143-152 | It is true exactly when the character occurs. |
| `Strings.HasFirst` | src/string.rs:155-160 | On a non-empty string it compares the first character. On the empty string it compares the NUL terminator, so it is false for every character other than NUL. |
| `Strings.PiecesHead` | src/string.rs:163-213 | The first piece is a prefix of the input and holds no character the input lacks. |
| `Strings.PiecesWithout` | src/string.rs:163-213 | Text without the delimiter is one piece, or no piece when it is empty. |
| `Strings.PiecesCons` | src/string.rs:163-213 | The text before the first delimiter is the first piece, even when it is empty. The rest is split in the same way. |
| `Strings.PiecesOfPair` | src/string.rs:163-213 | `a c b`, where neither side holds `c` and `b` is not empty, splits into exactly `[a, b]`. |
| `Strings.PiecesRebuild` | src/string.rs:163-213 | Joining the pieces with the delimiter rebuilds the input. One delimiter is appended when the input ended with one. |
| `Strings.PiecesFree` | src/string.rs:163-213 | No piece holds the delimiter. |
| `Strings.PiecesCount` | src/string.rs:163-213 | The number of pieces is the number of delimiters, plus one unless the input is empty or ends with the delimiter. |
| `Strings.PiecesTwo` | src/string.rs:163-213 | There are exactly two pieces exactly when there is one delimiter that is not last, or two delimiters of which one is last. |
| `Strings.PiecesTwoShape` | src/string.rs:163-213 | With two pieces, the input is piece, delimiter, piece, optionally followed by one delimiter. |
| `Strings.Split` | src/string.rs:163-213 | The loop that grows the current piece and pushes completed pieces returns exactly the pieces. |
| `Strings.SplitOnce` | src/string.rs:217-240 | It is `None` exactly when the delimiter is absent. Otherwise it gives the trimmed text before and after the first occurrence, and the first side holds no delimiter. |
| `Strings.SplitOnceAt` | src/string.rs:217-240 | When neither side needs trimming, splitting `a c b` at its first `c` gives back `(a, b)`. |
| `Strings.StripFirst` | src/string.rs:243-267 | It succeeds exactly when the first character is the given one. The result is the input without that one character. |
| `Strings.WithoutLast` | src/string.rs:270-298 | It succeeds exactly when the last character is the given one. The result is the input without that one character. |
| `Strings.StripLast` | src/string.rs:270-298 | It copies the input into a buffer and terminates the buffer at the last position. It returns exactly `WithoutLast`. |
| `Strings.Substring` | src/string.rs:301-312 | For `end` below the length, it returns the `end - start + 1` characters from `start` to `end` inclusive. |
| `Strings.Trimmed` | src/string.rs:315-358 | All-blank input becomes empty, except a lone blank, which is returned unchanged. Other input is trimmed to text that starts and ends with a character other than space or tab. |
| `Strings.TrimmedShape` | src/string.rs:315-358 | The result is a slice of the input with only blanks on either side, so interior characters are unchanged. |
| `Strings.TrimmedWithout` | src/string.rs:315-358 | Trimming adds no character. |
| `Strings.TrimmedUnchanged` | src/string.rs:315-358 | Text that neither starts nor ends with a blank is returned as is. |
| `Strings.Trim` | src/string.rs:315-358 | The two scans for the first and last character other than a blank return exactly `Trimmed`. |
| `Numerals.PowBytes` | src/data.rs:66 | `1 << (8 n)` is 256^n, and also 16^(2n). |
| `Numerals.HexValueSnoc` | src/parse.rs:462-471 | The positional sum of hexadecimal digits equals the most-significant-first fold. |
| `Numerals.HexValueBound` | src/parse.rs:462-471 | n hexadecimal digits hold less than 16^n. |
| `Numerals.HexValueZeros` | src/data.rs:254 | Zero padding does not change the value. |
| `Numerals.DecimalText` | src/data.rs:98 | Rust's `{}` spelling is non-empty, all digits, and its decimal value is the number. |
| `Numerals.HexText` | src/data.rs:254 | Rust's `{:x}` spelling is non-empty, lower-case hexadecimal digits, and its value is the number. |
| `Numerals.HexTextLength` | src/data.rs:254 | A number below 16^k is printed in at most k digits. |
| `Numerals.PrefixedHex` | src/data.rs:254 | The padded spelling is `0x` followed by digits worth the number. Its length is the width, or more when the digits need more. |
| `Numerals.PrefixedHexLength` | src/data.rs:118 | A number below 16^k, padded to at most 2 + k characters, is printed in at most 2 + k characters. |
| `Literals.ParseValueDec` | src/parse.rs:412-431 | It fails with `ArgNumDec` exactly when some character is not an ASCII digit. Otherwise it returns the decimal value. |
| `Literals.ParseValueHex` | src/parse.rs:434-476 | The checks run in order. Fewer than two characters gives `ArgMore`. A missing `0x`/`0X` gives `ArgNumHexPrefix`. More than 16 digits gives `ArgSizeLimit`. A non-hexadecimal digit gives `ArgNumHex`. Otherwise the result is the digits' value. |
| `Literals.HexDigitLimit` | src/parse.rs:456-459 | A prefixed literal is accepted exactly when it has at most sixteen digits. |
| `Literals.EmptyLiterals` | src/parse.rs:412-476 | The empty text is decimal 0, and a bare `0x`/`0X` is hexadecimal 0. Fewer than two characters fail as hexadecimal. |
| `Literals.DecimalRoundTrip` | src/parse.rs:412-431 | Every decimal spelling parses back to its number. |
| `Literals.HexRoundTrip` | src/parse.rs:434-476 | A padded `0x` spelling of at most 16 digits parses back to its number, and never parses as decimal. |
| `Data.Validate` | src/data.rs:59-87 | A query always passes. An assignment fails with `ArgSizeMismatch(value, size)` exactly when the value exceeds 256^size. |
| `Data.ValidateAll` | src/data.rs:178-180 | It passes exactly when every operation passes. Otherwise it returns the first failure. |
| `Data.ValidateArgs` | src/data.rs:167-184 | With usage requested it passes without checking anything. Otherwise it validates the operations in order. |
| `Data.AsDef` | src/data.rs:209-218 | It is defined on definitions only, and the entry is rebuilt from its result. |
| `Data.AsOp` | src/data.rs:221-231 | It is defined on operations only, and the entry is rebuilt from its result. |
| `Data.LeValueOfBytes` | src/data.rs:244-247 | Decoding the little-endian bytes of a value that fits gives back the value. |
| `Data.LeValueZeroExtend` | src/data.rs:251-254 | Zero bytes at the high end leave the little-endian value unchanged. |
| `Data.FromUsize` | src/data.rs:244-247 | It yields exactly `length` bytes whose little-endian value is the value modulo 256^length. |
| `Data.ValueText` | src/data.rs:250-256 | The printed value is `0x` and digits, at least `2 + 2 length` long. The digits are worth the little-endian value of the bytes. |
| `Data.ValueTextLength` | src/data.rs:250-256 | At most eight bytes, printed for a size of at most eight, take at most eighteen characters. |
| `Data.ToStringWithSize` | src/data.rs:250-256 | Zero-extending into an eight-byte buffer and printing gives exactly `ValueText`. |
| `Data.ToStringWithVal` | src/data.rs:90-121 | The printed line starts with the variable's name and ends with `=` and the printed value. `RoundTrip.PrintedOperationParses` proves that the line parses back to the same target. |
| `Data.ValidateFits` | src/data.rs:59-87 | A value below 256^size passes validation and is encoded without loss. |
| `Data.ValidateOffByOne` | src/data.rs:66 | The value 256^size passes validation, yet it is encoded as all zeros. 256^size + 1 is refused. |
| `Grammar.DecThenHex` | src/parse.rs:324 | Identifiers and sizes try decimal first. The hexadecimal error is reported when both fail. |
| `Grammar.HexThenDec` | src/parse.rs:368 | Offsets and values try hexadecimal first. A failure is always the decimal parser's `ArgNumDec`. |
| `Grammar.OperationTypeOf` | src/parse.rs:378-409 | Without `=`, the result is a query with the text unchanged. `ArgAss` is returned exactly when `=` splits into other than two pieces. An accepted `=` makes an assignment. |
| `Grammar.OperationTypeShape` | src/parse.rs:382-399 | An accepted assignment is the offset, `=` and the value text, possibly followed by one more `=`. |
| `Grammar.NameAndId` | src/parse.rs:304-330 | Without `(`, there is no identifier. `ArgVarBktL` means the `(` split is not two pieces. `ArgVarBktR` means there is no closing `)`. The name holds no `(`. |
| `Grammar.NameAndIdShape` | src/parse.rs:305-328 | An identifier comes from the bracketed number after the name. |
| `Grammar.OffsetAndSize` | src/parse.rs:341-365 | The size defaults to 1. The bracket errors are `ArgPosBktL` and `ArgPosBktR`, and the offset holds no `(`. |
| `Grammar.OffsetAndSizeShape` | src/parse.rs:342-363 | A size comes from the bracketed number after the offset. |
| `Grammar.OperationOf` | src/parse.rs:287-374 | `ArgPos` is returned exactly when `:` does not split into two pieces. Every error is a grammar or number error. |
| `Grammar.OperationOfShape` | src/parse.rs:287-374 | In an accepted operation, the name holds neither `:` nor `(`. It is a query exactly when the right part has no `=`. It has an identifier exactly when the left part has `(`. The size is 1 without a bracket. |
| `Grammar.ParseOperation` | src/parse.rs:287-374 | The step-by-step parse, which reassigns name, identifier, offset and size, returns exactly `OperationOf`. |
| `Grammar.OffsetIndicator` | src/parse.rs:290-296 | `Lang:`, `Lang`, `-x` and `A:0:1` all fail with `ArgPos`. |
| `Grammar.OperationOfParts` | src/parse.rs:287-374 | When the parts parse, `name:rest` parses to the operation built from them. |
| `Grammar.NameWithId` | src/parse.rs:305-328 | `name(id)` gives the name and the identifier. |
| `Grammar.AssignmentOf` | src/parse.rs:382-399 | `offset=value` gives the offset and an assignment of the value. |
| `Grammar.OffsetWithSize` | src/parse.rs:342-363 | `offset(size)` gives the offset and the size. |
| `Grammar.QueryExample` | src/parse.rs:287-374 | `Lang:0x00` queries one byte at offset 0. |
| `Grammar.IdExample` | src/parse.rs:305-328 | `Lang(2)` names `Lang` with identifier 2. |
| `Grammar.SetExample` | src/parse.rs:382-399 | `0x10(4)=0x0102` assigns 0x0102 at position `0x10(4)`. |
| `Grammar.SizeExample` | src/parse.rs:342-363 | `0x10(4)` is offset `0x10` with size 4. |
| `Grammar.AssignmentExample` | src/parse.rs:287-374 | `Lang(2):0x10(4)=0x0102` assigns 0x0102 to four bytes at 0x10 of the namesake with identifier 2. |
| `Grammar.TrailingAssignment` | src/parse.rs:385-390 | A second `=` at the end of the value is tolerated. |
| `Grammar.EmptyAssignment` | src/parse.rs:385-394 | An empty value between two `=` is decimal 0. |
| `Grammar.DoubleAssignment` | src/parse.rs:385-391 | Two assignment operators inside the text give `ArgAss`. |
| `Grammar.ByteAssignment` | src/parse.rs:287-374 | `Lang:0x00=<value>` assigns the value to one byte at offset 0. |
| `CommandLine.ParseArgOption` | src/parse.rs:100-137 | An option is returned exactly for its short or long spelling. Anything else is `ArgOpt`. |
| `CommandLine.ParseArgOperation` | src/parse.rs:91-97 | It succeeds exactly when the operation parses, and carries the operation or its error. |
| `CommandLine.ClassifyToken` | src/parse.rs:34-38 | An option wins, then an operation. A failure reports the token with the operation parser's error, never `ArgOpt`. |
| `CommandLine.ClassifyAll` | src/parse.rs:34-41 | It succeeds exactly when every token classifies, keeping them in order. Otherwise it returns the first bad token's error. |
| `CommandLine.TokenOption` | src/parse.rs:100-137 | A token becomes an option exactly when it spells that option. |
| `CommandLine.ClassifyTokens` | src/parse.rs:34-41 | The collecting loop returns exactly `ClassifyAll`. |
| `CommandLine.GatherOperations` | src/parse.rs:44-47 | The filter loop keeps exactly the operations, in order. |
| `CommandLine.RaiseFlags` | src/parse.rs:49-76 | Each flag is raised exactly when its option occurs among the arguments. |
| `CommandLine.ParseArgs` | src/parse.rs:25-88 | The method returns exactly what `ArgsOf` specifies: `ArgNone` for no tokens, then classification, operations, flags and validation. |
| `CommandLine.OperationsInTokens` | src/parse.rs:44-47 | The gathered operations are the tokens other than options, each parsed as an operation, in order. |
| `CommandLine.OperationOrder` | src/parse.rs:44-79 | An accepted command line yields its operations in token order, whatever options are mixed in. |
| `CommandLine.FlagSpelled` | src/parse.rs:49-76 | An option is among the arguments exactly when some token spells it. |
| `CommandLine.ArgsOutcome` | src/parse.rs:25-88 | A non-empty command line is accepted exactly when every token classifies and either help is requested or every operation fits its size. Otherwise it fails with the first bad token's error, then with `ArgSizeMismatch`. |
| `CommandLine.UnknownOption` | src/parse.rs:34-38 | A token without `:` that is no option is reported with `ArgPos`. |
| `CommandLine.SingleOperation` | src/parse.rs:25-88 | A lone operation is accepted exactly when it passes validation, and otherwise gives the validation error. |
| `CommandLine.NotAnOption` | src/parse.rs:100-137 | A token not starting with `-` spells no option. |
| `CommandLine.SingleByteAccepted` | src/data.rs:66 | `Lang:0x00=0x100` (256 in one byte) is accepted: the off-by-one. |
| `CommandLine.SingleByteRefused` | src/data.rs:66 | `Lang:0x00=0x101` is refused with `ArgSizeMismatch(257, 1)`. |
| `Script.Uncommented` | src/parse.rs:159-172 | It keeps the longest prefix without `#`. What follows it starts with `#`. |
| `Script.CleanLine` | src/parse.rs:153-186 | A line starting with `#` is dropped. Otherwise the text before `#` is trimmed and dropped when empty. A kept line is non-empty and holds no `#`. |
| `Script.CleanLines` | src/parse.rs:153-186 | It keeps the cleaned lines, each non-empty and free of `#`, never more than the input had. |
| `Script.ParseInputOption` | src/parse.rs:253-282 | `!force`, `!restart` and `!simulate` give their option, and nothing else does. Anything else is `InputOpt`. |
| `Script.ParseTargetDef` | src/parse.rs:482-505 | Without a comma it gives `InputDef`. Otherwise the trimmed target must parse as a query, which defines the trimmed alias. An assignment gives `InputDefSet`, and an operation error is passed on. |
| `Script.ParseInputOperation` | src/parse.rs:244-250 | It succeeds exactly when the operation parses, and carries the operation or its error. |
| `Script.TargetRefOf` | src/parse.rs:508-548 | Without `@` it gives `InputRef`. Without `=`, it refers to the rest with a query. Other errors are `ArgAss` or decimal errors. |
| `Script.TargetRefShape` | src/parse.rs:532-541 | `@name=tail`, with an `=`-free non-empty name, refers to `name` with the action of `=tail`, or fails with that action's error. |
| `Script.ParseTargetRef` | src/parse.rs:508-548 | The method that reassigns name and action returns exactly `TargetRefOf`. |
| `Script.ClassifyLineOrder` | src/parse.rs:189-193 | A line's classification is `parse_multiple!` over the option, definition, operation and reference parsers, in that order. The first success wins. The reference parser, which may panic, is reached only when the other three fail. |
| `Script.Entries` | src/parse.rs:189-193 | It succeeds exactly when every line classifies, keeping them in order. Otherwise it returns the first bad line's error. Lines after the first bad one are never classified, so they may be lines on which the reference parser would panic. |
| `Script.FindDefinition` | src/parse.rs:215-217 | It is `None` exactly when no definition has the name. Otherwise it is the target of the first definition with that name. |
| `Script.ResolvedRefs` | src/parse.rs:210-222 | On success, each reference takes the target of its first definition and keeps its own action, in order. |
| `Script.UnresolvedRef` | src/parse.rs:210-222 | On failure, the error is `InputRefNone` for the first reference without a definition. |
| `Script.ResolveRefsOutcome` | src/parse.rs:210-222 | Resolution succeeds exactly when every reference has a definition. |
| `Script.ScriptArgs` | src/parse.rs:145-147 | Empty input gives `InputNone`. |
| `Script.ScriptArgsOk` | src/parse.rs:195-226 | The operations are the direct ones in line order. Then come the referenced ones in line order, each bound to the target of its alias's first definition. |
| `Script.ScriptFlags` | src/parse.rs:228-239 | Each flag is raised exactly when a directive for it was read. Usage is never requested. |
| `Script.ScriptArgsErr` | src/parse.rs:189-222 | A failing script fails with the first bad line's error. Otherwise it fails with `InputRefNone` from resolution. |
| `Script.ParseInput` | src/parse.rs:142-241 | The method that splits, classifies, collects and appends returns exactly `ScriptArgs`. |
| `Script.OptionEntry` | src/parse.rs:253-282 | A line becomes an option exactly when it spells the directive. |
| `Script.ScriptFlagSpelled` | src/parse.rs:228-236 | An option entry is present exactly when some line spells it. |
| `Script.RefAssignment` | src/parse.rs:532-541 | `@name=value` refers to `name` with an assignment of the value. |
| `Script.SingleLine` | src/parse.rs:149-186 | A comment-free single line with nothing to trim is the whole script. |
| `Script.OperationLine` | src/parse.rs:189-193 | A line that is neither a directive, a definition nor a reference is classified as its operation. |
| `Script.SingleOperationScript` | src/parse.rs:142-241 | A script of one operation yields that operation with no flags. |
| `Script.ScriptOfRefusedLine` | src/parse.rs:189-193 | A one-line script fails with the line's classification error. |
| `Script.ScriptOfUnresolved` | src/parse.rs:210-222 | A script with an unresolved reference fails with the resolution error. |
| `Script.LoneBlankLine` | src/parse.rs:159-186 | ` # note` cleans to the line ` `, and the script fails with `InputRef(" ")`. |
| `Script.BlankLineRefused` | src/parse.rs:512-523 | The line ` ` is refused by every parser, the reference parser last. |
| `Script.ValueDefinition` | src/parse.rs:491-503 | A definition whose target assigns a value gives `InputDefSet`. |
| `Script.CommaNamedOperation` | src/parse.rs:287-374 | `A,Lang:0x00=0x05` parses as an assignment to a variable named `A,Lang`. |
| `Script.CommaDefinitionRefused` | src/parse.rs:482-505 | `A,Lang:0x00=0x05` is refused as a definition with `InputDefSet`. |
| `Script.DefinitionWithValue` | src/parse.rs:189-193 | That line falls through to the operation parser and becomes an operation on `A,Lang`. |
| `Script.BareReference` | src/parse.rs:508-548 | `@A` is a query reference to `A`. |
| `Script.UnknownReference` | src/parse.rs:215-217 | A script whose only line is `@A` fails with `InputRefNone("A")`. |
| `Script.FailureBeforePanic` | src/parse.rs:189-193 | `x` followed by `@=5` fails with the error for `x`. The line `@=5`, on which the reference parser panics, is never reached. |
| `Script.ScriptSkipsValidation` | src/parse.rs:238-239 | `Lang:0x00=0x101` is refused on the command line. It is accepted from a script, which is never validated. |
| `Firmware.ImageName` | src/firmware.rs:56-64 | The name is exactly a slice of the path, stated for each case. It starts right after the last separator. It starts at the beginning when there is no separator, or when the separator is the first character, and only then does a separator survive. It ends just before the last dot when that dot is past the first character. It is the first character alone when the only dot is first. It runs to the end when there is no dot. So `a\b.x` is named exactly `b`. |
| `Firmware.ImageNameOfPath` | src/firmware.rs:56-64 | `Dir\Name.Ext` is named `Name`. |
| `Firmware.ImageNameAtRoot` | src/firmware.rs:57-60 | `\Name.Ext` is named `\Name`, keeping the separator. |
| `Firmware.ImageNameBare` | src/firmware.rs:56-64 | `Name.Ext`, without a separator, is named `Name`. |
| `Firmware.ImageNameNoExtension` | src/firmware.rs:56-64 | `Dir\Name`, without a dot, is named `Name`. |
| `Firmware.ImageNamePlain` | src/firmware.rs:56-64 | A non-empty path with neither separator nor dot, such as `uvt`, is its own name. |
| `Firmware.ImageNameRootPlain` | src/firmware.rs:56-64 | `\Name` without a dot is named `\Name`, keeping the separator. |
| `Firmware.KeepLegit` | src/firmware.rs:141-143 | It keeps exactly the tokens that start with `-` or contain `:`. |
| `Firmware.KeepLegitAppend` | src/firmware.rs:141-143 | The filter keeps the original order. |
| `Firmware.LoadOptionTokens` | src/firmware.rs:141-143 | The tokens are the space-split pieces that start with `-` or hold `:`. Each is non-empty and free of spaces. |
| `Firmware.GetValue` | src/firmware.rs:204-217 | It fails with `UefiVarSize` exactly when `offset + length` exceeds the content. Otherwise it returns exactly those bytes. |
| `Firmware.Updated` | src/firmware.rs:256 | The new content has the same length, with the value in the range and every other byte unchanged. |
| `Firmware.SetValue` | src/firmware.rs:233-271 | Out of bounds, it fails and changes nothing. An unforced write of equal bytes returns `false` and changes nothing. Otherwise the range is overwritten and the rest kept. The store is written unless simulating, and a refused write is reported. |
| `Firmware.ReadAfterWrite` | src/firmware.rs:214 | Reading the written range gives the value. |
| `Firmware.RewriteUnchanged` | src/firmware.rs:246-250 | Writing back the bytes already there changes nothing. |
| `Firmware.WriteTwice` | src/firmware.rs:242-256 | Writing the same value twice is writing it once, and the range then holds the value. |
| `Firmware.Matching` | src/firmware.rs:293-301 | The kept keys all have the name, and they are all the keys with that name, counted with multiplicity. |
| `Firmware.SortByVendor` | src/firmware.rs:304 | The in-place sort leaves the keys ordered by vendor and is a permutation. |
| `Firmware.Insert` | src/firmware.rs:304 | Insertion keeps the order and adds exactly the key. |
| `Firmware.SortedKeys` | src/firmware.rs:304 | This reference sort is ordered by vendor and is a permutation. |
| `Firmware.SortedUnique` | src/firmware.rs:304 | Two sorted arrangements of the same namesakes are equal. |
| `Firmware.SelectKey` | src/firmware.rs:293-327 | `UefiVarGetNone` is returned exactly when no key has the name. `UefiVarGetMany` is returned exactly when there are several namesakes and no identifier. A single namesake is chosen whatever the identifier. The result is a key with that name. |
| `Firmware.GetVariable` | src/firmware.rs:293-327 | Filtering, sorting the array in place and picking by position returns exactly `SelectKey`. |
| `Firmware.SelectByRank` | src/firmware.rs:319-327 | With several namesakes, identifier i picks the key at rank i in vendor order. |
| `RoundTrip.NameBack` | src/data.rs:93-99 | The printed name and identifier parse back to the same name and identifier. |
| `RoundTrip.PositionBack` | src/data.rs:104-112 | The printed offset and size parse back to the same size. |
| `RoundTrip.ValueBack` | src/data.rs:250-256 | The printed value parses back to the number its bytes hold. |
| `RoundTrip.OffsetBack` | src/data.rs:118 | The printed offset parses back to the offset. |
| `RoundTrip.RestBack` | src/parse.rs:378-409 | The text right of `:` parses back to the position and an assignment of the printed value. |
| `RoundTrip.PrintedOperationParses` | src/data.rs:90-121 | The printed line of an operation parses back to the same target, with the printed value assigned. |
| `RoundTrip.AssignedValueParses` | src/data.rs:90-121 | A value that fits its size, stored and printed, parses back to an assignment of that value to the same target. |

## Left out

- Firmware services: the image path, the load-option text, variable enumeration, reads, writes, restart, exit and reading standard input. What they return is passed in as plain data.
- `src/main.rs`, and the listing printed for ambiguous names.
- The message text of errors. `AppError` keeps only its payloads, so `Arg("\"tok\" - err")` becomes `ArgToken(tok, err)`.
- The UTF-16 encoding and the NUL terminator. Strings are sequences of characters.
- `Display` for `UefiValue`, which nothing calls.
- Machine-integer overflow. Numbers are unbounded, so the decimal fold and the hexadecimal shift never wrap. `1 << (8 size)` is read as 2^(8 size) for every size, including sizes of eight bytes and more, where Rust overflows.
- `Data.Validate`: reads `1 << (8 size)` as 2^(8 size) for every size. For a size of 8 or more the shift overflows `usize`. A debug build then panics. A release build shifts by `8 size mod 64`, so for size 8 it compares with 1 and refuses every value above 1.
- `Data.FromUsize`: reads its mask the same way. For length 8 a release build masks with 0, so the variable receives zeros and the printed line shows `0x0000000000000000`.
- `Data.ValidateFits`: claims for size 8 that a value passes and is stored without loss. That holds for the model only. In the source, `Var:0x10(8)=0x1234` panics in a debug build and is refused in a release build.
- `RoundTrip.AssignedValueParses`: claims the round trip for size 8 as well. In the source, a size-8 value read from a script is stored as zeros in a release build, so the printed line does not give the value back.
- Panics become preconditions:
  - `substring` out of range;
  - the slice `to_le_bytes()[0 .. length]` in `from_usize` for a length above 8 (`requires length <= 8` on `Data.FromUsize`);
  - the copy into `bytes[0 .. self.0.len()]` of an 8-byte buffer in `to_string_with_size` for a value of more than 8 bytes (`requires |value| <= 8` on `Data.ValueText`, `Data.ToStringWithSize` and `Data.ToStringWithVal`). A query such as `Var:0x0(9)` reaches it through `get_value`;
  - the `ass - 1` underflow when `=` directly follows `@` (`Script.RefPanics`);
  - a `copy_from_slice` length mismatch in `set_value`;
  - `keys[id]` out of range in `get_variable`;
  - `as_def` and `as_op` on the wrong kind of entry.
- `Script.ScriptArgs`: its own contract only states the empty-input error. The success and failure outcomes are stated by `Script.ScriptArgsOk`, `Script.ScriptFlags` and `Script.ScriptArgsErr`.
- `Script.ResolveRefs`: its own contract only states the length. The content and the error are stated by `Script.ResolvedRefs` and `Script.UnresolvedRef`.
- `RoundTrip.PrintedOperationParses` and `RoundTrip.AssignedValueParses` require the offset to have at most sixteen hexadecimal digits. A larger offset does not fit the source's `usize` anyway.
- `Firmware.SetValue`: it takes the firmware's answer to a write as a parameter (`refusal`), because the write itself is a firmware service.
