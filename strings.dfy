/** Text primitives of the tool (src/string.rs): character search, splitting,
    stripping, inclusive substrings and the space/tab trim, plus the
    first-success parser combinator. Wide strings are modelled as `string`;
    the NUL terminator of the source's strings is not part of the model. */
module Strings {
  import opened Errors

  /** Space or horizontal tab: the only characters `trim` removes. */
  predicate IsBlank(c: char) {
    c == ' ' || c == '\t'
  }

  ghost predicate AllBlank(s: string) {
    forall k :: 0 <= k < |s| ==> IsBlank(s[k])
  }

  // ---------------------------------------------------------------------
  // The iterator step and the alternative-parser combinator
  // ---------------------------------------------------------------------

  /** Next character of a literal being scanned; `rest` is what the iterator
      has not yet produced and `text` the whole literal, reported when the
      iterator is exhausted. */
  function TryNextChar(rest: string, text: string): (r: Result<(char, string)>)
    ensures r.Err? <==> rest == []
    ensures r.Err? ==> r.error == ArgMore(text)
    ensures r.Ok? ==> [r.value.0] + r.value.1 == rest
  {
    if rest == [] then Err(ArgMore(text)) else Ok((rest[0], rest[1..]))
  }

  /** The parsers that `ParseMultiple` actually invokes can be applied: the
      first always runs, and each later one runs only when all earlier ones
      failed. A parser that would panic on its input is excluded only when
      it would really be reached. */
  ghost predicate Evaluable<T>(input: string, parsers: seq<string --> Result<T>>)
    decreases |parsers|
  {
    && |parsers| > 0
    && parsers[0].requires(input)
    && (parsers[0](input).Err? && |parsers| > 1 ==> Evaluable(input, parsers[1..]))
  }

  /** The first `k` parsers all run and all fail on `input`. */
  ghost predicate FailBefore<T>(input: string, parsers: seq<string --> Result<T>>, k: nat)
    requires k <= |parsers|
    decreases k
  {
    k == 0 ||
    (parsers[0].requires(input) && parsers[0](input).Err? && FailBefore(input, parsers[1..], k - 1))
  }

  /** Tries the parsers in order and returns the first success; when all
      fail, the result is the last parser's error. */
  function ParseMultiple<T>(input: string, parsers: seq<string --> Result<T>>): Result<T>
    requires Evaluable(input, parsers)
    decreases |parsers|
  {
    var first := parsers[0](input);
    if first.Ok? || |parsers| == 1 then first else ParseMultiple(input, parsers[1..])
  }

  /** The combinator returns the result of some parser `k` such that every
      parser before `k` ran and failed, and it returns an error only if `k`
      is the last parser: the first success wins, and otherwise the last
      error is reported and the earlier errors are discarded. */
  lemma {:induction false} ParseMultipleFirstSuccess<T>(input: string, parsers: seq<string --> Result<T>>)
    requires Evaluable(input, parsers)
    ensures exists k :: 0 <= k < |parsers| && FailBefore(input, parsers, k) && parsers[k].requires(input)
                        && ParseMultiple(input, parsers) == parsers[k](input)
                        && (ParseMultiple(input, parsers).Err? ==> k == |parsers| - 1)
    decreases |parsers|
  {
    var first := parsers[0](input);
    if first.Ok? || |parsers| == 1 {
      assert FailBefore(input, parsers, 0);
    } else {
      ParseMultipleFirstSuccess(input, parsers[1..]);
      var k :| 0 <= k < |parsers[1..]| && FailBefore(input, parsers[1..], k) && parsers[1..][k].requires(input)
               && ParseMultiple(input, parsers[1..]) == parsers[1..][k](input)
               && (ParseMultiple(input, parsers[1..]).Err? ==> k == |parsers[1..]| - 1);
      assert FailBefore(input, parsers, k + 1);
      assert parsers[k + 1] == parsers[1..][k];
    }
  }

  /** With two total parsers: the second runs only when the first fails. */
  lemma ParseMultipleTwo<T>(input: string, p: string -> Result<T>, q: string -> Result<T>)
    ensures Evaluable(input, [p, q])
    ensures ParseMultiple(input, [p, q]) == if p(input).Ok? then p(input) else q(input)
  {
    assert [p, q][1..] == [q];
  }

  /** With four parsers of which only the last may be partial: each runs
      only when all before it failed. */
  lemma ParseMultipleFour<T>(input: string, p: string -> Result<T>, q: string -> Result<T>,
                             s: string -> Result<T>, t: string --> Result<T>)
    requires p(input).Ok? || q(input).Ok? || s(input).Ok? || t.requires(input)
    ensures Evaluable(input, [p, q, s, t])
    ensures ParseMultiple(input, [p, q, s, t]) ==
              if p(input).Ok? then p(input)
              else if q(input).Ok? then q(input)
              else if s(input).Ok? then s(input)
              else t(input)
  {
    var ps := [p, q, s, t];
    assert ps[1..] == [q, s, t] && [q, s, t][1..] == [s, t] && [s, t][1..] == [t];
    if !p(input).Ok? && !q(input).Ok? && !s(input).Ok? {
      assert Evaluable(input, [t]);
      assert ParseMultiple(input, [t]) == t(input);
    }
    if !p(input).Ok? && !q(input).Ok? {
      assert Evaluable(input, [s, t]);
      assert ParseMultiple(input, [s, t]) == if s(input).Ok? then s(input) else t(input);
    }
    if !p(input).Ok? {
      assert Evaluable(input, [q, s, t]);
      assert ParseMultiple(input, [q, s, t]) ==
               if q(input).Ok? then q(input) else ParseMultiple(input, [s, t]);
    }
  }

  // ---------------------------------------------------------------------
  // Search
  // ---------------------------------------------------------------------

  /** Index of the first occurrence of `c`. */
  function FindFirst(s: string, c: char): (r: Option<nat>)
    ensures r.None? <==> c !in s
    ensures r.Some? ==> r.value < |s| && s[r.value] == c && c !in s[..r.value]
  {
    if s == [] then None
    else if s[0] == c then Some(0)
    else match FindFirst(s[1..], c)
      case None => None
      case Some(i) =>
        assert s[..i + 1] == [s[0]] + s[1..][..i];
        Some(i + 1)
  }

  /** Index of the last occurrence of `c`. */
  function FindLast(s: string, c: char): (r: Option<nat>)
    ensures r.None? <==> c !in s
    ensures r.Some? ==> r.value < |s| && s[r.value] == c && c !in s[r.value + 1..]
  {
    if s == [] then None
    else if s[|s| - 1] == c then Some(|s| - 1)
    else
      var init := s[..|s| - 1];
      assert s == init + [s[|s| - 1]];
      match FindLast(init, c)
      case None => None
      case Some(i) =>
        SnocSuffix(init, s[|s| - 1], i);
        Some(i)
  }

  /** The two substrings around the first `c`, when it is not the first
      character. */
  lemma CutAt(s: string, c: char, i: nat, before: string, after: string)
    requires FindFirst(s, c) == Some(i) && i > 0
    requires before == Substring(s, 0, i - 1) && after == Substring(s, i, |s| - 1)
    ensures s == before + after && c !in before && before != [] && |after| > 0 && after[0] == c
  {
    assert before == s[..i] && after == s[i..];
  }

  /** A suffix of `init + [x]` that starts inside `init`. */
  lemma SnocSuffix(init: string, x: char, i: nat)
    requires i < |init|
    ensures (init + [x])[i + 1..] == init[i + 1..] + [x]
  {
  }

  /** Whether `c` occurs in `s`. */
  function Has(s: string, c: char): (r: bool)
    ensures r <==> c in s
  {
    s != [] && (s[0] == c || Has(s[1..], c))
  }

  /** Whether `s` starts with `c`. The source compares the first character,
      or the NUL terminator of an empty string, with `c`. */
  function HasFirst(s: string, c: char): (r: bool)
    ensures |s| > 0 ==> (r <==> s[0] == c)
    ensures |s| == 0 ==> (r <==> c == '\0')
  {
    (if s == [] then '\0' else s[0]) == c
  }

  // ---------------------------------------------------------------------
  // Splitting
  // ---------------------------------------------------------------------

  /** The pieces of `s` between occurrences of `c`: every piece before a
      delimiter is kept, even an empty one, and the text after the last
      delimiter is kept only when it is not empty. */
  function Pieces(s: string, c: char): (r: seq<string>)
    decreases |s|
  {
    if s == [] then []
    else match FindFirst(s, c)
      case None => [s]
      case Some(i) => [s[..i]] + Pieces(s[i + 1..], c)
  }

  /** The first piece is a prefix of the input. */
  lemma PiecesHead(s: string, c: char)
    requires Pieces(s, c) != []
    ensures Pieces(s, c)[0] <= s
    ensures forall x :: x !in s ==> x !in Pieces(s, c)[0]
  {
    var head := Pieces(s, c)[0];
    assert head == s[..|head|];
    assert forall k :: 0 <= k < |head| ==> head[k] == s[k];
  }

  /** The pieces joined back together with the delimiter. */
  function Join(pieces: seq<string>, c: char): string
  {
    if pieces == [] then []
    else if |pieces| == 1 then pieces[0]
    else pieces[0] + [c] + Join(pieces[1..], c)
  }

  lemma PiecesWithout(a: string, c: char)
    requires c !in a
    ensures Pieces(a, c) == if a == [] then [] else [a]
  {
  }

  lemma PiecesCons(a: string, b: string, c: char)
    requires c !in a
    ensures Pieces(a + [c] + b, c) == [a] + Pieces(b, c)
  {
    var s := a + [c] + b;
    var i := FindFirst(s, c).value;
    assert s[|a|] == c;
    assert s[..|a|] == a;
    assert i == |a|;
    assert s[..i] == a && s[i + 1..] == b;
  }

  /** Splitting `a c b` with neither part holding `c` gives exactly [a, b]. */
  lemma PiecesOfPair(a: string, b: string, c: char)
    requires c !in a && c !in b && b != []
    ensures Pieces(a + [c] + b, c) == [a, b]
  {
    PiecesCons(a, b, c);
    PiecesWithout(b, c);
  }

  lemma JoinCons(a: string, rest: seq<string>, c: char)
    ensures Join([a] + rest, c) == if rest == [] then a else a + [c] + Join(rest, c)
  {
    assert ([a] + rest)[1..] == rest;
  }

  /** Joining the pieces with the delimiter, plus one trailing delimiter when
      the input ended with one, rebuilds the input. */
  lemma RebuildStep(a: string, t: string, c: char)
    requires c !in a
    requires Join(Pieces(t, c), c) + (if t != [] && t[|t| - 1] == c then [c] else []) == t
    ensures var s := a + [c] + t;
            Join(Pieces(s, c), c) + (if s[|s| - 1] == c then [c] else []) == s
  {
    var s := a + [c] + t;
    PiecesCons(a, t, c);
    var rest := Pieces(t, c);
    JoinCons(a, rest, c);
  }

  lemma {:induction false} PiecesRebuild(s: string, c: char)
    ensures Join(Pieces(s, c), c) + (if s != [] && s[|s| - 1] == c then [c] else []) == s
    decreases |s|
  {
    if c !in s {
      PiecesWithout(s, c);
    } else {
      var i := FindFirst(s, c).value;
      var a, t := s[..i], s[i + 1..];
      assert s == a + [c] + t;
      PiecesRebuild(t, c);
      RebuildStep(a, t, c);
    }
  }

  /** No piece holds the delimiter. */
  lemma {:induction false} PiecesFree(s: string, c: char)
    ensures forall k :: 0 <= k < |Pieces(s, c)| ==> c !in Pieces(s, c)[k]
    decreases |s|
  {
    if c !in s {
      PiecesWithout(s, c);
    } else {
      var i := FindFirst(s, c).value;
      var a, t := s[..i], s[i + 1..];
      assert s == a + [c] + t;
      PiecesCons(a, t, c);
      PiecesFree(t, c);
    }
  }

  /** The number of pieces is the number of delimiters, plus one when the
      input does not end with the delimiter (so a trailing delimiter yields
      no empty piece). */
  lemma {:induction false} PiecesCount(s: string, c: char)
    ensures |Pieces(s, c)| == multiset(s)[c] + (if s != [] && s[|s| - 1] != c then 1 else 0)
    decreases |s|
  {
    if s == [] {
    } else if c !in s {
      PiecesWithout(s, c);
      assert multiset(s)[c] == 0;
    } else {
      var i := FindFirst(s, c).value;
      var a, t := s[..i], s[i + 1..];
      assert s == a + [c] + t;
      PiecesCons(a, t, c);
      PiecesCount(t, c);
      assert multiset(s) == multiset(a) + multiset([c]) + multiset(t);
      assert multiset(a)[c] == 0;
      if t != [] {
        assert t[|t| - 1] == s[|s| - 1];
      }
    }
  }

  /** Exactly two pieces: one delimiter not at the end, or two delimiters of
      which one is the last character. */
  lemma PiecesTwo(s: string, c: char)
    ensures |Pieces(s, c)| == 2 <==>
              (s != [] && s[|s| - 1] != c && multiset(s)[c] == 1) ||
              (s != [] && s[|s| - 1] == c && multiset(s)[c] == 2)
  {
    PiecesCount(s, c);
    if s == [] {
      assert multiset(s)[c] == 0;
    }
  }

  /** When there are exactly two pieces, the input is the first piece, the
      delimiter and the second piece, possibly followed by one delimiter. */
  lemma PiecesTwoShape(s: string, c: char)
    requires |Pieces(s, c)| == 2
    ensures var p := Pieces(s, c);
            s == p[0] + [c] + p[1] || s == p[0] + [c] + p[1] + [c]
  {
    var p := Pieces(s, c);
    PiecesRebuild(s, c);
    assert p[1..] == [p[1]];
    assert Join(p, c) == p[0] + [c] + p[1];
  }

  lemma SplitEnd(current: string, rest: string, c: char)
    requires c !in current && rest == []
    ensures Pieces(current + rest, c) == if current == [] then [] else [current]
  {
    assert current + rest == current;
    PiecesWithout(current, c);
  }

  /** One character of the split: it extends the current piece, or ends it. */
  lemma SplitAdvance(parts: seq<string>, current: string, s: string, i: nat, c: char)
    requires i < |s| && c !in current
    requires parts + Pieces(current + s[i..], c) == Pieces(s, c)
    ensures s[i] != c ==> c !in current + [s[i]] &&
                          parts + Pieces((current + [s[i]]) + s[i + 1..], c) == Pieces(s, c)
    ensures s[i] == c ==> (parts + [current]) + Pieces([] + s[i + 1..], c) == Pieces(s, c)
  {
    var x, rest := s[i], s[i + 1..];
    assert s[i..] == [x] + rest;
    if x == c {
      SplitCut(parts, current, rest, c);
    } else {
      SplitKeep(current, x, rest, c);
    }
  }

  lemma SplitKeep(current: string, x: char, rest: string, c: char)
    requires c !in current && x != c
    ensures c !in current + [x]
    ensures Pieces(current + ([x] + rest), c) == Pieces((current + [x]) + rest, c)
  {
    assert current + ([x] + rest) == (current + [x]) + rest;
  }

  lemma SplitCut(parts: seq<string>, current: string, rest: string, c: char)
    requires c !in current
    ensures parts + Pieces(current + ([c] + rest), c) == (parts + [current]) + Pieces([] + rest, c)
  {
    var later := Pieces(rest, c);
    calc {
      parts + Pieces(current + ([c] + rest), c);
    == { assert current + ([c] + rest) == current + [c] + rest;
         PiecesCons(current, rest, c); }
      parts + ([current] + later);
    ==
      (parts + [current]) + later;
    == { assert [] + rest == rest; }
      (parts + [current]) + Pieces([] + rest, c);
    }
  }

  /** Splits `s` at every `c`, pushing characters onto the current piece and
      completed pieces onto the result (src/string.rs:163-213). */
  method Split(s: string, c: char) returns (parts: seq<string>)
    ensures parts == Pieces(s, c)
  {
    parts := [];
    var current: string := [];
    assert current + s[0..] == s;
    for i := 0 to |s|
      invariant c !in current
      invariant parts + Pieces(current + s[i..], c) == Pieces(s, c)
    {
      SplitAdvance(parts, current, s, i, c);
      if s[i] != c {
        current := current + [s[i]];
      } else {
        parts := parts + [current];
        current := [];
      }
    }
    SplitEnd(current, s[|s|..], c);
    if current != [] {
      parts := parts + [current];
    }
  }

  /** Splits at the first `c` and trims both sides. */
  function SplitOnce(s: string, c: char): (r: Option<(string, string)>)
    ensures r.None? <==> c !in s
    ensures r.Some? ==> exists i :: 0 <= i < |s| && s[i] == c && c !in s[..i] &&
                                    r.value == (Trimmed(s[..i]), Trimmed(s[i + 1..]))
    ensures r.Some? ==> c !in r.value.0
  {
    match FindFirst(s, c)
    case None => None
    case Some(i) =>
      var r := (Trimmed(s[..i]), Trimmed(s[i + 1..]));
      TrimmedWithout(s[..i], c);
      assert s[i] == c && c !in s[..i];
      Some(r)
  }

  /** The first `c` is the one right after a prefix without `c`. */
  lemma FindFirstAt(a: string, b: string, c: char)
    requires c !in a
    ensures FindFirst(a + [c] + b, c) == Some(|a|)
  {
    var s := a + [c] + b;
    assert s[|a|] == c && s[..|a|] == a;
  }

  /** Splitting at the first `c` gives back both sides when neither needs
      trimming. */
  lemma SplitOnceAt(a: string, b: string, c: char)
    requires c !in a
    requires |a| > 0 && !IsBlank(a[0]) && !IsBlank(a[|a| - 1])
    requires |b| > 0 && !IsBlank(b[0]) && !IsBlank(b[|b| - 1])
    ensures SplitOnce(a + [c] + b, c) == Some((a, b))
  {
    var s := a + [c] + b;
    FindFirstAt(a, b, c);
    assert s[..|a|] == a && s[|a| + 1..] == b;
    TrimmedUnchanged(a);
    TrimmedUnchanged(b);
  }

  // ---------------------------------------------------------------------
  // Stripping and substrings
  // ---------------------------------------------------------------------

  /** `s` without its first character, when that character is `c`. */
  function StripFirst(s: string, c: char): (r: Option<string>)
    ensures r.Some? <==> |s| > 0 && s[0] == c
    ensures r.Some? ==> [c] + r.value == s
  {
    if |s| > 0 && s[0] == c then Some(s[1..]) else None
  }

  /** `s` without its last character, when that character is `c`. */
  function WithoutLast(s: string, c: char): (r: Option<string>)
    ensures r.Some? <==> |s| > 0 && s[|s| - 1] == c
    ensures r.Some? ==> r.value + [c] == s
  {
    if |s| > 0 && s[|s| - 1] == c then Some(s[..|s| - 1]) else None
  }

  /** Copies the characters into a buffer and overwrites the last one with
      the terminator (src/string.rs:270-298). */
  method StripLast(s: string, c: char) returns (r: Option<string>)
    ensures r == WithoutLast(s, c)
  {
    if |s| == 0 || s[|s| - 1] != c {
      return None;
    }
    var buffer := new char[|s|](i requires 0 <= i < |s| => s[i]);
    buffer[|s| - 1] := '\0';
    assert buffer[..|s| - 1] == s[..|s| - 1];
    // The overwritten element terminates the string
    r := Some(buffer[..|s| - 1]);
  }

  /** Characters `start` to `end`, both included. */
  function Substring(s: string, start: nat, end: nat): (r: string)
    requires end < |s| && start <= end + 1
    ensures |r| == end - start + 1
    ensures forall k :: 0 <= k < |r| ==> r[k] == s[start + k]
  {
    s[start..end + 1]
  }

  // ---------------------------------------------------------------------
  // Trimming
  // ---------------------------------------------------------------------

  /** Number of leading blanks. */
  function LeadingBlanks(s: string): (n: nat)
    ensures n <= |s|
    ensures forall k :: 0 <= k < n ==> IsBlank(s[k])
    ensures n < |s| ==> !IsBlank(s[n])
  {
    if s == [] || !IsBlank(s[0]) then 0 else 1 + LeadingBlanks(s[1..])
  }

  /** Number of trailing blanks. */
  function TrailingBlanks(s: string): (n: nat)
    ensures n <= |s|
    ensures forall k :: |s| - n <= k < |s| ==> IsBlank(s[k])
    ensures n < |s| ==> !IsBlank(s[|s| - 1 - n])
  {
    if s == [] || !IsBlank(s[|s| - 1]) then 0 else 1 + TrailingBlanks(s[..|s| - 1])
  }

  /** What `trim` returns: the input without its leading and trailing spaces
      and tabs. An all-blank input becomes empty only when it has at least
      two characters; a lone blank is returned unchanged. */
  function Trimmed(s: string): (r: string)
    ensures AllBlank(s) ==> r == if |s| == 1 then s else []
    ensures !AllBlank(s) ==> |r| > 0 && !IsBlank(r[0]) && !IsBlank(r[|r| - 1])
  {
    if |s| == 0 then
      []
    else if LeadingBlanks(s) == |s| then
      if |s| == 1 then s else []
    else
      var a, b := LeadingBlanks(s), |s| - TrailingBlanks(s);
      assert !IsBlank(s[a]);
      assert a < b;
      s[a..b]
  }

  /** Trimming removes blanks from the ends only: the result is a slice of
      the input with nothing but blanks on either side. */
  lemma TrimmedShape(s: string)
    ensures var r := Trimmed(s);
            exists a :: 0 <= a <= |s| - |r| && r == s[a..a + |r|] &&
                        AllBlank(s[..a]) && AllBlank(s[a + |r|..])
  {
    var r := Trimmed(s);
    if |s| == 0 {
      assert s[0..0] == [] && s[..0] == [] && s[0..] == [];
    } else if LeadingBlanks(s) == |s| {
      assert s[..0] == [] && s[0..] == s && s[0..|s|] == s && s[0..0] == [];
    } else {
      var a, b := LeadingBlanks(s), |s| - TrailingBlanks(s);
      assert !IsBlank(s[a]);
      assert AllBlank(s[..a]) && AllBlank(s[b..]);
      assert r == s[a..a + |r|];
    }
  }

  /** Trimming only removes characters. */
  lemma TrimmedWithout(s: string, c: char)
    requires c !in s
    ensures c !in Trimmed(s)
  {
    if |s| > 0 && LeadingBlanks(s) < |s| {
      var a, b := LeadingBlanks(s), |s| - TrailingBlanks(s);
      assert Trimmed(s) == s[a..b];
      assert s[a..b] == s[..b][a..];
    }
  }

  /** Text that neither starts nor ends with a blank is left alone. */
  lemma TrimmedUnchanged(s: string)
    requires |s| > 0 && !IsBlank(s[0]) && !IsBlank(s[|s| - 1])
    ensures Trimmed(s) == s
  {
    assert s[0..|s|] == s;
  }

  /** Locates the first and last non-blank characters with two scans
      (src/string.rs:315-358). */
  method Trim(s: string) returns (r: string)
    ensures r == Trimmed(s)
  {
    if |s| == 0 {
      return [];
    }
    var length := |s| - 1;
    var start, end := length, 0;
    for i := 0 to |s|
      invariant forall k :: 0 <= k < i ==> IsBlank(s[k])
      invariant start == length
    {
      if !IsBlank(s[i]) {
        start := i;
        break;
      }
    }
    assert start == LeadingBlanks(s) || (AllBlank(s) && start == length);
    for i := 0 to |s|
      invariant forall k :: length - i < k < |s| ==> IsBlank(s[k])
      invariant end == 0
    {
      if !IsBlank(s[length - i]) {
        end := length - i;
        break;
      }
    }
    assert end == length - TrailingBlanks(s) || (AllBlank(s) && end == 0);
    if start > end {
      r := [];
    } else {
      r := Substring(s, start, end);
    }
  }
}
