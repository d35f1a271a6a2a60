/** The parts of the firmware layer that work on plain data
    (src/firmware.rs): the image name taken from the image path, the filter
    on the raw load options, the choice of a variable among its namesakes,
    and reading and writing a slice of a variable's content. The firmware
    services themselves are not modelled: what they return is passed in. */
module Firmware {
  import opened Errors
  import opened Strings
  import opened Data

  // ---------------------------------------------------------------------
  // Image name
  // ---------------------------------------------------------------------

  /** Where the name starts: after the last path separator, except that a
      separator at the very start is kept. */
  function ImageStart(path: string): nat {
    match FindLast(path, '\\')
    case None => 0
    case Some(i) => if i == 0 then 0 else i + 1
  }

  /** Where the name ends (inclusive): before the last extension separator,
      or at the last character. An extension separator at the very start
      ends the name on that separator. */
  function ImageEnd(path: string): int {
    match FindLast(path, '.')
    case None => |path| - 1
    case Some(i) => if i == 0 then 0 else i - 1
  }

  /** The bounds `substring` accepts; otherwise the source panics. */
  predicate ImageNameDefined(path: string) {
    0 <= ImageEnd(path) < |path| && ImageStart(path) <= ImageEnd(path) + 1
  }

  /** `get_image_name`, given the image path. */
  function ImageName(path: string): (r: string)
    requires ImageNameDefined(path)
    ensures FindLast(path, '\\').Some? && FindLast(path, '\\').value > 0 ==> NameAfterSeparator(path, r)
    ensures FindLast(path, '\\').None? || FindLast(path, '\\') == Some(0) ==> NamePrefix(path, r)
    ensures '\\' in r ==> FindLast(path, '\\') == Some(0)
    ensures '.' !in path ==> NameSuffix(path, r)
    ensures FindLast(path, '.').Some? && FindLast(path, '.').value > 0 ==> NameBeforeDot(path, r)
    ensures AfterSeparator(path) && DotPastStart(path) ==>
      r == path[FindLast(path, '\\').value + 1..FindLast(path, '.').value]
    ensures AfterSeparator(path) && '.' !in path ==> r == path[FindLast(path, '\\').value + 1..]
    ensures !AfterSeparator(path) && DotPastStart(path) ==> r == path[..FindLast(path, '.').value]
    ensures !AfterSeparator(path) && '.' !in path ==> r == path
    ensures FindLast(path, '.') == Some(0) ==> r == path[..1]
  {
    var start, end := ImageStart(path), ImageEnd(path);
    var r := Substring(path, start, end);
    assert r == path[start..end + 1];
    NameSlice(path, start, end, r);
    NameStart(path, start, end, r);
    NameSeparator(path, start, end, r);
    NameEnd(path, start, end, r);
    NameDot(path, start, end, r);
    r
  }

  /** The path has a separator past its first character. */
  predicate AfterSeparator(path: string) {
    FindLast(path, '\\').Some? && FindLast(path, '\\').value > 0
  }

  /** The path has an extension separator past its first character. */
  predicate DotPastStart(path: string) {
    FindLast(path, '.').Some? && FindLast(path, '.').value > 0
  }

  /** The name is exactly the text between the last separator (or the
      start) and the last dot (or the end), case by case. */
  lemma NameSlice(path: string, start: nat, end: nat, r: string)
    requires start == ImageStart(path) && end == ImageEnd(path) && ImageNameDefined(path)
    requires r == path[start..end + 1]
    ensures AfterSeparator(path) && DotPastStart(path) ==>
      r == path[FindLast(path, '\\').value + 1..FindLast(path, '.').value]
    ensures AfterSeparator(path) && '.' !in path ==> r == path[FindLast(path, '\\').value + 1..]
    ensures !AfterSeparator(path) && DotPastStart(path) ==> r == path[..FindLast(path, '.').value]
    ensures !AfterSeparator(path) && '.' !in path ==> r == path
    ensures FindLast(path, '.') == Some(0) ==> r == path[..1]
  {
    if '.' !in path {
      assert FindLast(path, '.').None?;
    }
  }

  /** The name starts right after the last separator. */
  predicate NameAfterSeparator(path: string, r: string)
    requires FindLast(path, '\\').Some?
  {
    var i := FindLast(path, '\\').value;
    |r| <= |path| - i - 1 && r == path[i + 1..][..|r|]
  }

  /** The name is the start of the path. */
  predicate NamePrefix(path: string, r: string) {
    |r| <= |path| && r == path[..|r|]
  }

  /** The name starts after the last separator, or at the start of the path
      when there is none or it is the first character. */
  lemma NameStart(path: string, start: nat, end: nat, r: string)
    requires start == ImageStart(path) && end == ImageEnd(path) && ImageNameDefined(path)
    requires r == path[start..end + 1]
    ensures FindLast(path, '\\').Some? && FindLast(path, '\\').value > 0 ==> NameAfterSeparator(path, r)
    ensures FindLast(path, '\\').None? || FindLast(path, '\\') == Some(0) ==> NamePrefix(path, r)
  {
    if start > 0 {
      assert r == path[start..][..|r|];
    }
  }

  /** A separator survives in the name only from the start of the path. */
  lemma NameSeparator(path: string, start: nat, end: nat, r: string)
    requires start == ImageStart(path) && end == ImageEnd(path) && ImageNameDefined(path)
    requires r == path[start..end + 1]
    ensures '\\' in r ==> FindLast(path, '\\') == Some(0)
  {
    match FindLast(path, '\\')
    case None =>
      assert r == path[..end + 1][start..];
    case Some(i) =>
      if i > 0 {
        assert r == path[i + 1..][..end - i];
      }
  }

  /** The name is the end of the path. */
  predicate NameSuffix(path: string, r: string) {
    |r| <= |path| && path[|path| - |r|..] == r
  }

  /** The name ends right before the last dot. */
  predicate NameBeforeDot(path: string, r: string)
    requires FindLast(path, '.').Some?
  {
    var d := FindLast(path, '.').value;
    |r| <= d && r == path[d - |r|..d]
  }

  /** Without a dot, the name runs to the end of the path. */
  lemma NameEnd(path: string, start: nat, end: nat, r: string)
    requires start == ImageStart(path) && end == ImageEnd(path) && ImageNameDefined(path)
    requires r == path[start..end + 1]
    ensures '.' !in path ==> NameSuffix(path, r)
  {
  }

  /** With a dot past the start, the name stops before the last one. */
  lemma NameDot(path: string, start: nat, end: nat, r: string)
    requires start == ImageStart(path) && end == ImageEnd(path) && ImageNameDefined(path)
    requires r == path[start..end + 1]
    ensures FindLast(path, '.').Some? && FindLast(path, '.').value > 0 ==> NameBeforeDot(path, r)
  {
  }

  /** The last occurrence of `c` in `a + [c] + b` when `b` holds none. */
  lemma FindLastAt(a: string, b: string, c: char)
    requires c !in b
    ensures FindLast(a + [c] + b, c) == Some(|a|)
  {
    var s := a + [c] + b;
    assert s[|a|] == c && s[|a| + 1..] == b;
  }

  /** A path `Dir\Name.Ext`, where the name and extension hold no separator
      and the extension no dot, is named `Name`. */
  lemma ImageNameOfPath(dir: string, name: string, ext: string)
    requires dir != [] && '\\' !in name && '\\' !in ext && '.' !in ext
    ensures ImageNameDefined(dir + "\\" + name + "." + ext)
    ensures ImageName(dir + "\\" + name + "." + ext) == name
  {
    var path := dir + "\\" + name + "." + ext;
    PathBounds(path, dir, name, ext);
    assert path[|dir| + 1..|dir| + 1 + |name|] == name;
  }

  /** Where the name of `Dir\Name.Ext` starts and ends. */
  lemma PathBounds(path: string, dir: string, name: string, ext: string)
    requires path == dir + "\\" + name + "." + ext
    requires dir != [] && '\\' !in name && '\\' !in ext && '.' !in ext
    ensures ImageStart(path) == |dir| + 1 && ImageEnd(path) == |dir| + |name|
  {
    var tail := name + "." + ext;
    assert '\\' !in tail by {
      forall k | 0 <= k < |tail| ensures tail[k] != '\\' {
        if k < |name| { assert tail[k] == name[k]; }
        else if k > |name| { assert tail[k] == ext[k - |name| - 1]; }
      }
    }
    assert path == dir + ['\\'] + tail;
    FindLastAt(dir, tail, '\\');
    assert path == (dir + "\\" + name) + ['.'] + ext;
    FindLastAt(dir + "\\" + name, ext, '.');
  }

  /** A path whose only separator is the first character keeps that
      separator: `\Name.Ext` is named `\Name`. */
  lemma ImageNameAtRoot(name: string, ext: string)
    requires '\\' !in name && '\\' !in ext && '.' !in ext
    ensures ImageNameDefined("\\" + name + "." + ext)
    ensures ImageName("\\" + name + "." + ext) == "\\" + name
  {
    var path := "\\" + name + "." + ext;
    RootBounds(path, name, ext);
    assert path[0..|name| + 1] == "\\" + name;
  }

  /** Where the name of `\Name.Ext` starts and ends. */
  lemma RootBounds(path: string, name: string, ext: string)
    requires path == "\\" + name + "." + ext
    requires '\\' !in name && '\\' !in ext && '.' !in ext
    ensures ImageStart(path) == 0 && ImageEnd(path) == |name|
  {
    var tail := name + "." + ext;
    assert '\\' !in tail by {
      forall k | 0 <= k < |tail| ensures tail[k] != '\\' {
        if k < |name| { assert tail[k] == name[k]; }
        else if k > |name| { assert tail[k] == ext[k - |name| - 1]; }
      }
    }
    assert path == [] + ['\\'] + tail;
    FindLastAt([], tail, '\\');
    assert path == ("\\" + name) + ['.'] + ext;
    FindLastAt("\\" + name, ext, '.');
  }

  /** A path without a separator, `Name.Ext`, is named `Name`. */
  lemma ImageNameBare(name: string, ext: string)
    requires name != [] && '\\' !in name && '\\' !in ext && '.' !in ext
    ensures ImageNameDefined(name + "." + ext)
    ensures ImageName(name + "." + ext) == name
  {
    var path := name + "." + ext;
    assert '\\' !in path by {
      forall k | 0 <= k < |path| ensures path[k] != '\\' {
        if k < |name| { assert path[k] == name[k]; }
        else if k > |name| { assert path[k] == ext[k - |name| - 1]; }
      }
    }
    assert path == name + ['.'] + ext;
    FindLastAt(name, ext, '.');
    assert path[0..|name|] == name;
  }

  /** A path without an extension, `Dir\Name`, is named `Name`. */
  lemma ImageNameNoExtension(dir: string, name: string)
    requires dir != [] && '\\' !in name && '.' !in dir && '.' !in name
    ensures ImageNameDefined(dir + "\\" + name)
    ensures ImageName(dir + "\\" + name) == name
  {
    var path := dir + "\\" + name;
    assert '.' !in path by {
      forall k | 0 <= k < |path| ensures path[k] != '.' {
        if k < |dir| { assert path[k] == dir[k]; }
        else if k > |dir| { assert path[k] == name[k - |dir| - 1]; }
      }
    }
    assert path == dir + ['\\'] + name;
    FindLastAt(dir, name, '\\');
    assert path[|dir| + 1..|path|] == name;
  }

  /** A path with neither separator nor dot, such as `uvt`, is its own
      name. */
  lemma ImageNamePlain(path: string)
    requires path != [] && '\\' !in path && '.' !in path
    ensures ImageNameDefined(path)
    ensures ImageName(path) == path
  {
    assert FindLast(path, '\\').None? && FindLast(path, '.').None?;
  }

  /** A path `\Name` without a dot keeps its leading separator. */
  lemma ImageNameRootPlain(name: string)
    requires '\\' !in name && '.' !in name
    ensures ImageNameDefined("\\" + name)
    ensures ImageName("\\" + name) == "\\" + name
  {
    var path := "\\" + name;
    assert path == [] + ['\\'] + name;
    FindLastAt([], name, '\\');
    assert '.' !in path by {
      forall k | 0 <= k < |path| ensures path[k] != '.' {
        if k > 0 { assert path[k] == name[k - 1]; }
      }
    }
  }

  // ---------------------------------------------------------------------
  // Load options
  // ---------------------------------------------------------------------

  /** An option starts with `-`, an operation holds `:`. */
  predicate LooksLegit(token: string) {
    HasFirst(token, '-') || Has(token, ':')
  }

  /** The tokens that look like options or operations, in order. */
  function KeepLegit(tokens: seq<string>): (r: seq<string>)
    ensures forall t :: t in r <==> t in tokens && LooksLegit(t)
  {
    if tokens == [] then []
    else (if LooksLegit(tokens[0]) then [tokens[0]] else []) + KeepLegit(tokens[1..])
  }

  /** Filtering distributes over concatenation: the kept tokens appear in
      their original order. */
  lemma {:induction false} KeepLegitAppend(a: seq<string>, b: seq<string>)
    ensures KeepLegit(a + b) == KeepLegit(a) + KeepLegit(b)
    decreases |a|
  {
    if a != [] {
      assert (a + b)[0] == a[0] && (a + b)[1..] == a[1..] + b;
      KeepLegitAppend(a[1..], b);
    } else {
      assert a + b == b;
    }
  }

  /** `load_options` after the firmware has handed over the option text:
      the space-separated tokens that start with `-` or contain `:`. */
  function LoadOptionTokens(options: string): (r: seq<string>)
    ensures forall t :: t in r <==>
              t in Pieces(options, ' ') && ((|t| > 0 && t[0] == '-') || ':' in t)
    ensures forall k :: 0 <= k < |r| ==> ' ' !in r[k] && r[k] != []
  {
    PiecesFree(options, ' ');
    KeepLegit(Pieces(options, ' '))
  }

  // ---------------------------------------------------------------------
  // Reading and writing a slice of a variable
  // ---------------------------------------------------------------------

  /** `get_value`, given the content of the chosen variable. */
  function GetValue(content: seq<byte>, offset: nat, length: nat): (r: Result<seq<byte>>)
    ensures r.Err? <==> offset + length > |content|
    ensures r.Err? ==> r.error == UefiVarSize(offset, length, |content|)
    ensures r.Ok? ==> |r.value| == length &&
                      forall k :: 0 <= k < length ==> r.value[k] == content[offset + k]
  {
    if offset + length > |content| then
      Err(UefiVarSize(offset, length, |content|))
    else
      Ok(content[offset..offset + length])
  }

  /** The content after `value` is copied in at `offset`. */
  function Updated(content: seq<byte>, offset: nat, value: seq<byte>): (r: seq<byte>)
    requires offset + |value| <= |content|
    ensures |r| == |content|
    ensures forall k :: 0 <= k < |r| ==>
              r[k] == if offset <= k < offset + |value| then value[k - offset] else content[k]
  {
    content[..offset] + value + content[offset + |value|..]
  }

  /** `set_value`, given the content of the chosen variable and what the
      firmware answers to a write (`refusal` is the status of a refused
      write). Returns whether anything changed, and whether the firmware
      was asked to store the content. */
  method SetValue(content: array<byte>, name: string, offset: nat, length: nat, value: seq<byte>,
                  force: bool, simulate: bool, refusal: Option<nat>)
    returns (r: Result<bool>, written: bool)
    requires offset + length <= content.Length ==> |value| == length
    modifies content
    ensures offset + length > content.Length ==>
              r == Err(UefiVarSize(offset, length, content.Length)) && !written &&
              content[..] == old(content[..])
    ensures offset + length <= content.Length && !force && old(content[offset..offset + length]) == value ==>
              r == Ok(false) && !written && content[..] == old(content[..])
    ensures offset + length <= content.Length && (force || old(content[offset..offset + length]) != value) ==>
              content[..] == Updated(old(content[..]), offset, value) && written == !simulate &&
              r == if written && refusal.Some? then Err(UefiVarSet(name, refusal.value)) else Ok(true)
  {
    if offset + length > content.Length {
      return Err(UefiVarSize(offset, length, content.Length)), false;
    }
    if !force && content[offset..offset + length] == value {
      return Ok(false), false;
    }
    for i := 0 to length
      invariant forall k :: 0 <= k < content.Length ==>
                  content[k] == if offset <= k < offset + i then value[k - offset] else old(content[k])
    {
      content[offset + i] := value[i];
    }
    assert content[..] == Updated(old(content[..]), offset, value);
    written := !simulate;
    if written && refusal.Some? {
      return Err(UefiVarSet(name, refusal.value)), written;
    }
    r := Ok(true);
  }

  /** What was written reads back. */
  lemma ReadAfterWrite(content: seq<byte>, offset: nat, value: seq<byte>)
    requires offset + |value| <= |content|
    ensures GetValue(Updated(content, offset, value), offset, |value|) == Ok(value)
  {
    var after := GetValue(Updated(content, offset, value), offset, |value|);
    assert after.value == value;
  }

  /** Writing back the bytes already there changes nothing, which is why a
      write that would not change the slice is skipped unless forced. */
  lemma RewriteUnchanged(content: seq<byte>, offset: nat, length: nat)
    requires offset + length <= |content|
    ensures Updated(content, offset, GetValue(content, offset, length).value) == content
  {
    var u := Updated(content, offset, GetValue(content, offset, length).value);
    assert forall k :: 0 <= k < |content| ==> u[k] == content[k];
  }

  /** Writing the same bytes twice is writing them once; so a second
      unforced assignment of the same value finds nothing to change. */
  lemma WriteTwice(content: seq<byte>, offset: nat, value: seq<byte>)
    requires offset + |value| <= |content|
    ensures Updated(Updated(content, offset, value), offset, value) == Updated(content, offset, value)
    ensures Updated(content, offset, value)[offset..offset + |value|] == value
  {
    var once := Updated(content, offset, value);
    var twice := Updated(once, offset, value);
    assert forall k :: 0 <= k < |content| ==> twice[k] == once[k];
    assert forall k :: 0 <= k < |value| ==> once[offset..offset + |value|][k] == value[k];
  }

  // ---------------------------------------------------------------------
  // Choosing the variable
  // ---------------------------------------------------------------------

  /** A variable name and its vendor GUID, read as a 128-bit number. */
  datatype VariableKey = VariableKey(name: string, vendor: nat)

  /** The keys with the given name, in enumeration order. */
  function Matching(keys: seq<VariableKey>, name: string): (r: seq<VariableKey>)
    ensures forall k :: 0 <= k < |r| ==> r[k].name == name
    ensures forall key :: multiset(r)[key] == if key.name == name then multiset(keys)[key] else 0
  {
    if keys == [] then []
    else
      assert keys == [keys[0]] + keys[1..];
      (if keys[0].name == name then [keys[0]] else []) + Matching(keys[1..], name)
  }

  predicate SortedByVendor(s: seq<VariableKey>) {
    forall i, j :: 0 <= i < j < |s| ==> s[i].vendor <= s[j].vendor
  }

  predicate SameName(s: seq<VariableKey>) {
    forall i, j :: 0 <= i < |s| && 0 <= j < |s| ==> s[i].name == s[j].name
  }

  /** Exchanges two entries. */
  method Swap(a: array<VariableKey>, i: nat, j: nat)
    requires i < a.Length && j < a.Length
    modifies a
    ensures a[..] == old(a[..])[i := old(a[j])][j := old(a[i])]
    ensures multiset(a[..]) == multiset(old(a[..]))
  {
    a[i], a[j] := a[j], a[i];
  }

  /** Moves the entry at `i` down into the sorted prefix before it. */
  method SinkInto(a: array<VariableKey>, i: nat)
    requires i < a.Length && SortedByVendor(a[..i])
    modifies a
    ensures SortedByVendor(a[..i + 1])
    ensures multiset(a[..]) == multiset(old(a[..]))
  {
    var j := i;
    while j > 0 && a[j - 1].vendor > a[j].vendor
      invariant 0 <= j <= i
      invariant forall m, n :: 0 <= m < n <= i && m != j && n != j ==> a[m].vendor <= a[n].vendor
      invariant forall n :: j < n <= i ==> a[j].vendor <= a[n].vendor
      invariant multiset(a[..]) == multiset(old(a[..]))
    {
      Swap(a, j - 1, j);
      j := j - 1;
    }
  }

  /** `sort_by_key` on the vendor, in place. */
  method SortByVendor(a: array<VariableKey>)
    modifies a
    ensures SortedByVendor(a[..])
    ensures multiset(a[..]) == multiset(old(a[..]))
  {
    for i := 0 to a.Length
      invariant SortedByVendor(a[..i])
      invariant multiset(a[..]) == multiset(old(a[..]))
    {
      SinkInto(a, i);
    }
    assert a[..a.Length] == a[..];
  }

  /** Insertion into a sequence sorted by vendor. */
  function Insert(key: VariableKey, s: seq<VariableKey>): (r: seq<VariableKey>)
    requires SortedByVendor(s)
    ensures |r| == |s| + 1
    ensures forall x :: x in r ==> x == key || x in s
    ensures SortedByVendor(r) && multiset(r) == multiset(s) + multiset{key}
  {
    if s == [] || key.vendor <= s[0].vendor then
      [key] + s
    else
      var rest := Insert(key, s[1..]);
      InsertBehind(key, s, rest);
      [s[0]] + rest
  }

  /** Insertion behind a head with a lower vendor. */
  lemma InsertBehind(key: VariableKey, s: seq<VariableKey>, rest: seq<VariableKey>)
    requires s != [] && s[0].vendor < key.vendor && SortedByVendor(s)
    requires forall x :: x in rest ==> x == key || x in s[1..]
    requires SortedByVendor(rest) && multiset(rest) == multiset(s[1..]) + multiset{key}
    ensures forall x :: x in [s[0]] + rest ==> x == key || x in s
    ensures SortedByVendor([s[0]] + rest) && multiset([s[0]] + rest) == multiset(s) + multiset{key}
  {
    assert s == [s[0]] + s[1..];
    forall k | 0 <= k < |rest| ensures s[0].vendor <= rest[k].vendor {
      assert rest[k] in rest;
      if rest[k] != key {
        var j :| 0 <= j < |s[1..]| && s[1..][j] == rest[k];
        assert s[j + 1] == rest[k];
      }
    }
  }

  /** The keys ordered by vendor. */
  function SortedKeys(s: seq<VariableKey>): (r: seq<VariableKey>)
    ensures SortedByVendor(r) && multiset(r) == multiset(s)
  {
    if s == [] then []
    else
      assert s == [s[0]] + s[1..];
      Insert(s[0], SortedKeys(s[1..]))
  }

  /** A rearrangement of namesakes holds namesakes. */
  lemma Namesakes(s: seq<VariableKey>, matching: seq<VariableKey>, name: string)
    requires multiset(s) == multiset(matching)
    requires forall k :: 0 <= k < |matching| ==> matching[k].name == name
    ensures SameName(s)
  {
    forall i | 0 <= i < |s| ensures s[i].name == name {
      assert s[i] in multiset(matching);
    }
  }

  /** Among keys of one name, a vendor order is unique: any two sorted
      arrangements of the same keys are equal. */
  lemma {:induction false} SortedUnique(a: seq<VariableKey>, b: seq<VariableKey>)
    requires SortedByVendor(a) && SortedByVendor(b) && multiset(a) == multiset(b) && SameName(a)
    ensures a == b
    decreases |a|
  {
    assert |a| == |multiset(a)| == |multiset(b)| == |b|;
    if a != [] {
      SameHead(a, b);
      TailsAgree(a, b);
      SortedUnique(a[1..], b[1..]);
    }
  }

  /** Two sorted arrangements of the same namesakes start alike. */
  lemma SameHead(a: seq<VariableKey>, b: seq<VariableKey>)
    requires a != [] && b != []
    requires SortedByVendor(a) && SortedByVendor(b) && multiset(a) == multiset(b) && SameName(a)
    ensures a[0] == b[0]
  {
    var x, y := a[0], b[0];
    assert x in multiset(b) && y in multiset(a);
    var j :| 0 <= j < |b| && b[j] == x;
    var i :| 0 <= i < |a| && a[i] == y;
    assert x.vendor <= y.vendor <= x.vendor;
  }

  /** What remains after equal heads. */
  lemma TailsAgree(a: seq<VariableKey>, b: seq<VariableKey>)
    requires a != [] && b != [] && a[0] == b[0]
    requires SortedByVendor(a) && SortedByVendor(b) && multiset(a) == multiset(b) && SameName(a)
    ensures SortedByVendor(a[1..]) && SortedByVendor(b[1..]) && SameName(a[1..])
    ensures multiset(a[1..]) == multiset(b[1..])
  {
    TailMultiset(a);
    TailMultiset(b);
  }

  /** The tail holds the keys other than the head. */
  lemma TailMultiset(a: seq<VariableKey>)
    requires a != []
    ensures multiset(a[1..]) == multiset(a) - multiset{a[0]}
  {
    assert a == [a[0]] + a[1..];
  }

  /** The precondition of `keys[id]`: an identifier, when one is used, is
      within the namesakes. */
  predicate SelectDefined(keys: seq<VariableKey>, name: string, id: Option<nat>) {
    |Matching(keys, name)| > 1 && id.Some? ==> id.value < |Matching(keys, name)|
  }

  /** The key `get_variable` settles on. */
  function SelectKey(keys: seq<VariableKey>, name: string, id: Option<nat>): (r: Result<VariableKey>)
    requires SelectDefined(keys, name, id)
    ensures r == Err(UefiVarGetNone(name)) <==> forall k :: 0 <= k < |keys| ==> keys[k].name != name
    ensures r == Err(UefiVarGetMany) <==> |Matching(keys, name)| > 1 && id.None?
    ensures r.Ok? ==> r.value in keys && r.value.name == name
    ensures |Matching(keys, name)| == 1 ==> r == Ok(Matching(keys, name)[0])
  {
    var matching := Matching(keys, name);
    var sorted := SortedKeys(matching);
    assert |sorted| == |multiset(sorted)| == |multiset(matching)| == |matching|;
    if |sorted| == 0 then
      assert forall k :: 0 <= k < |keys| ==> keys[k].name != name by {
        forall k | 0 <= k < |keys| ensures keys[k].name != name {
          assert keys[k] in multiset(keys);
        }
      }
      Err(UefiVarGetNone(name))
    else
      assert sorted[0] in multiset(matching);
      assert exists k :: 0 <= k < |keys| && keys[k].name == name by {
        assert sorted[0] in multiset(keys);
      }
      if |sorted| > 1 && id.None? then
        Err(UefiVarGetMany)
      else
        var chosen := if |sorted| == 1 then sorted[0] else sorted[id.value];
        assert chosen in multiset(matching) && chosen in multiset(keys);
        if |sorted| == 1 then
          assert sorted == [sorted[0]] && matching == [matching[0]];
          assert multiset{sorted[0]} == multiset{matching[0]};
          Ok(chosen)
        else
          Ok(chosen)
  }

  /** The namesakes are filtered from the enumeration, sorted in place and
      picked by position (src/firmware.rs:293-327). */
  method GetVariable(keys: seq<VariableKey>, name: string, id: Option<nat>) returns (r: Result<VariableKey>)
    requires SelectDefined(keys, name, id)
    ensures r == SelectKey(keys, name, id)
  {
    var matching := Matching(keys, name);
    var sorted := new VariableKey[|matching|](i requires 0 <= i < |matching| => matching[i]);
    assert sorted[..] == matching;
    SortByVendor(sorted);
    var arranged := sorted[..];
    Namesakes(arranged, matching, name);
    SortedUnique(arranged, SortedKeys(matching));
    if sorted.Length == 0 {
      return Err(UefiVarGetNone(name));
    }
    if sorted.Length > 1 && id.None? {
      return Err(UefiVarGetMany);
    }
    if sorted.Length == 1 {
      r := Ok(sorted[0]);
    } else {
      r := Ok(sorted[id.value]);
    }
  }

  /** With several namesakes, the identifier counts from the lowest vendor
      GUID: the chosen key has `id` namesakes before it in vendor order. */
  lemma SelectByRank(keys: seq<VariableKey>, name: string, i: nat)
    requires 1 < |Matching(keys, name)| && i < |Matching(keys, name)|
    ensures var sorted := SortedKeys(Matching(keys, name));
            && SelectKey(keys, name, Some(i)) == Ok(sorted[i])
            && (forall j :: 0 <= j < i ==> sorted[j].vendor <= sorted[i].vendor)
            && (forall j :: i < j < |sorted| ==> sorted[i].vendor <= sorted[j].vendor)
  {
    var sorted := SortedKeys(Matching(keys, name));
    assert |sorted| == |multiset(sorted)| == |Matching(keys, name)|;
  }
}
