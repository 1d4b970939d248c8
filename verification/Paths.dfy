/** Normalization of paths: src/common-ssh/sftp.c and src/protocols/nebulardp/fs.c, which differ in
    the separator they write, in their limits, and in whether colons are allowed. */
module Paths {
  import opened Options

  datatype Style = Style(separator: char, maxPath: nat, maxDepth: nat, colons: bool)

  const SFTP := Style('/', 2048, 1024, true)
  const RDP := Style('\\', 4096, 64, false)

  const NUL := 0 as char

  predicate IsSeparator(c: char) {
    c == '/' || c == '\\'
  }

  predicate IsOurs(style: Style) {
    IsSeparator(style.separator) && style.maxPath > 1
  }

  // Components.

  /** The index of the first separator, or the length of the text. */
  function FirstSeparator(s: string): (i: nat)
    ensures i <= |s| && (forall k :: 0 <= k < i ==> !IsSeparator(s[k])) && (i < |s| ==> IsSeparator(s[i]))
  {
    if s == [] || IsSeparator(s[0]) then 0 else FirstSeparator(s[1..]) + 1
  }

  /** The texts between the separators. */
  function Split(s: string): (parts: seq<string>)
    ensures parts != []
    decreases |s|
  {
    var i := FirstSeparator(s);
    if i == |s| then [s] else [s[..i]] + Split(s[i + 1..])
  }

  predicate Proper(part: string) {
    part != "" && part != "." && part != ".." && forall k :: 0 <= k < |part| ==> !IsSeparator(part[k])
  }

  ghost predicate AllProper(parts: seq<string>) {
    forall k :: 0 <= k < |parts| ==> Proper(parts[k])
  }

  /** What one part does to the components before it; None if there are too many. */
  function Step(stack: seq<string>, part: string, maxDepth: nat): Option<seq<string>> {
    if part == ".." then Some(if stack == [] then [] else stack[..|stack| - 1])
    else if part == "." || part == "" then Some(stack)
    else if |stack| >= maxDepth then None
    else Some(stack + [part])
  }

  function Fold(parts: seq<string>, stack: seq<string>, maxDepth: nat): Option<seq<string>> {
    if parts == [] then Some(stack)
    else match Step(stack, parts[0], maxDepth) case None => None case Some(next) => Fold(parts[1..], next, maxDepth)
  }

  function Join(parts: seq<string>, separator: char): string {
    if parts == [] then "" else if |parts| == 1 then parts[0] else parts[0] + [separator] + Join(parts[1..], separator)
  }

  /** The components of a path, if it can be normalized. */
  function Resolve(style: Style, path: string): Option<seq<string>> {
    if path == [] || !IsSeparator(path[0]) || |path| >= style.maxPath || (!style.colons && ':' in path[1..]) then None
    else Fold(Split(path[1..]), [], style.maxDepth)
  }

  /** The normalized path. */
  function Normal(style: Style, path: string): Option<string> {
    match Resolve(style, path)
    case None => None
    case Some(parts) => Some([style.separator] + Join(parts, style.separator))
  }

  // Normalizing twice.

  lemma SplitFront(a: string, separator: char, b: string)
    requires IsSeparator(separator) && forall k :: 0 <= k < |a| ==> !IsSeparator(a[k])
    ensures Split(a + [separator] + b) == [a] + Split(b)
  {
    var s := a + [separator] + b;
    SeparatorAt(a, separator, b);
    assert s[..|a|] == a && s[|a| + 1..] == b;
  }

  lemma {:induction false} SplitJoined(parts: seq<string>, separator: char)
    requires AllProper(parts) && IsSeparator(separator)
    ensures Split(Join(parts, separator)) == if parts == [] then [""] else parts
  {
    if |parts| == 1 {
      NoSeparator(parts[0]);
    } else if |parts| > 1 {
      SplitJoined(parts[1..], separator);
      SplitFront(parts[0], separator, Join(parts[1..], separator));
      assert parts == [parts[0]] + parts[1..];
    }
  }

  lemma NoSeparator(s: string)
    requires forall k :: 0 <= k < |s| ==> !IsSeparator(s[k])
    ensures FirstSeparator(s) == |s|
  {
  }

  lemma SeparatorAt(a: string, separator: char, b: string)
    requires IsSeparator(separator) && forall k :: 0 <= k < |a| ==> !IsSeparator(a[k])
    ensures FirstSeparator(a + [separator] + b) == |a|
  {
    var s := a + [separator] + b;
    assert forall k :: 0 <= k < |a| ==> s[k] == a[k];
    assert s[|a|] == separator;
  }

  lemma {:induction false} FoldProper(parts: seq<string>, stack: seq<string>, maxDepth: nat)
    requires AllProper(parts) && |stack| + |parts| <= maxDepth
    ensures Fold(parts, stack, maxDepth) == Some(stack + parts)
  {
    if parts == [] {
      assert stack + parts == stack;
    } else {
      FoldProper(parts[1..], stack + [parts[0]], maxDepth);
      assert stack + [parts[0]] + parts[1..] == stack + parts;
    }
  }

  /** The parts of a text have no separators and are no longer than the text. */
  function Total(parts: seq<string>): nat {
    if parts == [] then 0 else |parts[0]| + 1 + Total(parts[1..])
  }

  ghost predicate Plain(part: string, noColon: bool) {
    forall k :: 0 <= k < |part| ==> !IsSeparator(part[k]) && (noColon ==> part[k] != ':')
  }

  lemma {:induction false} SplitIsPlain(s: string, noColon: bool)
    requires noColon ==> ':' !in s
    ensures forall k :: 0 <= k < |Split(s)| ==> Plain(Split(s)[k], noColon)
    ensures Total(Split(s)) == |s| + 1
    decreases |s|
  {
    var i := FirstSeparator(s);
    if i < |s| {
      SplitIsPlain(s[i + 1..], noColon);
      assert Split(s)[1..] == Split(s[i + 1..]);
    } else {
      assert Split(s) == [s] && Split(s)[1..] == [];
    }
  }

  ghost predicate Normalized(parts: seq<string>, noColon: bool, maxDepth: nat) {
    |parts| <= maxDepth && AllProper(parts) && forall k :: 0 <= k < |parts| ==> Plain(parts[k], noColon)
  }

  lemma {:induction false} TotalOfMore(parts: seq<string>, part: string)
    ensures Total(parts + [part]) == Total(parts) + |part| + 1
  {
    if parts == [] {
      assert parts + [part] == [part] && [part][1..] == [];
    } else {
      TotalOfMore(parts[1..], part);
      assert (parts + [part])[1..] == parts[1..] + [part];
    }
  }

  lemma {:induction false} TotalOfLess(parts: seq<string>)
    requires parts != []
    ensures Total(parts[..|parts| - 1]) <= Total(parts)
  {
    TotalOfMore(parts[..|parts| - 1], parts[|parts| - 1]);
    assert parts == parts[..|parts| - 1] + [parts[|parts| - 1]];
  }

  lemma {:induction false} FoldIsNormalized(parts: seq<string>, stack: seq<string>, noColon: bool, maxDepth: nat)
    requires Normalized(stack, noColon, maxDepth) && forall k :: 0 <= k < |parts| ==> Plain(parts[k], noColon)
    ensures match Fold(parts, stack, maxDepth)
            case None => true
            case Some(result) => Normalized(result, noColon, maxDepth) && Total(result) <= Total(stack) + Total(parts)
  {
    if parts != [] {
      match Step(stack, parts[0], maxDepth)
      case None =>
      case Some(next) =>
        TotalOfMore(stack, parts[0]);
        if stack != [] {
          TotalOfLess(stack);
        }
        assert Normalized(next, noColon, maxDepth) && Total(next) <= Total(stack) + |parts[0]| + 1;
        FoldIsNormalized(parts[1..], next, noColon, maxDepth);
    }
  }

  lemma {:induction false} JoinLength(parts: seq<string>, separator: char)
    ensures |Join(parts, separator)| == if parts == [] then 0 else Total(parts) - 1
  {
    if |parts| > 1 {
      JoinLength(parts[1..], separator);
    } else if |parts| == 1 {
      assert parts[1..] == [];
    }
  }

  lemma {:induction false} JoinHasNoColon(parts: seq<string>, separator: char)
    requires separator != ':' && forall k :: 0 <= k < |parts| ==> Plain(parts[k], true)
    ensures ':' !in Join(parts, separator)
  {
    if |parts| > 1 {
      JoinHasNoColon(parts[1..], separator);
    }
  }

  /** A normalized path consists of proper components only, is not longer than the original, and
      stays the same when it is normalized again. */
  lemma NormalIsStable(style: Style, path: string)
    requires IsOurs(style)
    ensures match Resolve(style, path)
            case None => Normal(style, path) == None
            case Some(parts) =>
              var result := [style.separator] + Join(parts, style.separator);
              && Normal(style, path) == Some(result) && AllProper(parts) && |result| <= |path|
              && Resolve(style, result) == Some(parts) && Normal(style, result) == Some(result)
  {
    match Resolve(style, path)
    case None =>
    case Some(parts) =>
      var noColon := !style.colons;
      SplitIsPlain(path[1..], noColon);
      FoldIsNormalized(Split(path[1..]), [], noColon, style.maxDepth);
      var text := Join(parts, style.separator);
      var result := [style.separator] + text;
      JoinLength(parts, style.separator);
      if noColon {
        JoinHasNoColon(parts, style.separator);
      }
      assert result[1..] == text;
      SplitJoined(parts, style.separator);
      if parts == [] {
        assert Fold([""], [], style.maxDepth) == Some([]);
      } else {
        FoldProper(parts, [], style.maxDepth);
        assert [] + parts == parts;
      }
  }

  // The scan in place.

  /** The components that have been found: where they start in the scratch copy, each of them ended
      by a null terminator before position `upto`. */
  ghost predicate Found(scratch: seq<char>, starts: seq<int>, stack: seq<string>, upto: int) {
    && |starts| == |stack| && upto <= |scratch|
    && forall k :: 0 <= k < |stack| ==>
         0 <= starts[k] && starts[k] + |stack[k]| < upto && scratch[starts[k]..starts[k] + |stack[k]|] == stack[k]
         && NUL !in stack[k] && scratch[starts[k] + |stack[k]|] == NUL
  }

  /** The string that starts at a position and ends with a null terminator. */
  function Terminated(scratch: seq<char>, start: int): string
    requires 0 <= start <= |scratch|
    decreases |scratch| - start
  {
    if start == |scratch| || scratch[start] == NUL then "" else [scratch[start]] + Terminated(scratch, start + 1)
  }

  lemma {:induction false} TerminatedIs(scratch: seq<char>, start: int, part: string)
    requires 0 <= start && start + |part| < |scratch| && scratch[start..start + |part|] == part
    requires NUL !in part && scratch[start + |part|] == NUL
    ensures Terminated(scratch, start) == part
    decreases |part|
  {
    if part != "" {
      assert scratch[start] == part[0];
      assert scratch[start + 1..start + 1 + |part[1..]|] == part[1..];
      TerminatedIs(scratch, start + 1, part[1..]);
    }
  }

  /** guac_strljoin, for a buffer that is large enough. */
  method JoinAt(scratch: array<char>, starts: array<int>, depth: int, separator: char,
                ghost stack: seq<string>) returns (r: string)
    requires 0 <= depth <= starts.Length && Found(scratch[..], starts[..depth], stack, scratch.Length)
    ensures r == Join(stack, separator)
  {
    r := "";
    var k := depth;
    while k > 0
      invariant 0 <= k <= depth && r == Join(stack[k..], separator)
    {
      k := k - 1;
      var start := starts[k];
      assert starts[..depth][k] == start;
      TerminatedIs(scratch[..], start, stack[k]);
      var part := Terminated(scratch[..], start);
      assert stack[k..] == [stack[k]] + stack[k + 1..] && stack[k..][1..] == stack[k + 1..];
      r := if k == depth - 1 then part else part + [separator] + r;
    }
    assert stack[0..] == stack;
  }

  /** Writing behind the components that have been found does not change them. */
  lemma FoundStays(before: seq<char>, after: seq<char>, starts: seq<int>, stack: seq<string>, upto: int)
    requires Found(before, starts, stack, upto) && |after| == |before|
    requires forall k :: 0 <= k < upto ==> after[k] == before[k]
    ensures Found(after, starts, stack, upto)
  {
    forall k | 0 <= k < |stack|
      ensures after[starts[k]..starts[k] + |stack[k]|] == stack[k]
    {
      assert before[starts[k]..starts[k] + |stack[k]|] == stack[k];
    }
  }

  lemma FoundLess(scratch: seq<char>, starts: seq<int>, stack: seq<string>, upto: int, later: int)
    requires Found(scratch, starts, stack, upto) && upto <= later <= |scratch|
    ensures Found(scratch, starts, stack, later)
    ensures stack != [] ==> Found(scratch, starts[..|starts| - 1], stack[..|stack| - 1], later)
  {
  }

  lemma FoundMore(scratch: seq<char>, starts: seq<int>, stack: seq<string>, start: int, part: string)
    requires Found(scratch, starts, stack, start) && 0 <= start && start + |part| < |scratch| && NUL !in part
    requires scratch[start..start + |part|] == part && scratch[start + |part|] == NUL
    ensures Found(scratch, starts + [start], stack + [part], start + |part| + 1)
  {
  }

  /** Handles the component from `start` to `end`, which is ended by a null terminator. */
  method TakeComponent(scratch: array<char>, starts: array<int>, depth: int, start: int, end: int,
                       ghost stack: seq<string>)
      returns (ok: bool, depth': int, ghost stack': seq<string>)
    requires 0 <= depth <= starts.Length && Found(scratch[..], starts[..depth], stack, start)
    requires 0 <= start <= end < scratch.Length && scratch[end] == NUL && NUL !in scratch[start..end]
    modifies starts
    ensures ok <==> Step(stack, scratch[start..end], starts.Length).Some?
    ensures ok ==> Step(stack, scratch[start..end], starts.Length) == Some(stack')
    ensures ok ==> 0 <= depth' <= starts.Length && Found(scratch[..], starts[..depth'], stack', end + 1)
  {
    ok, depth', stack' := true, depth, stack;
    var part := scratch[start..end];
    ghost var found := starts[..depth];
    FoundLess(scratch[..], found, stack, start, end + 1);
    var parent, ignored := part == "..", part == "." || part == "";
    if parent {
      if depth > 0 {
        depth' := depth - 1;
        stack' := stack[..|stack| - 1];
        assert starts[..depth'] == found[..depth'];
      }
    } else if !ignored {
      if depth >= starts.Length {
        ok := false;
      } else {
        starts[depth] := start;
        depth' := depth + 1;
        stack' := stack + [part];
        assert starts[..depth'] == found + [start];
        FoundMore(scratch[..], found, stack, start, part);
      }
    }
  }

  lemma {:induction false} FirstSeparatorIs(s: string, i: nat)
    requires i <= |s| && (forall k :: 0 <= k < i ==> !IsSeparator(s[k])) && (i < |s| ==> IsSeparator(s[i]))
    ensures FirstSeparator(s) == i
  {
    if i > 0 {
      FirstSeparatorIs(s[1..], i - 1);
    }
  }

  /** Where the first of the remaining parts ends. */
  lemma SplitAt(text: string, start: int, i: int)
    requires 0 <= start <= i <= |text| && (forall k :: start <= k < i ==> !IsSeparator(text[k]))
    requires i < |text| ==> IsSeparator(text[i])
    ensures Split(text[start..]) == [text[start..i]] + (if i == |text| then [] else Split(text[i + 1..]))
  {
    var rest := text[start..];
    FirstSeparatorIs(rest, i - start);
    assert rest[..i - start] == text[start..i];
    if i < |text| {
      assert rest[i - start + 1..] == text[i + 1..];
    } else {
      assert rest == text[start..i];
    }
  }

  /** What is left to do after the first of the remaining parts. */
  lemma FoldAt(text: string, start: int, i: int, stack: seq<string>, maxDepth: nat)
    requires 0 <= start <= i <= |text| && (forall k :: start <= k < i ==> !IsSeparator(text[k]))
    requires i < |text| ==> IsSeparator(text[i])
    ensures Fold(Split(text[start..]), stack, maxDepth)
         == match Step(stack, text[start..i], maxDepth)
            case None => None
            case Some(next) => if i == |text| then Some(next) else Fold(Split(text[i + 1..]), next, maxDepth)
  {
    SplitAt(text, start, i);
    var parts := Split(text[start..]);
    assert parts[0] == text[start..i] && parts[1..] == if i == |text| then [] else Split(text[i + 1..]);
  }

  /** What folding the parts of the text from `start` on makes of the components before it. */
  function Pending(text: string, start: nat, stack: seq<string>, maxDepth: nat): Option<seq<string>> {
    if start <= |text| then Fold(Split(text[start..]), stack, maxDepth) else Some(stack)
  }

  /** From position `from` on, the scratch copy still holds the text and its terminator. */
  ghost predicate Untouched(scratch: seq<char>, text: string, from: int) {
    |scratch| == |text| + 1 && 0 <= from && (forall k :: from <= k < |text| ==> scratch[k] == text[k])
    && (from <= |text| ==> scratch[|text|] == NUL)
  }

  /** Terminates the component that ends at position i. */
  method EndComponent(scratch: array<char>, starts: array<int>, depth: int, start: int, i: int, ghost next: int,
                      ghost stack: seq<string>, ghost text: string)
      returns (ok: bool, depth': int, ghost stack': seq<string>)
    requires Untouched(scratch[..], text, start) && NUL !in text && start <= i <= |text| && next == i + 1
    requires (forall k :: start <= k < i ==> !IsSeparator(text[k])) && (i < |text| ==> IsSeparator(text[i]))
    requires 0 <= depth <= starts.Length && Found(scratch[..], starts[..depth], stack, start)
    modifies scratch, starts
    ensures Untouched(scratch[..], text, next)
    ensures !ok ==> Pending(text, start, stack, starts.Length) == None
    ensures ok ==> Pending(text, start, stack, starts.Length) == Pending(text, next, stack', starts.Length)
    ensures ok ==> 0 <= depth' <= starts.Length && Found(scratch[..], starts[..depth'], stack', next)
  {
    ghost var before := scratch[..];
    scratch[i] := NUL;
    FoundStays(before, scratch[..], starts[..depth], stack, start);
    assert scratch[start..i] == text[start..i];
    FoldAt(text, start, i, stack, starts.Length);
    ok, depth', stack' := TakeComponent(scratch, starts, depth, start, i, stack);
  }

  /** There is no colon before position i, unless colons do not matter. */
  ghost predicate Accepted(style: Style, text: string, i: int) {
    style.colons || forall k :: 0 <= k < i && k < |text| ==> text[k] != ':'
  }

  /** The loop over all characters of the scratch copy. */
  method Scan(style: Style, scratch: array<char>, starts: array<int>, ghost text: string)
      returns (ok: bool, depth: int, ghost stack: seq<string>)
    requires Untouched(scratch[..], text, 0) && NUL !in text && starts.Length == style.maxDepth
    modifies scratch, starts
    ensures !ok ==> !Accepted(style, text, |text|) || Pending(text, 0, [], starts.Length) == None
    ensures ok ==> Accepted(style, text, |text|) && Pending(text, 0, [], starts.Length) == Some(stack)
    ensures ok ==> 0 <= depth <= starts.Length && Found(scratch[..], starts[..depth], stack, scratch.Length)
  {
    ghost var result := Pending(text, 0, [], starts.Length);
    var start, i := 0, 0;
    ok, depth, stack := true, 0, [];
    while i < scratch.Length
      invariant 0 <= start <= i <= scratch.Length && 0 <= depth <= starts.Length && (i == scratch.Length ==> start == i)
      invariant ok && Found(scratch[..], starts[..depth], stack, start) && Untouched(scratch[..], text, start)
      invariant forall k :: start <= k < i ==> !IsSeparator(text[k])
      invariant Accepted(style, text, i) && result == Pending(text, start, stack, starts.Length)
    {
      var c, next := scratch[i], i + 1;
      assert c == if i < |text| then text[i] else NUL;
      if c == '/' || c == '\\' || c == NUL {
        ok, depth, stack := EndComponent(scratch, starts, depth, start, i, next, stack, text);
        if !ok {
          return;
        }
        start := next;
      } else if c == ':' && !style.colons {
        ok := false;
        return;
      }
      i := next;
    }
  }

  /** guac_common_ssh_sftp_normalize_path and guac_rdp_fs_normalize_path */
  method Normalize(style: Style, path: string) returns (r: Option<string>)
    requires IsOurs(style) && NUL !in path
    ensures r == Normal(style, path)
  {
    if path == [] || (path[0] != '\\' && path[0] != '/') {
      return None;
    }
    var length := |path| - 1;
    if length >= style.maxPath - 1 {
      return None;
    }
    var text := path[1..];
    var scratch := new char[length + 1](i requires 0 <= i <= length => if i < length then text[i] else NUL);
    var starts := new int[style.maxDepth];
    assert text[0..] == text;
    var ok, depth, stack := Scan(style, scratch, starts, text);
    if !ok {
      return None;
    }
    var joined := JoinAt(scratch, starts, depth, style.separator, stack);
    r := Some([style.separator] + joined);
  }

  // Paths below a root.

  /** A path that guac_common_ssh_sftp_normalize_path can return. */
  ghost predicate IsNormal(path: string, parts: seq<string>) {
    AllProper(parts) && path == "/" + Join(parts, '/')
  }

  function SkipSlashes(s: string): string {
    if s != [] && s[0] == '/' then SkipSlashes(s[1..]) else s
  }

  function Appended(a: string, b: string): string {
    a + (if a == [] || a[|a| - 1] != '/' then "/" else "") + SkipSlashes(b)
  }

  /** guac_ssh_append_path */
  method AppendPath(a: string, b: string) returns (r: Option<string>)
    ensures r == if |Appended(a, b)| >= SFTP.maxPath then None else Some(Appended(a, b))
  {
    if |a| >= SFTP.maxPath {
      return None;
    }
    var path := if |a| == 0 || a[|a| - 1] != '/' then a + "/" else a;
    var rest := b;
    while rest != [] && rest[0] == '/'
      invariant SkipSlashes(rest) == SkipSlashes(b)
    {
      rest := rest[1..];
    }
    assert SkipSlashes(rest) == rest && a + "" == a;
    path := path + rest;
    r := if |path| >= SFTP.maxPath then None else Some(path);
  }

  /** guac_common_ssh_sftp_translate_name */
  method TranslateName(root: string, name: string) returns (r: Option<string>)
    requires NUL !in name
    ensures r == match Normal(SFTP, name)
                 case None => None
                 case Some(path) => if |Appended(root, path)| >= SFTP.maxPath then None else Some(Appended(root, path))
  {
    var path := Normalize(SFTP, name);
    if path == None {
      return None;
    }
    r := AppendPath(root, path.value);
  }

  lemma {:induction false} JoinBoth(a: seq<string>, b: seq<string>)
    requires a != [] && b != []
    ensures Join(a + b, '/') == Join(a, '/') + "/" + Join(b, '/')
  {
    if |a| == 1 {
      assert (a + b)[1..] == b;
    } else {
      JoinBoth(a[1..], b);
      assert (a + b)[1..] == a[1..] + b;
      assert a[0] + ['/'] + (Join(a[1..], '/') + "/" + Join(b, '/'))
          == a[0] + ['/'] + Join(a[1..], '/') + "/" + Join(b, '/');
    }
  }

  lemma {:induction false} JoinEndsProperly(parts: seq<string>)
    requires AllProper(parts) && parts != []
    ensures var s := Join(parts, '/'); s != "" && !IsSeparator(s[0]) && !IsSeparator(s[|s| - 1])
  {
    if |parts| > 1 {
      JoinEndsProperly(parts[1..]);
    }
  }

  /** The components of the root come first, then those of the name: no name leads out of the root. */
  lemma AppendedStaysBelow(root: string, above: seq<string>, name: string, below: seq<string>)
    requires IsNormal(root, above) && IsNormal(name, below)
    ensures below != [] ==> IsNormal(Appended(root, name), above + below)
    ensures below == [] ==> Appended(root, name) == if above == [] then root else root + "/"
  {
    var a, b := Join(above, '/'), Join(below, '/');
    assert name[0] == '/' && name[1..] == b;
    if below != [] {
      JoinEndsProperly(below);
      assert SkipSlashes(b) == b;
    }
    assert SkipSlashes(name) == b;
    if above == [] {
      assert root == "/" && above + below == below;
    } else {
      JoinEndsProperly(above);
      assert root[|root| - 1] == a[|a| - 1];
      assert Appended(root, name) == root + "/" + b;
      if below != [] {
        JoinBoth(above, below);
        assert "/" + a + "/" + b == "/" + (a + "/" + b);
      }
    }
  }

  /** Whatever the name, its translation is the root followed by proper components. */
  lemma TranslationStaysBelow(root: string, above: seq<string>, name: string)
    requires IsNormal(root, above)
    ensures match Resolve(SFTP, name)
            case None => Normal(SFTP, name) == None
            case Some(below) =>
              && Normal(SFTP, name) == Some("/" + Join(below, '/'))
              && (if below == []
                  then Appended(root, "/" + Join(below, '/')) == (if above == [] then root else root + "/")
                  else IsNormal(Appended(root, "/" + Join(below, '/')), above + below))
  {
    NormalIsStable(SFTP, name);
    match Resolve(SFTP, name)
    case None =>
    case Some(below) =>
      AppendedStaysBelow(root, above, "/" + Join(below, '/'), below);
  }
}
