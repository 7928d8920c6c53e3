// The web console's path helpers: the separator and root of a path, its
// parent directory, its chain of ancestors and its last component. Strings
// are sequences of characters; a thrown Error is an Err carrying its
// message. URL.canParse(path) and new URL("/", path) are a parameter:
// `urlRoot(path)` is None when the path does not parse as a URL, Some(Ok(h))
// when h is the string form of its root, and Some(Err(e)) when the
// constructor throws e. JavaScript's `opts.x || fallback` treats both a
// missing and an empty option as absent, so absent options are passed as "".
module FilePath {
  import opened Wrappers

  /** A URL's string form: never empty. */
  type Href = s: string | |s| > 0 witness "/"

  type UrlRoot = string -> Option<Result<Href>>

  const ErrUnknownSeparator: string := "Unknown path separator"
  const ErrUnknownRoot: string := "Unknown path root"
  const ErrInvalidPath: string := "Invalid path"

  // ---------------------------------------------------------------------
  // Separator and root
  // ---------------------------------------------------------------------

  /**
   * extractPathSeq: "/" when the path holds a slash anywhere; otherwise "\\"
   * when its first backslash is past index 0; otherwise it throws.
   */
  function ExtractPathSeq(path: string): (r: Result<string>)
    ensures r == Ok("/") <==> '/' in path
    ensures r == Ok("\\") <==> '/' !in path && '\\' in path && path[0] != '\\'
    ensures r.Err? ==> r.error == ErrUnknownSeparator
    ensures r.Ok? ==> r.value == "/" || r.value == "\\"
  {
    if '/' in path then Ok("/")
    else if '\\' in path && path[0] != '\\' then Ok("\\")
    else Err(ErrUnknownSeparator)
  }

  /** \w, with or without the i flag and without the u flag: ASCII letters, digits and underscore. */
  predicate IsWordChar(c: char) {
    ('a' <= c <= 'z') || ('A' <= c <= 'Z') || ('0' <= c <= '9') || c == '_'
  }

  /** \s: the ECMAScript white space and line terminator characters. */
  predicate IsSpace(c: char) {
    var n := c as int;
    n == 0x09 || n == 0x0A || n == 0x0B || n == 0x0C || n == 0x0D || n == 0x20 || n == 0xA0 ||
    n == 0x1680 || (0x2000 <= n <= 0x200A) || n == 0x2028 || n == 0x2029 || n == 0x202F ||
    n == 0x205F || n == 0x3000 || n == 0xFEFF
  }

  /** Length of the leading run of word characters. */
  function WordRun(s: string): (n: nat)
    ensures n <= |s|
    ensures forall i :: 0 <= i < n ==> IsWordChar(s[i])
    ensures n < |s| ==> !IsWordChar(s[n])
  {
    if s == [] || !IsWordChar(s[0]) then 0 else 1 + WordRun(s[1..])
  }

  /**
   * Whether /^(\w+)(\:+)(\S*)$/ matches the whole path, and group 1 when it
   * does. \w+ cannot give back characters (a colon must follow it and a colon
   * is not a word character), so group 1 is the whole leading word run, a
   * colon follows it, and no character of the path is white space.
   */
  function DriveLetters(path: string): (r: Option<string>)
    ensures r.Some? ==> 0 < |r.value| < |path| && r.value == path[..|r.value|] && path[|r.value|] == ':'
    ensures r.Some? ==> forall i :: 0 <= i < |r.value| ==> IsWordChar(path[i])
    ensures r.Some? ==> forall i :: 0 <= i < |path| ==> !IsSpace(path[i])
  {
    var n := WordRun(path);
    if 0 < n < |path| && path[n] == ':' && (forall i :: 0 <= i < |path| ==> !IsSpace(path[i]))
    then Some(path[..n])
    else None
  }

  /** The drive branch's root: the letters, then "\\" if the character after them is a backslash, else "/". */
  function DriveRoot(path: string, letters: string): string {
    letters + (if |path| > |letters| && path[|letters|] == '\\' then "\\" else "/")
  }

  /** startsWith("/") and startsWith("\\\\"). */
  predicate SlashRooted(path: string) {
    |path| >= 1 && path[0] == '/'
  }

  predicate UncRooted(path: string) {
    |path| >= 2 && path[0] == '\\' && path[1] == '\\'
  }

  /** The URL branch: the root's string form, or the constructor's error. */
  function UrlResult(u: Result<Href>): (r: Result<string>)
    ensures r.Ok? <==> u.Ok?
    ensures u.Ok? ==> r.value == u.value
    ensures u.Err? ==> r.error == u.error
  {
    match u
    case Ok(h) => Ok(h)
    case Err(e) => Err(e)
  }

  /**
   * extractRoot as written, with the regular expression's lastIndex: the
   * /g flag makes exec start at lastIndex, and ^ only matches at 0, so a
   * match needs lastIndex 0 and moves it to the end of the path; a failed
   * exec resets it to 0. The other branches leave it alone.
   */
  function ExtractRootAsWritten(path: string, lastIndex: nat, urlRoot: UrlRoot): (r: (Result<string>, nat))
    ensures lastIndex == 0 ==> r.0 == ExtractRoot(path, urlRoot)
    ensures r.1 == 0 || r.1 == lastIndex || r.1 == |path|
  {
    if SlashRooted(path) then (Ok("/"), lastIndex)
    else if UncRooted(path) then (Ok("\\\\"), lastIndex)
    else if urlRoot(path).Some? then (UrlResult(urlRoot(path).value), lastIndex)
    else
      var m := if lastIndex == 0 then DriveLetters(path) else None;
      if m.Some? then (Ok(DriveRoot(path, m.value)), |path|)
      else (Err(ErrUnknownRoot), 0)
  }

  /**
   * extractRoot with a regular expression that keeps no state between
   * calls. The character after the drive letters is always the colon, so
   * the drive branch never yields a backslash root: its root is the letters
   * followed by "/".
   */
  function ExtractRoot(path: string, urlRoot: UrlRoot): (r: Result<string>)
    ensures SlashRooted(path) ==> r == Ok("/")
    ensures !SlashRooted(path) && UncRooted(path) ==> r == Ok("\\\\")
    ensures !SlashRooted(path) && !UncRooted(path) && urlRoot(path).Some? ==> r == UrlResult(urlRoot(path).value)
    ensures !SlashRooted(path) && !UncRooted(path) && urlRoot(path).None? ==>
      r == (if DriveLetters(path).Some? then Ok(DriveLetters(path).value + "/") else Err(ErrUnknownRoot))
    ensures r.Ok? ==> |r.value| > 0
  {
    if SlashRooted(path) then Ok("/")
    else if UncRooted(path) then Ok("\\\\")
    else if urlRoot(path).Some? then UrlResult(urlRoot(path).value)
    else
      match DriveLetters(path)
      case Some(letters) => Ok(DriveRoot(path, letters))
      case None => Err(ErrUnknownRoot)
  }

  /**
   * With the code as written a drive path that is not a URL is recognised
   * only every other time: the first call leaves lastIndex at the path's
   * end, and the next call on the same path throws "Unknown path root".
   */
  lemma DriveRootAlternatesAsWritten(urlRoot: UrlRoot)
    requires urlRoot("1:x").None?
    ensures ExtractRootAsWritten("1:x", 0, urlRoot) == (Ok("1/"), 3)
    ensures ExtractRootAsWritten("1:x", 3, urlRoot) == (Err(ErrUnknownRoot), 0)
    ensures ExtractRoot("1:x", urlRoot) == Ok("1/")
  {
    var p := "1:x";
    assert p[1..] == ":x";
    assert WordRun(":x") == 0;
    assert WordRun(p) == 1;
    assert p[1] == ':';
    assert forall i :: 0 <= i < |p| ==> !IsSpace(p[i]);
    assert p[..1] == "1";
    assert DriveLetters(p) == Some("1");
    assert DriveRoot(p, "1") == "1/";
  }

  // ---------------------------------------------------------------------
  // dirname
  // ---------------------------------------------------------------------

  /** sub occurs in s at position j. */
  predicate OccursAt(s: string, sub: string, j: int) {
    0 <= j && j + |sub| <= |s| && s[j..j + |sub|] == sub
  }

  /** String.prototype.lastIndexOf: the last position where sub occurs, or -1. */
  function LastIndexOf(s: string, sub: string): (r: int)
    ensures r == -1 || OccursAt(s, sub, r)
    ensures forall j :: r < j ==> !OccursAt(s, sub, j)
  {
    LastIndexBelow(s, sub, |s| - |sub|)
  }

  function LastIndexBelow(s: string, sub: string, from: int): (r: int)
    requires from <= |s| - |sub|
    ensures r == -1 || (OccursAt(s, sub, r) && r <= from)
    ensures forall j :: r < j <= from ==> !OccursAt(s, sub, j)
    decreases from + 1
  {
    if from < 0 then -1
    else if s[from..from + |sub|] == sub then from
    else LastIndexBelow(s, sub, from - 1)
  }

  /** A one-character separator whose last occurrence is at k: lastIndexOf finds k. */
  lemma LastSeparator(s: string, sep: char, k: nat)
    requires k < |s| && s[k] == sep
    requires forall j :: k < j < |s| ==> s[j] != sep
    ensures LastIndexOf(s, [sep]) == k
  {
    var r := LastIndexOf(s, [sep]);
    assert OccursAt(s, [sep], k);
    if r != -1 {
      assert s[r] == s[r..r + 1][0] == sep;
    }
  }

  /** path[i] == sep in JavaScript: a one-character string equal to sep. */
  predicate SepAt(path: string, i: int, sep: string) {
    0 <= i < |path| && [path[i]] == sep
  }

  /** Where dirname's backward walk stops: the last index at or below idx that is under floor or not a separator. */
  function SkipBack(path: string, sep: string, floor: nat, idx: int): (r: int)
    requires -1 <= idx < |path|
    ensures -1 <= r <= idx
    ensures r >= 0 ==> (r < floor || !SepAt(path, r, sep))
    ensures r < idx ==> floor <= r + 1
    ensures forall j :: r < j <= idx ==> SepAt(path, j, sep)
    decreases idx + 1
  {
    if idx >= floor && SepAt(path, idx, sep) then SkipBack(path, sep, floor, idx - 1) else idx
  }

  /**
   * dirname(path, {seq, root}): the path itself when it is the root, the
   * root when the last separator is at index 0, an error without a
   * separator; otherwise the part before the last separator, less the run
   * of separators in front of it, never cut below the root's length.
   */
  function Dirname(path: string, pathSeq: string, root: string, urlRoot: UrlRoot): (r: Result<string>)
    ensures root != "" && root == path ==> r == Ok(path)
    ensures root != "" && root != path && r.Ok? ==>
      r.value == root || (|r.value| < |path| && r.value == path[..|r.value|])
  {
    var rootR := if root != "" then Ok(root) else ExtractRoot(path, urlRoot);
    if rootR.Err? then Err(rootR.error)
    else if rootR.value == path then Ok(path)
    else
      var sepR := if pathSeq != "" then Ok(pathSeq) else ExtractPathSeq(path);
      if sepR.Err? then Err(sepR.error)
      else ParentCut(path, sepR.value, rootR.value)
  }

  /** The cut dirname makes once it knows the root and the separator. */
  function ParentCut(path: string, sep: string, root: string): (r: Result<string>)
    requires sep != ""
    ensures r.Ok? ==> r.value == root || (|r.value| < |path| && r.value == path[..|r.value|])
  {
    var lastIdx := LastIndexOf(path, sep);
    if lastIdx == 0 then Ok(root)
    else if lastIdx < 0 then Err(ErrInvalidPath)
    else Ok(path[..SkipBack(path, sep, |root|, lastIdx - 1) + 1])
  }

  /** The loop of dirname: walk idx back over separators, never below floor. */
  method WalkBack(path: string, sep: string, floor: nat, start: int) returns (idx: int)
    requires -1 <= start < |path|
    ensures idx == SkipBack(path, sep, floor, start)
  {
    idx := start;
    while idx >= floor
      invariant -1 <= idx <= start
      invariant SkipBack(path, sep, floor, idx) == SkipBack(path, sep, floor, start)
      decreases idx
    {
      if [path[idx]] != sep {
        break;
      }
      idx := idx - 1;
    }
  }

  /** dirname, with its loop. */
  method DirnameOf(path: string, pathSeq: string, root: string, urlRoot: UrlRoot) returns (r: Result<string>)
    ensures r == Dirname(path, pathSeq, root, urlRoot)
  {
    var rootR := if root != "" then Ok(root) else ExtractRoot(path, urlRoot);
    if rootR.Err? {
      return Err(rootR.error);
    }
    var theRoot := rootR.value;
    if theRoot == path {
      return Ok(path);
    }
    var sepR := if pathSeq != "" then Ok(pathSeq) else ExtractPathSeq(path);
    if sepR.Err? {
      return Err(sepR.error);
    }
    r := ParentCutOf(path, sepR.value, theRoot);
  }

  /** The last step of dirname, with its loop. */
  method ParentCutOf(path: string, sep: string, root: string) returns (r: Result<string>)
    requires sep != ""
    ensures r == ParentCut(path, sep, root)
  {
    var lastIdx := LastIndexOf(path, sep);
    if lastIdx == 0 {
      return Ok(root);
    }
    if lastIdx < 0 {
      return Err(ErrInvalidPath);
    }
    var idx := WalkBack(path, sep, |root|, lastIdx - 1);
    return Ok(path[..idx + 1]);
  }

  /**
   * Past the index 0 case, dirname cuts the path before its last separator
   * and before the run of separators in front of it (above the root).
   */
  lemma DirnameSkipsSeparators(path: string, urlRoot: UrlRoot)
    requires ExtractRoot(path, urlRoot).Ok? && ExtractRoot(path, urlRoot).value != path
    requires ExtractPathSeq(path).Ok? && LastIndexOf(path, ExtractPathSeq(path).value) > 0
    ensures Dirname(path, "", "", urlRoot).Ok?
    ensures var d := Dirname(path, "", "", urlRoot).value;
      var sep := ExtractPathSeq(path).value;
      var last := LastIndexOf(path, sep);
      && |d| <= last && d == path[..|d|]
      && (forall j :: |d| <= j < last ==> [path[j]] == sep)
      && path[last..last + 1] == sep
  {
    var root := ExtractRoot(path, urlRoot).value;
    var sep := ExtractPathSeq(path).value;
    var last := LastIndexOf(path, sep);
    var k := SkipBack(path, sep, |root|, last - 1);
    assert Dirname(path, "", "", urlRoot) == Ok(path[..k + 1]);
    forall j | k + 1 <= j < last
      ensures [path[j]] == sep
    {
      assert SepAt(path, j, sep);
    }
  }

  /** dirname of the root is the root. */
  lemma DirnameOfRoot(path: string, urlRoot: UrlRoot)
    requires ExtractRoot(path, urlRoot) == Ok(path)
    ensures Dirname(path, "", "", urlRoot) == Ok(path)
  {
  }

  /** A path whose last separator is at index 0 has the root as dirname; one without a separator is invalid. */
  lemma DirnameEdges(path: string, sep: string, root: string, urlRoot: UrlRoot)
    requires root != "" && sep != "" && root != path
    ensures LastIndexOf(path, sep) == 0 ==> Dirname(path, sep, root, urlRoot) == Ok(root)
    ensures LastIndexOf(path, sep) < 0 ==> Dirname(path, sep, root, urlRoot) == Err(ErrInvalidPath)
  {
  }

  /** A doubled separator is skipped: dirname("/a//b") == dirname("/a/b") == "/a". */
  lemma DirnameDoubledSeparator(urlRoot: UrlRoot)
    ensures Dirname("/a//b", "", "", urlRoot) == Ok("/a")
    ensures Dirname("/a/b", "", "", urlRoot) == Ok("/a")
  {
    assert ExtractRoot("/a//b", urlRoot) == Ok("/") && ExtractPathSeq("/a//b") == Ok("/");
    assert ExtractRoot("/a/b", urlRoot) == Ok("/") && ExtractPathSeq("/a/b") == Ok("/");
    assert "/a//b"[..2] == "/a" && "/a/b"[..2] == "/a";
    assert LastIndexOf("/a//b", "/") == 3 by {
      assert "/a//b"[3..4] == "/";
      assert "/a//b"[4..5] == "b";
    }
    assert SkipBack("/a//b", "/", 1, 2) == 1 by {
      assert "/a//b"[2] == '/' && "/a//b"[1] == 'a';
    }
    assert LastIndexOf("/a/b", "/") == 2 by {
      assert "/a/b"[2..3] == "/";
      assert "/a/b"[3..4] == "b";
    }
    assert SkipBack("/a/b", "/", 1, 1) == 1 by {
      assert "/a/b"[1] == 'a';
    }
  }

  // ---------------------------------------------------------------------
  // generateParents
  // ---------------------------------------------------------------------

  /** The successive dirnames of filepath, with the given root, down to and including the root. */
  function Ancestors(filepath: string, root: string, urlRoot: UrlRoot): (r: Result<seq<string>>)
    requires root != ""
    ensures r.Ok? && filepath != root ==> |r.value| > 0 && r.value[|r.value| - 1] == root
    ensures r.Ok? && filepath == root ==> r.value == []
    decreases if filepath == root then 0 else |filepath| + 1
  {
    if filepath == root then Ok([])
    else
      match Dirname(filepath, "", root, urlRoot)
      case Err(e) => Err(e)
      case Ok(d) =>
        match Ancestors(d, root, urlRoot)
        case Err(e) => Err(e)
        case Ok(rest) => Ok([d] + rest)
  }

  /** Each ancestor is the dirname of the one before it, the first the dirname of the path; each is the root or a strict prefix of the path. */
  lemma AncestorsChain(filepath: string, root: string, urlRoot: UrlRoot)
    requires root != "" && Ancestors(filepath, root, urlRoot).Ok? && filepath != root
    ensures var ps := Ancestors(filepath, root, urlRoot).value;
      && Dirname(filepath, "", root, urlRoot) == Ok(ps[0])
      && (forall i :: 0 <= i < |ps| - 1 ==> Dirname(ps[i], "", root, urlRoot) == Ok(ps[i + 1]))
      && (forall i :: 0 <= i < |ps| ==> ps[i] == root || (|ps[i]| < |filepath| && ps[i] == filepath[..|ps[i]|]))
  {
    AncestorsDirnames(filepath, root, urlRoot);
    AncestorsPrefixes(filepath, root, urlRoot);
  }

  /** Each ancestor is the dirname of the one before it, the first the dirname of the path. */
  lemma {:induction false} AncestorsDirnames(filepath: string, root: string, urlRoot: UrlRoot)
    requires root != "" && Ancestors(filepath, root, urlRoot).Ok? && filepath != root
    ensures var ps := Ancestors(filepath, root, urlRoot).value;
      && Dirname(filepath, "", root, urlRoot) == Ok(ps[0])
      && (forall i :: 0 <= i < |ps| - 1 ==> Dirname(ps[i], "", root, urlRoot) == Ok(ps[i + 1]))
    decreases |filepath| + 1
  {
    var d := Dirname(filepath, "", root, urlRoot).value;
    var ps := Ancestors(filepath, root, urlRoot).value;
    var rest := Ancestors(d, root, urlRoot).value;
    assert ps == [d] + rest;
    if d != root {
      AncestorsDirnames(d, root, urlRoot);
      forall i | 0 <= i < |ps| - 1
        ensures Dirname(ps[i], "", root, urlRoot) == Ok(ps[i + 1])
      {
        if i > 0 {
          assert ps[i] == rest[i - 1] && ps[i + 1] == rest[i];
        }
      }
    }
  }

  /** Each ancestor is the root or a strict prefix of the path. */
  lemma {:induction false} AncestorsPrefixes(filepath: string, root: string, urlRoot: UrlRoot)
    requires root != "" && Ancestors(filepath, root, urlRoot).Ok? && filepath != root
    ensures var ps := Ancestors(filepath, root, urlRoot).value;
      forall i :: 0 <= i < |ps| ==> ps[i] == root || (|ps[i]| < |filepath| && ps[i] == filepath[..|ps[i]|])
    decreases |filepath| + 1
  {
    var d := Dirname(filepath, "", root, urlRoot).value;
    var ps := Ancestors(filepath, root, urlRoot).value;
    var rest := Ancestors(d, root, urlRoot).value;
    assert ps == [d] + rest;
    if d != root {
      AncestorsPrefixes(d, root, urlRoot);
      ConsPrefixes(filepath, d, rest, root);
    }
  }

  /** Strict prefixes of d behind d, a strict prefix of path, are strict prefixes of path (or the root). */
  lemma ConsPrefixes(path: string, d: string, rest: seq<string>, root: string)
    requires |d| < |path| && d == path[..|d|]
    requires forall i :: 0 <= i < |rest| ==> rest[i] == root || (|rest[i]| < |d| && rest[i] == d[..|rest[i]|])
    ensures var ps := [d] + rest;
      forall i :: 0 <= i < |ps| ==> ps[i] == root || (|ps[i]| < |path| && ps[i] == path[..|ps[i]|])
  {
    var ps := [d] + rest;
    forall i | 0 <= i < |ps|
      ensures ps[i] == root || (|ps[i]| < |path| && ps[i] == path[..|ps[i]|])
    {
      if i > 0 && ps[i] != root {
        assert ps[i] == rest[i - 1];
        StrictPrefixTrans(ps[i], d, path);
      }
    }
  }

  /** A strict prefix of a strict prefix is a strict prefix. */
  lemma StrictPrefixTrans(a: string, b: string, c: string)
    requires |a| < |b| && a == b[..|a|] && |b| < |c| && b == c[..|b|]
    ensures |a| < |c| && a == c[..|a|]
  {
    assert c[..|b|][..|a|] == c[..|a|];
  }

  function Reverse<T>(s: seq<T>): (r: seq<T>)
    ensures |r| == |s|
    ensures forall i :: 0 <= i < |s| ==> r[i] == s[|s| - 1 - i]
  {
    if s == [] then [] else Reverse(s[1..]) + [s[0]]
  }

  /**
   * generateParents(path, reverse): the ancestors of the path from its
   * parent down to the root (the root first when reversed); the root alone
   * for the root itself.
   */
  function GenerateParents(path: string, reverse: bool, urlRoot: UrlRoot): (r: Result<seq<string>>)
    ensures r.Ok? ==> |r.value| > 0 && ExtractRoot(path, urlRoot).Ok?
    ensures r.Ok? ==> (if reverse then r.value[0] else r.value[|r.value| - 1]) == ExtractRoot(path, urlRoot).value
    ensures ExtractRoot(path, urlRoot) == Ok(path) ==> r == Ok([path])
  {
    match ExtractRoot(path, urlRoot)
    case Err(e) => Err(e)
    case Ok(root) =>
      match Ancestors(path, root, urlRoot)
      case Err(e) => Err(e)
      case Ok(ps) =>
        if |ps| == 0 then Ok([root])
        else Ok(if reverse then Reverse(ps) else ps)
  }

  lemma ReverseSnoc<T>(s: seq<T>, x: T)
    ensures Reverse(s + [x]) == [x] + Reverse(s)
  {
  }

  /** The ancestors so far, then those still to come, or the error still to come. */
  function Completed(done: seq<string>, rest: Result<seq<string>>): Result<seq<string>> {
    match rest
    case Ok(ps) => Ok(done + ps)
    case Err(e) => Err(e)
  }

  /** One dirname step of generateParents, as seen from the ancestors still to come. */
  lemma AncestorsStep(filepath: string, root: string, urlRoot: UrlRoot, pushed: seq<string>)
    requires root != "" && filepath != root
    ensures Dirname(filepath, "", root, urlRoot).Err? ==>
      Completed(pushed, Ancestors(filepath, root, urlRoot)) == Err(Dirname(filepath, "", root, urlRoot).error)
    ensures Dirname(filepath, "", root, urlRoot).Ok? ==>
      var d := Dirname(filepath, "", root, urlRoot).value;
      Completed(pushed, Ancestors(filepath, root, urlRoot)) == Completed(pushed + [d], Ancestors(d, root, urlRoot))
  {
    if Dirname(filepath, "", root, urlRoot).Ok? {
      var d := Dirname(filepath, "", root, urlRoot).value;
      if Ancestors(d, root, urlRoot).Ok? {
        var rest := Ancestors(d, root, urlRoot).value;
        assert pushed + ([d] + rest) == (pushed + [d]) + rest;
      }
    }
  }

  /** The generateParents loop: the ancestors in push (or unshift) order, or the first error. */
  method CollectAncestors(path: string, root: string, reverse: bool, urlRoot: UrlRoot) returns (r: Result<seq<string>>)
    requires root != ""
    ensures Ancestors(path, root, urlRoot).Err? ==> r == Ancestors(path, root, urlRoot)
    ensures Ancestors(path, root, urlRoot).Ok? ==>
      r == Ok(if reverse then Reverse(Ancestors(path, root, urlRoot).value) else Ancestors(path, root, urlRoot).value)
  {
    var parents: seq<string> := [];
    ghost var pushed: seq<string> := [];
    var filepath := path;
    if Ancestors(path, root, urlRoot).Ok? {
      assert [] + Ancestors(path, root, urlRoot).value == Ancestors(path, root, urlRoot).value;
    }
    while filepath != root
      invariant parents == if reverse then Reverse(pushed) else pushed
      invariant Completed(pushed, Ancestors(filepath, root, urlRoot)) == Ancestors(path, root, urlRoot)
      decreases if filepath == root then 0 else |filepath| + 1
    {
      AncestorsStep(filepath, root, urlRoot, pushed);
      var d := DirnameOf(filepath, "", root, urlRoot);
      if d.Err? {
        return Err(d.error);
      }
      filepath := d.value;
      if reverse {
        ReverseSnoc(pushed, filepath);
        parents := [filepath] + parents;
      } else {
        parents := parents + [filepath];
      }
      pushed := pushed + [filepath];
    }
    assert pushed + [] == pushed;
    return Ok(parents);
  }

  /** generateParents, with its loop. */
  method GenerateParentsOf(path: string, reverse: bool, urlRoot: UrlRoot) returns (r: Result<seq<string>>)
    ensures r == GenerateParents(path, reverse, urlRoot)
  {
    var rootR := ExtractRoot(path, urlRoot);
    if rootR.Err? {
      return Err(rootR.error);
    }
    var root := rootR.value;
    var parents := CollectAncestors(path, root, reverse, urlRoot);
    if parents.Err? {
      return parents;
    }
    if |parents.value| <= 0 {
      return Ok([root]);
    }
    return parents;
  }

  // ---------------------------------------------------------------------
  // basename
  // ---------------------------------------------------------------------

  /** Where basename's forward walk stops: the first index from idx on that is past the end or not a separator. */
  function SkipForward(path: string, sep: string, idx: nat): (r: nat)
    ensures r >= idx && (r < |path| ==> !SepAt(path, r, sep))
    ensures forall j :: idx <= j < r ==> SepAt(path, j, sep)
    decreases |path| - idx
  {
    if idx < |path| && SepAt(path, idx, sep) then SkipForward(path, sep, idx + 1) else idx
  }

  /** The forward walk from i stops at k when everything in between is a separator and k is not. */
  lemma {:induction false} SkipForwardTo(path: string, sep: string, i: nat, k: nat)
    requires i <= k <= |path|
    requires forall j :: i <= j < k ==> SepAt(path, j, sep)
    requires k < |path| ==> !SepAt(path, k, sep)
    ensures SkipForward(path, sep, i) == k
    decreases k - i
  {
    if i < k {
      assert SepAt(path, i, sep);
      SkipForwardTo(path, sep, i + 1, k);
    }
  }

  /** path.slice(idx): empty from the end on. */
  function SliceFrom(path: string, idx: nat): (r: string)
    ensures |r| <= |path| && r == path[|path| - |r|..]
  {
    if idx >= |path| then [] else path[idx..]
  }

  /**
   * basename(path, {seq, root, dirname}): what follows the dirname and the
   * separators after it. The separator is worked out first even when the
   * dirname is given.
   */
  function Basename(path: string, pathSeq: string, root: string, dir: string, urlRoot: UrlRoot): (r: Result<string>)
    ensures r.Ok? ==> |r.value| <= |path| && r.value == path[|path| - |r.value|..]
  {
    var sepR := if pathSeq != "" then Ok(pathSeq) else ExtractPathSeq(path);
    if sepR.Err? then Err(sepR.error)
    else
      var dirR := if dir != "" then Ok(dir) else Dirname(path, sepR.value, root, urlRoot);
      if dirR.Err? then Err(dirR.error)
      else Ok(SliceFrom(path, SkipForward(path, sepR.value, |dirR.value|)))
  }

  /** basename, with its loop. */
  method BasenameOf(path: string, pathSeq: string, root: string, dir: string, urlRoot: UrlRoot) returns (r: Result<string>)
    ensures r == Basename(path, pathSeq, root, dir, urlRoot)
  {
    var sepR := if pathSeq != "" then Ok(pathSeq) else ExtractPathSeq(path);
    if sepR.Err? {
      return Err(sepR.error);
    }
    var sep := sepR.value;
    var dirR;
    if dir != "" {
      dirR := Ok(dir);
    } else {
      dirR := DirnameOf(path, sep, root, urlRoot);
    }
    if dirR.Err? {
      return Err(dirR.error);
    }
    var idx := |dirR.value|;
    while idx < |path|
      invariant idx >= |dirR.value|
      invariant SkipForward(path, sep, idx) == SkipForward(path, sep, |dirR.value|)
      decreases |path| - idx
    {
      if [path[idx]] != sep {
        break;
      }
      idx := idx + 1;
    }
    if idx >= |path| {
      return Ok([]);
    }
    return Ok(path[idx..]);
  }

  /**
   * When the dirname is a prefix of the path, the path is the dirname, a
   * run of separators and the basename.
   */
  lemma BasenameSplit(path: string, dir: string, urlRoot: UrlRoot)
    requires ExtractPathSeq(path).Ok? && Dirname(path, ExtractPathSeq(path).value, "", urlRoot) == Ok(dir)
    requires |dir| <= |path| && dir == path[..|dir|]
    ensures Basename(path, "", "", "", urlRoot).Ok?
    ensures var b := Basename(path, "", "", "", urlRoot).value;
      var mid := path[|dir|..|path| - |b|];
      && path == dir + mid + b
      && (forall j :: 0 <= j < |mid| ==> [mid[j]] == ExtractPathSeq(path).value)
  {
    var sep := ExtractPathSeq(path).value;
    var k := SkipForward(path, sep, |dir|);
    var b := Basename(path, "", "", "", urlRoot).value;
    var e := if k >= |path| then |path| else k;
    assert b == path[e..];
    assert path == path[..|dir|] + path[|dir|..e] + path[e..];
    forall j | 0 <= j < e - |dir|
      ensures [path[|dir|..e][j]] == sep
    {
      assert SepAt(path, |dir| + j, sep);
    }
  }

  /** A worked example: "/srv/data/photos" has parents "/srv/data", "/srv" and "/", and basename "photos". */
  lemma PhotosExample(urlRoot: UrlRoot)
    ensures GenerateParents("/srv/data/photos", false, urlRoot) == Ok(["/srv/data", "/srv", "/"])
    ensures GenerateParents("/srv/data/photos", true, urlRoot) == Ok(["/", "/srv", "/srv/data"])
    ensures Basename("/srv/data/photos", "", "", "", urlRoot) == Ok("photos")
  {
    PhotosAncestors(urlRoot);
    PhotosDirnames(urlRoot);
    assert Reverse(["/srv/data", "/srv", "/"]) == ["/", "/srv", "/srv/data"];
    PhotosBasename(urlRoot);
  }

  /** The ancestors of "/srv/data/photos" under the root "/": "/srv/data", "/srv", "/". */
  lemma PhotosAncestors(urlRoot: UrlRoot)
    ensures Ancestors("/srv/data/photos", "/", urlRoot) == Ok(["/srv/data", "/srv", "/"])
  {
    PhotosDirnames(urlRoot);
    AncestorsCons("/srv", "/", urlRoot, "/", []);
    assert ["/"] + [] == ["/"];
    AncestorsCons("/srv/data", "/", urlRoot, "/srv", ["/"]);
    assert ["/srv"] + ["/"] == ["/srv", "/"];
    AncestorsCons("/srv/data/photos", "/", urlRoot, "/srv/data", ["/srv", "/"]);
    assert ["/srv/data"] + ["/srv", "/"] == ["/srv/data", "/srv", "/"];
  }

  /** One step of generateParents' loop: the dirname, then the ancestors of the dirname. */
  lemma AncestorsCons(filepath: string, root: string, urlRoot: UrlRoot, d: string, rest: seq<string>)
    requires root != "" && filepath != root
    requires Dirname(filepath, "", root, urlRoot) == Ok(d) && Ancestors(d, root, urlRoot) == Ok(rest)
    ensures Ancestors(filepath, root, urlRoot) == Ok([d] + rest)
  {
  }

  /** The dirnames along "/srv/data/photos" under the root "/": "/srv/data", then "/srv", then "/". */
  lemma PhotosDirnames(urlRoot: UrlRoot)
    ensures ExtractRoot("/srv/data/photos", urlRoot) == Ok("/")
    ensures Dirname("/srv/data/photos", "", "/", urlRoot) == Ok("/srv/data")
    ensures Dirname("/srv/data", "", "/", urlRoot) == Ok("/srv")
    ensures Dirname("/srv", "", "/", urlRoot) == Ok("/")
  {
    PhotosDirname(urlRoot);
    DataDirname(urlRoot);
    SrvDirname(urlRoot);
  }

  lemma SrvDirname(urlRoot: UrlRoot)
    ensures Dirname("/srv", "", "/", urlRoot) == Ok("/")
  {
    var t := "/srv";
    assert ExtractPathSeq(t) == Ok("/");
    DirnameCut(t, "/", urlRoot, 0);
  }

  lemma PhotosDirname(urlRoot: UrlRoot)
    ensures ExtractRoot("/srv/data/photos", urlRoot) == Ok("/")
    ensures Dirname("/srv/data/photos", "", "/", urlRoot) == Ok("/srv/data")
  {
    var p := "/srv/data/photos";
    assert ExtractRoot(p, urlRoot) == Ok("/") && ExtractPathSeq(p) == Ok("/");
    DirnameCut(p, "/", urlRoot, 9);
    assert p[..9] == "/srv/data";
  }

  lemma DataDirname(urlRoot: UrlRoot)
    ensures Dirname("/srv/data", "", "/", urlRoot) == Ok("/srv")
  {
    var q := "/srv/data";
    assert ExtractPathSeq(q) == Ok("/");
    DirnameCut(q, "/", urlRoot, 4);
    assert q[..4] == "/srv";
  }

  /** dirname under a given root with the separator "/", last at k: the root when k is 0, else the part before k when no separator precedes it. */
  lemma DirnameCut(path: string, root: string, urlRoot: UrlRoot, k: nat)
    requires root != "" && root != path && ExtractPathSeq(path) == Ok("/")
    requires k < |path| && path[k] == '/' && forall j :: k < j < |path| ==> path[j] != '/'
    requires k > 0 ==> |root| <= k - 1 && path[k - 1] != '/'
    ensures Dirname(path, "", root, urlRoot) == Ok(if k == 0 then root else path[..k])
  {
    LastSeparator(path, '/', k);
    if k > 0 {
      assert !SepAt(path, k - 1, "/");
    }
  }

  /** The basename of "/srv/data/photos" is "photos". */
  lemma PhotosBasename(urlRoot: UrlRoot)
    ensures Basename("/srv/data/photos", "", "", "", urlRoot) == Ok("photos")
  {
    var p := "/srv/data/photos";
    assert ExtractRoot(p, urlRoot) == Ok("/") && ExtractPathSeq(p) == Ok("/");
    LastSeparator(p, '/', 9);
    assert SkipBack(p, "/", 1, 8) == 8 by { assert p[8] == 'a'; }
    assert p[..9] == "/srv/data";
    assert Dirname(p, "/", "", urlRoot) == Ok("/srv/data");
    assert SkipForward(p, "/", 9) == 10 by { assert SepAt(p, 9, "/") && !SepAt(p, 10, "/"); }
    assert p[10..] == "photos";
  }
}
