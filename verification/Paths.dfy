/** Names and specifiers inside a bundle: splitting, resolving, and putting a
    hash before the extension. */
module Paths {
  import opened Wrappers
  import opened Characters

  // ---- strings ----

  function FindChar(s: string, c: char): (r: Option<nat>)
    ensures r.Some? ==> r.value < |s| && s[r.value] == c && c !in s[..r.value]
    ensures r.None? ==> c !in s
  {
    if s == [] then None
    else if s[0] == c then Some(0)
    else match FindChar(s[1..], c) case None => None case Some(k) => Some(k + 1)
  }

  function LastChar(s: string, c: char): (r: Option<nat>)
    ensures r.Some? ==> r.value < |s| && s[r.value] == c && c !in s[r.value + 1..]
    ensures r.None? ==> c !in s
  {
    if s == [] then None
    else if s[|s| - 1] == c then Some(|s| - 1)
    else LastChar(s[..|s| - 1], c)
  }

  lemma {:induction false} LastCharIs(s: string, c: char, k: nat)
    requires k < |s| && s[k] == c && c !in s[k + 1..]
    ensures LastChar(s, c) == Some(k)
  {
    if k < |s| - 1 {
      var t := s[..|s| - 1];
      assert s[k + 1..] == t[k + 1..] + [s[|s| - 1]];
      LastCharIs(t, c, k);
    }
  }

  /** Where the text first occurs. */
  function FindText(s: string, needle: string): (r: Option<nat>)
    ensures r.Some? ==> r.value + |needle| <= |s|
  {
    if Prefixed(s, needle) then Some(0)
    else if s == [] then None
    else match FindText(s[1..], needle) case None => None case Some(k) => Some(k + 1)
  }

  lemma {:induction false} FindsFirst(s: string, needle: string)
    ensures
      var r := FindText(s, needle);
      && (r.Some? ==> Prefixed(s[r.value..], needle))
      && (forall k :: 0 <= k <= |s| && (r.Some? ==> k < r.value) ==> !Prefixed(s[k..], needle))
  {
    assert s[0..] == s;
    if !Prefixed(s, needle) && s != [] {
      FindsFirst(s[1..], needle);
      assert forall k :: 0 < k <= |s| ==> s[1..][k - 1..] == s[k..];
    }
  }

  function Split(s: string, c: char): (parts: seq<string>)
    ensures |parts| >= 1
    ensures forall i :: 0 <= i < |parts| ==> c !in parts[i]
  {
    match FindChar(s, c)
    case None => [s]
    case Some(k) => [s[..k]] + Split(s[k + 1..], c)
  }

  function Join(parts: seq<string>, c: char): string {
    if parts == [] then ""
    else if |parts| == 1 then parts[0]
    else parts[0] + [c] + Join(parts[1..], c)
  }

  lemma {:induction false} FindCharIs(s: string, c: char, k: nat)
    requires k < |s| && s[k] == c && c !in s[..k]
    ensures FindChar(s, c) == Some(k)
  {
    if k > 0 {
      assert s[..k] == [s[0]] + s[1..][..k - 1];
      FindCharIs(s[1..], c, k - 1);
    }
  }

  lemma {:induction false} SplitJoin(parts: seq<string>, c: char)
    requires parts != [] && forall i :: 0 <= i < |parts| ==> c !in parts[i]
    ensures Split(Join(parts, c), c) == parts
  {
    if |parts| > 1 {
      var s := Join(parts, c);
      FindCharIs(s, c, |parts[0]|);
      assert s[..|parts[0]|] == parts[0] && s[|parts[0]| + 1..] == Join(parts[1..], c);
      SplitJoin(parts[1..], c);
    }
  }

  // ---- resolving a specifier ----

  /** A specifier without its query and fragment. */
  function CutQuery(s: string): string {
    if s == [] || s[0] == '?' || s[0] == '#' then "" else [s[0]] + CutQuery(s[1..])
  }

  function StripSlashes(s: string): string {
    if s != [] && s[0] == '/' then StripSlashes(s[1..]) else s
  }

  predicate HasScheme(s: string) {
    s != [] && (Prefixed(s, "://") || HasScheme(s[1..]))
  }

  /** It names something no build owns: nothing, another host, another scheme. */
  predicate IsExternal(s: string) {
    || s == ""
    || Prefixed(s, "//")
    || HasScheme(s)
    || (match FindChar(s, ':') case None => false case Some(colon) => '/' !in s[..colon])
  }

  /** The segments of the directory a name is in. */
  function Directory(from: string): seq<string> {
    match LastChar(from, '/')
    case None => []
    case Some(slash) => Split(from[..slash], '/')
  }

  function Walk(parts: seq<string>, segments: seq<string>): Option<seq<string>>
    decreases |segments|
  {
    if segments == [] then Some(parts)
    else if segments[0] == "" || segments[0] == "." then Walk(parts, segments[1..])
    else if segments[0] == ".." then
      (if parts == [] then None else Walk(parts[..|parts| - 1], segments[1..]))
    else Walk(parts + [segments[0]], segments[1..])
  }

  function Start(from: string, path: string): seq<string> {
    if Prefixed(path, "/") then [] else Directory(from)
  }

  /** Where the specifier points, as segments below the bundle root. */
  function Segments(from: string, specifier: string): Option<seq<string>> {
    var path := CutQuery(specifier);
    if IsExternal(path) then None
    else Walk(Start(from, path), Split(StripSlashes(path), '/'))
  }

  function Resolve(from: string, specifier: string): Option<string> {
    match Segments(from, specifier)
    case None => None
    case Some(parts) => Some(Join(parts, '/'))
  }

  method ResolveInPlace(from: string, specifier: string) returns (r: Option<string>)
    ensures r == Resolve(from, specifier)
  {
    var path := CutQuery(specifier);
    if IsExternal(path) {
      return None;
    }
    var parts: seq<string> := [];
    if !Prefixed(path, "/") {
      var slash := LastChar(from, '/');
      if slash.Some? {
        parts := parts + Split(from[..slash.value], '/');
      }
    }
    assert parts == Start(from, path);
    var segments := Split(StripSlashes(path), '/');
    for i := 0 to |segments|
      invariant Walk(parts, segments[i..]) == Walk(Start(from, path), segments)
    {
      assert segments[i..][1..] == segments[i + 1..];
      var part := segments[i];
      if part == "" || part == "." {
      } else if part == ".." {
        if parts == [] {
          return None;
        }
        parts := parts[..|parts| - 1];
      } else {
        parts := parts + [part];
      }
    }
    r := Some(Join(parts, '/'));
  }

  // ---- what resolving promises ----

  predicate IsNormal(segment: string) {
    segment != "" && segment != "." && segment != ".." && '/' !in segment
  }

  ghost predicate AllNormal(parts: seq<string>) {
    forall i :: 0 <= i < |parts| ==> IsNormal(parts[i])
  }

  lemma {:induction false} WalkKeepsNormal(parts: seq<string>, segments: seq<string>)
    requires AllNormal(parts) && forall i :: 0 <= i < |segments| ==> '/' !in segments[i]
    ensures Walk(parts, segments).Some? ==> AllNormal(Walk(parts, segments).value)
    decreases |segments|
  {
    if segments != [] {
      if segments[0] == "" || segments[0] == "." {
        WalkKeepsNormal(parts, segments[1..]);
      } else if segments[0] == ".." {
        if parts != [] { WalkKeepsNormal(parts[..|parts| - 1], segments[1..]); }
      } else {
        WalkKeepsNormal(parts + [segments[0]], segments[1..]);
      }
    }
  }

  lemma KeepsAbnormal(from: string, bad: nat, name: string)
    requires bad < |Directory(from)| && !IsNormal(Directory(from)[bad]) && |name| == 1 && name[0] == 'x'
    ensures Segments(from, name).Some? && !AllNormal(Segments(from, name).value)
  {
    assert IsNormal(name);
    PlainNameResolves(from, name);
    assert (Directory(from) + [name])[bad] == Directory(from)[bad];
  }

  /** Every specifier written in a file resolves to a normal form exactly when the
      file's own directory is in normal form. */
  lemma NormalFormIff(from: string)
    ensures (forall s :: Segments(from, s).Some? ==> AllNormal(Segments(from, s).value)) <==> AllNormal(Directory(from))
  {
    if AllNormal(Directory(from)) {
      forall s | Segments(from, s).Some? ensures AllNormal(Segments(from, s).value) {
        var path := CutQuery(s);
        WalkKeepsNormal(Start(from, path), Split(StripSlashes(path), '/'));
      }
    } else {
      var bad :| 0 <= bad < |Directory(from)| && !IsNormal(Directory(from)[bad]);
      KeepsAbnormal(from, bad, "x");
    }
  }

  /** How far below the root a run of segments leaves one. */
  function Level(start: int, segments: seq<string>): int {
    if segments == [] then start
    else
      var n := |segments| - 1;
      Level(start, segments[..n])
      + if segments[n] == "" || segments[n] == "." then 0 else if segments[n] == ".." then -1 else 1
  }

  lemma {:induction false} LevelShift(start: int, segments: seq<string>)
    requires segments != []
    ensures Level(start, segments) == Level(Level(start, segments[..1]), segments[1..])
    decreases |segments|
  {
    var n := |segments| - 1;
    if n > 0 {
      LevelShift(start, segments[..n]);
      assert segments[..n][..1] == segments[..1];
      assert segments[..n][1..] == segments[1..][..n - 1];
    }
  }

  ghost predicate ClimbsOut(start: int, segments: seq<string>) {
    exists k :: 0 <= k <= |segments| && Level(start, segments[..k]) < 0
  }

  lemma ClimbsOutStep(start: nat, segments: seq<string>)
    requires segments != []
    ensures ClimbsOut(start, segments) <==> ClimbsOut(Level(start, segments[..1]), segments[1..])
  {
    var next := Level(start, segments[..1]);
    forall k | 1 <= k <= |segments| ensures Level(start, segments[..k]) == Level(next, segments[1..][..k - 1]) {
      LevelShift(start, segments[..k]);
      assert segments[..k][..1] == segments[..1] && segments[..k][1..] == segments[1..][..k - 1];
    }
    if ClimbsOut(start, segments) {
      var k :| 0 <= k <= |segments| && Level(start, segments[..k]) < 0;
      assert segments[..0] == [];
      assert Level(next, segments[1..][..k - 1]) < 0;
    }
    if ClimbsOut(next, segments[1..]) {
      var k :| 0 <= k <= |segments[1..]| && Level(next, segments[1..][..k]) < 0;
      assert Level(start, segments[..k + 1]) < 0;
    }
  }

  lemma {:induction false} WalkRefusesIff(parts: seq<string>, segments: seq<string>)
    ensures Walk(parts, segments).None? <==> ClimbsOut(|parts|, segments)
    decreases |segments|
  {
    if segments == [] {
      assert forall k :: 0 <= k <= 0 ==> segments[..k] == [];
    } else {
      ClimbsOutStep(|parts|, segments);
      assert segments[..1] == [segments[0]];
      assert Level(|parts|, segments[..1][..0]) == |parts|;
      var next := Level(|parts|, segments[..1]);
      if segments[0] == "" || segments[0] == "." {
        WalkRefusesIff(parts, segments[1..]);
      } else if segments[0] == ".." {
        if parts == [] {
          assert segments[1..][..0] == [];
          assert Level(next, segments[1..][..0]) < 0;
        } else {
          WalkRefusesIff(parts[..|parts| - 1], segments[1..]);
        }
      } else {
        WalkRefusesIff(parts + [segments[0]], segments[1..]);
      }
    }
  }

  /** A path is refused exactly when some prefix of it climbs above the root. */
  lemma RefusedIffClimbs(from: string, specifier: string)
    requires !IsExternal(CutQuery(specifier))
    ensures
      var path := CutQuery(specifier);
      Resolve(from, specifier).None? <==> ClimbsOut(|Start(from, path)|, Split(StripSlashes(path), '/'))
  {
    var path := CutQuery(specifier);
    WalkRefusesIff(Start(from, path), Split(StripSlashes(path), '/'));
  }

  // ---- a result resolves to itself ----

  predicate Clean(s: string) {
    '?' !in s && '#' !in s
  }

  ghost predicate AllClean(parts: seq<string>) {
    forall i :: 0 <= i < |parts| ==> Clean(parts[i])
  }

  lemma {:induction false} CutIsClean(s: string)
    ensures Clean(CutQuery(s)) && (Clean(s) ==> CutQuery(s) == s)
  {
    if s != [] && s[0] != '?' && s[0] != '#' {
      CutIsClean(s[1..]);
    }
  }

  lemma {:induction false} SplitKeepsClean(s: string, c: char)
    requires Clean(s)
    ensures AllClean(Split(s, c))
  {
    if FindChar(s, c).Some? {
      SplitKeepsClean(s[FindChar(s, c).value + 1..], c);
    }
  }

  lemma {:induction false} StripKeepsClean(s: string)
    requires Clean(s)
    ensures Clean(StripSlashes(s))
  {
    if s != [] && s[0] == '/' {
      StripKeepsClean(s[1..]);
    }
  }

  lemma {:induction false} WalkKeepsClean(parts: seq<string>, segments: seq<string>)
    requires AllClean(parts) && AllClean(segments)
    ensures Walk(parts, segments).Some? ==> AllClean(Walk(parts, segments).value)
    decreases |segments|
  {
    if segments != [] {
      if segments[0] == "" || segments[0] == "." {
        WalkKeepsClean(parts, segments[1..]);
      } else if segments[0] == ".." {
        if parts != [] { WalkKeepsClean(parts[..|parts| - 1], segments[1..]); }
      } else {
        WalkKeepsClean(parts + [segments[0]], segments[1..]);
      }
    }
  }

  lemma {:induction false} WalkNormal(parts: seq<string>, segments: seq<string>)
    requires AllNormal(segments)
    ensures Walk(parts, segments) == Some(parts + segments)
    decreases |segments|
  {
    if segments == [] {
      assert parts + segments == parts;
    } else {
      assert IsNormal(segments[0]);
      WalkNormal(parts + [segments[0]], segments[1..]);
      assert parts + [segments[0]] + segments[1..] == parts + segments;
    }
  }

  ghost predicate NoDoubleSlash(s: string) {
    forall i :: 0 <= i < |s| - 1 ==> !(s[i] == '/' && s[i + 1] == '/')
  }

  lemma {:induction false} JoinIsPlain(parts: seq<string>)
    requires AllNormal(parts) && AllClean(parts)
    ensures var s := Join(parts, '/'); NoDoubleSlash(s) && Clean(s) && (s != "" ==> s[0] != '/')
    ensures parts != [] ==> Join(parts, '/') != ""
  {
    if |parts| > 1 {
      JoinIsPlain(parts[1..]);
      var rest := Join(parts[1..], '/');
      var s := parts[0] + ['/'] + rest;
      forall i | 0 <= i < |s| - 1 ensures !(s[i] == '/' && s[i + 1] == '/') {
        if i < |parts[0]| {
          assert s[i] in parts[0];
        } else if i > |parts[0]| {
          assert s[i] == rest[i - |parts[0]| - 1] && s[i + 1] == rest[i - |parts[0]|];
        }
      }
    } else if |parts| == 1 {
      forall i | 0 <= i < |parts[0]| - 1 ensures parts[0][i] != '/' {
        assert parts[0][i] in parts[0];
      }
    }
  }

  lemma NotPrefixed(s: string, prefix: string, i: nat)
    requires i < |prefix| && (i < |s| ==> s[i] != prefix[i])
    ensures !Prefixed(s, prefix)
  {
    assert |prefix| <= |s| ==> s[..|prefix|][i] == s[i];
  }

  lemma {:induction false} NoScheme(s: string)
    requires NoDoubleSlash(s)
    ensures !HasScheme(s)
  {
    if s != [] {
      NotPrefixed(s, "://", if |s| > 1 && s[1] == '/' then 2 else 1);
      NoScheme(s[1..]);
    }
  }

  /** A bare file name means the file beside the one that wrote it. */
  lemma PlainNameResolves(from: string, name: string)
    requires IsNormal(name) && Clean(name) && ':' !in name
    ensures Segments(from, name) == Some(Directory(from) + [name])
  {
    CutIsClean(name);
    forall i | 0 <= i < |name| - 1 ensures name[i] != '/' {
      assert name[i] in name;
    }
    NoScheme(name);
    assert name[0] in name;
    NotPrefixed(name, "//", 0);
    NotPrefixed(name, "/", 0);
    var parts := Directory(from);
    assert Walk(parts, [name]) == Walk(parts + [name], [name][1..]);
  }

  lemma AbsoluteResolvesToItself(from: string, parts: seq<string>)
    requires AllNormal(parts) && AllClean(parts)
    ensures Segments(from, "/" + Join(parts, '/')) == Some(parts)
  {
    var joined := Join(parts, '/');
    var s := "/" + joined;
    JoinIsPlain(parts);
    CutIsClean(s);
    assert NoDoubleSlash(s);
    NoScheme(s);
    NotPrefixed(s, "//", 1);
    match FindChar(s, ':') {
      case None =>
      case Some(colon) => assert s[..colon][0] == '/';
    }
    assert !IsExternal(s);
    assert s[1..] == joined;
    assert StripSlashes(s) == joined;
    if parts == [] {
      assert Walk([], [""]) == Walk([], [""][1..]);
    } else {
      SplitJoin(parts, '/');
      WalkNormal([], parts);
      assert [] + parts == parts;
    }
  }

  /** A result, taken as an absolute specifier in any file, gives itself again. */
  ghost predicate IsFixed(from: string, specifier: string, other: string) {
    Resolve(from, specifier).Some? ==>
      Resolve(other, "/" + Resolve(from, specifier).value) == Resolve(from, specifier)
  }

  lemma FixedInCleanDirectory(from: string, specifier: string, other: string)
    requires AllNormal(Directory(from)) && AllClean(Directory(from))
    ensures IsFixed(from, specifier, other)
  {
    if Resolve(from, specifier).Some? {
      var path := CutQuery(specifier);
      var segments := Split(StripSlashes(path), '/');
      NormalFormIff(from);
      CutIsClean(specifier);
      StripKeepsClean(path);
      SplitKeepsClean(StripSlashes(path), '/');
      WalkKeepsClean(Start(from, path), segments);
      AbsoluteResolvesToItself(other, Segments(from, specifier).value);
    }
  }

  /** What an absolute specifier resolves to is plain whatever it was. */
  lemma AbsoluteResolvesPlain(from: string, specifier: string)
    requires Prefixed(specifier, "/") && Segments(from, specifier).Some?
    ensures AllNormal(Segments(from, specifier).value) && AllClean(Segments(from, specifier).value)
  {
    var path := CutQuery(specifier);
    var segments := Split(StripSlashes(path), '/');
    assert specifier[..1][0] == specifier[0];
    assert path[..1] == "/";
    CutIsClean(specifier);
    StripKeepsClean(path);
    SplitKeepsClean(StripSlashes(path), '/');
    WalkKeepsClean([], segments);
    WalkKeepsNormal([], segments);
  }

  lemma FixedBesideIt(from: string, name: string)
    requires IsNormal(name) && Clean(name) && ':' !in name && IsFixed(from, name, from)
    ensures AllNormal(Directory(from)) && AllClean(Directory(from))
  {
    PlainNameResolves(from, name);
    var parts := Directory(from) + [name];
    var again := "/" + Join(parts, '/');
    assert again[..1] == "/";
    AbsoluteResolvesPlain(from, again);
    var plain := Segments(from, again).value;
    JoinHasText(parts);
    SplitJoin(parts, '/');
    SplitJoin(plain, '/');
    assert forall i :: 0 <= i < |Directory(from)| ==> parts[i] == Directory(from)[i];
  }

  lemma {:induction false} JoinHasText(parts: seq<string>)
    requires parts != [] && parts[|parts| - 1] != ""
    ensures Join(parts, '/') != ""
  {
    if |parts| > 1 {
      JoinHasText(parts[1..]);
    }
  }

  /** Every result gives itself again exactly when the directory of the file that wrote
      the specifier is in normal form and has neither a hash sign nor a question mark. */
  lemma ResolvedIsFixedIff(from: string)
    ensures (forall specifier, other :: IsFixed(from, specifier, other))
            <==> AllNormal(Directory(from)) && AllClean(Directory(from))
  {
    if AllNormal(Directory(from)) && AllClean(Directory(from)) {
      forall specifier, other ensures IsFixed(from, specifier, other) {
        FixedInCleanDirectory(from, specifier, other);
      }
    } else {
      var name := "x";
      assert IsNormal(name) && Clean(name) && ':' !in name;
      if IsFixed(from, name, from) {
        FixedBesideIt(from, name);
      }
    }
  }

  /** A directory with a hash sign in its name: the file beside `c` is lost when its
      path is read again. */
  lemma HashSignIsCut(from: string, other: string)
    requires from == "a#b/c"
    ensures Resolve(from, "d") == Some("a#b/d") && Resolve(other, "/a#b/d") == Some("a")
  {
    ResolvesInHashSign(from, "a#b", "d");
    assert "a#b" + "/" + "d" == "a#b/d";
    CutAtHashSign(other, "/a#b/d");
  }

  lemma ResolvesInHashSign(from: string, dir: string, name: string)
    requires from == dir + "/c" && '/' !in dir && dir != "" && name == "d"
    ensures Resolve(from, name) == Some(dir + "/" + name)
  {
    assert from[..|dir|] == dir && FindChar(dir, '/').None?;
    assert from[|dir| + 1..] == "c";
    LastCharIs(from, '/', |dir|);
    assert Directory(from) == [dir];
    PlainNameResolves(from, name);
    var parts := [dir, name];
    assert [dir] + [name] == parts && parts[1..] == [name];
    assert Join(parts, '/') == dir + ['/'] + Join(parts[1..], '/');
  }

  lemma CutAtHashSign(other: string, specifier: string)
    requires specifier == "/a#b/d"
    ensures Resolve(other, specifier) == Some("a")
  {
    assert CutQuery(specifier[2..]) == "";
    assert CutQuery(specifier[1..]) == "a";
    assert CutQuery(specifier) == "/a";
    var parts := ["a"];
    AbsoluteResolvesToItself(other, parts);
    assert "/" + Join(parts, '/') == "/a";
    CutIsClean("/a");
  }

  // ---- hashed names ----

  function FileStart(name: string): (k: nat)
    ensures k <= |name| && '/' !in name[k..]
  {
    match LastChar(name, '/') case None => 0 case Some(slash) => slash + 1
  }

  /** Where the extension of a name begins, dot and all. */
  function Dot(name: string): (r: Option<nat>)
    ensures r.Some? ==> FileStart(name) < r.value < |name| && name[r.value] == '.'
    ensures r.Some? ==> '.' !in name[r.value + 1..] && '/' !in name[r.value..]
  {
    var start := FileStart(name);
    match LastChar(name[start..], '.')
    case None => None
    case Some(dot) =>
      assert name[start..][dot + 1..] == name[start + dot + 1..];
      assert name[start..][dot..] == name[start + dot..];
      if dot > 0 then Some(start + dot) else None
  }

  function HashedName(name: string, hash: string): string {
    match Dot(name)
    case Some(split) => name[..split] + ("." + hash) + name[split..]
    case None => name + "." + hash
  }

  predicate IsCss(name: string) {
    match Dot(name)
    case None => false
    case Some(dot) => Lower(name[dot + 1..]) == "css"
  }

  function LowerOf(c: char): char {
    if 'A' <= c <= 'Z' then c - 'A' + 'a' else c
  }

  function Lower(s: string): string {
    if s == [] then "" else [LowerOf(s[0])] + Lower(s[1..])
  }

  predicate IsLetter(c: char, lower: char, upper: char) {
    c == lower || c == upper
  }

  lemma {:induction false} LowerAt(s: string)
    ensures |Lower(s)| == |s|
    ensures forall i :: 0 <= i < |s| ==> Lower(s)[i] == LowerOf(s[i])
  {
    if s != "" {
      LowerAt(s[1..]);
    }
  }

  lemma COrS(c: char)
    ensures LowerOf(c) == 'c' <==> IsLetter(c, 'c', 'C')
    ensures LowerOf(c) == 's' <==> IsLetter(c, 's', 'S')
  {
  }

  lemma IsThree(t: string, css: string)
    requires |css| == 3
    ensures t == css <==> |t| == 3 && t[0] == css[0] && t[1] == css[1] && t[2] == css[2]
  {
  }

  lemma LowerIsCss(s: string)
    ensures Lower(s) == "css" <==>
            |s| == 3 && IsLetter(s[0], 'c', 'C') && IsLetter(s[1], 's', 'S') && IsLetter(s[2], 's', 'S')
  {
    LowerAt(s);
    IsThree(Lower(s), "css");
    if |s| == 3 {
      COrS(s[0]);
      COrS(s[1]);
      COrS(s[2]);
    }
  }

  /** A stylesheet is a file whose name ends in `.css`, in upper or lower case, behind at
      least one character of its own. */
  lemma IsCssIff(name: string)
    ensures
      var n := |name|;
      IsCss(name) <==>
      && n >= 5 && name[n - 5] != '/' && name[n - 4] == '.'
      && IsLetter(name[n - 3], 'c', 'C') && IsLetter(name[n - 2], 's', 'S') && IsLetter(name[n - 1], 's', 'S')
  {
    var n := |name|;
    if IsCss(name) {
      DotIsInside(name);
      LowerIsCss(name[Dot(name).value + 1..]);
    }
    if n >= 5 && name[n - 5] != '/' && name[n - 4] == '.' {
      var tail := name[n - 3..];
      if IsLetter(tail[0], 'c', 'C') && IsLetter(tail[1], 's', 'S') && IsLetter(tail[2], 's', 'S') {
        CssInLetters(name, tail);
      }
    }
  }

  lemma DotIsInside(name: string)
    requires Dot(name).Some?
    ensures name[Dot(name).value - 1] != '/'
  {
    InTail(name, FileStart(name), '/');
  }

  lemma CssInLetters(name: string, tail: string)
    requires |name| >= 5 && name[|name| - 5] != '/' && name[|name| - 4] == '.' && tail == name[|name| - 3..]
    requires IsLetter(tail[0], 'c', 'C') && IsLetter(tail[1], 's', 'S') && IsLetter(tail[2], 's', 'S')
    ensures IsCss(name)
  {
    LowerIsCss(tail);
    EndsInCss(name);
  }

  lemma StartsBy(name: string, k: nat)
    requires k <= |name| && forall j :: k <= j < |name| ==> name[j] != '/'
    ensures FileStart(name) <= k
  {
  }

  lemma DotIs(name: string, dot: nat)
    requires 0 < dot < |name| && name[dot] == '.' && '.' !in name[dot + 1..]
    requires forall j :: dot - 1 <= j < |name| ==> name[j] != '/'
    ensures Dot(name) == Some(dot)
  {
    StartsBy(name, dot - 1);
    var start := FileStart(name);
    var file := name[start..];
    assert file[dot - start + 1..] == name[dot + 1..];
    LastCharIs(file, '.', dot - start);
  }

  lemma InTail(s: string, k: nat, c: char)
    requires k <= |s| && c !in s[k..]
    ensures forall j :: k <= j < |s| ==> s[j] != c
  {
    forall j | k <= j < |s| ensures s[j] != c {
      assert s[k..][j - k] == s[j];
    }
  }

  lemma EndsInCss(name: string)
    requires |name| >= 5 && name[|name| - 5] != '/' && name[|name| - 4] == '.'
    requires '.' !in name[|name| - 3..] && '/' !in name[|name| - 3..]
    ensures Dot(name) == Some(|name| - 4)
  {
    InTail(name, |name| - 3, '/');
    DotIs(name, |name| - 4);
  }

  lemma Pieces(a: string, m: string, e: string)
    ensures var x := a + m + e;
            x[..|a|] == a && x[|a|..] == m + e && x[|a|..|a| + |m|] == m && x[|a| + |m|..] == e
  {
  }

  /** What replaces the part after the last slash leaves the directory alone. */
  lemma SameDirectory(name: string, x: string)
    requires FileStart(name) <= |x| && x[..FileStart(name)] == name[..FileStart(name)]
    requires '/' !in x[FileStart(name)..]
    ensures Directory(x) == Directory(name)
  {
    var start := FileStart(name);
    if start > 0 {
      var slash := start - 1;
      SameStart(name, x);
      assert x[..slash] == x[..start][..slash] && name[..slash] == name[..start][..slash];
    } else {
      assert x[0..] == x;
    }
  }

  lemma SameStart(name: string, x: string)
    requires FileStart(name) <= |x| && x[..FileStart(name)] == name[..FileStart(name)]
    requires '/' !in x[FileStart(name)..]
    ensures FileStart(x) == FileStart(name)
  {
    var start := FileStart(name);
    if start > 0 {
      var slash := start - 1;
      assert x[slash] == x[..start][slash] == name[..start][slash] == '/';
      LastCharIs(x, '/', slash);
    } else {
      assert x[0..] == x;
    }
  }

  lemma HashedFile(name: string, hash: string)
    requires '/' !in hash
    ensures var x, start := HashedName(name, hash), FileStart(name);
            start <= |x| && x[..start] == name[..start] && '/' !in x[start..]
  {
    var start := FileStart(name);
    match Dot(name)
    case Some(dot) =>
      DottedName(name, hash, dot);
      InsertKeepsFile(name, start, dot, "." + hash);
    case None =>
      InsertKeepsFile(name, start, |name|, "." + hash);
      assert name[..|name|] + ("." + hash) + name[|name|..] == name + "." + hash;
  }

  /** Text put in behind the last slash leaves what is before it, and no slash after. */
  lemma InsertKeepsFile(name: string, start: nat, at: nat, mark: string)
    requires start <= at <= |name| && '/' !in name[start..] && '/' !in mark
    ensures
      var x := name[..at] + mark + name[at..];
      start <= |x| && x[..start] == name[..start] && '/' !in x[start..]
  {
    var x := name[..at] + mark + name[at..];
    assert x[start..] == name[start..at] + mark + name[at..];
    assert forall c :: c in name[start..at] || c in name[at..] ==> c in name[start..];
  }

  /** A hashed file has not moved: it is in the same directory, so everything
      written in it resolves as before. */
  lemma HashedKeepsDirectory(name: string, hash: string)
    requires '/' !in hash
    ensures Directory(HashedName(name, hash)) == Directory(name)
    ensures forall specifier :: Resolve(HashedName(name, hash), specifier) == Resolve(name, specifier)
  {
    HashedFile(name, hash);
    SameDirectory(name, HashedName(name, hash));
  }

  /** The hash goes before the last extension, which is kept. */
  lemma HashedKeepsExtension(name: string, hash: string)
    requires '/' !in hash && '.' !in hash && Dot(name).Some?
    ensures Dot(HashedName(name, hash)).Some?
    ensures Dot(HashedName(name, hash)).value == Dot(name).value + 1 + |hash|
    ensures HashedName(name, hash)[Dot(name).value + 1 + |hash|..] == name[Dot(name).value..]
  {
    var dot := Dot(name).value;
    HashedFile(name, hash);
    var x, mark := HashedName(name, hash), "." + hash;
    SameStart(name, x);
    Pieces(name[..dot], mark, name[dot..]);
    assert x == name[..dot] + mark + name[dot..];
    assert |mark| == 1 + |hash| && x[dot + 1 + |hash|..] == name[dot..];
    DotMoves(x, dot + 1 + |hash|, name, dot);
  }

  /** A name that ends like another, from the dot on, has its extension there. */
  lemma DotMoves(x: string, at: nat, name: string, dot: nat)
    requires Dot(name).Some? && Dot(name).value == dot && FileStart(x) < at <= |x| && x[at..] == name[dot..]
    ensures Dot(x).Some? && Dot(x).value == at
  {
    var start := FileStart(x);
    var file := x[start..];
    assert |x[at..]| == |name[dot..]| && x[at] == x[at..][0] == name[dot];
    assert x[at + 1..] == x[at..][1..] == name[dot..][1..] == name[dot + 1..];
    assert file[at - start + 1..] == x[at + 1..];
    LastCharIs(file, '.', at - start);
  }

  lemma StartAfter(dir: string, file: string)
    requires dir != "" && dir[|dir| - 1] == '/' && '/' !in file
    ensures FileStart(dir + file) == |dir| && FileStart(file) == 0
    ensures Directory(dir + file) == Split(dir[..|dir| - 1], '/')
  {
    var name := dir + file;
    assert name[|dir|..] == file && name[..|dir| - 1] == dir[..|dir| - 1];
    LastCharIs(name, '/', |dir| - 1);
  }

  lemma DotAfter(dir: string, file: string)
    requires dir != "" && dir[|dir| - 1] == '/' && '/' !in file
    ensures Dot(dir + file) == match Dot(file) case None => None case Some(dot) => Some(|dir| + dot)
  {
    StartAfter(dir, file);
    assert (dir + file)[|dir|..] == file && file[0..] == file;
  }

  lemma PlainInside(dir: string, file: string, name: string, hash: string)
    requires Dot(file) == None && Dot(name) == None && name == dir + file
    ensures HashedName(name, hash) == dir + HashedName(file, hash)
  {
    ThreeTogether(dir, file, ".", hash);
  }

  lemma DottedInside(dir: string, file: string, name: string, hash: string, dot: nat)
    requires Dot(file) == Some(dot) && Dot(name) == Some(|dir| + dot) && name == dir + file
    ensures HashedName(name, hash) == dir + HashedName(file, hash)
  {
    SplitInside(dir, file, name, dot);
    DottedName(name, hash, |dir| + dot);
    DottedName(file, hash, dot);
    ThreeTogether(dir, file[..dot], "." + hash, file[dot..]);
  }

  lemma DottedName(name: string, hash: string, dot: nat)
    requires Dot(name) == Some(dot)
    ensures HashedName(name, hash) == name[..dot] + ("." + hash) + name[dot..]
  {
  }

  lemma SplitInside(dir: string, file: string, name: string, dot: nat)
    requires dot <= |file| && name == dir + file
    ensures name[..|dir| + dot] == dir + file[..dot] && name[|dir| + dot..] == file[dot..]
  {
  }

  lemma ThreeTogether(a: string, b: string, c: string, d: string)
    ensures a + b + c + d == a + (b + c + d)
  {
  }

  /** What is in the directory's name has no part in the file's. */
  lemma HashedInside(dir: string, file: string, hash: string)
    requires dir != "" && dir[|dir| - 1] == '/' && '/' !in file
    ensures HashedName(dir + file, hash) == dir + HashedName(file, hash)
  {
    DotAfter(dir, file);
    match Dot(file)
    case None => PlainInside(dir, file, dir + file, hash);
    case Some(dot) => DottedInside(dir, file, dir + file, hash, dot);
  }

  lemma CssInside(dir: string, file: string)
    requires dir != "" && dir[|dir| - 1] == '/' && '/' !in file
    ensures IsCss(dir + file) <==> IsCss(file)
  {
    DotAfter(dir, file);
    match Dot(file)
    case None =>
    case Some(dot) => assert (dir + file)[|dir| + dot + 1..] == file[dot + 1..];
  }

  /** Two files never get one name, and one never gets the same name for different
      digests, whether they have an extension or not. */
  lemma HashedIsInjective(a: string, g: string, b: string, h: string)
    requires '/' !in g && '.' !in g && '/' !in h && '.' !in h && |g| == |h|
    requires HashedName(a, g) == HashedName(b, h)
    ensures a == b && g == h
  {
    DotsAgree(a, g, b, h);
    DotsAgree(b, h, a, g);
    if Dot(a).None? {
      PlainTakenApart(a, g);
      PlainTakenApart(b, h);
    } else {
      HashedDot(a, g, HashedName(a, g));
      HashedDot(b, h, HashedName(a, g));
      HashedTakenApart(a, g, Dot(a).value);
      HashedTakenApart(b, h, Dot(a).value);
    }
  }

  lemma PlainTakenApart(a: string, g: string)
    requires Dot(a).None?
    ensures var x := HashedName(a, g); |x| == |a| + 1 + |g| && x[..|a|] == a && x[|a| + 1..] == g
  {
  }

  /** A name without an extension and one with an extension are not hashed alike: the
      second would give the first a dot. */
  lemma DotsAgree(a: string, g: string, b: string, h: string)
    requires '/' !in g && '.' !in g && '/' !in h && '.' !in h && |g| == |h|
    requires HashedName(a, g) == HashedName(b, h)
    ensures Dot(a).None? ==> Dot(b).None?
  {
    if Dot(a).None? && Dot(b).Some? {
      var d := Dot(b).value;
      KeepsStart(a, g);
      KeepsStart(b, h);
      PlainTakenApart(a, g);
      HashedTakenApart(b, h, d);
      DotInName(a, d, HashedName(a, g));
    }
  }

  lemma DotInName(a: string, d: nat, x: string)
    requires FileStart(a) < d < |a| <= |x| && x[..|a|] == a && x[d] == '.'
    ensures Dot(a).Some?
  {
    var start := FileStart(a);
    assert a[start..][d - start] == '.' && a[start..][1..][d - start - 1] == '.';
  }

  lemma KeepsStart(name: string, hash: string)
    requires '/' !in hash
    ensures FileStart(HashedName(name, hash)) == FileStart(name)
  {
    HashedFile(name, hash);
    SameStart(name, HashedName(name, hash));
  }

  lemma HashedDot(name: string, hash: string, x: string)
    requires '/' !in hash && '.' !in hash && Dot(name).Some? && x == HashedName(name, hash)
    ensures Dot(x).Some? && Dot(name).value == Dot(x).value - 1 - |hash|
  {
    HashedKeepsExtension(name, hash);
  }

  lemma HashedTakenApart(a: string, g: string, dot: nat)
    requires Dot(a) == Some(dot)
    ensures var x := HashedName(a, g);
            && |x| == |a| + 1 + |g|
            && a == x[..dot] + x[dot + 1 + |g|..] && g == x[dot..dot + 1 + |g|][1..] && x[dot] == '.'
  {
    Pieces(a[..dot], "." + g, a[dot..]);
    assert a == a[..dot] + a[dot..];
    assert ("." + g)[1..] == g;
  }
}
