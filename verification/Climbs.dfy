/** What `..` does to a specifier: it takes back the segment before it, and at the start
    of a specifier the last directory of the file. */
module Climbs {
  import opened Wrappers
  import opened Characters
  import opened Paths

  // ---- segments ----

  /** A segment and the `..` behind it go away, wherever they stand. */
  lemma {:induction false} WalkTakesBack(parts: seq<string>, a: seq<string>, x: string, b: seq<string>)
    requires IsNormal(x)
    ensures Walk(parts, a + ([x, ".."] + b)) == Walk(parts, a + b)
    decreases |a|
  {
    var longer, shorter := a + ([x, ".."] + b), a + b;
    if a == [] {
      assert longer == [x, ".."] + b && shorter == b;
      assert longer[1..] == [".."] + b && longer[1..][1..] == b;
      assert (parts + [x])[..|parts + [x]| - 1] == parts;
      assert Walk(parts, longer) == Walk(parts + [x], longer[1..]);
    } else {
      assert longer[1..] == a[1..] + ([x, ".."] + b) && shorter[1..] == a[1..] + b;
      if a[0] == "" || a[0] == "." {
        WalkTakesBack(parts, a[1..], x, b);
      } else if a[0] == ".." {
        if parts != [] {
          WalkTakesBack(parts[..|parts| - 1], a[1..], x, b);
        }
      } else {
        WalkTakesBack(parts + [a[0]], a[1..], x, b);
      }
    }
  }

  lemma WalkClimbs(parts: seq<string>, last: string, b: seq<string>)
    ensures Walk(parts + [last], [".."] + b) == Walk(parts, b)
  {
    assert ([".."] + b)[1..] == b && (parts + [last])[..|parts + [last]| - 1] == parts;
  }

  // ---- splitting a path ----

  lemma {:induction false} SplitAtSlash(s: string, t: string)
    ensures Split(s + "/" + t, '/') == Split(s, '/') + Split(t, '/')
    decreases |s|
  {
    var whole := s + "/" + t;
    match FindChar(s, '/')
    case None =>
      assert whole[..|s|] == s && whole[|s| + 1..] == t;
      FindCharIs(whole, '/', |s|);
    case Some(k) =>
      assert whole[..k] == s[..k] && whole[k + 1..] == s[k + 1..] + "/" + t;
      FindCharIs(whole, '/', k);
      SplitAtSlash(s[k + 1..], t);
      Regroup([s[..k]], Split(s[k + 1..], '/'), Split(t, '/'));
  }

  /** Leading slashes are empty segments, and those are skipped. */
  lemma {:induction false} StrippingIsSkipping(parts: seq<string>, s: string)
    ensures Walk(parts, Split(StripSlashes(s), '/')) == Walk(parts, Split(s, '/'))
  {
    if s != [] && s[0] == '/' {
      StrippingIsSkipping(parts, s[1..]);
      assert FindChar(s, '/') == Some(0) && s[..0] == "" && s[0 + 1..] == s[1..];
      assert Split(s, '/') == [""] + Split(s[1..], '/');
      assert ([""] + Split(s[1..], '/'))[1..] == Split(s[1..], '/');
    }
  }

  lemma OneSegment(x: string)
    requires '/' !in x
    ensures Split(x, '/') == [x]
  {
  }

  lemma SplitBack(a: string, x: string, b: string)
    requires '/' !in x
    ensures Split(a + "/" + (x + "/" + (".." + "/" + b)), '/') == Split(a, '/') + ([x, ".."] + Split(b, '/'))
  {
    SplitAtSlash(a, x + "/" + (".." + "/" + b));
    SplitAtSlash(x, ".." + "/" + b);
    SplitAtSlash("..", b);
    OneSegment(x);
    OneSegment("..");
    assert [x] + ([".."] + Split(b, '/')) == [x, ".."] + Split(b, '/');
  }

  // ---- what is foreign ----

  ghost predicate SchemeAt(s: string, i: nat) {
    i + 3 <= |s| && s[i] == ':' && s[i + 1] == '/' && s[i + 2] == '/'
  }

  lemma {:induction false} HasSchemeIff(s: string)
    ensures HasScheme(s) <==> exists i: nat :: SchemeAt(s, i)
  {
    if s != [] {
      HasSchemeIff(s[1..]);
      assert Prefixed(s, "://") <==> SchemeAt(s, 0) by {
        if |s| >= 3 { assert s[..3] == [s[0], s[1], s[2]]; }
      }
      if i: nat :| SchemeAt(s[1..], i) {
        assert SchemeAt(s, i + 1);
      }
      if i: nat :| SchemeAt(s, i) {
        assert i > 0 ==> SchemeAt(s[1..], i - 1);
      }
    }
  }

  /** A colon with no slash before it. */
  ghost predicate ColonFirst(s: string) {
    exists i :: 0 <= i < |s| && s[i] == ':' && '/' !in s[..i]
  }

  lemma ColonFirstIff(s: string)
    ensures ColonFirst(s) <==> match FindChar(s, ':') case None => false case Some(colon) => '/' !in s[..colon]
  {
    match FindChar(s, ':')
    case None =>
    case Some(colon) =>
      if i :| 0 <= i < |s| && s[i] == ':' && '/' !in s[..i] {
        FirstIsFirst(s, ':', i);
        forall k | 0 <= k < colon ensures s[k] != '/' {
          assert s[..i][k] == s[k];
        }
      }
  }

  lemma {:induction false} FirstIsFirst(s: string, c: char, i: nat)
    requires i < |s| && s[i] == c
    ensures FindChar(s, c).Some? && FindChar(s, c).value <= i
  {
    if i > 0 && s[0] != c {
      FirstIsFirst(s[1..], c, i - 1);
    }
  }

  /** A path is foreign when it is empty, opens with two slashes, has `://` in it, or a
      colon with no slash before it. */
  lemma ExternalIff(s: string)
    ensures IsExternal(s) <==>
            || s == "" || (|s| >= 2 && s[0] == '/' && s[1] == '/')
            || (exists i: nat :: SchemeAt(s, i)) || ColonFirst(s)
  {
    HasSchemeIff(s);
    ColonFirstIff(s);
    if |s| >= 2 {
      assert s[..2] == [s[0], s[1]];
    }
  }

  predicate Slashed(b: string) {
    b != "" && b[0] == '/'
  }

  /** It ends with a slash that is not behind a colon. */
  predicate EndsPlain(u: string) {
    u != "" && u[|u| - 1] == '/' && (|u| >= 2 ==> u[|u| - 2] != ':')
  }

  /** A `://` is in one of two texts, when none can begin in the first and end in the second. */
  lemma SchemeBeside(u: string, v: string, i: nat)
    requires Slashed(v) ==> EndsPlain(u)
    ensures SchemeAt(u + v, i) <==> SchemeAt(u, i) || (i >= |u| && SchemeAt(v, i - |u|))
  {
    var s := u + v;
    assert forall k :: 0 <= k < |u| ==> s[k] == u[k];
    assert forall k :: 0 <= k < |v| ==> s[|u| + k] == v[k];
  }

  lemma SchemeAround(a: string, middle: string, b: string, i: nat)
    requires middle != "" && middle[0] != '/' && EndsPlain(middle)
    requires forall k: nat :: !SchemeAt(middle, k)
    ensures SchemeAt(a + "/" + (middle + b), i) <==>
            SchemeAt(a + "/", i) || (i >= |a| + 1 + |middle| && SchemeAt(b, i - |a| - 1 - |middle|))
  {
    SchemeBeside(a + "/", middle + b, i);
    if i >= |a| + 1 {
      SchemeBeside(middle, b, i - |a| - 1);
    }
  }

  lemma SlashBefore(s: string, k: nat, i: nat)
    requires k < |s| && s[k] == '/' && k < i <= |s|
    ensures '/' in s[..i]
  {
    assert s[..i][k] == '/';
  }

  lemma ColonInFront(a: string, t: string)
    ensures ColonFirst(a + "/" + t) <==> ColonFirst(a)
  {
    var s := a + "/" + t;
    forall i | 0 <= i < |a| ensures s[i] == a[i] && s[..i] == a[..i] {
    }
    forall i | |a| < i < |s| ensures '/' in s[..i] {
      SlashBefore(s, |a|, i);
    }
    assert s[|a|] == '/';
  }

  /** What makes a text foreign once the segments between are gone. */
  predicate TurnsForeign(a: string, b: string) {
    Slashed(b) && Clean(a) && (a == "" || a[|a| - 1] == ':')
  }

  lemma MiddleIsPlain(x: string)
    requires IsNormal(x)
    ensures
      var middle := x + "/../";
      && |middle| >= 4 && middle[0] != '/' && EndsPlain(middle)
      && forall k: nat :: !SchemeAt(middle, k)
  {
    var middle := x + "/../";
    forall k: nat ensures !SchemeAt(middle, k) {
      if k + 1 < |x| {
        assert middle[k + 1] == x[k + 1] && x[k + 1] in x;
      }
    }
  }

  lemma SameScheme(a: string, middle: string, b: string)
    requires middle != "" && middle[0] != '/' && EndsPlain(middle)
    requires forall k: nat :: !SchemeAt(middle, k)
    requires Slashed(b) ==> EndsPlain(a + "/")
    ensures (exists i: nat :: SchemeAt(a + "/" + (middle + b), i)) <==> (exists i: nat :: SchemeAt(a + "/" + b, i))
  {
    var s, t := a + "/" + (middle + b), a + "/" + b;
    if i: nat :| SchemeAt(s, i) {
      SchemeAround(a, middle, b, i);
      var j := if SchemeAt(a + "/", i) then i else i - |middle|;
      SchemeBeside(a + "/", b, j);
      assert SchemeAt(t, j);
    }
    if i: nat :| SchemeAt(t, i) {
      SchemeBeside(a + "/", b, i);
      var j := if SchemeAt(a + "/", i) then i else i + |middle|;
      SchemeAround(a, middle, b, j);
      assert SchemeAt(s, j);
    }
  }

  lemma SameForeign(a: string, x: string, b: string)
    requires IsNormal(x) && Clean(a) && !TurnsForeign(a, b)
    ensures IsExternal(a + "/" + (x + "/../" + b)) <==> IsExternal(a + "/" + b)
  {
    var middle := x + "/../";
    var s, t := a + "/" + (middle + b), a + "/" + b;
    ExternalIff(s);
    ExternalIff(t);
    ColonInFront(a, middle + b);
    ColonInFront(a, b);
    MiddleIsPlain(x);
    SameScheme(a, middle, b);
    assert |a| >= 2 ==> s[0] == t[0] == a[0] && s[1] == t[1] == a[1];
    assert |a| == 1 ==> s[0] == t[0] == a[0] && s[1] == t[1] == '/';
    assert a == "" ==> s[0] == t[0] == '/' && s[1] == middle[0] && (b != "" ==> t[1] == b[0]);
  }

  lemma NowForeign(a: string, b: string)
    requires TurnsForeign(a, b)
    ensures IsExternal(a + "/" + b)
  {
    var t := a + "/" + b;
    ExternalIff(t);
    if a == "" {
      assert t[0] == '/' && t[1] == '/';
    } else {
      assert SchemeAt(t, |a| - 1);
    }
  }

  // ---- specifiers ----

  lemma {:induction false} CutJoins(a: string, t: string)
    ensures CutQuery(a + t) == if Clean(a) then a + CutQuery(t) else CutQuery(a)
  {
    if a == "" {
      assert a + t == t;
    } else {
      assert (a + t)[1..] == a[1..] + t && [a[0]] + a[1..] == a;
      CutJoins(a[1..], t);
      if Clean(a) {
        Regroup([a[0]], a[1..], CutQuery(t));
      }
    }
  }

  lemma CutHead(b: string)
    ensures Slashed(CutQuery(b)) <==> Slashed(b)
  {
  }

  lemma SegmentsOf(from: string, path: string)
    requires Clean(path) && !IsExternal(path)
    ensures Segments(from, path) == Walk(Start(from, path), Split(path, '/'))
  {
    CutIsClean(path);
    StrippingIsSkipping(Start(from, path), path);
  }

  lemma StartIsOfFront(from: string, a: string, t: string)
    ensures Start(from, a + "/" + t) == if a == "" || a[0] == '/' then [] else Directory(from)
  {
    var s := a + "/" + t;
    assert s[0] == (if a == "" then '/' else a[0]) && s[..1] == [s[0]];
  }

  lemma InPieces(x: string, b: string, whole: string)
    requires whole == x + "/../" + b
    ensures x + "/" + (".." + "/" + b) == whole
  {
    Regroup(x, "/../", b);
  }

  lemma WalksAlike(parts: seq<string>, a: string, x: string, b: string)
    requires IsNormal(x)
    ensures Walk(parts, Split(a + "/" + (x + "/../" + b), '/')) == Walk(parts, Split(a + "/" + b, '/'))
  {
    InPieces(x, b, x + "/../" + b);
    SplitBack(a, x, b);
    SplitAtSlash(a, b);
    WalkTakesBack(parts, Split(a, '/'), x, Split(b, '/'));
  }

  lemma CleanTogether(a: string, x: string, b: string)
    requires Clean(a) && Clean(x) && Clean(b)
    ensures Clean(a + "/" + (x + "/../" + b)) && Clean(a + "/" + b)
  {
  }

  lemma CleanBack(from: string, a: string, x: string, b: string, s: string, t: string)
    requires IsNormal(x) && Clean(x) && Clean(a) && Clean(b) && !TurnsForeign(a, b)
    requires s == a + "/" + (x + "/../" + b) && t == a + "/" + b
    ensures Segments(from, s) == Segments(from, t)
  {
    SameForeign(a, x, b);
    CleanTogether(a, x, b);
    StartIsOfFront(from, a, x + "/../" + b);
    StartIsOfFront(from, a, b);
    if IsExternal(t) {
      ForeignIsNowhere(from, s);
      ForeignIsNowhere(from, t);
    } else {
      SegmentsOf(from, s);
      SegmentsOf(from, t);
      WalksAlike(Start(from, t), a, x, b);
    }
  }

  lemma ForeignIsNowhere(from: string, path: string)
    requires Clean(path) && IsExternal(path)
    ensures Segments(from, path) == None
  {
    CutIsClean(path);
  }

  lemma CutBoth(a: string, x: string, b: string)
    requires Clean(a) && Clean(x)
    ensures CutQuery(a + "/" + (x + "/../" + b)) == a + "/" + (x + "/../" + CutQuery(b))
    ensures CutQuery(a + "/" + b) == a + "/" + CutQuery(b)
  {
    var middle := x + "/../";
    CutJoins(a + "/", middle + b);
    CutJoins(a + "/", b);
    CutJoins(middle, b);
  }

  /** A directory and the `..` behind it can be left out of a specifier, in any file,
      unless that puts two slashes at its head or behind a colon: those name another
      host, and then it makes no difference exactly when the longer one was refused. */
  lemma BackIsTakenBackIff(from: string, a: string, x: string, b: string)
    requires IsNormal(x) && Clean(x)
    ensures
      var longer, shorter := a + "/" + (x + "/../" + b), a + "/" + b;
      Resolve(from, longer) == Resolve(from, shorter) <==> (TurnsForeign(a, b) ==> Resolve(from, longer) == None)
  {
    var s, t := a + "/" + (x + "/../" + b), a + "/" + b;
    if Clean(a) {
      var cut := CutQuery(b);
      CutBoth(a, x, b);
      CutHead(b);
      CutIsClean(b);
      CleanTogether(a, x, cut);
      if TurnsForeign(a, b) {
        NowForeign(a, cut);
      } else {
        CleanBack(from, a, x, cut, a + "/" + (x + "/../" + cut), a + "/" + cut);
        SameWhenCut(from, s, a + "/" + (x + "/../" + cut));
        SameWhenCut(from, t, a + "/" + cut);
      }
    } else {
      CutJoins(a, "/" + (x + "/../" + b));
      CutJoins(a, "/" + b);
      Regroup(a, "/", x + "/../" + b);
      Regroup(a, "/", b);
      StartsAlike(from, s, t);
    }
  }

  lemma SameWhenCut(from: string, s: string, t: string)
    requires CutQuery(s) == t && Clean(t)
    ensures Segments(from, s) == Segments(from, t)
  {
    CutIsClean(t);
  }

  lemma StartsAlike(from: string, s: string, t: string)
    requires CutQuery(s) == CutQuery(t)
    ensures Segments(from, s) == Segments(from, t)
  {
  }

  lemma NoColon(s: string)
    requires ':' !in s && |s| >= 2 && s[1] != '/'
    ensures !IsExternal(s)
  {
    ExternalIff(s);
    forall i: nat ensures !SchemeAt(s, i) {
      assert i < |s| ==> s[i] in s;
    }
  }

  lemma BackThenSlashes(c: string)
    requires IsNormal(c)
    ensures Walk([], Split("" + "/" + ("x" + "/" + (".." + "/" + ("" + "/" + c))), '/')) == Some([c])
  {
    SplitBack("", "x", "" + "/" + c);
    SplitAtSlash("", c);
    OneSegment(c);
    OneSegment("");
    WalkTakesBack([], [""], "x", [""] + [c]);
    WalkSkips([], [""] + [c]);
    WalkSkips([], [c]);
    WalkNormal([], [c]);
    assert [] + [c] == [c];
  }

  /** `/x/..//c` is a file of the bundle, and `//c` another host. */
  lemma DoubleSlashIsForeign(from: string, c: string)
    requires IsNormal(c) && Clean(c) && ':' !in c
    ensures
      var s := "" + "/" + ("x" + "/" + (".." + "/" + ("" + "/" + c)));
      Resolve(from, s) == Some(c) && Resolve(from, "" + "/" + ("" + "/" + c)) == None
  {
    var s, t := "" + "/" + ("x" + "/" + (".." + "/" + ("" + "/" + c))), "" + "/" + ("" + "/" + c);
    assert t[..2] == "//" && s[..1] == "/";
    NoColon(s);
    ForeignIsNowhere(from, t);
    SegmentsOf(from, s);
    BackThenSlashes(c);
  }

  lemma WalkSkips(parts: seq<string>, b: seq<string>)
    ensures Walk(parts, [""] + b) == Walk(parts, b)
  {
    assert ([""] + b)[1..] == b;
  }

  lemma UpIsOurs(path: string)
    requires NoDoubleSlash(path) && (path != "" ==> path[0] != '/')
    ensures !IsExternal(".." + "/" + path)
  {
    var s := ".." + "/" + path;
    ExternalIff(s);
    ColonInFront("..", path);
    forall i: nat ensures !SchemeAt(s, i) {
      SchemeBeside(".." + "/", path, i);
      assert i >= 3 && i - 3 + 2 < |path| ==> !(path[i - 3 + 1] == '/' && path[i - 3 + 2] == '/');
    }
  }

  /** At the start `..` is the directory above the file's own. */
  lemma UpFromTheFile(from: string, parts: seq<string>)
    requires Directory(from) != [] && parts != [] && AllNormal(parts) && AllClean(parts)
    ensures Segments(from, "../" + Join(parts, '/')) ==
            Some(Directory(from)[..|Directory(from)| - 1] + parts)
  {
    var path, dir := Join(parts, '/'), Directory(from);
    var s := ".." + "/" + path;
    JoinIsPlain(parts);
    assert "../" + path == s;
    assert forall i :: 0 <= i < |path| ==> s[i + 3] == path[i];
    UpIsOurs(path);
    SegmentsOf(from, s);
    StartIsOfFront(from, "..", path);
    SplitAtSlash("..", path);
    OneSegment("..");
    SplitJoin(parts, '/');
    WalkClimbs(dir[..|dir| - 1], dir[|dir| - 1], parts);
    assert dir == dir[..|dir| - 1] + [dir[|dir| - 1]];
    WalkNormal(dir[..|dir| - 1], parts);
  }

  /** `../img/x.png` in `assets/css/site.css`. */
  lemma UpAndDown(from: string, s: string)
    requires from == "assets" + "/" + ("css" + "/" + "site.css") && s == "../" + ("img" + ['/'] + "x.png")
    ensures Resolve(from, s) == Some("assets" + ['/'] + ("img" + ['/'] + "x.png"))
  {
    var parts := ["img", "x.png"];
    DirectoryOf(from, "assets", "css", "site.css");
    assert IsNormal("img") && IsNormal("x.png") && Clean("img") && Clean("x.png");
    assert parts[1..] == ["x.png"] && Join(parts[1..], '/') == "x.png";
    UpFromTheFile(from, parts);
    var up := ["assets", "css"][..1] + parts;
    assert up == ["assets", "img", "x.png"] && up[1..] == parts;
  }

  lemma DirectoryOf(from: string, a: string, b: string, file: string)
    requires from == a + "/" + (b + "/" + file) && '/' !in a && '/' !in b && '/' !in file
    ensures Directory(from) == [a, b]
  {
    var slash := |a| + 1 + |b|;
    assert from[slash + 1..] == file && from[..slash] == a + "/" + b;
    LastCharIs(from, '/', slash);
    SplitAtSlash(a, b);
    OneSegment(a);
    OneSegment(b);
  }
}
