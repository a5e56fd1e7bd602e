/** The asset directory: which stylesheets get a content hash in their name, and
    why nothing an author wrote points at a name that is gone. */
module Assets {
  import opened Wrappers
  import opened Characters
  import opened Names
  import opened Hash
  import opened Paths

  // ---- the references a stylesheet makes ----

  function TrimStart(s: string): string {
    if s != [] && IsSpace(s[0]) then TrimStart(s[1..]) else s
  }

  function TrimEnd(s: string): string {
    if s != [] && IsSpace(s[|s| - 1]) then TrimEnd(s[..|s| - 1]) else s
  }

  predicate QuotedBy(s: string, quote: char) {
    |s| >= 2 && s[0] == quote && s[|s| - 1] == quote
  }

  function Unquote(s: string): string {
    if QuotedBy(s, '\"') || QuotedBy(s, '\'') then s[1..|s| - 1] else s
  }

  function FindQuote(s: string): (r: Option<nat>)
    ensures r.Some? ==> r.value < |s|
  {
    if s == [] then None
    else if s[0] == '\"' || s[0] == '\'' then Some(0)
    else match FindQuote(s[1..]) case None => None case Some(k) => Some(k + 1)
  }

  function FirstString(clause: string): Option<string> {
    match FindQuote(clause)
    case None => None
    case Some(start) =>
      var rest := clause[start + 1..];
      match FindChar(rest, clause[start])
      case None => None
      case Some(end) => Some(rest[..end])
  }

  /** What one `url(` names, given the text after it. */
  function AfterUrl(rest: string): seq<string> {
    match FindChar(rest, ')') case None => [] case Some(end) => [Unquote(TrimEnd(TrimStart(rest[..end])))]
  }

  /** Up to the semicolon, or all of it. */
  function Clause(rest: string): string {
    match FindChar(rest, ';') case None => rest case Some(end) => rest[..end]
  }

  /** What one `@import` names, given the text after it. */
  function AfterImport(rest: string): seq<string> {
    match FirstString(Clause(rest)) case None => [] case Some(s) => [s]
  }

  const URL := "url("
  const IMPORT := "@import"

  /** Every place of the text a `url(` stands at, in order. */
  function Urls(text: string): seq<string> {
    if text == [] then []
    else (if Prefixed(text, URL) then AfterUrl(text[4..]) else []) + Urls(text[1..])
  }

  function Imports(text: string): seq<string> {
    if text == [] then []
    else (if Prefixed(text, IMPORT) then AfterImport(text[7..]) else []) + Imports(text[1..])
  }

  function References(text: string): seq<string> {
    Urls(text) + Imports(text)
  }

  lemma {:induction false} UrlsFrom(text: string, k: nat)
    requires k <= |text| && forall i :: 0 <= i < k ==> !Prefixed(text[i..], URL)
    ensures Urls(text) == Urls(text[k..])
  {
    if k > 0 {
      assert text[0..] == text;
      assert forall i :: 0 <= i < k - 1 ==> text[1..][i..] == text[i + 1..];
      UrlsFrom(text[1..], k - 1);
      assert text[1..][k - 1..] == text[k..];
    } else {
      assert text[0..] == text;
    }
  }

  lemma {:induction false} ImportsFrom(text: string, k: nat)
    requires k <= |text| && forall i :: 0 <= i < k ==> !Prefixed(text[i..], IMPORT)
    ensures Imports(text) == Imports(text[k..])
  {
    if k > 0 {
      assert text[0..] == text;
      assert forall i :: 0 <= i < k - 1 ==> text[1..][i..] == text[i + 1..];
      ImportsFrom(text[1..], k - 1);
      assert text[1..][k - 1..] == text[k..];
    } else {
      assert text[0..] == text;
    }
  }

  /** A match cannot start inside another, so skipping over one loses nothing. */
  lemma UrlSkips(text: string)
    requires Prefixed(text, URL)
    ensures Urls(text) == AfterUrl(text[4..]) + Urls(text[4..])
  {
    var tail := text[1..];
    forall i | 0 <= i < 3 ensures !Prefixed(tail[i..], URL) {
      assert tail[i..][0] == text[..4][i + 1];
      NotPrefixed(tail[i..], URL, 0);
    }
    UrlsFrom(tail, 3);
    assert tail[3..] == text[4..];
  }

  lemma ImportSkips(text: string)
    requires Prefixed(text, IMPORT)
    ensures Imports(text) == AfterImport(text[7..]) + Imports(text[7..])
  {
    var tail := text[1..];
    forall i | 0 <= i < 6 ensures !Prefixed(tail[i..], IMPORT) {
      assert tail[i..][0] == text[..7][i + 1];
      NotPrefixed(tail[i..], IMPORT, 0);
    }
    ImportsFrom(tail, 6);
    assert tail[6..] == text[7..];
  }

  lemma UrlsUpTo(text: string, at: nat)
    requires FindText(text, URL) == Some(at)
    ensures Urls(text) == Urls(text[at..]) && Prefixed(text[at..], URL)
  {
    FindsFirst(text, URL);
    UrlsFrom(text, at);
  }

  lemma NextUrl(text: string, at: nat)
    requires FindText(text, URL) == Some(at)
    ensures at + 4 <= |text| && Urls(text) == AfterUrl(text[at + 4..]) + Urls(text[at + 4..])
  {
    UrlsUpTo(text, at);
    UrlSkips(text[at..]);
    assert text[at..][4..] == text[at + 4..];
  }

  lemma NoMoreUrls(text: string)
    requires FindText(text, URL).None?
    ensures Urls(text) == []
  {
    FindsFirst(text, URL);
    UrlsFrom(text, |text|);
    assert text[|text|..] == [];
  }

  lemma NoMoreImports(text: string)
    requires FindText(text, IMPORT).None?
    ensures Imports(text) == []
  {
    FindsFirst(text, IMPORT);
    ImportsFrom(text, |text|);
    assert text[|text|..] == [];
  }

  lemma ImportsUpTo(text: string, at: nat)
    requires FindText(text, IMPORT) == Some(at)
    ensures Imports(text) == Imports(text[at..]) && Prefixed(text[at..], IMPORT)
  {
    FindsFirst(text, IMPORT);
    ImportsFrom(text, at);
  }

  lemma NextImport(text: string, at: nat)
    requires FindText(text, IMPORT) == Some(at)
    ensures at + 7 <= |text| && Imports(text) == AfterImport(text[at + 7..]) + Imports(text[at + 7..])
  {
    ImportsUpTo(text, at);
    ImportSkips(text[at..]);
    assert text[at..][7..] == text[at + 7..];
  }

  lemma Gather(out: seq<string>, found: seq<string>, later: seq<string>)
    ensures out + (found + later) == out + found + later
    ensures found == [] ==> out + found == out
  {
  }

  /** What has been found, and what the rest will add. */
  ghost predicate UrlsSoFar(text: string, out: seq<string>, rest: string) {
    out + Urls(rest) == Urls(text)
  }

  lemma OneMoreUrl(text: string, out: seq<string>, rest: string, at: nat)
    requires UrlsSoFar(text, out, rest) && FindText(rest, URL) == Some(at)
    ensures at + 4 <= |rest|
    ensures
      var found := AfterUrl(rest[at + 4..]);
      UrlsSoFar(text, out + found, rest[at + 4..]) && (found == [] ==> out + found == out)
  {
    NextUrl(rest, at);
    Gather(out, AfterUrl(rest[at + 4..]), Urls(rest[at + 4..]));
  }

  /** What has been found, and what the rest will add. */
  ghost predicate ImportsSoFar(text: string, out: seq<string>, rest: string) {
    out + Imports(rest) == Imports(text)
  }

  lemma OneMoreImport(text: string, out: seq<string>, rest: string, at: nat)
    requires ImportsSoFar(text, out, rest) && FindText(rest, IMPORT) == Some(at)
    ensures at + 7 <= |rest|
    ensures
      var found := AfterImport(rest[at + 7..]);
      ImportsSoFar(text, out + found, rest[at + 7..]) && (found == [] ==> out + found == out)
  {
    NextImport(rest, at);
    Gather(out, AfterImport(rest[at + 7..]), Imports(rest[at + 7..]));
  }

  method ReadUrl(rest: string) returns (found: seq<string>)
    ensures found == AfterUrl(rest)
  {
    found := [];
    var end := FindChar(rest, ')');
    if end.Some? {
      found := [Unquote(TrimEnd(TrimStart(rest[..end.value])))];
    }
  }

  method ReadImport(rest: string) returns (found: seq<string>)
    ensures found == AfterImport(rest)
  {
    found := [];
    var end := FindChar(rest, ';');
    var clause := if end.Some? then rest[..end.value] else rest;
    var specifier := FirstString(clause);
    if specifier.Some? {
      found := [specifier.value];
    }
  }

  /** Each scan jumps from match to match. */
  method ScanUrls(text: string) returns (out: seq<string>)
    ensures out == Urls(text)
  {
    out := [];
    var rest := text;
    var at := FindText(rest, URL);
    while at.Some?
      invariant at == FindText(rest, URL)
      invariant UrlsSoFar(text, out, rest)
      decreases |rest|
    {
      OneMoreUrl(text, out, rest, at.value);
      rest := rest[at.value + 4..];
      var found := ReadUrl(rest);
      out := out + found;
      at := FindText(rest, URL);
    }
    NoMoreUrls(rest);
  }

  method ScanImports(text: string) returns (out: seq<string>)
    ensures out == Imports(text)
  {
    out := [];
    var rest := text;
    var at := FindText(rest, IMPORT);
    while at.Some?
      invariant at == FindText(rest, IMPORT)
      invariant ImportsSoFar(text, out, rest)
      decreases |rest|
    {
      OneMoreImport(text, out, rest, at.value);
      rest := rest[at.value + 7..];
      var found := ReadImport(rest);
      out := out + found;
      at := FindText(rest, IMPORT);
    }
    NoMoreImports(rest);
  }

  method Scan(text: string) returns (out: seq<string>)
    ensures out == References(text)
  {
    var urls := ScanUrls(text);
    var imports := ScanImports(text);
    out := urls + imports;
  }

  // ---- what a stylesheet writes is found ----

  lemma {:induction false} UrlAt(before: string, rest: string, s: string)
    requires Prefixed(rest, URL) && s in AfterUrl(rest[4..])
    ensures s in Urls(before + rest)
  {
    if before == "" {
      assert before + rest == rest;
    } else {
      assert (before + rest)[1..] == before[1..] + rest;
      UrlAt(before[1..], rest, s);
    }
  }

  lemma {:induction false} ImportAt(before: string, rest: string, s: string)
    requires Prefixed(rest, IMPORT) && s in AfterImport(rest[7..])
    ensures s in Imports(before + rest)
  {
    if before == "" {
      assert before + rest == rest;
    } else {
      assert (before + rest)[1..] == before[1..] + rest;
      ImportAt(before[1..], rest, s);
    }
  }

  lemma {:induction false} TrimsEnd(s: string, after: string)
    requires AllSpace(after) && (s != "" ==> !IsSpace(s[|s| - 1]))
    ensures TrimEnd(s + after) == s
  {
    if after == "" {
      assert s + after == s;
    } else {
      var n := |after| - 1;
      assert (s + after)[..|s + after| - 1] == s + after[..n];
      TrimsEnd(s, after[..n]);
    }
  }

  lemma {:induction false} TrimsStart(before: string, s: string)
    requires AllSpace(before) && s != "" && !IsSpace(s[0])
    ensures TrimStart(before + s) == s
  {
    if before == "" {
      assert before + s == s;
    } else {
      assert (before + s)[1..] == before[1..] + s;
      TrimsStart(before[1..], s);
    }
  }

  /** Quoted, or bare with nothing at its ends that would be taken off. */
  predicate Spells(written: string, s: string) {
    || written == "\"" + s + "\"" || written == "'" + s + "'"
    || (written == s && s != "" && !IsSpace(s[0]) && !IsSpace(s[|s| - 1]) && s[0] != '\"' && s[0] != '\'')
  }

  lemma SpellingIsRead(before: string, written: string, after: string, s: string)
    requires AllSpace(before) && AllSpace(after) && Spells(written, s)
    ensures Unquote(TrimEnd(TrimStart(before + (written + after)))) == s
  {
    TrimsStart(before, written + after);
    TrimsEnd(written, after);
  }

  /** A specifier in a `url(` anywhere in the text is found, quoted or bare, unless it
      has a closing parenthesis in it. */
  lemma UrlIsFound(text: string, before: string, written: string, after: string, rest: string, s: string)
    requires AllSpace(before) && AllSpace(after) && Spells(written, s) && ')' !in written
    ensures s in References(text + (URL + (before + (written + after) + ")" + rest)))
  {
    var inner := before + (written + after);
    var tail := inner + ")" + rest;
    assert ')' !in inner;
    FindCharIs(tail, ')', |inner|);
    assert tail[..|inner|] == inner;
    SpellingIsRead(before, written, after, s);
    assert (URL + tail)[..4] == URL && (URL + tail)[4..] == tail;
    UrlAt(text, URL + tail, s);
  }

  /** Behind a `url(` the specifier is read whole exactly when what is written has no
      closing parenthesis in it, inside the quotes or not. */
  lemma UrlIsReadIff(before: string, written: string, after: string, rest: string, s: string)
    requires AllSpace(before) && AllSpace(after) && Spells(written, s)
    ensures AfterUrl(before + (written + after) + ")" + rest) == [s] <==> ')' !in written
  {
    var inner := before + (written + after);
    var tail := inner + ")" + rest;
    if ')' !in written {
      assert ')' !in inner;
      FindCharIs(tail, ')', |inner|);
      assert tail[..|inner|] == inner;
      SpellingIsRead(before, written, after, s);
    } else {
      var at := FindChar(written, ')').value;
      var head := before + written[..at];
      assert tail[..|head|] == head && tail[|head|] == ')' && ')' !in head;
      FindCharIs(tail, ')', |head|);
      CutShort(head, written, s);
    }
  }

  lemma {:induction false} TrimAddsNothing(s: string, c: char)
    requires c !in s
    ensures c !in TrimStart(s) && c !in TrimEnd(s) && c !in Unquote(s)
  {
    if s != "" {
      TrimAddsNothing(s[1..], c);
      TrimAddsNothing(s[..|s| - 1], c);
    }
  }

  lemma CutShort(head: string, written: string, s: string)
    requires ')' !in head && ')' in written && Spells(written, s)
    ensures Unquote(TrimEnd(TrimStart(head))) != s
  {
    TrimAddsNothing(head, ')');
    TrimAddsNothing(TrimStart(head), ')');
    TrimAddsNothing(TrimEnd(TrimStart(head)), ')');
    assert ')' in s;
  }

  lemma {:induction false} QuoteIsFound(gap: string, rest: string)
    requires '\"' !in gap && '\'' !in gap && rest != "" && (rest[0] == '\"' || rest[0] == '\'')
    ensures FindQuote(gap + rest) == Some(|gap|)
  {
    if gap == "" {
      assert gap + rest == rest;
    } else {
      assert (gap + rest)[1..] == gap[1..] + rest;
      QuoteIsFound(gap[1..], rest);
    }
  }

  lemma FirstStringIs(gap: string, quote: char, s: string, rest: string)
    requires quote == '\"' || quote == '\''
    requires '\"' !in gap && '\'' !in gap && quote !in s
    ensures FirstString(gap + ([quote] + (s + ([quote] + rest)))) == Some(s)
    ensures FirstString(gap + ([quote] + s)) == None
  {
    var a, b := gap + ([quote] + (s + ([quote] + rest))), gap + ([quote] + s);
    QuoteIsFound(gap, [quote] + (s + ([quote] + rest)));
    QuoteIsFound(gap, [quote] + s);
    var inner := s + ([quote] + rest);
    assert a[|gap| + 1..] == inner && b[|gap| + 1..] == s;
    FindCharIs(inner, quote, |s|);
    assert inner[..|s|] == s;
  }

  /** The first string behind an `@import`, in a comment or not, is read whole exactly
      when no semicolon comes before its end. */
  lemma ImportIsReadIff(gap: string, quote: char, s: string, rest: string)
    requires quote == '\"' || quote == '\''
    requires '\"' !in gap && '\'' !in gap && quote !in s
    ensures AfterImport(gap + ([quote] + (s + ([quote] + rest)))) == [s] <==> ';' !in gap && ';' !in s
  {
    var text := gap + ([quote] + (s + ([quote] + rest)));
    if ';' in gap {
      var k := FindChar(gap, ';').value;
      assert text[..k] == gap[..k] && text[k] == ';';
      FindCharIs(text, ';', k);
      NoQuote(gap[..k]);
    } else if ';' in s {
      var k := FindChar(s, ';').value;
      var head := gap + ([quote] + s[..k]);
      assert text[..|head|] == head && text[|head|] == ';';
      FindCharIs(text, ';', |head|);
      FirstStringIs(gap, quote, s[..k], "");
    } else {
      ImportIsRead(gap, quote, s, rest);
    }
  }

  lemma ImportIsRead(gap: string, quote: char, s: string, rest: string)
    requires quote == '\"' || quote == '\''
    requires '\"' !in gap && '\'' !in gap && ';' !in gap && quote !in s && ';' !in s
    ensures AfterImport(gap + ([quote] + (s + ([quote] + rest)))) == [s]
  {
    var text := gap + ([quote] + (s + ([quote] + rest)));
    match FindChar(text, ';')
    case None => FirstStringIs(gap, quote, s, rest);
    case Some(end) =>
      var start := |gap| + 1 + |s| + 1;
      var head := gap + ([quote] + (s + [quote]));
      assert forall i :: 0 <= i < start ==> text[i] == head[i] && head[i] in head;
      assert ';' !in head;
      assert text[..end] == gap + ([quote] + (s + ([quote] + rest[..end - start])));
      FirstStringIs(gap, quote, s, rest[..end - start]);
  }

  lemma {:induction false} NoQuote(s: string)
    requires '\"' !in s && '\'' !in s
    ensures FindQuote(s).None?
  {
    if s != "" {
      NoQuote(s[1..]);
    }
  }

  /** So an `@import` anywhere in the text is found when its string has none. */
  lemma ImportIsFound(text: string, gap: string, quote: char, s: string, rest: string)
    requires quote == '\"' || quote == '\''
    requires '\"' !in gap && '\'' !in gap && ';' !in gap && quote !in s && ';' !in s
    ensures s in References(text + (IMPORT + (gap + ([quote] + (s + ([quote] + rest))))))
  {
    var tail := gap + ([quote] + (s + ([quote] + rest)));
    ImportIsRead(gap, quote, s, rest);
    assert (IMPORT + tail)[..7] == IMPORT && (IMPORT + tail)[7..] == tail;
    ImportAt(text, IMPORT + tail, s);
  }

  /** The two ways to name a file, as they are written. */
  lemma NamedAsWritten(name: string, text: string)
    requires name != "" && ')' !in name && ';' !in name && '\'' !in name && '\"' !in name && NoSpace(name)
    ensures name in References(text + ("url(" + name + ")"))
    ensures name in References(text + ("@import '" + name + "'"))
  {
    UrlIsFound(text, "", name, "", "", name);
    assert URL + ("" + (name + "") + ")" + "") == "url(" + name + ")";
    ImportIsFound(text, " ", '\'', name, "");
    assert IMPORT + (" " + (['\''] + (name + (['\''] + "")))) == "@import '" + name + "'";
  }

  // ---- renaming ----

  /** `text` is there when the bytes are and read as text. */
  datatype Asset = Asset(relative: string, declared: string, bytes: Option<seq<Byte>>, text: Option<string>)

  ghost predicate WellFormed(files: seq<Asset>) {
    && (forall i, j :: 0 <= i < j < |files| ==> files[i].declared != files[j].declared)
    && (forall i :: 0 <= i < |files| ==> files[i].relative == files[i].declared)
  }

  function Declared(files: seq<Asset>): set<string> {
    set a | a in files :: a.declared
  }

  predicate IsDeclared(files: seq<Asset>, path: string) {
    files != [] && (files[0].declared == path || IsDeclared(files[1..], path))
  }

  lemma {:induction false} IsDeclaredIff(files: seq<Asset>, path: string)
    ensures IsDeclared(files, path) <==> path in Declared(files)
    ensures IsDeclared(files, path) <==> exists i :: 0 <= i < |files| && files[i].declared == path
  {
    if files != [] {
      IsDeclaredIff(files[1..], path);
      assert files == [files[0]] + files[1..];
      assert forall i :: 0 < i < |files| ==> files[i] == files[1..][i - 1];
    }
  }

  /** A readable stylesheet `a` refers to the file declared as `path`. */
  ghost predicate Refers(files: seq<Asset>, a: Asset, specifier: string, path: string) {
    && a in files && IsCss(a.declared) && a.text.Some?
    && specifier in References(a.text.value)
    && Resolve(a.declared, specifier) == Some(path)
    && IsDeclared(files, path)
  }

  ghost predicate IsNamed(files: seq<Asset>, path: string) {
    exists a, specifier :: Refers(files, a, specifier, path)
  }

  /** Renamed when it is a stylesheet no stylesheet names and its bytes can be read. */
  ghost predicate Moves(files: seq<Asset>, a: Asset) {
    IsCss(a.declared) && !IsNamed(files, a.declared) && a.bytes.Some?
  }

  function NewName(a: Asset): string {
    if a.bytes.Some? then HashedName(a.declared, Digest(a.bytes.value)) else a.declared
  }

  ghost function Moving(files: seq<Asset>): set<Asset> {
    set a | a in files && Moves(files, a)
  }

  ghost function AsShipped(moving: set<Asset>, a: Asset): Asset {
    if a in moving then a.(relative := NewName(a)) else a
  }

  /** The files once those in `moving` have their new names. */
  ghost function Renamed(files: seq<Asset>, moving: set<Asset>): seq<Asset> {
    seq(|files|, i requires 0 <= i < |files| => AsShipped(moving, files[i]))
  }

  ghost function MovedNames(files: seq<Asset>, moving: set<Asset>): seq<string> {
    if files == [] then []
    else
      var n := |files| - 1;
      MovedNames(files[..n], moving) + if files[n] in moving then [NewName(files[n])] else []
  }

  /** The shipped files some specifiers of `from` resolve to. */
  function Targets(from: string, specifiers: seq<string>, declared: set<string>): set<string> {
    if specifiers == [] then {}
    else
      var n := |specifiers| - 1;
      Targets(from, specifiers[..n], declared) + Target(from, specifiers[n], declared)
  }

  function Target(from: string, specifier: string, declared: set<string>): set<string> {
    match Resolve(from, specifier) case None => {} case Some(p) => if p in declared then {p} else {}
  }

  lemma {:induction false} TargetsAre(from: string, specifiers: seq<string>, declared: set<string>, path: string)
    ensures path in Targets(from, specifiers, declared)
            <==> path in declared && exists s :: s in specifiers && Resolve(from, s) == Some(path)
  {
    if specifiers != [] {
      var n := |specifiers| - 1;
      TargetsAre(from, specifiers[..n], declared, path);
      assert specifiers == specifiers[..n] + [specifiers[n]];
    }
  }

  ghost predicate NamedExactlyBy(files: seq<Asset>, a: Asset, named: set<string>) {
    forall path :: path in named <==> exists s :: Refers(files, a, s, path)
  }

  lemma NoneUnlessReadable(files: seq<Asset>, a: Asset)
    ensures !(IsCss(a.declared) && a.text.Some?) ==> NamedExactlyBy(files, a, {})
  {
  }

  lemma TargetsAreNamed(files: seq<Asset>, a: Asset)
    requires a in files && IsCss(a.declared) && a.text.Some?
    ensures NamedExactlyBy(files, a, Targets(a.declared, References(a.text.value), Declared(files)))
  {
    var named := Targets(a.declared, References(a.text.value), Declared(files));
    forall path ensures path in named <==> exists s :: Refers(files, a, s, path) {
      TargetsAre(a.declared, References(a.text.value), Declared(files), path);
      IsDeclaredIff(files, path);
      RefersWhen(files, a, path);
    }
  }

  lemma RefersWhen(files: seq<Asset>, a: Asset, path: string)
    requires a in files && IsCss(a.declared) && a.text.Some?
    ensures (exists s :: Refers(files, a, s, path))
            <==> IsDeclared(files, path)
                 && exists s :: s in References(a.text.value) && Resolve(a.declared, s) == Some(path)
  {
    if exists s :: Refers(files, a, s, path) {
      var s :| Refers(files, a, s, path);
      assert s in References(a.text.value) && Resolve(a.declared, s) == Some(path);
    }
    if IsDeclared(files, path) && exists s :: s in References(a.text.value) && Resolve(a.declared, s) == Some(path) {
      var s :| s in References(a.text.value) && Resolve(a.declared, s) == Some(path);
      assert Refers(files, a, s, path);
    }
  }

  ghost predicate ExactlyNamed(files: seq<Asset>, named: set<string>) {
    forall path :: path in named <==> IsNamed(files, path)
  }

  /** The first `n` files have been through the pass. */
  ghost predicate PartShipped(was: seq<Asset>, moving: set<Asset>, files: seq<Asset>, n: nat) {
    && |files| == |was|
    && (forall k :: 0 <= k < n && k < |was| ==> files[k] == AsShipped(moving, was[k]))
    && (forall k :: n <= k < |was| ==> files[k] == was[k])
  }

  lemma PartShippedWhole(was: seq<Asset>, moving: set<Asset>, files: seq<Asset>)
    requires PartShipped(was, moving, files, |was|)
    ensures files == Renamed(was, moving)
  {
  }

  predicate Eligible(a: Asset, named: set<string>) {
    IsCss(a.declared) && a.declared !in named && a.bytes.Some?
  }

  /** One step of the renaming pass. */
  lemma ShipOne(was: seq<Asset>, files: seq<Asset>, named: set<string>, i: nat)
    requires ExactlyNamed(was, named) && i < |was| && PartShipped(was, Moving(was), files, i)
    ensures
      var a := files[i];
      var moves := Eligible(a, named);
      && PartShipped(was, Moving(was), files[i := if moves then a.(relative := NewName(a)) else a], i + 1)
      && MovedNames(was[..i + 1], Moving(was))
         == MovedNames(was[..i], Moving(was)) + (if moves then [NewName(a)] else [])
  {
    EligibleMoves(was, named, was[i]);
    ShipStep(was, Moving(was), files, i);
  }

  lemma EligibleMoves(was: seq<Asset>, named: set<string>, a: Asset)
    requires ExactlyNamed(was, named) && a in was
    ensures a in Moving(was) <==> Eligible(a, named)
  {
  }

  lemma ShipStep(was: seq<Asset>, moving: set<Asset>, files: seq<Asset>, i: nat)
    requires i < |was| && PartShipped(was, moving, files, i)
    ensures PartShipped(was, moving, files[i := AsShipped(moving, was[i])], i + 1)
    ensures MovedNames(was[..i + 1], moving)
            == MovedNames(was[..i], moving) + (if was[i] in moving then [NewName(was[i])] else [])
  {
    assert was[..i + 1][..i] == was[..i];
  }

  class Bundle {
    var files: seq<Asset>
    var immutable: seq<string>

    constructor (files: seq<Asset>)
      ensures this.files == files && immutable == []
    {
      this.files, immutable := files, [];
    }

    /** Every asset another asset names. */
    method Named() returns (named: set<string>)
      ensures ExactlyNamed(files, named)
    {
      var declared := Declared(files);
      named := {};
      for i := 0 to |files|
        invariant forall path :: path in named <==> exists a, s :: a in files[..i] && Refers(files, a, s, path)
      {
        var more := NamedBy(files[i], declared);
        assert files[..i + 1] == files[..i] + [files[i]];
        assert files[i] in files;
        named := named + more;
      }
      assert files[..|files|] == files;
    }

    method NamedOnce(from: string, specifier: string, declared: set<string>) returns (named: set<string>)
      ensures named == Target(from, specifier, declared)
    {
      named := {};
      var path := ResolveInPlace(from, specifier);
      if path.Some? && path.value in declared {
        named := {path.value};
      }
    }

    method NamedIn(from: string, specifiers: seq<string>, declared: set<string>) returns (named: set<string>)
      ensures named == Targets(from, specifiers, declared)
    {
      named := {};
      for k := 0 to |specifiers|
        invariant named == Targets(from, specifiers[..k], declared)
      {
        assert specifiers[..k + 1][..k] == specifiers[..k];
        var more := NamedOnce(from, specifiers[k], declared);
        named := named + more;
      }
      assert specifiers[..|specifiers|] == specifiers;
    }

    method NamedBy(a: Asset, declared: set<string>) returns (named: set<string>)
      requires a in files && declared == Declared(files)
      ensures NamedExactlyBy(files, a, named)
    {
      named := {};
      NoneUnlessReadable(files, a);
      if IsCss(a.declared) && a.text.Some? {
        var specifiers := Scan(a.text.value);
        named := NamedIn(a.declared, specifiers, declared);
        TargetsAreNamed(files, a);
      }
    }

    /** What the pass does to one file. */
    method HashName(i: nat, named: set<string>)
      requires i < |files|
      modifies this
      ensures
        var a := old(files)[i];
        var moves := Eligible(a, named);
        && files == old(files)[i := if moves then a.(relative := NewName(a)) else a]
        && immutable == old(immutable) + if moves then [NewName(a)] else []
    {
      var asset := files[i];
      if IsCss(asset.declared) && asset.declared !in named && asset.bytes.Some? {
        var hash := ContentHash(asset.bytes.value);
        var relative := HashedName(asset.declared, hash);
        files := files[i := asset.(relative := relative)];
        immutable := immutable + [relative];
      }
    }

    method RenameHashed()
      requires WellFormed(files) && immutable == []
      modifies this
      ensures files == Renamed(old(files), Moving(old(files)))
      ensures immutable == Sort(MovedNames(old(files), Moving(old(files))))
    {
      ghost var was := files;
      ghost var moving := Moving(was);
      var named := Named();
      for i := 0 to |files|
        invariant PartShipped(was, moving, files, i)
        invariant immutable == MovedNames(was[..i], moving)
      {
        ShipOne(was, files, named, i);
        HashName(i, named);
      }
      PartShippedWhole(was, moving, files);
      assert was[..|was|] == was;
      immutable := Sort(immutable);
    }
  }

  // ---- what the renaming promises ----

  /** A file a stylesheet names keeps its name, and the same specifier, read in
      the stylesheet's new name, still names it. */
  lemma NothingDangles(files: seq<Asset>, i: nat, specifier: string, j: nat)
    requires WellFormed(files) && i < |files| && j < |files|
    requires Refers(files, files[i], specifier, files[j].declared)
    ensures
      var shipped := Renamed(files, Moving(files));
      && shipped[j] == files[j]
      && Resolve(shipped[i].relative, specifier) == Some(shipped[j].relative)
  {
    assert IsNamed(files, files[j].declared);
    var a := files[i];
    if a in Moving(files) {
      HashedKeepsDirectory(a.declared, Digest(a.bytes.value));
    }
  }

  ghost predicate SeparatePlaces(files: seq<Asset>) {
    forall i, j :: 0 <= i < j < |files| ==> files[i].relative != files[j].relative
  }

  ghost predicate Clash(a: Asset, b: Asset, moving: set<Asset>) {
    a in moving && b !in moving && NewName(a) == b.declared
  }

  /** No stylesheet is renamed onto a file that keeps its name. */
  ghost predicate NoClash(files: seq<Asset>, moving: set<Asset>) {
    forall i, j :: 0 <= i < |files| && 0 <= j < |files| ==> !Clash(files[i], files[j], moving)
  }

  ghost predicate Hashable(moving: set<Asset>) {
    forall a :: a in moving ==> IsCss(a.declared) && a.bytes.Some?
  }

  lemma NewNamesDiffer(a: Asset, b: Asset)
    requires IsCss(a.declared) && IsCss(b.declared) && a.bytes.Some? && b.bytes.Some? && a.declared != b.declared
    ensures NewName(a) != NewName(b)
  {
    if NewName(a) == NewName(b) {
      HashedIsInjective(a.declared, Digest(a.bytes.value), b.declared, Digest(b.bytes.value));
    }
  }

  lemma ShippedApart(a: Asset, b: Asset, moving: set<Asset>)
    requires Hashable(moving) && a.declared != b.declared && a.relative == a.declared && b.relative == b.declared
    ensures
      AsShipped(moving, a).relative == AsShipped(moving, b).relative <==> Clash(a, b, moving) || Clash(b, a, moving)
  {
    if a in moving && b in moving {
      NewNamesDiffer(a, b);
    }
  }

  lemma DistinctBy(files: seq<Asset>, moving: set<Asset>)
    requires WellFormed(files) && Hashable(moving)
    ensures SeparatePlaces(Renamed(files, moving)) <==> NoClash(files, moving)
  {
    var shipped := Renamed(files, moving);
    if SeparatePlaces(shipped) {
      forall i, j | 0 <= i < |files| && 0 <= j < |files| ensures !Clash(files[i], files[j], moving) {
        var low, high := if i < j then i else j, if i < j then j else i;
        if i != j {
          ShippedApart(files[low], files[high], moving);
          assert shipped[low].relative != shipped[high].relative;
        }
      }
    }
    if NoClash(files, moving) {
      forall i, j | 0 <= i < j < |files| ensures shipped[i].relative != shipped[j].relative {
        ShippedApart(files[i], files[j], moving);
      }
    }
  }

  /** No two files are written to one place exactly when no new name is taken by a
      file that keeps its own. */
  lemma DistinctIffNoClash(files: seq<Asset>)
    requires WellFormed(files)
    ensures SeparatePlaces(Renamed(files, Moving(files))) <==> NoClash(files, Moving(files))
  {
    DistinctBy(files, Moving(files));
  }

  lemma {:induction false} MovedNamesAre(files: seq<Asset>, moving: set<Asset>)
    ensures forall name ::
              name in MovedNames(files, moving) <==> exists a :: a in files && a in moving && NewName(a) == name
  {
    if files != [] {
      var n := |files| - 1;
      MovedNamesAre(files[..n], moving);
      assert files == files[..n] + [files[n]];
    }
  }

  /** The immutable list is sorted and holds the shipped names of the moved files and
      no other. */
  lemma ImmutableIsTheMoved(files: seq<Asset>)
    ensures
      var immutable := Sort(MovedNames(files, Moving(files)));
      && Sorted(immutable)
      && forall name ::
           name in immutable
           <==> exists a :: a in files && Moves(files, a) && AsShipped(Moving(files), a).relative == name
  {
    var names := MovedNames(files, Moving(files));
    SortSorts(names);
    MovedNamesAre(files, Moving(files));
    forall name ensures name in Sort(names) <==> name in names {
      assert name in multiset(Sort(names)) <==> name in multiset(names);
    }
  }

  lemma {:induction false} NoUrls(s: string)
    requires 'u' !in s
    ensures Urls(s) == []
  {
    if s != [] {
      NotPrefixed(s, URL, 0);
      NoUrls(s[1..]);
    }
  }

  lemma {:induction false} NoImports(s: string)
    requires '@' !in s
    ensures Imports(s) == []
  {
    if s != [] {
      NotPrefixed(s, IMPORT, 0);
      NoImports(s[1..]);
    }
  }

  predicate IsPlain(c: char) {
    'a' <= c <= 't' || c == '.' || '0' <= c <= '9'
  }

  lemma UrlOf(name: string)
    requires name != [] && forall i :: 0 <= i < |name| ==> IsPlain(name[i])
    ensures References(URL + name + ")") == [name]
  {
    var text, rest := URL + name + ")", name + ")";
    assert text[..4] == URL && text[4..] == rest;
    NoUrls(rest);
    NoImports(text);
    OneUrl(text, rest, name);
  }

  lemma OneUrl(text: string, rest: string, name: string)
    requires Prefixed(text, URL) && text[4..] == rest == name + ")" && Urls(rest) == []
    requires ')' !in name && Spells(name, name)
    ensures Urls(text) == [name]
  {
    UrlSkips(text);
    FindCharIs(rest, ')', |name|);
    assert rest[..|name|] == name;
    SpellingIsRead("", name, "", name);
    assert "" + (name + "") == name;
  }

  lemma CssName(stem: char)
    requires IsPlain(stem) && stem != '.'
    ensures IsCss([stem] + ".css") && '/' !in [stem] + ".css"
    ensures forall hash :: HashedName([stem] + ".css", hash) == [stem] + ("." + hash) + ".css"
  {
    var name := [stem] + ".css";
    assert LastChar(name, '/').None?;
    LastCharIs(name, '.', 1);
    assert name[0..] == name && name[..1] == [stem] && name[1..] == ".css" && name[2..] == "css";
    assert Lower("css") == "css" by {
      assert Lower("s") == "s";
    }
  }

  /** A readable sheet whose only reference, if it makes one, is to the file `taken`. */
  ghost predicate NamesAtMost(a: Asset, taken: string) {
    && a.text.Some?
    && forall s :: s in References(a.text.value) ==> Resolve(a.declared, s) == Some(taken)
  }

  lemma OnlyOneIsNamed(files: seq<Asset>, taken: string, path: string)
    requires forall i :: 0 <= i < |files| ==> NamesAtMost(files[i], taken)
    ensures IsNamed(files, path) ==> path == taken
  {
    if IsNamed(files, path) {
      var x, s :| Refers(files, x, s, path);
      var i :| 0 <= i < |files| && files[i] == x;
      assert NamesAtMost(files[i], taken);
    }
  }

  lemma PlainIsNormal(name: string)
    requires |name| > 2 && forall i :: 0 <= i < |name| ==> IsPlain(name[i])
    ensures IsNormal(name) && Clean(name) && ':' !in name
  {
  }

  lemma TakenName(name: string, hash: string)
    requires name == ['a'] + ".css"
    requires |hash| == 16 && forall i :: 0 <= i < 16 ==> '0' <= hash[i] <= '9' || 'a' <= hash[i] <= 'f'
    ensures
      var taken := HashedName(name, hash);
      && IsNormal(taken) && Clean(taken) && ':' !in taken && |taken| > 5
      && (forall i :: 0 <= i < |taken| ==> IsPlain(taken[i]))
      && References(URL + taken + ")") == [taken]
  {
    var taken := HashedName(name, hash);
    CssName('a');
    assert taken == "a" + ("." + hash) + ".css";
    PlainIsNormal(taken);
    UrlOf(taken);
  }

  const ASSETS := "assets/"

  lemma InAssets(file: string)
    requires '/' !in file
    ensures Directory(ASSETS + file) == ["assets"]
    ensures IsCss(ASSETS + file) <==> IsCss(file)
    ensures forall hash :: HashedName(ASSETS + file, hash) == ASSETS + HashedName(file, hash)
  {
    StartAfter(ASSETS, file);
    assert ASSETS[..6] == "assets";
    assert FindChar("assets", '/').None?;
    forall hash ensures HashedName(ASSETS + file, hash) == ASSETS + HashedName(file, hash) {
      HashedInside(ASSETS, file, hash);
    }
    CssInside(ASSETS, file);
  }

  lemma BesideIt(name: string, file: string)
    requires IsNormal(name) && Clean(name) && ':' !in name && '/' !in file
    ensures Resolve(ASSETS + file, name) == Some(ASSETS + name)
  {
    InAssets(file);
    PlainNameResolves(ASSETS + file, name);
    var parts := ["assets", name];
    assert ["assets"] + [name] == parts && parts[1..] == [name];
    assert Join(parts, '/') == "assets" + ['/'] + Join(parts[1..], '/');
    assert "assets" + ['/'] == ASSETS;
  }

  /** A sheet that will be renamed onto the second, which only the third names. */
  ghost predicate Crowded(a: Asset, b: Asset, c: Asset) {
    && WellFormed([a, b, c])
    && IsCss(a.declared) && IsCss(c.declared)
    && a.bytes.Some? && NewName(a) == b.declared
    && a.text.Some? && References(a.text.value) == []
    && b.text.Some? && References(b.text.value) == []
    && c.text.Some? && |References(c.text.value)| == 1
    && Resolve(c.declared, References(c.text.value)[0]) == Some(b.declared)
  }

  lemma NamesNothing(a: Asset, taken: string)
    requires a.text.Some? && References(a.text.value) == []
    ensures NamesAtMost(a, taken)
  {
  }

  lemma NamesOne(a: Asset, taken: string)
    requires a.text.Some? && |References(a.text.value)| == 1
    requires Resolve(a.declared, References(a.text.value)[0]) == Some(taken)
    ensures NamesAtMost(a, taken)
  {
    OnlyMember(References(a.text.value));
  }

  lemma OnlyMember(specifiers: seq<string>)
    requires |specifiers| == 1
    ensures forall s :: s in specifiers ==> s == specifiers[0]
  {
  }

  lemma OnlyOneOfThree(a: Asset, b: Asset, c: Asset, taken: string, path: string)
    requires NamesAtMost(a, taken) && NamesAtMost(b, taken) && NamesAtMost(c, taken) && path != taken
    ensures !IsNamed([a, b, c], path)
  {
    OnlyOneIsNamed([a, b, c], taken, path);
  }

  lemma FirstIsUnnamed(a: Asset, b: Asset, c: Asset)
    requires Crowded(a, b, c)
    ensures !IsNamed([a, b, c], a.declared)
  {
    NamesNothing(a, b.declared);
    NamesNothing(b, b.declared);
    NamesOne(c, b.declared);
    OnlyOneOfThree(a, b, c, b.declared, a.declared);
  }

  lemma SecondIsNamed(a: Asset, b: Asset, c: Asset)
    requires Crowded(a, b, c)
    ensures IsNamed([a, b, c], b.declared)
  {
    var files := [a, b, c];
    assert files[1] == b && files[2] == c;
    IsDeclaredIff(files, b.declared);
    assert Refers(files, c, References(c.text.value)[0], b.declared);
  }

  lemma CrowdedClashes(a: Asset, b: Asset, c: Asset)
    requires Crowded(a, b, c)
    ensures !NoClash([a, b, c], Moving([a, b, c]))
  {
    var files, moving := [a, b, c], Moving([a, b, c]);
    assert files[0] == a && files[1] == b;
    FirstMoves(a, b, c);
    SecondStays(a, b, c);
    assert Clash(files[0], files[1], moving);
  }

  lemma FirstMoves(a: Asset, b: Asset, c: Asset)
    requires Crowded(a, b, c)
    ensures a in Moving([a, b, c])
  {
    FirstIsUnnamed(a, b, c);
    assert a in [a, b, c];
  }

  lemma SecondStays(a: Asset, b: Asset, c: Asset)
    requires Crowded(a, b, c)
    ensures b !in Moving([a, b, c])
  {
    SecondIsNamed(a, b, c);
  }

  lemma ThreeApart(a: Asset, b: Asset, c: Asset)
    requires a.declared == a.relative && b.declared == b.relative && c.declared == c.relative
    requires a.declared != b.declared && b.declared != c.declared && a.declared != c.declared
    ensures WellFormed([a, b, c])
  {
    assert [a, b, c][0] == a && [a, b, c][1] == b && [a, b, c][2] == c;
  }

  lemma NamesDiffer(name: string, other: string, taken: string)
    requires |name| == |other| == 5 && name[0] != other[0] && |taken| > 5
    ensures ASSETS + name != ASSETS + other && ASSETS + other != ASSETS + taken && ASSETS + name != ASSETS + taken
  {
    assert (ASSETS + name)[7] == name[0] && (ASSETS + other)[7] == other[0];
  }

  /** The bytes of a text in ASCII. */
  function Encoded(text: string): (bytes: seq<Byte>)
    requires forall i :: 0 <= i < |text| ==> text[i] as int < 128
    ensures |bytes| == |text| && forall i :: 0 <= i < |text| ==> bytes[i] == text[i] as int
  {
    if text == "" then [] else [text[0] as int] + Encoded(text[1..])
  }

  lemma UrlIsAscii(name: string)
    requires forall i :: 0 <= i < |name| ==> IsPlain(name[i])
    ensures forall i :: 0 <= i < |URL + name + ")"| ==> (URL + name + ")")[i] as int < 128
  {
  }

  /** A file under the asset directory whose bytes are those of its text. */
  ghost predicate IsFile(a: Asset) {
    && Prefixed(a.declared, ASSETS) && a.bytes.Some? && a.text.Some? && |a.bytes.value| == |a.text.value|
    && forall i :: 0 <= i < |a.text.value| ==> a.bytes.value[i] == a.text.value[i] as int < 128
  }

  lemma CrowdedExists(empty: seq<Byte>, name: string, other: string) returns (a: Asset, b: Asset, c: Asset)
    requires empty == [] && name == ['a'] + ".css" && other == ['b'] + ".css"
    ensures Crowded(a, b, c) && IsFile(a) && IsFile(b) && IsFile(c)
  {
    var taken := HashedName(name, Digest(empty));
    TakenName(name, Digest(empty));
    CssName('a');
    CssName('b');
    InAssets(name);
    InAssets(other);
    BesideIt(taken, other);
    var text := URL + taken + ")";
    UrlIsAscii(taken);
    a := Asset(ASSETS + name, ASSETS + name, Some(empty), Some(""));
    b := Asset(ASSETS + taken, ASSETS + taken, Some(empty), Some(""));
    c := Asset(ASSETS + other, ASSETS + other, Some(Encoded(text)), Some(text));
    assert References("") == [];
    NamesDiffer(name, other, taken);
    ThreeApart(a, b, c);
  }

  lemma AllFiles(a: Asset, b: Asset, c: Asset)
    requires IsFile(a) && IsFile(b) && IsFile(c)
    ensures forall i :: 0 <= i < 3 ==> IsFile([a, b, c][i])
  {
    var files := [a, b, c];
    assert files[0] == a && files[1] == b && files[2] == c;
  }

  /** Such a clash can be arranged: a sheet named as another will be named, and a
      third that keeps it so. */
  lemma NewNameCanBeTaken() returns (files: seq<Asset>)
    ensures WellFormed(files) && forall i :: 0 <= i < |files| ==> IsFile(files[i])
    ensures !NoClash(files, Moving(files))
  {
    var a, b, c := CrowdedExists([], ['a'] + ".css", ['b'] + ".css");
    CrowdedClashes(a, b, c);
    AllFiles(a, b, c);
    files := [a, b, c];
  }

  /** A sheet whose reference the scan does not see, and the file it is to. */
  ghost predicate Missed(a: Asset, b: Asset) {
    && WellFormed([a, b]) && IsCss(b.declared) && b.bytes.Some?
    && a.text.Some? && References(a.text.value) == []
    && b.text.Some? && References(b.text.value) == []
  }

  lemma MissedMoves(a: Asset, b: Asset)
    requires Missed(a, b)
    ensures b in Moving([a, b])
  {
    var none := b.declared + "x";
    NamesNothing(a, none);
    NamesNothing(b, none);
    OnlyOneIsNamed([a, b], none, b.declared);
    assert [a, b][1] == b;
  }

  lemma NoneLeftThere(a: Asset, b: Asset)
    requires Missed(a, b) && |a.declared| >= |b.declared|
    ensures forall k :: 0 <= k < 2 ==> Renamed([a, b], Moving([a, b]))[k].relative != b.declared
  {
    MissedMoves(a, b);
    var files := [a, b];
    assert files[0] == a && files[1] == b;
  }

  lemma {:induction false} LowerJoins(a: string, b: string)
    ensures Lower(a + b) == Lower(a) + Lower(b)
  {
    if a == "" {
      assert a + b == b;
    } else {
      assert (a + b)[1..] == a[1..] + b;
      LowerJoins(a[1..], b);
    }
  }

  lemma {:induction false} LowerStays(s: string)
    requires forall i :: 0 <= i < |s| ==> !('A' <= s[i] <= 'Z')
    ensures Lower(s) == s
  {
    if s != "" {
      LowerStays(s[1..]);
    }
  }

  lemma LowerUrl(upper: string)
    requires upper == ['U', 'R', 'L', '(']
    ensures Lower(upper) == URL
  {
    assert upper[1..] == ['R', 'L', '('] && upper[1..][1..] == ['L', '('] && upper[1..][1..][1..] == ['('];
    assert Lower(['(']) == ['('];
    assert Lower(['L', '(']) == ['l', '('];
    assert Lower(['R', 'L', '(']) == ['r', 'l', '('];
    assert URL == ['u', 'r', 'l', '('];
  }

  lemma UpperUrl(upper: string, name: string)
    requires upper == ['U', 'R', 'L', '('] && name != [] && forall i :: 0 <= i < |name| ==> IsPlain(name[i])
    ensures References(upper + name + ")") == []
    ensures References(Lower(upper + name + ")")) == [name]
    ensures forall i :: 0 <= i < |upper + name + ")"| ==> (upper + name + ")")[i] as int < 128
  {
    UpperNamesNothing(upper, name);
    UrlOf(name);
    LowerUrl(upper);
    LowerOfThree(upper, name, ")");
  }

  lemma UpperNamesNothing(upper: string, name: string)
    requires upper == ['U', 'R', 'L', '('] && forall i :: 0 <= i < |name| ==> IsPlain(name[i])
    ensures References(upper + name + ")") == []
  {
    var text := upper + name + ")";
    assert 'u' !in text && '@' !in text;
    NoUrls(text);
    NoImports(text);
  }

  lemma LowerOfThree(a: string, b: string, c: string)
    requires forall i :: 0 <= i < |b| ==> IsPlain(b[i])
    requires c == ")"
    ensures Lower(a + b + c) == Lower(a) + b + c
  {
    LowerJoins(a + b, c);
    LowerJoins(a, b);
    LowerStays(b);
    LowerStays(c);
  }

  lemma SheetName(name: string, stem: char)
    requires name == [stem] + ".css" && (stem == 'a' || stem == 'b')
    ensures IsCss(name) && '/' !in name && IsNormal(name) && Clean(name) && ':' !in name
    ensures forall i :: 0 <= i < |name| ==> IsPlain(name[i])
  {
    CssName(stem);
    PlainIsNormal(name);
  }

  lemma SheetsApart(name: string, other: string)
    requires |name| == |other| > 0 && name[0] != other[0]
    ensures ASSETS + name != ASSETS + other && |ASSETS + name| == |ASSETS + other|
  {
    assert (ASSETS + name)[7] == name[0] && (ASSETS + other)[7] == other[0];
  }

  lemma TwoApart(a: Asset, b: Asset)
    requires a.declared == a.relative && b.declared == b.relative && a.declared != b.declared
    ensures WellFormed([a, b])
  {
    assert [a, b][0] == a && [a, b][1] == b;
  }

  lemma MissedExists(empty: seq<Byte>, name: string, other: string, upper: string) returns (a: Asset, b: Asset)
    requires empty == [] && name == ['a'] + ".css" && other == ['b'] + ".css" && upper == ['U', 'R', 'L', '(']
    ensures Missed(a, b) && IsFile(a) && IsFile(b) && |a.declared| == |b.declared|
    ensures a.text.Some? && References(Lower(a.text.value)) == [other]
    ensures Resolve(a.declared, other) == Some(b.declared)
  {
    SheetName(name, 'a');
    SheetName(other, 'b');
    UpperUrl(upper, other);
    InAssets(other);
    BesideIt(other, name);
    SheetsApart(name, other);
    var text := upper + other + ")";
    a := Asset(ASSETS + name, ASSETS + name, Some(Encoded(text)), Some(text));
    b := Asset(ASSETS + other, ASSETS + other, Some(empty), Some(""));
    assert References("") == [];
    TwoApart(a, b);
  }

  /** What the scan does not see may dangle. A style sheet may name functions in any
      case: of two sheets the first says `URL(b.css)`, which in lower case names the
      second, and no shipped file is where that was. */
  lemma UpperCaseDangles(other: string) returns (a: Asset, b: Asset)
    requires other == ['b'] + ".css"
    ensures WellFormed([a, b]) && IsFile(a) && IsFile(b)
    ensures References(a.text.value) == [] && References(Lower(a.text.value)) == [other]
    ensures Resolve(a.declared, other) == Some(b.declared)
    ensures forall k :: 0 <= k < 2 ==> Renamed([a, b], Moving([a, b]))[k].relative != b.declared
  {
    a, b := MissedExists([], ['a'] + ".css", other, ['U', 'R', 'L', '(']);
    NoneLeftThere(a, b);
  }

  // ---- what the new names say ----

  /** A moved file is shipped under its name with the digest of its own bytes in it. */
  lemma MovedNameIs(files: seq<Asset>, i: nat)
    requires i < |files| && Moves(files, files[i])
    ensures Renamed(files, Moving(files))[i].relative ==
            HashedName(files[i].declared, Digest(files[i].bytes.value))
  {
  }

  /** So when one byte of it is another, wherever it stands, the file is shipped under
      another name. */
  lemma ContentsDecideName(files: seq<Asset>, others: seq<Asset>, i: nat, p: seq<Byte>, b: Byte, c: Byte, s: seq<Byte>)
    requires i < |files| == |others| && files[i].declared == others[i].declared
    requires files[i].bytes == Some(p + [b] + s) && others[i].bytes == Some(p + [c] + s) && b != c
    requires Moves(files, files[i]) && Moves(others, others[i])
    ensures Renamed(files, Moving(files))[i].relative != Renamed(others, Moving(others))[i].relative
  {
    MovedNameIs(files, i);
    MovedNameIs(others, i);
    ChangedByteChangesDigest(p, b, c, s);
    var one, two := Digest(p + [b] + s), Digest(p + [c] + s);
    if HashedName(files[i].declared, one) == HashedName(others[i].declared, two) {
      HashedIsInjective(files[i].declared, one, others[i].declared, two);
    }
  }

  /** `assets/site.css` with the one byte `a`. */
  lemma PublishedName(file: string, hash: string)
    requires file == "site" + ".css" && hash == Digest([97])
    ensures hash == "af63" + "dc4c" + "8601" + "ec8c"
    ensures HashedName(ASSETS + file, hash) == ASSETS + ("site" + ("." + hash) + ".css")
  {
    PublishedDigest();
    HashedInside(ASSETS, file, hash);
    SiteName(file, "site", hash);
  }

  lemma SiteName(file: string, stem: string, hash: string)
    requires stem == "site" && file == stem + ".css"
    ensures HashedName(file, hash) == stem + ("." + hash) + ".css"
  {
    assert LastChar(file, '/').None? && file[0..] == file;
    LastCharIs(file, '.', 4);
    assert file[..4] == stem && file[4..] == ".css";
  }
}
