/** Blanking comments and literals out of a source text, so that what is left can be
    searched as code. */
module BlankOut {
  import opened Wrappers
  import opened Characters
  import opened Paths

  predicate IsBlank(c: char) {
    c == ' ' || c == '\n'
  }

  function Blank(text: string): (r: string)
    ensures |r| == |text|
    ensures forall i :: 0 <= i < |r| ==> r[i] == if text[i] == '\n' then '\n' else ' '
  {
    if text == "" then "" else [if text[0] == '\n' then '\n' else ' '] + Blank(text[1..])
  }

  // ---- what starts at the head of a text ----

  predicate At(s: string, i: int, c: char) {
    0 <= i < |s| && s[i] == c
  }

  /** The hashes from `k` on. */
  function Hashes(s: string, k: nat): (end: nat)
    requires k <= |s|
    ensures k <= end <= |s| && !At(s, end, '#')
    ensures forall i :: k <= i < end ==> s[i] == '#'
    decreases |s| - k
  {
    if At(s, k, '#') then Hashes(s, k + 1) else k
  }

  function Repeat(c: char, n: nat): (s: string)
    ensures |s| == n
  {
    if n == 0 then "" else [c] + Repeat(c, n - 1)
  }

  /** Where a string that opened before `j` ends; a backslash takes the character
      after it along, even past the end. */
  function StringEnd(s: string, j: nat): (end: nat)
    ensures end >= j && (j < |s| ==> end > j)
    decreases |s| - j
  {
    if j >= |s| then j
    else if s[j] == '\\' then StringEnd(s, j + 2)
    else if s[j] == '\"' then j + 1
    else StringEnd(s, j + 1)
  }

  /** A character literal, or nothing: a lone quote is a lifetime. */
  function CharEnd(s: string): (end: nat)
    ensures end == 0 || 3 <= end <= |s|
  {
    if At(s, 1, '\\') && At(s, 3, '\'') && s[2] != '\n' then 4
    else if At(s, 2, '\'') && s[1] != '\\' && s[1] != '\'' then 3
    else 0
  }

  /** Where the text after `from` ends, or the end of everything. */
  function After(s: string, from: nat, needle: string): (end: nat)
    requires from <= |s|
    ensures from <= end <= |s|
  {
    match FindText(s[from..], needle) case None => |s| case Some(at) => from + at + |needle|
  }

  function RawEnd(s: string): (end: nat)
    requires s != ""
    ensures end == 0 || 2 <= end <= |s|
  {
    var k := Hashes(s, 1);
    if At(s, k, '\"') then After(s, k + 1, "\"" + Repeat('#', k - 1)) else 0
  }

  function Least(a: nat, b: nat): nat {
    if a < b then a else b
  }

  /** How much of the text is one comment or literal; nothing when it starts with
      neither. */
  function Hidden(s: string): (end: nat)
    requires s != ""
    ensures end <= |s| && (end == 1 ==> |s| == 1)
  {
    if Prefixed(s, "//") then (match FindChar(s, '\n') case None => |s| case Some(at) => at)
    else if Prefixed(s, "/*") then After(s, 0, "*/")
    else if s[0] == 'r' then RawEnd(s)
    else if s[0] == '\"' then Least(StringEnd(s, 1), |s|)
    else if s[0] == '\'' then CharEnd(s)
    else 0
  }

  function Visible(s: string): (out: string)
    ensures |out| == |s|
    decreases |s|
  {
    if s == "" then ""
    else
      var end := Hidden(s);
      if end == 0 then [s[0]] + Visible(s[1..]) else Blank(s[..end]) + Visible(s[end..])
  }

  // ---- what is hidden, said without the scan ----

  ghost predicate IsLineComment(s: string, end: nat) {
    Prefixed(s, "//") && end <= |s| && '\n' !in s[..end] && (end < |s| ==> s[end] == '\n')
  }

  /** Up to and with the first closing text at or after `from`, or the end of
      everything when there is none. */
  ghost predicate ClosedBy(s: string, from: nat, needle: string, end: nat) {
    && from <= end <= |s|
    && (forall k :: from <= k && k + |needle| < end ==> !Prefixed(s[k..], needle))
    && (|| (from + |needle| <= end && Prefixed(s[end - |needle|..], needle))
        || (end == |s| && forall k :: from <= k <= |s| ==> !Prefixed(s[k..], needle)))
  }

  ghost predicate IsRawString(s: string, end: nat) {
    exists k :: IsRawWith(s, k, end)
  }

  /** A raw string whose opening quote is at `k`. */
  ghost predicate IsRawWith(s: string, k: nat, end: nat) {
    && 1 <= k < |s| && s[0] == 'r' && s[1..k] == Repeat('#', k - 1) && s[k] == '\"'
    && ClosedBy(s, k + 1, "\"" + Repeat('#', k - 1), end)
  }

  /** How many backslashes stand in a row right before `k`, from `j` on. */
  function Backslashes(s: string, j: nat, k: nat): nat
    requires j <= k <= |s|
  {
    if j < k && s[k - 1] == '\\' then 1 + Backslashes(s, j, k - 1) else 0
  }

  /** A quote with an even number of backslashes before it closes a string. */
  predicate Closes(s: string, j: nat, k: nat)
    requires j <= k < |s|
  {
    s[k] == '\"' && Backslashes(s, j, k) % 2 == 0
  }

  ghost predicate IsString(s: string, end: nat) {
    && At(s, 0, '\"') && 1 <= end <= |s|
    && (forall k :: 1 <= k < end - 1 ==> !Closes(s, 1, k))
    && ((end > 1 && Closes(s, 1, end - 1)) || (end == |s| && forall k :: 1 <= k < |s| ==> !Closes(s, 1, k)))
  }

  ghost predicate IsCharacter(s: string, end: nat) {
    && At(s, 0, '\'')
    && (|| (end == 3 <= |s| && s[1] != '\\' && s[1] != '\'' && s[2] == '\'')
        || (end == 4 <= |s| && s[1] == '\\' && s[2] != '\n' && s[3] == '\''))
  }

  ghost predicate IsHidden(s: string, end: nat) {
    || IsLineComment(s, end)
    || (Prefixed(s, "/*") && ClosedBy(s, 0, "*/", end))
    || IsRawString(s, end)
    || IsString(s, end)
    || IsCharacter(s, end)
  }

  lemma AfterCloses(s: string, from: nat, needle: string, end: nat)
    requires from <= |s| && needle != ""
    ensures ClosedBy(s, from, needle, end) <==> After(s, from, needle) == end
  {
    var rest, found := s[from..], FindText(s[from..], needle);
    FindsFirst(rest, needle);
    forall k | 0 <= k <= |rest| ensures rest[k..] == s[from + k..] {}
    assert forall k :: from <= k <= |s| ==> s[k..] == rest[k - from..];
    if ClosedBy(s, from, needle, end) && found.Some? {
      var at := from + found.value;
      assert Prefixed(s[at..], needle);
    }
  }

  lemma {:induction false} HashesAre(s: string, k: nat, end: nat)
    requires k <= end <= |s|
    ensures s[k..end] == Repeat('#', end - k) && !At(s, end, '#') <==> Hashes(s, k) == end
    decreases end - k
  {
    if k < end {
      assert s[k..end] == [s[k]] + s[k + 1..end];
      HashesAre(s, k + 1, end);
    }
  }

  lemma RawQuoteIs(s: string, k: nat, end: nat)
    requires IsRawWith(s, k, end)
    ensures k == Hashes(s, 1)
  {
    HashesAre(s, 1, k);
  }

  lemma RawAtHashes(s: string, end: nat)
    requires s != "" && s[0] == 'r' && end > 0
    ensures IsRawWith(s, Hashes(s, 1), end) <==> RawEnd(s) == end
  {
    var h := Hashes(s, 1);
    HashesAre(s, 1, h);
    if At(s, h, '\"') {
      AfterCloses(s, h + 1, "\"" + Repeat('#', h - 1), end);
    }
  }

  lemma RawIs(s: string, end: nat)
    requires s != "" && s[0] == 'r' && end > 0
    ensures IsRawString(s, end) <==> RawEnd(s) == end
  {
    RawAtHashes(s, end);
    if IsRawString(s, end) {
      var k :| IsRawWith(s, k, end);
      RawQuoteIs(s, k, end);
    }
  }

  lemma {:induction false} TwoFewer(s: string, j: nat, k: nat)
    requires j + 2 <= k <= |s| && s[j] == '\\'
    ensures Backslashes(s, j, k) % 2 == Backslashes(s, j + 2, k) % 2
  {
    if k > j + 2 {
      TwoFewer(s, j, k - 1);
    } else {
      assert Backslashes(s, j, j + 1) == 1 + Backslashes(s, j, j);
    }
  }

  lemma {:induction false} OneFewer(s: string, j: nat, k: nat)
    requires j < k <= |s| && s[j] != '\\'
    ensures Backslashes(s, j, k) == Backslashes(s, j + 1, k)
  {
    if k > j + 1 {
      OneFewer(s, j, k - 1);
    }
  }

  /** The scan from `j` stops behind the first quote that closes. */
  lemma {:induction false} StopsAtFirst(s: string, j: nat)
    requires j <= |s|
    ensures var end := StringEnd(s, j);
            && (forall k :: j <= k < |s| && k < end - 1 ==> !Closes(s, j, k))
            && (if j < end <= |s|
                then Closes(s, j, end - 1) || (end == |s| && forall k :: j <= k < |s| ==> !Closes(s, j, k))
                else forall k :: j <= k < |s| ==> !Closes(s, j, k))
    decreases |s| - j
  {
    if j == |s| {
    } else if s[j] == '\\' {
      if j + 2 <= |s| {
        StopsAtFirst(s, j + 2);
        forall k | j + 2 <= k < |s| ensures Closes(s, j, k) <==> Closes(s, j + 2, k) { TwoFewer(s, j, k); }
        assert Backslashes(s, j, j + 1) == 1 + Backslashes(s, j, j);
      }
    } else if s[j] != '\"' {
      StopsAtFirst(s, j + 1);
      forall k | j + 1 <= k < |s| ensures Closes(s, j, k) <==> Closes(s, j + 1, k) { OneFewer(s, j, k); }
    }
  }

  lemma StringIs(s: string, end: nat)
    requires s != "" && s[0] == '\"' && end > 0
    ensures IsString(s, end) <==> Least(StringEnd(s, 1), |s|) == end
  {
    StopsAtFirst(s, 1);
  }

  /** A text opens with something hidden, and it ends there, exactly when it is a
      comment or a literal of that length. */
  lemma HiddenIs(s: string, end: nat)
    requires s != "" && end > 0
    ensures IsHidden(s, end) <==> Hidden(s) == end
  {
    assert |s| > 1 ==> s[..2] == [s[0], s[1]];
    if Prefixed(s, "/*") {
      AfterCloses(s, 0, "*/", end);
    }
    if s[0] == 'r' {
      RawIs(s, end);
    }
    if s[0] == '\"' {
      StringIs(s, end);
    }
  }

  // ---- what blanking keeps ----

  /** Every character is as it was, or a space where it was no line break. */
  ghost predicate Masks(s: string, out: string) {
    |out| == |s| && forall i :: 0 <= i < |s| ==> out[i] == s[i] || (out[i] == ' ' && s[i] != '\n')
  }

  lemma MasksJoin(s: string, end: nat, out: string, rest: string)
    requires end <= |s| && Masks(s[..end], out) && Masks(s[end..], rest)
    ensures Masks(s, out + rest)
  {
  }

  lemma {:induction false} VisibleMasks(s: string)
    ensures Masks(s, Visible(s))
    decreases |s|
  {
    if s != "" {
      var end := Hidden(s);
      if end == 0 {
        VisibleMasks(s[1..]);
        MasksJoin(s, 1, [s[0]], Visible(s[1..]));
      } else {
        VisibleMasks(s[end..]);
        MasksJoin(s, end, Blank(s[..end]), Visible(s[end..]));
      }
    }
  }

  /** No literal or comment starts in it. */
  ghost predicate NothingStarts(s: string) {
    forall i :: 0 <= i < |s| ==> s[i] != '\"' && !(s[i] == '/' && (At(s, i + 1, '/') || At(s, i + 1, '*')))
  }

  /** A visible head stays as it is; hidden text leaves at least two blanks, or fewer
      at the very end. */
  lemma HeadShape(s: string) returns (shown: bool)
    requires s != ""
    ensures shown ==> Hidden(s) == 0 && Visible(s)[0] == s[0] && Visible(s)[1..] == Visible(s[1..])
    ensures !shown ==> IsBlank(Visible(s)[0]) && (|s| > 1 ==> IsBlank(Visible(s)[1]))
  {
    shown := Hidden(s) == 0;
  }

  lemma BlanksStartNothing(blanks: string, rest: string)
    requires (forall i :: 0 <= i < |blanks| ==> IsBlank(blanks[i])) && NothingStarts(rest)
    ensures NothingStarts(blanks + rest)
  {
    var out := blanks + rest;
    forall i | |blanks| <= i < |out| ensures out[i] == rest[i - |blanks|] {}
  }

  lemma HeadStartsNothing(c: char, rest: string)
    requires c != '\"' && !(c == '/' && (At(rest, 0, '/') || At(rest, 0, '*'))) && NothingStarts(rest)
    ensures NothingStarts([c] + rest)
  {
    var out := [c] + rest;
    forall i | 1 <= i < |out| ensures out[i] == rest[i - 1] {}
  }

  lemma SlashStandsAlone(s: string)
    requires s != "" && s[0] == '/' && Hidden(s) == 0
    ensures !At(Visible(s[1..]), 0, '/') && !At(Visible(s[1..]), 0, '*')
  {
    if |s| > 1 {
      assert s[..2] == ['/', s[1]];
      var shown := HeadShape(s[1..]);
    }
  }

  lemma {:induction false} VisibleStartsNothing(s: string)
    ensures NothingStarts(Visible(s))
    decreases |s|
  {
    if s != "" {
      var end := Hidden(s);
      if end == 0 {
        VisibleStartsNothing(s[1..]);
        if s[0] == '/' {
          SlashStandsAlone(s);
        }
        HeadStartsNothing(s[0], Visible(s[1..]));
      } else {
        VisibleStartsNothing(s[end..]);
        BlanksStartNothing(Blank(s[..end]), Visible(s[end..]));
      }
    }
  }

  /** No character literal starts at the head of a masked text unless one did. */
  lemma LoneQuoteStaysLone(s: string)
    requires s != "" && s[0] == '\'' && CharEnd(s) == 0
    ensures CharEnd(['\''] + Visible(s[1..])) == 0
  {
    var rest := s[1..];
    if |rest| > 1 {
      var out := Visible(rest);
      var first := HeadShape(rest);
      if first {
        assert out[1] == Visible(rest[1..])[0];
        var second := HeadShape(rest[1..]);
        if |rest| > 2 {
          assert out[2] == Visible(rest[1..])[1];
          if second {
            var third := HeadShape(rest[2..]);
            assert rest[1..][1..] == rest[2..];
            assert out[2] == Visible(rest[2..])[0];
          }
        }
      }
    }
  }

  /** Nothing hidden starts at any place of the text. */
  ghost predicate AllShown(s: string) {
    forall i :: 0 <= i < |s| ==> Hidden(s[i..]) == 0
  }

  lemma AllShownStep(c: char, rest: string)
    ensures AllShown([c] + rest) <==> Hidden([c] + rest) == 0 && AllShown(rest)
  {
    var s := [c] + rest;
    assert s[0..] == s;
    assert forall i :: 1 <= i < |s| ==> s[i..] == rest[i - 1..];
    assert forall i :: 0 <= i < |rest| ==> rest[i..] == s[i + 1..];
  }

  lemma HiddenHead(s: string)
    requires s != "" && Hidden(s) != 0
    ensures !IsBlank(s[0]) && IsBlank(Visible(s)[0])
  {
    assert |s| > 1 ==> s[..2][0] == s[0];
  }

  lemma ShownHead(s: string)
    requires s != "" && Hidden(s) == 0
    ensures Visible(s) == s <==> Visible(s[1..]) == s[1..]
  {
    assert Visible(s)[1..] == Visible(s[1..]);
    assert s == [s[0]] + s[1..];
  }

  /** A text is left alone exactly when no comment or literal starts in it. */
  lemma {:induction false} LeftAloneIff(s: string)
    ensures Visible(s) == s <==> AllShown(s)
    decreases |s|
  {
    if s != "" {
      assert [s[0]] + s[1..] == s;
      AllShownStep(s[0], s[1..]);
      if Hidden(s) == 0 {
        ShownHead(s);
        LeftAloneIff(s[1..]);
      } else {
        HiddenHead(s);
      }
    }
  }

  /** Once nothing else starts in a text, only a character literal can be hidden. */
  lemma OnlyCharacters(s: string)
    requires s != "" && NothingStarts(s)
    ensures Hidden(s) == if s[0] == '\'' then CharEnd(s) else 0
  {
    assert |s| > 1 ==> s[..2] == [s[0], s[1]];
  }

  lemma CodeHead(s: string)
    requires s != "" && s[0] != '/' && s[0] != 'r' && s[0] != '\"' && s[0] != '\''
    ensures Hidden(s) == 0
  {
    assert |s| > 1 ==> s[..2][0] == s[0];
  }

  lemma {:induction false} BlanksAllShown(blanks: string, rest: string)
    requires (forall i :: 0 <= i < |blanks| ==> IsBlank(blanks[i])) && AllShown(rest)
    ensures AllShown(blanks + rest)
  {
    if blanks == "" {
      assert blanks + rest == rest;
    } else {
      var later := blanks[1..] + rest;
      BlanksAllShown(blanks[1..], rest);
      CodeHead([blanks[0]] + later);
      AllShownStep(blanks[0], later);
      assert blanks + rest == [blanks[0]] + later;
    }
  }

  lemma {:induction false} VisibleIsAllShown(s: string)
    ensures AllShown(Visible(s))
    decreases |s|
  {
    if s != "" {
      var end := Hidden(s);
      VisibleIsAllShown(s[if end == 0 then 1 else end..]);
      if end == 0 {
        VisibleStartsNothing(s);
        OnlyCharacters(Visible(s));
        if s[0] == '\'' {
          LoneQuoteStaysLone(s);
        }
        AllShownStep(s[0], Visible(s[1..]));
      } else {
        BlanksAllShown(Blank(s[..end]), Visible(s[end..]));
      }
    }
  }

  /** A second pass finds nothing new. */
  lemma BlankingTwice(s: string)
    ensures Visible(Visible(s)) == Visible(s)
  {
    VisibleIsAllShown(s);
    LeftAloneIff(Visible(s));
  }

  // ---- what a comment and a character are in the language ----

  /** Where the comment ends that is `depth` comments deep at `i`: comments nest. */
  function NestedEnd(s: string, i: nat, depth: nat): (end: nat)
    requires i <= |s|
    ensures i <= end <= |s|
    decreases |s| - i
  {
    if depth == 0 || i == |s| then i
    else if Prefixed(s[i..], "/*") then NestedEnd(s, i + 2, depth + 1)
    else if Prefixed(s[i..], "*/") then NestedEnd(s, i + 2, depth - 1)
    else NestedEnd(s, i + 1, depth)
  }

  function CommentEnd(s: string): nat
    requires Prefixed(s, "/*")
  {
    NestedEnd(s, 2, 1)
  }

  ghost predicate PairAt(s: string, i: int, a: char, b: char) {
    0 <= i < |s| - 1 && s[i] == a && s[i + 1] == b
  }

  lemma PairIs(s: string, i: nat, pair: string)
    requires i <= |s| && |pair| == 2
    ensures Prefixed(s[i..], pair) <==> PairAt(s, i, pair[0], pair[1])
  {
    if i + 2 <= |s| {
      assert s[i..][..2] == [s[i], s[i + 1]];
      assert pair == [pair[0], pair[1]];
    }
  }

  lemma PairsAre(s: string, i: nat)
    requires i <= |s|
    ensures Prefixed(s[i..], "/*") <==> PairAt(s, i, '/', '*')
    ensures Prefixed(s[i..], "*/") <==> PairAt(s, i, '*', '/')
  {
    PairIs(s, i, "/*");
    PairIs(s, i, "*/");
  }

  /** Up to `close` there is nothing but the one comment. */
  lemma {:induction false} PlainRun(s: string, i: nat, close: nat)
    requires i <= close < |s| - 1 && PairAt(s, close, '*', '/')
    requires forall k :: i <= k < close ==> !PairAt(s, k, '*', '/') && !PairAt(s, k, '/', '*')
    ensures NestedEnd(s, i, 1) == close + 2
    decreases close - i
  {
    PairsAre(s, i);
    if i < close {
      PlainRun(s, i + 1, close);
    } else {
      assert NestedEnd(s, i + 2, 0) == i + 2;
    }
  }

  lemma {:induction false} NeverCloses(s: string, i: nat, depth: nat)
    requires i <= |s| && depth > 0 && forall k :: i <= k ==> !PairAt(s, k, '*', '/')
    ensures NestedEnd(s, i, depth) == |s|
    decreases |s| - i
  {
    if i < |s| {
      PairsAre(s, i);
      if PairAt(s, i, '/', '*') {
        NeverCloses(s, i + 2, depth + 1);
      } else {
        NeverCloses(s, i + 1, depth);
      }
    }
  }

  /** More than one deep, it takes more than the next closing to end. */
  lemma {:induction false} DeepOutlasts(s: string, i: nat, depth: nat, close: nat)
    requires i <= |s| && depth > 1 && i <= close + 1 && close < |s| - 1
    requires forall k :: i <= k < close ==> !PairAt(s, k, '*', '/')
    ensures NestedEnd(s, i, depth) == |s| || NestedEnd(s, i, depth) > close + 2
    decreases |s| - i
  {
    if i < |s| {
      PairsAre(s, i);
      if i <= close {
        if PairAt(s, i, '/', '*') {
          if i + 2 <= close + 1 { DeepOutlasts(s, i + 2, depth + 1, close); } else { LateEnd(s, i + 2, depth + 1); }
        } else if PairAt(s, i, '*', '/') {
          LateEnd(s, i + 2, depth - 1);
        } else {
          DeepOutlasts(s, i + 1, depth, close);
        }
      } else {
        LateEnd(s, i, depth);
      }
    }
  }

  /** A comment that is still open takes at least two characters to close. */
  lemma {:induction false} LateEnd(s: string, i: nat, depth: nat)
    requires i <= |s| && depth > 0
    ensures NestedEnd(s, i, depth) == |s| || NestedEnd(s, i, depth) >= i + 2
    decreases |s| - i
  {
    if i < |s| {
      PairsAre(s, i);
      if !PairAt(s, i, '/', '*') && !PairAt(s, i, '*', '/') {
        LateEnd(s, i + 1, depth);
      }
    }
  }

  lemma {:induction false} OpensAgain(s: string, i: nat, close: nat, open: nat)
    requires i <= open < close < |s| - 1 && PairAt(s, open, '/', '*')
    requires forall k :: i <= k < close ==> !PairAt(s, k, '*', '/')
    ensures NestedEnd(s, i, 1) == |s| || NestedEnd(s, i, 1) > close + 2
    decreases open - i
  {
    PairsAre(s, i);
    if PairAt(s, i, '/', '*') {
      DeepOutlasts(s, i + 2, 2, close);
    } else {
      OpensAgain(s, i + 1, close, open);
    }
  }

  /** The first closing is the comment's own: it does not share the star of the opening,
      and no comment opens before it. */
  ghost predicate ClosesOwn(s: string, close: nat) {
    close >= 2 && forall k :: 2 <= k < close ==> !PairAt(s, k, '/', '*')
  }

  lemma CommentEndIs(s: string, close: nat)
    requires Prefixed(s, "/*") && PairAt(s, close, '*', '/')
    requires forall k :: 0 <= k < close ==> !PairAt(s, k, '*', '/')
    ensures CommentEnd(s) == close + 2 <==> close + 2 == |s| || ClosesOwn(s, close)
  {
    assert s[..2] == [s[0], s[1]];
    if ClosesOwn(s, close) {
      PlainRun(s, 2, close);
    } else if close >= 2 {
      var open :| 2 <= open < close && PairAt(s, open, '/', '*');
      OpensAgain(s, 2, close, open);
    } else {
      LateEnd(s, 2, 1);
    }
  }

  /** A block comment is blanked whole exactly when its first closing is its own, or
      there is no text after that or no closing at all. */
  lemma CommentIsWholeIff(s: string)
    requires Prefixed(s, "/*")
    ensures
      Hidden(s) == CommentEnd(s) <==>
      match FindText(s, "*/")
      case None => true
      case Some(close) => close + 2 == |s| || ClosesOwn(s, close)
  {
    FindsFirst(s, "*/");
    forall k: nat | k <= |s| ensures Prefixed(s[k..], "*/") <==> PairAt(s, k, '*', '/') {
      PairIs(s, k, "*/");
    }
    assert s[0..] == s && s[..2] == [s[0], s[1]];
    match FindText(s, "*/")
    case None => NeverCloses(s, 2, 1);
    case Some(close) => CommentEndIs(s, close);
  }

  /** The star that opens a comment may close it too. */
  lemma SlashStarSlash(s: string)
    requires Prefixed(s, "/*/")
    ensures Hidden(s) == 3
  {
    assert s[..3] == [s[0], s[1], s[2]] && s[..2] == ['/', '*'];
    FirstCloseIs(s, 1);
  }

  /** And the text after it is then left for code. */
  lemma StarClosesItsOwn(s: string)
    requires s == "/*/ x */"
    ensures Hidden(s) == 3 && CommentEnd(s) == 8
  {
    assert s[..2] == "/*" && s[..3] == "/*/";
    SlashStarSlash(s);
    PlainRun(s, 2, 6);
  }

  /** A comment inside another ends both. */
  lemma NestedCommentIsCut(s: string)
    requires s == "/* /* */ x */"
    ensures Hidden(s) == 8 && CommentEnd(s) == 13
  {
    assert s[..2] == "/*";
    FirstCloseIs(s, 6);
    PlainRun(s, 8, 11);
    PairsAre(s, 6);
    assert NestedEnd(s, 6, 2) == 13;
    PairsAre(s, 5);
    assert NestedEnd(s, 5, 2) == 13;
    PairsAre(s, 3);
    assert NestedEnd(s, 3, 1) == 13;
    PairsAre(s, 2);
  }

  lemma FirstCloseIs(s: string, close: nat)
    requires Prefixed(s, "/*") && PairAt(s, close, '*', '/')
    requires forall k :: 0 <= k < close ==> !PairAt(s, k, '*', '/')
    ensures Hidden(s) == close + 2
  {
    FindsFirst(s, "*/");
    forall k: nat | k <= |s| ensures Prefixed(s[k..], "*/") <==> PairAt(s, k, '*', '/') {
      PairIs(s, k, "*/");
    }
    assert s[0..] == s && s[..2] == [s[0], s[1]];
  }

  predicate IsHex(c: char) {
    '0' <= c <= '9' || 'a' <= c <= 'f' || 'A' <= c <= 'F'
  }

  /** Hexadecimal digits and underscores from `i` on. */
  function HexRun(s: string, i: nat): (end: nat)
    requires i <= |s|
    ensures i <= end <= |s| && forall k :: i <= k < end ==> IsHex(s[k]) || s[k] == '_'
    decreases |s| - i
  {
    if i < |s| && (IsHex(s[i]) || s[i] == '_') then HexRun(s, i + 1) else i
  }

  function HexDigits(s: string): nat {
    if s == "" then 0 else (if IsHex(s[0]) then 1 else 0) + HexDigits(s[1..])
  }

  /** A character literal of the language: one character, or an escape, in quotes. */
  function CharacterEnd(s: string): (end: nat)
    ensures end == 0 || 3 <= end <= |s|
  {
    if !At(s, 0, '\'') || |s| < 3 then 0
    else if s[1] != '\\' then
      (if s[1] !in "'\n\r\t" && s[2] == '\'' then 3 else 0)
    else if s[2] in "nrt\\0'\"" then (if At(s, 3, '\'') then 4 else 0)
    else if s[2] == 'x' then
      (if |s| >= 6 && '0' <= s[3] <= '7' && IsHex(s[4]) && s[5] == '\'' then 6 else 0)
    else if s[2] == 'u' && At(s, 3, '{') then
      var close := HexRun(s, 4);
      if close > 4 && s[4] != '_' && HexDigits(s[4..close]) <= 6 && At(s, close, '}') && At(s, close + 1, '\'')
      then close + 2 else 0
    else 0
  }

  /** A character literal is blanked exactly when it is one character or an escape of
      one; the others stay as they are. */
  lemma CharacterIsWholeIff(s: string)
    requires CharacterEnd(s) > 0
    ensures Hidden(s) == CharacterEnd(s) <==> !(s[1] == '\\' && (s[2] == 'x' || s[2] == 'u'))
    ensures Hidden(s) != CharacterEnd(s) ==> Hidden(s) == 0
  {
    assert s[..2][0] == s[0];
  }

  /** The braces of such an escape are left for code. */
  lemma EscapeStaysVisible(s: string)
    requires s == "'\\u{7b}'"
    ensures CharacterEnd(s) == 8 && Visible(s) == s
  {
    EscapeIsCharacter(s);
    CharacterIsWholeIff(s);
    assert s[0..] == s && s[7..] == "'";
    forall i | 0 <= i < 8 ensures Hidden(s[i..]) == 0 {
      assert s[i..][0] == s[i];
      if 0 < i < 7 {
        CodeHead(s[i..]);
      }
    }
    LeftAloneIff(s);
  }

  lemma EscapeIsCharacter(s: string)
    requires s == "'\\u{7b}'"
    ensures CharacterEnd(s) == 8
  {
    assert HexRun(s, 6) == 6;
    assert HexRun(s, 5) == 6;
    assert s[4..6] == ['7', 'b'] && s[4..6][1..] == ['b'];
    assert HexDigits(['b']) == 1;
  }

  // ---- the scan ----

  /** The closing quote, or the end of the text, seen from inside a string; the index
      may pass the end. */
  method ScanString(src: string, i: nat) returns (j: nat)
    requires i < |src|
    ensures j == i + StringEnd(src[i..], 1)
  {
    var n := |src|;
    j := i + 1;
    while j < n
      invariant i < j
      invariant i + StringEnd(src[i..], j - i) == i + StringEnd(src[i..], 1)
      decreases n - j
    {
      assert src[i..][j - i] == src[j];
      if src[j] == '\\' {
        j := j + 2;
        continue;
      }
      if src[j] == '\"' {
        j := j + 1;
        break;
      }
      j := j + 1;
    }
  }

  /** What has been written, and what the rest will come to. */
  ghost predicate Written(src: string, out: string, i: nat) {
    out + Visible(src[Least(i, |src|)..]) == Visible(src)
  }

  lemma ShowsOne(src: string, out: string, i: nat)
    requires i < |src| && Written(src, out, i) && Hidden(src[i..]) == 0
    ensures Written(src, out + [src[i]], i + 1)
  {
    var s := src[i..];
    assert s[1..] == src[i + 1..];
    assert out + ([s[0]] + Visible(s[1..])) == out + [s[0]] + Visible(s[1..]);
  }

  lemma HidesRun(src: string, out: string, i: nat, end: nat, next: nat)
    requires i < end <= |src| && Written(src, out, i) && Hidden(src[i..]) == end - i && end == Least(next, |src|)
    ensures Written(src, out + Blank(src[i..end]), next)
  {
    var s := src[i..];
    assert s[end - i..] == src[end..] && s[..end - i] == src[i..end];
    assert out + (Blank(s[..end - i]) + Visible(src[end..])) == out + Blank(s[..end - i]) + Visible(src[end..]);
  }

  /** Where a raw string that opens at `i` ends, if one does. */
  method ScanRaw(src: string, i: nat) returns (end: nat)
    requires i < |src|
    ensures i <= end <= |src| && end - i == RawEnd(src[i..])
  {
    var n, k := |src|, i + 1;
    ghost var s := src[i..];
    while k < n && src[k] == '#'
      invariant i < k <= n && Hashes(s, k - i) == Hashes(s, 1)
    {
      assert s[k - i] == src[k];
      k := k + 1;
    }
    assert k < n ==> s[k - i] == src[k];
    assert Hashes(s, k - i) == k - i;
    if k < n && src[k] == '\"' {
      var term := "\"" + Repeat('#', k - i - 1);
      assert s[k - i + 1..] == src[k + 1..];
      var j := FindText(src[k + 1..], term);
      end := if j.None? then n else k + 1 + j.value + |term|;
    } else {
      end := i;
    }
  }

  method BlankOut(src: string) returns (out: string)
    ensures out == Visible(src)
  {
    out := "";
    var i, n := 0, |src|;
    assert src[0..] == src;
    while i < n
      invariant Written(src, out, i)
      decreases n - i
    {
      var c, next := src[i], i;
      if Prefixed(src[i..], "//") {
        var j := FindChar(src[i..], '\n');
        next := if j.None? then n else i + j.value;
      } else if Prefixed(src[i..], "/*") {
        assert src[i..][0..] == src[i..];
        var j := FindText(src[i..], "*/");
        next := if j.None? then n else i + j.value + 2;
      } else if c == 'r' {
        next := ScanRaw(src, i);
      } else if c == '\"' {
        next := ScanString(src, i);
      } else if c == '\'' {
        next := i + CharEnd(src[i..]);
      }
      if next == i {
        ShowsOne(src, out, i);
        out := out + [c];
        i := i + 1;
      } else {
        HidesRun(src, out, i, Least(next, n), next);
        out := out + Blank(src[i..Least(next, n)]);
        i := next;
      }
    }
    assert src[n..] == "";
  }
}
