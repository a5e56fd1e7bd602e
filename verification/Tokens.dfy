/** A source text as its language cuts it up, and what blanking makes of the pieces. */
module Tokens {
  import opened Wrappers
  import opened Characters
  import opened Paths
  import opened BlankOut

  /** `Code` is a run in which no comment or literal starts; the others carry what is
      between their delimiters. */
  datatype Token =
    | Code(run: string)
    | Line(body: string)
    | Block(body: string)
    | Raw(hashes: nat, body: string)
    | Quoted(body: string)
    | Character(body: string)
  {
    function Text(): string {
      match this
      case Code(run) => run
      case Line(body) => ['/', '/'] + body
      case Block(body) => ['/', '*'] + body + ['*', '/']
      case Raw(hashes, body) => ['r'] + Repeat('#', hashes) + ['\"'] + body + Closing(hashes)
      case Quoted(body) => ['\"'] + body + ['\"']
      case Character(body) => ['\''] + body + ['\'']
    }
  }

  function Closing(hashes: nat): string {
    ['\"'] + Repeat('#', hashes)
  }

  function Text(tokens: seq<Token>): string {
    if tokens == [] then "" else tokens[0].Text() + Text(tokens[1..])
  }

  // ---- what each piece is in the language ----

  /** From `i`, `depth` comments deep, every comment is closed just at the end. */
  predicate ClosesAtEnd(s: string, i: nat, depth: nat)
    requires i <= |s|
    decreases |s| - i
  {
    if depth == 0 then i == |s|
    else if i == |s| then false
    else if Prefixed(s[i..], "/*") then ClosesAtEnd(s, i + 2, depth + 1)
    else if Prefixed(s[i..], "*/") then ClosesAtEnd(s, i + 2, depth - 1)
    else ClosesAtEnd(s, i + 1, depth)
  }

  /** Nothing that the scan hides starts in the run. */
  ghost predicate NothingHidden(run: string, after: string) {
    forall i, end: nat :: 0 <= i < |run| && end > 0 ==> !IsHidden((run + after)[i..], end)
  }

  ghost predicate NoCharacter(run: string, after: string) {
    forall i :: 0 <= i < |run| ==> CharacterEnd((run + after)[i..]) == 0
  }

  /** The token is one of the language when `after` follows it. */
  ghost predicate Stands(t: Token, after: string) {
    match t
    case Code(run) => NothingHidden(run, after) && NoCharacter(run, after)
    case Line(body) => '\n' !in body && (after != "" ==> after[0] == '\n')
    case Block(_) => ClosesAtEnd(t.Text(), 2, 1)
    case Raw(hashes, body) => forall k :: 0 <= k < |body| ==> !Prefixed((body + Closing(hashes))[k..], Closing(hashes))
    case Quoted(body) =>
      && Backslashes(body, 0, |body|) % 2 == 0
      && forall k :: 0 <= k < |body| ==> !Closes(body, 0, k)
    case Character(_) => CharacterEnd(t.Text()) == |t.Text()|
  }

  ghost predicate AllStand(tokens: seq<Token>) {
    tokens == [] || (Stands(tokens[0], Text(tokens[1..])) && AllStand(tokens[1..]))
  }

  /** A block comment with no other in it that does not open with the slash that would
      close it at once, and a character that is not a `\x` or `\u` escape. */
  predicate Plain(t: Token) {
    match t
    case Block(body) => !At(body, 0, '/') && forall k :: 0 <= k < |body| ==> !(At(body, k, '/') && At(body, k + 1, '*'))
    case Character(body) => !(At(body, 0, '\\') && (At(body, 1, 'x') || At(body, 1, 'u')))
    case _ => true
  }

  // ---- what the scan hides where a token starts ----

  lemma LineIsHidden(body: string, after: string)
    requires Stands(Line(body), after)
    ensures Hidden(Line(body).Text() + after) == |Line(body).Text()|
  {
    var s, end := Line(body).Text() + after, |body| + 2;
    assert s[..2] == ['/', '/'] && s[..end] == ['/', '/'] + body;
    HiddenIs(s, end);
  }

  lemma RawIsHidden(hashes: nat, body: string, after: string)
    requires Stands(Raw(hashes, body), after)
    ensures Hidden(Raw(hashes, body).Text() + after) == |Raw(hashes, body).Text()|
  {
    var close := Closing(hashes);
    var text := Raw(hashes, body).Text();
    var s, from, end := text + after, hashes + 2, |text|;
    assert s[from..end] == body + close;
    RawOpens(hashes, body, after);
    forall k | from <= k && k + |close| < end ensures !Prefixed(s[k..], close) {
      assert s[k..][..|close|] == (body + close)[k - from..][..|close|];
    }
    assert s[end - |close|..][..|close|] == close;
    assert ClosedBy(s, from, "\"" + Repeat('#', hashes), end);
    assert IsRawWith(s, hashes + 1, end);
    HiddenIs(s, end);
  }

  lemma RawOpens(hashes: nat, body: string, after: string)
    ensures
      var s := Raw(hashes, body).Text() + after;
      s[0] == 'r' && s[1..hashes + 1] == Repeat('#', hashes) && s[hashes + 1] == '\"'
  {
    Behind('r', Repeat('#', hashes), '\"', body, Closing(hashes), after);
  }

  lemma Behind(a: char, middle: string, b: char, body: string, close: string, after: string)
    ensures
      var s := [a] + middle + [b] + body + close + after;
      s[0] == a && s[1..|middle| + 1] == middle && s[|middle| + 1] == b
  {
    var s := [a] + middle + [b] + body + close + after;
    forall i | 0 <= i < |middle| ensures s[i + 1] == middle[i] {}
  }

  lemma {:induction false} BackslashesBehind(s: string, body: string, k: nat)
    requires k <= |body| < |s| && s[1..|body| + 1] == body
    ensures Backslashes(s, 1, k + 1) == Backslashes(body, 0, k)
  {
    if k > 0 {
      assert s[k] == body[k - 1];
      if body[k - 1] == '\\' {
        BackslashesBehind(s, body, k - 1);
      }
    }
  }

  lemma QuotedIsHidden(body: string, after: string)
    requires Stands(Quoted(body), after)
    ensures Hidden(Quoted(body).Text() + after) == |Quoted(body).Text()|
  {
    var s, end := Quoted(body).Text() + after, |body| + 2;
    assert s[1..|body| + 1] == body && s[|body| + 1] == '\"';
    forall k | 1 <= k <= |body| ensures !Closes(s, 1, k) {
      assert s[k] == body[k - 1];
      BackslashesBehind(s, body, k - 1);
      assert !Closes(body, 0, k - 1);
    }
    BackslashesBehind(s, body, |body|);
    HiddenIs(s, end);
  }

  lemma CharacterIsHiddenIff(body: string, after: string)
    requires Stands(Character(body), after)
    ensures
      var t := Character(body);
      && (Hidden(t.Text() + after) == |t.Text()| <==> Plain(t))
      && (Plain(t) || Hidden(t.Text() + after) == 0)
  {
    var text := Character(body).Text();
    CharacterEndHolds(text, after);
    CharacterIsWholeIff(text + after);
    assert text[1] == (body + ['\''])[0] && text[2] == (body + ['\''])[1];
  }

  lemma {:induction false} HexRunHolds(s: string, after: string, i: nat)
    requires i <= |s| && HexRun(s, i) < |s|
    ensures HexRun(s + after, i) == HexRun(s, i)
    decreases |s| - i
  {
    if IsHex(s[i]) || s[i] == '_' {
      HexRunHolds(s, after, i + 1);
    }
  }

  lemma CharacterEndHolds(s: string, after: string)
    requires CharacterEnd(s) > 0
    ensures CharacterEnd(s + after) == CharacterEnd(s)
  {
    if s[1] == '\\' && s[2] == 'u' {
      HexRunHolds(s, after, 4);
      assert (s + after)[4..HexRun(s, 4)] == s[4..HexRun(s, 4)];
    }
  }

  // ---- block comments ----

  lemma {:induction false} ClosingHolds(s: string, after: string, i: nat, depth: nat)
    requires i <= |s| && ClosesAtEnd(s, i, depth)
    ensures NestedEnd(s + after, i, depth) == |s|
    decreases |s| - i
  {
    var t := s + after;
    if depth > 0 {
      assert i < |s|;
      if i + 1 < |s| {
        assert t[i..][..2] == s[i..][..2];
        if Prefixed(s[i..], "/*") {
          ClosingHolds(s, after, i + 2, depth + 1);
        } else if Prefixed(s[i..], "*/") {
          ClosingHolds(s, after, i + 2, depth - 1);
        } else {
          ClosingHolds(s, after, i + 1, depth);
        }
      } else {
        assert ClosesAtEnd(s, i + 1, depth);
      }
    }
  }

  lemma BlockOpens(body: string, after: string)
    ensures
      var s := Block(body).Text() + after;
      && Prefixed(s, "/*") && |s| == |body| + 4 + |after|
      && PairAt(s, |body| + 2, '*', '/') && !PairAt(s, 0, '*', '/')
      && (PairAt(s, 1, '*', '/') <==> At(body, 0, '/'))
      && forall k :: 0 <= k < |body| ==>
           (PairAt(s, k + 2, '/', '*') <==> At(body, k, '/') && At(body + ['*'], k + 1, '*'))
  {
    var s := Block(body).Text() + after;
    assert s[..2] == ['/', '*'];
    assert s[2..|body| + 3] == body + ['*'];
  }

  lemma FirstClose(s: string) returns (close: nat)
    requires exists k :: PairAt(s, k, '*', '/')
    ensures PairAt(s, close, '*', '/') && forall k :: 0 <= k < close ==> !PairAt(s, k, '*', '/')
  {
    close := 0;
    while !PairAt(s, close, '*', '/')
      invariant forall k :: 0 <= k < close ==> !PairAt(s, k, '*', '/')
      invariant exists k :: PairAt(s, k, '*', '/') && k >= close
      decreases |s| - close
    {
      close := close + 1;
    }
  }

  lemma BlockIsHiddenIff(body: string, after: string)
    requires Stands(Block(body), after)
    ensures
      var t := Block(body);
      && (Hidden(t.Text() + after) == |t.Text()| <==> Plain(t))
      && 0 < Hidden(t.Text() + after) <= |t.Text()|
  {
    var text := Block(body).Text();
    var s, t := text + after, text + ['x'];
    BlockOpens(body, after);
    BlockOpens(body, ['x']);
    var close := FirstClose(s);
    FirstCloseIs(s, close);
    ClosingHolds(text, ['x'], 2, 1);
    forall k | 0 <= k <= close ensures PairAt(t, k, '*', '/') <==> PairAt(s, k, '*', '/') {
      assert k + 1 < |text|;
    }
    CommentEndIs(t, close);
    assert close + 2 == |text| <==> ClosesOwn(t, close);
    if ClosesOwn(t, close) {
      forall k | 0 <= k < |body| ensures !(At(body, k, '/') && At(body, k + 1, '*')) {
        assert !PairAt(t, k + 2, '/', '*');
      }
    }
    if Plain(Block(body)) {
      forall k | 2 <= k < close && k != |body| + 1 ensures !PairAt(t, k, '/', '*') {
        assert At(body, k - 2, '/') ==> !At(body, k - 1, '*');
      }
    }
  }

  // ---- a whole text ----

  function Zeros(n: nat): seq<nat> {
    if n == 0 then [] else [0] + Zeros(n - 1)
  }

  /** How the scan cuts a text up: what it hides at each stop, nothing for a character
      that it shows. */
  function Pieces(s: string): seq<nat>
    decreases |s|
  {
    if s == "" then []
    else
      var end := Hidden(s);
      if end == 0 then [0] + Pieces(s[1..]) else [end] + Pieces(s[end..])
  }

  /** How it should: a token that is not code is one piece. */
  function Expected(tokens: seq<Token>): seq<nat> {
    if tokens == [] then []
    else (if tokens[0].Code? then Zeros(|tokens[0].run|) else [|tokens[0].Text()|]) + Expected(tokens[1..])
  }

  /** The text with everything that is not code blanked. */
  function Masked(tokens: seq<Token>): string {
    if tokens == [] then ""
    else (if tokens[0].Code? then tokens[0].run else Blank(tokens[0].Text())) + Masked(tokens[1..])
  }

  predicate AllPlain(tokens: seq<Token>) {
    forall i :: 0 <= i < |tokens| ==> Plain(tokens[i])
  }

  lemma AllPlainStep(tokens: seq<Token>)
    requires tokens != []
    ensures AllPlain(tokens) <==> Plain(tokens[0]) && AllPlain(tokens[1..])
  {
    assert forall i :: 1 <= i < |tokens| ==> tokens[i] == tokens[1..][i - 1];
    assert forall i :: 0 <= i < |tokens| - 1 ==> tokens[1..][i] == tokens[i + 1];
  }

  lemma {:induction false} CodeIsShown(run: string, after: string)
    requires NothingHidden(run, after)
    ensures Pieces(run + after) == Zeros(|run|) + Pieces(after)
    ensures Visible(run + after) == run + Visible(after)
  {
    if run == "" {
      assert run + after == after;
    } else {
      TailShows(run, after);
      CodeStartsNothing(run, after);
      CodeIsShown(run[1..], after);
      HeadBack(run);
      ShownStep(run[0], run[1..], after);
    }
  }

  lemma DropFirst(c: char, run: string, after: string)
    ensures ([c] + run + after)[1..] == run + after
  {
  }

  lemma ShownStep(c: char, run: string, after: string)
    requires Hidden([c] + run + after) == 0
    requires Pieces(run + after) == Zeros(|run|) + Pieces(after) && Visible(run + after) == run + Visible(after)
    ensures Pieces([c] + run + after) == Zeros(|run| + 1) + Pieces(after)
    ensures Visible([c] + run + after) == [c] + run + Visible(after)
  {
    DropFirst(c, run, after);
    Regroup([c], run, Visible(after));
    Regroup([0], Zeros(|run|), Pieces(after));
  }

  lemma CodeStartsNothing(run: string, after: string)
    requires run != "" && NothingHidden(run, after)
    ensures Hidden(run + after) == 0
  {
    var s := run + after;
    var end := Hidden(s);
    assert s[0..] == s;
    assert end > 0 ==> !IsHidden((run + after)[0..], end);
    if end > 0 {
      HiddenIs(s, end);
    }
  }

  lemma TailShows(run: string, after: string)
    requires run != "" && NothingHidden(run, after)
    ensures NothingHidden(run[1..], after)
  {
    forall i, end: nat | 0 <= i < |run| - 1 && end > 0 ensures !IsHidden((run[1..] + after)[i..], end) {
      assert (run[1..] + after)[i..] == (run + after)[i + 1..];
    }
  }

  lemma TokenIsHiddenIff(t: Token, after: string)
    requires Stands(t, after) && !t.Code?
    ensures |t.Text()| >= 2
    ensures Hidden(t.Text() + after) == |t.Text()| <==> Plain(t)
    ensures t.Character? && !Plain(t) ==> Hidden(t.Text() + after) == 0
  {
    match t
    case Line(body) => LineIsHidden(body, after);
    case Block(body) => BlockIsHiddenIff(body, after);
    case Raw(hashes, body) => RawIsHidden(hashes, body, after);
    case Quoted(body) => QuotedIsHidden(body, after);
    case Character(body) => CharacterIsHiddenIff(body, after);
  }

  lemma {:induction false} ZerosMatch(n: nat, a: seq<nat>, b: seq<nat>)
    ensures Zeros(n) + a == Zeros(n) + b <==> a == b
  {
    assert (Zeros(n) + a)[|Zeros(n)|..] == a && (Zeros(n) + b)[|Zeros(n)|..] == b;
  }

  lemma OneMatches(m: nat, a: seq<nat>, n: nat, b: seq<nat>)
    ensures [m] + a == [n] + b <==> m == n && a == b
  {
    assert ([m] + a)[1..] == a && ([n] + b)[1..] == b && ([m] + a)[0] == m && ([n] + b)[0] == n;
  }

  lemma PieceOf(t: Token, after: string)
    requires Stands(t, after) && !t.Code?
    ensures Pieces(t.Text() + after) != []
    ensures Plain(t) ==> Pieces(t.Text() + after) == [|t.Text()|] + Pieces(after)
    ensures !Plain(t) ==> Pieces(t.Text() + after)[0] != |t.Text()|
  {
    TokenIsHiddenIff(t, after);
    assert (t.Text() + after)[|t.Text()|..] == after;
  }

  /** The scan cuts a text up as its language does exactly when no block comment in it
      has another inside or opens with a slash, and no character is a numbered escape. */
  lemma {:induction false} CutsAsMeantIff(tokens: seq<Token>)
    requires AllStand(tokens)
    ensures Pieces(Text(tokens)) == Expected(tokens) <==> AllPlain(tokens)
  {
    if tokens != [] {
      var t, rest := tokens[0], tokens[1..];
      var after := Text(rest);
      AllPlainStep(tokens);
      CutsAsMeantIff(rest);
      if t.Code? {
        CodeIsShown(t.run, after);
        ZerosMatch(|t.run|, Pieces(after), Expected(rest));
      } else {
        PieceOf(t, after);
        var pieces := Pieces(t.Text() + after);
        assert pieces == [pieces[0]] + pieces[1..];
        OneMatches(pieces[0], pieces[1..], |t.Text()|, Expected(rest));
        OneMatches(|t.Text()|, Pieces(after), |t.Text()|, Expected(rest));
      }
    }
  }

  lemma HalvesMatch(a: string, b: string, c: string)
    ensures a + b == a + c <==> b == c
  {
    assert (a + b)[|a|..] == b && (a + c)[|a|..] == c;
  }

  lemma TokenIsBlank(t: Token, after: string)
    requires Stands(t, after) && !t.Code? && Plain(t)
    ensures Visible(t.Text() + after) == Blank(t.Text()) + Visible(after)
  {
    TokenIsHiddenIff(t, after);
    var s := t.Text() + after;
    assert s[..|t.Text()|] == t.Text() && s[|t.Text()|..] == after;
  }

  lemma EscapeIsShown(t: Token, after: string)
    requires Stands(t, after) && t.Character? && !Plain(t)
    ensures Visible(t.Text() + after)[0] == '\'' && Blank(t.Text())[0] == ' '
  {
    TokenIsHiddenIff(t, after);
  }

  /** Where every block comment is blanked whole, what is left of the text is its code
      and nothing else exactly when no character in it is a numbered escape. */
  lemma {:induction false} LeavesTheCodeIff(tokens: seq<Token>)
    requires AllStand(tokens) && forall i :: 0 <= i < |tokens| && tokens[i].Block? ==> Plain(tokens[i])
    ensures Visible(Text(tokens)) == Masked(tokens) <==> AllPlain(tokens)
  {
    if tokens != [] {
      var t, rest := tokens[0], tokens[1..];
      var after := Text(rest);
      AllPlainStep(tokens);
      forall i | 0 <= i < |rest| && rest[i].Block? ensures Plain(rest[i]) {
        assert rest[i] == tokens[i + 1];
      }
      LeavesTheCodeIff(rest);
      if t.Code? {
        CodeIsShown(t.run, after);
        HalvesMatch(t.run, Visible(after), Masked(rest));
      } else if Plain(t) {
        TokenIsBlank(t, after);
        HalvesMatch(Blank(t.Text()), Visible(after), Masked(rest));
      } else {
        EscapeIsShown(t, after);
      }
    }
  }

  /** The first escape behind plain tokens breaks that, whatever follows it. */
  lemma {:induction false} EscapeBreaksIt(before: seq<Token>, t: Token, after: seq<Token>)
    requires AllStand(before + [t] + after) && AllPlain(before) && t.Character? && !Plain(t)
    ensures Visible(Text(before + [t] + after)) != Masked(before + [t] + after)
  {
    var tokens := before + [t] + after;
    if before == [] {
      assert tokens[0] == t;
      EscapeIsShown(t, Text(tokens[1..]));
    } else {
      var first, rest := before[0], before[1..] + [t] + after;
      assert tokens[0] == first && tokens[1..] == rest;
      AllPlainStep(before);
      EscapeBreaksIt(before[1..], t, after);
      if first.Code? {
        CodeIsShown(first.run, Text(rest));
        HalvesMatch(first.run, Visible(Text(rest)), Masked(rest));
      } else {
        TokenIsBlank(first, Text(rest));
        HalvesMatch(Blank(first.Text()), Visible(Text(rest)), Masked(rest));
      }
    }
  }

  // ---- what a token that is not plain does to the text after it ----

  lemma HidesNothing(run: string, after: string)
    requires forall i :: 0 <= i < |run| ==> Hidden((run + after)[i..]) == 0
    ensures NothingHidden(run, after)
  {
    forall i, end: nat | 0 <= i < |run| && end > 0 ensures !IsHidden((run + after)[i..], end) {
      HiddenIs((run + after)[i..], end);
    }
  }

  lemma LoneQuote(s: string)
    requires s != "" && s[0] == '\'' && CharEnd(s) == 0
    ensures Hidden(s) == 0
  {
    assert |s| > 1 ==> s[..2][0] == s[0];
  }

  lemma ThreeTokens(a: Token, b: Token, c: Token)
    requires Stands(a, b.Text() + c.Text()) && Stands(b, c.Text()) && Stands(c, "")
    ensures AllStand([a, b, c]) && Text([a, b, c]) == a.Text() + (b.Text() + c.Text())
  {
    OneMore(c, []);
    assert c.Text() + "" == c.Text();
    OneMore(b, [c]);
    OneMore(a, [b, c]);
    assert [a] + [b, c] == [a, b, c] && [b] + [c] == [b, c] && [c] + [] == [c];
  }

  lemma OneMore(t: Token, rest: seq<Token>)
    requires Stands(t, Text(rest)) && AllStand(rest)
    ensures AllStand([t] + rest) && Text([t] + rest) == t.Text() + Text(rest)
  {
    assert ([t] + rest)[1..] == rest;
  }

  lemma EscapeShows(after: string, run: string)
    requires run == ['\'', '\\', 'x', '4', '1'] && Prefixed(after, "','")
    ensures NothingHidden(run, after)
  {
    var s := run + after;
    forall i | 0 <= i < 5 ensures Hidden(s[i..]) == 0 {
      assert s[i..][0] == s[i];
      if i == 0 {
        LoneQuote(s[0..]);
      } else {
        CodeHead(s[i..]);
      }
    }
    HidesNothing(run, after);
  }

  lemma FreedTailShows(run: string)
    requires run == ['b', '\'']
    ensures NothingHidden(run, "")
  {
    var s := run + "";
    CodeHead(s[0..]);
    LoneQuote(s[1..]);
    forall i | 0 <= i < 2 ensures Hidden(s[i..]) == 0 {}
    HidesNothing(run, "");
  }

  lemma CommaStands(run: string, after: string)
    requires run == [',']
    ensures Stands(Code(run), after)
  {
    var s := run + after;
    CodeHead(s[0..]);
    HidesNothing(run, after);
  }

  /** `'\x41','b'` as it is meant, and as the scan cuts it up: the closing quote of the
      escape pairs with the next one, so the comma is hidden and the second literal is
      not, although it is no escape. */
  lemma FreedQuotePairs()
    ensures
      var meant := [Character("\\x41"), Code(","), Character("b")];
      && AllStand(meant) && Text(meant) == "'\\x41','b'"
      && Visible(Text(meant)) == "'\\x41   b'"
  {
    MeantStands("\\x41", ",", "b");
    FoundShows("'\\x41", ",", "b'");
  }

  lemma MeantStands(escape: string, comma: string, letter: string)
    requires escape == ['\\', 'x', '4', '1'] && comma == [','] && letter == ['b']
    ensures
      var meant := [Character(escape), Code(comma), Character(letter)];
      AllStand(meant) && Text(meant) == ['\'', '\\', 'x', '4', '1', '\'', ',', '\'', 'b', '\'']
  {
    var a, c := Character(escape), Character(letter);
    assert a.Text() == ['\'', '\\', 'x', '4', '1', '\''] && c.Text() == ['\'', 'b', '\''];
    CommaStands(comma, c.Text());
    ThreeTokens(a, Code(comma), c);
  }

  lemma FoundShows(run: string, comma: string, tail: string)
    requires run == ['\'', '\\', 'x', '4', '1'] && comma == [','] && tail == ['b', '\'']
    ensures Visible(['\'', '\\', 'x', '4', '1', '\'', ',', '\'', 'b', '\'']) ==
            ['\'', '\\', 'x', '4', '1', ' ', ' ', ' ', 'b', '\'']
  {
    var t := Character(comma);
    assert t.Text() == ['\'', ',', '\''] && Blank(t.Text()) == [' ', ' ', ' '];
    EscapeShows(t.Text() + tail, run);
    FreedTailShows(tail);
    FoundText(run, tail);
    CodeAroundOne(run, t, tail);
  }

  lemma CodeAroundOne(before: string, t: Token, after: string)
    requires NothingHidden(before, t.Text() + after) && Stands(t, after) && NothingHidden(after, "")
    requires !t.Code? && Plain(t)
    ensures Visible(before + (t.Text() + after)) == before + (Blank(t.Text()) + after)
  {
    CodeIsShown(before, t.Text() + after);
    TokenIsBlank(t, after);
    CodeIsShown(after, "");
    assert after + "" == after;
  }

  lemma FoundText(run: string, tail: string)
    requires run == ['\'', '\\', 'x', '4', '1'] && tail == ['b', '\'']
    ensures run + (['\'', ',', '\''] + tail) == ['\'', '\\', 'x', '4', '1', '\'', ',', '\'', 'b', '\'']
    ensures run + ([' ', ' ', ' '] + tail) == ['\'', '\\', 'x', '4', '1', ' ', ' ', ' ', 'b', '\'']
  {
  }

  lemma WhollyHidden(s: string)
    requires s != "" && Hidden(s) == |s|
    ensures Visible(s) == Blank(s)
  {
    WholePrefix(s);
    assert Visible(s) == Blank(s[..|s|]) + Visible(s[|s|..]);
  }

  lemma {:induction false} BlankOfTwo(s: string, n: nat)
    requires n <= |s|
    ensures Blank(s[..n]) + Blank(s[n..]) == Blank(s)
  {
    var a, b, whole := Blank(s[..n]), Blank(s[n..]), Blank(s);
    SameBlanks(a, b, whole, s, n);
  }

  lemma SameBlanks(a: string, b: string, whole: string, s: string, n: nat)
    requires n <= |s| && |a| == n && |b| == |s| - n && |whole| == |s|
    requires forall i :: 0 <= i < n ==> a[i] == if s[i] == '\n' then '\n' else ' '
    requires forall i :: 0 <= i < |b| ==> b[i] == if s[n + i] == '\n' then '\n' else ' '
    requires forall i :: 0 <= i < |s| ==> whole[i] == if s[i] == '\n' then '\n' else ' '
    ensures a + b == whole
  {
    forall i | n <= i < |s| ensures (a + b)[i] == whole[i] {
      assert (a + b)[i] == b[i - n];
    }
  }

  lemma HiddenInTwo(s: string, n: nat)
    requires 0 < n < |s| && Hidden(s) == n && Hidden(s[n..]) == |s| - n
    ensures Visible(s) == Blank(s)
  {
    WhollyHidden(s[n..]);
    BlankOfTwo(s, n);
  }

  /** A comment that is cut may still leave the code and nothing else: what is freed
      from it may hide the rest. */
  lemma CutCommentMayAgree(t: Token)
    requires t == Block(" /* */// ")
    ensures Stands(t, "") && !Plain(t) && Text([t]) == "/* /* */// */"
    ensures Visible(Text([t])) == Masked([t])
  {
    var s := t.Text();
    CutCommentIs(t.body);
    ClosesLate(s);
    CutCommentIsHidden(s);
    assert s + "" == s && Blank(s) + "" == Blank(s);
  }

  lemma CutCommentIs(body: string)
    requires body == " /* */// "
    ensures Block(body).Text() == "/* /* */// */" && !Plain(Block(body))
  {
    assert At(body, 1, '/') && At(body, 2, '*');
  }

  lemma CutCommentIsHidden(s: string)
    requires s == "/* /* */// */"
    ensures Visible(s) == Blank(s)
  {
    assert s[..2] == "/*";
    FirstCloseIs(s, 6);
    FreedLine(s[8..]);
    HiddenInTwo(s, 8);
  }

  lemma FreedLine(s: string)
    requires s == "// */"
    ensures Hidden(s) == |s|
  {
    assert s[..2] == "//" && s[..|s|] == s;
    HiddenIs(s, |s|);
  }

  lemma ClosesLate(s: string)
    requires s == "/* /* */// */"
    ensures ClosesAtEnd(s, 2, 1)
  {
    PairsAre(s, 2);
    PairsAre(s, 3);
    PairsAre(s, 5);
    PairsAre(s, 6);
    PairsAre(s, 8);
    PairsAre(s, 9);
    PairsAre(s, 10);
    PairsAre(s, 11);
    assert ClosesAtEnd(s, 13, 0);
    assert ClosesAtEnd(s, 11, 1) && ClosesAtEnd(s, 10, 1) && ClosesAtEnd(s, 9, 1) && ClosesAtEnd(s, 8, 1);
    assert ClosesAtEnd(s, 6, 2) && ClosesAtEnd(s, 5, 2);
    assert ClosesAtEnd(s, 3, 1);
  }
}
