/** What a set of emitted files repeats: duplication by lines, the prefix they share,
    and the bisection for a recursion budget. Files are bytes of UTF-8. */
module Scaling {
  import opened Wrappers
  import opened Decimal

  type Byte = b: nat | b < 256
  type Line = seq<Byte>

  const LF: Byte := 10
  const CR: Byte := 13

  // ---- lines ----

  function FindLf(s: seq<Byte>): (r: Option<nat>)
    ensures r.Some? ==> r.value < |s| && s[r.value] == LF
    ensures r.None? ==> LF !in s
  {
    if s == [] then None
    else if s[0] == LF then Some(0)
    else match FindLf(s[1..]) case None => None case Some(k) => Some(k + 1)
  }

  function DropCr(line: Line): Line {
    if line != [] && line[|line| - 1] == CR then line[..|line| - 1] else line
  }

  /** A line ends at a line feed, and a carriage return right before it goes too; what
      is after the last line feed is a line when there is any. */
  function Lines(s: seq<Byte>): seq<Line> {
    match FindLf(s)
    case None => if s == [] then [] else [s]
    case Some(k) => [DropCr(s[..k])] + Lines(s[k + 1..])
  }

  /** How many lines end in a carriage return and a line feed. */
  function CrLfs(s: seq<Byte>): nat {
    match FindLf(s)
    case None => 0
    case Some(k) => (if DropCr(s[..k]) == s[..k] then 0 else 1) + CrLfs(s[k + 1..])
  }

  /** One when the last line has no line feed. */
  function Unended(s: seq<Byte>): nat {
    if s != [] && s[|s| - 1] != LF then 1 else 0
  }

  /** The bytes of the lines with a line feed after each. */
  function Size(lines: seq<Line>): nat {
    if lines == [] then 0 else |lines[0]| + 1 + Size(lines[1..])
  }

  lemma {:induction false} LinesSize(s: seq<Byte>)
    ensures Size(Lines(s)) + CrLfs(s) == |s| + Unended(s)
    decreases |s|
  {
    match FindLf(s)
    case None =>
      if s != [] {
        assert s[|s| - 1] in s;
        assert [s][1..] == [];
      }
    case Some(k) =>
      var rest := s[k + 1..];
      LinesSize(rest);
      assert Lines(s)[1..] == Lines(rest);
      assert rest != [] ==> rest[|rest| - 1] == s[|s| - 1];
  }

  /** What ends a line: a line feed, with a carriage return before it or none at the end
      of the line; or the end of the file, behind a line that is not empty. */
  predicate IsEnd(line: Line, end: seq<Byte>, last: bool) {
    && LF !in line
    && (|| (end == [LF] && (line != [] ==> line[|line| - 1] != CR))
        || end == [CR, LF]
        || (end == [] && last && line != []))
  }

  function Glue(lines: seq<Line>, ends: seq<seq<Byte>>): seq<Byte>
    requires |lines| == |ends|
  {
    if lines == [] then [] else lines[0] + (ends[0] + Glue(lines[1..], ends[1..]))
  }

  /** The file is those lines, one behind another, with those ends. */
  ghost predicate IsCut(s: seq<Byte>, lines: seq<Line>, ends: seq<seq<Byte>>) {
    && |lines| == |ends| && s == Glue(lines, ends)
    && forall i :: 0 <= i < |lines| ==> IsEnd(lines[i], ends[i], i == |lines| - 1)
  }

  lemma {:induction false} FindLfIs(s: seq<Byte>, k: nat)
    requires k < |s| && s[k] == LF && LF !in s[..k]
    ensures FindLf(s) == Some(k)
  {
    if k > 0 {
      assert s[0] == s[..k][0] && s[..k] == [s[0]] + s[1..][..k - 1];
      FindLfIs(s[1..], k - 1);
    }
  }

  lemma {:induction false} FindLfIsFirst(s: seq<Byte>)
    ensures FindLf(s).Some? ==> LF !in s[..FindLf(s).value]
  {
    if s != [] && s[0] != LF {
      FindLfIsFirst(s[1..]);
      if FindLf(s).Some? {
        var k := FindLf(s).value;
        assert s[..k] == [s[0]] + s[1..][..k - 1];
      }
    }
  }

  lemma FirstLine(line: Line, end: seq<Byte>, rest: seq<Byte>)
    requires IsEnd(line, end, false)
    ensures Lines(line + (end + rest)) == [line] + Lines(rest)
  {
    var s, k := line + (end + rest), |line| + |end| - 1;
    assert end + rest == (if |end| == 1 then [LF] + rest else [CR, LF] + rest);
    assert s[k + 1..] == rest;
    assert s[..k] == (if |end| == 1 then line else line + [CR]);
    FindLfIs(s, k);
  }

  lemma {:induction false} CutIsTheLines(s: seq<Byte>, lines: seq<Line>, ends: seq<seq<Byte>>)
    requires IsCut(s, lines, ends)
    ensures lines == Lines(s)
    decreases |lines|
  {
    if lines != [] {
      assert IsEnd(lines[0], ends[0], 0 == |lines| - 1);
      var rest := Glue(lines[1..], ends[1..]);
      if ends[0] == [] {
        assert lines[1..] == [] && s == lines[0] + ([] + rest) == lines[0];
        assert FindLf(s) == None && [s] == lines;
      } else {
        forall i | 0 <= i < |lines[1..]| ensures IsEnd(lines[1..][i], ends[1..][i], i == |lines[1..]| - 1) {
          assert IsEnd(lines[i + 1], ends[i + 1], i + 1 == |lines| - 1);
        }
        CutIsTheLines(rest, lines[1..], ends[1..]);
        FirstLine(lines[0], ends[0], rest);
      }
    }
  }

  lemma {:induction false} CutExists(s: seq<Byte>) returns (ends: seq<seq<Byte>>)
    ensures IsCut(s, Lines(s), ends)
    decreases |s|
  {
    FindLfIsFirst(s);
    match FindLf(s)
    case None =>
      ends := if s == [] then [] else [[]];
      assert s != [] ==> [s][1..] == [] && ends[1..] == [] && s + ([] + []) == s;
    case Some(k) =>
      var rest, line := s[k + 1..], DropCr(s[..k]);
      var end: seq<Byte> := if line == s[..k] then [LF] else [CR, LF];
      var more := CutExists(rest);
      ends := [end] + more;
      assert s == line + (end + rest);
      LineBehind(s, line, end, rest, more);
  }

  lemma LineBehind(s: seq<Byte>, line: Line, end: seq<Byte>, rest: seq<Byte>, more: seq<seq<Byte>>)
    requires IsEnd(line, end, false) && IsCut(rest, Lines(rest), more) && s == line + (end + rest)
    ensures IsCut(s, [line] + Lines(rest), [end] + more)
  {
    var lines, ends := [line] + Lines(rest), [end] + more;
    assert lines[1..] == Lines(rest) && ends[1..] == more;
    forall i | 0 <= i < |lines| ensures IsEnd(lines[i], ends[i], i == |lines| - 1) {
      if i > 0 {
        assert IsEnd(lines[1..][i - 1], more[i - 1], i - 1 == |lines[1..]| - 1);
      }
    }
  }

  /** A file is cut into lines in one way. */
  lemma LinesAreTheCut(s: seq<Byte>, lines: seq<Line>)
    ensures lines == Lines(s) <==> exists ends :: IsCut(s, lines, ends)
  {
    var ends := CutExists(s);
    if other :| IsCut(s, lines, other) {
      CutIsTheLines(s, lines, other);
    }
  }

  // ---- weighing lines ----

  ghost function Weight(m: multiset<Line>): nat
    decreases |m|
  {
    if m == multiset{} then 0
    else
      var l :| l in m;
      |l| + 1 + Weight(m - multiset{l})
  }

  lemma TakenInEitherOrder(m: multiset<Line>, k: Line, l: Line)
    ensures m - multiset{k} - multiset{l} == m - multiset{l} - multiset{k}
  {
  }

  lemma {:induction false} WeightWithout(m: multiset<Line>, l: Line)
    requires l in m
    ensures Weight(m) == |l| + 1 + Weight(m - multiset{l})
    decreases |m|
  {
    var k :| k in m && Weight(m) == |k| + 1 + Weight(m - multiset{k});
    if k != l {
      WeightWithout(m - multiset{k}, l);
      WeightWithout(m - multiset{l}, k);
      TakenInEitherOrder(m, k, l);
    }
  }

  lemma {:induction false} WeightAdds(a: multiset<Line>, b: multiset<Line>)
    ensures Weight(a + b) == Weight(a) + Weight(b)
    decreases |a|
  {
    if a == multiset{} {
      assert a + b == b;
    } else {
      var l :| l in a;
      WeightWithout(a, l);
      WeightWithout(a + b, l);
      assert a + b - multiset{l} == a - multiset{l} + b;
      WeightAdds(a - multiset{l}, b);
    }
  }

  lemma {:induction false} WeightOfLines(lines: seq<Line>)
    ensures Weight(multiset(lines)) == Size(lines)
  {
    if lines != [] {
      WeightOfLines(lines[1..]);
      assert lines == [lines[0]] + lines[1..];
      assert multiset(lines) - multiset{lines[0]} == multiset(lines[1..]);
      WeightWithout(multiset(lines), lines[0]);
    }
  }

  lemma OneMore(x: nat, n: nat)
    ensures x * (n + 1) == x * n + x
  {
  }

  lemma {:induction false} WeightOfCopies(m: multiset<Line>, l: Line)
    ensures Weight(m) == (|l| + 1) * m[l] + Weight(m[l := 0])
    decreases m[l]
  {
    if m[l] == 0 {
      assert m[l := 0] == m;
    } else {
      var less := m - multiset{l};
      WeightWithout(m, l);
      WeightOfCopies(less, l);
      assert less[l := 0] == m[l := 0];
      OneMore(|l| + 1, less[l]);
    }
  }

  lemma WeightIsZeroIff(m: multiset<Line>)
    ensures Weight(m) == 0 <==> m == multiset{}
  {
  }

  // ---- duplication ----

  /** Each line as often as the file that has the most of it has it. */
  ghost function Most(sources: seq<seq<Byte>>): multiset<Line> {
    if sources == [] then multiset{}
    else
      var most, here := Most(sources[..|sources| - 1]), multiset(Lines(sources[|sources| - 1]));
      most + (here - most)
  }

  /** Each line as often as all the files together have it. */
  ghost function All(sources: seq<seq<Byte>>): multiset<Line> {
    if sources == [] then multiset{}
    else All(sources[..|sources| - 1]) + multiset(Lines(sources[|sources| - 1]))
  }

  function Sum(f: seq<Byte> -> nat, sources: seq<seq<Byte>>): nat {
    if sources == [] then 0 else Sum(f, sources[..|sources| - 1]) + f(sources[|sources| - 1])
  }

  function Length(s: seq<Byte>): nat {
    |s|
  }

  function Total(sources: seq<seq<Byte>>): nat {
    Sum(Length, sources)
  }

  ghost function Duplicated(sources: seq<seq<Byte>>): nat {
    if Total(sources) > Weight(Most(sources)) then Total(sources) - Weight(Most(sources)) else 0
  }

  lemma {:induction false} MostWithinAll(sources: seq<seq<Byte>>)
    ensures Most(sources) <= All(sources)
  {
    if sources != [] {
      MostWithinAll(sources[..|sources| - 1]);
    }
  }

  lemma {:induction false} TotalIsWeight(sources: seq<seq<Byte>>)
    ensures Total(sources) + Sum(Unended, sources) == Weight(All(sources)) + Sum(CrLfs, sources)
  {
    if sources != [] {
      var front, last := sources[..|sources| - 1], sources[|sources| - 1];
      TotalIsWeight(front);
      LinesSize(last);
      WeightOfLines(Lines(last));
      WeightAdds(All(front), multiset(Lines(last)));
    }
  }

  /** How often a file has a line. */
  ghost function Count(l: Line): seq<Byte> -> nat {
    s => multiset(Lines(s))[l]
  }

  lemma {:induction false} AllCounts(sources: seq<seq<Byte>>, l: Line)
    ensures All(sources)[l] == Sum(Count(l), sources)
  {
    if sources != [] {
      AllCounts(sources[..|sources| - 1], l);
    }
  }

  lemma Larger(most: multiset<Line>, here: multiset<Line>, l: Line)
    ensures (most + (here - most))[l] == if here[l] > most[l] then here[l] else most[l]
  {
  }

  lemma MostStep(sources: seq<seq<Byte>>, last: seq<Byte>, l: Line)
    requires sources != [] && last == sources[|sources| - 1]
    ensures Most(sources)[l] >= Most(sources[..|sources| - 1])[l] && Most(sources)[l] >= multiset(Lines(last))[l]
  {
    Larger(Most(sources[..|sources| - 1]), multiset(Lines(last)), l);
  }

  /** The most any file has of a line: a bound on all of them, which one reaches. */
  lemma {:induction false} MostBounds(sources: seq<seq<Byte>>, l: Line, s: seq<Byte>)
    requires s in sources
    ensures multiset(Lines(s))[l] <= Most(sources)[l]
  {
    var n := |sources| - 1;
    MostStep(sources, sources[n], l);
    if s != sources[n] {
      assert s in sources[..n];
      MostBounds(sources[..n], l, s);
    }
  }

  lemma {:induction false} MostIsReached(sources: seq<seq<Byte>>, l: Line) returns (i: nat)
    requires Most(sources)[l] > 0
    ensures i < |sources| && Count(l)(sources[i]) == Most(sources)[l]
  {
    i := |sources| - 1;
    if Most(sources)[l] > Count(l)(sources[i]) {
      i := MostIsReached(sources[..i], l);
    }
  }

  /** What is duplicated: every line as often as the files beyond the one with the most
      of it have it, plus the carriage returns that are not counted, less the line
      feeds that are missing. */
  lemma DuplicationLaw(sources: seq<seq<Byte>>)
    ensures
      var extra := Weight(All(sources) - Most(sources)) + Sum(CrLfs, sources);
      Duplicated(sources) == if extra > Sum(Unended, sources) then extra - Sum(Unended, sources) else 0
    ensures forall l :: (All(sources) - Most(sources))[l] == Sum(Count(l), sources) - Most(sources)[l]
  {
    MostWithinAll(sources);
    TotalIsWeight(sources);
    assert All(sources) - Most(sources) + Most(sources) == All(sources);
    WeightAdds(All(sources) - Most(sources), Most(sources));
    forall l ensures All(sources)[l] == Sum(Count(l), sources) {
      AllCounts(sources, l);
    }
  }

  /** Every line of the file ends in a line feed alone. */
  predicate Terminated(s: seq<Byte>) {
    CrLfs(s) == 0 && Unended(s) == 0
  }

  ghost predicate AllTerminated(sources: seq<seq<Byte>>) {
    forall i :: 0 <= i < |sources| ==> Terminated(sources[i])
  }

  lemma {:induction false} NothingUncounted(sources: seq<seq<Byte>>)
    requires AllTerminated(sources)
    ensures Sum(CrLfs, sources) == 0 && Sum(Unended, sources) == 0
  {
    if sources != [] {
      NothingUncounted(sources[..|sources| - 1]);
    }
  }

  /** No line is in two of the files. */
  ghost predicate NothingShared(sources: seq<seq<Byte>>) {
    forall i, j, l :: 0 <= i < j < |sources| && l in Lines(sources[i]) ==> l !in Lines(sources[j])
  }

  lemma {:induction false} AllHas(sources: seq<seq<Byte>>, l: Line, i: nat)
    requires i < |sources| && l in Lines(sources[i])
    ensures l in All(sources)
  {
    var n := |sources| - 1;
    if i < n {
      AllHas(sources[..n], l, i);
    }
  }

  lemma {:induction false} AllFinds(sources: seq<seq<Byte>>, l: Line) returns (i: nat)
    requires l in All(sources)
    ensures i < |sources| && l in Lines(sources[i])
  {
    i := |sources| - 1;
    if l !in Lines(sources[i]) {
      i := AllFinds(sources[..i], l);
    }
  }

  lemma SharedAtLast(sources: seq<seq<Byte>>)
    requires sources != []
    ensures
      var n := |sources| - 1;
      NothingShared(sources)
      <==> NothingShared(sources[..n]) && (All(sources[..n]) !! multiset(Lines(sources[n])))
  {
    var n := |sources| - 1;
    var front, here := sources[..n], Lines(sources[n]);
    assert forall i :: 0 <= i < n ==> sources[i] == front[i];
    if NothingShared(sources) {
      forall l | l in All(front) ensures l !in here {
        var i := AllFinds(front, l);
        assert l in Lines(sources[i]);
      }
    }
    if NothingShared(front) && All(front) !! multiset(here) {
      forall i, j, l | 0 <= i < j < |sources| && l in Lines(sources[i]) ensures l !in Lines(sources[j]) {
        if j == n {
          AllHas(front, l, i);
        } else {
          assert l in Lines(front[i]);
        }
      }
    }
  }

  lemma {:induction false} AllIsMostIff(sources: seq<seq<Byte>>)
    ensures All(sources) == Most(sources) <==> NothingShared(sources)
  {
    if sources != [] {
      var n := |sources| - 1;
      AllIsMostIff(sources[..n]);
      MostWithinAll(sources[..n]);
      SharedAtLast(sources);
      MaxIsSumIff(All(sources[..n]), Most(sources[..n]), multiset(Lines(sources[n])));
    }
  }

  lemma MaxIsSumIff(all: multiset<Line>, most: multiset<Line>, here: multiset<Line>)
    requires most <= all
    ensures all + here == most + (here - most) <==> all == most && all !! here
  {
    if all + here == most + (here - most) {
      forall l ensures all[l] == most[l] && (l in all ==> l !in here) {
        assert (all + here)[l] == (most + (here - most))[l];
      }
    }
  }

  /** Files with all their line feeds duplicate nothing exactly when no line is in two
      of them. */
  lemma NothingDuplicatedIff(sources: seq<seq<Byte>>)
    requires AllTerminated(sources)
    ensures Duplicated(sources) == Weight(All(sources) - Most(sources))
    ensures Duplicated(sources) == 0 <==> NothingShared(sources)
  {
    DuplicationLaw(sources);
    NothingUncounted(sources);
    MostWithinAll(sources);
    WeightIsZeroIff(All(sources) - Most(sources));
    AllIsMostIff(sources);
    assert All(sources) - Most(sources) == multiset{} ==> All(sources) == Most(sources);
  }

  /** One file by itself duplicates nothing exactly when it has no more carriage returns
      before line feeds than line feeds missing. */
  lemma AloneDuplicatesNothingIff(s: seq<Byte>)
    ensures Duplicated([s]) == 0 <==> CrLfs(s) <= Unended(s)
  {
    DuplicationLaw([s]);
    assert [s][..0] == [];
    assert Most([]) == multiset{} && All([]) == multiset{};
    var here := multiset(Lines(s));
    assert multiset{} + (here - multiset{}) == here && multiset{} + here == here;
    assert Most([s]) == here && All([s]) == here;
    assert here - here == multiset{};
    assert Sum(CrLfs, [s]) == CrLfs(s) && Sum(Unended, [s]) == Unended(s);
  }

  // ---- order and copies ----

  lemma {:induction false} SumConcat(f: seq<Byte> -> nat, a: seq<seq<Byte>>, b: seq<seq<Byte>>)
    ensures Sum(f, a + b) == Sum(f, a) + Sum(f, b)
  {
    if b == [] {
      assert a + b == a;
    } else {
      var n := |b| - 1;
      assert (a + b)[..|a + b| - 1] == a + b[..n];
      SumConcat(f, a, b[..n]);
    }
  }

  lemma SumAround(f: seq<Byte> -> nat, a: seq<seq<Byte>>, s: seq<Byte>, b: seq<seq<Byte>>)
    ensures Sum(f, a + ([s] + b)) == Sum(f, a + b) + f(s)
  {
    SumConcat(f, a, [s] + b);
    SumConcat(f, [s], b);
    SumConcat(f, a, b);
    SumOne(f, s);
  }

  lemma Cancel(x: multiset<seq<Byte>>, y: multiset<seq<Byte>>, s: seq<Byte>)
    requires x + multiset{s} == y + multiset{s}
    ensures x == y
  {
    assert x + multiset{s} - multiset{s} == x && y + multiset{s} - multiset{s} == y;
  }

  lemma {:induction false} SumIgnoresOrder(f: seq<Byte> -> nat, a: seq<seq<Byte>>, b: seq<seq<Byte>>)
    requires multiset(a) == multiset(b)
    ensures Sum(f, a) == Sum(f, b)
    decreases |a|
  {
    assert |a| == |multiset(a)| == |b|;
    if a != [] {
      var n := |a| - 1;
      var s := a[n];
      assert a == a[..n] + [s];
      assert s in multiset(b);
      var k :| 0 <= k < |b| && b[k] == s;
      var front, back := b[..k], b[k + 1..];
      assert b == front + ([s] + back);
      assert multiset(b) == multiset(front + back) + multiset{s};
      Cancel(multiset(a[..n]), multiset(front + back), s);
      SumIgnoresOrder(f, a[..n], front + back);
      SumAround(f, front, s, back);
    }
  }

  lemma SumOne(f: seq<Byte> -> nat, s: seq<Byte>)
    ensures Sum(f, [s]) == f(s)
  {
    assert [s][..0] == [];
  }

  lemma MostIgnoresOrder(a: seq<seq<Byte>>, b: seq<seq<Byte>>, l: Line)
    requires forall s :: s in a ==> s in b
    ensures Most(a)[l] <= Most(b)[l]
  {
    if Most(a)[l] > 0 {
      var i := MostIsReached(a, l);
      assert a[i] in a;
      MostBounds(b, l, a[i]);
    }
  }

  lemma SameMost(a: seq<seq<Byte>>, b: seq<seq<Byte>>)
    requires multiset(a) == multiset(b)
    ensures Most(a) == Most(b)
  {
    forall s ensures s in a <==> s in b {
      assert s in multiset(a) <==> s in multiset(b);
    }
    var x, y := Most(a), Most(b);
    forall l ensures x[l] == y[l] {
      MostIgnoresOrder(a, b, l);
      MostIgnoresOrder(b, a, l);
    }
  }

  /** The order the files are given in makes no difference. */
  lemma OrderIsIgnored(a: seq<seq<Byte>>, b: seq<seq<Byte>>)
    requires multiset(a) == multiset(b)
    ensures Total(a) == Total(b) && Most(a) == Most(b) && Duplicated(a) == Duplicated(b)
  {
    SumIgnoresOrder(Length, a, b);
    SameMost(a, b);
  }

  function Copies(s: seq<Byte>, k: nat): seq<seq<Byte>> {
    if k == 0 then [] else Copies(s, k - 1) + [s]
  }

  lemma {:induction false} TotalOfCopies(s: seq<Byte>, k: nat)
    ensures Total(Copies(s, k)) == |s| * k
  {
    if k > 0 {
      TotalOfCopies(s, k - 1);
      assert Copies(s, k)[..|Copies(s, k)| - 1] == Copies(s, k - 1);
      OneMore(|s|, k - 1);
    }
  }

  lemma {:induction false} MostOfCopies(s: seq<Byte>, k: nat)
    requires k > 0
    ensures Most(Copies(s, k)) == multiset(Lines(s))
  {
    var here := multiset(Lines(s));
    assert Copies(s, k)[..|Copies(s, k)| - 1] == Copies(s, k - 1);
    if k > 1 {
      MostOfCopies(s, k - 1);
      assert here + (here - here) == here;
    } else {
      assert multiset{} + (here - multiset{}) == here;
    }
  }

  /** Of `k` copies of a file, all but one are duplicated. */
  lemma CopiesAreDuplicated(s: seq<Byte>, k: nat)
    requires Terminated(s) && k > 0
    ensures Duplicated(Copies(s, k)) == |s| * (k - 1)
  {
    TotalOfCopies(s, k);
    MostOfCopies(s, k);
    WeightIsLength(s);
    OneMore(|s|, k - 1);
    AllButOne(Copies(s, k), |s|, |s| * (k - 1));
  }

  lemma WeightIsLength(s: seq<Byte>)
    requires Terminated(s)
    ensures Weight(multiset(Lines(s))) == |s|
  {
    LinesSize(s);
    WeightOfLines(Lines(s));
  }

  lemma AllButOne(sources: seq<seq<Byte>>, one: nat, others: nat)
    requires Total(sources) == one + others && Weight(Most(sources)) == one
    ensures Duplicated(sources) == others
  {
  }

  // ---- the measurement ----

  /** A table of counts stands for the lines it counts. */
  ghost predicate Tallies(table: map<Line, nat>, m: multiset<Line>) {
    forall l :: m[l] == if l in table then table[l] else 0
  }

  lemma TallyOne(table: map<Line, nat>, lines: seq<Line>, i: nat)
    requires i < |lines| && Tallies(table, multiset(lines[..i]))
    ensures
      var line := lines[i];
      Tallies(table[line := (if line in table then table[line] else 0) + 1], multiset(lines[..i + 1]))
  {
    assert lines[..i + 1] == lines[..i] + [lines[i]];
  }

  method Tally(source: seq<Byte>) returns (here: map<Line, nat>)
    ensures Tallies(here, multiset(Lines(source)))
  {
    here := map[];
    var lines := Lines(source);
    for i := 0 to |lines|
      invariant Tallies(here, multiset(lines[..i]))
    {
      var line := lines[i];
      TallyOne(here, lines, i);
      here := here[line := (if line in here then here[line] else 0) + 1];
    }
    assert lines[..|lines|] == lines;
  }

  /** Each count the larger of the two. */
  method Merge(most: map<Line, nat>, here: map<Line, nat>, ghost m: multiset<Line>, ghost h: multiset<Line>)
      returns (merged: map<Line, nat>)
    requires Tallies(most, m) && Tallies(here, h)
    ensures Tallies(merged, m + (h - m))
  {
    merged := most;
    var left := here.Keys;
    while left != {}
      invariant left <= here.Keys
      invariant forall l :: (if l in merged then merged[l] else 0) == if l !in left && h[l] > m[l] then h[l] else m[l]
      decreases |left|
    {
      var line :| line in left;
      var seen := if line in merged then merged[line] else 0;
      merged := merged[line := if here[line] > seen then here[line] else seen];
      left := left - {line};
    }
  }

  method Weigh(table: map<Line, nat>, ghost m: multiset<Line>) returns (distinct: nat)
    requires Tallies(table, m)
    ensures distinct == Weight(m)
  {
    distinct := 0;
    var left := table.Keys;
    ghost var rest := m;
    while left != {}
      invariant left <= table.Keys
      invariant forall l :: rest[l] == if l in left then table[l] else 0
      invariant distinct + Weight(rest) == Weight(m)
      decreases |left|
    {
      var line :| line in left;
      WeightOfCopies(rest, line);
      rest := rest[line := 0];
      distinct := distinct + (|line| + 1) * table[line];
      left := left - {line};
    }
    assert rest == multiset{};
  }

  lemma OneMoreFile(sources: seq<seq<Byte>>, i: nat)
    requires i < |sources|
    ensures
      var most, here := Most(sources[..i]), multiset(Lines(sources[i]));
      Most(sources[..i + 1]) == most + (here - most) && Total(sources[..i + 1]) == Total(sources[..i]) + |sources[i]|
  {
    assert sources[..i + 1][..i] == sources[..i];
  }

  datatype Duplication = Duplication(bundles: nat, total: nat, distinct: nat, duplicated: nat, commonPrefix: nat)

  method MeasureDuplication(sources: seq<seq<Byte>>) returns (d: Duplication)
    ensures d.bundles == |sources| && d.total == Total(sources) && d.distinct == Weight(Most(sources))
    ensures d.duplicated == Duplicated(sources)
    ensures IsCommonPrefix(sources, d.commonPrefix)
  {
    var most: map<Line, nat> := map[];
    var total := 0;
    for i := 0 to |sources|
      invariant Tallies(most, Most(sources[..i])) && total == Total(sources[..i])
    {
      OneMoreFile(sources, i);
      var here := Tally(sources[i]);
      most := Merge(most, here, Most(sources[..i]), multiset(Lines(sources[i])));
      total := total + |sources[i]|;
    }
    assert sources[..|sources|] == sources;
    var distinct := Weigh(most, Most(sources));
    var commonPrefix := CommonPrefix(sources);
    d := Duplication(|sources|, total, distinct, if total > distinct then total - distinct else 0, commonPrefix);
  }

  // ---- the shared prefix ----

  /** No character is split: the byte there does not continue one. */
  predicate IsBoundary(s: seq<Byte>, k: nat) {
    k == 0 || k == |s| || (k < |s| && !(128 <= s[k] < 192))
  }

  ghost predicate Agree(sources: seq<seq<Byte>>, k: nat) {
    forall i :: 0 <= i < |sources| ==> k <= |sources[i]| && k <= |sources[0]| && sources[i][..k] == sources[0][..k]
  }

  /** The longest run of whole characters all of them begin with. */
  ghost predicate IsCommonPrefix(sources: seq<seq<Byte>>, k: nat) {
    if sources == [] then k == 0
    else
      && Agree(sources, k) && IsBoundary(sources[0], k)
      && forall j: nat :: j > k && Agree(sources, j) ==> !IsBoundary(sources[0], j)
  }

  method Matching(a: seq<Byte>, b: seq<Byte>, limit: nat) returns (n: nat)
    requires limit <= |a| && limit <= |b|
    ensures n <= limit && a[..n] == b[..n] && (n < limit ==> a[n] != b[n])
  {
    n := 0;
    while n < limit && a[n] == b[n]
      invariant n <= limit && a[..n] == b[..n]
    {
      n := n + 1;
    }
  }

  method CommonPrefix(sources: seq<seq<Byte>>) returns (shared: nat)
    ensures IsCommonPrefix(sources, shared)
  {
    if sources == [] {
      return 0;
    }
    var first := sources[0];
    shared := |first|;
    assert sources[..1] == [first];
    for i := 1 to |sources|
      invariant shared <= |first| && forall j: nat :: Agree(sources[..i], j) <==> j <= shared
    {
      var limit := if shared < |sources[i]| then shared else |sources[i]|;
      var common := Matching(first, sources[i], limit);
      AgreeWithOneMore(sources[..i], sources[i], sources[..i + 1], shared, common);
      shared := common;
    }
    assert sources[..|sources|] == sources;
    ghost var longest := shared;
    while shared > 0 && !IsBoundary(first, shared)
      invariant shared <= longest && forall j: nat :: shared < j <= longest ==> !IsBoundary(first, j)
    {
      shared := shared - 1;
    }
  }

  lemma AgreeWithOneMore(front: seq<seq<Byte>>, s: seq<Byte>, longer: seq<seq<Byte>>, shared: nat, common: nat)
    requires front != [] && longer == front + [s] && common <= shared <= |front[0]| && common <= |s|
    requires forall j: nat :: Agree(front, j) <==> j <= shared
    requires front[0][..common] == s[..common]
    requires common < shared && common < |s| ==> front[0][common] != s[common]
    ensures forall j: nat :: Agree(longer, j) <==> j <= common
  {
    forall j: nat ensures Agree(longer, j) <==> j <= common {
      AgreeIff(front, s, longer, j);
      if common < j && j <= shared && j <= |s| {
        assert s[..j][common] != front[0][..j][common];
      }
      if j <= common {
        assert s[..j] == s[..common][..j] == front[0][..common][..j] == front[0][..j];
      }
    }
  }

  lemma AgreeIff(front: seq<seq<Byte>>, s: seq<Byte>, longer: seq<seq<Byte>>, j: nat)
    requires front != [] && longer == front + [s]
    ensures Agree(longer, j) <==> Agree(front, j) && j <= |s| && s[..j] == front[0][..j]
  {
    assert longer[|front|] == s && longer[0] == front[0];
    assert forall i :: 0 <= i < |front| ==> longer[i] == front[i];
  }

  // ---- the recursion budget ----

  /** A depth the host folds, next to one it refuses or to the bound; found by halving,
      so with at most fourteen questions after the first. */
  method DeepestFold(folds: nat -> bool) returns (deepest: Option<nat>, asked: nat)
    ensures deepest.None? <==> !folds(1)
    ensures deepest.Some? ==> var d := deepest.value;
              1 <= d < 16384 && folds(d) && (d + 1 < 16384 ==> !folds(d + 1))
    ensures asked <= 15
  {
    asked := 1;
    if !folds(1) {
      return None, asked;
    }
    var low, refused := 1, 16384;
    assert Power(2, 14) == 16384;
    while low + 1 < refused
      invariant 1 <= low < refused <= 16384 && folds(low) && (refused < 16384 ==> !folds(refused))
      invariant 1 <= asked <= 15 && refused - low <= Power(2, 15 - asked)
      decreases refused - low
    {
      var middle := low + (refused - low) / 2;
      if folds(middle) {
        low := middle;
      } else {
        refused := middle;
      }
      asked := asked + 1;
    }
    deepest := Some(low);
  }

  /** Where a host folds everything up to its budget, that depth is the budget. */
  lemma BudgetIsFound(folds: nat -> bool, d: nat, n: nat)
    requires forall i: nat, j: nat :: i <= j && folds(j) ==> folds(i)
    requires folds(d) && (d + 1 < 16384 ==> !folds(d + 1)) && n < 16384
    ensures folds(n) <==> n <= d
  {
    var next: nat := d + 1;
    assert n > d ==> next <= n;
  }
}
