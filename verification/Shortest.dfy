/** When a duration is written in the fewest characters that read as it. */
module Shortest {
  import opened Wrappers
  import opened Decimal
  import opened Durations
  import Paths

  lemma {:induction false} DigitsGrow(a: nat, b: nat)
    requires a <= b
    ensures |Digits(a)| <= |Digits(b)|
  {
    if b >= 10 && a >= 10 {
      DigitsGrow(a / 10, b / 10);
    }
  }

  /** Of the ways to write a whole number of a timer's units, none is shorter. */
  lemma WrittenIsShortestWhole(n: nat, q: nat, unit: Unit)
    requires unit.Ms? || unit.S? || unit.M?
    requires n > 0 && ReadDuration(Digits(q) + Suffix(unit)) == Ok(n as real)
    ensures |WrittenMs(n, 0)| <= |Digits(q) + Suffix(unit)|
  {
    ReadsWholeUnit(q, unit, q * PerUnit(unit));
    ShortestWhole(n, q, unit);
  }

  lemma ShortestWhole(n: nat, q: nat, unit: Unit)
    requires unit.Ms? || unit.S? || unit.M?
    requires n > 0 && n == q * PerUnit(unit)
    ensures |WrittenMs(n, 0)| <= |Digits(q)| + |Suffix(unit)|
  {
    if n % 60000 == 0 {
      DigitsGrow(n / 60000, q);
    } else if n % 1000 == 0 {
      DigitsGrow(n / 1000, q);
    }
  }

  /** A shorter form with a decimal point may read as the same number. */
  lemma PointMayBeShorter()
    ensures ReadDuration("1" + "." + "5" + Suffix(S)) == Ok(1500.0)
    ensures |WrittenMs(1500, 0)| > |"1" + "." + "5" + Suffix(S)|
  {
    assert "1" + "5" == "15" && NatOf("15") == 15;
    ReadsPoint("1", "5", 15);
    ReadsInUnit("1" + "." + "5", Value(15, 1), S, "1" + "." + "5" + Suffix(S));
    assert |Digits(1500)| == 4;
  }

  // ---- decimals with zeros put on or taken off ----

  function Shift(n: nat, i: nat): nat {
    if i == 0 then n else 10 * Shift(n, i - 1)
  }

  /** The same number with no trailing zero after the point. */
  function Reduce(n: nat, k: nat): (r: (nat, nat))
    ensures Reduced(r.0, r.1)
  {
    if k > 0 && n % 10 == 0 then Reduce(n / 10, k - 1) else (n, k)
  }

  lemma {:induction false} ValueAdds(a: nat, b: nat, k: nat)
    ensures Value(a + b, k) == Value(a, k) + Value(b, k)
  {
    if k > 0 {
      ValueAdds(a, b, k - 1);
    }
  }

  lemma ValueTimes(n: nat, k: nat)
    ensures Value(3 * n, k) == 3.0 * Value(n, k)
    ensures Value(5 * n, k) == 5.0 * Value(n, k)
    ensures Value(10 * n, k) == 10.0 * Value(n, k)
  {
    ValueAdds(n, n, k);
    ValueAdds(n, 2 * n, k);
    ValueAdds(2 * n, 3 * n, k);
    ValueAdds(5 * n, 5 * n, k);
  }

  lemma {:induction false} ValueIsInjective(a: nat, b: nat, k: nat)
    requires Value(a, k) == Value(b, k)
    ensures a == b
  {
    if k > 0 {
      ValueIsInjective(a, b, k - 1);
    }
  }

  lemma {:induction false} ValueShifts(n: nat, k: nat, i: nat)
    ensures Value(Shift(n, i), k + i) == Value(n, k)
  {
    if i > 0 {
      ValueShifts(n, k, i - 1);
      ValueTimes(Shift(n, i - 1), k + i);
      assert Value(Shift(n, i - 1), k + i) == Value(Shift(n, i - 1), k + i - 1) / 10.0;
    }
  }

  lemma {:induction false} ReduceKeepsValue(n: nat, k: nat)
    ensures Value(Reduce(n, k).0, Reduce(n, k).1) == Value(n, k)
  {
    if k > 0 && n % 10 == 0 {
      ReduceKeepsValue(n / 10, k - 1);
      ValueTimes(n / 10, k);
    }
  }

  /** Equal values are equal numbers once both have the same places. */
  lemma SameValue(a: nat, j: nat, b: nat, k: nat)
    requires Value(a, j) == Value(b, k)
    ensures Shift(a, k) == Shift(b, j)
  {
    ValueShifts(a, j, k);
    ValueShifts(b, k, j);
    ValueIsInjective(Shift(a, k), Shift(b, j), j + k);
  }

  lemma {:induction false} ShiftsCancel(a: nat, k: nat, b: nat, j: nat)
    requires Shift(a, k) == Shift(b, j)
    ensures if j >= k then a == Shift(b, j - k) else Shift(a, k - j) == b
    decreases k
  {
    if j > 0 && k > 0 {
      ShiftsCancel(a, k - 1, b, j - 1);
    }
  }

  /** A reduced decimal has the fewest places of all with its value. */
  lemma ReducedHasFewestPlaces(n: nat, k: nat, a: nat, j: nat)
    requires Reduced(n, k) && Value(a, j) == Value(n, k)
    ensures j >= k && a == Shift(n, j - k)
  {
    SameValue(a, j, n, k);
    ReducedShift(n, k, a, j);
  }

  lemma ReducedShift(n: nat, k: nat, a: nat, j: nat)
    requires Reduced(n, k) && Shift(a, k) == Shift(n, j)
    ensures j >= k && a == Shift(n, j - k)
  {
    ShiftsCancel(a, k, n, j);
    ShiftTrails(a, if k > j then k - j else 0);
  }

  lemma ShiftTrails(a: nat, i: nat)
    ensures i > 0 ==> Shift(a, i) % 10 == 0
  {
    if i > 0 {
      TenTimes(Shift(a, i - 1));
    }
  }

  lemma TenTimes(n: nat)
    ensures 10 * n % 10 == 0
  {
  }

  // ---- the fewest characters of a number ----

  function Larger(a: nat, b: nat): nat {
    if a > b then a else b
  }

  /** All the digits, or all the places, and the point when there are any. */
  function Width(n: nat, k: nat): nat {
    if k == 0 then |Digits(n)| else Larger(|Digits(n)|, k) + 1
  }

  lemma {:induction false} DigitsOfShift(n: nat, i: nat)
    requires n > 0
    ensures Shift(n, i) > 0 && |Digits(Shift(n, i))| == |Digits(n)| + i
  {
    if i > 0 {
      DigitsOfShift(n, i - 1);
      assert Shift(n, i) / 10 == Shift(n, i - 1);
    }
  }

  /** Leading zeros only add digits. */
  lemma {:induction false} NoFewerDigits(s: string)
    requires AllDigits(s) && s != ""
    ensures |Digits(NatOf(s))| <= |s|
  {
    if |s| > 1 {
      var front := s[..|s| - 1];
      NoFewerDigits(front);
      assert NatOf(s) / 10 == NatOf(front);
    } else {
      assert s[..0] == "";
      assert NatOf(s) < 10;
    }
  }

  /** What a text that reads as a number reads as: some digits, some of them after the
      point. */
  lemma NumberIsDecimal(s: string) returns (digits: string, places: nat)
    requires ReadNumber(s).Some?
    ensures AllDigits(digits) && digits != "" && places <= |digits|
    ensures |s| >= |digits| + if places > 0 then 1 else 0
    ensures ReadNumber(s) == Some(Value(NatOf(digits), places))
  {
    match Paths.FindChar(s, '.')
    case None =>
      digits, places := s, 0;
    case Some(point) =>
      digits, places := s[..point] + s[point + 1..], |s| - point - 1;
  }

  lemma NumberIsNoShorter(s: string, n: nat, k: nat)
    requires Reduced(n, k) && ReadNumber(s) == Some(Value(n, k))
    ensures |s| >= Width(n, k)
  {
    var digits, places := NumberIsDecimal(s);
    ReducedHasFewestPlaces(n, k, NatOf(digits), places);
    NoFewerDigits(digits);
    if n > 0 {
      DigitsOfShift(n, places - k);
    }
  }

  /** The digits of `n`, and zeros before them to make `k`. */
  function Filled(n: nat, k: nat): (s: string)
    ensures AllDigits(s) && |s| >= k
    decreases k
  {
    if k == 0 then (if n == 0 then "" else Digits(n)) else Filled(n / 10, k - 1) + [DigitChar(n % 10)]
  }

  lemma {:induction false} FilledReads(n: nat, k: nat)
    ensures NatOf(Filled(n, k)) == n && |Filled(n, k)| == if n == 0 then k else Larger(|Digits(n)|, k)
    decreases k
  {
    if k == 0 {
      NatOfDigits(n);
    } else {
      FilledReads(n / 10, k - 1);
      var s := Filled(n, k);
      assert s[..|s| - 1] == Filled(n / 10, k - 1);
    }
  }

  /** The number with nothing before the point when that is zero. */
  function Tight(n: nat, k: nat): string {
    if k == 0 then Digits(n) else Pointed(Filled(n, k), k)
  }

  lemma TightReads(n: nat, k: nat)
    requires Reduced(n, k)
    ensures ReadNumber(Tight(n, k)) == Some(Value(n, k)) && |Tight(n, k)| == Width(n, k)
    ensures Tight(n, k) != "" && IsDigit(Tight(n, k)[|Tight(n, k)| - 1])
  {
    if k == 0 {
      ReadsWhole(n);
    } else {
      FilledReads(n, k);
      ReadsPointed(Filled(n, k), k, n);
    }
  }

  // ---- the fewest characters of a duration ----

  /** The value in a timer's unit as a reduced decimal, when it is one: a third of a
      minute is not. */
  function CountOf(n: nat, k: nat, unit: Unit): (r: Option<(nat, nat)>)
    ensures r.Some? ==> Reduced(r.value.0, r.value.1)
  {
    match unit
    case Ms => Some(Reduce(n, k))
    case S => Some(Reduce(n, k + 3))
    case M => if n % 3 == 0 then Some(Reduce(n / 3 * 5, k + 5)) else None
    case H | D => None
  }

  lemma CountKeepsValue(n: nat, k: nat, unit: Unit)
    requires CountOf(n, k, unit).Some?
    ensures InUnit(Value(CountOf(n, k, unit).value.0, CountOf(n, k, unit).value.1), unit) == Value(n, k)
  {
    match unit
    case Ms => ReduceKeepsValue(n, k);
    case S =>
      ReduceKeepsValue(n, k + 3);
      ThreePlaces(n, k);
    case M =>
      ReduceKeepsValue(n / 3 * 5, k + 5);
      MinutesKeepValue(n / 3, n, k);
  }

  lemma ThreePlaces(n: nat, k: nat)
    ensures Value(n, k) == 1000.0 * Value(n, k + 3)
  {
    assert Value(n, k + 3) == Value(n, k + 2) / 10.0 && Value(n, k + 2) == Value(n, k + 1) / 10.0;
  }

  lemma MinutesKeepValue(third: nat, n: nat, k: nat)
    requires n == 3 * third
    ensures Value(third * 5, k + 5) * 60000.0 == Value(n, k)
  {
    FivePlaces(third * 5, k);
    ValueTimes(third, k);
    assert third * 5 == 5 * third;
  }

  lemma FivePlaces(n: nat, k: nat)
    ensures Value(n, k) == 100000.0 * Value(n, k + 5)
  {
    assert Value(n, k + 5) == Value(n, k + 4) / 10.0 && Value(n, k + 4) == Value(n, k + 3) / 10.0;
    assert Value(n, k + 3) == Value(n, k + 2) / 10.0 && Value(n, k + 2) == Value(n, k + 1) / 10.0;
  }

  /** Whatever reads as that many milliseconds has the count of its unit before it. */
  lemma CountIsRead(number: string, n: nat, k: nat, unit: Unit)
    requires unit.Ms? || unit.S? || unit.M?
    requires ReadNumber(number).Some? && InUnit(ReadNumber(number).value, unit) == Value(n, k)
    ensures CountOf(n, k, unit).Some?
    ensures
      var count := CountOf(n, k, unit).value;
      ReadNumber(number) == Some(Value(count.0, count.1))
  {
    if unit.M? {
      MinutesAreThirds(number, n, k);
    }
    CountKeepsValue(n, k, unit);
  }

  lemma MinutesAreThirds(number: string, n: nat, k: nat)
    requires ReadNumber(number).Some? && ReadNumber(number).value * 60000.0 == Value(n, k)
    ensures n % 3 == 0
  {
    var digits, places := NumberIsDecimal(number);
    ThirdsOfMinute(NatOf(digits), places, n, k);
  }

  lemma ThirdsOfMinute(a: nat, j: nat, n: nat, k: nat)
    requires Value(a, j) * 60000.0 == Value(n, k)
    ensures n % 3 == 0
  {
    assert Value(3 * a, j) == Value(5 * n, k + 5) by {
      ValueTimes(a, j);
      ValueTimes(n, k + 5);
      FivePlaces(n, k);
    }
    SameValue(3 * a, j, 5 * n, k + 5);
    SameThirds(3 * a, k + 5, 5 * n, j);
    FiveTimesThirds(a, n);
  }

  lemma FiveTimesThirds(a: nat, n: nat)
    requires 3 * a % 3 == 5 * n % 3
    ensures n % 3 == 0
  {
  }

  lemma SameThirds(a: nat, i: nat, b: nat, j: nat)
    requires Shift(a, i) == Shift(b, j)
    ensures a % 3 == b % 3
  {
    ShiftKeepsThirds(a, i);
    ShiftKeepsThirds(b, j);
  }

  lemma {:induction false} ShiftKeepsThirds(n: nat, i: nat)
    ensures Shift(n, i) % 3 == n % 3
  {
    if i > 0 {
      ShiftKeepsThirds(n, i - 1);
    }
  }

  /** The fewest characters a duration takes in a unit. */
  function Fewest(n: nat, k: nat, unit: Unit): nat
    requires CountOf(n, k, unit).Some?
  {
    Width(CountOf(n, k, unit).value.0, CountOf(n, k, unit).value.1) + |Suffix(unit)|
  }

  predicate WithinBounds(n: nat, k: nat) {
    SHORTEST_CLOCK <= Value(n, k) <= LONGEST_CLOCK
  }

  lemma FewestIsReached(n: nat, k: nat, unit: Unit) returns (text: string)
    requires (unit.Ms? || unit.S? || unit.M?) && CountOf(n, k, unit).Some? && WithinBounds(n, k)
    ensures ParseDuration(text) == Ok(Value(n, k)) && |text| == Fewest(n, k, unit)
  {
    var count := CountOf(n, k, unit).value;
    var number := Tight(count.0, count.1);
    text := number + Suffix(unit);
    TightReads(count.0, count.1);
    CountKeepsValue(n, k, unit);
    ReadsInUnit(number, Value(count.0, count.1), unit, text);
  }

  lemma NothingIsFewer(n: nat, k: nat, text: string) returns (unit: Unit)
    requires ParseDuration(text) == Ok(Value(n, k))
    ensures unit.Ms? || unit.S? || unit.M?
    ensures WithinBounds(n, k) && CountOf(n, k, unit).Some? && |text| >= Fewest(n, k, unit)
  {
    unit := FindUnit(text).value;
    var number := text[..|text| - |Suffix(unit)|];
    CountIsRead(number, n, k, unit);
    var count := CountOf(n, k, unit).value;
    NumberIsNoShorter(number, count.0, count.1);
  }

  /** In no unit can it be written in fewer characters: compared in lengths of digits. */
  predicate NoUnitIsShorter(n: nat, k: nat)
    requires Reduced(n, k)
  {
    var length := |WrittenMs(n, k)|;
    && length <= Fewest(n, k, Ms) && length <= Fewest(n, k, S)
    && (n % 3 == 0 ==> length <= Fewest(n, k, M))
  }

  /** A duration is written in the shortest form that a timer reads as it, exactly when
      no timer reads it or none of the three units takes fewer characters. */
  lemma WrittenIsShortestIff(n: nat, k: nat)
    requires Reduced(n, k)
    ensures (forall text :: ParseDuration(text) == Ok(Value(n, k)) ==> |WrittenMs(n, k)| <= |text|)
            <==> (WithinBounds(n, k) ==> NoUnitIsShorter(n, k))
  {
    if NoUnitIsShorter(n, k) || !WithinBounds(n, k) {
      forall text | ParseDuration(text) == Ok(Value(n, k)) ensures |WrittenMs(n, k)| <= |text| {
        var unit := NothingIsFewer(n, k, text);
      }
    } else {
      var ms := FewestIsReached(n, k, Ms);
      var s := FewestIsReached(n, k, S);
      if n % 3 == 0 {
        var m := FewestIsReached(n, k, M);
      }
    }
  }

  /** A decimal number of minutes may be the shortest: `.1667m` for 10002. */
  lemma MinutesMayBeShorter()
    ensures Fewest(10002, 0, M) == 6 && |WrittenMs(10002, 0)| == 7 && !NoUnitIsShorter(10002, 0)
  {
    assert CountOf(10002, 0, M) == Some((1667, 4)) by {
      assert Reduce(16670, 5) == (1667, 4);
    }
    LengthsOfWitness();
  }

  lemma LengthsOfWitness()
    ensures |Digits(1667)| == 4 && |WrittenMs(10002, 0)| == 7
  {
    assert |Digits(10002)| == 5;
  }
}
