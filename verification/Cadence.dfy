/** The cadence language: how a schedule is spelled, and what instants a spelling
    stands for. */
module Cadence {
  import opened Wrappers
  import opened Characters
  import opened Decimal
  import opened Durations
  import Paths

  datatype Cadence = Minute(n: nat) | Hour(n: nat) | Day

  datatype CadenceError =
    | NotADuration(error: DurationError)
    | BelowMinute
    | AboveDay
    | Uneven
    | NotCanonical(c: Cadence)

  const ALL: seq<Cadence> := [
    Minute(1), Minute(2), Minute(3), Minute(4), Minute(5), Minute(6), Minute(10), Minute(12), Minute(15),
    Minute(20), Minute(30), Hour(1), Hour(2), Hour(3), Hour(4), Hour(6), Hour(8), Hour(12), Day]

  function FromMs(ms: real): Result<Cadence, CadenceError> {
    if ms < 60000.0 then Err(BelowMinute)
    else if ms > 86400000.0 then Err(AboveDay)
    else
      var minutes := (ms / 60000.0).Floor;
      if minutes as real != ms / 60000.0 then Err(Uneven)
      else if minutes == 1440 then Ok(Day)
      else if minutes % 60 == 0 then
        (if minutes / 60 != 0 && 24 % (minutes / 60) == 0 then Ok(Hour(minutes / 60)) else Err(Uneven))
      else if 60 % minutes == 0 then Ok(Minute(minutes))
      else Err(Uneven)
  }

  function Written(c: Cadence): string {
    match c
    case Minute(n) => Digits(n) + "m"
    case Hour(n) => Digits(n) + "h"
    case Day => "1d"
  }

  function Parse(s: string): Result<Cadence, CadenceError> {
    match ReadDuration(s)
    case Err(e) => Err(NotADuration(e))
    case Ok(ms) =>
      match FromMs(ms)
      case Err(e) => Err(e)
      case Ok(c) => if Written(c) == s then Ok(c) else Err(NotCanonical(c))
  }

  /** The period in minutes. */
  function Period(c: Cadence): nat {
    match c
    case Minute(n) => n
    case Hour(n) => 60 * n
    case Day => 1440
  }

  /** What dividing the unit evenly comes to. */
  predicate Divides(c: Cadence) {
    match c
    case Minute(n) => 0 < n < 60 && 60 % n == 0
    case Hour(n) => 0 < n < 24 && 24 % n == 0
    case Day => true
  }

  lemma ListIsTheDivisors(c: Cadence)
    ensures c in ALL <==> Divides(c)
  {
    match c
    case Minute(n) => MinuteDivisors(n);
    case Hour(n) => HourDivisors(n);
    case Day => assert ALL[18] == Day;
  }

  lemma DivisorsOfSixty(n: nat)
    requires 0 < n < 60 && 60 % n == 0
    ensures n <= 6 || n == 10 || n == 12 || n == 15 || n == 20 || n == 30
  {
  }

  lemma MinuteDivisors(n: nat)
    ensures Minute(n) in ALL <==> 0 < n < 60 && 60 % n == 0
  {
    if 0 < n < 60 && 60 % n == 0 {
      DivisorsOfSixty(n);
    }
  }

  lemma HourDivisors(n: nat)
    ensures Hour(n) in ALL <==> 0 < n < 24 && 24 % n == 0
  {
  }

  lemma FromMsOfMinutes(m: nat)
    ensures
      FromMs((m * 60000) as real) ==
      if m < 1 then Err(BelowMinute) else if m > 1440 then Err(AboveDay)
      else if m == 1440 then Ok(Day)
      else if m % 60 == 0 then if 24 % (m / 60) == 0 then Ok(Hour(m / 60)) else Err(Uneven)
      else if 60 % m == 0 then Ok(Minute(m)) else Err(Uneven)
  {
    assert (m * 60000) as real / 60000.0 == m as real;
  }

  lemma WrittenCadenceReads(c: Cadence)
    ensures ReadDuration(Written(c)) == Ok((Period(c) * 60000) as real)
  {
    match c
    case Minute(n) => WrittenInUnit(c, n, M);
    case Hour(n) => WrittenInUnit(c, n, H);
    case Day =>
      assert Digits(1) == "1";
      WrittenInUnit(c, 1, D);
  }

  lemma WrittenInUnit(c: Cadence, n: nat, unit: Unit)
    requires Written(c) == Digits(n) + Suffix(unit) && Period(c) * 60000 == n * PerUnit(unit)
    ensures ReadDuration(Written(c)) == Ok((Period(c) * 60000) as real)
  {
    ReadsWholeUnit(n, unit, n * PerUnit(unit));
  }

  lemma DividesComesBack(c: Cadence)
    requires Divides(c)
    ensures FromMs((Period(c) * 60000) as real) == Ok(c)
  {
    FromMsOfMinutes(Period(c));
  }

  lemma FromMsDivides(ms: real)
    ensures FromMs(ms).Ok? ==> Divides(FromMs(ms).value) && ms == (Period(FromMs(ms).value) * 60000) as real
  {
  }

  /** One spelling for each listed cadence, and nothing else. */
  lemma ParsesIff(s: string, c: Cadence)
    ensures Parse(s) == Ok(c) <==> c in ALL && s == Written(c)
  {
    ListIsTheDivisors(c);
    if c in ALL {
      WrittenCadenceReads(c);
      DividesComesBack(c);
    }
    if ReadDuration(s).Ok? {
      FromMsDivides(ReadDuration(s).value);
    }
  }

  // ---- instants ----

  datatype Field = Every | Step(n: nat) | At(n: nat)

  predicate Matches(f: Field, v: int) {
    match f
    case Every => true
    case Step(n) => n > 0 && v % n == 0
    case At(n) => v == n
  }

  /** A minute since some UTC midnight, on a day the calendar dates. */
  datatype Date = Date(dayOfMonth: nat, month: nat, weekday: nat)

  predicate Fires(fields: seq<Field>, calendar: int -> Date, t: int) {
    && |fields| == 5
    && Matches(fields[0], t % 60) && Matches(fields[1], t / 60 % 24)
    && Matches(fields[2], calendar(t / 1440).dayOfMonth)
    && Matches(fields[3], calendar(t / 1440).month)
    && Matches(fields[4], calendar(t / 1440).weekday)
  }

  function Cron(c: Cadence): string {
    match c
    case Minute(n) => if n == 1 then "* * * * *" else "*/" + Digits(n) + " * * * *"
    case Hour(n) => if n == 1 then "0 * * * *" else "0 */" + Digits(n) + " * * *"
    case Day => "0 0 * * *"
  }

  function ReadField(s: string): Option<Field> {
    if s == "*" then Some(Every)
    else if Prefixed(s, "*/") then
      (if s[2..] != "" && AllDigits(s[2..]) then Some(Step(NatOf(s[2..]))) else None)
    else if s != "" && AllDigits(s) then Some(At(NatOf(s)))
    else None
  }

  function ReadFields(parts: seq<string>): Option<seq<Field>> {
    if parts == [] then Some([])
    else
      match (ReadField(parts[0]), ReadFields(parts[1..]))
      case (Some(f), Some(rest)) => Some([f] + rest)
      case _ => None
  }

  /** What the scheduler reads in a cron expression. */
  function ReadCron(s: string): Option<seq<Field>> {
    ReadFields(Paths.Split(s, ' '))
  }

  function Fields(c: Cadence): seq<Field> {
    match c
    case Minute(n) => [if n == 1 then Every else Step(n), Every, Every, Every, Every]
    case Hour(n) => [At(0), if n == 1 then Every else Step(n), Every, Every, Every]
    case Day => [At(0), At(0), Every, Every, Every]
  }

  lemma JoinFive(a: string, b: string, c: string, d: string, e: string)
    ensures Paths.Join([a, b, c, d, e], ' ') == a + " " + b + " " + c + " " + d + " " + e
  {
    var j3, j2, j1 := d + [' '] + e, c + [' '] + (d + [' '] + e), b + [' '] + (c + [' '] + (d + [' '] + e));
    assert Paths.Join([d, e], ' ') == j3 by { assert [d, e][1..] == [e]; }
    assert Paths.Join([c, d, e], ' ') == j2 by { assert [c, d, e][1..] == [d, e]; }
    assert Paths.Join([b, c, d, e], ' ') == j1 by { assert [b, c, d, e][1..] == [c, d, e]; }
    assert [a, b, c, d, e][1..] == [b, c, d, e];
    assert a + [' '] + j1 == a + " " + b + " " + c + " " + d + " " + e;
  }

  lemma {:induction false} ReadFieldsAre(parts: seq<string>, fields: seq<Field>)
    requires |parts| == |fields| && forall i :: 0 <= i < |parts| ==> ReadField(parts[i]) == Some(fields[i])
    ensures ReadFields(parts) == Some(fields)
  {
    if parts != [] {
      ReadFieldsAre(parts[1..], fields[1..]);
      assert fields == [fields[0]] + fields[1..];
    }
  }

  /** Five parts without a space between them are read field by field. */
  lemma ReadsFive(parts: seq<string>, fields: seq<Field>, s: string)
    requires |parts| == |fields| == 5
    requires forall i :: 0 <= i < 5 ==> ' ' !in parts[i] && ReadField(parts[i]) == Some(fields[i])
    requires s == parts[0] + " " + parts[1] + " " + parts[2] + " " + parts[3] + " " + parts[4]
    ensures ReadCron(s) == Some(fields)
  {
    JoinFive(parts[0], parts[1], parts[2], parts[3], parts[4]);
    assert parts == [parts[0], parts[1], parts[2], parts[3], parts[4]];
    Paths.SplitJoin(parts, ' ');
    ReadFieldsAre(parts, fields);
  }

  lemma ReadsStep(n: nat)
    ensures ReadField("*/" + Digits(n)) == Some(Step(n)) && ' ' !in "*/" + Digits(n)
  {
    var s := "*/" + Digits(n);
    assert s[..2] == "*/" && s[2..] == Digits(n);
    NatOfDigits(n);
  }

  lemma ReadsStarAndZero()
    ensures ReadField("*") == Some(Every) && ReadField("0") == Some(At(0)) && ' ' !in "*" && ' ' !in "0"
  {
    assert "0" != "*" by { assert "0"[0] != "*"[0]; }
    assert NatOf("0") == 0 by { assert "0"[..0] == ""; }
  }

  function StepText(n: nat): string {
    if n == 1 then "*" else "*/" + Digits(n)
  }

  lemma ReadsStepText(n: nat)
    ensures ReadField(StepText(n)) == Some(if n == 1 then Every else Step(n)) && ' ' !in StepText(n)
  {
    ReadsStarAndZero();
    ReadsStep(n);
  }

  lemma Appended(a: string, x: string, y: string, both: string)
    requires both == x + y
    ensures a + x + y == a + both
  {
  }

  /** One more field, which is a star. */
  lemma OneMoreStar(a: string, stars: string, more: string)
    requires more == stars + " *"
    ensures a + stars + " " + "*" == a + more
  {
    Appended(a, stars, " ", stars + " ");
    Appended(a, stars + " ", "*", more);
  }

  lemma ThreeStars(a: string)
    ensures a + " " + "*" + " " + "*" + " " + "*" == a + " * * *"
  {
    Appended(a, " ", "*", " *");
    OneMoreStar(a, " *", " * *");
    OneMoreStar(a, " * *", " * * *");
  }

  lemma CronText(c: Cadence)
    ensures
      Cron(c) == match c
                 case Minute(n) => StepText(n) + " " + "*" + " " + "*" + " " + "*" + " " + "*"
                 case Hour(n) => "0" + " " + StepText(n) + " " + "*" + " " + "*" + " " + "*"
                 case Day => "0" + " " + "0" + " " + "*" + " " + "*" + " " + "*"
  {
    match c
    case Minute(n) =>
      ThreeStars(StepText(n));
      OneMoreStar(StepText(n), " * * *", " * * * *");
    case Hour(n) =>
      ThreeStars("0" + " " + StepText(n));
      assert "0" + " " + StepText(n) == if n == 1 then "0 *" else "0 */" + Digits(n);
    case Day =>
      ThreeStars("0" + " " + "0");
  }

  /** The text of a cadence's cron expression stands for these fields. */
  lemma CronReads(c: Cadence)
    ensures ReadCron(Cron(c)) == Some(Fields(c))
  {
    ReadsStarAndZero();
    CronText(c);
    match c
    case Minute(n) =>
      ReadsStepText(n);
      ReadsFive([StepText(n), "*", "*", "*", "*"], Fields(c), Cron(c));
    case Hour(n) =>
      ReadsStepText(n);
      ReadsFive(["0", StepText(n), "*", "*", "*"], Fields(c), Cron(c));
    case Day =>
      ReadsFive(["0", "0", "*", "*", "*"], Fields(c), Cron(c));
  }

  lemma ModOfMod(t: int, whole: int, n: int)
    requires n > 0 && whole > 0 && whole % n == 0
    ensures t % whole % n == t % n
  {
    var k, q := whole / n, t / whole;
    assert t == n * (k * q) + t % whole;
    ShiftMod(t % whole, n, k * q);
  }

  lemma ShiftMod(r: int, n: int, k: int)
    requires n > 0
    ensures (n * k + r) % n == r % n
  {
    Unique(n, k + r / n, r % n, n * k + r);
  }

  lemma Grows(n: int, d: int)
    requires n > 0
    ensures (d > 0 ==> n * d >= n) && (d < 0 ==> n * d <= -n)
  {
  }

  lemma Unique(n: int, q: int, r: int, x: int)
    requires n > 0 && 0 <= r < n && x == n * q + r
    ensures x / n == q && x % n == r
  {
    var d := x / n - q;
    assert n * d == r - x % n;
    Grows(n, d);
  }

  lemma WholeHours(t: int, n: nat)
    requires n > 0
    ensures t % (60 * n) == 0 <==> t % 60 == 0 && t / 60 % n == 0
  {
    var q := t / 60;
    var k, r := q / n, q % n;
    assert t == 60 * n * k + (60 * r + t % 60) by {
      assert 60 * (n * k) == 60 * n * k;
    }
    Unique(60 * n, k, 60 * r + t % 60, t);
  }

  lemma FieldsFireOnPeriod(c: Cadence, calendar: int -> Date, t: int)
    requires Divides(c)
    ensures Fires(Fields(c), calendar, t) <==> t % Period(c) == 0
  {
    match c
    case Minute(n) => ModOfMod(t, 60, n);
    case Hour(n) =>
      WholeHours(t, n);
      ModOfMod(t / 60, 24, n);
    case Day => WholeHours(t, 24);
  }

  /** The expression printed for a cadence fires at exactly the multiples of its
      period, on every day of every calendar. */
  lemma CronFiresOnPeriod(c: Cadence, calendar: int -> Date, t: int)
    requires c in ALL
    ensures ReadCron(Cron(c)).Some? && (Fires(ReadCron(Cron(c)).value, calendar, t) <==> t % Period(c) == 0)
  {
    CronReads(c);
    ListIsTheDivisors(c);
    FieldsFireOnPeriod(c, calendar, t);
  }

  // ---- rates ----

  function RateOf(count: nat, unit: string): string {
    if count == 1 then "rate(1 " + unit + ")" else "rate(" + Digits(count) + " " + unit + "s)"
  }

  function Rate(c: Cadence): string {
    match c
    case Minute(n) => RateOf(n, "minute")
    case Hour(n) => RateOf(n, "hour")
    case Day => RateOf(1, "day")
  }

  function UnitMinutes(unit: string): Option<nat> {
    if unit == "minute" then Some(1)
    else if unit == "hour" then Some(60)
    else if unit == "day" then Some(1440)
    else None
  }

  function CountMinutes(count: nat, unit: string): Option<nat> {
    match UnitMinutes(unit) case None => None case Some(m) => Some(count * m)
  }

  /** A count and a unit, which has its plural after every count but one. */
  function ReadPhrase(phrase: string): Option<nat> {
    match Paths.FindChar(phrase, ' ')
    case None => None
    case Some(k) =>
      var number, unit := phrase[..k], phrase[k + 1..];
      if number == "" || !AllDigits(number) then None
      else if NatOf(number) == 1 then CountMinutes(1, unit)
      else if Ends(unit, 's') then CountMinutes(NatOf(number), unit[..|unit| - 1])
      else None
  }

  /** What the scheduler reads in a rate. */
  function ReadRate(s: string): Option<nat> {
    if Prefixed(s, "rate(") && |s| > 5 && Ends(s, ')') then ReadPhrase(s[5..|s| - 1]) else None
  }

  lemma ReadsPhrase(count: nat, unit: string)
    ensures ReadPhrase(Digits(count) + " " + (unit + if count == 1 then "" else "s")) == CountMinutes(count, unit)
  {
    var number, named := Digits(count), unit + if count == 1 then "" else "s";
    var phrase := number + " " + named;
    assert phrase[..|number|] == number && phrase[|number| + 1..] == named;
    Paths.FindCharIs(phrase, ' ', |number|);
    NatOfDigits(count);
    if count == 1 {
      assert named == unit;
    } else {
      assert named[..|named| - 1] == unit;
    }
  }

  lemma ReadsFramed(phrase: string, s: string)
    requires s == "rate(" + phrase + ")"
    ensures ReadRate(s) == ReadPhrase(phrase)
  {
    assert s[..5] == "rate(" && s[5..|s| - 1] == phrase;
  }

  lemma RateIsFramed(count: nat, unit: string)
    ensures RateOf(count, unit) == "rate(" + (Digits(count) + " " + (unit + if count == 1 then "" else "s")) + ")"
  {
    if count == 1 {
      assert Digits(1) == "1";
    }
  }

  lemma ReadsRate(count: nat, unit: string)
    ensures ReadRate(RateOf(count, unit)) == CountMinutes(count, unit)
  {
    RateIsFramed(count, unit);
    ReadsFramed(Digits(count) + " " + (unit + if count == 1 then "" else "s"), RateOf(count, unit));
    ReadsPhrase(count, unit);
  }

  /** The rate expression stands for the same period. */
  lemma RateIsPeriod(c: Cadence)
    ensures ReadRate(Rate(c)) == Some(Period(c))
  {
    match c
    case Minute(n) => ReadsRate(n, "minute");
    case Hour(n) => ReadsRate(n, "hour");
    case Day => ReadsRate(1, "day");
  }

  /** What a scheduler is given, written out. */
  lemma ScheduleTexts(n: nat, digits: string)
    requires n > 1 && digits == Digits(n)
    ensures Cron(Minute(1)) == "* * * * *" && Cron(Hour(1)) == "0 * * * *" && Cron(Day) == "0 0 * * *"
    ensures Cron(Minute(n)) == "*/" + digits + " * * * *" && Cron(Hour(n)) == "0 */" + digits + " * * *"
    ensures Written(Minute(n)) == digits + "m" && Written(Hour(n)) == digits + "h" && Written(Day) == "1d"
    ensures Rate(Minute(n)) == "rate(" + digits + " minutes)" && Rate(Hour(n)) == "rate(" + digits + " hours)"
    ensures Rate(Minute(1)) == "rate(1 minute)" && Rate(Hour(1)) == "rate(1 hour)" && Rate(Day) == "rate(1 day)"
  {
    assert " " + "minute" + "s)" == " minutes)" && " " + "hour" + "s)" == " hours)";
    PluralRate(n, digits, "minute");
    PluralRate(n, digits, "hour");
  }

  lemma PluralRate(n: nat, digits: string, unit: string)
    requires n > 1 && digits == Digits(n)
    ensures RateOf(n, unit) == "rate(" + digits + (" " + unit + "s)")
  {
  }

  // ---- firings in a day ----

  function PerDay(c: Cadence): nat
    requires Divides(c)
  {
    match c case Minute(n) => 1440 / n case Hour(n) => 24 / n case Day => 1
  }

  /** The minutes from `a` on, `n` of them, at which the expression fires. */
  ghost function Firings(fields: seq<Field>, calendar: int -> Date, a: int, n: nat): nat {
    if n == 0 then 0
    else Firings(fields, calendar, a, n - 1) + if Fires(fields, calendar, a + n - 1) then 1 else 0
  }

  function Multiples(p: nat, a: int, n: nat): nat
    requires p > 0
  {
    if n == 0 then 0 else Multiples(p, a, n - 1) + if (a + n - 1) % p == 0 then 1 else 0
  }

  lemma {:induction false} FiringsAreMultiples(c: Cadence, calendar: int -> Date, a: int, n: nat)
    requires Divides(c)
    ensures Firings(Fields(c), calendar, a, n) == Multiples(Period(c), a, n)
  {
    if n > 0 {
      FieldsFireOnPeriod(c, calendar, a + n - 1);
      FiringsAreMultiples(c, calendar, a, n - 1);
    }
  }

  /** Below the first multiple there is none; up to the next, there is one. */
  lemma {:induction false} MultiplesInPeriod(p: nat, a: int, n: nat)
    requires 0 < n <= p
    ensures Multiples(p, a, n) == if a % p == 0 || a % p + n > p then 1 else 0
  {
    var q, r := a / p, a % p;
    if r + n - 1 < p {
      Unique(p, q, r + n - 1, a + n - 1);
    } else {
      assert a + n - 1 == p * (q + 1) + (r + n - 1 - p);
      Unique(p, q + 1, r + n - 1 - p, a + n - 1);
    }
    if n > 1 {
      MultiplesInPeriod(p, a, n - 1);
    } else {
      assert Multiples(p, a, 0) == 0;
    }
  }

  lemma {:induction false} MultiplesSplit(p: nat, a: int, n: nat, m: nat)
    requires p > 0
    ensures Multiples(p, a, n + m) == Multiples(p, a, n) + Multiples(p, a + n, m)
  {
    if m > 0 {
      MultiplesSplit(p, a, n, m - 1);
      assert a + (n + m) - 1 == a + n + m - 1;
    }
  }

  lemma OneLess(p: int, k: int)
    ensures p * (k - 1) == p * k - p
  {
  }

  lemma {:induction false} MultiplesInPeriods(p: nat, a: int, k: nat, n: nat)
    requires p > 0 && n == p * k
    ensures Multiples(p, a, n) == k
    decreases k
  {
    if k > 0 {
      OneLess(p, k);
      MultiplesSplit(p, a, p, n - p);
      MultiplesInPeriod(p, a, p);
      MultiplesInPeriods(p, a + p, k - 1, n - p);
    }
  }

  /** Every window of a day, wherever it starts, has exactly that many firings. */
  lemma EveryDayHasPerDay(c: Cadence, calendar: int -> Date, a: int)
    requires c in ALL
    ensures Divides(c) && ReadCron(Cron(c)).Some?
    ensures Firings(ReadCron(Cron(c)).value, calendar, a, 1440) == PerDay(c)
  {
    CronReads(c);
    ListIsTheDivisors(c);
    FiringsAreMultiples(c, calendar, a, 1440);
    PeriodsInDay(c);
    MultiplesInPeriods(Period(c), a, PerDay(c), 1440);
  }

  lemma PeriodsInDay(c: Cadence)
    requires Divides(c)
    ensures Period(c) * PerDay(c) == 1440
  {
    match c
    case Minute(n) =>
      var q := 60 / n;
      assert n * (24 * q) == 24 * (n * q) == 1440;
      Unique(n, 24 * q, 0, 1440);
    case Hour(n) =>
      var q := 24 / n;
      assert n * q == 24;
      assert 60 * n * q == 60 * (n * q);
    case Day =>
  }

  // ---- no expression describes the others ----

  /** Minutes since the midnight that days are counted from. */
  function Instant(day: int, hour: int, minute: int): int {
    1440 * day + 60 * hour + minute
  }

  /** Any cron expression fires at certain minutes of certain hours of certain days;
      this one does at the instants `at` says. */
  ghost predicate Describes(minutes: int -> bool, hours: int -> bool, days: int -> bool, at: int -> bool) {
    forall day, hour, minute {:trigger Instant(day, hour, minute)} | 0 <= hour < 24 && 0 <= minute < 60 ::
      minutes(minute) && hours(hour) && days(day) <==> at(Instant(day, hour, minute))
  }

  function EveryMinutes(m: nat): int -> bool
    requires m > 0
  {
    t => t % m == 0
  }

  lemma NextMultiple(m: nat, a: nat) returns (x: nat)
    requires m > 0
    ensures a <= x < a + m && x % m == 0
  {
    var q := (a + m - 1) / m;
    x := m * q;
    assert a + m - 1 == m * q + (a + m - 1) % m;
    Unique(m, q, 0, x);
  }

  /** If `x` and `x - k` are multiples of `m`, so is `k`. */
  lemma SubtractMod(m: nat, x: nat, k: nat)
    requires m > 0 && x >= k && x % m == 0 && (x - k) % m == 0
    ensures k % m == 0
  {
    var p, q := x / m, (x - k) / m;
    assert k == m * p - m * q == m * (p - q);
    Unique(m, p - q, 0, k);
  }

  lemma SmallMod(r: nat, m: nat)
    requires r < m
    ensures r % m == r && m % m == 0 && 0 % m == 0
  {
  }

  /** Two instants that fire make a third: the minute of one in the hour and on the
      day of the other. */
  lemma Cross(minutes: int -> bool, hours: int -> bool, days: int -> bool, at: int -> bool,
              day: int, hour: int, minute: int, otherDay: int, otherHour: int, otherMinute: int)
    requires Describes(minutes, hours, days, at)
    requires 0 <= hour < 24 && 0 <= otherHour < 24 && 0 <= minute < 60 && 0 <= otherMinute < 60
    requires at(Instant(day, hour, minute)) && at(Instant(otherDay, otherHour, otherMinute))
    ensures at(Instant(otherDay, hour, minute))
    ensures at(Instant(day, otherHour, minute))
  {
  }

  lemma Parts(day: int, t: int) returns (hour: int, minute: int)
    requires 1440 * day <= t < 1440 * (day + 1)
    ensures 0 <= hour < 24 && 0 <= minute < 60 && Instant(day, hour, minute) == t
  {
    hour, minute := (t - 1440 * day) / 60, (t - 1440 * day) % 60;
  }

  lemma Midnight(day: int, minute: int)
    ensures Instant(day, 0, minute) == 1440 * day + minute
  {
  }

  lemma NextMidnight(minutes: int -> bool, hours: int -> bool, days: int -> bool, at: int -> bool, x: int)
    requires Describes(minutes, hours, days, at) && at(0) && 1440 <= x < 2880 && at(x)
    ensures at(1440)
  {
    var hour, minute := Parts(1, x);
    Midnight(0, 0);
    Midnight(1, 0);
    Cross(minutes, hours, days, at, 0, 0, 0, 1, hour, minute);
  }

  lemma FirstHour(minutes: int -> bool, hours: int -> bool, days: int -> bool, at: int -> bool,
                  t: int, hour: int, minute: int)
    requires Describes(minutes, hours, days, at) && at(0) && at(t) && 0 <= hour < 24 && 0 <= minute < 60
    requires t == Instant(0, hour, minute)
    ensures at(minute)
  {
    Midnight(0, 0);
    Midnight(0, minute);
    Cross(minutes, hours, days, at, 0, hour, minute, 0, 0, 0);
  }

  /** The day divides: midnight fires, and so does some minute of the next day. */
  lemma DividesDay(minutes: int -> bool, hours: int -> bool, days: int -> bool, m: nat)
    requires 0 < m <= 1440 && Describes(minutes, hours, days, EveryMinutes(m))
    ensures 1440 % m == 0
  {
    SmallMod(0, m);
    var x := NextMultiple(m, 1440);
    NextMidnight(minutes, hours, days, EveryMinutes(m), x);
  }

  /** A step inside the hour divides it: the second hour starts as the first. */
  lemma DividesHour(minutes: int -> bool, hours: int -> bool, days: int -> bool, m: nat)
    requires 0 < m < 60 && Describes(minutes, hours, days, EveryMinutes(m))
    ensures 60 % m == 0
  {
    SmallMod(0, m);
    var x := NextMultiple(m, 60);
    FirstHour(minutes, hours, days, EveryMinutes(m), x, 1, x - 60);
    SubtractMod(m, x, 60);
  }

  /** A longer step is whole hours: its minute would fire in the first hour too. */
  lemma WholeHoursOnly(minutes: int -> bool, hours: int -> bool, days: int -> bool, m: nat)
    requires 60 <= m < 1440 && Describes(minutes, hours, days, EveryMinutes(m))
    ensures m % 60 == 0
  {
    var hour, minute := Parts(0, m);
    SmallMod(minute, m);
    FirstHour(minutes, hours, days, EveryMinutes(m), m, hour, minute);
    assert m == 60 * hour;
  }

  lemma HoursDivideDay(m: nat)
    requires 0 < m < 1440 && m % 60 == 0 && 1440 % m == 0
    ensures 24 % (m / 60) == 0
  {
    var h, q := m / 60, 1440 / m;
    assert m * q == 1440;
    assert 60 * (h * q) == 60 * h * q;
    Unique(h, q, 0, 24);
  }

  lemma FieldsDescribe(c: Cadence)
    requires Divides(c)
    ensures Describes(v => Matches(Fields(c)[0], v), v => Matches(Fields(c)[1], v), v => true, EveryMinutes(Period(c)))
  {
    var minutes, hours, days := v => Matches(Fields(c)[0], v), v => Matches(Fields(c)[1], v), (v: int) => true;
    forall day, hour, minute | 0 <= hour < 24 && 0 <= minute < 60
      ensures minutes(minute) && hours(hour) && days(day) <==> EveryMinutes(Period(c))(Instant(day, hour, minute))
    {
      FieldsAtInstant(c, day, hour, minute);
    }
  }

  lemma InstantParts(day: int, hour: int, minute: int)
    requires 0 <= hour < 24 && 0 <= minute < 60
    ensures var t := Instant(day, hour, minute); t % 60 == minute && t / 60 % 24 == hour
  {
  }

  lemma FieldsAtInstant(c: Cadence, day: int, hour: int, minute: int)
    requires Divides(c) && 0 <= hour < 24 && 0 <= minute < 60
    ensures Matches(Fields(c)[0], minute) && Matches(Fields(c)[1], hour)
            <==> Instant(day, hour, minute) % Period(c) == 0
  {
    InstantParts(day, hour, minute);
    FieldsFireOnPeriod(c, _ => Date(1, 1, 0), Instant(day, hour, minute));
  }

  /** A whole number of minutes within a day is refused as uneven exactly when no
      cron expression at all fires at its multiples. */
  lemma UnevenIffNoCron(m: nat)
    requires 0 < m <= 1440
    ensures FromMs((m * 60000) as real) == Err(Uneven)
            <==> !exists minutes, hours, days :: Describes(minutes, hours, days, EveryMinutes(m))
  {
    FromMsOfMinutes(m);
    FromMsDivides((m * 60000) as real);
    if FromMs((m * 60000) as real).Ok? {
      FieldsDescribe(FromMs((m * 60000) as real).value);
    }
    forall minutes, hours, days | Describes(minutes, hours, days, EveryMinutes(m))
      ensures FromMs((m * 60000) as real) != Err(Uneven)
    {
      DividesDay(minutes, hours, days, m);
      if m < 60 {
        DividesHour(minutes, hours, days, m);
      } else if m < 1440 {
        WholeHoursOnly(minutes, hours, days, m);
        HoursDivideDay(m);
      }
    }
  }
}
