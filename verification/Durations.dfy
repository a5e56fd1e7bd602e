/** The duration language of timers and schedules: a number and a unit. Milliseconds
    are exact numbers. */
module Durations {
  import opened Wrappers
  import opened Decimal
  import Paths

  datatype DurationError = NoUnit | NoNumber | TooShort | TooLong | CoarseUnit

  /** `n` with the last `k` of its decimal digits after the point. */
  function Value(n: nat, k: nat): real {
    if k == 0 then n as real else Value(n, k - 1) / 10.0
  }

  predicate Ends(s: string, c: char) {
    s != "" && s[|s| - 1] == c
  }

  /** A plain decimal number: digits with at most one point and at least one digit. */
  function ReadNumber(s: string): Option<real> {
    match Paths.FindChar(s, '.')
    case None => if s != "" && AllDigits(s) then Some(NatOf(s) as real) else None
    case Some(point) =>
      var whole, fraction := s[..point], s[point + 1..];
      if AllDigits(whole) && AllDigits(fraction) && whole + fraction != "" then
        Some(Value(NatOf(whole + fraction), |fraction|))
      else None
  }

  datatype Unit = Ms | S | M | H | D

  function Suffix(u: Unit): (s: string)
    ensures |s| == if u.Ms? then 2 else 1
  {
    match u case Ms => "ms" case S => "s" case M => "m" case H => "h" case D => "d"
  }

  function PerUnit(u: Unit): (ms: nat)
    ensures ms > 0
  {
    match u case Ms => 1 case S => 1000 case M => 60000 case H => 3600000 case D => 86400000
  }

  function InUnit(value: real, unit: Unit): real {
    match unit
    case Ms => value case S => value * 1000.0 case M => value * 60000.0
    case H => value * 3600000.0 case D => value * 86400000.0
  }

  /** The longest suffix first, since `ms` ends in `s`. */
  function FindUnit(s: string): (u: Option<Unit>)
    ensures u.Some? ==> |Suffix(u.value)| <= |s|
  {
    if Ends(s, 's') && Ends(s[..|s| - 1], 'm') then Some(Ms)
    else if Ends(s, 's') then Some(S)
    else if Ends(s, 'm') then Some(M)
    else if Ends(s, 'h') then Some(H)
    else if Ends(s, 'd') then Some(D)
    else None
  }

  function ReadDuration(s: string): Result<real, DurationError> {
    match FindUnit(s)
    case None => Err(NoUnit)
    case Some(unit) =>
      match ReadNumber(s[..|s| - |Suffix(unit)|])
      case None => Err(NoNumber)
      case Some(value) => Ok(InUnit(value, unit))
  }

  const SHORTEST_CLOCK: real := 4.0
  const LONGEST_CLOCK: real := 3600000.0

  function ParseDuration(s: string): Result<real, DurationError> {
    match ReadDuration(s)
    case Err(e) => Err(e)
    case Ok(ms) =>
      if Ends(s, 'h') || Ends(s, 'd') then Err(CoarseUnit)
      else if ms < SHORTEST_CLOCK then Err(TooShort)
      else if ms > LONGEST_CLOCK then Err(TooLong)
      else Ok(ms)
  }

  /** The digits of `n`, at least `k + 1` of them. */
  function Padded(n: nat, k: nat): (s: string)
    ensures AllDigits(s) && |s| > k
    decreases k
  {
    if k == 0 then Digits(n) else Padded(n / 10, k - 1) + [DigitChar(n % 10)]
  }

  /** `n` hundredths, thousandths, or whatever `k` says, with no trailing zero. */
  predicate Reduced(n: nat, k: nat) {
    k == 0 || n % 10 != 0
  }

  /** A point before the last `k` digits. */
  function Pointed(s: string, k: nat): (r: string)
    requires k <= |s|
    ensures |r| == |s| + 1 && (k > 0 ==> r[|r| - 1] == s[|s| - 1])
  {
    s[..|s| - k] + "." + s[|s| - k..]
  }

  function WrittenMs(n: nat, k: nat): string
    requires Reduced(n, k)
  {
    if k == 0 && n >= 60000 && n % 60000 == 0 then Digits(n / 60000) + "m"
    else if k == 0 && n >= 1000 && n % 1000 == 0 then Digits(n / 1000) + "s"
    else if k == 0 then Digits(n) + "ms"
    else Pointed(Padded(n, k), k) + "ms"
  }

  lemma {:induction false} PaddedReads(n: nat, k: nat)
    ensures NatOf(Padded(n, k)) == n
  {
    if k == 0 {
      NatOfDigits(n);
    } else {
      PaddedReads(n / 10, k - 1);
      var s := Padded(n, k);
      assert s[..|s| - 1] == Padded(n / 10, k - 1);
    }
  }

  lemma ReadsWhole(n: nat)
    ensures ReadNumber(Digits(n)) == Some(n as real)
  {
    NatOfDigits(n);
    NoPoint(Digits(n));
  }

  lemma NoPoint(s: string)
    requires AllDigits(s)
    ensures Paths.FindChar(s, '.') == None
  {
  }

  lemma ReadsPoint(whole: string, fraction: string, n: nat)
    requires AllDigits(whole) && AllDigits(fraction) && whole + fraction != "" && n == NatOf(whole + fraction)
    ensures ReadNumber(whole + "." + fraction) == Some(Value(n, |fraction|))
  {
    var text := whole + "." + fraction;
    assert text[..|whole|] == whole && text[|whole| + 1..] == fraction;
    Paths.FindCharIs(text, '.', |whole|);
  }

  lemma DigitsSplit(s: string, k: nat)
    requires k <= |s| && AllDigits(s)
    ensures AllDigits(s[..|s| - k]) && AllDigits(s[|s| - k..]) && s[..|s| - k] + s[|s| - k..] == s
  {
  }

  lemma ReadsPointed(s: string, k: nat, n: nat)
    requires 0 < k <= |s| && AllDigits(s) && NatOf(s) == n
    ensures ReadNumber(Pointed(s, k)) == Some(Value(n, k))
  {
    DigitsSplit(s, k);
    ReadsPoint(s[..|s| - k], s[|s| - k..], n);
  }

  lemma ReadsFraction(n: nat, k: nat)
    requires k > 0
    ensures ReadNumber(Pointed(Padded(n, k), k)) == Some(Value(n, k))
  {
    PaddedReads(n, k);
    ReadsPointed(Padded(n, k), k, n);
  }

  /** A unit after a digit is found, and what stands before it is the number. */
  lemma UnitIsFound(number: string, unit: Unit, text: string)
    requires number != "" && IsDigit(number[|number| - 1]) && text == number + Suffix(unit)
    ensures FindUnit(text) == Some(unit) && text[..|text| - |Suffix(unit)|] == number
    ensures Ends(text, 'h') <==> unit.H?
    ensures Ends(text, 'd') <==> unit.D?
  {
    assert text[|text| - 1] == Suffix(unit)[|Suffix(unit)| - 1];
    assert text[|text| - 2] == if unit.Ms? then 'm' else number[|number| - 1];
  }

  lemma ReadsInUnit(number: string, value: real, unit: Unit, text: string)
    requires number != "" && IsDigit(number[|number| - 1]) && ReadNumber(number) == Some(value)
    requires text == number + Suffix(unit)
    ensures ReadDuration(text) == Ok(InUnit(value, unit))
    ensures Ends(text, 'h') <==> unit.H?
    ensures Ends(text, 'd') <==> unit.D?
  {
    UnitIsFound(number, unit, text);
  }

  lemma InWholeUnits(q: nat, unit: Unit)
    ensures InUnit(q as real, unit) == (q * PerUnit(unit)) as real
  {
  }

  lemma ReadsWholeUnit(q: nat, unit: Unit, n: nat)
    requires n == q * PerUnit(unit)
    ensures
      var text := Digits(q) + Suffix(unit);
      && ReadDuration(text) == Ok(n as real)
      && (Ends(text, 'h') <==> unit.H?) && (Ends(text, 'd') <==> unit.D?)
  {
    ReadsWhole(q);
    InWholeUnits(q, unit);
    ReadsInUnit(Digits(q), q as real, unit, Digits(q) + Suffix(unit));
  }

  /** The five units and what a count of each comes to in milliseconds. */
  lemma UnitsAre(n: nat)
    ensures ReadDuration(Digits(n) + "ms") == Ok(n as real)
    ensures ReadDuration(Digits(n) + "s") == Ok((n * 1000) as real)
    ensures ReadDuration(Digits(n) + "m") == Ok((n * 60000) as real)
    ensures ReadDuration(Digits(n) + "h") == Ok((n * 3600000) as real)
    ensures ReadDuration(Digits(n) + "d") == Ok((n * 86400000) as real)
  {
    ReadsWholeUnit(n, Ms, n);
    ReadsWholeUnit(n, S, n * 1000);
    ReadsWholeUnit(n, M, n * 60000);
    ReadsWholeUnit(n, H, n * 3600000);
    ReadsWholeUnit(n, D, n * 86400000);
  }

  lemma WholeReadsBack(n: nat)
    ensures ReadDuration(WrittenMs(n, 0)) == Ok(n as real)
    ensures !Ends(WrittenMs(n, 0), 'h') && !Ends(WrittenMs(n, 0), 'd')
  {
    if n >= 60000 && n % 60000 == 0 {
      ReadsWholeUnit(n / 60000, M, n);
    } else if n >= 1000 && n % 1000 == 0 {
      ReadsWholeUnit(n / 1000, S, n);
    } else {
      ReadsWholeUnit(n, Ms, n);
    }
  }

  lemma FractionReadsBack(n: nat, k: nat)
    requires k > 0 && Reduced(n, k)
    ensures ReadDuration(WrittenMs(n, k)) == Ok(Value(n, k))
    ensures !Ends(WrittenMs(n, k), 'h') && !Ends(WrittenMs(n, k), 'd')
  {
    ReadsFraction(n, k);
    ReadsInUnit(Pointed(Padded(n, k), k), Value(n, k), Ms, WrittenMs(n, k));
  }

  /** Every finite decimal count of milliseconds, whole or not, is read back from how
      it is written; a timer takes it exactly when it is within the bounds. */
  lemma WrittenReadsBack(n: nat, k: nat)
    requires Reduced(n, k)
    ensures ReadDuration(WrittenMs(n, k)) == Ok(Value(n, k))
    ensures ParseDuration(WrittenMs(n, k)) ==
            if Value(n, k) < SHORTEST_CLOCK then Err(TooShort)
            else if Value(n, k) > LONGEST_CLOCK then Err(TooLong)
            else Ok(Value(n, k))
  {
    if k == 0 {
      WholeReadsBack(n);
    } else {
      FractionReadsBack(n, k);
    }
  }
}
