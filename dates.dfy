/**
 * The calendar the statistics engine walks over. A calendar day is an
 * integer day number (days since 1970-01-01 in the user's local calendar),
 * an instant is a local timestamp in milliseconds, and the weekday name
 * `toLocaleDateString('en-US', { weekday: 'short' })` yields is a function of
 * the day number. `getSafeDateString` is modelled on the components the
 * JavaScript `Date` getters return.
 */
module Dates {
  import opened Wrappers

  /**
   * The local day holding a timestamp (86 400 000 ms to a day): what
   * `setHours(0, 0, 0, 0)` truncates to.
   */
  function DayOf(ms: int): (d: int)
    ensures StartOfDay(d) <= ms < StartOfDay(d + 1)
  {
    ms / 86_400_000
  }

  /** Local midnight of day `d`. */
  function StartOfDay(d: int): int { d * 86_400_000 }

  /** The last millisecond of day `d`: what `setHours(23, 59, 59, 999)` sets. */
  function EndOfDay(d: int): (ms: int)
    ensures StartOfDay(d) <= ms < StartOfDay(d + 1)
  {
    d * 86_400_000 + 23 * 3_600_000 + 59 * 60_000 + 59 * 1_000 + 999
  }

  /** An instant falling within day `d` belongs to day `d`. */
  lemma DayOfInstant(d: int, offsetMs: int)
    requires 0 <= offsetMs < 86_400_000
    ensures DayOf(StartOfDay(d) + offsetMs) == d
  {
  }

  /** A midnight cursor is at or before the end of `today` exactly when its day is not after `today`. */
  lemma MidnightNotAfterEndOfDay(cursor: int, today: int)
    ensures StartOfDay(cursor) <= EndOfDay(today) <==> cursor <= today
  {
    if cursor > today {
      assert StartOfDay(cursor) >= StartOfDay(today + 1);
    }
  }

  /** Truncating the earlier of two timestamps gives the earlier of their days. */
  lemma DayOfMin(a: int, b: int)
    ensures DayOf(if a < b then a else b) == (if DayOf(a) < DayOf(b) then DayOf(a) else DayOf(b))
  {
  }

  datatype Weekday = Mon | Tue | Wed | Thu | Fri | Sat | Sun

  /** Monday-based index of a weekday. */
  function WeekdayIndex(w: Weekday): (i: nat)
    ensures i < 7
  {
    match w
    case Mon => 0 case Tue => 1 case Wed => 2 case Thu => 3
    case Fri => 4 case Sat => 5 case Sun => 6
  }

  /** The weekday of day number `d`; day 0, 1970-01-01, was a Thursday. */
  function WeekdayOf(d: int): (w: Weekday)
    ensures WeekdayIndex(w) == (d + 3) % 7
  {
    var i := (d + 3) % 7;
    if i == 0 then Mon else if i == 1 then Tue else if i == 2 then Wed
    else if i == 3 then Thu else if i == 4 then Fri else if i == 5 then Sat else Sun
  }

  /** The three-letter English weekday name. */
  function ShortName(w: Weekday): (s: string)
    ensures |s| == 3
  {
    match w
    case Mon => "Mon" case Tue => "Tue" case Wed => "Wed" case Thu => "Thu"
    case Fri => "Fri" case Sat => "Sat" case Sun => "Sun"
  }

  /** Distinct weekdays have distinct names, so testing a name is testing a weekday. */
  lemma ShortNameInjective(v: Weekday, w: Weekday)
    ensures ShortName(v) == ShortName(w) <==> v == w
  {
  }

  /** The weekday repeats every seven days and advances by one each day. */
  lemma WeekdayPeriodic(d: int)
    ensures WeekdayOf(d + 7) == WeekdayOf(d)
    ensures WeekdayIndex(WeekdayOf(d + 1)) == (WeekdayIndex(WeekdayOf(d)) + 1) % 7
  {
  }

  /**
   * The local components of a `Date`: `getFullYear()`, `getMonth()` (0-based)
   * and `getDate()`.
   */
  datatype LocalDate = LocalDate(year: nat, monthIndex: nat, date: nat)

  predicate ValidLocalDate(ld: LocalDate) {
    ld.monthIndex < 12 && 1 <= ld.date <= 31
  }

  function DigitChar(n: nat): char
    requires n < 10
  {
    "0123456789"[n]
  }

  predicate IsDigit(c: char) { '0' <= c <= '9' }

  function DigitValue(c: char): nat
    requires IsDigit(c)
  {
    (c - '0') as nat
  }

  predicate AllDigits(s: string) { forall i :: 0 <= i < |s| ==> IsDigit(s[i]) }

  /** `String(n)` for a natural number: decimal, no leading zeros. */
  function Decimal(n: nat): (s: string)
    ensures |s| > 0
    ensures AllDigits(s)
  {
    if n < 10 then [DigitChar(n)] else Decimal(n / 10) + [DigitChar(n % 10)]
  }

  /** `s.padStart(2, '0')`. */
  function PadStart2(s: string): (r: string)
    decreases 2 - |s|
    ensures |s| >= 2 ==> r == s
    ensures |s| < 2 ==> |r| == 2 && r[2 - |s|..] == s && forall i :: 0 <= i < 2 - |s| ==> r[i] == '0'
  {
    if |s| >= 2 then s else PadStart2(['0'] + s)
  }

  /** getSafeDateString: the local date as `YYYY-MM-DD`. */
  function SafeDateString(ld: LocalDate): string
  {
    Decimal(ld.year) + "-" + PadStart2(Decimal(ld.monthIndex + 1)) + "-" + PadStart2(Decimal(ld.date))
  }

  /** Reads a run of decimal digits. */
  function ParseDecimal(s: string): nat
    requires AllDigits(s)
  {
    if |s| == 0 then 0 else 10 * ParseDecimal(s[..|s| - 1]) + DigitValue(s[|s| - 1])
  }

  /** Reads `YYYY-MM-DD` back into local date components. */
  function ParseDateString(s: string): Option<LocalDate>
  {
    if |s| < 7 then None
    else
      var n := |s|;
      var y, m, d := s[..n - 6], s[n - 5..n - 3], s[n - 2..];
      if s[n - 6] != '-' || s[n - 3] != '-' || !AllDigits(y) || !AllDigits(m) || !AllDigits(d) then None
      else
        var month := ParseDecimal(m);
        if month == 0 then None
        else Some(LocalDate(ParseDecimal(y), month - 1, ParseDecimal(d)))
  }

  lemma {:induction false} ParseDecimalOfDecimal(n: nat)
    ensures ParseDecimal(Decimal(n)) == n
  {
    if n >= 10 {
      var s := Decimal(n);
      assert s[..|s| - 1] == Decimal(n / 10);
      ParseDecimalOfDecimal(n / 10);
    }
  }

  /** Left zero-padding does not change the value read back. */
  lemma {:induction false} ParseDecimalPadded(s: string)
    requires AllDigits(s)
    decreases 2 - |s|
    ensures AllDigits(PadStart2(s)) && ParseDecimal(PadStart2(s)) == ParseDecimal(s)
  {
    if |s| < 2 {
      var t := ['0'] + s;
      ParseDecimalLeadingZero(s);
      ParseDecimalPadded(t);
    }
  }

  lemma {:induction false} ParseDecimalLeadingZero(s: string)
    requires AllDigits(s)
    ensures AllDigits(['0'] + s) && ParseDecimal(['0'] + s) == ParseDecimal(s)
  {
    if |s| > 0 {
      var t := ['0'] + s;
      assert t[..|t| - 1] == ['0'] + s[..|s| - 1];
      ParseDecimalLeadingZero(s[..|s| - 1]);
    }
  }

  /** A day or month number of at most two digits pads to exactly two characters. */
  lemma TwoDigits(n: nat)
    requires n < 100
    ensures |PadStart2(Decimal(n))| == 2
  {
    if n >= 10 {
      assert Decimal(n) == Decimal(n / 10) + [DigitChar(n % 10)];
    }
  }

  /** Cutting a `Y-MM-DD` string at its last two dashes gives back its three parts. */
  lemma SplitDateString(y: string, m: string, d: string, s: string)
    requires |y| > 0 && |m| == 2 && |d| == 2 && s == y + "-" + m + "-" + d
    ensures |s| >= 7 && s[..|s| - 6] == y && s[|s| - 6] == '-' && s[|s| - 5..|s| - 3] == m
    ensures s[|s| - 3] == '-' && s[|s| - 2..] == d
  {
    assert |s| == |y| + 6;
    assert s[..|y|] == y;
    assert s[|y| + 1..|y| + 3] == m;
    assert s[|y| + 4..] == d;
  }

  /** A `Y-MM-DD` string whose parts are digit runs and whose month is not 0 reads as those parts. */
  lemma ParseDateStringOfParts(y: string, m: string, d: string, s: string)
    requires |y| > 0 && |m| == 2 && |d| == 2 && s == y + "-" + m + "-" + d
    requires AllDigits(y) && AllDigits(m) && AllDigits(d) && ParseDecimal(m) > 0
    ensures ParseDateString(s) == Some(LocalDate(ParseDecimal(y), ParseDecimal(m) - 1, ParseDecimal(d)))
  {
    SplitDateString(y, m, d, s);
  }

  /** Formatting then reading back recovers the date: the format loses nothing. */
  lemma SafeDateStringRoundTrip(ld: LocalDate)
    requires ValidLocalDate(ld)
    ensures ParseDateString(SafeDateString(ld)) == Some(ld)
  {
    var y, m, d := Decimal(ld.year), PadStart2(Decimal(ld.monthIndex + 1)), PadStart2(Decimal(ld.date));
    TwoDigits(ld.monthIndex + 1);
    TwoDigits(ld.date);
    ParseDecimalPadded(Decimal(ld.monthIndex + 1));
    ParseDecimalPadded(Decimal(ld.date));
    ParseDecimalOfDecimal(ld.year);
    ParseDecimalOfDecimal(ld.monthIndex + 1);
    ParseDecimalOfDecimal(ld.date);
    ParseDateStringOfParts(y, m, d, SafeDateString(ld));
  }

  /**
   * Two valid dates format to the same string only if they are the same date,
   * so comparing formatted strings (as the day walk does) is comparing dates.
   */
  lemma SafeDateStringInjective(a: LocalDate, b: LocalDate)
    requires ValidLocalDate(a) && ValidLocalDate(b)
    ensures SafeDateString(a) == SafeDateString(b) <==> a == b
  {
    SafeDateStringRoundTrip(a);
    SafeDateStringRoundTrip(b);
  }
}
