/**
 * `Instant.kt` (common extensions): Brazilian date formatting and date-only comparisons.
 * The conversion of an instant to a local date-time in a time zone is an input here: every
 * operation takes the `LocalDateTime` that `toLocalDateTime(timeZone)` would give.
 */
module Instants {
  import opened Text

  /** The fields of a local date-time that the formatting and comparisons read. */
  datatype LocalDateTime = LocalDateTime(year: int, month: nat, day: nat, hour: nat, minute: nat, second: nat)

  /** `LocalDateTime.date`. */
  datatype LocalDate = LocalDate(year: int, month: nat, day: nat)

  /** The ranges a calendar date-time keeps its fields in. */
  predicate Valid(t: LocalDateTime) {
    1 <= t.month <= 12 && 1 <= t.day <= 31 && t.hour < 24 && t.minute < 60 && t.second < 60
  }

  function DateOf(t: LocalDateTime): LocalDate {
    LocalDate(t.year, t.month, t.day)
  }

  /** `toString().padStart(2, '0')` of a field. */
  function Pad2(n: nat): (s: string)
    ensures n < 10 ==> s == "0" + NatToString(n)
    ensures n >= 10 ==> s == NatToString(n)
    ensures n < 100 ==> |s| == 2
  {
    PadTwoDigits(n);
    PadStart(NatToString(n), 2, '0')
  }

  /** A padded field below 100 is two digits that read back as the field. */
  lemma Pad2ReadsBack(n: nat)
    requires n < 100
    ensures |Pad2(n)| == 2 && AllDigits(Pad2(n)) && ParseDigits(Pad2(n)) == n
  {
    NatToStringRoundTrip(n);
    var s := Pad2(n);
    if n < 10 {
      assert s[..1] == "0";
      assert ParseDigits(s[..1]) == 0 by {
        assert s[..1][..0] == [];
      }
    }
  }

  /** `toBrazilianDateString`: `dd/MM/yyyy`, with the year as `Int.toString` writes it. */
  function BrazilianDateString(t: LocalDateTime): (s: string)
    ensures Valid(t) ==> |s| == 6 + |IntToString(t.year)| && s[2] == '/' && s[5] == '/'
  {
    Joined(Pad2(t.day), Pad2(t.month), IntToString(t.year), "/");
    Pad2(t.day) + "/" + Pad2(t.month) + "/" + IntToString(t.year)
  }

  /**
   * `toBrazilianDateTimeString`: `dd/MM/yyyy - HH:mm:ss`. For one instant and zone it begins
   * with the date string, followed by eleven characters of time.
   */
  function BrazilianDateTimeString(t: LocalDateTime): (s: string)
    ensures IsPrefix(BrazilianDateString(t), s)
    ensures Valid(t) ==> |s| == |BrazilianDateString(t)| + 11
  {
    var d := BrazilianDateString(t);
    assert (d + TimeSuffix(t))[..|d|] == d;
    d + TimeSuffix(t)
  }

  /** The ` - HH:mm:ss` part of the date-time string. */
  function TimeSuffix(t: LocalDateTime): string {
    " - " + TimeOfDay(t)
  }

  /** `HH:mm:ss`. */
  function TimeOfDay(t: LocalDateTime): string {
    Pad2(t.hour) + ":" + Pad2(t.minute) + ":" + Pad2(t.second)
  }

  /** Where the three parts of `a + sep + b + sep + c` sit. */
  lemma Joined(a: string, b: string, c: string, sep: string)
    ensures var s := a + sep + b + sep + c;
      && |s| == |a| + |b| + |c| + 2 * |sep|
      && s[..|a|] == a && s[|a|..|a| + |sep|] == sep
      && s[|a| + |sep|..|a| + |sep| + |b|] == b
      && s[|a| + |sep| + |b|..|a| + 2 * |sep| + |b|] == sep
      && s[|a| + 2 * |sep| + |b|..] == c
  {
  }

  /** The date string of a valid date-time has its two-digit day and month at fixed places. */
  lemma DateStringLayout(t: LocalDateTime)
    requires Valid(t)
    ensures var s := BrazilianDateString(t);
      && |s| >= 7 && s[2] == '/' && s[5] == '/'
      && s[..2] == Pad2(t.day) && s[3..5] == Pad2(t.month)
      && s[6..] == IntToString(t.year)
  {
    var day, month, year := Pad2(t.day), Pad2(t.month), IntToString(t.year);
    Joined(day, month, year, "/");
    assert |day| == 2 && |month| == 2;
  }

  /** The day, month and year read back from the date string. */
  lemma DateStringReadsBack(t: LocalDateTime)
    requires Valid(t)
    ensures var s := BrazilianDateString(t);
      && |s| >= 7 && s[2] == '/' && s[5] == '/'
      && AllDigits(s[..2]) && ParseDigits(s[..2]) == t.day
      && AllDigits(s[3..5]) && ParseDigits(s[3..5]) == t.month
      && s[6..] == IntToString(t.year)
      && (t.year >= 0 ==> AllDigits(s[6..]) && ParseDigits(s[6..]) == t.year)
  {
    DateStringLayout(t);
    Pad2ReadsBack(t.day);
    Pad2ReadsBack(t.month);
  }

  /** A valid time suffix is ` - HH:mm:ss`, each field padded to two places. */
  lemma TimeSuffixLayout(t: LocalDateTime)
    requires Valid(t)
    ensures var s := TimeSuffix(t);
      && |s| == 11 && s[..3] == " - " && s[5] == ':' && s[8] == ':'
      && s[3..5] == Pad2(t.hour) && s[6..8] == Pad2(t.minute) && s[9..] == Pad2(t.second)
  {
    Joined(Pad2(t.hour), Pad2(t.minute), Pad2(t.second), ":");
    var time := TimeOfDay(t);
    var s := TimeSuffix(t);
    assert s[3..] == time;
    assert s[3..5] == time[..2];
    assert s[6..8] == time[3..5];
    assert s[9..] == time[6..];
  }

  /** After the date, a valid date-time string holds ` - HH:mm:ss`, each field padded to two places. */
  lemma DateTimeLayout(t: LocalDateTime)
    requires Valid(t)
    ensures var s := BrazilianDateTimeString(t)[|BrazilianDateString(t)|..];
      && |s| == 11 && s[..3] == " - " && s[5] == ':' && s[8] == ':'
      && s[3..5] == Pad2(t.hour) && s[6..8] == Pad2(t.minute) && s[9..] == Pad2(t.second)
  {
    var d := BrazilianDateString(t);
    assert BrazilianDateTimeString(t)[|d|..] == TimeSuffix(t);
    TimeSuffixLayout(t);
  }

  /** The hour, minute and second read back from the date-time string. */
  lemma DateTimeReadsBack(t: LocalDateTime)
    requires Valid(t)
    ensures var s := BrazilianDateTimeString(t)[|BrazilianDateString(t)|..];
      && |s| == 11
      && AllDigits(s[3..5]) && ParseDigits(s[3..5]) == t.hour
      && AllDigits(s[6..8]) && ParseDigits(s[6..8]) == t.minute
      && AllDigits(s[9..]) && ParseDigits(s[9..]) == t.second
  {
    DateTimeLayout(t);
    Pad2ReadsBack(t.hour);
    Pad2ReadsBack(t.minute);
    Pad2ReadsBack(t.second);
  }

  /** The ordering of `LocalDate`: by year, then month, then day. */
  predicate DateBefore(a: LocalDate, b: LocalDate) {
    a.year < b.year
    || (a.year == b.year && a.month < b.month)
    || (a.year == b.year && a.month == b.month && a.day < b.day)
  }

  /**
   * A date's position on the calendar axis: twelve months of 31 days per year. An independent
   * numbering against which the field-by-field comparisons are checked.
   */
  function DayNumber(d: LocalDate): int {
    d.year * 372 + (d.month - 1) * 31 + (d.day - 1)
  }

  /** `isSame`: both fall on the same local date; the time of day is ignored. */
  function IsSame(a: LocalDateTime, b: LocalDateTime): (same: bool)
    ensures same <==> a.year == b.year && a.month == b.month && a.day == b.day
    ensures Valid(a) && Valid(b) ==> (same <==> DayNumber(DateOf(a)) == DayNumber(DateOf(b)))
  {
    DateOf(a) == DateOf(b)
  }

  /** `isBefore`: this date is earlier than the other's. */
  function IsBefore(a: LocalDateTime, b: LocalDateTime): (before: bool)
    ensures Valid(a) && Valid(b) ==> (before <==> DayNumber(DateOf(a)) < DayNumber(DateOf(b)))
  {
    DateBefore(DateOf(a), DateOf(b))
  }

  /** `isAfter`: this date is later than the other's. */
  function IsAfter(a: LocalDateTime, b: LocalDateTime): (after: bool)
    ensures Valid(a) && Valid(b) ==> (after <==> DayNumber(DateOf(a)) > DayNumber(DateOf(b)))
  {
    DateBefore(DateOf(b), DateOf(a))
  }

  /** Exactly one of `isSame`, `isBefore` and `isAfter` holds for any pair. */
  lemma ExactlyOneRelation(a: LocalDateTime, b: LocalDateTime)
    ensures IsSame(a, b) || IsBefore(a, b) || IsAfter(a, b)
    ensures !(IsSame(a, b) && IsBefore(a, b))
    ensures !(IsSame(a, b) && IsAfter(a, b))
    ensures !(IsBefore(a, b) && IsAfter(a, b))
  {
  }

  lemma BeforeIsAfterSwapped(a: LocalDateTime, b: LocalDateTime)
    ensures IsBefore(a, b) == IsAfter(b, a)
  {
  }

  lemma SameIsEquivalence(a: LocalDateTime, b: LocalDateTime, c: LocalDateTime)
    ensures IsSame(a, a)
    ensures IsSame(a, b) == IsSame(b, a)
    ensures IsSame(a, b) && IsSame(b, c) ==> IsSame(a, c)
  {
  }

  /** The comparisons ignore the time of day and are transitive. */
  lemma BeforeIsTransitive(a: LocalDateTime, b: LocalDateTime, c: LocalDateTime)
    ensures IsBefore(a, b) && IsBefore(b, c) ==> IsBefore(a, c)
    ensures IsSame(a, b) ==> (IsBefore(a, c) == IsBefore(b, c) && IsAfter(a, c) == IsAfter(b, c))
  {
  }
}
