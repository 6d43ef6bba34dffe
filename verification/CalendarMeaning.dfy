/** What the days of the calendar are (tim.c), without its table of months. */
module CalendarMeaning {
  import opened Bytes
  import opened Calendar

  /** The days of a year before a month. */
  function DaysToMonth(mon: int, leap: bool): int {
    var d := if leap then 1 else 0;
    match mon
    case 1 => 0
    case 2 => 31
    case 3 => 59 + d
    case 4 => 90 + d
    case 5 => 120 + d
    case 6 => 151 + d
    case 7 => 181 + d
    case 8 => 212 + d
    case 9 => 243 + d
    case 10 => 273 + d
    case 11 => 304 + d
    case 12 => 334 + d
    case _ => 365 + d
  }

  /** The length of a month. */
  lemma MonthMeans(yr: int, mon: int)
    requires 1 <= mon <= 12
    ensures mon in {1, 3, 5, 7, 8, 10, 12} ==> MonthLength(yr, mon) == 31
    ensures mon in {4, 6, 9, 11} ==> MonthLength(yr, mon) == 30
    ensures mon == 2 ==> MonthLength(yr, mon) == if yr % 4 == 0 then 29 else 28
    ensures DaysToMonth(mon + 1, yr % 4 == 0) == DaysToMonth(mon, yr % 4 == 0) + MonthLength(yr, mon)
  {
  }

  lemma {:induction false} DaysInYear(yr: nat, mon: nat)
    requires 1 <= mon <= 13
    ensures DaysBefore(12 * yr + mon - 1) == DaysBefore(12 * yr) + DaysToMonth(mon, yr % 4 == 0)
    decreases mon
  {
    hide DaysBefore;
    if mon > 1 {
      DaysInYear(yr, mon - 1);
      NextMonth(yr, mon - 1);
      MonthMeans(yr, mon - 1);
    }
  }

  lemma NoDays()
    ensures DaysBefore(0) == 0
  {
  }

  lemma {:induction false} DaysOfYears(yr: nat)
    ensures DaysBefore(12 * yr) == 365 * yr + (yr + 3) / 4
    decreases yr
  {
    hide DaysBefore;
    NoDays();
    if yr > 0 {
      DaysOfYears(yr - 1);
      DaysInYear(yr - 1, 13);
    }
  }

  /** The whole years of 365 days with a day more in every fourth, the days before the month, and the day. */
  function DayNumber(t: Stamp): int {
    365 * t.yr + (t.yr + 3) / 4 + DaysToMonth(t.mon, t.yr % 4 == 0) + t.day - 1
  }

  /** THE MOMENT OF A STAMP: its day, hours, minutes, seconds and hundredths. */
  lemma AbsMeans(t: Stamp)
    requires t.yr >= 0 && 1 <= t.mon <= 12
    ensures Day(t) == DayNumber(t)
    ensures Abs(t) == DayNumber(t) * 24 * 60 * 60 * 100 + t.hr * 60 * 60 * 100 + t.min * 60 * 100 + t.sec * 100 + t.hun
  {
    hide DaysBefore;
    DaysOfYears(t.yr);
    DaysInYear(t.yr, t.mon);
  }

  /** What is measured between two moments: the hundredths that they are apart, but never more than 247 days and the difference of the times
      of day. */
  lemma DiffMeans(a: Stamp, b: Stamp)
    requires Proper(a) && Proper(b) && Abs(a) >= Abs(b)
    ensures Diff(a, b) == (if DayNumber(a) - DayNumber(b) > 247 then 247 else DayNumber(a) - DayNumber(b)) * 24 * 60 * 60 * 100
                          + (a.hr - b.hr) * 60 * 60 * 100 + (a.min - b.min) * 60 * 100 + (a.sec - b.sec) * 100 + a.hun - b.hun
    ensures Diff(b, a) == -Diff(a, b)
  {
    hide DaysBefore, Compare, MonthLength, DayNumber;
    AbsMeans(a);
    AbsMeans(b);
    CompareIsSign(a, b);
    DiffExact(a, b);
  }

  lemma ValueMore(s: seq<byte>)
    ensures Value([]) == 0
    ensures s != [] ==> Value(s) == 10 * Value(s[..|s| - 1]) + (s[|s| - 1] as int - 48)
  {
  }

  lemma ValueTwo(s: seq<byte>)
    requires |s| == 2
    ensures Value(s) == 10 * (s[0] as int - 48) + (s[1] as int - 48)
  {
    hide Value;
    ValueMore(s);
    ValueMore(s[..1]);
    assert s[..1][..0] == [] && s[..1][0] == s[0];
  }

  lemma ValueFour(s: seq<byte>)
    requires |s| == 4
    ensures Value(s) == 1000 * (s[0] as int - 48) + 100 * (s[1] as int - 48) + 10 * (s[2] as int - 48) + (s[3] as int - 48)
  {
    hide Value;
    ValueMore(s);
    ValueMore(s[..3]);
    ValueTwo(s[..2]);
    assert s[..3][..2] == s[..2] && s[..3][2] == s[2];
  }

  /** THE DIGITS OF A STAMP. */
  lemma DigitsMean(s: seq<byte>)
    requires |s| == 16
    ensures Accepted(s) <==>
      && (forall i :: 0 <= i < 16 ==> 48 <= s[i] <= 57)
      && var t := Parse(s);
      && 1901 <= t.yr <= 2099 && 1 <= t.mon <= 12 && 1 <= t.day <= MonthLength(t.yr, t.mon) && t.hr < 24 && t.min < 60 && t.sec < 60
    ensures var t := Parse(s);
            && t.yr == 1000 * (s[0] as int - 48) + 100 * (s[1] as int - 48) + 10 * (s[2] as int - 48) + (s[3] as int - 48)
            && t.mon == 10 * (s[4] as int - 48) + (s[5] as int - 48) && t.day == 10 * (s[6] as int - 48) + (s[7] as int - 48)
            && t.hr == 10 * (s[8] as int - 48) + (s[9] as int - 48) && t.min == 10 * (s[10] as int - 48) + (s[11] as int - 48)
            && t.sec == 10 * (s[12] as int - 48) + (s[13] as int - 48) && t.hun == 10 * (s[14] as int - 48) + (s[15] as int - 48)
  {
    hide Value;
    ValueFour(s[0..4]);
    ValueTwo(s[4..6]);
    ValueTwo(s[6..8]);
    ValueTwo(s[8..10]);
    ValueTwo(s[10..12]);
    ValueTwo(s[12..14]);
    ValueTwo(s[14..16]);
  }
}
