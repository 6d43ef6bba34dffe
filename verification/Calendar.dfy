/** Calendar arithmetic on sixteen-digit time stamps (tim.c): years 1901 to 2099, in which every fourth
    year is a leap year, and hundredths of a second. */
module Calendar {
  import opened Bytes

  const RC_ERROR := -1
  const INT_MAX := 0x7FFFFFFF
  const DAY := 8640000                  // hundredths of a second in a day

  /** The fields of a time stamp. */
  datatype Stamp = Stamp(yr: int, mon: int, day: int, hr: int, min: int, sec: int, hun: int)

  const daysinmonth: seq<int> := [31, 28, 31, 30, 31, 30, 31, 31, 30, 31, 30, 31]

  function MonthLength(yr: int, mon: int): (n: int)
    requires 1 <= mon <= 12
    ensures 28 <= n <= 31
  {
    if mon == 2 && yr % 4 == 0 then 29 else daysinmonth[mon - 1]
  }

  /** The fields name a moment of the calendar. */
  predicate Proper(t: Stamp) {
    && 0 <= t.yr <= 9999 && 1 <= t.mon <= 12 && 1 <= t.day <= MonthLength(t.yr, t.mon)
    && 0 <= t.hr < 24 && 0 <= t.min < 60 && 0 <= t.sec < 60 && 0 <= t.hun < 100
  }

  /** The stamps that the source accepts. */
  predicate Valid(t: Stamp) {
    Proper(t) && 1901 <= t.yr <= 2099
  }

  // --- absolute time -----------------------------------------------------------------------------------

  function Month(t: Stamp): int {
    12 * t.yr + t.mon - 1
  }

  /** Days before month number m, counted from month 0. */
  function DaysBefore(m: nat): int {
    if m == 0 then 0 else DaysBefore(m - 1) + MonthLength((m - 1) / 12, (m - 1) % 12 + 1)
  }

  function Day(t: Stamp): int
    requires Month(t) >= 0
  {
    DaysBefore(Month(t)) + t.day - 1
  }

  function Intraday(t: Stamp): int {
    t.hr * 360000 + t.min * 6000 + t.sec * 100 + t.hun
  }

  /** Hundredths of a second since the first day of year 0. */
  function Abs(t: Stamp): int
    requires Month(t) >= 0
  {
    Day(t) * DAY + Intraday(t)
  }

  lemma NextMonth(yr: int, mon: int)
    requires 0 <= yr && 1 <= mon <= 12
    ensures DaysBefore(12 * yr + mon) == DaysBefore(12 * yr + mon - 1) + MonthLength(yr, mon)
  {
    assert (12 * yr + mon - 1) / 12 == yr && (12 * yr + mon - 1) % 12 == mon - 1;
  }

  lemma {:induction false} DaysMono(m: nat, n: nat)
    requires m <= n
    ensures DaysBefore(m) + 28 * (n - m) <= DaysBefore(n)
    decreases n
  {
    if m < n {
      DaysMono(m, n - 1);
    }
  }

  lemma LaterMonth(a: Stamp, b: Stamp)
    requires Proper(a) && Proper(b) && Month(a) < Month(b)
    ensures Day(a) < Day(b)
  {
    NextMonth(a.yr, a.mon);
    DaysMono(Month(a) + 1, Month(b));
  }

  /** Later fields are a later moment: absolute time orders proper stamps as timcmp does. */
  lemma CompareIsSign(a: Stamp, b: Stamp)
    requires Proper(a) && Proper(b)
    ensures Compare(a, b) == if Abs(a) > Abs(b) then 1 else if Abs(a) < Abs(b) then -1 else 0
    ensures Compare(a, b) == 0 <==> a == b
  {
    if Month(a) < Month(b) {
      LaterMonth(a, b);
    } else if Month(b) < Month(a) {
      LaterMonth(b, a);
    }
  }

  /** timcmp: 1, 0 or -1 as the first stamp is later than, equal to or earlier than the second. */
  function Compare(a: Stamp, b: Stamp): int {
    if a.yr > b.yr then 1 else if a.yr < b.yr then -1
    else if a.mon > b.mon then 1 else if a.mon < b.mon then -1
    else if a.day > b.day then 1 else if a.day < b.day then -1
    else if a.hr > b.hr then 1 else if a.hr < b.hr then -1
    else if a.min > b.min then 1 else if a.min < b.min then -1
    else if a.sec > b.sec then 1 else if a.sec < b.sec then -1
    else if a.hun > b.hun then 1 else if a.hun < b.hun then -1
    else 0
  }

  // --- sixteen digits ------------------------------------------------------------------------------------

  predicate AllDigits(s: seq<byte>) {
    forall i :: 0 <= i < |s| ==> IsDigit(s[i])
  }

  /** The number written in decimal. */
  function Value(s: seq<byte>): int {
    if s == [] then 0 else 10 * Value(s[..|s| - 1]) + (s[|s| - 1] as int - 48)
  }

  /** The fields written in sixteen digits. */
  function Parse(s: seq<byte>): Stamp
    requires |s| == 16
  {
    Stamp(Value(s[0..4]), Value(s[4..6]), Value(s[6..8]), Value(s[8..10]), Value(s[10..12]), Value(s[12..14]), Value(s[14..16]))
  }

  /** A text is accepted when it is all digits and names a moment from 1901 to 2099. */
  predicate Accepted(s: seq<byte>)
    requires |s| == 16
  {
    AllDigits(s) && Valid(Parse(s))
  }

  function Two(n: int): seq<byte>
    requires 0 <= n < 100
  {
    [n / 10 + 48, n % 10 + 48]
  }

  /** The sixteen digits of a stamp. */
  function Print(t: Stamp): (s: seq<byte>)
    requires Proper(t)
    ensures |s| == 16
  {
    Two(t.yr / 100) + Two(t.yr % 100) + Two(t.mon) + Two(t.day) + Two(t.hr) + Two(t.min) + Two(t.sec) + Two(t.hun)
  }

  lemma TwoBack(n: int)
    requires 0 <= n < 100
    ensures Value(Two(n)) == n && AllDigits(Two(n))
  {
    var s := Two(n);
    assert s[..1] == [s[0]];
    assert Value([s[0]]) == n / 10 by {
      assert [s[0]][..0] == [];
    }
  }

  lemma FourBack(n: int)
    requires 0 <= n < 10000
    ensures Value(Two(n / 100) + Two(n % 100)) == n
  {
    var a, b := Two(n / 100), Two(n % 100);
    var s := a + b;
    TwoBack(n / 100);
    assert s[..3] == a + [b[0]] && s[..3][..2] == a;
    assert Value(s[..3]) == 10 * Value(a) + (b[0] as int - 48);
    assert Value(s) == 10 * Value(s[..3]) + (b[1] as int - 48);
  }

  /** Reading the digits of a stamp gives the stamp back; it is accepted unless its year has left the
      range. */
  lemma PrintBack(t: Stamp)
    requires Proper(t)
    ensures AllDigits(Print(t)) && Parse(Print(t)) == t
    ensures Accepted(Print(t)) <==> Valid(t)
  {
    var s := Print(t);
    FourBack(t.yr);
    TwoBack(t.yr / 100);
    TwoBack(t.yr % 100);
    TwoBack(t.mon);
    TwoBack(t.day);
    TwoBack(t.hr);
    TwoBack(t.min);
    TwoBack(t.sec);
    TwoBack(t.hun);
    hide Two;
    assert s[0..4] == Two(t.yr / 100) + Two(t.yr % 100);
    assert s[4..6] == Two(t.mon) && s[6..8] == Two(t.day) && s[8..10] == Two(t.hr);
    assert s[10..12] == Two(t.min) && s[12..14] == Two(t.sec) && s[14..16] == Two(t.hun);
  }

  // --- the source's operations -----------------------------------------------------------------------------

  class TimStruct {
    var yr: int
    var mon: int
    var day: int
    var hr: int
    var min: int
    var sec: int
    var hun: int

    ghost function View(): Stamp
      reads this
    {
      Stamp(yr, mon, day, hr, min, sec, hun)
    }

    constructor ()
    {
    }
  }

  /** The value of the digits of s between lo and hi that come before position i. */
  ghost function Upto(s: seq<byte>, lo: nat, hi: nat, i: nat): int
    requires lo <= hi <= |s|
  {
    Value(s[lo..if i < lo then lo else if i < hi then i else hi])
  }

  lemma UptoStep(s: seq<byte>, lo: nat, hi: nat, i: nat)
    requires lo <= hi <= |s|
    ensures lo <= i < hi ==> Upto(s, lo, hi, i + 1) == 10 * Upto(s, lo, hi, i) + (s[i] as int - 48)
    ensures !(lo <= i < hi) ==> Upto(s, lo, hi, i + 1) == Upto(s, lo, hi, i)
    ensures i <= lo ==> Upto(s, lo, hi, i) == 0
  {
    if lo <= i < hi {
      var t := s[lo..i + 1];
      assert t[..|t| - 1] == s[lo..i] && t[|t| - 1] == s[i];
    }
  }

  lemma {:induction false} ValueNat(s: seq<byte>)
    requires AllDigits(s)
    ensures 0 <= Value(s) && (|s| <= 2 ==> Value(s) < 100)
  {
    if s != [] {
      ValueNat(s[..|s| - 1]);
      if |s| == 2 {
        assert s[..1][..0] == [];
      }
    }
  }

  /** The digit loop of timchkstamp. */
  method ParseDigits(ts: array<byte>) returns (ok: bool, t: Stamp)
    requires ts.Length >= 16
    ensures ok <==> AllDigits(ts[..16])
    ensures ok ==> t == Parse(ts[..16])
  {
    hide Value;
    ghost var s := ts[..16];
    var yr, mon, day, hr, min, sec, hun := 0, 0, 0, 0, 0, 0, 0;
    UptoStep(s, 0, 4, 0);
    UptoStep(s, 4, 6, 0);
    UptoStep(s, 6, 8, 0);
    UptoStep(s, 8, 10, 0);
    UptoStep(s, 10, 12, 0);
    UptoStep(s, 12, 14, 0);
    UptoStep(s, 14, 16, 0);
    var i1 := 0;
    while i1 < 16
      invariant 0 <= i1 <= 16 && forall i :: 0 <= i < i1 ==> IsDigit(ts[i])
      invariant yr == Upto(s, 0, 4, i1) && mon == Upto(s, 4, 6, i1) && day == Upto(s, 6, 8, i1)
      invariant hr == Upto(s, 8, 10, i1) && min == Upto(s, 10, 12, i1) && sec == Upto(s, 12, 14, i1)
      invariant hun == Upto(s, 14, 16, i1)
    {
      if !IsDigit(ts[i1]) {
        assert !IsDigit(s[i1]);
        return false, Stamp(0, 0, 0, 0, 0, 0, 0);
      }
      UptoStep(s, 0, 4, i1);
      UptoStep(s, 4, 6, i1);
      UptoStep(s, 6, 8, i1);
      UptoStep(s, 8, 10, i1);
      UptoStep(s, 10, 12, i1);
      UptoStep(s, 12, 14, i1);
      UptoStep(s, 14, 16, i1);
      var i2 := ts[i1] as int - 48;
      if i1 < 4 {
        yr := yr * 10 + i2;
      } else if i1 < 6 {
        mon := mon * 10 + i2;
      } else if i1 < 8 {
        day := day * 10 + i2;
      } else if i1 < 10 {
        hr := hr * 10 + i2;
      } else if i1 < 12 {
        min := min * 10 + i2;
      } else if i1 < 14 {
        sec := sec * 10 + i2;
      } else {
        hun := hun * 10 + i2;
      }
      i1 := i1 + 1;
    }
    return true, Stamp(yr, mon, day, hr, min, sec, hun);
  }

  /** timchkstamp: accept a text and fill in its fields. */
  method ChkStamp(ts: array<byte>, dest: TimStruct) returns (code: int)
    requires ts.Length >= 16
    modifies dest
    ensures code == if Accepted(ts[..16]) then 0 else RC_ERROR
    ensures dest.View() == if code == 0 then Parse(ts[..16]) else old(dest.View())
  {
    hide Value;
    var ok, t := ParseDigits(ts);
    if !ok {
      return RC_ERROR;
    }
    ghost var s := ts[..16];
    ValueNat(s[4..6]);
    ValueNat(s[6..8]);
    ValueNat(s[8..10]);
    ValueNat(s[10..12]);
    ValueNat(s[12..14]);
    ValueNat(s[14..16]);
    if t.yr < 1901 || t.yr > 2099 {
      return RC_ERROR;
    }
    if t.mon == 0 || t.mon > 12 {
      return RC_ERROR;
    }
    if t.day == 0 || t.day > MonthLength(t.yr, t.mon) {
      return RC_ERROR;
    }
    if t.hr > 23 || t.min > 59 || t.sec > 59 {
      return RC_ERROR;
    }
    dest.yr, dest.mon, dest.day, dest.hr := t.yr, t.mon, t.day, t.hr;
    dest.min, dest.sec, dest.hun := t.min, t.sec, t.hun;
    return 0;
  }

  /** A stamp whose hundredths have been advanced by up to 2^31 and not yet carried. */
  predicate Advanced(t: Stamp) {
    && 1901 <= t.yr <= 2099 && 1 <= t.mon <= 12 && 1 <= t.day <= MonthLength(t.yr, t.mon)
    && 0 <= t.hr < 24 && 0 <= t.min < 60 && 0 <= t.sec < 60 && 0 <= t.hun <= INT_MAX
  }

  /** Carry days into months and years. */
  method CarryDays(t: TimStruct)
    requires 1901 <= t.yr <= 2099 && 1 <= t.mon <= 12 && 1 <= t.day <= 31 + 249
    modifies t`yr, t`mon, t`day
    ensures 1901 <= t.yr <= 2100 && 1 <= t.mon <= 12 && 1 <= t.day <= MonthLength(t.yr, t.mon)
    ensures Day(t.View()) == Day(old(t.View()))
  {
    ghost var m := Month(t.View());
    while true
      invariant 1901 <= t.yr && 1 <= t.mon <= 12 && 1 <= t.day
      invariant Day(t.View()) == Day(old(t.View()))
      invariant m <= Month(t.View()) && 28 * (Month(t.View()) - m) + t.day <= 31 + 249
      decreases t.day
    {
      var i1 := daysinmonth[t.mon - 1];
      if t.mon == 2 && t.yr % 4 == 0 {
        i1 := 29;
      }
      if t.day <= i1 {
        break;
      }
      NextMonth(t.yr, t.mon);
      t.day := t.day - i1;
      t.mon := t.mon + 1;
      if t.mon > 12 {
        t.mon, t.yr := 1, t.yr + 1;
      }
    }
  }

  /** Carry hundredths into seconds, minutes, hours, days, months and years. */
  method Carry(t: TimStruct)
    requires Advanced(t.View())
    modifies t
    ensures Proper(t.View()) && Abs(t.View()) == Abs(old(t.View())) && t.yr <= 2100
  {
    if t.hun >= 100 {
      t.sec := t.sec + t.hun / 100;
      t.hun := t.hun % 100;
      if t.sec >= 60 {
        t.min := t.min + t.sec / 60;
        t.sec := t.sec % 60;
        if t.min >= 60 {
          t.hr := t.hr + t.min / 60;
          t.min := t.min % 60;
          if t.hr >= 24 {
            t.day := t.day + t.hr / 24;
            t.hr := t.hr % 24;
            CarryDays(t);
          }
        }
      }
    }
  }

  lemma YearDigits(n: int)
    requires 0 <= n < 10000
    ensures Two(n / 100) + Two(n % 100) == [(n / 10 / 10 / 10) % 10 + 48, (n / 10 / 10) % 10 + 48, (n / 10) % 10 + 48, n % 10 + 48]
  {
    assert n / 100 == n / 10 / 10 && n % 100 / 10 == (n / 10) % 10 && n % 100 % 10 == n % 10;
  }

  /** The year loop of timadd: digits from the last to the first. */
  method PrintYear(year: int, ts: array<byte>)
    requires ts.Length >= 16 && 0 <= year < 10000
    modifies ts
    ensures ts[..4] == Two(year / 100) + Two(year % 100)
    ensures forall i :: 4 <= i < ts.Length ==> ts[i] == old(ts[i])
  {
    YearDigits(year);
    hide Two;
    var i1, yr := 4, year;
    ghost var rest := [year / 10 / 10 / 10 / 10, year / 10 / 10 / 10, year / 10 / 10, year / 10, year];
    while i1 > 0
      invariant 0 <= i1 <= 4 && yr == rest[i1]
      invariant forall i :: i1 <= i < 4 ==> ts[i] as int == rest[i + 1] % 10 + 48
      invariant forall i :: 4 <= i < ts.Length ==> ts[i] == old(ts[i])
    {
      i1 := i1 - 1;
      ts[i1] := yr % 10 + 48;
      yr := yr / 10;
    }
    assert ts[0] as int == rest[1] % 10 + 48 && ts[1] as int == rest[2] % 10 + 48;
    assert ts[2] as int == rest[3] % 10 + 48 && ts[3] as int == rest[4] % 10 + 48;
  }

  /** The six two-digit fields. */
  method PrintPairs(t: TimStruct, ts: array<byte>)
    requires ts.Length >= 16 && Proper(t.View())
    modifies ts
    ensures ts[4..16] == Two(t.mon) + Two(t.day) + Two(t.hr) + Two(t.min) + Two(t.sec) + Two(t.hun)
    ensures forall i :: (0 <= i < 4 || 16 <= i < ts.Length) ==> ts[i] == old(ts[i])
  {
    PrintTwo(t.mon, ts, 4);
    PrintTwo(t.day, ts, 6);
    PrintTwo(t.hr, ts, 8);
    PrintTwo(t.min, ts, 10);
    PrintTwo(t.sec, ts, 12);
    PrintTwo(t.hun, ts, 14);
  }

  /** Two digits. */
  method PrintTwo(n: int, ts: array<byte>, at: nat)
    requires at + 2 <= ts.Length && 0 <= n < 100
    modifies ts
    ensures ts[at..at + 2] == Two(n)
    ensures forall i :: 0 <= i < ts.Length && !(at <= i < at + 2) ==> ts[i] == old(ts[i])
  {
    ts[at], ts[at + 1] := n / 10 + 48, n % 10 + 48;
  }

  /** Write the sixteen digits of a stamp. */
  method PrintDigits(t: TimStruct, ts: array<byte>)
    requires ts.Length >= 16 && Proper(t.View())
    modifies ts
    ensures ts[..16] == Print(t.View())
    ensures forall i :: 16 <= i < ts.Length ==> ts[i] == old(ts[i])
  {
    hide Two;
    PrintYear(t.yr, ts);
    ghost var year := ts[..4];
    PrintPairs(t, ts);
    assert ts[..4] == year;
    assert ts[..16] == ts[..4] + ts[4..16];
  }

  /** timadd: advance a time stamp in place. The new digits are those of the moment `centiseconds` later,
      provided that adding the hundredths does not overflow a 32-bit integer. */
  method TimAdd(ts: array<byte>, centiseconds: int) returns (code: int, ghost after: Stamp)
    requires ts.Length >= 16 && centiseconds <= INT_MAX
    requires Accepted(ts[..16]) ==> Parse(ts[..16]).hun + centiseconds <= INT_MAX
    modifies ts
    ensures code == old(if Accepted(ts[..16]) && centiseconds >= 0 then 0 else RC_ERROR)
    ensures code != 0 ==> ts[..] == old(ts[..])
    ensures code == 0 ==> Proper(after) && ts[..16] == Print(after) && after.yr <= 2100
    ensures code == 0 ==> Abs(after) == Abs(Parse(old(ts[..16]))) + centiseconds
  {
    after := Stamp(0, 0, 0, 0, 0, 0, 0);
    var twork := new TimStruct();
    var ok := ChkStamp(ts, twork);
    if ok == RC_ERROR || centiseconds < 0 {
      return RC_ERROR, after;
    }
    twork.hun := twork.hun + centiseconds;
    Carry(twork);
    after := twork.View();
    PrintDigits(twork, ts);
    return 0, after;
  }

  /** The fields of a stamp, the greatest unit first. */
  function Fields(t: Stamp): (f: seq<int>)
    ensures |f| == 7
  {
    [t.yr, t.mon, t.day, t.hr, t.min, t.sec, t.hun]
  }

  /** The first field in which two stamps differ is greater in a. */
  predicate Later(a: Stamp, b: Stamp) {
    exists k :: 0 <= k < 7 && Fields(a)[k] > Fields(b)[k] && forall j :: 0 <= j < k ==> Fields(a)[j] == Fields(b)[j]
  }

  lemma CompareIsLater(a: Stamp, b: Stamp)
    ensures Compare(a, b) == 1 ==> Later(a, b)
    ensures Compare(a, b) == -1 ==> Later(b, a)
    ensures Compare(a, b) == 0 ==> a == b
    ensures Compare(a, b) in {1, 0, -1} && !(Later(a, b) && Later(b, a)) && !Later(a, a)
  {
    var f, g := Fields(a), Fields(b);
    var k := if f[0] != g[0] then 0 else if f[1] != g[1] then 1 else if f[2] != g[2] then 2 else if f[3] != g[3] then 3
             else if f[4] != g[4] then 4 else if f[5] != g[5] then 5 else 6;
    assert forall j :: 0 <= j < k ==> f[j] == g[j];
    assert Compare(a, b) == 1 ==> f[k] > g[k];
    assert Compare(a, b) == -1 ==> g[k] > f[k];
  }

  /** timcmp: the sign of the time from the second stamp to the first; for stamps that name no moment, the sign of the first
      field in which they differ. */
  method TimCmp(src1: TimStruct, src2: TimStruct) returns (c: int)
    ensures var a, b := src1.View(), src2.View();
            && (c == 1 <==> Later(a, b)) && (c == -1 <==> Later(b, a)) && (c == 0 <==> a == b) && c in {1, 0, -1}
    ensures var a, b := src1.View(), src2.View();
            Proper(a) && Proper(b) ==> c == if Abs(a) > Abs(b) then 1 else if Abs(a) < Abs(b) then -1 else 0
  {
    hide Abs, Later;
    CompareIsLater(src1.View(), src2.View());
    CompareIsLater(src1.View(), src1.View());
    if Proper(src1.View()) && Proper(src2.View()) {
      CompareIsSign(src1.View(), src2.View());
    }
    if src1.yr > src2.yr { return 1; }
    if src1.yr < src2.yr { return -1; }
    if src1.mon > src2.mon { return 1; }
    if src1.mon < src2.mon { return -1; }
    if src1.day > src2.day { return 1; }
    if src1.day < src2.day { return -1; }
    if src1.hr > src2.hr { return 1; }
    if src1.hr < src2.hr { return -1; }
    if src1.min > src2.min { return 1; }
    if src1.min < src2.min { return -1; }
    if src1.sec > src2.sec { return 1; }
    if src1.sec < src2.sec { return -1; }
    if src1.hun > src2.hun { return 1; }
    if src1.hun < src2.hun { return -1; }
    return 0;
  }

  const MAXDAYS := INT_MAX / DAY - 1

  /** The difference that timdiff reports for a moment a not earlier than b: whole days are capped, so
      that the result stays within a 32-bit integer. */
  function Elapsed(a: Stamp, b: Stamp): int
    requires Proper(a) && Proper(b)
  {
    var days := Day(a) - Day(b);
    Intraday(a) - Intraday(b) + (if days > MAXDAYS then MAXDAYS else days) * DAY
  }

  function Diff(a: Stamp, b: Stamp): int
    requires Proper(a) && Proper(b)
  {
    if Compare(a, b) >= 0 then Elapsed(a, b) else -Elapsed(b, a)
  }

  lemma FlipCompare(a: Stamp, b: Stamp)
    ensures Compare(a, b) == -Compare(b, a)
    ensures Compare(a, b) > 0 ==> Month(a) > Month(b) || (a.yr == b.yr && a.mon == b.mon) || a.yr > b.yr
  {
  }

  /** The day loop of timdiff: step the earlier stamp to the month of the later one, adding up the lengths
      of the months left behind. */
  method CountDays(a: TimStruct, b: TimStruct) returns (days: int)
    requires a != b && Proper(a.View()) && Proper(b.View()) && Month(b.View()) <= Month(a.View())
    modifies b`yr, b`mon
    ensures days == Day(a.View()) - Day(old(b.View()))
    ensures b.yr == a.yr && b.mon == a.mon
  {
    hide DaysBefore, Abs;
    days := a.day - b.day;
    while true
      invariant 0 <= b.yr && 1 <= b.mon <= 12 && Month(b.View()) <= Month(a.View())
      invariant days == a.day - b.day + DaysBefore(Month(b.View())) - DaysBefore(Month(old(b.View())))
      decreases Month(a.View()) - Month(b.View())
    {
      if a.mon == b.mon && a.yr == b.yr {
        break;
      }
      var i1 := daysinmonth[b.mon - 1];
      if b.mon == 2 && b.yr % 4 == 0 {
        i1 := 29;
      }
      NextMonth(b.yr, b.mon);
      days := days + i1;
      b.mon := b.mon + 1;
      if b.mon > 12 {
        b.mon, b.yr := 1, b.yr + 1;
      }
    }
  }

  /** The fields of b, moved to the month of a. */
  function MonthOf(a: Stamp, b: Stamp): Stamp {
    b.(yr := a.yr, mon := a.mon)
  }

  /** timdiff: the difference of two moments, in hundredths of a second; the earlier argument is left
      in the month of the later one. */
  method TimDiff(src1: TimStruct, src2: TimStruct) returns (centiseconds: int)
    requires Proper(src1.View()) && Proper(src2.View()) && src1 != src2
    modifies src1, src2
    ensures centiseconds == Diff(old(src1.View()), old(src2.View()))
    ensures var a, b := old(src1.View()), old(src2.View());
            && src1.View() == (if Compare(a, b) < 0 then MonthOf(b, a) else a)
            && src2.View() == (if Compare(a, b) > 0 then MonthOf(a, b) else b)
  {
    hide Abs, Later, DaysBefore;
    var negflg := TimCmp(src1, src2);
    CompareIsSign(src1.View(), src2.View());
    if negflg == 0 {
      return 0;
    }
    FlipCompare(src1.View(), src2.View());
    var a, b := src1, src2;
    if negflg == -1 {
      a, b := src2, src1;
    }
    ghost var a0, b0 := a.View(), b.View();
    assert Compare(a0, b0) == 1 && Month(b0) <= Month(a0);
    centiseconds := a.hun - b.hun;
    centiseconds := centiseconds + (a.sec - b.sec) * 100;
    centiseconds := centiseconds + (a.min - b.min) * 6000;
    centiseconds := centiseconds + (a.hr - b.hr) * 360000;
    assert centiseconds == Intraday(a0) - Intraday(b0);
    var days := CountDays(a, b);
    if days > MAXDAYS {
      days := MAXDAYS;
    }
    centiseconds := centiseconds + days * DAY;
    assert centiseconds == Elapsed(a0, b0);
    return centiseconds * negflg;
  }

  /** A difference fits a 32-bit integer; it has the sign of the comparison; it is the exact difference
      exactly when the moments lie at most MAXDAYS calendar days apart. */
  lemma DiffExact(a: Stamp, b: Stamp)
    requires Proper(a) && Proper(b)
    ensures -INT_MAX <= Diff(a, b) <= INT_MAX
    ensures Diff(b, a) == -Diff(a, b)
    ensures Diff(a, b) == 0 <==> Compare(a, b) == 0
    ensures Diff(a, b) > 0 <==> Compare(a, b) > 0
    ensures Diff(a, b) == Abs(a) - Abs(b) <==> -MAXDAYS <= Day(a) - Day(b) <= MAXDAYS
  {
    CompareIsSign(a, b);
    FlipCompare(a, b);
    assert MAXDAYS == 247;
    hide Compare, DaysBefore;
  }

  /** The first moment of a year. */
  ghost function YearStart(yr: int): int
    requires yr >= 0
  {
    DaysBefore(12 * yr) * DAY
  }

  /** c hundredths after t it is still the year yr or earlier. */
  ghost predicate Within(t: Stamp, c: nat, yr: nat) {
    Proper(t) && Abs(t) + c < YearStart(yr + 1)
  }

  lemma BeforeYear(t: Stamp, yr: int)
    requires Proper(t) && 0 <= yr <= 9999
    ensures Abs(t) < YearStart(yr) <==> t.yr < yr
  {
    CompareIsSign(t, Stamp(yr, 1, 1, 0, 0, 0, 0));
    hide DaysBefore;
  }

  /** A stamp advanced by c hundredths, measured from where it started. */
  lemma AddedBack(before: Stamp, after: Stamp, c: nat)
    requires Valid(before) && Proper(after) && Abs(after) == Abs(before) + c
    ensures Valid(after) <==> Within(before, c, 2099)
    ensures Diff(after, before) == c <==> Day(after) - Day(before) <= MAXDAYS
  {
    hide DaysBefore, YearStart, Compare, Diff;
    BeforeYear(after, 2100);
    BeforeYear(after, 1901);
    BeforeYear(before, 1901);
    DiffExact(after, before);
    assert Day(before) <= Day(after);
  }

  /** timdiff undoes timadd: the difference between a stamp and itself `centiseconds` later is
      `centiseconds` exactly when the two days are at most MAXDAYS apart. A sum past the year 2099 is not a stamp any more. */
  method AddThenDiff(ts: array<byte>, centiseconds: int) returns (ok: bool, back: int, ghost days: int)
    requires ts.Length >= 16 && 0 <= centiseconds <= INT_MAX && Accepted(ts[..16])
    requires Parse(ts[..16]).hun + centiseconds <= INT_MAX
    modifies ts
    ensures ok <==> Accepted(ts[..16])
    ensures ok <==> Within(Parse(old(ts[..16])), centiseconds, 2099)
    ensures ok ==> days == Day(Parse(ts[..16])) - Day(Parse(old(ts[..16])))
    ensures ok ==> (back == centiseconds <==> days <= MAXDAYS)
  {
    hide Parse, Print, Abs, DaysBefore, YearStart, Compare, Diff, Day;
    var first := new TimStruct();
    var second := new TimStruct();
    var c := ChkStamp(ts, first);
    ghost var before := first.View();
    ghost var after;
    c, after := TimAdd(ts, centiseconds);
    AddedBack(before, after, centiseconds);
    PrintBack(after);
    c := ChkStamp(ts, second);
    days := Day(after) - Day(before);
    ok, back := c == 0, 0;
    if ok {
      back := TimDiff(second, first);
    }
  }
}
