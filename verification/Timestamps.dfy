/**
 The stamp of a migration: the digits YYYYMMDDhhmmss at the start of its folder
 name, read as a local date and time and converted to seconds since 1970.

 The date arithmetic is that of section 21.4.1 of ECMA-262, with a fixed offset
 (in seconds) between local time and UTC. Division and remainder by a positive
 constant are the floor division and modulo of that section.
 */
module Timestamps {
  import opened Migrations
  import Sorting
  import opened Strings

  // ----- Dates -----

  predicate IsLeapYear(y: int) {
    y % 4 == 0 && (y % 100 != 0 || y % 400 == 0)
  }

  function DaysInYear(y: int): int {
    if IsLeapYear(y) then 366 else 365
  }

  function DayFromYear(y: int): int {
    365 * (y - 1970) + (y - 1969) / 4 - (y - 1901) / 100 + (y - 1601) / 400
  }

  /** Months are counted from 0. */
  function DaysInMonth(y: int, month: int): int {
    if month == 1 then (if IsLeapYear(y) then 29 else 28)
    else if month == 3 || month == 5 || month == 8 || month == 10 then 30
    else 31
  }

  function DaysBeforeMonth(y: int, month: nat): int {
    if month == 0 then 0 else DaysBeforeMonth(y, month - 1) + DaysInMonth(y, month - 1)
  }

  function MakeDay(year: int, month: int, date: int): int {
    var y := year + month / 12;
    DayFromYear(y) + DaysBeforeMonth(y, month % 12) + date - 1
  }

  /** The Date constructor takes the years 0 to 99 for 1900 to 1999. */
  function FullYear(year: int): int {
    if 0 <= year <= 99 then 1900 + year else year
  }

  /** new Date(...).getTime() / 1000 for local fields. */
  function LocalSeconds(year: int, month: int, day: int, hours: int, minutes: int, seconds: int, offset: int): int {
    MakeDay(FullYear(year), month, day) * 86400 + hours * 3600 + minutes * 60 + seconds - offset
  }

  // ----- Reading the folder name -----

  datatype Fields = Fields(year: int, month: int, day: int, hours: int, minutes: int, seconds: int)

  function ReadFields(time: string): Fields
    requires |time| == 14 && AllDigits(time)
  {
    Fields(ParseDigits(time[..4]), ParseDigits(time[4..6]), ParseDigits(time[6..8]),
           ParseDigits(time[8..10]), ParseDigits(time[10..12]), ParseDigits(time[12..14]))
  }

  predicate ValidFields(f: Fields) {
    && 1 <= f.month <= 12
    && 1 <= f.day <= DaysInMonth(f.year, f.month - 1)
    && 0 <= f.hours < 24 && 0 <= f.minutes < 60 && 0 <= f.seconds < 60
  }

  /** Fourteen digits that spell an existing date and time in the year 100 or later. */
  predicate ValidStamp(time: string) {
    |time| == 14 && AllDigits(time) && ReadFields(time).year >= 100 && ValidFields(ReadFields(time))
  }

  predicate ValidFolder(folder: string) {
    ValidStamp(BeforeFirst('_', folder))
  }

  function FieldSeconds(f: Fields, offset: int): int {
    LocalSeconds(f.year, f.month - 1, f.day, f.hours, f.minutes, f.seconds, offset)
  }

  function GetTimestamp(folder: string, offset: int): int
    requires |BeforeFirst('_', folder)| == 14 && AllDigits(BeforeFirst('_', folder))
  {
    FieldSeconds(ReadFields(BeforeFirst('_', folder)), offset)
  }

  // ----- The order of strings -----

  lemma HeadAndTail(s: string, k: nat)
    requires 0 < k <= |s|
    ensures s[..k] == [s[0]] + s[1..][..k - 1]
    ensures s[..k][1..] == s[1..][..k - 1]
    ensures s[1..][k - 1..] == s[k..]
  {
  }

  lemma {:induction false} LexSplit(a: string, b: string, k: nat)
    requires |a| == |b| && k <= |a|
    ensures LexLess(a, b) <==> LexLess(a[..k], b[..k]) || (a[..k] == b[..k] && LexLess(a[k..], b[k..]))
  {
    if k > 0 {
      LexSplit(a[1..], b[1..], k - 1);
      HeadAndTail(a, k);
      HeadAndTail(b, k);
    }
  }

  /** On digits of equal length, the order of strings is the order of numbers. */
  lemma {:induction false} DigitsInOrder(a: string, b: string)
    requires |a| == |b| && AllDigits(a) && AllDigits(b)
    ensures LexLess(a, b) <==> ParseDigits(a) < ParseDigits(b)
    ensures a == b <==> ParseDigits(a) == ParseDigits(b)
  {
    if a != "" {
      var n := |a| - 1;
      DigitsInOrder(a[..n], b[..n]);
      LexSplit(a, b, n);
      assert a[n..] == [a[n]] && b[n..] == [b[n]];
      assert a == a[..n] + [a[n]] && b == b[..n] + [b[n]];
    }
  }

  predicate Before(f: Fields, g: Fields) {
    || f.year < g.year
    || (f.year == g.year && (f.month < g.month
       || (f.month == g.month && (f.day < g.day
       || (f.day == g.day && (f.hours < g.hours
       || (f.hours == g.hours && (f.minutes < g.minutes
       || (f.minutes == g.minutes && f.seconds < g.seconds)))))))))
  }

  lemma LexField(a: string, b: string, k: nat)
    requires |a| == |b| && AllDigits(a) && AllDigits(b) && k <= |a|
    ensures AllDigits(a[..k]) && AllDigits(b[..k]) && AllDigits(a[k..]) && AllDigits(b[k..])
    ensures LexLess(a, b) <==>
            ParseDigits(a[..k]) < ParseDigits(b[..k])
            || (ParseDigits(a[..k]) == ParseDigits(b[..k]) && LexLess(a[k..], b[k..]))
  {
    LexSplit(a, b, k);
    DigitsInOrder(a[..k], b[..k]);
  }

  /** The next two digits decide, and then the rest does. */
  lemma LexPair(a: string, b: string, k: nat)
    requires |a| == |b| && AllDigits(a) && AllDigits(b) && k + 2 <= |a|
    ensures LexLess(a[k..], b[k..]) <==>
            ParseDigits(a[k..k + 2]) < ParseDigits(b[k..k + 2])
            || (ParseDigits(a[k..k + 2]) == ParseDigits(b[k..k + 2]) && LexLess(a[k + 2..], b[k + 2..]))
  {
    LexField(a[k..], b[k..], 2);
    assert a[k..][..2] == a[k..k + 2] && b[k..][..2] == b[k..k + 2];
    assert a[k..][2..] == a[k + 2..] && b[k..][2..] == b[k + 2..];
  }

  lemma TimesCompareByFields(a: string, b: string)
    requires |a| == |b| == 14 && AllDigits(a) && AllDigits(b)
    ensures var f, g := ReadFields(a), ReadFields(b);
            LexLess(a[8..], b[8..]) <==>
            f.hours < g.hours || (f.hours == g.hours && (f.minutes < g.minutes
            || (f.minutes == g.minutes && f.seconds < g.seconds)))
  {
    LexPair(a, b, 8);
    LexPair(a, b, 10);
    LexPair(a, b, 12);
    assert a[14..] == "" && b[14..] == "";
  }

  lemma StampsCompareByFields(a: string, b: string)
    requires |a| == |b| == 14 && AllDigits(a) && AllDigits(b)
    ensures LexLess(a, b) <==> Before(ReadFields(a), ReadFields(b))
  {
    LexField(a, b, 4);
    LexPair(a, b, 4);
    LexPair(a, b, 6);
    TimesCompareByFields(a, b);
  }

  // ----- The order of dates -----

  lemma QuotientIsUnique(d: int, q: int, r: int)
    requires 0 <= r < d
    ensures (q * d + r) / d == q && (q * d + r) % d == r
  {
    var n := q * d + r;
    var k := n / d - q;
    assert n == n / d * d + n % d;
    assert k * d == n / d * d - q * d;
    NonZeroMultiple(k, d);
  }

  lemma NonZeroMultiple(k: int, d: nat)
    ensures k >= 1 ==> k * d >= d
    ensures k <= -1 ==> k * d + d <= 0
  {
  }

  lemma QuotientStep(n: int, d: int)
    requires d > 1
    ensures (n + 1) / d == n / d + if (n + 1) % d == 0 then 1 else 0
  {
    var q, r := n / d, n % d;
    if r == d - 1 {
      QuotientIsUnique(d, q + 1, 0);
      assert n + 1 == (q + 1) * d + 0;
    } else {
      QuotientIsUnique(d, q, r + 1);
      assert n + 1 == q * d + (r + 1);
    }
  }

  lemma YearLength(y: int)
    ensures DayFromYear(y + 1) == DayFromYear(y) + DaysInYear(y)
  {
    QuotientStep(y - 1969, 4);
    QuotientStep(y - 1901, 100);
    QuotientStep(y - 1601, 400);
  }

  lemma {:induction false} YearsAreDisjoint(y: int, z: int)
    requires y < z
    ensures DayFromYear(y) + DaysInYear(y) <= DayFromYear(z)
    decreases z - y
  {
    YearLength(y);
    if y + 1 < z {
      YearsAreDisjoint(y + 1, z);
    }
  }

  lemma {:induction false} MonthsAreDisjoint(y: int, m: nat, n: nat)
    requires m < n
    ensures DaysBeforeMonth(y, m) + DaysInMonth(y, m) <= DaysBeforeMonth(y, n)
    ensures 0 <= DaysBeforeMonth(y, m)
  {
    if m + 1 < n {
      MonthsAreDisjoint(y, m, n - 1);
    } else if m > 0 {
      MonthsAreDisjoint(y, m - 1, m);
    }
  }

  lemma MonthsFillTheYear(y: int)
    ensures DaysBeforeMonth(y, 12) == DaysInYear(y)
  {
    assert DaysBeforeMonth(y, 1) == 31;
    assert DaysBeforeMonth(y, 2) == 31 + DaysInMonth(y, 1);
    assert DaysBeforeMonth(y, 3) == DaysBeforeMonth(y, 2) + 31;
    assert DaysBeforeMonth(y, 5) == DaysBeforeMonth(y, 3) + 61;
    assert DaysBeforeMonth(y, 7) == DaysBeforeMonth(y, 5) + 61;
    assert DaysBeforeMonth(y, 8) == DaysBeforeMonth(y, 7) + 31;
    assert DaysBeforeMonth(y, 9) == DaysBeforeMonth(y, 8) + 30;
    assert DaysBeforeMonth(y, 10) == DaysBeforeMonth(y, 9) + 31;
    assert DaysBeforeMonth(y, 11) == DaysBeforeMonth(y, 10) + 30;
  }

  /** The day number of an existing date lies within its year. */
  lemma DayWithinYear(f: Fields)
    requires f.year >= 100 && ValidFields(f)
    ensures var day := MakeDay(FullYear(f.year), f.month - 1, f.day);
            && day == DayFromYear(f.year) + DaysBeforeMonth(f.year, f.month - 1) + f.day - 1
            && DayFromYear(f.year) <= day < DayFromYear(f.year) + DaysInYear(f.year)
  {
    MonthsAreDisjoint(f.year, f.month - 1, 12);
    MonthsFillTheYear(f.year);
  }

  lemma LaterYear(f: Fields, g: Fields)
    requires f.year >= 100 && g.year >= 100 && ValidFields(f) && ValidFields(g) && f.year < g.year
    ensures MakeDay(FullYear(f.year), f.month - 1, f.day) < MakeDay(FullYear(g.year), g.month - 1, g.day)
  {
    DayWithinYear(f);
    DayWithinYear(g);
    YearsAreDisjoint(f.year, g.year);
  }

  lemma LaterMonth(f: Fields, g: Fields)
    requires f.year == g.year >= 100 && ValidFields(f) && ValidFields(g) && f.month < g.month
    ensures MakeDay(FullYear(f.year), f.month - 1, f.day) < MakeDay(FullYear(g.year), g.month - 1, g.day)
  {
    DayWithinYear(f);
    DayWithinYear(g);
    MonthsAreDisjoint(f.year, f.month - 1, g.month - 1);
  }

  lemma LaterDate(year: int, month: int, day: int, later: int)
    requires day < later
    ensures MakeDay(year, month, day) < MakeDay(year, month, later)
  {
  }

  lemma LaterDay(f: Fields, g: Fields)
    requires f.year >= 100 && g.year >= 100 && ValidFields(f) && ValidFields(g)
    requires f.year < g.year || (f.year == g.year && (f.month < g.month || (f.month == g.month && f.day < g.day)))
    ensures MakeDay(FullYear(f.year), f.month - 1, f.day) < MakeDay(FullYear(g.year), g.month - 1, g.day)
  {
    if f.year < g.year {
      LaterYear(f, g);
    } else if f.month < g.month {
      LaterMonth(f, g);
    } else {
      LaterDate(FullYear(f.year), f.month - 1, f.day, g.day);
    }
  }

  function SecondsOfDay(f: Fields): int {
    f.hours * 3600 + f.minutes * 60 + f.seconds
  }

  lemma LaterMoment(d: int, e: int, s: int, t: int)
    requires 0 <= s < 86400 && 0 <= t < 86400 && (d < e || (d == e && s < t))
    ensures d * 86400 + s < e * 86400 + t
  {
  }

  lemma LaterFieldsAreLater(f: Fields, g: Fields, offset: int)
    requires f.year >= 100 && g.year >= 100 && ValidFields(f) && ValidFields(g) && Before(f, g)
    ensures FieldSeconds(f, offset) < FieldSeconds(g, offset)
  {
    var d, e := MakeDay(FullYear(f.year), f.month - 1, f.day), MakeDay(FullYear(g.year), g.month - 1, g.day);
    assert d < e || (d == e && SecondsOfDay(f) < SecondsOfDay(g)) by {
      if f.year < g.year || f.month < g.month || f.day < g.day {
        LaterDay(f, g);
      }
    }
    LaterMoment(d, e, SecondsOfDay(f), SecondsOfDay(g));
  }

  /** Folder names compare as strings exactly as their stamps compare as numbers. */
  lemma StampOrderIsNameOrder(a: string, b: string, offset: int)
    requires ValidFolder(a) && ValidFolder(b)
    ensures LexLess(BeforeFirst('_', a), BeforeFirst('_', b)) <==> GetTimestamp(a, offset) < GetTimestamp(b, offset)
    ensures BeforeFirst('_', a) == BeforeFirst('_', b) <==> GetTimestamp(a, offset) == GetTimestamp(b, offset)
  {
    var s, t := BeforeFirst('_', a), BeforeFirst('_', b);
    var f, g := ReadFields(s), ReadFields(t);
    StampsCompareByFields(s, t);
    StampsCompareByFields(t, s);
    if Before(f, g) {
      LaterFieldsAreLater(f, g, offset);
    } else if Before(g, f) {
      LaterFieldsAreLater(g, f, offset);
    } else {
      LexLessIsTotal(s, t);
    }
  }

  // ----- Before the year 100 -----

  /** The fields of the date that the Date constructor makes of them. */
  function Full(f: Fields): Fields {
    f.(year := FullYear(f.year))
  }

  /** Fourteen digits that spell an existing date and time once a year below 100 is put into the 20th century. */
  predicate IsStamp(time: string) {
    |time| == 14 && AllDigits(time) && ValidFields(Full(ReadFields(time)))
  }

  /** The years 0 to 99 are 1900 to 1999, and all others themselves. */
  lemma TwoDigitYears(f: Fields, offset: int)
    ensures 0 <= f.year < 100 ==> FieldSeconds(f, offset) == FieldSeconds(f.(year := 1900 + f.year), offset)
    ensures Full(f).year == if 0 <= f.year < 100 then 1900 + f.year else f.year
  {
  }

  lemma FullFieldsDecide(f: Fields, g: Fields, offset: int)
    requires f.year >= 0 && g.year >= 0 && ValidFields(Full(f)) && ValidFields(Full(g))
    ensures FieldSeconds(f, offset) < FieldSeconds(g, offset) <==> Before(Full(f), Full(g))
  {
    assert FieldSeconds(Full(f), offset) == FieldSeconds(f, offset);
    assert FieldSeconds(Full(g), offset) == FieldSeconds(g, offset);
    if Before(Full(f), Full(g)) {
      LaterFieldsAreLater(Full(f), Full(g), offset);
    } else if Before(Full(g), Full(f)) {
      LaterFieldsAreLater(Full(g), Full(f), offset);
    } else {
      assert Full(f) == Full(g);
    }
  }

  /**
   For every year: two stamps in text order are in the order of their times unless
   the first year is below 100, the second is not, and the first date is not earlier
   even in the 20th century.
   */
  lemma OrderIsKeptIff(a: string, b: string, offset: int)
    requires IsStamp(BeforeFirst('_', a)) && IsStamp(BeforeFirst('_', b))
    requires LexLess(BeforeFirst('_', a), BeforeFirst('_', b))
    ensures var f, g := ReadFields(BeforeFirst('_', a)), ReadFields(BeforeFirst('_', b));
            GetTimestamp(a, offset) < GetTimestamp(b, offset) <==> !(f.year < 100 <= g.year && !Before(Full(f), g))
  {
    var s, t := BeforeFirst('_', a), BeforeFirst('_', b);
    StampsCompareByFields(s, t);
    FullFieldsDecide(ReadFields(s), ReadFields(t), offset);
  }

  function DigitOf(c: char): int {
    c as int - '0' as int
  }

  lemma TwoDigits(s: string)
    requires |s| == 2 && AllDigits(s)
    ensures ParseDigits(s) == 10 * DigitOf(s[0]) + DigitOf(s[1])
  {
    var first := s[..1];
    assert first[..0] == "" && ParseDigits(first) == DigitOf(s[0]);
  }

  lemma FourDigits(s: string)
    requires |s| == 4 && AllDigits(s)
    ensures ParseDigits(s) == 1000 * DigitOf(s[0]) + 100 * DigitOf(s[1]) + 10 * DigitOf(s[2]) + DigitOf(s[3])
  {
    var two, three := s[..2], s[..3];
    TwoDigits(two);
    assert three[..2] == two && ParseDigits(three) == 10 * ParseDigits(two) + DigitOf(s[2]);
    assert ParseDigits(s) == 10 * ParseDigits(three) + DigitOf(s[3]);
  }

  /** The fields are read from the digits of the stamp in this order. */
  lemma FieldsOfText(year: string, month: string, day: string, hours: string, minutes: string, seconds: string)
    requires |year| == 4 && |month| == 2 && |day| == 2 && |hours| == 2 && |minutes| == 2 && |seconds| == 2
    requires AllDigits(year) && AllDigits(month) && AllDigits(day)
    requires AllDigits(hours) && AllDigits(minutes) && AllDigits(seconds)
    ensures var time := year + month + day + hours + minutes + seconds;
            && |time| == 14 && AllDigits(time)
            && ReadFields(time) == Fields(ParseDigits(year), ParseDigits(month), ParseDigits(day),
                                          ParseDigits(hours), ParseDigits(minutes), ParseDigits(seconds))
  {
    var time := year + month + day + hours + minutes + seconds;
    assert time[..4] == year && time[4..6] == month && time[6..8] == day;
    assert time[8..10] == hours && time[10..12] == minutes && time[12..14] == seconds;
  }

  /** The first of January of a year, at midnight. */
  function NewYearText(year: string): string {
    year + "01" + "01" + "00" + "00" + "00"
  }

  lemma NewYear(year: string)
    requires |year| == 4 && AllDigits(year)
    ensures var time := NewYearText(year);
            |time| == 14 && AllDigits(time) && ReadFields(time) == Fields(ParseDigits(year), 1, 1, 0, 0, 0)
  {
    FieldsOfText(year, "01", "01", "00", "00", "00");
    TwoDigits("01");
    TwoDigits("00");
  }

  lemma StampOfFolder(time: string, rest: string)
    requires AllDigits(time)
    ensures BeforeFirst('_', time + "_" + rest) == time
  {
    SplitAtFirst('_', time, rest);
  }

  /** The folder of the year 0050 has a later stamp than that of the year 0200. */
  lemma EarlyYearsAreOutOfOrder(offset: int)
    ensures var a, b := NewYearText("0050") + "_" + "init", NewYearText("0200") + "_" + "init";
            && IsStamp(BeforeFirst('_', a)) && IsStamp(BeforeFirst('_', b))
            && LexLess(BeforeFirst('_', a), BeforeFirst('_', b))
            && GetTimestamp(a, offset) > GetTimestamp(b, offset)
  {
    var s, t := NewYearText("0050"), NewYearText("0200");
    YearsInDigits();
    NewYear("0050");
    NewYear("0200");
    StampOfFolder(s, "init");
    StampOfFolder(t, "init");
    StampsCompareByFields(s, t);
    FullFieldsDecide(ReadFields(t), ReadFields(s), offset);
  }

  lemma YearsInDigits()
    ensures ParseDigits("0050") == 50 && ParseDigits("0200") == 200
  {
    FourDigits("0050");
    FourDigits("0200");
  }

  // ----- The calendar -----

  /** The leap years of the Gregorian calendar repeat every 400 years, which have 97 of them. */
  lemma GregorianCycle(y: int)
    ensures DayFromYear(y + 400) == DayFromYear(y) + 400 * 365 + 97
    ensures DayFromYear(1970) == 0
    ensures IsLeapYear(1996) && !IsLeapYear(1900) && IsLeapYear(2000) && !IsLeapYear(2023) && IsLeapYear(2024)
  {
  }

  lemma MonthLengths(y: int, month: nat)
    requires month < 12
    ensures DaysInMonth(y, month) ==
            [31, if DaysInYear(y) == 366 then 29 else 28, 31, 30, 31, 30, 31, 31, 30, 31, 30, 31][month]
  {
  }

  /** Midnight of the first day of 1970 is 0 in UTC, and earlier by the offset where clocks are ahead. */
  lemma Epoch(offset: int)
    ensures FieldSeconds(Fields(1970, 1, 1, 0, 0, 0), offset) == -offset
  {
  }

  lemma TimeOfDay(f: Fields, offset: int)
    ensures FieldSeconds(f, offset)
            == FieldSeconds(f.(hours := 0, minutes := 0, seconds := 0), offset)
               + 3600 * f.hours + 60 * f.minutes + f.seconds
  {
  }

  /** The day after. */
  function NextDay(f: Fields): Fields
    requires ValidFields(f)
  {
    if f.day < DaysInMonth(f.year, f.month - 1) then f.(day := f.day + 1)
    else if f.month < 12 then f.(month := f.month + 1, day := 1)
    else f.(year := f.year + 1, month := 1, day := 1)
  }

  lemma NextInMonth(f: Fields)
    requires f.year >= 100 && ValidFields(f) && f.day < DaysInMonth(f.year, f.month - 1)
    ensures DayNumber(NextDay(f)) == DayNumber(f) + 1
  {
  }

  lemma MonthStep(y: int, month: nat)
    ensures DaysBeforeMonth(y, month + 1) == DaysBeforeMonth(y, month) + DaysInMonth(y, month)
  {
  }

  lemma DayIs(f: Fields)
    requires f.year >= 100 && ValidFields(f)
    ensures DayNumber(f) == DayFromYear(f.year) + DaysBeforeMonth(f.year, f.month - 1) + f.day - 1
  {
    DayWithinYear(f);
  }

  lemma NextInYear(f: Fields)
    requires f.year >= 100 && ValidFields(f) && f.day == DaysInMonth(f.year, f.month - 1) && f.month < 12
    ensures DayNumber(NextDay(f)) == DayNumber(f) + 1
  {
    DayIs(f);
    DayIs(f.(month := f.month + 1, day := 1));
    MonthStep(f.year, f.month - 1);
  }

  lemma NextYear(f: Fields)
    requires f.year >= 100 && ValidFields(f) && f.day == DaysInMonth(f.year, 11) && f.month == 12
    ensures DayNumber(NextDay(f)) == DayNumber(f) + 1
  {
    DayWithinYear(f);
    DayWithinYear(NextDay(f));
    MonthsFillTheYear(f.year);
    YearLength(f.year);
    assert DaysBeforeMonth(f.year, 12) == DaysBeforeMonth(f.year, 11) + DaysInMonth(f.year, 11);
    assert DaysBeforeMonth(f.year + 1, 0) == 0;
  }

  function DayNumber(f: Fields): int {
    MakeDay(FullYear(f.year), f.month - 1, f.day)
  }

  /** With Epoch and TimeOfDay this determines the stamp of every date. */
  lemma NextDayIsADayLater(f: Fields, offset: int)
    requires f.year >= 100 && ValidFields(f)
    ensures ValidFields(NextDay(f))
    ensures FieldSeconds(NextDay(f), offset) == FieldSeconds(f, offset) + 86400
  {
    if f.day < DaysInMonth(f.year, f.month - 1) {
      NextInMonth(f);
    } else if f.month < 12 {
      NextInYear(f);
    } else {
      NextYear(f);
    }
    SecondsOfDayNumber(f, offset);
    SecondsOfDayNumber(NextDay(f), offset);
  }

  lemma SecondsOfDayNumber(f: Fields, offset: int)
    ensures FieldSeconds(f, offset) == 86400 * DayNumber(f) + SecondsOfDay(f) - offset
  {
  }

  lemma DayOfFirstMigration()
    ensures MakeDay(2024, 1, 7) == 19760
  {
    assert 1 / 12 == 0 && 1 % 12 == 1;
    assert DaysBeforeMonth(2024, 1) == 31;
    assert DayFromYear(2024) == 365 * 54 + 13 - 1 + 1;
  }

  /** The folder 20240207141145_init has the stamp that the repository's own test records for it, less the offset. */
  lemma FirstMigrationStamp(offset: int)
    ensures var folder := "2024" + "02" + "07" + "14" + "11" + "45" + "_" + "init";
            && ValidFolder(folder)
            && GetTimestamp(folder, offset) == 1707315105 - offset
  {
    var time := "2024" + "02" + "07" + "14" + "11" + "45";
    FieldsOfText("2024", "02", "07", "14", "11", "45");
    StampOfFolder(time, "init");
    FirstMigrationDigits();
    DayOfFirstMigration();
  }

  lemma FirstMigrationDigits()
    ensures ParseDigits("2024") == 2024 && ParseDigits("02") == 2 && ParseDigits("07") == 7
    ensures ParseDigits("14") == 14 && ParseDigits("11") == 11 && ParseDigits("45") == 45
  {
    FourDigits("2024");
    TwoDigits("02");
    TwoDigits("07");
    TwoDigits("14");
    TwoDigits("11");
    TwoDigits("45");
  }

  function ReadMigration(folder: string, sql: string, offset: int): Migration
    requires ValidFolder(folder)
  {
    Migration(folder, sql, GetTimestamp(folder, offset))
  }

  /** A run therefore applies migrations in the order of their folder names. */
  lemma AppliedInNameOrder<S>(db: Db<S>, available: seq<Migration>, offset: int)
    requires forall m :: m in available ==> ValidFolder(m.name) && m == ReadMigration(m.name, m.sql, offset)
    ensures var applied := RunApplies(db, available);
            forall i, j :: 0 <= i < j < |applied| ==>
              LexLess(BeforeFirst('_', applied[i].name), BeforeFirst('_', applied[j].name))
  {
    var sorted := Sorting.Sort(ByStamp, available);
    var applied := RunApplies(db, available);
    AppliedIsAscending(sorted, Watermark(db));
    forall i | 0 <= i < |applied|
      ensures applied[i] in available
    {
      Sorting.SortHas(ByStamp, available, applied[i]);
    }
    forall i, j | 0 <= i < j < |applied|
      ensures LexLess(BeforeFirst('_', applied[i].name), BeforeFirst('_', applied[j].name))
    {
      StampOrderIsNameOrder(applied[i].name, applied[j].name, offset);
    }
  }
}
