/** `timegm` and the RTC's `tmToUnixTime`: the closed form, the loops, and the calendar both count. */
module Calendar {
  import opened Division

  /** The fields of `struct tm` the program uses. */
  datatype Tm = Tm(sec: int, min: int, hour: int, mday: int, mon: int, year: int)

  const SECONDS_PER_DAY := 86400

  // ---------------------------------------------------------------- the calendar

  predicate Leap(year: int) { (year % 4 == 0 && year % 100 != 0) || year % 400 == 0 }

  function MonthLength(year: int, mon: int): (n: int)
    requires 0 <= mon <= 11
  {
    if mon == 1 then (if Leap(year) then 29 else 28) else if mon in {3, 5, 8, 10} then 30 else 31
  }

  datatype Date = Date(year: int, mon: int, day: int)

  predicate Valid(d: Date) { d.year >= 1 && 0 <= d.mon <= 11 && 1 <= d.day <= MonthLength(d.year, d.mon) }

  function NextDay(d: Date): (n: Date)
    requires Valid(d)
    ensures Valid(n)
  {
    if d.day < MonthLength(d.year, d.mon) then Date(d.year, d.mon, d.day + 1)
    else if d.mon < 11 then Date(d.year, d.mon + 1, 1)
    else Date(d.year + 1, 0, 1)
  }

  predicate Earlier(a: Date, b: Date) {
    a.year < b.year || (a.year == b.year && (a.mon < b.mon || (a.mon == b.mon && a.day < b.day)))
  }

  // ---------------------------------------------------------------- timegm

  /** `is_leap`; the C remainder is zero exactly when the Euclidean one is. */
  function IsLeap(year: int): int {
    if year % 400 == 0 then 1 else if year % 100 == 0 then 0 else if year % 4 == 0 then 1 else 0
  }

  /** `days_from_0` */
  function DaysFrom0(year: int): int {
    var y := year - 1;
    365 * y + TruncDiv(y, 400) - TruncDiv(y, 100) + TruncDiv(y, 4)
  }

  /** `days_from_1970` */
  function DaysFrom1970(year: int): int { DaysFrom0(year) - DaysFrom0(1970) }

  const DAYS := [0, 31, 59, 90, 120, 151, 181, 212, 243, 273, 304, 334]
  const LEAP_DAYS := [0, 31, 60, 91, 121, 152, 182, 213, 244, 274, 305, 335]

  /** `days_from_1jan` */
  function DaysFrom1Jan(year: int, month: int, day: int): int
    requires 1 <= month <= 12
  {
    (if IsLeap(year) == 1 then LEAP_DAYS[month - 1] else DAYS[month - 1]) + day - 1
  }

  /** Year and month after the months outside 0..11 have been turned into years. */
  function Normalized(year: int, month: int): (r: (int, int))
    ensures 0 <= r.1 <= 11
  {
    if month > 11 then (year + month / 12, month % 12)
    else if month < 0 then
      var yearsDiff := (-month + 11) / 12;
      (year - yearsDiff, month + 12 * yearsDiff)
    else (year, month)
  }

  /** Days since 1 January 1970. */
  function DayNumber(year: int, mon: int, day: int): int {
    var n := Normalized(year, mon);
    DaysFrom1970(n.0) + DaysFrom1Jan(n.0, n.1 + 1, day)
  }

  /** `timegm` */
  function Timegm(t: Tm): int {
    SECONDS_PER_DAY * DayNumber(t.year + 1900, t.mon, t.mday) + 3600 * t.hour + 60 * t.min + t.sec
  }

  // ---------------------------------------------------------------- what timegm counts

  /** A month twelve later is the same month a year later, for months and years of any sign. */
  lemma MonthsCarry(t: Tm, k: int)
    ensures Timegm(t.(mon := t.mon + 12 * k)) == Timegm(t.(year := t.year + k))
  {
    NormalizedCarries(t.year + 1900, t.mon, k);
  }

  lemma NormalizedCarries(year: int, mon: int, k: int)
    ensures Normalized(year, mon + 12 * k) == Normalized(year + k, mon)
  {
    NormalizedIs(year, mon + 12 * k);
    NormalizedIs(year + k, mon);
    var a, b := Normalized(year, mon + 12 * k), Normalized(year + k, mon);
    EuclidUnique(12, a.0, a.1, b.0, b.1);
  }

  lemma NormalizedIs(year: int, mon: int)
    ensures 12 * Normalized(year, mon).0 + Normalized(year, mon).1 == 12 * year + mon
  {}

  lemma YearLength(year: int)
    requires year >= 1
    ensures DaysFrom0(year + 1) == DaysFrom0(year) + 365 + (if Leap(year) then 1 else 0)
  {
    hide TruncDiv;
    Step(year - 1, 4);
    Step(year - 1, 100);
    Step(year - 1, 400);
    CenturyYears(year);
  }

  lemma CenturyYears(year: int)
    ensures year % 400 == 0 ==> year % 100 == 0
    ensures year % 100 == 0 ==> year % 4 == 0
  {
    var q, r := year / 400, year / 100;
    if year % 400 == 0 {
      QuotientIs(year, 100, 4 * q, 0);
    }
    if year % 100 == 0 {
      QuotientIs(year, 4, 25 * r, 0);
    }
  }

  lemma Step(y: int, n: int)
    requires y >= 0 && n > 0
    ensures TruncDiv(y + 1, n) == TruncDiv(y, n) + (if (y + 1) % n == 0 then 1 else 0)
  {
    var q, r := y / n, y % n;
    Euclid(y, n);
    if r + 1 == n {
      MulNext(n, q);
      QuotientIs(y + 1, n, q + 1, 0);
    } else {
      QuotientIs(y + 1, n, q, r + 1);
    }
  }

  /** Every calendar day is one more than the day before: across months, leap days, years and centuries. */
  lemma NextDayIsNext(d: Date)
    requires Valid(d)
    ensures var n := NextDay(d); DayNumber(n.year, n.mon, n.day) == DayNumber(d.year, d.mon, d.day) + 1
  {
    hide DaysFrom0;
    if d.day == MonthLength(d.year, d.mon) {
      if d.mon < 11 {
        MonthsMeet(d.year, d.mon);
      } else {
        YearLength(d.year);
        YearEnds(d.year);
      }
    }
  }

  lemma MonthsMeet(year: int, mon: int)
    requires 0 <= mon < 11
    ensures DaysFrom1Jan(year, mon + 2, 1) == DaysFrom1Jan(year, mon + 1, MonthLength(year, mon)) + 1
  {}

  lemma YearEnds(year: int)
    ensures DaysFrom1Jan(year, 12, 31) == 364 + (if Leap(year) then 1 else 0) && DaysFrom1Jan(year, 1, 1) == 0
  {}

  lemma NextDaySeconds(t: Tm, d: Date)
    requires Valid(d) && d == Date(t.year + 1900, t.mon, t.mday)
    ensures Timegm(t.(year := NextDay(d).year - 1900, mon := NextDay(d).mon, mday := NextDay(d).day)) == Timegm(t) +
            SECONDS_PER_DAY
  {
    hide DayNumber, NextDay;
    NextDayIsNext(d);
  }

  lemma {:induction false} YearsGrow(a: int, b: int)
    requires 1 <= a <= b
    ensures DaysFrom0(a) + 365 * (b - a) <= DaysFrom0(b)
    decreases b - a
  {
    if a < b {
      YearLength(b - 1);
      YearsGrow(a, b - 1);
    }
  }

  lemma WithinYear(d: Date)
    requires Valid(d)
    ensures 0 <= DaysFrom1Jan(d.year, d.mon + 1, d.day) < 365 + (if Leap(d.year) then 1 else 0)
  {}

  /** The count tells dates apart, and in their order. */
  lemma DayNumberOrders(a: Date, b: Date)
    requires Valid(a) && Valid(b)
    ensures Earlier(a, b) <==> DayNumber(a.year, a.mon, a.day) < DayNumber(b.year, b.mon, b.day)
    ensures a == b <==> DayNumber(a.year, a.mon, a.day) == DayNumber(b.year, b.mon, b.day)
  {
    if a.year < b.year {
      EarlierYear(a, b);
    } else if b.year < a.year {
      EarlierYear(b, a);
    } else if a.mon < b.mon {
      EarlierMonth(a, b);
    } else if b.mon < a.mon {
      EarlierMonth(b, a);
    }
  }

  lemma EarlierYear(a: Date, b: Date)
    requires Valid(a) && Valid(b) && a.year < b.year
    ensures DayNumber(a.year, a.mon, a.day) < DayNumber(b.year, b.mon, b.day)
  {
    hide DaysFrom0, DaysFrom1Jan;
    YearLength(a.year);
    YearsGrow(a.year + 1, b.year);
    WithinYear(a);
    WithinYear(b);
  }

  lemma EarlierMonth(a: Date, b: Date)
    requires Valid(a) && Valid(b) && a.year == b.year && a.mon < b.mon
    ensures DayNumber(a.year, a.mon, a.day) < DayNumber(b.year, b.mon, b.day)
  {}

  /** The n-th day of the era. */
  function DateOf(n: nat): (d: Date)
    ensures Valid(d) && d.year >= 1970
  {
    if n == 0 then Date(1970, 0, 1) else NextDay(DateOf(n - 1))
  }

  /** Every number is the count of exactly one date from 1970 on. */
  lemma {:induction false} DateOfCounts(n: nat)
    ensures DayNumber(DateOf(n).year, DateOf(n).mon, DateOf(n).day) == n
  {
    if n > 0 {
      DateOfCounts(n - 1);
      NextDayIsNext(DateOf(n - 1));
    }
  }

  lemma OneDatePerDay(d: Date)
    requires Valid(d) && d.year >= 1970
    ensures DayNumber(d.year, d.mon, d.day) >= 0 && DateOf(DayNumber(d.year, d.mon, d.day)) == d
  {
    hide DayNumber, DateOf;
    DayNumberOrders(Date(1970, 0, 1), d);
    assert DayNumber(1970, 0, 1) == 0 by {
      FirstDay();
    }
    var n := DayNumber(d.year, d.mon, d.day);
    DateOfCounts(n);
    DayNumberOrders(DateOf(n), d);
  }

  lemma FirstDay()
    ensures DayNumber(1970, 0, 1) == 0
  {}

  /** Days of the year before a date. */
  function YearDay(d: Date): int
    requires 0 <= d.mon <= 11
    decreases d.mon
  {
    if d.mon == 0 then d.day - 1 else MonthLength(d.year, d.mon - 1) + YearDay(Date(d.year, d.mon - 1, d.day))
  }

  lemma {:induction false} YearDayIs(d: Date)
    requires 0 <= d.mon <= 11
    ensures YearDay(d) == DaysFrom1Jan(d.year, d.mon + 1, d.day)
    decreases d.mon
  {
    if d.mon > 0 {
      YearDayIs(Date(d.year, d.mon - 1, d.day));
      MonthsMeet(d.year, d.mon - 1);
    }
  }

  /** The formula of the POSIX standard, section 4.16 of its base definitions, in `tm_year` and the day of the year. */
  lemma TimegmIsPosix(t: Tm)
    requires t.year >= 70 && 0 <= t.mon <= 11
    ensures Timegm(t) == t.sec + t.min * 60 + t.hour * 3600 + YearDay(Date(t.year + 1900, t.mon, t.mday)) * 86400 +
                         (t.year - 70) * 31536000 + (t.year - 69) / 4 * 86400 - (t.year - 1) / 100 * 86400 +
                             (t.year + 299) / 400 * 86400
  {
    YearDayIs(Date(t.year + 1900, t.mon, t.mday));
    PosixLeapDays(t.year);
  }

  lemma PosixLeapDays(y: int)
    requires y >= 70
    ensures DaysFrom1970(y + 1900) == 365 * (y - 70) + (y - 69) / 4 - (y - 1) / 100 + (y + 299) / 400
  {
    Euclid(y - 69, 4);
    QuotientIs(y + 1899, 4, (y - 69) / 4 + 492, (y - 69) % 4);
    Euclid(y - 1, 100);
    QuotientIs(y + 1899, 100, (y - 1) / 100 + 19, (y - 1) % 100);
    Euclid(y + 299, 400);
    QuotientIs(y + 1899, 400, (y + 299) / 400 + 4, (y + 299) % 400);
  }

  // ---------------------------------------------------------------- tmToUnixTime

  /** `yearIsLeap` */
  function YearIsLeap(year: int): int {
    if (year % 4 == 0 && year % 100 != 0) || year % 400 == 0 then 1 else 0
  }

  const MONTHS := [31, 28, 31, 30, 31, 30, 31, 31, 30, 31, 30, 31]
  const LEAP_MONTHS := [31, 29, 31, 30, 31, 30, 31, 31, 30, 31, 30, 31]

  function U16(v: int): int { v % 0x1_0000 }

  function U32(v: int): (r: int)
    ensures 0 <= r < 0x1_0000_0000
  {
    v % 0x1_0000_0000
  }

  /** Days before the month `mon` of a year, for the twelve months and the one after them. */
  function DaysBefore(year: int, mon: int): int
    requires 0 <= mon <= 12
  {
    if mon == 12 then 365 + YearIsLeap(year) else DaysFrom1Jan(year, mon + 1, 1)
  }

  lemma MonthAdds(year: int, mon: int)
    requires 0 <= mon < 12
    ensures DaysBefore(year, mon + 1) == DaysBefore(year, mon) +
            (if YearIsLeap(year) != 0 then LEAP_MONTHS[mon] else MONTHS[mon])
    ensures DaysBefore(year, 0) == 0
  {}

  /** The loop over the months makes no turn for a negative month. */
  function Turns(t: Tm): nat { if t.mon < 0 then 0 else t.mon }

  /** The days `tmToUnixTime` counts. */
  function LoopDays(t: Tm): int
    requires t.mon <= 12
  {
    DaysFrom1970(U16(t.year + 1900)) + DaysBefore(U16(t.year + 1900), Turns(t)) + t.mday - 1
  }

  /** `tmToUnixTime`: the years and months are added up one by one, in unsigned 32 bits. */
  method TmToUnixTime(t: Tm) returns (seconds: int)
    requires t.mon <= 12
    ensures U16(t.year + 1900) < 1970 ==> seconds == 0
    ensures U16(t.year + 1900) >= 1970 ==>
              seconds == U32(LoopDays(t) * SECONDS_PER_DAY) + 3600 * t.hour + 60 * t.min + t.sec
  {
    hide DaysFrom0, DaysBefore, YearIsLeap, Leap;
    var days := 0;
    var year := U16(t.year + 1900);
    if year < 1970 {
      return 0;
    }
    for i := 1970 to year
      invariant days == U32(DaysFrom1970(i))
    {
      YearAdds(i);
      SumWraps(DaysFrom1970(i), 365 + YearIsLeap(i));
      days := U32(days + (if YearIsLeap(i) != 0 then 366 else 365));
    }
    ghost var before := DaysFrom1970(year);
    MonthAdds(year, 0);
    for i := 0 to Turns(t)
      invariant days == U32(before + DaysBefore(year, i))
    {
      MonthAdds(year, i);
      var n := if YearIsLeap(year) != 0 then LEAP_MONTHS[i] else MONTHS[i];
      SumWraps(before + DaysBefore(year, i), n);
      days := U32(days + n);
    }
    SumWraps(before + DaysBefore(year, Turns(t)), t.mday - 1);
    days := U32(days + t.mday - 1);
    ProductWraps(LoopDays(t));
    seconds := U32(days * SECONDS_PER_DAY);
    seconds := seconds + t.hour * 3600;
    seconds := seconds + t.min * 60;
    seconds := seconds + t.sec;
  }

  lemma YearAdds(year: int)
    requires year >= 1970
    ensures DaysFrom1970(year + 1) == DaysFrom1970(year) + 365 + YearIsLeap(year)
    ensures YearIsLeap(year) == 0 || YearIsLeap(year) == 1
  {
    YearLength(year);
  }

  lemma SumWraps(a: int, b: int)
    ensures U32(U32(a) + b) == U32(a + b)
  {}

  lemma ProductWraps(a: int)
    ensures U32(U32(a) * SECONDS_PER_DAY) == U32(a * SECONDS_PER_DAY)
  {
    var q := a / 0x1_0000_0000;
    Euclid(a, 0x1_0000_0000);
    var m := U32(a) * SECONDS_PER_DAY;
    Euclid(m, 0x1_0000_0000);
    QuotientIs(a * SECONDS_PER_DAY, 0x1_0000_0000, m / 0x1_0000_0000 + SECONDS_PER_DAY * q, m % 0x1_0000_0000);
  }

  /** The loops count the days of the closed form, in the thirteenth month too. */
  lemma LoopDaysAreDayNumber(t: Tm)
    requires 0 <= t.mon <= 12 && 1970 <= t.year + 1900 <= 0xFFFF
    ensures LoopDays(t) == DayNumber(t.year + 1900, t.mon, t.mday)
  {
    hide DaysFrom0;
    if t.mon == 12 {
      YearLength(t.year + 1900);
    }
  }

  /** The two conversions agree exactly when the seconds of the whole days fit 32 bits: from 1970 to 6 February 2106. */
  lemma ConversionsAgreeExactlyWhen(t: Tm, seconds: int)
    requires 0 <= t.mon <= 12 && 1970 <= t.year + 1900 <= 0xFFFF
    requires seconds == U32(LoopDays(t) * SECONDS_PER_DAY) + 3600 * t.hour + 60 * t.min + t.sec
    ensures seconds == Timegm(t) <==> 0 <= DayNumber(t.year + 1900, t.mon, t.mday) * SECONDS_PER_DAY < 0x1_0000_0000
    ensures t.year + 1900 <= 2105 && t.mday <= 31 && (t.mday >= 1 || (t.mday == 0 && t.year > 70)) ==>
            seconds == Timegm(t)
  {
    hide DayNumber, LoopDays;
    LoopDaysAreDayNumber(t);
    CountBounds(t);
    SmallWraps(DayNumber(t.year + 1900, t.mon, t.mday) * SECONDS_PER_DAY);
  }

  lemma SmallWraps(v: int)
    ensures U32(v) == v <==> 0 <= v < 0x1_0000_0000
  {}

  lemma CountBounds(t: Tm)
    requires 0 <= t.mon <= 12 && 1970 <= t.year + 1900 <= 0xFFFF
    ensures t.mday >= 1 || (t.mday == 0 && t.year > 70) ==> DayNumber(t.year + 1900, t.mon, t.mday) >= 0
    ensures t.year + 1900 <= 2105 && t.mday <= 31 ==>
            DayNumber(t.year + 1900, t.mon, t.mday) * SECONDS_PER_DAY < 0x1_0000_0000
  {
    hide DaysFrom0;
    YearsGrow(1970, t.year + 1900);
    if t.mon == 12 {
      YearLength(t.year + 1900);
    }
    if t.year + 1900 <= 2105 {
      YearsGrow(t.year + 1900, 2105);
      FirstDayOf2105();
    }
  }

  lemma FirstDayOf2105()
    ensures DaysFrom1970(2105) == 49308
  {}

  // ---------------------------------------------------------------- the RTC registers

  /** The bits of either number. */
  function Or(a: nat, b: nat): nat
    decreases a
  {
    if a == 0 then b else (if a % 2 == 1 || b % 2 == 1 then 1 else 0) + 2 * Or(a / 2, b / 2)
  }

  function Shl(v: nat, n: nat): nat
    decreases n
  {
    if n == 0 then v else 2 * Shl(v, n - 1)
  }

  /** `v << n` in 32 bits. */
  function Shl32(v: nat, n: nat): nat { U32(Shl(v, n)) }

  /** Numbers without a common bit: below bit n, and from bit n on. */
  lemma {:induction false} OrDisjoint(r: nat, v: nat, n: nat)
    requires r < Shl(1, n)
    ensures Or(r, Shl(v, n)) == r + Shl(v, n)
    decreases n
  {
    if r > 0 {
      OrDisjoint(r / 2, v, n - 1);
    }
  }

  lemma ShlIs(v: nat)
    ensures Shl(v, 4) == v * 16 && Shl(v, 8) == v * 0x100 && Shl(v, 16) == v * 0x1_0000
  {
    assert Shl(v, 8) == 16 * Shl(v, 4) && Shl(v, 12) == 16 * Shl(v, 8) && Shl(v, 16) == 16 * Shl(v, 12);
  }

  /** `binToBcd` */
  function BinToBcd(x: nat): nat { Or(Shl32(x / 10, 4), x % 10) }

  /** `(r & mask) >> n` for `p` = 2 to the n and a mask of `w` values. */
  function Field(r: nat, p: nat, w: nat): nat
    requires p > 0 && w > 0
  {
    r / p % w
  }

  datatype Registers = Registers(tr: nat, dr: nat)

  /** The check of `rtc_setTime`: no field is too large. A thirteenth month passes, and so does every negative field. */
  predicate Passes(t: Tm) {
    t.sec <= 59 && t.min <= 59 && t.hour <= 23 && t.mday <= 31 && t.mon <= 12 && 100 <= t.year <= 200
  }

  /** Three numbers as digits, 8 and 16 bits up. */
  function Joined(a: nat, b: nat, c: nat): nat {
    Or(Or(BinToBcd(a), Shl32(BinToBcd(b), 8)), Shl32(BinToBcd(c), 16))
  }

  /** The registers `rtc_setTime` writes. */
  function Packed(t: Tm): (r: Registers)
    requires Passes(t)
  {
    Registers(Joined(U32(t.sec), U32(t.min), U32(t.hour)), Joined(U32(t.mday), U32(t.mon + 1), U32(t.year - 100)))
  }

  /** Two digits. */
  function Bcd(x: nat): nat { x / 10 * 16 + x % 10 }

  lemma BcdOfDigits(q: nat, d: nat)
    requires q <= 10 && d <= 9
    ensures Or(Shl32(q, 4), d) == q * 16 + d
  {
    hide Or, Shl;
    ShlIs(q);
    ShlIs(1);
    OrCommutes(Shl(q, 4), d);
    OrDisjoint(d, q, 4);
  }

  lemma BcdOf(x: nat)
    requires x <= 100
    ensures BinToBcd(x) == Bcd(x) <= 0xA0
  {
    BcdOfDigits(x / 10, x % 10);
  }

  lemma {:induction false} OrCommutes(a: nat, b: nat)
    ensures Or(a, b) == Or(b, a)
    decreases a
  {
    if a > 0 && b > 0 {
      OrCommutes(a / 2, b / 2);
    } else if a > 0 {
      OrNothing(a);
    } else if b > 0 {
      OrNothing(b);
    }
  }

  lemma {:induction false} OrNothing(a: nat)
    ensures Or(a, 0) == a
    decreases a
  {
    if a > 0 {
      OrNothing(a / 2);
    }
  }

  /** Small numbers in three bytes do not meet. */
  lemma BytesApart(a: nat, b: nat, c: nat)
    requires a <= 59 && b <= 59 && c <= 100
    ensures Joined(a, b, c) == Bcd(a) + Bcd(b) * 0x100 + Bcd(c) * 0x1_0000
  {
    hide BinToBcd, Bcd, Or, Shl;
    BcdOf(a);
    BcdOf(b);
    BcdOf(c);
    ShlIs(Bcd(b));
    ShlIs(Bcd(c));
    ShlIs(1);
    OrDisjoint(Bcd(a), Bcd(b), 8);
    OrDisjoint(Bcd(a) + Bcd(b) * 0x100, Bcd(c), 16);
  }

  /** The time fields `time` reads: units in four bits, tens in two or three. */
  function UnpackedTime(tr: nat): (int, int, int) {
    (Field(tr, 1, 16) + Field(tr, 16, 8) * 10, Field(tr, 0x100, 16) + Field(tr, 0x1000, 8) * 10,
     Field(tr, 0x1_0000, 16) + Field(tr, 0x10_0000, 4) * 10)
  }

  /** The date fields `time` reads. */
  function UnpackedDate(dr: nat): (int, int, int) {
    (Field(dr, 1, 16) + Field(dr, 16, 4) * 10, Field(dr, 0x100, 16) + Field(dr, 0x1000, 2) * 10 - 1,
     Field(dr, 0x1_0000, 16) + Field(dr, 0x10_0000, 16) * 10 + 100)
  }

  function Unpacked(r: Registers): Tm {
    var c, d := UnpackedTime(r.tr), UnpackedDate(r.dr);
    Tm(c.0, c.1, c.2, d.0, d.1, d.2)
  }

  lemma FieldIs(r: nat, p: nat, w: nat, low: nat, v: nat, k: nat)
    requires low < p && v < w && r == low + p * (v + w * k)
    ensures Field(r, p, w) == v
  {
    QuotientIs(r, p, v + w * k, low);
    QuotientIs(v + w * k, w, k, v);
  }

  lemma Digits(x: nat)
    requires x <= 100
    ensures Bcd(x) == x / 10 * 16 + x % 10 <= 0xA0 && x / 10 <= 10 && x % 10 <= 9 && x / 10 * 10 + x % 10 == x
    ensures (x <= 13 ==> x / 10 < 2) && (x <= 31 ==> x / 10 < 4) && (x <= 59 ==> x / 10 < 8)
  {}

  /**
   * A time that passes the check is read back as it was set exactly when no field is negative, but for a month
   * of -1.
   */
  lemma ReadsBackExactlyWhen(t: Tm)
    requires Passes(t)
    ensures Unpacked(Packed(t)) == t <==> t.sec >= 0 && t.min >= 0 && t.hour >= 0 && t.mday >= 0 && t.mon >= -1
  {
    hide Bcd, Joined, Field;
    FieldsAreNatural(Packed(t));
    if t.sec >= 0 && t.min >= 0 && t.hour >= 0 && t.mday >= 0 && t.mon >= -1 {
      BytesApart(t.sec, t.min, t.hour);
      TimeBack(t.sec, t.min, t.hour, Packed(t).tr);
      BytesApart(t.mday, t.mon + 1, t.year - 100);
      DateBack(t.mday, t.mon + 1, t.year - 100, Packed(t).dr);
    }
  }

  lemma FieldsAreNatural(r: Registers)
    ensures var t := Unpacked(r); t.sec >= 0 && t.min >= 0 && t.hour >= 0 && t.mday >= 0 && t.mon >= -1
  {}

  lemma TimeBack(a: nat, b: nat, c: nat, r: nat)
    requires a <= 59 && b <= 59 && c <= 23 && r == Bcd(a) + Bcd(b) * 0x100 + Bcd(c) * 0x1_0000
    ensures UnpackedTime(r) == (a, b, c)
  {
    hide Bcd, Field;
    Digits(a);
    Digits(b);
    Digits(c);
    var x, y, z := Bcd(a), Bcd(b), Bcd(c);
    FieldIs(r, 1, 16, 0, a % 10, a / 10 + 16 * y + 0x1000 * z);
    FieldIs(r, 16, 8, a % 10, a / 10, 2 * y + 0x200 * z);
    FieldIs(r, 0x100, 16, x, b % 10, b / 10 + 16 * z);
    FieldIs(r, 0x1000, 8, x + 0x100 * (b % 10), b / 10, 2 * z);
    FieldIs(r, 0x1_0000, 16, x + 0x100 * y, c % 10, c / 10);
    FieldIs(r, 0x10_0000, 4, x + 0x100 * y + 0x1_0000 * (c % 10), c / 10, 0);
  }

  lemma DateBack(a: nat, b: nat, c: nat, r: nat)
    requires a <= 31 && b <= 13 && c <= 100 && r == Bcd(a) + Bcd(b) * 0x100 + Bcd(c) * 0x1_0000
    ensures UnpackedDate(r) == (a, b - 1, c + 100)
  {
    hide Bcd, Field;
    Digits(a);
    Digits(b);
    Digits(c);
    var x, y, z := Bcd(a), Bcd(b), Bcd(c);
    FieldIs(r, 1, 16, 0, a % 10, a / 10 + 16 * y + 0x1000 * z);
    FieldIs(r, 16, 4, a % 10, a / 10, 4 * y + 0x400 * z);
    FieldIs(r, 0x100, 16, x, b % 10, b / 10 + 16 * z);
    FieldIs(r, 0x1000, 2, x + 0x100 * (b % 10), b / 10, 8 * z);
    FieldIs(r, 0x1_0000, 16, x + 0x100 * y, c % 10, c / 10);
    FieldIs(r, 0x10_0000, 16, x + 0x100 * y + 0x1_0000 * (c % 10), c / 10, 0);
  }

  /** The clock registers of the device, and the functions over them. */
  class Rtc {
    var tr: nat
    var dr: nat

    /** `rtc_setTime`, for a running clock. */
    method SetTime(t: Tm) returns (ok: bool)
      modifies this
      ensures ok <==> Passes(t)
      ensures !ok <==>
              t.sec >= 60 || t.min >= 60 || t.hour >= 24 || t.mday >= 32 || t.mon >= 13 || !(100 <= t.year < 201)
      ensures if ok then Registers(tr, dr) == Packed(t) else tr == old(tr) && dr == old(dr)
    {
      hide BinToBcd, Or, Shl32, U32;
      if t.sec > 59 || t.min > 59 || t.hour > 23 || t.mday > 31 || t.mon > 12 || t.year < 100 || t.year > 200 {
        return false;
      }
      var rtctr, rtcdr := BinToBcd(U32(t.sec)), BinToBcd(U32(t.mday));
      rtctr := Or(rtctr, Shl32(BinToBcd(U32(t.min)), 8));
      rtctr := Or(rtctr, Shl32(BinToBcd(U32(t.hour)), 16));
      rtcdr := Or(rtcdr, Shl32(BinToBcd(U32(t.mon + 1)), 8));
      rtcdr := Or(rtcdr, Shl32(BinToBcd(U32(t.year - 100)), 16));
      tr, dr := rtctr, rtcdr;
      ok := true;
    }

    /**
     * `time`: right after a time was set that can be read back, its seconds by either conversion; a month of -1
     * counts as 0.
     */
    method Time(ghost t: Tm) returns (unixTime: int)
      requires Passes(t) && Registers(tr, dr) == Packed(t)
      requires t.sec >= 0 && t.min >= 0 && t.hour >= 0 && t.mday >= 0 && t.mon >= -1
      ensures unixTime == Timegm(if t.mon == -1 then t.(mon := 0) else t)
    {
      hide Timegm, LoopDays, Field, Packed;
      ReadsBackExactlyWhen(t);
      var clock, date := UnpackedTime(tr), UnpackedDate(dr);
      var tm := Tm(clock.0, clock.1, clock.2, date.0, date.1, date.2);
      assert tm == Unpacked(Registers(tr, dr));
      unixTime := TmToUnixTime(tm);
      if t.mon == -1 {
        NegativeMonth(t);
      }
      ConversionsAgreeExactlyWhen(if t.mon == -1 then t.(mon := 0) else t, unixTime);
    }
  }

  /** A date and a time of day as the fields of `struct tm`. */
  function TmOf(d: Date, hour: nat, min: nat, sec: nat): Tm { Tm(sec, min, hour, d.day, d.mon, d.year - 1900) }

  /**
   * `rtc_setTime` and `time`: every date from 2000 to 2100 and every time of day is taken, and comes back as
   * its seconds.
   */
  method SetThenTime(rtc: Rtc, d: Date, hour: nat, min: nat, sec: nat) returns (ok: bool, unixTime: int)
    requires Valid(d) && 2000 <= d.year <= 2100 && hour < 24 && min < 60 && sec < 60
    modifies rtc
    ensures ok
    ensures unixTime == Timegm(TmOf(d, hour, min, sec))
    ensures unixTime == 86400 * DayNumber(d.year, d.mon, d.day) + 3600 * hour + 60 * min + sec
  {
    hide Packed, DayNumber;
    var t := TmOf(d, hour, min, sec);
    ok := rtc.SetTime(t);
    unixTime := rtc.Time(t);
  }

  /** The digits of a legal time stand in the nibbles of the registers: hhmmss and yymmdd, months counted from one. */
  lemma PackedShowsDigits(d: Date, hour: nat, min: nat, sec: nat)
    requires Valid(d) && 2000 <= d.year <= 2099 && hour < 24 && min < 60 && sec < 60
    ensures var t := TmOf(d, hour, min, sec); var y, m := d.year - 2000, d.mon + 1;
            && Passes(t)
            && Packed(t).tr == sec % 10 + 0x10 * (sec / 10) + 0x100 * (min % 10) + 0x1000 * (min / 10) +
                               0x1_0000 * (hour % 10) + 0x10_0000 * (hour / 10)
            && Packed(t).dr == d.day % 10 + 0x10 * (d.day / 10) + 0x100 * (m % 10) + 0x1000 * (m / 10) +
                               0x1_0000 * (y % 10) + 0x10_0000 * (y / 10)
  {
    hide Joined, U32;
    Small(sec);
    Small(min);
    Small(hour);
    Small(d.day);
    Small(d.mon + 1);
    Small(d.year - 2000);
    JoinedDigits(sec, min, hour);
    JoinedDigits(d.day, d.mon + 1, d.year - 2000);
  }

  lemma Small(v: int)
    requires 0 <= v < 0x1_0000_0000
    ensures U32(v) == v
  {}

  lemma JoinedDigits(a: nat, b: nat, c: nat)
    requires a <= 59 && b <= 59 && c <= 99
    ensures Joined(a, b, c) == a % 10 + 0x10 * (a / 10) + 0x100 * (b % 10) + 0x1000 * (b / 10) +
                               0x1_0000 * (c % 10) + 0x10_0000 * (c / 10)
  {
    hide Joined;
    BytesApart(a, b, c);
  }

  lemma NegativeMonth(t: Tm)
    requires t.mon == -1
    ensures LoopDays(t) == LoopDays(t.(mon := 0))
  {}
}
