/**
 The Unix-time formatter of the TUI receipt (crates/jeryu-tui/src/tuiwright.rs).

 The reference is day counting: start at 1970-01-01 and step to the next
 calendar day, with the leap rule of Appendix C and the month lengths of
 section 5.7 of RFC 3339. The formatter's closed-form era arithmetic is proved
 to compute exactly that, in 64-bit integers.
 */
module Calendar {
  import opened Common

  newtype i64 = x: int | -0x8000_0000_0000_0000 <= x < 0x8000_0000_0000_0000

  datatype Date = Date(year: int, month: int, day: int)

  predicate IsLeap(year: int) {
    year % 4 == 0 && (year % 100 != 0 || year % 400 == 0)
  }

  function DaysInMonth(year: int, month: int): int {
    if month == 2 then (if IsLeap(year) then 29 else 28)
    else if month == 4 || month == 6 || month == 9 || month == 11 then 30
    else 31
  }

  predicate ValidDate(d: Date) {
    1 <= d.month <= 12 && 1 <= d.day <= DaysInMonth(d.year, d.month)
  }

  function NextDay(d: Date): Date {
    if d.day < DaysInMonth(d.year, d.month) then Date(d.year, d.month, d.day + 1)
    else if d.month < 12 then Date(d.year, d.month + 1, 1)
    else Date(d.year + 1, 1, 1)
  }

  /** The reference: the date `n` days after 1970-01-01, one day at a time. */
  function DateAfter(n: nat): (d: Date)
    ensures ValidDate(d) && d.year >= 1970
  {
    if n == 0 then Date(1970, 1, 1) else NextDay(DateAfter(n - 1))
  }

  // ----- the closed form, on mathematical integers -----

  function YearOfEra(doe: int): int {
    (doe - doe / 1460 + doe / 36_524 - doe / 146_096) / 365
  }

  /** First day, within an era, of the year `yoe` that starts in March. */
  function YearStart(yoe: int): int {
    365 * yoe + yoe / 4 - yoe / 100
  }

  /** The date of day `doy` of the March-based year `year`. */
  function DateOfYearDay(year: int, doy: int): Date {
    var mp := (5 * doy + 2) / 153;
    var d := doy - (153 * mp + 2) / 5 + 1;
    var m := if mp < 10 then mp + 3 else mp - 9;
    Date(if m <= 2 then year + 1 else year, m, d)
  }

  function DateOfEraDay(era: int, doe: int): Date {
    var yoe := YearOfEra(doe);
    DateOfYearDay(yoe + era * 400, doe - YearStart(yoe))
  }

  function CivilFromDays(days: int): Date {
    var z := days + 719_468;
    var era := z / 146_097;
    DateOfEraDay(era, z - era * 146_097)
  }

  // ----- the shifted year: which year holds a day of the era -----

  /** A March-based year has 366 days when the February that ends it is leap. */
  function YearLength(yoe: int): int {
    if IsLeap(yoe + 1) then 366 else 365
  }

  /** Centuries, four-year cycles, years and days of a day of the era. */
  lemma SplitDayOfEra(doe: int) returns (c: int, q: int, t: int, u: int)
    requires 0 <= doe < 146_097
    ensures 0 <= c < 4 && 0 <= q < 25 && 0 <= t < 4 && 0 <= u
    ensures u < YearLength(100 * c + 4 * q + t)
    ensures doe == 36_524 * c + 1461 * q + 365 * t + u
  {
    c := if doe == 146_096 then 3 else doe / 36_524;
    var r := doe - 36_524 * c;
    q := r / 1461;
    var s := r - 1461 * q;
    t := if s == 1460 then 3 else s / 365;
    u := s - 365 * t;
    LeapOfSplit(c, q, t);
  }

  lemma LeapOfSplit(c: int, q: int, t: int)
    requires 0 <= c < 4 && 0 <= q < 25 && 0 <= t < 4
    ensures IsLeap(100 * c + 4 * q + t + 1) <==> t == 3 && (q != 24 || c == 3)
    ensures YearStart(100 * c + 4 * q + t) == 36_524 * c + 1461 * q + 365 * t
  {
    var y := 100 * c + 4 * q + t;
    assert y / 4 == 25 * c + q && y / 100 == c;
    if t == 3 {
      assert (y + 1) % 4 == 0;
      assert (y + 1) % 100 == (4 * q + 4) % 100;
    } else {
      assert (y + 1) % 4 == t + 1;
    }
  }

  /** The corrected division finds the year whose days include `doe`. */
  lemma YearOfEraIsExact(doe: int)
    requires 0 <= doe < 146_097
    ensures 0 <= YearOfEra(doe) < 400
    ensures YearStart(YearOfEra(doe)) <= doe < YearStart(YearOfEra(doe)) + YearLength(YearOfEra(doe))
  {
    var c, q, t, u := SplitDayOfEra(doe);
    var y := 100 * c + 4 * q + t;
    LeapOfSplit(c, q, t);
    var k := if 24 * c + q + 365 * t + u >= 1460 then 1 else 0;
    assert doe / 1460 == 25 * c + q + k;
    if doe == 146_096 {
      assert u == 365 && t == 3;
    } else {
      assert doe / 36_524 == c && doe / 146_096 == 0;
    }
    assert 365 * y <= doe - doe / 1460 + doe / 36_524 - doe / 146_096 < 365 * y + 365;
    assert YearOfEra(doe) == y;
  }

  lemma YearStartsAreConsecutive(yoe: int)
    requires 0 <= yoe < 400
    ensures YearStart(yoe) + YearLength(yoe) == if yoe < 399 then YearStart(yoe + 1) else 146_097
  {
    var c, q, t := yoe / 100, yoe % 100 / 4, yoe % 4;
    assert yoe == 100 * c + 4 * q + t;
    LeapOfSplit(c, q, t);
    if t < 3 {
      LeapOfSplit(c, q, t + 1);
    } else if q < 24 {
      LeapOfSplit(c, q + 1, 0);
    } else if c < 3 {
      LeapOfSplit(c + 1, 0, 0);
    }
  }

  /** The day after `doe` is the next day of its year, or day 0 of the next one. */
  lemma NextDayOfEra(doe: int)
    requires 0 <= doe < 146_096
    ensures var y, y' := YearOfEra(doe), YearOfEra(doe + 1);
            if doe + 1 < YearStart(y) + YearLength(y) then y' == y
            else y' == y + 1 && doe + 1 == YearStart(y')
  {
    YearOfEraIsExact(doe);
    YearOfEraIsExact(doe + 1);
    var y, y' := YearOfEra(doe), YearOfEra(doe + 1);
    YearStartsAreConsecutive(y);
    YearStartsAreConsecutive(y');
    if y' < y {
      YearStartsAreMonotonic(y', y);
    } else if y + 1 < y' {
      YearStartsAreMonotonic(y + 1, y');
    }
  }

  lemma YearStartsAreMonotonic(a: int, b: int)
    requires 0 <= a < b < 400
    ensures YearStart(a) + YearLength(a) <= YearStart(b)
    decreases b - a
  {
    YearStartsAreConsecutive(a);
    if a + 1 < b {
      YearStartsAreMonotonic(a + 1, b);
    }
  }

  // ----- one day forward -----

  lemma NextDayOfYear(year: int, doy: int)
    requires 0 <= doy < (if IsLeap(year + 1) then 366 else 365)
    ensures ValidDate(DateOfYearDay(year, doy))
    ensures NextDay(DateOfYearDay(year, doy))
         == if doy + 1 < (if IsLeap(year + 1) then 366 else 365) then DateOfYearDay(year, doy + 1)
            else DateOfYearDay(year + 1, 0)
  {
    hide IsLeap;
    if doy < 184 {
      hide ValidDate, NextDay, DateOfYearDay;
      NextDayBeforeSeptember(year, doy);
    } else {
      var mp := (5 * doy + 2) / 153;
      assert 6 <= mp <= 11;
      if
      case mp == 6 => assert 184 <= doy < 214;
      case mp == 7 => assert 214 <= doy < 245;
      case mp == 8 => assert 245 <= doy < 275;
      case mp == 9 => assert 275 <= doy < 306;
      case mp == 10 => assert 306 <= doy < 337;
      case mp == 11 => assert 337 <= doy < 366;
    }
  }

  /** March to August, in years that start in March. */
  lemma NextDayBeforeSeptember(year: int, doy: int)
    requires 0 <= doy < 184
    ensures ValidDate(DateOfYearDay(year, doy))
    ensures NextDay(DateOfYearDay(year, doy)) == DateOfYearDay(year, doy + 1)
  {
    hide IsLeap;
    var mp := (5 * doy + 2) / 153;
    assert 0 <= mp <= 5;
    if
    case mp == 0 => assert 0 <= doy < 31;
    case mp == 1 => assert 31 <= doy < 61;
    case mp == 2 => assert 61 <= doy < 92;
    case mp == 3 => assert 92 <= doy < 122;
    case mp == 4 => assert 122 <= doy < 153;
    case mp == 5 => assert 153 <= doy < 184;
  }

  lemma LeapRepeatsEveryEra(year: int, era: int)
    ensures IsLeap(year + era * 400) == IsLeap(year)
  {
    RemainderOf4(year, 100 * era);
    RemainderOf100(year, 4 * era);
    RemainderOf400(year, era);
  }

  lemma RemainderOf4(a: int, k: int)
    ensures (a + 4 * k) % 4 == a % 4
  {
  }

  lemma RemainderOf100(a: int, k: int)
    ensures (a + 100 * k) % 100 == a % 100
  {
  }

  lemma RemainderOf400(a: int, k: int)
    ensures (a + 400 * k) % 400 == a % 400
  {
  }

  lemma LastDayEndsLastYear(doe: int)
    requires doe == 146_096
    ensures YearOfEra(doe) == 399 && doe + 1 == YearStart(399) + YearLength(399)
  {
    var y := YearOfEra(doe);
    YearOfEraIsExact(doe);
    YearStartsAreConsecutive(399);
    if y < 399 {
      YearStartsAreMonotonic(y, 399);
    }
  }

  lemma FirstYearStartsFirst()
    ensures YearOfEra(0) == 0 && YearStart(0) == 0
  {
  }

  lemma EraStartsWithItsFirstYear(era: int)
    ensures DateOfEraDay(era, 0) == DateOfYearDay(era * 400, 0)
  {
    hide DateOfYearDay, YearOfEra, YearStart;
    FirstYearStartsFirst();
  }

  /** A day of the era, as a day of its year: the day after it in the calendar. */
  lemma NextDayOfItsYear(era: int, doe: int)
    requires 0 <= doe < 146_097
    ensures var yoe := YearOfEra(doe);
      NextDay(DateOfEraDay(era, doe))
      == if doe + 1 < YearStart(yoe) + YearLength(yoe)
         then DateOfYearDay(yoe + era * 400, doe + 1 - YearStart(yoe))
         else DateOfYearDay(yoe + 1 + era * 400, 0)
  {
    hide IsLeap, YearOfEra, YearStart, NextDay, DateOfYearDay, ValidDate;
    var yoe := YearOfEra(doe);
    YearOfEraIsExact(doe);
    var year, doy := yoe + era * 400, doe - YearStart(yoe);
    LeapRepeatsEveryEra(yoe + 1, era);
    assert year + 1 == yoe + 1 + era * 400;
    NextDayOfYear(year, doy);
  }

  lemma NextDayInsideEra(era: int, doe: int)
    requires 0 <= doe < 146_097
    ensures doe < 146_096 ==> DateOfEraDay(era, doe + 1) == NextDay(DateOfEraDay(era, doe))
    ensures doe == 146_096 ==> NextDay(DateOfEraDay(era, doe)) == DateOfEraDay(era + 1, 0)
  {
    hide IsLeap, YearOfEra, YearStart, NextDay, DateOfYearDay, YearLength;
    NextDayOfItsYear(era, doe);
    if doe < 146_096 {
      NextDayOfEra(doe);
    } else {
      LastDayEndsLastYear(doe);
      EraStartsWithItsFirstYear(era + 1);
      assert 399 + 1 + era * 400 == (era + 1) * 400;
    }
  }

  /** Days run through each era in turn. */
  lemma EraDaysAdvance(f: (int, int) -> Date, z: int)
    requires forall era, doe | 0 <= doe < 146_096 :: f(era, doe + 1) == NextDay(f(era, doe))
    requires forall era :: f(era + 1, 0) == NextDay(f(era, 146_096))
    ensures var era, era' := z / 146_097, (z + 1) / 146_097;
            f(era', z + 1 - era' * 146_097) == NextDay(f(era, z - era * 146_097))
  {
    var era, doe := z / 146_097, z % 146_097;
    assert z - era * 146_097 == doe;
    if doe < 146_096 {
      assert (z + 1) / 146_097 == era;
    } else {
      assert (z + 1) / 146_097 == era + 1;
    }
  }

  /** The closed form steps through the calendar one day at a time. */
  lemma CivilStep(days: nat)
    ensures CivilFromDays(days + 1) == NextDay(CivilFromDays(days))
  {
    hide DateOfEraDay, NextDay;
    var f := (era: int, doe: int) => DateOfEraDay(era, doe);
    forall era, doe | 0 <= doe < 146_096 ensures f(era, doe + 1) == NextDay(f(era, doe)) {
      NextDayInsideEra(era, doe);
    }
    forall era ensures f(era + 1, 0) == NextDay(f(era, 146_096)) {
      NextDayInsideEra(era, 146_096);
    }
    EraDaysAdvance(f, days + 719_468);
  }

  lemma EpochIsDayZero()
    ensures CivilFromDays(0) == Date(1970, 1, 1)
  {
    assert YearOfEra(135_080) == 369 && YearStart(369) == 134_774 by {
      assert (135_080 - 92 + 3 - 0) / 365 == 369;
    }
    assert DateOfYearDay(1969, 306) == Date(1970, 1, 1);
    assert 719_468 / 146_097 == 4;
    assert DateOfEraDay(4, 135_080) == DateOfYearDay(1969, 306);
  }

  /** Whatever starts at the epoch and steps by calendar days is the day count. */
  lemma {:induction false} DayCountIsUnique(f: nat -> Date, n: nat)
    requires f(0) == Date(1970, 1, 1)
    requires forall k: nat {:trigger NextDay(f(k))} :: f(k + 1) == NextDay(f(k))
    ensures f(n) == DateAfter(n)
  {
    if n > 0 {
      DayCountIsUnique(f, n - 1);
      assert f(n) == NextDay(f(n - 1));
    }
  }

  /** The closed form is day counting, for every day since the epoch. */
  lemma CivilIsDayCount(n: nat)
    ensures CivilFromDays(n) == DateAfter(n)
  {
    var f := (k: nat) => CivilFromDays(k);
    EpochIsDayZero();
    forall k: nat ensures f(k + 1) == NextDay(f(k)) {
      CivilStep(k);
    }
    DayCountIsUnique(f, n);
  }

  // ----- the text -----

  function Digit(n: nat): char
    requires n < 10
  {
    "0123456789"[n]
  }

  /** `n` in decimal, padded with zeros to at least `width` digits (`{n:0width}`). */
  function Padded(n: nat, width: nat): (s: string)
    ensures |s| >= width && |s| >= 1
    ensures width >= 1 && n < Pow10(width) ==> |s| == width
    decreases n, width
  {
    if n < 10 && width <= 1 then [Digit(n)]
    else Padded(n / 10, if width == 0 then 0 else width - 1) + [Digit(n % 10)]
  }

  function Pow10(k: nat): nat {
    if k == 0 then 1 else 10 * Pow10(k - 1)
  }

  /** The text of one second of one day. */
  function IsoText(d: Date, secondOfDay: nat): string
    requires 0 <= d.year && ValidDate(d) && secondOfDay < 86_400
  {
    var head := Padded(d.year, 4) + "-" + Padded(d.month, 2) + "-" + Padded(d.day, 2) + "T";
    var hh, mm, ss := secondOfDay / 3600, secondOfDay % 3600 / 60, secondOfDay % 60;
    head + Padded(hh, 2) + ":" + Padded(mm, 2) + ":" + Padded(ss, 2) + "Z"
  }

  function YearOfEra64(doe: i64): (yoe: i64)
    requires 0 <= doe < 146_097
    ensures yoe as int == YearOfEra(doe as int) && 0 <= yoe < 400
    ensures YearStart(yoe as int) <= doe as int < YearStart(yoe as int) + 366
  {
    YearOfEraIsExact(doe as int);
    (doe - doe / 1460 + doe / 36_524 - doe / 146_096) / 365
  }

  function DateOfYearDay64(year: i64, doy: i64): (r: (i64, i64, i64))
    requires 0 <= year < 0x1000_0000_0000 && 0 <= doy < 366
    ensures Date(r.0 as int, r.1 as int, r.2 as int) == DateOfYearDay(year as int, doy as int)
  {
    var mp := (5 * doy + 2) / 153;
    var d := doy - (153 * mp + 2) / 5 + 1;
    var m := if mp < 10 then mp + 3 else mp - 9;
    (if m <= 2 then year + 1 else year, m, d)
  }

  /** The era of a day and the day of the era: small enough for what follows. */
  lemma EraOfDay(days: int, era: int, doe: int)
    requires 0 <= days <= 0x7fff_ffff_ffff_ffff / 86_400
    requires era == (days + 719_468) / 146_097 && doe == days + 719_468 - era * 146_097
    ensures 0 <= era < 0x4000_0000 && 0 <= doe < 146_097
    ensures CivilFromDays(days) == DateOfEraDay(era, doe)
  {
    hide DateOfEraDay;
  }

  /** Days of the year fit a year, and the year of the era is the one in use. */
  lemma YearOfEraDay(era: int, doe: int, yoe: int, doy: int)
    requires 0 <= doe < 146_097 && yoe == YearOfEra(doe)
    requires doy == doe - (365 * yoe + yoe / 4 - yoe / 100)
    ensures 0 <= yoe < 400 && 0 <= doy < 366
    ensures DateOfEraDay(era, doe) == DateOfYearDay(yoe + era * 400, doy)
  {
    YearOfEraIsExact(doe);
    hide YearOfEra, DateOfYearDay, IsLeap;
  }

  /** Year, month and day in signed 64-bit integers: no intermediate value overflows. */
  function Civil64(days: i64): (r: (i64, i64, i64))
    requires 0 <= days <= 0x7fff_ffff_ffff_ffff / 86_400
    ensures Date(r.0 as int, r.1 as int, r.2 as int) == CivilFromDays(days as int)
  {
    var z := days + 719_468;
    var era := z / 146_097;
    EraOfDay(days as int, era as int, days as int + 719_468 - era as int * 146_097);
    var doe := z - era * 146_097;
    var yoe := YearOfEra64(doe);
    YearOfEraDay(era as int, doe as int, yoe as int,
                 doe as int - (365 * yoe as int + yoe as int / 4 - yoe as int / 100));
    var y := yoe + era * 400;
    var doy := doe - (365 * yoe + yoe / 4 - yoe / 100);
    DateOfYearDay64(y, doy)
  }

  /** `None` for an instant before the epoch, else the text of its calendar day and time. */
  function ChronoLikeIso(secs: i64): (r: Option<string>)
    ensures r == if secs < 0 then None
                 else Some(IsoText(DateAfter(secs as int / 86_400), secs as int % 86_400))
  {
    if secs < 0 then None
    else
      var days := secs / 86_400;
      var rem := secs % 86_400;
      var (hh, mm, ss) := (rem / 3600, (rem % 3600) / 60, rem % 60);
      var (y, m, d) := Civil64(days);
      CivilIsDayCount(days as nat);
      Some(Padded(y as nat, 4) + "-" + Padded(m as nat, 2) + "-" + Padded(d as nat, 2) + "T"
           + Padded(hh as nat, 2) + ":" + Padded(mm as nat, 2) + ":" + Padded(ss as nat, 2) + "Z")
  }

  // ----- distinct seconds have distinct texts -----

  predicate Before(a: Date, b: Date) {
    a.year < b.year || (a.year == b.year &&
      (a.month < b.month || (a.month == b.month && a.day < b.day)))
  }

  lemma {:induction false} DaysAdvance(m: nat, n: nat)
    requires m < n
    ensures Before(DateAfter(m), DateAfter(n))
  {
    assert DateAfter(n) == NextDay(DateAfter(n - 1));
    if m < n - 1 {
      DaysAdvance(m, n - 1);
    }
  }

  /** Reads a decimal text back. */
  function Value(s: string): int {
    if s == "" then 0 else 10 * Value(s[..|s| - 1]) + (s[|s| - 1] as int - '0' as int)
  }

  lemma {:induction false} PaddedReadsBack(n: nat, width: nat)
    ensures Value(Padded(n, width)) == n
    decreases n, width
  {
    var s := Padded(n, width);
    assert forall k | 0 <= k < 10 :: Digit(k) as int - '0' as int == k;
    if !(n < 10 && width <= 1) {
      PaddedReadsBack(n / 10, if width == 0 then 0 else width - 1);
      assert s[..|s| - 1] == Padded(n / 10, if width == 0 then 0 else width - 1);
    }
  }

  lemma FieldsOfParts(y: string, m: string, d: string, h: string, i: string, s: string)
    requires |m| == |d| == |h| == |i| == |s| == 2
    ensures var x := y + "-" + m + "-" + d + "T" + h + ":" + i + ":" + s + "Z";
      var n := |x|;
      && n == |y| + 16
      && x[..n - 16] == y && x[n - 15..n - 13] == m && x[n - 12..n - 10] == d
      && x[n - 9..n - 7] == h && x[n - 6..n - 4] == i && x[n - 3..n - 1] == s
  {
  }

  lemma FieldsFromEnd(d: Date, s: nat)
    requires 0 <= d.year && ValidDate(d) && s < 86_400
    ensures var x := IsoText(d, s); var n := |x|;
      && n >= 20
      && x[..n - 16] == Padded(d.year, 4)
      && x[n - 15..n - 13] == Padded(d.month, 2)
      && x[n - 12..n - 10] == Padded(d.day, 2)
      && x[n - 9..n - 7] == Padded(s / 3600, 2)
      && x[n - 6..n - 4] == Padded(s % 3600 / 60, 2)
      && x[n - 3..n - 1] == Padded(s % 60, 2)
  {
    assert Pow10(1) == 10 && Pow10(2) == 100;
    hide Padded;
    FieldsOfParts(Padded(d.year, 4), Padded(d.month, 2), Padded(d.day, 2),
                  Padded(s / 3600, 2), Padded(s % 3600 / 60, 2), Padded(s % 60, 2));
    assert IsoText(d, s) == Padded(d.year, 4) + "-" + Padded(d.month, 2) + "-" + Padded(d.day, 2) + "T"
      + Padded(s / 3600, 2) + ":" + Padded(s % 3600 / 60, 2) + ":" + Padded(s % 60, 2) + "Z";
  }

  /** The fields sit at fixed distances from the end, so the text can be read back. */
  function ReadBack(x: string): (Date, int)
    requires |x| >= 20
  {
    var n := |x|;
    (Date(Value(x[..n - 16]), Value(x[n - 15..n - 13]), Value(x[n - 12..n - 10])),
     3600 * Value(x[n - 9..n - 7]) + 60 * Value(x[n - 6..n - 4]) + Value(x[n - 3..n - 1]))
  }

  lemma SecondsOfFields(s: nat)
    ensures 3600 * (s / 3600) + 60 * (s % 3600 / 60) + s % 60 == s
  {
    assert s % 3600 % 60 == s % 60 by {
      assert s == 60 * (60 * (s / 3600)) + s % 3600;
    }
  }

  lemma PaddedFieldsReadBack(x: string, d: Date, h: nat, i: nat, s: nat)
    requires |x| >= 20 && 0 <= d.year && 0 <= d.month && 0 <= d.day
    requires var n := |x|;
      && x[..n - 16] == Padded(d.year, 4)
      && x[n - 15..n - 13] == Padded(d.month, 2)
      && x[n - 12..n - 10] == Padded(d.day, 2)
      && x[n - 9..n - 7] == Padded(h, 2)
      && x[n - 6..n - 4] == Padded(i, 2)
      && x[n - 3..n - 1] == Padded(s, 2)
    ensures ReadBack(x) == (d, 3600 * h + 60 * i + s)
  {
    hide Padded, Value;
    PaddedReadsBack(d.year, 4);
    PaddedReadsBack(d.month, 2);
    PaddedReadsBack(d.day, 2);
    PaddedReadsBack(h, 2);
    PaddedReadsBack(i, 2);
    PaddedReadsBack(s, 2);
  }

  lemma IsoTextReadsBack(d: Date, s: nat)
    requires 0 <= d.year && ValidDate(d) && s < 86_400
    ensures |IsoText(d, s)| >= 20 && ReadBack(IsoText(d, s)) == (d, s)
  {
    hide Padded, Value, ReadBack, IsoText;
    FieldsFromEnd(d, s);
    PaddedFieldsReadBack(IsoText(d, s), d, s / 3600, s % 3600 / 60, s % 60);
    SecondsOfFields(s);
  }

  /** Two instants print alike only when they are the same second. */
  lemma DistinctSecondsPrintDistinctly(a: i64, b: i64)
    requires 0 <= a && 0 <= b && ChronoLikeIso(a) == ChronoLikeIso(b)
    ensures a == b
  {
    hide IsoText, DateAfter, ReadBack;
    var m, n := a as int / 86_400, b as int / 86_400;
    IsoTextReadsBack(DateAfter(m), a as int % 86_400);
    IsoTextReadsBack(DateAfter(n), b as int % 86_400);
    if m < n {
      DaysAdvance(m, n);
    } else if n < m {
      DaysAdvance(n, m);
    }
  }
}
