/** The closed-form days-to-civil computation against a calendar that counts
    day by day, and its rendering as an RFC 3339 timestamp. */
module Calendar {
  import opened Decimal

  datatype Date = Date(year: int, month: int, day: int)

  const SHIFT: nat := 719_468
  const ERA: nat := 146_097

  // ---- the reference calendar ----------------------------------------------

  predicate Leap(y: int) {
    y % 4 == 0 && (y % 100 != 0 || y % 400 == 0)
  }

  function DaysInMonth(y: int, m: int): int {
    if m == 2 then (if Leap(y) then 29 else 28)
    else if m == 4 || m == 6 || m == 9 || m == 11 then 30
    else 31
  }

  function NextDay(d: Date): Date {
    if d.day < DaysInMonth(d.year, d.month) then Date(d.year, d.month, d.day + 1)
    else if d.month < 12 then Date(d.year, d.month + 1, 1)
    else Date(d.year + 1, 1, 1)
  }

  /** The date `n` days after 1970-01-01, counted one day at a time. */
  function DayByDay(n: nat): Date {
    if n == 0 then Date(1970, 1, 1) else NextDay(DayByDay(n - 1))
  }

  // ---- the closed form -----------------------------------------------------

  /** Year of era from day of era, on unsigned integers. */
  function YearOfEra(doe: nat): nat
    requires doe < ERA
  {
    (doe - doe / 1460 + doe / 36_524 - doe / 146_096) / 365
  }

  /** The days of an era before its year `yoe` (years run from March). */
  function DaysBefore(yoe: nat): nat {
    365 * yoe + yoe / 4 - yoe / 100
  }

  /** Month (from March) and day of month from day of year. */
  function MonthPrime(doy: nat): nat {
    (5 * doy + 2) / 153
  }

  function CivilOfDay(y: nat, doy: nat): Date
    requires doy < 366
  {
    var mp := MonthPrime(doy);
    var d := doy - (153 * mp + 2) / 5 + 1;
    var m := if mp < 10 then mp + 3 else mp - 9;
    Date(if m <= 2 then y + 1 else y, m, d)
  }

  /** Seconds to date and time of day, on unsigned integers: every
      subtraction stays non-negative. */
  function CivilFromDays(days: nat): Date {
    var z := days + SHIFT;
    var era := z / ERA;
    var doe := z - era * ERA;
    YearOfEraIs(doe);
    var yoe := YearOfEra(doe);
    CivilOfDay(yoe + era * 400, doe - DaysBefore(yoe))
  }

  /** The signed variant, with Euclidean division and remainder. */
  function CivilFromDaysSigned(days: int): Date {
    var z := days + SHIFT;
    var era := z / ERA;
    var doe := z % ERA;
    var yoe := (doe - doe / 1460 + doe / 36_524 - doe / 146_096) / 365;
    var y := yoe + era * 400;
    var doy := doe - (365 * yoe + yoe / 4 - yoe / 100);
    var mp := (5 * doy + 2) / 153;
    var d := doy - (153 * mp + 2) / 5 + 1;
    var m := if mp < 10 then mp + 3 else mp - 9;
    Date(if m <= 2 then y + 1 else y, m, d)
  }

  // ---- the year of the era -------------------------------------------------

  /** A day of the era, by century, four-year cycle and year: the day the year starts on. */
  lemma DaysBeforeIs(q: nat, k: nat, j: nat)
    requires q < 4 && k < 25 && j < 4
    ensures DaysBefore(100 * q + 4 * k + j) == 36524 * q + 1461 * k + 365 * j
  {
    var y := 100 * q + 4 * k + j;
    assert y / 4 == 25 * q + k;
    assert y / 100 == q;
  }

  /** The correction terms of the closed form, by century and four-year cycle. */
  lemma CorrectedDay(doe: nat, q: nat, k: nat, t: nat) returns (e: nat)
    requires doe == 36524 * q + 1461 * k + t && q < 4 && k < 25 && t < 1461
    requires doe < ERA && (t == 1460 && k == 24 ==> q == 3)
    ensures e <= 1 && doe - doe / 1460 + doe / 36_524 - doe / 146_096 == 36500 * q + 1460 * k + t - e
    ensures t == 1460 ==> e == 1
    ensures e == 1 ==> t >= 1300
  {
    e := (24 * q + k + t) / 1460;
    assert doe == 1460 * (25 * q + k) + (24 * q + k + t);
    assert doe / 1460 == 25 * q + k + e;
    assert doe / 36_524 - doe / 146_096 == q by {
      assert doe - 36524 * q == 1461 * k + t;
    }
  }

  lemma YearOfEraOf(doe: nat, q: nat, k: nat, t: nat)
    requires doe == 36524 * q + 1461 * k + t && q < 4 && k < 25 && t < 1461
    requires doe < ERA && (t == 1460 && k == 24 ==> q == 3)
    ensures YearOfEra(doe) == 100 * q + 4 * k + (if t < 1095 then t / 365 else 3)
  {
    var e := CorrectedDay(doe, q, k, t);
    var j := if t < 1095 then t / 365 else 3;
    assert 36500 * q + 1460 * k + t - e == 365 * (100 * q + 4 * k + j) + (t - e - 365 * j);
    assert 0 <= t - e - 365 * j < 365;
  }

  lemma Decompose(doe: nat) returns (q: nat, k: nat, t: nat)
    requires doe < ERA
    ensures doe == 36524 * q + 1461 * k + t && q < 4 && k < 25 && t < 1461
    ensures t == 1460 && k == 24 ==> q == 3
  {
    q := if doe / 36524 < 4 then doe / 36524 else 3;
    var r := doe - 36524 * q;
    k, t := r / 1461, r % 1461;
  }

  /** The closed form finds the year of the era the day lies in. */
  lemma YearOfEraIs(doe: nat)
    requires doe < ERA
    ensures YearOfEra(doe) < 400
    ensures DaysBefore(YearOfEra(doe)) <= doe
    ensures doe < if YearOfEra(doe) == 399 then ERA else DaysBefore(YearOfEra(doe) + 1)
    ensures doe - DaysBefore(YearOfEra(doe)) < 366
  {
    hide YearOfEra, DaysBefore;
    var q, k, t := Decompose(doe);
    YearOfEraOf(doe, q, k, t);
    var j := if t < 1095 then t / 365 else 3;
    DaysBeforeIs(q, k, j);
    if j < 3 {
      DaysBeforeIs(q, k, j + 1);
    } else if k < 24 {
      DaysBeforeIs(q, k + 1, 0);
    } else if q < 3 {
      DaysBeforeIs(q + 1, 0, 0);
    }
  }

  /** Only the year the day lies in passes that test. */
  lemma YearOfEraUnique(doe: nat, y: nat)
    requires doe < ERA && y < 400 && DaysBefore(y) <= doe
    requires doe < if y == 399 then ERA else DaysBefore(y + 1)
    ensures YearOfEra(doe) == y
  {
    YearOfEraIs(doe);
    var x := YearOfEra(doe);
    if x < y {
      DaysBeforeGrows(x + 1, y);
    } else if y < x {
      DaysBeforeGrows(y + 1, x);
    }
  }

  lemma DaysBeforeGrows(a: nat, b: nat)
    requires a <= b
    ensures DaysBefore(a) <= DaysBefore(b)
  {
  }

  /** A year of the era, from March, is as long as the February in it makes it. */
  lemma YearLength(era: nat, y: nat)
    requires y < 400
    ensures (if y == 399 then ERA else DaysBefore(y + 1)) - DaysBefore(y) == 365 + (if Leap(400 * era + y + 1) then 1 else 0)
  {
    var n := y + 1;
    LeapOfEra(era, n);
    if y < 399 {
      assert n / 4 - y / 4 == if n % 4 == 0 then 1 else 0;
      assert n / 100 - y / 100 == if n % 100 == 0 then 1 else 0;
      assert n % 400 != 0;
    }
  }

  lemma LeapOfEra(era: nat, n: nat)
    ensures Leap(400 * era + n) == Leap(n)
  {
    Mod4(100 * era, n);
    Mod100(4 * era, n);
    Mod400(era, n);
    assert 400 * era + n == 4 * (100 * era) + n == 100 * (4 * era) + n;
  }

  lemma Mod4(k: nat, n: nat)
    ensures (4 * k + n) % 4 == n % 4
  {
  }

  lemma Mod100(k: nat, n: nat)
    ensures (100 * k + n) % 100 == n % 100
  {
  }

  lemma Mod400(k: nat, n: nat)
    ensures (400 * k + n) % 400 == n % 400
  {
  }

  // ---- the months of a year that starts in March ---------------------------

  /** The day of year on which month `mp` from March starts. */
  function MonthStart(mp: nat): nat
    requires mp <= 12
  {
    [0, 31, 61, 92, 122, 153, 184, 214, 245, 275, 306, 337, 367][mp]
  }

  lemma MonthPrimeIs(doy: nat, mp: nat)
    requires doy < 366 && mp < 12 && MonthStart(mp) <= doy < MonthStart(mp + 1)
    ensures MonthPrime(doy) == mp && (153 * mp + 2) / 5 == MonthStart(mp)
  {
    assert 153 * mp <= 5 * doy + 2 < 153 * (mp + 1);
  }

  lemma MonthOf(doy: nat) returns (mp: nat)
    requires doy < 366
    ensures mp < 12 && MonthStart(mp) <= doy < MonthStart(mp + 1)
  {
    mp := 11;
    while doy < MonthStart(mp)
      invariant mp < 12 && doy < MonthStart(mp + 1)
    {
      mp := mp - 1;
    }
  }

  /** Within a year, the next day of year is the next day. */
  lemma NextInYear(y: nat, doy: nat)
    requires doy + 1 < 365 + (if Leap(y + 1) then 1 else 0)
    ensures CivilOfDay(y, doy + 1) == NextDay(CivilOfDay(y, doy))
  {
    hide MonthPrime, Leap, CivilOfDay, MonthStart;
    var mp := MonthOf(doy);
    CivilOfMonth(y, doy, mp);
    LastDay(mp, y, doy);
    if doy + 1 < MonthStart(mp + 1) {
      CivilOfMonth(y, doy + 1, mp);
    } else {
      NextMonthStarts(mp, doy + 1);
      CivilOfMonth(y, doy + 1, mp + 1);
    }
  }

  /** The date of a day of the year, by its month from March. */
  lemma CivilOfMonth(y: nat, doy: nat, mp: nat)
    requires doy < 366 && mp < 12 && MonthStart(mp) <= doy < MonthStart(mp + 1)
    ensures CivilOfDay(y, doy) ==
      Date(if mp < 10 then y else y + 1, if mp < 10 then mp + 3 else mp - 9, doy - MonthStart(mp) + 1)
  {
    hide MonthPrime, MonthStart;
    MonthPrimeIs(doy, mp);
  }

  /** A month from March is as long as the calendar has it; February ends with the year. */
  lemma LastDay(mp: nat, y: nat, doy: nat)
    requires mp < 12 && MonthStart(mp) <= doy < MonthStart(mp + 1)
    requires doy + 1 < 365 + (if Leap(y + 1) then 1 else 0)
    ensures var days := DaysInMonth(if mp < 10 then y else y + 1, if mp < 10 then mp + 3 else mp - 9);
      doy - MonthStart(mp) + 1 < days <==> doy + 1 < MonthStart(mp + 1)
  {
    hide Leap;
  }

  lemma NextMonthStarts(mp: nat, doy: nat)
    requires mp < 12 && MonthStart(mp + 1) == doy < 366
    ensures mp < 11 && doy < MonthStart(mp + 2)
  {
  }

  /** The last day of the year is the last of February; 1 March follows. */
  lemma NextYear(y: nat)
    ensures CivilOfDay(y + 1, 0) == NextDay(CivilOfDay(y, 364 + (if Leap(y + 1) then 1 else 0)))
  {
    hide MonthPrime, Leap;
    MonthPrimeIs(0, 0);
    MonthPrimeIs(364, 11);
    MonthPrimeIs(365, 11);
  }

  /** The one subtraction of the day field never underflows. */
  lemma NoUnderflow(doy: nat)
    requires doy < 366
    ensures (153 * MonthPrime(doy) + 2) / 5 <= doy
  {
    var mp := MonthOf(doy);
    MonthPrimeIs(doy, mp);
  }

  // ---- refinement ----------------------------------------------------------

  /** The date of the next day number is the Gregorian successor of the date. */
  lemma CivilNext(days: nat)
    ensures CivilFromDays(days + 1) == NextDay(CivilFromDays(days))
  {
    hide YearOfEra, DaysBefore, CivilOfDay, NextDay, Leap;
    var z := days + SHIFT;
    var era, doe := z / ERA, z % ERA;
    YearOfEraIs(doe);
    var yoe := YearOfEra(doe);
    var doy := doe - DaysBefore(yoe);
    YearLength(era, yoe);
    var y := yoe + era * 400;
    assert CivilFromDays(days) == CivilOfDay(y, doy);
    if doe + 1 < ERA {
      assert (z + 1) / ERA == era && (z + 1) % ERA == doe + 1;
      if doy + 1 < 365 + (if Leap(y + 1) then 1 else 0) {
        YearOfEraUnique(doe + 1, yoe);
        NextInYear(y, doy);
      } else {
        YearLength(era, yoe + 1);
        YearOfEraUnique(doe + 1, yoe + 1);
        NextYear(y);
      }
    } else {
      assert (z + 1) / ERA == era + 1 && (z + 1) % ERA == 0;
      FirstOfEra();
      LastOfEra();
      YearOfEraUnique(doe, 399);
      NextYear(y);
    }
  }

  lemma FirstOfEra()
    ensures YearOfEra(0) == 0 && DaysBefore(0) == 0
  {
  }

  lemma LastOfEra()
    ensures DaysBefore(399) == 145_731
  {
  }

  /** The closed form is the day-by-day calendar, for every day number. */
  lemma {:induction false} CivilIsDayByDay(days: nat)
    ensures CivilFromDays(days) == DayByDay(days)
  {
    hide NextDay, CivilFromDays;
    if days == 0 {
      Epoch();
    } else {
      CivilIsDayByDay(days - 1);
      CivilNext(days - 1);
    }
  }

  lemma Epoch()
    ensures CivilFromDays(0) == Date(1970, 1, 1)
  {
    hide YearOfEra, DaysBefore, CivilOfDay;
    EpochYear();
    EpochDay();
    assert SHIFT / ERA == 4;
  }

  lemma EpochYear()
    ensures YearOfEra(135_080) == 369 && DaysBefore(369) == 134_774
  {
    assert 135_080 / 1460 == 92 && 135_080 / 36_524 == 3 && 135_080 / 146_096 == 0;
    assert 134_991 / 365 == 369;
  }

  lemma EpochDay()
    ensures CivilOfDay(1969, 306) == Date(1970, 1, 1)
  {
    hide MonthPrime;
    MonthPrimeIs(306, 10);
  }

  /** The two copies agree on every day number. */
  lemma SignedAgrees(days: nat)
    ensures CivilFromDaysSigned(days) == CivilFromDays(days)
  {
    assert (days + SHIFT) % ERA == days + SHIFT - (days + SHIFT) / ERA * ERA;
    YearOfEraIs((days + SHIFT) % ERA);
  }

  // ---- the timestamp -------------------------------------------------------

  /** `{n:0width}`. */
  function Padded(n: nat, width: nat): (s: string)
    ensures |s| >= width
    ensures |s| == width <==> |Digits(n)| <= width
  {
    var d := DecText(n);
    seq(if |d| < width then width - |d| else 0, i => '0') + d
  }

  function TimeOfDay(rem: nat): string {
    Padded(rem / 3600, 2) + ":" + Padded(rem % 3600 / 60, 2) + ":" + Padded(rem % 60, 2)
  }

  /** A date the calendar can reach. */
  predicate ValidDate(d: Date) {
    d.year >= 1970 && 1 <= d.month <= 12 && 1 <= d.day <= DaysInMonth(d.year, d.month)
  }

  lemma {:induction false} DayByDayIsValid(n: nat)
    ensures ValidDate(DayByDay(n))
  {
    if n > 0 {
      DayByDayIsValid(n - 1);
    }
  }

  /** Unix seconds to `YYYY-MM-DDTHH:MM:SSZ`. */
  function Render(secs: nat): string {
    CivilIsDayByDay(secs / 86_400);
    DayByDayIsValid(secs / 86_400);
    var d := CivilFromDays(secs / 86_400);
    Padded(d.year, 4) + "-" + Padded(d.month, 2) + "-" + Padded(d.day, 2) + "T" + TimeOfDay(secs % 86_400) + "Z"
  }

  /** The first second of the year 10000. */
  const YEAR_LIMIT: nat := 253_402_300_800

  lemma TwoDigits(n: nat)
    requires n < 100
    ensures |Padded(n, 2)| == 2
  {
    DigitCount(n, 2);
    assert Pow10(2) == 10 * Pow10(1) == 100;
  }

  lemma TimeLength(rem: nat)
    requires rem < 86_400
    ensures |TimeOfDay(rem)| == 8
  {
    TwoDigits(rem / 3600);
    TwoDigits(rem % 3600 / 60);
    TwoDigits(rem % 60);
  }

  lemma FourDigits(n: nat)
    ensures |Digits(n)| <= 4 <==> n < 10_000
  {
    DigitCount(n, 4);
    assert Pow10(2) == 100;
    assert Pow10(4) == 100 * Pow10(2);
  }

  /** January and February belong to the next civil year. */
  lemma CivilYear(y: nat, doy: nat)
    requires doy < 366
    ensures CivilOfDay(y, doy).year == if doy < 306 then y else y + 1
  {
    var mp := MonthOf(doy);
    MonthPrimeIs(doy, mp);
  }

  lemma FourDigitYears(days: nat)
    ensures CivilFromDays(days).year < 10_000 <==> days < YEAR_LIMIT / 86_400
  {
    hide YearOfEra, DaysBefore, CivilOfDay;
    var z := days + SHIFT;
    var era, doe := z / ERA, z % ERA;
    YearOfEraIs(doe);
    var yoe := YearOfEra(doe);
    CivilYear(yoe + era * 400, doe - DaysBefore(yoe));
    LastOfEra();
    if yoe < 399 {
      DaysBeforeGrows(yoe + 1, 399);
    }
    assert z == era * ERA + doe;
  }

  /** The rendering is the 20 characters of RFC 3339, with a four-digit year,
      exactly for the seconds before the year 10000. */
  lemma RenderLength(secs: nat)
    ensures |Render(secs)| == 20 <==> secs < YEAR_LIMIT
    ensures |Render(secs)| >= 20
  {
    hide CivilFromDays, Padded, TimeOfDay;
    var days := secs / 86_400;
    CivilIsDayByDay(days);
    DayByDayIsValid(days);
    var d := CivilFromDays(days);
    FourDigitYears(days);
    FourDigits(d.year);
    TwoDigits(d.month);
    TwoDigits(d.day);
    TimeLength(secs % 86_400);
    assert secs < YEAR_LIMIT <==> days < YEAR_LIMIT / 86_400;
  }

  // ---- reading the timestamp back ------------------------------------------

  /** The number a decimal field spells, leading zeros included. */
  ghost predicate Spells(s: string, n: nat) {
    s != "" && AllDigits(s) && Value(TextDigits(s)) == n
  }

  lemma {:induction false} LeadingZeros(zeros: seq<digit>, d: seq<digit>)
    requires forall k :: 0 <= k < |zeros| ==> zeros[k] == 0
    ensures Value(zeros + d) == Value(d)
  {
    if d != [] {
      LeadingZeros(zeros, d[..|d| - 1]);
      assert (zeros + d)[..|zeros + d| - 1] == zeros + d[..|d| - 1];
    } else if zeros != [] {
      LeadingZeros(zeros[..|zeros| - 1], []);
      assert zeros + [] == zeros && zeros[..|zeros| - 1] + [] == zeros[..|zeros| - 1];
    }
  }

  lemma ZerosInFront(z: string, d: string)
    requires AllDigits(d) && forall k :: 0 <= k < |z| ==> z[k] == '0'
    ensures AllDigits(z) && AllDigits(z + d) && TextDigits(z + d) == TextDigits(z) + TextDigits(d)
    ensures forall k :: 0 <= k < |z| ==> TextDigits(z)[k] == 0
  {
  }

  lemma PaddedSpells(n: nat, width: nat)
    ensures Spells(Padded(n, width), n)
  {
    hide TextDigits, Value, DecText, AllDigits;
    var d := DecText(n);
    var z: string := seq(if |d| < width then width - |d| else 0, i => '0');
    TextValueIs(n);
    ZerosInFront(z, d);
    LeadingZeros(TextDigits(z), TextDigits(d));
    assert Padded(n, width) == z + d;
  }

  /** Two decimal digits, and the number they spell. */
  lemma TwoDigitField(n: nat)
    requires n < 100
    ensures |Padded(n, 2)| == 2 && Spells(Padded(n, 2), n)
  {
    TwoDigits(n);
    PaddedSpells(n, 2);
  }

  /** Six fields and six separators, laid out from the end. */
  lemma Layout(year: string, month: string, day: string, h: string, m: string, s: string)
    requires |month| == |day| == |h| == |m| == |s| == 2
    ensures var r := year + "-" + month + "-" + day + "T" + (h + ":" + m + ":" + s) + "Z";
      var n := |year|;
      && |r| == n + 16 && r[..n] == year && r[n] == '-' && r[n + 1..n + 3] == month && r[n + 3] == '-'
      && r[n + 4..n + 6] == day && r[n + 6] == 'T' && r[n + 7..n + 9] == h && r[n + 9] == ':'
      && r[n + 10..n + 12] == m && r[n + 12] == ':' && r[n + 13..n + 15] == s && r[n + 15] == 'Z'
  {
  }

  /** What the characters of a timestamp say: `year` takes all but the last
      sixteen of them, and the rest is `-MM-DDThh:mm:ssZ`. */
  ghost predicate Says(r: string, d: Date, h: nat, m: nat, s: nat) {
    && |r| >= 20 && d.year >= 0 && d.month >= 0 && d.day >= 0
    && var n := |r| - 16;
    && Spells(r[..n], d.year) && r[n] == '-'
    && Spells(r[n + 1..n + 3], d.month) && r[n + 3] == '-'
    && Spells(r[n + 4..n + 6], d.day) && r[n + 6] == 'T'
    && Spells(r[n + 7..n + 9], h) && r[n + 9] == ':'
    && Spells(r[n + 10..n + 12], m) && r[n + 12] == ':'
    && Spells(r[n + 13..n + 15], s) && r[n + 15] == 'Z'
  }

  /** The timestamp reads back, for every number of seconds: its date is that
      many whole days after 1970-01-01, its time the rest of the seconds. */
  lemma RenderReadsBack(secs: nat, h: nat, m: nat, s: nat)
    requires h < 24 && m < 60 && s < 60 && secs % 86_400 == 3600 * h + 60 * m + s
    ensures Says(Render(secs), DayByDay(secs / 86_400), h, m, s)
    ensures |Render(secs)| == 20 <==> secs < 253_402_300_800
  {
    hide CivilFromDays, DayByDay, Padded, Spells, ValidDate;
    var d := DayByDay(secs / 86_400);
    RenderLength(secs);
    RenderFields(secs, h, m, s);
    DateFields(secs / 86_400);
    PaddedSpells(d.year, 4);
    TwoDigitField(d.month);
    TwoDigitField(d.day);
    TwoDigitField(h);
    TwoDigitField(m);
    TwoDigitField(s);
    Layout(Padded(d.year, 4), Padded(d.month, 2), Padded(d.day, 2), Padded(h, 2), Padded(m, 2), Padded(s, 2));
  }

  lemma DateFields(days: nat)
    ensures var d := DayByDay(days); d.year >= 1970 && 1 <= d.month < 100 && 1 <= d.day < 100
  {
    hide DayByDay;
    DayByDayIsValid(days);
  }

  lemma TimeFields(rem: nat, h: nat, m: nat, s: nat)
    requires h < 24 && m < 60 && s < 60 && rem == 3600 * h + 60 * m + s
    ensures rem / 3600 == h && rem % 3600 / 60 == m && rem % 60 == s
  {
    ByHour(h, 60 * m + s);
    ByMinute(m, s);
    ByMinute(60 * h + m, s);
    assert rem == 3600 * h + (60 * m + s) == 60 * (60 * h + m) + s;
  }

  lemma ByHour(h: nat, r: nat)
    requires r < 3600
    ensures (3600 * h + r) / 3600 == h && (3600 * h + r) % 3600 == r
  {
  }

  lemma ByMinute(m: nat, s: nat)
    requires s < 60
    ensures (60 * m + s) / 60 == m && (60 * m + s) % 60 == s
  {
  }

  lemma RenderFields(secs: nat, h: nat, m: nat, s: nat)
    requires h < 24 && m < 60 && s < 60 && secs % 86_400 == 3600 * h + 60 * m + s
    ensures var d := DayByDay(secs / 86_400);
      && d.year >= 0 && d.month >= 0 && d.day >= 0
      && Render(secs) == Padded(d.year, 4) + "-" + Padded(d.month, 2) + "-" + Padded(d.day, 2) + "T"
        + (Padded(h, 2) + ":" + Padded(m, 2) + ":" + Padded(s, 2)) + "Z"
  {
    hide CivilFromDays, DayByDay, Padded;
    CivilIsDayByDay(secs / 86_400);
    DateFields(secs / 86_400);
    TimeFields(secs % 86_400, h, m, s);
  }

  // ---- later is another timestamp ------------------------------------------

  /** A number that orders dates. */
  function DateKey(d: Date): int {
    372 * d.year + 31 * d.month + d.day
  }

  lemma {:induction false} DatesAscend(a: nat, b: nat)
    requires a < b
    ensures DateKey(DayByDay(a)) < DateKey(DayByDay(b))
  {
    hide Leap;
    DayByDayIsValid(b - 1);
    if a < b - 1 {
      DatesAscend(a, b - 1);
    }
  }

  lemma SpellsOne(s: string, a: nat, b: nat)
    requires Spells(s, a) && Spells(s, b)
    ensures a == b
  {
  }

  /** Two different times have two different timestamps. */
  lemma RenderIsInjective(a: nat, b: nat)
    requires Render(a) == Render(b)
    ensures a == b
  {
    hide Render, DayByDay, Spells, DateKey;
    var r, d, e := Render(a), DayByDay(a / 86_400), DayByDay(b / 86_400);
    var h, m, s := TimeOf(a % 86_400);
    var i, j, k := TimeOf(b % 86_400);
    RenderReadsBack(a, h, m, s);
    RenderReadsBack(b, i, j, k);
    SaysOnce(r, d, h, m, s, e, i, j, k);
    if a / 86_400 < b / 86_400 {
      DatesAscend(a / 86_400, b / 86_400);
    } else if b / 86_400 < a / 86_400 {
      DatesAscend(b / 86_400, a / 86_400);
    }
  }

  lemma SaysOnce(r: string, d: Date, h: nat, m: nat, s: nat, e: Date, i: nat, j: nat, k: nat)
    requires Says(r, d, h, m, s) && Says(r, e, i, j, k)
    ensures d == e && h == i && m == j && s == k
  {
    hide Spells;
    var n := |r| - 16;
    SpellsOne(r[..n], d.year, e.year);
    SpellsOne(r[n + 1..n + 3], d.month, e.month);
    SpellsOne(r[n + 4..n + 6], d.day, e.day);
    SpellsOne(r[n + 7..n + 9], h, i);
    SpellsOne(r[n + 10..n + 12], m, j);
    SpellsOne(r[n + 13..n + 15], s, k);
  }

  lemma TimeOf(rem: nat) returns (h: nat, m: nat, s: nat)
    requires rem < 86_400
    ensures h < 24 && m < 60 && s < 60 && rem == 3600 * h + 60 * m + s
  {
    h, m, s := rem / 3600, rem % 3600 / 60, rem % 60;
  }
}
