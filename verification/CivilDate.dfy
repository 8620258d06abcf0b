/** The closed-form calendar of the snapshot clock, against the Gregorian calendar. */
module CivilDate {
  import opened ByteText

  datatype Date = Date(year: int, month: int, day: int)

  // ----- the Gregorian calendar, leap rule of Appendix C of RFC 3339 -----

  predicate IsLeap(year: int) { year % 4 == 0 && (year % 100 != 0 || year % 400 == 0) }

  function DaysIn(year: int, month: int): int {
    if month == 2 then (if IsLeap(year) then 29 else 28)
    else if month == 4 || month == 6 || month == 9 || month == 11 then 30
    else 31
  }

  predicate IsDate(date: Date) { 1 <= date.month <= 12 && 1 <= date.day <= DaysIn(date.year, date.month) }

  /** The next calendar day. */
  function Successor(date: Date): Date {
    if date.day < DaysIn(date.year, date.month) then date.(day := date.day + 1)
    else if date.month < 12 then Date(date.year, date.month + 1, 1)
    else Date(date.year + 1, 1, 1)
  }

  // ----- the closed form -----

  /** Division that truncates toward zero. */
  function TruncatingDiv(a: int, b: int): int
    requires b > 0
  {
    if a >= 0 then a / b else -((-a) / b)
  }

  function Era(shifted: int): int {
    TruncatingDiv(if shifted >= 0 then shifted else shifted - 146_096, 146_097)
  }

  /** From here on every dividend is non-negative. */
  function YearOfEra(dayOfEra: int): int {
    (dayOfEra - dayOfEra / 1_460 + dayOfEra / 36_524 - dayOfEra / 146_096) / 365
  }

  function DateOf(year: int, dayOfYear: int): Date {
    var monthPrime := (5 * dayOfYear + 2) / 153;
    var day := dayOfYear - (153 * monthPrime + 2) / 5 + 1;
    var month := monthPrime + if monthPrime < 10 then 3 else -9;
    Date(year + (if month <= 2 then 1 else 0), month, day)
  }

  function CivilDate(daysSinceEpoch: int): Date {
    var shifted := daysSinceEpoch + 719_468;
    var era := Era(shifted);
    DateInEra(era, shifted - era * 146_097)
  }

  function DateInEra(era: int, dayOfEra: int): Date {
    var yearOfEra := YearOfEra(dayOfEra);
    var year := yearOfEra + era * 400;
    var dayOfYear := dayOfEra - (365 * yearOfEra + yearOfEra / 4 - yearOfEra / 100);
    DateOf(year, dayOfYear)
  }

  // ----- the inverse: counting days by March-based years -----

  /** Months counted from March, so that a leap day ends its year. */
  function MonthPrime(date: Date): int { if date.month > 2 then date.month - 3 else date.month + 9 }

  function MarchYear(date: Date): int { if date.month > 2 then date.year else date.year - 1 }

  function DayOfYear(date: Date): int { (153 * MonthPrime(date) + 2) / 5 + date.day - 1 }

  function DayOfEra(yearOfEra: int, dayOfYear: int): int {
    365 * yearOfEra + yearOfEra / 4 - yearOfEra / 100 + dayOfYear
  }

  /** The day number of a calendar date. */
  function DayNumber(date: Date): int {
    var year := MarchYear(date);
    146_097 * (year / 400) + DayOfEra(year % 400, DayOfYear(date)) - 719_468
  }

  /** A day of a March-based year: its 366th day exists when the following February has 29 days. */
  predicate IsDayOfYear(yearOfEra: int, dayOfYear: int) {
    0 <= yearOfEra < 400 && 0 <= dayOfYear <= 365 && (dayOfYear == 365 ==> IsLeap(yearOfEra + 1))
  }

  /** Truncating division with the correction is division rounding down. */
  lemma EraIsFloor(shifted: int)
    ensures Era(shifted) == shifted / 146_097
  {
    if shifted < 0 {
      var q, r := shifted / 146_097, shifted % 146_097;
      assert -(shifted - 146_096) == 146_097 * (-q) + (146_096 - r);
    }
  }

  /** A year of the era by its century, its four-year cycle and its place in that cycle. */
  lemma YearParts(yearOfEra: int) returns (c: int, q: int, y: int)
    requires 0 <= yearOfEra < 400
    ensures 0 <= c <= 3 && 0 <= q <= 24 && 0 <= y <= 3 && yearOfEra == 100 * c + 4 * q + y
    ensures yearOfEra / 4 == 25 * c + q && yearOfEra / 100 == c
    ensures IsLeap(yearOfEra + 1) <==> y == 3 && (q == 24 ==> c == 3)
  {
    c, q, y := yearOfEra / 100, yearOfEra % 100 / 4, yearOfEra % 4;
  }

  /** The closed form recovers the year from the day of the era. */
  lemma YearIsRecovered(yearOfEra: int, dayOfYear: int)
    requires IsDayOfYear(yearOfEra, dayOfYear)
    ensures var n := DayOfEra(yearOfEra, dayOfYear);
            && 0 <= n < 146_097
            && YearOfEra(n) == yearOfEra
  {
    var c, q, y := YearParts(yearOfEra);
    var n := DayOfEra(yearOfEra, dayOfYear);
    var inCentury := 1_461 * q + 365 * y + dayOfYear;
    assert n == 36_524 * c + inCentury;
    var rest := 24 * c + q + 365 * y + dayOfYear;
    assert n == 1_460 * (25 * c + q) + rest && 0 <= rest < 2_920;
    var e := if rest < 1_460 then 0 else 1;
    assert n / 1_460 == 25 * c + q + e;
    if q == 24 && y == 3 && dayOfYear == 365 {
      assert c == 3 && n == 146_096;
    } else {
      assert inCentury < 36_524;
      assert n / 36_524 == c;
      assert n / 146_096 == 0;
      assert dayOfYear == 365 ==> e == 1;
      assert dayOfYear == 0 ==> e == 0;
    }
  }

  /** Every day of the era is a day of one of its years. */
  lemma DayOfEraSplits(n: int) returns (yearOfEra: int, dayOfYear: int)
    requires 0 <= n < 146_097
    ensures IsDayOfYear(yearOfEra, dayOfYear) && DayOfEra(yearOfEra, dayOfYear) == n
  {
    var c := if n < 36_524 then 0 else if n < 73_048 then 1 else if n < 109_572 then 2 else 3;
    var r := n - 36_524 * c;
    var q := r / 1_461;
    var s := r - 1_461 * q;
    var y := if s < 365 then 0 else if s < 730 then 1 else if s < 1_095 then 2 else 3;
    yearOfEra, dayOfYear := 100 * c + 4 * q + y, s - 365 * y;
    assert q <= 24;
    var c', q', y' := YearParts(yearOfEra);
    assert c' == c && q' == q && y' == y;
  }

  lemma By4(x: int, q: int, r: int)
    requires x == 4 * q + r && 0 <= r < 4
    ensures x % 4 == r
  {
  }

  lemma By100(x: int, q: int, r: int)
    requires x == 100 * q + r && 0 <= r < 100
    ensures x % 100 == r
  {
  }

  lemma By400(x: int, q: int, r: int)
    requires x == 400 * q + r && 0 <= r < 400
    ensures x % 400 == r
  {
  }

  lemma RemaindersInEra(era: int, n: int)
    ensures (400 * era + n) % 4 == n % 4 && (400 * era + n) % 100 == n % 100 && (400 * era + n) % 400 == n % 400
  {
    By4(400 * era + n, 100 * era + n / 4, n % 4);
    By100(400 * era + n, 4 * era + n / 100, n % 100);
    By400(400 * era + n, era + n / 400, n % 400);
  }

  lemma LeapByEra(year: int)
    ensures IsLeap(year + 1) <==> IsLeap(year % 400 + 1)
  {
    RemaindersInEra(year / 400, year % 400 + 1);
    assert 400 * (year / 400) + (year % 400 + 1) == year + 1;
  }

  /** Month and day are recovered from the day of the year. */
  lemma MonthIsRecovered(date: Date)
    requires IsDate(date)
    ensures IsDayOfYear(MarchYear(date) % 400, DayOfYear(date))
    ensures DateOf(MarchYear(date), DayOfYear(date)) == date
  {
    LeapByEra(MarchYear(date));
    var m := MonthPrime(date);
    assert m == 0 || m == 1 || m == 2 || m == 3 || m == 4 || m == 5 || m == 6 || m == 7 || m == 8 || m == 9
           || m == 10 || m == 11;
  }

  /** The closed form inverts day counting. */
  lemma CivilDateOfDayNumber(date: Date)
    requires IsDate(date)
    ensures CivilDate(DayNumber(date)) == date
  {
    MonthIsRecovered(date);
    CivilDateOfParts(date, MarchYear(date), DayOfYear(date));
  }

  lemma CivilDateOfParts(date: Date, year: int, dayOfYear: int)
    requires year == MarchYear(date) && dayOfYear == DayOfYear(date) && IsDayOfYear(year % 400, dayOfYear)
    ensures CivilDate(DayNumber(date)) == DateOf(year, dayOfYear)
  {
    CivilDateAt(DayNumber(date), year / 400, DayOfEra(year % 400, dayOfYear), year % 400, dayOfYear);
    assert year % 400 + year / 400 * 400 == year;
  }

  lemma CivilDateAt(d: int, era: int, n: int, yearOfEra: int, dayOfYear: int)
    requires d + 719_468 == 146_097 * era + n && n == DayOfEra(yearOfEra, dayOfYear)
    requires IsDayOfYear(yearOfEra, dayOfYear)
    ensures CivilDate(d) == DateOf(yearOfEra + era * 400, dayOfYear)
  {
    DateInEraOf(era, n, yearOfEra, dayOfYear);
    CivilDateFrom(d, era, n);
  }

  lemma CivilDateFrom(d: int, era: int, n: int)
    requires d + 719_468 == 146_097 * era + n && 0 <= n < 146_097
    ensures CivilDate(d) == DateInEra(era, n)
  {
    var shifted := d + 719_468;
    EraOf(era, n);
    assert shifted == 146_097 * era + n;
    assert Era(shifted) == era;
    assert shifted - Era(shifted) * 146_097 == n;
  }

  lemma DateInEraOf(era: int, n: int, yearOfEra: int, dayOfYear: int)
    requires n == DayOfEra(yearOfEra, dayOfYear) && IsDayOfYear(yearOfEra, dayOfYear)
    ensures 0 <= n < 146_097 && DateInEra(era, n) == DateOf(yearOfEra + era * 400, dayOfYear)
  {
    YearIsRecovered(yearOfEra, dayOfYear);
    assert n - (365 * yearOfEra + yearOfEra / 4 - yearOfEra / 100) == dayOfYear;
  }

  lemma EraOf(era: int, n: int)
    requires 0 <= n < 146_097
    ensures Era(146_097 * era + n) == era
  {
    EraIsFloor(146_097 * era + n);
  }

  /** Every day number is the number of a calendar date. */
  lemma EveryDayHasADate(d: int) returns (date: Date)
    ensures IsDate(date) && DayNumber(date) == d
  {
    var shifted := d + 719_468;
    var era := shifted / 146_097;
    var yearOfEra, dayOfYear := DayOfEraSplits(shifted % 146_097);
    var year := 400 * era + yearOfEra;
    assert year / 400 == era && year % 400 == yearOfEra;
    LeapByEra(year);
    date := DateInYear(year, dayOfYear);
  }

  lemma DateInYear(year: int, dayOfYear: int) returns (date: Date)
    requires 0 <= dayOfYear <= 365 && (dayOfYear == 365 ==> IsLeap(year + 1))
    ensures IsDate(date) && MarchYear(date) == year && DayOfYear(date) == dayOfYear
  {
    var m := (5 * dayOfYear + 2) / 153;
    assert 0 <= m <= 11;
    var month := if m < 10 then m + 3 else m - 9;
    date := Date(if month > 2 then year else year + 1, month, dayOfYear - (153 * m + 2) / 5 + 1);
    assert m == 0 || m == 1 || m == 2 || m == 3 || m == 4 || m == 5 || m == 6 || m == 7 || m == 8 || m == 9
           || m == 10 || m == 11;
  }

  /** Counting days follows the calendar. */
  lemma DayNumberOfSuccessor(date: Date)
    requires IsDate(date)
    ensures IsDate(Successor(date)) && DayNumber(Successor(date)) == DayNumber(date) + 1
  {
    var year := MarchYear(date);
    if date.month == 2 && date.day == DaysIn(date.year, 2) {
      LeapByEra(year);
      NewEraOrNot(year, DayOfYear(date));
    }
  }

  /** The last day of a March-based year is followed by the first day of the next one. */
  lemma NewEraOrNot(year: int, dayOfYear: int)
    requires dayOfYear == if IsLeap(year % 400 + 1) then 365 else 364
    ensures 146_097 * ((year + 1) / 400) + DayOfEra((year + 1) % 400, 0)
            == 146_097 * (year / 400) + DayOfEra(year % 400, dayOfYear) + 1
  {
    NextYear(year);
    YearEnds(year % 400, dayOfYear);
  }

  lemma NextYear(year: int)
    ensures year % 400 == 399 ==> (year + 1) / 400 == year / 400 + 1 && (year + 1) % 400 == 0
    ensures year % 400 != 399 ==> (year + 1) / 400 == year / 400 && (year + 1) % 400 == year % 400 + 1
  {
  }

  lemma YearEnds(yearOfEra: int, dayOfYear: int)
    requires 0 <= yearOfEra < 400 && dayOfYear == if IsLeap(yearOfEra + 1) then 365 else 364
    ensures yearOfEra == 399 ==> DayOfEra(yearOfEra, dayOfYear) + 1 == 146_097 + DayOfEra(0, 0)
    ensures yearOfEra < 399 ==> DayOfEra(yearOfEra, dayOfYear) + 1 == DayOfEra(yearOfEra + 1, 0)
  {
    var c, q, y := YearParts(yearOfEra);
    if yearOfEra < 399 {
      var c', q', y' := YearParts(yearOfEra + 1);
    }
  }

  /** Day d + 1 is the calendar day after day d, for every day number, before or after the epoch. */
  lemma NextDay(d: int)
    ensures IsDate(CivilDate(d)) && CivilDate(d + 1) == Successor(CivilDate(d))
  {
    var date := EveryDayHasADate(d);
    CivilDateOfDayNumber(date);
    DayNumberOfSuccessor(date);
    CivilDateOfDayNumber(Successor(date));
  }

  lemma DayZero()
    ensures CivilDate(0) == Date(1970, 1, 1)
  {
  }

  /** Day numbers and calendar dates correspond one to one. */
  lemma DayNumberOfCivilDate(d: int)
    ensures DayNumber(CivilDate(d)) == d
  {
    var date := EveryDayHasADate(d);
    CivilDateOfDayNumber(date);
  }

  /** The calendar reached from a date by stepping day by day. */
  function Advance(date: Date, days: nat): Date {
    if days == 0 then date else Successor(Advance(date, days - 1))
  }

  /** A calendar that moves to the next day from day `d` on. */
  ghost predicate StepsAt(calendar: int -> Date, d: int) { calendar(d + 1) == Successor(calendar(d)) }

  lemma {:induction false} SteppingIsAdvancing(calendar: int -> Date, d: nat)
    requires forall k: nat :: StepsAt(calendar, k)
    ensures calendar(d) == Advance(calendar(0), d)
  {
    if d > 0 {
      SteppingIsAdvancing(calendar, d - 1);
      assert StepsAt(calendar, d - 1);
    }
  }

  /** The closed form agrees with counting day by day from the epoch. */
  lemma AgreesWithCounting(d: nat)
    ensures CivilDate(d) == Advance(Date(1970, 1, 1), d)
  {
    forall k: nat
      ensures StepsAt(CivilDate, k)
    {
      NextDay(k);
    }
    SteppingIsAdvancing(CivilDate, d);
    DayZero();
  }

  // ----- the timestamp text of section 5.6 of RFC 3339 -----

  const DASH: Byte := 0x2d
  const COLON: Byte := 0x3a
  const LETTER_T: Byte := 0x54
  const LETTER_Z: Byte := 0x5a

  /** At least `width` digits, with leading zeros. */
  function Padded(n: nat, width: nat): Text { Zeros(width - |Decimal(n)|) + Decimal(n) }

  function Zeros(count: int): (zeros: Text)
    ensures |zeros| == if count < 0 then 0 else count
    ensures forall b | b in zeros :: b == 0x30
  {
    if count <= 0 then [] else [0x30] + Zeros(count - 1)
  }

  function DateText(date: Date): Text
    requires date.year >= 0 && date.month >= 0 && date.day >= 0
  {
    Padded(date.year, 4) + [DASH] + (Padded(date.month, 2) + [DASH] + Padded(date.day, 2))
  }

  function TimeText(seconds: nat): Text {
    Padded(seconds / 3_600, 2) + [COLON] + (Padded(seconds % 3_600 / 60, 2) + [COLON] + (Padded(seconds % 60, 2) + [LETTER_Z] + []))
  }

  /** The creation time of a manifest, for a clock reading after the epoch. */
  function UtcTimestamp(seconds: nat): Text {
    AfterEpoch(seconds / 86_400);
    DateText(CivilDate(seconds / 86_400)) + [LETTER_T] + TimeText(seconds % 86_400)
  }

  lemma AfterEpoch(d: nat)
    ensures CivilDate(d).year >= 1970 && IsDate(CivilDate(d))
  {
    NextDay(d);
    AgreesWithCounting(d);
    YearsNeverFall(Date(1970, 1, 1), d);
  }

  lemma {:induction false} YearsNeverFall(date: Date, days: nat)
    ensures Advance(date, days).year >= date.year
  {
    if days > 0 {
      YearsNeverFall(date, days - 1);
    }
  }

  lemma {:induction false} LeadingZeros(zeros: Text, digits: Text)
    requires forall b | b in zeros :: b == 0x30
    ensures ValueOf(zeros + digits) == ValueOf(digits)
  {
    if digits != [] {
      var last := |digits| - 1;
      assert (zeros + digits)[..|zeros + digits| - 1] == zeros + digits[..last];
      LeadingZeros(zeros, digits[..last]);
    } else if zeros != [] {
      assert zeros + digits == zeros;
      var last := |zeros| - 1;
      var fewer := zeros[..last];
      assert forall b | b in fewer :: b in zeros;
      LeadingZeros(fewer, []);
      assert fewer + [] == fewer;
      assert zeros[last] in zeros;
    }
  }

  lemma PaddedIsInjective(m: nat, n: nat, width: nat)
    ensures forall b | b in Padded(m, width) :: IsDigit(b)
    ensures Padded(m, width) == Padded(n, width) ==> m == n
  {
    LeadingZeros(Zeros(width - |Decimal(m)|), Decimal(m));
    LeadingZeros(Zeros(width - |Decimal(n)|), Decimal(n));
    DecimalRoundTrip(m);
    DecimalRoundTrip(n);
  }

  lemma FieldSplits(m: nat, x: Text, n: nat, y: Text, width: nat, mark: Byte)
    requires !IsDigit(mark) && Padded(m, width) + [mark] + x == Padded(n, width) + [mark] + y
    ensures m == n && x == y
  {
    PaddedIsInjective(m, n, width);
    PaddedIsInjective(n, m, width);
    SplitsOnce(Padded(m, width), x, Padded(n, width), y, mark);
  }

  lemma DateTextHasNoT(date: Date)
    requires date.year >= 0 && date.month >= 0 && date.day >= 0
    ensures LETTER_T !in DateText(date)
  {
    PaddedIsInjective(date.year, 0, 4);
    PaddedIsInjective(date.month, 0, 2);
    PaddedIsInjective(date.day, 0, 2);
  }

  lemma TimeTextIsInjective(s: nat, t: nat)
    requires TimeText(s) == TimeText(t)
    ensures s == t
  {
    var minutesS := Padded(s % 3_600 / 60, 2) + [COLON] + (Padded(s % 60, 2) + [LETTER_Z] + []);
    var minutesT := Padded(t % 3_600 / 60, 2) + [COLON] + (Padded(t % 60, 2) + [LETTER_Z] + []);
    FieldSplits(s / 3_600, minutesS, t / 3_600, minutesT, 2, COLON);
    FieldSplits(s % 3_600 / 60, Padded(s % 60, 2) + [LETTER_Z] + [], t % 3_600 / 60, Padded(t % 60, 2) + [LETTER_Z] + [], 2, COLON);
    FieldSplits(s % 60, [], t % 60, [], 2, LETTER_Z);
  }

  lemma DateTextIsInjective(a: Date, b: Date)
    requires a.year >= 0 && a.month >= 0 && a.day >= 0 && b.year >= 0 && b.month >= 0 && b.day >= 0
    requires DateText(a) == DateText(b)
    ensures a == b
  {
    FieldSplits(a.year, Padded(a.month, 2) + [DASH] + Padded(a.day, 2), b.year, Padded(b.month, 2) + [DASH] + Padded(b.day, 2), 4, DASH);
    FieldSplits(a.month, Padded(a.day, 2), b.month, Padded(b.day, 2), 2, DASH);
    PaddedIsInjective(a.day, b.day, 2);
  }

  /** A timestamp names one second: no two clock readings share a text. */
  lemma TimestampIsInjective(s: nat, t: nat)
    requires UtcTimestamp(s) == UtcTimestamp(t)
    ensures s == t
  {
    AfterEpoch(s / 86_400);
    AfterEpoch(t / 86_400);
    var a, b := CivilDate(s / 86_400), CivilDate(t / 86_400);
    DateTextHasNoT(a);
    DateTextHasNoT(b);
    SplitsOnce(DateText(a), TimeText(s % 86_400), DateText(b), TimeText(t % 86_400), LETTER_T);
    TimeTextIsInjective(s % 86_400, t % 86_400);
    DateTextIsInjective(a, b);
    DayNumberOfCivilDate(s / 86_400);
    DayNumberOfCivilDate(t / 86_400);
  }
}
