/** The calendar helpers of utils/utils.py: reading an ISO `YYYY-MM-DD`
    date the way `datetime.strptime(s, "%Y-%m-%d")` does, rendering it as
    Brazilian `DD/MM/YYYY`, and naming its weekday in Portuguese. The
    weekday is computed with the proleptic Gregorian day count that
    Python's `date.toordinal()` uses. */
module Calendar {
  import opened Errors
  import opened Text

  datatype Date = Date(year: nat, month: nat, day: nat)

  predicate IsLeap(y: nat) { y % 4 == 0 && (y % 100 != 0 || y % 400 == 0) }

  function DaysInMonth(y: nat, m: nat): nat
    requires 1 <= m <= 12
  {
    if m == 2 then (if IsLeap(y) then 29 else 28)
    else if m == 4 || m == 6 || m == 9 || m == 11 then 30
    else 31
  }

  /** A date `datetime` accepts: year 1..9999, a real month, a day that
      exists in that month. */
  predicate ValidDate(dt: Date) {
    1 <= dt.year <= 9999 && 1 <= dt.month <= 12 && 1 <= dt.day <= DaysInMonth(dt.year, dt.month)
  }

  predicate InRange(c: char, lo: char, hi: char) { lo <= c <= hi }

  /** The two-character spellings of `%m`: `1[0-2]` or `0[1-9]`. */
  predicate TwoDigitMonth(a: char, b: char) {
    (a == '1' && InRange(b, '0', '2')) || (a == '0' && InRange(b, '1', '9'))
  }

  /** The two-character spellings of `%d`: `3[01]`, `[12]\d` or `0[1-9]`. */
  predicate TwoDigitDay(a: char, b: char) {
    (a == '3' && (b == '0' || b == '1')) || ((a == '1' || a == '2') && IsDigit(b))
    || (a == '0' && InRange(b, '1', '9'))
  }

  /** The month field starting at `i`, followed by its '-': the value and
      the index where the day begins. */
  function MonthField(s: string, i: nat): Option<(nat, nat)>
  {
    if i + 2 < |s| && TwoDigitMonth(s[i], s[i + 1]) && s[i + 2] == '-' then
      Some((DigitValue(s[i]) * 10 + DigitValue(s[i + 1]), i + 3))
    else if i + 1 < |s| && InRange(s[i], '1', '9') && s[i + 1] == '-' then
      Some((DigitValue(s[i]), i + 2))
    else None
  }

  /** The day field, which must run to the end of the text: the first
      alternative of `%d` that matches is taken, and any text after it is
      "unconverted data". */
  function DayField(r: string): Option<nat>
  {
    if |r| >= 2 && TwoDigitDay(r[0], r[1]) then
      if |r| == 2 then Some(DigitValue(r[0]) * 10 + DigitValue(r[1])) else None
    else if |r| >= 1 && InRange(r[0], '1', '9') then
      if |r| == 1 then Some(DigitValue(r[0])) else None
    else if |r| >= 2 && r[0] == ' ' && InRange(r[1], '1', '9') then
      if |r| == 2 then Some(DigitValue(r[1])) else None
    else None
  }

  /** `datetime.strptime(s, "%Y-%m-%d")`: four year digits, '-', the month,
      '-', the day; ValueError for any other shape, for year 0 and for a
      day the month does not have. */
  function ParseIsoDate(s: string): (r: Result<Date>)
    ensures r.Ok? ==> ValidDate(r.value)
    ensures r.Err? ==> r.error == ValueError
  {
    if |s| < 5 || !AllDigits(s[..4]) || s[4] != '-' then Err(ValueError)
    else
      var y := DigitsValue(s[..4]);
      DigitsValueBound(s[..4]);
      assert Pow10(4) == 10000;
      match MonthField(s, 5)
      case None => Err(ValueError)
      case Some((m, k)) =>
        match DayField(s[k..])
        case None => Err(ValueError)
        case Some(d) =>
          if 1 <= y && 1 <= m <= 12 && 1 <= d <= DaysInMonth(y, m) then Ok(Date(y, m, d))
          else Err(ValueError)
  }

  /** The canonical ISO text of a date with a four-digit year. */
  function IsoText(dt: Date): string
  {
    NatToDigits(dt.year) + "-" + Pad2(dt.month) + "-" + Pad2(dt.day)
  }

  /** `converter_data_iso_para_ddmmaaaa`: the short Brazilian form
      `dd/MM/y`, or ValueError when the text is not a valid date. */
  function IsoToDdMmYyyy(s: string): Result<string>
  {
    var dt :- ParseIsoDate(s);
    Ok(Pad2(dt.day) + "/" + Pad2(dt.month) + "/" + NatToDigits(dt.year))
  }

  /** The Brazilian form is three '/'-separated digit fields that read back
      as the day, the month and the year of the parsed date, the day and
      the month two digits each; it fails, with ValueError, exactly when the
      ISO text does not parse. */
  lemma IsoToDdMmYyyyMeaning(s: string)
    ensures IsoToDdMmYyyy(s).Ok? <==> ParseIsoDate(s).Ok?
    ensures IsoToDdMmYyyy(s).Err? ==> IsoToDdMmYyyy(s).error == ValueError
    ensures IsoToDdMmYyyy(s).Ok? ==>
      var dt := ParseIsoDate(s).value;
      var parts := Split(IsoToDdMmYyyy(s).value, "/");
      |parts| == 3 && AllDigits(parts[0]) && AllDigits(parts[1]) && AllDigits(parts[2]) &&
      |parts[0]| == 2 && |parts[1]| == 2 &&
      DigitsValue(parts[0]) == dt.day && DigitsValue(parts[1]) == dt.month &&
      DigitsValue(parts[2]) == dt.year
  {
    if ParseIsoDate(s).Ok? {
      var dt := ParseIsoDate(s).value;
      var d, m, y := Pad2(dt.day), Pad2(dt.month), NatToDigits(dt.year);
      Pad2Spec(dt.day);
      Pad2Spec(dt.month);
      NatToDigitsSpec(dt.year);
      DigitsHaveNo(d, '/');
      DigitsHaveNo(m, '/');
      DigitsHaveNo(y, '/');
      var rest := m + "/" + y;
      assert IsoToDdMmYyyy(s).value == d + "/" + rest;
      forall j | 0 <= j < |d| ensures !OccursAt(d + "/" + rest, "/", j) {
        NotOccursFirst(d + "/" + rest, "/", j);
      }
      SplitPeel(d, "/", rest);
      SplitOneCharPair(m, '/', y);
    }
  }

  function DaysBeforeYear(y: nat): nat
    requires y >= 1
  {
    var p := y - 1;
    p * 365 + p / 4 - p / 100 + p / 400
  }

  function DaysBeforeMonth(y: nat, m: nat): nat
    requires 1 <= m <= 12
  {
    [0, 31, 59, 90, 120, 151, 181, 212, 243, 273, 304, 334][m - 1]
    + (if m > 2 && IsLeap(y) then 1 else 0)
  }

  /** `date.toordinal()`: 0001-01-01 is day 1. */
  function Ordinal(dt: Date): nat
    requires ValidDate(dt)
  {
    DaysBeforeYear(dt.year) + DaysBeforeMonth(dt.year, dt.month) + dt.day
  }

  /** `date.weekday()`: Monday is 0, Sunday is 6. */
  function WeekdayIndex(dt: Date): (w: nat)
    requires ValidDate(dt)
    ensures w < 7
  {
    (Ordinal(dt) + 6) % 7
  }

  const WeekdayNames: seq<string> :=
    ["segunda-feira", "terça-feira", "quarta-feira", "quinta-feira",
     "sexta-feira", "sábado", "domingo"]

  /** `obter_dia_semana`: the lowercase Portuguese weekday name, or
      ValueError when the text is not a valid date. */
  function Weekday(s: string): (r: Result<string>)
    ensures r.Ok? <==> ParseIsoDate(s).Ok?
    ensures r.Ok? ==> r.value == WeekdayNames[WeekdayIndex(ParseIsoDate(s).value)]
  {
    var dt :- ParseIsoDate(s);
    Ok(WeekdayNames[WeekdayIndex(dt)])
  }

  predicate IsWeekendName(name: string) { name == "sábado" || name == "domingo" }

  /** The day after a valid date. */
  function NextDay(dt: Date): Date
    requires ValidDate(dt)
  {
    if dt.day < DaysInMonth(dt.year, dt.month) then Date(dt.year, dt.month, dt.day + 1)
    else if dt.month < 12 then Date(dt.year, dt.month + 1, 1)
    else Date(dt.year + 1, 1, 1)
  }

  lemma DivStep4(y: nat)
    requires y >= 1
    ensures y / 4 - (y - 1) / 4 == if y % 4 == 0 then 1 else 0
  {
  }

  lemma DivStep100(y: nat)
    requires y >= 1
    ensures y / 100 - (y - 1) / 100 == if y % 100 == 0 then 1 else 0
  {
  }

  lemma DivStep400(y: nat)
    requires y >= 1
    ensures y / 400 - (y - 1) / 400 == if y % 400 == 0 then 1 else 0
  {
  }

  /** A year adds 365 days, or 366 when it is a leap year. */
  lemma DaysBeforeNextYear(y: nat)
    requires y >= 1
    ensures DaysBeforeYear(y + 1) == DaysBeforeYear(y) + (if IsLeap(y) then 366 else 365)
  {
    DivStep4(y);
    DivStep100(y);
    DivStep400(y);
    LeapDivisibility(y);
    var p := y - 1;
    var a, b, c := y / 4 - p / 4, y / 100 - p / 100, y / 400 - p / 400;
    assert a - b + c == if IsLeap(y) then 1 else 0;
    assert DaysBeforeYear(y + 1) == y * 365 + y / 4 - y / 100 + y / 400;
    assert DaysBeforeYear(y) == p * 365 + p / 4 - p / 100 + p / 400;
  }

  lemma LeapDivisibility(y: nat)
    ensures y % 100 == 0 ==> y % 4 == 0
    ensures y % 400 == 0 ==> y % 100 == 0
  {
    if y % 100 == 0 { CenturyIsLeapMultiple(y); }
    if y % 400 == 0 { QuadCenturyIsCentury(y); }
  }

  lemma CenturyIsLeapMultiple(y: nat)
    requires y % 100 == 0
    ensures y % 4 == 0
  {
    var k := y / 100;
    assert y == 100 * k;
    assert (100 * k) % 4 == 0;
  }

  lemma QuadCenturyIsCentury(y: nat)
    requires y % 400 == 0
    ensures y % 100 == 0
  {
    var j := y / 400;
    assert y == 100 * (4 * j);
  }

  /** Consecutive days have consecutive ordinals, so the weekday advances by
      one each day and the naming cycles through the seven names. */
  lemma OrdinalOfNextDay(dt: Date)
    requires ValidDate(dt) && dt.year < 9999
    ensures ValidDate(NextDay(dt)) && Ordinal(NextDay(dt)) == Ordinal(dt) + 1
    ensures WeekdayIndex(NextDay(dt)) == (WeekdayIndex(dt) + 1) % 7
  {
    var nx := NextDay(dt);
    if dt.day < DaysInMonth(dt.year, dt.month) {
      assert nx == Date(dt.year, dt.month, dt.day + 1);
    } else if dt.month < 12 {
      MonthStep(dt.year, dt.month);
    } else {
      DaysBeforeNextYear(dt.year);
      assert DaysBeforeMonth(dt.year, 12) + 31 == if IsLeap(dt.year) then 366 else 365;
    }
    ModSucc(Ordinal(dt) + 6);
  }

  /** A month adds its own length to the days before the next one. */
  lemma MonthStep(y: nat, m: nat)
    requires 1 <= m < 12
    ensures DaysBeforeMonth(y, m + 1) == DaysBeforeMonth(y, m) + DaysInMonth(y, m)
  {
  }

  lemma ModSucc(x: nat)
    ensures (x + 1) % 7 == (x % 7 + 1) % 7
  {
    assert x == 7 * (x / 7) + x % 7;
  }

  /** The canonical ISO text of a date with a four-digit year is read back
      as that date when the day exists, and refused with ValueError when it
      does not (the 30th of February, say). */
  lemma {:induction false} ParseIsoText(dt: Date)
    requires 1000 <= dt.year <= 9999 && 1 <= dt.month <= 12 && 1 <= dt.day <= 31
    ensures ParseIsoDate(IsoText(dt)) ==
      if dt.day <= DaysInMonth(dt.year, dt.month) then Ok(dt) else Err(ValueError)
  {
    var s := IsoText(dt);
    NatToDigitsSpec(dt.year);
    IsoTextLayout(dt);
    MonthFieldOf(s, dt.month);
    DayFieldOf(dt.day);
  }

  lemma YearDigits(y: nat)
    requires 1000 <= y <= 9999
    ensures |NatToDigits(y)| == 4
  {
    var ys := NatToDigits(y);
    NatToDigitsSpec(y);
    DigitsValueBound(ys);
    assert Pow10(3) == 1000 && Pow10(4) == 10000;
    if |ys| < 4 { Pow10Monotone(|ys|, 3); } else if |ys| > 4 { Pow10Monotone(4, |ys| - 1); }
  }

  lemma IsoTextLayout(dt: Date)
    requires 1000 <= dt.year <= 9999 && 1 <= dt.month <= 12 && 1 <= dt.day <= 31
    ensures var s := IsoText(dt);
      |s| == 10 && s[..4] == NatToDigits(dt.year) && s[4] == '-'
      && s[5] == Pad2(dt.month)[0] && s[6] == Pad2(dt.month)[1] && s[7] == '-'
      && s[8..] == Pad2(dt.day)
  {
    YearDigits(dt.year);
    Pad2Spec(dt.month);
    Pad2Spec(dt.day);
  }

  lemma MonthFieldOf(s: string, m: nat)
    requires 1 <= m <= 12 && |s| >= 8
    requires s[5] == Pad2(m)[0] && s[6] == Pad2(m)[1] && s[7] == '-'
    ensures MonthField(s, 5) == Some((m, 8))
  {
    Pad2Spec(m);
    TwoDigitsValue(Pad2(m));
  }

  lemma DayFieldOf(d: nat)
    requires 1 <= d <= 31
    ensures DayField(Pad2(d)) == Some(d)
  {
    Pad2Spec(d);
    TwoDigitsValue(Pad2(d));
  }

  lemma {:induction false} Pow10Monotone(i: nat, j: nat)
    requires i <= j
    ensures Pow10(i) <= Pow10(j)
  {
    if i < j { Pow10Monotone(i, j - 1); }
  }

  /** The documented examples: '2025-05-12' is '12/05/2025', a Monday. */
  lemma DocumentedDateExample()
    ensures IsoToDdMmYyyy("2025-05-12") == Ok("12/05/2025")
  {
    var dt := Date(2025, 5, 12);
    ExampleParses();
    assert Pad2(dt.day) + "/" + Pad2(dt.month) + "/" + NatToDigits(dt.year) == "12/05/2025";
  }

  lemma DocumentedWeekdayExample()
    ensures Weekday("2025-05-12") == Ok("segunda-feira")
  {
    var dt := Date(2025, 5, 12);
    ExampleParses();
    assert Ordinal(dt) == 739383;
    assert WeekdayIndex(dt) == 0;
  }

  lemma ExampleParses()
    ensures ParseIsoDate("2025-05-12") == Ok(Date(2025, 5, 12))
  {
    var dt := Date(2025, 5, 12);
    assert NatToDigits(2025) == "2025";
    assert Pad2(5) == "05" && Pad2(12) == "12";
    assert IsoText(dt) == "2025-05-12";
    ParseIsoText(dt);
  }
}
