/** The minute/"HH:MM" codec of utils/utils.py: `str_to_minutes`,
    `minutes_to_str` and `converter_milisegundos_para_hhmm`. */
module TimeCodec {
  import opened Errors
  import opened Text

  function Abs(x: int): nat { if x < 0 then -x else x }

  /** Unsigned "HH:MM" text for `h` hours and `m` minutes, as
      `f"{h:02}:{m:02}"` writes it. */
  function Clock(h: nat, m: nat): string
  {
    Pad2(h) + ":" + Pad2(m)
  }

  /** `h, m = map(int, s.split(":")); h * 60 + m`: the text must split on
      ':' into exactly two integers. The sign of the hour field binds to
      the hours only. */
  function HoursMinutes(s: string): (r: Result<int>)
    ensures r.Err? ==> r.error == ValueError
  {
    var parts := Split(s, ":");
    if |parts| != 2 then Err(ValueError)
    else match (ParseInt(parts[0]), ParseInt(parts[1]))
      case (Some(h), Some(m)) => Ok(h * 60 + m)
      case _ => Err(ValueError)
  }

  /** `str_to_minutes`: the empty string is 0, anything else is read by
      `HoursMinutes`. */
  function StrToMinutes(s: string): (r: Result<int>)
    ensures r.Err? ==> r.error == ValueError
  {
    if s == "" then Ok(0) else HoursMinutes(s)
  }

  /** The reading of a signed "±HH:MM" text that the balance columns mean:
      the sign applies to the whole quantity. Used as the reference
      decoder that `MinutesToStr` is proved against. */
  function SignedMinutes(s: string): Option<int>
  {
    if |s| >= 1 && (s[0] == '+' || s[0] == '-') then
      match UnsignedMinutes(s[1..])
      case Some(v) => Some(if s[0] == '-' then -v else v)
      case None => None
    else None
  }

  /** The reading of an unsigned "HH:MM" text with at least two hour digits,
      exactly two minute digits and minutes below 60. */
  function UnsignedMinutes(s: string): Option<int>
  {
    var parts := Split(s, ":");
    if |parts| == 2 && |parts[0]| >= 2 && AllDigits(parts[0])
       && |parts[1]| == 2 && AllDigits(parts[1]) && DigitsValue(parts[1]) < 60
    then Some(DigitsValue(parts[0]) * 60 + DigitsValue(parts[1]))
    else None
  }

  /** `minutes_to_str`: explicit sign ('-' for negatives, '+' otherwise,
      including zero), then the absolute value as hours and minutes. */
  function MinutesToStr(mins: int): (r: string)
    ensures |r| >= 6 && (r[0] == '-' <==> mins < 0) && (r[0] == '+' <==> mins >= 0)
    ensures r[1..] == Clock(Abs(mins) / 60, Abs(mins) % 60)
  {
    var a := Abs(mins);
    Pad2Spec(a / 60);
    Pad2Spec(a % 60);
    var r := (if mins < 0 then "-" else "+") + Clock(a / 60, a % 60);
    assert r[1..] == Clock(a / 60, a % 60);
    r
  }

  /** Read with the sign applying to the whole quantity, every text
      `minutes_to_str` writes denotes exactly the minutes it was given. */
  lemma MinutesToStrDenotes(mins: int)
    ensures SignedMinutes(MinutesToStr(mins)) == Some(mins)
  {
    var a := Abs(mins);
    var r := MinutesToStr(mins);
    ClockReads(a / 60, a % 60);
    assert UnsignedMinutes(r[1..]) == Some(a);
    assert r[0] == '+' || r[0] == '-';
  }

  /** `MinutesToStrDenotes` for a text known only by name. */
  lemma DenotesAt(x: string, mins: int)
    requires x == MinutesToStr(mins)
    ensures SignedMinutes(x) == Some(mins)
  {
    MinutesToStrDenotes(mins);
  }

  lemma NoCharConcat(x: string, y: string, c: char)
    requires NoChar(x, c) && NoChar(y, c)
    ensures NoChar(x + y, c)
  {
  }

  lemma ColonPair(a: string, b: string)
    requires NoChar(a, ':') && NoChar(b, ':')
    ensures Split(a + ":" + b, ":") == [a, b]
  {
    SplitOneCharPair(a, ':', b);
  }

  lemma ClockFieldsColonFree(sign: string, h: nat, m: nat)
    requires NoChar(sign, ':')
    ensures NoChar(sign + Pad2(h), ':') && NoChar(Pad2(m), ':')
  {
    Pad2Spec(h);
    Pad2Spec(m);
    DigitsHaveNo(Pad2(h), ':');
    DigitsHaveNo(Pad2(m), ':');
    NoCharConcat(sign, Pad2(h), ':');
  }

  lemma ClockRegroup(sign: string, h: nat, m: nat)
    ensures sign + Clock(h, m) == (sign + Pad2(h)) + ":" + Pad2(m)
  {
  }

  /** A clock text splits on ':' into its two padded fields. */
  lemma ClockSplits(sign: string, h: nat, m: nat)
    requires NoChar(sign, ':')
    ensures Split(sign + Clock(h, m), ":") == [sign + Pad2(h), Pad2(m)]
  {
    ClockFieldsColonFree(sign, h, m);
    ColonPair(sign + Pad2(h), Pad2(m));
    ClockRegroup(sign, h, m);
  }

  lemma ClockSplitsUnsigned(h: nat, m: nat)
    ensures Split(Clock(h, m), ":") == [Pad2(h), Pad2(m)]
  {
    Pad2Spec(h);
    Pad2Spec(m);
    DigitsHaveNo(Pad2(h), ':');
    DigitsHaveNo(Pad2(m), ':');
    ColonPair(Pad2(h), Pad2(m));
  }

  lemma UnsignedOfParts(s: string, h: nat, m: nat)
    requires m < 60 && Split(s, ":") == [Pad2(h), Pad2(m)]
    ensures UnsignedMinutes(s) == Some(h * 60 + m)
  {
    Pad2Spec(h);
    Pad2Spec(m);
  }

  lemma StrToMinutesOfParts(s: string, a: string, b: string, x: int, y: int)
    requires s != "" && Split(s, ":") == [a, b]
    requires ParseInt(a) == Some(x) && ParseInt(b) == Some(y)
    ensures HoursMinutes(s) == Ok(x * 60 + y) && StrToMinutes(s) == Ok(x * 60 + y)
  {
  }

  lemma {:induction false} ClockReads(h: nat, m: nat)
    requires m < 60
    ensures UnsignedMinutes(Clock(h, m)) == Some(h * 60 + m)
  {
    ClockSplitsUnsigned(h, m);
    UnsignedOfParts(Clock(h, m), h, m);
  }

  /** The text of `minutes_to_str` is its sign followed by a clock. */
  lemma SignAndClock(m: int)
    ensures MinutesToStr(m) == (if m < 0 then "-" else "+") + Clock(Abs(m) / 60, Abs(m) % 60)
  {
    var r := MinutesToStr(m);
    assert r == [r[0]] + r[1..];
  }

  /** `str_to_minutes(minutes_to_str(m)) == m` for every m >= 0. */
  lemma {:induction false} StrToMinutesInvertsNonNegative(m: int)
    requires m >= 0
    ensures StrToMinutes(MinutesToStr(m)) == Ok(m)
  {
    var h, mm := m / 60, m % 60;
    Pad2Spec(h);
    Pad2Spec(mm);
    ClockSplits("+", h, mm);
    ParseIntPlus(Pad2(h));
    ParseIntOfDigits(Pad2(mm));
    StrToMinutesOfParts("+" + Clock(h, mm), "+" + Pad2(h), Pad2(mm), h, mm);
    SignAndClock(m);
  }

  /** For negative m the text's sign is read back on the hour field alone:
      `-(|m| / 60) * 60 + |m| % 60`, so "-01:30" reads as -30 and "-00:30"
      reads as 30. */
  lemma {:induction false} StrToMinutesOfNegative(m: int)
    requires m < 0
    ensures StrToMinutes(MinutesToStr(m)) == Ok(-(Abs(m) / 60) * 60 + Abs(m) % 60)
  {
    SignAndClock(m);
    NegativeClockReads(Abs(m));
  }

  lemma NegativeClockReads(a: nat)
    ensures StrToMinutes("-" + Clock(a / 60, a % 60)) == Ok(-(a / 60) * 60 + a % 60)
  {
    var h, mm := a / 60, a % 60;
    Pad2Spec(h);
    Pad2Spec(mm);
    ClockSplits("-", h, mm);
    ParseIntMinus(Pad2(h));
    ParseIntOfDigits(Pad2(mm));
    StrToMinutesOfParts("-" + Clock(h, mm), "-" + Pad2(h), Pad2(mm), -h, mm);
  }

  /** So the codec round-trips a negative balance only when it is a whole
      number of hours. */
  lemma NegativeRoundTripOnlyOnWholeHours(m: int)
    requires m < 0
    ensures StrToMinutes(MinutesToStr(m)) == Ok(m) <==> Abs(m) % 60 == 0
  {
    StrToMinutesOfNegative(m);
    var a := Abs(m);
    assert a == a / 60 * 60 + a % 60;
  }

  /** An unsigned clock text reads with `str_to_minutes` as its minutes. */
  lemma {:induction false} StrToMinutesOfClock(h: nat, m: nat)
    ensures StrToMinutes(Clock(h, m)) == Ok(h * 60 + m)
  {
    Pad2Spec(h);
    Pad2Spec(m);
    ClockSplitsUnsigned(h, m);
    ParseIntOfDigits(Pad2(h));
    ParseIntOfDigits(Pad2(m));
    StrToMinutesOfParts(Clock(h, m), Pad2(h), Pad2(m), h, m);
  }

  /** `round(ms / 1000 / 60)`: minutes rounded to the nearest integer, ties
      going to the even neighbour as Python's `round` does. */
  function RoundMinutes(ms: nat): (r: nat)
    ensures 2 * Abs(ms - 60000 * r) <= 60000
    ensures 2 * Abs(ms - 60000 * r) == 60000 ==> r % 2 == 0
  {
    var q, rem := ms / 60000, ms % 60000;
    if 2 * rem > 60000 || (2 * rem == 60000 && q % 2 == 1) then q + 1 else q
  }

  /** `converter_milisegundos_para_hhmm`: ValueError for a negative
      duration, otherwise the rounded minutes as unsigned "HH:MM". */
  function MsToHHMM(ms: int): (r: Result<string>)
    ensures r.Err? <==> ms < 0
    ensures r.Err? ==> r.error == ValueError
    ensures r.Ok? ==> exists h: nat, m: nat {:trigger Clock(h, m)} ::
      m < 60 && h * 60 + m == RoundMinutes(ms) && r.value == Clock(h, m)
  {
    if ms < 0 then Err(ValueError)
    else
      var t := RoundMinutes(ms);
      Ok(Clock(t / 60, t % 60))
  }

  /** The text `converter_milisegundos_para_hhmm` produces reads back, with
      `str_to_minutes`, as the rounded minute count. */
  lemma MsToHHMMReadsBack(ms: int)
    requires ms >= 0
    ensures StrToMinutes(MsToHHMM(ms).value) == Ok(RoundMinutes(ms) as int)
  {
    var t := RoundMinutes(ms);
    ClockOfMinutesReads(t);
    MsToHHMMIsClock(ms);
  }

  lemma ClockOfMinutesReads(t: nat)
    ensures StrToMinutes(Clock(t / 60, t % 60)) == Ok(t as int)
  {
    StrToMinutesOfClock(t / 60, t % 60);
  }

  lemma MsToHHMMIsClock(ms: int)
    requires ms >= 0
    ensures MsToHHMM(ms) == Ok(Clock(RoundMinutes(ms) / 60, RoundMinutes(ms) % 60))
  {
  }

  /** Rounding to minutes is monotone, so the worked-time text never
      decreases as the duration grows. */
  lemma RoundMinutesMonotone(a: nat, b: nat)
    requires a <= b
    ensures RoundMinutes(a) <= RoundMinutes(b)
  {
    var qa, qb := a / 60000, b / 60000;
    assert a == 60000 * qa + a % 60000 && b == 60000 * qb + b % 60000;
    assert qa <= qb;
    if qa == qb {
      assert a % 60000 <= b % 60000;
    }
  }
}
