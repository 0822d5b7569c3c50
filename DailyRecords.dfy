/** `format_punches_as_dataframe` (utils/transformToDataframe.py): punches
    are grouped by employee and date into a dictionary of lists, and each
    group becomes one daily row of the timesheet. */
module DailyRecords {
  import opened Errors
  import opened Text
  import opened TimeCodec
  import opened Calendar

  /** The `adjustmentReason` entry of a punch: absent, null, or an object
      whose `description` may be absent (None). */
  datatype ReasonField = NoReasonKey | NullReason | Reason(description: Option<string>)

  /** One punch as the API returns it. Timestamps are epoch milliseconds;
      None is a null `dateIn`/`dateOut`. */
  datatype Punch = Punch(
    empId: int, name: string, date: string,
    dateIn: Option<int>, dateOut: Option<int>,
    adjust: bool, reason: ReasonField)

  /** The grouping key. The source keys its dictionary by the text
      `f"{id} - {date}"`; since the decimal text of an integer holds no
      blank, that text determines the pair, so the pair is used here. */
  datatype Key = Key(empId: int, date: string)

  function KeyOf(p: Punch): Key { Key(p.empId, p.date) }

  // ---------------------------------------------------------------------
  // Grouping

  /** The distinct keys of `ps`, in order of first appearance (the
      insertion order of the dictionary). */
  function Keys(ps: seq<Punch>): seq<Key>
  {
    if ps == [] then []
    else
      var ks := Keys(ps[..|ps| - 1]);
      if KeyOf(ps[|ps| - 1]) in ks then ks else ks + [KeyOf(ps[|ps| - 1])]
  }

  /** The punches of `ps` whose key is `k`, in arrival order. */
  function GroupOf(ps: seq<Punch>, k: Key): seq<Punch>
  {
    if ps == [] then []
    else GroupOf(ps[..|ps| - 1], k) + (if KeyOf(ps[|ps| - 1]) == k then [ps[|ps| - 1]] else [])
  }

  /** The grouping loop: appends each punch to the list of its key,
      creating the list on the key's first appearance. */
  method GroupPunches(ps: seq<Punch>) returns (order: seq<Key>, groups: map<Key, seq<Punch>>)
    ensures order == Keys(ps)
    ensures forall k :: k in groups <==> k in order
    ensures forall k :: k in groups ==> groups[k] == GroupOf(ps, k)
  {
    order, groups := [], map[];
    for i := 0 to |ps|
      invariant order == Keys(ps[..i])
      invariant forall k :: k in groups <==> k in order
      invariant forall k :: k in groups ==> groups[k] == GroupOf(ps[..i], k)
      invariant forall k :: k !in groups ==> GroupOf(ps[..i], k) == []
    {
      var k := KeyOf(ps[i]);
      assert ps[..i + 1][..i] == ps[..i];
      if k in groups {
        groups := groups[k := groups[k] + [ps[i]]];
      } else {
        groups := groups[k := [ps[i]]];
        order := order + [k];
      }
    }
    assert ps[..|ps|] == ps;
  }

  /** Every key appears once. */
  lemma {:induction false} KeysDistinct(ps: seq<Punch>)
    ensures forall i, j :: 0 <= i < j < |Keys(ps)| ==> Keys(ps)[i] != Keys(ps)[j]
  {
    if ps != [] { KeysDistinct(ps[..|ps| - 1]); }
  }

  /** The keys are exactly those of the punches. */
  lemma {:induction false} KeysSeen(ps: seq<Punch>, k: Key)
    ensures k in Keys(ps) <==> exists i :: 0 <= i < |ps| && KeyOf(ps[i]) == k
  {
    if ps != [] {
      var init := ps[..|ps| - 1];
      KeysSeen(init, k);
      assert forall i :: 0 <= i < |init| ==> init[i] == ps[i];
      if k in Keys(ps) && KeyOf(ps[|ps| - 1]) != k {
        var i :| 0 <= i < |init| && KeyOf(init[i]) == k;
        assert KeyOf(ps[i]) == k;
      }
      if KeyOf(ps[|ps| - 1]) != k && (exists i :: 0 <= i < |ps| && KeyOf(ps[i]) == k) {
        var i :| 0 <= i < |ps| && KeyOf(ps[i]) == k;
        assert KeyOf(init[i]) == k;
      }
    }
  }

  /** First-seen order: the keys of a prefix come first, in the same order. */
  lemma {:induction false} KeysPrefix(a: seq<Punch>, b: seq<Punch>)
    ensures Keys(a) <= Keys(a + b)
  {
    if b != [] {
      var b' := b[..|b| - 1];
      assert (a + b)[..|a + b| - 1] == a + b';
      KeysPrefix(a, b');
    } else {
      assert a + b == a;
    }
  }

  /** Each group holds only punches of its key, and is non-empty exactly
      for the keys that occur. */
  lemma {:induction false} GroupMembers(ps: seq<Punch>, k: Key)
    ensures forall i :: 0 <= i < |GroupOf(ps, k)| ==> KeyOf(GroupOf(ps, k)[i]) == k
    ensures |GroupOf(ps, k)| > 0 <==> k in Keys(ps)
  {
    if ps != [] { GroupMembers(ps[..|ps| - 1], k); }
  }

  /** Arrival order: grouping a concatenation groups each part and
      concatenates, the earlier part first. */
  lemma {:induction false} GroupOfAppend(a: seq<Punch>, b: seq<Punch>, k: Key)
    ensures GroupOf(a + b, k) == GroupOf(a, k) + GroupOf(b, k)
  {
    if b == [] {
      assert a + b == a;
    } else {
      var b' := b[..|b| - 1];
      assert (a + b)[..|a + b| - 1] == a + b';
      GroupOfAppend(a, b', k);
    }
  }

  /** No punch is lost or duplicated: every punch occurs in the group of
      its key as often as in the input. */
  lemma {:induction false} GroupKeepsAll(ps: seq<Punch>, x: Punch)
    ensures multiset(GroupOf(ps, KeyOf(x)))[x] == multiset(ps)[x]
  {
    if ps != [] {
      var init := ps[..|ps| - 1];
      GroupKeepsAll(init, x);
      assert ps == init + [ps[|ps| - 1]];
    }
  }

  // ---------------------------------------------------------------------
  // One daily row

  const HolidayMarker: string := "COMPENSAÇÃO FERIADO"
  const Sentinel: string := "Menos de 4 pontos batidos"
  const ExpectedDay: string := "08:48"

  /** One row of the daily frame, field by field. */
  datatype DailyRow = DailyRow(
    empId: int,           // "ID colaborador"
    name: string,         // "Colaborador"
    data: string,         // "Data", DD/MM/YYYY
    weekday: string,      // "Dia da Semana"
    pontos: string,       // "Pontos"
    ajustado: string,     // "Ajustado"
    trabalhadas: string,  // "Trabalhadas"
    abono: string,        // "Abono Previstas"
    saldo: string)        // "Saldo"

  /** Minute of the local day of an epoch-millisecond instant, for a zone
      at a fixed offset of `tz` minutes from UTC. */
  function LocalMinuteOfDay(ms: int, tz: int): (t: nat)
    ensures t < 1440
  {
    (ms / 60000 + tz) % 1440
  }

  /** `datetime.fromtimestamp(ms / 1000).strftime("%H:%M")`. */
  function LocalHHMM(ms: int, tz: int): string
  {
    var t := LocalMinuteOfDay(ms, tz);
    Clock(t / 60, t % 60)
  }

  /** One side of a rendered punch: its local time, or "" when null. */
  function Side(v: Option<int>, tz: int): string
  {
    match v
    case Some(ms) => LocalHHMM(ms, tz)
    case None => ""
  }

  /** A punch rendered as "in - out". */
  function Block(p: Punch, tz: int): string
  {
    Side(p.dateIn, tz) + " - " + Side(p.dateOut, tz)
  }

  /** The rendered punches of a group in reverse arrival order (`reversed(p)`). */
  function Blocks(g: seq<Punch>, tz: int): seq<string>
  {
    seq(|g|, i requires 0 <= i < |g| => Block(g[|g| - 1 - i], tz))
  }

  function PontosText(g: seq<Punch>, tz: int): string
  {
    Join(Blocks(g, tz), " | ")
  }

  /** Whether the first punch marks a holiday-compensation day:
      `p.get("adjust") and p.get("adjustmentReason", {}).get("description")
      == "COMPENSAÇÃO FERIADO"`. A null reason on an adjusted punch makes
      the `.get` call fail with AttributeError. */
  function HolidayCompensation(p: Punch): Result<bool>
  {
    if !p.adjust then Ok(false)
    else match p.reason
      case NoReasonKey => Ok(false)
      case NullReason => Err(AttributeError)
      case Reason(d) => Ok(d == Some(HolidayMarker))
  }

  /** The "Pontos" field of a group. */
  function PontosField(g: seq<Punch>, tz: int): Result<string>
    requires |g| >= 1
  {
    var hol :- HolidayCompensation(g[0]);
    Ok(if hol then HolidayMarker else PontosText(g, tz))
  }

  predicate Complete(p: Punch) { p.dateIn.Some? && p.dateOut.Some? }

  predicate AllComplete(g: seq<Punch>) { forall i | 0 <= i < |g| :: Complete(g[i]) }

  /** The sum of `dateOut - dateIn` over the complete punches. */
  function WorkedMs(g: seq<Punch>): int
  {
    if g == [] then 0
    else (if Complete(g[0]) then g[0].dateOut.value - g[0].dateIn.value else 0) + WorkedMs(g[1..])
  }

  /** The "Trabalhadas" field: "" on a holiday-compensation day; the
      sentinel when a punch is incomplete, or when a weekday has fewer than
      two punches; otherwise the worked time. */
  function Trabalhadas(g: seq<Punch>, weekday: string): Result<string>
    requires |g| >= 1
  {
    var hol :- HolidayCompensation(g[0]);
    if hol then Ok("")
    else if !AllComplete(g) || (|g| < 2 && !IsWeekendName(weekday)) then Ok(Sentinel)
    else MsToHHMM(WorkedMs(g))
  }

  /** The "Abono Previstas" field: no expected time on weekends and holidays. */
  function Abono(date: string, weekday: string, holidays: seq<string>): string
  {
    if IsWeekendName(weekday) || date in holidays then "" else ExpectedDay
  }

  /** The minutes "Trabalhadas" stands for: none on a holiday-compensation
      day, otherwise the worked time rounded to minutes. */
  function WorkedMinutes(g: seq<Punch>): int
    requires |g| >= 1 && (HolidayCompensation(g[0]) == Ok(true) || WorkedMs(g) >= 0)
  {
    if HolidayCompensation(g[0]) == Ok(true) then 0 else RoundMinutes(WorkedMs(g)) as int
  }

  /** The minutes "Abono Previstas" stands for: none on weekends and
      holidays, 8h48 otherwise. */
  function ExpectedMinutes(date: string, weekday: string, holidays: seq<string>): int
  {
    if IsWeekendName(weekday) || date in holidays then 0 else 528
  }

  /** The "Saldo" field, filled in after the row is appended. */
  function Saldo(trabalhadas: string, abono: string): Result<string>
  {
    if trabalhadas == Sentinel then Ok(Sentinel)
    else
      var worked :- StrToMinutes(trabalhadas);
      var expected :- StrToMinutes(abono);
      Ok(MinutesToStr(worked - expected))
  }

  /** The row literal of one group, with "Saldo" still "". Fields are
      evaluated in the order the literal lists them. */
  function RowFields(g: seq<Punch>, holidays: seq<string>, tz: int): Result<DailyRow>
    requires |g| >= 1
  {
    var p := g[0];
    var data :- IsoToDdMmYyyy(p.date);
    var weekday :- Weekday(p.date);
    var pontos :- PontosField(g, tz);
    var trabalhadas :- Trabalhadas(g, weekday);
    Ok(DailyRow(p.empId, p.name, data, weekday, pontos, if p.adjust then "Sim" else "",
                trabalhadas, Abono(p.date, weekday, holidays), ""))
  }

  /** The finished row of one group. */
  function BuildRow(g: seq<Punch>, holidays: seq<string>, tz: int): Result<DailyRow>
    requires |g| >= 1
  {
    var row :- RowFields(g, holidays, tz);
    var saldo :- Saldo(row.trabalhadas, row.abono);
    Ok(row.(saldo := saldo))
  }

  // ---------------------------------------------------------------------
  // What the rendered fields say

  lemma ClockHasNo(h: nat, m: nat, c: char)
    requires !IsDigit(c) && c != ':'
    ensures NoChar(Clock(h, m), c)
  {
    Pad2Spec(h);
    Pad2Spec(m);
    DigitsHaveNo(Pad2(h), c);
    DigitsHaveNo(Pad2(m), c);
  }

  /** A local time is a clock text that reads back as its minute of day. */
  lemma LocalHHMMReads(ms: int, tz: int)
    ensures StrToMinutes(LocalHHMM(ms, tz)) == Ok(LocalMinuteOfDay(ms, tz) as int)
    ensures NoChar(LocalHHMM(ms, tz), '|') && NoChar(LocalHHMM(ms, tz), '-')
  {
    var t := LocalMinuteOfDay(ms, tz);
    ClockOfMinutesReads(t);
    ClockHasNo(t / 60, t % 60, '|');
    ClockHasNo(t / 60, t % 60, '-');
  }

  lemma SideHasNo(v: Option<int>, tz: int)
    ensures NoChar(Side(v, tz), '|') && NoChar(Side(v, tz), '-')
  {
    if v.Some? { LocalHHMMReads(v.value, tz); }
  }

  /** A rendered punch splits on " - " into its two sides; a null
      timestamp is an empty side, a present one reads as its local
      minute of day. */
  lemma BlockSplits(p: Punch, tz: int)
    ensures Split(Block(p, tz), " - ") == [Side(p.dateIn, tz), Side(p.dateOut, tz)]
    ensures NoChar(Block(p, tz), '|')
    ensures p.dateIn.None? ==> Side(p.dateIn, tz) == ""
    ensures p.dateOut.None? ==> Side(p.dateOut, tz) == ""
    ensures p.dateIn.Some? ==> StrToMinutes(Side(p.dateIn, tz)) == Ok(LocalMinuteOfDay(p.dateIn.value, tz) as int)
    ensures p.dateOut.Some? ==> StrToMinutes(Side(p.dateOut, tz)) == Ok(LocalMinuteOfDay(p.dateOut.value, tz) as int)
  {
    var a, b := Side(p.dateIn, tz), Side(p.dateOut, tz);
    SideHasNo(p.dateIn, tz);
    SideHasNo(p.dateOut, tz);
    SplitDashPair(a, b);
    NoCharConcat(a, " - ", '|');
    NoCharConcat(a + " - ", b, '|');
    if p.dateIn.Some? { LocalHHMMReads(p.dateIn.value, tz); }
    if p.dateOut.Some? { LocalHHMMReads(p.dateOut.value, tz); }
  }

  /** The punches text splits on " | " back into the rendered punches,
      in reverse arrival order. */
  lemma PontosSplits(g: seq<Punch>, tz: int)
    requires |g| >= 1
    ensures Split(PontosText(g, tz), " | ") == Blocks(g, tz)
  {
    var bs := Blocks(g, tz);
    forall k | 0 <= k < |bs| ensures NoChar(bs[k], '|') {
      BlockSplits(g[|g| - 1 - k], tz);
    }
    SplitJoinBar(bs);
  }

  lemma MarkerHasNoSeparators()
    ensures Split(HolidayMarker, " | ") == [HolidayMarker]
    ensures Split(HolidayMarker, " - ") == [HolidayMarker]
  {
    assert NoChar(HolidayMarker, '|') && NoChar(HolidayMarker, '-');
    BarFreeHasNoBarSeparator(HolidayMarker);
    forall j | 0 <= j < |HolidayMarker| ensures !OccursAt(HolidayMarker, " - ", j) {
      if j + 1 < |HolidayMarker| { NotOccursAt(HolidayMarker, " - ", j); }
    }
    SplitNoOccurrence(HolidayMarker, " | ");
    SplitNoOccurrence(HolidayMarker, " - ");
  }

  /** A rendered punches text is never the holiday marker. */
  lemma PontosNotMarker(g: seq<Punch>, tz: int)
    requires |g| >= 1
    ensures PontosText(g, tz) != HolidayMarker
  {
    PontosSplits(g, tz);
    MarkerHasNoSeparators();
    if |g| == 1 {
      var b := Block(g[0], tz);
      assert PontosText(g, tz) == b;
      BlockSplits(g[0], tz);
      assert |Split(b, " - ")| == 2;
    } else {
      assert |Split(PontosText(g, tz), " | ")| >= 2;
    }
  }

  /** "Pontos": AttributeError exactly for an adjusted first punch with a
      null reason; otherwise the holiday marker exactly on a
      holiday-compensation day, and else the rendered punches in
      reverse arrival order, joined by " | ". */
  lemma PontosFieldCases(g: seq<Punch>, tz: int)
    requires |g| >= 1
    ensures PontosField(g, tz).Err? <==> g[0].adjust && g[0].reason == NullReason
    ensures PontosField(g, tz).Err? ==> PontosField(g, tz).error == AttributeError
    ensures PontosField(g, tz).Ok? ==>
      (PontosField(g, tz).value == HolidayMarker <==> g[0].adjust && g[0].reason == Reason(Some(HolidayMarker)))
    ensures PontosField(g, tz).Ok? && PontosField(g, tz).value != HolidayMarker ==>
      Split(PontosField(g, tz).value, " | ") == Blocks(g, tz)
  {
    PontosNotMarker(g, tz);
    PontosSplits(g, tz);
  }

  /** Punches that never end before they start add up to a non-negative
      worked time, so the conversion to "HH:MM" cannot fail on them. */
  lemma {:induction false} WorkedNonNegative(g: seq<Punch>)
    requires forall i :: 0 <= i < |g| && Complete(g[i]) ==> g[i].dateIn.value <= g[i].dateOut.value
    ensures WorkedMs(g) >= 0
  {
    if g != [] {
      assert forall i :: 0 <= i < |g[1..]| ==> g[1..][i] == g[i + 1];
      WorkedNonNegative(g[1..]);
    }
  }

  lemma SentinelIsNoClock(h: nat, m: nat)
    ensures Clock(h, m) != Sentinel && Clock(h, m) != ""
  {
    Pad2Spec(h);
    assert IsDigit(Clock(h, m)[0]);
  }

  /** "Trabalhadas" in its three cases, and its error cases: the null
      reason of an adjusted first punch, and a negative worked time. */
  lemma TrabalhadasCases(g: seq<Punch>, weekday: string)
    requires |g| >= 1
    ensures Trabalhadas(g, weekday).Err? <==>
      (g[0].adjust && g[0].reason == NullReason) ||
      (HolidayCompensation(g[0]) == Ok(false) && AllComplete(g) &&
       !(|g| < 2 && !IsWeekendName(weekday)) && WorkedMs(g) < 0)
    ensures Trabalhadas(g, weekday).Err? ==>
      Trabalhadas(g, weekday).error == (if g[0].adjust && g[0].reason == NullReason then AttributeError else ValueError)
    ensures Trabalhadas(g, weekday) == Ok("") <==> HolidayCompensation(g[0]) == Ok(true)
    ensures Trabalhadas(g, weekday) == Ok(Sentinel) <==>
      HolidayCompensation(g[0]) == Ok(false) && (!AllComplete(g) || (|g| < 2 && !IsWeekendName(weekday)))
    ensures (Trabalhadas(g, weekday).Ok? && Trabalhadas(g, weekday).value != "" &&
             Trabalhadas(g, weekday).value != Sentinel) ==>
      WorkedMs(g) >= 0 && StrToMinutes(Trabalhadas(g, weekday).value) == Ok(RoundMinutes(WorkedMs(g)) as int)
  {
    var w := WorkedMs(g);
    if w >= 0 {
      MsToHHMMIsClock(w);
      MsToHHMMReadsBack(w);
      SentinelIsNoClock(RoundMinutes(w) / 60, RoundMinutes(w) % 60);
    }
  }

  /** "Abono Previstas" is empty exactly on weekends and holidays, and
      otherwise the 8h48 working day. */
  lemma AbonoReads(date: string, weekday: string, holidays: seq<string>)
    ensures Abono(date, weekday, holidays) == "" <==> IsWeekendName(weekday) || date in holidays
    ensures StrToMinutes(Abono(date, weekday, holidays)) ==
      Ok(ExpectedMinutes(date, weekday, holidays))
  {
    assert Pad2(8) == "08" && Pad2(48) == "48";
    assert Clock(8, 48) == ExpectedDay;
    StrToMinutesOfClock(8, 48);
  }

  /** "Saldo" is the sentinel exactly when "Trabalhadas" is; otherwise it
      is the signed difference between worked and expected minutes, and
      ValueError when either does not read as "HH:MM". */
  lemma SaldoCases(trabalhadas: string, abono: string)
    ensures Saldo(trabalhadas, abono) == Ok(Sentinel) <==> trabalhadas == Sentinel
    ensures trabalhadas != Sentinel && StrToMinutes(trabalhadas).Ok? && StrToMinutes(abono).Ok? ==>
      Saldo(trabalhadas, abono).Ok? &&
      SignedMinutes(Saldo(trabalhadas, abono).value) ==
        Some(StrToMinutes(trabalhadas).value - StrToMinutes(abono).value)
    ensures trabalhadas != Sentinel && (StrToMinutes(trabalhadas).Err? || StrToMinutes(abono).Err?) ==>
      Saldo(trabalhadas, abono) == Err(ValueError)
  {
    SaldoIsSentinel(trabalhadas, abono);
    SaldoReadable(trabalhadas, abono);
    if trabalhadas != Sentinel && (StrToMinutes(trabalhadas).Err? || StrToMinutes(abono).Err?) {
      SaldoUnreadable(trabalhadas, abono);
    }
  }

  /** The first case of `SaldoCases`: the sentinel exactly when "Trabalhadas" is. */
  lemma SaldoIsSentinel(trabalhadas: string, abono: string)
    ensures Saldo(trabalhadas, abono) == Ok(Sentinel) <==> trabalhadas == Sentinel
  {
    if trabalhadas != Sentinel {
      if StrToMinutes(trabalhadas).Ok? && StrToMinutes(abono).Ok? {
        SaldoReadsAsDifference(trabalhadas, abono, StrToMinutes(trabalhadas).value, StrToMinutes(abono).value);
      } else {
        SaldoUnreadable(trabalhadas, abono);
      }
    }
  }

  /** The second case of `SaldoCases`: both texts readable. */
  lemma SaldoReadable(trabalhadas: string, abono: string)
    ensures trabalhadas != Sentinel && StrToMinutes(trabalhadas).Ok? && StrToMinutes(abono).Ok? ==>
      Saldo(trabalhadas, abono).Ok? &&
      SignedMinutes(Saldo(trabalhadas, abono).value) ==
        Some(StrToMinutes(trabalhadas).value - StrToMinutes(abono).value)
  {
    if trabalhadas != Sentinel && StrToMinutes(trabalhadas).Ok? && StrToMinutes(abono).Ok? {
      var w, e := StrToMinutes(trabalhadas).value, StrToMinutes(abono).value;
      SaldoReadsAsDifference(trabalhadas, abono, w, e);
    }
  }

  lemma SaldoUnreadable(trabalhadas: string, abono: string)
    requires trabalhadas != Sentinel && (StrToMinutes(trabalhadas).Err? || StrToMinutes(abono).Err?)
    ensures Saldo(trabalhadas, abono) == Err(ValueError)
  {
  }

  /** With both texts readable, "Saldo" denotes their difference and so is
      not the sentinel. */
  lemma SaldoReadsAsDifference(trabalhadas: string, abono: string, w: int, e: int)
    requires trabalhadas != Sentinel && StrToMinutes(trabalhadas) == Ok(w) && StrToMinutes(abono) == Ok(e)
    ensures Saldo(trabalhadas, abono).Ok? && Saldo(trabalhadas, abono).value != Sentinel
    ensures SignedMinutes(Saldo(trabalhadas, abono).value) == Some(w - e)
  {
    SaldoValue(trabalhadas, abono, w, e);
    DifferenceDenotes(w, e);
    SentinelIsNoBalance();
  }

  lemma SentinelIsNoBalance()
    ensures SignedMinutes(Sentinel) == None
  {
  }

  /** The fields of a finished row, as the field functions give them. */
  lemma RowParts(g: seq<Punch>, holidays: seq<string>, tz: int)
    requires |g| >= 1 && BuildRow(g, holidays, tz).Ok?
    ensures var r := BuildRow(g, holidays, tz).value;
      r.empId == g[0].empId && r.name == g[0].name &&
      IsoToDdMmYyyy(g[0].date) == Ok(r.data) && Weekday(g[0].date) == Ok(r.weekday) &&
      PontosField(g, tz) == Ok(r.pontos) && Trabalhadas(g, r.weekday) == Ok(r.trabalhadas) &&
      r.ajustado == (if g[0].adjust then "Sim" else "") &&
      r.abono == Abono(g[0].date, r.weekday, holidays) &&
      Saldo(r.trabalhadas, r.abono) == Ok(r.saldo)
  {
  }

  /** A row fails with ValueError when the date is not a valid ISO date. */
  lemma RowRejectsBadDate(g: seq<Punch>, holidays: seq<string>, tz: int)
    requires |g| >= 1 && ParseIsoDate(g[0].date).Err?
    ensures BuildRow(g, holidays, tz) == Err(ValueError)
  {
  }

  /** A row with a valid date and an adjusted first punch whose reason is
      null fails with AttributeError. */
  lemma RowRejectsNullReason(g: seq<Punch>, holidays: seq<string>, tz: int)
    requires |g| >= 1 && ParseIsoDate(g[0].date).Ok? && g[0].adjust && g[0].reason == NullReason
    ensures BuildRow(g, holidays, tz) == Err(AttributeError)
  {
    PontosFieldCases(g, tz);
  }

  /** In the "Saldo" step neither text can fail to read. */
  lemma SaldoNeverFails(g: seq<Punch>, weekday: string, date: string, holidays: seq<string>)
    requires |g| >= 1 && Trabalhadas(g, weekday).Ok?
    ensures Saldo(Trabalhadas(g, weekday).value, Abono(date, weekday, holidays)).Ok?
  {
    var t := Trabalhadas(g, weekday).value;
    TrabalhadasCases(g, weekday);
    AbonoReads(date, weekday, holidays);
    SaldoCases(t, Abono(date, weekday, holidays));
    if t == "" {
      assert StrToMinutes(t) == Ok(0);
    }
  }

  /** Once the date is valid, a row fails exactly when "Trabalhadas" does,
      with its error: the "Saldo" step never fails. */
  lemma RowOutcome(g: seq<Punch>, holidays: seq<string>, tz: int)
    requires |g| >= 1 && ParseIsoDate(g[0].date).Ok?
    ensures Trabalhadas(g, Weekday(g[0].date).value).Err? ==>
      BuildRow(g, holidays, tz) == Err(Trabalhadas(g, Weekday(g[0].date).value).error)
    ensures Trabalhadas(g, Weekday(g[0].date).value).Ok? ==> BuildRow(g, holidays, tz).Ok?
  {
    var wd := Weekday(g[0].date).value;
    PontosFieldCases(g, tz);
    TrabalhadasCases(g, wd);
    if Trabalhadas(g, wd).Ok? {
      SaldoNeverFails(g, wd, g[0].date, holidays);
      assert RowFields(g, holidays, tz).Ok?;
    }
  }

  /** The balance of a finished row: the sentinel exactly when the worked
      time is; otherwise, read with its sign applying to the whole value,
      worked minutes (none on a holiday-compensation day) minus expected
      minutes (none on weekends and holidays, 528 otherwise). */
  lemma RowBalance(g: seq<Punch>, holidays: seq<string>, tz: int)
    requires |g| >= 1 && BuildRow(g, holidays, tz).Ok?
    ensures BuildRow(g, holidays, tz).value.saldo == Sentinel <==>
            BuildRow(g, holidays, tz).value.trabalhadas == Sentinel
    ensures BuildRow(g, holidays, tz).value.trabalhadas != Sentinel && HolidayCompensation(g[0]) != Ok(true) ==>
            WorkedMs(g) >= 0
    ensures var r := BuildRow(g, holidays, tz).value;
      r.trabalhadas != Sentinel ==>
      SignedMinutes(r.saldo) ==
        Some(WorkedMinutes(g) - ExpectedMinutes(g[0].date, r.weekday, holidays))
  {
    RowParts(g, holidays, tz);
    var r := BuildRow(g, holidays, tz).value;
    SaldoSentinel(r.trabalhadas, r.abono, r.saldo);
    if r.trabalhadas != Sentinel {
      var _ := TrabalhadasMinutes(g, r.weekday, r.trabalhadas);
      BalanceOfFields(g, holidays, r);
    }
  }

  lemma BalanceOfFields(g: seq<Punch>, holidays: seq<string>, r: DailyRow)
    requires |g| >= 1 && Trabalhadas(g, r.weekday) == Ok(r.trabalhadas) && r.trabalhadas != Sentinel
    requires r.abono == Abono(g[0].date, r.weekday, holidays) && Saldo(r.trabalhadas, r.abono) == Ok(r.saldo)
    requires HolidayCompensation(g[0]) != Ok(true) ==> WorkedMs(g) >= 0
    ensures SignedMinutes(r.saldo) == Some(WorkedMinutes(g) - ExpectedMinutes(g[0].date, r.weekday, holidays))
  {
    BalanceOfTexts(g, holidays, r.weekday, r.trabalhadas, r.abono, r.saldo);
  }

  /** `BalanceOfFields` on the row's texts alone. */
  lemma BalanceOfTexts(g: seq<Punch>, holidays: seq<string>, weekday: string, t: string, a: string, s: string)
    requires |g| >= 1 && Trabalhadas(g, weekday) == Ok(t) && t != Sentinel
    requires a == Abono(g[0].date, weekday, holidays) && Saldo(t, a) == Ok(s)
    ensures SignedMinutes(s) == Some(WorkedMinutes(g) - ExpectedMinutes(g[0].date, weekday, holidays))
  {
    var w := TrabalhadasMinutes(g, weekday, t);
    var e := AbonoMinutes(g[0].date, weekday, holidays);
    BalanceOf(t, a, s, w, e);
    assert w - e == WorkedMinutes(g) - ExpectedMinutes(g[0].date, weekday, holidays);
  }

  /** "Saldo" is the sentinel exactly when "Trabalhadas" is. */
  lemma SaldoSentinel(trabalhadas: string, abono: string, saldo: string)
    requires Saldo(trabalhadas, abono) == Ok(saldo)
    ensures saldo == Sentinel <==> trabalhadas == Sentinel
  {
    SaldoCases(trabalhadas, abono);
  }

  /** A "Trabalhadas" text other than the sentinel reads as the rounded
      worked minutes, or as 0 on a holiday-compensation day. */
  lemma TrabalhadasMinutes(g: seq<Punch>, weekday: string, t: string) returns (w: int)
    requires |g| >= 1 && Trabalhadas(g, weekday) == Ok(t) && t != Sentinel
    ensures HolidayCompensation(g[0]) != Ok(true) ==> WorkedMs(g) >= 0
    ensures StrToMinutes(t) == Ok(w) && w == WorkedMinutes(g)
  {
    TrabalhadasCases(g, weekday);
    w := WorkedMinutes(g);
  }

  /** "Abono Previstas" reads as the expected minutes. */
  lemma AbonoMinutes(date: string, weekday: string, holidays: seq<string>) returns (e: int)
    ensures StrToMinutes(Abono(date, weekday, holidays)) == Ok(e) && e == ExpectedMinutes(date, weekday, holidays)
  {
    AbonoReads(date, weekday, holidays);
    e := ExpectedMinutes(date, weekday, holidays);
  }

  lemma BalanceOf(trabalhadas: string, abono: string, saldo: string, w: int, e: int)
    requires trabalhadas != Sentinel && Saldo(trabalhadas, abono) == Ok(saldo)
    requires StrToMinutes(trabalhadas) == Ok(w) && StrToMinutes(abono) == Ok(e)
    ensures SignedMinutes(saldo) == Some(w - e)
  {
    SaldoValue(trabalhadas, abono, w, e);
    DifferenceDenotes(w, e);
  }

  lemma SaldoValue(trabalhadas: string, abono: string, w: int, e: int)
    requires trabalhadas != Sentinel && StrToMinutes(trabalhadas) == Ok(w) && StrToMinutes(abono) == Ok(e)
    ensures Saldo(trabalhadas, abono) == Ok(MinutesToStr(w - e))
  {
  }

  lemma DifferenceDenotes(w: int, e: int)
    ensures SignedMinutes(MinutesToStr(w - e)) == Some(w - e)
  {
    MinutesToStrDenotes(w - e);
  }

  // ---------------------------------------------------------------------
  // The whole frame

  /** The row of key `k`'s group. */
  function RowOf(ps: seq<Punch>, k: Key, holidays: seq<string>, tz: int): Result<DailyRow>
    requires k in Keys(ps)
  {
    GroupMembers(ps, k);
    BuildRow(GroupOf(ps, k), holidays, tz)
  }

  /** The row, or the exception, of each key of `ks`. */
  function RowResults(ps: seq<Punch>, ks: seq<Key>, holidays: seq<string>, tz: int): seq<Result<DailyRow>>
    requires forall i | 0 <= i < |ks| :: ks[i] in Keys(ps)
  {
    seq(|ks|, i requires 0 <= i < |ks| => RowOf(ps, ks[i], holidays, tz))
  }

  /** The daily frame: the rows of the groups in first-seen order, or the
      exception of the first group whose row fails. */
  function DailyTable(ps: seq<Punch>, holidays: seq<string>, tz: int): Result<seq<DailyRow>>
  {
    Collect(RowResults(ps, Keys(ps), holidays, tz))
  }

  /** The frame has exactly one row per distinct (employee, date) of the
      punches, in first-seen order, each built from that key's punches in
      arrival order; building fails exactly when some group's row fails,
      with the error of the first failing one. */
  lemma FrameShape(ps: seq<Punch>, holidays: seq<string>, tz: int)
    ensures forall i | 0 <= i < |Keys(ps)| :: |GroupOf(ps, Keys(ps)[i])| >= 1
    ensures DailyTable(ps, holidays, tz).Ok? ==>
      |DailyTable(ps, holidays, tz).value| == |Keys(ps)| &&
      forall i | 0 <= i < |Keys(ps)| ::
        BuildRow(GroupOf(ps, Keys(ps)[i]), holidays, tz) == Ok(DailyTable(ps, holidays, tz).value[i])
    ensures DailyTable(ps, holidays, tz).Err? <==>
      exists i | 0 <= i < |Keys(ps)| :: BuildRow(GroupOf(ps, Keys(ps)[i]), holidays, tz).Err?
    ensures DailyTable(ps, holidays, tz).Err? ==>
      exists i | 0 <= i < |Keys(ps)| ::
        BuildRow(GroupOf(ps, Keys(ps)[i]), holidays, tz) == Err(DailyTable(ps, holidays, tz).error) &&
        forall j | 0 <= j < i :: BuildRow(GroupOf(ps, Keys(ps)[j]), holidays, tz).Ok?
  {
    var ks := Keys(ps);
    forall i | 0 <= i < |ks| ensures |GroupOf(ps, ks[i])| >= 1 { GroupMembers(ps, ks[i]); }
    var rs := RowResults(ps, ks, holidays, tz);
    assert forall i | 0 <= i < |ks| :: rs[i] == BuildRow(GroupOf(ps, ks[i]), holidays, tz);
    CollectShape(rs);
  }

  /** `format_punches_as_dataframe`: groups the punches, then appends one
      row per group, patching the last row's "Saldo" after appending it.
      An exception raised on any row aborts the whole call. */
  method FormatPunchesAsDataframe(punches: seq<Punch>, holidays: seq<string>, tz: int)
    returns (r: Result<seq<DailyRow>>)
    ensures r == DailyTable(punches, holidays, tz)
  {
    var order, groups := GroupPunches(punches);
    ghost var results := RowResults(punches, order, holidays, tz);
    var rows: seq<DailyRow> := [];
    for i := 0 to |order|
      invariant Collect(results[..i]) == Ok(rows)
    {
      var key := order[i];
      var p := groups[key];
      GroupMembers(punches, key);
      assert results[i] == BuildRow(p, holidays, tz);
      ghost var prev := rows;
      var fields := RowFields(p, holidays, tz);
      if fields.Err? {
        assert results[i] == Err(fields.error);
        CollectStep(results, i);
        return Err(fields.error);
      }
      rows := rows + [fields.value];
      var last := rows[|rows| - 1];
      var saldo := Saldo(last.trabalhadas, last.abono);
      if saldo.Err? {
        assert results[i] == Err(saldo.error);
        CollectStep(results, i);
        return Err(saldo.error);
      }
      rows := rows[|rows| - 1 := last.(saldo := saldo.value)];
      assert rows == prev + [last.(saldo := saldo.value)];
      assert results[i] == Ok(last.(saldo := saldo.value));
      CollectStep(results, i);
    }
    assert results[..|order|] == results;
    return Ok(rows);
  }
}
