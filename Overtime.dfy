/** `get_adjusts` (utils/transformToDataframe.py): the daily frame gains the
    break column and two overtime columns, one for the minutes above the
    1h57 cap and one for the minutes still missing to reach it. The frame
    is copied, so the daily columns come back unchanged. */
module Overtime {
  import opened Errors
  import opened Text
  import opened TimeCodec
  import opened DailyRecords
  import opened BreakAnalysis

  /** The cap on a day's overtime balance, 1h57, in minutes. */
  const Limit: int := 117

  /** One row of the frame `get_adjusts` returns. */
  datatype AdjustedRow = AdjustedRow(
    daily: DailyRow,       // every column of the daily frame
    intervalo: string,     // "Intervalo"
    excedentes: string,    // "Hrs Extras Excedentes"
    disponiveis: string)   // "Hrs Extras Disponíveis"

  /** The temporary "Saldo_min" column: 0 for the sentinel, otherwise the
      balance as `str_to_minutes` reads it (its sign binding to the hours). */
  function SaldoMin(saldo: string): Result<int>
  {
    if saldo == Sentinel then Ok(0) else StrToMinutes(saldo)
  }

  /** The temporary "Abono_min" column. */
  function AbonoMin(abono: string): Result<int>
  {
    StrToMinutes(abono)
  }

  predicate StartsWithMinus(s: string) { |s| > 0 && s[0] == '-' }

  /** "Hrs Extras Excedentes": the balance above the cap, on days with
      expected hours. */
  function Excedentes(saldoMin: int, abonoMin: int): string
  {
    if abonoMin > 0 && saldoMin > Limit then MinutesToStr(saldoMin - Limit) else ""
  }

  /** "Hrs Extras Disponíveis": what is missing to reach the cap, on days
      with expected hours, a measured non-negative balance, and no holiday
      compensation. */
  function Disponiveis(r: DailyRow, saldoMin: int, abonoMin: int): string
  {
    if abonoMin > 0 && saldoMin < Limit && r.saldo != Sentinel && r.pontos != HolidayMarker
       && !StartsWithMinus(r.saldo)
    then MinutesToStr(Limit - saldoMin)
    else ""
  }

  /** The row `get_adjusts` makes of one daily row. */
  function AdjustRow(r: DailyRow): Result<AdjustedRow>
  {
    var s :- SaldoMin(r.saldo);
    var a :- AbonoMin(r.abono);
    Ok(AdjustedRow(r, CalcularIntervalo(r.pontos), Excedentes(s, a), Disponiveis(r, s, a)))
  }

  /** `get_adjusts` on the whole frame. The daily frame with no rows is the
      one `pd.DataFrame([])` builds, which has no columns, so looking up
      "Pontos" raises KeyError. Otherwise the columns are computed one after
      the other over all rows, but every failure is the same ValueError, so
      failing at the first bad row gives the same outcome. */
  function GetAdjusts(rows: seq<DailyRow>): Result<seq<AdjustedRow>>
  {
    if rows == [] then Err(KeyError)
    else Collect(seq(|rows|, i requires 0 <= i < |rows| => AdjustRow(rows[i])))
  }

  // ---------------------------------------------------------------------
  // Properties

  /** A day never has both overtime columns filled. */
  lemma ColumnsExclusive(r: DailyRow, s: int, a: int)
    ensures Excedentes(s, a) == "" || Disponiveis(r, s, a) == ""
  {
  }

  /** "Hrs Extras Excedentes" is filled exactly on days with expected hours
      whose balance is above the cap, and then holds the excess with a '+'. */
  lemma ExcedentesMeaning(s: int, a: int)
    ensures Excedentes(s, a) != "" <==> a > 0 && s > Limit
    ensures Excedentes(s, a) != "" ==>
      Excedentes(s, a)[0] == '+' && SignedMinutes(Excedentes(s, a)) == Some(s - Limit)
  {
    if a > 0 && s > Limit {
      ExcessText(s, a);
      DenotesAt(Excedentes(s, a), s - Limit);
    }
  }

  lemma ExcessText(s: int, a: int)
    requires a > 0 && s > Limit
    ensures Excedentes(s, a) == MinutesToStr(s - Limit)
  {
  }

  /** "Hrs Extras Disponíveis" is filled exactly when its five conditions
      hold, and then holds the shortfall to the cap with a '+'. */
  lemma DisponiveisMeaning(r: DailyRow, s: int, a: int)
    ensures Disponiveis(r, s, a) != "" <==>
      a > 0 && s < Limit && r.saldo != Sentinel && r.pontos != HolidayMarker && !StartsWithMinus(r.saldo)
    ensures Disponiveis(r, s, a) != "" ==>
      Disponiveis(r, s, a)[0] == '+' && SignedMinutes(Disponiveis(r, s, a)) == Some(Limit - s)
  {
    if Disponiveis(r, s, a) != "" {
      ShortfallText(r, s, a);
      DenotesAt(Disponiveis(r, s, a), Limit - s);
    }
  }

  lemma ShortfallText(r: DailyRow, s: int, a: int)
    requires Disponiveis(r, s, a) != ""
    ensures Disponiveis(r, s, a) == MinutesToStr(Limit - s)
  {
  }

  /** A row fails exactly when its balance or its expected time does not
      read; otherwise the daily columns are kept and "Intervalo" is
      `calcular_intervalo` of "Pontos". */
  lemma AdjustRowMeaning(r: DailyRow)
    ensures AdjustRow(r).Ok? <==> SaldoMin(r.saldo).Ok? && AbonoMin(r.abono).Ok?
    ensures AdjustRow(r).Err? ==> AdjustRow(r).error == ValueError
    ensures AdjustRow(r).Ok? ==>
      var x := AdjustRow(r).value;
      x.daily == r && x.intervalo == CalcularIntervalo(r.pontos) &&
      x.excedentes == Excedentes(SaldoMin(r.saldo).value, AbonoMin(r.abono).value) &&
      x.disponiveis == Disponiveis(r, SaldoMin(r.saldo).value, AbonoMin(r.abono).value)
  {
  }

  /** The reading of a balance `minutes_to_str` wrote. A negative one reads
      back with its sign on the hours only, which keeps it below the cap. */
  lemma SaldoMinOfBalance(b: int)
    ensures SaldoMin(MinutesToStr(b)) == Ok(if b >= 0 then b else -(Abs(b) / 60) * 60 + Abs(b) % 60)
    ensures b < 0 ==> SaldoMin(MinutesToStr(b)).value < Limit
  {
    assert MinutesToStr(b)[0] != Sentinel[0];
    if b >= 0 { StrToMinutesInvertsNonNegative(b); } else { StrToMinutesOfNegative(b); }
  }

  /** For a balance `minutes_to_str` wrote and expected minutes `ab`, the
      overtime columns say what they mean despite the sign quirk: the
      excess over the cap when the balance is above it, the shortfall when
      the balance is between zero and the cap, and nothing for a negative
      balance. */
  lemma OvertimeOfBalance(r: DailyRow, b: int, ab: int)
    requires r.saldo == MinutesToStr(b) && AbonoMin(r.abono) == Ok(ab)
    ensures AdjustRow(r).Ok?
    ensures AdjustRow(r).value.excedentes != "" <==> ab > 0 && b > Limit
    ensures AdjustRow(r).value.excedentes != "" ==>
      SignedMinutes(AdjustRow(r).value.excedentes) == Some(b - Limit)
    ensures AdjustRow(r).value.disponiveis != "" <==>
      ab > 0 && 0 <= b < Limit && r.pontos != HolidayMarker
    ensures AdjustRow(r).value.disponiveis != "" ==>
      SignedMinutes(AdjustRow(r).value.disponiveis) == Some(Limit - b)
  {
    SaldoMinOfBalance(b);
    AdjustRowMeaning(r);
    assert MinutesToStr(b) != Sentinel by { assert MinutesToStr(b)[0] != Sentinel[0]; }
    ColumnsOfReading(r, SaldoMin(r.saldo).value, ab, b);
  }

  /** The overtime columns of a row whose balance reads as `s` and means
      `b`: `s` is `b` when `b` is not negative and below the cap otherwise. */
  lemma ColumnsOfReading(r: DailyRow, s: int, ab: int, b: int)
    requires r.saldo != Sentinel && (StartsWithMinus(r.saldo) <==> b < 0)
    requires b >= 0 ==> s == b
    requires b < 0 ==> s < Limit
    ensures Excedentes(s, ab) != "" <==> ab > 0 && b > Limit
    ensures Excedentes(s, ab) != "" ==> SignedMinutes(Excedentes(s, ab)) == Some(b - Limit)
    ensures Disponiveis(r, s, ab) != "" <==> ab > 0 && 0 <= b < Limit && r.pontos != HolidayMarker
    ensures Disponiveis(r, s, ab) != "" ==> SignedMinutes(Disponiveis(r, s, ab)) == Some(Limit - b)
  {
    ExcedentesMeaning(s, ab);
    DisponiveisMeaning(r, s, ab);
  }

  /** A day with fewer than four punches has neither overtime column. */
  lemma SentinelHasNoOvertime(r: DailyRow)
    requires r.saldo == Sentinel && AbonoMin(r.abono).Ok?
    ensures AdjustRow(r).Ok?
    ensures AdjustRow(r).value.excedentes == "" && AdjustRow(r).value.disponiveis == ""
  {
  }

  /** The whole frame: the column-less empty frame fails with KeyError; a
      frame with rows fails, with ValueError, exactly when some row's
      balance or expected time does not read; otherwise it has one row per
      daily row, in order, each that row's adjusted row. */
  lemma GetAdjustsShape(rows: seq<DailyRow>)
    ensures GetAdjusts(rows).Ok? <==>
      rows != [] && forall i | 0 <= i < |rows| :: SaldoMin(rows[i].saldo).Ok? && AbonoMin(rows[i].abono).Ok?
    ensures GetAdjusts(rows).Err? ==>
      GetAdjusts(rows).error == (if rows == [] then KeyError else ValueError)
    ensures GetAdjusts(rows).Ok? ==>
      |GetAdjusts(rows).value| == |rows| &&
      forall i | 0 <= i < |rows| :: Ok(GetAdjusts(rows).value[i]) == AdjustRow(rows[i])
  {
    if rows == [] { return; }
    var rs := seq(|rows|, i requires 0 <= i < |rows| => AdjustRow(rows[i]));
    CollectShape(rs);
    forall i | 0 <= i < |rows| ensures rs[i].Ok? <==> SaldoMin(rows[i].saldo).Ok? && AbonoMin(rows[i].abono).Ok? {
      AdjustRowMeaning(rows[i]);
    }
    if GetAdjusts(rows).Err? {
      var i :| 0 <= i < |rs| && rs[i].Err? && GetAdjusts(rows).error == rs[i].error;
      AdjustRowMeaning(rows[i]);
    }
  }

  /** Every row `format_punches_as_dataframe` builds has a balance and an
      expected time that read, so its adjusted row never fails. */
  lemma BuiltRowAdjusts(g: seq<Punch>, holidays: seq<string>, tz: int)
    requires |g| >= 1 && BuildRow(g, holidays, tz).Ok?
    ensures AdjustRow(BuildRow(g, holidays, tz).value).Ok?
  {
    RowParts(g, holidays, tz);
    var r := BuildRow(g, holidays, tz).value;
    AbonoReads(g[0].date, r.weekday, holidays);
    SaldoReads(r.trabalhadas, r.abono, r.saldo);
    AdjustRowMeaning(r);
  }

  /** Every "Saldo" text the daily frame writes reads as a balance. */
  lemma SaldoReads(trabalhadas: string, abono: string, saldo: string)
    requires Saldo(trabalhadas, abono) == Ok(saldo)
    ensures SaldoMin(saldo).Ok?
  {
    if trabalhadas != Sentinel {
      var b := SaldoIsBalance(trabalhadas, abono);
      SaldoMinOfBalance(b);
    }
  }

  lemma SaldoIsBalance(trabalhadas: string, abono: string) returns (b: int)
    requires trabalhadas != Sentinel && Saldo(trabalhadas, abono).Ok?
    ensures Saldo(trabalhadas, abono) == Ok(MinutesToStr(b))
  {
    b := StrToMinutes(trabalhadas).value - StrToMinutes(abono).value;
  }

  /** Every row `format_punches_as_dataframe` builds reads, so `get_adjusts`
      fails on its frame only when there were no punches at all: the frame
      built from an empty list has no columns, and "Pontos" is a KeyError. */
  lemma FrameAdjusts(ps: seq<Punch>, holidays: seq<string>, tz: int)
    requires DailyTable(ps, holidays, tz).Ok?
    ensures GetAdjusts(DailyTable(ps, holidays, tz).value).Ok? <==> ps != []
    ensures ps == [] ==> GetAdjusts(DailyTable(ps, holidays, tz).value) == Err(KeyError)
  {
    FrameShape(ps, holidays, tz);
    var rows := DailyTable(ps, holidays, tz).value;
    var ks := Keys(ps);
    if ps != [] {
      KeysSeen(ps, KeyOf(ps[0]));
    }
    forall i | 0 <= i < |rows| ensures SaldoMin(rows[i].saldo).Ok? && AbonoMin(rows[i].abono).Ok? {
      BuiltRowAdjusts(GroupOf(ps, ks[i]), holidays, tz);
      AdjustRowMeaning(rows[i]);
    }
    GetAdjustsShape(rows);
  }
}
