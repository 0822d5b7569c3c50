/** `adjusted_punches` (utils/transformToDataframe.py): one pass over the
    frame `get_adjusts` returns, which stretches short breaks to one hour,
    hands the day's excess overtime out to days below the cap, and takes
    the excess off the days above it. The model keeps the pass as written:
    the row read at the top of an iteration is a snapshot, so steps 2 and 3
    rebuild "Pontos" from the original text; steps 2 and 3 write the new
    last block into position 1; and the pool is spent before the shape of
    "Pontos" is checked. */
module Redistribution {
  import opened Errors
  import opened Text
  import opened TimeCodec
  import opened DailyRecords
  import opened Overtime

  /** The shortest break the pass allows, in minutes. */
  const MinBreak: int := 60
  const OneHour: string := "01:00"
  const AdjustMark: string := "AJUSTAR"

  // ---------------------------------------------------------------------
  // The pass's own minute codec

  /** The local `str_to_minutes`: the empty text is 0; otherwise '+' signs
      are stripped from both ends and the rest is read as "h:m". */
  function LocalStrToMinutes(s: string): Result<int>
  {
    if s == "" then Ok(0) else HoursMinutes(StripChar(s, '+'))
  }

  /** The local `minutes_to_str`: '-' for negatives and no sign otherwise. */
  function LocalMinutesToStr(mins: int): string
  {
    (if mins < 0 then "-" else "") + Clock(Abs(mins) / 60, Abs(mins) % 60)
  }

  /** `somar_minutos_hora_str`: a time text moved by `mins` minutes. */
  function AddMinutes(hora: string, mins: int): Result<string>
  {
    var t :- LocalStrToMinutes(hora);
    Ok(LocalMinutesToStr(t + mins))
  }

  /** The reading of the local codec's texts that they are meant to have:
      an optional '-' applying to the whole quantity, then an unsigned
      clock. The reference decoder `LocalMinutesToStr` is proved against. */
  function LocalSignedMinutes(s: string): Option<int>
  {
    if |s| >= 1 && s[0] == '-' then
      match UnsignedMinutes(s[1..])
      case Some(v) => Some(-v)
      case None => None
    else UnsignedMinutes(s)
  }

  // ---------------------------------------------------------------------
  // One iteration

  /** Step 1: a break shorter than an hour (an empty "Intervalo" counts as
      none) moves both times of the first block earlier by what is missing,
      and marks the row. `row` is the snapshot, `cur` the row as written so
      far. */
  function BreakStep(cur: AdjustedRow, row: AdjustedRow): Result<AdjustedRow>
  {
    var iv :- LocalStrToMinutes(row.intervalo);
    if iv >= MinBreak then Ok(cur)
    else ShiftFirst(cur, Split(row.daily.pontos, " | "), MinBreak - iv)
  }

  /** The rest of step 1, on the blocks of "Pontos" and the minutes to
      reduce by: with more than one block and a first block of two times,
      both times move earlier and the row is marked. */
  function ShiftFirst(cur: AdjustedRow, blocos: seq<string>, reduce: int): Result<AdjustedRow>
  {
    if |blocos| <= 1 then Ok(cur)
    else
      var es := Split(blocos[0], " - ");
      if |es| != 2 then Ok(cur)
      else
        var entrada :- AddMinutes(es[0], -reduce);
        var saida :- AddMinutes(es[1], -reduce);
        Ok(cur.(daily := cur.daily.(pontos := Join(blocos[0 := entrada + " - " + saida], " | "),
                                    ajustado := AdjustMark),
                intervalo := OneHour))
  }

  /** A time `t` moved earlier by what a break of `iv` minutes lacks. */
  function Earlier(t: int, iv: int): int { t - (MinBreak - iv) }

  /** What the pool gives a row that wants `want` minutes: all of them
      when it has enough, otherwise everything it has. */
  function Given(pool: int, want: int): int
  {
    if pool >= want then want else pool
  }

  /** Step 2: a row with minutes available below the cap takes what the
      pool can give; the pool is charged before the shape of "Pontos" is
      checked. With at least two blocks and a last block of two times, the
      last block's end is moved later and written into position 1, and the
      available minutes keep what was not covered. */
  function ExtraStep(cur: AdjustedRow, row: AdjustedRow, pool: int): Result<(AdjustedRow, int)>
  {
    var extra := row.disponiveis;
    if extra == "" || pool <= 0 then Ok((cur, pool))
    else
      var want :- LocalStrToMinutes(extra);
      GiveExtra(cur, Split(row.daily.pontos, " | "), want, Given(pool, want), pool - Given(pool, want))
  }

  /** The rest of step 2, once the pool has given `give` of the `want`
      minutes and kept `left`: with more than one block and a last block of
      two times, that block's end moves later and is written into
      position 1. */
  function GiveExtra(cur: AdjustedRow, blocos: seq<string>, want: int, give: int, left: int)
    : Result<(AdjustedRow, int)>
  {
    if |blocos| <= 1 then Ok((cur, left))
    else
      var es := Split(blocos[|blocos| - 1], " - ");
      if |es| != 2 then Ok((cur, left))
      else
        var saida :- AddMinutes(es[1], give);
        Ok((cur.(daily := cur.daily.(pontos := Join(blocos[1 := es[0] + " - " + saida], " | "),
                                     ajustado := AdjustMark),
                 disponiveis := if left < want then LocalMinutesToStr(want - give) else ""),
            left))
  }

  /** Step 3: a row with excess overtime has it taken off its last block's
      end (written into position 1) and the excess cleared; a row whose
      "Pontos" has the wrong shape keeps its excess. */
  function ExcessStep(cur: AdjustedRow, row: AdjustedRow): Result<AdjustedRow>
  {
    if cur.excedentes == "" then Ok(cur)
    else TakeExcess(cur, Split(row.daily.pontos, " | "))
  }

  /** The rest of step 3 for a row with excess: with more than one block
      and a last block of two times, that block's end moves earlier by the
      excess and is written into position 1. */
  function TakeExcess(cur: AdjustedRow, blocos: seq<string>): Result<AdjustedRow>
  {
    if |blocos| <= 1 then Ok(cur)
    else
      var es := Split(blocos[|blocos| - 1], " - ");
      if |es| != 2 then Ok(cur)
      else
        var excess :- LocalStrToMinutes(cur.excedentes);
        var saida :- AddMinutes(es[1], -excess);
        Ok(cur.(daily := cur.daily.(pontos := Join(blocos[1 := es[0] + " - " + saida], " | "),
                                    ajustado := AdjustMark),
                excedentes := ""))
  }

  /** One iteration: the three steps in order, all reading the snapshot. */
  function Step(row: AdjustedRow, pool: int): Result<(AdjustedRow, int)>
  {
    var a :- BreakStep(row, row);
    var b :- ExtraStep(a, row, pool);
    var c :- ExcessStep(b.0, row);
    Ok((c, b.1))
  }

  /** The rows after the iterations over `rows`, and the pool left. */
  function Run(rows: seq<AdjustedRow>, pool: int): Result<(seq<AdjustedRow>, int)>
  {
    if rows == [] then Ok(([], pool))
    else
      var prev :- Run(rows[..|rows| - 1], pool);
      var last :- Step(rows[|rows| - 1], prev.1);
      Ok((prev.0 + [last.0], last.1))
  }

  /** The pool: the excess minutes of every row, summed. */
  function ExcessMinutes(rows: seq<AdjustedRow>): Result<int>
  {
    if rows == [] then Ok(0)
    else
      var prev :- ExcessMinutes(rows[..|rows| - 1]);
      var last :- LocalStrToMinutes(rows[|rows| - 1].excedentes);
      Ok(prev + last)
  }

  /** `adjusted_punches` on a whole frame. */
  function AdjustedFrame(rows: seq<AdjustedRow>): Result<seq<AdjustedRow>>
  {
    var total :- ExcessMinutes(rows);
    var out :- Run(rows, total);
    Ok(out.0)
  }

  /** A failure in the first `n` rows is the failure of the whole pass. */
  lemma {:induction false} RunPrefixErr(rows: seq<AdjustedRow>, n: nat, pool: int)
    requires n <= |rows| && Run(rows[..n], pool).Err?
    ensures Run(rows, pool) == Err(Run(rows[..n], pool).error)
    decreases |rows|
  {
    if n < |rows| {
      var init := rows[..|rows| - 1];
      assert init[..n] == rows[..n];
      RunPrefixErr(init, n, pool);
    } else {
      assert rows[..n] == rows;
    }
  }

  /** `adjusted_punches`: the frame is copied to an array whose rows the
      loop rewrites in place while the pool of excess minutes is spent. */
  method AdjustedPunches(frame: seq<AdjustedRow>) returns (r: Result<seq<AdjustedRow>>)
    ensures r == AdjustedFrame(frame)
  {
    var total := ExcessMinutes(frame);
    if total.Err? {
      return Err(total.error);
    }
    var pool := total.value;
    var df := new AdjustedRow[|frame|](i requires 0 <= i < |frame| => frame[i]);
    for i := 0 to df.Length
      invariant df.Length == |frame|
      invariant forall j | i <= j < df.Length :: df[j] == frame[j]
      invariant Run(frame[..i], total.value) == Ok((df[..i], pool))
    {
      ghost var before := df[..];
      var left := RewriteRow(df, i, pool);
      if left.Err? {
        RunStepErr(frame, i, total.value, pool, left.error);
        return Err(left.error);
      }
      RunStepOk(frame, i, total.value, before[..i], pool, df[i], left.value);
      SnocPrefix(df[..], before, i);
      pool := left.value;
    }
    FullPrefixes(frame, df[..]);
    return Ok(df[..]);
  }

  /** The pass over the first `i + 1` rows is the pass over the first `i`
      followed by one iteration. */
  lemma RunStepOk(rows: seq<AdjustedRow>, i: nat, pool: int, prev: seq<AdjustedRow>, q: int,
                  st: AdjustedRow, left: int)
    requires i < |rows| && Run(rows[..i], pool) == Ok((prev, q))
    requires Step(rows[i], q) == Ok((st, left))
    ensures Run(rows[..i + 1], pool) == Ok((prev + [st], left))
  {
    assert rows[..i + 1][..i] == rows[..i];
  }

  /** An iteration that fails makes the whole pass fail. */
  lemma RunStepErr(rows: seq<AdjustedRow>, i: nat, pool: int, q: int, e: Error)
    requires i < |rows| && Run(rows[..i], pool).Ok? && Run(rows[..i], pool).value.1 == q
    requires Step(rows[i], q) == Err(e)
    ensures Run(rows, pool) == Err(e)
  {
    assert rows[..i + 1][..i] == rows[..i];
    RunPrefixErr(rows, i + 1, pool);
  }

  lemma SnocPrefix(s: seq<AdjustedRow>, t: seq<AdjustedRow>, i: nat)
    requires i < |s| == |t| && forall j | 0 <= j < |s| && j != i :: s[j] == t[j]
    ensures s[..i + 1] == t[..i] + [s[i]]
  {
  }

  lemma FullPrefixes(frame: seq<AdjustedRow>, d: seq<AdjustedRow>)
    ensures frame[..|frame|] == frame && d[..|d|] == d
  {
  }

  /** One iteration of the loop: the snapshot `row` is taken, and the three
      steps write `df[i]` in turn; the pool left is returned. */
  method RewriteRow(df: array<AdjustedRow>, i: int, pool: int) returns (r: Result<int>)
    requires 0 <= i < df.Length
    modifies df
    ensures r.Err? ==> Step(old(df[i]), pool) == Err(r.error)
    ensures r.Ok? ==> Step(old(df[i]), pool) == Ok((df[i], r.value))
    ensures forall j | 0 <= j < df.Length && j != i :: df[j] == old(df[j])
  {
    var row := df[i];
    var a := BreakStep(df[i], row);
    if a.Err? {
      return Err(a.error);
    }
    df[i] := a.value;
    var b := ExtraStep(df[i], row, pool);
    if b.Err? {
      return Err(b.error);
    }
    df[i] := b.value.0;
    var c := ExcessStep(df[i], row);
    if c.Err? {
      return Err(c.error);
    }
    df[i] := c.value;
    return Ok(b.value.1);
  }

  // ---------------------------------------------------------------------
  // The local codec

  lemma ClockEnds(h: nat, m: nat)
    ensures |Clock(h, m)| >= 5 && IsDigit(Clock(h, m)[0]) && IsDigit(Clock(h, m)[|Clock(h, m)| - 1])
  {
    var a, b := Pad2(h), Pad2(m);
    Pad2Spec(h);
    Pad2Spec(m);
    assert Clock(h, m)[0] == a[0] && Clock(h, m)[|Clock(h, m)| - 1] == b[|b| - 1];
    assert IsDigit(a[0]) && IsDigit(b[|b| - 1]);
  }

  /** Stripping '+' leaves a clock as it is, and removes a leading '+'. */
  lemma StripPlusOfClock(sign: string, h: nat, m: nat)
    requires sign == "" || sign == "+"
    ensures StripChar(sign + Clock(h, m), '+') == Clock(h, m)
  {
    var c := Clock(h, m);
    ClockEnds(h, m);
    if sign == "+" {
      var t := sign + c;
      assert t[0] == '+' && t[1..] == c;
    } else {
      assert sign + c == c;
    }
  }

  lemma StripPlusOfNegative(h: nat, m: nat)
    ensures StripChar("-" + Clock(h, m), '+') == "-" + Clock(h, m)
  {
    var t := "-" + Clock(h, m);
    ClockEnds(h, m);
    assert t[0] == '-' && t[|t| - 1] == Clock(h, m)[|Clock(h, m)| - 1];
  }

  /** A clock side of "Pontos" reads as its minute of the day. */
  lemma LocalReadsClock(h: nat, m: nat)
    ensures LocalStrToMinutes(Clock(h, m)) == Ok(h * 60 + m)
  {
    StrToMinutesOfClock(h, m);
    ClockEnds(h, m);
    StripPlusOfClock("", h, m);
    assert "" + Clock(h, m) == Clock(h, m);
  }

  lemma LocalReadsVia(s: string, c: string, v: int)
    requires s != "" && StripChar(s, '+') == c && HoursMinutes(c) == Ok(v)
    ensures LocalStrToMinutes(s) == Ok(v)
  {
  }

  lemma ClockHours(h: nat, m: nat)
    ensures HoursMinutes(Clock(h, m)) == Ok(h * 60 + m)
  {
    StrToMinutesOfClock(h, m);
    ClockEnds(h, m);
  }

  lemma NegativeClockHours(a: nat)
    ensures HoursMinutes("-" + Clock(a / 60, a % 60)) == Ok(-(a / 60) * 60 + a % 60)
  {
    NegativeClockReads(a);
  }

  /** The local codec reads the texts `minutes_to_str` writes for the
      overtime columns: a non-negative count behind a '+'. */
  lemma LocalReadsSigned(m: int)
    requires m >= 0
    ensures LocalStrToMinutes(MinutesToStr(m)) == Ok(m)
  {
    var c := Clock(m / 60, m % 60);
    StripOfSigned(m);
    MinuteClockHours(m);
    LocalReadsVia(MinutesToStr(m), c, m);
  }

  lemma StripOfSigned(m: int)
    requires m >= 0
    ensures StripChar(MinutesToStr(m), '+') == Clock(m / 60, m % 60)
  {
    SignAndClock(m);
    StripPlusOfClock("+", m / 60, m % 60);
  }

  lemma MinuteClockHours(m: int)
    requires m >= 0
    ensures HoursMinutes(Clock(m / 60, m % 60)) == Ok(m)
  {
    var h, mm := m / 60, m % 60;
    ClockHours(h, mm);
    assert h * 60 + mm == m;
  }

  /** The local codec round-trips non-negative counts; a negative one comes
      back with its sign on the hours only. */
  lemma LocalRoundTrip(m: int)
    ensures LocalStrToMinutes(LocalMinutesToStr(m)) ==
      Ok(if m >= 0 then m else -(Abs(m) / 60) * 60 + Abs(m) % 60)
  {
    if m >= 0 { LocalRoundTripNonNegative(m); } else { LocalRoundTripNegative(m); }
  }

  lemma LocalRoundTripNonNegative(m: int)
    requires m >= 0
    ensures LocalStrToMinutes(LocalMinutesToStr(m)) == Ok(m)
  {
    var c := Clock(m / 60, m % 60);
    assert LocalMinutesToStr(m) == c;
    StripPlusOfClock("", m / 60, m % 60);
    assert "" + c == c;
    MinuteClockHours(m);
    LocalReadsVia(c, c, m);
  }

  lemma LocalRoundTripNegative(m: int)
    requires m < 0
    ensures LocalStrToMinutes(LocalMinutesToStr(m)) == Ok(-(Abs(m) / 60) * 60 + Abs(m) % 60)
  {
    var a := Abs(m);
    var t := "-" + Clock(a / 60, a % 60);
    assert LocalMinutesToStr(m) == t;
    StripPlusOfNegative(a / 60, a % 60);
    NegativeClockHours(a);
    var v: int := -((a / 60) as int) * 60 + a % 60;
    LocalReadsVia(t, t, v);
  }

  lemma SignedOfNegative(t: string, c: string, v: int)
    requires |t| >= 1 && t[0] == '-' && t[1..] == c && UnsignedMinutes(c) == Some(v)
    ensures LocalSignedMinutes(t) == Some(-v)
  {
  }

  lemma SignedOfUnsigned(c: string, v: int)
    requires |c| >= 1 && c[0] != '-' && UnsignedMinutes(c) == Some(v)
    ensures LocalSignedMinutes(c) == Some(v)
  {
  }

  /** Read with the sign applying to the whole quantity, every text the
      local `minutes_to_str` writes denotes the minutes it was given. */
  lemma LocalMinutesToStrDenotes(m: int)
    ensures LocalSignedMinutes(LocalMinutesToStr(m)) == Some(m)
  {
    var a := Abs(m);
    var c := Clock(a / 60, a % 60);
    ClockReads(a / 60, a % 60);
    ClockEnds(a / 60, a % 60);
    if m < 0 {
      var t := "-" + c;
      assert LocalMinutesToStr(m) == t && t[0] == '-' && t[1..] == c;
      SignedOfNegative(t, c, a);
    } else {
      assert LocalMinutesToStr(m) == c;
      SignedOfUnsigned(c, a);
    }
  }

  /** The local texts have no space and no bar, so they stay one side of
      one block. */
  lemma LocalTextClean(m: int)
    ensures NoChar(LocalMinutesToStr(m), ' ') && NoChar(LocalMinutesToStr(m), '|')
  {
    var a := Abs(m);
    ClockHasNo(a / 60, a % 60, ' ');
    ClockHasNo(a / 60, a % 60, '|');
    var sign := if m < 0 then "-" else "";
    NoCharConcat(sign, Clock(a / 60, a % 60), ' ');
    NoCharConcat(sign, Clock(a / 60, a % 60), '|');
  }

  /** `somar_minutos_hora_str` on a text that reads as `t` gives a clean
      text denoting `t + mins`. */
  lemma AddMinutesMeaning(hora: string, mins: int, t: int)
    requires LocalStrToMinutes(hora) == Ok(t)
    ensures AddMinutes(hora, mins).Ok?
    ensures LocalSignedMinutes(AddMinutes(hora, mins).value) == Some(t + mins)
    ensures NoChar(AddMinutes(hora, mins).value, ' ') && NoChar(AddMinutes(hora, mins).value, '|')
  {
    var v := t + mins;
    AddMinutesIs(hora, mins, t, v);
    LocalMinutesToStrDenotes(v);
    LocalTextClean(v);
  }

  lemma AddMinutesIs(hora: string, mins: int, t: int, v: int)
    requires LocalStrToMinutes(hora) == Ok(t) && v == t + mins
    ensures AddMinutes(hora, mins) == Ok(LocalMinutesToStr(v))
  {
  }

  // ---------------------------------------------------------------------
  // What each step does to the row

  /** No block of a split "Pontos" holds a bar, as for every text
      `format_punches_as_dataframe` renders. */
  predicate BarFree(bl: seq<string>) { forall k | 0 <= k < |bl| :: NoChar(bl[k], '|') }

  /** The two times of block `k` of "Pontos" `p`, read against the blocks
      `bl` it was rebuilt from: present when `p` has as many blocks as `bl`,
      keeps every block of `bl` but the `k`th, and has two times in block
      `k`. */
  function BlockSides(p: string, bl: seq<string>, k: nat): Option<(string, string)>
  {
    var nbl := Split(p, " | ");
    if k < |bl| && |nbl| == |bl| && (forall j | 0 <= j < |bl| && j != k :: nbl[j] == bl[j]) &&
       |Split(nbl[k], " - ")| == 2
    then Some((Split(nbl[k], " - ")[0], Split(nbl[k], " - ")[1]))
    else None
  }

  /** Replacing block `k` by "a - b" and joining gives a text that splits
      back into the same blocks, the new one into `a` and `b`. */
  lemma RewriteBlock(bl: seq<string>, k: nat, a: string, b: string)
    requires k < |bl| && BarFree(bl)
    requires NoChar(a, ' ') && NoChar(b, ' ') && NoChar(a, '|') && NoChar(b, '|')
    ensures Split(Join(bl[k := a + " - " + b], " | "), " | ") == bl[k := a + " - " + b]
    ensures Split(a + " - " + b, " - ") == [a, b]
  {
    var nb := a + " - " + b;
    NoCharConcat(a, " - ", '|');
    NoCharConcat(a + " - ", b, '|');
    var bl2 := bl[k := nb];
    assert forall j | 0 <= j < |bl2| :: NoChar(bl2[j], '|');
    SplitJoinBar(bl2);
    SplitDashSpaceFree(a, b);
  }

  /** Step 1 when the break is short and the first block has two times
      that read: the row is marked, "Intervalo" becomes "01:00", every block
      but the first is kept, and the first block's two times move earlier
      by the minutes the break was missing. Nothing else changes. */
  lemma BreakStepShifts(row: AdjustedRow, bl: seq<string>, iv: int, tx: int, ty: int)
    requires LocalStrToMinutes(row.intervalo) == Ok(iv) && iv < MinBreak
    requires bl == Split(row.daily.pontos, " | ") && |bl| >= 2 && BarFree(bl)
    requires |Split(bl[0], " - ")| == 2
    requires LocalStrToMinutes(Split(bl[0], " - ")[0]) == Ok(tx)
    requires LocalStrToMinutes(Split(bl[0], " - ")[1]) == Ok(ty)
    ensures BreakStep(row, row).Ok?
    ensures var out := BreakStep(row, row).value;
      out == row.(daily := row.daily.(pontos := out.daily.pontos, ajustado := AdjustMark), intervalo := OneHour)
    ensures var sides := BlockSides(BreakStep(row, row).value.daily.pontos, bl, 0);
      sides.Some? &&
      LocalSignedMinutes(sides.value.0) == Some(Earlier(tx, iv)) &&
      LocalSignedMinutes(sides.value.1) == Some(Earlier(ty, iv))
  {
    var es := Split(bl[0], " - ");
    var e, sa := BreakSides(es, iv, tx, ty);
    BreakStepResult(row, iv, bl, es, e, sa);
    SidesOfShift(bl, e, sa, iv, tx, ty);
  }

  /** The first block's two times, moved earlier by what the break lacks. */
  lemma BreakSides(es: seq<string>, iv: int, tx: int, ty: int) returns (e: string, sa: string)
    requires |es| == 2 && LocalStrToMinutes(es[0]) == Ok(tx) && LocalStrToMinutes(es[1]) == Ok(ty)
    ensures AddMinutes(es[0], -(MinBreak - iv)) == Ok(e) && AddMinutes(es[1], -(MinBreak - iv)) == Ok(sa)
    ensures e == LocalMinutesToStr(Earlier(tx, iv)) && sa == LocalMinutesToStr(Earlier(ty, iv))
  {
    var h0, h1 := es[0], es[1];
    ShiftEarlier(h0, iv, tx);
    ShiftEarlier(h1, iv, ty);
    e, sa := LocalMinutesToStr(Earlier(tx, iv)), LocalMinutesToStr(Earlier(ty, iv));
  }

  lemma ShiftEarlier(hora: string, iv: int, t: int)
    requires LocalStrToMinutes(hora) == Ok(t)
    ensures AddMinutes(hora, -(MinBreak - iv)) == Ok(LocalMinutesToStr(Earlier(t, iv)))
  {
  }

  /** The first block rewritten with the texts the local `minutes_to_str`
      writes for its two times moved earlier by what the break lacks. */
  lemma SidesOfShift(bl: seq<string>, a: string, b: string, iv: int, tx: int, ty: int)
    requires |bl| >= 1 && BarFree(bl)
    requires a == LocalMinutesToStr(Earlier(tx, iv)) && b == LocalMinutesToStr(Earlier(ty, iv))
    ensures var sides := BlockSides(Join(bl[0 := a + " - " + b], " | "), bl, 0);
      sides.Some? &&
      LocalSignedMinutes(sides.value.0) == Some(Earlier(tx, iv)) &&
      LocalSignedMinutes(sides.value.1) == Some(Earlier(ty, iv))
  {
    SideText(Earlier(tx, iv));
    SideText(Earlier(ty, iv));
    SidesOfRewrite(bl, 0, a, b);
  }

  /** A text the local `minutes_to_str` writes denotes its minutes and has
      no space and no bar. */
  lemma SideText(v: int)
    ensures LocalSignedMinutes(LocalMinutesToStr(v)) == Some(v)
    ensures NoChar(LocalMinutesToStr(v), ' ') && NoChar(LocalMinutesToStr(v), '|')
  {
    LocalMinutesToStrDenotes(v);
    LocalTextClean(v);
  }

  lemma BreakStepResult(row: AdjustedRow, iv: int, bl: seq<string>, es: seq<string>, e: string, sa: string)
    requires LocalStrToMinutes(row.intervalo) == Ok(iv) && iv < MinBreak
    requires bl == Split(row.daily.pontos, " | ") && |bl| >= 2
    requires es == Split(bl[0], " - ") && |es| == 2
    requires AddMinutes(es[0], -(MinBreak - iv)) == Ok(e) && AddMinutes(es[1], -(MinBreak - iv)) == Ok(sa)
    ensures BreakStep(row, row) == Ok(row.(daily := row.daily.(pontos := Join(bl[0 := e + " - " + sa], " | "),
                                                             ajustado := AdjustMark),
                                           intervalo := OneHour))
  {
    BreakStepIsShift(row, iv);
    ShiftFirstResult(row, bl, MinBreak - iv, e, sa);
  }

  /** Past its break guard, step 1 is the first-block shift by what the
      break lacks. */
  lemma BreakStepIsShift(row: AdjustedRow, iv: int)
    requires LocalStrToMinutes(row.intervalo) == Ok(iv) && iv < MinBreak
    ensures BreakStep(row, row) == ShiftFirst(row, Split(row.daily.pontos, " | "), MinBreak - iv)
  {
  }

  lemma ShiftFirstResult(cur: AdjustedRow, bl: seq<string>, r: int, e: string, sa: string)
    requires |bl| >= 2 && |Split(bl[0], " - ")| == 2
    requires AddMinutes(Split(bl[0], " - ")[0], -r) == Ok(e) && AddMinutes(Split(bl[0], " - ")[1], -r) == Ok(sa)
    ensures ShiftFirst(cur, bl, r) == Ok(cur.(daily := cur.daily.(pontos := Join(bl[0 := e + " - " + sa], " | "),
                                                                 ajustado := AdjustMark),
                                             intervalo := OneHour))
  {
  }

  /** Block `k` rewritten with two clean sides: the joined text splits back
      into the other blocks unchanged and the new block's two sides. */
  lemma SidesOfRewrite(bl: seq<string>, k: nat, a: string, b: string)
    requires k < |bl| && BarFree(bl)
    requires NoChar(a, ' ') && NoChar(b, ' ') && NoChar(a, '|') && NoChar(b, '|')
    ensures BlockSides(Join(bl[k := a + " - " + b], " | "), bl, k) == Some((a, b))
  {
    RewriteBlock(bl, k, a, b);
  }

  /** The shape steps 2 and 3 need: at least two blocks, and a last block
      of two times whose start is a plain time text. */
  predicate LastBlockPair(p: string)
  {
    var bl := Split(p, " | ");
    |bl| >= 2 && BarFree(bl) &&
    |Split(bl[|bl| - 1], " - ")| == 2 &&
    NoChar(Split(bl[|bl| - 1], " - ")[0], ' ') && NoChar(Split(bl[|bl| - 1], " - ")[0], '|')
  }

  /** Step 2 on a row below the cap whose last block ends at a time that
      reads as `ty`: the pool gives `give`, the smaller of the pool and the
      minutes wanted; block 1 becomes the last block's start and its end
      moved `give` minutes later, every other block is kept (so with three
      blocks or more the last block itself is not changed); the row is
      marked; "Hrs Extras Disponíveis" is cleared when the pool left still
      covers the want, and otherwise holds what was not covered. */
  lemma ExtraStepGives(cur: AdjustedRow, row: AdjustedRow, pool: int, want: int, ty: int)
    requires row.disponiveis != "" && pool > 0 && LocalStrToMinutes(row.disponiveis) == Ok(want)
    requires LastBlockPair(row.daily.pontos)
    requires var bl := Split(row.daily.pontos, " | ");
      LocalStrToMinutes(Split(bl[|bl| - 1], " - ")[1]) == Ok(ty)
    ensures ExtraStep(cur, row, pool).Ok?
    ensures var give := Given(pool, want);
      ExtraStep(cur, row, pool).value.1 == pool - give
    ensures var out := ExtraStep(cur, row, pool).value.0;
      out == cur.(daily := cur.daily.(pontos := out.daily.pontos, ajustado := AdjustMark),
                  disponiveis := out.disponiveis)
    ensures var give := Given(pool, want);
      var bl := Split(row.daily.pontos, " | ");
      var sides := BlockSides(ExtraStep(cur, row, pool).value.0.daily.pontos, bl, 1);
      sides.Some? && sides.value.0 == Split(bl[|bl| - 1], " - ")[0] &&
      LocalSignedMinutes(sides.value.1) == Some(ty + give)
    ensures var give := Given(pool, want);
      var d := ExtraStep(cur, row, pool).value.0.disponiveis;
      (d == "" <==> pool - give >= want) &&
      (d != "" ==> LocalSignedMinutes(d) == Some(want - give))
  {
    var bl := Split(row.daily.pontos, " | ");
    var es := Split(bl[|bl| - 1], " - ");
    var give := Given(pool, want);
    var saida := ExtraSide(bl, es, ty, give);
    ExtraStepResult(cur, row, pool, want, give, pool - give, bl, es, saida);
    RemainingText(ExtraStep(cur, row, pool).value.0.disponiveis, want, give, pool - give);
  }

  /** The local `minutes_to_str` never writes the empty text. */
  lemma LocalMinutesToStrWritten(m: int)
    ensures LocalMinutesToStr(m) != ""
  {
    ClockEnds(Abs(m) / 60, Abs(m) % 60);
  }

  lemma ExtraSide(bl: seq<string>, es: seq<string>, ty: int, give: int) returns (saida: string)
    requires |bl| >= 2 && BarFree(bl) && es == Split(bl[|bl| - 1], " - ") && |es| == 2
    requires NoChar(es[0], ' ') && NoChar(es[0], '|') && LocalStrToMinutes(es[1]) == Ok(ty)
    ensures AddMinutes(es[1], give) == Ok(saida)
    ensures BlockSides(Join(bl[1 := es[0] + " - " + saida], " | "), bl, 1) == Some((es[0], saida))
    ensures LocalSignedMinutes(saida) == Some(ty + give)
  {
    saida := LocalMinutesToStr(ty + give);
    SideText(ty + give);
    SidesOfRewrite(bl, 1, es[0], saida);
    AddMinutesIs(es[1], give, ty, ty + give);
  }

  /** Step 2 for a row whose shape checks pass, as one value; `give` and
      `left` are the step's own quantities. */
  lemma ExtraStepResult(cur: AdjustedRow, row: AdjustedRow, pool: int, want: int, give: int, left: int,
                        bl: seq<string>, es: seq<string>, saida: string)
    requires row.disponiveis != "" && pool > 0 && LocalStrToMinutes(row.disponiveis) == Ok(want)
    requires give == Given(pool, want) && left == pool - give
    requires bl == Split(row.daily.pontos, " | ") && |bl| >= 2
    requires es == Split(bl[|bl| - 1], " - ") && |es| == 2
    requires AddMinutes(es[1], give) == Ok(saida)
    ensures ExtraStep(cur, row, pool) ==
      Ok((cur.(daily := cur.daily.(pontos := Join(bl[1 := es[0] + " - " + saida], " | "), ajustado := AdjustMark),
               disponiveis := if left < want then LocalMinutesToStr(want - give) else ""),
          left))
  {
    ExtraStepIsGive(cur, row, pool, want, bl, give, left);
    GiveExtraResult(cur, bl, want, give, left, saida);
  }

  /** Past its guards, step 2 is the rest of the step on the blocks of
      "Pontos" with what the pool gives. */
  lemma ExtraStepIsGive(cur: AdjustedRow, row: AdjustedRow, pool: int, want: int, bl: seq<string>, give: int, left: int)
    requires row.disponiveis != "" && pool > 0 && LocalStrToMinutes(row.disponiveis) == Ok(want)
    requires bl == Split(row.daily.pontos, " | ") && give == Given(pool, want) && left == pool - give
    ensures ExtraStep(cur, row, pool) == GiveExtra(cur, bl, want, give, left)
  {
  }

  lemma GiveExtraResult(cur: AdjustedRow, bl: seq<string>, want: int, give: int, left: int, saida: string)
    requires |bl| >= 2 && |Split(bl[|bl| - 1], " - ")| == 2
    requires AddMinutes(Split(bl[|bl| - 1], " - ")[1], give) == Ok(saida)
    ensures GiveExtra(cur, bl, want, give, left) ==
      Ok((cur.(daily := cur.daily.(pontos := Join(bl[1 := Split(bl[|bl| - 1], " - ")[0] + " - " + saida], " | "),
                                   ajustado := AdjustMark),
               disponiveis := if left < want then LocalMinutesToStr(want - give) else ""),
          left))
  {
  }

  /** What the rewritten "Hrs Extras Disponíveis" says. */
  lemma RemainingText(d: string, want: int, give: int, left: int)
    requires d == if left < want then LocalMinutesToStr(want - give) else ""
    ensures d == "" <==> left >= want
    ensures d != "" ==> LocalSignedMinutes(d) == Some(want - give)
  {
    LocalMinutesToStrDenotes(want - give);
    LocalMinutesToStrWritten(want - give);
  }

  /** Step 3 on a row with excess `ex` over the cap whose last block ends
      at a time that reads as `ty`: block 1 becomes the last block's start
      and its end moved `ex` minutes earlier, every other block is kept,
      the row is marked and the excess cleared. */
  lemma ExcessStepTakes(cur: AdjustedRow, row: AdjustedRow, ex: int, ty: int)
    requires cur.excedentes != "" && LocalStrToMinutes(cur.excedentes) == Ok(ex)
    requires LastBlockPair(row.daily.pontos)
    requires var bl := Split(row.daily.pontos, " | ");
      LocalStrToMinutes(Split(bl[|bl| - 1], " - ")[1]) == Ok(ty)
    ensures ExcessStep(cur, row).Ok?
    ensures var out := ExcessStep(cur, row).value;
      out == cur.(daily := cur.daily.(pontos := out.daily.pontos, ajustado := AdjustMark), excedentes := "")
    ensures var bl := Split(row.daily.pontos, " | ");
      var sides := BlockSides(ExcessStep(cur, row).value.daily.pontos, bl, 1);
      sides.Some? && sides.value.0 == Split(bl[|bl| - 1], " - ")[0] &&
      LocalSignedMinutes(sides.value.1) == Some(ty - ex)
  {
    var bl := Split(row.daily.pontos, " | ");
    var es := Split(bl[|bl| - 1], " - ");
    var saida := ExcessSide(bl, es, ty, ex);
    ExcessStepResult(cur, row, ex, bl, es, saida);
  }

  lemma ExcessSide(bl: seq<string>, es: seq<string>, ty: int, ex: int) returns (saida: string)
    requires |bl| >= 2 && BarFree(bl) && es == Split(bl[|bl| - 1], " - ") && |es| == 2
    requires NoChar(es[0], ' ') && NoChar(es[0], '|') && LocalStrToMinutes(es[1]) == Ok(ty)
    ensures AddMinutes(es[1], -ex) == Ok(saida)
    ensures BlockSides(Join(bl[1 := es[0] + " - " + saida], " | "), bl, 1) == Some((es[0], saida))
    ensures LocalSignedMinutes(saida) == Some(ty - ex)
  {
    saida := LocalMinutesToStr(ty - ex);
    SideText(ty - ex);
    SidesOfRewrite(bl, 1, es[0], saida);
    AddMinutesIs(es[1], -ex, ty, ty - ex);
  }

  lemma ExcessStepResult(cur: AdjustedRow, row: AdjustedRow, ex: int,
                         bl: seq<string>, es: seq<string>, saida: string)
    requires cur.excedentes != "" && LocalStrToMinutes(cur.excedentes) == Ok(ex)
    requires bl == Split(row.daily.pontos, " | ") && |bl| >= 2
    requires es == Split(bl[|bl| - 1], " - ") && |es| == 2
    requires AddMinutes(es[1], -ex) == Ok(saida)
    ensures ExcessStep(cur, row) ==
      Ok(cur.(daily := cur.daily.(pontos := Join(bl[1 := es[0] + " - " + saida], " | "), ajustado := AdjustMark),
              excedentes := ""))
  {
    assert ExcessStep(cur, row) == TakeExcess(cur, bl);
    TakeExcessResult(cur, bl, ex, saida);
  }

  lemma TakeExcessResult(cur: AdjustedRow, bl: seq<string>, ex: int, saida: string)
    requires LocalStrToMinutes(cur.excedentes) == Ok(ex)
    requires |bl| >= 2 && |Split(bl[|bl| - 1], " - ")| == 2
    requires AddMinutes(Split(bl[|bl| - 1], " - ")[1], -ex) == Ok(saida)
    ensures TakeExcess(cur, bl) ==
      Ok(cur.(daily := cur.daily.(pontos := Join(bl[1 := Split(bl[|bl| - 1], " - ")[0] + " - " + saida], " | "),
                                  ajustado := AdjustMark),
              excedentes := ""))
  {
  }

  // ---------------------------------------------------------------------
  // The pool

  /** Step 2's bookkeeping, whatever the shape of "Pontos": a row with
      nothing available, or an empty pool, leaves the pool as it is;
      otherwise the pool loses what it gives, the smaller of itself and the
      minutes wanted. A pool that starts non-negative stays so. */
  lemma ExtraStepPool(cur: AdjustedRow, row: AdjustedRow, pool: int)
    requires ExtraStep(cur, row, pool).Ok?
    ensures row.disponiveis == "" || pool <= 0 ==> ExtraStep(cur, row, pool).value.1 == pool
    ensures row.disponiveis != "" && pool > 0 ==>
      LocalStrToMinutes(row.disponiveis).Ok? &&
      ExtraStep(cur, row, pool).value.1 == pool - Given(pool, LocalStrToMinutes(row.disponiveis).value)
    ensures pool >= 0 ==> ExtraStep(cur, row, pool).value.1 >= 0
  {
    if row.disponiveis != "" && pool > 0 {
      var x := ExtraStep(cur, row, pool);
      var want := LocalStrToMinutes(row.disponiveis).value;
      assert x.value.1 == pool - Given(pool, want);
    }
  }

  /** The pool a whole iteration leaves is the one step 2 leaves. */
  lemma StepPool(row: AdjustedRow, pool: int)
    requires Step(row, pool).Ok?
    ensures row.disponiveis == "" || pool <= 0 ==> Step(row, pool).value.1 == pool
    ensures row.disponiveis != "" && pool > 0 ==>
      LocalStrToMinutes(row.disponiveis).Ok? &&
      Step(row, pool).value.1 == pool - Given(pool, LocalStrToMinutes(row.disponiveis).value)
    ensures pool >= 0 ==> Step(row, pool).value.1 >= 0
  {
    var a := BreakStep(row, row).value;
    assert Step(row, pool).value.1 == ExtraStep(a, row, pool).value.1;
    ExtraStepPool(a, row, pool);
  }

  /** A row's available minutes read as a non-negative count, as those
      `get_adjusts` writes do. */
  predicate WantsNonNegative(r: AdjustedRow)
  {
    LocalStrToMinutes(r.disponiveis).Ok? ==> LocalStrToMinutes(r.disponiveis).value >= 0
  }

  /** Over the whole pass the pool never goes negative, and when no row
      wants a negative amount it never grows. */
  lemma {:induction false} RunPool(rows: seq<AdjustedRow>, pool: int)
    requires Run(rows, pool).Ok?
    ensures |Run(rows, pool).value.0| == |rows|
    ensures pool >= 0 ==> Run(rows, pool).value.1 >= 0
    ensures (forall i | 0 <= i < |rows| :: WantsNonNegative(rows[i])) ==> Run(rows, pool).value.1 <= pool
    decreases |rows|
  {
    if rows != [] {
      var init := rows[..|rows| - 1];
      RunPool(init, pool);
      var prev := Run(init, pool).value;
      var last := rows[|rows| - 1];
      StepPool(last, prev.1);
      if forall i | 0 <= i < |rows| :: WantsNonNegative(rows[i]) {
        assert forall i | 0 <= i < |init| :: WantsNonNegative(init[i]) by {
          forall i | 0 <= i < |init| ensures WantsNonNegative(init[i]) {
            assert init[i] == rows[i];
          }
        }
        assert WantsNonNegative(last);
      }
    }
  }

  // ---------------------------------------------------------------------
  // What the pass leaves alone

  /** `out` differs from `cur` at most in "Pontos" and in "Ajustado", and
      "Ajustado" only ever becomes the mark, which every rewrite of
      "Pontos" sets. */
  predicate Keeps(out: AdjustedRow, cur: AdjustedRow)
  {
    out.daily == cur.daily.(pontos := out.daily.pontos, ajustado := out.daily.ajustado) &&
    (out.daily.ajustado == cur.daily.ajustado || out.daily.ajustado == AdjustMark) &&
    (out.daily.pontos != cur.daily.pontos ==> out.daily.ajustado == AdjustMark)
  }

  lemma KeepsTrans(a: AdjustedRow, b: AdjustedRow, c: AdjustedRow)
    requires Keeps(b, a) && Keeps(c, b)
    ensures Keeps(c, a)
  {
  }

  /** Step 1 changes at most "Pontos", "Ajustado" and "Intervalo", and
      sets "Intervalo" only to "01:00". */
  lemma BreakStepKeeps(cur: AdjustedRow, row: AdjustedRow)
    requires BreakStep(cur, row).Ok?
    ensures var out := BreakStep(cur, row).value;
      Keeps(out, cur) && out.excedentes == cur.excedentes && out.disponiveis == cur.disponiveis &&
      (out.intervalo == cur.intervalo || out.intervalo == OneHour)
  {
  }

  /** Step 2 changes at most "Pontos", "Ajustado" and "Hrs Extras
      Disponíveis". */
  lemma ExtraStepKeeps(cur: AdjustedRow, row: AdjustedRow, pool: int)
    requires ExtraStep(cur, row, pool).Ok?
    ensures var out := ExtraStep(cur, row, pool).value.0;
      Keeps(out, cur) && out.excedentes == cur.excedentes && out.intervalo == cur.intervalo
  {
  }

  /** Step 3 changes at most "Pontos", "Ajustado" and "Hrs Extras
      Excedentes", which it only clears. */
  lemma ExcessStepKeeps(cur: AdjustedRow, row: AdjustedRow)
    requires ExcessStep(cur, row).Ok?
    ensures var out := ExcessStep(cur, row).value;
      Keeps(out, cur) && out.disponiveis == cur.disponiveis && out.intervalo == cur.intervalo &&
      (out.excedentes == cur.excedentes || out.excedentes == "")
  {
  }

  /** A whole iteration keeps the employee, the day and the daily totals;
      "Intervalo" only ever becomes "01:00" and the excess is only ever
      cleared. */
  lemma StepKeeps(row: AdjustedRow, pool: int)
    requires Step(row, pool).Ok?
    ensures var out := Step(row, pool).value.0;
      Keeps(out, row) &&
      (out.intervalo == row.intervalo || out.intervalo == OneHour) &&
      (out.excedentes == row.excedentes || out.excedentes == "")
  {
    var a := BreakStep(row, row).value;
    BreakStepKeeps(row, row);
    var b := ExtraStep(a, row, pool).value.0;
    ExtraStepKeeps(a, row, pool);
    var c := ExcessStep(b, row).value;
    ExcessStepKeeps(b, row);
    KeepsTrans(row, a, b);
    KeepsTrans(row, b, c);
    assert Step(row, pool).value.0 == c;
  }

  /** The pass returns one row per row, each keeping what its row had
      outside "Pontos", "Ajustado" and the three adjustment columns. */
  lemma {:induction false} RunKeeps(rows: seq<AdjustedRow>, pool: int)
    requires Run(rows, pool).Ok?
    ensures |Run(rows, pool).value.0| == |rows|
    ensures forall i | 0 <= i < |rows| :: Keeps(Run(rows, pool).value.0[i], rows[i])
    decreases |rows|
  {
    if rows != [] {
      var init := rows[..|rows| - 1];
      RunKeeps(init, pool);
      var st := RunSnoc(rows, pool);
      KeepsAppend(Run(init, pool).value.0, rows, st);
    }
  }

  /** A successful pass over `rows` is the pass over all rows but the last,
      followed by an iteration on the last that keeps it. */
  lemma RunSnoc(rows: seq<AdjustedRow>, pool: int) returns (st: AdjustedRow)
    requires rows != [] && Run(rows, pool).Ok?
    ensures Run(rows[..|rows| - 1], pool).Ok?
    ensures Run(rows, pool).value.0 == Run(rows[..|rows| - 1], pool).value.0 + [st]
    ensures Keeps(st, rows[|rows| - 1])
  {
    var prev := Run(rows[..|rows| - 1], pool).value;
    StepKeeps(rows[|rows| - 1], prev.1);
    st := Step(rows[|rows| - 1], prev.1).value.0;
  }

  lemma KeepsAppend(xs: seq<AdjustedRow>, rows: seq<AdjustedRow>, x: AdjustedRow)
    requires |rows| >= 1 && |xs| == |rows| - 1
    requires forall i | 0 <= i < |xs| :: Keeps(xs[i], rows[..|rows| - 1][i])
    requires Keeps(x, rows[|rows| - 1])
    ensures forall i | 0 <= i < |rows| :: Keeps((xs + [x])[i], rows[i])
  {
    forall i | 0 <= i < |rows| ensures Keeps((xs + [x])[i], rows[i]) {
      if i < |xs| {
        assert (xs + [x])[i] == xs[i] && rows[..|rows| - 1][i] == rows[i];
      }
    }
  }

  /** `adjusted_punches` on a whole frame returns as many rows, each
      keeping what its row had outside the adjusted columns. */
  lemma AdjustedFrameKeeps(rows: seq<AdjustedRow>)
    requires AdjustedFrame(rows).Ok?
    ensures |AdjustedFrame(rows).value| == |rows|
    ensures forall i | 0 <= i < |rows| :: Keeps(AdjustedFrame(rows).value[i], rows[i])
  {
    RunKeeps(rows, ExcessMinutes(rows).value);
  }

  // ---------------------------------------------------------------------
  // Failures

  lemma LocalStrToMinutesFails(s: string)
    ensures LocalStrToMinutes(s).Err? ==> LocalStrToMinutes(s).error == ValueError
  {
  }

  /** Every failure of an iteration is a ValueError from reading a time. */
  lemma StepFails(row: AdjustedRow, pool: int)
    ensures Step(row, pool).Err? ==> Step(row, pool).error == ValueError
  {
    var a := BreakStep(row, row);
    if a.Ok? {
      var b := ExtraStep(a.value, row, pool);
      if b.Ok? {
        assert ExcessStep(b.value.0, row).Err? ==> ExcessStep(b.value.0, row).error == ValueError;
      }
    }
  }

  lemma {:induction false} RunFails(rows: seq<AdjustedRow>, pool: int)
    ensures Run(rows, pool).Err? ==> Run(rows, pool).error == ValueError
    decreases |rows|
  {
    if rows != [] {
      var init := rows[..|rows| - 1];
      RunFails(init, pool);
      if Run(init, pool).Ok? {
        StepFails(rows[|rows| - 1], Run(init, pool).value.1);
      }
    }
  }

  lemma {:induction false} ExcessMinutesFails(rows: seq<AdjustedRow>)
    ensures ExcessMinutes(rows).Err? ==> ExcessMinutes(rows).error == ValueError
    decreases |rows|
  {
    if rows != [] {
      ExcessMinutesFails(rows[..|rows| - 1]);
    }
  }

  /** `adjusted_punches` fails only with ValueError. */
  lemma AdjustedFrameFails(rows: seq<AdjustedRow>)
    ensures AdjustedFrame(rows).Err? ==> AdjustedFrame(rows).error == ValueError
  {
    ExcessMinutesFails(rows);
    if ExcessMinutes(rows).Ok? {
      RunFails(rows, ExcessMinutes(rows).value);
    }
  }

  // ---------------------------------------------------------------------
  // The pass as written

  /** The snapshot: when step 1 stretches the break and step 3 then takes
      an excess off, step 3 rebuilds "Pontos" from the text read at the
      top of the iteration, so the first block comes back with its
      original times while "Intervalo" says "01:00". */
  lemma SnapshotLosesShift(row: AdjustedRow, pool: int, iv: int, tx: int, ty: int, ex: int, tz: int)
    requires LocalStrToMinutes(row.intervalo) == Ok(iv) && iv < MinBreak
    requires |Split(row.daily.pontos, " | ")| >= 2 && BarFree(Split(row.daily.pontos, " | "))
    requires |Split(Split(row.daily.pontos, " | ")[0], " - ")| == 2
    requires LocalStrToMinutes(Split(Split(row.daily.pontos, " | ")[0], " - ")[0]) == Ok(tx)
    requires LocalStrToMinutes(Split(Split(row.daily.pontos, " | ")[0], " - ")[1]) == Ok(ty)
    requires row.disponiveis == "" && row.excedentes != "" && LocalStrToMinutes(row.excedentes) == Ok(ex)
    requires LastBlockPair(row.daily.pontos)
    requires var bl := Split(row.daily.pontos, " | ");
      LocalStrToMinutes(Split(bl[|bl| - 1], " - ")[1]) == Ok(tz)
    ensures Step(row, pool).Ok?
    ensures var out := Step(row, pool).value.0;
      out.intervalo == OneHour && out.excedentes == "" && out.daily.ajustado == AdjustMark &&
      Split(out.daily.pontos, " | ")[0] == Split(row.daily.pontos, " | ")[0]
  {
    BreakStepShifts(row, Split(row.daily.pontos, " | "), iv, tx, ty);
    var a := BreakStep(row, row).value;
    assert ExtraStep(a, row, pool) == Ok((a, pool));
    ExcessStepTakes(a, row, ex, tz);
    var c := ExcessStep(a, row).value;
    assert Step(row, pool) == Ok((c, pool));
  }

  /** The pool is charged before the shape check: a row below the cap
      whose "Pontos" is a single block takes minutes from the pool and is
      returned unchanged. */
  lemma SpentWithoutRewrite(row: AdjustedRow, pool: int, want: int)
    requires LocalStrToMinutes(row.intervalo).Ok? && |Split(row.daily.pontos, " | ")| <= 1
    requires row.disponiveis != "" && pool > 0 && LocalStrToMinutes(row.disponiveis) == Ok(want) && want > 0
    ensures Step(row, pool) == Ok((row, pool - Given(pool, want)))
    ensures Step(row, pool).value.1 < pool
  {
    assert BreakStep(row, row) == Ok(row);
    assert ExtraStep(row, row, pool) == Ok((row, pool - Given(pool, want)));
    assert ExcessStep(row, row) == Ok(row);
  }

  /** A row with a break of an hour or more, nothing available from the
      pool and no excess goes through unchanged. */
  lemma StepUntouched(row: AdjustedRow, pool: int)
    requires LocalStrToMinutes(row.intervalo).Ok? && LocalStrToMinutes(row.intervalo).value >= MinBreak
    requires row.disponiveis == "" || pool <= 0
    requires row.excedentes == ""
    ensures Step(row, pool) == Ok((row, pool))
  {
    assert BreakStep(row, row) == Ok(row);
    assert ExtraStep(row, row, pool) == Ok((row, pool));
  }

  /** Step 3 leaves the row as it is, its excess included, when "Pontos"
      has a single block or a last block that is not two times. */
  lemma ExcessStepKeepsOffShape(cur: AdjustedRow, row: AdjustedRow)
    requires var bl := Split(row.daily.pontos, " | ");
      |bl| <= 1 || |Split(bl[|bl| - 1], " - ")| != 2
    ensures ExcessStep(cur, row) == Ok(cur)
  {
  }

  /** Step 1 leaves the row as it is when the break reads as an hour or
      more, when "Pontos" has a single block, or when its first block is
      not two times. */
  lemma BreakStepIdle(cur: AdjustedRow, row: AdjustedRow)
    requires LocalStrToMinutes(row.intervalo).Ok?
    requires var bl := Split(row.daily.pontos, " | ");
      LocalStrToMinutes(row.intervalo).value >= MinBreak || |bl| <= 1 || |Split(bl[0], " - ")| != 2
    ensures BreakStep(cur, row) == Ok(cur)
  {
  }

  /** A row whose "Pontos" is a single block comes out of an iteration
      unchanged, so an excess it has stays in "Hrs Extras Excedentes"
      although it was counted into the pool. */
  lemma SingleBlockKeepsExcess(row: AdjustedRow, pool: int)
    requires |Split(row.daily.pontos, " | ")| <= 1 && Step(row, pool).Ok?
    ensures Step(row, pool).value.0 == row
    ensures Step(row, pool).value.0.excedentes == row.excedentes
  {
    assert BreakStep(row, row) == Ok(row);
    assert ExtraStep(row, row, pool).value.0 == row;
    ExcessStepKeepsOffShape(row, row);
  }

  /** The rewritten "Hrs Extras Disponíveis" when the pool covered the
      whole want but what it has left is less than the want: "00:00",
      where an empty column was meant. */
  lemma ZeroRemaining(d: string, want: int, give: int, left: int)
    requires d == if left < want then LocalMinutesToStr(want - give) else ""
    requires give == want && left < want
    ensures d == "00:00"
  {
    assert want - give == 0;
    Pad2Digits(0);
    assert LocalMinutesToStr(0) == "00:00";
  }

  /** The snapshot again: when step 1 stretches the break and step 2 then
      lengthens the last block, step 2 rebuilds "Pontos" from the text read
      at the top of the iteration, so the first block keeps its original
      times while "Intervalo" says "01:00". */
  lemma SnapshotLosesShiftToExtra(row: AdjustedRow, pool: int, iv: int, tx: int, ty: int, want: int, tz: int)
    requires LocalStrToMinutes(row.intervalo) == Ok(iv) && iv < MinBreak
    requires |Split(row.daily.pontos, " | ")| >= 2 && BarFree(Split(row.daily.pontos, " | "))
    requires |Split(Split(row.daily.pontos, " | ")[0], " - ")| == 2
    requires LocalStrToMinutes(Split(Split(row.daily.pontos, " | ")[0], " - ")[0]) == Ok(tx)
    requires LocalStrToMinutes(Split(Split(row.daily.pontos, " | ")[0], " - ")[1]) == Ok(ty)
    requires row.disponiveis != "" && pool > 0 && LocalStrToMinutes(row.disponiveis) == Ok(want)
    requires row.excedentes == ""
    requires LastBlockPair(row.daily.pontos)
    requires var bl := Split(row.daily.pontos, " | ");
      LocalStrToMinutes(Split(bl[|bl| - 1], " - ")[1]) == Ok(tz)
    ensures Step(row, pool).Ok?
    ensures var out := Step(row, pool).value.0;
      out.intervalo == OneHour && out.daily.ajustado == AdjustMark &&
      Split(out.daily.pontos, " | ")[0] == Split(row.daily.pontos, " | ")[0]
  {
    BreakStepShifts(row, Split(row.daily.pontos, " | "), iv, tx, ty);
    var a := BreakStep(row, row).value;
    ExtraStepGives(a, row, pool, want, tz);
    var b := ExtraStep(a, row, pool).value;
    assert b.0.excedentes == "";
    assert ExcessStep(b.0, row) == Ok(b.0);
    assert Step(row, pool) == Ok(b);
  }

  // ---------------------------------------------------------------------
  // The pool over the frame `get_adjusts` returns

  /** The minutes an overtime column means: nothing when empty, otherwise
      what its signed text denotes. */
  function Denoted(t: string): int
  {
    if t == "" then 0 else match SignedMinutes(t) case Some(v) => v case None => 0
  }

  /** The excess the whole frame means, summed row by row. */
  function DenotedExcess(rows: seq<AdjustedRow>): int
  {
    if rows == [] then 0 else DenotedExcess(rows[..|rows| - 1]) + Denoted(rows[|rows| - 1].excedentes)
  }

  /** The local codec reads the row's excess as the count it means, and
      that count is not negative. */
  predicate ExcessReadsAsMeant(r: AdjustedRow)
  {
    LocalStrToMinutes(r.excedentes).Ok? && LocalStrToMinutes(r.excedentes).value == Denoted(r.excedentes) &&
    Denoted(r.excedentes) >= 0
  }

  lemma ReadsAsDenoted(t: string, m: int)
    requires m >= 0 && t == MinutesToStr(m)
    ensures LocalStrToMinutes(t) == Ok(m) && SignedMinutes(t) == Some(m) && t != ""
  {
    LocalReadsSigned(m);
    DenotesAt(t, m);
  }

  /** Both overtime columns `get_adjusts` writes read, with the local
      codec, as the non-negative counts they denote. */
  lemma AdjustedColumnsRead(r: DailyRow)
    requires AdjustRow(r).Ok?
    ensures ExcessReadsAsMeant(AdjustRow(r).value) && WantsNonNegative(AdjustRow(r).value)
    ensures var x := AdjustRow(r).value;
      LocalStrToMinutes(x.disponiveis) == Ok(Denoted(x.disponiveis))
  {
    AdjustRowMeaning(r);
    var x := AdjustRow(r).value;
    var s, a := SaldoMin(r.saldo).value, AbonoMin(r.abono).value;
    ExcessColumnReads(x.excedentes, s, a);
    ShortfallColumnReads(x.disponiveis, r, s, a);
  }

  lemma ExcessColumnReads(t: string, s: int, a: int)
    requires t == Excedentes(s, a)
    ensures LocalStrToMinutes(t) == Ok(Denoted(t)) && Denoted(t) >= 0
  {
    if t != "" {
      ExcessText(s, a);
      ReadsAsDenoted(t, s - Limit);
    }
  }

  lemma ShortfallColumnReads(t: string, r: DailyRow, s: int, a: int)
    requires t == Disponiveis(r, s, a)
    ensures LocalStrToMinutes(t) == Ok(Denoted(t)) && Denoted(t) >= 0
  {
    if t != "" {
      ShortfallText(r, s, a);
      ReadsAsDenoted(t, Limit - s);
    }
  }

  /** When every excess reads as meant, the pool the pass starts from is
      the excess the frame means, and it is not negative. */
  lemma {:induction false} ExcessMinutesDenoted(rows: seq<AdjustedRow>)
    requires forall i | 0 <= i < |rows| :: ExcessReadsAsMeant(rows[i])
    ensures ExcessMinutes(rows) == Ok(DenotedExcess(rows)) && DenotedExcess(rows) >= 0
    decreases |rows|
  {
    if rows != [] {
      var init := rows[..|rows| - 1];
      forall i | 0 <= i < |init| ensures ExcessReadsAsMeant(init[i]) {
        assert init[i] == rows[i];
      }
      ExcessMinutesDenoted(init);
      assert ExcessReadsAsMeant(rows[|rows| - 1]);
    }
  }

  /** On the frame `get_adjusts` returns, the pool starts as the sum of the
      excess minutes every row means; it never goes negative and never
      grows over the pass. */
  lemma PoolOfAdjusts(rows: seq<DailyRow>)
    requires GetAdjusts(rows).Ok?
    ensures var adj := GetAdjusts(rows).value;
      ExcessMinutes(adj) == Ok(DenotedExcess(adj)) && DenotedExcess(adj) >= 0
    ensures var adj := GetAdjusts(rows).value;
      Run(adj, DenotedExcess(adj)).Ok? ==>
        0 <= Run(adj, DenotedExcess(adj)).value.1 <= DenotedExcess(adj)
  {
    GetAdjustsShape(rows);
    var adj := GetAdjusts(rows).value;
    forall i | 0 <= i < |adj| ensures ExcessReadsAsMeant(adj[i]) && WantsNonNegative(adj[i]) {
      AdjustedColumnsRead(rows[i]);
      assert AdjustRow(rows[i]).value == adj[i];
    }
    ExcessMinutesDenoted(adj);
    if Run(adj, DenotedExcess(adj)).Ok? {
      RunPool(adj, DenotedExcess(adj));
    }
  }
}
