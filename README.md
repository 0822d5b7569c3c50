# Punch-clock reports: a verified model

This project models the data-processing core of a small time-tracking
report tool. The tool downloads an employee's punch records (clock-in and
clock-out timestamps) and builds a daily frame from them, one row per
employee and day. Each row has these columns:

- the punches rendered as local "HH:MM" times;
- the worked time;
- the expected time (8h48 on working days);
- the balance, signed "±HH:MM".

Two more passes follow the daily frame:

- **`get_adjusts`** adds the break between the first two segments, and
  the overtime above a 1h57 cap, or what is still missing to reach the
  cap.
- **`adjusted_punches`** stretches short breaks to one hour. It then hands
  out the day-to-day excess overtime as one pool: days below the cap get
  extra minutes, and the excess is taken off days above it.

The model is in Dafny, one module per concern:

| module | models |
|---|---|
| `Errors` | the `Result`/`Option` wrappers; the exception classes (`ValueError`, `AttributeError`, `KeyError`); `Collect`, a loop that stops at the first exception |
| `Text` | digits, `int()`, `strip`, `str.split`, `str.join`, two-digit padding |
| `TimeCodec` | `str_to_minutes`, `minutes_to_str`, `converter_milisegundos_para_hhmm` |
| `Calendar` | `strptime(s, "%Y-%m-%d")`, `converter_data_iso_para_ddmmaaaa`, `obter_dia_semana` |
| `Chunking` | the eight-day download loop of `fetch_punches_in_chunks` |
| `DailyRecords` | `format_punches_as_dataframe` |
| `BreakAnalysis` | `calcular_intervalo`: the regular-expression split and `strptime(t, "%H:%M")` |
| `Overtime` | `get_adjusts` |
| `Redistribution` | `adjusted_punches`, including its local codec |

Pure code is modelled as functions with lemmas about them. Each loop that
updates state is a method with loop invariants, and each is proved
against a specification function:

- the grouping loop, `DailyRecords.GroupPunches`;
- the row-building loop, `DailyRecords.FormatPunchesAsDataframe`;
- the download loop, `Chunking.FetchPunchesInChunks`;
- the in-place rewrite of the adjusted frame, `Redistribution.AdjustedPunches`
  and `Redistribution.RewriteRow`, which work on an `array`.

The model follows the code as written, including these behaviours:

- The shortest break allowed is 60 minutes
  (utils/transformToDataframe.py:181).
- The break is the gap between the first two punch segments as split from
  the text, with no window of business hours applied to the punches.
- `str_to_minutes` lets the sign of a negative balance bind to the hours
  only, so "-01:30" reads as -30 minutes.
- `adjusted_punches` reads the row at the top of each iteration and
  rebuilds "Pontos" from that snapshot in its later steps. Those steps
  also write the new last block into position 1, not into the last
  position, and the pass charges the pool before it checks the shape
  of "Pontos".
- `get_adjusts` compares strings with `is not`, an identity test. The
  model reads it as `!=`, its evident intent.

Lemmas state and prove each of these behaviours, for example
`TimeCodec.NegativeRoundTripOnlyOnWholeHours`,
`Redistribution.SnapshotLosesShift` and `Redistribution.SpentWithoutRewrite`.

## Model

| member | source | states |
|---|---|---|
| Errors.CollectShape | utils/transformToDataframe.py:37-76 | a loop that stops at the first exception returns every value in order exactly when no element fails, and otherwise the first failure's error |
| Errors.CollectStep | utils/transformToDataframe.py:37-76 | one more iteration extends the rows on success and aborts with that error on failure |
| Text.NatToDigitsSpec | utils/utils.py:67-70 | the decimal digits of a number read back as that number, with no leading zero |
| Text.Pad2Spec | utils/utils.py:70 | `:02d` gives two digits or more, zero-padded, reading back as the number |
| Text.SplitJoinBar | utils/transformToDataframe.py:47-50 | pieces without a bar, joined with " \| ", split back into the same pieces |
| Text.SplitDashPair | utils/transformToDataframe.py:48 | "a - b" with sides free of '-' splits on " - " into [a, b] |
| Text.FindFirst | utils/transformToDataframe.py:184 | the separator search finds the leftmost occurrence |
| TimeCodec.HoursMinutes | utils/utils.py:74-75 | reading "h:m" fails only with ValueError |
| TimeCodec.StrToMinutes | utils/utils.py:72-75 | `str_to_minutes` fails only with ValueError |
| TimeCodec.MinutesToStr | utils/utils.py:77-80 | the text starts with '-' exactly for negative minutes and with '+' otherwise, followed by the absolute value as a padded clock |
| TimeCodec.MinutesToStrDenotes | utils/utils.py:77-80 | read with the sign on the whole quantity, every text `minutes_to_str` writes denotes exactly its minutes |
| TimeCodec.StrToMinutesInvertsNonNegative | utils/utils.py:72-80 | `str_to_minutes(minutes_to_str(m)) == m` for every m >= 0 |
| TimeCodec.StrToMinutesOfNegative | utils/utils.py:72-80 | for m < 0 the sign is read on the hours only: `-(\|m\| / 60) * 60 + \|m\| % 60` |
| TimeCodec.NegativeRoundTripOnlyOnWholeHours | utils/utils.py:72-80 | a negative balance round-trips exactly when it is a whole number of hours |
| TimeCodec.StrToMinutesOfClock | utils/utils.py:72-75 | an unsigned padded clock reads as hours * 60 + minutes |
| TimeCodec.RoundMinutes | utils/utils.py:65 | `round(ms / 1000 / 60)` is the nearest whole minute, with ties going to the even neighbour |
| TimeCodec.MsToHHMM | utils/utils.py:51-70 | ValueError exactly for a negative duration; otherwise the padded clock of the rounded minutes |
| TimeCodec.MsToHHMMReadsBack | utils/utils.py:51-75 | the worked-time text reads back with `str_to_minutes` as the rounded minutes |
| TimeCodec.RoundMinutesMonotone | utils/utils.py:65 | rounding to minutes is monotone |
| Calendar.ParseIsoDate | utils/utils.py:27 | `strptime` accepts only valid dates (year 1..9999, a real month, a day the month has) and otherwise fails with ValueError |
| Calendar.ParseIsoText | utils/utils.py:27 | a date's canonical ISO text reads back as that date when the day exists, and fails with ValueError when it does not |
| Calendar.IsoToDdMmYyyy | utils/utils.py:13-30 | the definition of `converter_data_iso_para_ddmmaaaa`: the parsed date rendered as day, month, year; its contract is `Calendar.IsoToDdMmYyyyMeaning` |
| Calendar.IsoToDdMmYyyyMeaning | utils/utils.py:13-30 | fails, with ValueError, exactly when the ISO text does not parse; otherwise the text is three "/"-separated digit fields that read back as the day and the month (two digits each) and the year of the parsed date |
| Calendar.Weekday | utils/utils.py:32-49 | succeeds exactly when the date parses, and names the Portuguese weekday of the date's day number |
| Calendar.OrdinalOfNextDay | utils/utils.py:32-49 | consecutive days have consecutive day numbers, so the weekday name cycles through the seven names |
| Calendar.DaysBeforeNextYear | utils/utils.py:46-47 | a year adds 365 days, or 366 in a leap year |
| Calendar.DocumentedDateExample | utils/utils.py:13-30 | "2025-05-12" is "12/05/2025" |
| Calendar.DocumentedWeekdayExample | utils/utils.py:32-49 | "2025-05-12" is "segunda-feira" |
| Chunking.ChunksShape | utils/utils.py:99-121 | the windows start at the requested start and end at its end; they follow each other with no gap or overlap; each is non-empty and at most eight days; all but the last are exactly eight days; there are none for an empty range |
| Chunking.Chunks | utils/utils.py:103-119 | the definition of the windows the loop visits: eight days each from the start, the last capped at the end; its properties are `Chunking.ChunksShape`, `ChunksCount`, `ChunksPartition` and `ChunksStartAfter` |
| Chunking.ChunksCount | utils/utils.py:103-119 | ceil((end - start) / 8 days) windows are fetched |
| Chunking.ChunksPartition | utils/utils.py:103-119 | every instant of the requested range lies in exactly one fetched window |
| Chunking.ChunksStartAfter | utils/utils.py:103-119 | no window starts before the requested start |
| Chunking.FetchPunchesInChunks | utils/utils.py:99-121 | the loop returns the punches of those windows concatenated in window order |
| DailyRecords.GroupPunches | utils/transformToDataframe.py:29-35 | the grouping loop gives the keys in first-seen order, and maps each one to its punches in arrival order |
| DailyRecords.KeysDistinct | utils/transformToDataframe.py:29-35 | each (employee, date) key appears once |
| DailyRecords.GroupMembers | utils/transformToDataframe.py:29-35 | a key's group is non-empty exactly when the key occurs, and every member has that key |
| DailyRecords.GroupKeepsAll | utils/transformToDataframe.py:29-35 | each punch occurs in its key's group exactly as often as in the input |
| DailyRecords.LocalHHMMReads | utils/transformToDataframe.py:48 | a rendered local time reads as its minute of the day and has no separator characters |
| DailyRecords.BlockSplits | utils/transformToDataframe.py:48 | a rendered punch splits on " - " into its two sides; a null timestamp is an empty side |
| DailyRecords.PontosSplits | utils/transformToDataframe.py:47-50 | the punches text splits on " \| " into the rendered punches in reverse arrival order, the last punch to arrive first |
| DailyRecords.PontosFieldCases | utils/transformToDataframe.py:44-51 | "Pontos" is AttributeError exactly for an adjusted first punch with a null reason; it is the holiday marker exactly on a holiday-compensation day; otherwise it is the rendered punches |
| DailyRecords.PontosField | utils/transformToDataframe.py:44-51 | the definition of the "Pontos" field; its contract is `DailyRecords.PontosFieldCases` |
| DailyRecords.WorkedNonNegative | utils/transformToDataframe.py:60-64 | punches that never end before they start add up to a non-negative worked time |
| DailyRecords.TrabalhadasCases | utils/transformToDataframe.py:55-66 | "Trabalhadas" is "" exactly on holiday compensation. It is the sentinel exactly for an incomplete punch, or a single punch on a weekday. Otherwise it reads as the rounded worked minutes. It fails on a null reason (AttributeError) or a negative total (ValueError) |
| DailyRecords.Trabalhadas | utils/transformToDataframe.py:55-66 | the definition of the "Trabalhadas" field; its contract is `DailyRecords.TrabalhadasCases` |
| DailyRecords.AbonoReads | utils/transformToDataframe.py:68 | "Abono Previstas" is empty exactly on weekends and holidays, and otherwise reads as 528 minutes |
| DailyRecords.Abono | utils/transformToDataframe.py:68 | the definition of "Abono Previstas"; its contract is `DailyRecords.AbonoReads` |
| DailyRecords.SaldoCases | utils/transformToDataframe.py:72-74 | "Saldo" is the sentinel exactly when "Trabalhadas" is; otherwise it denotes worked minus expected minutes, or fails with ValueError when either does not read |
| DailyRecords.Saldo | utils/transformToDataframe.py:72-74 | the definition of the "Saldo" patch; its contract is `DailyRecords.SaldoCases` |
| DailyRecords.RowParts | utils/transformToDataframe.py:39-74 | unfolds `BuildRow` into its field definitions (every column of a finished row is the value of its field function); the meaning of each column is in `DailyRecords.PontosFieldCases`, `TrabalhadasCases`, `AbonoReads`, `SaldoCases` and `RowBalance` |
| DailyRecords.BuildRow | utils/transformToDataframe.py:37-74 | the definition of one appended and patched row; its contracts are `DailyRecords.RowParts`, `RowOutcome` and `RowBalance` |
| DailyRecords.RowRejectsBadDate | utils/transformToDataframe.py:42 | a row with an invalid ISO date fails with ValueError |
| DailyRecords.RowRejectsNullReason | utils/transformToDataframe.py:44-46 | a valid date with an adjusted first punch and a null reason fails with AttributeError |
| DailyRecords.RowOutcome | utils/transformToDataframe.py:39-74 | with a valid date a row fails exactly when "Trabalhadas" fails, with its error, because the "Saldo" step never fails |
| DailyRecords.RowBalance | utils/transformToDataframe.py:55-74 | a finished row's balance is the sentinel exactly when the worked time is; otherwise it is worked minutes minus expected minutes |
| DailyRecords.FrameShape | utils/transformToDataframe.py:29-76 | the frame has one row per distinct key, in first-seen order, built from that key's punches; it fails exactly when some group's row fails, with the first failure's error |
| DailyRecords.DailyTable | utils/transformToDataframe.py:29-76 | the definition of the whole daily frame, empty for no punches; its contract is `DailyRecords.FrameShape` |
| DailyRecords.FormatPunchesAsDataframe | utils/transformToDataframe.py:15-76 | the row-building loop, which appends each row and then patches its "Saldo", returns that frame |
| BreakAnalysis.ParseHHMM | utils/transformToDataframe.py:96-98 | a time `strptime` accepts is a minute of the day below 1440 |
| BreakAnalysis.ParseHHMMOfClock | utils/transformToDataframe.py:96-98 | a padded clock with an hour below 24 and minutes below 60 parses as its minute of the day |
| BreakAnalysis.ParseHHMMRejectsHour24 | utils/transformToDataframe.py:96-98 | "24:00" does not parse |
| BreakAnalysis.BreakMinutesMeaning | utils/transformToDataframe.py:84-104 | unfolds `BreakMinutes` over the regex tokens (no break for fewer than four tokens or for a token that is not a time; otherwise the second time minus the first, plus a day when negative, taken from tokens 3 and 4 when tokens 1 and 2 are equal and there are more than four); its meaning for a row's punches is `BreakAnalysis.BreakOfPontos`, and for the column text `IntervaloMeaning` |
| BreakAnalysis.IntervaloMeaning | utils/transformToDataframe.py:78-106 | `calcular_intervalo` is "" exactly when no break can be measured; otherwise it is an "HH:MM" below 24:00 that reads as the break |
| BreakAnalysis.CalcularIntervalo | utils/transformToDataframe.py:78-106 | the definition of `calcular_intervalo`; its contracts are `BreakAnalysis.IntervaloMeaning` and `BreakOfPontos` |
| BreakAnalysis.DocumentedExample | utils/transformToDataframe.py:78-106 | "05:55 - 11:40 \| 12:42 - 16:41" gives "01:02" |
| BreakAnalysis.SeparatorSpaceExample | utils/transformToDataframe.py:84-104 | a bar flanked by U+001C, which `\s` counts as white space, still separates the segments: "05:55 - 11:40\x1c\|\x1c12:42 - 16:41" gives "01:02" |
| BreakAnalysis.RegexSplitOfSegments | utils/transformToDataframe.py:84 | "in - out" segments joined by " \| " split back into their sides, as long as the sides are clean and no later segment has an empty start |
| BreakAnalysis.RegexSplit | utils/transformToDataframe.py:84 | `re.split` on " - " or a bar with the white space around it always gives at least one token; what it gives on a punches text is `BreakAnalysis.RegexSplitOfSegments` |
| BreakAnalysis.PontosTokens | utils/transformToDataframe.py:44-51 | when every punch of the group but the last to arrive (whose segment comes first) has a start time, splitting a row's punches text gives every side in turn, in reverse arrival order (the last punch to arrive first; a missing start after a bar is swallowed by the greedy white space, and that segment becomes one token) |
| BreakAnalysis.LocalHHMMInjective | utils/transformToDataframe.py:48 | two local times render as the same text exactly when they are the same minute of the day |
| BreakAnalysis.PontosTokenTimes | utils/transformToDataframe.py:84-98 | tokens 1 to 4 of a complete group's text read as the end and start minutes of its last-arrived punches: the end of the last punch to arrive, the start of the one that arrived before it, and so on |
| BreakAnalysis.BreakOfPontos | utils/transformToDataframe.py:84-104 | the break of a day with two or more complete punches runs from the end of the first segment of its text (the last punch to arrive) to the start of the second segment (the punch that arrived before it), modulo a day; when those are the same minute, from the end of the second segment to the start of the third |
| Overtime.ColumnsExclusive | utils/transformToDataframe.py:128-139 | a day never has both overtime columns filled |
| Overtime.ExcedentesMeaning | utils/transformToDataframe.py:125-132 | "Hrs Extras Excedentes" is filled exactly on days with expected time and a balance above 117, and then holds the excess with a '+' |
| Overtime.DisponiveisMeaning | utils/transformToDataframe.py:134-139 | "Hrs Extras Disponíveis" is filled exactly when its five conditions hold, and then holds the shortfall to 117 |
| Overtime.AdjustRowMeaning | utils/transformToDataframe.py:118-139 | unfolds `AdjustRow` (a row fails with ValueError exactly when its balance or expected time does not read; otherwise the daily columns are kept and "Intervalo" is `calcular_intervalo` of "Pontos"); the meaning of the overtime columns is `Overtime.ExcedentesMeaning`, `DisponiveisMeaning` and `OvertimeOfBalance` |
| Overtime.AdjustRow | utils/transformToDataframe.py:118-139 | the definition of one row of `get_adjusts`; its contract is `Overtime.AdjustRowMeaning` |
| Overtime.SaldoMinOfBalance | utils/transformToDataframe.py:122 | a balance reads with its sign on the hours, so a negative balance stays below the cap |
| Overtime.OvertimeOfBalance | utils/transformToDataframe.py:122-139 | from a balance `minutes_to_str` wrote, the columns hold the excess above the cap, the shortfall for a balance from 0 up to the cap, and nothing for a negative balance |
| Overtime.SentinelHasNoOvertime | utils/transformToDataframe.py:122-139 | a day with the "fewer than 4 punches" sentinel has neither overtime column |
| Overtime.GetAdjustsShape | utils/transformToDataframe.py:76-144 | the frame with no rows has no columns and fails with KeyError; a frame with rows fails exactly when some row's columns do not read, with ValueError; otherwise it is each row's adjusted row, in order |
| Overtime.GetAdjusts | utils/transformToDataframe.py:108-144 | the definition of `get_adjusts` on a frame; its contract is `Overtime.GetAdjustsShape` |
| Overtime.FrameAdjusts | utils/transformToDataframe.py:15-144 | on a frame `format_punches_as_dataframe` built, `get_adjusts` succeeds exactly when there was at least one punch, and fails with KeyError on the column-less frame of no punches |
| Redistribution.LocalStrToMinutes | utils/transformToDataframe.py:160-166 | the definition of the local `str_to_minutes`; its contracts are `Redistribution.LocalRoundTrip` and `LocalReadsSigned` |
| Redistribution.LocalMinutesToStr | utils/transformToDataframe.py:168-171 | the definition of the local `minutes_to_str`; its contract is `Redistribution.LocalMinutesToStrDenotes` |
| Redistribution.AddMinutes | utils/transformToDataframe.py:173-175 | the definition of `somar_minutos_hora_str`; its contract is `Redistribution.AddMinutesMeaning` |
| Redistribution.LocalRoundTrip | utils/transformToDataframe.py:160-171 | the local codec round-trips non-negative minutes; a negative count comes back with its sign on the hours only |
| Redistribution.LocalMinutesToStrDenotes | utils/transformToDataframe.py:168-171 | read with the sign on the whole quantity, every local text denotes its minutes |
| Redistribution.LocalReadsSigned | utils/transformToDataframe.py:160-166 | the local reader strips the '+' of `minutes_to_str`'s non-negative texts and reads them as their minutes |
| Redistribution.AddMinutesMeaning | utils/transformToDataframe.py:173-175 | adding minutes to a readable time gives a clean text denoting the sum |
| Redistribution.BreakStep | utils/transformToDataframe.py:181-197 | the definition of step 1, reading the snapshot; its contracts are `Redistribution.BreakStepShifts`, `BreakStepIdle` and `StepKeeps` |
| Redistribution.BreakStepIdle | utils/transformToDataframe.py:181-197 | step 1 leaves the row unchanged when the break reads as an hour or more, when "Pontos" has a single block, or when its first block is not two times |
| Redistribution.BreakStepShifts | utils/transformToDataframe.py:181-197 | a break under 60 minutes moves both times of the first block earlier by the missing minutes and keeps the other blocks. It sets "Intervalo" to "01:00" and marks the row. Nothing else changes |
| Redistribution.ExtraStep | utils/transformToDataframe.py:200-226 | the definition of step 2, reading the snapshot and charging the pool first; its contracts are `Redistribution.ExtraStepGives`, `ExtraStepPool` and `SpentWithoutRewrite` |
| Redistribution.ExtraStepGives | utils/transformToDataframe.py:200-226 | a row below the cap takes min(pool, want) from the pool. Block 1 becomes the last block with its end moved later by that amount. The available column is cleared exactly when the pool left covers the want, and otherwise holds what was not covered |
| Redistribution.ExcessStep | utils/transformToDataframe.py:229-241 | the definition of step 3; its contracts are `Redistribution.ExcessStepTakes` and `ExcessStepKeepsOffShape` |
| Redistribution.ExcessStepTakes | utils/transformToDataframe.py:229-241 | a row with excess has it taken off the last block's end, written into block 1; the row is marked and the excess cleared |
| Redistribution.ExcessStepKeepsOffShape | utils/transformToDataframe.py:229-241 | step 3 clears the excess only when "Pontos" has at least two blocks and a last block of two times: for any other shape the row is kept, excess included |
| Redistribution.SingleBlockKeepsExcess | utils/transformToDataframe.py:177-241 | a single-block row comes out of an iteration unchanged, so the excess counted into the pool at line 177 stays in its column |
| Redistribution.ExtraStepPool | utils/transformToDataframe.py:202-205 | the pool is unchanged when nothing is wanted or it is empty; otherwise it loses what it gives; it never goes negative |
| Redistribution.Step | utils/transformToDataframe.py:179-241 | the definition of one iteration, the three steps reading the same snapshot; its contracts are `Redistribution.StepKeeps`, `StepUntouched` and `SnapshotLosesShift` |
| Redistribution.RunPool | utils/transformToDataframe.py:177-241 | over the pass the pool never goes negative, and it never grows when every row wants a non-negative amount |
| Redistribution.StepKeeps | utils/transformToDataframe.py:179-241 | an iteration keeps everything but "Pontos", "Ajustado" and the adjustment columns; "Intervalo" only becomes "01:00" and the excess is only cleared |
| Redistribution.AdjustedFrame | utils/transformToDataframe.py:146-243 | the definition of `adjusted_punches` on a frame: the pool summed, then the iterations in order; its contracts are `Redistribution.AdjustedFrameKeeps`, `AdjustedFrameFails` and `PoolOfAdjusts` |
| Redistribution.AdjustedFrameKeeps | utils/transformToDataframe.py:146-243 | the pass returns one row per row, each keeping the employee, the day and the daily totals |
| Redistribution.AdjustedFrameFails | utils/transformToDataframe.py:146-243 | the pass fails only with ValueError |
| Redistribution.SnapshotLosesShift | utils/transformToDataframe.py:179-241 | when step 1 stretches the break and step 3 removes an excess, the first block comes back with its original times while "Intervalo" says "01:00" |
| Redistribution.SnapshotLosesShiftToExtra | utils/transformToDataframe.py:179-226 | the same loss when step 2 extends the last block |
| Redistribution.SpentWithoutRewrite | utils/transformToDataframe.py:202-211 | a row below the cap with a single block takes minutes from the pool and is returned unchanged |
| Redistribution.StepUntouched | utils/transformToDataframe.py:179-241 | a row with a break of an hour or more, nothing to take and no excess goes through unchanged |
| Redistribution.ZeroRemaining | utils/transformToDataframe.py:221-224 | when the pool covered the want but what is left is below it, the available column becomes "00:00" rather than empty |
| Redistribution.PoolOfAdjusts | utils/transformToDataframe.py:177 | on `get_adjusts` output the pool starts at the summed excess minutes, and stays between 0 and that total |
| Redistribution.RewriteRow | utils/transformToDataframe.py:179-241 | one iteration rewrites its array row in place as the step function says, touches no other row, and returns the pool left |
| Redistribution.AdjustedPunches | utils/transformToDataframe.py:146-243 | the in-place loop over the copied frame returns what the pass function gives |

## Left out

- I/O and the outside world are not modelled. That covers the HTTP call `get_punch`, which is a function parameter of `Chunking.FetchPunchesInChunks`, plus authentication, the user interface and file export. `converter_data_para_ms` and the `datetime` conversions in the download loop are left out too: timestamps are integer milliseconds throughout.
- Time zones are a fixed offset parameter, in minutes. Daylight-saving changes inside the range are not modelled.
- `DailyRecords.LocalMinuteOfDay`: `datetime.fromtimestamp` is modelled as a fixed offset, so a local clock that jumps is not modelled.
- `TimeCodec.RoundMinutes` is exact rational rounding. Binary floating point in `ms / 1000 / 60` is not modelled.
- `Text.ParseInt` accepts an optional sign and ASCII digits. The underscores, surrounding white space and non-ASCII digits that `int()` also accepts are not modelled.
- `Text.IsSpace` is the white-space set of Python's `str.isspace`, which `str.strip()` and the regular expression `\s` use: " ", U+0009 to U+000D, U+001C to U+001F, U+0085, U+00A0, U+1680, U+2000 to U+200A, U+2028, U+2029, U+202F, U+205F and U+3000. That set is fixed as of Unicode 6.3; a Python release built on another Unicode version may differ.
- BreakAnalysis.ParseHHMM: `strptime`'s `\d` in `%H` and `%M` also accepts non-ASCII decimal digits (such as "١٢:٣٠"). The model accepts ASCII digits only, so such a time gives no break where the source measures one.
- Calendar.ParseIsoDate: likewise, `%Y`, `%m` and `%d` accept non-ASCII decimal digits in `strptime` (such as "2025-05-1٢"). The model accepts ASCII digits only and fails with ValueError there.
- `Calendar.IsoToDdMmYyyy`: Babel's locale formatting is modelled by its pt_BR output only (two-digit day and month, then the year), and the weekday name by the Portuguese list.
- The grouping key is modelled as an (employee id, date) pair. The source uses the formatted string `"{id} - {date}"`; the decimal text of an integer id holds no blank, so the text ends the id at its first blank and distinct pairs give distinct texts.
- A key missing from a punch record (KeyError) and non-string or NaN cells are not modelled. Each punch is a record with all fields present, and the rows hold strings only.
- pandas frames are sequences of records. `get_adjusts` computes each column over the whole frame in turn, while the model goes row by row. Both fail with the same ValueError, so the outcome agrees.
- Redistribution.ExtraStepGives: stated for rows of the shape `LastBlockPair` describes (at least two blocks, and a last block of two times whose start is a plain time). For other "Pontos" shapes, only the pool bookkeeping is stated, by `Redistribution.ExtraStepPool`.
- Redistribution.ExcessStepTakes: stated for the same `LastBlockPair` shape. For a single block or a last block that is not two times, `Redistribution.ExcessStepKeepsOffShape` states that the row, excess included, is kept; for the remaining shapes (blocks holding a bar, or a last block whose start holds a blank) only `Redistribution.StepKeeps` is stated.
- Overtime.GetAdjusts: the `is not` tests of lines 122 and 137 are read as `!=`. When the identity test does not hold for equal strings (the sentinel rebuilt by a pandas string column rather than kept as the same object), `is not` is always true, and the sentinel would reach `str_to_minutes` and raise ValueError; that dependence on object identity is not modelled.
- Redistribution.AdjustedFrame: an empty sequence stands for a frame with the `get_adjusts` columns and no rows, which gives the empty frame. The column-less frame of no punches fails with KeyError in `get_adjusts` first (`Overtime.FrameAdjusts`), so it never reaches the pass.
- Locale setup at import time (`locale.setlocale`) has no effect on the modelled functions and is left out.
