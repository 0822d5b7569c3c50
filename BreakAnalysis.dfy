/** `calcular_intervalo` (utils/transformToDataframe.py): the break between
    two punch segments, read off the rendered punches text. */
module BreakAnalysis {
  import opened Errors
  import opened Text
  import opened TimeCodec
  import opened DailyRecords

  // ---------------------------------------------------------------------
  // `re.split(r' - |\s*\|\s*', s)`

  /** Length of the run of white space starting at `i`. */
  function WsRun(s: string, i: nat): (n: nat)
    requires i <= |s|
    ensures i + n <= |s|
    ensures forall j :: i <= j < i + n ==> IsSpace(s[j])
    ensures i + n == |s| || !IsSpace(s[i + n])
    decreases |s| - i
  {
    if i < |s| && IsSpace(s[i]) then 1 + WsRun(s, i + 1) else 0
  }

  /** Length of the separator matched at `i`, 0 for none. The alternatives
      are tried in order: the literal " - ", then white space, a bar and
      white space, each run taken greedily. Neither can match the empty
      string. */
  function MatchAt(s: string, i: nat): (n: nat)
    requires i <= |s|
    ensures i + n <= |s|
  {
    if i + 3 <= |s| && s[i..i + 3] == " - " then 3
    else
      var w := WsRun(s, i);
      if i + w < |s| && s[i + w] == '|' then w + 1 + WsRun(s, i + w + 1) else 0
  }

  /** The pieces of `s` between the separators, found left to right. */
  function RegexSplit(s: string): (r: seq<string>)
    ensures |r| >= 1
    decreases |s|, |s| + 1
  {
    Scan(s, 0)
  }

  /** The rest of the split of `s` when no separator starts before `pos`:
      the current piece starts at 0. */
  function Scan(s: string, pos: nat): (r: seq<string>)
    requires pos <= |s|
    ensures |r| >= 1
    decreases |s|, |s| - pos
  {
    if pos == |s| then [s]
    else
      var m := MatchAt(s, pos);
      if m > 0 then [s[..pos]] + RegexSplit(s[pos + m..])
      else Scan(s, pos + 1)
  }

  // ---------------------------------------------------------------------
  // `datetime.strptime(t, "%H:%M")`

  /** The hour field `2[0-3]|[0-1]\d|\d` followed by the ':' of the
      format: its value and the position after the ':'. At most one
      alternative can be followed by ':', so backtracking does not
      change the outcome. */
  function HourField(t: string): Option<(nat, nat)>
  {
    if |t| >= 3 && t[0] == '2' && '0' <= t[1] <= '3' && t[2] == ':' then
      Some((20 + DigitValue(t[1]), 3))
    else if |t| >= 3 && (t[0] == '0' || t[0] == '1') && IsDigit(t[1]) && t[2] == ':' then
      Some((10 * DigitValue(t[0]) + DigitValue(t[1]), 3))
    else if |t| >= 2 && IsDigit(t[0]) && t[1] == ':' then
      Some((DigitValue(t[0]), 2))
    else None
  }

  /** The minute field `[0-5]\d|\d` at `k`, which must end the text
      (otherwise "unconverted data remains"). */
  function MinuteField(t: string, k: nat): Option<nat>
  {
    if k + 2 <= |t| && '0' <= t[k] <= '5' && IsDigit(t[k + 1]) then
      if k + 2 == |t| then Some(10 * DigitValue(t[k]) + DigitValue(t[k + 1])) else None
    else if k + 1 <= |t| && IsDigit(t[k]) then
      if k + 1 == |t| then Some(DigitValue(t[k])) else None
    else None
  }

  /** The minute of the day that `strptime(t, "%H:%M")` reads, or None
      where it raises ValueError. */
  function ParseHHMM(t: string): (r: Option<nat>)
    ensures r.Some? ==> r.value < 1440
  {
    match HourField(t)
    case None => None
    case Some((h, k)) =>
      match MinuteField(t, k)
      case None => None
      case Some(m) => Some(h * 60 + m)
  }

  // ---------------------------------------------------------------------
  // The break

  /** The two tokens the break is measured between: the first segment's
      end and the second's start, or, when those are the same text and
      there are more than four tokens, the next pair. */
  function BreakTokens(turnos: seq<string>): (string, string)
    requires |turnos| >= 4
  {
    if turnos[1] == turnos[2] && |turnos| > 4 then (turnos[3], turnos[4])
    else (turnos[1], turnos[2])
  }

  /** The break in minutes, or None where `calcular_intervalo` returns "":
      fewer than four tokens, or a token that is not a time. */
  function BreakMinutes(pontos: string): Option<nat>
  {
    var turnos := RegexSplit(pontos);
    if |turnos| < 4 then None
    else
      var (saida, entrada) := BreakTokens(turnos);
      match (ParseHHMM(Strip(saida)), ParseHHMM(Strip(entrada)))
      case (Some(t1), Some(t2)) =>
        var g: int := t2 as int - t1 as int;
        Some(if g < 0 then g + 1440 else g)
      case _ => None
  }

  /** `calcular_intervalo`: the break as "HH:MM", or "" when it cannot be
      measured. */
  function CalcularIntervalo(pontos: string): string
  {
    match BreakMinutes(pontos)
    case Some(g) => Clock(g / 60, g % 60)
    case None => ""
  }

  // ---------------------------------------------------------------------
  // Properties

  /** A padded clock text with an hour below 24 and minutes below 60 is
      read by `strptime` as its minute of the day. */
  lemma ParseHHMMOfClock(h: nat, m: nat)
    requires h < 24 && m < 60
    ensures ParseHHMM(Clock(h, m)) == Some(h * 60 + m)
  {
    var a, b := Pad2(h), Pad2(m);
    var t := Clock(h, m);
    Pad2Spec(h);
    Pad2Spec(m);
    TwoDigitsValue(a);
    TwoDigitsValue(b);
    assert t[0] == a[0] && t[1] == a[1] && t[2] == ':' && t[3] == b[0] && t[4] == b[1] && |t| == 5;
    assert HourField(t) == Some((h, 3));
    assert '0' <= t[3] <= '5';
  }

  /** An hour of 24 or more does not parse: "24:00" is a ValueError. */
  lemma ParseHHMMRejectsHour24()
    ensures ParseHHMM("24:00") == None
  {
  }

  /** The break in minutes: none when the split gives fewer than four
      tokens or a chosen token is not a time; otherwise the second time
      minus the first, plus 24 hours when that is negative. */
  lemma BreakMinutesMeaning(p: string)
    ensures |RegexSplit(p)| < 4 ==> BreakMinutes(p).None?
    ensures |RegexSplit(p)| >= 4 ==>
      var (saida, entrada) := BreakTokens(RegexSplit(p));
      var t1, t2 := ParseHHMM(Strip(saida)), ParseHHMM(Strip(entrada));
      (BreakMinutes(p).None? <==> t1.None? || t2.None?) &&
      (t1.Some? && t2.Some? ==> BreakMinutes(p) == Some((t2.value - t1.value) % 1440))
    ensures BreakMinutes(p).Some? ==> BreakMinutes(p).value < 1440
  {
  }

  /** `calcular_intervalo` is "" exactly when the break cannot be measured;
      otherwise it is a clock text between 00:00 and 23:59 that
      `str_to_minutes` reads as the break. */
  lemma IntervaloMeaning(p: string)
    ensures CalcularIntervalo(p) == "" <==> BreakMinutes(p).None?
    ensures BreakMinutes(p).Some? ==>
      StrToMinutes(CalcularIntervalo(p)) == Ok(BreakMinutes(p).value as int) &&
      exists h: nat, m: nat {:trigger Clock(h, m)} :: h < 24 && m < 60 && CalcularIntervalo(p) == Clock(h, m)
  {
    BreakMinutesMeaning(p);
    if BreakMinutes(p).Some? {
      var g := BreakMinutes(p).value;
      ClockTextOf(g);
      assert CalcularIntervalo(p) == Clock(g / 60, g % 60);
    }
  }

  lemma ClockTextOf(g: nat)
    requires g < 1440
    ensures StrToMinutes(Clock(g / 60, g % 60)) == Ok(g as int)
    ensures Clock(g / 60, g % 60) != "" && g / 60 < 24 && g % 60 < 60
  {
    ClockOfMinutesReads(g);
    Pad2Spec(g / 60);
    Pad2Spec(g % 60);
  }

  // ---------------------------------------------------------------------
  // The split of a rendered punches text

  /** Text with neither white space nor a bar, such as a clock or "". */
  predicate Clean(x: string) { forall i | 0 <= i < |x| :: !IsSpace(x[i]) && x[i] != '|' }

  lemma NoMatchAt(s: string, i: nat)
    requires i < |s| && !IsSpace(s[i]) && s[i] != '|'
    ensures MatchAt(s, i) == 0
  {
    if i + 3 <= |s| { assert s[i..i + 3][0] == s[i]; }
  }

  lemma {:induction false} ScanSkips(s: string, i: nat, j: nat)
    requires i <= j <= |s|
    requires forall k :: i <= k < j ==> MatchAt(s, k) == 0
    ensures Scan(s, i) == Scan(s, j)
    decreases j - i
  {
    if i < j { ScanSkips(s, i + 1, j); }
  }

  /** Scanning past a clean prefix finds no separator in it. */
  lemma ScanPastClean(x: string, rest: string)
    requires Clean(x)
    ensures Scan(x + rest, 0) == Scan(x + rest, |x|)
  {
    var s := x + rest;
    forall k | 0 <= k < |x| ensures MatchAt(s, k) == 0 {
      assert s[k] == x[k];
      NoMatchAt(s, k);
    }
    ScanSkips(s, 0, |x|);
  }

  /** A clean text is one token. */
  lemma RegexSplitClean(x: string)
    requires Clean(x)
    ensures RegexSplit(x) == [x]
  {
    ScanPastClean(x, "");
    assert x + "" == x;
  }

  /** A separator found where the scan stands ends the current token. */
  lemma ScanAtMatch(s: string, pos: nat, m: nat)
    requires pos < |s| && MatchAt(s, pos) == m && m > 0
    ensures Scan(s, pos) == [s[..pos]] + RegexSplit(s[pos + m..])
  {
  }

  /** " - " after a clean token ends it. */
  lemma RegexSplitPeelDash(x: string, rest: string)
    requires Clean(x)
    ensures RegexSplit(x + " - " + rest) == [x] + RegexSplit(rest)
  {
    var s := x + (" - " + rest);
    var n := |x|;
    assert s == x + " - " + rest;
    ScanPastClean(x, " - " + rest);
    assert s[n..n + 3] == " - ";
    assert MatchAt(s, n) == 3;
    ScanAtMatch(s, n, 3);
    assert s[..n] == x && s[n + 3..] == rest;
  }

  /** A bar with one white-space character on each side, followed by a
      character that is not white space, is matched as three characters. */
  lemma MatchAtBar(x: string, c: char, rest: string)
    requires IsSpace(c) && rest != [] && !IsSpace(rest[0])
    ensures MatchAt(x + ([c, '|', c] + rest), |x|) == 3
  {
    var s, n := x + ([c, '|', c] + rest), |x|;
    assert s[n] == c && s[n + 1] == '|' && s[n + 2] == c && s[n + 3] == rest[0];
    assert s[n..n + 3] != " - " by { assert s[n..n + 3][1] == '|'; }
    assert WsRun(s, n + 1) == 0;
    assert WsRun(s, n) == 1;
    assert WsRun(s, n + 3) == 0;
    assert WsRun(s, n + 2) == 1;
  }

  /** A bar with one white-space character on each side ends a clean
      token, provided the next token does not start with white space (the
      greedy `\s*` would swallow it). */
  lemma RegexSplitPeelSpacedBar(x: string, c: char, rest: string)
    requires Clean(x) && IsSpace(c) && rest != [] && !IsSpace(rest[0])
    ensures RegexSplit(x + ([c, '|', c] + rest)) == [x] + RegexSplit(rest)
  {
    var s := x + ([c, '|', c] + rest);
    var n := |x|;
    ScanPastClean(x, [c, '|', c] + rest);
    MatchAtBar(x, c, rest);
    ScanAtMatch(s, n, 3);
    assert s[..n] == x && s[n + 3..] == rest;
  }

  /** " | " after a clean token ends it, provided the next token does not
      start with white space. */
  lemma RegexSplitPeelBar(x: string, rest: string)
    requires Clean(x) && rest != [] && !IsSpace(rest[0])
    ensures RegexSplit(x + " | " + rest) == [x] + RegexSplit(rest)
  {
    assert x + " | " + rest == x + ([' ', '|', ' '] + rest);
    RegexSplitPeelSpacedBar(x, ' ', rest);
  }

  /** A clock text is clean: it is one token of the split, and `strip`
      leaves it as it is. */
  lemma ClockClean(h: nat, m: nat)
    ensures Clean(Clock(h, m)) && NoSpace(Clock(h, m))
  {
    var a, b := Pad2(h), Pad2(m);
    Pad2Spec(h);
    Pad2Spec(m);
    assert forall i | 0 <= i < |a| :: IsDigit(a[i]);
    assert forall i | 0 <= i < |b| :: IsDigit(b[i]);
  }

  lemma ExampleClocks()
    ensures Clock(1, 2) == "01:02"
  {
    Pad2Digits(1); Pad2Digits(2);
  }

  /** Four clean tokens joined as two segments separated by a bar split
      back into those four tokens. */
  lemma FourTokens(a: string, b: string, c: string, d: string)
    requires Clean(a) && Clean(b) && Clean(c) && Clean(d) && c != ""
    ensures RegexSplit(a + " - " + (b + " | " + (c + " - " + d))) == [a, b, c, d]
  {
    RegexSplitPeelDash(a, b + " | " + (c + " - " + d));
    RegexSplitPeelBar(b, c + " - " + d);
    RegexSplitPeelDash(c, d);
    RegexSplitClean(d);
  }

  lemma ExampleText(a: string, b: string, c: string, d: string)
    requires a == "05:55" && b == "11:40" && c == "12:42" && d == "16:41"
    ensures a + " - " + (b + " | " + (c + " - " + d)) == "05:55 - 11:40 | 12:42 - 16:41"
  {
  }

  lemma ExampleTokens()
    ensures RegexSplit("05:55 - 11:40 | 12:42 - 16:41") == ["05:55", "11:40", "12:42", "16:41"]
  {
    var a, b, c, d := "05:55", "11:40", "12:42", "16:41";
    assert Clean(a) && Clean(b) && Clean(c) && Clean(d);
    FourTokens(a, b, c, d);
    ExampleText(a, b, c, d);
  }

  /** The documented example: "05:55 - 11:40 | 12:42 - 16:41" has a break
      of "01:02", from 11:40 to 12:42. */
  lemma DocumentedExample()
    ensures CalcularIntervalo("05:55 - 11:40 | 12:42 - 16:41") == "01:02"
  {
    ExampleBreak();
    IntervaloOfBreak("05:55 - 11:40 | 12:42 - 16:41", 62);
    assert 62 / 60 == 1 && 62 % 60 == 2;
    ExampleClocks();
  }

  /** The separators U+001C to U+001F are white space to `\s`, so a bar
      flanked by them still splits: "05:55 - 11:40\x1c|\x1c12:42 - 16:41"
      also has a break of "01:02". */
  lemma SeparatorSpaceExample()
    ensures CalcularIntervalo("05:55 - 11:40\U{1C}|\U{1C}12:42 - 16:41") == "01:02"
  {
    SeparatorSpaceBreak();
    IntervaloOfBreak("05:55 - 11:40\U{1C}|\U{1C}12:42 - 16:41", 62);
    assert 62 / 60 == 1 && 62 % 60 == 2;
    ExampleClocks();
  }

  lemma SeparatorSpaceBreak()
    ensures BreakMinutes("05:55 - 11:40\U{1C}|\U{1C}12:42 - 16:41") == Some(62)
  {
    ExampleTimes();
    SeparatorSpaceTokens();
    BreakOfTokens("05:55 - 11:40\U{1C}|\U{1C}12:42 - 16:41", "11:40", "12:42", 700, 762);
  }

  lemma SeparatorSpaceTokens()
    ensures RegexSplit("05:55 - 11:40\U{1C}|\U{1C}12:42 - 16:41") == ["05:55", "11:40", "12:42", "16:41"]
  {
    var a, b, c, d := "05:55", "11:40", "12:42", "16:41";
    assert Clean(a) && Clean(b) && Clean(c) && Clean(d);
    SpacedFourTokens(a, b, c, d, '\U{1C}');
    SeparatorSpaceText(a, b, c, d);
  }

  lemma SeparatorSpaceText(a: string, b: string, c: string, d: string)
    requires a == "05:55" && b == "11:40" && c == "12:42" && d == "16:41"
    ensures a + " - " + (b + (['\U{1C}', '|', '\U{1C}'] + (c + " - " + d))) == "05:55 - 11:40\U{1C}|\U{1C}12:42 - 16:41"
  {
  }

  /** Four clean tokens joined as two segments separated by a bar with one
      white-space character on each side split back into those tokens. */
  lemma SpacedFourTokens(a: string, b: string, c: string, d: string, w: char)
    requires Clean(a) && Clean(b) && Clean(c) && Clean(d) && c != "" && IsSpace(w)
    ensures RegexSplit(a + " - " + (b + ([w, '|', w] + (c + " - " + d)))) == [a, b, c, d]
  {
    RegexSplitPeelDash(a, b + ([w, '|', w] + (c + " - " + d)));
    RegexSplitPeelSpacedBar(b, w, c + " - " + d);
    RegexSplitPeelDash(c, d);
    RegexSplitClean(d);
  }

  lemma IntervaloOfBreak(p: string, g: nat)
    requires BreakMinutes(p) == Some(g)
    ensures CalcularIntervalo(p) == Clock(g / 60, g % 60)
  {
  }

  lemma ExampleBreak()
    ensures BreakMinutes("05:55 - 11:40 | 12:42 - 16:41") == Some(62)
  {
    ExampleTimes();
    ExampleTokens();
    BreakOfTokens("05:55 - 11:40 | 12:42 - 16:41", "11:40", "12:42", 700, 762);
  }

  lemma ExampleTimes()
    ensures ParseHHMM(Strip("11:40")) == Some(700) && ParseHHMM(Strip("12:42")) == Some(762)
  {
    var b, c := "11:40", "12:42";
    assert NoSpace(b) && NoSpace(c);
    assert ParseHHMM(b) == Some(700) && ParseHHMM(c) == Some(762);
  }

  lemma BreakOfTokens(p: string, b: string, c: string, t1: nat, t2: nat)
    requires |RegexSplit(p)| == 4 && RegexSplit(p)[1] == b && RegexSplit(p)[2] == c && b != c
    requires ParseHHMM(Strip(b)) == Some(t1) && ParseHHMM(Strip(c)) == Some(t2) && t1 <= t2
    ensures BreakMinutes(p) == Some(t2 - t1)
  {
  }

  // ---------------------------------------------------------------------
  // The break of a daily row's punches text

  /** `[ins[0], outs[0], ins[1], outs[1], ...]`. */
  function Interleave(ins: seq<string>, outs: seq<string>): (r: seq<string>)
    requires |ins| == |outs|
    ensures |r| == 2 * |ins|
    ensures forall k | 0 <= k < |ins| :: r[2 * k] == ins[k] && r[2 * k + 1] == outs[k]
  {
    if ins == [] then []
    else
      var rest := Interleave(ins[1..], outs[1..]);
      var r := [ins[0], outs[0]] + rest;
      assert forall k | 1 <= k < |ins| :: r[2 * k] == rest[2 * (k - 1)] && r[2 * k + 1] == rest[2 * (k - 1) + 1];
      r
  }

  function Segments(ins: seq<string>, outs: seq<string>): seq<string>
    requires |ins| == |outs|
  {
    seq(|ins|, i requires 0 <= i < |ins| => ins[i] + " - " + outs[i])
  }

  /** Segments "in - out" joined by " | " split back into their sides, as
      long as every side is clean and no segment after the first has an
      empty start. */
  lemma {:induction false} RegexSplitOfSegments(ins: seq<string>, outs: seq<string>)
    requires |ins| == |outs| >= 1
    requires forall k | 0 <= k < |ins| :: Clean(ins[k]) && Clean(outs[k])
    requires forall k | 1 <= k < |ins| :: ins[k] != ""
    ensures RegexSplit(Join(Segments(ins, outs), " | ")) == Interleave(ins, outs)
  {
    var xs := Segments(ins, outs);
    if |ins| == 1 {
      assert Join(xs, " | ") == ins[0] + " - " + outs[0];
      RegexSplitPeelDash(ins[0], outs[0]);
      RegexSplitClean(outs[0]);
    } else {
      var ins', outs' := ins[1..], outs[1..];
      assert xs[1..] == Segments(ins', outs');
      var rest := Join(xs[1..], " | ");
      RegexSplitOfSegments(ins', outs');
      assert xs[1..][0] == ins[1] + " - " + outs[1];
      JoinStart(xs[1..], " | ");
      assert rest[0] == ins[1][0];
      assert Join(xs, " | ") == ins[0] + " - " + (outs[0] + " | " + rest);
      RegexSplitPeelDash(ins[0], outs[0] + " | " + rest);
      RegexSplitPeelBar(outs[0], rest);
    }
  }

  /** A join whose first piece is not empty starts with that piece's
      first character. */
  lemma JoinStart(xs: seq<string>, sep: string)
    requires |xs| >= 1 && xs[0] != ""
    ensures Join(xs, sep) != "" && Join(xs, sep)[0] == xs[0][0]
  {
    if |xs| > 1 {
      assert Join(xs, sep) == xs[0] + sep + Join(xs[1..], sep);
    }
  }

  lemma SideClean(v: Option<int>, tz: int)
    ensures Clean(Side(v, tz)) && NoSpace(Side(v, tz))
  {
    if v.Some? {
      var t := LocalMinuteOfDay(v.value, tz);
      ClockClean(t / 60, t % 60);
    }
  }

  /** The start sides of a group's rendered punches, in reverse arrival order. */
  function StartSides(g: seq<Punch>, tz: int): seq<string>
  {
    seq(|g|, k requires 0 <= k < |g| => Side(g[|g| - 1 - k].dateIn, tz))
  }

  /** The end sides of a group's rendered punches, in reverse arrival order. */
  function EndSides(g: seq<Punch>, tz: int): seq<string>
  {
    seq(|g|, k requires 0 <= k < |g| => Side(g[|g| - 1 - k].dateOut, tz))
  }

  /** The split `calcular_intervalo` makes of a daily row's punches text
      gives every side in turn, in reverse arrival order, provided only
      the last punch to arrive (whose segment comes first) may lack its
      start. (A missing start after a bar is swallowed with
      the bar's white space, so its segment becomes one token.) */
  lemma PontosTokens(g: seq<Punch>, tz: int)
    requires |g| >= 1
    requires forall i | 0 <= i < |g| - 1 :: g[i].dateIn.Some?
    ensures RegexSplit(PontosText(g, tz)) == Interleave(StartSides(g, tz), EndSides(g, tz))
  {
    BlocksAreSegments(g, tz);
    SidesClean(g, tz);
    StartsPresent(g, tz);
    RegexSplitOfSegments(StartSides(g, tz), EndSides(g, tz));
  }

  lemma BlocksAreSegments(g: seq<Punch>, tz: int)
    ensures Blocks(g, tz) == Segments(StartSides(g, tz), EndSides(g, tz))
  {
    var ins, outs := StartSides(g, tz), EndSides(g, tz);
    forall k | 0 <= k < |g| ensures Blocks(g, tz)[k] == Segments(ins, outs)[k] {
      var p := g[|g| - 1 - k];
      assert ins[k] == Side(p.dateIn, tz) && outs[k] == Side(p.dateOut, tz);
      assert Blocks(g, tz)[k] == Block(p, tz);
    }
  }

  lemma SidesClean(g: seq<Punch>, tz: int)
    ensures forall k | 0 <= k < |g| :: Clean(StartSides(g, tz)[k]) && Clean(EndSides(g, tz)[k])
  {
    var ins, outs := StartSides(g, tz), EndSides(g, tz);
    forall k | 0 <= k < |g| ensures Clean(ins[k]) && Clean(outs[k]) {
      SideClean(g[|g| - 1 - k].dateIn, tz);
      SideClean(g[|g| - 1 - k].dateOut, tz);
    }
  }

  lemma StartsPresent(g: seq<Punch>, tz: int)
    requires forall i | 0 <= i < |g| - 1 :: g[i].dateIn.Some?
    ensures forall k | 1 <= k < |g| :: StartSides(g, tz)[k] != ""
  {
    var ins := StartSides(g, tz);
    forall k | 1 <= k < |g| ensures ins[k] != "" {
      var ms := g[|g| - 1 - k].dateIn.value;
      var t := LocalMinuteOfDay(ms, tz);
      assert ins[k] == Side(Some(ms), tz) == LocalHHMM(ms, tz);
      Pad2Spec(t / 60);
    }
  }

  lemma SideOfPresent(v: Option<int>, tz: int)
    requires v.Some?
    ensures Side(v, tz) == LocalHHMM(v.value, tz)
  {
  }

  /** A local time as `strptime` reads it after `strip`. */
  lemma ParseLocal(ms: int, tz: int)
    ensures ParseHHMM(Strip(LocalHHMM(ms, tz))) == Some(LocalMinuteOfDay(ms, tz))
  {
    var t := LocalMinuteOfDay(ms, tz);
    ClockClean(t / 60, t % 60);
    ParseHHMMOfClock(t / 60, t % 60);
  }

  /** Two local times are the same text exactly when they are the same
      minute of the day. */
  lemma LocalHHMMInjective(a: int, b: int, tz: int)
    ensures LocalHHMM(a, tz) == LocalHHMM(b, tz) <==> LocalMinuteOfDay(a, tz) == LocalMinuteOfDay(b, tz)
  {
    LocalHHMMReads(a, tz);
    LocalHHMMReads(b, tz);
  }

  /** The first five tokens of a complete group's punches text. */
  lemma PontosBreakTokens(g: seq<Punch>, tz: int)
    requires |g| >= 2 && AllComplete(g)
    ensures var toks := RegexSplit(PontosText(g, tz)); var n := |g|;
      |toks| == 2 * n &&
      toks[1] == LocalHHMM(g[n - 1].dateOut.value, tz) &&
      toks[2] == LocalHHMM(g[n - 2].dateIn.value, tz) &&
      (n > 2 ==> toks[3] == LocalHHMM(g[n - 2].dateOut.value, tz) &&
                 toks[4] == LocalHHMM(g[n - 3].dateIn.value, tz))
  {
    var n := |g|;
    assert forall i | 0 <= i < n :: Complete(g[i]);
    PontosTokens(g, tz);
    var ins, outs := StartSides(g, tz), EndSides(g, tz);
    var toks := Interleave(ins, outs);
    SideOfPresent(g[n - 1].dateOut, tz);
    SideOfPresent(g[n - 2].dateIn, tz);
    assert toks[1] == outs[0];
    assert toks[2] == ins[1];
    if n > 2 {
      SideOfPresent(g[n - 2].dateOut, tz);
      SideOfPresent(g[n - 3].dateIn, tz);
      assert toks[3] == outs[1];
      assert toks[4] == ins[2];
    }
  }

  /** The break of a text whose tokens 1 and 2 read as the given times
      and are measured between. */
  lemma BreakFromFirstPair(p: string, v1: nat, v2: nat)
    requires |RegexSplit(p)| >= 4 && (RegexSplit(p)[1] != RegexSplit(p)[2] || |RegexSplit(p)| == 4)
    requires ParseHHMM(Strip(RegexSplit(p)[1])) == Some(v1) && ParseHHMM(Strip(RegexSplit(p)[2])) == Some(v2)
    ensures BreakMinutes(p) == Some((v2 as int - v1 as int) % 1440)
  {
    BreakMinutesMeaning(p);
  }

  /** `BreakFromFirstPair` for a text of `2 * n` tokens whose tokens 1 and 2 are equal exactly when their times are. */
  lemma BreakFromFirstTokens(p: string, n: nat, v1: nat, v2: nat)
    requires n >= 2 && (v1 != v2 || n == 2)
    requires |RegexSplit(p)| == 2 * n && (RegexSplit(p)[1] == RegexSplit(p)[2] <==> v1 == v2)
    requires ParseHHMM(Strip(RegexSplit(p)[1])) == Some(v1) && ParseHHMM(Strip(RegexSplit(p)[2])) == Some(v2)
    ensures BreakMinutes(p) == Some((v2 as int - v1 as int) % 1440)
  {
    BreakFromFirstPair(p, v1, v2);
  }

  /** The break of a text whose tokens 1 and 2 are equal and whose tokens
      3 and 4 read as the given times. */
  lemma BreakFromSecondPair(p: string, v3: nat, v4: nat)
    requires |RegexSplit(p)| > 4 && RegexSplit(p)[1] == RegexSplit(p)[2]
    requires ParseHHMM(Strip(RegexSplit(p)[3])) == Some(v3) && ParseHHMM(Strip(RegexSplit(p)[4])) == Some(v4)
    ensures BreakMinutes(p) == Some((v4 as int - v3 as int) % 1440)
  {
    BreakMinutesMeaning(p);
  }

  /** Local minute of the day at which a complete punch starts. */
  function StartMinute(p: Punch, tz: int): nat
    requires Complete(p)
  {
    LocalMinuteOfDay(p.dateIn.value, tz)
  }

  /** Local minute of the day at which a complete punch ends. */
  function EndMinute(p: Punch, tz: int): nat
    requires Complete(p)
  {
    LocalMinuteOfDay(p.dateOut.value, tz)
  }

  /** The times tokens 1 to 4 of a complete group's punches text read as. */
  lemma PontosTokenTimes(g: seq<Punch>, tz: int)
    requires |g| >= 2 && AllComplete(g)
    ensures Complete(g[|g| - 1]) && Complete(g[|g| - 2]) && (|g| > 2 ==> Complete(g[|g| - 3]))
    ensures var toks := RegexSplit(PontosText(g, tz)); var n := |g|;
      |toks| == 2 * n &&
      ParseHHMM(Strip(toks[1])) == Some(EndMinute(g[n - 1], tz)) &&
      ParseHHMM(Strip(toks[2])) == Some(StartMinute(g[n - 2], tz)) &&
      (toks[1] == toks[2] <==> EndMinute(g[n - 1], tz) == StartMinute(g[n - 2], tz)) &&
      (n > 2 ==> ParseHHMM(Strip(toks[3])) == Some(EndMinute(g[n - 2], tz)) &&
                 ParseHHMM(Strip(toks[4])) == Some(StartMinute(g[n - 3], tz)))
  {
    var n := |g|;
    assert Complete(g[n - 1]) && Complete(g[n - 2]);
    PontosBreakTokens(g, tz);
    LocalHHMMInjective(g[n - 1].dateOut.value, g[n - 2].dateIn.value, tz);
    ParseLocal(g[n - 1].dateOut.value, tz);
    ParseLocal(g[n - 2].dateIn.value, tz);
    if n > 2 {
      assert Complete(g[n - 3]);
      ParseLocal(g[n - 2].dateOut.value, tz);
      ParseLocal(g[n - 3].dateIn.value, tz);
    }
  }

  /** The break of a daily row with at least two complete punches: from
      the end of the last punch to arrive (the first segment of the text)
      to the start of the punch that arrived before it (the second
      segment), modulo 24 hours; when those two are the same minute and
      there is a third punch, from the end of the second segment to the
      start of the third. */
  lemma BreakOfPontos(g: seq<Punch>, tz: int)
    requires |g| >= 2 && AllComplete(g)
    ensures Complete(g[|g| - 1]) && Complete(g[|g| - 2]) && (|g| > 2 ==> Complete(g[|g| - 3]))
    ensures EndMinute(g[|g| - 1], tz) != StartMinute(g[|g| - 2], tz) || |g| == 2 ==>
      BreakMinutes(PontosText(g, tz)) ==
        Some((StartMinute(g[|g| - 2], tz) as int - EndMinute(g[|g| - 1], tz) as int) % 1440)
    ensures EndMinute(g[|g| - 1], tz) == StartMinute(g[|g| - 2], tz) && |g| > 2 ==>
      BreakMinutes(PontosText(g, tz)) ==
        Some((StartMinute(g[|g| - 3], tz) as int - EndMinute(g[|g| - 2], tz) as int) % 1440)
  {
    var n := |g|;
    assert Complete(g[n - 1]) && Complete(g[n - 2]) && (n > 2 ==> Complete(g[n - 3]));
    if EndMinute(g[n - 1], tz) != StartMinute(g[n - 2], tz) || n == 2 {
      BreakOfFirstPair(g, tz);
    } else {
      BreakOfSecondPair(g, tz);
    }
  }

  /** The break of a complete group measured from the end of its first text segment (the last punch to arrive) to the start of the second. */
  lemma BreakOfFirstPair(g: seq<Punch>, tz: int)
    requires |g| >= 2 && AllComplete(g)
    requires EndMinute(g[|g| - 1], tz) != StartMinute(g[|g| - 2], tz) || |g| == 2
    ensures BreakMinutes(PontosText(g, tz)) ==
      Some((StartMinute(g[|g| - 2], tz) as int - EndMinute(g[|g| - 1], tz) as int) % 1440)
  {
    var n, p := |g|, PontosText(g, tz);
    PontosTokenTimes(g, tz);
    var v1, v2 := EndMinute(g[n - 1], tz), StartMinute(g[n - 2], tz);
    BreakFromFirstTokens(p, n, v1, v2);
  }

  /** The break of a complete group measured from the end of its second text segment to the start of the third. */
  lemma BreakOfSecondPair(g: seq<Punch>, tz: int)
    requires |g| > 2 && AllComplete(g)
    requires EndMinute(g[|g| - 1], tz) == StartMinute(g[|g| - 2], tz)
    ensures BreakMinutes(PontosText(g, tz)) ==
      Some((StartMinute(g[|g| - 3], tz) as int - EndMinute(g[|g| - 2], tz) as int) % 1440)
  {
    var n, p := |g|, PontosText(g, tz);
    PontosTokenTimes(g, tz);
    BreakFromSecondPair(p, EndMinute(g[n - 2], tz), StartMinute(g[n - 3], tz));
  }
}
