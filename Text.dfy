/** The string primitives the report code leans on: decimal digits, the
    zero-padded `{n:02}` format, the part of Python's `int(str)` that the
    report code exercises, `str.strip()`, `str.split(sep)` and `sep.join(xs)`. */
module Text {
  import opened Errors

  predicate IsDigit(c: char) { '0' <= c <= '9' }

  predicate AllDigits(s: string) { forall i | 0 <= i < |s| :: IsDigit(s[i]) }

  function DigitChar(d: nat): (c: char)
    requires d < 10
    ensures IsDigit(c) && c as int - '0' as int == d
  {
    ('0' as int + d) as char
  }

  function DigitValue(c: char): nat
    requires IsDigit(c)
  {
    c as int - '0' as int
  }

  /** The value of a string of decimal digits, most significant first. */
  function DigitsValue(s: string): nat
    requires AllDigits(s)
  {
    if s == [] then 0 else DigitsValue(s[..|s| - 1]) * 10 + DigitValue(s[|s| - 1])
  }

  function Pow10(k: nat): (r: nat)
    ensures r >= 1
  {
    if k == 0 then 1 else 10 * Pow10(k - 1)
  }

  /** A string of k digits denotes a number below 10^k. */
  lemma {:induction false} DigitsValueBound(s: string)
    requires AllDigits(s)
    ensures DigitsValue(s) < Pow10(|s|)
  {
    if s != [] { DigitsValueBound(s[..|s| - 1]); }
  }

  /** A two-digit string's value, digit by digit. */
  lemma TwoDigitsValue(s: string)
    requires |s| == 2 && AllDigits(s)
    ensures DigitsValue(s) == DigitValue(s[0]) * 10 + DigitValue(s[1])
  {
    var t := s[..1];
    assert t[..0] == [] && t[0] == s[0];
    assert DigitsValue(t) == DigitValue(s[0]);
  }

  /** `str(n)` for a natural number: shortest decimal form. Its properties
      are stated by `NatToDigitsSpec`, so that the many texts built from it
      do not carry them into every proof. */
  function NatToDigits(n: nat): string
  {
    if n < 10 then [DigitChar(n)] else NatToDigits(n / 10) + [DigitChar(n % 10)]
  }

  /** `str(n)` is a non-empty digit string denoting n, one digit long
      exactly for n below 10 and without leading zero. */
  lemma {:induction false} NatToDigitsSpec(n: nat)
    ensures var r := NatToDigits(n);
      |r| >= 1 && AllDigits(r) && DigitsValue(r) == n &&
      (n < 10 <==> |r| == 1) && (|r| > 1 ==> Pow10(|r| - 1) <= n)
  {
    var r := NatToDigits(n);
    if n >= 10 {
      NatToDigitsSpec(n / 10);
      var p := NatToDigits(n / 10);
      assert r == p + [DigitChar(n % 10)];
      assert r[..|r| - 1] == p;
    }
  }

  lemma {:induction false} LeadingZero(s: string)
    requires AllDigits(s)
    ensures AllDigits("0" + s) && DigitsValue("0" + s) == DigitsValue(s)
  {
    if s != [] {
      var t := "0" + s;
      assert t[..|t| - 1] == "0" + s[..|s| - 1];
      LeadingZero(s[..|s| - 1]);
    }
  }

  /** Python's `f"{n:02}"`: zero-filled on the left to two digits. */
  function Pad2(n: nat): string
  {
    if n < 10 then "0" + NatToDigits(n) else NatToDigits(n)
  }

  /** `f"{n:02}"` is a digit string of at least two digits denoting n,
      exactly two for n below 100. */
  lemma Pad2Spec(n: nat)
    ensures AllDigits(Pad2(n)) && DigitsValue(Pad2(n)) == n
    ensures |Pad2(n)| >= 2 && (n < 100 <==> |Pad2(n)| == 2)
  {
    NatToDigitsSpec(n);
    if n < 10 {
      LeadingZero(NatToDigits(n));
    } else if n >= 100 {
      assert Pow10(2) == 100;
      var r := NatToDigits(n);
      if |r| == 2 {
        DigitsValueBound(r);
      }
    }
  }

  /** The two characters of `f"{n:02}"` for n below 100. */
  lemma Pad2Digits(n: nat)
    requires n < 100
    ensures Pad2(n) == [DigitChar(n / 10), DigitChar(n % 10)]
  {
    if n >= 10 {
      assert NatToDigits(n / 10) == [DigitChar(n / 10)];
    }
  }

  /** Python's `int(s)` on the inputs the report code produces: an optional
      `+` or `-` followed by one or more ASCII digits; anything else is a
      ValueError, written here as None. */
  function ParseInt(s: string): (r: Option<int>)
    ensures r.Some? ==> |s| > 0
  {
    if |s| > 0 && (s[0] == '+' || s[0] == '-') then
      if |s| > 1 && AllDigits(s[1..]) then
        var v: int := DigitsValue(s[1..]);
        Some(if s[0] == '-' then -v else v)
      else None
    else if |s| > 0 && AllDigits(s) then Some(DigitsValue(s))
    else None
  }

  lemma ParseIntOfDigits(s: string)
    requires |s| > 0 && AllDigits(s)
    ensures ParseInt(s) == Some(DigitsValue(s) as int)
  {
    assert IsDigit(s[0]);
  }

  lemma ParseIntPlus(s: string)
    requires |s| > 0 && AllDigits(s)
    ensures ParseInt("+" + s) == Some(DigitsValue(s) as int)
  {
    var t := "+" + s;
    assert t[0] == '+' && t[1..] == s;
  }

  lemma ParseIntMinus(s: string)
    requires |s| > 0 && AllDigits(s)
    ensures ParseInt("-" + s) == Some(-(DigitsValue(s) as int))
  {
    var t := "-" + s;
    assert t[0] == '-' && t[1..] == s;
  }

  /** The characters `str.strip()` and the regular expression `\s` treat
      as white space: the ASCII ones, the four separators U+001C to U+001F,
      and the Unicode spaces and line separators Python counts. */
  predicate IsSpace(c: char) {
    (c <= ' ' && (c == ' ' || '\t' <= c <= '\r' || '\U{1C}' <= c)) || ('\U{85}' <= c && UnicodeSpace(c))
  }

  /** The white space above U+007F. */
  predicate UnicodeSpace(c: char) {
    c == '\U{85}' || c == '\U{A0}' || c == '\U{1680}' || '\U{2000}' <= c <= '\U{200A}'
    || c == '\U{2028}' || c == '\U{2029}' || c == '\U{202F}' || c == '\U{205F}' || c == '\U{3000}'
  }

  predicate NoSpace(s: string) { forall i | 0 <= i < |s| :: !IsSpace(s[i]) }

  /** `s.strip()`: drops white space at both ends. */
  function Strip(s: string): (r: string)
    ensures |r| <= |s|
    ensures r != [] ==> !IsSpace(r[0]) && !IsSpace(r[|r| - 1])
    ensures NoSpace(s) ==> r == s
    decreases |s|
  {
    if s != [] && IsSpace(s[0]) then Strip(s[1..])
    else if s != [] && IsSpace(s[|s| - 1]) then Strip(s[..|s| - 1])
    else s
  }

  /** `s.strip(c)` for a one-character argument: drops every `c` at both
      ends. */
  function StripChar(s: string, c: char): (r: string)
    ensures |r| <= |s|
    ensures r != [] ==> r[0] != c && r[|r| - 1] != c
    ensures s == [] || (s[0] != c && s[|s| - 1] != c) ==> r == s
    decreases |s|
  {
    if s != [] && s[0] == c then StripChar(s[1..], c)
    else if s != [] && s[|s| - 1] == c then StripChar(s[..|s| - 1], c)
    else s
  }

  predicate OccursAt(s: string, sep: string, i: nat) {
    i + |sep| <= |s| && s[i..i + |sep|] == sep
  }

  /** Index of the first occurrence of `sep` in `s` at or after `from`, or
      -1 when there is none. */
  function Find(s: string, sep: string, from: nat): (r: int)
    requires |sep| > 0
    ensures r == -1 || from <= r <= |s| - |sep|
    ensures r >= 0 ==> OccursAt(s, sep, r)
    decreases |s| - from
  {
    if from + |sep| > |s| then -1
    else if s[from..from + |sep|] == sep then from
    else Find(s, sep, from + 1)
  }

  /** `Find` returns the first occurrence: there is none between `from`
      and its result (or the end of the text, when it finds none). */
  lemma {:induction false} FindFirst(s: string, sep: string, from: nat)
    requires |sep| > 0
    ensures forall j :: from <= j < (if Find(s, sep, from) < 0 then |s| else Find(s, sep, from)) ==>
      !OccursAt(s, sep, j)
    decreases |s| - from
  {
    if from + |sep| <= |s| && s[from..from + |sep|] != sep {
      FindFirst(s, sep, from + 1);
    }
  }

  /** `s.split(sep)` with an explicit, non-empty separator. */
  function Split(s: string, sep: string): (r: seq<string>)
    requires |sep| > 0
    ensures |r| >= 1
    decreases |s|
  {
    var i := Find(s, sep, 0);
    if i < 0 then [s] else [s[..i]] + Split(s[i + |sep|..], sep)
  }

  /** `sep.join(xs)`. */
  function Join(xs: seq<string>, sep: string): string
  {
    if |xs| == 0 then "" else if |xs| == 1 then xs[0] else xs[0] + sep + Join(xs[1..], sep)
  }

  predicate NoChar(s: string, c: char) { forall i | 0 <= i < |s| :: s[i] != c }

  /** A separator whose second character differs from the text's character
      after position `j` cannot occur at `j`. */
  lemma NotOccursAt(s: string, sep: string, j: nat)
    requires |sep| >= 2 && j + 1 < |s| && s[j + 1] != sep[1]
    ensures !OccursAt(s, sep, j)
  {
    if j + |sep| <= |s| { assert s[j..j + |sep|][1] == s[j + 1]; }
  }

  /** Splitting a string in which `sep` never occurs gives it back whole. */
  lemma SplitNoOccurrence(s: string, sep: string)
    requires |sep| > 0
    requires forall j :: 0 <= j < |s| ==> !OccursAt(s, sep, j)
    ensures Split(s, sep) == [s]
  {
    FindFirst(s, sep, 0);
  }

  /** When the first occurrence of `sep` in `x + sep + rest` is the one
      after `x`, splitting peels `x` off. */
  lemma SplitPeel(x: string, sep: string, rest: string)
    requires |sep| > 0
    requires forall j :: 0 <= j < |x| ==> !OccursAt(x + sep + rest, sep, j)
    ensures Split(x + sep + rest, sep) == [x] + Split(rest, sep)
  {
    var s := x + sep + rest;
    FindFirst(s, sep, 0);
    assert OccursAt(s, sep, |x|) by { assert s[|x|..|x| + |sep|] == sep; }
    assert s[..|x|] == x;
    assert s[|x| + |sep|..] == rest;
  }

  lemma BarFreeHasNoBarSeparator(s: string)
    requires NoChar(s, '|')
    ensures forall j :: 0 <= j < |s| ==> !OccursAt(s, " | ", j)
  {
    forall j | 0 <= j < |s| ensures !OccursAt(s, " | ", j) {
      if j + 1 < |s| { NotOccursAt(s, " | ", j); }
    }
  }

  lemma BarSeparatorAfter(x: string, rest: string)
    requires NoChar(x, '|')
    ensures forall j :: 0 <= j < |x| ==> !OccursAt(x + " | " + rest, " | ", j)
  {
    var s := x + " | " + rest;
    forall j | 0 <= j < |x| ensures !OccursAt(s, " | ", j) {
      if j + 1 < |x| { assert s[j + 1] == x[j + 1]; } else { assert s[j + 1] == ' '; }
      NotOccursAt(s, " | ", j);
    }
  }

  /** `" | ".join` followed by `.split(" | ")` gives the parts back, as long
      as no part contains a bar. */
  lemma {:induction false} SplitJoinBar(xs: seq<string>)
    requires |xs| >= 1
    requires forall k :: 0 <= k < |xs| ==> NoChar(xs[k], '|')
    ensures Split(Join(xs, " | "), " | ") == xs
  {
    if |xs| == 1 {
      BarFreeHasNoBarSeparator(xs[0]);
      SplitNoOccurrence(xs[0], " | ");
    } else {
      var rest := Join(xs[1..], " | ");
      assert Join(xs, " | ") == xs[0] + " | " + rest;
      BarSeparatorAfter(xs[0], rest);
      SplitPeel(xs[0], " | ", rest);
      SplitJoinBar(xs[1..]);
      assert xs == [xs[0]] + xs[1..];
    }
  }

  /** `(a + " - " + b).split(" - ")` gives `[a, b]` when neither side
      contains a dash. */
  lemma SplitDashPair(a: string, b: string)
    requires NoChar(a, '-') && NoChar(b, '-')
    ensures Split(a + " - " + b, " - ") == [a, b]
  {
    var s := a + " - " + b;
    forall j | 0 <= j < |a| ensures !OccursAt(s, " - ", j) {
      if j + 1 < |a| { assert s[j + 1] == a[j + 1]; } else { assert s[j + 1] == ' '; }
      NotOccursAt(s, " - ", j);
    }
    SplitPeel(a, " - ", b);
    forall j | 0 <= j < |b| ensures !OccursAt(b, " - ", j) {
      if j + 1 < |b| { NotOccursAt(b, " - ", j); }
    }
    SplitNoOccurrence(b, " - ");
  }
  /** `(a + " - " + b).split(" - ")` gives `[a, b]` when neither side
      contains a space. */
  lemma SplitDashSpaceFree(a: string, b: string)
    requires NoChar(a, ' ') && NoChar(b, ' ')
    ensures Split(a + " - " + b, " - ") == [a, b]
  {
    var s := a + " - " + b;
    forall j | 0 <= j < |a| ensures !OccursAt(s, " - ", j) {
      assert s[j] == a[j];
      NotOccursFirst(s, " - ", j);
    }
    SplitPeel(a, " - ", b);
    forall j | 0 <= j < |b| ensures !OccursAt(b, " - ", j) {
      NotOccursFirst(b, " - ", j);
    }
    SplitNoOccurrence(b, " - ");
  }

  lemma NotOccursFirst(s: string, sep: string, j: nat)
    requires |sep| >= 1 && j < |s| && s[j] != sep[0]
    ensures !OccursAt(s, sep, j)
  {
    if j + |sep| <= |s| { assert s[j..j + |sep|][0] == s[j]; }
  }

  /** `(a + [c] + b).split(c)` gives `[a, b]` when neither side holds `c`. */
  lemma SplitOneCharPair(a: string, c: char, b: string)
    requires NoChar(a, c) && NoChar(b, c)
    ensures Split(a + [c] + b, [c]) == [a, b]
  {
    var s := a + [c] + b;
    forall j | 0 <= j < |a| ensures !OccursAt(s, [c], j) {
      assert s[j] == a[j];
      NotOccursFirst(s, [c], j);
    }
    SplitPeel(a, [c], b);
    forall j | 0 <= j < |b| ensures !OccursAt(b, [c], j) {
      NotOccursFirst(b, [c], j);
    }
    SplitNoOccurrence(b, [c]);
  }

  lemma DigitsHaveNo(s: string, c: char)
    requires AllDigits(s) && !IsDigit(c)
    ensures NoChar(s, c)
  {
  }
}
