/** `datetime.datetime.strptime(s, "%B %d %Y")` and `str()` of the
    resulting datetime, as CPython 2.7's `_strptime` and `datetime` do them
    in the C locale. */
module PyDate {
  import opened PyStr

  datatype Date = Date(year: nat, month: nat, day: nat)

  // ---------------------------------------------------------------------
  // The pieces of the compiled format
  // ---------------------------------------------------------------------

  /** `\s` of a pattern compiled without re.UNICODE: the format's spaces
      become `\s+`. */
  predicate IsAsciiSpace(c: char)
  {
    c == ' ' || (0x09 <= c as int <= 0x0D)
  }

  /** The ASCII case folding of re.IGNORECASE. */
  function Lower(c: char): (r: char)
  {
    if 'A' <= c <= 'Z' then (c as int + 32) as char else c
  }

  function LowerAll(s: string): (r: string)
    ensures |r| == |s| && forall i :: 0 <= i < |s| ==> r[i] == Lower(s[i])
  {
    if s == [] then [] else [Lower(s[0])] + LowerAll(s[1..])
  }

  /** `%B`: the full month names of the C locale, matched ignoring case. */
  const MonthNames: seq<string> := ["january", "february", "march", "april", "may", "june", "july",
                                    "august", "september", "october", "november", "december"]

  /** The month number of a lower-cased `%B` token, searching from month
      `k + 1` on. */
  function MonthFrom(t: string, k: nat): Option<nat>
    requires k <= 12
    decreases 12 - k
  {
    if k == 12 then None else if t == MonthNames[k] then Some(k + 1) else MonthFrom(t, k + 1)
  }

  /** `%d` is `3[01]|[12]\d|0[1-9]|[1-9]| [1-9]`, and a `\s+` follows it:
      the token is one digit from 1 to 9, or two digits from 01 to 31. */
  function DayOf(t: string): (r: Option<nat>)
    ensures r.Some? ==> 1 <= r.value <= 31 && AllDigits(t) && r.value == DigitsValue(t)
  {
    if (|t| == 1 || |t| == 2) && AllDigits(t) && 1 <= DigitsValue(t) <= 31 then Some(DigitsValue(t)) else None
  }

  /** `%Y` is `\d\d\d\d`, and the whole input must be used up ("unconverted
      data remains" otherwise). */
  function YearOf(t: string): (r: Option<nat>)
    ensures r.Some? ==> |t| == 4 && AllDigits(t) && r.value == DigitsValue(t)
  {
    if |t| == 4 && AllDigits(t) then Some(DigitsValue(t)) else None
  }

  predicate IsLeap(y: nat)
  {
    y % 4 == 0 && (y % 100 != 0 || y % 400 == 0)
  }

  function DaysInMonth(y: nat, m: nat): nat
    requires 1 <= m <= 12
  {
    if m == 2 then (if IsLeap(y) then 29 else 28)
    else if m == 4 || m == 6 || m == 9 || m == 11 then 30
    else 31
  }

  /** What `datetime.date(y, m, d)` accepts (MINYEAR is 1, MAXYEAR 9999). */
  predicate ValidDate(d: Date)
  {
    1 <= d.year <= 9999 && 1 <= d.month <= 12 && 1 <= d.day <= DaysInMonth(d.year, d.month)
  }

  // ---------------------------------------------------------------------
  // Tokens
  // ---------------------------------------------------------------------

  /** The first `\s` at or after `i`, or the end. */
  function SpaceFrom(s: string, i: nat): (r: nat)
    requires i <= |s|
    ensures i <= r <= |s|
    ensures forall j :: i <= j < r ==> !IsAsciiSpace(s[j])
    ensures r < |s| ==> IsAsciiSpace(s[r])
    decreases |s| - i
  {
    if i == |s| || IsAsciiSpace(s[i]) then i else SpaceFrom(s, i + 1)
  }

  /** The end of the run of `\s` that starts at `i`. */
  function SpaceRunEnd(s: string, i: nat): (r: nat)
    requires i <= |s|
    ensures i <= r <= |s|
    ensures forall j :: i <= j < r ==> IsAsciiSpace(s[j])
    ensures r < |s| ==> !IsAsciiSpace(s[r])
    decreases |s| - i
  {
    if i == |s| || !IsAsciiSpace(s[i]) then i else SpaceRunEnd(s, i + 1)
  }

  /** The text before the first `\s` of `s`, and the text after the run of
      `\s` that follows it; None when `s` holds no `\s`. */
  function NextToken(s: string): (r: Option<(string, string)>)
    ensures r.Some? ==> |r.value.0| + |r.value.1| < |s|
  {
    var a := SpaceFrom(s, 0);
    if a == |s| then None else Some((s[..a], s[SpaceRunEnd(s, a)..]))
  }

  /** `strptime(s, "%B %d %Y")`; None is the ValueError it raises. The
      compiled format is `(%B)\s+(%d)\s+(%Y)`, matched at the start of `s`
      and required to reach its end; the date must then exist. */
  function Strptime(s: string): (r: Option<Date>)
    ensures r.Some? ==> ValidDate(r.value)
  {
    match NextToken(s)
    case None => None
    case Some((mt, rest)) =>
      match NextToken(rest)
      case None => None
      case Some((dt, yt)) =>
        var month := MonthFrom(LowerAll(mt), 0);
        var day := DayOf(dt);
        var year := YearOf(yt);
        if month.Some? && day.Some? && year.Some? && ValidDate(Date(year.value, month.value, day.value))
        then Some(Date(year.value, month.value, day.value))
        else None
  }

  /** `str(datetime)` at midnight: `YYYY-MM-DD 00:00:00`. */
  function IsoText(d: Date): (r: string)
    ensures |r| == 19
  {
    ZeroPad(d.year, 4) + "-" + ZeroPad(d.month, 2) + "-" + ZeroPad(d.day, 2) + " 00:00:00"
  }

  // ---------------------------------------------------------------------
  // Properties
  // ---------------------------------------------------------------------

  /** The text of a valid date reads back as that date: year, month and day
      are the zero-padded fields, with the time at midnight. */
  lemma IsoTextFields(d: Date)
    requires ValidDate(d)
    ensures var r := IsoText(d);
      r[4] == '-' && r[7] == '-' && r[10..] == " 00:00:00"
      && AllDigits(r[..4]) && AllDigits(r[5..7]) && AllDigits(r[8..10])
      && DigitsValue(r[..4]) == d.year && DigitsValue(r[5..7]) == d.month && DigitsValue(r[8..10]) == d.day
  {
    var r := IsoText(d);
    var y, m, dd := ZeroPad(d.year, 4), ZeroPad(d.month, 2), ZeroPad(d.day, 2);
    assert r[..4] == y && r[5..7] == m && r[8..10] == dd;
    ZeroPadValue(d.year, 4);
    ZeroPadValue(d.month, 2);
    ZeroPadValue(d.day, 2);
  }

  lemma MonthNamesLower(k: nat)
    requires k < 12
    ensures |MonthNames[k]| >= 3
    ensures forall i :: 0 <= i < |MonthNames[k]| ==> 'a' <= MonthNames[k][i] <= 'z'
  {
  }

  /** No two month names are the same. */
  lemma MonthNamesDistinct()
    ensures forall j, k :: 0 <= j < k < 12 ==> MonthNames[j] != MonthNames[k]
  {
  }

  /** A month name stands for its own month. */
  lemma MonthFromName(m: nat)
    requires 1 <= m <= 12
    ensures MonthFrom(MonthNames[m - 1], 0) == Some(m)
  {
    MonthNamesDistinct();
    MonthFromFirst(MonthNames[m - 1], 0, m);
  }

  /** The search stops at the first month whose name is `t`. */
  lemma {:induction false} MonthFromFirst(t: string, k: nat, m: nat)
    requires k < m <= 12 && t == MonthNames[m - 1]
    requires forall j :: k <= j < m - 1 ==> MonthNames[j] != t
    ensures MonthFrom(t, k) == Some(m)
    decreases 12 - k
  {
    if k < m - 1 {
      MonthFromFirst(t, k + 1, m);
    }
  }

  /** A month the search finds comes after `k` and bears the name `t`. */
  lemma {:induction false} MonthFromSound(t: string, k: nat)
    requires k <= 12
    ensures MonthFrom(t, k).Some? ==> k < MonthFrom(t, k).value <= 12 && t == MonthNames[MonthFrom(t, k).value - 1]
    decreases 12 - k
  {
    if k < 12 && t != MonthNames[k] {
      MonthFromSound(t, k + 1);
    }
  }

  predicate IsAsciiLetter(c: char)
  {
    'A' <= c <= 'Z' || 'a' <= c <= 'z'
  }

  /** A token that folds to a lower-case word is made of letters. */
  lemma LetterToken(t: string, name: string)
    requires LowerAll(t) == name
    requires forall i :: 0 <= i < |name| ==> 'a' <= name[i] <= 'z'
    ensures forall i :: 0 <= i < |t| ==> IsAsciiLetter(t[i])
  {
    forall i | 0 <= i < |t| ensures IsAsciiLetter(t[i]) {
      var c := t[i];
      assert Lower(c) == name[i];
      if !('A' <= c <= 'Z') {
        assert c == name[i];
      }
    }
  }

  /** A token without `\s`, one space and a text that does not start with
      `\s` come apart as that token and that text. */
  lemma NextTokenOf(tok: string, rest: string)
    requires forall i :: 0 <= i < |tok| ==> !IsAsciiSpace(tok[i])
    requires rest == [] || !IsAsciiSpace(rest[0])
    ensures NextToken(tok + " " + rest) == Some((tok, rest))
  {
    var s := tok + " " + rest;
    assert forall i :: 0 <= i < |tok| ==> s[i] == tok[i];
    assert s[|tok|] == ' ';
    assert |tok| + 1 < |s| ==> s[|tok| + 1] == rest[0];
    assert s[..|tok|] == tok && s[|tok| + 1..] == rest;
  }

  /** Every `%B %d %Y` text of a valid date parses to that date, whatever
      the case of the month name and whether the day is zero padded. */
  lemma StrptimeComplete(mt: string, dt: string, d: Date)
    requires ValidDate(d)
    requires LowerAll(mt) == MonthNames[d.month - 1]
    requires DayOf(dt) == Some(d.day)
    ensures Strptime(mt + " " + dt + " " + ZeroPad(d.year, 4)) == Some(d)
  {
    var yt := ZeroPad(d.year, 4);
    MonthFromName(d.month);
    MonthNamesLower(d.month - 1);
    LetterTokenNoSpace(mt, MonthNames[d.month - 1]);
    ZeroPadValue(d.year, 4);
    var rest := dt + " " + yt;
    assert mt + " " + dt + " " + yt == mt + " " + rest;
    NextTokenOf(dt, yt);
    NextTokenOf(mt, rest);
    StrptimeOf(mt + " " + rest, mt, rest, dt, yt, d);
  }

  /** A token that folds to a lower-case word holds no `\s`. */
  lemma LetterTokenNoSpace(t: string, name: string)
    requires LowerAll(t) == name
    requires forall i :: 0 <= i < |name| ==> 'a' <= name[i] <= 'z'
    ensures forall i :: 0 <= i < |t| ==> !IsAsciiSpace(t[i])
  {
    LetterToken(t, name);
    forall i | 0 <= i < |t| ensures !IsAsciiSpace(t[i]) {
      assert IsAsciiLetter(t[i]);
    }
  }

  /** `Strptime` from the two token splits and the three field values. */
  lemma StrptimeOf(s: string, mt: string, rest: string, dt: string, yt: string, d: Date)
    requires NextToken(s) == Some((mt, rest)) && NextToken(rest) == Some((dt, yt))
    requires MonthFrom(LowerAll(mt), 0) == Some(d.month) && DayOf(dt) == Some(d.day)
    requires YearOf(yt) == Some(d.year) && ValidDate(d)
    ensures Strptime(s) == Some(d)
  {
  }

  /** A run of `\s` as a slice of its own. */
  lemma SpaceRunSlice(s: string, i: nat, j: nat)
    requires i <= j <= |s| && forall k :: i <= k < j ==> IsAsciiSpace(s[k])
    ensures forall k :: 0 <= k < |s[i..j]| ==> IsAsciiSpace(s[i..j][k])
  {
    forall k | 0 <= k < |s[i..j]| ensures IsAsciiSpace(s[i..j][k]) {
      assert s[i..j][k] == s[i + k];
    }
  }

  /** What `NextToken` splits off: the token, a run of `\s`, the rest. */
  lemma NextTokenSound(s: string) returns (sp: string)
    requires NextToken(s).Some?
    ensures s == NextToken(s).value.0 + sp + NextToken(s).value.1
    ensures sp != [] && forall i :: 0 <= i < |sp| ==> IsAsciiSpace(sp[i])
  {
    var a := SpaceFrom(s, 0);
    var b := SpaceRunEnd(s, a);
    sp := s[a..b];
    assert s == s[..a] + s[a..b] + s[b..];
    SpaceRunSlice(s, a, b);
  }

  /** Conversely, every date `Strptime` returns was written as a month name,
      `\s+`, a day token, `\s+` and four year digits, and nothing else. */
  lemma StrptimeSound(s: string, d: Date) returns (mt: string, sp1: string, dt: string, sp2: string, yt: string)
    requires Strptime(s) == Some(d)
    ensures s == mt + sp1 + dt + sp2 + yt
    ensures LowerAll(mt) == MonthNames[d.month - 1]
    ensures sp1 != [] && sp2 != [] && (forall i :: 0 <= i < |sp1| ==> IsAsciiSpace(sp1[i])) && (forall i :: 0 <= i < |sp2| ==> IsAsciiSpace(sp2[i]))
    ensures DayOf(dt) == Some(d.day) && YearOf(yt) == Some(d.year)
  {
    var rest;
    mt, rest, dt, yt := StrptimeParts(s, d);
    MonthOf(LowerAll(mt), d.month);
    sp1 := NextTokenSound(s);
    sp2 := NextTokenSound(rest);
    assert s == mt + sp1 + (dt + sp2 + yt);
  }

  /** The two token splits and the three fields behind a parsed date. */
  lemma StrptimeParts(s: string, d: Date) returns (mt: string, rest: string, dt: string, yt: string)
    requires Strptime(s) == Some(d)
    ensures NextToken(s) == Some((mt, rest)) && NextToken(rest) == Some((dt, yt))
    ensures MonthFrom(LowerAll(mt), 0) == Some(d.month) && DayOf(dt) == Some(d.day) && YearOf(yt) == Some(d.year)
  {
    mt, rest := NextToken(s).value.0, NextToken(s).value.1;
    dt, yt := NextToken(rest).value.0, NextToken(rest).value.1;
  }

  /** The month the search finds for `t` is named `t`. */
  lemma MonthOf(t: string, m: nat)
    requires MonthFrom(t, 0) == Some(m)
    ensures 1 <= m <= 12 && t == MonthNames[m - 1]
  {
    MonthFromSound(t, 0);
  }
}
