/** The jsonifier stage of the KCNA collector: every queued HTML article
    is reduced to its plain text, cut into date, Juche year, title and
    paragraphs, written as one JSON record into the DB importer's inbox,
    and archived when that succeeded. */
module Jsonifier {
  import opened PyStr
  import opened PyDate
  import opened Archive

  // ---------------------------------------------------------------------
  // re_parse: ^.*>> (.* \d\d\d\d) Juche ([0-9]+)(.*)$  (DOTALL)
  // ---------------------------------------------------------------------

  /** `>> ` at `p`. */
  predicate MarkerAt(s: string, p: nat)
  {
    p + 3 <= |s| && s[p] == '>' && s[p + 1] == '>' && s[p + 2] == ' '
  }

  /** ` dddd Juche d` at `q`: the end of the date group, the epoch word and
      the first digit of the Juche year. */
  predicate JucheAt(s: string, q: nat)
  {
    q + 13 <= |s| && s[q] == ' ' && IsDigit(s[q + 1]) && IsDigit(s[q + 2]) && IsDigit(s[q + 3]) && IsDigit(s[q + 4])
    && s[q + 5] == ' ' && s[q + 6] == 'J' && s[q + 7] == 'u' && s[q + 8] == 'c' && s[q + 9] == 'h' && s[q + 10] == 'e'
    && s[q + 11] == ' ' && IsDigit(s[q + 12])
  }

  /** The end of the run of digits that starts at `i`: greedy `[0-9]+`. */
  function DigitRunEnd(s: string, i: nat): (j: nat)
    requires i <= |s|
    ensures i <= j <= |s|
    ensures forall k :: i <= k < j ==> IsDigit(s[k])
    ensures j < |s| ==> !IsDigit(s[j])
    decreases |s| - i
  {
    if i < |s| && IsDigit(s[i]) then DigitRunEnd(s, i + 1) else i
  }

  /** The last ` dddd Juche d` that starts below `hi`. */
  function LastJuche(s: string, hi: nat): (r: Option<nat>)
    ensures r.Some? ==> r.value < hi && JucheAt(s, r.value) && forall j: nat :: r.value < j < hi ==> !JucheAt(s, j)
    ensures r.None? ==> forall j: nat :: j < hi ==> !JucheAt(s, j)
  {
    if hi == 0 then None else if JucheAt(s, hi - 1) then Some(hi - 1) else LastJuche(s, hi - 1)
  }

  /** The last `>> ` that starts below `hi`. */
  function LastMarker(s: string, hi: nat): (r: Option<nat>)
    ensures r.Some? ==> r.value < hi && MarkerAt(s, r.value) && forall j: nat :: r.value < j < hi ==> !MarkerAt(s, j)
    ensures r.None? ==> forall j: nat :: j < hi ==> !MarkerAt(s, j)
  {
    if hi == 0 then None else if MarkerAt(s, hi - 1) then Some(hi - 1) else LastMarker(s, hi - 1)
  }

  /** The three groups of `re_parse`. */
  datatype Byline = Byline(date: string, juche: string, article: string)

  /** `re_parse.search(html_text)`. A greedy `.*` in front of a piece ends
      at the last place where the rest of the pattern can still follow. So
      the date, whose own `.*` is greedy, ends at the last ` dddd Juche d`
      of the whole text, and the leading `.*` makes the marker the last
      `>> ` before that date. */
  function ParseText(s: string): (r: Option<Byline>)
    ensures r.Some? ==> |r.value.juche| >= 1 && AllDigits(r.value.juche)
  {
    match LastJuche(s, |s|)
    case None => None
    case Some(q) =>
      match LastMarker(s, if q < 3 then 0 else q - 2)
      case None => None
      case Some(p) =>
        var e := DigitRunEnd(s, q + 12);
        AllDigitsSlice(s, q + 12, e);
        Some(Byline(s[p + 3..q + 5], s[q + 12..e], s[e..]))
  }

  /** A date group ends in a space and four digits. */
  predicate DateGroup(date: string)
  {
    |date| >= 5 && date[|date| - 5] == ' ' && AllDigits(date[|date| - 4..])
  }

  /** The texts that `re_parse` accepts. */
  predicate BylineText(s: string, pre: string, date: string, juche: string, article: string)
  {
    s == pre + ">> " + date + " Juche " + juche + article
    && DateGroup(date) && |juche| >= 1 && AllDigits(juche)
  }

  /** Where the pieces of a byline text sit. */
  lemma BylinePositions(s: string, pre: string, date: string, juche: string, article: string)
    requires BylineText(s, pre, date, juche, article)
    ensures MarkerAt(s, |pre|) && JucheAt(s, |pre| + |date| - 2)
  {
    var p := |pre|;
    var x := pre + ">> " + date;
    var q := |x| - 5;
    assert s == x + " Juche " + juche + article;
    assert s[..|x|] == x;
    assert s[p] == '>' && s[p + 1] == '>' && s[p + 2] == ' ' by {
      assert x[p] == '>' && x[p + 1] == '>' && x[p + 2] == ' ';
    }
    var n := |date|;
    assert IsDigit(date[n - 4]) && IsDigit(date[n - 3]) && IsDigit(date[n - 2]) && IsDigit(date[n - 1]) by {
      assert date[n - 4..][0] == date[n - 4] && date[n - 4..][3] == date[n - 1];
      assert date[n - 4..][1] == date[n - 3] && date[n - 4..][2] == date[n - 2];
    }
    assert x[q] == date[n - 5] && x[q + 1] == date[n - 4] && x[q + 2] == date[n - 3];
    assert x[q + 3] == date[n - 2] && x[q + 4] == date[n - 1];
    var t := " Juche " + juche + article;
    assert s[|x|..] == t;
    assert t[0] == ' ' && t[1] == 'J' && t[2] == 'u' && t[3] == 'c' && t[4] == 'h' && t[5] == 'e' && t[6] == ' ';
    assert t[7] == juche[0];
  }

  /** Every text of the accepted form parses: the pattern is not stricter
      than `>> <… dddd> Juche <digits><rest>`. */
  lemma ParseTextComplete(s: string, pre: string, date: string, juche: string, article: string)
    requires BylineText(s, pre, date, juche, article)
    ensures ParseText(s).Some?
  {
    BylinePositions(s, pre, date, juche, article);
    var q := LastJuche(s, |s|);
    assert q.Some? && q.value >= |pre| + |date| - 2;
    assert |pre| < q.value - 2;
  }

  /** The three pieces after the chosen marker and Juche positions. */
  lemma BylinePieces(s: string, p: nat, q: nat, e: nat)
    requires MarkerAt(s, p) && JucheAt(s, q) && p + 3 <= q && q + 12 <= e <= |s|
    ensures s == s[..p] + ">> " + s[p + 3..q + 5] + " Juche " + s[q + 12..e] + s[e..]
    ensures DateGroup(s[p + 3..q + 5])
  {
    var date := s[p + 3..q + 5];
    assert s[p..p + 3] == ">> ";
    assert s[q + 5..q + 12] == " Juche ";
    assert s[..p + 3] == s[..p] + ">> " by { assert s[..p + 3] == s[..p] + s[p..p + 3]; }
    assert s[..q + 5] == s[..p + 3] + date;
    assert s[..q + 12] == s[..q + 5] + " Juche " by { assert s[..q + 12] == s[..q + 5] + s[q + 5..q + 12]; }
    assert s[..e] == s[..q + 12] + s[q + 12..e];
    assert s == s[..e] + s[e..];
    var year := date[|date| - 4..];
    forall i | 0 <= i < 4 ensures IsDigit(year[i]) {
      assert year[i] == s[q + 1 + i];
    }
  }

  /** What `ParseText` returns is a decomposition of the accepted form, and
      the greedy one: the `>> ` is the last one that still leaves room for
      the date group, no ` dddd Juche d` starts after the date group, and
      the Juche year takes every digit after ` Juche `. */
  lemma ParseTextSound(s: string, b: Byline) returns (pre: string)
    requires ParseText(s) == Some(b)
    ensures BylineText(s, pre, b.date, b.juche, b.article)
    ensures forall j: nat :: |pre| < j && j + 3 <= |pre| + |b.date| - 2 ==> !MarkerAt(s, j)
    ensures forall q: nat :: |pre| + |b.date| - 2 < q ==> !JucheAt(s, q)
    ensures b.article == [] || !IsDigit(b.article[0])
  {
    var q := LastJuche(s, |s|).value;
    var p := LastMarker(s, q - 2).value;
    var e := DigitRunEnd(s, q + 12);
    BylinePieces(s, p, q, e);
    pre := s[..p];
    assert b == Byline(s[p + 3..q + 5], s[q + 12..e], s[e..]);
    assert |pre| + |b.date| - 2 == q;
  }

  // ---------------------------------------------------------------------
  // The article lines
  // ---------------------------------------------------------------------

  /** The stripped, non-empty lines, in order. */
  function StrippedLines(lines: seq<string>): seq<string>
  {
    if lines == [] then []
    else
      var init := StrippedLines(lines[..|lines| - 1]);
      var t := Strip(lines[|lines| - 1]);
      if t != [] then init + [t] else init
  }

  /** Each line is handled on its own, in order. */
  lemma {:induction false} StrippedLinesAppend(a: seq<string>, b: seq<string>)
    ensures StrippedLines(a + b) == StrippedLines(a) + StrippedLines(b)
    decreases |b|
  {
    if b != [] {
      var b' := b[..|b| - 1];
      assert (a + b)[..|a + b| - 1] == a + b';
      StrippedLinesAppend(a, b');
    } else {
      assert a + b == a;
    }
  }

  /** One line gives its stripped text, unless that is empty. */
  lemma StrippedLinesSingle(line: string)
    ensures StrippedLines([line]) == if Strip(line) != [] then [Strip(line)] else []
  {
    assert [line][..0] == [];
  }

  /** Every kept line is non-empty and already stripped. */
  lemma {:induction false} StrippedLinesShape(lines: seq<string>)
    ensures |StrippedLines(lines)| <= |lines|
    ensures forall k :: 0 <= k < |StrippedLines(lines)| ==>
      StrippedLines(lines)[k] != [] && Strip(StrippedLines(lines)[k]) == StrippedLines(lines)[k]
  {
    if lines != [] {
      StrippedLinesShape(lines[..|lines| - 1]);
      StripIdempotent(lines[|lines| - 1]);
    }
  }

  /** One more line keeps its stripped text, unless that is empty. */
  lemma StrippedLinesStep(all: seq<string>, i: nat)
    requires i < |all|
    ensures StrippedLines(all[..i + 1]) == StrippedLines(all[..i]) + (if Strip(all[i]) != [] then [Strip(all[i])] else [])
  {
    assert all[..i + 1][..i] == all[..i];
  }

  /** The loop that builds `article_text`: each line of the article part,
      stripped, is appended unless it is empty. */
  method ArticleLines(article: string) returns (lines: seq<string>)
    ensures lines == StrippedLines(SplitLines(article))
  {
    var all := SplitLines(article);
    lines := [];
    var i := 0;
    while i < |all|
      invariant i <= |all|
      invariant lines == StrippedLines(all[..i])
    {
      StrippedLinesStep(all, i);
      var line := Strip(all[i]);
      if line != [] {
        lines := lines + [line];
      }
      i := i + 1;
    }
    assert all[..i] == all;
  }

  // ---------------------------------------------------------------------
  // _pp_article's pattern: ^(.*),.*\((.*)\) -- (.*)$
  // ---------------------------------------------------------------------

  /** `) -- ` at `k`. */
  predicate CloseAt(t: string, k: nat)
  {
    k + 5 <= |t| && t[k] == ')' && t[k + 1] == ' ' && t[k + 2] == '-' && t[k + 3] == '-' && t[k + 4] == ' '
  }

  /** The last `) -- ` that starts below `hi`. */
  function LastClose(t: string, hi: nat): (r: Option<nat>)
    ensures r.Some? ==> r.value < hi && CloseAt(t, r.value) && forall j: nat :: r.value < j < hi ==> !CloseAt(t, j)
    ensures r.None? ==> forall j: nat :: j < hi ==> !CloseAt(t, j)
  {
    if hi == 0 then None else if CloseAt(t, hi - 1) then Some(hi - 1) else LastClose(t, hi - 1)
  }

  /** The groups of the first-paragraph pattern. */
  datatype Dateline = Dateline(location: string, service: string, rest: string)

  /** `$` may stand before one final newline, which is then not part of
      the match. */
  function WithoutFinalNewline(s: string): (t: string)
    ensures t == s || (s == t + "\n")
  {
    if |s| > 0 && s[|s| - 1] == '\n' then s[..|s| - 1] else s
  }

  /** `re.search(...)` on the first paragraph. Without DOTALL every `.`
      refuses a newline, so the matched text holds none. The three greedy
      stars make `) -- ` the last one, `(` the last one before it and `,`
      the last one before that `(`. */
  function ParseDateline(s: string): (r: Option<Dateline>)
  {
    var t := WithoutFinalNewline(s);
    if '\n' in t then None
    else
      match LastClose(t, |t|)
      case None => None
      case Some(k) =>
        match LastCharBefore(t, '(', k)
        case None => None
        case Some(o) =>
          match LastCharBefore(t, ',', o)
          case None => None
          case Some(c) => Some(Dateline(t[..c], t[o + 1..k], t[k + 5..]))
  }

  /** The paragraphs the pattern accepts. */
  predicate DatelineText(t: string, location: string, mid: string, service: string, rest: string)
  {
    t == location + "," + mid + "(" + service + ") -- " + rest && '\n' !in t
  }

  /** The pieces of the paragraph around the three chosen positions. */
  lemma DatelinePieces(t: string, c: nat, o: nat, k: nat)
    requires c < o < k && CloseAt(t, k) && t[o] == '(' && t[c] == ','
    ensures t == t[..c] + "," + t[c + 1..o] + "(" + t[o + 1..k] + ") -- " + t[k + 5..]
  {
    assert t[..c + 1] == t[..c] + "," by { assert t[..c + 1] == t[..c] + t[c..c + 1]; }
    assert t[..o] == t[..c + 1] + t[c + 1..o];
    assert t[..o + 1] == t[..o] + "(" by { assert t[..o + 1] == t[..o] + t[o..o + 1]; }
    assert t[..k] == t[..o + 1] + t[o + 1..k];
    assert t[..k + 5] == t[..k] + ") -- " by { assert t[..k + 5] == t[..k] + t[k..k + 5]; }
    assert t == t[..k + 5] + t[k + 5..];
  }

  /** What `ParseDateline` returns is a decomposition of the accepted form,
      and the greedy one: the service holds no `(`, the text between the
      comma and the `(` holds no comma and the rest holds no `) -- `. */
  lemma ParseDatelineSound(s: string, d: Dateline) returns (mid: string)
    requires ParseDateline(s) == Some(d)
    ensures DatelineText(WithoutFinalNewline(s), d.location, mid, d.service, d.rest)
    ensures ',' !in mid && '(' !in d.service
    ensures forall i: nat :: !CloseAt(d.rest, i)
  {
    var t := WithoutFinalNewline(s);
    var k := LastClose(t, |t|).value;
    var o := LastCharBefore(t, '(', k).value;
    var c := LastCharBefore(t, ',', o).value;
    assert d == Dateline(t[..c], t[o + 1..k], t[k + 5..]);
    DatelinePieces(t, c, o, k);
    mid := t[c + 1..o];
    NoCharBetween(t, ',', c, o);
    NoCharBetween(t, '(', o, k);
    NoCloseAfter(t, k, d.rest);
  }

  /** A slice strictly between the last `ch` below `hi` and `hi` holds no `ch`. */
  lemma NoCharBetween(t: string, ch: char, lo: nat, hi: nat)
    requires lo < hi <= |t| && forall j :: lo < j < hi ==> t[j] != ch
    ensures ch !in t[lo + 1..hi]
  {
    var m := t[lo + 1..hi];
    forall i | 0 <= i < |m| ensures m[i] != ch {
      assert m[i] == t[lo + 1 + i];
    }
  }

  /** After the last `) -- ` no further one starts. */
  lemma NoCloseAfter(t: string, k: nat, rest: string)
    requires k + 5 <= |t| && rest == t[k + 5..] && forall j: nat :: k < j < |t| ==> !CloseAt(t, j)
    ensures forall i: nat :: !CloseAt(rest, i)
  {
    forall i: nat ensures !CloseAt(rest, i) {
      if i + 5 <= |rest| {
        assert !CloseAt(t, k + 5 + i);
        assert rest[i..i + 5] == t[k + 5 + i..k + 10 + i];
      }
    }
  }

  /** Where the pieces of a dateline sit. */
  lemma DatelinePositions(t: string, location: string, mid: string, service: string, rest: string)
    requires DatelineText(t, location, mid, service, rest)
    ensures |location| < |location| + 1 + |mid| < |location| + 2 + |mid| + |service|
    ensures t[|location|] == ',' && t[|location| + 1 + |mid|] == '('
    ensures CloseAt(t, |location| + 2 + |mid| + |service|)
    ensures t[..|location|] == location && t[|location| + 2 + |mid|..|location| + 2 + |mid| + |service|] == service
    ensures t[|location| + 1..|location| + 1 + |mid|] == mid
    ensures t[|location| + 7 + |mid| + |service|..] == rest
  {
    var k := |location| + 2 + |mid| + |service|;
    assert t[|location|] == ',';
    assert t[|location| + 1 + |mid|] == '(';
    assert t[k..k + 5] == ") -- ";
  }

  /** Every paragraph of the accepted form parses: the pattern is not
      stricter than `<loc>,<any>(<svc>) -- <rest>` on one line. */
  lemma ParseDatelineComplete(s: string, location: string, mid: string, service: string, rest: string)
    requires DatelineText(WithoutFinalNewline(s), location, mid, service, rest)
    ensures ParseDateline(s).Some?
  {
    var t := WithoutFinalNewline(s);
    DatelinePositions(t, location, mid, service, rest);
    var k := LastClose(t, |t|).value;
    var o := LastCharBefore(t, '(', k);
    assert o.Some?;
    assert LastCharBefore(t, ',', o.value).Some?;
  }

  /** The pieces come back exactly when the greedy choices are forced: no
      comma between the comma and the `(`, no `(` in the service and no
      `) -- ` in the rest. The location may hold anything. */
  lemma ParseDatelineExact(t: string, location: string, mid: string, service: string, rest: string)
    requires DatelineText(t, location, mid, service, rest)
    requires ',' !in mid && '(' !in service && forall i: nat :: !CloseAt(rest, i)
    ensures ParseDateline(t) == Some(Dateline(location, service, rest))
  {
    assert WithoutFinalNewline(t) == t by {
      if |t| > 0 {
        assert t[|t| - 1] != '\n';
      }
    }
    DatelinePositions(t, location, mid, service, rest);
    ParseDatelineAt(t, |location|, |location| + 1 + |mid|, |location| + 2 + |mid| + |service|, mid, service, rest);
  }

  /** The positions of the three markers decide the parse. */
  lemma ParseDatelineAt(t: string, c0: nat, o0: nat, k0: nat, mid: string, service: string, rest: string)
    requires c0 < o0 < k0 && CloseAt(t, k0) && '\n' !in t && WithoutFinalNewline(t) == t
    requires t[c0] == ',' && t[o0] == '('
    requires t[c0 + 1..o0] == mid && t[o0 + 1..k0] == service && t[k0 + 5..] == rest
    requires ',' !in mid && '(' !in service && forall i: nat :: !CloseAt(rest, i)
    ensures ParseDateline(t) == Some(Dateline(t[..c0], service, rest))
  {
    LastCloseIs(t, k0, rest);
    LastCharIs(t, '(', o0, k0, service);
    LastCharIs(t, ',', c0, o0, mid);
  }

  /** A `) -- ` followed by text without one is the last one. */
  lemma LastCloseIs(t: string, k0: nat, rest: string)
    requires CloseAt(t, k0) && t[k0 + 5..] == rest && forall i: nat :: !CloseAt(rest, i)
    ensures LastClose(t, |t|) == Some(k0)
  {
    forall k: nat | k0 < k < |t| ensures !CloseAt(t, k) {
      if k < k0 + 5 {
        assert t[k] != ')';
      } else {
        CloseAtShift(t, k0 + 5, rest, k - k0 - 5);
      }
    }
  }

  /** A `) -- ` in a suffix is one in the whole text, shifted. */
  lemma CloseAtShift(t: string, d: nat, rest: string, i: nat)
    requires d <= |t| && rest == t[d..]
    ensures CloseAt(rest, i) <==> CloseAt(t, d + i)
  {
    if i + 5 <= |rest| {
      assert rest[i] == t[d + i] && rest[i + 1] == t[d + i + 1] && rest[i + 2] == t[d + i + 2];
      assert rest[i + 3] == t[d + i + 3] && rest[i + 4] == t[d + i + 4];
    }
  }

  /** A character followed, up to `hi`, by text without it is the last one
      below `hi`. */
  lemma LastCharIs(t: string, ch: char, lo: nat, hi: nat, piece: string)
    requires lo < hi <= |t| && t[lo] == ch && t[lo + 1..hi] == piece && ch !in piece
    ensures LastCharBefore(t, ch, hi) == Some(lo)
  {
    forall j | lo < j < hi ensures t[j] != ch {
      assert t[j] == piece[j - lo - 1];
    }
  }

  // ---------------------------------------------------------------------
  // _get_link_url
  // ---------------------------------------------------------------------

  const KcnaUrlRoot := "http://www.kcna.co.jp"

  /** `.*$` without DOTALL: no newline, except one at the very end. */
  predicate LineTail(t: string)
  {
    forall i :: 0 <= i < |t| - 1 ==> t[i] != '\n'
  }

  /** `_get_link_url(html_filename)`; None is the AttributeError that
      `reg.groups()` raises when the name does not start with eight
      digits. */
  function LinkUrl(name: string): (r: Option<string>)
    ensures r.Some? <==> 8 <= |name| && AllDigits(name[..8]) && LineTail(name[8..])
  {
    if 8 <= |name| && AllDigits(name[..8]) && LineTail(name[8..]) then
      var year, month, day := name[..4], name[4..6], name[6..8];
      Some(Join("/", [KcnaUrlRoot, "item", year, year + month, "news" + day, name]))
    else None
  }

  /** The link is the site root, `/`, and a path whose segments give back
      the date of the file name and the name itself:
      `item/YYYY/YYYYMM/newsDD/<name>`. */
  lemma LinkUrlSegments(name: string, u: string) returns (path: string)
    requires LinkUrl(name) == Some(u) && '/' !in name
    ensures u == KcnaUrlRoot + "/" + path
    ensures Split(path, '/') == ["item", name[..4], name[..6], "news" + name[6..8], name]
  {
    var digits := name[..8];
    var year, month, day := name[..4], name[4..6], name[6..8];
    assert year == digits[..4] && year + month == digits[..6] && day == digits[6..8];
    assert year + month == name[..6];
    AllDigitsSub(digits, 0, 4);
    AllDigitsSub(digits, 0, 6);
    AllDigitsSub(digits, 6, 8);
    DigitsNoSlash(year);
    DigitsNoSlash(year + month);
    DigitsNoSlash(day);
    assert '/' !in "news" + day by {
      assert forall i :: 0 <= i < 4 ==> ("news" + day)[i] != '/';
    }
    var tail := ["item", year, year + month, "news" + day, name];
    assert '/' !in "item";
    assert forall k :: 0 <= k < |tail| ==> '/' !in tail[k];
    path := Join("/", tail);
    assert [KcnaUrlRoot, "item", year, year + month, "news" + day, name][1..] == tail;
    SplitJoin(tail, '/');
  }

  // ---------------------------------------------------------------------
  // _pp_date
  // ---------------------------------------------------------------------

  /** The text `_pp_date` hands to `strptime`: every `Juche`, then every
      `.`, removed, and the result stripped. */
  function CleanDate(date: string): (r: string)
    ensures |r| <= |date|
  {
    Strip(ReplaceWithEmpty(ReplaceWithEmpty(date, "Juche"), "."))
  }

  /** `_pp_date(date)`: the cleaned text parsed with `%B %d %Y` and the
      datetime printed. None is the ValueError of `strptime`. */
  function PpDate(date: string): (r: Option<string>)
    ensures r.Some? ==> |r.value| == 19
  {
    match Strptime(CleanDate(date))
    case None => None
    case Some(d) => Some(IsoText(d))
  }

  /** The cleaned text holds no `.`; on a text with neither dots nor
      `Juche` only the stripping is left. */
  lemma CleanDateOf(date: string)
    ensures '.' !in ReplaceWithEmpty(ReplaceWithEmpty(date, "Juche"), ".")
    ensures '.' !in date && (forall i: nat :: !Occurs(date, "Juche", i)) ==> CleanDate(date) == Strip(date)
  {
    ReplaceCharRemovesAll(ReplaceWithEmpty(date, "Juche"), '.');
    if '.' !in date && (forall i: nat :: !Occurs(date, "Juche", i)) {
      ReplaceAbsent(date, "Juche");
      forall i: nat ensures !Occurs(date, ".", i) {
        if i + 1 <= |date| {
          assert date[i..i + 1] == [date[i]];
        }
      }
      ReplaceAbsent(date, ".");
    }
  }

  /** Past the month name, a date text holds only spaces and digits. */
  lemma DateTextChars(mt: string, dt: string, yt: string)
    requires AllDigits(dt) && AllDigits(yt)
    ensures var s := mt + " " + dt + " " + yt;
      (forall j :: 0 <= j < |mt| ==> s[j] == mt[j]) && forall j :: |mt| <= j < |s| ==> s[j] == ' ' || IsDigit(s[j])
  {
    var s := mt + " " + dt + " " + yt;
    forall j | |mt| <= j < |s| ensures s[j] == ' ' || IsDigit(s[j]) {
      if |mt| < j <= |mt| + |dt| {
        assert s[j] == dt[j - |mt| - 1];
      } else if j > |mt| + |dt| + 1 {
        assert s[j] == yt[j - |mt| - |dt| - 2];
      }
    }
  }

  /** A text made of a word of letters followed by spaces and digits holds
      neither `.` nor `Juche`, unless the word does. */
  lemma DateTextClean(mt: string, s: string)
    requires |mt| <= |s| && forall j :: 0 <= j < |mt| ==> s[j] == mt[j] && IsAsciiLetter(mt[j])
    requires forall j :: |mt| <= j < |s| ==> s[j] == ' ' || IsDigit(s[j])
    requires forall i: nat :: !Occurs(mt, "Juche", i)
    ensures '.' !in s && forall i: nat :: !Occurs(s, "Juche", i)
  {
    forall j | 0 <= j < |s| ensures s[j] != '.' {
      if j < |mt| {
        assert IsAsciiLetter(mt[j]);
      }
    }
    forall i: nat ensures !Occurs(s, "Juche", i) {
      if i + 5 <= |s| {
        if i + 5 <= |mt| {
          assert s[i..i + 5] == mt[i..i + 5];
          assert !Occurs(mt, "Juche", i);
        } else {
          assert s[i + 4] != 'e';
          assert s[i..i + 5][4] == s[i + 4];
        }
      }
    }
  }

  /** A word of letters, a space, digits, a space and four digits is left
      as it is by the cleaning, unless the word holds `Juche`. */
  lemma DateTextIsClean(mt: string, dt: string, yt: string)
    requires mt != [] && forall i :: 0 <= i < |mt| ==> IsAsciiLetter(mt[i])
    requires forall i: nat :: !Occurs(mt, "Juche", i)
    requires AllDigits(dt) && AllDigits(yt) && |yt| == 4
    ensures CleanDate(mt + " " + dt + " " + yt) == mt + " " + dt + " " + yt
  {
    var s := mt + " " + dt + " " + yt;
    DateTextChars(mt, dt, yt);
    DateTextClean(mt, s);
    CleanDateOf(s);
    assert s[0] == mt[0] && s[|s| - 1] == yt[3];
    StripNoEdges(s);
  }

  /** A date written as `<Month> <day> <yyyy>`, in any letter case and with
      or without a zero before the day, becomes `YYYY-MM-DD 00:00:00`. */
  lemma PpDateOf(mt: string, dt: string, d: Date)
    requires ValidDate(d)
    requires LowerAll(mt) == MonthNames[d.month - 1]
    requires DayOf(dt) == Some(d.day)
    requires forall i: nat :: !Occurs(mt, "Juche", i)
    ensures PpDate(mt + " " + dt + " " + ZeroPad(d.year, 4)) == Some(IsoText(d))
  {
    MonthNamesLower(d.month - 1);
    LetterToken(mt, MonthNames[d.month - 1]);
    DateTextIsClean(mt, dt, ZeroPad(d.year, 4));
    StrptimeComplete(mt, dt, d);
  }

  // ---------------------------------------------------------------------
  // The record: data['metadata'], data['text'] and _pp_article
  // ---------------------------------------------------------------------

  /** A metadata value: every field is text except the Juche year. */
  datatype Field = Text(s: string) | Number(n: int)

  /** The keys of `data['metadata']`. */
  datatype Key = DatePublished | JucheYear | ArticleUrl | HtmlModified | Title | Location | NewsService

  /** The key as it is spelled in the JSON document. */
  function KeyName(k: Key): string
  {
    match k
    case DatePublished => "date_published"
    case JucheYear => "juche_year"
    case ArticleUrl => "article_url"
    case HtmlModified => "html_modified"
    case Title => "title"
    case Location => "location"
    case NewsService => "news_service"
  }

  /** What `_pp_article` makes of the paragraphs: the first paragraph is
      replaced by the rest of its dateline, and the last paragraph (the
      copyright line) is dropped. */
  function PpText(text: seq<string>, rest: string): (r: seq<string>)
    requires |text| >= 1
    ensures |r| == |text| - 1
    ensures |r| >= 1 ==> r[0] == rest
    ensures forall k :: 1 <= k < |r| ==> r[k] == text[k]
  {
    text[0 := rest][..|text| - 1]
  }

  /** The `data` dictionary of `html_to_json`: its `metadata` dictionary
      and its `text` list, both updated in place. */
  class ArticleData {
    var metadata: map<Key, Field>
    var text: seq<string>

    constructor ()
      ensures metadata == map[] && text == []
    {
      metadata := map[];
      text := [];
    }

    /** `data['metadata'][key] = value`. */
    method SetMeta(key: Key, value: Field)
      modifies this
      ensures metadata == old(metadata)[key := value] && text == old(text)
    {
      metadata := metadata[key := value];
    }

    /** `data['text'].append(para)`. */
    method AppendParagraph(para: string)
      modifies this
      ensures text == old(text) + [para] && metadata == old(metadata)
    {
      text := text + [para];
    }

    /** The loop that appends every paragraph after the title. */
    method CopyParagraphs(paras: seq<string>)
      modifies this
      ensures text == old(text) + paras && metadata == old(metadata)
    {
      var i := 0;
      while i < |paras|
        invariant i <= |paras|
        invariant text == old(text) + paras[..i] && metadata == old(metadata)
      {
        assert paras[..i + 1] == paras[..i] + [paras[i]];
        AppendParagraph(paras[i]);
        i := i + 1;
      }
      assert paras[..i] == paras;
    }

    /** `_pp_article(data)`. It succeeds exactly when there is a first
        paragraph and the dateline pattern matches it; it then stores the
        location and the news service, puts the rest of the dateline in
        place of the first paragraph and drops the last one. When it fails
        (the IndexError of `article[0]`, the AttributeError of
        `regex.groups()`) nothing has been changed yet. */
    method PpArticle() returns (ok: bool)
      modifies this
      ensures ok <==> |old(text)| >= 1 && ParseDateline(old(text)[0]).Some?
      ensures ok ==> var d := ParseDateline(old(text)[0]).value;
        metadata == old(metadata)[Location := Text(d.location)][NewsService := Text(d.service)]
        && text == PpText(old(text), d.rest)
      ensures !ok ==> metadata == old(metadata) && text == old(text)
    {
      if |text| == 0 {
        return false;
      }
      var fp := text[0];
      var regex := ParseDateline(fp);
      if regex.None? {
        return false;
      }
      var d := regex.value;
      metadata := metadata[Location := Text(d.location)][NewsService := Text(d.service)];
      text := text[0 := d.rest];
      text := text[..|text| - 1];
      ok := true;
    }
  }

  // ---------------------------------------------------------------------
  // html_to_json
  // ---------------------------------------------------------------------

  /** `payload['data']`. */
  datatype Record = Record(metadata: map<Key, Field>, text: seq<string>)

  /** The JSON document written for one article. */
  datatype Payload = Payload(app: string, dataType: string, dataSource: string,
                             timestamp: string, version: int, data: Record)

  /** What `html_to_json` does with one file: write a JSON document (True),
      return False because `re_parse` found nothing, or raise. */
  datatype Outcome = Written(file: string, payload: Payload) | NoMatch | Raised

  /** The payload fields set for every article, around its record. */
  function NewPayload(stamp: string, data: Record): Payload
  {
    Payload("jsonifier_kcna.py", "text", "kcna_article", stamp, 1, data)
  }

  /** The output file: the HTML file's name with its extension replaced by
      `.json`. */
  function JsonName(name: string): string
  {
    SplitExtRoot(name) + ".json"
  }

  /** The metadata fields set before `_pp_article`, in the order the
      source sets them. */
  function Meta(published: string, juche: int, url: string, modified: string, title: string): (m: map<Key, Field>)
    ensures m.Keys == {DatePublished, JucheYear, ArticleUrl, HtmlModified, Title}
  {
    map[][DatePublished := Text(published)][JucheYear := Number(juche)][ArticleUrl := Text(url)]
         [HtmlModified := Text(modified)][Title := Text(title)]
  }

  /** The record `html_to_json` builds from the kept article lines once
      the date and the link are known: the title is the first line, the
      paragraphs are the lines after it as `_pp_article` leaves them. None
      is the IndexError of a missing title or first paragraph, or the
      AttributeError of a first paragraph without a dateline. */
  function RecordOf(published: string, juche: int, url: string, modified: string, lines: seq<string>): (r: Option<Record>)
  {
    if |lines| < 2 then None
    else
      match ParseDateline(lines[1])
      case None => None
      case Some(d) =>
        var meta := Meta(published, juche, url, modified, lines[0]);
        Some(Record(meta[Location := Text(d.location)][NewsService := Text(d.service)], PpText(lines[1..], d.rest)))
  }

  /** `html_to_json` on the file `name` whose `soup.get_text()` is `html`,
      written at time `stamp` and last modified at `modified`. */
  function Convert(name: string, html: string, stamp: string, modified: string): (r: Outcome)
    ensures r.NoMatch? <==> ParseText(html).None?
    ensures r.Written? ==> r.file == JsonName(name) && r.payload.version == 1
  {
    match ParseText(html)
    case None => NoMatch
    case Some(b) =>
      match PpDate(b.date)
      case None => Raised
      case Some(published) =>
        match LinkUrl(name)
        case None => Raised
        case Some(url) =>
          match RecordOf(published, DigitsValue(b.juche), url, modified, StrippedLines(SplitLines(b.article)))
          case None => Raised
          case Some(rec) => Written(JsonName(name), NewPayload(stamp, rec))
  }

  /** `html_to_json`, step by step. */
  method HtmlToJson(name: string, html: string, stamp: string, modified: string) returns (o: Outcome)
    ensures o == Convert(name, html, stamp, modified)
  {
    var parsed := ParseText(html);
    if parsed.None? {
      return NoMatch;
    }
    var b := parsed.value;
    var articleText := ArticleLines(b.article);
    var published := PpDate(b.date);
    if published.None? {
      return Raised;
    }
    var url := LinkUrl(name);
    if url.None? {
      return Raised;
    }
    var rec := FillRecord(published.value, DigitsValue(b.juche), url.value, modified, articleText);
    if rec.None? {
      return Raised;
    }
    o := Written(JsonName(name), NewPayload(stamp, rec.value));
  }

  /** The record built in place: the metadata set one field at a time, the
      title popped, the paragraphs copied and `_pp_article` applied. */
  method FillRecord(published: string, juche: int, url: string, modified: string, lines: seq<string>)
    returns (r: Option<Record>)
    ensures r == RecordOf(published, juche, url, modified, lines)
  {
    var articleText := lines;
    var data := new ArticleData();
    data.SetMeta(DatePublished, Text(published));
    data.SetMeta(JucheYear, Number(juche));
    data.SetMeta(ArticleUrl, Text(url));
    data.SetMeta(HtmlModified, Text(modified));
    if |articleText| == 0 {
      return None;
    }
    data.SetMeta(Title, Text(articleText[0]));
    articleText := articleText[1..];
    data.CopyParagraphs(articleText);
    assert data.metadata == Meta(published, juche, url, modified, lines[0]);
    assert data.text == lines[1..];
    assert |lines| >= 2 ==> data.text[0] == lines[1];
    var ok := data.PpArticle();
    if !ok {
      return None;
    }
    r := Some(Record(data.metadata, data.text));
  }

  /** A document is written exactly when `re_parse` matches, the date
      parses, the file name starts with eight digits, a title and a first
      paragraph are left among the kept lines, and the first paragraph
      holds a dateline; in every other case after a match the call
      raises. */
  lemma ConvertWrittenIff(name: string, html: string, stamp: string, modified: string)
    ensures Convert(name, html, stamp, modified).Written? <==>
      ParseText(html).Some?
      && var b := ParseText(html).value;
         var lines := StrippedLines(SplitLines(b.article));
         PpDate(b.date).Some? && LinkUrl(name).Some? && |lines| >= 2 && ParseDateline(lines[1]).Some?
    ensures Convert(name, html, stamp, modified).Raised? <==>
      ParseText(html).Some? && !Convert(name, html, stamp, modified).Written?
  {
  }

  /** The fields of a built record: the seven metadata fields, a title
      that is the first kept line, and as paragraphs the rest of the
      dateline followed by the kept lines after it, without the last one.
      With a single paragraph after the title nothing is left. */
  lemma RecordOfFields(published: string, juche: int, url: string, modified: string, lines: seq<string>)
    requires RecordOf(published, juche, url, modified, lines).Some?
    ensures |lines| >= 2 && ParseDateline(lines[1]).Some?
    ensures var r := RecordOf(published, juche, url, modified, lines).value;
      var d := ParseDateline(lines[1]).value;
      r.metadata.Keys == {DatePublished, JucheYear, ArticleUrl, HtmlModified, Title, Location, NewsService}
      && r.metadata[Title] == Text(lines[0]) && r.metadata[JucheYear] == Number(juche)
      && r.metadata[DatePublished] == Text(published) && r.metadata[ArticleUrl] == Text(url)
      && r.metadata[HtmlModified] == Text(modified)
      && r.metadata[Location] == Text(d.location) && r.metadata[NewsService] == Text(d.service)
      && (|lines| == 2 ==> r.text == [])
      && (|lines| > 2 ==> r.text == [d.rest] + lines[2..|lines| - 1])
  {
    var d := ParseDateline(lines[1]).value;
    var meta := Meta(published, juche, url, modified, lines[0]);
    assert RecordOf(published, juche, url, modified, lines).value
      == Record(meta[Location := Text(d.location)][NewsService := Text(d.service)], PpText(lines[1..], d.rest));
    PpTextAfterTitle(lines, d.rest);
  }

  /** `_pp_article` on the paragraphs after the title. */
  lemma PpTextAfterTitle(lines: seq<string>, rest: string)
    requires |lines| >= 2
    ensures |lines| == 2 ==> PpText(lines[1..], rest) == []
    ensures |lines| > 2 ==> PpText(lines[1..], rest) == [rest] + lines[2..|lines| - 1]
  {
    var text := PpText(lines[1..], rest);
    if |lines| > 2 {
      assert |text| == |lines| - 2;
      forall k | 0 <= k < |text| ensures text[k] == ([rest] + lines[2..|lines| - 1])[k] {
        if k > 0 {
          assert text[k] == lines[1..][k];
        }
      }
    }
  }

  /** The date `_pp_date` prints is that of a valid calendar date read
      from the cleaned text, written as that date's digits. */
  lemma PpDateSound(date: string) returns (d: Date)
    requires PpDate(date).Some?
    ensures ValidDate(d) && Strptime(CleanDate(date)) == Some(d) && PpDate(date) == Some(IsoText(d))
    ensures var t := IsoText(d);
      AllDigits(t[..4]) && AllDigits(t[5..7]) && AllDigits(t[8..10])
      && DigitsValue(t[..4]) == d.year && DigitsValue(t[5..7]) == d.month && DigitsValue(t[8..10]) == d.day
  {
    d := Strptime(CleanDate(date)).value;
    IsoTextFields(d);
  }

  /** What a written document holds: the record built from the kept lines
      after the byline, with the Juche year's value, the date printed by
      `_pp_date` and the link of the file name. The title is non-empty and
      stripped. */
  lemma ConvertRecord(name: string, html: string, stamp: string, modified: string, b: Byline)
    requires ParseText(html) == Some(b) && Convert(name, html, stamp, modified).Written?
    ensures var lines := StrippedLines(SplitLines(b.article));
      PpDate(b.date).Some? && LinkUrl(name).Some?
      && RecordOf(PpDate(b.date).value, DigitsValue(b.juche), LinkUrl(name).value, modified, lines).Some?
      && Convert(name, html, stamp, modified).payload
         == NewPayload(stamp, RecordOf(PpDate(b.date).value, DigitsValue(b.juche), LinkUrl(name).value, modified, lines).value)
      && |lines| >= 2 && lines[0] != [] && Strip(lines[0]) == lines[0]
  {
    StrippedLinesShape(SplitLines(b.article));
  }

  // ---------------------------------------------------------------------
  // The loop of main
  // ---------------------------------------------------------------------

  /** The directories the jsonifier works on: JSON_INBOX_ROOT with its
      archive (queued HTML files) and INBOX_DB_ROOT (the JSON documents). */
  datatype JsonifierFs = JsonifierFs(html: Dirs<string>, db: map<string, Payload>)

  /** The state of `main`: the directories, `total_articles`,
      `processed_articles`, and whether an exception escaped
      `html_to_json`, which ends the script. */
  datatype Run = Run(fs: JsonifierFs, total: nat, processed: nat, aborted: bool)

  /** One file's turn: it is counted, converted, and on success its
      document is written, it is counted as processed and it is moved to
      the archive unless the move fails. After an exception nothing
      further happens. */
  function Step(r: Run, name: string, o: Outcome, moveFails: set<string>): Run
  {
    if r.aborted then r
    else
      match o
      case Raised => Run(r.fs, r.total + 1, r.processed, true)
      case NoMatch => Run(r.fs, r.total + 1, r.processed, false)
      case Written(file, p) =>
        Run(JsonifierFs(Move(r.fs.html, name, name !in moveFails), r.fs.db[file := p]), r.total + 1, r.processed + 1, false)
  }

  /** What `html_to_json` does with every file of the inbox, as the file
      reads when the run starts. `getText` stands for BeautifulSoup's
      `get_text`, `stamp` and `modified` for the clock and the files'
      modification times. */
  function Outcomes(inbox: map<string, string>, getText: string -> string,
                    stamp: string -> string, modified: string -> string): (r: map<string, Outcome>)
    ensures r.Keys == inbox.Keys
  {
    map n | n in inbox :: Convert(n, getText(inbox[n]), stamp(n), modified(n))
  }

  /** The state after the files `names` had their turns in order. */
  function RunAll(names: seq<string>, fs0: JsonifierFs, outcomes: map<string, Outcome>, moveFails: set<string>): Run
    requires forall n :: n in names ==> n in outcomes
  {
    if names == [] then Run(fs0, 0, 0, false)
    else
      var last := names[|names| - 1];
      Step(RunAll(names[..|names| - 1], fs0, outcomes, moveFails), last, outcomes[last], moveFails)
  }

  /** The number of files among `names` converted into a document. */
  function WrittenCount(names: seq<string>, outcomes: map<string, Outcome>): nat
    requires forall n :: n in names ==> n in outcomes
  {
    if names == [] then 0
    else WrittenCount(names[..|names| - 1], outcomes) + (if outcomes[names[|names| - 1]].Written? then 1 else 0)
  }

  /** The documents written for the files `names`. */
  function WrittenFiles(names: seq<string>, outcomes: map<string, Outcome>): set<string>
    requires forall n :: n in names ==> n in outcomes
  {
    if names == [] then {}
    else
      var o := outcomes[names[|names| - 1]];
      WrittenFiles(names[..|names| - 1], outcomes) + (if o.Written? then {o.file} else {})
  }

  /** The counters of a run: `processed_articles` never exceeds
      `total_articles`. The run is cut short exactly when some file raises,
      and then it stops at the first such file; otherwise every file is
      counted and `processed_articles` is the number of documents. */
  lemma {:induction false} RunCounts(names: seq<string>, fs0: JsonifierFs, outcomes: map<string, Outcome>, moveFails: set<string>)
    requires forall n :: n in names ==> n in outcomes
    ensures var r := RunAll(names, fs0, outcomes, moveFails);
      r.processed <= r.total <= |names|
      && (r.aborted <==> exists k :: 0 <= k < |names| && outcomes[names[k]].Raised?)
      && (r.aborted ==> 1 <= r.total && outcomes[names[r.total - 1]].Raised?
                        && forall k :: 0 <= k < r.total - 1 ==> !outcomes[names[k]].Raised?)
      && (!r.aborted ==> r.total == |names| && r.processed == WrittenCount(names, outcomes))
  {
    if names != [] {
      var init := names[..|names| - 1];
      RunCounts(init, fs0, outcomes, moveFails);
      assert forall k :: 0 <= k < |init| ==> init[k] == names[k];
    }
  }

  /** Once the run is cut short, later files change nothing. */
  lemma {:induction false} RunAbortStays(names: seq<string>, i: nat, fs0: JsonifierFs, outcomes: map<string, Outcome>, moveFails: set<string>)
    requires forall n :: n in names ==> n in outcomes
    requires i <= |names| && RunAll(names[..i], fs0, outcomes, moveFails).aborted
    ensures RunAll(names, fs0, outcomes, moveFails) == RunAll(names[..i], fs0, outcomes, moveFails)
    decreases |names|
  {
    if i < |names| {
      var init := names[..|names| - 1];
      assert init[..i] == names[..i];
      RunAbortStays(init, i, fs0, outcomes, moveFails);
    } else {
      assert names[..i] == names;
    }
  }

  /** The counters do not depend on which moves fail: a file counts as
      processed once its document is written. */
  lemma {:induction false} RunCountsIgnoreMoves(names: seq<string>, fs0: JsonifierFs, outcomes: map<string, Outcome>,
                                                m1: set<string>, m2: set<string>)
    requires forall n :: n in names ==> n in outcomes
    ensures var r1, r2 := RunAll(names, fs0, outcomes, m1), RunAll(names, fs0, outcomes, m2);
      r1.total == r2.total && r1.processed == r2.processed && r1.aborted == r2.aborted && r1.fs.db == r2.fs.db
  {
    if names != [] {
      RunCountsIgnoreMoves(names[..|names| - 1], fs0, outcomes, m1, m2);
    }
  }

  /** The DB inbox gains exactly the documents of the files that had their
      turn. */
  lemma {:induction false} RunDocuments(names: seq<string>, fs0: JsonifierFs, outcomes: map<string, Outcome>, moveFails: set<string>)
    requires forall n :: n in names ==> n in outcomes
    ensures var r := RunAll(names, fs0, outcomes, moveFails);
      r.total <= |names| && r.fs.db.Keys == fs0.db.Keys + WrittenFiles(names[..r.total], outcomes)
  {
    if names != [] {
      var init := names[..|names| - 1];
      RunDocuments(init, fs0, outcomes, moveFails);
      var r0 := RunAll(init, fs0, outcomes, moveFails);
      assert init[..r0.total] == names[..r0.total];
      if !r0.aborted {
        RunTotal(init, fs0, outcomes, moveFails);
        assert names[..|names|] == names && init[..|init|] == init;
      }
    } else {
      assert names[..0] == [];
    }
  }

  /** File `k` of `names` is the last one whose document is named `f`. */
  predicate LastWritten(names: seq<string>, outcomes: map<string, Outcome>, f: string, k: int)
    requires forall n :: n in names ==> n in outcomes
  {
    0 <= k < |names| && outcomes[names[k]].Written? && outcomes[names[k]].file == f
    && forall j :: k < j < |names| && outcomes[names[j]].Written? ==> outcomes[names[j]].file != f
  }

  /** What the DB inbox holds after a run: each written document carries
      the payload of the last file that had its turn and wrote it (`a.htm`
      and `a.html` both write `a.json`, and the later one wins); every other
      document is as it was. */
  lemma RunDocumentContents(names: seq<string>, fs0: JsonifierFs, outcomes: map<string, Outcome>, moveFails: set<string>)
    requires forall n :: n in names ==> n in outcomes
    ensures var r := RunAll(names, fs0, outcomes, moveFails);
      r.total <= |names|
      && (forall f :: f in WrittenFiles(names[..r.total], outcomes) ==>
            f in r.fs.db && exists k :: LastWritten(names[..r.total], outcomes, f, k)
                                       && r.fs.db[f] == outcomes[names[k]].payload)
      && (forall f :: f in fs0.db && f !in WrittenFiles(names[..r.total], outcomes) ==>
            f in r.fs.db && r.fs.db[f] == fs0.db[f])
  {
    RunWrittenContents(names, fs0, outcomes, moveFails);
    RunOtherDocuments(names, fs0, outcomes, moveFails);
  }

  /** Each written document holds the payload of its last writer. */
  lemma {:induction false} RunWrittenContents(names: seq<string>, fs0: JsonifierFs, outcomes: map<string, Outcome>, moveFails: set<string>)
    requires forall n :: n in names ==> n in outcomes
    ensures var r := RunAll(names, fs0, outcomes, moveFails);
      r.total <= |names|
      && forall f :: f in WrittenFiles(names[..r.total], outcomes) ==>
            f in r.fs.db && exists k :: LastWritten(names[..r.total], outcomes, f, k)
                                       && r.fs.db[f] == outcomes[names[k]].payload
  {
    RunTotal(names, fs0, outcomes, moveFails);
    if names != [] {
      var init := names[..|names| - 1];
      RunWrittenContents(init, fs0, outcomes, moveFails);
      var r0 := RunAll(init, fs0, outcomes, moveFails);
      assert init[..r0.total] == names[..r0.total];
      if !r0.aborted {
        RunTotal(init, fs0, outcomes, moveFails);
        assert init[..r0.total] == init && names[..|names|] == names;
        WrittenStep(names, fs0, outcomes, moveFails);
      }
    } else {
      assert names[..0] == [];
    }
  }

  /** The step of RunWrittenContents for a file after a run not cut short. */
  lemma WrittenStep(names: seq<string>, fs0: JsonifierFs, outcomes: map<string, Outcome>, moveFails: set<string>)
    requires forall n :: n in names ==> n in outcomes
    requires names != []
    requires var init := names[..|names| - 1]; var r0 := RunAll(init, fs0, outcomes, moveFails);
      !r0.aborted && r0.total == |init|
      && forall f :: f in WrittenFiles(init, outcomes) ==>
            f in r0.fs.db && exists k :: LastWritten(init, outcomes, f, k) && r0.fs.db[f] == outcomes[init[k]].payload
    ensures var r := RunAll(names, fs0, outcomes, moveFails);
      r.total == |names|
      && forall f :: f in WrittenFiles(names, outcomes) ==>
            f in r.fs.db && exists k :: LastWritten(names, outcomes, f, k) && r.fs.db[f] == outcomes[names[k]].payload
  {
    var init := names[..|names| - 1];
    var r0 := RunAll(init, fs0, outcomes, moveFails);
    var r := RunAll(names, fs0, outcomes, moveFails);
    var o := outcomes[names[|names| - 1]];
    forall f | f in WrittenFiles(names, outcomes)
      ensures f in r.fs.db && exists k :: LastWritten(names, outcomes, f, k) && r.fs.db[f] == outcomes[names[k]].payload
    {
      if o.Written? && o.file == f {
        assert LastWritten(names, outcomes, f, |names| - 1);
      } else {
        assert f in WrittenFiles(init, outcomes);
        var k :| LastWritten(init, outcomes, f, k) && r0.fs.db[f] == outcomes[init[k]].payload;
        LastWrittenExtend(names, outcomes, f, k);
      }
    }
  }

  /** Documents no file of the run wrote keep their content. */
  lemma {:induction false} RunOtherDocuments(names: seq<string>, fs0: JsonifierFs, outcomes: map<string, Outcome>, moveFails: set<string>)
    requires forall n :: n in names ==> n in outcomes
    ensures var r := RunAll(names, fs0, outcomes, moveFails);
      r.total <= |names|
      && forall f :: f in fs0.db && f !in WrittenFiles(names[..r.total], outcomes) ==>
            f in r.fs.db && r.fs.db[f] == fs0.db[f]
  {
    RunTotal(names, fs0, outcomes, moveFails);
    if names != [] {
      var init := names[..|names| - 1];
      RunOtherDocuments(init, fs0, outcomes, moveFails);
      var r0 := RunAll(init, fs0, outcomes, moveFails);
      assert init[..r0.total] == names[..r0.total];
      if !r0.aborted {
        RunTotal(init, fs0, outcomes, moveFails);
        assert init[..r0.total] == init && names[..|names|] == names;
      }
    } else {
      assert names[..0] == [];
    }
  }

  /** The last writer of `f` stays the last when a file not writing `f` follows. */
  lemma LastWrittenExtend(names: seq<string>, outcomes: map<string, Outcome>, f: string, k: int)
    requires forall n :: n in names ==> n in outcomes
    requires names != [] && LastWritten(names[..|names| - 1], outcomes, f, k)
    requires !(outcomes[names[|names| - 1]].Written? && outcomes[names[|names| - 1]].file == f)
    ensures LastWritten(names, outcomes, f, k) && names[k] == names[..|names| - 1][k]
  {
    var init := names[..|names| - 1];
    assert forall j :: 0 <= j < |init| ==> init[j] == names[j];
  }

  /** A run that was not cut short gave every file its turn. */
  lemma {:induction false} RunTotal(names: seq<string>, fs0: JsonifierFs, outcomes: map<string, Outcome>, moveFails: set<string>)
    requires forall n :: n in names ==> n in outcomes
    ensures var r := RunAll(names, fs0, outcomes, moveFails);
      r.total <= |names| && (!r.aborted ==> r.total == |names|)
  {
    if names != [] {
      RunTotal(names[..|names| - 1], fs0, outcomes, moveFails);
    }
  }

  /** A file that is not among `names` is not touched by their turns. */
  lemma {:induction false} RunLeavesOthers(names: seq<string>, fs0: JsonifierFs, outcomes: map<string, Outcome>,
                                           moveFails: set<string>, other: string)
    requires forall n :: n in names ==> n in outcomes
    requires other !in names && other in fs0.html.inbox
    ensures other in RunAll(names, fs0, outcomes, moveFails).fs.html.inbox
    ensures RunAll(names, fs0, outcomes, moveFails).fs.html.inbox[other] == fs0.html.inbox[other]
  {
    if names != [] {
      RunLeavesOthers(names[..|names| - 1], fs0, outcomes, moveFails, other);
    }
  }

  /** One more file: its turn finds it as it was at the start. */
  lemma RunStep(names: seq<string>, i: nat, fs0: JsonifierFs, outcomes: map<string, Outcome>, moveFails: set<string>)
    requires Distinct(names) && (forall n :: n in names ==> n in outcomes) && i < |names| && names[i] in fs0.html.inbox
    ensures names[i] in RunAll(names[..i], fs0, outcomes, moveFails).fs.html.inbox
    ensures RunAll(names[..i], fs0, outcomes, moveFails).fs.html.inbox[names[i]] == fs0.html.inbox[names[i]]
    ensures RunAll(names[..i + 1], fs0, outcomes, moveFails)
      == Step(RunAll(names[..i], fs0, outcomes, moveFails), names[i], outcomes[names[i]], moveFails)
  {
    assert names[..i + 1][..i] == names[..i];
    assert names[i] !in names[..i];
    RunLeavesOthers(names[..i], fs0, outcomes, moveFails, names[i]);
  }

  /** The archive rule of the whole run: the `k`-th file leaves the inbox
      exactly when it had its turn, its document was written and its move
      did not fail; it then sits in the archive as it was. Otherwise it
      stays in the inbox unchanged. */
  lemma {:induction false} RunArchivesIff(names: seq<string>, fs0: JsonifierFs, outcomes: map<string, Outcome>,
                                          moveFails: set<string>, k: nat)
    requires Distinct(names) && forall n :: n in names ==> n in outcomes && n in fs0.html.inbox
    requires k < |names|
    ensures var r := RunAll(names, fs0, outcomes, moveFails);
      var n := names[k];
      (n !in r.fs.html.inbox <==> k < r.total && outcomes[n].Written? && n !in moveFails)
      && (n !in r.fs.html.inbox ==> n in r.fs.html.archive && r.fs.html.archive[n] == fs0.html.inbox[n])
      && (n in r.fs.html.inbox ==> r.fs.html.inbox[n] == fs0.html.inbox[n])
  {
    var init := names[..|names| - 1];
    assert Distinct(init) by {
      assert forall i :: 0 <= i < |init| ==> init[i] == names[i];
    }
    var n := names[k];
    RunCounts(init, fs0, outcomes, moveFails);
    if k == |names| - 1 {
      assert n !in init;
      RunLeavesOthers(init, fs0, outcomes, moveFails, n);
    } else {
      assert init[k] == n;
      RunArchivesIff(init, fs0, outcomes, moveFails, k);
    }
  }

  /** The loop of `main` over the HTML file names `names`, in order. */
  method JsonifyAll(names: seq<string>, fs: JsonifierFs, getText: string -> string,
                    stamp: string -> string, modified: string -> string, moveFails: set<string>)
    returns (r: Run)
    requires Distinct(names) && forall n :: n in names ==> n in fs.html.inbox
    ensures r == RunAll(names, fs, Outcomes(fs.html.inbox, getText, stamp, modified), moveFails)
  {
    ghost var outcomes := Outcomes(fs.html.inbox, getText, stamp, modified);
    var html, db := fs.html, fs.db;
    var total, processed, aborted := 0, 0, false;
    var i := 0;
    while i < |names| && !aborted
      invariant 0 <= i <= |names|
      invariant Run(JsonifierFs(html, db), total, processed, aborted) == RunAll(names[..i], fs, outcomes, moveFails)
    {
      RunStep(names, i, fs, outcomes, moveFails);
      var name := names[i];
      total := total + 1;
      var o := HtmlToJson(name, getText(html.inbox[name]), stamp(name), modified(name));
      assert o == outcomes[name];
      if o.Written? {
        db := db[o.file := o.payload];
        processed := processed + 1;
        html := Move(html, name, name !in moveFails);
      } else if o.Raised? {
        aborted := true;
      }
      i := i + 1;
    }
    if aborted {
      RunAbortStays(names, i, fs, outcomes, moveFails);
    } else {
      assert names[..i] == names;
    }
    r := Run(JsonifierFs(html, db), total, processed, aborted);
  }

  /** `main`: every entry of the inbox listing that matches `.htm`, in
      listing order. */
  method RunJsonifier(listing: seq<string>, fs: JsonifierFs, getText: string -> string,
                      stamp: string -> string, modified: string -> string, moveFails: set<string>)
    returns (r: Run)
    requires Distinct(listing)
    requires forall n :: n in listing && SearchAnyThen(n, "htm") ==> n in fs.html.inbox
    ensures Distinct(FilterNames(listing, "htm"))
    ensures r == RunAll(FilterNames(listing, "htm"), fs, Outcomes(fs.html.inbox, getText, stamp, modified), moveFails)
  {
    var names := FilterNames(listing, "htm");
    FilterNamesDistinct(listing, "htm");
    r := JsonifyAll(names, fs, getText, stamp, modified, moveFails);
  }
}
