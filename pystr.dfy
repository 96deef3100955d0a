/** The Python 2 string builtins and regex fragments that the KCNA collector
    and reporter scripts rely on, each stated the way CPython 2.7 behaves. */
module PyStr {

  datatype Option<T> = None | Some(value: T)

  // ---------------------------------------------------------------------
  // Characters and decimal digits
  // ---------------------------------------------------------------------

  /** `\d` of a regex compiled without re.UNICODE, and `[0-9]`. */
  predicate IsDigit(c: char) { '0' <= c <= '9' }

  predicate AllDigits(s: string) { forall i :: 0 <= i < |s| ==> IsDigit(s[i]) }

  /** `unicode.isspace()` in Python 2.7, used by `unicode.strip()`. */
  predicate IsSpace(c: char)
  {
    var n := c as int;
    (0x09 <= n <= 0x0D) || (0x1C <= n <= 0x20) || n == 0x85 || n == 0xA0 || n == 0x1680
    || n == 0x180E || (0x2000 <= n <= 0x200A) || n == 0x2028 || n == 0x2029 || n == 0x202F
    || n == 0x205F || n == 0x3000
  }

  /** The line boundaries of `unicode.splitlines()` in Python 2.7. */
  predicate IsLineBreak(c: char)
  {
    var n := c as int;
    (0x0A <= n <= 0x0D) || (0x1C <= n <= 0x1E) || n == 0x85 || n == 0x2028 || n == 0x2029
  }

  /** `int(s)` for a string of ASCII digits. */
  function DigitsValue(s: string): nat
    requires AllDigits(s)
  {
    if s == [] then 0 else 10 * DigitsValue(s[..|s| - 1]) + (s[|s| - 1] as int - '0' as int)
  }

  function Pow10(n: nat): nat { if n == 0 then 1 else 10 * Pow10(n - 1) }

  /** `"%0<w>d" % n` for `n < 10^w`: `n` in decimal, zero padded to `w`
      digits. Python never cuts a wider number; this function keeps its
      last `w` digits, which only matters beyond that bound. */
  function ZeroPad(n: nat, w: nat): (r: string)
    ensures |r| == w && AllDigits(r)
  {
    if w == 0 then "" else ZeroPad(n / 10, w - 1) + [('0' as int + n % 10) as char]
  }

  /** Reading back a zero-padded number gives the number, when it fits the width. */
  lemma {:induction false} ZeroPadValue(n: nat, w: nat)
    requires n < Pow10(w)
    ensures DigitsValue(ZeroPad(n, w)) == n
  {
    if w > 0 {
      var r := ZeroPad(n, w);
      assert r[..w - 1] == ZeroPad(n / 10, w - 1);
      ZeroPadValue(n / 10, w - 1);
    }
  }

  /** A run of digits as a slice of its own. */
  lemma AllDigitsSlice(s: string, i: nat, j: nat)
    requires i <= j <= |s| && forall k :: i <= k < j ==> IsDigit(s[k])
    ensures AllDigits(s[i..j])
  {
    forall k | 0 <= k < j - i ensures IsDigit(s[i..j][k]) {
      assert s[i..j][k] == s[i + k];
    }
  }

  /** Digits are not '/'. */
  lemma DigitsNoSlash(s: string)
    requires AllDigits(s)
    ensures '/' !in s
  {
    forall k | 0 <= k < |s| ensures s[k] != '/' {
      assert IsDigit(s[k]);
    }
  }

  /** A piece of a digit string is a digit string. */
  lemma AllDigitsSub(s: string, i: nat, j: nat)
    requires AllDigits(s) && i <= j <= |s|
    ensures AllDigits(s[i..j])
  {
    AllDigitsSlice(s, i, j);
  }

  predicate Occurs(s: string, pat: string, i: nat)
  {
    i + |pat| <= |s| && s[i..i + |pat|] == pat
  }

  /** `re.search('.' + pat, s)` for a literal `pat`: some character other than
      a newline followed by `pat`. The scripts pick their input files with
      this (`'.log'`, `'.htm'`, `'.json'`), so the dot matches any character. */
  predicate SearchAnyThen(s: string, pat: string)
  {
    exists i :: 0 <= i && i + 1 + |pat| <= |s| && s[i] != '\n' && s[i + 1..i + 1 + |pat|] == pat
  }

  /** Python 2 `filter(lambda x: re.search('.' + pat, x), names)`. */
  function FilterNames(names: seq<string>, pat: string): (r: seq<string>)
    ensures |r| <= |names|
    ensures forall k :: 0 <= k < |r| ==> r[k] in names && SearchAnyThen(r[k], pat)
    ensures forall n :: n in names && SearchAnyThen(n, pat) ==> n in r
  {
    if names == [] then []
    else (if SearchAnyThen(names[0], pat) then [names[0]] else []) + FilterNames(names[1..], pat)
  }

  /** Filtering distributes over concatenation, so it keeps listing order. */
  lemma {:induction false} FilterNamesAppend(a: seq<string>, b: seq<string>, pat: string)
    ensures FilterNames(a + b, pat) == FilterNames(a, pat) + FilterNames(b, pat)
  {
    if a != [] {
      assert (a + b)[1..] == a[1..] + b;
      FilterNamesAppend(a[1..], b, pat);
    } else {
      assert a + b == b;
    }
  }

  predicate Distinct<T(==)>(xs: seq<T>)
  {
    forall i, j :: 0 <= i < j < |xs| ==> xs[i] != xs[j]
  }

  /** Filtering keeps distinct names distinct. */
  lemma {:induction false} FilterNamesDistinct(names: seq<string>, pat: string)
    requires Distinct(names)
    ensures Distinct(FilterNames(names, pat))
  {
    if names != [] {
      var rest := FilterNames(names[1..], pat);
      assert Distinct(names[1..]) by {
        forall i, j | 0 <= i < j < |names[1..]| ensures names[1..][i] != names[1..][j] {
          assert names[1..][i] == names[i + 1] && names[1..][j] == names[j + 1];
        }
      }
      FilterNamesDistinct(names[1..], pat);
      var r := FilterNames(names, pat);
      if SearchAnyThen(names[0], pat) {
        assert r == [names[0]] + rest;
        forall i, j | 0 <= i < j < |r| ensures r[i] != r[j] {
          assert r[j] == rest[j - 1] && rest[j - 1] in names[1..];
          if i > 0 {
            assert r[i] == rest[i - 1];
          }
        }
      } else {
        assert r == rest;
      }
    }
  }

  /** A string is the concatenation of its consecutive slices. */
  lemma SliceConcat5(s: string, a: nat, b: nat, c: nat, e: nat)
    requires a <= b <= c <= e <= |s|
    ensures s == s[..a] + s[a..b] + s[b..c] + s[c..e] + s[e..]
  {
    assert s[..a] + s[a..b] == s[..b];
    assert s[..b] + s[b..c] == s[..c];
    assert s[..c] + s[c..e] == s[..e];
    assert s[..e] + s[e..] == s;
  }

  // ---------------------------------------------------------------------
  // strip, rstrip(c)
  // ---------------------------------------------------------------------

  /** `unicode.lstrip()`. */
  function LStrip(s: string): (r: string)
    ensures |r| <= |s| && r == s[|s| - |r|..]
    ensures forall i :: 0 <= i < |s| - |r| ==> IsSpace(s[i])
    ensures r == [] || !IsSpace(r[0])
  {
    if s != [] && IsSpace(s[0]) then LStrip(s[1..]) else s
  }

  /** `unicode.rstrip()`. */
  function RStrip(s: string): (r: string)
    ensures |r| <= |s| && r == s[..|r|]
    ensures forall i :: |r| <= i < |s| ==> IsSpace(s[i])
    ensures r == [] || !IsSpace(r[|r| - 1])
  {
    if s != [] && IsSpace(s[|s| - 1]) then RStrip(s[..|s| - 1]) else s
  }

  /** `unicode.strip()`. */
  function Strip(s: string): (r: string)
  {
    RStrip(LStrip(s))
  }

  /** Where the stripped text starts in the input. */
  function StripStart(s: string): nat
  {
    |s| - |LStrip(s)|
  }

  /** What `strip()` leaves is a contiguous piece of the input with only
      whitespace cut off around it. */
  lemma StripPiece(s: string)
    ensures StripStart(s) + |Strip(s)| <= |s|
    ensures s[StripStart(s)..StripStart(s) + |Strip(s)|] == Strip(s)
    ensures forall i :: 0 <= i < StripStart(s) ==> IsSpace(s[i])
    ensures forall i :: StripStart(s) + |Strip(s)| <= i < |s| ==> IsSpace(s[i])
  {
    var l := LStrip(s);
    var r := RStrip(l);
    assert Strip(s) == r && StripStart(s) == |s| - |l|;
    PrefixOfSuffix(s, l, |s| - |l|, r);
  }

  /** A whitespace-trimmed prefix of a suffix is a piece of the whole. */
  lemma PrefixOfSuffix(s: string, l: string, a: nat, r: string)
    requires a <= |s| && l == s[a..] && |r| <= |l| && r == l[..|r|]
    requires forall i :: |r| <= i < |l| ==> IsSpace(l[i])
    ensures s[a..a + |r|] == r
    ensures forall i :: a + |r| <= i < |s| ==> IsSpace(s[i])
  {
    forall i | a + |r| <= i < |s| ensures IsSpace(s[i]) {
      assert s[i] == l[i - a];
    }
  }

  /** What `strip()` leaves neither starts nor ends with whitespace. */
  lemma StripEnds(s: string)
    ensures var r := Strip(s); r == [] || (!IsSpace(r[0]) && !IsSpace(r[|r| - 1]))
  {
    var l := LStrip(s);
    var r := RStrip(l);
    if r != [] {
      assert l[0] == r[0];
    }
  }

  /** Stripping twice is stripping once. */
  lemma StripIdempotent(s: string)
    ensures Strip(Strip(s)) == Strip(s)
  {
    var r := Strip(s);
    StripEnds(s);
    if r != [] {
      assert LStrip(r) == r;
      assert RStrip(r) == r;
    }
  }

  /** `s.rstrip(c)`: every trailing `c` removed. */
  function RStripChar(s: string, c: char): (r: string)
    ensures |r| <= |s| && r == s[..|r|]
    ensures forall i :: |r| <= i < |s| ==> s[i] == c
    ensures r == [] || r[|r| - 1] != c
  {
    if s != [] && s[|s| - 1] == c then RStripChar(s[..|s| - 1], c) else s
  }

  // ---------------------------------------------------------------------
  // replace(pat, '')
  // ---------------------------------------------------------------------

  /** `s.replace(pat, '')`: one left-to-right pass that deletes
      non-overlapping occurrences of `pat`. */
  function ReplaceWithEmpty(s: string, pat: string): (r: string)
    requires |pat| > 0
    ensures |r| <= |s|
    decreases |s|
  {
    if |s| < |pat| then s
    else if s[..|pat|] == pat then ReplaceWithEmpty(s[|pat|..], pat)
    else [s[0]] + ReplaceWithEmpty(s[1..], pat)
  }

  /** Deleting a one-character pattern deletes every occurrence of it. */
  lemma {:induction false} ReplaceCharRemovesAll(s: string, c: char)
    ensures c !in ReplaceWithEmpty(s, [c])
  {
    if |s| >= 1 {
      ReplaceCharRemovesAll(s[1..], c);
    }
  }

  /** A string in which `pat` never occurs is left as it is. */
  lemma {:induction false} ReplaceAbsent(s: string, pat: string)
    requires |pat| > 0
    requires forall i: nat :: !Occurs(s, pat, i)
    ensures ReplaceWithEmpty(s, pat) == s
  {
    if |s| >= |pat| {
      assert !Occurs(s, pat, 0);
      assert s[..|pat|] != pat;
      forall i: nat ensures !Occurs(s[1..], pat, i) {
        assert !Occurs(s, pat, i + 1);
        if i + |pat| <= |s| - 1 {
          assert s[1..][i..i + |pat|] == s[i + 1..i + 1 + |pat|];
        }
      }
      ReplaceAbsent(s[1..], pat);
    }
  }

  // ---------------------------------------------------------------------
  // Searching for a character
  // ---------------------------------------------------------------------

  function IndexOf(s: string, c: char): (i: nat)
    requires c in s
    ensures i < |s| && s[i] == c && c !in s[..i]
  {
    if s[0] == c then 0 else 1 + IndexOf(s[1..], c)
  }

  /** `s.rfind(c)` when it is not -1. */
  function LastIndexOf(s: string, c: char): (r: Option<nat>)
    ensures r.Some? ==> r.value < |s| && s[r.value] == c && c !in s[r.value + 1..]
    ensures r.None? ==> c !in s
  {
    if s == [] then None
    else if s[|s| - 1] == c then Some(|s| - 1)
    else
      var r := LastIndexOf(s[..|s| - 1], c);
      if r.Some? then assert s[r.value + 1..] == s[..|s| - 1][r.value + 1..] + [s[|s| - 1]]; r else r
  }

  /** The last `c` below position `hi`. A greedy `.*` in front of `c`
      ends at the last place where the rest of a pattern can follow, so
      this decides where such a pattern splits. */
  function LastCharBefore(s: string, c: char, hi: nat): (r: Option<nat>)
    requires hi <= |s|
    ensures r.Some? ==> r.value < hi && s[r.value] == c && forall j :: r.value < j < hi ==> s[j] != c
    ensures r.None? ==> forall j :: 0 <= j < hi ==> s[j] != c
  {
    if hi == 0 then None else if s[hi - 1] == c then Some(hi - 1) else LastCharBefore(s, c, hi - 1)
  }

  /** Where the first `c` of `a + b` is. */
  lemma {:induction false} IndexOfAppend(a: string, b: string, c: char)
    requires c in a + b
    ensures c in a ==> IndexOf(a + b, c) == IndexOf(a, c)
    ensures c !in a ==> c in b && IndexOf(a + b, c) == |a| + IndexOf(b, c)
  {
    if a == [] {
      assert a + b == b;
    } else if a[0] != c {
      assert (a + b)[0] == a[0];
      assert (a + b)[1..] == a[1..] + b;
      assert c in a[1..] + b;
      assert c in a <==> c in a[1..];
      IndexOfAppend(a[1..], b, c);
    }
  }

  /** A text that neither starts nor ends with whitespace is its own strip. */
  lemma StripNoEdges(s: string)
    requires s != [] && !IsSpace(s[0]) && !IsSpace(s[|s| - 1])
    ensures Strip(s) == s
  {
    assert LStrip(s) == s;
  }

  // ---------------------------------------------------------------------
  // split, join
  // ---------------------------------------------------------------------

  /** `s.split(c)` for a one-character separator: a separator closes the
      current piece and opens an empty one. */
  function Split(s: string, c: char): (r: seq<string>)
    ensures |r| >= 1
  {
    if s == [] then [[]]
    else
      var rest := Split(s[1..], c);
      if s[0] == c then [[]] + rest else [[s[0]] + rest[0]] + rest[1..]
  }

  /** `sep.join(xs)`. */
  function Join(sep: string, xs: seq<string>): string
  {
    if |xs| == 0 then "" else if |xs| == 1 then xs[0] else xs[0] + sep + Join(sep, xs[1..])
  }

  /** A split without the separator is the whole text. */
  lemma {:induction false} SplitAbsent(s: string, c: char)
    requires c !in s
    ensures Split(s, c) == [s]
  {
    if s != [] {
      assert c !in s[1..];
      SplitAbsent(s[1..], c);
      assert s == [s[0]] + s[1..];
    }
  }

  /** Splitting at a separator that was put between two texts splits each
      of them. */
  lemma {:induction false} SplitAround(a: string, b: string, c: char)
    ensures Split(a + [c] + b, c) == Split(a, c) + Split(b, c)
  {
    var s := a + [c] + b;
    if a == [] {
      assert s[0] == c && s[1..] == b;
    } else {
      assert s[0] == a[0] && s[1..] == a[1..] + [c] + b;
      SplitAround(a[1..], b, c);
    }
  }

  /** A text that holds the separator splits into at least two pieces. */
  lemma {:induction false} SplitSeveral(s: string, c: char)
    requires c in s
    ensures |Split(s, c)| >= 2
  {
    if s[0] != c {
      assert c in s[1..];
      SplitSeveral(s[1..], c);
    }
  }

  /** No piece of a split holds the separator. */
  lemma {:induction false} SplitPiecesFree(s: string, c: char)
    ensures forall k :: 0 <= k < |Split(s, c)| ==> c !in Split(s, c)[k]
  {
    if s != [] {
      SplitPiecesFree(s[1..], c);
    }
  }

  /** Joining the pieces of a split restores the string. */
  lemma {:induction false} JoinSplit(s: string, c: char)
    ensures Join([c], Split(s, c)) == s
  {
    if s != [] {
      var rest := Split(s[1..], c);
      JoinSplit(s[1..], c);
      if s[0] == c {
        assert ([[]] + rest)[1..] == rest;
      } else if |rest| > 1 {
        assert ([[s[0]] + rest[0]] + rest[1..])[1..] == rest[1..];
        assert s == [s[0]] + (rest[0] + [c] + Join([c], rest[1..]));
      } else {
        assert s == [s[0]] + rest[0];
      }
    }
  }

  /** Splitting a join gives back the fields, provided that no field holds
      the separator. */
  lemma {:induction false} SplitJoin(xs: seq<string>, c: char)
    requires |xs| >= 1
    requires forall k :: 0 <= k < |xs| ==> c !in xs[k]
    ensures Split(Join([c], xs), c) == xs
  {
    SplitAbsent(xs[0], c);
    if |xs| > 1 {
      SplitAround(xs[0], Join([c], xs[1..]), c);
      SplitJoin(xs[1..], c);
    }
  }

  // ---------------------------------------------------------------------
  // splitlines
  // ---------------------------------------------------------------------

  function FirstBreak(s: string): (i: nat)
    ensures i <= |s|
    ensures forall j :: 0 <= j < i ==> !IsLineBreak(s[j])
    ensures i < |s| ==> IsLineBreak(s[i])
  {
    if s == [] || IsLineBreak(s[0]) then 0 else 1 + FirstBreak(s[1..])
  }

  /** `unicode.splitlines()`: "\r\n" is one boundary, a final boundary does
      not open an empty last line, and the empty string has no lines. */
  function SplitLines(s: string): (r: seq<string>)
    decreases |s|
  {
    if s == [] then []
    else
      var i := FirstBreak(s);
      if i == |s| then [s]
      else
        var w := if s[i] == '\r' && i + 1 < |s| && s[i + 1] == '\n' then 2 else 1;
        [s[..i]] + SplitLines(s[i + w..])
  }

  function Concat(xs: seq<string>): string
  {
    if xs == [] then "" else xs[0] + Concat(xs[1..])
  }

  /** The lines hold no boundary characters. */
  lemma {:induction false} SplitLinesNoBreaks(s: string)
    ensures forall k, j :: 0 <= k < |SplitLines(s)| && 0 <= j < |SplitLines(s)[k]| ==> !IsLineBreak(SplitLines(s)[k][j])
  {
    if s != [] {
      var i := FirstBreak(s);
      if i < |s| {
        var w := if s[i] == '\r' && i + 1 < |s| && s[i + 1] == '\n' then 2 else 1;
        SplitLinesNoBreaks(s[i + w..]);
      }
    }
  }

  // ---------------------------------------------------------------------
  // os.path.splitext
  // ---------------------------------------------------------------------

  /** Nothing but '.' characters (also true of the empty string). */
  predicate DotsOnly(s: string)
  {
    s == [] || (s[|s| - 1] == '.' && DotsOnly(s[..|s| - 1]))
  }

  lemma {:induction false} DotsOnlyChars(s: string)
    ensures DotsOnly(s) <==> forall k :: 0 <= k < |s| ==> s[k] == '.'
  {
    if s != [] {
      DotsOnlyChars(s[..|s| - 1]);
      assert forall k :: 0 <= k < |s| - 1 ==> s[..|s| - 1][k] == s[k];
    }
  }

  /** `os.path.splitext(p)[0]` on POSIX: the last '.' of the base name starts
      the extension, unless the base name has only dots before it. */
  function SplitExtRoot(p: string): (r: string)
    ensures |r| <= |p| && r == p[..|r|]
    ensures r != p ==> p[|r|] == '.' && forall k :: |r| < k < |p| ==> p[k] != '.' && p[k] != '/'
  {
    var baseStart := match LastIndexOf(p, '/') case Some(k) => k + 1 case None => 0;
    match LastIndexOf(p, '.')
    case None => p
    case Some(d) => if d >= baseStart && !DotsOnly(p[baseStart..d]) then p[..d] else p
  }

  /** A name without any '.' has no extension. */
  lemma SplitExtNoDot(p: string)
    requires '.' !in p
    ensures SplitExtRoot(p) == p
  {
  }

  /** A name `stem + "." + ext` without '/' whose stem holds a character other
      than '.' and whose extension holds no '.' splits at that dot. */
  lemma SplitExtDotted(stem: string, ext: string)
    requires '/' !in stem && '/' !in ext && '.' !in ext
    requires exists k :: 0 <= k < |stem| && stem[k] != '.'
    ensures SplitExtRoot(stem + "." + ext) == stem
  {
    var p := stem + "." + ext;
    NoSlashJoined(stem, ext);
    assert LastIndexOf(p, '/') == None;
    assert p[|stem| + 1..] == ext;
    LastIndexOfIs(p, '.', |stem|);
    assert p[0..|stem|] == stem;
    DotsOnlyChars(stem);
    assert !DotsOnly(p[0..|stem|]);
  }

  lemma NoSlashJoined(stem: string, ext: string)
    requires '/' !in stem && '/' !in ext
    ensures '/' !in stem + "." + ext
  {
    var p := stem + "." + ext;
    forall i | 0 <= i < |p| ensures p[i] != '/' {
      if i < |stem| { assert p[i] == stem[i]; } else if i > |stem| { assert p[i] == ext[i - |stem| - 1]; }
    }
  }

  /** A `c` with no `c` after it is the last one. */
  lemma {:induction false} LastIndexOfIs(s: string, c: char, i: nat)
    requires i < |s| && s[i] == c && c !in s[i + 1..]
    ensures LastIndexOf(s, c) == Some(i)
    decreases |s|
  {
    if i < |s| - 1 {
      var init := s[..|s| - 1];
      assert s[|s| - 1] == s[i + 1..][|s| - 2 - i];
      assert init[i + 1..] == s[i + 1..|s| - 1];
      var tail, whole := init[i + 1..], s[i + 1..];
      assert c !in tail by {
        forall j | 0 <= j < |tail| ensures tail[j] != c {
          assert tail[j] == whole[j];
        }
      }
      LastIndexOfIs(init, c, i);
    }
  }


}
