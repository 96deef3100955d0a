/** queuer_kcna.py: reads the git logs left by a mirroring run, copies every
    article they mention from the mirror into the jsonifier's inbox under a
    canonical per-day file name, and archives a log only when every copy it
    asked for succeeded. */
module Queuer {
  import opened PyStr
  import opened Archive

  // ---------------------------------------------------------------------
  // REGEX_GITLOG
  // ---------------------------------------------------------------------

  /** The named groups of REGEX_GITLOG below the action: `filepath` and the
      groups nested in it. */
  datatype PathGroups = PathGroups(filepath: string, year: string, yearSmall: string,
                                   month: string, newsDir: string, file: string)

  /** A match of REGEX_GITLOG: the action letter, the length of the tab run,
      and the path groups. */
  datatype LogMatch = LogMatch(action: char, tabs: nat, groups: PathGroups)

  /** `(?:9\d|20\d\d)`. */
  predicate IsYearSmall(s: string)
  {
    (|s| == 2 && s[0] == '9' && IsDigit(s[1]))
    || (|s| == 4 && s[0] == '2' && s[1] == '0' && IsDigit(s[2]) && IsDigit(s[3]))
  }

  /** `\d\d.htm`, the old-era name; the unescaped `.` is any character but a newline. */
  predicate IsOldFile(f: string)
  {
    |f| == 6 && IsDigit(f[0]) && IsDigit(f[1]) && f[2] != '\n' && f[3] == 'h' && f[4] == 't' && f[5] == 'm'
  }

  /** `\d\d\d\d\d\d\d\d-\d\dee.html`, the new-era name; again the dot is any
      character but a newline. */
  predicate IsNewFile(f: string)
  {
    |f| == 18 && IsDigit(f[0]) && IsDigit(f[1]) && IsDigit(f[2]) && IsDigit(f[3])
    && IsDigit(f[4]) && IsDigit(f[5]) && IsDigit(f[6]) && IsDigit(f[7]) && f[8] == '-' && IsDigit(f[9]) && IsDigit(f[10])
    && f[11] == 'e' && f[12] == 'e' && f[13] != '\n' && f[14] == 'h' && f[15] == 't' && f[16] == 'm' && f[17] == 'l'
  }

  /** The `filepath` group assembled from its sub-groups. */
  function ArticlePath(year: string, yearSmall: string, month: string, newsDir: string, file: string): string
  {
    "item/" + (year + ("/" + (yearSmall + (month + ("/news" + (newsDir + ("/" + file)))))))
  }

  /** Every group has the shape its part of REGEX_GITLOG demands. */
  predicate WellFormedGroups(g: PathGroups)
  {
    |g.year| == 4 && AllDigits(g.year) && IsYearSmall(g.yearSmall)
    && |g.month| == 2 && AllDigits(g.month)
    && 1 <= |g.newsDir| <= 2 && AllDigits(g.newsDir)
    && (IsOldFile(g.file) || IsNewFile(g.file))
    && g.filepath == ArticlePath(g.year, g.yearSmall, g.month, g.newsDir, g.file)
  }

  predicate WellFormed(m: LogMatch)
  {
    (m.action == 'M' || m.action == 'A') && m.tabs >= 1 && WellFormedGroups(m.groups)
  }

  function Tabs(n: nat): (r: string)
    ensures |r| == n && forall i :: 0 <= i < n ==> r[i] == '\t'
  {
    seq(n, _ => '\t')
  }

  /** The log line a match stands for (without the optional final newline). */
  function LogLine(m: LogMatch): string
  {
    [m.action] + Tabs(m.tabs) + m.groups.filepath
  }

  /** `$` without MULTILINE matches at the end and before a final newline. */
  function DropFinalNewline(s: string): (r: string)
  {
    if |s| > 0 && s[|s| - 1] == '\n' then s[..|s| - 1] else s
  }

  function TabRun(s: string): (n: nat)
    ensures n <= |s| && (forall i :: 0 <= i < n ==> s[i] == '\t') && (n < |s| ==> s[n] != '\t')
  {
    if s != [] && s[0] == '\t' then 1 + TabRun(s[1..]) else 0
  }

  /** `item/\d\d\d\d/` at the start of `p`. */
  predicate ItemYearAt(p: string)
  {
    10 <= |p| && p[0] == 'i' && p[1] == 't' && p[2] == 'e' && p[3] == 'm' && p[4] == '/'
    && IsDigit(p[5]) && IsDigit(p[6]) && IsDigit(p[7]) && IsDigit(p[8]) && p[9] == '/'
  }

  /** `\d\d/news` at `i`. */
  predicate MonthNewsAt(p: string, i: nat)
  {
    i + 7 <= |p| && IsDigit(p[i]) && IsDigit(p[i + 1])
    && p[i + 2] == '/' && p[i + 3] == 'n' && p[i + 4] == 'e' && p[i + 5] == 'w' && p[i + 6] == 's'
  }

  lemma ItemYearAtIff(p: string)
    ensures ItemYearAt(p) <==> 10 <= |p| && p[..5] == "item/" && AllDigits(p[5..9]) && p[9] == '/'
  {
    if 10 <= |p| {
      assert p[..5] == "item/" <==> p[0] == 'i' && p[1] == 't' && p[2] == 'e' && p[3] == 'm' && p[4] == '/' by {
        if p[0] == 'i' && p[1] == 't' && p[2] == 'e' && p[3] == 'm' && p[4] == '/' {
          assert p[..5] == [p[0], p[1], p[2], p[3], p[4]];
        }
      }
      var y := p[5..9];
      assert y[0] == p[5] && y[1] == p[6] && y[2] == p[7] && y[3] == p[8];
    }
  }

  lemma MonthNewsAtIff(p: string, i: nat)
    ensures MonthNewsAt(p, i) <==> i + 7 <= |p| && AllDigits(p[i..i + 2]) && p[i + 2..i + 7] == "/news"
  {
    if i + 7 <= |p| {
      var n := p[i + 2..i + 7];
      assert n == "/news" <==> n[0] == '/' && n[1] == 'n' && n[2] == 'e' && n[3] == 'w' && n[4] == 's' by {
        if n[0] == '/' && n[1] == 'n' && n[2] == 'e' && n[3] == 'w' && n[4] == 's' {
          assert n == [n[0], n[1], n[2], n[3], n[4]];
        }
      }
      var m := p[i..i + 2];
      assert m[0] == p[i] && m[1] == p[i + 1];
    }
  }

  /** The length of `(?:9\d|20\d\d)` at `i`, or 0 when neither alternative
      matches. The first character decides the alternative, so
      backtracking never changes the outcome. */
  function YearSmallLen(p: string, i: nat): nat
  {
    if i + 2 <= |p| && p[i] == '9' && IsDigit(p[i + 1]) then 2
    else if i + 4 <= |p| && p[i] == '2' && p[i + 1] == '0' && IsDigit(p[i + 2]) && IsDigit(p[i + 3]) then 4
    else 0
  }

  /** The length of `(?:\d|\d\d)` at `i` when a `/` follows it, or 0. */
  function NewsDirLen(p: string, i: nat): nat
  {
    if i + 1 < |p| && IsDigit(p[i]) && p[i + 1] == '/' then 1
    else if i + 2 < |p| && IsDigit(p[i]) && IsDigit(p[i + 1]) && p[i + 2] == '/' then 2
    else 0
  }

  /** The `filepath` group of REGEX_GITLOG, matched against the whole of `p`:
      `item/\d\d\d\d/`, the short year, `\d\d/news`, the newsN directory and
      `/`, then the file name up to the end. */
  function MatchArticlePath(p: string): Option<PathGroups>
  {
    var mo := 10 + YearSmallLen(p, 10);
    var nd := mo + 7;
    var ne := nd + NewsDirLen(p, nd);
    if ItemYearAt(p) && YearSmallLen(p, 10) != 0 && MonthNewsAt(p, mo) && NewsDirLen(p, nd) != 0
       && (IsOldFile(p[ne + 1..]) || IsNewFile(p[ne + 1..]))
    then Some(PathGroups(p, p[5..9], p[10..mo], p[mo..mo + 2], p[nd..ne], p[ne + 1..]))
    else None
  }

  /** `REGEX_GITLOG(line)`: `^(?:M|A)\t+(?P<filepath>item/...)$`. */
  function MatchGitLog(line: string): Option<LogMatch>
  {
    var s := DropFinalNewline(line);
    if |s| == 0 || !(s[0] == 'M' || s[0] == 'A') then None
    else
      var n := TabRun(s[1..]);
      if n == 0 then None
      else match MatchArticlePath(s[1 + n..])
        case None => None
        case Some(g) => Some(LogMatch(s[0], n, g))
  }

  // --- what the pattern accepts, exactly ---

  /** The positions MatchArticlePath reads, put back together. */
  lemma ArticlePathPieces(p: string, mo: nat, nd: nat, ne: nat)
    requires 10 <= mo && mo + 7 == nd && nd <= ne < |p|
    requires p[..5] == "item/" && p[9] == '/' && p[mo + 2..nd] == "/news" && p[ne] == '/'
    ensures p == ArticlePath(p[5..9], p[10..mo], p[mo..mo + 2], p[nd..ne], p[ne + 1..])
  {
    assert p[ne..] == "/" + p[ne + 1..];
    assert p[nd..] == p[nd..ne] + p[ne..];
    assert p[mo + 2..] == "/news" + p[nd..];
    assert p[mo..] == p[mo..mo + 2] + p[mo + 2..];
    assert p[10..] == p[10..mo] + p[mo..];
    assert p[9..] == "/" + p[10..];
    assert p[5..] == p[5..9] + p[9..];
    assert p == "item/" + p[5..];
  }

  lemma YearSmallLenShape(p: string, i: nat)
    requires YearSmallLen(p, i) != 0
    ensures i + YearSmallLen(p, i) <= |p| && IsYearSmall(p[i..i + YearSmallLen(p, i)])
  {
  }

  lemma NewsDirLenShape(p: string, i: nat)
    requires NewsDirLen(p, i) != 0
    ensures i + NewsDirLen(p, i) < |p| && AllDigits(p[i..i + NewsDirLen(p, i)]) && p[i + NewsDirLen(p, i)] == '/'
  {
  }

  lemma YearSmallLenOf(p: string, i: nat, y: string)
    requires i + |y| <= |p| && p[i..i + |y|] == y && IsYearSmall(y)
    ensures YearSmallLen(p, i) == |y|
  {
    assert p[i] == y[0] && p[i + 1] == y[1];
    if |y| == 4 {
      assert p[i + 2] == y[2] && p[i + 3] == y[3];
    }
  }

  lemma ItemYearOf(p: string, year: string)
    requires 10 <= |p| && p[..5] == "item/" && p[5..9] == year && AllDigits(year) && p[9] == '/'
    ensures ItemYearAt(p)
  {
    ItemYearAtIff(p);
  }

  lemma MonthNewsOf(p: string, i: nat, month: string)
    requires i + 7 <= |p| && p[i..i + 2] == month && AllDigits(month) && p[i + 2..i + 7] == "/news"
    ensures MonthNewsAt(p, i)
  {
    MonthNewsAtIff(p, i);
  }

  lemma NewsDirLenOf(p: string, i: nat, d: string)
    requires 1 <= |d| <= 2 && i + |d| < |p| && p[i..i + |d|] == d && AllDigits(d) && p[i + |d|] == '/'
    ensures NewsDirLen(p, i) == |d|
  {
    assert p[i] == d[0] && IsDigit(d[0]);
    if |d| == 2 {
      assert p[i + 1] == d[1] && IsDigit(d[1]);
    }
  }

  lemma MatchArticlePathSound(p: string, g: PathGroups)
    requires MatchArticlePath(p) == Some(g)
    ensures WellFormedGroups(g) && g.filepath == p
  {
    var mo := 10 + YearSmallLen(p, 10);
    var ne := mo + 7 + NewsDirLen(p, mo + 7);
    PathChecksShape(p, mo);
    PiecesWellFormed(p, mo, ne);
  }

  /** What the passing checks of MatchArticlePath say about the pieces. */
  lemma PathChecksShape(p: string, mo: nat)
    requires ItemYearAt(p) && YearSmallLen(p, 10) != 0 && mo == 10 + YearSmallLen(p, 10)
    requires MonthNewsAt(p, mo) && NewsDirLen(p, mo + 7) != 0
    ensures var ne := mo + 7 + NewsDirLen(p, mo + 7);
      10 < mo && mo + 7 <= ne < |p|
      && p[..5] == "item/" && AllDigits(p[5..9]) && p[9] == '/' && IsYearSmall(p[10..mo])
      && AllDigits(p[mo..mo + 2]) && p[mo + 2..mo + 7] == "/news"
      && 1 <= ne - (mo + 7) <= 2 && AllDigits(p[mo + 7..ne]) && p[ne] == '/'
  {
    ItemYearAtIff(p);
    YearSmallLenShape(p, 10);
    MonthNewsAtIff(p, mo);
    NewsDirLenShape(p, mo + 7);
  }

  /** A path cut at the positions MatchArticlePath finds, with pieces of
      the right shapes, gives well-formed groups. */
  lemma PiecesWellFormed(p: string, mo: nat, ne: nat)
    requires 10 < mo && mo + 7 <= ne < |p|
    requires p[..5] == "item/" && AllDigits(p[5..9]) && p[9] == '/' && IsYearSmall(p[10..mo])
    requires AllDigits(p[mo..mo + 2]) && p[mo + 2..mo + 7] == "/news"
    requires 1 <= ne - (mo + 7) <= 2 && AllDigits(p[mo + 7..ne]) && p[ne] == '/'
    requires IsOldFile(p[ne + 1..]) || IsNewFile(p[ne + 1..])
    ensures WellFormedGroups(PathGroups(p, p[5..9], p[10..mo], p[mo..mo + 2], p[mo + 7..ne], p[ne + 1..]))
  {
    assert |p[5..9]| == 4 && |p[mo..mo + 2]| == 2 && 1 <= |p[mo + 7..ne]| <= 2;
    ArticlePathPieces(p, mo, mo + 7, ne);
  }

  /** The groups of `g` sit in `p` where MatchArticlePath looks for them. */
  predicate PiecesAt(p: string, g: PathGroups)
  {
    var mo := 10 + |g.yearSmall|;
    var nd := mo + 7;
    var ne := nd + |g.newsDir|;
    ne < |p| && p[..5] == "item/" && p[5..9] == g.year && p[9] == '/' && p[10..mo] == g.yearSmall
    && p[mo..mo + 2] == g.month && p[mo + 2..nd] == "/news" && p[nd..ne] == g.newsDir
    && p[ne] == '/' && p[ne + 1..] == g.file
  }

  /** The positions of the pieces of an assembled path. */
  lemma ArticlePathSplit(year: string, yearSmall: string, month: string, newsDir: string, file: string)
    requires |year| == 4 && |month| == 2
    ensures var p := ArticlePath(year, yearSmall, month, newsDir, file);
            var mo := 10 + |yearSmall|;
            var nd := mo + 7;
            var ne := nd + |newsDir|;
            ne < |p| && p[..5] == "item/" && p[5..9] == year && p[9] == '/' && p[10..mo] == yearSmall
            && p[mo..mo + 2] == month && p[mo + 2..nd] == "/news" && p[nd..ne] == newsDir
            && p[ne] == '/' && p[ne + 1..] == file
  {
    var p := ArticlePath(year, yearSmall, month, newsDir, file);
    assert p[..5] == "item/" && p[5..] == year + ("/" + (yearSmall + (month + ("/news" + (newsDir + ("/" + file))))));
    PathTailPieces(p, year, yearSmall, month, newsDir, file);
  }

  /** The pieces after `item/`, one at a time. */
  lemma PathTailPieces(p: string, year: string, yearSmall: string, month: string, newsDir: string, file: string)
    requires 5 <= |p| && p[5..] == year + ("/" + (yearSmall + (month + ("/news" + (newsDir + ("/" + file))))))
    requires |year| == 4 && |month| == 2
    ensures 17 + |yearSmall| + |newsDir| < |p|
    ensures p[5..9] == year && p[9] == '/' && p[10..10 + |yearSmall|] == yearSmall
    ensures p[10 + |yearSmall|..12 + |yearSmall|] == month && p[12 + |yearSmall|..17 + |yearSmall|] == "/news"
    ensures p[17 + |yearSmall|..17 + |yearSmall| + |newsDir|] == newsDir
    ensures p[17 + |yearSmall| + |newsDir|] == '/' && p[18 + |yearSmall| + |newsDir|..] == file
  {
    PieceAt(p, 5, year, "/" + (yearSmall + (month + ("/news" + (newsDir + ("/" + file))))));
    PieceAt(p, 9, "/", yearSmall + (month + ("/news" + (newsDir + ("/" + file)))));
    MonthPieces(p, 10, yearSmall, month, newsDir, file);
  }

  /** The pieces from the short year on. */
  lemma MonthPieces(p: string, i: nat, yearSmall: string, month: string, newsDir: string, file: string)
    requires i <= |p| && p[i..] == yearSmall + (month + ("/news" + (newsDir + ("/" + file))))
    requires |month| == 2
    ensures i + 7 + |yearSmall| + |newsDir| < |p|
    ensures p[i..i + |yearSmall|] == yearSmall
    ensures p[i + |yearSmall|..i + 2 + |yearSmall|] == month && p[i + 2 + |yearSmall|..i + 7 + |yearSmall|] == "/news"
    ensures p[i + 7 + |yearSmall|..i + 7 + |yearSmall| + |newsDir|] == newsDir
    ensures p[i + 7 + |yearSmall| + |newsDir|] == '/' && p[i + 8 + |yearSmall| + |newsDir|..] == file
  {
    var mo := i + |yearSmall|;
    PieceAt(p, i, yearSmall, month + ("/news" + (newsDir + ("/" + file))));
    PieceAt(p, mo, month, "/news" + (newsDir + ("/" + file)));
    PieceAt(p, mo + 2, "/news", newsDir + ("/" + file));
    NewsPieces(p, mo + 7, newsDir, file);
  }

  /** The news directory, its slash and the file name. */
  lemma NewsPieces(p: string, nd: nat, newsDir: string, file: string)
    requires nd <= |p| && p[nd..] == newsDir + ("/" + file)
    ensures nd + |newsDir| < |p| && p[nd..nd + |newsDir|] == newsDir
    ensures p[nd + |newsDir|] == '/' && p[nd + |newsDir| + 1..] == file
  {
    PieceAt(p, nd, newsDir, "/" + file);
    PieceAt(p, nd + |newsDir|, "/", file);
  }

  /** A suffix that is `a + b` holds `a` first, then `b`. */
  lemma PieceAt(p: string, i: nat, a: string, b: string)
    requires i <= |p| && p[i..] == a + b
    ensures i + |a| <= |p| && p[i..i + |a|] == a && p[i + |a|..] == b
    ensures |a| == 1 ==> p[i] == a[0]
  {
    assert p[i..i + |a|] == p[i..][..|a|];
    assert p[i + |a|..] == p[i..][|a|..];
  }

  /** MatchArticlePath reads the pieces back from their positions. */
  lemma MatchArticlePathAt(p: string, g: PathGroups)
    requires |g.year| == 4 && AllDigits(g.year) && IsYearSmall(g.yearSmall)
    requires |g.month| == 2 && AllDigits(g.month) && 1 <= |g.newsDir| <= 2 && AllDigits(g.newsDir)
    requires IsOldFile(g.file) || IsNewFile(g.file)
    requires p == g.filepath && PiecesAt(p, g)
    ensures MatchArticlePath(p) == Some(g)
  {
    PathChecksPass(p, g);
    MatchArticlePathOf(p, 10 + |g.yearSmall|, 17 + |g.yearSmall| + |g.newsDir|);
  }

  /** Each check of MatchArticlePath passes on the pieces of `g`. */
  lemma PathChecksPass(p: string, g: PathGroups)
    requires |g.year| == 4 && AllDigits(g.year) && IsYearSmall(g.yearSmall)
    requires |g.month| == 2 && AllDigits(g.month) && 1 <= |g.newsDir| <= 2 && AllDigits(g.newsDir)
    requires PiecesAt(p, g)
    ensures ItemYearAt(p) && YearSmallLen(p, 10) == |g.yearSmall| && MonthNewsAt(p, 10 + |g.yearSmall|)
    ensures NewsDirLen(p, 17 + |g.yearSmall|) == |g.newsDir|
  {
    var mo := 10 + |g.yearSmall|;
    ItemYearOf(p, g.year);
    YearSmallLenOf(p, 10, g.yearSmall);
    MonthNewsOf(p, mo, g.month);
    NewsDirLenOf(p, mo + 7, g.newsDir);
  }

  /** MatchArticlePath once each of its checks is known to pass. */
  lemma MatchArticlePathOf(p: string, mo: nat, ne: nat)
    requires ItemYearAt(p) && YearSmallLen(p, 10) == mo - 10 && YearSmallLen(p, 10) != 0
    requires MonthNewsAt(p, mo) && NewsDirLen(p, mo + 7) == ne - mo - 7 && NewsDirLen(p, mo + 7) != 0
    requires IsOldFile(p[ne + 1..]) || IsNewFile(p[ne + 1..])
    ensures MatchArticlePath(p) == Some(PathGroups(p, p[5..9], p[10..mo], p[mo..mo + 2], p[mo + 7..ne], p[ne + 1..]))
  {
  }

  lemma MatchArticlePathComplete(g: PathGroups)
    requires WellFormedGroups(g)
    ensures MatchArticlePath(g.filepath) == Some(g)
  {
    GroupsPiecesAt(g);
    MatchArticlePathAt(g.filepath, g);
  }

  /** The groups of a well-formed match sit where MatchArticlePath looks. */
  lemma GroupsPiecesAt(g: PathGroups)
    requires |g.year| == 4 && |g.month| == 2
    requires g.filepath == ArticlePath(g.year, g.yearSmall, g.month, g.newsDir, g.file)
    ensures PiecesAt(g.filepath, g)
  {
    ArticlePathSplit(g.year, g.yearSmall, g.month, g.newsDir, g.file);
  }

  /** A line the pattern accepts is the line of a well-formed match,
      followed by at most one newline. */
  lemma MatchGitLogSound(line: string, m: LogMatch)
    requires MatchGitLog(line) == Some(m)
    ensures WellFormed(m)
    ensures line == LogLine(m) || line == LogLine(m) + "\n"
  {
    var s := DropFinalNewline(line);
    var n := TabRun(s[1..]);
    MatchArticlePathSound(s[1 + n..], m.groups);
    TabsThenRest(s, n, m.groups);
    DropFinalNewlineBack(line);
  }

  lemma TabsThenRest(s: string, n: nat, g: PathGroups)
    requires 1 <= |s| && n == TabRun(s[1..]) && g.filepath == s[1 + n..]
    ensures s == LogLine(LogMatch(s[0], n, g))
  {
    assert s == [s[0]] + s[1..1 + n] + s[1 + n..];
    assert s[1..1 + n] == Tabs(n);
  }

  lemma DropFinalNewlineBack(line: string)
    ensures line == DropFinalNewline(line) || line == DropFinalNewline(line) + "\n"
  {
    if |line| > 0 && line[|line| - 1] == '\n' {
      assert line == line[..|line| - 1] + "\n";
    }
  }

  /** Every well-formed match is accepted, with or without a final newline,
      and the pattern gives back exactly its groups. */
  lemma MatchGitLogComplete(m: LogMatch)
    requires WellFormed(m)
    ensures MatchGitLog(LogLine(m)) == Some(m)
    ensures MatchGitLog(LogLine(m) + "\n") == Some(m)
  {
    var line := LogLine(m);
    var p := m.groups.filepath;
    var f := m.groups.file;
    assert p == ArticlePath(m.groups.year, m.groups.yearSmall, m.groups.month, m.groups.newsDir, f);
    assert p[|p| - 1] == f[|f| - 1];
    assert line[|line| - 1] == p[|p| - 1];
    assert DropFinalNewline(line) == line;
    assert DropFinalNewline(line + "\n") == line;
    assert line[1..] == Tabs(m.tabs) + p;
    TabRunPrefix(m.tabs, p);
    assert line[1 + m.tabs..] == p;
    MatchArticlePathComplete(m.groups);
  }

  lemma {:induction false} TabRunPrefix(n: nat, p: string)
    requires p != [] && p[0] == 'i'
    ensures TabRun(Tabs(n) + p) == n
  {
    if n > 0 {
      assert (Tabs(n) + p)[1..] == Tabs(n - 1) + p;
      TabRunPrefix(n - 1, p);
    } else {
      assert Tabs(0) + p == p;
    }
  }

  /** The pattern is unambiguous: one line, one set of groups. In
      particular the year and the month of a line are determined by it. */
  lemma LogLineUnambiguous(m1: LogMatch, m2: LogMatch)
    requires WellFormed(m1) && WellFormed(m2)
    requires LogLine(m1) == LogLine(m2)
    ensures m1 == m2
  {
    MatchGitLogComplete(m1);
    MatchGitLogComplete(m2);
  }

  // ---------------------------------------------------------------------
  // REGEX_FILENAME_NEW / OLD and _get_filename_post
  // ---------------------------------------------------------------------

  /** `_get_filename_post`: a new-era file name is kept; an old-era `DD.htm`
      becomes `<year><month><splitext(file)[0]>-00ee.html`, taking the year
      from `item/YYYY/` and the month from after the short year; anything
      else is unrecognised. */
  function FilenamePost(m: LogMatch): Option<string>
  {
    var f := m.groups.file;
    if IsNewFile(DropFinalNewline(f)) then Some(f)
    else if IsOldFile(DropFinalNewline(f)) then Some(m.groups.year + m.groups.month + SplitExtRoot(f) + "-00ee.html")
    else None
  }

  /** For every line REGEX_GITLOG accepts, the file name is recognised. */
  lemma FilenamePostTotal(line: string)
    requires MatchGitLog(line).Some?
    ensures FilenamePost(MatchGitLog(line).value).Some?
  {
    MatchGitLogSound(line, MatchGitLog(line).value);
    var f := MatchGitLog(line).value.groups.file;
    assert f[|f| - 1] != '\n';
  }

  /** A new-era name is returned unchanged. */
  lemma FilenamePostNew(m: LogMatch)
    requires WellFormed(m) && IsNewFile(m.groups.file)
    ensures FilenamePost(m) == Some(m.groups.file)
  {
    assert DropFinalNewline(m.groups.file) == m.groups.file;
  }

  lemma NewNameFromDigits(d: string)
    requires |d| == 8 && AllDigits(d)
    ensures IsNewFile(d + "-00ee.html")
  {
    var r := d + "-00ee.html";
    assert r[..8] == d;
    assert r[8] == '-' && r[9] == '0' && r[10] == '0' && r[13] == '.';
    assert r[11..13] == "ee" && r[14..] == "html";
  }

  /** An old-era `DD.htm` becomes `<year><month>DD-00ee.html`, which is
      itself a new-era name (so normalising it again keeps it). */
  lemma FilenamePostOld(m: LogMatch)
    requires WellFormed(m) && IsOldFile(m.groups.file) && m.groups.file[2] == '.'
    ensures FilenamePost(m) == Some(m.groups.year + m.groups.month + m.groups.file[..2] + "-00ee.html")
    ensures IsNewFile(FilenamePost(m).value)
  {
    var f := m.groups.file;
    assert DropFinalNewline(f) == f;
    assert !IsNewFile(f);
    assert f == f[..2] + "." + "htm";
    SplitExtDotted(f[..2], "htm");
    var d := m.groups.year + m.groups.month + f[..2];
    assert forall i :: 0 <= i < 8 ==> IsDigit(d[i]) by {
      forall i | 0 <= i < 8 ensures IsDigit(d[i]) {
        if i < 4 { assert d[i] == m.groups.year[i]; }
        else if i < 6 { assert d[i] == m.groups.month[i - 4]; }
        else { assert d[i] == f[i - 6]; }
      }
    }
    NewNameFromDigits(d);
  }

  /** The canonical name depends on the year directory, the month and the
      file name only; the `newsN` directory plays no part. */
  lemma FilenamePostIgnoresNewsDir(m: LogMatch, nd: string)
    ensures FilenamePost(LogMatch(m.action, m.tabs, m.groups.(newsDir := nd))) == FilenamePost(m)
  {
  }

  /** Because the dot of `\d\d.htm` is unescaped, `DDxhtm` is accepted too;
      `splitext` then finds no extension and the whole name is kept. */
  lemma FilenamePostOldOddDot(m: LogMatch)
    requires WellFormed(m) && IsOldFile(m.groups.file) && m.groups.file[2] != '.'
    ensures FilenamePost(m) == Some(m.groups.year + m.groups.month + m.groups.file + "-00ee.html")
    ensures !IsNewFile(FilenamePost(m).value)
  {
    var f := m.groups.file;
    assert DropFinalNewline(f) == f;
    assert '.' !in f by {
      assert f == [f[0], f[1], f[2], 'h', 't', 'm'];
    }
    SplitExtNoDot(f);
  }

  /** The groups of a path, the path being assembled from them. */
  function Groups(year: string, yearSmall: string, month: string, newsDir: string, file: string): (g: PathGroups)
    ensures g.year == year && g.yearSmall == yearSmall && g.month == month && g.newsDir == newsDir && g.file == file
  {
    PathGroups(ArticlePath(year, yearSmall, month, newsDir, file), year, yearSmall, month, newsDir, file)
  }

  /** The match of `M<TAB>item/1998/9806/news06/10.htm`, an old-era example
      of the source's header comment. */
  const OldExample := LogMatch('M', 1, Groups("1998", "98", "06", "06", "10.htm"))

  /** The match of `A<TAB><TAB>item/2008/200810/news01/20081001-01ee.html`,
      the new-era example of the source's header comment. */
  const NewExample := LogMatch('A', 2, Groups("2008", "2008", "10", "01", "20081001-01ee.html"))

  /** `item/1997/9806/news1/01.htm`: a 1997 year directory holding a `98xx`
      month directory. */
  const MixedYearExample := LogMatch('A', 1, Groups("1997", "98", "06", "1", "01.htm"))

  lemma OldExampleWellFormed()
    ensures WellFormed(OldExample)
  {
  }

  lemma NewExampleWellFormed()
    ensures WellFormed(NewExample)
  {
    NewExampleFile();
  }

  lemma NewExampleFile()
    ensures IsNewFile("20081001-01ee.html")
  {
  }

  lemma MixedYearExampleWellFormed()
    ensures WellFormed(MixedYearExample)
  {
  }

  /** The old-era example line, read from a log with its line break, is
      accepted with exactly these groups. */
  lemma OldExampleLineMatches()
    ensures MatchGitLog(LogLine(OldExample) + "\n") == Some(OldExample)
  {
    OldExampleWellFormed();
    MatchGitLogComplete(OldExample);
  }

  /** The old-era article is queued as `19980610-00ee.html`. */
  lemma OldExampleName()
    ensures FilenamePost(OldExample) == Some("1998" + "06" + "10" + "-00ee.html")
  {
    OldExampleWellFormed();
    FilenamePostOld(OldExample);
    assert OldExample.groups.file[..2] == "10";
  }

  /** The new-era article keeps its name. */
  lemma NewExampleName()
    ensures FilenamePost(NewExample) == Some("20081001-01ee.html")
  {
    NewExampleWellFormed();
    FilenamePostNew(NewExample);
  }

  /** The year directory and the short year are never compared: the 1997
      directory yields a 1997 name although the month directory says 98. */
  lemma MixedYearExampleName()
    ensures FilenamePost(MixedYearExample) == Some("1997" + "06" + "01" + "-00ee.html")
  {
    MixedYearExampleWellFormed();
    FilenamePostOld(MixedYearExample);
    assert MixedYearExample.groups.file[..2] == "01";
  }

  // ---------------------------------------------------------------------
  // _filter_log_lines
  // ---------------------------------------------------------------------

  /** `_filter_log_lines(lines, REGEX_GITLOG)`: for every accepted line, in
      order, the pair (`filepath` group, `_get_filename_post`). */
  function FilterLogLines(lines: seq<string>): seq<(string, Option<string>)>
    decreases |lines|, 1
  {
    if lines == [] then [] else EntryThen(lines[0], lines[1..])
  }

  /** What one line contributes, followed by the rest of the log. */
  function EntryThen(line: string, rest: seq<string>): seq<(string, Option<string>)>
    decreases |rest| + 1, 0
  {
    LineEntry(line) + FilterLogLines(rest)
  }

  /** The pair of an accepted line, or nothing. */
  function LineEntry(line: string): seq<(string, Option<string>)>
  {
    match MatchGitLog(line)
    case None => []
    case Some(m) => [(m.groups.filepath, FilenamePost(m))]
  }

  /** Filtering a log is filtering its parts in turn: matches stay in input
      order and each line contributes on its own. */
  lemma {:induction false} FilterLogLinesAppend(a: seq<string>, b: seq<string>)
    ensures FilterLogLines(a + b) == FilterLogLines(a) + FilterLogLines(b)
  {
    if a == [] {
      assert a + b == b;
    } else {
      assert (a + b)[0] == a[0];
      assert (a + b)[1..] == a[1..] + b;
      FilterLogLinesAppend(a[1..], b);
    }
  }

  /** One line contributes its path (without action and tabs) and canonical
      name when the pattern accepts it, and nothing otherwise. */
  lemma FilterLogLinesSingle(line: string)
    ensures MatchGitLog(line).None? ==> FilterLogLines([line]) == []
    ensures MatchGitLog(line).Some? ==>
      FilterLogLines([line]) == [(MatchGitLog(line).value.groups.filepath, FilenamePost(MatchGitLog(line).value))]
  {
    assert [line][1..] == [];
    assert FilterLogLines([line]) == EntryThen(line, []);
    assert EntryThen(line, []) == LineEntry(line) + [];
  }

  /** No accepted line has an unrecognised file name, and no more pairs
      than lines come out. */
  lemma {:induction false} FilterLogLinesPosts(lines: seq<string>)
    ensures |FilterLogLines(lines)| <= |lines|
    ensures forall k :: 0 <= k < |FilterLogLines(lines)| ==> FilterLogLines(lines)[k].1.Some?
  {
    if lines != [] {
      FilterLogLinesPosts(lines[1..]);
      if MatchGitLog(lines[0]).Some? {
        FilenamePostTotal(lines[0]);
      }
    }
  }

  // ---------------------------------------------------------------------
  // The copy loop and the archive rule of main
  // ---------------------------------------------------------------------

  predicate AllNamed(entries: seq<(string, Option<string>)>)
  {
    forall k :: 0 <= k < |entries| ==> entries[k].1.Some?
  }

  /** `queued_articles` after the copy loop: the copies whose source exists
      in the mirror (`shutil.copy2` raises IOError for the others). */
  function Queued(entries: seq<(string, Option<string>)>, mirror: map<string, string>): nat
  {
    if entries == [] then 0
    else Queued(entries[..|entries| - 1], mirror) + (if entries[|entries| - 1].0 in mirror then 1 else 0)
  }

  /** The jsonifier inbox after the copy loop: each successful copy writes
      (or overwrites) its canonical name; failed copies write nothing. */
  function Copied(entries: seq<(string, Option<string>)>, mirror: map<string, string>, inbox: map<string, string>): map<string, string>
    requires AllNamed(entries)
  {
    if entries == [] then inbox
    else
      var prev := Copied(entries[..|entries| - 1], mirror, inbox);
      var (pre, post) := entries[|entries| - 1];
      if pre in mirror then prev[post.value := mirror[pre]] else prev
  }

  /** `queued_articles <= total_articles`, with equality exactly when every
      listed article is present in the mirror. */
  lemma {:induction false} QueuedBound(entries: seq<(string, Option<string>)>, mirror: map<string, string>)
    ensures Queued(entries, mirror) <= |entries|
    ensures Queued(entries, mirror) == |entries| <==> forall k :: 0 <= k < |entries| ==> entries[k].0 in mirror
  {
    if entries != [] {
      var init := entries[..|entries| - 1];
      QueuedBound(init, mirror);
      assert forall k :: 0 <= k < |init| ==> init[k] == entries[k];
    }
  }

  /** The targets of the copies that succeeded. */
  function Targets(entries: seq<(string, Option<string>)>, mirror: map<string, string>): set<string>
    requires AllNamed(entries)
  {
    set k | 0 <= k < |entries| && entries[k].0 in mirror :: entries[k].1.value
  }

  /** Copies are never undone: every successful copy is in the inbox after
      the loop, whatever failed around it; other files keep their content. */
  lemma {:induction false} CopiedKeys(entries: seq<(string, Option<string>)>, mirror: map<string, string>, inbox: map<string, string>)
    requires AllNamed(entries)
    ensures Copied(entries, mirror, inbox).Keys == inbox.Keys + Targets(entries, mirror)
    ensures forall n :: n in inbox && n !in Targets(entries, mirror) ==> Copied(entries, mirror, inbox)[n] == inbox[n]
  {
    if entries != [] {
      var init := entries[..|entries| - 1];
      assert AllNamed(init);
      CopiedKeys(init, mirror, inbox);
      var last := |entries| - 1;
      assert forall k :: 0 <= k < |init| ==> init[k] == entries[k];
      if entries[last].0 in mirror {
        assert Targets(entries, mirror) == Targets(init, mirror) + {entries[last].1.value};
      } else {
        assert Targets(entries, mirror) == Targets(init, mirror);
      }
    }
  }

  /** Entry `k` is the last successful copy onto `t`. */
  predicate LastCopyTo(entries: seq<(string, Option<string>)>, mirror: map<string, string>, t: string, k: int)
  {
    0 <= k < |entries| && entries[k].0 in mirror && entries[k].1 == Some(t)
    && forall j :: k < j < |entries| && entries[j].0 in mirror ==> entries[j].1 != Some(t)
  }

  /** What each copied file holds: the mirror content of the last entry
      copied onto it, since a later `copy2` onto the same name overwrites
      the earlier one. */
  lemma {:induction false} CopiedContents(entries: seq<(string, Option<string>)>, mirror: map<string, string>, inbox: map<string, string>)
    requires AllNamed(entries)
    ensures forall t :: t in Targets(entries, mirror) ==>
      t in Copied(entries, mirror, inbox)
      && exists k :: LastCopyTo(entries, mirror, t, k) && Copied(entries, mirror, inbox)[t] == mirror[entries[k].0]
  {
    CopiedKeys(entries, mirror, inbox);
    if entries != [] {
      var init := entries[..|entries| - 1];
      var last := |entries| - 1;
      assert AllNamed(init);
      CopiedContents(init, mirror, inbox);
      CopiedKeys(init, mirror, inbox);
      forall t | t in Targets(entries, mirror)
        ensures exists k :: LastCopyTo(entries, mirror, t, k) && Copied(entries, mirror, inbox)[t] == mirror[entries[k].0]
      {
        if entries[last].0 in mirror && entries[last].1 == Some(t) {
          assert LastCopyTo(entries, mirror, t, last);
        } else {
          TargetsOfInit(entries, mirror, t);
          var k :| LastCopyTo(init, mirror, t, k) && Copied(init, mirror, inbox)[t] == mirror[init[k].0];
          LastCopyExtend(entries, mirror, t, k);
        }
      }
    }
  }

  /** A target that the last entry does not copy onto was a target before it. */
  lemma TargetsOfInit(entries: seq<(string, Option<string>)>, mirror: map<string, string>, t: string)
    requires AllNamed(entries) && entries != [] && t in Targets(entries, mirror)
    requires !(entries[|entries| - 1].0 in mirror && entries[|entries| - 1].1 == Some(t))
    ensures AllNamed(entries[..|entries| - 1]) && t in Targets(entries[..|entries| - 1], mirror)
  {
    var init := entries[..|entries| - 1];
    var k0 :| 0 <= k0 < |entries| && entries[k0].0 in mirror && entries[k0].1.value == t;
    assert k0 < |init| && init[k0] == entries[k0];
  }

  /** The last copy onto `t` stays the last when an entry copying elsewhere follows. */
  lemma LastCopyExtend(entries: seq<(string, Option<string>)>, mirror: map<string, string>, t: string, k: int)
    requires entries != [] && LastCopyTo(entries[..|entries| - 1], mirror, t, k)
    requires !(entries[|entries| - 1].0 in mirror && entries[|entries| - 1].1 == Some(t))
    ensures LastCopyTo(entries, mirror, t, k)
  {
    var init := entries[..|entries| - 1];
    assert forall j :: 0 <= j < |init| ==> init[j] == entries[j];
  }

  /** The copy loop of `main` over one log's entries: `total_articles`,
      `queued_articles` and the jsonifier inbox it leaves. */
  method CopyEntries(entries: seq<(string, Option<string>)>, mirror: map<string, string>, inbox: map<string, string>)
    returns (inbox': map<string, string>, total: nat, queued: nat)
    requires AllNamed(entries)
    ensures inbox' == Copied(entries, mirror, inbox)
    ensures total == |entries| && queued == Queued(entries, mirror)
  {
    inbox', total, queued := inbox, 0, 0;
    while total < |entries|
      invariant total <= |entries| && AllNamed(entries[..total])
      invariant queued == Queued(entries[..total], mirror)
      invariant inbox' == Copied(entries[..total], mirror, inbox)
    {
      assert entries[..total + 1][..total] == entries[..total];
      var (pre, post) := entries[total];
      if pre in mirror {
        inbox' := inbox'[post.value := mirror[pre]];
        queued := queued + 1;
      }
      total := total + 1;
    }
    assert entries[..total] == entries;
  }

  /** The directory state the queuer works on: QUEUER_INBOX_ROOT with its
      archive (git logs as their lines) and JSON_INBOX_ROOT (copied HTML). */
  datatype QueuerFs = QueuerFs(logs: Dirs<seq<string>>, jsonInbox: map<string, string>)

  /** One log's turn in the loop of `main`, given its entries: copy them
      all, and archive the log only when every copy succeeded. */
  function LogStep(fs: QueuerFs, name: string, entries: seq<(string, Option<string>)>,
                   mirror: map<string, string>, moveFails: set<string>): QueuerFs
    requires AllNamed(entries)
  {
    QueuerFs(if Queued(entries, mirror) == |entries| then Move(fs.logs, name, name !in moveFails) else fs.logs,
             Copied(entries, mirror, fs.jsonInbox))
  }

  /** How much a log adds to `processed_articles`: all its articles when
      every copy succeeded, nothing otherwise. */
  function LogProcessed(entries: seq<(string, Option<string>)>, mirror: map<string, string>): nat
  {
    if Queued(entries, mirror) == |entries| then |entries| else 0
  }

  /** `_filter_log_lines(f, REGEX_GITLOG)` of every log in the inbox, as the
      log reads when the run starts. */
  function ParsedLogs(inbox: map<string, seq<string>>): (r: map<string, seq<(string, Option<string>)>>)
    ensures r.Keys == inbox.Keys
    ensures forall n :: n in inbox ==> AllNamed(r[n])
  {
    FilterLogLinesPostsAll(inbox);
    map n | n in inbox :: FilterLogLines(inbox[n])
  }

  /** A log that still reads as it did at the start parses to its entry
      of ParsedLogs. */
  lemma ParsedLogsAt(inbox0: map<string, seq<string>>, inbox: map<string, seq<string>>, n: string)
    requires n in inbox0 && n in inbox && inbox[n] == inbox0[n]
    ensures ParsedLogs(inbox0)[n] == FilterLogLines(inbox[n])
  {
  }

  lemma FilterLogLinesPostsAll(inbox: map<string, seq<string>>)
    ensures forall n :: n in inbox ==> AllNamed(FilterLogLines(inbox[n]))
  {
    forall n | n in inbox ensures AllNamed(FilterLogLines(inbox[n])) {
      FilterLogLinesPosts(inbox[n]);
    }
  }

  /** The logs `names` each have their entries in `parsed`. */
  predicate Parsed(names: seq<string>, parsed: map<string, seq<(string, Option<string>)>>)
  {
    forall n :: n in names ==> n in parsed && AllNamed(parsed[n])
  }

  /** The directories after the logs `names` were handled in order by
      `main`, log `n` listing the entries `parsed[n]`. */
  function RunState(names: seq<string>, fs0: QueuerFs, parsed: map<string, seq<(string, Option<string>)>>,
                    mirror: map<string, string>, moveFails: set<string>): QueuerFs
    requires Parsed(names, parsed)
  {
    if names == [] then fs0
    else
      var name := names[|names| - 1];
      LogStep(RunState(names[..|names| - 1], fs0, parsed, mirror, moveFails), name, parsed[name], mirror, moveFails)
  }

  /** `processed_articles` after the logs `names`. */
  function RunProcessed(names: seq<string>, parsed: map<string, seq<(string, Option<string>)>>, mirror: map<string, string>): nat
    requires Parsed(names, parsed)
  {
    if names == [] then 0
    else RunProcessed(names[..|names| - 1], parsed, mirror) + LogProcessed(parsed[names[|names| - 1]], mirror)
  }

  /** A log that is not among `names` is not touched by handling them. */
  lemma {:induction false} RunStateLeavesOthers(names: seq<string>, fs0: QueuerFs, parsed: map<string, seq<(string, Option<string>)>>,
                                                mirror: map<string, string>, moveFails: set<string>, other: string)
    requires Parsed(names, parsed)
    requires other !in names && other in fs0.logs.inbox
    ensures other in RunState(names, fs0, parsed, mirror, moveFails).logs.inbox
    ensures RunState(names, fs0, parsed, mirror, moveFails).logs.inbox[other] == fs0.logs.inbox[other]
  {
    if names != [] {
      RunStateLeavesOthers(names[..|names| - 1], fs0, parsed, mirror, moveFails, other);
    }
  }

  /** One more log: the run over `names[..i + 1]` is the run over
      `names[..i]` followed by the turn of `names[i]`, which finds its log
      as it was at the start. */
  lemma RunStep(names: seq<string>, i: nat, fs0: QueuerFs, parsed: map<string, seq<(string, Option<string>)>>,
                mirror: map<string, string>, moveFails: set<string>)
    requires Distinct(names) && Parsed(names, parsed) && i < |names| && names[i] in fs0.logs.inbox
    ensures Parsed(names[..i], parsed) && Parsed(names[..i + 1], parsed)
    ensures names[i] in RunState(names[..i], fs0, parsed, mirror, moveFails).logs.inbox
    ensures RunState(names[..i], fs0, parsed, mirror, moveFails).logs.inbox[names[i]] == fs0.logs.inbox[names[i]]
    ensures RunState(names[..i + 1], fs0, parsed, mirror, moveFails)
      == LogStep(RunState(names[..i], fs0, parsed, mirror, moveFails), names[i], parsed[names[i]], mirror, moveFails)
    ensures RunProcessed(names[..i + 1], parsed, mirror) == RunProcessed(names[..i], parsed, mirror) + LogProcessed(parsed[names[i]], mirror)
  {
    assert names[..i + 1][..i] == names[..i];
    assert names[i] !in names[..i];
    RunStateLeavesOthers(names[..i], fs0, parsed, mirror, moveFails, names[i]);
  }

  /** The archive rule of the whole run: a listed log leaves the inbox
      exactly when all of its copies succeeded and its move did not fail,
      and it then sits in the archive with its content; otherwise it stays in
      the inbox unchanged. A log without any accepted line is archived. */
  lemma {:induction false} RunStateArchivesIff(names: seq<string>, fs0: QueuerFs, parsed: map<string, seq<(string, Option<string>)>>,
                                               mirror: map<string, string>, moveFails: set<string>, n: string)
    requires Distinct(names) && Parsed(names, parsed) && forall x :: x in names ==> x in fs0.logs.inbox
    requires n in names
    ensures var fs := RunState(names, fs0, parsed, mirror, moveFails);
      (n !in fs.logs.inbox <==> (forall k :: 0 <= k < |parsed[n]| ==> parsed[n][k].0 in mirror) && n !in moveFails)
      && (n !in fs.logs.inbox ==> n in fs.logs.archive && fs.logs.archive[n] == fs0.logs.inbox[n])
      && (n in fs.logs.inbox ==> fs.logs.inbox[n] == fs0.logs.inbox[n])
  {
    var init := names[..|names| - 1];
    assert Distinct(init) by {
      assert forall i :: 0 <= i < |init| ==> init[i] == names[i];
    }
    QueuedBound(parsed[n], mirror);
    if n == names[|names| - 1] {
      assert n !in init;
      RunStateLeavesOthers(init, fs0, parsed, mirror, moveFails, n);
    } else {
      assert n in init;
      RunStateArchivesIff(init, fs0, parsed, mirror, moveFails, n);
    }
  }

  /** All entries of the logs `names`. */
  function ListedArticles(names: seq<string>, parsed: map<string, seq<(string, Option<string>)>>): nat
    requires Parsed(names, parsed)
  {
    if names == [] then 0
    else ListedArticles(names[..|names| - 1], parsed) + |parsed[names[|names| - 1]]|
  }

  /** `processed_articles` never exceeds the articles the logs list, and
      reaches it exactly when every listed article was copied. */
  lemma {:induction false} RunProcessedBound(names: seq<string>, parsed: map<string, seq<(string, Option<string>)>>, mirror: map<string, string>)
    requires Parsed(names, parsed)
    ensures RunProcessed(names, parsed, mirror) <= ListedArticles(names, parsed)
    ensures RunProcessed(names, parsed, mirror) == ListedArticles(names, parsed) <==>
      forall n :: n in names ==> Queued(parsed[n], mirror) == |parsed[n]|
  {
    if names != [] {
      var init := names[..|names| - 1];
      RunProcessedBound(init, parsed, mirror);
      var last := names[|names| - 1];
      QueuedBound(parsed[last], mirror);
      assert forall n :: n in names <==> n in init || n == last;
    }
  }

  /** One log's turn in `main`: read the log, copy each listed article,
      and archive the log when nothing failed. */
  method QueueLog(fs: QueuerFs, name: string, mirror: map<string, string>, moveFails: set<string>)
    returns (fs': QueuerFs, total: nat, queued: nat)
    requires name in fs.logs.inbox
    ensures AllNamed(FilterLogLines(fs.logs.inbox[name]))
    ensures fs' == LogStep(fs, name, FilterLogLines(fs.logs.inbox[name]), mirror, moveFails)
    ensures total == |FilterLogLines(fs.logs.inbox[name])| && queued == Queued(FilterLogLines(fs.logs.inbox[name]), mirror)
    ensures queued <= total
  {
    var lines := fs.logs.inbox[name];
    var entries := FilterLogLines(lines);
    FilterLogLinesPosts(lines);
    var inbox;
    inbox, total, queued := CopyEntries(entries, mirror, fs.jsonInbox);
    QueuedBound(entries, mirror);
    var logs := fs.logs;
    if total == queued {
      logs := Move(logs, name, name !in moveFails);
    }
    fs' := QueuerFs(logs, inbox);
  }

  /** The loop of `main` over the log names `logs`, in order. */
  method QueueLogs(logs: seq<string>, fs: QueuerFs, mirror: map<string, string>, moveFails: set<string>)
    returns (fs': QueuerFs, processed: nat)
    requires Distinct(logs) && forall n :: n in logs ==> n in fs.logs.inbox
    ensures Parsed(logs, ParsedLogs(fs.logs.inbox))
    ensures fs' == RunState(logs, fs, ParsedLogs(fs.logs.inbox), mirror, moveFails)
    ensures processed == RunProcessed(logs, ParsedLogs(fs.logs.inbox), mirror)
  {
    ghost var parsed := ParsedLogs(fs.logs.inbox);
    fs', processed := fs, 0;
    var i := 0;
    assert logs[..0] == [];
    while i < |logs|
      invariant 0 <= i <= |logs| && Parsed(logs[..i], parsed)
      invariant fs' == RunState(logs[..i], fs, parsed, mirror, moveFails)
      invariant processed == RunProcessed(logs[..i], parsed, mirror)
    {
      RunStep(logs, i, fs, parsed, mirror, moveFails);
      ParsedLogsAt(fs.logs.inbox, fs'.logs.inbox, logs[i]);
      var next, total, queued := QueueLog(fs', logs[i], mirror, moveFails);
      if total == queued {
        processed := processed + total;
      }
      fs' := next;
      i := i + 1;
    }
    assert logs[..i] == logs;
  }

  /** `main`: every `.log` entry of the listing, in listing order. Returns
      the final directories, `processed_articles` and the number of logs. */
  method RunQueuer(listing: seq<string>, fs: QueuerFs, mirror: map<string, string>, moveFails: set<string>)
    returns (fs': QueuerFs, processed: nat, logCount: nat)
    requires Distinct(listing)
    requires forall n :: n in listing && SearchAnyThen(n, "log") ==> n in fs.logs.inbox
    ensures Distinct(FilterNames(listing, "log")) && Parsed(FilterNames(listing, "log"), ParsedLogs(fs.logs.inbox))
    ensures fs' == RunState(FilterNames(listing, "log"), fs, ParsedLogs(fs.logs.inbox), mirror, moveFails)
    ensures processed == RunProcessed(FilterNames(listing, "log"), ParsedLogs(fs.logs.inbox), mirror)
    ensures logCount == |FilterNames(listing, "log")|
  {
    var logs := FilterNames(listing, "log");
    FilterNamesDistinct(listing, "log");
    fs', processed := QueueLogs(logs, fs, mirror, moveFails);
    logCount := |logs|;
  }
}
