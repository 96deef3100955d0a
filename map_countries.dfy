/** The map-countries reporter: for every country named in the countries
    file it asks the article store for the articles that mention the
    country, and writes one CSV line per article, under a header. The
    store's text search is an oracle from search phrase to matching
    articles, in the order the store ranks them. */
module MapCountries {
  import opened PyStr

  // ---------------------------------------------------------------------
  // The countries file: lines of the form CODE|Name
  // ---------------------------------------------------------------------

  /** The length of the first line of `s`: up to and including its first
      newline, or all of `s`. */
  function LineLen(s: string): (k: nat)
    requires s != []
    ensures 1 <= k <= |s|
    ensures forall j :: 0 <= j < k - 1 ==> s[j] != '\n'
    ensures k < |s| ==> s[k - 1] == '\n'
    ensures '\n' in s ==> s[k - 1] == '\n'
  {
    if '\n' in s then IndexOf(s, '\n') + 1 else |s|
  }

  /** `for line in f`: the lines of the file, each with its newline; the
      last one has none when the file does not end in a newline. */
  function FileLines(s: string): (r: seq<string>)
    ensures forall k :: 0 <= k < |r| ==> r[k] != []
    decreases |s|
  {
    if s == [] then [] else var k := LineLen(s); [s[..k]] + FileLines(s[k..])
  }

  /** The lines of a file put back together are the file. */
  lemma {:induction false} FileLinesConcat(s: string)
    ensures Concat(FileLines(s)) == s
    decreases |s|
  {
    if s != [] {
      var k := LineLen(s);
      FileLinesConcat(s[k..]);
      assert s == s[..k] + s[k..];
    }
  }

  /** A line: text without a newline, then at most one newline. */
  predicate IsLine(line: string)
  {
    line != [] && forall j :: 0 <= j < |line| - 1 ==> line[j] != '\n'
  }

  /** A file written as lines, each but the last ending in a newline,
      reads back as those lines. */
  lemma {:induction false} FileLinesOf(lines: seq<string>)
    requires forall k :: 0 <= k < |lines| ==> IsLine(lines[k]) && (k < |lines| - 1 ==> lines[k][|lines[k]| - 1] == '\n')
    ensures FileLines(Concat(lines)) == lines
  {
    if lines != [] {
      var l, t := lines[0], Concat(lines[1..]);
      FileLinesOf(lines[1..]);
      assert |lines| > 1 ==> t != [] by {
        if |lines| > 1 {
          assert t == lines[1] + Concat(lines[2..]);
        }
      }
      FirstLineLen(l, t);
      assert (l + t)[..|l|] == l && (l + t)[|l|..] == t;
    }
  }

  /** The first line of a line followed by more text ends where the line
      ends, provided that it ends in a newline whenever text follows. */
  lemma FirstLineLen(l: string, t: string)
    requires IsLine(l) && (t == [] || l[|l| - 1] == '\n')
    ensures LineLen(l + t) == |l|
  {
    var s := l + t;
    assert forall j :: 0 <= j < |l| ==> s[j] == l[j];
  }

  /** `line.split("|")[1].rstrip('\n')`: the second `|` field without its
      trailing newlines. */
  function CountryName(line: string): (r: string)
    requires '|' in line
    ensures '|' !in r && (r == [] || r[|r| - 1] != '\n')
  {
    var fields := Split(line, '|');
    SplitSeveral(line, '|');
    SplitPiecesFree(line, '|');
    var r := RStripChar(fields[1], '\n');
    assert '|' !in r by {
      forall j | 0 <= j < |r| ensures r[j] != '|' {
        assert r[j] == fields[1][j];
      }
    }
    r
  }

  /** `CODE|Name` followed by a newline, by nothing, or by further `|`
      fields gives `Name`. */
  lemma CountryNameOf(code: string, name: string, tail: string)
    requires '|' !in code && '|' !in name && '\n' !in name
    requires tail == [] || tail == ['\n'] || tail[0] == '|'
    ensures CountryName(code + ['|'] + name + tail) == name
  {
    var line := code + ['|'] + name + tail;
    assert line == code + ['|'] + (name + tail);
    SplitAround(code, name + tail, '|');
    SplitAbsent(code, '|');
    var second := SecondField(name, tail);
    assert Split(line, '|')[1] == second;
    if second != name {
      assert second == name + ['\n'];
      assert RStripChar(second, '\n') == RStripChar(name, '\n');
    }
    assert name == [] || name[|name| - 1] != '\n';
  }

  /** The first `|` field of `name + tail`, in the cases of CountryNameOf. */
  lemma SecondField(name: string, tail: string) returns (second: string)
    requires '|' !in name && '\n' !in name
    requires tail == [] || tail == ['\n'] || tail[0] == '|'
    ensures Split(name + tail, '|')[0] == second
    ensures second == name || (tail == ['\n'] && second == name + ['\n'])
  {
    if tail == [] {
      assert name + tail == name;
      SplitAbsent(name, '|');
      second := name;
    } else if tail == ['\n'] {
      assert '|' !in name + tail;
      SplitAbsent(name + tail, '|');
      second := name + tail;
    } else {
      assert name + tail == name + ['|'] + tail[1..];
      SplitAround(name, tail[1..], '|');
      SplitAbsent(name, '|');
      second := name;
    }
  }

  /** What `_get_countries` ends with: the country names in file order,
      the IndexError of the first line without `|`, or the exit because
      the file is missing. */
  datatype Countries = Names(names: seq<string>) | BadLine(index: nat) | Missing

  /** The loop of `_get_countries` over the lines `lines`. */
  function ParseCountries(lines: seq<string>): (r: Countries)
    ensures !r.Missing?
  {
    if lines == [] then Names([])
    else
      var last := lines[|lines| - 1];
      var prev := ParseCountries(lines[..|lines| - 1]);
      if !prev.Names? then prev
      else if '|' in last then Names(prev.names + [CountryName(last)])
      else BadLine(|lines| - 1)
  }

  /** The names come back exactly when every line holds a `|`, one name per
      line and in order; otherwise the first line without one raises. */
  lemma {:induction false} ParseCountriesIff(lines: seq<string>)
    ensures var r := ParseCountries(lines);
      (r.Names? <==> forall k :: 0 <= k < |lines| ==> '|' in lines[k])
      && (r.Names? ==> |r.names| == |lines| && forall k :: 0 <= k < |lines| ==> r.names[k] == CountryName(lines[k]))
      && (r.BadLine? ==> r.index < |lines| && '|' !in lines[r.index] && forall k :: 0 <= k < r.index ==> '|' in lines[k])
  {
    if lines != [] {
      var init := lines[..|lines| - 1];
      ParseCountriesIff(init);
      assert forall k :: 0 <= k < |init| ==> init[k] == lines[k];
    }
  }

  /** `_get_countries()`, given the countries file's content, None when
      the file does not exist. */
  method GetCountries(file: Option<string>) returns (r: Countries)
    ensures file.None? <==> r.Missing?
    ensures file.Some? ==> r == ParseCountries(FileLines(file.value))
  {
    if file.None? {
      return Missing;
    }
    var lines := FileLines(file.value);
    var countries: seq<string> := [];
    var i := 0;
    while i < |lines|
      invariant i <= |lines|
      invariant ParseCountries(lines[..i]) == Names(countries)
    {
      assert lines[..i + 1][..i] == lines[..i];
      if '|' !in lines[i] {
        assert ParseCountries(lines[..i + 1]) == BadLine(i);
        RunOnAfterBadLine(lines, i + 1);
        assert lines[..|lines|] == lines;
        return BadLine(i);
      }
      countries := countries + [CountryName(lines[i])];
      i := i + 1;
    }
    assert lines[..i] == lines;
    r := Names(countries);
  }

  /** After a line raised, the later lines change nothing. */
  lemma {:induction false} RunOnAfterBadLine(lines: seq<string>, i: nat)
    requires 1 <= i <= |lines| && ParseCountries(lines[..i]).BadLine?
    ensures ParseCountries(lines) == ParseCountries(lines[..i])
    decreases |lines|
  {
    if i < |lines| {
      var init := lines[..|lines| - 1];
      assert init[..i] == lines[..i];
      RunOnAfterBadLine(init, i);
    } else {
      assert lines[..i] == lines;
    }
  }

  // ---------------------------------------------------------------------
  // Output lines
  // ---------------------------------------------------------------------

  /** The fields of an article the query projects and the output uses. */
  datatype Hit = Hit(published: string, title: string, url: string)

  /** An article as `_get_articles` returns it, with its search term. */
  datatype Article = Article(searchterm: string, published: string, title: string, url: string)

  /** The search phrase for a country: its name in double quotes. */
  function Quote(country: string): string
  {
    ['"'] + country + ['"']
  }

  /** The phrase is the name with a double quote on each side. */
  lemma QuoteShape(country: string)
    ensures var r := Quote(country);
      |r| == |country| + 2 && r[0] == '"' && r[|r| - 1] == '"' && r[1..|r| - 1] == country
  {
    var r := Quote(country);
    assert r[1..|r| - 1] == country;
  }

  /** `_get_output_line(article)`: the four fields joined by `,`, with no
      quoting. */
  function OutputLine(a: Article): string
  {
    Join(",", [a.searchterm, a.published, a.title, a.url])
  }

  /** A line is its four fields with a comma between each two. */
  lemma OutputLineFields(a: Article)
    ensures OutputLine(a) == a.searchterm + [','] + (a.published + [','] + (a.title + [','] + a.url))
  {
    var xs := [a.searchterm, a.published, a.title, a.url];
    assert xs[1..] == [a.published, a.title, a.url];
    assert xs[1..][1..] == [a.title, a.url];
    assert xs[1..][1..][1..] == [a.url];
    assert Join(",", [a.title, a.url]) == a.title + [','] + a.url;
    assert Join(",", [a.published, a.title, a.url]) == a.published + [','] + (a.title + [','] + a.url);
  }

  /** A line opens with its search term and a comma. */
  lemma OutputLineStart(a: Article)
    ensures |OutputLine(a)| > |a.searchterm| && OutputLine(a)[..|a.searchterm| + 1] == a.searchterm + ","
  {
    OutputLineFields(a);
  }

  /** A line whose fields hold no comma splits back into its four fields. */
  lemma OutputLineSplit(a: Article)
    requires ',' !in a.searchterm && ',' !in a.published && ',' !in a.title && ',' !in a.url
    ensures Split(OutputLine(a), ',') == [a.searchterm, a.published, a.title, a.url]
  {
    SplitJoin([a.searchterm, a.published, a.title, a.url], ',');
  }

  /** The number of pieces a line splits into is the sum over its fields;
      so a comma in any field, a title above all, gives more than four
      columns. */
  lemma OutputLineComma(a: Article)
    ensures |Split(OutputLine(a), ',')| ==
      |Split(a.searchterm, ',')| + |Split(a.published, ',')| + |Split(a.title, ',')| + |Split(a.url, ',')|
    ensures (',' in a.searchterm || ',' in a.published || ',' in a.title || ',' in a.url) ==> |Split(OutputLine(a), ',')| > 4
  {
    OutputLineFields(a);
    var r3 := a.title + [','] + a.url;
    var r2 := a.published + [','] + r3;
    SplitAround(a.title, a.url, ',');
    SplitAround(a.published, r3, ',');
    SplitAround(a.searchterm, r2, ',');
    if ',' in a.searchterm { SplitSeveral(a.searchterm, ','); }
    if ',' in a.published { SplitSeveral(a.published, ','); }
    if ',' in a.title { SplitSeveral(a.title, ','); }
    if ',' in a.url { SplitSeveral(a.url, ','); }
  }

  /** The first line of the report; it ends in a comma. */
  const Header := "country," + "published," + "title," + "url,"

  /** The header splits into five columns, the last of them empty, where
      every article line written from comma-free fields has four. */
  lemma HeaderColumns()
    ensures Split(Header, ',') == ["country", "published", "title", "url", ""]
  {
    SplitJoin(["country", "published", "title", "url", ""], ',');
    assert Join(",", ["country", "published", "title", "url", ""]) == Header;
  }

  // ---------------------------------------------------------------------
  // The report
  // ---------------------------------------------------------------------

  /** The articles of `hits`, each tagged with the search term `term`, as
      the query's `$literal` projection does. */
  function Tagged(term: string, hits: seq<Hit>): (r: seq<Article>)
    ensures |r| == |hits|
  {
    if hits == [] then []
    else Tagged(term, hits[..|hits| - 1]) + [Article(term, hits[|hits| - 1].published, hits[|hits| - 1].title, hits[|hits| - 1].url)]
  }

  /** Each hit becomes the article of the same position, under `term`. */
  lemma {:induction false} TaggedAt(term: string, hits: seq<Hit>, k: nat)
    requires k < |hits|
    ensures Tagged(term, hits)[k] == Article(term, hits[k].published, hits[k].title, hits[k].url)
  {
    if k < |hits| - 1 {
      TaggedAt(term, hits[..|hits| - 1], k);
    }
  }

  /** `_get_articles(country)`: the store's answer to the quoted name. */
  function ArticlesOf(country: string, search: string -> seq<Hit>): seq<Article>
  {
    Tagged(Quote(country), search(Quote(country)))
  }

  /** The output lines of `articles`, in order. */
  function Lines(articles: seq<Article>): (r: seq<string>)
    ensures |r| == |articles|
  {
    if articles == [] then [] else Lines(articles[..|articles| - 1]) + [OutputLine(articles[|articles| - 1])]
  }

  /** Line `k` is the output line of article `k`. */
  lemma {:induction false} LinesAt(articles: seq<Article>, k: nat)
    requires k < |articles|
    ensures Lines(articles)[k] == OutputLine(articles[k])
  {
    if k < |articles| - 1 {
      LinesAt(articles[..|articles| - 1], k);
    }
  }

  /** The lines of one country: one per article the store returned. */
  function Group(country: string, search: string -> seq<Hit>): seq<string>
  {
    Lines(ArticlesOf(country, search))
  }

  /** The group of each country, in the order of the countries. */
  function Groups(countries: seq<string>, search: string -> seq<Hit>): (r: seq<seq<string>>)
    ensures |r| == |countries|
  {
    if countries == [] then []
    else Groups(countries[..|countries| - 1], search) + [Group(countries[|countries| - 1], search)]
  }

  /** The groups, one after another. */
  function Flat(groups: seq<seq<string>>): seq<string>
  {
    if groups == [] then [] else Flat(groups[..|groups| - 1]) + groups[|groups| - 1]
  }

  /** The report's lines below the header. */
  function Rows(countries: seq<string>, search: string -> seq<Hit>): seq<string>
  {
    Flat(Groups(countries, search))
  }

  /** The search phrases sent for `countries`, in order. */
  function Queries(countries: seq<string>): (r: seq<string>)
    ensures |r| == |countries| && forall k :: 0 <= k < |countries| ==> r[k] == Quote(countries[k])
  {
    if countries == [] then [] else Queries(countries[..|countries| - 1]) + [Quote(countries[|countries| - 1])]
  }

  /** Group `k` belongs to country `k`. */
  lemma {:induction false} GroupsAt(countries: seq<string>, search: string -> seq<Hit>, k: nat)
    requires k < |countries|
    ensures Groups(countries, search)[k] == Group(countries[k], search)
  {
    if k < |countries| - 1 {
      GroupsAt(countries[..|countries| - 1], search, k);
    }
  }

  /** Flattening distributes over concatenation. */
  lemma {:induction false} FlatAppend(a: seq<seq<string>>, b: seq<seq<string>>)
    ensures Flat(a + b) == Flat(a) + Flat(b)
    decreases |b|
  {
    if b == [] {
      assert a + b == a;
    } else {
      var b' := b[..|b| - 1];
      assert (a + b)[..|a + b| - 1] == a + b' && (a + b)[|a + b| - 1] == b[|b| - 1];
      FlatAppend(a, b');
    }
  }

  /** Queries for more countries add their groups after the earlier ones. */
  lemma {:induction false} GroupsAppend(a: seq<string>, b: seq<string>, search: string -> seq<Hit>)
    ensures Groups(a + b, search) == Groups(a, search) + Groups(b, search)
    decreases |b|
  {
    if b == [] {
      assert a + b == a;
    } else {
      var b' := b[..|b| - 1];
      assert (a + b)[..|a + b| - 1] == a + b' && (a + b)[|a + b| - 1] == b[|b| - 1];
      GroupsAppend(a, b', search);
    }
  }

  /** The lines are grouped by country, in the order of the countries. */
  lemma RowsAppend(a: seq<string>, b: seq<string>, search: string -> seq<Hit>)
    ensures Rows(a + b, search) == Rows(a, search) + Rows(b, search)
  {
    GroupsAppend(a, b, search);
    FlatAppend(Groups(a, search), Groups(b, search));
  }

  /** One country's group: a line per article the store returned for it,
      in the store's order, each opening with the quoted name. */
  lemma CountryRows(country: string, search: string -> seq<Hit>)
    ensures var hits := search(Quote(country));
      var rows := Rows([country], search);
      |rows| == |hits|
      && forall k :: 0 <= k < |hits| ==>
        rows[k] == OutputLine(Article(Quote(country), hits[k].published, hits[k].title, hits[k].url))
        && |rows[k]| > |country| + 2 && rows[k][..|country| + 3] == Quote(country) + ","
  {
    var hits := search(Quote(country));
    var rows := Rows([country], search);
    assert [country][..0] == [];
    var g := Group(country, search);
    assert Groups([country], search) == [g];
    assert [g][..0] == [];
    assert Flat([g]) == g;
    assert rows == Group(country, search);
    forall k | 0 <= k < |hits|
      ensures rows[k] == OutputLine(Article(Quote(country), hits[k].published, hits[k].title, hits[k].url))
      ensures |rows[k]| > |country| + 2 && rows[k][..|country| + 3] == Quote(country) + ","
    {
      TaggedAt(Quote(country), hits, k);
      LinesAt(ArticlesOf(country, search), k);
      OutputLineStart(Article(Quote(country), hits[k].published, hits[k].title, hits[k].url));
    }
  }

  /** The loops of `main`: the header, then for each country the output
      line of each article the store returns for it. Also returns the
      search phrases sent, in order. */
  method BuildReport(countries: seq<string>, search: string -> seq<Hit>) returns (data: seq<string>, queries: seq<string>)
    ensures data == [Header] + Rows(countries, search)
    ensures queries == Queries(countries)
  {
    data := [Header];
    queries := [];
    var i := 0;
    while i < |countries|
      invariant i <= |countries|
      invariant data == [Header] + Rows(countries[..i], search)
      invariant queries == Queries(countries[..i])
    {
      assert countries[..i + 1][..i] == countries[..i];
      var country := countries[i];
      queries := queries + [Quote(country)];
      var articles := ArticlesOf(country, search);
      data := AppendLines(data, articles);
      i := i + 1;
    }
    assert countries[..i] == countries;
  }

  /** The inner loop of `main`: one output line per article, appended. */
  method AppendLines(data: seq<string>, articles: seq<Article>) returns (data': seq<string>)
    ensures data' == data + Lines(articles)
  {
    data' := data;
    var j := 0;
    while j < |articles|
      invariant j <= |articles|
      invariant data' == data + Lines(articles[..j])
    {
      assert articles[..j + 1][..j] == articles[..j];
      data' := data' + [OutputLine(articles[j])];
      j := j + 1;
    }
    assert articles[..j] == articles;
  }

  // ---------------------------------------------------------------------
  // _output_csv
  // ---------------------------------------------------------------------

  /** The content of the CSV file: every line followed by a newline. */
  function CsvText(data: seq<string>): string
  {
    if data == [] then "" else CsvText(data[..|data| - 1]) + data[|data| - 1] + "\n"
  }

  /** The file is the lines joined by newlines, with a final newline. */
  lemma {:induction false} CsvTextJoin(data: seq<string>)
    ensures CsvText(data) == Join("\n", data + [""])
  {
    if data != [] {
      var init := data[..|data| - 1];
      CsvTextJoin(init);
      JoinSnoc(init, data[|data| - 1]);
      assert init + [data[|data| - 1]] == data;
    }
  }

  /** Joining with one more field before the last, empty one. */
  lemma {:induction false} JoinSnoc(xs: seq<string>, x: string)
    ensures Join("\n", xs + [x] + [""]) == Join("\n", xs + [""]) + x + "\n"
  {
    if xs == [] {
      assert [x] + [""] == [x, ""];
    } else {
      assert (xs + [x] + [""])[1..] == xs[1..] + [x] + [""];
      assert (xs + [""])[1..] == xs[1..] + [""];
      JoinSnoc(xs[1..], x);
    }
  }

  /** Lines without newlines are read back from the file, followed by the
      empty text after the final newline. */
  lemma CsvTextSplit(data: seq<string>)
    requires forall k :: 0 <= k < |data| ==> '\n' !in data[k]
    ensures Split(CsvText(data), '\n') == data + [""]
  {
    CsvTextJoin(data);
    SplitJoin(data + [""], '\n');
  }

  /** `_output_csv(data)`: writes each line and then a newline. */
  method OutputCsv(data: seq<string>) returns (content: string)
    ensures content == CsvText(data)
  {
    content := "";
    var i := 0;
    while i < |data|
      invariant i <= |data| && content == CsvText(data[..i])
    {
      assert data[..i + 1][..i] == data[..i];
      content := content + data[i];
      content := content + "\n";
      i := i + 1;
    }
    assert data[..i] == data;
  }

  /** How a run of the reporter ends. */
  datatype Outcome = Exit(status: int) | Crash | Csv(content: string)

  /** What the whole reporter does with a countries file (None when
      missing). */
  function Report(file: Option<string>, search: string -> seq<Hit>): Outcome
  {
    match file
    case None => Exit(1)
    case Some(f) =>
      match ParseCountries(FileLines(f))
      case Names(cs) => Csv(CsvText([Header] + Rows(cs, search)))
      case _ => Crash
  }

  /** `main`: the countries, the report lines and the CSV file. A missing
      countries file ends the run with status 1 before any query; a bad
      line ends it with an exception, also before any query. */
  method RunReporter(file: Option<string>, search: string -> seq<Hit>) returns (o: Outcome, queries: seq<string>)
    ensures o == Report(file, search)
    ensures file.None? ==> o == Exit(1) && queries == []
    ensures o.Crash? ==> queries == []
    ensures o.Csv? ==>
      ParseCountries(FileLines(file.value)).Names? && queries == Queries(ParseCountries(FileLines(file.value)).names)
  {
    var countries := GetCountries(file);
    if countries.Missing? {
      return Exit(1), [];
    }
    if countries.BadLine? {
      return Crash, [];
    }
    var data;
    data, queries := BuildReport(countries.names, search);
    var content := OutputCsv(data);
    o := Csv(content);
  }
}
