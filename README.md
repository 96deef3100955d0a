# KCNA ingestion pipeline, modelled in Dafny

This project models the three file-based collector stages of the NKIR
KCNA pipeline and the string handling of the map-countries reporter:

- **queuer** (`queuer_kcna.py`). It reads the git logs left by a mirroring
  run and recognises the `M`/`A` lines that name an article. Each article
  path is mapped to a canonical per-day file name, covering the two
  naming eras of the KCNA site. Every article is copied from the mirror
  into the jsonifier's inbox. A log is archived only when every copy it
  asked for succeeded.
- **jsonifier** (`jsonifier_kcna.py`). It reduces each queued HTML file to
  its plain text. From that text it cuts out the byline date, the Juche
  year, the title, the location and news service of the dateline, and the
  paragraphs. The last paragraph is dropped. The date is normalised and
  the article URL is derived from the file name. One JSON document is
  written into the DB importer's inbox. The HTML file is archived when
  that succeeded.
- **DB importer** (`dbimporter_kcna.py`). It decodes every queued JSON
  document and inserts it into the article collection. A file is archived
  when the insert returned a truthy id. At the end a weighted text index
  is ensured.
- **map-countries reporter** (`map_countries_kcna.py`). It reads the
  `CODE|Name` countries file and builds one CSV line per article that
  mentions each country, under a header.

Modules, one per script plus three shared ones:

| file | module | what it holds |
|---|---|---|
| `pystr.dfy` | `PyStr` | the Python 2.7 string builtins the scripts use (`strip`, `splitlines`, `split`, `join`, `replace`, `rstrip(c)`, `os.path.splitext`) and the file filter `re.search('.xxx', name)` |
| `pydate.dfy` | `PyDate` | `datetime.strptime(s, "%B %d %Y")` and `str()` of the resulting datetime |
| `archive.dfy` | `Archive` | the shared move-to-archive step: an inbox and its archive as maps, and a move that may fail |
| `queuer.dfy` | `Queuer` | `REGEX_GITLOG`, the two file-name patterns, `_get_filename_post`, `_filter_log_lines`, and the copy and archive loops of `main` |
| `jsonifier.dfy` | `Jsonifier` | `re_parse`, the line loop, `_pp_article` (a class over the `data` dictionary), `_get_link_url`, `_pp_date`, `html_to_json`, and the loop of `main` |
| `dbimporter.dfy` | `DbImporter` | the decode/insert/archive loop of `main`, its counters, and the text index |
| `map_countries.dfy` | `MapCountries` | `_get_countries`, `_get_output_line`, the report loops of `main`, and `_output_csv` |

How the model is built:

- The regular expressions are written as deterministic parsers. A greedy
  `.*` is resolved by the rule that it ends at the last place where the
  rest of the pattern can still follow. Each parser is proved sound and
  complete against a predicate that describes the accepted texts.
- The unescaped dots of `.htm`, `.html`, `.log` and `.json` match any
  character except a newline. `$` also matches before one final newline.
- Each `main` loop is a method with a `while` loop. It is proved equal to
  a recursive specification function over the prefix of files handled so
  far. The archive and counting properties are lemmas about that function.
- Directories are maps from file name to content. A directory listing is
  an input sequence. A failed `shutil.move` is a name in a `moveFails`
  set. A copy fails exactly when the source is absent from the mirror map.
- External capabilities are function parameters:
  - BeautifulSoup's `get_text`;
  - the clock and the files' modification times;
  - `json.load` (a decoder returning an optional document);
  - `coll.insert` (an id oracle, where `''` is the falsy id);
  - the reporter's `$text` search (an oracle from search phrase to hits).

Two behaviours of the code are worth stating outright:

- A first paragraph without a `<loc>, … (<svc>) -- ` dateline makes
  `regex.groups()` raise AttributeError. That ends the jsonifier run
  (`Jsonifier.Convert` returns `Raised`).
- The text index weights are text 5, title 10, location 10 and news
  service 1, so location weighs as much as the title
  (`DbImporter.TextIndexWeights`).

## Model

| member | source | states |
|---|---|---|
| `Queuer.MatchGitLogSound` | src/collectors/collector_kcna/queuer_kcna.py:27-36 | a line the log pattern accepts is `M` or `A`, one or more tabs, then `item/YYYY/`, `9d` or `20dd`, `MM/news`, one or two digits, `/`, and a `DD?htm` or `DDDDDDDD-DDee?html` file name. Nothing else may follow except one newline. |
| `Queuer.MatchGitLogComplete` | src/collectors/collector_kcna/queuer_kcna.py:27-36 | every such line is accepted, with or without its newline, and the pattern gives back exactly its groups |
| `Queuer.LogLineUnambiguous` | src/collectors/collector_kcna/queuer_kcna.py:30-33 | one line has one set of groups. The `9d`/`20dd` alternatives cannot overlap, so the year and the month of a line are unique. |
| `Queuer.FilenamePostTotal` | src/collectors/collector_kcna/queuer_kcna.py:57-71 | for every line the log pattern accepts, `_get_filename_post` recognises the file name; the `None` branch is unreachable |
| `Queuer.FilenamePostNew` | src/collectors/collector_kcna/queuer_kcna.py:40-43 | a new-era name `YYYYMMDD-NNee.html` is returned unchanged |
| `Queuer.FilenamePostOld` | src/collectors/collector_kcna/queuer_kcna.py:63-68 | an old-era `DD.htm` becomes year directory + month + `DD` + `-00ee.html`, which is itself a new-era name |
| `Queuer.FilenamePostOldOddDot` | src/collectors/collector_kcna/queuer_kcna.py:47-50 | because the dot is unescaped, `DDxhtm` is accepted too. `splitext` then finds no extension, and the whole name goes into the result, which is not a new-era name. |
| `Queuer.FilenamePostIgnoresNewsDir` | src/collectors/collector_kcna/queuer_kcna.py:64-67 | the canonical name does not depend on the `newsN` directory |
| `Queuer.OldExampleLineMatches` | src/collectors/collector_kcna/queuer_kcna.py:24 | the line `M<TAB>item/1998/9806/news06/10.htm` plus a newline is accepted with the groups 1998, 98, 06, 06, `10.htm` |
| `Queuer.OldExampleName` | src/collectors/collector_kcna/queuer_kcna.py:63-68 | `item/1998/9806/news06/10.htm` is queued as `19980610-00ee.html` |
| `Queuer.NewExampleName` | src/collectors/collector_kcna/queuer_kcna.py:26 | `item/2008/200810/news01/20081001-01ee.html` keeps its name |
| `Queuer.MixedYearExampleName` | src/collectors/collector_kcna/queuer_kcna.py:64-65 | the year directory and the short year are never compared: `item/1997/9806/news1/01.htm` yields `19970601-00ee.html` |
| `Queuer.FilterLogLinesAppend` | src/collectors/collector_kcna/queuer_kcna.py:74-75 | filtering a log is filtering its parts in turn, so matches keep input order |
| `Queuer.FilterLogLinesSingle` | src/collectors/collector_kcna/queuer_kcna.py:74-75 | a rejected line contributes nothing. An accepted line contributes its `filepath` group (the path without action and tabs) paired with its canonical name. |
| `Queuer.FilterLogLinesPosts` | src/collectors/collector_kcna/queuer_kcna.py:74-75 | no more pairs than lines come out, and no pair has a `None` name |
| `Queuer.QueuedBound` | src/collectors/collector_kcna/queuer_kcna.py:121-139 | `queued_articles <= total_articles`, with equality exactly when every listed article exists in the mirror |
| `Queuer.CopiedKeys` | src/collectors/collector_kcna/queuer_kcna.py:131-139 | after the copy loop the inbox holds every successful copy, whatever failed around it (nothing is rolled back); other files keep their content |
| `Queuer.CopiedContents` | src/collectors/collector_kcna/queuer_kcna.py:131-139 | each copied file holds the mirror content of the last entry whose copy onto that name succeeded: a later `copy2` onto the same canonical name overwrites the earlier one |
| `Queuer.CopyEntries` | src/collectors/collector_kcna/queuer_kcna.py:121-139 | the copy loop computes `total_articles`, `queued_articles` and the resulting jsonifier inbox as the specification functions do |
| `Queuer.QueueLog` | src/collectors/collector_kcna/queuer_kcna.py:111-155 | one log's turn: its entries are copied. The log is moved to the archive only when `queued == total`, and `queued <= total`. |
| `Queuer.QueueLogs` | src/collectors/collector_kcna/queuer_kcna.py:109-155 | the loop over the logs computes the directories and `processed_articles` of the specification function `RunState` |
| `Queuer.RunQueuer` | src/collectors/collector_kcna/queuer_kcna.py:105-157 | `main` handles every `.log` entry of the listing in order and reports the number of logs |
| `Queuer.RunStateArchivesIff` | src/collectors/collector_kcna/queuer_kcna.py:141-155 | a listed log leaves the inbox if and only if every article it lists exists in the mirror and its move did not fail. It then sits in the archive unchanged; otherwise it stays in the inbox unchanged. A log without matching lines therefore counts as fully copied. |
| `Queuer.RunProcessedBound` | src/collectors/collector_kcna/queuer_kcna.py:142-143 | `processed_articles` never exceeds the number of articles the logs list, and equals it exactly when every log had all its copies succeed |
| `PyStr.FilterNames` | src/collectors/collector_kcna/queuer_kcna.py:107 | the file filter keeps exactly the listed names that hold some character other than a newline followed by the extension text |
| `PyStr.FilterNamesAppend` | src/collectors/collector_kcna/queuer_kcna.py:107 | filtering a concatenated listing is filtering each part, so the kept names stay in listing order |
| `PyStr.LStrip` | src/collectors/collector_kcna/jsonifier_kcna.py:123 | the result is a suffix of the input, all that was cut off is whitespace, and it does not start with whitespace |
| `PyStr.RStrip` | src/collectors/collector_kcna/jsonifier_kcna.py:123 | the result is a prefix of the input, all that was cut off is whitespace, and it does not end with whitespace |
| `PyStr.StripPiece` | src/collectors/collector_kcna/jsonifier_kcna.py:123 | `strip()` leaves a contiguous piece of the input with only whitespace cut off around it |
| `PyStr.StripIdempotent` | src/collectors/collector_kcna/jsonifier_kcna.py:123 | stripping twice is stripping once |
| `PyStr.SplitLinesNoBreaks` | src/collectors/collector_kcna/jsonifier_kcna.py:122 | no line of `splitlines()` holds a line-boundary character |
| `PyStr.ReplaceCharRemovesAll` | src/collectors/collector_kcna/jsonifier_kcna.py:60 | `replace('.', '')` leaves no `.` |
| `PyStr.ReplaceAbsent` | src/collectors/collector_kcna/jsonifier_kcna.py:60 | a text in which the pattern does not occur is left as it is |
| `PyStr.RStripChar` | src/reporters/reporter_kcna/map_countries_kcna.py:59 | `rstrip('\n')` keeps a prefix, removes only newlines, and leaves no trailing newline |
| `PyStr.JoinSplit` | src/reporters/reporter_kcna/map_countries_kcna.py:59 | joining the pieces of `split(c)` with `c` gives back the text |
| `PyStr.SplitJoin` | src/reporters/reporter_kcna/map_countries_kcna.py:120-124 | splitting a join gives back the fields, when no field holds the separator |
| `PyStr.SplitExtRoot` | src/collectors/collector_kcna/jsonifier_kcna.py:152 | `splitext(p)[0]` is a prefix of `p`; when it is shorter, the cut is at a `.` after which there is no further `.` or `/` |
| `PyStr.SplitExtDotted` | src/collectors/collector_kcna/queuer_kcna.py:66 | `stem.ext` with a plain extension splits at that dot |
| `PyStr.ZeroPadValue` | src/collectors/collector_kcna/jsonifier_kcna.py:62 | a zero-padded field reads back as its number |
| `PyDate.Strptime` | src/collectors/collector_kcna/jsonifier_kcna.py:61 | a date `strptime` returns is a valid calendar date |
| `PyDate.StrptimeComplete` | src/collectors/collector_kcna/jsonifier_kcna.py:61 | every `<Month> <day> <yyyy>` text of a valid date parses to that date. The month name may be in any letter case, and the day may be zero-padded or not. |
| `PyDate.StrptimeSound` | src/collectors/collector_kcna/jsonifier_kcna.py:61 | every parsed date was written as a month name, whitespace, a day token, whitespace and four year digits, with nothing else |
| `PyDate.IsoTextFields` | src/collectors/collector_kcna/jsonifier_kcna.py:62 | `str()` of the datetime is `YYYY-MM-DD 00:00:00`, and its digit fields read back as the date |
| `PyDate.MonthFromName` | src/collectors/collector_kcna/jsonifier_kcna.py:61 | each full month name stands for its own month number |
| `Jsonifier.ParseText` | src/collectors/collector_kcna/jsonifier_kcna.py:112-114 | on a match the Juche group is a non-empty run of digits |
| `Jsonifier.ParseTextComplete` | src/collectors/collector_kcna/jsonifier_kcna.py:112-119 | every text of the form `… >> <… dddd> Juche <digits><rest>` matches |
| `Jsonifier.ParseTextSound` | src/collectors/collector_kcna/jsonifier_kcna.py:112-119 | a match decomposes the text as that form. The `>> ` is the last one before the date group, the date ends at the last ` dddd Juche d`, and the Juche year takes every digit that follows. |
| `Jsonifier.StrippedLinesAppend` | src/collectors/collector_kcna/jsonifier_kcna.py:121-125 | the kept lines of a text are those of its parts in turn, so order is preserved |
| `Jsonifier.StrippedLinesShape` | src/collectors/collector_kcna/jsonifier_kcna.py:121-125 | every kept line is non-empty and already stripped, and there are no more than there were lines |
| `Jsonifier.ArticleLines` | src/collectors/collector_kcna/jsonifier_kcna.py:121-125 | the loop builds the stripped, non-empty lines of the article part, in order |
| `Jsonifier.ParseDatelineSound` | src/collectors/collector_kcna/jsonifier_kcna.py:69 | a match is `<loc>,<mid>(<svc>) -- <rest>` on one line. The service holds no `(`, `mid` holds no comma, and `rest` holds no `) -- `. |
| `Jsonifier.ParseDatelineComplete` | src/collectors/collector_kcna/jsonifier_kcna.py:69 | every one-line paragraph of that form matches |
| `Jsonifier.ParseDatelineExact` | src/collectors/collector_kcna/jsonifier_kcna.py:69-72 | when the greedy choices are forced, the match returns exactly location, service and rest, as in `Pyongyang, August 1 (KCNA) -- …` |
| `Jsonifier.LinkUrl` | src/collectors/collector_kcna/jsonifier_kcna.py:79-83 | a URL is produced exactly when the name starts with eight digits and the rest is one line; otherwise `reg.groups()` raises |
| `Jsonifier.LinkUrlSegments` | src/collectors/collector_kcna/jsonifier_kcna.py:79-93 | the URL is `http://www.kcna.co.jp/` followed by the segments `item`, `YYYY`, `YYYYMM`, `newsDD` and the name |
| `Jsonifier.CleanDateOf` | src/collectors/collector_kcna/jsonifier_kcna.py:60 | the cleaned date holds no `.`. On a text with neither dots nor `Juche`, only the stripping is left. |
| `Jsonifier.PpDate` | src/collectors/collector_kcna/jsonifier_kcna.py:59-62 | a printed date is 19 characters long |
| `Jsonifier.PpDateOf` | src/collectors/collector_kcna/jsonifier_kcna.py:59-62 | `<Month> <day> <yyyy>` of a valid date becomes `YYYY-MM-DD 00:00:00` |
| `Jsonifier.PpDateSound` | src/collectors/collector_kcna/jsonifier_kcna.py:59-62 | a printed date is that of a valid calendar date read from the cleaned text, and its fields read back as that date |
| `Jsonifier.DateTextIsClean` | src/collectors/collector_kcna/jsonifier_kcna.py:60 | a month word, a day and a four-digit year are left as they are by the `Juche`/`.` removal and the strip |
| `Jsonifier.PpText` | src/collectors/collector_kcna/jsonifier_kcna.py:72-76 | paragraph 0 is replaced by the rest of the dateline, the others are untouched, and the last one is dropped. The length is one less; with a single paragraph nothing is left. |
| `Jsonifier.ArticleData.PpArticle` | src/collectors/collector_kcna/jsonifier_kcna.py:64-77 | it succeeds if and only if there is a first paragraph and it matches. It then sets `location` and `news_service` and applies `PpText`. On failure (IndexError or AttributeError) nothing has changed. |
| `Jsonifier.ArticleData.CopyParagraphs` | src/collectors/collector_kcna/jsonifier_kcna.py:144-146 | the append loop adds the paragraphs after the title, in order |
| `Jsonifier.ArticleData.SetMeta` | src/collectors/collector_kcna/jsonifier_kcna.py:131-139 | one metadata key is set and nothing else changes |
| `Jsonifier.Meta` | src/collectors/collector_kcna/jsonifier_kcna.py:131-141 | the metadata set before `_pp_article` has exactly the keys date_published, juche_year, article_url, html_modified and title |
| `Jsonifier.FillRecord` | src/collectors/collector_kcna/jsonifier_kcna.py:127-148 | building the record in place gives `RecordOf`: the title is popped, the paragraphs are copied and `_pp_article` is applied |
| `Jsonifier.HtmlToJson` | src/collectors/collector_kcna/jsonifier_kcna.py:95-161 | the step-by-step conversion gives the outcome of `Convert` |
| `Jsonifier.Convert` | src/collectors/collector_kcna/jsonifier_kcna.py:112-161 | the result is `False` (no write) exactly when `re_parse` does not match. A written document is named stem + `.json` and has version 1. |
| `Jsonifier.ConvertWrittenIff` | src/collectors/collector_kcna/jsonifier_kcna.py:114-148 | a document is written exactly when all of these hold: the byline matches, the date parses, the name starts with eight digits, a title and a first paragraph remain, and that paragraph has a dateline. Any other matched text raises. |
| `Jsonifier.RecordOfFields` | src/collectors/collector_kcna/jsonifier_kcna.py:127-148 | a built record has the seven metadata fields and the first kept line as title. Its paragraphs are the dateline rest followed by the later lines except the last; with one paragraph the text is empty. |
| `Jsonifier.ConvertRecord` | src/collectors/collector_kcna/jsonifier_kcna.py:116-149 | a written document holds the record built from the kept lines, with the integer Juche year, the `_pp_date` date and the file's link. Its title is non-empty and stripped. |
| `Jsonifier.RunCounts` | src/collectors/collector_kcna/jsonifier_kcna.py:176-200 | `processed <= total`. The run is cut short exactly when some file raises, at the first such file; otherwise `processed` is the number of written documents. |
| `Jsonifier.RunAbortStays` | src/collectors/collector_kcna/jsonifier_kcna.py:181 | after an exception later files change nothing |
| `Jsonifier.RunCountsIgnoreMoves` | src/collectors/collector_kcna/jsonifier_kcna.py:184-196 | counters and written documents do not depend on which moves fail; a failed move still counts as processed |
| `Jsonifier.RunDocuments` | src/collectors/collector_kcna/jsonifier_kcna.py:152-159 | the DB importer's inbox gains exactly the names of the documents written by the files that had their turn before any abort |
| `Jsonifier.RunDocumentContents` | src/collectors/collector_kcna/jsonifier_kcna.py:152-159 | each written document holds the payload of the last file before any abort that wrote that name (`a.htm` and `a.html` both write `a.json`, and the later wins); every document no such file wrote keeps its old content |
| `Jsonifier.RunArchivesIff` | src/collectors/collector_kcna/jsonifier_kcna.py:183-198 | a file leaves the inbox if and only if it had its turn, `html_to_json` returned True, and its move did not fail. It then sits in the archive unchanged; otherwise it stays in the inbox unchanged. |
| `Jsonifier.JsonifyAll` | src/collectors/collector_kcna/jsonifier_kcna.py:176-198 | the loop over the HTML files computes the run of the specification function `RunAll` |
| `Jsonifier.RunJsonifier` | src/collectors/collector_kcna/jsonifier_kcna.py:172-200 | `main` handles every listed name that holds a character followed by `htm`, in listing order |
| `Archive.Move` | src/collectors/collector_kcna/dbimporter_kcna.py:89-95 | a successful move takes the file from the inbox into the archive with its content. A failed move changes nothing, and no file is ever lost. |
| `DbImporter.EnsureIndex` | src/collectors/collector_kcna/dbimporter_kcna.py:101-107 | afterwards the index exists, the documents are untouched, and no other index changes |
| `DbImporter.EnsureIndexIdempotent` | src/collectors/collector_kcna/dbimporter_kcna.py:101-107 | ensuring the index twice is ensuring it once |
| `DbImporter.WeightOf` | src/collectors/collector_kcna/dbimporter_kcna.py:107 | a positive weight comes from an entry of the index; a field not in the index weighs 0 |
| `DbImporter.TextIndexPaths` | src/collectors/collector_kcna/dbimporter_kcna.py:102-106 | the index covers `data.text`, `data.metadata.title`, `data.metadata.location` and `data.metadata.news_service` |
| `DbImporter.TextIndexWeights` | src/collectors/collector_kcna/dbimporter_kcna.py:107 | the weights are 5, 10, 10 and 1, so location weighs the same as the title; no other field is indexed |
| `DbImporter.TextIndexCoversRecords` | src/collectors/collector_kcna/dbimporter_kcna.py:102-106 | every metadata field the index covers is present in every record the jsonifier builds |
| `DbImporter.RunCounts` | src/collectors/collector_kcna/dbimporter_kcna.py:65-99 | every file is counted, `processed_articles` is the number of truthy ids, and `processed <= total` |
| `DbImporter.DecodeFailureId` | src/collectors/collector_kcna/dbimporter_kcna.py:73-79 | a file that does not decode keeps the id `''` |
| `DbImporter.RunInserts` | src/collectors/collector_kcna/dbimporter_kcna.py:74-80 | the store's documents become the old ones followed by exactly the decoded documents, in file order; an undecodable file inserts nothing, and the indexes are untouched |
| `DbImporter.RunKeepsFiles` | src/collectors/collector_kcna/dbimporter_kcna.py:83-97 | nothing is ever deleted: every file is in the inbox or the archive |
| `DbImporter.RunLeavesOthers` | src/collectors/collector_kcna/dbimporter_kcna.py:67-97 | a file in the inbox that is not listed stays there unchanged |
| `DbImporter.RunArchivesIff` | src/collectors/collector_kcna/dbimporter_kcna.py:83-97 | a file leaves the inbox if and only if its id was truthy and its move did not fail. It then sits in the archive unchanged; otherwise it stays in the inbox unchanged. |
| `DbImporter.RunCountsIgnoreMoves` | src/collectors/collector_kcna/dbimporter_kcna.py:84-95 | counters and store do not depend on which moves fail; a failed move still counts as processed |
| `DbImporter.ImportAll` | src/collectors/collector_kcna/dbimporter_kcna.py:64-97 | the loop over the JSON files computes the run of the specification function `RunAll` |
| `DbImporter.RunImporter` | src/collectors/collector_kcna/dbimporter_kcna.py:60-107 | `main` handles every listed name that holds a character followed by `json`, in order, and then always ensures the text index |
| `MapCountries.FileLinesConcat` | src/reporters/reporter_kcna/map_countries_kcna.py:56 | the lines of a file, put back together, are the file |
| `MapCountries.FileLinesOf` | src/reporters/reporter_kcna/map_countries_kcna.py:56 | a file written as newline-terminated lines reads back as those lines |
| `MapCountries.CountryName` | src/reporters/reporter_kcna/map_countries_kcna.py:59 | the name holds no `\|` and does not end in a newline |
| `MapCountries.CountryNameOf` | src/reporters/reporter_kcna/map_countries_kcna.py:57-59 | `CODE\|Name` followed by a newline, by nothing, or by further `\|` fields gives `Name` |
| `MapCountries.ParseCountriesIff` | src/reporters/reporter_kcna/map_countries_kcna.py:54-59 | the names come back exactly when every line holds a `\|`, one per line and in order; otherwise the first line without one raises |
| `MapCountries.GetCountries` | src/reporters/reporter_kcna/map_countries_kcna.py:44-66 | a missing file gives the exit; otherwise the append loop gives `ParseCountries` of the file's lines |
| `MapCountries.QuoteShape` | src/reporters/reporter_kcna/map_countries_kcna.py:87 | the search phrase is the country name with a double quote on each side |
| `MapCountries.TaggedAt` | src/reporters/reporter_kcna/map_countries_kcna.py:96 | each returned article carries the quoted name as its search term |
| `MapCountries.OutputLineFields` | src/reporters/reporter_kcna/map_countries_kcna.py:118-126 | a line is searchterm, published, title and url with a comma between each two and no quoting |
| `MapCountries.OutputLineSplit` | src/reporters/reporter_kcna/map_countries_kcna.py:118-126 | a line whose fields hold no comma splits back into its four fields |
| `MapCountries.OutputLineComma` | src/reporters/reporter_kcna/map_countries_kcna.py:118-126 | the column count is the sum over the fields, so a comma in any field gives more than four columns |
| `MapCountries.HeaderColumns` | src/reporters/reporter_kcna/map_countries_kcna.py:152-155 | the header `country,published,title,url,` has five columns, the last one empty |
| `MapCountries.CountryRows` | src/reporters/reporter_kcna/map_countries_kcna.py:159-165 | a country's group has one line per article the store returned, in the store's order, each opening with the quoted name and a comma |
| `MapCountries.RowsAppend` | src/reporters/reporter_kcna/map_countries_kcna.py:159-165 | the rows of a list of countries are the rows of its parts in turn, so the report keeps countries-file order |
| `MapCountries.AppendLines` | src/reporters/reporter_kcna/map_countries_kcna.py:162-164 | the inner loop appends one output line per article |
| `MapCountries.BuildReport` | src/reporters/reporter_kcna/map_countries_kcna.py:152-165 | the report is the header followed by the rows of every country; the queries sent are the quoted names in order |
| `MapCountries.CsvTextJoin` | src/reporters/reporter_kcna/map_countries_kcna.py:137-140 | the file is the lines joined by newlines, with a final newline |
| `MapCountries.CsvTextSplit` | src/reporters/reporter_kcna/map_countries_kcna.py:137-140 | lines without newlines are read back from the file, followed by the empty text after the last newline |
| `MapCountries.OutputCsv` | src/reporters/reporter_kcna/map_countries_kcna.py:128-142 | the write loop produces every line followed by `\n` |
| `MapCountries.RunReporter` | src/reporters/reporter_kcna/map_countries_kcna.py:144-167 | a missing countries file exits with status 1 before any query, and a bad line raises before any query. Otherwise the CSV is written and the queries are the quoted names in file order. |

## Left out

- `nk_mention_map.js` and `nk_mention_bars.js` are not part of this model: they are browser visualisations (d3, DOM, floating point).
- Logging (`_get_logger`, every `logger` call), the path constants, and `TIME_START`/`TIME_END` are not modelled. The payload timestamp and the file modification time are string parameters.
- BeautifulSoup's parsing is a function parameter; its result is taken as given.
- `json.dump` serialisation is not modelled: a written document is a `Payload` value, not its JSON text.
- `json.load` is a decoder oracle. Exceptions other than its ValueError are not modelled.
- MongoDB is not modelled. `coll.insert` is an id oracle, and the document is stored whatever id comes back: pymongo returns the document's own `_id`, which may be falsy. `ensure_index` is a set of index specifications, and the `$text` aggregation is a search oracle.
- The reporter's sort by text score and its projection fields other than the four it writes (`modified`, `location`, `textScore`, `textbody`) are not modelled.
- `os.makedirs` is assumed to succeed.
- The output file paths of the reporter and the jsonifier are not modelled beyond the file name (or, for the reporter, the content).
- Jsonifier.ParseText: the `\d\d\d\d` before ` Juche` in `re_parse` runs under `re.UNICODE` and matches every Unicode decimal digit. The model accepts ASCII digits only there, so a byline whose year uses other digits is rejected by the model but matched by the code. The Juche group `[0-9]+` is ASCII in both.
- Queuer.CopyEntries: a copy fails exactly when the source is missing from the mirror. Other I/O errors of `shutil.copy2` (permissions, full disk) are folded into that case.
- DbImporter.RunImporter: an exception from `coll.insert` (unreachable store, duplicate `_id`) or from `ensure_index` ends the real script. The model's oracle always returns.
- MapCountries.OutputCsv: writing a line with non-ASCII text raises UnicodeEncodeError under Python 2. The model writes every line.
- Exceptions from `open`/`read` on an input file are not modelled in any stage.
- The code has no language filter (only a TODO comment at src/collectors/collector_kcna/jsonifier_kcna.py:13) and no locking between stages, so neither is modelled.
