/** The DB importer stage of the KCNA collector: every queued JSON document
    is decoded and inserted into the article collection, archived when the
    insert returned an id, and a text index over the article fields is
    ensured at the end. The JSON decoder and the store are oracles: the
    decoder maps a file's content to a document or to the ValueError of
    `json.load`, and an insert appends the document and returns the id the
    store hands back, `''` standing for none. */
module DbImporter {
  import opened PyStr
  import opened Archive
  import Jsonifier

  // ---------------------------------------------------------------------
  // The store and its text index
  // ---------------------------------------------------------------------

  /** A field the text index covers: the article text or a metadata field. */
  datatype Indexed = Body | Meta(key: Jsonifier.Key)

  /** The dotted path of the field in a stored document. */
  function Path(f: Indexed): string
  {
    match f
    case Body => "data.text"
    case Meta(k) => "data.metadata." + Jsonifier.KeyName(k)
  }

  /** The fields of the text index, with their weights, as `main` asks for
      them after the loop. */
  const TextIndex: seq<(Indexed, nat)> :=
    [(Body, 5), (Meta(Jsonifier.Title), 10), (Meta(Jsonifier.Location), 10), (Meta(Jsonifier.NewsService), 1)]

  /** The collection: the documents inserted so far, in order, and the
      indexes that exist on it. */
  datatype Store<D> = Store(docs: seq<D>, indexes: set<seq<(Indexed, nat)>>)

  /** `coll.ensure_index(fields)`: the index exists afterwards, whether or
      not it did before; the documents are not touched. */
  function EnsureIndex<D>(s: Store<D>, fields: seq<(Indexed, nat)>): (r: Store<D>)
    ensures fields in r.indexes && r.docs == s.docs
    ensures r.indexes - {fields} == s.indexes - {fields}
  {
    Store(s.docs, s.indexes + {fields})
  }

  /** Ensuring an index twice is ensuring it once. */
  lemma EnsureIndexIdempotent<D>(s: Store<D>, fields: seq<(Indexed, nat)>)
    ensures EnsureIndex(EnsureIndex(s, fields), fields) == EnsureIndex(s, fields)
  {
  }

  /** The weight the text index gives a field; 0 when it is not indexed. */
  function WeightOf(fields: seq<(Indexed, nat)>, f: Indexed): (w: nat)
    ensures w > 0 ==> exists k :: 0 <= k < |fields| && fields[k] == (f, w)
    ensures (forall k :: 0 <= k < |fields| ==> fields[k].0 != f) ==> w == 0
  {
    if fields == [] then 0
    else if fields[0].0 == f && fields[0].1 > 0 then fields[0].1
    else WeightOf(fields[1..], f)
  }

  /** The fields of the text index, each named under `data`: the article
      text, the title, the location and the news service. */
  lemma TextIndexPaths()
    ensures |TextIndex| == 4
    ensures Path(TextIndex[0].0) == "data.text" && Path(TextIndex[1].0) == "data.metadata.title"
    ensures Path(TextIndex[2].0) == "data.metadata.location" && Path(TextIndex[3].0) == "data.metadata.news_service"
  {
    assert "data.metadata." + "title" == "data.metadata.title";
    assert "data.metadata." + "location" == "data.metadata.location";
    assert "data.metadata." + "news_service" == "data.metadata.news_service";
  }

  /** The weights of the text index: the location weighs as much as the
      title, twice the text and ten times the news service; no other
      metadata field is indexed. */
  lemma TextIndexWeights()
    ensures WeightOf(TextIndex, Body) == 5 && WeightOf(TextIndex, Meta(Jsonifier.Title)) == 10
    ensures WeightOf(TextIndex, Meta(Jsonifier.Location)) == WeightOf(TextIndex, Meta(Jsonifier.Title))
    ensures WeightOf(TextIndex, Meta(Jsonifier.NewsService)) == 1
    ensures forall k :: k != Jsonifier.Title && k != Jsonifier.Location && k != Jsonifier.NewsService ==>
      WeightOf(TextIndex, Meta(k)) == 0
  {
    var t1 := TextIndex[1..];
    var t2 := t1[1..];
    var t3 := t2[1..];
    assert t1 == [(Meta(Jsonifier.Title), 10), (Meta(Jsonifier.Location), 10), (Meta(Jsonifier.NewsService), 1)];
    assert t2 == [(Meta(Jsonifier.Location), 10), (Meta(Jsonifier.NewsService), 1)];
    assert t3 == [(Meta(Jsonifier.NewsService), 1)] && t3[1..] == [];
    forall k | k != Jsonifier.Title && k != Jsonifier.Location && k != Jsonifier.NewsService
      ensures WeightOf(TextIndex, Meta(k)) == 0
    {
      assert WeightOf(t3, Meta(k)) == 0;
    }
  }

  /** Every metadata field the index covers is present in every record the
      jsonifier builds. */
  lemma TextIndexCoversRecords(published: string, juche: int, url: string, modified: string, lines: seq<string>)
    requires Jsonifier.RecordOf(published, juche, url, modified, lines).Some?
    ensures forall k :: 0 <= k < |TextIndex| && TextIndex[k].0.Meta? ==>
      TextIndex[k].0.key in Jsonifier.RecordOf(published, juche, url, modified, lines).value.metadata
  {
    Jsonifier.RecordOfFields(published, juche, url, modified, lines);
  }

  // ---------------------------------------------------------------------
  // The loop of main
  // ---------------------------------------------------------------------

  /** What the importer works on: INBOX_DB_ROOT with its archive (JSON
      files by content) and the collection. */
  datatype DbFs<D> = DbFs(json: Dirs<string>, store: Store<D>)

  /** The state of `main`: the directories and the store,
      `total_articles` and `processed_articles`. */
  datatype Run<D> = Run(fs: DbFs<D>, total: nat, processed: nat)

  /** `json_file_id` for a file with the given content: `''` when the
      content does not decode, the id of the insert otherwise. */
  function FileId<D>(docs: seq<D>, content: string, decode: string -> Option<D>, insertId: (seq<D>, D) -> string): string
  {
    match decode(content)
    case None => ""
    case Some(doc) => insertId(docs, doc)
  }

  /** One file's turn: it is counted; a document that decodes is inserted;
      a truthy id counts the file and moves it to the archive, where a
      failing move is only logged. */
  function Step<D>(r: Run<D>, name: string, content: string, decode: string -> Option<D>,
                   insertId: (seq<D>, D) -> string, moveFails: set<string>): Run<D>
  {
    var id := FileId(r.fs.store.docs, content, decode, insertId);
    var store := match decode(content)
      case None => r.fs.store
      case Some(doc) => r.fs.store.(docs := r.fs.store.docs + [doc]);
    if id != "" then Run(DbFs(Move(r.fs.json, name, name !in moveFails), store), r.total + 1, r.processed + 1)
    else Run(DbFs(r.fs.json, store), r.total + 1, r.processed)
  }

  /** The files `names` are all in the inbox at the start. */
  predicate Listed<D>(names: seq<string>, fs0: DbFs<D>)
  {
    forall n :: n in names ==> n in fs0.json.inbox
  }

  /** The state after the files `names` had their turns in order, each
      file read as it was at the start. */
  function RunAll<D>(names: seq<string>, fs0: DbFs<D>, decode: string -> Option<D>,
                     insertId: (seq<D>, D) -> string, moveFails: set<string>): Run<D>
    requires Listed(names, fs0)
  {
    if names == [] then Run(fs0, 0, 0)
    else
      var last := names[|names| - 1];
      Step(RunAll(names[..|names| - 1], fs0, decode, insertId, moveFails), last, fs0.json.inbox[last], decode, insertId, moveFails)
  }

  /** The `json_file_id` of every file of the run, in order. */
  function Ids<D>(names: seq<string>, fs0: DbFs<D>, decode: string -> Option<D>,
                  insertId: (seq<D>, D) -> string, moveFails: set<string>): (r: seq<string>)
    requires Listed(names, fs0)
    ensures |r| == |names|
  {
    if names == [] then []
    else
      var init := names[..|names| - 1];
      Ids(init, fs0, decode, insertId, moveFails)
        + [FileId(RunAll(init, fs0, decode, insertId, moveFails).fs.store.docs, fs0.json.inbox[names[|names| - 1]], decode, insertId)]
  }

  /** The number of truthy ids. */
  function Truthy(ids: seq<string>): (n: nat)
    ensures n <= |ids|
  {
    if ids == [] then 0 else Truthy(ids[..|ids| - 1]) + (if ids[|ids| - 1] != "" then 1 else 0)
  }

  /** The documents the files `names` decode to, in order. */
  function Decoded<D>(names: seq<string>, inbox: map<string, string>, decode: string -> Option<D>): seq<D>
    requires forall n :: n in names ==> n in inbox
  {
    if names == [] then []
    else
      var init := Decoded(names[..|names| - 1], inbox, decode);
      match decode(inbox[names[|names| - 1]])
      case None => init
      case Some(doc) => init + [doc]
  }

  /** The counters of a run: every file is counted, and
      `processed_articles` is the number of files whose insert returned a
      truthy id, so it never exceeds `total_articles`. */
  lemma {:induction false} RunCounts<D>(names: seq<string>, fs0: DbFs<D>, decode: string -> Option<D>,
                                        insertId: (seq<D>, D) -> string, moveFails: set<string>)
    requires Listed(names, fs0)
    ensures var r := RunAll(names, fs0, decode, insertId, moveFails);
      r.total == |names| && r.processed == Truthy(Ids(names, fs0, decode, insertId, moveFails)) && r.processed <= r.total
  {
    if names != [] {
      var init := names[..|names| - 1];
      RunCounts(init, fs0, decode, insertId, moveFails);
      var ids := Ids(names, fs0, decode, insertId, moveFails);
      assert ids[..|ids| - 1] == Ids(init, fs0, decode, insertId, moveFails);
    }
  }

  /** A file that does not decode gets the id `''`: it is not inserted and
      counts for nothing. */
  lemma DecodeFailureId<D>(docs: seq<D>, content: string, decode: string -> Option<D>, insertId: (seq<D>, D) -> string)
    requires decode(content).None?
    ensures FileId(docs, content, decode, insertId) == ""
  {
  }

  /** The store receives exactly the decoded documents, each once and in
      file order: no insert is attempted for a file that does not decode.
      Its indexes are untouched by the loop. */
  lemma {:induction false} RunInserts<D>(names: seq<string>, fs0: DbFs<D>, decode: string -> Option<D>,
                                         insertId: (seq<D>, D) -> string, moveFails: set<string>)
    requires Listed(names, fs0)
    ensures var r := RunAll(names, fs0, decode, insertId, moveFails);
      r.fs.store.docs == fs0.store.docs + Decoded(names, fs0.json.inbox, decode)
      && r.fs.store.indexes == fs0.store.indexes
  {
    if names != [] {
      RunInserts(names[..|names| - 1], fs0, decode, insertId, moveFails);
    }
  }

  /** A file that is not among `names` is not touched by their turns, and
      the files are only moved: none is deleted. */
  lemma {:induction false} RunLeavesOthers<D>(names: seq<string>, fs0: DbFs<D>, decode: string -> Option<D>,
                                              insertId: (seq<D>, D) -> string, moveFails: set<string>, other: string)
    requires Listed(names, fs0)
    requires other !in names && other in fs0.json.inbox
    ensures other in RunAll(names, fs0, decode, insertId, moveFails).fs.json.inbox
    ensures RunAll(names, fs0, decode, insertId, moveFails).fs.json.inbox[other] == fs0.json.inbox[other]
  {
    if names != [] {
      RunLeavesOthers(names[..|names| - 1], fs0, decode, insertId, moveFails, other);
    }
  }

  /** Nothing is ever deleted: every file is in the inbox or the archive. */
  lemma {:induction false} RunKeepsFiles<D>(names: seq<string>, fs0: DbFs<D>, decode: string -> Option<D>,
                                            insertId: (seq<D>, D) -> string, moveFails: set<string>)
    requires Listed(names, fs0)
    ensures var d := RunAll(names, fs0, decode, insertId, moveFails).fs.json;
      d.inbox.Keys + d.archive.Keys == fs0.json.inbox.Keys + fs0.json.archive.Keys
  {
    if names != [] {
      RunKeepsFiles(names[..|names| - 1], fs0, decode, insertId, moveFails);
    }
  }

  /** One more file: its turn finds it as it was at the start. */
  lemma RunStep<D>(names: seq<string>, i: nat, fs0: DbFs<D>, decode: string -> Option<D>,
                   insertId: (seq<D>, D) -> string, moveFails: set<string>)
    requires Distinct(names) && Listed(names, fs0) && i < |names|
    ensures names[i] in RunAll(names[..i], fs0, decode, insertId, moveFails).fs.json.inbox
    ensures RunAll(names[..i], fs0, decode, insertId, moveFails).fs.json.inbox[names[i]] == fs0.json.inbox[names[i]]
    ensures RunAll(names[..i + 1], fs0, decode, insertId, moveFails)
      == Step(RunAll(names[..i], fs0, decode, insertId, moveFails), names[i], fs0.json.inbox[names[i]], decode, insertId, moveFails)
  {
    assert names[..i + 1][..i] == names[..i];
    assert names[i] !in names[..i];
    RunLeavesOthers(names[..i], fs0, decode, insertId, moveFails, names[i]);
  }

  /** The archive rule of the whole run: the `k`-th file leaves the inbox
      exactly when its id was truthy and its move did not fail, and it then
      sits in the archive as it was; otherwise it stays in the inbox
      unchanged. */
  lemma {:induction false} RunArchivesIff<D>(names: seq<string>, fs0: DbFs<D>, decode: string -> Option<D>,
                                             insertId: (seq<D>, D) -> string, moveFails: set<string>, k: nat)
    requires Distinct(names) && Listed(names, fs0) && k < |names|
    ensures var d := RunAll(names, fs0, decode, insertId, moveFails).fs.json;
      var n := names[k];
      (n !in d.inbox <==> Ids(names, fs0, decode, insertId, moveFails)[k] != "" && n !in moveFails)
      && (n !in d.inbox ==> n in d.archive && d.archive[n] == fs0.json.inbox[n])
      && (n in d.inbox ==> d.inbox[n] == fs0.json.inbox[n])
  {
    var init := names[..|names| - 1];
    assert Distinct(init) by {
      assert forall i :: 0 <= i < |init| ==> init[i] == names[i];
    }
    var n := names[k];
    if k == |names| - 1 {
      assert n !in init;
      RunLeavesOthers(init, fs0, decode, insertId, moveFails, n);
    } else {
      assert init[k] == n;
      RunArchivesIff(init, fs0, decode, insertId, moveFails, k);
    }
  }

  /** The counters and the store do not depend on which moves fail: a file
      counts as processed once its insert returned an id. */
  lemma {:induction false} RunCountsIgnoreMoves<D>(names: seq<string>, fs0: DbFs<D>, decode: string -> Option<D>,
                                                   insertId: (seq<D>, D) -> string, m1: set<string>, m2: set<string>)
    requires Listed(names, fs0)
    ensures var r1, r2 := RunAll(names, fs0, decode, insertId, m1), RunAll(names, fs0, decode, insertId, m2);
      r1.total == r2.total && r1.processed == r2.processed && r1.fs.store == r2.fs.store
  {
    if names != [] {
      RunCountsIgnoreMoves(names[..|names| - 1], fs0, decode, insertId, m1, m2);
    }
  }

  /** The loop of `main` over the JSON file names `names`, in order. */
  method ImportAll<D>(names: seq<string>, fs: DbFs<D>, decode: string -> Option<D>,
                      insertId: (seq<D>, D) -> string, moveFails: set<string>)
    returns (r: Run<D>)
    requires Distinct(names) && Listed(names, fs)
    ensures r == RunAll(names, fs, decode, insertId, moveFails)
  {
    var json, store := fs.json, fs.store;
    var total, processed := 0, 0;
    var i := 0;
    while i < |names|
      invariant 0 <= i <= |names|
      invariant Run(DbFs(json, store), total, processed) == RunAll(names[..i], fs, decode, insertId, moveFails)
    {
      RunStep(names, i, fs, decode, insertId, moveFails);
      var name := names[i];
      total := total + 1;
      var fileId := "";
      var content := json.inbox[name];
      var jsonData := decode(content);
      if jsonData.Some? {
        fileId := insertId(store.docs, jsonData.value);
        store := store.(docs := store.docs + [jsonData.value]);
      }
      if fileId != "" {
        processed := processed + 1;
        json := Move(json, name, name !in moveFails);
      }
      i := i + 1;
    }
    assert names[..i] == names;
    r := Run(DbFs(json, store), total, processed);
  }

  /** `main`: every entry of the inbox listing that matches `.json`, in
      listing order, then the text index, which is ensured whatever
      happened to the files. */
  method RunImporter<D>(listing: seq<string>, fs: DbFs<D>, decode: string -> Option<D>,
                        insertId: (seq<D>, D) -> string, moveFails: set<string>)
    returns (r: Run<D>)
    requires Distinct(listing)
    requires forall n :: n in listing && SearchAnyThen(n, "json") ==> n in fs.json.inbox
    ensures Distinct(FilterNames(listing, "json")) && Listed(FilterNames(listing, "json"), fs)
    ensures var loop := RunAll(FilterNames(listing, "json"), fs, decode, insertId, moveFails);
      r == loop.(fs := loop.fs.(store := EnsureIndex(loop.fs.store, TextIndex)))
    ensures TextIndex in r.fs.store.indexes
  {
    var names := FilterNames(listing, "json");
    FilterNamesDistinct(listing, "json");
    r := ImportAll(names, fs, decode, insertId, moveFails);
    r := r.(fs := r.fs.(store := EnsureIndex(r.fs.store, TextIndex)));
  }
}
