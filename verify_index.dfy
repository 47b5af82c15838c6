/** `scripts/verify_index.py`: checks the manifest against the notebooks on disk. Every
    `.ipynb` file must be referenced by an entry; every entry must name a file, which must
    exist, and must have a `title` key and truthy `topics`. All problems are reported, and
    the script exits with status 1 when there was any. */
module VerifyIndex {
  import opened Wrappers
  import opened IndexToml

  /** One printed diagnostic. */
  datatype Diagnostic =
    | NotIndexed(name: string)    // a notebook file no entry references
    | HasNoFile(entry: Entry)     // an entry without a `notebook` key
    | FileNotFound(name: string)  // an entry whose file does not exist
    | HasNoTitle(name: string)    // an entry without a `title` key
    | HasNoTopics(name: string)   // an entry whose `topics` is absent or falsy

  /** The line printed for a diagnostic. */
  function Message(d: Diagnostic): string {
    match d
    case NotIndexed(name) => "Notebook '" + name + "' not found in 'index.toml'"
    case HasNoFile(entry) => "Notebook '" + EntryRepr(entry) + "' has no file"
    case FileNotFound(name) => "Notebook '" + name + "' file not found"
    case HasNoTitle(name) => "Notebook '" + name + "' has no title"
    case HasNoTopics(name) => "Notebook '" + name + "' has no topics"
  }

  /** `indexed_notebooks`: the file names of the entries that have a `notebook` key. */
  function IndexedNotebooks(cookbook: seq<Entry>): seq<string> {
    if cookbook == [] then []
    else (if cookbook[0].notebook.Some? then [cookbook[0].notebook.value] else []) + IndexedNotebooks(cookbook[1..])
  }

  /** A name is indexed exactly when some entry's `notebook` key holds it. */
  lemma {:induction false} IndexedNotebooksIff(cookbook: seq<Entry>, name: string)
    ensures name in IndexedNotebooks(cookbook) <==> exists j :: 0 <= j < |cookbook| && cookbook[j].notebook == Some(name)
  {
    if cookbook != [] {
      IndexedNotebooksIff(cookbook[1..], name);
      assert forall j :: 1 <= j < |cookbook| ==> cookbook[j] == cookbook[1..][j - 1];
      if exists j :: 0 <= j < |cookbook| && cookbook[j].notebook == Some(name) {
        var j :| 0 <= j < |cookbook| && cookbook[j].notebook == Some(name);
        if j > 0 { assert cookbook[1..][j - 1].notebook == Some(name); }
      }
    }
  }

  /** The diagnostics of the first loop, over the notebook files found on disk. */
  function UnindexedDiagnostics(files: seq<string>, indexed: seq<string>): seq<Diagnostic> {
    if files == [] then []
    else
      var name := files[|files| - 1];
      UnindexedDiagnostics(files[..|files| - 1], indexed) + if name !in indexed then [NotIndexed(name)] else []
  }

  /** The diagnostics of one entry in the second loop. An entry without a file gets that
      one diagnostic and no other check; otherwise the file, title and topics checks are
      made one after the other, each whatever the others found. */
  function EntryDiagnostics(e: Entry, existing: set<string>): seq<Diagnostic> {
    match e.notebook
    case None => [HasNoFile(e)]
    case Some(name) => FileCheck(name, existing) + TitleCheck(e, name) + TopicsCheck(e, name)
  }

  function FileCheck(name: string, existing: set<string>): seq<Diagnostic> {
    if name !in existing then [FileNotFound(name)] else []
  }

  /** The title check looks for the key: an empty title passes. */
  function TitleCheck(e: Entry, name: string): seq<Diagnostic> {
    if e.title.None? then [HasNoTitle(name)] else []
  }

  /** The topics check looks at truthiness: absent and empty topics both fail. */
  function TopicsCheck(e: Entry, name: string): seq<Diagnostic> {
    if !TruthyOr(e.topics, false) then [HasNoTopics(name)] else []
  }

  /** An entry without a file gets exactly the "has no file" diagnostic. An entry with a
      file gets at most three diagnostics, all about that file: one when it does not exist,
      one exactly when the `title` key is absent, one exactly when `topics` is absent or falsy. */
  lemma EntryChecks(e: Entry, existing: set<string>)
    ensures e.notebook.None? ==> EntryDiagnostics(e, existing) == [HasNoFile(e)]
    ensures e.notebook.Some? ==> var r := EntryDiagnostics(e, existing);
      |r| <= 3 && forall k :: 0 <= k < |r| ==> !r[k].HasNoFile? && r[k].name == e.notebook.value
    ensures e.notebook.Some? ==> (FileNotFound(e.notebook.value) in EntryDiagnostics(e, existing) <==> e.notebook.value !in existing)
    ensures e.notebook.Some? ==> (HasNoTitle(e.notebook.value) in EntryDiagnostics(e, existing) <==> e.title.None?)
    ensures e.notebook.Some? ==> (HasNoTopics(e.notebook.value) in EntryDiagnostics(e, existing) <==> !TruthyOr(e.topics, false))
  {
  }

  /** The diagnostics of the second loop, entry by entry. */
  function CookbookDiagnostics(cookbook: seq<Entry>, existing: set<string>): seq<Diagnostic> {
    if cookbook == [] then []
    else CookbookDiagnostics(cookbook[..|cookbook| - 1], existing) + EntryDiagnostics(cookbook[|cookbook| - 1], existing)
  }

  /** Everything the script prints, in order. */
  function Diagnostics(cookbook: seq<Entry>, files: seq<string>, existing: set<string>): seq<Diagnostic> {
    UnindexedDiagnostics(files, IndexedNotebooks(cookbook)) + CookbookDiagnostics(cookbook, existing)
  }

  /** The script: the diagnostics, the lines printed for them, and the exit status. `files`
      are the names of the `.ipynb` files in `notebooks` in the order the glob returns them;
      `existing` holds the names `n` for which `notebooks/n` exists.
      `failed` is set with every diagnostic and never cleared, so the exit status is 1
      exactly when something was printed. */
  method VerifyIndex(cookbook: seq<Entry>, files: seq<string>, existing: set<string>)
    returns (diagnostics: seq<Diagnostic>, output: seq<string>, exitCode: nat)
    ensures diagnostics == Diagnostics(cookbook, files, existing)
    ensures |output| == |diagnostics| && forall k :: 0 <= k < |output| ==> output[k] == Message(diagnostics[k])
    ensures exitCode == if diagnostics == [] then 0 else 1
  {
    var indexed := IndexedNotebooks(cookbook);
    var unindexed, failedFiles := CheckFiles(files, indexed);
    var entries, failedEntries := CheckCookbook(cookbook, existing);
    diagnostics := unindexed + entries;
    output := seq(|diagnostics|, k requires 0 <= k < |diagnostics| => Message(diagnostics[k]));
    exitCode := if failedFiles || failedEntries then 1 else 0;
  }

  /** The first loop: one diagnostic per notebook file the manifest does not mention. */
  method CheckFiles(files: seq<string>, indexed: seq<string>) returns (printed: seq<Diagnostic>, failed: bool)
    ensures printed == UnindexedDiagnostics(files, indexed)
    ensures failed <==> printed != []
  {
    failed := false;
    printed := [];
    for i := 0 to |files|
      invariant printed == UnindexedDiagnostics(files[..i], indexed)
      invariant failed <==> printed != []
    {
      assert files[..i + 1][..i] == files[..i];
      if files[i] !in indexed {
        printed := printed + [NotIndexed(files[i])];
        failed := true;
      }
    }
    assert files[..|files|] == files;
  }

  /** The second loop: the diagnostics of every entry, in manifest order. */
  method CheckCookbook(cookbook: seq<Entry>, existing: set<string>) returns (printed: seq<Diagnostic>, failed: bool)
    ensures printed == CookbookDiagnostics(cookbook, existing)
    ensures failed <==> printed != []
  {
    failed := false;
    printed := [];
    for i := 0 to |cookbook|
      invariant printed == CookbookDiagnostics(cookbook[..i], existing)
      invariant failed <==> printed != []
    {
      assert cookbook[..i + 1][..i] == cookbook[..i];
      var reported := CheckEntry(cookbook[i], existing);
      printed := printed + reported;
      if reported != [] {
        failed := true;
      }
    }
    assert cookbook[..|cookbook|] == cookbook;
  }

  /** The body of the second loop for one entry: the diagnostics printed for one entry, in order. */
  method CheckEntry(notebook: Entry, existing: set<string>) returns (printed: seq<Diagnostic>)
    ensures printed == EntryDiagnostics(notebook, existing)
  {
    printed := [];
    if notebook.notebook.None? {
      printed := printed + [HasNoFile(notebook)];
      return;
    }
    var name := notebook.notebook.value;
    if name !in existing {
      printed := printed + [FileNotFound(name)];
    }
    if notebook.title.None? {
      printed := printed + [HasNoTitle(name)];
    }
    if !TruthyOr(notebook.topics, false) {
      printed := printed + [HasNoTopics(name)];
    }
  }

  /** The diagnostics of two stretches of the manifest are those of the first followed by
      those of the second: each entry's diagnostics appear in manifest order. */
  lemma {:induction false} CookbookDiagnosticsConcat(a: seq<Entry>, b: seq<Entry>, existing: set<string>)
    ensures CookbookDiagnostics(a + b, existing) == CookbookDiagnostics(a, existing) + CookbookDiagnostics(b, existing)
    decreases |b|
  {
    if b == [] {
      assert a + b == a;
    } else {
      var b', last := b[..|b| - 1], b[|b| - 1];
      assert CookbookDiagnostics(a + b, existing) == CookbookDiagnostics(a + b', existing) + EntryDiagnostics(last, existing) by {
        assert (a + b)[..|a + b| - 1] == a + b';
      }
      CookbookDiagnosticsConcat(a, b', existing);
    }
  }

  predicate Distinct(files: seq<string>) {
    forall i, j :: 0 <= i < j < |files| ==> files[i] != files[j]
  }

  /** A notebook file that no entry references is reported exactly once (the glob lists
      each file once); a referenced file is not reported. */
  lemma {:induction false} UnindexedReportedOnce(files: seq<string>, indexed: seq<string>, name: string)
    requires Distinct(files)
    ensures multiset(UnindexedDiagnostics(files, indexed))[NotIndexed(name)]
         == if name in files && name !in indexed then 1 else 0
    decreases |files|
  {
    if files != [] {
      var init := files[..|files| - 1];
      var last := files[|files| - 1];
      UnindexedReportedOnce(init, indexed, name);
      assert files == init + [last];
      assert name in files <==> name in init || name == last;
      assert forall i :: 0 <= i < |init| ==> init[i] == files[i];
    }
  }

  /** The script prints nothing (and so exits normally) exactly when every file on disk is
      referenced and every entry names an existing file and has a title and topics. */
  lemma CleanIff(cookbook: seq<Entry>, files: seq<string>, existing: set<string>)
    ensures Diagnostics(cookbook, files, existing) == []
        <==> ((forall i :: 0 <= i < |files| ==> files[i] in IndexedNotebooks(cookbook))
              && (forall j :: 0 <= j < |cookbook| ==> Clean(cookbook[j], existing)))
  {
    UnindexedEmptyIff(files, IndexedNotebooks(cookbook));
    CookbookCleanIff(cookbook, existing);
  }

  /** An entry that passes every check. */
  predicate Clean(e: Entry, existing: set<string>) {
    e.notebook.Some? && e.notebook.value in existing && e.title.Some? && TruthyOr(e.topics, false)
  }

  lemma {:induction false} UnindexedEmptyIff(files: seq<string>, indexed: seq<string>)
    ensures UnindexedDiagnostics(files, indexed) == [] <==> forall i :: 0 <= i < |files| ==> files[i] in indexed
    decreases |files|
  {
    if files != [] {
      var init := files[..|files| - 1];
      UnindexedEmptyIff(init, indexed);
      assert forall i :: 0 <= i < |init| ==> init[i] == files[i];
    }
  }

  lemma {:induction false} CookbookCleanIff(cookbook: seq<Entry>, existing: set<string>)
    ensures CookbookDiagnostics(cookbook, existing) == [] <==> forall j :: 0 <= j < |cookbook| ==> Clean(cookbook[j], existing)
    decreases |cookbook|
  {
    if cookbook != [] {
      var init := cookbook[..|cookbook| - 1];
      var e := cookbook[|cookbook| - 1];
      CookbookCleanIff(init, existing);
      assert forall j :: 0 <= j < |init| ==> init[j] == cookbook[j];
      EntryChecks(e, existing);
      if e.notebook.Some? && !Clean(e, existing) {
        var n := e.notebook.value;
        assert FileNotFound(n) in EntryDiagnostics(e, existing) || HasNoTitle(n) in EntryDiagnostics(e, existing)
            || HasNoTopics(n) in EntryDiagnostics(e, existing);
      }
    }
  }

  /** The number of title diagnostics in a list. */
  function TitleReports(ds: seq<Diagnostic>): nat {
    if ds == [] then 0 else TitleReports(ds[..|ds| - 1]) + if ds[|ds| - 1].HasNoTitle? then 1 else 0
  }

  /** The number of entries that name a file but have no `title` key. */
  function MissingTitles(cookbook: seq<Entry>): nat {
    if cookbook == [] then 0
    else
      var e := cookbook[|cookbook| - 1];
      MissingTitles(cookbook[..|cookbook| - 1]) + if e.notebook.Some? && e.title.None? then 1 else 0
  }

  lemma {:induction false} TitleReportsConcat(a: seq<Diagnostic>, b: seq<Diagnostic>)
    ensures TitleReports(a + b) == TitleReports(a) + TitleReports(b)
    decreases |b|
  {
    if b == [] {
      assert a + b == a;
    } else {
      assert (a + b)[..|a + b| - 1] == a + b[..|b| - 1];
      TitleReportsConcat(a, b[..|b| - 1]);
    }
  }

  lemma UnindexedHasNoTitleReports(files: seq<string>, indexed: seq<string>)
    ensures TitleReports(UnindexedDiagnostics(files, indexed)) == 0
  {
    if files != [] {
      var init := files[..|files| - 1];
      UnindexedHasNoTitleReports(init, indexed);
      var last := if files[|files| - 1] !in indexed then [NotIndexed(files[|files| - 1])] else [];
      TitleReportsConcat(UnindexedDiagnostics(init, indexed), last);
    }
  }

  /** There is one title diagnostic per entry that names a file but has no `title` key, so
      a manifest with exactly one such entry gets exactly one, and the script fails. An
      empty title string is not reported: the check is for the key. */
  lemma TitleReportsCount(cookbook: seq<Entry>, files: seq<string>, existing: set<string>)
    ensures TitleReports(Diagnostics(cookbook, files, existing)) == MissingTitles(cookbook)
    ensures MissingTitles(cookbook) > 0 ==> Diagnostics(cookbook, files, existing) != []
  {
    TitleReportsConcat(UnindexedDiagnostics(files, IndexedNotebooks(cookbook)), CookbookDiagnostics(cookbook, existing));
    UnindexedHasNoTitleReports(files, IndexedNotebooks(cookbook));
    CookbookTitleReports(cookbook, existing);
  }

  lemma {:induction false} CookbookTitleReports(cookbook: seq<Entry>, existing: set<string>)
    ensures TitleReports(CookbookDiagnostics(cookbook, existing)) == MissingTitles(cookbook)
    decreases |cookbook|
  {
    if cookbook != [] {
      var init := cookbook[..|cookbook| - 1];
      var e := cookbook[|cookbook| - 1];
      CookbookTitleReports(init, existing);
      TitleReportsConcat(CookbookDiagnostics(init, existing), EntryDiagnostics(e, existing));
      EntryTitleReports(e, existing);
    }
  }

  lemma EntryTitleReports(e: Entry, existing: set<string>)
    ensures TitleReports(EntryDiagnostics(e, existing)) == if e.notebook.Some? && e.title.None? then 1 else 0
  {
    var ds := EntryDiagnostics(e, existing);
    if e.notebook.Some? {
      var name := e.notebook.value;
      var f, t, p := FileCheck(name, existing), TitleCheck(e, name), TopicsCheck(e, name);
      TitleReportsConcat(f + t, p);
      TitleReportsConcat(f, t);
      assert TitleReports(p) == 0 && TitleReports(f) == 0;
    } else {
      assert ds == [] + [HasNoFile(e)];
    }
  }
}
