/** The markdown generator: for every manifest entry it builds a data record with defaults,
    renders a YAML frontmatter block from it and two git dates, exports the notebook to
    markdown (outputs excluded) and writes `<output>/<stem>.md`. The git and nbconvert calls
    are parameters: `git` maps an argument vector to the command's decoded output and
    `exportBody` maps a notebook path to the body nbconvert's `MarkdownExporter` produces for it
    with `exclude_output=True`. */
module Markdowns {
  import opened Wrappers
  import opened PyText
  import opened PyPath
  import opened IndexToml

  /** The message of the `IndexError` that `[][0]` raises. */
  const EmptyListIndex := "list index out of range"

  /** The message of the `IndexError` the writer re-raises around its first write. */
  const NoHeaderMessage := "Can't find the header for this tutorial. Have you added it in 'scripts/generate_markdowns.py'?"

  /** The `data` record built for one entry; `file` is the notebook's path. */
  datatype PageData = PageData(
    file: Path,
    title: Value,
    colab: string,
    featured: Value,
    experimental: Value,
    discuss: Value,
    hidden: Value,
    isNew: Value,   // the key `new`
    topics: Value)

  /** The record for one entry. The lookups run in the order the dict literal is written:
      the entry's `notebook`, its `title`, then the manifest's `config` table and its `colab`
      key; the first missing one raises `KeyError`. Every other key defaults to `False`. */
  function EntryData(index: Index, root: Path, e: Entry): (r: Result<PageData>)
    ensures r.Success? <==> HasRecord(index, e)
    ensures r.Failure? ==> r.error.KeyError?
  {
    match e.notebook
    case None => Failure(KeyError("notebook"))
    case Some(notebook) =>
      match e.title
      case None => Failure(KeyError("title"))
      case Some(title) =>
        match index.config
        case None => Failure(KeyError("config"))
        case Some(config) =>
          match config.colab
          case None => Failure(KeyError("colab"))
          case Some(base) =>
            var no := Bool(false);
            Success(PageData(
              Div(Div(root, "notebooks"), notebook), title, Render(base) + "/" + notebook,
              e.featured.GetOr(no), e.experimental.GetOr(no), e.discuss.GetOr(no),
              e.hidden.GetOr(no), e.isNew.GetOr(no), e.topics.GetOr(no)))
  }

  /** The keys the record needs: the entry's `notebook` and `title`, and `config.colab`. */
  predicate HasRecord(index: Index, e: Entry) {
    e.notebook.Some? && e.title.Some? && index.config.Some? && index.config.value.colab.Some?
  }

  /** The two git command lines, before the notebook path is appended; the quotes around
      `%cs` are part of the text, since no shell removes them. */
  const LastCommitCommand := "git " + "log " + "-1 " + "--pretty=format:\"%cs\" "
  const FirstCommitCommand := "git " + "log " + "--reverse " + "--pretty=format:\"%cs\" "

  /** The argument vector of a git call: the command line split at whitespace. */
  function GitArgv(command: string, file: Path): seq<string> {
    Words(command + Text(file))
  }

  /** A notebook path without whitespace is passed to git as one final argument, and the
      format option keeps its literal quotes. */
  lemma LastCommitArgv(file: Path)
    requires IsWord(Text(file))
    ensures GitArgv(LastCommitCommand, file) == ["git", "log", "-1", "--pretty=format:\"%cs\"", Text(file)]
  {
    CommandWords();
    LastCommandText();
    SplitCommand("git", "log", "-1", "--pretty=format:\"%cs\"", Text(file));
  }

  /** The history query likewise ends with the notebook path as one argument. */
  lemma FirstCommitArgv(file: Path)
    requires IsWord(Text(file))
    ensures GitArgv(FirstCommitCommand, file) == ["git", "log", "--reverse", "--pretty=format:\"%cs\"", Text(file)]
  {
    CommandWords();
    FirstCommandText();
    SplitCommand("git", "log", "--reverse", "--pretty=format:\"%cs\"", Text(file));
  }

  /** The command lines are their words, each followed by one space. */
  lemma LastCommandText()
    ensures LastCommitCommand == Spaced(["git", "log", "-1", "--pretty=format:\"%cs\""])
  {
    SpacedOfFour("git", "log", "-1", "--pretty=format:\"%cs\"");
    assert "-1" + " " == "-1 ";
    SpacedWords();
  }

  lemma FirstCommandText()
    ensures FirstCommitCommand == Spaced(["git", "log", "--reverse", "--pretty=format:\"%cs\""])
  {
    SpacedOfFour("git", "log", "--reverse", "--pretty=format:\"%cs\"");
    assert "--reverse" + " " == "--reverse ";
    SpacedWords();
  }

  lemma SpacedWords()
    ensures "git" + " " == "git " && "log" + " " == "log "
    ensures "--pretty=format:\"%cs\"" + " " == "--pretty=format:\"%cs\" "
  {
  }

  lemma SpacedOfFour(a: string, b: string, c: string, d: string)
    ensures Spaced([a, b, c, d]) == (a + " ") + (b + " ") + (c + " ") + (d + " ")
  {
    assert [d][1..] == [] && Spaced([d]) == d + " ";
    assert [c, d][1..] == [d] && Spaced([c, d]) == (c + " ") + (d + " ");
    assert [b, c, d][1..] == [c, d] && Spaced([b, c, d]) == (b + " ") + (c + " ") + (d + " ");
    assert [a, b, c, d][1..] == [b, c, d];
  }

  /** The words of the two command lines hold no whitespace. */
  lemma CommandWords()
    ensures IsWord("git") && IsWord("log") && IsWord("-1") && IsWord("--reverse")
    ensures IsWord("--pretty=format:\"%cs\"")
  {
  }

  /** Four words, each followed by a space, then one more word, split into those five words. */
  lemma SplitCommand(a: string, b: string, c: string, d: string, t: string)
    requires IsWord(a) && IsWord(b) && IsWord(c) && IsWord(d) && IsWord(t)
    ensures Words(Spaced([a, b, c, d]) + t) == [a, b, c, d, t]
  {
    SplitThree(b, c, d, t);
    assert [a, b, c, d][1..] == [b, c, d];
    WordsSpacedStep([a, b, c, d], t);
  }

  lemma SplitThree(b: string, c: string, d: string, t: string)
    requires IsWord(b) && IsWord(c) && IsWord(d) && IsWord(t)
    ensures Words(Spaced([b, c, d]) + t) == [b, c, d, t]
  {
    SplitTwo(c, d, t);
    assert [b, c, d][1..] == [c, d];
    WordsSpacedStep([b, c, d], t);
  }

  lemma SplitTwo(c: string, d: string, t: string)
    requires IsWord(c) && IsWord(d) && IsWord(t)
    ensures Words(Spaced([c, d]) + t) == [c, d, t]
  {
    SplitOne(d, t);
    assert [c, d][1..] == [d];
    WordsSpacedStep([c, d], t);
  }

  lemma SplitOne(d: string, t: string)
    requires IsWord(d) && IsWord(t)
    ensures Words(Spaced([d]) + t) == [d, t]
  {
    assert Spaced([]) + t == t;
    WordsOfWord(t);
    assert [d][1..] == [];
    WordsSpacedStep([d], t);
  }

  /** One `key: value` line of the frontmatter. */
  function Field(key: string, value: string): string {
    key + ": " + value
  }

  /** The keys of the frontmatter, in the order they are written. */
  const FrontmatterKeys := [
    "layout", "featured_image", "images", "sitemap_exclude", "colab", "toc", "title", "lastmod",
    "created_at", "download", "featured", "experimental", "discuss", "hidden", "new", "topics"]

  /** The values of the frontmatter, key by key. */
  function FrontmatterValues(d: PageData, lastmod: string, createdAt: string): (r: seq<string>)
    ensures |r| == |FrontmatterKeys|
  {
    PageValues(d, lastmod, createdAt) + FlagValues(d)
  }

  /** The values of the first ten keys, `layout` to `download`. */
  function PageValues(d: PageData, lastmod: string, createdAt: string): (r: seq<string>)
    ensures |r| == 10
  {
    [ "cookbook",
      "/images/tutorial_walkthrough_thumbnail.png",
      "[\"/images/tutorial_walkthrough_thumbnail.png\"]",
      "False",
      d.colab,
      "True",
      "\"" + Render(d.title) + "\"",
      lastmod,
      createdAt,
      "/downloads/" + Name(d.file) ]
  }

  /** The values of the last six keys, `featured` to `topics`. */
  function FlagValues(d: PageData): (r: seq<string>)
    ensures |r| == 6
  {
    [Render(d.featured), Render(d.experimental), Render(d.discuss), Render(d.hidden), Render(d.isNew), Render(d.topics)]
  }

  /** The lines between the two `---` markers: each key with its value. */
  function FrontmatterLines(d: PageData, lastmod: string, createdAt: string): (r: seq<string>)
    ensures |r| == |FrontmatterKeys|
  {
    var values := FrontmatterValues(d, lastmod, createdAt);
    seq(|FrontmatterKeys|, k requires 0 <= k < |FrontmatterKeys| => Field(FrontmatterKeys[k], values[k]))
  }

  /** The frontmatter text: an opening `---` line, the fields, a closing `---` line and the
      four spaces that precede the template's closing quotes. */
  function FrontmatterText(d: PageData, lastmod: string, createdAt: string): string {
    Join(["---"] + FrontmatterLines(d, lastmod, createdAt) + ["---", "    "], "\n")
  }

  /** `generate_frontmatter`: `lastmod` is the stripped output of the last-commit query and
      `created_at` the first line of the stripped history. A history that strips to nothing
      has no first line, and indexing the empty list raises `IndexError`. */
  function Frontmatter(d: PageData, git: seq<string> -> string): (r: Result<string>)
    ensures r.Failure? <==> AllSpace(git(GitArgv(FirstCommitCommand, d.file)))
    ensures r.Failure? ==> r.error == IndexError(EmptyListIndex)
  {
    var lastmod := Strip(git(GitArgv(LastCommitCommand, d.file)));
    var history := Strip(git(GitArgv(FirstCommitCommand, d.file)));
    StripEmptyIff(git(GitArgv(FirstCommitCommand, d.file)));
    match FirstLine(history)
    case None => Failure(IndexError(EmptyListIndex))
    case Some(createdAt) => Success(FrontmatterText(d, lastmod, createdAt))
  }

  /** The text before the first colon of a line. */
  function KeyOf(line: string): string {
    line[..FindFirst(line, c => c == ':')]
  }

  /** The text after the first `": "` of a line. */
  function ValueOf(line: string): string {
    var k := |KeyOf(line)| + 2;
    if k <= |line| then line[k..] else ""
  }

  /** A field line reads back as its key and its value. */
  lemma FieldReadBack(key: string, value: string)
    requires ':' !in key
    ensures KeyOf(Field(key, value)) == key
    ensures ValueOf(Field(key, value)) == value
  {
    assert forall j :: 0 <= j < |key| ==> key[j] != ':';
    assert Field(key, value) == key + (": " + value);
    FindFirstAfter(key, ": " + value, c => c == ':');
    assert Field(key, value)[..|key|] == key;
    assert Field(key, value)[|key| + 2..] == value;
  }

  /** A value that fits on one line. */
  predicate OneLine(s: string) {
    '\n' !in s
  }

  /** No frontmatter value holds a newline. */
  predicate ValuesOneLine(d: PageData, lastmod: string, createdAt: string) {
    forall k :: 0 <= k < |FrontmatterKeys| ==> OneLine(FrontmatterValues(d, lastmod, createdAt)[k])
  }

  /** The frontmatter read back line by line is the opening marker, one `key: value` line per
      key in the fixed order, the closing marker and a line of four spaces, provided no
      substituted value holds a newline. */
  lemma FrontmatterReadBack(d: PageData, lastmod: string, createdAt: string)
    requires ValuesOneLine(d, lastmod, createdAt)
    ensures Split(FrontmatterText(d, lastmod, createdAt), '\n') == ["---"] + FrontmatterLines(d, lastmod, createdAt) + ["---", "    "]
    ensures forall k :: 0 <= k < |FrontmatterKeys| ==>
      KeyOf(FrontmatterLines(d, lastmod, createdAt)[k]) == FrontmatterKeys[k]
      && ValueOf(FrontmatterLines(d, lastmod, createdAt)[k]) == FrontmatterValues(d, lastmod, createdAt)[k]
  {
    var values := FrontmatterValues(d, lastmod, createdAt);
    var lines := FrontmatterLines(d, lastmod, createdAt);
    forall k | 0 <= k < |lines|
      ensures '\n' !in lines[k]
      ensures KeyOf(lines[k]) == FrontmatterKeys[k] && ValueOf(lines[k]) == values[k]
    {
      KeyChars(k);
      assert lines[k] == FrontmatterKeys[k] + ": " + values[k];
      FieldReadBack(FrontmatterKeys[k], values[k]);
    }
    var all := ["---"] + lines + ["---", "    "];
    assert forall k :: 0 <= k < |all| ==> '\n' !in all[k];
    SplitJoin(all, '\n');
  }

  /** The keys hold neither a newline nor a colon. */
  lemma KeyChars(k: nat)
    requires k < |FrontmatterKeys|
    ensures '\n' !in FrontmatterKeys[k] && ':' !in FrontmatterKeys[k]
  {
  }

  /** The two foreign calls: `git` gives the decoded output of a git command line, and
      `exportBody` gives the markdown body nbconvert exports, without cell outputs, for a path. */
  datatype Tools = Tools(git: seq<string> -> string, exportBody: string -> string)

  /** A markdown file: where it is written and what it holds. */
  datatype Page = Page(path: string, content: string)

  /** The page `generate_markdown_from_notebook` writes for a record. The frontmatter, and
      with it the git `IndexError`, comes before the export and before the file is opened;
      the only code guarded by the `IndexError` handler is a write, which cannot raise it, so
      the handler's message never appears. */
  function PageOf(d: PageData, output: string, tools: Tools): (r: Result<Page>)
    ensures r.Failure? <==> AllSpace(tools.git(GitArgv(FirstCommitCommand, d.file)))
    ensures r.Failure? ==> r.error == IndexError(EmptyListIndex) && r.error != IndexError(NoHeaderMessage)
  {
    match Frontmatter(d, tools.git)
    case Failure(err) => Failure(err)
    case Success(frontmatter) =>
      var body := GetLines(tools.exportBody(Text(d.file)), 1);
      Success(Page(output + "/" + Stem(d.file) + ".md", frontmatter + "\n\n" + body))
  }

  /** One iteration of the main loop: the record for the entry, then its page. */
  function EntryPage(index: Index, root: Path, output: string, tools: Tools, e: Entry): Result<Page> {
    match EntryData(index, root, e)
    case Failure(err) => Failure(err)
    case Success(d) => PageOf(d, output, tools)
  }

  /** The pages written so far and the exception that ended the run, if any. */
  datatype Run = Run(pages: seq<Page>, error: Option<PyError>)

  /** What each iteration of the main loop would give, entry by entry. */
  function Outcomes(index: Index, root: Path, output: string, tools: Tools, cookbook: seq<Entry>): (r: seq<Result<Page>>)
    ensures |r| == |cookbook|
    ensures forall k :: 0 <= k < |r| ==> r[k] == EntryPage(index, root, output, tools, cookbook[k])
  {
    seq(|cookbook|, k requires 0 <= k < |cookbook| => EntryPage(index, root, output, tools, cookbook[k]))
  }

  /** A run over a sequence of outcomes: the pages of the successes, up to the first failure,
      which ends the run. */
  function RunOf(outcomes: seq<Result<Page>>): Run
    decreases |outcomes|
  {
    if outcomes == [] then Run([], None)
    else
      var before := RunOf(outcomes[..|outcomes| - 1]);
      if before.error.Some? then before
      else
        match outcomes[|outcomes| - 1]
        case Failure(err) => Run(before.pages, Some(err))
        case Success(p) => Run(before.pages + [p], None)
  }

  /** The main loop over the manifest. */
  function Pages(index: Index, root: Path, output: string, tools: Tools, cookbook: seq<Entry>): Run {
    RunOf(Outcomes(index, root, output, tools, cookbook))
  }

  /** A run keeps the pages of the outcomes in order, one per outcome, up to the first
      failure; that failure's exception ends the run and nothing after it is kept. Without
      a failure every outcome has its page. */
  lemma {:induction false} RunOfOutcome(outcomes: seq<Result<Page>>)
    ensures var r := RunOf(outcomes);
      && |r.pages| <= |outcomes|
      && (forall k :: 0 <= k < |r.pages| ==> outcomes[k] == Success(r.pages[k]))
      && (r.error.None? <==> |r.pages| == |outcomes|)
      && (r.error.Some? ==> outcomes[|r.pages|] == Failure(r.error.value))
    decreases |outcomes|
  {
    if outcomes != [] {
      var init := outcomes[..|outcomes| - 1];
      RunOfOutcome(init);
      assert forall k :: 0 <= k < |init| ==> init[k] == outcomes[k];
    }
  }

  /** Once an outcome has failed, later outcomes change nothing. */
  lemma {:induction false} RunOfStop(outcomes: seq<Result<Page>>, j: nat)
    requires j <= |outcomes| && RunOf(outcomes[..j]).error.Some?
    ensures RunOf(outcomes) == RunOf(outcomes[..j])
    decreases |outcomes|
  {
    if j == |outcomes| {
      assert outcomes[..j] == outcomes;
    } else {
      var init := outcomes[..|outcomes| - 1];
      assert init[..j] == outcomes[..j];
      RunOfStop(init, j);
    }
  }

  /** One more outcome after a run without failure: a failure ends the whole run with its
      exception, a success adds its page. */
  lemma RunOfStep(outcomes: seq<Result<Page>>, i: nat, written: seq<Page>)
    requires i < |outcomes| && RunOf(outcomes[..i]) == Run(written, None)
    ensures outcomes[i].Failure? ==> RunOf(outcomes) == Run(written, Some(outcomes[i].error))
    ensures outcomes[i].Success? ==> RunOf(outcomes[..i + 1]) == Run(written + [outcomes[i].value], None)
  {
    var upto := outcomes[..i + 1];
    assert upto[..i] == outcomes[..i] && upto[i] == outcomes[i];
    if outcomes[i].Failure? {
      assert RunOf(upto) == Run(written, Some(outcomes[i].error));
      RunOfStop(outcomes, i + 1);
    } else {
      assert RunOf(upto) == Run(written + [outcomes[i].value], None);
    }
  }

  /** The markdown run writes one page per manifest entry, in manifest order, up to the first
      entry that raises; that entry's exception ends the run, and nothing is written for it
      or for any later entry. */
  lemma PagesOutcome(index: Index, root: Path, output: string, tools: Tools, cookbook: seq<Entry>)
    ensures var r := Pages(index, root, output, tools, cookbook);
      && |r.pages| <= |cookbook|
      && (forall k :: 0 <= k < |r.pages| ==> EntryPage(index, root, output, tools, cookbook[k]) == Success(r.pages[k]))
      && (r.error.None? <==> |r.pages| == |cookbook|)
      && (r.error.Some? ==> EntryPage(index, root, output, tools, cookbook[|r.pages|]) == Failure(r.error.value))
  {
    RunOfOutcome(Outcomes(index, root, output, tools, cookbook));
  }

  /** The record of an entry: the notebook's path under `notebooks`, the title as given, the
      colab link made of the configured base, a slash and the notebook's file name, and the
      six flags as given or `False` when the entry does not set them. */
  lemma EntryRecord(index: Index, root: Path, e: Entry)
    requires HasRecord(index, e)
    ensures var d := EntryData(index, root, e).value;
      && d.file == Div(Div(root, "notebooks"), e.notebook.value)
      && d.title == e.title.value
      && d.colab == Render(index.config.value.colab.value) + "/" + e.notebook.value
      && d.featured == (if e.featured.None? then Bool(false) else e.featured.value)
      && d.experimental == (if e.experimental.None? then Bool(false) else e.experimental.value)
      && d.discuss == (if e.discuss.None? then Bool(false) else e.discuss.value)
      && d.hidden == (if e.hidden.None? then Bool(false) else e.hidden.value)
      && d.isNew == (if e.isNew.None? then Bool(false) else e.isNew.value)
      && d.topics == (if e.topics.None? then Bool(false) else e.topics.value)
  {
  }

  /** Where the record's fields appear among the frontmatter values. */
  lemma ValuePositions(d: PageData, lastmod: string, createdAt: string)
    ensures var v := FrontmatterValues(d, lastmod, createdAt);
      && v[4] == d.colab && v[6] == "\"" + Render(d.title) + "\"" && v[7] == lastmod && v[8] == createdAt
      && v[9] == "/downloads/" + Name(d.file) && v[10..] == FlagValues(d)
  {
    assert FrontmatterValues(d, lastmod, createdAt) == PageValues(d, lastmod, createdAt) + FlagValues(d);
  }

  /** The colab link in the frontmatter is the configured base, a slash and the notebook's
      file name; the title appears between double quotes as it is, without escaping. */
  lemma EntryFrontmatterLinks(index: Index, root: Path, e: Entry, lastmod: string, createdAt: string)
    requires HasRecord(index, e)
    ensures var v := FrontmatterValues(EntryData(index, root, e).value, lastmod, createdAt);
      && v[4] == Render(index.config.value.colab.value) + "/" + e.notebook.value
      && v[6] == "\"" + Render(e.title.value) + "\""
  {
    EntryRecord(index, root, e);
    ValuePositions(EntryData(index, root, e).value, lastmod, createdAt);
  }

  /** The name of `<root>/notebooks/<nb>`: the last part of `nb`; when `nb` has no part, the
      name `notebooks`, or nothing when `nb` is absolute. */
  function NotebookName(nb: string): string {
    var parts := Components(nb);
    if parts != [] then parts[|parts| - 1] else if nb != [] && nb[0] == '/' then "" else "notebooks"
  }

  /** `.name` of the record's path is the notebook's name, which for a plain file name is the
      `notebook` value itself. */
  lemma NotebookPathName(root: Path, nb: string)
    ensures Name(Div(Div(root, "notebooks"), nb)) == NotebookName(nb)
    ensures IsComponent(nb) ==> NotebookName(nb) == nb
  {
    DivComponent(root, "notebooks");
    NameOfDiv(Div(root, "notebooks"), nb);
    if IsComponent(nb) {
      DivComponent(Div(root, "notebooks"), nb);
    }
  }

  /** The download link is `/downloads/` and the notebook's name: the last part of the
      `notebook` value, which for a plain file name is the value itself. */
  lemma EntryDownload(index: Index, root: Path, e: Entry, lastmod: string, createdAt: string)
    requires HasRecord(index, e)
    ensures FrontmatterValues(EntryData(index, root, e).value, lastmod, createdAt)[9] == "/downloads/" + NotebookName(e.notebook.value)
    ensures IsComponent(e.notebook.value) ==>
      FrontmatterValues(EntryData(index, root, e).value, lastmod, createdAt)[9] == "/downloads/" + e.notebook.value
  {
    var d := EntryData(index, root, e).value;
    assert d.file == Div(Div(root, "notebooks"), e.notebook.value) by {
      EntryRecord(index, root, e);
    }
    ValuePositions(d, lastmod, createdAt);
    NotebookPathName(root, e.notebook.value);
  }

  /** How a flag the record defaults to `False` shows: its value, or `False` when unset. */
  function Shown(flag: Option<Value>): string {
    match flag
    case None => "False"
    case Some(v) => Render(v)
  }

  /** `featured`, `experimental`, `discuss`, `hidden`, `new` and `topics` show the entry's
      values, each `False` when the entry does not set it. */
  lemma EntryFrontmatterFlags(index: Index, root: Path, e: Entry, lastmod: string, createdAt: string)
    requires HasRecord(index, e)
    ensures FrontmatterValues(EntryData(index, root, e).value, lastmod, createdAt)[10..]
      == [Shown(e.featured), Shown(e.experimental), Shown(e.discuss), Shown(e.hidden), Shown(e.isNew), Shown(e.topics)]
  {
    EntryRecord(index, root, e);
    ValuePositions(EntryData(index, root, e).value, lastmod, createdAt);
  }

  /** For an entry whose record can be built and whose history is not blank, the page is
      `<output>/<stem>.md` and holds the frontmatter with the stripped last-commit date and
      the first line of the stripped history (never empty), a blank line, and the exported
      body after its first line (nothing when the export has a single line). */
  lemma EntryPageContent(index: Index, root: Path, output: string, tools: Tools, e: Entry)
    requires HasRecord(index, e)
    requires !AllSpace(tools.git(GitArgv(FirstCommitCommand, EntryData(index, root, e).value.file)))
    ensures var d := EntryData(index, root, e).value;
      var r := EntryPage(index, root, output, tools, e);
      var history := Strip(tools.git(GitArgv(FirstCommitCommand, d.file)));
      var exported := tools.exportBody(Text(d.file));
      && r.Success?
      && r.value.path == output + "/" + Stem(d.file) + ".md"
      && FirstLine(history).Some? && FirstLine(history).value != ""
      && r.value.content ==
        FrontmatterText(d, Strip(tools.git(GitArgv(LastCommitCommand, d.file))), FirstLine(history).value) + "\n\n"
        + (if '\n' in exported then exported[FindFirst(exported, c => c == '\n') + 1..] else "")
  {
    var d := EntryData(index, root, e).value;
    GetLinesDropsFirstLine(tools.exportBody(Text(d.file)));
    StrippedFirstLine(tools.git(GitArgv(FirstCommitCommand, d.file)));
  }

  /** For a notebook named `base.ipynb` with a non-empty `base` and no slash, the page is
      written to `<output>/<base>.md`. */
  lemma EntryPageShape(index: Index, root: Path, output: string, tools: Tools, e: Entry, base: string)
    requires HasRecord(index, e)
    requires e.notebook == Some(base + ".ipynb") && base != "" && IsComponent(base + ".ipynb")
    requires !AllSpace(tools.git(GitArgv(FirstCommitCommand, EntryData(index, root, e).value.file)))
    ensures EntryPage(index, root, output, tools, e).Success?
    ensures EntryPage(index, root, output, tools, e).value.path == output + "/" + base + ".md"
  {
    var d := EntryData(index, root, e).value;
    EntryPageContent(index, root, output, tools, e);
    DivComponent(Div(root, "notebooks"), base + ".ipynb");
    StemOfNotebook(d.file, base);
  }

  /** The output directory: file paths and their contents. */
  class OutputDir {
    var files: map<string, string>

    constructor (files: map<string, string>)
      ensures this.files == files
    {
      this.files := files;
    }

    /** `open(path, "w")`: creates the file or empties it. */
    method Open(path: string)
      modifies this
      ensures files == old(files)[path := ""]
    {
      files := files[path := ""];
    }

    /** `f.write(text)` on an open file: appends. */
    method Write(path: string, text: string)
      requires path in files
      modifies this
      ensures files == old(files)[path := old(files)[path] + text]
    {
      files := files[path := files[path] + text];
    }
  }

  /** The directory after writing the pages one after the other; a later page with the same
      path replaces an earlier one. */
  function Written(files: map<string, string>, pages: seq<Page>): map<string, string>
    decreases |pages|
  {
    if pages == [] then files
    else
      var last := pages[|pages| - 1];
      Written(files, pages[..|pages| - 1])[last.path := last.content]
  }

  /** No page after the `k`-th is written to the same path. */
  predicate LastWrite(pages: seq<Page>, k: nat)
    requires k < |pages|
  {
    forall j :: k < j < |pages| ==> pages[j].path != pages[k].path
  }

  /** A path holds the content of the last page written to it, and a path no page is
      written to keeps what it had. */
  lemma {:induction false} WrittenAt(files: map<string, string>, pages: seq<Page>, path: string)
    ensures path in Written(files, pages) <==> path in files || exists k :: 0 <= k < |pages| && pages[k].path == path
    ensures forall k :: 0 <= k < |pages| && pages[k].path == path && LastWrite(pages, k) ==> Written(files, pages)[path] == pages[k].content
    ensures (forall k :: 0 <= k < |pages| ==> pages[k].path != path) && path in files ==> Written(files, pages)[path] == files[path]
    decreases |pages|
  {
    if pages != [] {
      var init := pages[..|pages| - 1];
      WrittenAt(files, init, path);
      assert forall k :: 0 <= k < |init| ==> init[k] == pages[k];
    }
  }

  /** A path some page is written to has a last page written to it. */
  lemma {:induction false} LastWriteExists(pages: seq<Page>, path: string) returns (k: nat)
    requires exists j :: 0 <= j < |pages| && pages[j].path == path
    ensures k < |pages| && pages[k].path == path && LastWrite(pages, k)
    decreases |pages|
  {
    var n := |pages| - 1;
    if pages[n].path == path {
      k := n;
    } else {
      var init := pages[..n];
      var j :| 0 <= j < |pages| && pages[j].path == path;
      assert init[j].path == path;
      k := LastWriteExists(init, path);
      assert forall i :: k < i < n ==> pages[i] == init[i];
    }
  }

  /** Writing the same pages a second time changes nothing: regenerating the markdowns
      from an unchanged manifest with unchanged notebooks and history gives the same files. */
  lemma WrittenIdempotent(files: map<string, string>, pages: seq<Page>)
    ensures Written(Written(files, pages), pages) == Written(files, pages)
  {
    var once := Written(files, pages);
    var twice := Written(once, pages);
    forall path | path in twice || path in once
      ensures path in twice && path in once && twice[path] == once[path]
    {
      WrittenAt(files, pages, path);
      WrittenAt(once, pages, path);
      if exists j :: 0 <= j < |pages| && pages[j].path == path {
        var k := LastWriteExists(pages, path);
      }
    }
  }

  /** `generate_markdown_from_notebook`: on success the page's path holds exactly its
      content (the file is opened for writing, then the frontmatter with a blank line and
      the body are appended); on an exception the directory is untouched. */
  method WriteMarkdown(dir: OutputDir, d: PageData, output: string, tools: Tools) returns (error: Option<PyError>)
    modifies dir
    ensures PageOf(d, output, tools).Failure? ==> error == Some(PageOf(d, output, tools).error) && dir.files == old(dir.files)
    ensures PageOf(d, output, tools).Success? ==>
      error.None? && dir.files == old(dir.files)[PageOf(d, output, tools).value.path := PageOf(d, output, tools).value.content]
  {
    var frontmatter := Frontmatter(d, tools.git);
    if frontmatter.Failure? {
      assert PageOf(d, output, tools) == Failure(frontmatter.error);
      return Some(frontmatter.error);
    }
    var body := GetLines(tools.exportBody(Text(d.file)), 1);
    var filename := Stem(d.file);
    var path := output + "/" + filename + ".md";
    assert PageOf(d, output, tools) == Success(Page(path, frontmatter.value + "\n\n" + body));
    WriteFile(dir, path, frontmatter.value + "\n\n", body);
    error := None;
  }

  /** Opening a file for writing and writing two texts leaves it holding both. */
  method WriteFile(dir: OutputDir, path: string, head: string, body: string)
    modifies dir
    ensures dir.files == old(dir.files)[path := head + body]
  {
    dir.Open(path);
    dir.Write(path, head);
    dir.Write(path, body);
    assert "" + head + body == head + body;
  }

  /** The body of the main loop: the record for the entry, then its page. */
  method GenerateEntry(dir: OutputDir, index: Index, root: Path, output: string, tools: Tools, e: Entry)
    returns (error: Option<PyError>)
    modifies dir
    ensures EntryPage(index, root, output, tools, e).Failure? ==>
      error == Some(EntryPage(index, root, output, tools, e).error) && dir.files == old(dir.files)
    ensures EntryPage(index, root, output, tools, e).Success? ==> (error.None?
      && dir.files == old(dir.files)[EntryPage(index, root, output, tools, e).value.path := EntryPage(index, root, output, tools, e).value.content])
  {
    var data := EntryData(index, root, e);
    if data.Failure? {
      return Some(data.error);
    }
    error := WriteMarkdown(dir, data.value, output, tools);
  }

  /** The script's main loop: one page per entry, in manifest order, until the first
      exception, which ends the run and is returned. */
  method GenerateMarkdowns(dir: OutputDir, index: Index, root: Path, output: string, tools: Tools)
    returns (error: Option<PyError>)
    modifies dir
    ensures error == Pages(index, root, output, tools, index.cookbook).error
    ensures dir.files == Written(old(dir.files), Pages(index, root, output, tools, index.cookbook).pages)
  {
    var cookbook := index.cookbook;
    ghost var outcomes := Outcomes(index, root, output, tools, cookbook);
    assert Pages(index, root, output, tools, cookbook) == RunOf(outcomes);
    ghost var written: seq<Page> := [];
    for i := 0 to |cookbook|
      invariant RunOf(outcomes[..i]) == Run(written, None)
      invariant dir.files == Written(old(dir.files), written)
    {
      RunOfStep(outcomes, i, written);
      error := GenerateEntry(dir, index, root, output, tools, cookbook[i]);
      if error.Some? {
        return;
      }
      written := written + [outcomes[i].value];
    }
    assert outcomes[..|cookbook|] == outcomes;
    error := None;
  }
}
