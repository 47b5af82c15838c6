# Haystack cookbook manifest scripts, modelled in Dafny

The cookbook repository keeps its notebooks in `notebooks/` and describes them in a
manifest, `index.toml`. The manifest has a `[config]` table and a list of `[[cookbook]]`
entries. Each entry has optional keys: `notebook`, `title`, `topics`, `hidden`, `needs_gpu`,
`colab`, `haystack_version`, `dependencies` and a few display flags. Three scripts read this
manifest:

- `scripts/generate_matrix.py` computes the CI test matrix. It skips entries that are
  hidden, need a GPU, are not runnable or fall outside an optional `--notebooks` list. Each
  remaining entry gets one row. With `--include-main`, an entry that pins no
  `haystack_version` also gets a second row pinned to `main`. What the script actually
  prints is a hard-coded debug row (see "Findings").
- `scripts/verify_index.py` checks the manifest against the notebook files on disk. It
  prints one line per problem, and exits with status 1 when there was at least one.
- `scripts/generate_markdowns.py` writes one markdown page per entry. A page is a YAML
  frontmatter block built from the entry, the `config` table and two git dates, followed by
  a blank line and the notebook exported to markdown without its first line.

The model has one module per script (`Matrix`, `VerifyIndex`, `Markdowns`). They share:

- `IndexToml`: the parsed manifest, Python truthiness, and `str()`/`repr()` of TOML values.
- `PyText`: the Python string built-ins the scripts use, which are `strip`,
  `splitlines()[0]`, `split`/`join` on one character, `split()` on whitespace and `s[:-n]`,
  plus nbconvert's `get_lines`.
- `PyPath`: the `pathlib` operations the scripts use.
- `Wrappers`: `Option`, `Result` and the Python exceptions the scripts can raise
  (`KeyError`, `IndexError`).

What the scripts read from outside becomes a parameter:

- the manifest, as a value;
- the notebook files, as a list of names in glob order;
- file existence, as a set of names;
- git, as a function from an argument vector to its decoded output;
- nbconvert's export, as a function from a path to the markdown body;
- the output directory, as an object holding a map from path to content.

Each script's loop is a method, proved equal to a recursive function over the manifest. The
properties are lemmas about those functions.

Some things the code does not do, so the model does not either:

- The markdown export runs with `exclude_output=True`, so cell outputs are left out, not
  rendered.
- The code neither strips lines holding PNG images nor removes dataframe payloads.
- The matrix has no registry lookup of a "latest" release. The extra row is pinned to the
  literal `"main"`, and the debug print is a single unpinned row.
- The "Can't find the header" `IndexError` rewrite cannot happen. The `IndexError` for an
  empty git history is raised by `splitlines()[0]` inside `generate_frontmatter`, before
  the `try`. The only statement the `try` guards is a file write, which cannot raise
  `IndexError`.

## Model

| member | source | states |
|---|---|---|
| Matrix.GenerateMatrix | scripts/generate_matrix.py:24-61 | the loop with its `continue` guards yields the matrix the recursive `Matrix.MatrixOf` assigns to the manifest, or the same `KeyError` |
| Matrix.MatrixOfConcat | scripts/generate_matrix.py:24-61 | the loop over two stretches of the manifest is the loop over the first and then over the second: rows keep manifest order and an exception stops everything after it |
| Matrix.MatrixOfSplit | scripts/generate_matrix.py:24-61 | an entry anywhere in the manifest contributes its own rows in place, between the rows of the entries before and after it |
| Matrix.SkippedEntryAddsNoRows | scripts/generate_matrix.py:26-44 | an entry that is hidden, needs a GPU, has a falsy `colab` or lies outside a non-empty `--notebooks` list can be removed from the manifest without changing the matrix; an absent `colab` counts as runnable |
| Matrix.PassingEntryRows | scripts/generate_matrix.py:46-61 | a passing entry contributes its base row (notebook without its last six characters, declared dependencies or `[]`), immediately followed by the `main` row exactly when `--include-main` is set and no `haystack_version` is pinned |
| Matrix.MatrixFailsIff | scripts/generate_matrix.py:40 | the script raises exactly when some entry that passes the first three guards has no `notebook` key, and the exception is `KeyError('notebook')` |
| Matrix.MatrixSize | scripts/generate_matrix.py:24-61 | the matrix has one row per passing entry plus one per unpinned passing entry under `--include-main`: between P and 2P rows, exactly P without the flag |
| Matrix.MatrixRowsComplete | scripts/generate_matrix.py:24-61 | every row is the base or `main` row of a passing entry, and every passing entry has its base row, and its `main` row when one is due |
| Matrix.Runnable | scripts/generate_matrix.py:26-38 | defines the first three guards: not hidden, no GPU needed, and a `colab` that is truthy or absent |
| Matrix.Passes | scripts/generate_matrix.py:26-44 | defines an entry that gets its base row: runnable, with a `notebook` inside the `--notebooks` list when that list is non-empty |
| Matrix.EntryRows | scripts/generate_matrix.py:25-61 | defines one turn of the loop: no rows for a skipped entry, `KeyError('notebook')` for a runnable entry without the key, otherwise the base row and the optional `main` row |
| Matrix.MatrixOf | scripts/generate_matrix.py:24-61 | defines the loop over the manifest: each entry's rows appended in order, the first exception ending the run |
| Matrix.PrintedRows | scripts/generate_matrix.py:63-65 | what is printed is the single fixed row for `auto_merging_retriever` with no dependencies, whatever the manifest and flags |
| Matrix.PrintedRowsIgnoreMatrix | scripts/generate_matrix.py:63-65 | for an empty manifest the computed matrix is empty but a row is printed |
| VerifyIndex.Message | scripts/verify_index.py:21-39 | defines the five printed lines, each with the notebook name or, for an entry without a file, the entry's dict |
| VerifyIndex.IndexedNotebooks | scripts/verify_index.py:14-18 | defines `indexed_notebooks`: the `notebook` values of the entries that have the key, in manifest order |
| VerifyIndex.UnindexedDiagnostics | scripts/verify_index.py:19-22 | defines the first loop's diagnostics: one per file not indexed, in glob order |
| VerifyIndex.EntryDiagnostics | scripts/verify_index.py:25-40 | defines one entry's diagnostics: "has no file" alone, or the file, title and topics checks in order |
| VerifyIndex.CookbookDiagnostics | scripts/verify_index.py:24-40 | defines the second loop's diagnostics: each entry's in manifest order |
| VerifyIndex.Diagnostics | scripts/verify_index.py:13-40 | defines everything printed: the first loop's diagnostics, then the second's |
| VerifyIndex.IndexedNotebooksIff | scripts/verify_index.py:14-18 | a name is in `indexed_notebooks` exactly when some entry's `notebook` key holds it |
| VerifyIndex.VerifyIndex | scripts/verify_index.py:13-43 | the two loops print exactly the specified diagnostics in order, one line per diagnostic with its message, and the exit status is 1 exactly when at least one was printed |
| VerifyIndex.CheckFiles | scripts/verify_index.py:19-22 | the first loop prints one "not found in 'index.toml'" line per unindexed file, in glob order, and sets `failed` exactly when it printed one |
| VerifyIndex.CheckCookbook | scripts/verify_index.py:24-40 | the second loop prints every entry's diagnostics in manifest order and sets `failed` exactly when it printed one |
| VerifyIndex.CheckEntry | scripts/verify_index.py:25-40 | one entry's checks: "has no file" and `continue` without a `notebook` key, otherwise the file, title and topics checks in that order |
| VerifyIndex.EntryChecks | scripts/verify_index.py:25-40 | an entry without a file gets exactly "has no file"; otherwise at most three diagnostics about its file: "file not found" iff the file is missing, "has no title" iff the key is absent (an empty title passes), "has no topics" iff `topics` is absent or falsy |
| VerifyIndex.CookbookDiagnosticsConcat | scripts/verify_index.py:24-40 | the diagnostics of two stretches of the manifest are those of the first followed by those of the second |
| VerifyIndex.UnindexedReportedOnce | scripts/verify_index.py:19-22 | with distinct file names, an unindexed file is reported exactly once and an indexed one never |
| VerifyIndex.UnindexedEmptyIff | scripts/verify_index.py:19-22 | the first loop prints nothing exactly when every file on disk is indexed |
| VerifyIndex.CookbookCleanIff | scripts/verify_index.py:24-40 | the second loop prints nothing exactly when every entry names an existing file and has a title and truthy topics |
| VerifyIndex.CleanIff | scripts/verify_index.py:13-43 | the script prints nothing, and so exits normally, exactly when every file is indexed and every entry passes every check |
| VerifyIndex.TitleReportsCount | scripts/verify_index.py:34-36 | there is one title diagnostic per entry that names a file but lacks `title`, so one such entry gives exactly one and a failing run |
| VerifyIndex.CookbookTitleReports | scripts/verify_index.py:24-40 | the second loop's title diagnostics count the entries with a file and no `title` key |
| VerifyIndex.EntryTitleReports | scripts/verify_index.py:34-36 | one entry gives one title diagnostic exactly when it names a file and lacks `title` |
| VerifyIndex.UnindexedHasNoTitleReports | scripts/verify_index.py:19-22 | the first loop prints no title diagnostics |
| VerifyIndex.TitleReportsConcat | scripts/verify_index.py:13-43 | title diagnostics of two printed stretches add up |
| Markdowns.EntryData | scripts/generate_markdowns.py:80-90 | building the record raises exactly when `notebook`, `title`, `config` or `config.colab` is missing, and then raises `KeyError` |
| Markdowns.EntryRecord | scripts/generate_markdowns.py:80-90 | the record holds the path `<root>/notebooks/<notebook>`, the title as given, the colab link `<base>/<notebook>`, and each flag as given or `False` |
| Markdowns.LastCommitArgv | scripts/generate_markdowns.py:11-15 | for a path without whitespace the last-commit query runs `git log -1 --pretty=format:"%cs" <path>` with the quotes as literal characters |
| Markdowns.FirstCommitArgv | scripts/generate_markdowns.py:16-23 | for a path without whitespace the history query runs `git log --reverse --pretty=format:"%cs" <path>` |
| Markdowns.GitArgv | scripts/generate_markdowns.py:12-18 | defines a git call's argument vector: the command line with the path appended, split at whitespace |
| Markdowns.FrontmatterValues | scripts/generate_markdowns.py:26-41 | defines the sixteen values, one per key, in key order |
| Markdowns.FrontmatterText | scripts/generate_markdowns.py:25-43 | defines the template text: `---`, the sixteen `key: value` lines, `---` and four spaces, joined by newlines |
| Markdowns.Frontmatter | scripts/generate_markdowns.py:10-44 | `generate_frontmatter` raises exactly when the history output is all whitespace, and then raises `IndexError('list index out of range')` |
| Markdowns.FieldReadBack | scripts/generate_markdowns.py:26-41 | a `key: value` line reads back as its key and its value |
| Markdowns.FrontmatterReadBack | scripts/generate_markdowns.py:25-43 | read line by line, the frontmatter is `---`, the sixteen keys in fixed order each with its value, `---`, and a line of four spaces, provided no value holds a newline |
| Markdowns.EntryFrontmatterLinks | scripts/generate_markdowns.py:30-32 | the `colab` value is the configured base, a slash and the notebook's file name; the `title` value is the title between double quotes, unescaped |
| Markdowns.EntryDownload | scripts/generate_markdowns.py:35 | the `download` value is `/downloads/` followed by the name of the notebook's path: the last part of the `notebook` value (`sub/x.ipynb` gives `x.ipynb`), which for a plain file name is the value itself |
| Markdowns.NotebookPathName | scripts/generate_markdowns.py:81 | `.name` of `<root>/notebooks/<notebook>` is the last part of the value; a value with no part leaves `notebooks`, or nothing when it is absolute |
| Markdowns.EntryFrontmatterFlags | scripts/generate_markdowns.py:36-41 | `featured`, `experimental`, `discuss`, `hidden`, `new` and `topics` show the entry's values, and `False` for any the entry does not set |
| Markdowns.PageOf | scripts/generate_markdowns.py:47-61 | a page fails exactly when the history is blank; the error is the original `IndexError`, never the rewritten "Can't find the header" message |
| Markdowns.EntryPageContent | scripts/generate_markdowns.py:47-61 | for every entry with a record and a non-blank history the page goes to `<output>/<stem>.md` and holds the frontmatter (stripped last-commit date, first history line, which is never empty), `"\n\n"`, then the export after its first newline |
| Markdowns.EntryPageShape | scripts/generate_markdowns.py:53-54 | for a notebook named `base.ipynb` the page is written to `<output>/<base>.md` |
| Markdowns.EntryPage | scripts/generate_markdowns.py:80-91 | defines one turn of the main loop: the record's `KeyError`, or the page of the record |
| Markdowns.RunOfOutcome | scripts/generate_markdowns.py:79-91 | a run keeps the successes' pages in order up to the first failure, which ends it with that failure's exception; without a failure every outcome has its page |
| Markdowns.RunOfStop | scripts/generate_markdowns.py:79-91 | once an outcome has failed, later outcomes change nothing |
| Markdowns.RunOfStep | scripts/generate_markdowns.py:79-91 | after a run without failure, a failing next outcome ends the whole run with its exception and a successful one adds its page |
| Markdowns.PagesOutcome | scripts/generate_markdowns.py:79-91 | the run writes exactly one page per entry in manifest order up to the first entry that raises, whose exception ends the run with nothing written for it or later entries |
| Markdowns.OutputDir.constructor | scripts/generate_markdowns.py:76-77 | the directory starts with the given files |
| Markdowns.OutputDir.Open | scripts/generate_markdowns.py:54 | opening a path for writing creates it empty or empties it, and changes no other path |
| Markdowns.OutputDir.Write | scripts/generate_markdowns.py:56-61 | a write appends to that path only |
| Markdowns.Written | scripts/generate_markdowns.py:54-61 | defines the directory after the pages are written in order, a later page replacing an earlier one at the same path |
| Markdowns.WrittenAt | scripts/generate_markdowns.py:79-91 | after the run a path exists iff it existed or some page went there; it holds the last page written to it, and a path no page went to keeps its content |
| Markdowns.LastWriteExists | scripts/generate_markdowns.py:79-91 | a path some page goes to has a last page written to it |
| Markdowns.WrittenIdempotent | scripts/generate_markdowns.py:79-91 | writing the same pages a second time changes nothing, so a rerun on an unchanged manifest and history leaves the same files |
| Markdowns.WriteFile | scripts/generate_markdowns.py:54-61 | opening a file and writing the frontmatter with a blank line and then the body leaves the file holding both |
| Markdowns.WriteMarkdown | scripts/generate_markdowns.py:47-61 | `generate_markdown_from_notebook` either raises the page's error and leaves the directory untouched, or sets the page's path to exactly its content |
| Markdowns.GenerateEntry | scripts/generate_markdowns.py:79-91 | one turn of the main loop builds the record and writes its page, or raises and leaves the directory untouched |
| Markdowns.GenerateMarkdowns | scripts/generate_markdowns.py:79-91 | the main loop returns the exception of the first failing entry, if any, and leaves the directory as if the pages of the entries before it were written in order |
| PyText.Strip | scripts/generate_markdowns.py:14 | `strip()` gives the slice between the leading and the trailing whitespace: its ends are not whitespace and everything cut off is |
| PyText.StripEmptyIff | scripts/generate_markdowns.py:21 | a text strips to nothing exactly when it is all whitespace |
| PyText.FirstLine | scripts/generate_markdowns.py:22 | `splitlines()[0]` raises exactly for the empty text; otherwise it is the prefix up to the first line boundary |
| PyText.Split | scripts/generate_markdowns.py:51 | `split` on one character gives at least one piece, none holding the separator |
| PyText.JoinSplit | scripts/generate_markdowns.py:51 | joining the pieces of a split with the separator gives the text back |
| PyText.SplitJoin | scripts/generate_markdowns.py:25-43 | splitting a join of separator-free pieces gives the pieces back |
| PyText.GetLinesDropsFirstLine | scripts/generate_markdowns.py:51 | `get_lines(body, start=1)` is the text after the first newline, or empty when there is none |
| PyText.DropLast | scripts/generate_matrix.py:48 | `s[:-6]` is the prefix without the last six characters, empty for shorter names |
| PyText.Words | scripts/generate_markdowns.py:12 | `str.split()` gives only words, none empty and none holding whitespace |
| PyText.WordsSkipsSpace | scripts/generate_markdowns.py:12 | leading whitespace does not change `str.split()` |
| PyText.WordsCons | scripts/generate_markdowns.py:12 | a word followed by whitespace splits off as the first item |
| PyText.WordsOfWord | scripts/generate_markdowns.py:12 | a single word splits to itself |
| PyText.WordsSpacedStep | scripts/generate_markdowns.py:18 | words written one space apart split off one at a time |
| PyText.NatDecimal | scripts/generate_markdowns.py:36-41 | `str()` of a natural number is decimal digits with no leading zero unless it is zero, and the digits read back as the number |
| PyText.DigitChar | scripts/generate_markdowns.py:36-41 | a digit character denotes its digit |
| PyText.StrippedFirstLine | scripts/generate_markdowns.py:20-22 | the first line of a stripped history that is not blank is not empty, because every line boundary is whitespace |
| PyText.LineBoundaryIsSpace | scripts/generate_markdowns.py:20-22 | every character at which `splitlines()` ends a line is one `strip()` removes |
| PyPath.DivComponent | scripts/generate_markdowns.py:81 | joining a plain file name adds exactly that part, which becomes the path's name |
| PyPath.StemOfNotebook | scripts/generate_markdowns.py:53 | the stem of `base.ipynb` is `base` |
| PyPath.RFind | scripts/generate_markdowns.py:53 | the last dot of a name, or -1 when there is none |
| PyPath.NameOfDiv | scripts/generate_markdowns.py:35 | the name of `p / s` is the last part of `s`; with no part it is the name of `p`, or nothing when `s` is absolute |
| PyPath.Div | scripts/generate_markdowns.py:81 | defines `p / s`: an absolute `s` replaces `p`, otherwise its non-empty, non-`.` parts are appended |
| PyPath.Name | scripts/generate_markdowns.py:35 | defines `.name`: the last part, or nothing |
| PyPath.Stem | scripts/generate_markdowns.py:53 | defines `.stem`: the name up to its last dot, unless that dot is the name's first or last character |
| PyPath.Text | scripts/generate_markdowns.py:50 | defines `str()` of a path: the anchor and the parts joined by `/`, or `.` for the empty path |
| PyPath.Components | scripts/generate_markdowns.py:81 | the parts pathlib keeps of a string are non-empty, not `.` and free of `/` |
| PyText.GetLines | scripts/generate_markdowns.py:51 | defines nbconvert's `get_lines(text, start)`: the lines from `start` on, joined by newlines |
| IndexToml.Truthy | scripts/generate_matrix.py:26 | defines Python truthiness of a TOML value: `False`, `0`, `""` and `[]` are false |
| IndexToml.TruthyOr | scripts/generate_matrix.py:26-38 | defines `entry.get(key, default)` used as a condition: the default for an absent key, else the value's truthiness |
| IndexToml.QuoteRepr | scripts/verify_index.py:26 | defines `repr()` of a string: single quotes unless it holds a single quote and no double quote, with backslash escapes |
| IndexToml.Repr | scripts/verify_index.py:26 | defines `repr()` of a TOML value: `True`/`False`, decimal integers, quoted strings, bracketed lists |
| IndexToml.ReprItems | scripts/verify_index.py:26 | one `repr()` per list item |
| IndexToml.Render | scripts/generate_markdowns.py:30-41 | defines what an f-string substitutes: a string as itself, anything else as its `repr()` |
| IndexToml.EntryRepr | scripts/verify_index.py:26 | defines `str()` of an entry's dict: `{'key': value, ...}` over its present keys |
| Matrix.Selected | scripts/generate_matrix.py:41 | defines the `--notebooks` filter: no list given, or the notebook is in it |
| Matrix.TestsMain | scripts/generate_matrix.py:53 | defines when the extra `main` row is added: `--include-main` given (`args.main`) and no `haystack_version` key |
| Matrix.BaseRow | scripts/generate_matrix.py:46-51 | defines the first row: the notebook name without its last six characters and the entry's dependencies, default empty |
| Matrix.MainRow | scripts/generate_matrix.py:55-61 | defines the extra row: the same name and dependencies, pinned to `haystack_version` `"main"` |
| VerifyIndex.FileCheck | scripts/verify_index.py:30-32 | defines the "file not found" line for a notebook missing from the `notebooks` directory |
| VerifyIndex.TitleCheck | scripts/verify_index.py:34-36 | defines the "has no title" line for an entry without a `title` key |
| VerifyIndex.TopicsCheck | scripts/verify_index.py:38-40 | defines the "has no topics" line for an entry whose `topics` is missing or falsy |
| Markdowns.LastCommitCommand | scripts/generate_markdowns.py:12 | defines the last-commit query before the notebook path, with the quotes around `%cs` kept |
| Markdowns.FirstCommitCommand | scripts/generate_markdowns.py:18 | defines the history query before the notebook path, oldest commit first |
| Markdowns.FrontmatterKeys | scripts/generate_markdowns.py:26-41 | defines the sixteen frontmatter keys in the order they are written |
| Markdowns.RunOf | scripts/generate_markdowns.py:79-91 | defines a run over per-entry outcomes: the pages up to the first failure, and that failure |
| Markdowns.Pages | scripts/generate_markdowns.py:79-91 | defines the run of the loop over the manifest's entries |
| PyText.IsSpace | scripts/generate_markdowns.py:14 | defines the characters `str.strip()` removes: Python's whitespace |
| PyText.IsLineBoundary | scripts/generate_markdowns.py:22 | defines the characters `str.splitlines()` splits at |
| PyText.Join | scripts/verify_index.py:26 | defines `sep.join(parts)`: the parts with the separator between each two |
| PyText.IntDecimal | scripts/verify_index.py:26 | defines `repr()` of an integer: decimal digits, with a leading `-` when negative |
| PyPath.Anchor | scripts/generate_markdowns.py:81 | defines pathlib's anchor of a path string: `//` for exactly two leading slashes, `/` for one or three and more, empty for a relative path |

## Left out

- File and process I/O is left out: `tomllib` parsing, `argparse`, `glob`, `Path.exists`, `mkdir`, `open` and the subprocess calls. The model takes their results as parameters.
- `read_index` is a file read; the manifest is a value.
- The README read in `generate_markdowns.py` is left out, since its content is never used.
- The `Processing ...` progress print in `generate_markdowns.py` is left out.
- `Path(__file__).parent.parent` is left out; the repository root is a parameter.
- Git failures (`CalledProcessError`) and invalid UTF-8 in git's output are not modelled: git is a total function returning decoded text.
- nbconvert's Markdown export is a parameter: no cell or template semantics are modelled. `exclude_output=True` is part of what the parameter stands for.
- nbconvert failures on unreadable notebooks are not modelled.
- The manifest always has a `cookbook` list of tables, with a `notebook` that is a string when present. A missing `cookbook` key and ill-typed entries are not modelled.
- TOML floats, dates and inline tables are not modelled; values are booleans, integers, strings and arrays.
- The matrix is modelled as a list of rows, not as the text `json.dumps` writes.
- IndexToml.QuoteRepr, IndexToml.Repr: Python's `repr()` of non-ASCII characters is not modelled in full: only control characters and DEL are escaped, while Python also escapes other non-printable code points. This affects `str()` of lists and of entries with such strings.
- `IndexToml.EntryRepr` prints an entry's keys in one fixed order, not in the order the manifest wrote them.
- IndexToml.Entry has the twelve keys the scripts read; any other key in a `[[cookbook]]` table is dropped. So `IndexToml.EntryRepr`, which stands for `str(notebook)` in the "has no file" line, does not print such keys.
- Markdowns.LastCommitArgv: the argument vector is stated only for a notebook path without whitespace. A path with whitespace is still split into several arguments, as the script does, but no lemma describes that vector.
- Markdowns.FirstCommitArgv: as for `LastCommitArgv`, only paths without whitespace.
- Markdowns.FrontmatterReadBack: the read-back assumes no substituted value holds a newline. A title or flag with a newline breaks the line structure, as it does in the script.
- Markdowns.EntryPageShape: the `<output>/<base>.md` form is stated for notebooks named `base.ipynb` with a non-empty `base` and no slash. For every other name `Markdowns.EntryPageContent` gives the path through the `Path.stem` rule in `PyPath.Stem`.
- The non-atomic writes and a run interrupted mid-write are not modelled: each write is a single step.

## Findings

| source | as written | input that shows it | evidently intended | confidence | as-written member | corrected member |
|---|---|---|---|---|---|---|
| scripts/generate_matrix.py:63-65 | the script prints a hard-coded debug row, and the computed `matrix` is discarded (the intended `print(json.dumps(matrix))` is commented out) | an empty manifest: the matrix is empty, but one `auto_merging_retriever` row is printed | print the computed matrix | high, not executed | Matrix.PrintedRowsIgnoreMatrix | Matrix.GenerateMatrix |
