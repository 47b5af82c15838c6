/** `scripts/generate_matrix.py`: the CI test matrix. A loop over the manifest's entries
    skips hidden, GPU-only and non-runnable entries and, when a `--notebooks` list is given,
    entries outside it; every other entry adds a row, plus a second row pinned to `main`
    when `--include-main` is set and the entry pins no `haystack_version`. */
module Matrix {
  import opened Wrappers
  import opened PyText
  import opened IndexToml

  /** One matrix row: the dict `{"notebook": ..., ["haystack_version": ...,] "dependencies": ...}`. */
  datatype Row = Row(notebook: string, haystackVersion: Option<string>, dependencies: Value)

  /** The guards before the `notebook` lookup: not hidden, no GPU needed, and runnable on
      Colab, which an entry is unless its `colab` is falsy. */
  predicate Runnable(e: Entry) {
    !TruthyOr(e.hidden, false) && !TruthyOr(e.needsGpu, false) && TruthyOr(e.colab, true)
  }

  /** An empty `--notebooks` list selects every notebook. */
  predicate Selected(name: string, notebooks: seq<string>) {
    notebooks == [] || name in notebooks
  }

  /** An entry that gets its base row. */
  predicate Passes(e: Entry, notebooks: seq<string>) {
    Runnable(e) && e.notebook.Some? && Selected(e.notebook.value, notebooks)
  }

  /** An entry that also gets a row pinned to `main`. */
  predicate TestsMain(e: Entry, includeMain: bool) {
    includeMain && e.haystackVersion.None?
  }

  function Dependencies(e: Entry): Value {
    e.dependencies.GetOr(Arr([]))
  }

  /** The row every passing entry gets: the notebook name without its last six
      characters (the `.ipynb` extension) and the declared dependencies. */
  function BaseRow(e: Entry): Row
    requires e.notebook.Some?
  {
    Row(DropLast(e.notebook.value, 6), None, Dependencies(e))
  }

  /** The extra row that tests the same notebook against Haystack's `main`. */
  function MainRow(e: Entry): Row
    requires e.notebook.Some?
  {
    Row(DropLast(e.notebook.value, 6), Some("main"), Dependencies(e))
  }

  /** What one turn of the loop appends to `matrix`, or the `KeyError` that
      `tutorial["notebook"]` raises for a runnable entry without the key. */
  function EntryRows(e: Entry, notebooks: seq<string>, includeMain: bool): Result<seq<Row>> {
    if !Runnable(e) then Success([])
    else if e.notebook.None? then Failure(KeyError("notebook"))
    else if !Selected(e.notebook.value, notebooks) then Success([])
    else Success([BaseRow(e)] + if TestsMain(e, includeMain) then [MainRow(e)] else [])
  }

  /** Running one stretch of the loop and then the next: the first exception wins. */
  function Then(first: Result<seq<Row>>, next: Result<seq<Row>>): Result<seq<Row>> {
    match first
    case Failure(err) => Failure(err)
    case Success(m) =>
      match next
      case Failure(err) => Failure(err)
      case Success(rows) => Success(m + rows)
  }

  /** The list `matrix` once the loop has gone through `cookbook`, or the exception that
      stopped the script. */
  function MatrixOf(cookbook: seq<Entry>, notebooks: seq<string>, includeMain: bool): Result<seq<Row>> {
    if cookbook == [] then Success([])
    else
      Then(MatrixOf(cookbook[..|cookbook| - 1], notebooks, includeMain),
           EntryRows(cookbook[|cookbook| - 1], notebooks, includeMain))
  }

  /** The loop of the script. */
  method GenerateMatrix(cookbook: seq<Entry>, notebooks: seq<string>, includeMain: bool)
    returns (result: Result<seq<Row>>)
    ensures result == MatrixOf(cookbook, notebooks, includeMain)
  {
    var matrix: seq<Row> := [];
    for i := 0 to |cookbook|
      invariant MatrixOf(cookbook[..i], notebooks, includeMain) == Success(matrix)
    {
      assert cookbook[..i + 1][..i] == cookbook[..i];
      var tutorial := cookbook[i];
      assert MatrixOf(cookbook[..i + 1], notebooks, includeMain)
          == Then(Success(matrix), EntryRows(tutorial, notebooks, includeMain));
      assert matrix + [] == matrix;
      if TruthyOr(tutorial.hidden, false) {
        continue;
      }
      if TruthyOr(tutorial.needsGpu, false) {
        continue;
      }
      if !TruthyOr(tutorial.colab, true) {
        continue;
      }
      if tutorial.notebook.None? {
        result := Failure(KeyError("notebook"));
        MatrixOfConcat(cookbook[..i + 1], cookbook[i + 1..], notebooks, includeMain);
        assert cookbook[..i + 1] + cookbook[i + 1..] == cookbook;
        return;
      }
      var notebook := tutorial.notebook.value;
      if notebooks != [] && notebook !in notebooks {
        continue;
      }
      ghost var before := matrix;
      matrix := matrix + [Row(DropLast(notebook, 6), None, tutorial.dependencies.GetOr(Arr([])))];
      if includeMain && tutorial.haystackVersion.None? {
        matrix := matrix + [Row(DropLast(notebook, 6), Some("main"), tutorial.dependencies.GetOr(Arr([])))];
      }
      assert matrix == before + EntryRows(tutorial, notebooks, includeMain).value;
    }
    assert cookbook[..|cookbook|] == cookbook;
    result := Success(matrix);
  }

  lemma ThenAssociative(x: Result<seq<Row>>, y: Result<seq<Row>>, z: Result<seq<Row>>)
    ensures Then(Then(x, y), z) == Then(x, Then(y, z))
  {
    if x.Success? && y.Success? && z.Success? {
      assert x.value + y.value + z.value == x.value + (y.value + z.value);
    }
  }

  /** The loop over two stretches of the manifest is the loop over the first, then over
      the second: rows follow manifest order and an exception stops everything after it. */
  lemma {:induction false} MatrixOfConcat(a: seq<Entry>, b: seq<Entry>, notebooks: seq<string>, includeMain: bool)
    ensures MatrixOf(a + b, notebooks, includeMain)
         == Then(MatrixOf(a, notebooks, includeMain), MatrixOf(b, notebooks, includeMain))
    decreases |b|
  {
    if b == [] {
      assert a + b == a;
      var m := MatrixOf(a, notebooks, includeMain);
      if m.Success? { assert m.value + [] == m.value; }
    } else {
      var b' := b[..|b| - 1];
      assert (a + b)[..|a + b| - 1] == a + b';
      assert (a + b)[|a + b| - 1] == b[|b| - 1];
      MatrixOfConcat(a, b', notebooks, includeMain);
      ThenAssociative(MatrixOf(a, notebooks, includeMain), MatrixOf(b', notebooks, includeMain),
                      EntryRows(b[|b| - 1], notebooks, includeMain));
    }
  }

  lemma MatrixOfSingle(e: Entry, notebooks: seq<string>, includeMain: bool)
    ensures MatrixOf([e], notebooks, includeMain) == EntryRows(e, notebooks, includeMain)
  {
    assert [e][..0] == [];
    var r := EntryRows(e, notebooks, includeMain);
    if r.Success? { assert [] + r.value == r.value; }
  }

  /** The rows that an entry somewhere in the manifest contributes, in place. */
  lemma MatrixOfSplit(a: seq<Entry>, e: Entry, b: seq<Entry>, notebooks: seq<string>, includeMain: bool)
    ensures MatrixOf(a + [e] + b, notebooks, includeMain)
         == Then(Then(MatrixOf(a, notebooks, includeMain), EntryRows(e, notebooks, includeMain)),
                 MatrixOf(b, notebooks, includeMain))
  {
    MatrixOfConcat(a + [e], b, notebooks, includeMain);
    MatrixOfConcat(a, [e], notebooks, includeMain);
    MatrixOfSingle(e, notebooks, includeMain);
  }

  /** An entry that is hidden, needs a GPU, has a falsy `colab`, or is outside a non-empty
      `--notebooks` list contributes no rows: the matrix is as if it were not there. */
  lemma SkippedEntryAddsNoRows(a: seq<Entry>, e: Entry, b: seq<Entry>, notebooks: seq<string>, includeMain: bool)
    requires !Runnable(e) || (e.notebook.Some? && !Selected(e.notebook.value, notebooks))
    ensures MatrixOf(a + [e] + b, notebooks, includeMain) == MatrixOf(a + b, notebooks, includeMain)
  {
    MatrixOfSplit(a, e, b, notebooks, includeMain);
    MatrixOfConcat(a, b, notebooks, includeMain);
    var m := MatrixOf(a, notebooks, includeMain);
    if m.Success? { assert m.value + [] == m.value; }
  }

  /** A passing entry contributes its base row and, right after it, the `main` row exactly
      when `--include-main` is set and the entry pins no `haystack_version`. */
  lemma PassingEntryRows(a: seq<Entry>, e: Entry, b: seq<Entry>, notebooks: seq<string>, includeMain: bool,
                         before: seq<Row>, after: seq<Row>)
    requires Passes(e, notebooks)
    requires MatrixOf(a, notebooks, includeMain) == Success(before)
    requires MatrixOf(b, notebooks, includeMain) == Success(after)
    ensures MatrixOf(a + [e] + b, notebooks, includeMain)
         == Success(before + [BaseRow(e)] + (if TestsMain(e, includeMain) then [MainRow(e)] else []) + after)
  {
    MatrixOfSplit(a, e, b, notebooks, includeMain);
    var rows := [BaseRow(e)] + if TestsMain(e, includeMain) then [MainRow(e)] else [];
    assert before + rows + after == before + [BaseRow(e)] + (if TestsMain(e, includeMain) then [MainRow(e)] else []) + after;
  }

  /** The script stops with `KeyError('notebook')` exactly when some entry that passes the
      first three guards has no `notebook` key. */
  lemma {:induction false} MatrixFailsIff(cookbook: seq<Entry>, notebooks: seq<string>, includeMain: bool)
    ensures MatrixOf(cookbook, notebooks, includeMain).Failure?
        <==> exists j :: 0 <= j < |cookbook| && Runnable(cookbook[j]) && cookbook[j].notebook.None?
    ensures MatrixOf(cookbook, notebooks, includeMain).Failure?
        ==> MatrixOf(cookbook, notebooks, includeMain).error == KeyError("notebook")
    decreases |cookbook|
  {
    if cookbook != [] {
      var init := cookbook[..|cookbook| - 1];
      MatrixFailsIff(init, notebooks, includeMain);
      forall j | 0 <= j < |init| ensures init[j] == cookbook[j] { }
    }
  }

  /** The number of entries that pass the filters. */
  function CountPassing(cookbook: seq<Entry>, notebooks: seq<string>): nat {
    if cookbook == [] then 0
    else CountPassing(cookbook[..|cookbook| - 1], notebooks) + if Passes(cookbook[|cookbook| - 1], notebooks) then 1 else 0
  }

  /** The number of passing entries that pin no `haystack_version`. */
  function CountUnpinned(cookbook: seq<Entry>, notebooks: seq<string>): (n: nat)
    ensures n <= CountPassing(cookbook, notebooks)
  {
    if cookbook == [] then 0
    else
      var e := cookbook[|cookbook| - 1];
      CountUnpinned(cookbook[..|cookbook| - 1], notebooks) + if Passes(e, notebooks) && e.haystackVersion.None? then 1 else 0
  }

  /** There is one row per passing entry, plus one per unpinned passing entry with
      `--include-main`: between P and 2P rows for P passing entries, exactly P without it. */
  lemma {:induction false} MatrixSize(cookbook: seq<Entry>, notebooks: seq<string>, includeMain: bool, m: seq<Row>)
    requires MatrixOf(cookbook, notebooks, includeMain) == Success(m)
    ensures |m| == CountPassing(cookbook, notebooks) + if includeMain then CountUnpinned(cookbook, notebooks) else 0
    ensures CountPassing(cookbook, notebooks) <= |m| <= 2 * CountPassing(cookbook, notebooks)
    ensures !includeMain ==> |m| == CountPassing(cookbook, notebooks)
    decreases |cookbook|
  {
    if cookbook != [] {
      var init := cookbook[..|cookbook| - 1];
      var e := cookbook[|cookbook| - 1];
      var rows := EntryRows(e, notebooks, includeMain);
      MatrixSize(init, notebooks, includeMain, MatrixOf(init, notebooks, includeMain).value);
      assert |m| == |MatrixOf(init, notebooks, includeMain).value| + |rows.value|;
    }
  }

  /** Where a row comes from: the base row of a passing entry, or its `main` row. */
  ghost predicate RowOf(r: Row, cookbook: seq<Entry>, notebooks: seq<string>, includeMain: bool) {
    exists j :: 0 <= j < |cookbook| && Passes(cookbook[j], notebooks)
      && (r == BaseRow(cookbook[j]) || (TestsMain(cookbook[j], includeMain) && r == MainRow(cookbook[j])))
  }

  /** Every row comes from a passing entry, and every passing entry has its rows in the matrix. */
  lemma {:induction false} MatrixRowsComplete(cookbook: seq<Entry>, notebooks: seq<string>, includeMain: bool, m: seq<Row>)
    requires MatrixOf(cookbook, notebooks, includeMain) == Success(m)
    ensures forall k :: 0 <= k < |m| ==> RowOf(m[k], cookbook, notebooks, includeMain)
    ensures forall j :: 0 <= j < |cookbook| && Passes(cookbook[j], notebooks) ==> BaseRow(cookbook[j]) in m
    ensures forall j :: 0 <= j < |cookbook| && Passes(cookbook[j], notebooks) && TestsMain(cookbook[j], includeMain)
              ==> MainRow(cookbook[j]) in m
    decreases |cookbook|
  {
    if cookbook != [] {
      var init := cookbook[..|cookbook| - 1];
      var e := cookbook[|cookbook| - 1];
      var m0 := MatrixOf(init, notebooks, includeMain).value;
      var rows := EntryRows(e, notebooks, includeMain).value;
      MatrixRowsComplete(init, notebooks, includeMain, m0);
      assert m == m0 + rows;
      forall k | 0 <= k < |m| ensures RowOf(m[k], cookbook, notebooks, includeMain) {
        if k < |m0| {
          assert m[k] == m0[k];
          var j :| 0 <= j < |init| && Passes(init[j], notebooks)
            && (m0[k] == BaseRow(init[j]) || (TestsMain(init[j], includeMain) && m0[k] == MainRow(init[j])));
          assert init[j] == cookbook[j];
        } else {
          assert m[k] == rows[k - |m0|];
          assert cookbook[|cookbook| - 1] == e;
        }
      }
      forall j | 0 <= j < |cookbook| && Passes(cookbook[j], notebooks)
        ensures BaseRow(cookbook[j]) in m
        ensures TestsMain(cookbook[j], includeMain) ==> MainRow(cookbook[j]) in m
      {
        if j < |init| {
          assert init[j] == cookbook[j];
        } else {
          assert rows[0] == BaseRow(e) && m[|m0|] == rows[0];
          if TestsMain(e, includeMain) { assert m[|m0| + 1] == rows[1]; }
        }
      }
    }
  }

  /** What the script prints on its last line, as written: one hard-coded debug row,
      whatever the manifest and the flags (nothing is printed once an exception is raised). */
  function PrintedRows(result: Result<seq<Row>>): (printed: seq<Row>)
    ensures result.Success? ==> printed == [Row("auto_merging_retriever", None, Arr([]))]
    ensures result.Failure? ==> printed == []
  {
    if result.Success? then [Row("auto_merging_retriever", None, Arr([]))] else []
  }

  /** The printed rows are not the computed matrix: for an empty manifest the matrix is
      empty but a row is printed. */
  lemma PrintedRowsIgnoreMatrix()
    ensures MatrixOf([], [], false) == Success([])
    ensures PrintedRows(MatrixOf([], [], false)) != []
  {
  }
}
