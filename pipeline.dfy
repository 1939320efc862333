/** The augmentation run of `improveKanjiList` (kanjiListFixer.py:30-61):
    for every data row of the table, clear its definitions cell, look up
    each kanji sub-entry, report cumulative progress with a padded status
    line, and append the numbered definition to the cell; then choose the
    path the document is saved to.

    The document library is not modelled: the table comes in as the
    sub-entry texts of the kanji column (column 3, header row first) and the
    texts of the definitions column (column 4, header row first), and the
    run returns the new definitions column, the arguments of every progress
    report, and the save path. */
module Pipeline {
  import opened PyStr
  import opened Cells
  import opened Reports
  import Definitions

  /** The token put in front of the file's base name when no output path is given. */
  const NewPrefix: string := "new "

  /** `getDef` with the page fetcher fixed: the meaning of one sub-entry. */
  function Lookup(fetch: string -> string): string -> string
  {
    (term: string) => Definitions.GetDef(term, fetch)
  }

  /** The meaning `lookup` gives for each sub-entry of a row. */
  function Meanings(row: seq<string>, lookup: string -> string): (ms: seq<string>)
    ensures |ms| == |row|
  {
    seq(|row|, j requires 0 <= j < |row| => lookup(row[j]))
  }

  lemma PrefixSnoc<T>(s: seq<T>, j: nat)
    requires j < |s|
    ensures s[..j + 1] == s[..j] + [s[j]]
  {
  }

  lemma PrefixWhole<T>(s: seq<T>)
    ensures s[..|s|] == s
  {
  }

  /** The inner loop of lines 51-57, for data row `i` (0-based) whose cell was
      just cleared: `offset` is `sum(translations[:i])`, `last` the status
      line shown before the row. Returns the rebuilt cell text, the reports
      made and the status line shown last. */
  method FillRow(i: nat, row: seq<string>, lookup: string -> string, offset: nat, total: int, last: string)
    returns (cell: string, made: seq<Report>, shown: string)
    ensures cell == DefinitionsCell(Meanings(row, lookup))
    ensures made == ReportsOf(RowStatuses(i, row, lookup), offset, total, |last|)
    ensures |shown| == LastWidth(RowStatuses(i, row, lookup), |last|)
  {
    ghost var meanings := Meanings(row, lookup);
    ghost var lines := RowStatuses(i, row, lookup);
    cell := "";
    made := [];
    shown := last;
    var j := 0;
    while j < |row|
      invariant 0 <= j <= |row|
      invariant cell == DefinitionsCell(meanings[..j])
      invariant made == ReportsOf(lines[..j], offset, total, |last|)
      invariant |shown| == LastWidth(lines[..j], |last|)
    {
      var x := row[j];
      var meaning := lookup(x);
      var text := StatusText(i, j, x, meaning);
      var mult := if |shown| > |text| then |shown| - |text| else 0;
      assert lines[j] == text;
      ReportsOfSnoc(lines, j, offset, total, |last|);
      PrefixSnoc(lines, j);
      CellExtend(meanings, j);
      made := made + [Report(offset + j + 1, total, text, mult)];
      assert meanings[j] == meaning;
      cell := cell + Segment(j, meaning);
      shown := text;
      j := j + 1;
    }
    PrefixWhole(meanings);
    PrefixWhole(lines);
  }

  /** After row `i`, the status lines, reports and width of the line shown
      last are those of the first `i + 1` rows. */
  lemma RowDone(rows: seq<seq<string>>, lookup: string -> string, i: nat, total: int,
                seen: seq<string>, reports: seq<Report>, width: nat, made: seq<Report>, shownWidth: nat)
    requires i < |rows|
    requires seen == Statuses(rows[..i], lookup) && |seen| == Sum(Counts(rows)[..i])
    requires reports == ReportsOf(seen, 0, total, 0) && width == LastWidth(seen, 0)
    requires made == ReportsOf(RowStatuses(i, rows[i], lookup), |seen|, total, width)
    requires shownWidth == LastWidth(RowStatuses(i, rows[i], lookup), width)
    ensures var now := seen + RowStatuses(i, rows[i], lookup);
      && now == Statuses(rows[..i + 1], lookup)
      && |now| == Sum(Counts(rows)[..i + 1])
      && reports + made == ReportsOf(now, 0, total, 0)
      && shownWidth == LastWidth(now, 0)
  {
    ReportsContinue(seen, RowStatuses(i, rows[i], lookup), total, reports, width, made);
    StatusesExtend(rows, i, lookup);
    SumExtend(Counts(rows), i);
  }

  /** Writing row `i`'s new cell keeps the header and the rows before it. */
  lemma CellWritten(cells: seq<string>, rows: seq<seq<string>>, lookup: string -> string, i: nat,
                    definitions: seq<string>, cell: string)
    requires i < |rows| && |cells| == |rows| + 1 && |definitions| == |cells|
    requires cells[0] == definitions[0]
    requires forall i' :: 0 <= i' < i ==> cells[i' + 1] == DefinitionsCell(Meanings(rows[i'], lookup))
    requires cell == DefinitionsCell(Meanings(rows[i], lookup))
    ensures cells[i + 1 := cell][0] == definitions[0]
    ensures forall i' :: 0 <= i' < i + 1 ==> cells[i + 1 := cell][i' + 1] == DefinitionsCell(Meanings(rows[i'], lookup))
  {
    var now := cells[i + 1 := cell];
    forall i' | 0 <= i' < i + 1
      ensures now[i' + 1] == DefinitionsCell(Meanings(rows[i'], lookup))
    {
      if i' < i {
        assert now[i' + 1] == cells[i' + 1];
      }
    }
  }

  /** The loop of lines 49-57. `definitions` is the definitions column, header
      first; every data row's cell is cleared and rebuilt from its sub-entries,
      and one report is made per sub-entry. */
  method FillDefinitions(rows: seq<seq<string>>, definitions: seq<string>, lookup: string -> string)
    returns (cells: seq<string>, reports: seq<Report>)
    requires |definitions| == |rows| + 1
    ensures |cells| == |definitions| && cells[0] == definitions[0]
    ensures forall i :: 0 <= i < |rows| ==> cells[i + 1] == DefinitionsCell(Meanings(rows[i], lookup))
    ensures reports == ReportsOf(Statuses(rows, lookup), 0, Sum(Counts(rows)), 0)
  {
    var translations := Counts(rows);
    var total := Sum(translations);
    cells := definitions;
    reports := [];
    var last := "";
    ghost var seen: seq<string> := [];
    var i := 0;
    while i < |rows|
      invariant 0 <= i <= |rows|
      invariant |cells| == |definitions| && cells[0] == definitions[0]
      invariant forall i' :: 0 <= i' < i ==> cells[i' + 1] == DefinitionsCell(Meanings(rows[i'], lookup))
      invariant seen == Statuses(rows[..i], lookup) && |seen| == Sum(translations[..i])
      invariant reports == ReportsOf(seen, 0, total, 0) && |last| == LastWidth(seen, 0)
    {
      cells := cells[i + 1 := ""];
      var cell, made, shown := FillRow(i, rows[i], lookup, Sum(translations[..i]), total, last);
      CellWritten(cells, rows, lookup, i, definitions, cell);
      RowDone(rows, lookup, i, total, seen, reports, |last|, made, |shown|);
      cells := cells[i + 1 := cell];
      reports := reports + made;
      seen := seen + RowStatuses(i, rows[i], lookup);
      last := shown;
      i := i + 1;
    }
    PrefixWhole(rows);
    PrefixWhole(translations);
  }

  // ---------------------------------------------------------------------------
  // The save path (line 61) and the whole run.

  /** The path derived from the input: `"new "` goes right after the last
      `/`, or in front when there is none. */
  function DerivedPath(kanjiList: string): string
  {
    if ContainsChar(kanjiList, '/') then
      var k := RFind(kanjiList, "/");
      kanjiList[..k + 1] + NewPrefix + kanjiList[k + 1..]
    else NewPrefix + kanjiList
  }

  /** `k` is the position of the last `/` in `path`, or -1 when it has none. */
  ghost predicate LastSlash(path: string, k: int)
  {
    -1 <= k < |path| && (k >= 0 ==> path[k] == '/') && forall m :: k < m < |path| ==> path[m] != '/'
  }

  /** The derived path is the input with `"new "` inserted right after its
      last `/`: four characters longer, with everything up to and including
      that `/` unchanged. */
  lemma DerivedPathInserts(kanjiList: string, k: int)
    requires LastSlash(kanjiList, k)
    ensures DerivedPath(kanjiList) == kanjiList[..k + 1] + NewPrefix + kanjiList[k + 1..]
    ensures |DerivedPath(kanjiList)| == |kanjiList| + 4
    ensures DerivedPath(kanjiList)[..k + 1] == kanjiList[..k + 1]
  {
    if k >= 0 {
      OccursAtChar(kanjiList, '/', k);
      assert ContainsChar(kanjiList, '/');
      forall p | p > k ensures !OccursAt(kanjiList, "/", p) {
        OccursAtChar(kanjiList, '/', p);
      }
      assert RFind(kanjiList, "/") == k;
    } else {
      assert !ContainsChar(kanjiList, '/');
      assert kanjiList[..0] == "" && kanjiList[0..] == kanjiList;
    }
  }

  /** For a path `<dir>/<name>` whose name holds no `/`, the new file sits
      in the same directory with `"new "` in front of its name. */
  lemma DerivedPathInSameDirectory(dir: string, name: string)
    requires forall m :: 0 <= m < |name| ==> name[m] != '/'
    ensures DerivedPath(dir + "/" + name) == dir + "/" + NewPrefix + name
  {
    var path := dir + "/" + name;
    forall m | |dir| < m < |path|
      ensures path[m] != '/'
    {
      assert path[m] == name[m - |dir| - 1];
    }
    DerivedPathInserts(path, |dir|);
    assert path[..|dir| + 1] == dir + "/";
    assert path[|dir| + 1..] == name;
  }

  /** An example with a directory. */
  lemma DerivedPathInDirectory()
    ensures DerivedPath("dir/list.docx") == "dir/new list.docx"
  {
    var dir, name := "dir", "list.docx";
    DerivedPathInSameDirectory(dir, name);
    assert dir + "/" == "dir/";
    assert "dir/" + name == "dir/list.docx";
    assert "dir/" + NewPrefix == "dir/new ";
    assert "dir/new " + name == "dir/new list.docx";
  }

  /** An example without one. */
  lemma DerivedPathBare()
    ensures DerivedPath("list.docx") == "new list.docx"
  {
    DerivedPathInserts("list.docx", -1);
  }

  /** `out` is used when it is truthy (given and not empty); otherwise the derived path. */
  function SavePath(kanjiList: string, out: Option<string>): string
  {
    if out.Some? && out.value != "" then out.value else DerivedPath(kanjiList)
  }

  /** How a run ends: nothing done for an empty path, the division by zero of
      the first progress call when the table has no data rows, or the table
      saved to `path` with its new definitions column and the progress reports made. */
  datatype Run =
    | Skipped
    | DivisionByZero
    | Saved(path: string, definitions: seq<string>, reports: seq<Report>)

  /** `improveKanjiList`. `kanjiColumn` holds the sub-entry texts of every cell
      of column 3, header first; `definitions` the texts of column 4. */
  method ImproveKanjiList(kanjiList: string, out: Option<string>, kanjiColumn: seq<seq<string>>,
                          definitions: seq<string>, fetch: string -> string) returns (r: Run)
    requires |definitions| == |kanjiColumn|
    ensures kanjiList == "" <==> r == Skipped
    ensures r == DivisionByZero <==> kanjiList != "" && |kanjiColumn| <= 1
    ensures r.Saved? && out.Some? && out.value != "" ==> r.path == out.value
    ensures r.Saved? && (out.None? || out.value == "") ==> r.path == DerivedPath(kanjiList)
    ensures r.Saved? ==> |r.definitions| == |definitions| && r.definitions[0] == definitions[0]
    ensures r.Saved? ==> forall i :: 1 <= i < |kanjiColumn| ==>
      r.definitions[i] == DefinitionsCell(Meanings(kanjiColumn[i], Lookup(fetch)))
    ensures r.Saved? ==> r.reports == [Report(0, |kanjiColumn| - 1, "", 0)]
                                      + ReportsOf(Statuses(kanjiColumn[1..], Lookup(fetch)), 0,
                                                  Sum(Counts(kanjiColumn[1..])), 0)
  {
    if kanjiList == "" {
      return Skipped;
    }
    var rows := if |kanjiColumn| == 0 then [] else kanjiColumn[1..];
    if |rows| == 0 {
      // printProgressBar(0, len(kanjis[1:]), ...) divides by zero.
      return DivisionByZero;
    }
    var cells, reports := FillDefinitions(rows, definitions, Lookup(fetch));
    r := Saved(SavePath(kanjiList, out), cells, [Report(0, |rows|, "", 0)] + reports);
    forall i | 1 <= i < |kanjiColumn|
      ensures r.definitions[i] == DefinitionsCell(Meanings(kanjiColumn[i], Lookup(fetch)))
    {
      assert kanjiColumn[i] == rows[i - 1];
    }
  }
}
