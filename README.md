# kanjiListFixer, modelled in Dafny

`kanjiListFixer.py` reads a Word table of kanji compounds. For every data row
it looks up each sub-entry (one paragraph of the kanji cell) on jisho.org. It
writes the numbered meanings into the row's definitions cell, shows a console
progress bar with a padded status line, and saves the document under a derived
name. This project models the deterministic core of that script over plain
strings and sequences:

- `PyStr` (pystr.dfy) holds the pieces of Python's `str` the script relies on:
  - `s * n`, `s[:n]` and `s[a:b]`, where negative bounds count from the end and bounds are clamped;
  - `find(sub, start)` and `rfind(sub)`, which return -1 on a miss;
  - `c in s` for one character `c`, as in `"/" in kanjiList` (line 61).
- `Progress` (progress.dfy) is `printProgressBar`: the filled length, the bar, the line cut to 140 characters, and the final newline.
- `Definitions` (definitions.dfy) is `getDef`: the choice of search URL and the marker-based cut of the fetched page.
- `Cells` (cells.dfy) is the text a definitions cell ends up with (line 56), together with `str(n)` for the numbers in it. It also holds `split("\n")` and a newline count, which are used only to state what a reader sees in a cell.
- `Reports` (reports.dfy) covers every progress call of a run:
  - the status text of each sub-entry;
  - its padding against the previous status line;
  - the cumulative counter `sum(translations[:i]) + j + 1`.
- `Pipeline` (pipeline.dfy) covers three things:
  - the row and sub-entry loops of `improveKanjiList`, as imperative methods over a sequence of cell texts, with loop invariants;
  - the save path (line 61);
  - the whole run, with its three outcomes.

The line-56 conditional expression binds looser than `+`. The first sub-entry
therefore writes `1-<meaning>`, each later one appends a newline and
`<j+1>-<meaning>`, and meanings `Japan`, `language` give `1-Japan\n2-language`.
The model follows this. It also follows the code for a table without data
rows: the priming call `printProgressBar(0, 0, ...)` divides by zero, so the
run ends in `DivisionByZero` and nothing is saved.

## Model

| member | source | states |
|---|---|---|
| PyStr.Take | kanjiListFixer.py:23 | `s[:n]` has length `min(len(s), n)` and is a prefix of `s` |
| PyStr.RepeatLength | kanjiListFixer.py:22 | `s * n` has `n * len(s)` characters, and none for `n <= 0` |
| PyStr.SliceSplit | kanjiListFixer.py:76 | `s[:i] + s[i:] == s` for every `i`, including negative ones and ones past the end |
| PyStr.SlicePrefix | kanjiListFixer.py:76 | for `n >= 0`, `s[0:n]` is the prefix `s[:n]` |
| PyStr.SliceLast | kanjiListFixer.py:76 | for `k > 0`, `s[-k:]` is the last `min(k, len(s))` characters |
| PyStr.Find | kanjiListFixer.py:75 | `find(sub, start)` is -1 exactly when `sub` does not occur from the normalised start on; otherwise it is the first occurrence there |
| PyStr.RFind | kanjiListFixer.py:75 | `rfind(sub)` is -1 exactly when `sub` does not occur; otherwise it is the last occurrence |
| PyStr.FindFirst | kanjiListFixer.py:75-76 | the first occurrence at or after the start is what `find` returns |
| PyStr.RFindLast | kanjiListFixer.py:75 | the last occurrence is what `rfind` returns |
| Progress.FilledLength | kanjiListFixer.py:21 | `length * iteration // total` is the `f` with `f * total <= length * iteration < (f + 1) * total` |
| Progress.FilledLengthBounds | kanjiListFixer.py:21 | for `0 <= iteration <= total` the filled length lies in `[0, length]`; it is `0` at the start and `length` at the end |
| Progress.BarLayout | kanjiListFixer.py:22 | with a one-character fill the bar is exactly `length` wide: the fill in the first `filledLength` positions, '-' in the rest |
| Progress.BlockFillBarWidth | kanjiListFixer.py:22 | the run's ten-wide bar is ten characters wide with the corrected fill |
| Progress.SourceFillBarWidth | kanjiListFixer.py:7 | with the default fill as written the bar is `length + 2 * filledLength` wide, and 30 when complete |
| Progress.PrintProgressBar | kanjiListFixer.py:20-26 | the printed line is non-empty, at most 140 characters, and starts with `\r`, the prefix, a space and the bar's opening delimiter (when all of that fits); `end` is `printEnd`; a newline follows exactly when `iteration == total` |
| Progress.LineTruncation | kanjiListFixer.py:23 | a line of at most 140 characters is printed whole; a longer one is cut to its first 140 |
| Progress.EndsWithNewlineIffComplete | kanjiListFixer.py:23-26 | the output ends in a newline if and only if the count has reached the total, for any non-empty `end` that does not end in one |
| Definitions.SearchUrlRoundTrip | kanjiListFixer.py:73-77 | a one-character term gets the `%20%23kanji` URL and any other term the plain one; the term and the kind can be read back from the URL |
| Definitions.WordMarkersPresent | kanjiListFixer.py:77-79 | when the markers follow the last `</head>`, a compound's definition is exactly the text between the end of the opening marker and the next closing marker |
| Definitions.KanjiMarkersPresent | kanjiListFixer.py:73-76 | the same for a single kanji: 7 characters after the opening marker, up to 5 before the closing one |
| Definitions.WordMarkerMissing | kanjiListFixer.py:78-79 | without the opening marker, `find` returns -1 and the cut still yields the page from position 29 up to, but not including, its last character |
| Definitions.KanjiMarkerMissing | kanjiListFixer.py:75-76 | without the opening marker, the single-kanji cut yields the page from position 48 up to six characters before its end |
| Definitions.NoHeadFindsNoMarker | kanjiListFixer.py:75 | on a page without `</head>` the search starts at the last character, so neither opening marker is ever found |
| Cells.NatToString | kanjiListFixer.py:53 | `str(n)` is a non-empty string of decimal digits with no leading zero; it starts with '0' only for `n == 0` |
| Cells.NatToStringRoundTrip | kanjiListFixer.py:53 | the numeral written for `n` reads back as `n`; together with the absence of leading zeros this fixes the numeral |
| Cells.CellLines | kanjiListFixer.py:50-56 | the cleared-then-filled cell, split at newlines, is exactly `1-m1`, ..., `N-mN` in order, provided no meaning holds a newline |
| Cells.CellNewlineCount | kanjiListFixer.py:50-56 | such a cell holds exactly N-1 newlines |
| Cells.CellExample | kanjiListFixer.py:56 | meanings `Japan`, `language` give `1-Japan\n2-language` |
| Reports.PaddedStatusCovers | kanjiListFixer.py:54-55 | the padded suffix is `max(len(last), len(text))` long: the status text, then spaces only |
| Reports.StatusAt | kanjiListFixer.py:44-53 | sub-entry `j` of row `i` is status line number `sum(translations[:i]) + j` of the run, with text `"<i+1>.<j+1>:<entry> - <meaning>"` |
| Reports.ReportsOfMeaning | kanjiListFixer.py:49-57 | the k-th report of a stretch counts `offset + k + 1` of `total`, carries the k-th status line, and is padded against the line shown before it |
| Reports.ReportsOfAppend | kanjiListFixer.py:49-57 | reporting two stretches one after the other is reporting them together, the second continuing from the first's count and last line |
| Reports.CounterRunsThrough | kanjiListFixer.py:44-55 | over a run the counter takes the values `1, 2, ...` up to the number of status lines (which is `total`), each once, strictly increasing, and the last is that number |
| Reports.ReportCarriesLine | kanjiListFixer.py:53-55 | the k-th report of a run counts `k + 1` and its suffix starts with the k-th status line |
| Reports.ReportOfSubEntry | kanjiListFixer.py:44-55 | sub-entry `j` of row `i` is reported at `sum(translations[:i]) + j + 1` of `sum(translations)`, with its own status text at the head of the suffix |
| Reports.RunReportCount | kanjiListFixer.py:47-55 | every report of a run has a positive total, and only the last one after the priming call has its count equal to the total |
| Reports.OnlyFinalReportEndsLine | kanjiListFixer.py:47-55 | when rendered, the priming call and every report short of the last overwrite the line in place; only the last ends it, with the fill as written or as intended |
| Pipeline.FillRow | kanjiListFixer.py:50-57 | the inner loop rebuilds the cleared cell as the numbered meanings of the row, makes exactly the row's reports, and the line it leaves shown is as wide as the row's last status line (the earlier one for an empty row) |
| Pipeline.FillDefinitions | kanjiListFixer.py:48-57 | the header cell is kept; every data row's cell becomes exactly its numbered meanings, whatever it held before; the reports are those of all status lines, row after row, against `sum(translations)` |
| Pipeline.DerivedPathInserts | kanjiListFixer.py:61 | `"new "` is inserted right after the last `/`: the path grows by 4 and everything up to that `/` is unchanged |
| Pipeline.DerivedPathInSameDirectory | kanjiListFixer.py:61 | `<dir>/<name>` becomes `<dir>/new <name>` |
| Pipeline.DerivedPathInDirectory | kanjiListFixer.py:61 | `dir/list.docx` becomes `dir/new list.docx` |
| Pipeline.DerivedPathBare | kanjiListFixer.py:61 | `list.docx` becomes `new list.docx` |
| Pipeline.ImproveKanjiList | kanjiListFixer.py:39-61 | an empty path returns before any work; a table without data rows fails with the division by zero; otherwise the header cell is kept, each data row gets its numbered meanings, the reports are the priming call then one per sub-entry, and the document is saved to `out` when it is given and non-empty, and otherwise to the derived path |

## Left out

- The Word document is not modelled: opening it, reading the table and saving it (lines 41-43, 59-61). A run takes the sub-entry texts of column 3 and the texts of column 4, header row first. It returns the new column 4 and the save path.
- Fetching pages over HTTP (lines 74 and 77) is not modelled. `GetDef` takes the fetcher as a function from URL to page text, and the URL is kept as text, without percent-encoding of the term. Because the fetcher is a total function, one URL always gives the same page, while the program makes a new request on every call. No stated property depends on this: line 52 computes `meaning` once and uses it for both the status line and the cell.
- A failing `requests.get` is not modelled: the fetcher always returns a page. In the program such a failure raises an exception that ends the run before anything is saved.
- The percentage (line 20) is floating-point formatting. Where a line is rendered it is an opaque string, and the `decimals` argument goes with it.
- Printing is modelled as values: the line, the `end` string and a newline flag. The start message of line 46 is left out.
- The file dialog and the `__main__` block (lines 84-91) are user interface and are left out.
- The empty `getFurigana` stub (lines 81-82) has no behaviour to state.
- Progress.PrintProgressBar: requires `total > 0` instead of modelling the division by zero. In a run the only call that can meet a zero total is the priming one, and `ImproveKanjiList` models that case as `DivisionByZero`.
- Pipeline.FillRow: the contract gives the width of the last status line shown, not the line itself. Only its length is ever used (line 54).
- Reports.Report: keeps a call's suffix as the status text plus the number of padding spaces. `Reports.Suffix` rebuilds the suffix string from them.
- Cells.DefinitionsCell: setting a cell's text in the Word library turns `\n` into line breaks within one paragraph. The model keeps the plain string.
- Definitions.SearchUrlRoundTrip: excludes terms of length 12 that end in the kanji tag itself, because their plain URL equals a single-kanji URL.

## Findings

| source | as written | input that shows it | evidently intended | confidence | as-written member | corrected member |
|---|---|---|---|---|---|---|
| kanjiListFixer.py:7 | the default `fill` is the three characters U+00E2 U+2013 U+02C6, the UTF-8 bytes of a full block misread as Windows-1252 | `printProgressBar(10, 10, length=10)` draws a bar 30 characters wide | one full block U+2588 per filled cell, so a ten-wide bar is ten characters | not executed | Progress.SourceFillBarWidth | Progress.BlockFillBarWidth |
