/** The progress reports of `improveKanjiList` (kanjiListFixer.py:44-57):
    the status line of every sub-entry, its padding against the line shown
    before it, and the cumulative counter each `printProgressBar` call gets. */
module Reports {
  import opened PyStr
  import opened Cells
  import Progress

  /** `PADDING`, the character a shorter status line is padded with. */
  const Padding: string := " "
  /** The bar width every call in the run passes. */
  const RunBarLength: int := 10

  /** The status text of line 53: `"<i+1>.<j+1>:<entry> - <meaning>"`. */
  function StatusText(i: nat, j: nat, entry: string, meaning: string): string
  {
    NatToString(i + 1) + "." + NatToString(j + 1) + ":" + entry + " - " + meaning
  }

  /** `mult` (line 54): how much longer the previous status line was; only
      that line's width `lastWidth` matters. */
  function Mult(text: string, lastWidth: nat): nat
  {
    if lastWidth > |text| then lastWidth - |text| else 0
  }

  /** The suffix passed with a status line: the text, then `mult` spaces. */
  function PaddedStatus(text: string, mult: nat): string
  {
    text + Repeat(Padding, mult)
  }

  /** The padded suffix is as long as the longer of the two status lines, so
      it fully covers the previous one; it starts with the status text and
      the rest is spaces. */
  lemma PaddedStatusCovers(text: string, lastWidth: nat)
    ensures |PaddedStatus(text, Mult(text, lastWidth))| == if lastWidth > |text| then lastWidth else |text|
    ensures text <= PaddedStatus(text, Mult(text, lastWidth))
    ensures forall k :: |text| <= k < |PaddedStatus(text, Mult(text, lastWidth))| ==>
      PaddedStatus(text, Mult(text, lastWidth))[k] == ' '
  {
    RepeatChar(' ', Mult(text, lastWidth));
  }

  /** `sum(xs)`. */
  function Sum(xs: seq<nat>): nat
  {
    if |xs| == 0 then 0 else Sum(xs[..|xs| - 1]) + xs[|xs| - 1]
  }

  lemma SumExtend(xs: seq<nat>, i: nat)
    requires i < |xs|
    ensures Sum(xs[..i + 1]) == Sum(xs[..i]) + xs[i]
  {
    assert xs[..i + 1][..i] == xs[..i];
  }

  /** `translations` (line 44): the number of sub-entries of each data row. */
  function Counts(rows: seq<seq<string>>): (c: seq<nat>)
    ensures |c| == |rows|
  {
    seq(|rows|, i requires 0 <= i < |rows| => |rows[i]|)
  }

  /** The status lines of row `i`, one per sub-entry, with `lookup` giving the meanings. */
  function RowStatuses(i: nat, row: seq<string>, lookup: string -> string): (st: seq<string>)
    ensures |st| == |row|
  {
    seq(|row|, j requires 0 <= j < |row| => StatusText(i, j, row[j], lookup(row[j])))
  }

  /** All status lines of the run, row after row. */
  function Statuses(rows: seq<seq<string>>, lookup: string -> string): (st: seq<string>)
    ensures |st| == Sum(Counts(rows))
  {
    if |rows| == 0 then []
    else
      var init := rows[..|rows| - 1];
      assert Counts(rows)[..|rows| - 1] == Counts(init);
      Statuses(init, lookup) + RowStatuses(|rows| - 1, rows[|rows| - 1], lookup)
  }

  lemma StatusesExtend(rows: seq<seq<string>>, i: nat, lookup: string -> string)
    requires i < |rows|
    ensures Statuses(rows[..i + 1], lookup) == Statuses(rows[..i], lookup) + RowStatuses(i, rows[i], lookup)
  {
    assert rows[..i + 1][..i] == rows[..i];
  }

  /** Sub-entry `j` of row `i` is status line number `sum(translations[:i]) + j`
      of the run, counting from zero. */
  lemma {:induction false} StatusAt(rows: seq<seq<string>>, lookup: string -> string, i: nat, j: nat)
    requires i < |rows| && j < |rows[i]|
    ensures Sum(Counts(rows)[..i]) + j < Sum(Counts(rows))
    ensures Statuses(rows, lookup)[Sum(Counts(rows)[..i]) + j]
         == StatusText(i, j, rows[i][j], lookup(rows[i][j]))
    decreases |rows|
  {
    var n := |rows|;
    var init := rows[..n - 1];
    assert Counts(rows)[..n - 1] == Counts(init);
    assert Statuses(rows, lookup) == Statuses(init, lookup) + RowStatuses(n - 1, rows[n - 1], lookup);
    if i == n - 1 {
      assert Sum(Counts(rows)) == Sum(Counts(rows)[..n - 1]) + |rows[n - 1]|;
    } else {
      assert Counts(init)[..i] == Counts(rows)[..i];
      assert init[i] == rows[i];
      StatusAt(init, lookup, i, j);
    }
  }

  /** The arguments of one `printProgressBar` call of the run (the prefix is
      always empty, the bar ten wide, one decimal), with the suffix kept as
      the status text and the number of padding characters after it. */
  datatype Report = Report(iteration: int, total: int, text: string, mult: nat)

  /** The suffix string the call receives. */
  function Suffix(rep: Report): string
  {
    PaddedStatus(rep.text, rep.mult)
  }

  /** How a report is rendered with the default fill `fill` (as written,
      `Progress.SourceFill`; as intended, `Progress.BlockFill`) and the float
      percentage supplied. */
  function Render(rep: Report, percent: string, fill: string): Progress.ProgressOutput
    requires rep.total > 0
  {
    Progress.PrintProgressBar(rep.iteration, rep.total, "", Suffix(rep), percent,
                              RunBarLength, fill, Progress.CarriageReturn)
  }

  /** The width of the status line shown before the `k`-th of `lines`: that
      of the one before it, or `before` (the width of what was shown before
      all of them) for the first. */
  function WidthBefore(lines: seq<string>, k: int, before: nat): nat
    requires k <= |lines|
  {
    if k <= 0 then before else |lines[k - 1]|
  }

  /** The width of the status line shown last, or `before` when `lines` is empty. */
  function LastWidth(lines: seq<string>, before: nat): nat
  {
    WidthBefore(lines, |lines|, before)
  }

  /** The reports made for the status lines `lines`, one after the other,
      when `offset` sub-entries came before them and the line shown last was
      `before` wide: each counts one further and is padded against the line
      shown before it. */
  function ReportsOf(lines: seq<string>, offset: int, total: int, before: nat): (rs: seq<Report>)
    ensures |rs| == |lines|
  {
    if |lines| == 0 then []
    else
      var n := |lines| - 1;
      ReportsOf(lines[..n], offset, total, before)
        + [Report(offset + n + 1, total, lines[n], Mult(lines[n], LastWidth(lines[..n], before)))]
  }

  /** One more status line adds one report at the end. */
  lemma ReportsOfSnoc(lines: seq<string>, j: nat, offset: int, total: int, before: nat)
    requires j < |lines|
    ensures ReportsOf(lines[..j + 1], offset, total, before)
         == ReportsOf(lines[..j], offset, total, before)
            + [Report(offset + j + 1, total, lines[j], Mult(lines[j], LastWidth(lines[..j], before)))]
  {
    assert lines[..j + 1][..j] == lines[..j];
  }

  /** What `reports` must be for the status lines `lines`: the k-th counts
      `offset + k + 1` of `total` and carries the k-th line, padded against the
      line shown before it. */
  ghost predicate ReportsFrom(reports: seq<Report>, lines: seq<string>, offset: int, total: int, before: nat)
  {
    && |reports| == |lines|
    && forall k :: 0 <= k < |reports| ==>
         && reports[k].iteration == offset + k + 1
         && reports[k].total == total
         && reports[k].text == lines[k]
         && reports[k].mult == Mult(lines[k], WidthBefore(lines, k, before))
  }

  /** The reports made one after the other are exactly the reports the
      status lines call for. */
  lemma {:induction false} ReportsOfMeaning(lines: seq<string>, offset: int, total: int, before: nat)
    ensures ReportsFrom(ReportsOf(lines, offset, total, before), lines, offset, total, before)
    decreases |lines|
  {
    if |lines| > 0 {
      ReportsOfMeaning(lines[..|lines| - 1], offset, total, before);
      ReportsFromSnoc(lines, offset, total, before);
    }
  }

  /** `ReportsFrom` carries over from all status lines but the last to all of them. */
  lemma ReportsFromSnoc(lines: seq<string>, offset: int, total: int, before: nat)
    requires |lines| > 0
    requires var init := lines[..|lines| - 1];
      ReportsFrom(ReportsOf(init, offset, total, before), init, offset, total, before)
    ensures ReportsFrom(ReportsOf(lines, offset, total, before), lines, offset, total, before)
  {
    var rs := ReportsOf(lines, offset, total, before);
    forall k | 0 <= k < |rs|
      ensures rs[k].iteration == offset + k + 1 && rs[k].total == total
      ensures rs[k].text == lines[k] && rs[k].mult == Mult(lines[k], WidthBefore(lines, k, before))
    {
      ReportFromInit(lines, offset, total, before, k);
    }
  }

  /** The `k`-th report for `lines`, given `ReportsFrom` for all lines but the last. */
  lemma ReportFromInit(lines: seq<string>, offset: int, total: int, before: nat, k: nat)
    requires k < |lines|
    requires var init := lines[..|lines| - 1];
      ReportsFrom(ReportsOf(init, offset, total, before), init, offset, total, before)
    ensures var r := ReportsOf(lines, offset, total, before)[k];
      && r.iteration == offset + k + 1 && r.total == total
      && r.text == lines[k] && r.mult == Mult(lines[k], WidthBefore(lines, k, before))
  {
    var n := |lines| - 1;
    var init := lines[..n];
    var rs, prior := ReportsOf(lines, offset, total, before), ReportsOf(init, offset, total, before);
    assert rs == prior + [Report(offset + n + 1, total, lines[n], Mult(lines[n], LastWidth(init, before)))];
    WidthBeforePrefix(lines, n, k, before);
    if k < n {
      assert rs[k] == prior[k] && init[k] == lines[k];
    }
  }

  /** Cutting off later lines does not change the width shown before line `k`. */
  lemma WidthBeforePrefix(lines: seq<string>, m: nat, k: nat, before: nat)
    requires k <= m <= |lines|
    ensures WidthBefore(lines[..m], k, before) == WidthBefore(lines, k, before)
  {
    if k > 0 {
      assert lines[..m][k - 1] == lines[k - 1];
    }
  }

  /** Making the reports for one stretch of status lines and then for the
      next is making them for both stretches together. */
  lemma {:induction false} ReportsOfAppend(seen: seq<string>, lines: seq<string>, offset: int, total: int,
                                           before: nat)
    ensures ReportsOf(seen + lines, offset, total, before)
         == ReportsOf(seen, offset, total, before) + ReportsOf(lines, offset + |seen|, total, LastWidth(seen, before))
    decreases |lines|
  {
    if |lines| == 0 {
      assert seen + lines == seen;
    } else {
      var n := |lines| - 1;
      var all := seen + lines;
      assert all[..|seen| + n] == seen + lines[..n];
      assert all[|seen| + n] == lines[n];
      ReportsOfAppend(seen, lines[..n], offset, total, before);
      assert LastWidth(all[..|seen| + n], before) == LastWidth(lines[..n], LastWidth(seen, before));
      var mid := LastWidth(seen, before);
      assert ReportsOf(lines, offset + |seen|, total, mid)
          == ReportsOf(lines[..n], offset + |seen|, total, mid)
             + [Report(offset + |seen| + n + 1, total, lines[n], Mult(lines[n], LastWidth(lines[..n], mid)))];
      assert ReportsOf(all, offset, total, before)
          == ReportsOf(seen + lines[..n], offset, total, before)
             + [Report(offset + |seen| + n + 1, total, lines[n], Mult(lines[n], LastWidth(lines[..n], mid)))];
    }
  }

  /** The reports of a run so far, followed by the reports for the next
      stretch of status lines, are the reports of the run up to there, and
      the line shown last is that of the later stretch (or the earlier). */
  lemma ReportsContinue(seen: seq<string>, lines: seq<string>, total: int,
                        reports: seq<Report>, width: nat, made: seq<Report>)
    requires reports == ReportsOf(seen, 0, total, 0) && width == LastWidth(seen, 0)
    requires made == ReportsOf(lines, |seen|, total, width)
    ensures reports + made == ReportsOf(seen + lines, 0, total, 0)
    ensures LastWidth(lines, width) == LastWidth(seen + lines, 0)
  {
    ReportsOfAppend(seen, lines, 0, total, 0);
    if |lines| > 0 {
      assert (seen + lines)[|seen + lines| - 1] == lines[|lines| - 1];
    }
  }

  /** The counter values of a sequence of reports, in order. */
  function Counter(reports: seq<Report>): (c: seq<int>)
    ensures |c| == |reports|
  {
    seq(|reports|, k requires 0 <= k < |reports| => reports[k].iteration)
  }

  /** `1, 2, ..., n`. */
  function OneTo(n: nat): (s: seq<int>)
    ensures |s| == n
  {
    seq(n, k requires 0 <= k < n => k + 1)
  }

  /** Over a run the counter goes up by one per sub-entry: its values are
      exactly `1, 2, ...` up to the number of status lines, so each is taken
      once, they strictly increase, and the last is that number. */
  lemma CounterRunsThrough(lines: seq<string>, total: int)
    ensures Counter(ReportsOf(lines, 0, total, 0)) == OneTo(|lines|)
    ensures var rs := ReportsOf(lines, 0, total, 0);
      forall a, b :: 0 <= a < b < |rs| ==> rs[a].iteration < rs[b].iteration
    ensures |lines| > 0 ==> ReportsOf(lines, 0, total, 0)[|lines| - 1].iteration == |lines|
  {
    var rs := ReportsOf(lines, 0, total, 0);
    ReportsOfMeaning(lines, 0, total, 0);
    var c, ones := Counter(rs), OneTo(|lines|);
    forall k | 0 <= k < |lines|
      ensures c[k] == ones[k]
    {
      assert rs[k].iteration == k + 1;
    }
  }

  /** The reports of the loop over all data rows `rows`, priming call excluded. */
  function RunReports(rows: seq<seq<string>>, lookup: string -> string): seq<Report>
  {
    ReportsOf(Statuses(rows, lookup), 0, Sum(Counts(rows)), 0)
  }

  /** `sum(translations[:i]) + j`: the position of sub-entry `j` of row `i` in the run. */
  function Position(rows: seq<seq<string>>, i: nat, j: nat): nat
    requires i <= |rows|
  {
    Sum(Counts(rows)[..i]) + j
  }

  /** Sub-entry `j` of row `i` is reported with the counter at
      `sum(translations[:i]) + j + 1` of `sum(translations)`, and its report's
      suffix starts with its own status text. */
  lemma ReportOfSubEntry(rows: seq<seq<string>>, lookup: string -> string, i: nat, j: nat)
    requires i < |rows| && j < |rows[i]|
    ensures Position(rows, i, j) < |RunReports(rows, lookup)|
    ensures RunReports(rows, lookup)[Position(rows, i, j)].iteration == Position(rows, i, j) + 1
    ensures RunReports(rows, lookup)[Position(rows, i, j)].total == Sum(Counts(rows))
    ensures RunReports(rows, lookup)[Position(rows, i, j)].text == StatusText(i, j, rows[i][j], lookup(rows[i][j]))
    ensures StatusText(i, j, rows[i][j], lookup(rows[i][j])) <= Suffix(RunReports(rows, lookup)[Position(rows, i, j)])
  {
    var lines, total, k := Statuses(rows, lookup), Sum(Counts(rows)), Position(rows, i, j);
    var text := StatusText(i, j, rows[i][j], lookup(rows[i][j]));
    StatusAt(rows, lookup, i, j);
    ReportCarriesLine(lines, total, k, text);
    var rep := ReportsOf(lines, 0, total, 0)[k];
    assert RunReports(rows, lookup)[k] == rep;
  }

  /** The `k`-th report of a run counts `k + 1`, carries the `k`-th status
      line, and its suffix starts with that line. */
  lemma ReportCarriesLine(lines: seq<string>, total: int, k: nat, text: string)
    requires k < |lines| && lines[k] == text
    ensures var rs := ReportsOf(lines, 0, total, 0);
      && rs[k].iteration == k + 1 && rs[k].total == total && rs[k].text == text
      && text <= Suffix(rs[k])
  {
    ReportsOfMeaning(lines, 0, total, 0);
    var rep := ReportsOf(lines, 0, total, 0)[k];
    PaddedStatusCovers(text, WidthBefore(lines, k, 0));
    assert Suffix(rep) == PaddedStatus(text, Mult(text, WidthBefore(lines, k, 0)));
  }

  /** Over a whole run only the final report ends the console line: the
      priming report (count 0 of the number of rows) and every report short
      of the total overwrite the line in place, whatever the fill. */
  lemma OnlyFinalReportEndsLine(rowCount: nat, lines: seq<string>, percent: string, fill: string)
    requires rowCount > 0
    ensures var reports := [Report(0, rowCount, "", 0)] + ReportsOf(lines, 0, |lines|, 0);
      && (forall k :: 0 <= k < |reports| ==> reports[k].total > 0)
      && (forall k :: 0 <= k < |reports| ==>
            (Render(reports[k], percent, fill).newline <==> 0 < k == |reports| - 1))
  {
    forall k | 0 <= k < 1 + |lines|
      ensures var reports := [Report(0, rowCount, "", 0)] + ReportsOf(lines, 0, |lines|, 0);
        && reports[k].total > 0
        && (Render(reports[k], percent, fill).newline <==> 0 < k == |reports| - 1)
    {
      RunReportCount(rowCount, lines, k);
    }
  }

  /** The `k`-th report of a run has a positive total, and its count reaches
      the total only for the last report after the priming one. */
  lemma RunReportCount(rowCount: nat, lines: seq<string>, k: nat)
    requires rowCount > 0 && k <= |lines|
    ensures var reports := [Report(0, rowCount, "", 0)] + ReportsOf(lines, 0, |lines|, 0);
      && reports[k].total > 0
      && (reports[k].iteration == reports[k].total <==> 0 < k == |lines|)
  {
    var reports := [Report(0, rowCount, "", 0)] + ReportsOf(lines, 0, |lines|, 0);
    if k > 0 {
      ReportsOfMeaning(lines, 0, |lines|, 0);
      assert reports[k] == ReportsOf(lines, 0, |lines|, 0)[k - 1];
    }
  }
}
