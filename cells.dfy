/** The text of a definitions cell as line 56 of kanjiListFixer.py builds
    it, and the decimal numerals written into it. */
module Cells {
  import opened PyStr

  // ---------------------------------------------------------------------------
  // Decimal numerals: the `{j+1}` and `{i+1}` of the f-strings.

  function Digit(d: nat): (c: char)
    requires d < 10
    ensures '0' <= c <= '9'
    ensures c as int - '0' as int == d
  {
    ('0' as int + d) as char
  }

  /** Python's `str(n)` for a natural number: decimal digits with no leading
      zero, so "0" is the only numeral that starts with '0'. */
  function NatToString(n: nat): (s: string)
    ensures |s| >= 1
    ensures forall k :: 0 <= k < |s| ==> '0' <= s[k] <= '9'
    ensures |s| == 1 || s[0] != '0'
    ensures s[0] == '0' <==> n == 0
  {
    if n < 10 then [Digit(n)]
    else
      var init := NatToString(n / 10);
      assert (init + [Digit(n % 10)])[0] == init[0];
      init + [Digit(n % 10)]
  }

  /** The value of a string of decimal digits. */
  function DecimalValue(s: string): nat
    requires forall k :: 0 <= k < |s| ==> '0' <= s[k] <= '9'
  {
    if |s| == 0 then 0 else DecimalValue(s[..|s| - 1]) * 10 + (s[|s| - 1] as int - '0' as int)
  }

  /** The numeral written for a number reads back as that number. */
  lemma {:induction false} NatToStringRoundTrip(n: nat)
    ensures DecimalValue(NatToString(n)) == n
  {
    if n >= 10 {
      NatToStringRoundTrip(n / 10);
      var s := NatToString(n);
      assert s[..|s| - 1] == NatToString(n / 10);
    }
  }

  lemma NatToStringHasNoNewline(n: nat)
    ensures !ContainsChar(NatToString(n), '\n')
  {
  }

  // ---------------------------------------------------------------------------
  // The definitions cell (line 56).

  /** What line 56 appends for sub-entry `j`: the conditional expression binds
      looser than `+`, so the first entry adds `"1-<meaning>"` and every later
      one adds a newline and `"<j+1>-<meaning>"`. */
  function Segment(j: nat, meaning: string): string
  {
    if j >= 1 then "\n" + Numbered(j + 1, meaning) else Numbered(j + 1, meaning)
  }

  /** `f"{n}-{meaning}"`. */
  function Numbered(n: nat, meaning: string): string
  {
    NatToString(n) + "-" + meaning
  }

  /** The text of a definitions cell that was cleared and then had one
      segment appended per meaning, in order. */
  function DefinitionsCell(meanings: seq<string>): string
  {
    if |meanings| == 0 then ""
    else DefinitionsCell(meanings[..|meanings| - 1]) + Segment(|meanings| - 1, meanings[|meanings| - 1])
  }

  /** The numbered lines a reader sees in the cell: `"<j+1>-<meaning>"`. */
  function NumberedLines(meanings: seq<string>): (lines: seq<string>)
    ensures |lines| == |meanings|
  {
    seq(|meanings|, j requires 0 <= j < |meanings| => Numbered(j + 1, meanings[j]))
  }

  ghost predicate NoNewlines(meanings: seq<string>)
  {
    forall j :: 0 <= j < |meanings| ==> !ContainsChar(meanings[j], '\n')
  }

  /** Python's `s.split("\n")`. */
  function SplitLines(s: string): (lines: seq<string>)
    ensures |lines| >= 1
    decreases |s|
  {
    var k := RFind(s, "\n");
    if k == -1 then [s] else SplitLines(s[..k]) + [s[k + 1..]]
  }

  lemma SplitLinesSingle(s: string)
    requires !ContainsChar(s, '\n')
    ensures SplitLines(s) == [s]
  {
    forall p ensures !OccursAt(s, "\n", p) {
      OccursAtChar(s, '\n', p);
    }
  }

  lemma SplitLinesAppend(a: string, b: string)
    requires !ContainsChar(b, '\n')
    ensures SplitLines(a + "\n" + b) == SplitLines(a) + [b]
  {
    var s := a + "\n" + b;
    OccursAtChar(s, '\n', |a|);
    forall p | p > |a| ensures !OccursAt(s, "\n", p) {
      OccursAtChar(s, '\n', p);
      if p < |s| {
        assert s[p] == b[p - |a| - 1];
      }
    }
    var k := RFind(s, "\n");
    assert k == |a|;
    assert s[..k] == a;
    assert s[k + 1..] == b;
  }

  lemma NumberedLineHasNoNewline(n: nat, meaning: string)
    requires !ContainsChar(meaning, '\n')
    ensures !ContainsChar(Numbered(n, meaning), '\n')
    ensures CountChar(Numbered(n, meaning), '\n') == 0
  {
    NatToStringHasNoNewline(n);
    CountCharAppend(NatToString(n), "-", '\n');
    CountCharAppend(NatToString(n) + "-", meaning, '\n');
  }

  /** Split at its newlines, the cell gives back exactly one numbered line per
      meaning, in order, provided no meaning holds a newline itself. */
  lemma {:induction false} CellLines(meanings: seq<string>)
    requires |meanings| >= 1 && NoNewlines(meanings)
    ensures SplitLines(DefinitionsCell(meanings)) == NumberedLines(meanings)
    decreases |meanings|
  {
    if |meanings| == 1 {
      CellLinesOne(meanings);
    } else {
      var init := meanings[..|meanings| - 1];
      CellLines(init);
      CellLinesStep(meanings);
    }
  }

  lemma CellLinesOne(meanings: seq<string>)
    requires |meanings| == 1 && NoNewlines(meanings)
    ensures SplitLines(DefinitionsCell(meanings)) == NumberedLines(meanings)
  {
    var lines := NumberedLines(meanings);
    var line := lines[0];
    NumberedLineHasNoNewline(0 + 1, meanings[0]);
    CellExtend(meanings, 0);
    assert meanings[..1] == meanings;
    assert DefinitionsCell(meanings) == line;
    SplitLinesSingle(line);
    assert lines == [line];
  }

  lemma CellLinesStep(meanings: seq<string>)
    requires |meanings| >= 2 && NoNewlines(meanings)
    requires var init := meanings[..|meanings| - 1];
      SplitLines(DefinitionsCell(init)) == NumberedLines(init)
    ensures SplitLines(DefinitionsCell(meanings)) == NumberedLines(meanings)
  {
    var n := |meanings|;
    var init := meanings[..n - 1];
    var line := Numbered(n, meanings[n - 1]);
    NumberedLineHasNoNewline(n, meanings[n - 1]);
    assert DefinitionsCell(meanings) == DefinitionsCell(init) + "\n" + line;
    SplitLinesAppend(DefinitionsCell(init), line);
    NumberedLinesSnoc(meanings);
  }

  lemma NumberedLinesSnoc(meanings: seq<string>)
    requires |meanings| >= 1
    ensures var n := |meanings|;
      NumberedLines(meanings) == NumberedLines(meanings[..n - 1]) + [Numbered(n, meanings[n - 1])]
  {
    var n := |meanings|;
    var all, init := NumberedLines(meanings), NumberedLines(meanings[..n - 1]);
    var both := init + [Numbered(n, meanings[n - 1])];
    forall j | 0 <= j < n
      ensures all[j] == both[j]
    {
      if j < n - 1 {
        assert meanings[..n - 1][j] == meanings[j];
      }
    }
  }

  /** The cell holds exactly one newline fewer than it has meanings. */
  lemma {:induction false} CellNewlineCount(meanings: seq<string>)
    requires |meanings| >= 1 && NoNewlines(meanings)
    ensures CountChar(DefinitionsCell(meanings), '\n') == |meanings| - 1
    decreases |meanings|
  {
    if |meanings| > 1 {
      CellNewlineCount(meanings[..|meanings| - 1]);
    }
    NewlinesAdded(meanings);
  }

  /** Appending the last meaning's segment adds a newline exactly when it is not the first. */
  lemma NewlinesAdded(meanings: seq<string>)
    requires |meanings| >= 1 && NoNewlines(meanings)
    ensures var n := |meanings|;
      CountChar(DefinitionsCell(meanings), '\n')
        == CountChar(DefinitionsCell(meanings[..n - 1]), '\n') + (if n > 1 then 1 else 0)
  {
    var n := |meanings|;
    var init := meanings[..n - 1];
    var seg := Segment(n - 1, meanings[n - 1]);
    var tail := Numbered(n - 1 + 1, meanings[n - 1]);
    NumberedLineHasNoNewline(n - 1 + 1, meanings[n - 1]);
    CountCharAppend(DefinitionsCell(init), seg, '\n');
    if n > 1 {
      assert seg == "\n" + tail;
      CountCharAppend("\n", tail, '\n');
      assert CountChar("\n", '\n') == 1;
    }
  }

  /** An example: a row whose two sub-entries mean "Japan" and
      "language" ends up as `"1-Japan\n2-language"`. */
  lemma CellExample()
    ensures DefinitionsCell(["Japan", "language"]) == "1-Japan\n2-language"
  {
    var ms := ["Japan", "language"];
    assert ms[..1] == ["Japan"];
    assert ms[..1][..0] == [];
    assert NatToString(1) == "1" && NatToString(2) == "2";
  }

  lemma CellExtend(meanings: seq<string>, j: nat)
    requires j < |meanings|
    ensures DefinitionsCell(meanings[..j + 1]) == DefinitionsCell(meanings[..j]) + Segment(j, meanings[j])
  {
    assert meanings[..j + 1][..j] == meanings[..j];
  }
}
