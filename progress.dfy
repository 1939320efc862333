/** The console progress bar of `printProgressBar` (kanjiListFixer.py:7-26).
    What is printed is modelled as a value: the line written, the `end`
    string passed to `print`, and whether the terminating newline follows.
    The percentage is computed in floating point by the program; here it is
    an opaque string the caller supplies. */
module Progress {
  import opened PyStr

  /** The widest line the program ever writes: it cuts the line with `[:140]`. */
  const MaxLineWidth: nat := 140

  /** The default `fill` exactly as the source text holds it: the three code
      points U+00E2 U+2013 U+02C6, which is the UTF-8 encoding of the full
      block U+2588 misread as Windows-1252. */
  const SourceFill: string := "\U{00E2}\U{2013}\U{02C6}"

  /** The single full-block character the default is evidently meant to be. */
  const BlockFill: string := "\U{2588}"

  /** The default `printEnd`. */
  const CarriageReturn: string := "\r"

  /** `int(length * iteration // total)`: Python's floor division, which for a
      positive divisor is Dafny's `/`. */
  function FilledLength(length: int, iteration: int, total: int): (f: int)
    requires total > 0
    ensures f * total <= length * iteration < f * total + total
  {
    length * iteration / total
  }

  /** For a count inside `[0, total]` the filled part never exceeds the bar. */
  lemma FilledLengthBounds(length: int, iteration: int, total: int)
    requires total > 0 && 0 <= iteration <= total && 0 <= length
    ensures 0 <= FilledLength(length, iteration, total) <= length
    ensures iteration == total ==> FilledLength(length, iteration, total) == length
    ensures iteration == 0 ==> FilledLength(length, iteration, total) == 0
  {
    var f := FilledLength(length, iteration, total);
    MulMono(length, iteration, total);
    MulCommute(length, total);
    MulCancel(f, length, total);
    MulNonNeg(length, iteration);
    MulCancel(-1, f, total);
    if iteration == total {
      MulCancel(length, f, total);
    }
    if iteration == 0 {
      MulCancel(0, f, total);
    }
  }

  lemma MulMono(a: int, b: int, c: int)
    requires 0 <= a && b <= c
    ensures a * b <= a * c
  {
  }

  lemma MulCommute(a: int, b: int)
    ensures a * b == b * a
  {
  }

  lemma MulNonNeg(a: int, b: int)
    requires 0 <= a && 0 <= b
    ensures 0 <= a * b
  {
  }

  /** `a * t < (b + 1) * t` gives `a <= b` for positive `t`. */
  lemma MulCancel(a: int, b: int, t: int)
    requires t > 0
    ensures a * t < b * t + t ==> a <= b
  {
    if a > b {
      MulMono(t, b + 1, a);
      assert t * (b + 1) == b * t + t;
    }
  }

  /** `fill * filledLength + '-' * (length - filledLength)`. */
  function Bar(length: int, iteration: int, total: int, fill: string): (bar: string)
    requires total > 0
  {
    var f := FilledLength(length, iteration, total);
    Repeat(fill, f) + Repeat("-", length - f)
  }

  /** With a one-character fill the bar is exactly `length` wide: the first
      `FilledLength` positions hold the fill and the rest hold '-'. */
  lemma BarLayout(length: int, iteration: int, total: int, c: char)
    requires total > 0 && 0 <= iteration <= total && 0 <= length
    ensures |Bar(length, iteration, total, [c])| == length
    ensures forall k :: 0 <= k < length ==>
      Bar(length, iteration, total, [c])[k] == if k < FilledLength(length, iteration, total) then c else '-'
  {
    var f := FilledLength(length, iteration, total);
    FilledLengthBounds(length, iteration, total);
    RepeatChar(c, f);
    RepeatChar('-', length - f);
  }

  /** With the corrected default fill the program's ten-wide bar is ten wide. */
  lemma BlockFillBarWidth(iteration: int, total: int)
    requires total > 0 && 0 <= iteration <= total
    ensures |Bar(10, iteration, total, BlockFill)| == 10
  {
    BarLayout(10, iteration, total, '\U{2588}');
  }

  /** As written, every filled cell is three characters wide, so the bar is
      `length + 2 * FilledLength` characters and a complete ten-wide bar is 30. */
  lemma SourceFillBarWidth(length: int, iteration: int, total: int)
    requires total > 0 && 0 <= iteration <= total && 0 <= length
    ensures |Bar(length, iteration, total, SourceFill)| == length + 2 * FilledLength(length, iteration, total)
    ensures |Bar(10, 10, 10, SourceFill)| == 30
  {
    var f := FilledLength(length, iteration, total);
    FilledLengthBounds(length, iteration, total);
    RepeatLength(SourceFill, f);
    RepeatLength("-", length - f);
    FilledLengthBounds(10, 10, 10);
    RepeatLength(SourceFill, 10);
    RepeatLength("-", 0);
  }

  /** The line before truncation: `\r<prefix> |<bar>| <percent>% <suffix>`. */
  function FullLine(prefix: string, bar: string, percent: string, suffix: string): string
  {
    "\r" + prefix + " |" + bar + "| " + percent + "% " + suffix
  }

  /** What one call prints. */
  datatype ProgressOutput = ProgressOutput(line: string, end: string, newline: bool)

  /** One call of `printProgressBar`, with its float percentage given as `percent`. */
  function PrintProgressBar(iteration: int, total: int, prefix: string, suffix: string,
                            percent: string, length: int, fill: string, printEnd: string): (r: ProgressOutput)
    requires total > 0
    ensures 0 < |r.line| <= MaxLineWidth
    ensures r.line[0] == '\r'
    ensures |prefix| + 3 <= MaxLineWidth ==> "\r" + prefix + " |" <= r.line
    ensures r.end == printEnd
    ensures r.newline <==> iteration == total
  {
    var bar := Bar(length, iteration, total, fill);
    var full := FullLine(prefix, bar, percent, suffix);
    assert full == ("\r" + prefix + " |") + (bar + "| " + percent + "% " + suffix);
    assert full[..|prefix| + 3] == "\r" + prefix + " |";
    ProgressOutput(Take(full, MaxLineWidth), printEnd, iteration == total)
  }

  /** A line that fits is printed whole, untruncated; a longer one keeps its
      first `MaxLineWidth` characters. */
  lemma LineTruncation(iteration: int, total: int, prefix: string, suffix: string,
                       percent: string, length: int, fill: string, printEnd: string)
    requires total > 0
    ensures var full := FullLine(prefix, Bar(length, iteration, total, fill), percent, suffix);
      var line := PrintProgressBar(iteration, total, prefix, suffix, percent, length, fill, printEnd).line;
      && (|full| <= MaxLineWidth ==> line == full)
      && (|full| > MaxLineWidth ==> line == full[..MaxLineWidth])
  {
  }

  /** All that reaches the console: the line, the `end` string, then the newline if any. */
  function Emitted(o: ProgressOutput): string
  {
    o.line + o.end + (if o.newline then "\n" else "")
  }

  /** With an `end` that does not itself finish a line (the default "\r"), the
      output ends with a newline exactly when the count has reached the total. */
  lemma EndsWithNewlineIffComplete(iteration: int, total: int, prefix: string, suffix: string,
                                   percent: string, length: int, fill: string, printEnd: string)
    requires total > 0
    requires |printEnd| > 0 && printEnd[|printEnd| - 1] != '\n'
    ensures var out := Emitted(PrintProgressBar(iteration, total, prefix, suffix, percent, length, fill, printEnd));
      out[|out| - 1] == '\n' <==> iteration == total
  {
  }
}
