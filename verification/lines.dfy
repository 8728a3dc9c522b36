/** The input side of `Main`: which lines of the file are used, and which
    tab-separated fields of a line become the redirect's From and To. */
module Lines {
  import Text
  import Seqs

  const Tab: char := '\t'

  /** A line that takes part in the conversion: it contains a `/`. */
  predicate HasSlash(line: string) {
    '/' in line
  }

  /** The lines that reach the pipeline; the rest are headers or noise. */
  function SelectLines(lines: seq<string>): (kept: seq<string>)
    ensures forall l :: l in kept ==> '/' in l
    ensures forall l :: l in lines && '/' in l ==> l in kept
    ensures |kept| <= |lines|
  {
    Seqs.Where(lines, HasSlash)
  }

  /** Selection keeps the file order: selecting from two concatenated
      blocks is selecting from each and concatenating. */
  lemma SelectLinesKeepsOrder(a: seq<string>, b: seq<string>)
    ensures SelectLines(a + b) == SelectLines(a) + SelectLines(b)
  {
    Seqs.WhereAppend(a, b, HasSlash);
  }

  /** Every file line is either selected or dropped as a header, and
      selection of selected lines drops nothing. */
  lemma {:induction false} SelectLinesCounts(lines: seq<string>)
    ensures |SelectLines(lines)| + Seqs.Rejected(lines, HasSlash) == |lines|
    ensures SelectLines(SelectLines(lines)) == SelectLines(lines)
  {
    Seqs.WhereConserves(lines, HasSlash);
    Seqs.WhereIdempotent(lines, HasSlash);
  }

  /** `line.Split('\t').First()`: the longest tab-free prefix of the line. */
  function FirstField(line: string): (f: string)
    ensures Tab !in f
    ensures |f| <= |line| && line[..|f|] == f
    ensures |f| == |line| || line[|f|] == Tab
  {
    var fields := Text.Split(line, Tab);
    if |fields| > 1 then
      assert line == fields[0] + [Tab] + Text.Join(fields[1..], Tab);
      fields[0]
    else
      fields[0]
  }

  /** `line.Split('\t').Last()`: the longest tab-free suffix of the line. */
  function LastField(line: string): (f: string)
    ensures Tab !in f
    ensures |f| <= |line| && line[|line| - |f|..] == f
    ensures |f| == |line| || line[|line| - |f| - 1] == Tab
  {
    var fields := Text.Split(line, Tab);
    var n := |fields|;
    if n > 1 then
      assert fields == fields[..n - 1] + [fields[n - 1]];
      Text.JoinSnoc(fields[..n - 1], Tab, fields[n - 1]);
      assert line == Text.Join(fields[..n - 1], Tab) + [Tab] + fields[n - 1];
      fields[n - 1]
    else
      fields[0]
  }

  /** A line without a tab feeds the whole line to both From and To. */
  lemma NoTabSameFields(line: string)
    requires Tab !in line
    ensures FirstField(line) == line && LastField(line) == line
  {
  }

  /** A line with exactly one tab is cut at that tab: From is what precedes
      it and To is what follows it. */
  lemma OneTabFields(a: string, b: string)
    requires Tab !in a && Tab !in b
    ensures FirstField(a + [Tab] + b) == a
    ensures LastField(a + [Tab] + b) == b
  {
    var line := a + [Tab] + b;
    assert line[|a|] == Tab;
    assert forall j :: 0 <= j < |a| ==> line[j] == a[j];
    assert forall j :: |a| < j < |line| ==> line[j] == b[j - |a| - 1];
  }
}
