/** The pure part of `Main`: from the lines of the input file to the summary
    statistics and the list of `add` elements of the rewrite map. Reading
    the file, printing and saving the XML document are not modelled. */
module Pipeline {
  import Text
  import Seqs
  import Lines
  import Paths
  import opened Redirects

  /** The four counters printed in the STATS block. */
  datatype Stats = Stats(lineCount: nat, duplicateCount: nat, repeatCount: nat, uniqueCount: nat)

  /** One `<add key=".." value=".."/>` element. */
  datatype Add = Add(key: string, value: string)

  /** What the program reports and writes. */
  datatype Output = Output(stats: Stats, adds: seq<Add>)

  /** `lines.Select(line => new Redirect { .. })`. */
  function BuildAll(lib: Paths.Lib, lines: seq<string>): (rs: seq<Redirect>)
    ensures |rs| == |lines|
    ensures forall i :: 0 <= i < |lines| ==> rs[i] == Build(lib, lines[i])
  {
    seq(|lines|, i requires 0 <= i < |lines| => Build(lib, lines[i]))
  }

  /** One `add` element per redirect: the key keeps From as it is, the value
      is To lower-cased. */
  function Emit(rs: seq<Redirect>): (adds: seq<Add>)
    ensures |adds| == |rs|
    ensures forall i :: 0 <= i < |rs| ==> adds[i].key == rs[i].from
    ensures forall i :: 0 <= i < |rs| ==> adds[i].value == Text.Lower(rs[i].to) && Text.IsLower(adds[i].value)
  {
    seq(|rs|, i requires 0 <= i < |rs| => Text.LowerIsLower(rs[i].to); Add(rs[i].from, Text.Lower(rs[i].to)))
  }

  /** Emitting redirects with distinct keys that are not no-ops gives keys
      distinct ignoring case, each differing from its value. */
  lemma EmitKeepsKeysApart(rs: seq<Redirect>)
    requires forall i, j :: 0 <= i < j < |rs| ==> Key(rs[i]) != Key(rs[j])
    requires forall r :: r in rs ==> !IsDuplicate(r)
    ensures var adds := Emit(rs);
      && (forall i, j :: 0 <= i < j < |adds| ==> !Text.EqualsIgnoreCase(adds[i].key, adds[j].key))
      && (forall i :: 0 <= i < |adds| ==> Text.Lower(adds[i].key) != adds[i].value)
  {
    var adds := Emit(rs);
    assert forall i :: 0 <= i < |rs| ==> rs[i] in rs && !IsDuplicate(rs[i]);
    assert forall i :: 0 <= i < |adds| ==> Text.Lower(adds[i].key) == Key(rs[i]);
  }

  /** The two cleaning stages, the counters and the emitted list, from the
      redirects built from the selected lines. */
  function Clean(rs: seq<Redirect>): (o: Output)
    ensures o.stats.lineCount == |rs|
    ensures o.stats.uniqueCount == o.stats.lineCount - o.stats.duplicateCount - o.stats.repeatCount
    ensures |o.adds| == o.stats.uniqueCount
    ensures forall i, j :: 0 <= i < j < |o.adds| ==> !Text.EqualsIgnoreCase(o.adds[i].key, o.adds[j].key)
    ensures forall i :: 0 <= i < |o.adds| ==> Text.IsLower(o.adds[i].value)
    ensures forall i :: 0 <= i < |o.adds| ==> Text.Lower(o.adds[i].key) != o.adds[i].value
  {
    var filtered := FilterDuplicates(rs);
    var distinct := DistinctByFrom(filtered.kept);
    var adds := Emit(distinct.kept);
    EmitKeepsKeysApart(distinct.kept);
    Output(Stats(|rs|, filtered.dropped, distinct.dropped, |distinct.kept|), adds)
  }

  /** The whole conversion of the file's lines. */
  function Convert(lib: Paths.Lib, fileLines: seq<string>): (o: Output)
    ensures o.stats.lineCount == |Lines.SelectLines(fileLines)|
    ensures o.stats.uniqueCount == o.stats.lineCount - o.stats.duplicateCount - o.stats.repeatCount
    ensures |o.adds| == o.stats.uniqueCount
    ensures forall i, j :: 0 <= i < j < |o.adds| ==> !Text.EqualsIgnoreCase(o.adds[i].key, o.adds[j].key)
    ensures forall i :: 0 <= i < |o.adds| ==> Text.IsLower(o.adds[i].value)
    ensures forall i :: 0 <= i < |o.adds| ==> Text.Lower(o.adds[i].key) != o.adds[i].value
  {
    Clean(BuildAll(lib, Lines.SelectLines(fileLines)))
  }

  /** The emitted list is the reference pipeline: the non-duplicate
      redirects of the selected lines, first occurrence of each key kept. */
  lemma ConvertMatchesReference(lib: Paths.Lib, fileLines: seq<string>)
    ensures Convert(lib, fileLines).adds ==
      Emit(KeepFirst(Seqs.Where(BuildAll(lib, Seqs.Where(fileLines, Lines.HasSlash)), IsNotDuplicate)))
  {
    var rs := BuildAll(lib, Lines.SelectLines(fileLines));
    DistinctByFromIsKeepFirst(FilterDuplicates(rs).kept);
  }

  /** Every emitted element comes from a redirect that is not a no-op: its
      key is that redirect's From and its value the redirect's To
      lower-cased. */
  lemma CleanSound(rs: seq<Redirect>)
    ensures forall a :: a in Clean(rs).adds ==>
      exists r :: r in rs && !IsDuplicate(r) && a.key == r.from && a.value == Text.Lower(r.to)
  {
    var filtered := FilterDuplicates(rs).kept;
    var kept := DistinctByFrom(filtered).kept;
    var adds := Clean(rs).adds;
    forall a | a in adds
      ensures exists r :: r in rs && !IsDuplicate(r) && a.key == r.from && a.value == Text.Lower(r.to)
    {
      var i :| 0 <= i < |adds| && adds[i] == a;
      assert kept[i] in filtered;
    }
  }

  /** Nothing is lost: every redirect that is not a no-op has its
      case-folded From among the emitted keys. */
  lemma CleanComplete(rs: seq<Redirect>)
    ensures forall r :: r in rs && !IsDuplicate(r) ==>
      exists a :: a in Clean(rs).adds && Text.Lower(a.key) == Key(r)
  {
    var filtered := FilterDuplicates(rs).kept;
    var kept := DistinctByFrom(filtered).kept;
    var adds := Clean(rs).adds;
    assert adds == Emit(kept);
    forall r | r in rs && !IsDuplicate(r)
      ensures exists a :: a in adds && Text.Lower(a.key) == Key(r)
    {
      assert r in filtered;
      var m :| 0 <= m < |filtered| && filtered[m] == r;
      assert Key(r) in Keys(filtered) by { assert Keys(filtered)[m] == Key(r); }
      assert Key(r) in Keys(kept);
      var i :| 0 <= i < |kept| && Keys(kept)[i] == Key(r);
      assert Text.Lower(adds[i].key) == Key(kept[i]);
      assert adds[i] in adds;
    }
  }

  /** Every emitted element comes from a line of the file that contains a
      `/`, and every such line whose redirect is not a no-op is represented
      by its case-folded From. */
  lemma ConvertSoundAndComplete(lib: Paths.Lib, fileLines: seq<string>)
    ensures forall a :: a in Convert(lib, fileLines).adds ==>
      exists l :: (l in fileLines && '/' in l
        && a.key == Build(lib, l).from && a.value == Text.Lower(Build(lib, l).to))
    ensures forall l :: l in fileLines && '/' in l && !IsDuplicate(Build(lib, l)) ==>
      exists a :: a in Convert(lib, fileLines).adds && Text.Lower(a.key) == Key(Build(lib, l))
  {
    var lines := Lines.SelectLines(fileLines);
    var rs := BuildAll(lib, lines);
    CleanSound(rs);
    CleanComplete(rs);
    forall r | r in rs
      ensures exists l :: l in lines && r == Build(lib, l)
    {
      var j :| 0 <= j < |rs| && rs[j] == r;
      assert lines[j] in lines;
    }
    forall l | l in lines
      ensures Build(lib, l) in rs
    {
      var j :| 0 <= j < |lines| && lines[j] == l;
      assert rs[j] == Build(lib, l);
    }
  }

  /** When every line has a `/`, the conversion is the cleaning of the
      redirects of all lines. */
  lemma ConvertSelected(lib: Paths.Lib, lines: seq<string>)
    requires forall i :: 0 <= i < |lines| ==> '/' in lines[i]
    ensures Convert(lib, lines) == Clean(BuildAll(lib, lines))
  {
    SelectAll(lines);
  }

  lemma {:induction false} SelectAll(lines: seq<string>)
    requires forall i :: 0 <= i < |lines| ==> '/' in lines[i]
    ensures Lines.SelectLines(lines) == lines
    decreases |lines|
  {
    if |lines| > 0 {
      SelectAll(lines[1..]);
    }
  }

  /** A file of one line with a `/`: a no-op rule counts one duplicate and
      emits nothing; any other rule counts one unique redirect and emits its
      element. */
  lemma ConvertOneLine(lib: Paths.Lib, line: string)
    requires '/' in line
    ensures var r := Build(lib, line);
      Convert(lib, [line]) ==
        if IsDuplicate(r) then Output(Stats(1, 1, 0, 0), [])
        else Output(Stats(1, 0, 0, 1), [Add(r.from, Text.Lower(r.to))])
  {
    var r := Build(lib, line);
    assert Lines.SelectLines([line]) == [line];
    assert BuildAll(lib, [line]) == [r];
    if IsDuplicate(r) {
      assert FilterDuplicates([r]) == Stage([], 1);
    } else {
      assert FilterDuplicates([r]) == Stage([r], 0);
      DistinctByFromIsKeepFirst([r]);
      assert KeepFirst([r]) == [r];
    }
  }

  /** A line `a<TAB>b` of plain paths (no trailing slash, query or
      fragment) gives the element with key `a/` and value `b/` lower-cased. */
  lemma ConvertTabLine(parse: string -> seq<(string, string)>, escape: string -> string, a: string, b: string)
    requires Lines.Tab !in a && Lines.Tab !in b
    requires !Paths.SlashSettled(a) && !Paths.SlashSettled(b)
    requires '/' in a + [Lines.Tab] + b
    requires !Text.EqualsIgnoreCase(a + "/", b + "/")
    ensures Convert(Paths.Transparent(parse, escape), [a + [Lines.Tab] + b]).adds == [Add(a + "/", Text.Lower(b + "/"))]
  {
    Lines.OneTabFields(a, b);
    ConvertOneLine(Paths.Transparent(parse, escape), a + [Lines.Tab] + b);
  }

  /** Two redirects that are not no-ops and whose From agree ignoring case:
      the first is emitted and one repeat is counted. */
  lemma CleanRepeatedPair(x: Redirect, y: Redirect)
    requires !IsDuplicate(x) && !IsDuplicate(y) && Key(x) == Key(y)
    ensures Clean([x, y]) == Output(Stats(2, 0, 1, 1), [Add(x.from, Text.Lower(x.to))])
  {
    assert FilterDuplicates([x, y]) == Stage([x, y], 0);
    DistinctSameKeyPair(x, y);
  }

  /** A line with a `/` but no tab and no query is dropped as a no-op rule:
      nothing is emitted and one duplicate is counted. A line whose fields
      are separated by spaces and whose path has no `?` is such a line. */
  lemma ConvertSpaceSeparatedLine(lib: Paths.Lib, line: string)
    requires '/' in line && Lines.Tab !in line
    requires '?' !in lib.uriPath(line)
    ensures Convert(lib, [line]) == Output(Stats(1, 1, 0, 0), [])
  {
    NoTabLineIsDuplicate(lib, line);
    ConvertOneLine(lib, line);
  }

  /** A file whose selected lines have no tab and no `?` in their path, as
      in the program's usage text, yields no rules: every selected line is
      counted as a duplicate and nothing is emitted. */
  lemma ConvertTabFreeFile(lib: Paths.Lib, fileLines: seq<string>)
    requires forall l :: l in fileLines && '/' in l ==> Lines.Tab !in l && '?' !in lib.uriPath(l)
    ensures Convert(lib, fileLines).adds == []
    ensures Convert(lib, fileLines).stats.duplicateCount == |Lines.SelectLines(fileLines)|
  {
    var lines := Lines.SelectLines(fileLines);
    var rs := BuildAll(lib, lines);
    forall r | r in rs
      ensures IsDuplicate(r)
    {
      var j :| 0 <= j < |rs| && rs[j] == r;
      assert lines[j] in lines;
      NoTabLineIsDuplicate(lib, lines[j]);
    }
    Seqs.WhereNone(rs, IsNotDuplicate);
    var kept := FilterDuplicates(rs).kept;
    assert DistinctByFrom(kept).kept == [];
  }
}
