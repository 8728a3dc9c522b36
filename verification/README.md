# urlmap — a Dafny model of the redirect-list converter

`urlmap` reads a text file of redirect rules and writes an IIS rewrite map
(`RewriteMaps.config`). Each line names an old path and a new path. The
program runs these steps:

1. It keeps the lines that contain a `/`.
2. It takes From from the first tab-separated field and To from the last.
3. It canonicalises both paths with `ExtractPath`.
4. It drops no-op rules whose From equals To ignoring case (`FilterDuplicates`).
5. It keeps the first rule for each case-folded From (`DistinctByFrom`).
6. It prints the LINES / DUPLICATES / REPEATS / OK counters.
7. It emits one `<add key=From value=lowercase(To)/>` per surviving rule.

This project models that pipeline as pure functions over `seq`. The modules
follow the program's structure:

- `Text` (`text.dfy`) holds the ASCII case fold, `IndexOf`, and `Split`/`Join`
  on one separator character.
- `Seqs` (`seqs.dfy`) models LINQ `Where` and its order, count and
  idempotence facts.
- `Lines` (`lines.dfy`) models the line filter and the first and last tab
  field.
- `Paths` (`paths.dfy`) models what `ExtractPath` decides itself: the
  trailing slash, the split at the first `?`, and the `k=v&…` query
  accumulation with its last `&` removed. The .NET library calls are the
  four functions of a `Lib` value passed in as a parameter: URI
  normalisation plus server stripping, `ParseQueryString`,
  `EscapeUriString` and `UrlDecode`. `Transparent` is a `Lib` whose URI and
  decode steps return their input unchanged. It is used to state what the
  method does apart from the library.
- `Redirects` (`redirects.dfy`) holds the `Redirect` record, `Build`,
  `FilterDuplicates`, and `DistinctByFrom` over an explicit model of
  `GroupBy`. The groups appear in first-key order and list their members
  in input order. The first-occurrence scan `KeepFirst` is an independent
  reference definition.
- `Pipeline` (`pipeline.dfy`) models the pure part of `Main`: the counters
  (`Stats`), the `add` list, and soundness and completeness of the emitted
  keys.

Each filtering stage returns its survivors together with the number it
dropped, as a `Stage`. The program's global `Stats` counters are the sums of
these numbers.

Behaviour of the code that is easy to misread:

- **Fields are split on tab only.** The code never splits on runs of
  whitespace. A line without a tab gives the whole line to both From and To
  (`Lines.NoTabSameFields`). If that path has no `?`, From equals To, so the
  line is always dropped as a duplicate (`Redirects.NoTabLineIsDuplicate`,
  `Pipeline.ConvertSpaceSeparatedLine`). The program's own usage text shows
  the fields separated by spaces. A file like the usage text's, whose lines
  have no `?`, would yield no rules at all (`Pipeline.ConvertTabFreeFile`).
- **A line with a single token is not skipped.** It goes through the
  duplicate filter like any other line.
- **The query on the From side is not truncated.** With `encodeQs` off, the
  whole settled path is URL-decoded, query included
  (`Paths.SourcePathKeepsQuery`).
- **Case folding.** The case-insensitive comparison and `ToLower` are both
  modelled by one ASCII case fold.

## Model

| member | source | states |
|---|---|---|
| `Seqs.Where` | urlmap/Program.cs:33 | the LINQ filter keeps exactly the elements satisfying the predicate and never lengthens the sequence |
| `Lines.SelectLines` | urlmap/Program.cs:32-34 | every kept line contains `/`, and every input line containing `/` is kept |
| `Lines.SelectLinesKeepsOrder` | urlmap/Program.cs:32-34 | selection distributes over concatenation, so file order is preserved |
| `Lines.SelectLinesCounts` | urlmap/Program.cs:32-35 | selected plus dropped lines equal the file's line count, and selecting again changes nothing |
| `Text.Split` | urlmap/Program.cs:39-40 | the fields of `Split('\t')` are never empty as a list, contain no tab, and join back to the line |
| `Lines.FirstField` | urlmap/Program.cs:39 | From's token is the longest tab-free prefix of the line |
| `Lines.LastField` | urlmap/Program.cs:40 | To's token is the longest tab-free suffix of the line |
| `Lines.NoTabSameFields` | urlmap/Program.cs:39-40 | a line without a tab feeds the whole line to both From and To |
| `Lines.OneTabFields` | urlmap/Program.cs:39-40 | a line `a<TAB>b` gives `a` as From's token and `b` as To's token |
| `Paths.AddTrailingSlash` | urlmap/Program.cs:86-90 | the result ends in `/` or contains `#` or `?`; a `/` is appended exactly when the path was not already so |
| `Paths.AddTrailingSlashIdempotent` | urlmap/Program.cs:86-90 | applying the trailing-slash step twice equals applying it once |
| `Text.IndexOf` | urlmap/Program.cs:95-96 | the index found holds the character and no earlier index does |
| `Paths.SplitAtQuery` | urlmap/Program.cs:95-96 | the prefix through the first `?` and the query after it concatenate back to the path |
| `Paths.AccumulateIsJoin` | urlmap/Program.cs:99-104 | the loop output is the `&`-join of the rendered `k=v` pairs plus one trailing `&` |
| `Paths.EncodeQueryIsJoin` | urlmap/Program.cs:99-109 | the re-encoded query is the rendered pairs joined by `&` in parser order; no pairs give the empty query |
| `Paths.EncodeQueryRoundTrip` | urlmap/Program.cs:99-109 | with `&`-free rendered pairs the query neither starts nor ends with `&`, and splitting it at `&` recovers the pairs in order |
| `Text.SplitJoin` | urlmap/Program.cs:99-109 | splitting a join of separator-free parts recovers the parts |
| `Paths.Accumulate` | urlmap/Program.cs:99-104 | the `foreach` loop; its output is stated by `AccumulateIsJoin` |
| `Paths.EncodeQuery` | urlmap/Program.cs:99-109 | the loop followed by the removal of the last character; its output is stated by `EncodeQueryIsJoin`, `EncodeQueryRoundTrip` and `EncodeQueryKeepsValueAmpersand` |
| `Paths.ExtractPath` | urlmap/Program.cs:75-115 | the whole method over a given library; its behaviour is stated by `EncodeOnlyTouchesQueries`, `SourcePathKeepsQuery`, `SourcePathIdempotent` and `DestinationPathShape` |
| `Paths.EncodeOnlyTouchesQueries` | urlmap/Program.cs:86-114 | without `?` in the path, both call sites of `ExtractPath` return the same string |
| `Paths.SourcePathKeepsQuery` | urlmap/Program.cs:86-114 | with re-encoding off, the input is a prefix of the result, which is slash-settled; a path with `?` comes back whole |
| `Paths.SourcePathIdempotent` | urlmap/Program.cs:86-114 | with transparent library calls, extracting the From path twice equals extracting it once |
| `Paths.DestinationPathShape` | urlmap/Program.cs:93-111 | for any library, with re-encoding on and a `?` in the URI path, the result is the decoded path through the first `?` followed by the `&`-join of the parsed and escaped pairs |
| `Paths.EncodeQueryKeepsValueAmpersand` | urlmap/Program.cs:99-109 | a value `&` that the escaper leaves alone makes the re-encoded query `a=&`, which still ends in `&` after the last `&` is removed |
| `Redirects.Build` | urlmap/Program.cs:37-42 | the redirect of one line; stated by `BuildTabLine` and `NoTabLineIsDuplicate` |
| `Redirects.BuildTabLine` | urlmap/Program.cs:37-42 | for any library, `a<TAB>b` gives From = `ExtractPath(a)` and To = `ExtractPath(b, encodeQs: true)` |
| `Redirects.IsDuplicate` | urlmap/Program.cs:145 | the no-op test, From equal to To ignoring case; its use is stated by `FilterDuplicates` and `NoTabLineIsDuplicate` |
| `Text.Lower` | urlmap/Program.cs:67 | the case fold keeps the length and maps every upper-case ASCII letter to its lower-case partner and every other character to itself |
| `Text.EqualsIgnoreCaseIff` | urlmap/Program.cs:145 | two strings are equal ignoring case exactly when they have the same length and each pair of characters is equal or an ASCII upper/lower-case pair |
| `Redirects.NoTabLineIsDuplicate` | urlmap/Program.cs:37-42 | a tab-free line whose path has no query gives From == To, so it is a no-op rule |
| `Redirects.FilterDuplicates` | urlmap/Program.cs:141-155 | the survivors are exactly the input rules whose From and To differ ignoring case, in input order; survivors plus the duplicate count equal the input length |
| `Redirects.FilterDuplicatesCounts` | urlmap/Program.cs:147-151 | the duplicate counter equals the number of no-op rules in the input |
| `Redirects.FilterDuplicatesAppend` | urlmap/Program.cs:143-154 | filtering and counting distribute over concatenation |
| `Redirects.AddToGroupKeys` | urlmap/Program.cs:160 | a new key is appended to the group keys and a known key changes nothing |
| `Redirects.AddToGroupFirsts` | urlmap/Program.cs:160 | a new key opens a last group headed by the new rule; a known key leaves every group's first member alone |
| `Redirects.AddToGroupMembersMatch` | urlmap/Program.cs:160 | every member of every group carries the group's key |
| `Redirects.AddToGroup` | urlmap/Program.cs:160 | one step of the grouping adds exactly one member; where it goes is stated by `AddToGroupKeys`, `AddToGroupFirsts` and `AddToGroupItems` |
| `Redirects.AddToGroupItems` | urlmap/Program.cs:160 | with distinct group keys, the rule is appended to the group with its key, every other group is unchanged, and a new key opens one new one-member group at the end |
| `Redirects.GroupBy` | urlmap/Program.cs:160 | groups have distinct keys, exactly the input's keys, every member carries its group's key, and the member count equals the input length |
| `Redirects.GroupByContents` | urlmap/Program.cs:160 | each group enumerates exactly the input rules with its key, in input order, as LINQ `Where` on that key would list them |
| `Redirects.RepeatsAreSurplus` | urlmap/Program.cs:164-169 | the sum over groups of `Count() - 1` plus the number of groups equals the number of members |
| `Redirects.DistinctByFrom` | urlmap/Program.cs:158-174 | kept rules have pairwise-distinct case-folded From, cover every input key and come from the input; kept plus repeats equal the input length |
| `Redirects.GroupFirstsAreKeepFirst` | urlmap/Program.cs:160-163 | the first members of the groups, in group order, are exactly the left-to-right first-occurrence scan of the input |
| `Redirects.DistinctByFromIsKeepFirst` | urlmap/Program.cs:158-173 | the GroupBy-then-First result equals the left-to-right first-occurrence scan, so output is in order of first appearance |
| `Redirects.KeptAreFirstOccurrences` | urlmap/Program.cs:160-163 | each kept rule is the first input rule with its key |
| `Redirects.DistinctSameKeyPair` | urlmap/Program.cs:160-169 | of two rules with the same case-folded From, the first is kept and one repeat is counted |
| `Pipeline.BuildAll` | urlmap/Program.cs:37-42 | one redirect per selected line, in line order, each built from its own line |
| `Pipeline.Emit` | urlmap/Program.cs:63-69 | one `add` per survivor in order, key = From unchanged, value = To lower-cased (so already folded) |
| `Pipeline.EmitKeepsKeysApart` | urlmap/Program.cs:63-69 | emitting distinct-key, non-duplicate rules gives keys distinct ignoring case, each different from its value |
| `Pipeline.Clean` | urlmap/Program.cs:43-69 | unique = lines − duplicates − repeats; one `add` per unique rule; keys distinct ignoring case; values lower case and never equal to the folded key |
| `Pipeline.Convert` | urlmap/Program.cs:32-69 | the same counter relation and emission shape for a whole file, with LINES = number of lines containing `/` |
| `Pipeline.ConvertMatchesReference` | urlmap/Program.cs:32-69 | the emitted list is the reference pipeline: select, build, drop no-ops, keep first occurrence, emit |
| `Pipeline.CleanSound` | urlmap/Program.cs:43-69 | every `add` comes from a non-duplicate rule of the input, with key = From and value = lowercase(To) |
| `Pipeline.CleanComplete` | urlmap/Program.cs:43-69 | every non-duplicate rule has its case-folded From among the emitted keys |
| `Pipeline.ConvertSoundAndComplete` | urlmap/Program.cs:32-69 | every `add` comes from a file line containing `/`, and every such non-duplicate line is represented |
| `Pipeline.ConvertSelected` | urlmap/Program.cs:32-46 | when every line has a `/`, conversion is cleaning the redirects of all the lines |
| `Pipeline.ConvertOneLine` | urlmap/Program.cs:32-69 | a one-line file with a `/` gives counters (1, 1, 0, 0) and no `add` when its rule is a no-op, and otherwise counters (1, 0, 0, 1) and that rule's `add` |
| `Pipeline.ConvertTabLine` | urlmap/Program.cs:37-69 | `a<TAB>b` of plain paths emits key `a/` and value lowercase(`b/`) |
| `Pipeline.CleanRepeatedPair` | urlmap/Program.cs:158-169 | two non-duplicate rules with the same folded From give counters (2, 0, 1, 1) and the first rule's `add` |
| `Pipeline.ConvertSpaceSeparatedLine` | urlmap/Program.cs:32-45 | a line with `/`, no tab and no query gives counters (1, 1, 0, 0) and emits nothing |
| `Pipeline.ConvertTabFreeFile` | urlmap/Program.cs:32-46 | a file whose selected lines have no tab and no `?` in their path emits nothing and counts every selected line as a duplicate |

## Left out

- The usage check on the argument count and `Environment.Exit` (lines 17-28) are not modelled. Neither are `File.ReadAllLines`, `Path.GetFileNameWithoutExtension` for the map name, building and saving the `XDocument`, and all console output including the DUPLICATE and REPEAT diagnostics (lines 19-31, 48-58, 71-72, 149, 168). This is I/O and CLI plumbing.
- `new Uri(..)`, `ToString()`, absolute-URI detection and removing the scheme and server (lines 77-84) are not modelled. They are the parameter `Lib.uriPath`.
- `HttpUtility.ParseQueryString`, `Uri.EscapeUriString` and `WebUtility.UrlDecode` (lines 98, 103, 111, 114) are the parameters `Lib.parseQuery`, `Lib.escape` and `Lib.urlDecode`. The parser's own behaviour is therefore not modelled: repeated keys merged with `,`, and a null key for a value without `=`.
- Culture-sensitive `ToLower` and `OrdinalIgnoreCase` (lines 67, 145, 160) are both modelled by one ASCII case fold. Non-ASCII letters are not folded.
- The `Line` field of `Redirect` (line 124) is not modelled. It is only a diagnostic and has no effect.
- `Stats` counters are 32-bit `int` in the source and unbounded `nat` here. A file would need more than 2^31 lines to overflow them.
- LINQ runs lazily, so the counters are updated while `ToList()` runs. The model computes each stage eagerly. The final counter values are the same.
- Paths.EncodeQueryRoundTrip: assumes that no rendered `k=v` pair contains `&`. `EscapeUriString` leaves `&` unescaped, so a value ending in `&` makes the re-encoded query end in `&` even after the last `&` is removed (`Paths.EncodeQueryKeepsValueAmpersand`).
- Paths.SourcePathKeepsQuery: proved only when the URI and decode steps return their input unchanged (`Transparent`). With real `Uri` normalisation and `UrlDecode` the result need not start with the input.
- Pipeline.ConvertTabLine: proved only for `Transparent` library calls, so that the plain paths `a` and `b` come back as `a/` and `b/`. For any library, `Redirects.BuildTabLine` states which paths the line yields.
- `path.EndsWith("/")` (line 87) uses the culture-sensitive string comparison. It ignores ignorable code points such as U+00AD after the last `/` and then appends no slash. `Paths.EndsWithSlash` compares the last character ordinally and appends one.
- Exceptions from the library calls are not modelled. `new Uri(..)` (line 77) throws on a malformed absolute URI, and `Uri.EscapeUriString` (line 103) throws on strings longer than 32766 characters; either ends the run before any file is written. The `Lib` functions are total, so the model has no failure path.
- Paths.SourcePathIdempotent: proved only when the URI and decode steps return their input unchanged. Idempotence of the real library calls is not modelled.
