/** Character and string helpers shared by the converter: the case fold used
    for every case-insensitive comparison, the first index of a character, and
    splitting/joining on a single separator character. */
module Text {

  /** True of the 26 upper-case ASCII letters. */
  predicate IsUpper(c: char) {
    'A' <= c <= 'Z'
  }

  /** ASCII case fold of one character. */
  function LowerChar(c: char): (d: char)
    ensures !IsUpper(d)
    ensures IsUpper(c) || d == c
    ensures IsUpper(c) ==> d as int == c as int + 32
  {
    if IsUpper(c) then (c as int + 32) as char else c
  }

  /** ASCII case fold of a string; it stands for both the culture-sensitive
      `ToLower` and the `OrdinalIgnoreCase` comparison of the source. */
  function Lower(s: string): (r: string)
    ensures |r| == |s|
    ensures forall i :: 0 <= i < |s| ==> r[i] == LowerChar(s[i])
  {
    seq(|s|, i requires 0 <= i < |s| => LowerChar(s[i]))
  }

  /** A string that case folding leaves alone. */
  predicate IsLower(s: string) {
    forall i :: 0 <= i < |s| ==> !IsUpper(s[i])
  }

  /** Folding produces a folded string, and folding twice is folding once. */
  lemma LowerIsLower(s: string)
    ensures IsLower(Lower(s))
    ensures Lower(Lower(s)) == Lower(s)
  {
  }

  /** Case-insensitive equality, the model of `OrdinalIgnoreCase`. */
  predicate EqualsIgnoreCase(a: string, b: string) {
    Lower(a) == Lower(b)
  }

  /** Two characters that are equal or an ASCII upper/lower-case pair. */
  predicate CasePair(x: char, y: char) {
    || x == y
    || (IsUpper(x) && y as int == x as int + 32)
    || (IsUpper(y) && x as int == y as int + 32)
  }

  /** Two characters fold alike exactly when they are a case pair. */
  lemma LowerCharSame(x: char, y: char)
    ensures LowerChar(x) == LowerChar(y) <==> CasePair(x, y)
  {
  }

  /** Two strings are equal ignoring case exactly when they have the same
      length and differ at most in the ASCII case of their letters. */
  lemma EqualsIgnoreCaseIff(a: string, b: string)
    ensures EqualsIgnoreCase(a, b) <==> |a| == |b| && forall i :: 0 <= i < |a| ==> CasePair(a[i], b[i])
  {
    if |a| == |b| {
      forall i | 0 <= i < |a|
        ensures Lower(a)[i] == Lower(b)[i] <==> CasePair(a[i], b[i])
      {
        LowerCharSame(a[i], b[i]);
      }
      if forall i :: 0 <= i < |a| ==> CasePair(a[i], b[i]) {
        assert Lower(a) == Lower(b);
      }
    }
  }

  /** The index of the first occurrence of `c` in `s` (`String.IndexOf`). */
  function IndexOf(s: string, c: char): (i: nat)
    requires c in s
    ensures i < |s| && s[i] == c
    ensures forall j :: 0 <= j < i ==> s[j] != c
  {
    if s[0] == c then 0 else 1 + IndexOf(s[1..], c)
  }

  /** The separator placed after a separator-free prefix is found right there. */
  lemma IndexOfAfterPrefix(a: string, c: char, b: string)
    requires c !in a
    ensures IndexOf(a + [c] + b, c) == |a|
  {
    var s := a + [c] + b;
    var i := IndexOf(s, c);
    assert s[|a|] == c;
    assert forall j :: 0 <= j < |a| ==> s[j] == a[j];
  }

  /** `parts` glued together with one `c` between neighbours (`String.Join`). */
  function Join(parts: seq<string>, c: char): string
  {
    if |parts| == 0 then ""
    else if |parts| == 1 then parts[0]
    else parts[0] + [c] + Join(parts[1..], c)
  }

  /** The fields of `s` between occurrences of `c` (`String.Split(c)`): never
      empty, no field contains `c`, and joining them again gives back `s`. */
  function Split(s: string, c: char): (fields: seq<string>)
    ensures |fields| >= 1
    ensures forall i :: 0 <= i < |fields| ==> c !in fields[i]
    ensures Join(fields, c) == s
    decreases |s|
  {
    if c !in s then [s]
    else
      var i := IndexOf(s, c);
      assert s == s[..i] + [c] + s[i + 1..];
      [s[..i]] + Split(s[i + 1..], c)
  }

  /** Appending one more part adds one separator and that part at the end. */
  lemma {:induction false} JoinSnoc(parts: seq<string>, c: char, last: string)
    requires |parts| >= 1
    ensures Join(parts + [last], c) == Join(parts, c) + [c] + last
    decreases |parts|
  {
    if |parts| == 1 {
      assert parts + [last] == [parts[0], last];
      assert [parts[0], last][1..] == [last];
    } else {
      assert (parts + [last])[1..] == parts[1..] + [last];
      JoinSnoc(parts[1..], c, last);
    }
  }

  /** Splitting a join of separator-free parts recovers the parts. */
  lemma {:induction false} SplitJoin(parts: seq<string>, c: char)
    requires |parts| >= 1
    requires forall i :: 0 <= i < |parts| ==> c !in parts[i]
    ensures Split(Join(parts, c), c) == parts
    decreases |parts|
  {
    if |parts| > 1 {
      var s := Join(parts, c);
      var rest := Join(parts[1..], c);
      assert s == parts[0] + [c] + rest;
      assert c in s by { assert s[|parts[0]|] == c; }
      IndexOfAfterPrefix(parts[0], c, rest);
      assert s[..|parts[0]|] == parts[0];
      assert s[|parts[0]| + 1..] == rest;
      SplitJoin(parts[1..], c);
    }
  }

  /** A join begins with the first character of its first part. */
  lemma JoinStartsWithFirst(parts: seq<string>, c: char)
    requires |parts| > 0 && |parts[0]| > 0
    ensures var j := Join(parts, c); |j| > 0 && j[0] == parts[0][0]
  {
  }

  /** A join ends with the last character of its last part. */
  lemma {:induction false} JoinEndsWithLast(parts: seq<string>, c: char)
    requires |parts| > 0 && |parts[|parts| - 1]| > 0
    ensures var j := Join(parts, c); var l := parts[|parts| - 1];
      |j| > 0 && j[|j| - 1] == l[|l| - 1]
    decreases |parts|
  {
    if |parts| > 1 {
      JoinEndsWithLast(parts[1..], c);
    }
  }
}
