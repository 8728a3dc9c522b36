/** The `Redirect` record and the two cleaning stages applied to the list of
    redirects: dropping From == To no-ops (`FilterDuplicates`) and keeping one
    redirect per case-folded From (`DistinctByFrom`). Each stage is a pure
    function returning the survivors together with the number it dropped,
    which the program adds to its global statistics. */
module Redirects {
  import Text
  import Seqs
  import Lines
  import Paths

  /** One redirect rule: the old path and the new path. */
  datatype Redirect = Redirect(from: string, to: string)

  /** The survivors of a stage and how many redirects it dropped. */
  datatype Stage = Stage(kept: seq<Redirect>, dropped: nat)

  /** The redirect built from one selected line: From from the first tab
      field, To from the last one with query re-encoding on. */
  function Build(lib: Paths.Lib, line: string): Redirect
  {
    Redirect(
      Paths.ExtractPath(lib, Lines.FirstField(line), false),
      Paths.ExtractPath(lib, Lines.LastField(line), true))
  }

  /** A redirect whose From and To differ only in case: a no-op rule. */
  predicate IsDuplicate(r: Redirect) {
    Text.EqualsIgnoreCase(r.from, r.to)
  }

  predicate IsNotDuplicate(r: Redirect) {
    !IsDuplicate(r)
  }

  /** A line without a tab whose path has no query gives the same text to
      From and To, so it is always a no-op rule. A line whose fields are
      separated by spaces and whose path has no `?` is such a line. */
  lemma NoTabLineIsDuplicate(lib: Paths.Lib, line: string)
    requires Lines.Tab !in line
    requires '?' !in lib.uriPath(line)
    ensures Build(lib, line).from == Build(lib, line).to
    ensures IsDuplicate(Build(lib, line))
  {
    Lines.NoTabSameFields(line);
    Paths.EncodeOnlyTouchesQueries(lib, line);
  }

  /** A line `a<TAB>b` becomes the redirect from the extracted `a` to the
      extracted and re-encoded `b`. */
  lemma BuildTabLine(lib: Paths.Lib, a: string, b: string)
    requires Lines.Tab !in a && Lines.Tab !in b
    ensures Build(lib, a + [Lines.Tab] + b) ==
      Redirect(Paths.ExtractPath(lib, a, false), Paths.ExtractPath(lib, b, true))
  {
    Lines.OneTabFields(a, b);
  }

  /** Drops every no-op rule and counts it, in one pass. */
  function FilterDuplicates(rs: seq<Redirect>): (s: Stage)
    ensures forall r :: r in s.kept <==> r in rs && !IsDuplicate(r)
    ensures |s.kept| + s.dropped == |rs|
    ensures s.kept == Seqs.Where(rs, IsNotDuplicate)
  {
    if |rs| == 0 then Stage([], 0)
    else
      var rest := FilterDuplicates(rs[1..]);
      if IsDuplicate(rs[0]) then Stage(rest.kept, rest.dropped + 1)
      else Stage([rs[0]] + rest.kept, rest.dropped)
  }

  /** The duplicate counter counts exactly the no-op rules of the input. */
  lemma {:induction false} FilterDuplicatesCounts(rs: seq<Redirect>)
    ensures FilterDuplicates(rs).dropped == Seqs.Rejected(rs, IsNotDuplicate)
  {
    Seqs.WhereConserves(rs, IsNotDuplicate);
  }

  /** Filtering works block by block, so it preserves order. */
  lemma FilterDuplicatesAppend(a: seq<Redirect>, b: seq<Redirect>)
    ensures FilterDuplicates(a + b).kept == FilterDuplicates(a).kept + FilterDuplicates(b).kept
    ensures FilterDuplicates(a + b).dropped == FilterDuplicates(a).dropped + FilterDuplicates(b).dropped
  {
    Seqs.WhereAppend(a, b, IsNotDuplicate);
  }

  /** The grouping key: From case folded. */
  function Key(r: Redirect): string {
    Text.Lower(r.from)
  }

  /** The keys of `rs`, in input order. */
  function Keys(rs: seq<Redirect>): (ks: seq<string>)
    ensures |ks| == |rs|
    ensures forall i :: 0 <= i < |rs| ==> ks[i] == Key(rs[i])
  {
    seq(|rs|, i requires 0 <= i < |rs| => Key(rs[i]))
  }

  /** One group of `GroupBy`: its key, its first member and the later ones. */
  datatype Group = Group(key: string, first: Redirect, later: seq<Redirect>) {
    /** `group.Count()` */
    function Count(): nat {
      1 + |later|
    }

    /** The group enumerated: its members in input order. */
    function Items(): seq<Redirect> {
      [first] + later
    }
  }

  /** The keys of the groups, in group order. */
  function GroupKeys(gs: seq<Group>): (ks: seq<string>)
    ensures |ks| == |gs|
    ensures forall i :: 0 <= i < |gs| ==> ks[i] == gs[i].key
  {
    if |gs| == 0 then [] else [gs[0].key] + GroupKeys(gs[1..])
  }

  /** The first member of every group, in group order. */
  function Firsts(gs: seq<Group>): (fs: seq<Redirect>)
    ensures |fs| == |gs|
    ensures forall i :: 0 <= i < |gs| ==> fs[i] == gs[i].first
  {
    if |gs| == 0 then [] else [gs[0].first] + Firsts(gs[1..])
  }

  /** No key occurs twice. */
  ghost predicate DistinctKeys(ks: seq<string>) {
    forall i, j :: 0 <= i < j < |ks| ==> ks[i] != ks[j]
  }

  /** Every member carries its group's key. */
  ghost predicate MembersMatch(gs: seq<Group>) {
    && (forall i :: 0 <= i < |gs| ==> Key(gs[i].first) == gs[i].key)
    && (forall i, k :: 0 <= i < |gs| && 0 <= k < |gs[i].later| ==> Key(gs[i].later[k]) == gs[i].key)
  }

  /** Groups carry distinct keys, and every member carries its group's key. */
  ghost predicate WellFormed(gs: seq<Group>) {
    DistinctKeys(GroupKeys(gs)) && MembersMatch(gs)
  }

  /** Number of redirects held by the groups. */
  function Members(gs: seq<Group>): nat {
    if |gs| == 0 then 0 else gs[0].Count() + Members(gs[1..])
  }

  /** Sum over the groups of `Count() - 1`. */
  function Repeats(gs: seq<Group>): nat {
    if |gs| == 0 then 0 else (gs[0].Count() - 1) + Repeats(gs[1..])
  }

  /** Puts `r` at the end of the group with its key, or opens a new group at
      the end when no group has that key. */
  function AddToGroup(gs: seq<Group>, r: Redirect): (gs': seq<Group>)
    ensures Members(gs') == Members(gs) + 1
  {
    if |gs| == 0 then [Group(Key(r), r, [])]
    else if gs[0].key == Key(r) then [gs[0].(later := gs[0].later + [r])] + gs[1..]
    else [gs[0]] + AddToGroup(gs[1..], r)
  }

  /** A known key leaves the group keys unchanged. */
  lemma {:induction false} AddToGroupKeysKnown(gs: seq<Group>, r: Redirect)
    requires Key(r) in GroupKeys(gs)
    ensures GroupKeys(AddToGroup(gs, r)) == GroupKeys(gs)
    decreases |gs|
  {
    var out := AddToGroup(gs, r);
    assert GroupKeys(gs) == [gs[0].key] + GroupKeys(gs[1..]);
    assert GroupKeys(out) == [gs[0].key] + GroupKeys(out[1..]);
    if gs[0].key == Key(r) {
      assert out[1..] == gs[1..];
    } else {
      assert out[1..] == AddToGroup(gs[1..], r);
      AddToGroupKeysKnown(gs[1..], r);
    }
  }

  /** A new key is appended to the group keys. */
  lemma {:induction false} AddToGroupKeysNew(gs: seq<Group>, r: Redirect)
    requires Key(r) !in GroupKeys(gs)
    ensures GroupKeys(AddToGroup(gs, r)) == GroupKeys(gs) + [Key(r)]
    decreases |gs|
  {
    if |gs| > 0 {
      var out := AddToGroup(gs, r);
      assert gs[0].key != Key(r) && Key(r) !in GroupKeys(gs[1..]) by {
        assert GroupKeys(gs) == [gs[0].key] + GroupKeys(gs[1..]);
      }
      assert out[1..] == AddToGroup(gs[1..], r);
      AddToGroupKeysNew(gs[1..], r);
      var tail := GroupKeys(gs[1..]);
      assert GroupKeys(out) == [gs[0].key] + (tail + [Key(r)]);
      assert [gs[0].key] + (tail + [Key(r)]) == ([gs[0].key] + tail) + [Key(r)];
    }
  }

  /** A new key is appended to the group keys; a known key changes nothing. */
  lemma {:induction false} AddToGroupKeys(gs: seq<Group>, r: Redirect)
    ensures GroupKeys(AddToGroup(gs, r)) ==
      if Key(r) in GroupKeys(gs) then GroupKeys(gs) else GroupKeys(gs) + [Key(r)]
  {
    if Key(r) in GroupKeys(gs) {
      AddToGroupKeysKnown(gs, r);
    } else {
      AddToGroupKeysNew(gs, r);
    }
  }

  /** A redirect with a known key leaves every group's first member alone. */
  lemma {:induction false} AddToGroupFirstsKnown(gs: seq<Group>, r: Redirect)
    requires Key(r) in GroupKeys(gs)
    ensures Firsts(AddToGroup(gs, r)) == Firsts(gs)
    decreases |gs|
  {
    var out := AddToGroup(gs, r);
    assert Firsts(out) == [gs[0].first] + Firsts(out[1..]);
    if gs[0].key == Key(r) {
      assert out[1..] == gs[1..];
    } else {
      assert Key(r) in GroupKeys(gs[1..]) by {
        assert GroupKeys(gs) == [gs[0].key] + GroupKeys(gs[1..]);
      }
      assert out[1..] == AddToGroup(gs[1..], r);
      AddToGroupFirstsKnown(gs[1..], r);
    }
  }

  /** A redirect with a new key becomes the first member of a new last
      group. */
  lemma {:induction false} AddToGroupFirstsNew(gs: seq<Group>, r: Redirect)
    requires Key(r) !in GroupKeys(gs)
    ensures Firsts(AddToGroup(gs, r)) == Firsts(gs) + [r]
    decreases |gs|
  {
    if |gs| > 0 {
      var out := AddToGroup(gs, r);
      assert gs[0].key != Key(r) && Key(r) !in GroupKeys(gs[1..]) by {
        assert GroupKeys(gs) == [gs[0].key] + GroupKeys(gs[1..]);
      }
      assert out[1..] == AddToGroup(gs[1..], r);
      AddToGroupFirstsNew(gs[1..], r);
      var tail := Firsts(gs[1..]);
      assert Firsts(out) == [gs[0].first] + (tail + [r]);
      assert [gs[0].first] + (tail + [r]) == ([gs[0].first] + tail) + [r];
    }
  }

  /** A redirect with a new key becomes the first member of a new last
      group; one with a known key leaves every group's first member alone. */
  lemma {:induction false} AddToGroupFirsts(gs: seq<Group>, r: Redirect)
    ensures Firsts(AddToGroup(gs, r)) ==
      if Key(r) in GroupKeys(gs) then Firsts(gs) else Firsts(gs) + [r]
  {
    if Key(r) in GroupKeys(gs) {
      AddToGroupFirstsKnown(gs, r);
    } else {
      AddToGroupFirstsNew(gs, r);
    }
  }

  /** Adding a redirect keeps every member under its group's key. */
  lemma {:induction false} AddToGroupMembersMatch(gs: seq<Group>, r: Redirect)
    requires MembersMatch(gs)
    ensures MembersMatch(AddToGroup(gs, r))
    decreases |gs|
  {
    if |gs| > 0 && gs[0].key != Key(r) {
      AddToGroupMembersMatch(gs[1..], r);
      var rest := AddToGroup(gs[1..], r);
      assert forall i :: 1 <= i < |rest| + 1 == |[gs[0]] + rest| ==> ([gs[0]] + rest)[i] == rest[i - 1];
    }
  }

  /** Adding a redirect keeps the groups well formed. */
  lemma AddToGroupWellFormed(gs: seq<Group>, r: Redirect)
    requires WellFormed(gs)
    ensures WellFormed(AddToGroup(gs, r))
  {
    AddToGroupMembersMatch(gs, r);
    AddToGroupKeys(gs, r);
  }

  /** `GroupBy(r => r.From.ToLower())`: groups in order of their key's first
      appearance, members in input order. */
  function GroupBy(rs: seq<Redirect>): (gs: seq<Group>)
    ensures WellFormed(gs)
    ensures forall k :: k in GroupKeys(gs) <==> k in Keys(rs)
    ensures Members(gs) == |rs|
  {
    if |rs| == 0 then []
    else
      var init := rs[..|rs| - 1];
      assert Keys(rs) == Keys(init) + [Key(rs[|rs| - 1])];
      AddToGroupWellFormed(GroupBy(init), rs[|rs| - 1]);
      AddToGroupKeys(GroupBy(init), rs[|rs| - 1]);
      AddToGroup(GroupBy(init), rs[|rs| - 1])
  }

  /** The predicate "has key `k`", as one function value per key. */
  function HasKey(k: string): Redirect -> bool {
    r => Key(r) == k
  }

  /** Adding a redirect to groups with distinct keys appends it to the
      group with its key and leaves every other group alone; any group past
      the old ones is the new one-member group. */
  lemma {:induction false} AddToGroupItems(gs: seq<Group>, r: Redirect)
    requires DistinctKeys(GroupKeys(gs))
    ensures |AddToGroup(gs, r)| >= |gs|
    ensures forall i :: 0 <= i < |gs| ==>
      && AddToGroup(gs, r)[i].key == gs[i].key
      && AddToGroup(gs, r)[i].Items() == gs[i].Items() + (if gs[i].key == Key(r) then [r] else [])
    ensures forall i :: |gs| <= i < |AddToGroup(gs, r)| ==> AddToGroup(gs, r)[i] == Group(Key(r), r, [])
    decreases |gs|
  {
    if |gs| > 0 {
      var out := AddToGroup(gs, r);
      if gs[0].key == Key(r) {
        assert forall i :: 1 <= i < |gs| ==> gs[i].key != Key(r) by {
          assert forall i :: 1 <= i < |gs| ==> GroupKeys(gs)[i] == gs[i].key;
        }
        assert out[0].Items() == gs[0].Items() + [r];
        assert forall i :: 1 <= i < |gs| ==> out[i] == gs[i];
      } else {
        var rest := AddToGroup(gs[1..], r);
        assert DistinctKeys(GroupKeys(gs[1..])) by {
          assert forall i :: 0 <= i < |gs| - 1 ==> GroupKeys(gs[1..])[i] == GroupKeys(gs)[i + 1];
        }
        AddToGroupItems(gs[1..], r);
        assert out == [gs[0]] + rest;
        assert forall i :: 1 <= i < |out| ==> out[i] == rest[i - 1];
      }
    }
  }

  /** A filter no element passes gives the empty sequence. */
  lemma WhereNoKey(rs: seq<Redirect>, k: string)
    requires k !in Keys(rs)
    ensures Seqs.Where(rs, HasKey(k)) == []
  {
    forall x | x in rs
      ensures !HasKey(k)(x)
    {
      var j :| 0 <= j < |rs| && rs[j] == x;
      assert Keys(rs)[j] == Key(x);
    }
  }

  /** Each group holds exactly the input redirects with its key, in input
      order: `GroupBy` loses and invents nothing. */
  lemma {:induction false} GroupByContents(rs: seq<Redirect>)
    ensures forall i :: 0 <= i < |GroupBy(rs)| ==>
      GroupBy(rs)[i].Items() == Seqs.Where(rs, HasKey(GroupBy(rs)[i].key))
    decreases |rs|
  {
    if |rs| > 0 {
      var init := rs[..|rs| - 1];
      var last := rs[|rs| - 1];
      var gs := GroupBy(init);
      var out := AddToGroup(gs, last);
      assert rs == init + [last];
      assert GroupBy(rs) == out;
      GroupByContents(init);
      AddToGroupItems(gs, last);
      AddToGroupKeys(gs, last);
      forall i | 0 <= i < |out|
        ensures out[i].Items() == Seqs.Where(rs, HasKey(out[i].key))
      {
        var k := out[i].key;
        Seqs.WhereAppend(init, [last], HasKey(k));
        assert [last][1..] == [];
        assert Seqs.Where([last], HasKey(k)) == if Key(last) == k then [last] else [];
        if i >= |gs| {
          assert Key(last) !in GroupKeys(gs);
          WhereNoKey(init, k);
        }
      }
    }
  }

  /** Each group adds its size less one. */
  lemma {:induction false} RepeatsAreSurplus(gs: seq<Group>)
    ensures Repeats(gs) + |gs| == Members(gs)
    decreases |gs|
  {
    if |gs| > 0 {
      RepeatsAreSurplus(gs[1..]);
    }
  }

  /** Keeps the first member of every group and counts the rest. */
  function DistinctByFrom(rs: seq<Redirect>): (s: Stage)
    ensures |s.kept| + s.dropped == |rs|
    ensures forall i, j :: 0 <= i < j < |s.kept| ==> Key(s.kept[i]) != Key(s.kept[j])
    ensures forall k :: k in Keys(s.kept) <==> k in Keys(rs)
    ensures forall r :: r in s.kept ==> r in rs
  {
    var gs := GroupBy(rs);
    RepeatsAreSurplus(gs);
    FirstsAreMembers(rs);
    Stage(Firsts(gs), Repeats(gs))
  }

  /** Reference definition of "first of each key": scan left to right and
      keep a redirect exactly when no earlier one has its key. */
  function KeepFirst(rs: seq<Redirect>): seq<Redirect>
  {
    if |rs| == 0 then []
    else
      var init := rs[..|rs| - 1];
      var last := rs[|rs| - 1];
      if Key(last) in Keys(init) then KeepFirst(init) else KeepFirst(init) + [last]
  }

  /** The first members of the groups, in group order, are the
      first-occurrence scan of the input. */
  lemma {:induction false} GroupFirstsAreKeepFirst(rs: seq<Redirect>)
    ensures Firsts(GroupBy(rs)) == KeepFirst(rs)
    decreases |rs|
  {
    if |rs| > 0 {
      var init := rs[..|rs| - 1];
      GroupFirstsAreKeepFirst(init);
      AddToGroupFirsts(GroupBy(init), rs[|rs| - 1]);
    }
  }

  /** The scan only keeps redirects of its input. */
  lemma {:induction false} KeepFirstAreMembers(rs: seq<Redirect>)
    ensures forall r :: r in KeepFirst(rs) ==> r in rs
    decreases |rs|
  {
    if |rs| > 0 {
      var init := rs[..|rs| - 1];
      KeepFirstAreMembers(init);
      assert rs == init + [rs[|rs| - 1]];
    }
  }

  /** The first members of the groups come from the input. */
  lemma FirstsAreMembers(rs: seq<Redirect>)
    ensures forall r :: r in Firsts(GroupBy(rs)) ==> r in rs
  {
    GroupFirstsAreKeepFirst(rs);
    KeepFirstAreMembers(rs);
  }

  /** `DistinctByFrom` keeps the same redirects, in the same order, as the
      first-occurrence scan. */
  lemma DistinctByFromIsKeepFirst(rs: seq<Redirect>)
    ensures DistinctByFrom(rs).kept == KeepFirst(rs)
  {
    GroupFirstsAreKeepFirst(rs);
  }

  /** Every redirect the scan keeps is the first input redirect with its
      key: it sits at some index `j` of the input and no earlier input has
      the same key. */
  lemma {:induction false} KeepFirstAreFirstOccurrences(rs: seq<Redirect>)
    ensures forall r :: r in KeepFirst(rs) ==>
      exists j :: 0 <= j < |rs| && rs[j] == r && forall k :: 0 <= k < j ==> Key(rs[k]) != Key(r)
    decreases |rs|
  {
    if |rs| > 0 {
      var init := rs[..|rs| - 1];
      var last := rs[|rs| - 1];
      KeepFirstAreFirstOccurrences(init);
      assert forall k :: 0 <= k < |rs| - 1 ==> rs[k] == init[k];
      forall r | r in KeepFirst(rs)
        ensures exists j :: 0 <= j < |rs| && rs[j] == r && forall k :: 0 <= k < j ==> Key(rs[k]) != Key(r)
      {
        if r in KeepFirst(init) {
          var j :| 0 <= j < |init| && init[j] == r && forall k :: 0 <= k < j ==> Key(init[k]) != Key(r);
          assert rs[j] == r;
        } else {
          assert r == last && Key(last) !in Keys(init);
          assert forall k :: 0 <= k < |rs| - 1 ==> Key(rs[k]) == Keys(init)[k];
        }
      }
    }
  }

  /** Every redirect `DistinctByFrom` keeps is the first input redirect with
      its key. */
  lemma KeptAreFirstOccurrences(rs: seq<Redirect>)
    ensures forall r :: r in DistinctByFrom(rs).kept ==>
      exists j :: 0 <= j < |rs| && rs[j] == r && forall k :: 0 <= k < j ==> Key(rs[k]) != Key(r)
  {
    DistinctByFromIsKeepFirst(rs);
    KeepFirstAreFirstOccurrences(rs);
  }

  /** Two redirects with the same key: the first is kept and the second
      counted as a repeat. */
  lemma DistinctSameKeyPair(x: Redirect, y: Redirect)
    requires Key(x) == Key(y)
    ensures DistinctByFrom([x, y]) == Stage([x], 1)
  {
    var rs := [x, y];
    assert rs[..1] == [x];
    assert KeepFirst([x]) == [x];
    assert Keys([x]) == [Key(x)];
    DistinctByFromIsKeepFirst(rs);
  }
}
