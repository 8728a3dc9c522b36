/** The LINQ `Where` filter over a finite sequence, with the facts every
    filtering stage of the converter relies on. */
module Seqs {

  /** The elements of `s` that satisfy `p`, in their original order. */
  function Where<T>(s: seq<T>, p: T -> bool): (r: seq<T>)
    ensures |r| <= |s|
    ensures forall x :: x in r ==> x in s && p(x)
    ensures forall x :: x in s && p(x) ==> x in r
  {
    if |s| == 0 then []
    else if p(s[0]) then [s[0]] + Where(s[1..], p)
    else Where(s[1..], p)
  }

  /** How many elements of `s` fail `p`. */
  function Rejected<T>(s: seq<T>, p: T -> bool): nat
  {
    if |s| == 0 then 0
    else (if p(s[0]) then 0 else 1) + Rejected(s[1..], p)
  }

  /** Filtering distributes over concatenation: survivors keep their
      relative order and nothing from `b` overtakes anything from `a`. */
  lemma {:induction false} WhereAppend<T>(a: seq<T>, b: seq<T>, p: T -> bool)
    ensures Where(a + b, p) == Where(a, p) + Where(b, p)
    decreases |a|
  {
    if |a| == 0 {
      assert a + b == b;
    } else {
      assert (a + b)[0] == a[0];
      assert (a + b)[1..] == a[1..] + b;
      WhereAppend(a[1..], b, p);
    }
  }

  /** A filter that no element passes keeps nothing. */
  lemma {:induction false} WhereNone<T>(s: seq<T>, p: T -> bool)
    requires forall x :: x in s ==> !p(x)
    ensures Where(s, p) == []
    decreases |s|
  {
    if |s| > 0 {
      assert s[0] in s;
      assert forall x :: x in s[1..] ==> x in s;
      WhereNone(s[1..], p);
    }
  }

  /** Every element is either kept or rejected. */
  lemma {:induction false} WhereConserves<T>(s: seq<T>, p: T -> bool)
    ensures |Where(s, p)| + Rejected(s, p) == |s|
    decreases |s|
  {
    if |s| > 0 {
      WhereConserves(s[1..], p);
    }
  }

  /** Filtering a filtered sequence again changes nothing. */
  lemma {:induction false} WhereIdempotent<T>(s: seq<T>, p: T -> bool)
    ensures Where(Where(s, p), p) == Where(s, p)
    decreases |s|
  {
    if |s| > 0 {
      WhereIdempotent(s[1..], p);
      if p(s[0]) {
        assert ([s[0]] + Where(s[1..], p))[1..] == Where(s[1..], p);
      }
    }
  }
}
