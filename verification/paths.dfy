/** `ExtractPath`: turning one field of a redirect line into a canonical
    path. The .NET library calls it makes are not modelled; they are passed
    in as the functions of a `Lib` value. What the method itself decides is
    modelled: the trailing slash (with an ordinal test for the final `/`),
    the split at the query and the re-joining of the query pairs. */
module Paths {
  import Text

  /** The library functions `ExtractPath` relies on. */
  datatype Lib = Lib(
    /** `new Uri(url, RelativeOrAbsolute).ToString()` with the scheme and
        server removed when the URI is absolute. */
    uriPath: string -> string,
    /** `HttpUtility.ParseQueryString` enumerated as key/value pairs, in the
        parser's order. */
    parseQuery: string -> seq<(string, string)>,
    /** `Uri.EscapeUriString`. */
    escape: string -> string,
    /** `WebUtility.UrlDecode`. */
    urlDecode: string -> string)

  /** A library whose URI and decoding steps leave text as it is; the query
      parser and escaper stay free. Used to state what `ExtractPath` does on
      its own. */
  function Transparent(parse: string -> seq<(string, string)>, escape: string -> string): Lib
  {
    Lib(s => s, parse, escape, s => s)
  }

  predicate EndsWithSlash(p: string) {
    |p| > 0 && p[|p| - 1] == '/'
  }

  /** A path the trailing-slash rule is satisfied with. */
  predicate SlashSettled(p: string) {
    EndsWithSlash(p) || '#' in p || '?' in p
  }

  /** Appends `/` unless the path already ends in `/` or holds a fragment or
      a query. */
  function AddTrailingSlash(p: string): (r: string)
    ensures SlashSettled(r)
    ensures r == p || r == p + "/"
    ensures r == p <==> SlashSettled(p)
  {
    if !EndsWithSlash(p) && '#' !in p && '?' !in p then p + "/" else p
  }

  /** A settled path is left alone, so the step is idempotent. */
  lemma AddTrailingSlashIdempotent(p: string)
    ensures AddTrailingSlash(AddTrailingSlash(p)) == AddTrailingSlash(p)
  {
  }

  /** Splits a path at its first `?`: the part through the `?` and the
      query after it. */
  function SplitAtQuery(path: string): (parts: (string, string))
    requires '?' in path
    ensures parts.0 + parts.1 == path
    ensures |parts.0| > 0 && parts.0[|parts.0| - 1] == '?'
    ensures '?' !in parts.0[..|parts.0| - 1]
  {
    var i := Text.IndexOf(path, '?');
    assert path == path[..i + 1] + path[i + 1..];
    (path[..i + 1], path[i + 1..])
  }

  /** One query pair as the format string `{0}={1}` renders it. */
  function RenderPair(pair: (string, string), escape: string -> string): string
  {
    pair.0 + "=" + escape(pair.1)
  }

  function RenderAll(pairs: seq<(string, string)>, escape: string -> string): (rs: seq<string>)
    ensures |rs| == |pairs|
    ensures forall i :: 0 <= i < |pairs| ==> rs[i] == RenderPair(pairs[i], escape)
  {
    seq(|pairs|, i requires 0 <= i < |pairs| => RenderPair(pairs[i], escape))
  }

  /** The `foreach` loop: every rendered pair followed by `&`. */
  function Accumulate(pairs: seq<(string, string)>, escape: string -> string): string
  {
    if |pairs| == 0 then ""
    else Accumulate(pairs[..|pairs| - 1], escape) + RenderPair(pairs[|pairs| - 1], escape) + "&"
  }

  /** The loop's output with its last character removed when there is one. */
  function EncodeQuery(pairs: seq<(string, string)>, escape: string -> string): (q: string)
  {
    var acc := Accumulate(pairs, escape);
    if |acc| > 0 then acc[..|acc| - 1] else acc
  }

  /** The accumulated string is the `&`-join of the rendered pairs plus one
      trailing `&`. */
  lemma {:induction false} AccumulateIsJoin(pairs: seq<(string, string)>, escape: string -> string)
    requires |pairs| > 0
    ensures Accumulate(pairs, escape) == Text.Join(RenderAll(pairs, escape), '&') + "&"
    decreases |pairs|
  {
    var n := |pairs|;
    var init := pairs[..n - 1];
    if n > 1 {
      AccumulateIsJoin(init, escape);
      var rs := RenderAll(pairs, escape);
      assert rs == RenderAll(init, escape) + [RenderPair(pairs[n - 1], escape)];
      Text.JoinSnoc(RenderAll(init, escape), '&', RenderPair(pairs[n - 1], escape));
    } else {
      assert init == [];
      assert RenderAll(pairs, escape) == [RenderPair(pairs[0], escape)];
    }
  }

  /** The re-encoded query is the rendered pairs joined by `&` in the
      parser's order; no pairs give the empty query. */
  lemma EncodeQueryIsJoin(pairs: seq<(string, string)>, escape: string -> string)
    ensures EncodeQuery(pairs, escape) == Text.Join(RenderAll(pairs, escape), '&')
    ensures |pairs| == 0 ==> EncodeQuery(pairs, escape) == ""
  {
    if |pairs| > 0 {
      AccumulateIsJoin(pairs, escape);
      var j := Text.Join(RenderAll(pairs, escape), '&');
      assert (j + "&")[..|j|] == j;
    }
  }

  /** When no rendered pair contains `&`, the re-encoded query neither starts
      nor ends with `&`, and splitting it at `&` gives back exactly the
      rendered pairs in order. */
  lemma EncodeQueryRoundTrip(pairs: seq<(string, string)>, escape: string -> string)
    requires |pairs| > 0
    requires forall i :: 0 <= i < |pairs| ==> '&' !in RenderPair(pairs[i], escape)
    ensures Text.Split(EncodeQuery(pairs, escape), '&') == RenderAll(pairs, escape)
    ensures var q := EncodeQuery(pairs, escape); |q| > 0 && q[0] != '&' && q[|q| - 1] != '&'
  {
    EncodeQueryIsJoin(pairs, escape);
    var rs := RenderAll(pairs, escape);
    Text.SplitJoin(rs, '&');
    Text.JoinStartsWithFirst(rs, '&');
    Text.JoinEndsWithLast(rs, '&');
  }

  /** The library-independent core of `ExtractPath`. */
  function ExtractPath(lib: Lib, url: string, encodeQs: bool): string
  {
    var path := AddTrailingSlash(lib.uriPath(url));
    if encodeQs && '?' in path then
      var parts := SplitAtQuery(path);
      lib.urlDecode(parts.0) + EncodeQuery(lib.parseQuery(parts.1), lib.escape)
    else
      lib.urlDecode(path)
  }

  /** Re-encoding only matters for a path with a query: without `?` both
      call sites produce the same path. */
  lemma EncodeOnlyTouchesQueries(lib: Lib, url: string)
    requires '?' !in lib.uriPath(url)
    ensures ExtractPath(lib, url, true) == ExtractPath(lib, url, false)
  {
  }

  /** With re-encoding off (the From side) the query is NOT cut off: the
      whole settled path is kept, so a path holding `?` comes back as is. */
  lemma SourcePathKeepsQuery(parse: string -> seq<(string, string)>, escape: string -> string, url: string)
    ensures var r := ExtractPath(Transparent(parse, escape), url, false);
      |url| <= |r| && r[..|url|] == url && SlashSettled(r)
    ensures '?' in url ==> ExtractPath(Transparent(parse, escape), url, false) == url
  {
  }

  /** With transparent library calls the From side is idempotent. */
  lemma SourcePathIdempotent(parse: string -> seq<(string, string)>, escape: string -> string, url: string)
    ensures var lib := Transparent(parse, escape);
      ExtractPath(lib, ExtractPath(lib, url, false), false) == ExtractPath(lib, url, false)
  {
    AddTrailingSlashIdempotent(url);
  }

  /** With re-encoding on (the To side) and a query present, the result is
      the decoded path through the first `?` followed by the `&`-join of the
      parsed and escaped pairs. */
  lemma DestinationPathShape(lib: Lib, url: string)
    requires '?' in lib.uriPath(url)
    ensures var p := lib.uriPath(url);
      var i := Text.IndexOf(p, '?');
      ExtractPath(lib, url, true) ==
        lib.urlDecode(p[..i + 1]) + Text.Join(RenderAll(lib.parseQuery(p[i + 1..]), lib.escape), '&')
  {
    var p := lib.uriPath(url);
    var i := Text.IndexOf(p, '?');
    EncodeQueryIsJoin(lib.parseQuery(p[i + 1..]), lib.escape);
  }

  /** A value holding `&` survives escaping, so removing the last `&` of the
      loop's output still leaves the query ending in `&`. */
  lemma EncodeQueryKeepsValueAmpersand()
    ensures EncodeQuery([("a", "&")], s => s) == "a=&"
  {
    assert Accumulate([("a", "&")], s => s) == "a=&&";
  }
}
