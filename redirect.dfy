/**
 * The redirect target of a stored link: its original URL with the link's UTM
 * parameters appended to the query, in stored order; the original URL as it is
 * when there are no parameters or when the URL does not parse.
 */
module Redirect {
  import opened Wrappers
  import opened WebUrl
  import opened Records

  /** The query pairs a sequence of UTM parameters contributes, in order. */
  function UtmPairs(utm: seq<UtmParam>): (r: seq<QueryPair>)
    ensures |r| == |utm|
    ensures forall i :: 0 <= i < |utm| ==> r[i] == QueryPair(utm[i].key, utm[i].value)
  {
    if utm == [] then [] else [QueryPair(utm[0].key, utm[0].value)] + UtmPairs(utm[1..])
  }

  /** The target the redirect handler computes for `row`. */
  function RedirectTarget(lib: UrlLibrary, row: UrlRow): (r: string)
    ensures row.utmParameters.None? || row.utmParameters == Some([]) || !lib.IsValidUrl(row.originalUrl)
      ==> r == row.originalUrl
    ensures row.utmParameters.Some? && row.utmParameters.value != [] && lib.IsValidUrl(row.originalUrl) ==>
      var u := lib.parse(row.originalUrl).value;
      r == lib.serialize(ParsedUrl(u.head, u.query + UtmPairs(row.utmParameters.value), u.fragment))
  {
    match row.utmParameters
    case None => row.originalUrl
    case Some(utm) =>
      if utm == [] then row.originalUrl
      else match lib.parse(row.originalUrl)
        case None => row.originalUrl
        case Some(u) => lib.serialize(u.(query := u.query + UtmPairs(utm)))
  }

  /** The `forEach` loop: every parameter is appended to the query of `u`, in order, duplicates kept. */
  method AppendUtm(u: ParsedUrl, utm: seq<UtmParam>) returns (r: ParsedUrl)
    ensures r.head == u.head && r.fragment == u.fragment
    ensures |r.query| == |u.query| + |utm|
    ensures r.query[..|u.query|] == u.query
    ensures forall i :: 0 <= i < |utm| ==> r.query[|u.query| + i] == QueryPair(utm[i].key, utm[i].value)
  {
    r := u;
    var i := 0;
    while i < |utm|
      invariant 0 <= i <= |utm|
      invariant r.head == u.head && r.fragment == u.fragment
      invariant |r.query| == |u.query| + i
      invariant r.query[..|u.query|] == u.query
      invariant forall k :: 0 <= k < i ==> r.query[|u.query| + k] == QueryPair(utm[k].key, utm[k].value)
    {
      r := Append(r, utm[i].key, utm[i].value);
      i := i + 1;
    }
  }

  /**
   * Lines 126-141 of the handler: start from the original URL; when the row has a non-empty
   * parameter list and the URL parses, append every parameter and serialize.
   */
  method BuildRedirect(lib: UrlLibrary, row: UrlRow) returns (target: string)
    ensures target == RedirectTarget(lib, row)
    ensures row.utmParameters.None? || row.utmParameters == Some([]) || !lib.IsValidUrl(row.originalUrl)
      ==> target == row.originalUrl
  {
    target := row.originalUrl;
    if row.utmParameters.Some? {
      var utm := row.utmParameters.value;
      if |utm| > 0 {
        var parsed := lib.parse(target);
        if parsed.Some? {
          var u := AppendUtm(parsed.value, utm);
          assert u.query == parsed.value.query + UtmPairs(utm);
          assert u == parsed.value.(query := parsed.value.query + UtmPairs(utm));
          target := lib.serialize(u);
        }
      }
    }
  }
}
