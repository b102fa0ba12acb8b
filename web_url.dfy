/**
 * The part of the WHATWG URL Standard the handlers rely on, kept abstract.
 *
 * `new URL(s)` runs the basic URL parser of section 4.4 of the URL Standard with
 * no base; `url.searchParams.append(name, value)` (section 6.2) adds a pair to
 * the end of the URL's query list; `url.toString()` serializes the URL, its
 * query written by the application/x-www-form-urlencoded serializer of
 * section 5.2. A parsed URL is therefore modelled as the text before its
 * query, its query as a list of pairs, and its fragment; parsing and
 * serializing are parameters, since their details do not matter to any
 * property of this model.
 */
module WebUrl {
  import opened Wrappers

  /** One name/value pair of a URL's query. */
  datatype QueryPair = QueryPair(name: string, value: string)

  /** A URL record, reduced to what appending to its query touches. */
  datatype ParsedUrl = ParsedUrl(head: string, query: seq<QueryPair>, fragment: Option<string>)

  /** The URL library: the basic URL parser (`None` is the failure that makes `new URL` throw) and the serializer. */
  datatype UrlLibrary = UrlLibrary(parse: string -> Option<ParsedUrl>, serialize: ParsedUrl -> string) {

    /** `new URL(s)` does not throw. */
    predicate IsValidUrl(s: string) {
      parse(s).Some?
    }
  }

  /** `searchParams.append(name, value)`: the pair goes at the end of the query list, nothing else changes. */
  function Append(u: ParsedUrl, name: string, value: string): (r: ParsedUrl)
    ensures r.head == u.head && r.fragment == u.fragment
    ensures r.query == u.query + [QueryPair(name, value)]
  {
    u.(query := u.query + [QueryPair(name, value)])
  }
}
