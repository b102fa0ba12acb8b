/**
 * The two tables of the store, `urls` and `clicks`, as the last migration
 * creates them, and the queries the handlers run on them.
 *
 * A table is a sequence of rows in insertion order. `id` is a serial column,
 * so the row at index `i` has id `i + 1`; nothing ever deletes a row.
 */
module Records {
  import opened Wrappers

  /** The width of the `short_code` column, `varchar(8)`. */
  const ShortCodeWidth: nat := 8

  /** The width of a `table.string(name)` column with no length given, `varchar(255)`. */
  const StringColumnWidth: nat := 255

  /** The number of rows the recent-clicks query is limited to. */
  const RecentLimit: nat := 10

  /** One UTM parameter as the creator supplied it. */
  datatype UtmParam = UtmParam(key: string, value: string)

  /** The link preview the creator may attach; the store keeps it as JSON and never looks inside. */
  datatype Preview = Preview(title: Option<string>, description: Option<string>, imageUrl: Option<string>)

  /** A row of `urls`. Times are integers (milliseconds); `created_at` and `updated_at` are not read by any handler. */
  datatype UrlRow = UrlRow(
    id: nat,
    originalUrl: string,
    shortCode: string,
    expiresAt: Option<int>,
    utmParameters: Option<seq<UtmParam>>,
    preview: Option<Preview>)

  /** A row of `clicks`. */
  datatype Click = Click(
    id: nat,
    urlId: nat,
    ipAddress: string,
    userAgent: string,
    referrer: Option<string>,
    clickedAt: int)

  function Min(a: int, b: int): int {
    if a <= b then a else b
  }

  // ---------------------------------------------------------------- urls

  /**
   * PostgreSQL's assignment of a text to a `varchar(n)` column: a text of at most `n`
   * characters is stored as it is; a longer one is an error, unless everything past the
   * `n`-th character is a space, in which case it is cut to `n` characters.
   */
  function VarcharAssign(s: string, n: nat): (r: Option<string>)
    ensures r.Some? ==> |r.value| == Min(|s|, n) && r.value == s[..|r.value|]
    ensures |s| <= n ==> r == Some(s)
    ensures r.None? <==> exists i :: n <= i < |s| && s[i] != ' '
  {
    if |s| <= n then Some(s)
    else if forall i :: n <= i < |s| ==> s[i] == ' ' then Some(s[..n])
    else None
  }

  /** `where('short_code', code).first()`: the first row whose code is `code`. */
  function FindByCode(urls: seq<UrlRow>, code: string): (r: Option<UrlRow>)
    ensures r.Some? ==> r.value in urls && r.value.shortCode == code
    ensures r.None? <==> forall row :: row in urls ==> row.shortCode != code
  {
    if urls == [] then None
    else if urls[0].shortCode == code then Some(urls[0])
    else FindByCode(urls[1..], code)
  }

  /** The unique constraint on `short_code`. */
  predicate UniqueCodes(urls: seq<UrlRow>) {
    forall i, j :: 0 <= i < j < |urls| ==> urls[i].shortCode != urls[j].shortCode
  }

  /** What the `urls` table always satisfies: serial ids, non-empty codes that fit the column, unique codes. */
  predicate WellFormedUrls(urls: seq<UrlRow>) {
    && (forall i :: 0 <= i < |urls| ==> urls[i].id == i + 1)
    && (forall i :: 0 <= i < |urls| ==> 0 < |urls[i].shortCode| <= ShortCodeWidth)
    && UniqueCodes(urls)
  }

  /** With unique codes, looking up a row's code finds that very row. */
  lemma FindByCodeUnique(urls: seq<UrlRow>, row: UrlRow)
    requires UniqueCodes(urls) && row in urls
    ensures FindByCode(urls, row.shortCode) == Some(row)
  {
    var found := FindByCode(urls, row.shortCode);
    var i :| 0 <= i < |urls| && urls[i] == row;
    var j :| 0 <= j < |urls| && urls[j] == found.value;
    assert !(i < j) && !(j < i);
  }

  /** A stored row sits at the index its id names. */
  lemma RowAtId(urls: seq<UrlRow>, row: UrlRow)
    requires WellFormedUrls(urls) && row in urls
    ensures 1 <= row.id <= |urls| && urls[row.id - 1] == row
  {
    var i :| 0 <= i < |urls| && urls[i] == row;
  }

  /** Appending a row whose code is not yet used keeps the table well formed. */
  lemma InsertKeepsWellFormed(urls: seq<UrlRow>, row: UrlRow)
    requires WellFormedUrls(urls)
    requires row.id == |urls| + 1 && 0 < |row.shortCode| <= ShortCodeWidth
    requires FindByCode(urls, row.shortCode).None?
    ensures WellFormedUrls(urls + [row])
  {
    var t := urls + [row];
    forall i, j | 0 <= i < j < |t| ensures t[i].shortCode != t[j].shortCode {
      if j == |urls| {
        assert t[i] in urls;
      }
    }
  }

  // ---------------------------------------------------------------- clicks

  /** `where('url_id', id)`: the clicks of one link, in table order. */
  function ClicksOf(clicks: seq<Click>, urlId: nat): (r: seq<Click>)
    ensures |r| <= |clicks|
  {
    if clicks == [] then []
    else (if clicks[0].urlId == urlId then [clicks[0]] else []) + ClicksOf(clicks[1..], urlId)
  }

  /** The clicks of a link are exactly the click rows that refer to it. */
  lemma {:induction false} ClicksOfMembers(clicks: seq<Click>, urlId: nat)
    ensures forall c :: c in ClicksOf(clicks, urlId) <==> c in clicks && c.urlId == urlId
  {
    if clicks != [] {
      ClicksOfMembers(clicks[1..], urlId);
      assert clicks == [clicks[0]] + clicks[1..];
    }
  }

  /** A link no click refers to has no clicks. */
  lemma {:induction false} ClicksOfNone(clicks: seq<Click>, urlId: nat)
    requires forall c :: c in clicks ==> c.urlId != urlId
    ensures ClicksOf(clicks, urlId) == []
  {
    if clicks != [] {
      assert clicks[0] in clicks;
      ClicksOfNone(clicks[1..], urlId);
    }
  }

  /** A new click row adds itself to the clicks of its own link and to no other. */
  lemma {:induction false} ClicksOfAppend(clicks: seq<Click>, c: Click, urlId: nat)
    ensures ClicksOf(clicks + [c], urlId) == ClicksOf(clicks, urlId) + (if c.urlId == urlId then [c] else [])
  {
    var t := clicks + [c];
    if clicks == [] {
      assert t == [c];
    } else {
      assert t[0] == clicks[0];
      assert t[1..] == clicks[1..] + [c];
      ClicksOfAppend(clicks[1..], c, urlId);
      assert ClicksOf(t, urlId) == (if clicks[0].urlId == urlId then [clicks[0]] else []) + ClicksOf(t[1..], urlId);
    }
  }

  /** Rows ordered by `clicked_at`, newest first; equal times in any order. */
  predicate NewestFirst(s: seq<Click>) {
    forall i, j :: 0 <= i < j < |s| ==> s[i].clickedAt >= s[j].clickedAt
  }

  function InsertByTime(c: Click, s: seq<Click>): (r: seq<Click>)
    requires NewestFirst(s)
    ensures NewestFirst(r)
    ensures multiset(r) == multiset(s) + multiset{c}
    ensures |r| == |s| + 1
  {
    if s == [] || c.clickedAt >= s[0].clickedAt then
      [c] + s
    else
      var rest := InsertByTime(c, s[1..]);
      assert s == [s[0]] + s[1..];
      NoNewerThanHead(s, c, rest);
      ConsNewestFirst(s[0], rest);
      assert multiset([s[0]] + rest) == multiset{s[0]} + multiset(rest);
      [s[0]] + rest
  }

  /** Inserting a row no newer than the head of a newest-first sequence into its tail gives rows no newer than that head. */
  lemma NoNewerThanHead(s: seq<Click>, c: Click, rest: seq<Click>)
    requires s != [] && NewestFirst(s) && c.clickedAt <= s[0].clickedAt
    requires multiset(rest) == multiset(s[1..]) + multiset{c}
    ensures forall y :: y in rest ==> y.clickedAt <= s[0].clickedAt
  {
    forall y | y in rest ensures y.clickedAt <= s[0].clickedAt {
      assert y in multiset(rest);
      if y != c {
        assert y in multiset(s[1..]);
        var j :| 0 <= j < |s[1..]| && s[1..][j] == y;
        assert s[j + 1] == y;
      }
    }
  }

  /** A row no newer than the head of a newest-first sequence can go in front of it. */
  lemma ConsNewestFirst(x: Click, s: seq<Click>)
    requires NewestFirst(s)
    requires forall y :: y in s ==> y.clickedAt <= x.clickedAt
    ensures NewestFirst([x] + s)
  {
    var t := [x] + s;
    forall i, j | 0 <= i < j < |t| ensures t[i].clickedAt >= t[j].clickedAt {
      if i == 0 {
        assert t[j] == s[j - 1];
      } else {
        assert t[i] == s[i - 1] && t[j] == s[j - 1];
      }
    }
  }

  /** `orderBy('clicked_at', 'desc')`: one of the orders the store may return. */
  function SortNewestFirst(s: seq<Click>): (r: seq<Click>)
    ensures NewestFirst(r)
    ensures multiset(r) == multiset(s)
    ensures |r| == |s|
  {
    if s == [] then []
    else
      assert s == [s[0]] + s[1..];
      InsertByTime(s[0], SortNewestFirst(s[1..]))
  }

  /**
   * Every answer that `order by clicked_at desc limit n` may give over `all`: `min(|all|, n)` of
   * its rows, newest first, and no row left out is newer than a row returned. The store breaks
   * ties between equal times in no particular order, so this admits each of those orders.
   */
  ghost predicate IsRecentWindow(r: seq<Click>, all: seq<Click>, n: nat) {
    && |r| == Min(|all|, n)
    && multiset(r) <= multiset(all)
    && NewestFirst(r)
    && forall c, i :: c in multiset(all) - multiset(r) && 0 <= i < |r| ==> c.clickedAt <= r[i].clickedAt
  }

  /** The answer the model gives to the recent-clicks query of a link. */
  function RecentClicks(clicks: seq<Click>, urlId: nat): (r: seq<Click>)
    ensures |r| == Min(|ClicksOf(clicks, urlId)|, RecentLimit)
  {
    var sorted := SortNewestFirst(ClicksOf(clicks, urlId));
    sorted[..Min(|sorted|, RecentLimit)]
  }

  /** In a newest-first sequence, nothing past the first `k` rows is newer than one of them. */
  lemma SortedPrefixIsNewest(sorted: seq<Click>, k: nat)
    requires NewestFirst(sorted) && k <= |sorted|
    ensures forall c: Click, i: int :: c in multiset(sorted) - multiset(sorted[..k]) && 0 <= i < k ==>
      c.clickedAt <= sorted[i].clickedAt
  {
    var rest := sorted[k..];
    assert sorted == sorted[..k] + rest;
    assert multiset(sorted) - multiset(sorted[..k]) == multiset(rest);
    forall c: Click, i: int | c in multiset(rest) && 0 <= i < k
      ensures c.clickedAt <= sorted[i].clickedAt
    {
      assert c in rest;
      var j :| 0 <= j < |rest| && rest[j] == c;
      assert sorted[k + j] == c;
    }
  }

  /** The first `min(|all|, n)` rows of any newest-first arrangement of `all` are an answer of the query. */
  lemma SortedPrefixWindow(sorted: seq<Click>, all: seq<Click>, n: nat)
    requires NewestFirst(sorted) && multiset(sorted) == multiset(all)
    ensures |sorted| == |all|
    ensures IsRecentWindow(sorted[..Min(|sorted|, n)], all, n)
  {
    assert |sorted| == |multiset(sorted)| == |all|;
    var k := Min(|sorted|, n);
    var r := sorted[..k];
    assert multiset(sorted) == multiset(r) + multiset(sorted[k..]) by {
      assert sorted == r + sorted[k..];
    }
    SortedPrefixIsNewest(sorted, k);
  }

  /** The model's answer is one of the answers the store may give. */
  lemma RecentClicksWindow(clicks: seq<Click>, urlId: nat)
    ensures IsRecentWindow(RecentClicks(clicks, urlId), ClicksOf(clicks, urlId), RecentLimit)
  {
    var all := ClicksOf(clicks, urlId);
    SortedPrefixWindow(SortNewestFirst(all), all, RecentLimit);
  }
}
