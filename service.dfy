/**
 * The short-link server: the `urls` and `clicks` tables, the Redis cache in
 * front of `urls`, and the four handlers that act on them.
 *
 * The outside world is made explicit: the clock is a parameter `now`
 * (milliseconds), the code `nanoid(8)` would produce is a parameter, and each
 * call into Redis or PostgreSQL that can fail has a boolean saying whether it
 * fails in this request. A failure lands in the handler's `catch`, which answers
 * 500; a transaction that fails is rolled back, so it leaves no row behind.
 */
module Service {
  import opened Wrappers
  import opened IpAddress
  import opened Records
  import opened WebUrl
  import opened Redirect

  /** The prefix of every cache key. */
  const CachePrefix: string := "shorturl:"

  /** `'EX', 60 * 60`: one hour, in milliseconds. */
  const CacheTtlMillis: int := 60 * 60 * 1000

  /** The base of short URLs when `BASE_URL` is unset or empty. */
  const DefaultBaseUrl: string := "http://localhost:8000"

  /** The user agent recorded when the request has none. */
  const UnknownAgent: string := "Unknown"

  /** JavaScript's `value || fallback` for an optional string: the empty string counts as absent. */
  function OrElse(value: Option<string>, fallback: string): (r: string)
    ensures value.Some? && value.value != "" ==> r == value.value
    ensures value.None? || value.value == "" ==> r == fallback
  {
    if value.Some? && value.value != "" then value.value else fallback
  }

  /** `value || null` for an optional string. */
  function NonEmpty(value: Option<string>): (r: Option<string>)
    ensures r.Some? <==> value.Some? && value.value != ""
    ensures r.Some? ==> r == value
  {
    if value.Some? && value.value != "" then value else None
  }

  /** A character of nanoid's URL-safe alphabet. */
  predicate IsNanoidChar(c: char) {
    'A' <= c <= 'Z' || 'a' <= c <= 'z' || '0' <= c <= '9' || c == '_' || c == '-'
  }

  /** What `nanoid(8)` returns: eight characters of its alphabet. */
  predicate IsGeneratedCode(code: string) {
    |code| == 8 && forall i :: 0 <= i < |code| ==> IsNanoidChar(code[i])
  }

  /** `customCode || generateShortCode()`. */
  function ChosenCode(customCode: Option<string>, generated: string): string {
    OrElse(customCode, generated)
  }

  /** The code a create tries to store: a non-empty custom code, otherwise the generated one. */
  lemma ChosenCodeCases(customCode: Option<string>, generated: string)
    requires IsGeneratedCode(generated)
    ensures customCode.Some? && customCode.value != "" ==> ChosenCode(customCode, generated) == customCode.value
    ensures customCode.None? || customCode.value == "" ==> ChosenCode(customCode, generated) == generated
    ensures |ChosenCode(customCode, generated)| > 0
  {
  }

  /** The cache key of a code, `shorturl:<code>`. */
  function CacheKey(code: string): (key: string)
    ensures |key| == |CachePrefix| + |code|
    ensures key[..|CachePrefix|] == CachePrefix && key[|CachePrefix|..] == code
  {
    CachePrefix + code
  }

  /** Distinct codes have distinct cache keys. */
  lemma CacheKeyInjective(a: string, b: string)
    requires CacheKey(a) == CacheKey(b)
    ensures a == b
  {
    assert a == CacheKey(a)[|CachePrefix|..];
  }

  /** A cached row with the time its key expires. */
  datatype CacheEntry = CacheEntry(row: UrlRow, expiresAt: int)

  /** `redis.get("shorturl:" + code)`: the row cached for `code`, unless there is none or its key has expired. */
  function CachedRow(cache: map<string, CacheEntry>, code: string, now: int): (r: Option<UrlRow>)
    ensures r.Some? <==> CacheKey(code) in cache && now <= cache[CacheKey(code)].expiresAt
    ensures r.Some? ==> r.value == cache[CacheKey(code)].row
  {
    var key := CacheKey(code);
    if key in cache && now <= cache[key].expiresAt then Some(cache[key].row) else None
  }

  /** `url.expires_at && new Date(url.expires_at) < new Date()`, with `now` the server's clock. */
  predicate IsExpired(row: UrlRow, now: int): (r: bool)
    ensures row.expiresAt.None? ==> !r
    ensures row.expiresAt.Some? ==> (r <==> row.expiresAt.value < now)
  {
    row.expiresAt.Some? && row.expiresAt.value < now
  }

  /** Once a link has expired it stays expired: the link is live at its expiry time and dead at every later time. */
  lemma ExpiryIsFinal(row: UrlRow, t: int, u: int)
    requires t <= u
    ensures IsExpired(row, t) ==> IsExpired(row, u)
    ensures row.expiresAt.Some? ==> !IsExpired(row, row.expiresAt.value) && IsExpired(row, row.expiresAt.value + 1)
  {
  }

  /** The base of short URLs: `process.env.BASE_URL || 'http://localhost:8000'`. */
  function BaseUrl(env: Option<string>): string {
    OrElse(env, DefaultBaseUrl)
  }

  /** The `shortUrl` a successful create answers with. */
  function ShortUrl(base: string, code: string): string {
    base + "/" + code
  }

  /** `s.split("/").pop()`: what follows the last `/`, or all of `s` when it has none. */
  function LastSegment(s: string): (r: string)
    ensures |r| <= |s| && r == s[|s| - |r|..]
    ensures '/' !in r
    ensures |r| < |s| ==> s[|s| - |r| - 1] == '/'
  {
    if s == [] || s[|s| - 1] == '/' then []
    else LastSegment(s[..|s| - 1]) + [s[|s| - 1]]
  }

  /** The client takes the code back from the last segment of a short URL; this works whenever the code has no `/`. */
  lemma {:induction false} ShortUrlRoundTrip(base: string, code: string)
    requires '/' !in code
    ensures LastSegment(ShortUrl(base, code)) == code
  {
    var s := ShortUrl(base, code);
    if code != [] {
      var init := code[..|code| - 1];
      assert s[..|s| - 1] == ShortUrl(base, init);
      assert code[|code| - 1] in code;
      ShortUrlRoundTrip(base, init);
      assert code == init + [code[|code| - 1]];
    }
  }

  /** What a redirect request tells about its client: `req.ip` and the `User-Agent` and `Referer` headers. */
  datatype ClientInfo = ClientInfo(ip: Option<string>, userAgent: Option<string>, referrer: Option<string>)

  /** Both headers fit their `varchar(255)` columns: the user agent or `Unknown`, and the referrer when there is one. */
  predicate HeadersFit(client: ClientInfo) {
    && VarcharAssign(OrElse(client.userAgent, UnknownAgent), StringColumnWidth).Some?
    && (NonEmpty(client.referrer).None? || VarcharAssign(client.referrer.value, StringColumnWidth).Some?)
  }

  /**
   * The click row the redirect handler inserts, as the store keeps it; `None` is the insert error
   * a header too long for its column gives. The handler does not write `clicked_at`: the column
   * default fills it with the database's clock at the insert, `clickedAt` here.
   */
  function NewClick(id: nat, urlId: nat, client: ClientInfo, clickedAt: int): (r: Option<Click>)
    ensures r.Some? <==> HeadersFit(client)
    ensures r.Some? ==> r.value.id == id && r.value.urlId == urlId && r.value.clickedAt == clickedAt
    ensures r.Some? ==> KeptByAnonymizeIp(r.value.ipAddress)
  {
    if !HeadersFit(client) then None
    else
      var ip := OrElse(client.ip, UnknownIp);
      AnonymizeIpIdempotent(ip);
      var agent := VarcharAssign(OrElse(client.userAgent, UnknownAgent), StringColumnWidth).value;
      var referrer := if NonEmpty(client.referrer).Some?
        then VarcharAssign(client.referrer.value, StringColumnWidth) else None;
      Some(Click(id, urlId, AnonymizeIp(ip), agent, referrer, clickedAt))
  }

  /**
   * The stored click: the address as `anonymizeIp` gives it (`0.0.0.0` when there is none), the user agent or
   * `Unknown`, the referrer or null, each header as its 255-character column keeps it.
   */
  lemma NewClickSpec(id: nat, urlId: nat, client: ClientInfo, now: int)
    requires HeadersFit(client)
    ensures var c := NewClick(id, urlId, client, now).value;
      && c.ipAddress == AnonymizeIp(OrElse(client.ip, UnknownIp))
      && Some(c.userAgent) == VarcharAssign(OrElse(client.userAgent, UnknownAgent), StringColumnWidth)
      && (c.referrer.None? <==> NonEmpty(client.referrer).None?)
      && (c.referrer.Some? ==> c.referrer == VarcharAssign(client.referrer.value, StringColumnWidth))
  {
  }

  /** Headers of at most 255 characters are stored as they came; an absent or empty user agent is `Unknown`. */
  lemma NewClickShortHeaders(id: nat, urlId: nat, client: ClientInfo, now: int)
    requires client.userAgent.Some? ==> |client.userAgent.value| <= StringColumnWidth
    requires client.referrer.Some? ==> |client.referrer.value| <= StringColumnWidth
    ensures NewClick(id, urlId, client, now).Some?
    ensures NewClick(id, urlId, client, now).value.userAgent == OrElse(client.userAgent, UnknownAgent)
    ensures NewClick(id, urlId, client, now).value.referrer == NonEmpty(client.referrer)
    ensures client.ip.None? ==> NewClick(id, urlId, client, now).value.ipAddress == UnknownIp
  {
    assert |UnknownAgent| <= StringColumnWidth;
    AnonymizeIpExamples();
  }

  // ---------------------------------------------------------------- invariants

  /**
   * What the `clicks` table always satisfies: serial ids, a link that exists and an address that
   * `anonymizeIp` leaves unchanged (an IPv6 address is stored whole). Whether the link was live at `clicked_at` is not part of it: the expiry test uses the
   * server's clock and `clicked_at` the database's, taken later.
   */
  predicate WellFormedClicks(clicks: seq<Click>, urls: seq<UrlRow>) {
    forall i :: 0 <= i < |clicks| ==> WellFormedClick(clicks[i], i + 1, urls)
  }

  /** One click row of `WellFormedClicks`, the one with id `id`. */
  predicate WellFormedClick(c: Click, id: nat, urls: seq<UrlRow>) {
    && c.id == id
    && 1 <= c.urlId <= |urls|
    && KeptByAnonymizeIp(c.ipAddress)
  }

  /** What the two tables and the cache always satisfy together. */
  predicate ValidState(urls: seq<UrlRow>, clicks: seq<Click>, cache: map<string, CacheEntry>) {
    WellFormedUrls(urls) && WellFormedClicks(clicks, urls) && CacheAgrees(cache, urls)
  }

  /** Every cache entry holds, under the key of its code, a row that is in the store. */
  predicate CacheAgrees(cache: map<string, CacheEntry>, urls: seq<UrlRow>) {
    forall key :: key in cache ==> key == CacheKey(cache[key].row.shortCode) && cache[key].row in urls
  }

  /** A cache hit gives the row the store holds for that code. */
  lemma CachedRowIsStored(cache: map<string, CacheEntry>, urls: seq<UrlRow>, code: string, now: int)
    requires CacheAgrees(cache, urls) && UniqueCodes(urls)
    requires CachedRow(cache, code, now).Some?
    ensures CachedRow(cache, code, now) == FindByCode(urls, code)
  {
    var row := cache[CacheKey(code)].row;
    CacheKeyInjective(code, row.shortCode);
    FindByCodeUnique(urls, row);
  }

  /** A link that starts with no clicks: no click refers to an id past the end of the table. */
  lemma NoClicksForNewId(clicks: seq<Click>, urls: seq<UrlRow>)
    requires WellFormedClicks(clicks, urls)
    ensures ClicksOf(clicks, |urls| + 1) == []
  {
    forall c | c in clicks ensures c.urlId != |urls| + 1 {
      var i :| 0 <= i < |clicks| && clicks[i] == c;
      assert WellFormedClick(clicks[i], i + 1, urls);
    }
    ClicksOfNone(clicks, |urls| + 1);
  }

  /** Appending a row to `urls` keeps the click and cache invariants. */
  lemma InsertKeepsClicksAndCache(clicks: seq<Click>, cache: map<string, CacheEntry>, urls: seq<UrlRow>, row: UrlRow)
    requires WellFormedClicks(clicks, urls) && CacheAgrees(cache, urls)
    ensures WellFormedClicks(clicks, urls + [row]) && CacheAgrees(cache, urls + [row])
  {
    var t := urls + [row];
    forall i | 0 <= i < |clicks| ensures WellFormedClick(clicks[i], i + 1, t) {
      assert WellFormedClick(clicks[i], i + 1, urls);
      assert t[clicks[i].urlId - 1] == urls[clicks[i].urlId - 1];
    }
  }

  /** Recording a well-formed click with the next id keeps the click invariant. */
  lemma ClickKeepsWellFormed(clicks: seq<Click>, urls: seq<UrlRow>, c: Click)
    requires WellFormedClicks(clicks, urls)
    requires WellFormedClick(c, |clicks| + 1, urls)
    ensures WellFormedClicks(clicks + [c], urls)
  {
    var t := clicks + [c];
    forall i | 0 <= i < |t| ensures WellFormedClick(t[i], i + 1, urls) {
      if i < |clicks| {
        assert t[i] == clicks[i];
      }
    }
  }

  /** Recording a click of a stored row keeps the state valid. */
  lemma ClickKeepsValid(urls: seq<UrlRow>, clicks: seq<Click>, cache: map<string, CacheEntry>, row: UrlRow, c: Click)
    requires ValidState(urls, clicks, cache)
    requires row in urls
    requires c.id == |clicks| + 1 && c.urlId == row.id && KeptByAnonymizeIp(c.ipAddress)
    ensures ValidState(urls, clicks + [c], cache)
  {
    RowAtId(urls, row);
    assert WellFormedClick(c, |clicks| + 1, urls);
    ClickKeepsWellFormed(clicks, urls, c);
  }

  /** Caching a stored row under the key of its own code keeps the cache invariant. */
  lemma RefillKeepsAgreement(cache: map<string, CacheEntry>, urls: seq<UrlRow>, row: UrlRow, expiresAt: int)
    requires CacheAgrees(cache, urls) && row in urls
    ensures CacheAgrees(cache[CacheKey(row.shortCode) := CacheEntry(row, expiresAt)], urls)
  {
  }

  // ---------------------------------------------------------------- requests and answers

  datatype CreateRequest = CreateRequest(
    originalUrl: string,
    customCode: Option<string>,
    expiresAt: Option<int>,
    preview: Option<Preview>,
    utmParams: Option<seq<UtmParam>>)

  /** 200 with the short URL, 400, 409 or 500. */
  datatype CreateOutcome = Created(shortUrl: string, expiresAt: Option<int>) | InvalidUrl | DuplicateCode | CreateFailed

  /** 302 to the target, 404, 410 or 500. */
  datatype ResolveOutcome = Redirect(target: string) | NotFound | Expired | ServerError

  /** 200 with a body, 404 or 500. */
  datatype Reply<T> = Answer(body: T) | UnknownCode | QueryFailed

  datatype AnalyticsReport = AnalyticsReport(
    shortCode: string,
    originalUrl: string,
    expiresAt: Option<int>,
    totalClicks: nat,
    recentClicks: seq<Click>)

  datatype PreviewReport = PreviewReport(shortCode: string, originalUrl: string, preview: Option<Preview>)

  /** Which calls of one redirect request fail: the cache read, the store read, the cache write, the click insert. */
  datatype ResolveFaults = ResolveFaults(cacheGet: bool, storeRead: bool, cacheSet: bool, clickInsert: bool)

  /** What the cache and store steps of a redirect give: the row, a 404, or a failure. */
  datatype Lookup = Found(row: UrlRow) | Missing | LookupFailed

  /** The cache and store steps of a redirect end without a failure. */
  predicate LookupReached(cache: map<string, CacheEntry>, urls: seq<UrlRow>, code: string, now: int, faults: ResolveFaults) {
    && !faults.cacheGet
    && (CachedRow(cache, code, now).Some? || (!faults.storeRead && (FindByCode(urls, code).None? || !faults.cacheSet)))
  }

  /** A redirect writes the stored row into the cache: on a cache miss, for a code the store has, when the write succeeds. */
  predicate Refills(cache: map<string, CacheEntry>, urls: seq<UrlRow>, code: string, now: int, faults: ResolveFaults) {
    && !faults.cacheGet && CachedRow(cache, code, now).None?
    && !faults.storeRead && FindByCode(urls, code).Some? && !faults.cacheSet
  }

  /** The cache after the lookup steps of a redirect: the stored row written back for an hour when `Refills` holds. */
  function CacheAfterLookUp(cache: map<string, CacheEntry>, urls: seq<UrlRow>, code: string, now: int, faults: ResolveFaults)
    : (r: map<string, CacheEntry>)
    ensures Refills(cache, urls, code, now, faults) ==>
      r == cache[CacheKey(code) := CacheEntry(FindByCode(urls, code).value, now + CacheTtlMillis)]
    ensures !Refills(cache, urls, code, now, faults) ==> r == cache
  {
    if Refills(cache, urls, code, now, faults)
    then cache[CacheKey(code) := CacheEntry(FindByCode(urls, code).value, now + CacheTtlMillis)]
    else cache
  }

  /** The row a successful create inserts: the request's fields, with no UTM parameters stored as `[]`. */
  function NewUrlRow(id: nat, req: CreateRequest, code: string): (r: UrlRow)
    ensures r.id == id && r.shortCode == code && r.originalUrl == req.originalUrl
    ensures r.expiresAt == req.expiresAt && r.preview == req.preview
    ensures r.utmParameters.Some?
    ensures r.utmParameters.value == [] <==> req.utmParams.None? || req.utmParams == Some([])
    ensures req.utmParams.Some? ==> r.utmParameters == req.utmParams
  {
    UrlRow(id, req.originalUrl, code, req.expiresAt, Some(req.utmParams.GetOr([])), req.preview)
  }

  // ---------------------------------------------------------------- the server

  class ShortLinkService {
    /** `new URL`, `searchParams` and `toString`. */
    const lib: UrlLibrary
    /** The base of every short URL. */
    const baseUrl: string
    /** The `urls` table. */
    var urls: seq<UrlRow>
    /** The `clicks` table. */
    var clicks: seq<Click>
    /** Redis: key to cached row and expiry. */
    var cache: map<string, CacheEntry>

    ghost predicate Valid()
      reads this
    {
      ValidState(urls, clicks, cache)
    }

    /** A server over empty tables and an empty cache. */
    constructor (lib: UrlLibrary, envBaseUrl: Option<string>)
      ensures Valid()
      ensures this.lib == lib && baseUrl == BaseUrl(envBaseUrl)
      ensures urls == [] && clicks == [] && cache == map[]
    {
      this.lib := lib;
      baseUrl := BaseUrl(envBaseUrl);
      urls, clicks, cache := [], [], map[];
    }

    /**
     * `POST /api/shorten`. `generated` is what `nanoid(8)` returns; `insertFails` says whether the
     * insert or the commit fails for a reason other than the rules of the `short_code` column
     * (a lost connection, an unreadable `expiresAt`).
     */
    method Create(req: CreateRequest, generated: string, insertFails: bool) returns (out: CreateOutcome)
      requires Valid()
      requires IsGeneratedCode(generated)
      modifies this
      ensures Valid()
      ensures cache == old(cache) && clicks == old(clicks)
      ensures var stored := VarcharAssign(ChosenCode(req.customCode, generated), ShortCodeWidth);
        && (!lib.IsValidUrl(req.originalUrl) ==> out == InvalidUrl)
        && (lib.IsValidUrl(req.originalUrl) && (insertFails || stored.None?) ==> out == CreateFailed)
        && (lib.IsValidUrl(req.originalUrl) && !insertFails && stored.Some? ==>
              if FindByCode(old(urls), stored.value).Some? then out == DuplicateCode
              else out == Created(ShortUrl(baseUrl, stored.value), req.expiresAt))
        && urls == if out.Created? then old(urls) + [NewUrlRow(|old(urls)| + 1, req, stored.value)] else old(urls)
      ensures out.Created? ==> ClicksOf(clicks, |urls|) == []
    {
      if !lib.IsValidUrl(req.originalUrl) {
        return InvalidUrl;
      }
      var code := ChosenCode(req.customCode, generated);
      var stored := VarcharAssign(code, ShortCodeWidth);
      if insertFails || stored.None? {
        return CreateFailed;
      }
      if FindByCode(urls, stored.value).Some? {
        return DuplicateCode;
      }
      ChosenCodeCases(req.customCode, generated);
      InsertRow(NewUrlRow(|urls| + 1, req, stored.value));
      out := Created(ShortUrl(baseUrl, stored.value), req.expiresAt);
    }

    /** Lines 62-70: the insert and commit of a row with the next id and an unused code that fits the column. */
    method InsertRow(row: UrlRow)
      requires Valid()
      requires row.id == |urls| + 1 && 0 < |row.shortCode| <= ShortCodeWidth
      requires FindByCode(urls, row.shortCode).None?
      modifies this
      ensures Valid()
      ensures urls == old(urls) + [row] && clicks == old(clicks) && cache == old(cache)
      ensures ClicksOf(clicks, row.id) == []
    {
      NoClicksForNewId(clicks, urls);
      InsertKeepsWellFormed(urls, row);
      InsertKeepsClicksAndCache(clicks, cache, urls, row);
      urls := urls + [row];
    }

    /**
     * Lines 104-122 of the redirect handler: the cache first; on a miss the store, and a row the
     * store has goes into the cache for an hour. Whatever the source, the row is the one the store
     * holds for `code`.
     */
    method LookUp(code: string, now: int, faults: ResolveFaults) returns (r: Lookup)
      requires Valid()
      modifies this
      ensures Valid()
      ensures urls == old(urls) && clicks == old(clicks)
      ensures cache == CacheAfterLookUp(old(cache), urls, code, now, faults)
      ensures r.LookupFailed? <==> !LookupReached(old(cache), urls, code, now, faults)
      ensures r.Missing? <==> LookupReached(old(cache), urls, code, now, faults) && FindByCode(urls, code).None?
      ensures r.Found? ==> FindByCode(urls, code) == Some(r.row)
    {
      if faults.cacheGet {
        return LookupFailed;
      }
      var cached := CachedRow(cache, code, now);
      if cached.Some? {
        CachedRowIsStored(cache, urls, code, now);
        return Found(cached.value);
      }
      if faults.storeRead {
        return LookupFailed;
      }
      var found := FindByCode(urls, code);
      if found.None? {
        return Missing;
      }
      if faults.cacheSet {
        return LookupFailed;
      }
      RefillKeepsAgreement(cache, urls, found.value, now + CacheTtlMillis);
      cache := cache[CacheKey(code) := CacheEntry(found.value, now + CacheTtlMillis)];
      r := Found(found.value);
    }

    /**
     * `GET /:shortCode` at server time `now`; `clickedAt` is the database's time at the click insert.
     * The store is the truth: `FindByCode(urls, code)` decides between 404, 410 and a redirect,
     * whether the row came from the cache or not; the cache only decides which failures can strike.
     * Only a redirect records a click.
     */
    method Resolve(code: string, client: ClientInfo, now: int, clickedAt: int, faults: ResolveFaults)
      returns (out: ResolveOutcome)
      requires Valid()
      modifies this
      ensures Valid()
      ensures urls == old(urls)
      ensures cache == CacheAfterLookUp(old(cache), urls, code, now, faults)
      ensures !LookupReached(old(cache), urls, code, now, faults) ==> out == ServerError
      ensures var stored := FindByCode(urls, code);
        LookupReached(old(cache), urls, code, now, faults) ==>
          && (stored.None? ==> out == NotFound)
          && (stored.Some? && IsExpired(stored.value, now) ==> out == Expired)
          && (stored.Some? && !IsExpired(stored.value, now) ==>
                out == if faults.clickInsert || NewClick(|old(clicks)| + 1, stored.value.id, client, clickedAt).None?
                       then ServerError else Redirect(RedirectTarget(lib, stored.value)))
      ensures out.Redirect? ==>
        clicks == old(clicks) + [NewClick(|old(clicks)| + 1, FindByCode(urls, code).value.id, client, clickedAt).value]
      ensures !out.Redirect? ==> clicks == old(clicks)
    {
      ghost var before := clicks;
      var found := LookUp(code, now, faults);
      assert clicks == before;
      match found
      case LookupFailed =>
        return ServerError;
      case Missing =>
        return NotFound;
      case Found(row) =>
        if IsExpired(row, now) {
          return Expired;
        }
        var target := BuildRedirect(lib, row);
        var recorded := RecordClick(row, client, clickedAt, faults.clickInsert);
        out := if recorded then Redirect(target) else ServerError;
    }

    /** Lines 143-148: the click insert for a stored row at database time `clickedAt`; `false` is the insert error. */
    method RecordClick(row: UrlRow, client: ClientInfo, clickedAt: int, insertFails: bool) returns (recorded: bool)
      requires Valid()
      requires row in urls
      modifies this
      ensures Valid()
      ensures urls == old(urls) && cache == old(cache)
      ensures recorded <==> !insertFails && NewClick(|old(clicks)| + 1, row.id, client, clickedAt).Some?
      ensures clicks == if recorded then old(clicks) + [NewClick(|old(clicks)| + 1, row.id, client, clickedAt).value]
        else old(clicks)
    {
      var click := NewClick(|clicks| + 1, row.id, client, clickedAt);
      if insertFails || click.None? {
        return false;
      }
      ClickKeepsValid(urls, clicks, cache, row, click.value);
      clicks := clicks + [click.value];
      recorded := true;
    }

    /**
     * Two redirect requests from the same client for the same code at the same server time, with nothing
     * failing and nothing created in between, get the same answer, whatever the first one did to the cache.
     */
    method ResolveTwice(code: string, client: ClientInfo, now: int, clickedAtA: int, clickedAtB: int)
      returns (a: ResolveOutcome, b: ResolveOutcome)
      requires Valid()
      modifies this
      ensures Valid()
      ensures a == b
      ensures urls == old(urls)
      ensures |clicks| == |old(clicks)| + (if a.Redirect? then 2 else 0)
    {
      var noFaults := ResolveFaults(false, false, false, false);
      a := Resolve(code, client, now, clickedAtA, noFaults);
      b := Resolve(code, client, now, clickedAtB, noFaults);
    }

    /**
     * A successful create followed by what the client does with the answer: the code taken back
     * from the last segment of `shortUrl`. That code finds the new row.
     */
    method CreateAndReadBack(req: CreateRequest, generated: string) returns (created: CreateOutcome, asked: string)
      requires Valid()
      requires IsGeneratedCode(generated) && lib.IsValidUrl(req.originalUrl)
      requires var code := ChosenCode(req.customCode, generated);
        '/' !in code && |code| <= ShortCodeWidth && FindByCode(urls, code).None?
      modifies this
      ensures Valid() && clicks == old(clicks) && cache == old(cache)
      ensures var code := ChosenCode(req.customCode, generated);
        var row := NewUrlRow(|old(urls)| + 1, req, code);
        && created == Created(ShortUrl(baseUrl, code), req.expiresAt)
        && asked == code
        && urls == old(urls) + [row]
        && FindByCode(urls, asked) == Some(row)
        && ClicksOf(clicks, row.id) == []
    {
      var code := ChosenCode(req.customCode, generated);
      ChosenCodeCases(req.customCode, generated);
      created := Create(req, generated, false);
      var row := NewUrlRow(|old(urls)| + 1, req, code);
      assert urls == old(urls) + [row];
      asked := LastSegment(created.shortUrl);
      ShortUrlRoundTrip(baseUrl, code);
      FindByCodeUnique(urls, row);
    }

    /**
     * A link created and then followed the way the client does: a fault-free redirect request for
     * the code read back from `shortUrl` sends the client to the original URL with the link's UTM
     * parameters appended, and records one click.
     */
    method CreateThenResolve(req: CreateRequest, generated: string, client: ClientInfo, now: int, clickedAt: int)
      returns (created: CreateOutcome, out: ResolveOutcome)
      requires Valid()
      requires IsGeneratedCode(generated) && lib.IsValidUrl(req.originalUrl)
      requires var code := ChosenCode(req.customCode, generated);
        '/' !in code && |code| <= ShortCodeWidth && FindByCode(urls, code).None?
      requires req.expiresAt.None? || now <= req.expiresAt.value
      requires HeadersFit(client)
      modifies this
      ensures Valid()
      ensures var code := ChosenCode(req.customCode, generated);
        && created == Created(ShortUrl(baseUrl, code), req.expiresAt)
        && out == Redirect(RedirectTarget(lib, NewUrlRow(|old(urls)| + 1, req, code)))
      ensures |clicks| == |old(clicks)| + 1
    {
      var asked;
      created, asked := CreateAndReadBack(req, generated);
      out := Resolve(asked, client, now, clickedAt, ResolveFaults(false, false, false, false));
    }

    /**
     * `|clickTimes|` fault-free redirect requests for a live link, the `i`-th recorded at database
     * time `clickTimes[i]`: each one adds one click to that link.
     */
    method ResolveRepeatedly(code: string, row: UrlRow, client: ClientInfo, now: int, clickTimes: seq<int>)
      requires Valid()
      requires FindByCode(urls, code) == Some(row) && !IsExpired(row, now) && HeadersFit(client)
      modifies this
      ensures Valid() && urls == old(urls)
      ensures |ClicksOf(clicks, row.id)| == |ClicksOf(old(clicks), row.id)| + |clickTimes|
    {
      var i := 0;
      while i < |clickTimes|
        invariant 0 <= i <= |clickTimes|
        invariant Valid() && urls == old(urls)
        invariant |ClicksOf(clicks, row.id)| == |ClicksOf(old(clicks), row.id)| + i
      {
        ghost var before := clicks;
        var out := Resolve(code, client, now, clickTimes[i], ResolveFaults(false, false, false, false));
        ClicksOfAppend(before, clicks[|before|], row.id);
        assert clicks == before + [clicks[|before|]];
        i := i + 1;
      }
    }

    /**
     * A link created and then followed by `|clickTimes|` fault-free redirect requests: its
     * analytics count exactly those clicks and list `min(|clickTimes|, 10)` of them.
     */
    method CreateThenCount(req: CreateRequest, generated: string, client: ClientInfo, now: int, clickTimes: seq<int>)
      returns (report: Reply<AnalyticsReport>)
      requires Valid()
      requires IsGeneratedCode(generated) && lib.IsValidUrl(req.originalUrl)
      requires var code := ChosenCode(req.customCode, generated);
        '/' !in code && |code| <= ShortCodeWidth && FindByCode(urls, code).None?
      requires req.expiresAt.None? || now <= req.expiresAt.value
      requires HeadersFit(client)
      modifies this
      ensures Valid()
      ensures report.Answer?
      ensures report.body.totalClicks == |clickTimes|
      ensures |report.body.recentClicks| == Min(|clickTimes|, RecentLimit)
    {
      var id := |urls| + 1;
      var created, asked := CreateAndReadBack(req, generated);
      var row := NewUrlRow(id, req, asked);
      ResolveRepeatedly(asked, row, client, now, clickTimes);
      report := Analytics(asked, false);
    }

    /** `GET /api/analytics/:shortCode`; `readFails` says whether the store fails. Reads only the store. */
    method Analytics(code: string, readFails: bool) returns (out: Reply<AnalyticsReport>)
      ensures readFails ==> out == QueryFailed
      ensures !readFails && FindByCode(urls, code).None? ==> out == UnknownCode
      ensures var found := FindByCode(urls, code);
        !readFails && found.Some? ==>
          && out.Answer?
          && out.body.shortCode == code
          && out.body.originalUrl == found.value.originalUrl
          && out.body.expiresAt == found.value.expiresAt
          && out.body.totalClicks == |ClicksOf(clicks, found.value.id)|
          && IsRecentWindow(out.body.recentClicks, ClicksOf(clicks, found.value.id), RecentLimit)
    {
      if readFails {
        return QueryFailed;
      }
      var found := FindByCode(urls, code);
      if found.None? {
        return UnknownCode;
      }
      var row := found.value;
      var total := |ClicksOf(clicks, row.id)|;
      var recent := RecentClicks(clicks, row.id);
      RecentClicksWindow(clicks, row.id);
      out := Answer(AnalyticsReport(code, row.originalUrl, row.expiresAt, total, recent));
    }

    /** `GET /api/preview/:shortCode`; `readFails` says whether the store fails. Reads only the store. */
    method Preview(code: string, readFails: bool) returns (out: Reply<PreviewReport>)
      ensures readFails ==> out == QueryFailed
      ensures !readFails && FindByCode(urls, code).None? ==> out == UnknownCode
      ensures var found := FindByCode(urls, code);
        !readFails && found.Some? ==>
          out == Answer(PreviewReport(code, found.value.originalUrl, found.value.preview))
    {
      if readFails {
        return QueryFailed;
      }
      var found := FindByCode(urls, code);
      if found.None? {
        return UnknownCode;
      }
      var preview: Option<Preview> := None;
      if found.value.preview.Some? {
        preview := found.value.preview;
      }
      out := Answer(PreviewReport(code, found.value.originalUrl, preview));
    }
  }
}
