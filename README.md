# URL shortener: short-link engine and slug clean-up

This project models the core of a URL shortener in Dafny and proves properties of the model.

The server keeps two PostgreSQL tables, `urls` and `clicks`, and a Redis cache in front of `urls`.
It answers four requests:

- `POST /api/shorten` creates a short link. It validates the URL and uses the custom code if one is given, otherwise a generated `nanoid(8)` code. It answers 200 with the short URL, 400 for an invalid URL, 409 for a code already taken and 500 for any other failure.
- `GET /:shortCode` looks the code up, cache first. It answers 404 for an unknown code and 410 for an expired one. Otherwise it appends the link's UTM parameters to the target, records one click with the client's address as `anonymizeIp` gives it, and redirects.
- `GET /api/analytics/:shortCode` reports the number of clicks and the ten most recent clicks.
- `GET /api/preview/:shortCode` reports the stored link preview.

The client turns generated texts into short-code suggestions with a chain of string steps: trim, lower-case, dash, collapse, strip, cut to 30 characters.

Files:

- `wrappers.dfy` (`Wrappers`): the `Option` type.
- `ip_address.dfy` (`IpAddress`): `anonymizeIp`.
- `records.dfy` (`Records`): the table rows and the table invariants. It also holds the queries: lookup by code, the clicks of a link, and the newest-first window of the recent-clicks query. It models PostgreSQL's assignment to a `varchar(n)` column.
- `web_url.dfy` (`WebUrl`): the WHATWG URL parser and serializer, kept abstract. A parsed URL is the text before its query, a list of query pairs and a fragment. `searchParams.append` adds a pair at the end of the list.
- `redirect.dfy` (`Redirect`): the redirect target and the loop that appends UTM parameters.
- `service.dfy` (`Service`): the server as a class `ShortLinkService`. Its fields are `urls`, `clicks` and `cache`, and it has one method per handler. `Valid()` is the state invariant:
  - ids are serial and codes are unique and at most 8 characters;
  - every click refers to a stored link and carries an address that `anonymizeIp` leaves unchanged;
  - every cache entry holds, under its own code's key, a row that is in the store.
- `slug.dfy` (`Slug`): the suggestion clean-up as pure functions.

The outside world is made explicit:

- There are two clocks, both in milliseconds. `now` is the server's clock, which the expiry test uses; it also stands for Redis's clock in the cache lifetime. `clickedAt` is the database's clock at the click insert, which fills `clicked_at` through the column default. Nothing relates the two.
- The code `nanoid(8)` would return is a parameter. It must be 8 characters of nanoid's alphabet.
- Each call into Redis or PostgreSQL that can fail has a boolean saying whether it fails in the request (`ResolveFaults`, `insertFails`, `readFails`).
- The base URL is the `BASE_URL` environment value given to the constructor.
- The URL library is a pair of functions given to the constructor.

Behaviours of the handlers that the model keeps:

- A failing cache read in the redirect handler gives 500, because `redis.get` sits inside the handler's `try`. A failing cache write also gives 500.
- The click insert is awaited before the redirect. A failed insert gives 500 and no redirect.
- A successful create answers 200 through `res.json`. It returns `shortUrl` and `expiresAt` only.
- The recent-clicks query orders by `clicked_at` only, with no tie-break. `IsRecentWindow` admits every order of equal times.
- A custom code longer than the 8-character column is a PostgreSQL error, so it answers 500. Only excess trailing spaces are cut silently.
- The cache is written with the row before the expiry test. An expired row is therefore cached too.
- Only a final `.<digits>` of the address is zeroed, which covers IPv4 and IPv4-mapped addresses. An IPv6 address has no such suffix and is stored whole.
- The click's `clicked_at` is taken by the database after the expiry test, so a stored click can carry a time after its link's expiry.
- Analytics and preview answer for expired links as well.
- A custom code containing `/` is stored as given, but the client's `split("/").pop()` of the short URL then reads back only its last part. `CreateAndReadBack` and the members built on it need a code without `/`.

## Model

| member | source | states |
|---|---|---|
| IpAddress.AnonymizeIp | server/src/rest-api.ts:28 | the result is the address itself, or the address cut at one of its dots, that dot kept and `0` put in place of what followed |
| IpAddress.AnonymizeIpMatch | server/src/rest-api.ts:28 | when the address ends with a dot and one or more digits, everything before that dot is kept and the digits become `0` |
| IpAddress.AnonymizeIpNoMatch | server/src/rest-api.ts:28 | an address with no final dot-and-digits (such as `::1`) comes back unchanged |
| IpAddress.AnonymizeIpIdempotent | server/src/rest-api.ts:28 | anonymising the result of `anonymizeIp` changes nothing |
| IpAddress.AnonymizeIpExamples | server/src/rest-api.ts:145 | `203.0.113.42` becomes `203.0.113.0`, the IPv4-mapped form likewise, `::1` and `2001:db8::42` are kept whole, the fallback `0.0.0.0` is left unchanged |
| Records.VarcharAssign | server/src/db/migrations/20250529032016_fix-db.js:11 | a text that fits is stored as is; a longer one is an error exactly when a non-space lies past the width; otherwise it is cut to the width |
| Records.FindByCode | server/src/rest-api.ts:107-109 | the first-row lookup finds a row with that code, or none exactly when no row has the code |
| Records.FindByCodeUnique | server/src/db/migrations/20250529032016_fix-db.js:11 | under the unique constraint, looking up a row's code gives that very row |
| Records.RowAtId | server/src/db/migrations/20250529032016_fix-db.js:9 | with serial ids, a stored row sits at the position its id names |
| Records.InsertKeepsWellFormed | server/src/db/migrations/20250529032016_fix-db.js:9-11 | inserting a row with the next id and an unused code of 1 to 8 characters keeps ids serial and codes unique |
| Records.ClicksOf | server/src/rest-api.ts:174-177 | the clicks of one link in table order, never more rows than the table has (membership in `ClicksOfMembers`) |
| Records.ClicksOfMembers | server/src/rest-api.ts:174-177 | the clicks of a link are exactly the click rows with that `url_id` |
| Records.ClicksOfNone | server/src/rest-api.ts:174-177 | a link no click refers to has no clicks |
| Records.ClicksOfAppend | server/src/rest-api.ts:143-148 | a new click row adds itself to the clicks of its own link and changes no other link's clicks |
| Records.InsertByTime | server/src/rest-api.ts:181 | inserting into a newest-first list keeps it newest-first and adds exactly that row |
| Records.SortNewestFirst | server/src/rest-api.ts:181 | the result is newest-first and a permutation of the input |
| Records.SortedPrefixIsNewest | server/src/rest-api.ts:181-182 | no row past the first `k` of a newest-first list is newer than a row among them |
| Records.SortedPrefixWindow | server/src/rest-api.ts:179-182 | the first `min(total, n)` rows of any newest-first arrangement are an answer of `order by clicked_at desc limit n` |
| Records.RecentClicks | server/src/rest-api.ts:179-182 | the link's clicks sorted newest first and cut to the first ten: exactly `min(total, 10)` rows |
| Records.RecentClicksWindow | server/src/rest-api.ts:179-182 | the recent clicks are `min(total, 10)` of the link's clicks, newest first, with no omitted click newer than a returned one |
| WebUrl.Append | server/src/rest-api.ts:133 | appending a query pair puts it at the end of the query and changes nothing else |
| Redirect.UtmPairs | server/src/rest-api.ts:132-134 | each UTM parameter becomes one query pair, in stored order |
| Redirect.RedirectTarget | server/src/rest-api.ts:126-141 | the original URL when the row has no parameters, an empty list, or a URL that does not parse; otherwise the parsed URL with one query pair per parameter appended, serialized |
| Redirect.AppendUtm | server/src/rest-api.ts:131-135 | the loop keeps the URL's existing query and appends every parameter in order, duplicates kept |
| Redirect.BuildRedirect | server/src/rest-api.ts:126-141 | the target is the original URL when parameters are absent or empty or the URL does not parse; otherwise it is the URL with the parameters appended, serialized |
| Service.OrElse | server/src/rest-api.ts:146 | JavaScript's `or` on a text: an empty or absent text gives the fallback, any other the text itself |
| Service.NonEmpty | server/src/rest-api.ts:147 | a header or null: absent exactly when the text is absent or empty |
| Service.ChosenCodeCases | server/src/rest-api.ts:64 | the code tried is the custom code when that is a non-empty text, otherwise the generated one; it is never empty |
| Service.IsExpired | server/src/rest-api.ts:120 | a link without an expiry never expires; one with an expiry is expired exactly when that time is before `now` |
| Service.ExpiryIsFinal | server/src/rest-api.ts:120 | once expired a link stays expired; it is still live at its expiry time and expired one millisecond later |
| Service.NewUrlRow | server/src/rest-api.ts:62-68 | the inserted row carries the next id, the chosen code and the request's URL, expiry and preview; absent UTM parameters are stored as `[]` and given ones as they are |
| Service.CacheKey | server/src/rest-api.ts:102 | the key is `shorturl:` followed by the code |
| Service.CacheKeyInjective | server/src/rest-api.ts:102 | distinct codes have distinct keys |
| Service.CachedRow | server/src/rest-api.ts:103-105 | a cache read hits exactly when the key is present and its one-hour lifetime has not run out |
| Service.LastSegment | client/src/pages/MyLinks.tsx:50 | `split("/").pop()` gives a suffix with no `/`, preceded by `/` when it is not the whole text |
| Service.ShortUrlRoundTrip | server/src/rest-api.ts:72-76 | the last `/`-segment of the short URL is the code, whenever the code has no `/` |
| Service.NewClick | server/src/rest-api.ts:143-148 | the click row exists exactly when both headers fit their 255-character columns; it carries the link id, the database's time at the insert and an address that `anonymizeIp` leaves unchanged |
| Service.NewClickSpec | server/src/rest-api.ts:145-147 | the row holds `anonymizeIp` of the address or of `0.0.0.0`, the user agent or `Unknown`, and the referrer or null, each header as its 255-character column keeps it |
| Service.NewClickShortHeaders | server/src/rest-api.ts:145-147 | headers of at most 255 characters are stored as they came, and a missing address is stored as `0.0.0.0` |
| Service.CachedRowIsStored | server/src/rest-api.ts:103-113 | a cache hit gives the row the store holds for that code |
| Service.NoClicksForNewId | server/src/rest-api.ts:62-70 | a newly created link starts with no clicks |
| Service.InsertKeepsClicksAndCache | server/src/rest-api.ts:62-70 | inserting a link keeps every click and cache entry valid |
| Service.ClickKeepsWellFormed | server/src/rest-api.ts:143-148 | recording a click for a stored link with the next id keeps the click table valid |
| Service.ClickKeepsValid | server/src/rest-api.ts:143-148 | recording a click of a stored row with the next id and an address that `anonymizeIp` leaves unchanged keeps tables and cache valid |
| Service.RefillKeepsAgreement | server/src/rest-api.ts:110-112 | writing a stored row under its own code's key keeps the cache in agreement with the store |
| Service.ShortLinkService.constructor | server/src/rest-api.ts:73 | the server starts valid, with empty tables, an empty cache, and `BASE_URL` or `http://localhost:8000` as base |
| Service.ShortLinkService.Create | server/src/rest-api.ts:44-94 | 400 for an unparsable URL and 500 for a failed insert or a code too long for the column, both with no row added. 409 for a code already stored, with no row added. Otherwise exactly one row: the chosen code, the UTM parameters or `[]`, the given preview or null. The answer is the base plus `/` plus the code. The new link has no clicks, the cache and clicks are untouched, and the invariant holds |
| Service.ShortLinkService.InsertRow | server/src/rest-api.ts:62-70 | a row with the next id and an unused code that fits the column is appended; clicks and cache stay as they were, the new link has no clicks, and the invariant holds |
| Service.ShortLinkService.LookUp | server/src/rest-api.ts:100-113 | the cache first. On a miss the store, and a row found there is written under `shorturl:<code>` for one hour. The row found is always the store's row for the code. A cache or store failure is reported as a failure |
| Service.ShortLinkService.Resolve | server/src/rest-api.ts:97-155 | any cache, store or click-insert failure gives 500. An unknown code gives 404 and an expired one 410, both with no click. Otherwise exactly one click row is added and the answer redirects to the target of `BuildRedirect`. `urls` never changes, and the cache changes only by the refill |
| Service.ShortLinkService.RecordClick | server/src/rest-api.ts:143-148 | the click row, stamped with the database's time, is appended exactly when the insert succeeds and the headers fit; otherwise the table is unchanged |
| Service.ShortLinkService.ResolveTwice | server/src/rest-api.ts:126-141 | two fault-free redirect requests from the same client at the same server time get the same answer, so the same target, whenever the database stamps the clicks |
| Service.ShortLinkService.CreateAndReadBack | client/src/pages/MyLinks.tsx:50 | after a successful create, the code the client takes back from `shortUrl` is the chosen code and finds the new row, which has no clicks |
| Service.ShortLinkService.CreateThenResolve | server/src/rest-api.ts:44-155 | a link created with an unused code without `/`, then followed by a fault-free redirect before its expiry, redirects to the new row's target: its URL with the UTM parameters appended; exactly one click is recorded |
| Service.ShortLinkService.ResolveRepeatedly | server/src/rest-api.ts:143-148 | each of `k` fault-free redirects of a live link adds one click to that link |
| Service.ShortLinkService.CreateThenCount | server/src/rest-api.ts:158-197 | after a create and `k` fault-free redirects, the analytics answer with `totalClicks` equal to `k` and `min(k, 10)` recent clicks |
| Service.ShortLinkService.Analytics | server/src/rest-api.ts:158-197 | 500 on a store failure and 404 for an unknown code. Otherwise the link's URL and expiry, `totalClicks` equal to the number of its click rows, and a recent-clicks window as in `RecentClicksWindow`. Reads only, and never the cache |
| Service.ShortLinkService.Preview | server/src/rest-api.ts:200-235 | 500 on a store failure and 404 for an unknown code. Otherwise the stored preview, or null when there is none. Reads only, and never the cache |
| Slug.TrimStartSpec | client/src/hooks/useUrlSuggestions.ts:69 | trimming the start removes exactly the leading JavaScript white space |
| Slug.TrimEndSpec | client/src/hooks/useUrlSuggestions.ts:69 | trimming the end removes exactly the trailing JavaScript white space |
| Slug.ToLowerAsciiSpec | client/src/hooks/useUrlSuggestions.ts:70 | maps `A`-`Z` to `a`-`z` character by character and keeps every other character |
| Slug.DashNonAlnumSpec | client/src/hooks/useUrlSuggestions.ts:71 | every character outside `[a-z0-9]` becomes `-`, the rest are kept, so only `[a-z0-9-]` remains |
| Slug.Clean | client/src/hooks/useUrlSuggestions.ts:68-74 | the whole chain on one generated text; the suggestion has at most 30 characters |
| Slug.CollapseDashesSqueezes | client/src/hooks/useUrlSuggestions.ts:72 | collapsing equals `SqueezeRuns`, which replaces each maximal run of dashes by exactly one dash and keeps every other character in order |
| Slug.CollapseLeadingRun | client/src/hooks/useUrlSuggestions.ts:72 | a text starting with a run of dashes collapses to one dash followed by the collapse of what follows the run |
| Slug.CollapseDashesSpec | client/src/hooks/useUrlSuggestions.ts:72 | the result has no `--`, is no longer, keeps the first and last character, and brings in no character outside `[a-z0-9-]` |
| Slug.StripDashesSpec | client/src/hooks/useUrlSuggestions.ts:73 | the result is no longer; on a text without `--` it neither starts nor ends with `-` and still has no `--` |
| Slug.StripDashesEnds | client/src/hooks/useUrlSuggestions.ts:73 | stripping takes off the first character exactly when it is a dash, and then the last character exactly when it is a dash |
| Slug.CutSpec | client/src/hooks/useUrlSuggestions.ts:74 | the result is the prefix of at most 30 characters, the whole text when it is short enough |
| Slug.NormalizeShape | client/src/hooks/useUrlSuggestions.ts:68-73 | before the cut the text is made of `[a-z0-9-]`, has no `--` and has no dash at either end |
| Slug.CleanAll | client/src/hooks/useUrlSuggestions.ts:66-75 | one cleaned suggestion per generated item, in the same order |
| Slug.CleanShape | client/src/hooks/useUrlSuggestions.ts:68-74 | every suggestion is made of `[a-z0-9-]`, has no `--`, does not start with `-`, and has at most 30 characters |
| Slug.CleanShortNoTrailingDash | client/src/hooks/useUrlSuggestions.ts:73-74 | when the text before the cut has at most 30 characters, the suggestion does not end with `-` either |
| Slug.CleanCutsSlug | client/src/hooks/useUrlSuggestions.ts:74 | a well-formed text longer than 30 characters is cut to its first 30 |
| Slug.CleanMayEndWithDash | client/src/hooks/useUrlSuggestions.ts:73-74 | a 31-character well-formed text can give a 30-character suggestion ending with `-` |
| Slug.TrimKeeps | client/src/hooks/useUrlSuggestions.ts:69 | trimming keeps a text without white space at either end |
| Slug.LowerKeeps | client/src/hooks/useUrlSuggestions.ts:70 | lower-casing keeps a text without `A`-`Z` |
| Slug.DashKeeps | client/src/hooks/useUrlSuggestions.ts:71 | dashing keeps a text made of `[a-z0-9-]` |
| Slug.StripKeeps | client/src/hooks/useUrlSuggestions.ts:73 | stripping keeps a text with no dash at either end |
| Slug.CollapseKeeps | client/src/hooks/useUrlSuggestions.ts:72 | collapsing keeps a text without `--` |
| Slug.SlugUnchanged | client/src/hooks/useUrlSuggestions.ts:68-73 | the steps before the cut keep a well-formed text of any length |
| Slug.CleanKeepsSlugs | client/src/hooks/useUrlSuggestions.ts:68-74 | a well-formed text of at most 30 characters is its own suggestion |
| Slug.DashNonAlnumAlnums | client/src/hooks/useUrlSuggestions.ts:71 | dashing keeps the letters and digits in order |
| Slug.CollapseAlnums | client/src/hooks/useUrlSuggestions.ts:72 | collapsing keeps the letters and digits in order |
| Slug.StripAlnums | client/src/hooks/useUrlSuggestions.ts:73 | stripping the end dashes keeps the letters and digits in order |
| Slug.NormalizeAlnums | client/src/hooks/useUrlSuggestions.ts:68-73 | the steps before the cut keep exactly the letters and digits of the trimmed, lower-cased text, in order |
| Slug.CleanKeepsAlnums | client/src/hooks/useUrlSuggestions.ts:68-74 | a suggestion keeps a prefix of the letters and digits of the trimmed, lower-cased text, all of them when the text before the cut has at most 30 characters |
| Slug.CleanAllShape | client/src/hooks/useUrlSuggestions.ts:66-75 | every suggestion of the list has the shape of `CleanShape` |

## Left out

- Express, cors and dotenv wiring, the example root endpoint and `app.listen` (server/src/rest-api.ts:1-23, 30-41, 237-244): process setup and I/O only.
- The redirect itself, the status codes and the literal text of response bodies: the outcomes are datatypes (`CreateOutcome`, `ResolveOutcome`, `Reply`). Logging is left out.
- The internals of nanoid, Redis and PostgreSQL. The generated code is a parameter, and its randomness and the chance of a collision are not modelled. A collision of a generated code is handled like a taken custom code (409).
- `db.transaction()` at server/src/rest-api.ts:59 is awaited outside the `try`. A failure to open the transaction would reject the handler with no answer; the model does not model that failure.
- Service.ShortLinkService.Create: `insertFails` stands for every insert or commit failure other than the `short_code` column's rules, such as an `expiresAt` the timestamp column cannot read. Which inputs cause such failures is not modelled.
- WHATWG URL parsing and serialization (section 4.4 and section 5.2 of the URL Standard) are the abstract functions of `WebUrl.UrlLibrary`. A parser that throws is a parse returning `None`.
- Redis counts the one-hour lifetime of a cache entry on its own clock; here that clock is taken to be the server's `now`.
- The JSON round trip of the cached row (`JSON.stringify` then `JSON.parse`) is taken as the identity.
- The `JSON.stringify` of `utm_parameters` and `preview` into `jsonb` columns is taken as the identity too. The preview is kept as given, and absent stays null.
- Request fields of the wrong JSON type are not modelled: a non-string `customCode`, a non-array `utmParams`, a `preview` that is a falsy non-object. The request datatype admits only the well-typed shapes.
- Concurrency between requests is not modelled; the model is sequential. Serial ids have no gaps: ids consumed by rolled-back inserts are not modelled.
- `created_at` and `updated_at` are never read by a handler. Cascade delete has no handler that deletes, so there is nothing to model.
- The `ip_address` column's 255-character limit is not applied. The address comes from the connection, and such an address is far shorter.
- `toLowerCase` is modelled on ASCII letters only. Other characters that JavaScript lower-cases are kept as they are here. Any such character becomes `-` in the next step anyway, except those whose lower case is an ASCII letter (U+0130 and U+212A).
- The rest of the suggestion hook is not modelled: the text-generation fetch, the debounce timer, the React state setters and the error path. Of the hook only the cleaning chain is modelled.
- The older migrations (server/src/db/migrations/20250528051610_initial-setup.js and server/src/db/migrations/20250528205242_database-adjustments.js) describe tables the handlers never use.
- The React UI and client plumbing are not part of this model, except for the `split("/").pop()` of the link list.
