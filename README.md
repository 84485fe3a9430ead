# Buildo site core, modelled in Dafny

The repository is a Next.js content-management site for a building company (blog, projects, team, contact form, admin editors) together with three Python scripts that migrated its API routes to the Next.js 15 convention of an awaited `params` promise. This project models the self-contained logic inside it and proves what that logic promises:

- **Expiring in-memory stores** (`src/lib/rate-limit.ts`, `src/lib/cache-utils.ts`): the fixed-window `RateLimiter` and the TTL `Cache` are classes whose `store` field is a `map` that `check`, `reset`, `set`, `get`, `has`, `delete`, `clear` and the cleanup loops update in place. Every method is tied to a specification function of the old table (`CheckStep`, `Lookup`, `AfterLookup`, `Put`, `Unexpired`), and the limits, expiry and frame properties are lemmas about those functions.
- **CSRF tokens** (`src/lib/csrf.ts`): `token:timestamp:signature`, generation, verification and the request check. HMAC-SHA256 (RFC 2104 over SHA-256) is a function parameter about which only its 32-byte digest length is known.
- **Route-migration scripts** (`fix_api_routes.py`, `fix_params.py`, `fix_duplicate_params.py`): each regular expression is a match function at the start of a text, with lemmas showing it finds exactly the pattern's matches; `re.sub` and `re.finditer` are left-to-right scans; the scripts' loops are methods proved against specification functions (`FileLoop.Rewritten`, `FileLoop.ChangedCount`). A file system is a map from path to decoded text.
- **String and URL builders**: robots.txt, JSON-LD, sitemap entries and page metadata (`src/lib/seo.ts`), image URLs and `srcset` (`src/lib/image-utils.ts`), upload file names (`src/lib/r2.ts`), slugs and canonical URLs (`src/components/admin/enhanced-blog-editor.tsx`).
- **List logic of routes and forms**: gallery parsing and featured-image defaulting (`src/app/api/admin/projects/route.ts`), related-article scoring and ranking (`src/app/api/blog/related/route.ts`), the tag list (`src/app/api/blog/tags/route.ts`), field reordering and option parsing in the contact-form settings editor, the blog pagination window, the contact-form required-field check, and the tag and specialty editing of the admin editors.

Shared modules: `Wrappers` (the `Option` type used for `null`, `undefined` and missing keys), `Strings` (split, join, search), `JsStrings` (JavaScript `trim`, `\s`, `toLowerCase`/`toUpperCase` on the characters that matter, number formatting, `parseInt`), `PyStrings` (Python `str.isspace` and `strip`), `Json` (JavaScript values and truthiness), `Scan` (`re.finditer`), `Sorting` (the stable `Array.prototype.sort`) and `FileLoop` (the scripts' shared file loop).

The clock (`Date.now()`), randomness (`randomBytes`, `Math.random`), the HMAC, the `CSRF_SECRET` environment variable, request headers and parameters, database query results and the replies of API calls are parameters of the operations that use them.

## Model

| member | source | states |
|---|---|---|
| RateLimit.CheckCases | src/lib/rate-limit.ts:35-63 | with no live entry `check` stores count 1 until `now + windowSeconds·1000` and allows with `limit − 1` left; at or over the limit it refuses with 0 left and leaves the table as it was; otherwise the count rises by one, `resetAt` is kept and `remaining` is `limit` minus the new count |
| RateLimit.CheckFrame | src/lib/rate-limit.ts:32-63 | after `check` the identifier has an entry, and every other identifier's entry (or its absence) is as before |
| RateLimit.CheckKeepsBound | src/lib/rate-limit.ts:35-63 | for `limit ≥ 1`, when no stored count exceeds `limit` before a `check` none does after, and the answer's `remaining` is never negative |
| RateLimit.LiveWindowBound | src/lib/rate-limit.ts:26-64 | over any run of calls inside a live entry's window at most `limit − count` more are allowed |
| RateLimit.AtMostLimitPerWindow | src/lib/rate-limit.ts:26-64 | over any run of calls for one identifier inside the window the first of them opens, at most `limit` are allowed (one when `limit ≤ 0`) |
| RateLimit.ClientIdentifier | src/lib/rate-limit.ts:120-128 | the first comma-separated segment of `x-forwarded-for` when it is not empty, otherwise a non-empty `x-real-ip`, otherwise `unknown` |
| RateLimit.RateLimiter.constructor | src/lib/rate-limit.ts:12-21 | a new limiter has an empty table |
| RateLimit.RateLimiter.Check | src/lib/rate-limit.ts:26-64 | the new table and the answer are those of the specification `CheckStep` of the old table |
| RateLimit.RateLimiter.Reset | src/lib/rate-limit.ts:69-71 | the table loses exactly the identifier's entry |
| RateLimit.RateLimiter.DeleteKeys | src/lib/rate-limit.ts:86 | deleting a list of keys one by one leaves exactly the entries whose key is not listed |
| RateLimit.RateLimiter.Cleanup | src/lib/rate-limit.ts:76-91 | the table keeps exactly the entries with `now ≤ resetAt`, and the number of keys collected for deletion (the count it logs) is the number of entries removed |
| RateLimit.RateLimitRequest | src/lib/rate-limit.ts:133-148 | `rateLimit` is `check` with the defaults 100 and 60 and, when no identifier is given, the client identifier of the headers |
| CacheUtils.Lookup | src/lib/cache-utils.ts:35-49 | `get` answers `null` for a missing or expired key and the stored value otherwise |
| CacheUtils.AfterLookup | src/lib/cache-utils.ts:43-46 | `get` and `has` delete the key's entry when it has expired and change nothing else |
| CacheUtils.SetThenGet | src/lib/cache-utils.ts:27-49 | reading a key at the instant it was set with a time to live of at least 0 gives the value just set, whatever was stored before, and deletes nothing |
| CacheUtils.ExpiredNeverReturned | src/lib/cache-utils.ts:35-49 | a value other than `null` comes only from a live entry, and a lookup never deletes a live entry |
| CacheUtils.PrefixPatternMatches | src/lib/cache-utils.ts:159-166 | the pattern `prefix*` matches exactly the keys that contain `prefix` anywhere, because the regular expression is not anchored |
| CacheUtils.Cache.constructor | src/lib/cache-utils.ts:13-22 | a new cache is empty |
| CacheUtils.Cache.Set | src/lib/cache-utils.ts:27-30 | the key maps to the value until `now + ttlSeconds·1000`, with `ttlSeconds` 3600 when it is omitted, replacing any earlier entry; every other key is as before |
| CacheUtils.Cache.Get | src/lib/cache-utils.ts:35-49 | the answer is `Lookup` of the old table and the new table is `AfterLookup` of it |
| CacheUtils.Cache.Has | src/lib/cache-utils.ts:68-81 | true exactly for a live entry, with the same deletion of an expired entry as `get` |
| CacheUtils.Cache.Delete | src/lib/cache-utils.ts:54-56 | the table loses exactly that key |
| CacheUtils.Cache.Clear | src/lib/cache-utils.ts:61-63 | the table is empty |
| CacheUtils.Cache.Cleanup | src/lib/cache-utils.ts:96-111 | the table keeps exactly the entries that have not expired, each unchanged |
| CacheUtils.GetCached | src/lib/cache-utils.ts:131-153 | the fetcher runs exactly when the cache answers `null`; on a hit the cached value is returned and the table is unchanged, on a miss the fetched value is returned and stored under the key with the given time to live, 3600 seconds when omitted, counted from the clock after the fetch |
| CacheUtils.InvalidateCache | src/lib/cache-utils.ts:158-173 | with a `*` the table loses exactly the keys the pattern matches, `*` read as any run of characters; without one it loses exactly the given key |
| Csrf.Secret | src/lib/csrf.ts:9 | the secret is `CSRF_SECRET` when that is set and not empty, the built-in default otherwise, and never empty |
| Csrf.Hex | src/lib/csrf.ts:16 | hexadecimal encoding gives two lower-case hexadecimal digits per byte |
| Csrf.MaxAge | src/lib/csrf.ts:28 | the maximum age is the given one, and 3600 seconds when the argument is omitted |
| Csrf.GeneratedTokenParts | src/lib/csrf.ts:15-23 | a generated token splits at `:` into exactly the hexadecimal random token, the decimal timestamp and the signature of those two |
| Csrf.VerifyCsrfToken | src/lib/csrf.ts:28-57 | a token is accepted only when its first three `:`-separated parts are all present and non-empty |
| Csrf.VerifyCases | src/lib/csrf.ts:30-53 | a token is refused when a part is missing or empty, when the signature differs from the HMAC of `token:timestamp`, or when it is older than `maxAgeSeconds`; otherwise it is accepted |
| Csrf.GenerateThenVerify | src/lib/csrf.ts:15-57 | a token generated from 32 random bytes verifies, with the same key, at every instant at most `maxAgeSeconds` (3600 when omitted) after it was issued |
| Csrf.UnparsableTimestampNeverExpires | src/lib/csrf.ts:46-51 | a correctly signed token whose timestamp does not parse as a number is accepted at every instant, since the age is then `NaN` |
| Csrf.CsrfProtection | src/lib/csrf.ts:62-87 | `GET`, `HEAD` and `OPTIONS` in any letter case pass; otherwise a missing or empty header gives "CSRF token missing", and a present one passes exactly when `verifyCsrfToken` with its maximum age omitted (so 3600 seconds) accepts it, else "Invalid or expired CSRF token" |
| Csrf.SafeMethodsIgnoreHeader | src/lib/csrf.ts:64-67 | for a safe method in lower, capitalised or upper case the verdict is valid whatever the header, clock and key |
| Csrf.UnsafeMethodsNeedToken | src/lib/csrf.ts:64-77 | `POST`, and `delete` in lower case, are refused with "CSRF token missing" when no token comes with them |
| PromiseWrap.WrapMatchSound | fix_api_routes.py:17 | what the match function finds at the start of a text is a match of `(\{ params \}: \{ params: )(\{[^}]+\})( \})`, its inner `}` being the first after the inner `{` |
| PromiseWrap.WrapMatchIntro | fix_api_routes.py:17 | every match of that pattern at the start of a text is found, with the same inner `}` |
| PromiseWrap.Piece | fix_api_routes.py:18 | the replacement is 12 characters longer than the three groups it replaces: `Promise<` and `>` are added |
| PromiseWrap.PieceChars | fix_api_routes.py:18 | the replacement keeps the head and the inner object type and adds `Promise<` after the head and `>` after the inner `}` |
| PromiseWrap.NoMatchUnchanged | fix_api_routes.py:18 | `re.sub` leaves a text without a match unchanged |
| PromiseWrap.PrefixUnchanged | fix_api_routes.py:18 | text before the first match is copied unchanged |
| PromiseWrap.HeadsApart | fix_api_routes.py:17 | two occurrences of `{ params }: { params: ` are at least 22 characters apart, so matches never overlap |
| PromiseWrap.WrapAllLeavesNoMatch | fix_api_routes.py:17-18 | after the substitution the pattern matches nowhere in the text |
| PromiseWrap.WrapAllIdempotent | fix_api_routes.py:17-18 | running the substitution a second time changes nothing |
| PromiseWrap.WrapExample | fix_api_routes.py:13-18 | `{ params }: { params: { id: string } }` becomes `{ params }: { params: Promise<{ id: string }> }` |
| FixApiRoutes.HandlerMatchSound | fix_api_routes.py:26 | what the handler match function finds at the start of a text is a match of `export async function VERB\([^)]+\{ params \}[^)]*\)\s*\{` |
| FixApiRoutes.HandlerMatchIntro | fix_api_routes.py:26 | every match of the handler pattern at the start of a text is found, with the same end |
| FixApiRoutes.HandlerGap | fix_api_routes.py:27 | `re.finditer` misses no match: no handler match starts at a position outside the spans it returns |
| FixApiRoutes.HandlersInOrder | fix_api_routes.py:27 | the spans are left to right, do not overlap, and each is a match of the handler pattern |
| FixApiRoutes.SearchGroup | fix_api_routes.py:34 | `re.search` finds the leftmost match of `\{ params \}: \{ params: Promise<\{([^}]+)\}>` at or after the start, and finds nothing exactly when there is no match |
| FixApiRoutes.ParamNames | fix_api_routes.py:36-38 | one name per comma-separated entry of the stripped group, in order, each the entry's text before its first `:`, stripped |
| FixApiRoutes.ParamNameClean | fix_api_routes.py:38 | a parameter name holds no `:` and no white space at either end |
| FixApiRoutes.ParamNamesClean | fix_api_routes.py:36-38 | no name holds `,` or `:` or white space at its ends |
| FixApiRoutes.ParamNamesOfEntries | fix_api_routes.py:34-38 | for a group written `{ n1: t1, n2: t2 }` with clean names and types without commas, the names come back in order |
| FixApiRoutes.WrappedGroup | fix_api_routes.py:17-34 | step 2 reads back what step 1 wrote: in a wrapped signature the `Promise<{…}>` pattern matches at its head and its group is the original inner object type |
| FixApiRoutes.Insert | fix_api_routes.py:51 | the line is inserted at the brace: the text before is kept, then the line, then the rest of the old text |
| FixApiRoutes.Process | fix_api_routes.py:31-51 | treating one handler match only adds text, and only after its brace |
| FixApiRoutes.ProcessCases | fix_api_routes.py:34-51 | a signature without the `Promise<{…}>` group, or a brace followed within 200 characters by `await params`, is left alone; otherwise `const { names } = await params;` is inserted after the brace |
| FixApiRoutes.AwaitLineHasAwait | fix_api_routes.py:47-48 | the inserted line holds `await params` right after the names and ` } = ` |
| FixApiRoutes.InsertionGuards | fix_api_routes.py:44-51 | after an insertion whose names take at most 170 characters, the guard of the same brace sees `await params` |
| FixApiRoutes.ProcessTwice | fix_api_routes.py:44-51 | treating the same match twice changes nothing more than treating it once, when the names take at most 170 characters |
| FixApiRoutes.Processed | fix_api_routes.py:29-51 | while the matches are treated from the last to the first, the text up to the brace of every match still to be treated is the original |
| FixApiRoutes.Unshifted | fix_api_routes.py:29 | treating matches in reverse never moves a match that is still to be treated, so its brace is still at the position `finditer` reported |
| FixApiRoutes.FixMatch | fix_api_routes.py:31-51 | the body of the loop for one match computes `Process` of the current text |
| FixApiRoutes.FixVerb | fix_api_routes.py:26-51 | the loop over the matches of one verb, last to first, computes the specification `ProcessVerb` |
| FixApiRoutes.FixRouteFile | fix_api_routes.py:5-58 | the new text is step 1 followed by step 2 for `GET`, `POST`, `PUT`, `DELETE` and `PATCH` in that order, and the file is written exactly when the text changed |
| FixApiRoutes.FixRoutes | fix_api_routes.py:60-69 | every `route.ts` found is replaced by its fixed text when that differs, and the count is the number of files replaced |
| FileLoop.Rewritten | fix_api_routes.py:64-67 | visiting files never adds or removes one |
| FileLoop.Step | fix_api_routes.py:64-67 | one more visit writes the fixed text exactly when it differs, and counts exactly then |
| FileLoop.RewrittenContents | fix_api_routes.py:64-67 | with each path listed once, every visited file holds the fixed version of its original text and every other file is untouched |
| FileLoop.ChangedCountIsChangedFiles | fix_api_routes.py:62-69 | with each path listed once, the count is the number of listed files whose original text the fix changes |
| FixParams.AwaitMatchSound | fix_params.py:12 | what the match function finds at the start of a text is a match of `(\s+)(const \{ [^}]+ \} = )(params;)` |
| FixParams.AwaitMatchIntro | fix_params.py:12 | every match of that pattern at the start of a text is found, with the same `}` |
| FixParams.Piece | fix_params.py:14-18 | the replacement of a match is six characters longer: `await ` is added |
| FixParams.PieceChars | fix_params.py:14-18 | the replacement keeps the white space and `const { … } = ` and then reads `await params;` |
| FixParams.NoMatchUnchanged | fix_params.py:20 | `re.sub` leaves a text without a match unchanged |
| FixParams.PrefixUnchanged | fix_params.py:20 | text before the first match is copied unchanged |
| FixParams.AwaitAllAtMatch | fix_params.py:20 | at a match the rewriting writes the replacement and resumes after the match |
| FixParams.AwaitAllNoMatch | fix_params.py:20 | without a match the rewriting copies one character and moves on |
| FixParams.AwaitAllLeavesNoMatch | fix_params.py:12-20 | after the substitution the pattern matches nowhere in the text |
| FixParams.AwaitAllIdempotent | fix_params.py:12-20 | running the script a second time changes nothing |
| FixParams.AwaitExample | fix_params.py:10-11 | `  const { id } = params;` becomes `  const { id } = await params;` |
| FixParams.FixParamsInFile | fix_params.py:4-26 | the new text is the substitution of the old one, it holds no more match, and the file is written exactly when the text changed |
| FixParams.FixListedFiles | fix_params.py:28-50 | each of the nine listed files that exists is rewritten when that changes it, and the count is the number of files changed |
| FixDuplicateParams.ReadLinesProperties | fix_duplicate_params.py:5-6 | `readlines()` splits a text into lines that join back to it, each ending in its newline except possibly the last, none holding another newline |
| FixDuplicateParams.KeptIsSubsequence | fix_duplicate_params.py:12-24 | the output lines are input lines at strictly increasing indices, unmodified, and a line is missing exactly when it holds `const {` and `} = await params;` and the next original line holds `try {` |
| FixDuplicateParams.LastLineKept | fix_duplicate_params.py:18 | the last line is never dropped |
| FixDuplicateParams.KeptLength | fix_duplicate_params.py:12-26 | dropping lines shortens the text, and when no line qualifies the text is what it was |
| FixDuplicateParams.ChangedIffDropped | fix_duplicate_params.py:26-32 | a file changes, and is written, exactly when one of its lines is dropped |
| FixDuplicateParams.DecisionReadsOriginalNextLine | fix_duplicate_params.py:18-22 | of two qualifying lines in a row before `try {` only the second goes, since each line is judged by the original next line |
| FixDuplicateParams.FixFile | fix_duplicate_params.py:4-32 | the new text is the kept lines joined, and the file is written exactly when that differs from the old text |
| FixDuplicateParams.FixAll | fix_duplicate_params.py:35-41 | every `route.ts` found is replaced by its fixed text when that differs, and the count is the number of files replaced |
| Seo.MetadataOf | src/lib/seo.ts:24-65 | title and description are copied to the page, Open Graph and Twitter; keywords are joined by `, ` (none by default); authors and images appear exactly when the author or image is a non-empty text; the URL is the Open Graph URL and the canonical link; site name, locale and type default to `Buildo`, `nl_NL` and `website`; the Twitter card is `summary_large_image` |
| Seo.KeywordsSplit | src/lib/seo.ts:28-42 | the keyword text splits on commas back into the keywords, each but the first after one space, when no keyword holds a comma |
| Seo.JsonLd | src/lib/seo.ts:70-76 | the object has exactly the keys of `data` plus `@context` and `@type`; a key of `data` keeps its value, so `data` overrides both, and otherwise they are `https://schema.org` and the given type |
| Seo.OrganizationJsonLd | src/lib/seo.ts:81-100 | the type is `Organization` unless the data gives one |
| Seo.ArticleJsonLd | src/lib/seo.ts:105-121 | the type is `Article` unless the data gives one |
| Seo.BreadcrumbJsonLd | src/lib/seo.ts:126-135 | a `BreadcrumbList` whose `itemListElement` holds one `ListItem` per item, in order, the one at index `i` with position `i + 1` |
| Seo.ListItemFields | src/lib/seo.ts:128-133 | a list item carries its position, the crumb's name and, as `item`, its URL |
| Seo.BreadcrumbRoundTrip | src/lib/seo.ts:126-135 | reading the crumbs back from the list gives the items, names and URLs in order |
| Seo.FaqJsonLd | src/lib/seo.ts:140-151 | an `FAQPage` whose `mainEntity` holds one `Question` per pair, in order |
| Seo.FaqRoundTrip | src/lib/seo.ts:140-151 | reading the questions back gives every question with its answer, in order |
| Seo.SitemapEntryOf | src/lib/seo.ts:156-173 | the URL is kept, and each option given is kept while an absent one takes its default: the current time, `weekly`, 0.5 |
| Seo.RobotsLinesShape | src/lib/seo.ts:178-204 | the lines are `User-agent: *`, `Allow: /` exactly when `allowAll` is true or absent, one `Disallow` line per path in order, then an empty line and the `Sitemap` line exactly when a non-empty sitemap is given |
| Seo.AllowLine | src/lib/seo.ts:184-193 | `Allow: /` is the second line exactly when `allowAll` is true or absent |
| Seo.RobotsTextParts | src/lib/seo.ts:189-203 | the text is the head lines and the `Disallow` lines each with its newline, then the sitemap part |
| Seo.RobotsTextLines | src/lib/seo.ts:178-204 | read back as lines, the text gives exactly those lines and then the empty text after the final newline, when no path and no sitemap holds a newline |
| Seo.GenerateRobotsTxt | src/lib/seo.ts:178-204 | the text built with `+=` is the specification text, whose lines the two lemmas above describe |
| ImageUtils.DefaultSizes | src/lib/image-utils.ts:31-37 | the size table grows strictly from thumbnail to xlarge, and the default `srcset` widths of `generateSrcSet` (line 172) are its sizes from small up |
| ImageUtils.ValidImageTypes | src/lib/image-utils.ts:132-142 | exactly the six listed MIME types are accepted, all of them `image/` types |
| ImageUtils.FormEncode | src/lib/image-utils.ts:163 | the form encoding holds only unreserved characters, `+` and `%` |
| ImageUtils.FormEncodeSafe | src/lib/image-utils.ts:163 | text of unreserved characters only, such as a number's digits, is encoded as it is |
| ImageUtils.EncodePair | src/lib/image-utils.ts:163 | an encoded pair holds no `&` and no `,` |
| ImageUtils.SerializeSplit | src/lib/image-utils.ts:163 | the query text splits on `&` into exactly the encoded pairs |
| ImageUtils.QueryPairsInOrder | src/lib/image-utils.ts:158-161 | the pairs are those the `set` calls append, in the order w, h, q, f |
| ImageUtils.QueryPairsFilter | src/lib/image-utils.ts:158-161 | the query keeps exactly the parameters whose option is truthy, each with its value, in that order |
| ImageUtils.GetOptimizedImageUrl | src/lib/image-utils.ts:147-165 | the method that sets the parameters one after another computes the specification URL |
| ImageUtils.UnchangedUrl | src/lib/image-utils.ts:163-164 | the URL comes back unchanged exactly when no option is truthy |
| ImageUtils.QueryOfUrl | src/lib/image-utils.ts:163-164 | otherwise it is the original URL, `?`, and a query whose `&`-separated pieces are the encoded parameters in order |
| ImageUtils.WidthPiece | src/lib/image-utils.ts:158 | a width gives the query piece `w=` and its digits |
| ImageUtils.SrcSetEntryOfWidth | src/lib/image-utils.ts:175 | a positive width gives the candidate `<base>?w=<width> <width>w` |
| ImageUtils.SrcSetSplit | src/lib/image-utils.ts:170-177 | the `srcset` splits on commas into one candidate per size, in order, each but the first after one space, when the base URL holds no comma |
| R2.KeepAllowed | src/lib/r2.ts:66 | deleting the characters outside `[a-zA-Z0-9-]` leaves only allowed characters and never lengthens the text |
| R2.KeepAllowedKeeps | src/lib/r2.ts:66 | text made only of allowed characters is kept as it is |
| R2.SanitizeChars | src/lib/r2.ts:64-67 | the sanitised name holds only `[a-z0-9-]`, and so no `.` |
| R2.SanitizeIdempotent | src/lib/r2.ts:64-67 | sanitising a sanitised name changes nothing |
| R2.WithoutExtNoDot | src/lib/r2.ts:69 | for a name without `.`, `lastIndexOf` gives -1, the substring is empty and the whole name is kept |
| R2.FilenameShape | src/lib/r2.ts:61-72 | the key is `blog/`, the whole sanitised name, `-`, the timestamp's digits, `-`, the random text, `.` and the extension, `webp` when none is given |
| ProjectsRoute.GalleryItems | src/app/api/admin/projects/route.ts:18-22 | one entry per URL, in order, the one at index `i` with order `i` and alt text `Gallery image i+1` |
| ProjectsRoute.ProcessGallery | src/app/api/admin/projects/route.ts:7-26 | a falsy gallery gives `null`, an array is returned as it is, a string gives the entries of its trimmed non-empty comma-separated pieces, and anything else gives `null` |
| ProjectsRoute.GalleryOrders | src/app/api/admin/projects/route.ts:17-22 | after empty pieces are dropped the orders are 0, 1, … and the alt texts count from 1 without gaps |
| JsStrings.PiecesClean | src/app/api/admin/projects/route.ts:17 | every gallery URL is non-empty, trimmed and free of commas |
| JsStrings.PiecesRoundTrip | src/app/api/admin/projects/route.ts:17 | URLs that are non-empty, trimmed and free of commas come back, in order, from the text that joins them with commas |
| ProjectsRoute.Prepared | src/app/api/admin/projects/route.ts:41-49 | the body is rejected (status 500) exactly when the featured image must be taken from a first gallery entry that has no `url` to read; otherwise a falsy `featuredImage` becomes the first entry's `url` when the processed gallery is a non-empty array, and the body is otherwise the one with the processed gallery |
| ProjectsRoute.PreparedFields | src/app/api/admin/projects/route.ts:41-49 | only `gallery` and `featuredImage` change, no field is added besides them, and a truthy `featuredImage` is kept |
| ProjectsRoute.PreparePost | src/app/api/admin/projects/route.ts:37-51 | rewriting the body field by field in place gives the prepared body |
| ProjectsRoute.PreparePut | src/app/api/admin/projects/route.ts:59-74 | the `id` is split off and selects the row, the other fields are prepared as for POST, and `id` is not among the fields set |
| RelatedRoute.Get | src/app/api/blog/related/route.ts:6-72 | a missing or empty `articleId` gives 400, an id no row has gives 404, and otherwise the answer is the ranking of the candidates against the article found |
| RelatedRoute.DefaultLimit | src/app/api/blog/related/route.ts:10 | with no `limit` parameter, or an empty one, the limit is 3 |
| RelatedRoute.Lookup | src/app/api/blog/related/route.ts:20-24 | the row found has the id asked for, and nothing is found exactly when no row has it |
| RelatedRoute.SliceEnd | src/app/api/blog/related/route.ts:66 | `slice(0, limit)` keeps `min(limit, length)` elements for a non-negative limit |
| RelatedRoute.Scores | src/app/api/blog/related/route.ts:47-64 | each article is paired with its own score, in order |
| RelatedRoute.ScoreRange | src/app/api/blog/related/route.ts:48-61 | a score is a multiple of 5 between 0 and 10 plus 5 per tag of the current article |
| RelatedRoute.ScoreMonotone | src/app/api/blog/related/route.ts:50-61 | with the same category verdict, a candidate whose tags include another's scores at least as high |
| RelatedRoute.ScoreAllShared | src/app/api/blog/related/route.ts:50-61 | a candidate of the same category carrying every current tag scores 10 plus 5 per current tag |
| RelatedRoute.SortedScoresMeaning | src/app/api/blog/related/route.ts:45-65 | every sorted entry is a published candidate with its own score |
| RelatedRoute.RankedPublished | src/app/api/blog/related/route.ts:46 | only published candidates are returned |
| RelatedRoute.RankedOrder | src/app/api/blog/related/route.ts:65 | the result is in non-increasing score order |
| RelatedRoute.RankedLength | src/app/api/blog/related/route.ts:10-66 | a non-negative limit bounds the number of results by the number of published candidates; a limit that does not parse (`NaN`) returns nothing; a negative one drops that many from the back |
| RelatedRoute.RankedBest | src/app/api/blog/related/route.ts:45-67 | a published candidate left out scores no higher than any article returned |
| Sorting.SortByKey | src/app/api/blog/related/route.ts:65 | sorting by a key permutes the elements into ascending key order |
| Sorting.SortByKeyStable | src/app/api/blog/related/route.ts:65 | elements with equal keys keep their relative order, as the stable `Array.prototype.sort` keeps them |
| TagsRoute.AddTruthy | src/app/api/blog/tags/route.ts:22-32 | adding the non-empty tags of an array to the set keeps its insertion order and holds each tag once |
| TagsRoute.AllTagsMembers | src/app/api/blog/tags/route.ts:18-33 | a tag is collected exactly when some row carries it, non-empty, in a tag array |
| TagsRoute.NoEmptyTag | src/app/api/blog/tags/route.ts:24-30 | the empty tag is never collected |
| TagsRoute.AllTagsAppend | src/app/api/blog/tags/route.ts:20-33 | the tags of two row lists one after the other are those of each |
| TagsRoute.RowWithoutArrays | src/app/api/blog/tags/route.ts:22-28 | a row whose columns are `null` or not arrays contributes nothing, wherever it stands |
| TagsRoute.RowOrder | src/app/api/blog/tags/route.ts:18-35 | the order of the rows does not change the tag list |
| TagsRoute.GetTags | src/app/api/blog/tags/route.ts:6-40 | the answer is strictly ascending in JavaScript string order and holds exactly the collected tags |
| Sorting.SortStrings | src/app/api/blog/tags/route.ts:35 | the default sort permutes the strings into ascending UTF-16 code-unit order |
| Sorting.SortDistinctStrings | src/app/api/blog/tags/route.ts:35 | sorting distinct strings gives a strictly ascending sequence of exactly those strings |
| Sorting.StrLessTransitive | src/app/api/blog/tags/route.ts:35 | the string order is transitive; with `StrLessIrreflexive`, `StrLessAsymmetric` and `StrLessTotal` it is a strict total order |
| ContactFormSettings.DefaultFields | src/components/admin/contact-form-settings-editor.tsx:83-162 | the seven default fields carry the orders 1 to 7 in list order under distinct keys, and only the select field has options; the editor declares the list but reads it nowhere |
| ContactFormSettings.OptionsClean | src/components/admin/contact-form-settings-editor.tsx:214-220 | saved options are non-empty trimmed single lines, and only a select field has any |
| ContactFormSettings.OptionsRoundTrip | src/components/admin/contact-form-settings-editor.tsx:208-220 | options shown joined by newlines and saved unchanged come back as the same options |
| ContactFormSettings.FindIndex | src/components/admin/contact-form-settings-editor.tsx:634 | `findIndex` gives the first position holding the id, or -1 exactly when none does |
| ContactFormSettings.MoveUpdates | src/components/admin/contact-form-settings-editor.tsx:627-654 | nothing is sent while a move is pending or for an unknown id; what is sent is two updates, the first for the field moved |
| ContactFormSettings.FoundInSorted | src/components/admin/contact-form-settings-editor.tsx:630-634 | the field found is in the sorted list, at the position `findIndex` gives when ids are distinct |
| ContactFormSettings.MoveAtEdge | src/components/admin/contact-form-settings-editor.tsx:636-653 | moving up from the first sorted position or down from the last sends nothing |
| ContactFormSettings.MoveInside | src/components/admin/contact-form-settings-editor.tsx:636-653 | away from those edges a move of a known field is sent |
| ContactFormSettings.ApplyUpdate | src/components/admin/contact-form-settings-editor.tsx:597 | an update sets the order of the settings with its id and changes nothing else |
| ContactFormSettings.TargetFound | src/components/admin/contact-form-settings-editor.tsx:636-645 | with distinct ids the neighbour is another setting, found at its own position |
| ContactFormSettings.MoveSwaps | src/components/admin/contact-form-settings-editor.tsx:627-654 | with distinct ids a move swaps the order values of the field and its sorted neighbour (`order ‖ 0`) and changes no other setting |
| ContactFormSettings.MovePreservesOrders | src/components/admin/contact-form-settings-editor.tsx:627-654 | a move keeps the multiset of order values |
| ContactFormSettings.FirstFailure | src/components/admin/contact-form-settings-editor.tsx:594-603 | the first failing reply is found, all before it having succeeded, and none is found exactly when all succeed |
| ContactFormSettings.SendUpdates | src/components/admin/contact-form-settings-editor.tsx:590-606 | the updates are sent one at a time in order; when all succeed every update was sent, and otherwise sending stops after the first failure, which throws `Failed to update field <id>: <message>` |
| ContactSection.MissingFieldsMembers | src/components/contact-section.tsx:77-82 | a setting is reported exactly when it is in the list, visible, required, and its value is absent, empty or white space |
| ContactSection.MissingFieldsAppend | src/components/contact-section.tsx:77-82 | the report keeps the settings' order |
| ContactSection.HandleSubmit | src/components/contact-section.tsx:73-101 | the form is submitted exactly when no field is reported, and then with the form values unchanged |
| ContactSection.ValidationMessage | src/components/contact-section.tsx:84-98 | otherwise the toast lists the labels of the missing fields joined by `, `, in Dutch for `nl` and in English for every other language |
| ContactSection.FillingRemoves | src/components/contact-section.tsx:77-105 | filling a field with text that is not all white space takes it out of the report and adds nothing |
| ContactSection.Labels | src/components/contact-section.tsx:87-89 | one label per field, in order, Dutch for `nl` and English otherwise |
| ContactSection.RenderField | src/components/contact-section.tsx:108-112 | nothing is shown for a field that is not visible; a visible one shows its label and is marked required unless `isRequired` is `false` |
| ContactSection.NullRequiredNotChecked | src/components/contact-section.tsx:79-111 | a visible field whose `isRequired` is `null` is marked required, yet the submit check lets it through blank |
| ContactSection.OptionValue | src/components/contact-section.tsx:139 | a select option's value holds no white space |
| ContactSection.OptionValueAscii | src/components/contact-section.tsx:139 | an ASCII option without white space only has its capital letters lowered |
| ContactSection.ContactInfoByTypeFirst | src/components/contact-section.tsx:178-180 | the lookup finds an active row of the type with no such row before it, and finds nothing exactly when there is none |
| BlogPage.Pagination | src/components/pages/blog-page.tsx:91-162 | nothing is shown without pagination data or with at most one page; otherwise the loop builds the page buttons of the window from `start` to `end` |
| BlogPage.WindowShape | src/components/pages/blog-page.tsx:94-101 | the window starts at page 1 at the earliest and ends at the last page at the latest, and holds at most five consecutive pages |
| BlogPage.CurrentShown | src/components/pages/blog-page.tsx:96-135 | a current page within the page count is among the buttons and marked as current |
| BlogPage.WindowSize | src/components/pages/blog-page.tsx:96-97 | with at least five pages, five buttons are shown up to the third-to-last page, and from there one fewer per page, down to three |
| BlogPage.Shortcuts | src/components/pages/blog-page.tsx:117-153 | the page-1 button is shown exactly when page 1 is not in the window, with an ellipsis exactly when page 2 is not either; likewise for the last page |
| BlogPage.PrevNext | src/components/pages/blog-page.tsx:110-161 | previous is disabled exactly on page 1 and next exactly on the last page |
| BlogPage.ResultsRange | src/components/pages/blog-page.tsx:271-272 | the range never passes the total, spans at most one page of results, and is not empty when the page starts before the total |
| BlogPage.ResultsShown | src/components/pages/blog-page.tsx:204-276 | the empty-list message is shown exactly when there are no articles; otherwise the results line is shown exactly when there is pagination data, and it is the range text of that data |
| BlogPage.ShownRange | src/components/pages/blog-page.tsx:267-276 | a results line shown for a page that starts before the total is that page's range text, and the range it names is non-empty and within the total |
| BlogPage.ResultsEmpty | src/components/pages/blog-page.tsx:204-209 | with no articles no results line is shown, whatever the pagination data says: only "No articles available yet." in English, or its Dutch text otherwise |
| TeamEditor.AddSpecialtyEffect | src/components/admin/team-editor.tsx:355-363 | the trimmed input is appended, and the input cleared, exactly when it is not blank and not yet listed; otherwise nothing changes |
| TeamEditor.AddSpecialtyDistinct | src/components/admin/team-editor.tsx:355-363 | adding never creates a duplicate, and keeps every listed specialty non-blank and trimmed |
| TeamEditor.RemoveSpecialtyEffect | src/components/admin/team-editor.tsx:365-370 | removing drops every occurrence of the value, keeps the other entries, and leaves the rest of the form as it was |
| TeamEditor.RemoveAfterAdd | src/components/admin/team-editor.tsx:355-370 | removing what was just added restores the form |
| TeamEditor.OrNull | src/components/admin/team-editor.tsx:302-303 | `value ‖ null` is `null` exactly for the empty text and the text itself otherwise |
| TeamEditor.TrimmedOrNull | src/components/admin/team-editor.tsx:305-306 | email and phone are `null` exactly when blank, and otherwise their trimmed, non-empty text |
| TeamEditor.MemberSubmitFields | src/components/admin/team-editor.tsx:296-314 | English name and title fall back to the Dutch ones when empty; empty optional texts become `null`; email and phone are sent trimmed or as `null`; the rest is passed on unchanged |
| TeamEditor.HandleMemberSubmit | src/components/admin/team-editor.tsx:296-321 | an update of the edited id when a non-empty id is being edited, a create otherwise, both carrying the normalised member |
| TeamEditor.SettingsSubmitFields | src/components/admin/team-editor.tsx:323-353 | every text is sent as `null` exactly when empty, so reading `null` back as the empty text gives the form again; flags, items per row and image shape are passed on unchanged |
| BlogEditor.KeepSlugChars | src/components/admin/enhanced-blog-editor.tsx:90 | the deletion leaves only characters in U+00C0–U+017F, `a`–`z`, `0`–`9` and space |
| BlogEditor.CollapseHyphens | src/components/admin/enhanced-blog-editor.tsx:92 | collapsing `-` runs never leaves two `-` in a row, keeps the first character, and keeps text of slug characters so |
| BlogEditor.GenerateSlug | src/components/admin/enhanced-blog-editor.tsx:87-94 | the slug `generateSlug` gives holds only characters of `[À-ſa-z0-9-]`, so no white space, and never two `-` in a row |
| BlogEditor.ReplaceSpaceRunsChars | src/components/admin/enhanced-blog-editor.tsx:90-91 | after the deletion, replacing white-space runs with `-` leaves only slug characters and no white space |
| BlogEditor.GenerateSlugUntrimmed | src/components/admin/enhanced-blog-editor.tsx:87-94 | the steps before `trim()` leave no white space, so the final `trim()` changes nothing |
| BlogEditor.HyphenDeleted | src/components/admin/enhanced-blog-editor.tsx:90 | hyphens typed in a title are deleted rather than kept, so `news-update` is slugged to `newsupdate`, and the cleaned variant gives the same |
| BlogEditor.PlainWordSlug | src/components/admin/enhanced-blog-editor.tsx:87-94 | a title whose kept characters form one lower-case word is slugged to that word, by `generateSlug` and by the cleaned variant alike |
| BlogEditor.GenerateSlugLeadingHyphen | src/components/admin/enhanced-blog-editor.tsx:87-94 | a title with a leading blank gets a slug with a leading `-`, since `trim()` removes white space and not the `-` the blank became |
| BlogEditor.CleanSlug | src/components/admin/enhanced-blog-editor.tsx:87-94 | the evidently intended slug, `generateSlug`'s with its `-` ends stripped, is never longer than it |
| BlogEditor.CleanSlugShape | src/components/admin/enhanced-blog-editor.tsx:87-94 | the cleaned slug is a slice of `generateSlug`'s, holds only slug characters, never has two `-` in a row, and neither starts nor ends with `-` |
| BlogEditor.CleanSlugAgrees | src/components/admin/enhanced-blog-editor.tsx:87-94 | when `generateSlug`'s slug has no `-` at its ends, the cleaned slug is the same |
| BlogEditor.CanonicalUrl | src/components/admin/enhanced-blog-editor.tsx:96-98 | the canonical URL is the origin followed by `/blog/` and the slug |
| BlogEditor.AutoSlugs | src/components/admin/enhanced-blog-editor.tsx:250-269 | while creating, a non-empty Dutch title sets the Dutch slug to `generateSlug` of it and the canonical URL built from that slug, and a non-empty English title sets the English slug; while editing nothing changes; no other field changes |
| BlogEditor.AutoSlugsSettled | src/components/admin/enhanced-blog-editor.tsx:250-269 | the effects settle: running them again on the form they produced changes nothing |
| BlogEditor.AutoSlugsShape | src/components/admin/enhanced-blog-editor.tsx:250-269 | while creating, both slugs are slug text and the canonical URL is the origin, `/blog/` and the Dutch slug |
| BlogEditor.AutoSlugsLeadingHyphen | src/components/admin/enhanced-blog-editor.tsx:250-258 | a Dutch title ` news` sets the slug `-news` and the canonical URL `<origin>/blog/-news` |
| BlogEditor.AddTagEffect | src/components/admin/enhanced-blog-editor.tsx:198-210 | adding touches only that language's list and input; the trimmed input is appended, and the input cleared, exactly when it is non-empty and absent; otherwise nothing changes |
| BlogEditor.AddTagDistinct | src/components/admin/enhanced-blog-editor.tsx:199 | adding never introduces a duplicate tag |
| BlogEditor.WithoutIndexIs | src/components/admin/enhanced-blog-editor.tsx:212-217 | removing drops exactly the element at the index and keeps the others in order; an index outside the list changes nothing |
| BlogEditor.RemoveAfterAddTag | src/components/admin/enhanced-blog-editor.tsx:198-217 | removing the tag just added, at its index, restores the form |
| BlogEditor.MetaAutofill | src/components/admin/enhanced-blog-editor.tsx:272-288 | an empty meta description takes the first 160 characters of a non-empty excerpt; otherwise it is kept |
| BlogEditor.FillMetaIdempotent | src/components/admin/enhanced-blog-editor.tsx:272-288 | filling is settled after one round: a second round changes nothing |
| BlogEditor.RecordedPublishedAt | src/components/admin/enhanced-blog-editor.tsx:136-138 | a recorded date comes from an article with the id asked for |
| BlogEditor.UpdatePublishedAt | src/components/admin/enhanced-blog-editor.tsx:136-138 | the update payload's date is the recorded one when that is set, and otherwise either now or the recorded value |
| BlogEditor.PublishedAtRules | src/components/admin/enhanced-blog-editor.tsx:110-138 | a create is dated now exactly when published; an update keeps a recorded date, sets now only when publishing with none recorded, and otherwise sends the recorded value |

## Left out

- React rendering, hooks and TanStack Query wiring: only the functions and state updaters inside the components are modelled; toasts are values the model returns.
- Database access through drizzle: query results are inputs. In the related-articles route the database query with `limit * 2` and newest-first order is not modelled; the candidates are given, in that order.
- The GET and DELETE handlers of the admin projects route, and the building of every `NextResponse`: the model returns the status and the data.
- `createCsrfErrorResponse`, `createRateLimitResponse` and `RateLimitConfigs`: response construction and a constant table with no behaviour of their own; `Math.ceil` of a time difference is floating point.
- `stats` and `destroy` of both stores, `clearCache` and `getCacheStats`, `CacheKeys`: `stats` only reads the table size and keys; `destroy` stops a timer and then clears the table as `clear` does; the key builders are string templates with no property of their own.
- The `setInterval` timers of both stores' constructors: `cleanup` is an explicit method called with the current time.
- sharp image processing (`optimizeImage`, `generateResponsiveImages`, `getImageMetadata`, `generateBlurPlaceholder`) and the R2 upload and delete calls: foreign native or network code.
- The reading-time computation of the blog editor: it reads the DOM and uses floating point.
- Console output, and the reading, writing and printing of files in the scripts: the file system is a map and "written" is a boolean.
- Line endings in the scripts: they open files in Python text mode, which reads `\r\n` as `\n` and writes `\n` back, so a CRLF file that is rewritten comes back with LF endings. The model works on the text after that translation and does not show the change of line endings.
- JavaScript strings are UTF-16 code units while Dafny strings are code points: lengths and `substring` agree only outside the supplementary planes.
- `toLowerCase` is modelled for ASCII, Latin-1 and Latin Extended-A; `toUpperCase` for ASCII and the two characters that upper-case to ASCII letters.
- `undefined` and `null` are both `None` where the source treats them alike (a missing `publishedAt`, an absent option).
- Optional arguments are explicit `Option` parameters; values received from `request.json()` are `Json.Value`.
- The contact-form settings `onSubmit` rewrites `data.options` in place; the model computes the saved options as a value.
- CacheUtils.InvalidateCache: a pattern's regular-expression metacharacters other than `*` are read literally, so a pattern holding `.`, `?`, `+` or brackets selects other keys in the model than in the source.
- CacheUtils.GetCached: the fetcher's result is a parameter; a fetcher that rejects is not modelled.
- FixApiRoutes.InsertionGuards: the second-run guarantee is proved only when the joined parameter names take at most 170 characters; with longer names the inserted `await params` lies beyond the 200 characters the guard looks at.

## Findings

| source | as written | input that shows it | evidently intended | confidence | as-written member | corrected member |
|---|---|---|---|---|---|---|
| src/components/admin/enhanced-blog-editor.tsx:87-94 | white space is turned into `-` before `.trim()`, so the trim has nothing left to remove and a leading or trailing blank survives as `-` | the title ` news` gives the slug `-news` | a slug that neither starts nor ends with `-` | not executed | BlogEditor.GenerateSlugLeadingHyphen, with BlogEditor.AutoSlugsLeadingHyphen | BlogEditor.CleanSlug, with BlogEditor.CleanSlugShape |

The editor's slug effects (`AutoSlugs`) are modelled with `generateSlug` as written, as the editor runs it; `CleanSlug` is the intended variant, kept beside it.
