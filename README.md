# github-marker, modelled in Dafny

github-marker lets a signed-in user search GitHub for users and repositories and
bookmark repositories. Bookmarks can be listed a page at a time, deleted,
counted per day, and imported from a CSV file of repository URLs.

The backend is a FastAPI service. It has:
- cookie-based JWT authentication behind a middleware;
- a GitHub search proxy;
- a bookmark store with statistics and CSV import.

The frontend is a React application. It has:
- an HTTP client that refreshes an expired session and queues the requests that fail meanwhile;
- a query cache that its bookmark mutations invalidate and patch;
- the search page and dashboard that drive them;
- the registration form's schema;
- the error texts the pages show.

This project models those parts, one Dafny module per source file:

- **Backend**
  - `AuthService`: token issuing and verification.
  - `AuthMiddleware`: excluded paths, CORS headers and the 401/500 responses.
  - `Config`: settings, GitHub paths and the CORS origin list.
  - `Helpers`: date parsing and owner/repo extraction from a URL.
  - `GithubService`: classifying GitHub's answers and building bookmarks from them.
  - `BookmarkCrud`: the bookmarks table and its queries.
  - `BookmarksRouter`: the bookmark endpoints, including the import loop.
  - `GithubRouter`: the search proxy.
  - `UserCrud`: the users table.
  - `UserSchema`: registration payload validation.
  - `Paging`: the shared query bounds and page flags.
- **Frontend**
  - `AxiosClient`: the refresh coordinator.
  - `QueryClient`: the query cache.
  - `BookmarksQuery` and `GithubQuery`: the data hooks, their keys and the cache updates.
  - `SearchPagination`, `RepositoryCard`, `Dashboard` and `SearchPage`: the components.
  - `FieldError`: a form field's error text.
  - `RegisterForm`: registerSchema, over UTF-16 code units.
  - `AuthStore`: the authentication store.
  - `ErrorHandler`: error texts.
- **Shared**
  - `PasswordPattern`: the password regular expression, shared by server and form, generic over the engine's character classes.
  - `Session`: how server and client meet when a token expires.
  - `Wrappers` and `Text`: support modules.

How the model treats the outside world:
- **State-changing code** is modelled as classes. This covers the tables, the query cache, the refresh coordinator, the stores and the pages. Their methods state the whole new state.
- **Parameters.** I/O, clocks, hashing, JWT signing and decoding, and GitHub's HTTP answers are parameters. A decode or fetch result is a value, the server's date is `today`, and the hash is a function.
- **Databases** are sequences of rows held by a class.
- **Ids.** Row ids come from a counter, standing in for uuid4. Listings are in descending id order, as the source orders by id.

## Model

| member | source | states |
|---|---|---|
| AuthService.VerifyToken | github-marker-backend/app/service/auth_service.py:29-59 | Each outcome, in both directions. The subject is returned exactly when the token decodes with a `sub` and any requested type matches. An expired signature gives 401 "ACCESS_TOKEN_EXPIRED". Another JWT error gives 401 "Invalid token". A missing `sub` gives 401 "Invalid token payload". A wrong type gives 401 "Invalid token type". Only other exceptions escape. |
| AuthService.IssuedTokensVerify | github-marker-backend/app/service/auth_service.py:10-14 | An access token verifies to its subject from issue until its `exp`, with or without the access type requested. It is refused as a refresh token. |
| AuthService.DefaultLifetimes | github-marker-backend/app/service/auth_service.py:10-23 | By default, access tokens expire after 3600 seconds and refresh tokens after 604800 seconds. A zero delta is falsy, so it gives the default. |
| AuthService.RefreshTokenLifecycle | github-marker-backend/app/service/auth_service.py:18-53 | A refresh token verifies as a refresh token until its `exp`. After that it is refused as expired. It is refused as the access type. An access token is refused as a refresh token. |
| AuthService.SubjectCheckedBeforeType | github-marker-backend/app/service/auth_service.py:41-45 | A token without `sub` is "Invalid token payload", whatever its type. |
| AuthMiddleware.AllowedOrigins | github-marker-backend/app/middleware/auth_middleware.py:10 | No allowed origin is empty or contains a comma. |
| AuthMiddleware.EffectiveExcluded | github-marker-backend/app/middleware/auth_middleware.py:18 | A missing or empty list falls back to the default excluded paths; otherwise the given list is used. |
| AuthMiddleware.AnyCovers | github-marker-backend/app/middleware/auth_middleware.py:19 | True exactly when some entry equals the path or is a prefix of it followed by '/'. |
| AuthMiddleware.IsExcludedPath | github-marker-backend/app/middleware/auth_middleware.py:17-19 | True exactly when some entry of the effective list covers the path. |
| AuthMiddleware.ExcludedPathExamples | github-marker-backend/app/middleware/auth_middleware.py:12-19 | Sub-paths of an entry are excluded, but "/auth/loginx" is not. Every path starting "//" is excluded, because of the entry "/". "/bookmark/list" is protected. An empty list falls back to the defaults. |
| AuthMiddleware.CorsHeaders | github-marker-backend/app/middleware/auth_middleware.py:22-31 | The headers are non-empty exactly when the origin is present, truthy and allowed. They then echo the origin and allow credentials. |
| AuthMiddleware.CorsHeadersConfigured | github-marker-backend/app/middleware/auth_middleware.py:10-31 | With the configured origins, headers are sent exactly when the origin is in cors_origins_list. |
| AuthMiddleware.Middleware | github-marker-backend/app/middleware/auth_middleware.py:34-87 | Preflight and excluded paths are forwarded without a user. Every response carries the CORS headers. A forwarded user id is the non-empty subject that the token verified to. |
| AuthMiddleware.ProtectedOutcomes | github-marker-backend/app/middleware/auth_middleware.py:41-87 | The response for each cause on a protected path: a missing or empty cookie, an expired or invalid token, a missing or empty subject, a valid subject, or an unexpected error (500 with the generic detail). |
| AuthMiddleware.ResponsesAre401Or500 | github-marker-backend/app/middleware/auth_middleware.py:34-87 | Every response the middleware produces itself is 401 or 500. It forwards without a user exactly the unprotected requests. |
| Config.DefaultSettings | github-marker-backend/app/core/config.py:4-11 | The defaults: HS256, 60 minutes, 7 days and https://api.github.com/. |
| Config.GithubPathsDistinct | github-marker-backend/app/core/config.py:16-26 | The three GitHub paths extend the base URL and are pairwise distinct. |
| Config.KeepStripped | github-marker-backend/app/core/config.py:30 | At most as many origins as pieces, every one non-empty and stripped. |
| Config.KeepStrippedMembers | github-marker-backend/app/core/config.py:30 | x is kept exactly when x is non-empty and is the strip of some piece. |
| Config.CorsOriginsList | github-marker-backend/app/core/config.py:28-30 | Every origin is stripped, non-empty and free of commas. |
| Config.CorsOriginsMembers | github-marker-backend/app/core/config.py:30 | x is listed exactly when x is non-empty and some comma-separated piece strips to it. |
| Config.SingleOrigin | github-marker-backend/app/core/config.py:30 | Without a comma, the list is the stripped value, or empty when that is blank. |
| Config.KeepStrippedAppend | github-marker-backend/app/core/config.py:30 | The origins keep the order of the pieces. |
| Helpers.Padded | github-marker-backend/app/utils/helpers.py:12 | Exactly `width` decimal digits. |
| Helpers.ValueOfPadded | github-marker-backend/app/utils/helpers.py:12 | Reading a padded number back gives it, when it fits in the width. |
| Helpers.PaddedOfValue | github-marker-backend/app/utils/helpers.py:12 | Padding the value of a digit run gives the run back. |
| Helpers.ValueOfNatToString | github-marker-backend/app/service/github_service.py:44 | The decimal rendering of a natural number is all digits and reads back as that number. |
| Helpers.IntToStringValue | github-marker-backend/app/service/github_service.py:44 | The rendering of an integer starts with '-' exactly when it is negative, and the rest reads back as its magnitude. |
| Helpers.IsoFormat | github-marker-backend/app/utils/helpers.py:12 | ISO dates are ten characters long. |
| Helpers.FromIsoFormat | github-marker-backend/app/utils/helpers.py:12 | Every date it returns is valid, and its ISO form is the input. |
| Helpers.FromIsoFormatOfIsoFormat | github-marker-backend/app/utils/helpers.py:12 | Every valid date's ISO form parses back to that date. |
| Helpers.ParseDateOrNone | github-marker-backend/app/utils/helpers.py:8-14 | A missing or empty value gives no date. Any other value that parses is returned as its date, and one that does not gives the 400 error "Invalid date format. Use YYYY-MM-DD". A date returned is valid and is what the value spells. |
| Helpers.ParseLeapDay | github-marker-backend/app/utils/helpers.py:8-14 | "2024-02-29" parses to that date. |
| Helpers.ParseMissingDay | github-marker-backend/app/utils/helpers.py:8-14 | "2023-02-29" is refused. |
| Helpers.ParseWrongSeparator | github-marker-backend/app/utils/helpers.py:8-14 | "2024/02/29" is refused. |
| Helpers.MatchAt | github-marker-backend/app/utils/helpers.py:18 | Both groups of a match are non-empty and free of slashes. |
| Helpers.MatchAtSound | github-marker-backend/app/utils/helpers.py:18 | Every match reported is a match of `github\.com/([^/]+)/([^/]+)` at that position. |
| Helpers.MatchAtComplete | github-marker-backend/app/utils/helpers.py:18 | Every match of the expression at a position is the one reported, with greedy groups. |
| Helpers.SearchFrom | github-marker-backend/app/utils/helpers.py:19 | re.search returns the leftmost matching position, or none when no position matches. |
| Helpers.SplitPair | github-marker-backend/app/utils/helpers.py:23-26 | Both parts of the fallback are non-empty and free of slashes. |
| Helpers.OwnerRepoParts | github-marker-backend/app/utils/helpers.py:17-28 | The leftmost regex match when there is one, else the fallback. |
| Helpers.ExtractOwnerRepo | github-marker-backend/app/utils/helpers.py:17-28 | A result exists exactly when the parts do, and it is owner + "/" + repo. |
| Helpers.ExtractedHasOneSlash | github-marker-backend/app/utils/helpers.py:20-26 | Every result has exactly one '/', with non-empty sides. |
| Helpers.ExtractFromUrl | github-marker-backend/app/utils/helpers.py:18-21 | https://github.com/owner/repo gives "owner/repo". |
| Helpers.ExtractFallback | github-marker-backend/app/utils/helpers.py:23-26 | Without a github.com match, "a/b" with non-blank sides gives the stripped sides joined by '/'. |
| Helpers.DayNumber | github-marker-backend/app/crud/bookmark_crud.py:147-155 | Day numbers of valid dates are positive. |
| Helpers.DayNumberIncreases | github-marker-backend/app/crud/bookmark_crud.py:147-155 | A later date has a larger day number. |
| Helpers.DayNumberOrder | github-marker-backend/app/crud/bookmark_crud.py:147-155 | Day numbers order dates as the calendar does and tell them apart, in both directions. |
| GithubService.Truncate | github-marker-backend/app/service/github_service.py:44 | `text[:300]` is a prefix of at most 300 characters, and is the whole text when that is short enough. |
| GithubService.GetJson | github-marker-backend/app/service/github_service.py:15-50 | A transport error gives 503 "Failed to connect to GitHub: …". A 404 gives no data. Any other status of 400 or more gives 502 with the status and the truncated text. Below 400, the body. |
| GithubService.GetJsonErrors | github-marker-backend/app/service/github_service.py:21-45 | The errors are exactly 502 and 503, raised exactly on a transport error or a status of 400 or more other than 404. A 502's detail starts with the status. |
| GithubService.BuildBookmark | github-marker-backend/app/service/github_service.py:53-76 | A bookmark is built exactly when the payload validates. Its fields are copied from the repository and its owner, and full_name is "login/name". Otherwise 422. |
| GithubService.MissingOwnerFails | github-marker-backend/app/service/github_service.py:54 | A missing owner object always ends in 422. |
| GithubService.LookupFrom | github-marker-backend/app/service/github_service.py:139-142 | 404 gives no bookmark. A body gives the bookmark built from it. The errors are 422, 502 or 503. |
| GithubService.GetRepositoryById | github-marker-backend/app/service/github_service.py:136-142 | Fetches `<base>repositories/<id>` and classifies the answer as LookupFrom does. |
| GithubService.ValidateGithubRepo | github-marker-backend/app/service/github_service.py:145-154 | A value without '/' gives 400 "owner_repo must be in owner/repo format". Otherwise it fetches `<base>repos/<owner_repo>`. |
| GithubService.SearchResult | github-marker-backend/app/service/github_service.py:89-99 | A transport error or a non-2xx status gives (0, []). Otherwise the total (0 when missing) and the items. |
| GithubService.SearchUsers | github-marker-backend/app/service/github_service.py:79-99 | Sends the query, page and per_page to the user search path and returns its result. |
| GithubService.FailedSearchIsEmpty | github-marker-backend/app/service/github_service.py:94-99 | A failed search gives a total of 0 and no items. |
| GithubService.Annotate | github-marker-backend/app/service/github_service.py:121-124 | Every item gets isAdded and bookmarkId from is_repo_bookmarked, in order. isAdded holds exactly when an id is present. |
| GithubService.SearchRepositories | github-marker-backend/app/service/github_service.py:102-133 | The search result, with items marked only when both a database and a user id are given. |
| BookmarkCrud.NewRows | github-marker-backend/app/crud/bookmark_crud.py:60-71 | One row per item, in order, with consecutive ids. |
| BookmarkCrud.First | github-marker-backend/app/crud/bookmark_crud.py:26 | None exactly when no row matches. Otherwise a matching row. |
| BookmarkCrud.OfUser | github-marker-backend/app/crud/bookmark_crud.py:91 | Exactly the user's rows. |
| BookmarkCrud.OfUserIncreasing | github-marker-backend/app/crud/bookmark_crud.py:91-92 | Filtering by user keeps ids increasing. |
| BookmarkCrud.Reverse | github-marker-backend/app/crud/bookmark_crud.py:92 | Position i holds the element that was at position n-1-i. |
| BookmarkCrud.ReverseDecreasing | github-marker-backend/app/crud/bookmark_crud.py:92 | Reversing increasing ids gives `id.desc()` order. |
| BookmarkCrud.RemoveId | github-marker-backend/app/crud/bookmark_crud.py:121 | Exactly the rows whose id differs. |
| BookmarkCrud.RemoveIdIncreasing | github-marker-backend/app/crud/bookmark_crud.py:121 | Deleting keeps the remaining ids increasing. |
| BookmarkCrud.RemoveAbsent | github-marker-backend/app/crud/bookmark_crud.py:115-119 | Removing an id that no row has changes nothing. |
| BookmarkCrud.RemovePresent | github-marker-backend/app/crud/bookmark_crud.py:121 | With distinct ids, deleting a present id removes exactly one row. |
| BookmarkCrud.RemoveKeepsValid | github-marker-backend/app/crud/bookmark_crud.py:121-122 | A valid table stays valid, one row shorter. |
| BookmarkCrud.Page | github-marker-backend/app/crud/bookmark_crud.py:84-94 | At most per_page rows, taken from offset (page-1)*per_page, with a page below 1 read as 1. |
| BookmarkCrud.PageLocates | github-marker-backend/app/crud/bookmark_crud.py:86-94 | Row k of the listing is entry k % per_page of page k / per_page + 1. |
| BookmarkCrud.UserPage | github-marker-backend/app/crud/bookmark_crud.py:84-94 | The page of the user's rows read from the end of the table: its length and each entry by position, only the user's rows, in descending id order when the table is in increasing id order. |
| BookmarkCrud.PageOfReverse | github-marker-backend/app/crud/bookmark_crud.py:86-94 | A page of the reversed rows is the window of rows counted from the end. |
| BookmarkCrud.PageNonEmpty | github-marker-backend/app/crud/bookmark_crud.py:86-94 | A page is non-empty exactly when its offset is below the total. |
| BookmarkCrud.PageDecreasing | github-marker-backend/app/crud/bookmark_crud.py:92-94 | A page of a descending listing is descending. |
| BookmarkCrud.MatchedDays | github-marker-backend/app/crud/bookmark_crud.py:141-155 | Only days inside the inclusive window. |
| BookmarkCrud.CountInOne | github-marker-backend/app/crud/bookmark_crud.py:157 | A day has a positive count exactly when it occurs. |
| BookmarkCrud.GroupByDay | github-marker-backend/app/crud/bookmark_crud.py:157-173 | GROUP BY day ORDER BY day. Entries have strictly increasing days. Every count is positive and is the number of occurrences. Every matched day is listed, and the counts sum to the number of matched rows. |
| BookmarkCrud.GroupDays | github-marker-backend/app/crud/bookmark_crud.py:157-173 | The grouping loop over lo..hi leaves every day in that range grouped. |
| BookmarkCrud.GroupedAll | github-marker-backend/app/crud/bookmark_crud.py:157-173 | Once every day is done, every day is listed and the counts sum to the total. |
| BookmarkCrud.MatchedDaysUnbounded | github-marker-backend/app/crud/bookmark_crud.py:182 | Without a window, there is one day per row of the user. |
| BookmarkCrud.SingleDayWindow | github-marker-backend/app/crud/bookmark_crud.py:197-205 | A one-day window counts that day's occurrences. |
| BookmarkCrud.BookmarkTable.constructor | github-marker-backend/app/crud/bookmark_crud.py:8-9 | An empty, valid table. |
| BookmarkCrud.BookmarkTable.GetByFullName | github-marker-backend/app/crud/bookmark_crud.py:12-26 | None exactly when the user has no row of that full name. Otherwise such a row. |
| BookmarkCrud.BookmarkTable.IsRepoBookmarked | github-marker-backend/app/crud/bookmark_crud.py:29-47 | (True, id of a matching row) exactly when the user has a row for that repository, else (False, None). |
| BookmarkCrud.BookmarkTable.Create | github-marker-backend/app/crud/bookmark_crud.py:50-76 | 409 "Bookmark already exists" with the table unchanged when the user has that repository. Otherwise exactly one new row with the next id. |
| BookmarkCrud.BookmarkTable.AddAll | github-marker-backend/app/crud/bookmark_crud.py:60-74 | The import's commit: the new rows are appended in order. |
| BookmarkCrud.BookmarkTable.GetUserBookmarks | github-marker-backend/app/crud/bookmark_crud.py:78-104 | The total is the number of the user's rows. The page has min(per_page, rows left) entries from offset (page-1)*per_page (page below 1 read as 1), and entry k is the user's row with offset+k of the user's rows after it in the table. Only the user's rows, in descending id order. |
| BookmarkCrud.BookmarkTable.Delete | github-marker-backend/app/crud/bookmark_crud.py:106-124 | When the user owns the id, exactly that row is removed. Otherwise 404 "Bookmark not found" and nothing changes. |
| BookmarkCrud.BookmarkTable.TotalCount | github-marker-backend/app/crud/bookmark_crud.py:175-184 | The number of the user's rows. |
| BookmarkCrud.BookmarkTable.TodayCount | github-marker-backend/app/crud/bookmark_crud.py:187-207 | The number of the user's rows created on `today`. |
| BookmarkCrud.BookmarkTable.CountsByDate | github-marker-backend/app/crud/bookmark_crud.py:126-173 | The by-day breakdown of the user's rows inside the window, as GroupByDay states it. |
| BookmarksRouter.CreateBookmarkEndpoint | github-marker-backend/app/routers/bookmarks.py:27-44 | The lookup's errors pass through. A missing repository gives 404. A missing user gives 401. Otherwise it creates, as Create states. |
| BookmarksRouter.ListMyBookmarks | github-marker-backend/app/routers/bookmarks.py:46-71 | Bad bounds give 422. No user gives 401. Otherwise the items are the window of the user's rows counted from the end at offset (page-1)*per_page, with their length and each entry fixed; the total; has_next = page*per_page < total and has_prev = page > 1. |
| BookmarksRouter.ListFlagsAgree | github-marker-backend/app/routers/bookmarks.py:61-62 | has_next holds exactly when the next page is non-empty, and has_prev exactly when the page is past the first. Every bookmark appears on the page its position gives. |
| BookmarksRouter.RemoveBookmark | github-marker-backend/app/routers/bookmarks.py:73-83 | A missing or empty user gives 401 with nothing changed. Otherwise the result of delete_bookmark. |
| BookmarksRouter.DayOf | github-marker-backend/app/routers/bookmarks.py:96-97 | A parsed date becomes its day number, and no date stays none. |
| BookmarksRouter.WindowOfDates | github-marker-backend/app/crud/bookmark_crud.py:147-155 | Comparing day numbers against the window is comparing the dates: start ≤ c ≤ end. |
| BookmarksRouter.BookmarkStats | github-marker-backend/app/routers/bookmarks.py:85-112 | No user gives 401. A malformed date gives 400. Otherwise the total, today's count and the by-day breakdown of the window. |
| BookmarksRouter.CheckRow | github-marker-backend/app/routers/bookmarks.py:140-168 | An empty row and a "url" header (any case) are skipped. A first cell that is no GitHub URL is rejected with "Invalid URL format: " and the stripped cell; a GitHub error with "Repo not found on GitHub: " and the cell; a 404 crashes as written and is that rejection when corrected; a found repository is passed on with the stripped cell. |
| BookmarksRouter.CheckRows | github-marker-backend/app/routers/bookmarks.py:140 | One check per row, in order. |
| BookmarksRouter.Record | github-marker-backend/app/routers/bookmarks.py:150-189 | Each row that does not crash counts exactly once. A rejection appends its message; a found row already bookmarked (committed or added earlier in this import) appends "Bookmark already exists for " and the cell; a new one is added without a message; skips and crashes add no message. The crash flag is set by a crash only. |
| BookmarksRouter.RecordKeepsErrors | github-marker-backend/app/routers/bookmarks.py:150-189 | A row only appends to the error messages. |
| BookmarksRouter.ErrorsInRowOrder | github-marker-backend/app/routers/bookmarks.py:140-189 | The messages after the first i rows begin the messages after all rows: errors follow row order. |
| BookmarksRouter.Run | github-marker-backend/app/routers/bookmarks.py:140-189 | Without a crash, every row counts once. failed = number of errors and successful = number of pending bookmarks. A crash happens exactly when some row crashes. |
| BookmarksRouter.RunPrefix | github-marker-backend/app/routers/bookmarks.py:140-189 | The run over one more row records that row, unless the run has crashed. |
| BookmarksRouter.ImportAddsNoDuplicates | github-marker-backend/app/routers/bookmarks.py:162-183 | No import adds the same full name twice, nor one the user already has. |
| BookmarksRouter.HeaderRowsOnlyCounted | github-marker-backend/app/routers/bookmarks.py:142-146 | A "url" header row and an empty row add nothing and no error, yet count in total_processed. |
| BookmarksRouter.MissingRepoRow | github-marker-backend/app/routers/bookmarks.py:157-162 | When GitHub answers 404 for a valid owner/repo, the row crashes as written, and is rejected with "Repo not found on GitHub: …" when corrected. |
| BookmarksRouter.MissingRepoImport | github-marker-backend/app/routers/bookmarks.py:157-198 | That one-row import crashes as written. Corrected, it reports one failure and adds nothing. |
| BookmarksRouter.SingleRowRun | github-marker-backend/app/routers/bookmarks.py:140-198 | A one-row import is that row's check recorded on an empty tally. |
| BookmarksRouter.RunSingle | github-marker-backend/app/routers/bookmarks.py:140-189 | The run over one row is that row's record. |
| BookmarksRouter.CorrectedImportCompletes | github-marker-backend/app/routers/bookmarks.py:187-189 | The corrected loop never crashes. |
| BookmarksRouter.CountRow | github-marker-backend/app/routers/bookmarks.py:142-189 | The body of the loop performs exactly Record's update. |
| BookmarksRouter.ProcessRows | github-marker-backend/app/routers/bookmarks.py:140-189 | The loop computes Run: its counters, errors and pending bookmarks, or the crash. |
| BookmarksRouter.ImportBookmarks | github-marker-backend/app/routers/bookmarks.py:115-198 | A name not ending in ".csv" gives 400. No user gives 401. A crash gives 500 with nothing committed. Otherwise (len(rows), successful, failed, errors), with the pending rows committed in order. |
| GithubRouter.GithubQuery | github-marker-backend/app/routers/github.py:40-53 | "user" appends " in:login" and "repo" appends " in:name". Any other type gives the 400 fallback, and only such a type does. |
| GithubRouter.QueryDeterminesSearch | github-marker-backend/app/routers/github.py:40-47 | Equal queries come from equal texts and equal search types. |
| GithubRouter.SearchGithubEndpoint | github-marker-backend/app/routers/github.py:22-88 | 422 exactly for an unknown type or out-of-bounds paging, so the 400 fallback is never sent. Otherwise the echoed parameters, the total and the items, with the flags page*limit < total and page > 1. Repository items are marked only for a signed-in user. |
| UserCrud.FindByEmail | github-marker-backend/app/crud/user_crud.py:23-26 | None exactly when no row has that email. Otherwise such a row. |
| UserCrud.FindById | github-marker-backend/app/crud/user_crud.py:28-31 | None exactly when no row has that id. Otherwise such a row. |
| UserCrud.FindByEmailExact | github-marker-backend/app/crud/user_crud.py:23-26 | With unique emails, the lookup finds the one row of that email. |
| UserCrud.FindByIdExact | github-marker-backend/app/crud/user_crud.py:28-31 | With increasing ids, the lookup finds the one row of that id. |
| UserCrud.UserTable.constructor | github-marker-backend/app/crud/user_crud.py:11 | An empty, valid table. |
| UserCrud.UserTable.GetByEmail | github-marker-backend/app/crud/user_crud.py:23-26 | As FindByEmail, on the table. |
| UserCrud.UserTable.GetById | github-marker-backend/app/crud/user_crud.py:28-31 | As FindById, on the table. |
| UserCrud.UserTable.Create | github-marker-backend/app/crud/user_crud.py:11-21 | A taken email gives 400 "Email already registered" and nothing changes. Otherwise one new row storing the hash, found afterwards by email and by id. |
| PasswordPattern.LookaheadAnywhere | github-marker-backend/app/schemas/user.py:9 | Once every element matches `.`, a `(?=.*C)` lookahead holds exactly when some element is in C. |
| PasswordPattern.MatchesIffStrong | github-marker-backend/app/schemas/user.py:9 | The anchored pattern matches exactly the inputs that are at least eight `.`-elements long and contain a lowercase letter, an uppercase letter, a digit and a special character. |
| UserSchema.ValidatePasswordStrength | github-marker-backend/app/schemas/user.py:7-12 | The value is returned exactly when the pattern matches it whole. Otherwise 422 with the password message. |
| UserSchema.StrongPasswordChars | github-marker-backend/app/schemas/user.py:9 | A strong password has 8+ characters and no line feed. It has a lowercase letter, an uppercase letter, a Unicode decimal digit and a special character. |
| UserSchema.NameIssues | github-marker-backend/app/schemas/user.py:16-21 | No issue exactly when 2 ≤ length ≤ 200, in code points. |
| UserSchema.PasswordIssues | github-marker-backend/app/schemas/user.py:26-35 | No issue exactly when the strength check passes. |
| UserSchema.UserCreateIssues | github-marker-backend/app/schemas/user.py:15-35 | No issues exactly when the name, email and password are all valid. At most one issue per field. |
| UserSchema.LengthBoundRedundant | github-marker-backend/app/schemas/user.py:28-35 | A password under eight characters fails the pattern too. min_length only decides which issue is reported. |
| QueryClient.Invalidated | github-marker-frontend/src/api/bookmarks/bookmarks.query.ts:94 | Same keys. Entries under the prefix become stale with their data kept, and the others are unchanged. |
| QueryClient.Updated | github-marker-frontend/src/api/bookmarks/bookmarks.query.ts:97-110 | Same keys. The updater is applied under the prefix, and the others are unchanged. |
| QueryClient.Client.constructor | github-marker-frontend/src/api/bookmarks/bookmarks.query.ts:88 | An empty cache. |
| QueryClient.Client.GetQueryData | github-marker-frontend/src/api/bookmarks/bookmarks.query.ts:42 | The data cached under the key, or none. |
| QueryClient.Client.Store | github-marker-frontend/src/api/bookmarks/bookmarks.query.ts:31-35 | A completed fetch stores fresh data under its key. |
| QueryClient.Client.InvalidateQueries | github-marker-frontend/src/api/bookmarks/bookmarks.query.ts:94 | The cache becomes Invalidated of the old cache. |
| QueryClient.Client.SetQueriesData | github-marker-frontend/src/api/bookmarks/bookmarks.query.ts:97-110 | The cache becomes Updated of the old cache. |
| GithubQuery.TextQueryEnabled | github-marker-frontend/src/api/github/github.query.ts:23 | A search runs exactly when it is enabled and its text is non-empty. |
| GithubQuery.RepositoryQueryEnabled | github-marker-frontend/src/api/github/github.query.ts:63 | Runs exactly when enabled and both owner and name are non-empty. |
| GithubQuery.SearchReposKeyUnderPatchPrefix | github-marker-frontend/src/api/github/github.query.ts:34 | Repository-search keys fall under ["github","search","repositories"] and not under ["github","user"]. |
| GithubQuery.UserReposKeyUnderPatchPrefix | github-marker-frontend/src/api/github/github.query.ts:49 | User-repository keys fall under ["github","user"] and not under the search prefix. |
| GithubQuery.OtherGithubKeysUnpatched | github-marker-frontend/src/api/github/github.query.ts:21-61 | User-search keys and single-repository keys fall under neither patch prefix. |
| GithubQuery.KeyBuildersInjective | github-marker-frontend/src/api/github/github.query.ts:21-49 | Distinct arguments give distinct keys. |
| BookmarksQuery.BookmarkKeysUnderPrefix | github-marker-frontend/src/api/bookmarks/bookmarks.query.ts:32-77 | Every bookmark key falls under ["bookmarks"]. Stats keys differ by days and are never patched. |
| BookmarksQuery.AnyWithRepo | github-marker-frontend/src/api/bookmarks/bookmarks.query.ts:61 | `some` holds exactly when an item has that repository id. |
| BookmarksQuery.IsBookmarked | github-marker-frontend/src/api/bookmarks/bookmarks.query.ts:52-66 | False without a list. Otherwise true exactly when an item has that repository. |
| BookmarksQuery.FirstWithRepo | github-marker-frontend/src/api/bookmarks/bookmarks.query.ts:46 | The first position with that repository, or the length. |
| BookmarksQuery.FindByRepo | github-marker-frontend/src/api/bookmarks/bookmarks.query.ts:46 | Absent exactly when no item has that repository. Otherwise an item of it. |
| BookmarksQuery.GetBookmark | github-marker-frontend/src/api/bookmarks/bookmarks.query.ts:38-50 | Found exactly when IsBookmarked holds, and it is of that repository. |
| BookmarksQuery.Served | github-marker-backend/app/schemas/bookmark.py:22-24 | A served list item has the row's full name; as written no repository id, corrected the row's. |
| BookmarksQuery.ServedList | github-marker-backend/app/schemas/bookmark.py:32-38 | One served item per row, in order. |
| BookmarksQuery.ServedListNeverMatches | github-marker-frontend/src/api/bookmarks/bookmarks.query.ts:46-60 | As written, no served list reports any repository as bookmarked or finds its bookmark. |
| BookmarksQuery.BookmarkedRepoNotFound | github-marker-frontend/src/api/bookmarks/bookmarks.query.ts:60 | A served list holding a bookmark of repository 7 does not report 7 as bookmarked. |
| BookmarksQuery.CorrectedListMatches | github-marker-frontend/src/api/bookmarks/bookmarks.query.ts:46-60 | Corrected, a repository is bookmarked exactly when a served row is of it, and the bookmark found is the first such row. |
| BookmarksQuery.LookupEnabled | github-marker-frontend/src/api/bookmarks/bookmarks.query.ts:48 | The lookups run exactly when the caller enables them and the list has been fetched. |
| BookmarksQuery.MarkAdded | github-marker-frontend/src/api/bookmarks/bookmarks.query.ts:103-107 | Copies of that repository become added with the new id. Nothing else changes. |
| BookmarksQuery.MarkRemoved | github-marker-frontend/src/api/bookmarks/bookmarks.query.ts:144-148 | Copies carrying that bookmark id become not added, without an id. Nothing else changes. |
| BookmarksQuery.MarkAddedIdempotent | github-marker-frontend/src/api/bookmarks/bookmarks.query.ts:103-107 | Marking twice is marking once. |
| BookmarksQuery.MarkRemovedIdempotent | github-marker-frontend/src/api/bookmarks/bookmarks.query.ts:144-148 | Unmarking twice is unmarking once. |
| BookmarksQuery.RemoveUndoesAdd | github-marker-frontend/src/api/bookmarks/bookmarks.query.ts:103-148 | Removing the bookmark an add just recorded leaves that repository not added and without an id. |
| BookmarksQuery.UpdatersKeepShape | github-marker-frontend/src/api/bookmarks/bookmarks.query.ts:99-163 | An absent entry stays absent. A search response keeps its total_count, and its items are marked. |
| BookmarksQuery.PrefixesDisjoint | github-marker-frontend/src/api/bookmarks/bookmarks.query.ts:94-114 | No key falls under two of the three prefixes. |
| BookmarksQuery.AfterAddEffect | github-marker-frontend/src/api/bookmarks/bookmarks.query.ts:92-124 | For each entry after an add: bookmark queries become stale, search and user-repository entries are patched, and every other entry is unchanged. |
| BookmarksQuery.AfterRemoveEffect | github-marker-frontend/src/api/bookmarks/bookmarks.query.ts:133-165 | The same for a removal. |
| BookmarksQuery.AfterAddIdempotent | github-marker-frontend/src/api/bookmarks/bookmarks.query.ts:92-124 | Handling the same add twice is handling it once. |
| BookmarksQuery.AfterRemoveIdempotent | github-marker-frontend/src/api/bookmarks/bookmarks.query.ts:133-165 | Handling the same removal twice is handling it once. |
| BookmarksQuery.OnAddSuccess | github-marker-frontend/src/api/bookmarks/bookmarks.query.ts:92-124 | The cache becomes AfterAdd of the old cache. |
| BookmarksQuery.OnRemoveSuccess | github-marker-frontend/src/api/bookmarks/bookmarks.query.ts:133-165 | The cache becomes AfterRemove of the old cache. |
| BookmarksQuery.OnImportSuccess | github-marker-frontend/src/api/bookmarks/bookmarks.query.ts:174-176 | Only the bookmark queries become stale. |
| AxiosClient.Decide | github-marker-frontend/src/lib/axiosclient.ts:54-92 | A refresh starts exactly on a first 401 ACCESS_TOKEN_EXPIRED while none is running. A request is queued exactly on one while a refresh is running. As written, everything else passes through. |
| AxiosClient.SettleInOrder | github-marker-frontend/src/lib/axiosclient.ts:21-30 | Every queued entry is settled once, in order: all resolved, or all rejected with the error. |
| AxiosClient.Coordinator.constructor | github-marker-frontend/src/lib/axiosclient.ts:15-19 | Not refreshing, with an empty queue. |
| AxiosClient.Coordinator.ProcessQueue | github-marker-frontend/src/lib/axiosclient.ts:21-30 | Settles the old queue in order and empties it. |
| AxiosClient.Coordinator.RequestFailed | github-marker-frontend/src/lib/axiosclient.ts:54-92 | The interceptor: it passes through, queues, or marks the request `_retry` and sends one refresh. No second refresh is sent while one runs. A stuck coordinator stays stuck. |
| AxiosClient.Coordinator.RefreshAnswered | github-marker-frontend/src/lib/axiosclient.ts:77-88 | On success: the queue is resolved, the starter is replayed and refreshing ends. On an error that queues: the coordinator is stuck, holding its own refresh call. On another error: the queue is rejected, then the redirect, and the starter is rejected. |
| AxiosClient.ExpiredRefreshQueuedBehindItself | github-marker-frontend/src/lib/axiosclient.ts:58-72 | The refresh call's own expiry answer is queued behind the refresh in progress. |
| AxiosClient.GuardedRefreshNeverQueued | github-marker-frontend/src/lib/axiosclient.ts:62 | With the auth endpoints excluded, the refresh call's answer always passes through. |
| AxiosClient.ReplayCanRefreshAgain | github-marker-frontend/src/lib/axiosclient.ts:65-72 | A replayed queued request is not marked `_retry`, so it can start another refresh. |
| AxiosClient.RetriedRequestPassesThrough | github-marker-frontend/src/lib/axiosclient.ts:61 | A request already marked `_retry` never refreshes again. |
| AxiosClient.ExpiredRefreshScenario | github-marker-frontend/src/lib/axiosclient.ts:54-92 | Two expired requests, then an expired refresh: the client is stuck, with one refresh sent and nothing settled. |
| AxiosClient.GuardedRefreshScenario | github-marker-frontend/src/lib/axiosclient.ts:54-92 | The same events with the guard: the queue is rejected, the user is sent to login, and the coordinator is idle. |
| Session.RefreshEndpointCheck | github-marker-backend/app/routers/auth.py:42-46 | A missing or empty refresh cookie gives 401 "Missing refresh token". Otherwise it is verified as a refresh token. |
| Session.ExpiredAccessTokenStartsRefresh | github-marker-backend/app/middleware/auth_middleware.py:70-77 | An expired access token on a protected path gives the 401 expiry signal, and a first-time request then starts a refresh. |
| Session.ExpiredRefreshTokenStallsClient | github-marker-frontend/src/lib/axiosclient.ts:58-72 | /auth/refresh skips the middleware. An expired refresh token answers with the same signal, which the client as written queues behind itself and the guarded client passes through. It assumes the browser still sends the expired cookie; StallWindow says when it does. |
| Session.SentRefreshCookie | github-marker-backend/app/utils/security.py:20-30 | The refresh cookie, with Max-Age the refresh token's lifetime, is sent exactly until its expiry time has passed. |
| Session.LapsedCookieEndsSession | github-marker-backend/app/routers/auth.py:42-44 | Once the cookie has lapsed, the endpoint answers 401 "Missing refresh token", which the client as written passes through. |
| Session.StallWindow | github-marker-backend/app/utils/security.py:20-30 | With the default lifetime, the refresh endpoint answers the expiry signal exactly after the token's exp and before the cookie lapses, a window as long as the delay between issuing the token and storing the cookie. |
| SearchPagination.PreviousTarget | github-marker-frontend/src/components/SearchPagination.tsx:30-34 | Asks for page − 1 exactly when the current page is above 1. |
| SearchPagination.NextTarget | github-marker-frontend/src/components/SearchPagination.tsx:36-38 | The page after the current one. |
| SearchPagination.NextThenPrevious | github-marker-frontend/src/components/SearchPagination.tsx:30-38 | From any page, next then previous comes back to it. |
| SearchPagination.PrevDisabled | github-marker-frontend/src/components/SearchPagination.tsx:40 | !hasPrev when given, else page == 1. |
| SearchPagination.NextDisabled | github-marker-frontend/src/components/SearchPagination.tsx:41 | Disabled exactly when hasNext is given and false. |
| SearchPagination.PreviousFollowsServer | github-marker-frontend/src/components/SearchPagination.tsx:30-51 | With the server's flag, previous is disabled exactly when it would ask for nothing. When clickable, it asks for page − 1. |
| SearchPagination.AllPages | github-marker-frontend/src/components/SearchPagination.tsx:60 | 1..totalPages in order, and nothing for a non-positive total. |
| SearchPagination.KeepPages | github-marker-frontend/src/components/SearchPagination.tsx:61-66 | Exactly the kept pages, in order. |
| SearchPagination.VisiblePages | github-marker-frontend/src/components/SearchPagination.tsx:60-66 | Strictly increasing. Exactly the pages in range that the filter keeps. |
| SearchPagination.AtMostFive | github-marker-frontend/src/components/SearchPagination.tsx:62-65 | Beyond seven pages, at most five numbers show. |
| SearchPagination.AlwaysShown | github-marker-frontend/src/components/SearchPagination.tsx:62-64 | The first page, the last page and an existing current page always show. Up to seven pages, all of them show. |
| SearchPagination.Items | github-marker-frontend/src/components/SearchPagination.tsx:67-87 | The links are the pages in order and the last item is the last page's link. Every ellipsis stands between two links more than one page apart, two neighbouring links are at most one page apart, so there is exactly one ellipsis per gap. A link is active exactly when it shows the current page. |
| SearchPagination.AppendPlaced | github-marker-frontend/src/components/SearchPagination.tsx:67-87 | Appending one page's items keeps every ellipsis between a gap and every link marked. |
| SearchPagination.Bar | github-marker-frontend/src/components/SearchPagination.tsx:58-95 | Without page numbers or with a falsy total, a single active link for the current page. Otherwise the visible pages, with ellipses exactly at the gaps. The active link is the current page's, and there is at most one. |
| SearchPagination.EllipsesShown | github-marker-frontend/src/components/SearchPagination.tsx:67-75 | No ellipsis up to seven pages, and never more than two. |
| SearchPagination.InnerPagesAdjacent | github-marker-frontend/src/components/SearchPagination.tsx:61-66 | Between the first and the last shown page, the shown pages are consecutive. |
| SearchPagination.OneActiveLink | github-marker-frontend/src/components/SearchPagination.tsx:79 | An existing current page is the one active link. |
| RepositoryCard.Optimistic | github-marker-frontend/src/components/RepositoryCard.tsx:21-27 | Only isAdded changes. |
| RepositoryCard.Card.constructor | github-marker-frontend/src/components/RepositoryCard.tsx:18-27 | Shows the repository as given, with nothing pending. |
| RepositoryCard.Card.Toggle | github-marker-frontend/src/components/RepositoryCard.tsx:29-55 | It removes exactly when the card shows the repository as added with a truthy id, and adds otherwise. It flips the shown flag to the request's and marks that mutation pending. |
| RepositoryCard.Card.Succeeded | github-marker-frontend/src/components/RepositoryCard.tsx:35-37 | Only that request's pending flag clears. |
| RepositoryCard.Card.Failed | github-marker-frontend/src/components/RepositoryCard.tsx:38-52 | The flag is set opposite to what the request showed, and its pending flag clears. |
| RepositoryCard.Click | github-marker-frontend/src/components/RepositoryCard.tsx:32-45 | Remove exactly when WillRemove holds, with the bookmark id. Otherwise add the repository id. |
| RepositoryCard.FailedClickRestores | github-marker-frontend/src/components/RepositoryCard.tsx:29-55 | A failed click restores the card exactly when its flag agrees with its id. |
| RepositoryCard.ClickFlipsWhenConsistent | github-marker-frontend/src/components/RepositoryCard.tsx:29-55 | On a consistent card, a click flips the flag. |
| RepositoryCard.ClickAndFail | github-marker-frontend/src/components/RepositoryCard.tsx:29-81 | Click then failure gives back the card as it was, enabled again. |
| Dashboard.Without | github-marker-frontend/src/pages/Dashboard.tsx:26-29 | Exactly the bookmarks of another id. Unchanged when no bookmark has that id. |
| Dashboard.WithoutAppend | github-marker-frontend/src/pages/Dashboard.tsx:28 | The filter keeps the list's order. |
| Dashboard.WithoutIdempotent | github-marker-frontend/src/pages/Dashboard.tsx:28 | Removing twice is removing once. |
| Dashboard.Shown | github-marker-frontend/src/pages/Dashboard.tsx:25 | The items, or none before the first answer. |
| Dashboard.Total | github-marker-frontend/src/pages/Dashboard.tsx:91 | The total, or 0. |
| Dashboard.TotalPages | github-marker-frontend/src/pages/Dashboard.tsx:98 | Math.ceil: the least number of pages that holds the total. |
| Dashboard.PagerPages | github-marker-frontend/src/pages/Dashboard.tsx:91-98 | A shown pager offers at least two pages. |
| Dashboard.Page.constructor | github-marker-frontend/src/pages/Dashboard.tsx:21-29 | Shows the fetched list, with no dialog. |
| Dashboard.Page.HandleRemove | github-marker-frontend/src/pages/Dashboard.tsx:32-34 | Asks about that id. The dialog opens exactly when the id is non-empty. |
| Dashboard.Page.CloseDialog | github-marker-frontend/src/pages/Dashboard.tsx:36-38 | Drops the question. |
| Dashboard.Page.ConfirmDelete | github-marker-frontend/src/pages/Dashboard.tsx:40-58 | Without a pending id, nothing. Otherwise that id leaves the shown list, the dialog closes, and exactly that id's removal is requested. |
| Dashboard.DeleteShown | github-marker-frontend/src/pages/Dashboard.tsx:32-58 | Confirming a shown bookmark requests its id and takes it, and only its id, off the list. |
| SearchPage.UsersEnabled | github-marker-frontend/src/pages/Searchpage.tsx:25-30 | Runs exactly in users mode with a submitted search. |
| SearchPage.ReposEnabled | github-marker-frontend/src/pages/Searchpage.tsx:32-37 | Runs exactly in repositories mode with a submitted search and no selected user. |
| SearchPage.UserReposEnabled | github-marker-frontend/src/pages/Searchpage.tsx:39-44 | Runs exactly when a user is selected. |
| SearchPage.QueriesExclusive | github-marker-frontend/src/pages/Searchpage.tsx:25-44 | The user search never runs with the repository search, nor does the repository search run with the user's list. |
| SearchPage.Search.constructor | github-marker-frontend/src/pages/Searchpage.tsx:16-23 | The initial state. |
| SearchPage.Search.Type | github-marker-frontend/src/pages/Searchpage.tsx:16 | Only the typed query changes. |
| SearchPage.Search.Submit | github-marker-frontend/src/pages/Searchpage.tsx:54-61 | A blank query changes nothing. Otherwise the trimmed query becomes the search, the user is deselected and page 1 is shown. A submitted search is always trimmed. |
| SearchPage.Search.SwitchMode | github-marker-frontend/src/pages/Searchpage.tsx:107-124 | Sets the mode, deselects the user and shows page 1. |
| SearchPage.Search.SelectUser | github-marker-frontend/src/pages/Searchpage.tsx:63-66 | That user's repositories, from page 1. |
| SearchPage.Search.BackToUsers | github-marker-frontend/src/pages/Searchpage.tsx:68-70 | Deselects the user and keeps the page. |
| SearchPage.Search.SetPage | github-marker-frontend/src/pages/Searchpage.tsx:20 | Only the page changes. |
| SearchPage.Search.SyncTotals | github-marker-frontend/src/pages/Searchpage.tsx:47-52 | Each total takes the search's total_count when there is data, and is kept otherwise. |
| SearchPage.SearchUsersFor | github-marker-frontend/src/pages/Searchpage.tsx:54-61 | Submitting text in users mode runs the user search for the trimmed text from page 1, and no other query. |
| FieldError.Kept | github-marker-frontend/src/components/ui/field.tsx:62-66 | The non-empty texts, in order. Empty exactly when every text is empty. |
| FieldError.KeptOne | github-marker-frontend/src/components/ui/field.tsx:62-66 | One entry is kept exactly when its text is non-empty. |
| FieldError.KeptAppend | github-marker-frontend/src/components/ui/field.tsx:62-66 | The kept texts of a concatenation are the halves' kept texts in order; with KeptOne this fixes the result for lists mixing empty and non-empty texts. |
| FieldError.Body | github-marker-frontend/src/components/ui/field.tsx:61-71 | Never an empty body. With an error list, even an empty one, the body is the ", "-join of the kept texts, and nothing renders exactly when all texts are empty. Without a list, the truthy children. |
| FieldError.EveryMessageShown | github-marker-frontend/src/components/ui/field.tsx:61-66 | Every error text appears in the body, at its place in the join. |
| FieldError.FromIssues | github-marker-frontend/src/components/ui/field.tsx:64 | Each issue becomes its message. |
| FieldError.EmptyNameMessage | github-marker-frontend/src/pages/RegisterPage.tsx:19 | An empty name shows "Name is required, Name must be at least 2 characters". |
| RegisterForm.Units | github-marker-frontend/src/pages/RegisterPage.tsx:23 | One code unit below U+10000, otherwise two surrogates. |
| RegisterForm.BmpLength | github-marker-frontend/src/pages/RegisterPage.tsx:19 | In the Basic Multilingual Plane, `length` counts characters. |
| RegisterForm.SomeUnit | github-marker-frontend/src/pages/RegisterPage.tsx:23 | A unit class is met exactly when its character class is met. |
| RegisterForm.EveryUnit | github-marker-frontend/src/pages/RegisterPage.tsx:23 | Every unit is in its class exactly when every character is in its class. |
| RegisterForm.UnitClassesAgree | github-marker-frontend/src/pages/RegisterPage.tsx:23 | Apart from length, the pattern's classes over code units agree with those over characters. |
| RegisterForm.FormPatternByCharacters | github-marker-frontend/src/pages/RegisterPage.tsx:23 | Without the `u` flag the pattern counts code units toward eight; with it, characters. |
| RegisterForm.JsLengthZero | github-marker-frontend/src/pages/RegisterPage.tsx:19-24 | Length 0 exactly for the empty string. |
| RegisterForm.NameIssues | github-marker-frontend/src/pages/RegisterPage.tsx:19 | No issue exactly when the length is at least 2 code units. "Name is required" exactly for the empty name. |
| RegisterForm.PasswordIssues | github-marker-frontend/src/pages/RegisterPage.tsx:21-23 | No issue exactly when the pattern matches. |
| RegisterForm.ConfirmIssues | github-marker-frontend/src/pages/RegisterPage.tsx:24-28 | No issue exactly when the confirmation is non-empty and equal. "Passwords don't match" exactly when they differ. |
| RegisterForm.RegisterIssues | github-marker-frontend/src/pages/RegisterPage.tsx:18-28 | No issues exactly when every field passes. The mismatch is reported whatever else fails. |
| RegisterForm.AstralPasswordAccepted | github-marker-frontend/src/pages/RegisterPage.tsx:23 | "Aa1!😀😀" (six characters) passes the form's pattern but is refused by the server. |
| RegisterForm.UnicodePatternAgrees | github-marker-frontend/src/pages/RegisterPage.tsx:23 | With the `u` flag, every password the form accepts, if free of the line terminators \r, U+2028 and U+2029, is accepted by the server. |
| RegisterForm.RegistrationAgreement | github-marker-frontend/src/pages/RegisterPage.tsx:18-28 | A registration the corrected form accepts is accepted by the server, given a valid email and a name in the Basic Multilingual Plane of at most 200 characters. |
| RegisterForm.AstralNameAccepted | github-marker-frontend/src/pages/RegisterPage.tsx:19 | One emoji passes the form's name check but is too short for the server. |
| AuthStore.Store.constructor | github-marker-frontend/src/store/authStore.ts:13-16 | No user, loading, not authenticated. |
| AuthStore.Store.SetUser | github-marker-frontend/src/store/authStore.ts:17 | Stores the user. Authenticated exactly when a user is given. Loading ends. |
| AuthStore.Store.SetLoading | github-marker-frontend/src/store/authStore.ts:18 | Only the loading flag changes. |
| AuthStore.Store.ClearUser | github-marker-frontend/src/store/authStore.ts:19 | No user, not authenticated, not loading. |
| AuthStore.SignInThenOut | github-marker-frontend/src/store/authStore.ts:13-20 | Authenticated between sign-in and sign-out, not after, and not loading. |
| ErrorHandler.Piece | github-marker-frontend/src/utils/errorHandler.ts:11-14 | The field, then ": " and the message, and nothing else (its length is theirs plus two). Never empty. |
| ErrorHandler.Pieces | github-marker-frontend/src/utils/errorHandler.ts:10-14 | One text per error, in order. |
| ErrorHandler.FormatPydanticErrors | github-marker-frontend/src/utils/errorHandler.ts:4-19 | A falsy or unknown detail gives "An error occurred". A non-empty string is returned as is. A list gives the ", "-join of its texts. |
| ErrorHandler.ErrorShown | github-marker-frontend/src/utils/errorHandler.ts:10-15 | Each error's "field: msg" appears at its place in the join. |
| ErrorHandler.FormattedEmpty | github-marker-frontend/src/utils/errorHandler.ts:4-19 | The text is empty exactly for an empty list. |
| ErrorHandler.GetErrorMessage | github-marker-frontend/src/utils/errorHandler.ts:22-31 | A response error always gives a non-empty text: the formatted detail, else the message, else the generic text. An Error gives its message, and anything else gives the generic text. |
| ErrorHandler.FirstErrorLeads | github-marker-frontend/src/utils/errorHandler.ts:9-15 | A 422 list's text starts with the first error's "field: msg". |
| Text.Strip | github-marker-backend/app/core/config.py:30 | Never longer than the input, and neither end is whitespace. It is the slice of the input starting after its leading whitespace, and everything after it is whitespace. |
| Text.StripChars | github-marker-backend/app/core/config.py:30 | Stripping only drops characters, and gives "" exactly for an all-whitespace input. |
| Text.StripIdempotent | github-marker-frontend/src/pages/Searchpage.tsx:56-57 | Stripping twice is stripping once. |
| Text.Split | github-marker-backend/app/utils/helpers.py:23-24 | Pieces without the separator whose join is the input. One piece exactly when there is no separator. |
| Text.JoinOccurs | github-marker-frontend/src/utils/errorHandler.ts:15 | Every part appears in the joined text at its offset. |

## Left out

- **Network, crypto and clocks.** GitHub's HTTP answers, JWT signing and decoding, password hashing and the current time are parameters. The model does not model them.
- **CSV decoding.** UTF-8 decoding and csv.reader are left out. The import starts from the parsed rows.
- **UUID path parameter.** The bookmark id is a natural number. FastAPI's 422 for a malformed UUID is not modelled.
- **FastAPI's 422 detail.** Query validation answers `Paging.InvalidQuery`. The list of errors FastAPI puts in its detail is not modelled.
- **Email and Unicode digits.** EmailStr's syntax and the Unicode decimal-digit class used by Python's `\d` are parameters (`isEmail`, `isDecimal`).
- **UserLogin** (user.py:53-61) declares two fields and has no logic. It is not modelled.
- **Name column length.** The users table's name column length is not part of this model. The schema's 200 limit is.
- **Other zod behaviour.** Only the checks registerSchema uses are modelled. Its email check is a parameter.
- **React rendering and scheduling.**
  - Hooks, re-renders and toasts are left out.
  - `useOptimistic` reverting to the prop when a transition ends is not modelled.
  - The dashboard and the repository card keep the optimistic value until the next fetch or failure.
- **FieldError children.** Only text children are modelled. Elements passed as children are out of scope.
- **Concurrency.** Each request is handled as one atomic step. Interleaved requests and database transactions are not modelled.
- **The request interceptor** of axiosclient.ts:38-47 passes the configuration through unchanged. It is not modelled.
- **The unreachable 400 branch.** GithubRouter.SearchGithubEndpoint shows that github.py:48-53 cannot be reached, because FastAPI refuses other search types first.
- **is_repo_bookmarked without ORDER BY.** `.first()` is modelled as the first matching row in table order.
- GetUserBookmarks (BookmarkCrud.BookmarkTable.GetUserBookmarks): ids come from a counter, so descending id order is reverse creation order here. The source's ids are uuid4 values (models/bookmark.py:11), and ordering by them (bookmark_crud.py:92) gives no creation order; the model does not claim the listing is newest first, and does not model uuid order.
- FromIsoFormat (Helpers.FromIsoFormat): accepts exactly the form YYYY-MM-DD, as date.fromisoformat does up to Python 3.10. From Python 3.11 on it also accepts forms such as "20240229" and "2024-W09-4"; under those versions the source accepts dates the model refuses.
- ParseDateOrNone (Helpers.ParseDateOrNone): inherits that reading, so its 400 for "20240229" holds only up to Python 3.10.
- BuildBookmark (GithubService.BuildBookmark): refuses integer fields given as the string "5", the float 5.0 or a boolean, which pydantic's lax mode coerces and accepts. Its 422 detail is the fixed prefix; the source appends ": " and pydantic's error text, which is not modelled.
- SearchResult (GithubService.SearchResult): its items are already typed. A search item that fails `GitHubUser(**item)` or `GitHubRepo(**item)` (github_service.py:91, 116) raises a ValidationError that neither except clause catches, so the request ends as a 500; the model cannot express that outcome.
- SearchRepositories (GithubService.SearchRepositories): the same 500 on an item that fails `GitHubRepo(**item)` is not modelled.
- **Autoflush in the import.** `get_bookmark_by_full_name` (bookmarks.py:162) sees the rows added earlier in the same import only because the session autoflushes before the query, as SQLAlchemy's default session does. BookmarksRouter.AlreadyBookmarked counts those rows as existing on that basis; a session without autoflush would not.
- **The save failure branch.** The `except Exception` at bookmarks.py:184-186 ("Failed to save bookmark for …") is not modelled: building `Bookmark(...)` from a validated item and `db.add` do not raise, so the model has no such outcome.

## Findings

| source | as written | input that shows it | evidently intended | confidence | as-written member | corrected member |
|---|---|---|---|---|---|---|
| github-marker-backend/app/routers/bookmarks.py:162 | When GitHub answers 404, `validate_github_repo` returns None, and `item_in.full_name` then raises AttributeError. The whole import answers 500 and commits nothing. | A CSV row "octocat/does-not-exist" whose lookup answers 404 | The row fails with "Repo not found on GitHub: …", as the branch at lines 187-189 was written to report, and the import goes on | not executed | BookmarksRouter.MissingRepoImport | BookmarksRouter.CorrectedImportCompletes |
| github-marker-frontend/src/lib/axiosclient.ts:62-72 | The comment promises to skip refresh for the auth endpoints, but no check follows. When the refresh call carries an expired refresh token, /auth/refresh answers 401 ACCESS_TOKEN_EXPIRED while the refresh is running. The cookie's Max-Age equals the token's lifetime (security.py:20-30), so the browser sends an expired token only in a window as long as the delay between issuing the token and storing the cookie; after that the answer is "Missing refresh token", which passes through (Session.StallWindow, Session.LapsedCookieEndsSession). The interceptor then queues the refresh call behind itself. That promise never settles, so the queue is never drained and the redirect to login never happens. | Two requests made after the access token has expired, whose refresh call is sent after the refresh token's exp but before its cookie lapses | The refresh call's failure passes through, the queue is rejected, and the user is sent to the login page | not executed | AxiosClient.ExpiredRefreshQueuedBehindItself | AxiosClient.GuardedRefreshNeverQueued |
| github-marker-frontend/src/pages/RegisterPage.tsx:23 | The pattern has no `u` flag, so `.{8,}` counts UTF-16 code units, and a password of six characters with two emoji passes. The server counts code points and refuses it with 422. | "Aa1!😀😀" | The form accepts only passwords the server accepts, which the `u` flag gives | not executed | RegisterForm.AstralPasswordAccepted | RegisterForm.UnicodePatternAgrees |
| github-marker-backend/app/schemas/bookmark.py:22-24 | The list items are serialised as BookmarkOut, which declares no github_repo_id field. The frontend's lookups compare `b.github_repo_id === repoId`, which is then never true, so no repository shows as bookmarked from the list. | A user with a bookmark of repository 7 whose list is fetched; useIsBookmarked(7) gives false | The list items carry the repository id, and the lookups find the user's bookmark of that repository | not executed | BookmarksQuery.ServedListNeverMatches | BookmarksQuery.CorrectedListMatches |
