/** The backend's GitHub service: how an HTTP answer from GitHub is classified,
    how a repository's JSON becomes a bookmark description, the owner/repo check,
    the two searches and the marking of already bookmarked repositories. The HTTP
    calls themselves are parameters: `fetch` gives GitHub's answer for a URL. */
module GithubService {
  import opened Wrappers
  import opened Text
  import Config
  import opened BookmarkCrud

  /** What a GET to GitHub yields: a transport error (httpx.RequestError), or a
      response with its status, its text and its parsed body. */
  datatype HttpOutcome<B> = RequestError(message: string) | Response(status: int, text: string, body: B)

  /** At most the first `n` characters (Python's `text[:n]`). */
  function Truncate(s: string, n: nat): (r: string)
    ensures |r| <= n && StartsWith(s, r)
    ensures |s| <= n ==> r == s
  {
    if |s| <= n then s else s[..n]
  }

  /** The detail of the 502 raised for a GitHub error status. */
  function BadGatewayDetail(status: int, text: string): string {
    "GitHub returned status " + IntToString(status) + ": " + Truncate(text, 300)
  }

  /** _get_json: a transport error is a 503, a 404 is no data, any other status from
      400 up is a 502, and anything below 400 is the parsed body. */
  function GetJson<B>(o: HttpOutcome<B>): (r: Result<Option<B>>)
    ensures r == Ok(None) <==> o.Response? && o.status == 404
    ensures (r.Ok? && r.value.Some?) <==> o.Response? && o.status < 400
    ensures r.Ok? && r.value.Some? ==> r.value.value == o.body
    ensures o.RequestError? ==> r == Err(HttpError(503, "Failed to connect to GitHub: " + o.message))
    ensures o.Response? && o.status >= 400 && o.status != 404 ==>
      r == Err(HttpError(502, BadGatewayDetail(o.status, o.text)))
  {
    match o
    case RequestError(msg) => Err(HttpError(503, "Failed to connect to GitHub: " + msg))
    case Response(status, text, body) =>
      if status == 404 then Ok(None)
      else if status >= 400 then Err(HttpError(502, BadGatewayDetail(status, text)))
      else Ok(Some(body))
  }

  /** The errors _get_json raises are exactly 502 and 503, and a 502's detail carries at
      most 300 characters of GitHub's text. */
  lemma GetJsonErrors<B>(o: HttpOutcome<B>)
    ensures GetJson(o).Err? ==> GetJson(o).error.status in {502, 503}
    ensures GetJson(o).Err? <==> o.RequestError? || (o.status >= 400 && o.status != 404)
    ensures o.Response? && GetJson(o).Err? ==>
      var prefix := "GitHub returned status " + IntToString(o.status) + ": ";
      StartsWith(GetJson(o).error.detail, prefix) && |GetJson(o).error.detail| <= |prefix| + 300
  {
    if o.Response? && GetJson(o).Err? {
      var prefix := "GitHub returned status " + IntToString(o.status) + ": ";
      assert GetJson(o).error.detail == prefix + Truncate(o.text, 300);
      assert (prefix + Truncate(o.text, 300))[..|prefix|] == prefix;
    }
  }

  /** A JSON value as far as the service looks at it. */
  datatype JValue = JStr(s: string) | JInt(i: int) | JNull | JOther

  /** The owner object of a repository; a missing key is None. */
  datatype OwnerJson = OwnerJson(login: Option<JValue>, id: Option<JValue>, avatarUrl: Option<JValue>, htmlUrl: Option<JValue>)

  /** A repository object; `owner` None stands for a missing, null or empty owner. */
  datatype RepoJson = RepoJson(
    name: Option<JValue>, htmlUrl: Option<JValue>, id: Option<JValue>,
    description: Option<JValue>, owner: Option<OwnerJson>)

  /** A required `str` field: present and a string. */
  predicate IsStr(v: Option<JValue>) {
    v.Some? && v.value.JStr?
  }

  /** A required `int` field: present and an integer. */
  predicate IsInt(v: Option<JValue>) {
    v.Some? && v.value.JInt?
  }

  /** A `str | None` field: missing, null or a string. */
  predicate IsOptStr(v: Option<JValue>) {
    v.None? || v.value.JNull? || v.value.JStr?
  }

  function OptStr(v: Option<JValue>): Option<string> {
    if v.Some? && v.value.JStr? then Some(v.value.s) else None
  }

  /** `repo.get("owner") or {}`. */
  function OwnerOf(repo: RepoJson): OwnerJson {
    if repo.owner.Some? then repo.owner.value else OwnerJson(None, None, None, None)
  }

  /** Whether the payload passes BookmarkCreate's validation. */
  predicate Validates(repo: RepoJson) {
    var owner := OwnerOf(repo);
    && IsStr(repo.name) && IsStr(repo.htmlUrl) && IsInt(repo.id)
    && IsStr(owner.login) && IsInt(owner.id) && IsOptStr(owner.avatarUrl) && IsStr(owner.htmlUrl)
    && IsOptStr(repo.description)
  }

  const ParseErrorDetail := "Failed to parse GitHub repo data"

  /** _build_bookmark_from_repo_json: the fields copied one to one, full_name as
      owner login "/" name, and a 422 when the payload does not validate. */
  function BuildBookmark(repo: RepoJson): (r: Result<BookmarkCreate>)
    ensures r.Ok? <==> Validates(repo)
    ensures r.Err? ==> r.error.status == 422
    ensures r.Ok? ==>
      var b := r.value;
      var owner := OwnerOf(repo);
      && repo.name == Some(JStr(b.repoName)) && repo.htmlUrl == Some(JStr(b.repoUrl)) && repo.id == Some(JInt(b.repoId))
      && owner.login == Some(JStr(b.ownerName)) && owner.id == Some(JInt(b.ownerId))
      && owner.htmlUrl == Some(JStr(b.ownerUrl))
      && b.ownerAvatarUrl == OptStr(owner.avatarUrl) && b.description == OptStr(repo.description)
      && b.fullName == b.ownerName + "/" + b.repoName
  {
    var owner := OwnerOf(repo);
    if Validates(repo) then
      var name := repo.name.value.s;
      var login := owner.login.value.s;
      Ok(BookmarkCreate(name, repo.htmlUrl.value.s, login, owner.id.value.i, OptStr(owner.avatarUrl),
        owner.htmlUrl.value.s, OptStr(repo.description), login + "/" + name, repo.id.value.i))
    else
      Err(HttpError(422, ParseErrorDetail))
  }

  /** A missing owner object can never validate. */
  lemma MissingOwnerFails(repo: RepoJson)
    requires repo.owner.None?
    ensures BuildBookmark(repo) == Err(HttpError(422, ParseErrorDetail))
  {
  }

  /** The repository lookup's result: a 404 is None, a body is built into a bookmark. */
  function LookupFrom(o: HttpOutcome<RepoJson>): (r: Result<Option<BookmarkCreate>>)
    ensures r == Ok(None) <==> o.Response? && o.status == 404
    ensures r.Ok? && r.value.Some? ==> o.Response? && o.status < 400 && BuildBookmark(o.body) == Ok(r.value.value)
    ensures r.Err? ==> r.error.status in {422, 502, 503}
  {
    match GetJson(o)
    case Err(e) => GetJsonErrors(o); Err(e)
    case Ok(None) => Ok(None)
    case Ok(Some(body)) =>
      match BuildBookmark(body)
      case Ok(b) => Ok(Some(b))
      case Err(e) => Err(e)
  }

  /** get_repository_byid. */
  function GetRepositoryById(s: Config.Settings, repoId: int, fetch: string -> HttpOutcome<RepoJson>): (r: Result<Option<BookmarkCreate>>)
    ensures var o := fetch(s.githubApiBaseUrl + "repositories/" + IntToString(repoId));
      && (r == Ok(None) <==> o.Response? && o.status == 404)
      && (r.Ok? && r.value.Some? ==> o.Response? && o.status < 400 && BuildBookmark(o.body) == Ok(r.value.value))
      && (r.Err? ==> r.error.status in {422, 502, 503})
  {
    LookupFrom(fetch(s.githubApiBaseUrl + "repositories/" + IntToString(repoId)))
  }

  const OwnerRepoFormatDetail := "owner_repo must be in owner/repo format"

  /** validate_github_repo: refuses a value without '/', else looks the repository up. */
  function ValidateGithubRepo(s: Config.Settings, ownerRepo: string, fetch: string -> HttpOutcome<RepoJson>): (r: Result<Option<BookmarkCreate>>)
    ensures '/' !in ownerRepo ==> r == Err(HttpError(400, OwnerRepoFormatDetail))
    ensures '/' in ownerRepo ==>
      var o := fetch(s.githubApiBaseUrl + "repos/" + ownerRepo);
      && (r == Ok(None) <==> o.Response? && o.status == 404)
      && (r.Ok? && r.value.Some? ==> o.Response? && o.status < 400 && BuildBookmark(o.body) == Ok(r.value.value))
      && (r.Err? ==> r.error.status in {422, 502, 503})
  {
    if '/' !in ownerRepo then Err(HttpError(400, OwnerRepoFormatDetail))
    else LookupFrom(fetch(s.githubApiBaseUrl + "repos/" + ownerRepo))
  }

  /** A GitHub user as the searches return it. */
  datatype GithubUser = GithubUser(login: string, id: int, avatarUrl: string, htmlUrl: string)

  /** A GitHub repository as the searches return it, with the bookmark marks. */
  datatype GithubRepo = GithubRepo(
    id: int, name: string, fullName: string, owner: GithubUser, htmlUrl: string,
    description: Option<string>, isAdded: bool, bookmarkId: Option<nat>)

  /** A search request: the URL and its q, page and per_page parameters. */
  datatype SearchRequest = SearchRequest(url: string, q: string, page: int, perPage: int)

  /** The parsed body of a search answer; a missing key is None. */
  datatype SearchBody<T> = SearchBody(totalCount: Option<int>, items: Option<seq<T>>)

  /** httpx's raise_for_status passes exactly the 2xx statuses. */
  predicate IsSuccess(status: int) {
    200 <= status < 300
  }

  /** The result of a search: the total and the items, 0 and none when the call failed. */
  function SearchResult<T>(o: HttpOutcome<SearchBody<T>>): (r: (int, seq<T>))
    ensures o.RequestError? || !IsSuccess(o.status) ==> r == (0, [])
    ensures o.Response? && IsSuccess(o.status) ==>
      r == (o.body.totalCount.GetOr(0), o.body.items.GetOr([]))
  {
    if o.RequestError? || !IsSuccess(o.status) then (0, [])
    else (o.body.totalCount.GetOr(0), o.body.items.GetOr([]))
  }

  /** search_github_users. */
  function SearchUsers(s: Config.Settings, query: string, page: int, perPage: int,
                       fetch: SearchRequest -> HttpOutcome<SearchBody<GithubUser>>): (r: (int, seq<GithubUser>))
    ensures var o := fetch(SearchRequest(Config.GithubSearchUserPath(s), query, page, perPage));
      && (o.RequestError? || !IsSuccess(o.status) ==> r == (0, []))
      && (o.Response? && IsSuccess(o.status) ==> r == (o.body.totalCount.GetOr(0), o.body.items.GetOr([])))
  {
    SearchResult(fetch(SearchRequest(Config.GithubSearchUserPath(s), query, page, perPage)))
  }

  /** A failed search gives nothing, whatever was asked. */
  lemma FailedSearchIsEmpty<T>(o: HttpOutcome<SearchBody<T>>)
    requires o.RequestError? || o.status >= 400
    ensures SearchResult(o).0 == 0 && SearchResult(o).1 == []
  {
  }

  /** The repository's marks as is_repo_bookmarked gives them for `user`. */
  function Marked(item: GithubRepo, table: BookmarkTable, user: string): GithubRepo
    reads table
  {
    var m := table.IsRepoBookmarked(item.id, user);
    item.(isAdded := m.0, bookmarkId := m.1)
  }

  /** The marking loop of search_github_repositories: every item gets isAdded and
      bookmarkId from the user's bookmarks, nothing else about it changes. */
  method Annotate(items: seq<GithubRepo>, table: BookmarkTable, user: string) returns (out: seq<GithubRepo>)
    ensures |out| == |items|
    ensures forall i :: 0 <= i < |items| ==> out[i] == Marked(items[i], table, user)
    ensures forall i :: 0 <= i < |items| ==>
      (out[i].isAdded <==> exists j :: (0 <= j < |table.rows| && table.rows[j].githubRepoId == items[i].id
        && table.rows[j].userId == user))
    ensures forall i :: 0 <= i < |items| ==> (out[i].isAdded <==> out[i].bookmarkId.Some?)
  {
    out := [];
    var i := 0;
    while i < |items|
      invariant 0 <= i <= |items| && |out| == i
      invariant forall k :: 0 <= k < i ==> out[k] == Marked(items[k], table, user)
    {
      out := out + [Marked(items[i], table, user)];
      i := i + 1;
    }
  }

  /** search_github_repositories: the items are marked only when a database and a
      non-empty user id are given; otherwise they keep their defaults. */
  method SearchRepositories(s: Config.Settings, query: string, page: int, perPage: int,
                            fetch: SearchRequest -> HttpOutcome<SearchBody<GithubRepo>>,
                            db: Option<BookmarkTable>, userId: Option<string>)
    returns (total: int, items: seq<GithubRepo>)
    ensures var found := SearchResult(fetch(SearchRequest(Config.GithubSearchReposPath(s), query, page, perPage)));
      && total == found.0 && |items| == |found.1|
      && (db.Some? && userId.Some? && userId.value != "" ==>
            forall i :: 0 <= i < |items| ==> items[i] == Marked(found.1[i], db.value, userId.value))
      && (!(db.Some? && userId.Some? && userId.value != "") ==> items == found.1)
  {
    var found := SearchResult(fetch(SearchRequest(Config.GithubSearchReposPath(s), query, page, perPage)));
    total, items := found.0, found.1;
    if db.Some? && userId.Some? && userId.value != "" {
      items := Annotate(items, db.value, userId.value);
    }
  }
}
