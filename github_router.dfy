/** The GitHub search proxy: the plain search text becomes a GitHub query
    restricted to logins or to repository names, the search service answers it,
    and the page flags are added. `userId` is what the authentication middleware
    left in the request state (None when it set nothing). */
module GithubRouter {
  import opened Wrappers
  import opened Text
  import opened BookmarkCrud
  import opened GithubService
  import Config
  import Paging

  /** The two values the search_type query parameter accepts. */
  predicate IsSearchType(searchType: string) {
    searchType == "user" || searchType == "repo"
  }

  /** The handler's own fallback for any other search type. */
  const InvalidSearchType := HttpError(400, "Invalid 'search type' specified. Must be 'user' or 'repo'.")

  /** The structured GitHub query: the text restricted to logins for a user search
      and to names for a repository search. */
  function GithubQuery(searchType: string, text: string): (r: Result<string>)
    ensures !IsSearchType(searchType) <==> r == Err(InvalidSearchType)
    ensures searchType == "user" ==> r.Ok? && StartsWith(r.value, text) && r.value[|text|..] == " in:login"
    ensures searchType == "repo" ==> r.Ok? && StartsWith(r.value, text) && r.value[|text|..] == " in:name"
  {
    if searchType == "user" then Ok(text + " in:login")
    else if searchType == "repo" then Ok(text + " in:name")
    else Err(InvalidSearchType)
  }

  /** The query gives back the text it was built from and the kind of search:
      two searches send the same query only when both agree. */
  lemma QueryDeterminesSearch(t1: string, text1: string, t2: string, text2: string)
    requires GithubQuery(t1, text1).Ok? && GithubQuery(t1, text1) == GithubQuery(t2, text2)
    ensures t1 == t2 && text1 == text2
  {
    var q := GithubQuery(t1, text1).value;
    // the two suffixes end in different letters
    assert q[|q| - 1] == (if t1 == "user" then 'n' else 'e');
    assert q[|q| - 1] == (if t2 == "user" then 'n' else 'e');
    assert |text1| == |text2|;
    assert text1 == q[..|text1|];
  }

  /** The items of a search answer: users or repositories. */
  datatype SearchItems = Users(users: seq<GithubUser>) | Repos(repos: seq<GithubRepo>)

  /** SearchResponse. */
  datatype SearchResponse = SearchResponse(
    searchType: string, searchText: string, page: int, perPage: int, totalCount: int,
    hasNext: bool, hasPrev: bool, items: SearchItems)

  /** search_github_endpoint: FastAPI answers 422 for a search type other than "user"
      or "repo" and for a page or page size out of bounds, so the handler's own 400
      is never sent; otherwise the search is made and its total and items are
      returned with the request's parameters and the page flags. Repository items
      are marked as bookmarked only when the request carries a user id. */
  method SearchGithubEndpoint(s: Config.Settings, searchType: string, text: string, page: int, limit: int,
                              fetchUsers: SearchRequest -> HttpOutcome<SearchBody<GithubUser>>,
                              fetchRepos: SearchRequest -> HttpOutcome<SearchBody<GithubRepo>>,
                              db: BookmarkTable, userId: Option<string>)
    returns (r: Result<SearchResponse>)
    ensures r.Err? <==> !IsSearchType(searchType) || !Paging.ParamsValid(page, limit)
    ensures r.Err? ==> r == Err(Paging.InvalidQuery)
    ensures r.Ok? ==>
      && r.value.searchType == searchType && r.value.searchText == text
      && r.value.page == page && r.value.perPage == limit
      && (r.value.hasNext <==> page * limit < r.value.totalCount)
      && (r.value.hasPrev <==> page > 1)
    ensures r.Ok? && searchType == "user" ==>
      var found := SearchUsers(s, text + " in:login", page, limit, fetchUsers);
      r.value.totalCount == found.0 && r.value.items == Users(found.1)
    ensures r.Ok? && searchType == "repo" ==>
      var found := SearchResult(fetchRepos(SearchRequest(Config.GithubSearchReposPath(s), text + " in:name", page, limit)));
      && r.value.totalCount == found.0 && r.value.items.Repos? && |r.value.items.repos| == |found.1|
      && (userId.Some? && userId.value != "" ==>
            forall i :: 0 <= i < |found.1| ==> r.value.items.repos[i] == Marked(found.1[i], db, userId.value))
      && (!(userId.Some? && userId.value != "") ==> r.value.items.repos == found.1)
  {
    if !IsSearchType(searchType) || !Paging.ParamsValid(page, limit) {
      return Err(Paging.InvalidQuery);
    }
    var query := GithubQuery(searchType, text);
    if query.Err? {
      // the search type was checked above, so this fallback is never taken
      assert false;
      return Err(InvalidSearchType);
    }
    var total: int;
    var items: SearchItems;
    if searchType == "user" {
      var found := SearchUsers(s, query.value, page, limit, fetchUsers);
      total, items := found.0, Users(found.1);
    } else {
      var conn: Option<BookmarkTable> := if userId.Some? && userId.value != "" then Some(db) else None;
      var repos;
      total, repos := SearchRepositories(s, query.value, page, limit, fetchRepos, conn, userId);
      items := Repos(repos);
    }
    r := Ok(SearchResponse(searchType, text, page, limit, total, Paging.HasNext(page, limit, total),
                           Paging.HasPrev(page), items));
  }
}
