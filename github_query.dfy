/** The frontend's GitHub data hooks: the repository and search-result shapes
    they cache, the cache keys they build and the conditions under which each
    query runs. */
module GithubQuery {
  import opened Wrappers
  import opened QueryClient

  datatype Owner = Owner(login: string, id: int, avatarUrl: Option<string>, htmlUrl: string)

  /** A repository as the frontend caches it, with its bookmark membership denormalised onto it. */
  datatype Repository = Repository(
    id: int,
    name: string,
    fullName: string,
    isAdded: bool,
    bookmarkId: Option<string>,
    owner: Owner,
    htmlUrl: string,
    description: Option<string>)

  datatype SearchReposResponse = SearchReposResponse(
    totalCount: int, incompleteResults: bool, items: seq<Repository>)

  /** Every repository-search key starts with this; the bookmark mutations patch entries under it. */
  const SearchReposPrefix: Key := [Str("github"), Str("search"), Str("repositories")]

  /** Every user-repository key starts with this; the bookmark mutations patch entries under it. */
  const UserPrefix: Key := [Str("github"), Str("user")]

  function SearchUsersKey(query: string, page: int, perPage: int): Key {
    [Str("github"), Str("search"), Str("users"), Str(query), Num(page), Num(perPage)]
  }

  function SearchReposKey(query: string, page: int, perPage: int): Key {
    [Str("github"), Str("search"), Str("repositories"), Str(query), Num(page), Num(perPage)]
  }

  function UserReposKey(username: string, page: int, perPage: int): Key {
    [Str("github"), Str("user"), Str(username), Str("repositories"), Num(page), Num(perPage)]
  }

  function RepositoryKey(owner: string, repo: string): Key {
    [Str("github"), Str("repository"), Str(owner), Str(repo)]
  }

  /** useSearchUsers, useSearchRepositories and useGetUserRepositories run only when
      their flag is set and their text argument is non-empty. */
  function TextQueryEnabled(enabled: bool, text: string): (r: bool)
    ensures r <==> enabled && text != ""
  {
    enabled && |text| > 0
  }

  /** useGetRepository needs both the owner and the repository name. */
  function RepositoryQueryEnabled(enabled: bool, owner: string, repo: string): (r: bool)
    ensures r <==> enabled && owner != "" && repo != ""
  {
    enabled && |owner| > 0 && |repo| > 0
  }

  /** Repository-search keys land under the search patch prefix and never under the user prefix. */
  lemma SearchReposKeyUnderPatchPrefix(query: string, page: int, perPage: int)
    ensures IsPrefix(SearchReposPrefix, SearchReposKey(query, page, perPage))
    ensures !IsPrefix(UserPrefix, SearchReposKey(query, page, perPage))
  {
    assert SearchReposKey(query, page, perPage)[1] != UserPrefix[1];
  }

  /** User-repository keys land under the user patch prefix and never under the search prefix. */
  lemma UserReposKeyUnderPatchPrefix(username: string, page: int, perPage: int)
    ensures IsPrefix(UserPrefix, UserReposKey(username, page, perPage))
    ensures !IsPrefix(SearchReposPrefix, UserReposKey(username, page, perPage))
  {
    assert UserReposKey(username, page, perPage)[1] != SearchReposPrefix[1];
  }

  /** User-search keys and single-repository keys match neither patch prefix. */
  lemma OtherGithubKeysUnpatched(query: string, page: int, perPage: int, owner: string, repo: string)
    ensures !IsPrefix(SearchReposPrefix, SearchUsersKey(query, page, perPage))
    ensures !IsPrefix(UserPrefix, SearchUsersKey(query, page, perPage))
    ensures !IsPrefix(SearchReposPrefix, RepositoryKey(owner, repo))
    ensures !IsPrefix(UserPrefix, RepositoryKey(owner, repo))
  {
    assert SearchUsersKey(query, page, perPage)[2] != SearchReposPrefix[2];
    assert SearchUsersKey(query, page, perPage)[1] != UserPrefix[1];
    assert RepositoryKey(owner, repo)[1] != SearchReposPrefix[1];
    assert RepositoryKey(owner, repo)[1] != UserPrefix[1];
  }

  /** Within each builder, distinct arguments give distinct keys. */
  lemma KeyBuildersInjective(q1: string, p1: int, n1: int, q2: string, p2: int, n2: int)
    ensures SearchUsersKey(q1, p1, n1) == SearchUsersKey(q2, p2, n2) ==> q1 == q2 && p1 == p2 && n1 == n2
    ensures SearchReposKey(q1, p1, n1) == SearchReposKey(q2, p2, n2) ==> q1 == q2 && p1 == p2 && n1 == n2
    ensures UserReposKey(q1, p1, n1) == UserReposKey(q2, p2, n2) ==> q1 == q2 && p1 == p2 && n1 == n2
  {
    if SearchUsersKey(q1, p1, n1) == SearchUsersKey(q2, p2, n2) {
      assert SearchUsersKey(q1, p1, n1)[3] == SearchUsersKey(q2, p2, n2)[3];
      assert SearchUsersKey(q1, p1, n1)[4] == SearchUsersKey(q2, p2, n2)[4];
      assert SearchUsersKey(q1, p1, n1)[5] == SearchUsersKey(q2, p2, n2)[5];
    }
    if SearchReposKey(q1, p1, n1) == SearchReposKey(q2, p2, n2) {
      assert SearchReposKey(q1, p1, n1)[3] == SearchReposKey(q2, p2, n2)[3];
      assert SearchReposKey(q1, p1, n1)[4] == SearchReposKey(q2, p2, n2)[4];
      assert SearchReposKey(q1, p1, n1)[5] == SearchReposKey(q2, p2, n2)[5];
    }
    if UserReposKey(q1, p1, n1) == UserReposKey(q2, p2, n2) {
      assert UserReposKey(q1, p1, n1)[2] == UserReposKey(q2, p2, n2)[2];
      assert UserReposKey(q1, p1, n1)[4] == UserReposKey(q2, p2, n2)[4];
      assert UserReposKey(q1, p1, n1)[5] == UserReposKey(q2, p2, n2)[5];
    }
  }
}
