/** The frontend's bookmark data hooks: the `bookmarks` key family, the lookups
    built on the cached bookmark list, and the add/remove mutations whose success
    handlers invalidate the bookmark queries and patch every cached repository
    collection so that each repository's isAdded/bookmarkId follows the change. */
module BookmarksQuery {
  import opened Wrappers
  import opened QueryClient
  import opened GithubQuery
  import Text
  import BookmarkCrud

  /** A bookmark as the list endpoint serves it to the frontend. */
  datatype BackendBookmark = BackendBookmark(id: string, fullName: string, githubRepoId: Option<int>)

  datatype BookmarkList = BookmarkList(items: seq<BackendBookmark>, page: int, perPage: int, total: int)

  /** What the query cache holds: search responses, plain repository lists, and the
      bookmark list; the other queries' payloads are not modelled. */
  datatype CacheData =
    | SearchRepos(response: SearchReposResponse)
    | RepoList(repos: seq<Repository>)
    | Bookmarks(list: BookmarkList)
    | Unmodelled

  const BookmarksPrefix: Key := [Str("bookmarks")]

  function ListKey(page: int, perPage: int): Key { [Str("bookmarks"), Str("list"), Num(page), Num(perPage)] }
  function SingleKey(repoId: int): Key { [Str("bookmarks"), Str("single"), Num(repoId)] }
  function CheckKey(repoId: int): Key { [Str("bookmarks"), Str("check"), Num(repoId)] }
  function StatsKey(days: int): Key { [Str("bookmarks"), Str("stats"), Num(days)] }

  /** Every bookmark key lies under the prefix that the mutations invalidate, and
      stats keys for different day windows are distinct. */
  lemma BookmarkKeysUnderPrefix(page: int, perPage: int, repoId: int, days: int, days': int)
    ensures IsPrefix(BookmarksPrefix, ListKey(page, perPage))
    ensures IsPrefix(BookmarksPrefix, SingleKey(repoId))
    ensures IsPrefix(BookmarksPrefix, CheckKey(repoId))
    ensures IsPrefix(BookmarksPrefix, StatsKey(days))
    ensures days != days' ==> StatsKey(days) != StatsKey(days')
    ensures !IsPrefix(SearchReposPrefix, StatsKey(days)) && !IsPrefix(UserPrefix, StatsKey(days))
  {
    assert StatsKey(days)[2] == Num(days);
    assert StatsKey(days')[2] == Num(days');
    assert StatsKey(days)[0] != SearchReposPrefix[0];
  }

  // ---------------------------------------------------------------------------
  // Lookups over the cached bookmark list (useIsBookmarked, useGetBookmark)
  // ---------------------------------------------------------------------------

  /** `items.some(b => b.github_repo_id === repoId)`. */
  function AnyWithRepo(items: seq<BackendBookmark>, repoId: int): (r: bool)
    ensures r <==> exists i :: 0 <= i < |items| && items[i].githubRepoId == Some(repoId)
  {
    if items == [] then false
    else items[0].githubRepoId == Some(repoId) || AnyWithRepo(items[1..], repoId)
  }

  /** useIsBookmarked's query result; a missing list gives false. */
  function IsBookmarked(list: Option<BookmarkList>, repoId: int): (r: bool)
    ensures list.None? ==> !r
    ensures list.Some? ==> (r <==> exists i :: 0 <= i < |list.value.items| && list.value.items[i].githubRepoId == Some(repoId))
  {
    match list
    case None => false
    case Some(l) => AnyWithRepo(l.items, repoId)
  }

  /** Position of the first bookmark of repository `repoId`, or |items| when there is none. */
  function FirstWithRepo(items: seq<BackendBookmark>, repoId: int): (i: nat)
    ensures i <= |items|
    ensures i < |items| ==> items[i].githubRepoId == Some(repoId)
    ensures forall j :: 0 <= j < i ==> items[j].githubRepoId != Some(repoId)
  {
    if items == [] || items[0].githubRepoId == Some(repoId) then 0
    else 1 + FirstWithRepo(items[1..], repoId)
  }

  /** `items.find(b => b.github_repo_id === repoId)`: the first bookmark of that repository. */
  function FindByRepo(items: seq<BackendBookmark>, repoId: int): (r: Option<BackendBookmark>)
    ensures r.None? <==> !AnyWithRepo(items, repoId)
    ensures r.Some? ==> r.value.githubRepoId == Some(repoId)
  {
    var i := FirstWithRepo(items, repoId);
    if i < |items| then Some(items[i]) else None
  }

  /** useGetBookmark's query result: undefined when the list is missing. */
  function GetBookmark(list: Option<BookmarkList>, repoId: int): (r: Option<BackendBookmark>)
    ensures r.Some? <==> IsBookmarked(list, repoId)
    ensures r.Some? ==> r.value.githubRepoId == Some(repoId)
  {
    match list
    case None => None
    case Some(l) => FindByRepo(l.items, repoId)
  }

  // ---------------------------------------------------------------------------
  // The list items as the backend serialises them
  // ---------------------------------------------------------------------------

  /** A row of the bookmark table as an item of the list response. As written the
      response model of an item (BookmarkOut) declares no github_repo_id field, so the
      item carries none; corrected, it carries the row's repository id. */
  function Served(b: BookmarkCrud.Bookmark, corrected: bool): (r: BackendBookmark)
    ensures r.fullName == b.fullName
    ensures r.githubRepoId == if corrected then Some(b.githubRepoId) else None
  {
    BackendBookmark(Text.IntToString(b.id), b.fullName, if corrected then Some(b.githubRepoId) else None)
  }

  /** The list response for one page of rows. */
  function ServedList(rows: seq<BookmarkCrud.Bookmark>, corrected: bool, page: int, perPage: int, total: int): (r: BookmarkList)
    ensures |r.items| == |rows|
    ensures forall i :: 0 <= i < |rows| ==> r.items[i] == Served(rows[i], corrected)
  {
    BookmarkList(seq(|rows|, i requires 0 <= i < |rows| => Served(rows[i], corrected)), page, perPage, total)
  }

  /** As written, no list the backend serves marks any repository as bookmarked, nor
      finds its bookmark, whatever rows it holds. */
  lemma ServedListNeverMatches(rows: seq<BookmarkCrud.Bookmark>, page: int, perPage: int, total: int, repoId: int)
    ensures !IsBookmarked(Some(ServedList(rows, false, page, perPage, total)), repoId)
    ensures GetBookmark(Some(ServedList(rows, false, page, perPage, total)), repoId).None?
  {
    var l := ServedList(rows, false, page, perPage, total);
    assert forall i :: 0 <= i < |l.items| ==> l.items[i].githubRepoId.None?;
  }

  /** The input that shows it: a list holding a bookmark of repository 7 does not
      report repository 7 as bookmarked. */
  lemma BookmarkedRepoNotFound(b: BookmarkCrud.Bookmark)
    requires b.githubRepoId == 7
    ensures !IsBookmarked(Some(ServedList([b], false, 1, 100, 1)), 7)
  {
    ServedListNeverMatches([b], 1, 100, 1, 7);
  }

  /** Corrected, a served list marks a repository as bookmarked exactly when one of its
      rows is of that repository, and the bookmark found is the first such row. */
  lemma CorrectedListMatches(rows: seq<BookmarkCrud.Bookmark>, page: int, perPage: int, total: int, repoId: int)
    ensures var l := ServedList(rows, true, page, perPage, total);
      IsBookmarked(Some(l), repoId) <==> exists i :: 0 <= i < |rows| && rows[i].githubRepoId == repoId
    ensures var l := ServedList(rows, true, page, perPage, total);
      var i := FirstWithRepo(l.items, repoId);
      && (i < |rows| ==> GetBookmark(Some(l), repoId) == Some(Served(rows[i], true)))
      && forall j :: 0 <= j < i && j < |rows| ==> rows[j].githubRepoId != repoId
  {
    var l := ServedList(rows, true, page, perPage, total);
    if exists i :: 0 <= i < |rows| && rows[i].githubRepoId == repoId {
      var i :| 0 <= i < |rows| && rows[i].githubRepoId == repoId;
      assert l.items[i].githubRepoId == Some(repoId);
    }
    var i := FirstWithRepo(l.items, repoId);
    forall j | 0 <= j < i ensures rows[j].githubRepoId != repoId {
      assert l.items[j].githubRepoId != Some(repoId);
    }
  }

  /** The two lookups run exactly when the caller enables them and the list has been
      fetched (a fetched list is an object, and so truthy). */
  function LookupEnabled(enabled: bool, list: Option<BookmarkList>): (r: bool)
    ensures r ==> list.Some?
    ensures r <==> enabled && list.Some?
  {
    enabled && list.Some?
  }

  // ---------------------------------------------------------------------------
  // Denormalisation patches
  // ---------------------------------------------------------------------------

  /** `repos.map(repo => repo.id === repoId ? {...repo, isAdded: true, bookmarkId: newId} : repo)`. */
  function MarkAdded(repos: seq<Repository>, repoId: int, newId: string): (r: seq<Repository>)
    ensures |r| == |repos|
    ensures forall i :: 0 <= i < |r| && repos[i].id == repoId ==> r[i].isAdded && r[i].bookmarkId == Some(newId)
    ensures forall i :: 0 <= i < |r| && repos[i].id != repoId ==> r[i] == repos[i]
    ensures forall i :: 0 <= i < |r| ==> r[i] == repos[i].(isAdded := r[i].isAdded, bookmarkId := r[i].bookmarkId)
  {
    if repos == [] then []
    else
      var head := if repos[0].id == repoId then repos[0].(isAdded := true, bookmarkId := Some(newId)) else repos[0];
      var rest := MarkAdded(repos[1..], repoId, newId);
      assert forall i :: 1 <= i <= |rest| ==> ([head] + rest)[i] == rest[i - 1] && repos[i] == repos[1..][i - 1];
      [head] + rest
  }

  /** `repos.map(repo => repo.bookmarkId === bookmarkId ? {...repo, isAdded: false, bookmarkId: undefined} : repo)`. */
  function MarkRemoved(repos: seq<Repository>, bookmarkId: string): (r: seq<Repository>)
    ensures |r| == |repos|
    ensures forall i :: 0 <= i < |r| && repos[i].bookmarkId == Some(bookmarkId) ==> !r[i].isAdded && r[i].bookmarkId == None
    ensures forall i :: 0 <= i < |r| && repos[i].bookmarkId != Some(bookmarkId) ==> r[i] == repos[i]
    ensures forall i :: 0 <= i < |r| ==> r[i] == repos[i].(isAdded := r[i].isAdded, bookmarkId := r[i].bookmarkId)
  {
    if repos == [] then []
    else
      var head := if repos[0].bookmarkId == Some(bookmarkId) then repos[0].(isAdded := false, bookmarkId := None) else repos[0];
      [head] + MarkRemoved(repos[1..], bookmarkId)
  }

  lemma {:induction false} MarkAddedIdempotent(repos: seq<Repository>, repoId: int, newId: string)
    ensures MarkAdded(MarkAdded(repos, repoId, newId), repoId, newId) == MarkAdded(repos, repoId, newId)
  {
    if repos != [] {
      MarkAddedIdempotent(repos[1..], repoId, newId);
      assert MarkAdded(repos, repoId, newId)[1..] == MarkAdded(repos[1..], repoId, newId);
    }
  }

  lemma {:induction false} MarkRemovedIdempotent(repos: seq<Repository>, bookmarkId: string)
    ensures MarkRemoved(MarkRemoved(repos, bookmarkId), bookmarkId) == MarkRemoved(repos, bookmarkId)
  {
    if repos != [] {
      MarkRemovedIdempotent(repos[1..], bookmarkId);
      assert MarkRemoved(repos, bookmarkId)[1..] == MarkRemoved(repos[1..], bookmarkId);
    }
  }

  /** Removing the bookmark that an add just recorded leaves every copy of that
      repository not added and without a bookmark id. */
  lemma RemoveUndoesAdd(repos: seq<Repository>, repoId: int, newId: string, i: int)
    requires 0 <= i < |repos| && repos[i].id == repoId
    ensures |MarkRemoved(MarkAdded(repos, repoId, newId), newId)| == |repos|
    ensures !MarkRemoved(MarkAdded(repos, repoId, newId), newId)[i].isAdded
    ensures MarkRemoved(MarkAdded(repos, repoId, newId), newId)[i].bookmarkId == None
  {
  }

  /** The updater passed for the repository-search prefix on add (lines 99-109). */
  function AddSearchUpdater(repoId: int, newId: string): Option<CacheData> -> Option<CacheData> {
    (prev: Option<CacheData>) =>
      match prev
      case None => None
      case Some(SearchRepos(resp)) => Some(SearchRepos(resp.(items := MarkAdded(resp.items, repoId, newId))))
      case Some(other) => Some(other)
  }

  /** The updater passed for the user-repository prefix on add (lines 115-122). */
  function AddListUpdater(repoId: int, newId: string): Option<CacheData> -> Option<CacheData> {
    (prev: Option<CacheData>) =>
      match prev
      case None => None
      case Some(RepoList(repos)) => Some(RepoList(MarkAdded(repos, repoId, newId)))
      case Some(other) => Some(other)
  }

  /** The updater passed for the repository-search prefix on remove (lines 140-150). */
  function RemoveSearchUpdater(bookmarkId: string): Option<CacheData> -> Option<CacheData> {
    (prev: Option<CacheData>) =>
      match prev
      case None => None
      case Some(SearchRepos(resp)) => Some(SearchRepos(resp.(items := MarkRemoved(resp.items, bookmarkId))))
      case Some(other) => Some(other)
  }

  /** The updater passed for the user-repository prefix on remove (lines 156-163). */
  function RemoveListUpdater(bookmarkId: string): Option<CacheData> -> Option<CacheData> {
    (prev: Option<CacheData>) =>
      match prev
      case None => None
      case Some(RepoList(repos)) => Some(RepoList(MarkRemoved(repos, bookmarkId)))
      case Some(other) => Some(other)
  }

  /** An absent entry stays absent; a search response keeps its total_count,
      incomplete_results and the length and order of its items. */
  lemma UpdatersKeepShape(repoId: int, newId: string, bookmarkId: string, resp: SearchReposResponse)
    ensures AddSearchUpdater(repoId, newId)(None) == None && AddListUpdater(repoId, newId)(None) == None
    ensures RemoveSearchUpdater(bookmarkId)(None) == None && RemoveListUpdater(bookmarkId)(None) == None
    ensures var r := AddSearchUpdater(repoId, newId)(Some(SearchRepos(resp)));
      r.Some? && r.value.SearchRepos? && r.value.response.totalCount == resp.totalCount
      && r.value.response.incompleteResults == resp.incompleteResults
      && |r.value.response.items| == |resp.items|
      && forall i :: 0 <= i < |resp.items| ==> r.value.response.items[i].id == resp.items[i].id
    ensures var r := RemoveSearchUpdater(bookmarkId)(Some(SearchRepos(resp)));
      r.Some? && r.value.SearchRepos? && r.value.response.totalCount == resp.totalCount
      && r.value.response.incompleteResults == resp.incompleteResults
      && |r.value.response.items| == |resp.items|
      && forall i :: 0 <= i < |resp.items| ==> r.value.response.items[i].id == resp.items[i].id
  {
  }

  // ---------------------------------------------------------------------------
  // Success handlers of useAddBookmark, useRemoveBookmark and useImportBookmarks
  // ---------------------------------------------------------------------------

  /** The cache after a successful add of repository `repoId` recorded as bookmark `newId`. */
  function AfterAdd(entries: map<Key, Entry<CacheData>>, repoId: int, newId: string): map<Key, Entry<CacheData>> {
    Updated(Updated(Invalidated(entries, BookmarksPrefix), SearchReposPrefix, AddSearchUpdater(repoId, newId)),
            UserPrefix, AddListUpdater(repoId, newId))
  }

  /** The cache after a successful removal of bookmark `bookmarkId`. */
  function AfterRemove(entries: map<Key, Entry<CacheData>>, bookmarkId: string): map<Key, Entry<CacheData>> {
    Updated(Updated(Invalidated(entries, BookmarksPrefix), SearchReposPrefix, RemoveSearchUpdater(bookmarkId)),
            UserPrefix, RemoveListUpdater(bookmarkId))
  }

  /** The three prefixes are pairwise disjoint: no key lies under two of them. */
  lemma PrefixesDisjoint(k: Key)
    ensures !(IsPrefix(BookmarksPrefix, k) && IsPrefix(SearchReposPrefix, k))
    ensures !(IsPrefix(BookmarksPrefix, k) && IsPrefix(UserPrefix, k))
    ensures !(IsPrefix(SearchReposPrefix, k) && IsPrefix(UserPrefix, k))
  {
    assert IsPrefix(BookmarksPrefix, k) ==> k[0] == Str("bookmarks");
    assert IsPrefix(SearchReposPrefix, k) ==> k[0] == Str("github") && k[1] == Str("search");
    assert IsPrefix(UserPrefix, k) ==> k[0] == Str("github") && k[1] == Str("user");
  }

  /** What a successful add does to each entry: bookmark queries become stale,
      cached search pages and user repository lists get the new membership, and
      nothing else changes. */
  lemma AfterAddEffect(entries: map<Key, Entry<CacheData>>, repoId: int, newId: string, k: Key)
    requires k in entries
    ensures AfterAdd(entries, repoId, newId).Keys == entries.Keys
    ensures var e, e' := entries[k], AfterAdd(entries, repoId, newId)[k];
      && (IsPrefix(BookmarksPrefix, k) ==> e' == e.(stale := true))
      && (!IsPrefix(BookmarksPrefix, k) && !IsPrefix(SearchReposPrefix, k) && !IsPrefix(UserPrefix, k) ==> e' == e)
      && (e.data.None? ==> e'.data.None?)
      && (IsPrefix(SearchReposPrefix, k) && e.data.Some? && e.data.value.SearchRepos? ==>
            e' == Entry(Some(SearchRepos(e.data.value.response.(items := MarkAdded(e.data.value.response.items, repoId, newId)))), false))
      && (IsPrefix(UserPrefix, k) && e.data.Some? && e.data.value.RepoList? ==>
            e' == Entry(Some(RepoList(MarkAdded(e.data.value.repos, repoId, newId))), false))
  {
    PrefixesDisjoint(k);
  }

  /** What a successful removal does to each entry, in the same terms as AfterAddEffect. */
  lemma AfterRemoveEffect(entries: map<Key, Entry<CacheData>>, bookmarkId: string, k: Key)
    requires k in entries
    ensures AfterRemove(entries, bookmarkId).Keys == entries.Keys
    ensures var e, e' := entries[k], AfterRemove(entries, bookmarkId)[k];
      && (IsPrefix(BookmarksPrefix, k) ==> e' == e.(stale := true))
      && (!IsPrefix(BookmarksPrefix, k) && !IsPrefix(SearchReposPrefix, k) && !IsPrefix(UserPrefix, k) ==> e' == e)
      && (e.data.None? ==> e'.data.None?)
      && (IsPrefix(SearchReposPrefix, k) && e.data.Some? && e.data.value.SearchRepos? ==>
            e' == Entry(Some(SearchRepos(e.data.value.response.(items := MarkRemoved(e.data.value.response.items, bookmarkId)))), false))
      && (IsPrefix(UserPrefix, k) && e.data.Some? && e.data.value.RepoList? ==>
            e' == Entry(Some(RepoList(MarkRemoved(e.data.value.repos, bookmarkId))), false))
  {
    PrefixesDisjoint(k);
  }

  /** Applying the add handler twice has the same effect as applying it once. */
  lemma AfterAddIdempotent(entries: map<Key, Entry<CacheData>>, repoId: int, newId: string)
    ensures AfterAdd(AfterAdd(entries, repoId, newId), repoId, newId) == AfterAdd(entries, repoId, newId)
  {
    var once := AfterAdd(entries, repoId, newId);
    var twice := AfterAdd(once, repoId, newId);
    forall k | k in entries ensures twice[k] == once[k] {
      PrefixesDisjoint(k);
      AfterAddEffect(entries, repoId, newId, k);
      AfterAddEffect(once, repoId, newId, k);
      var e := entries[k];
      if e.data.Some? && e.data.value.SearchRepos? && IsPrefix(SearchReposPrefix, k) {
        MarkAddedIdempotent(e.data.value.response.items, repoId, newId);
      }
      if e.data.Some? && e.data.value.RepoList? && IsPrefix(UserPrefix, k) {
        MarkAddedIdempotent(e.data.value.repos, repoId, newId);
      }
    }
  }

  /** Applying the remove handler twice has the same effect as applying it once. */
  lemma AfterRemoveIdempotent(entries: map<Key, Entry<CacheData>>, bookmarkId: string)
    ensures AfterRemove(AfterRemove(entries, bookmarkId), bookmarkId) == AfterRemove(entries, bookmarkId)
  {
    var once := AfterRemove(entries, bookmarkId);
    var twice := AfterRemove(once, bookmarkId);
    forall k | k in entries ensures twice[k] == once[k] {
      PrefixesDisjoint(k);
      AfterRemoveEffect(entries, bookmarkId, k);
      AfterRemoveEffect(once, bookmarkId, k);
      var e := entries[k];
      if e.data.Some? && e.data.value.SearchRepos? && IsPrefix(SearchReposPrefix, k) {
        MarkRemovedIdempotent(e.data.value.response.items, bookmarkId);
      }
      if e.data.Some? && e.data.value.RepoList? && IsPrefix(UserPrefix, k) {
        MarkRemovedIdempotent(e.data.value.repos, bookmarkId);
      }
    }
  }

  /** useAddBookmark's onSuccess: `data.id` is the id of the bookmark the backend created. */
  method OnAddSuccess(client: Client<CacheData>, repoId: int, newId: string)
    modifies client
    ensures client.entries == AfterAdd(old(client.entries), repoId, newId)
  {
    client.InvalidateQueries(BookmarksPrefix);
    client.SetQueriesData(SearchReposPrefix, AddSearchUpdater(repoId, newId));
    client.SetQueriesData(UserPrefix, AddListUpdater(repoId, newId));
  }

  /** useRemoveBookmark's onSuccess. */
  method OnRemoveSuccess(client: Client<CacheData>, bookmarkId: string)
    modifies client
    ensures client.entries == AfterRemove(old(client.entries), bookmarkId)
  {
    client.InvalidateQueries(BookmarksPrefix);
    client.SetQueriesData(SearchReposPrefix, RemoveSearchUpdater(bookmarkId));
    client.SetQueriesData(UserPrefix, RemoveListUpdater(bookmarkId));
  }

  /** useImportBookmarks' onSuccess: only the bookmark queries are invalidated. */
  method OnImportSuccess(client: Client<CacheData>)
    modifies client
    ensures client.entries.Keys == old(client.entries).Keys
    ensures forall k :: k in client.entries && !IsPrefix(BookmarksPrefix, k) ==> client.entries[k] == old(client.entries)[k]
    ensures forall k :: k in client.entries && IsPrefix(BookmarksPrefix, k) ==>
      client.entries[k] == old(client.entries)[k].(stale := true)
  {
    client.InvalidateQueries(BookmarksPrefix);
  }
}
