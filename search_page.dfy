/** The search page: the typed query, the search that was submitted, the mode
    (users or repositories), the user whose repositories are listed, and the page.
    Which of the three GitHub queries runs follows from that state alone. */
module SearchPage {
  import opened Wrappers
  import opened Text
  import opened GithubQuery

  datatype Mode = Users | Repositories

  /** The page size; the page never changes it. */
  const PerPage := 10

  /** A selected user counts only when its login is truthy, that is non-empty. */
  predicate HasUser(selectedUser: Option<string>) {
    selectedUser.Some? && selectedUser.value != ""
  }

  /** The user search runs in users mode once a search was submitted. */
  function UsersEnabled(mode: Mode, activeSearch: string): (r: bool)
    ensures r <==> mode == Users && activeSearch != ""
  {
    TextQueryEnabled(mode == Users && |activeSearch| > 0, activeSearch)
  }

  /** The repository search runs in repositories mode once a search was submitted,
      unless a user's repositories are listed instead. */
  function ReposEnabled(mode: Mode, activeSearch: string, selectedUser: Option<string>): (r: bool)
    ensures r <==> mode == Repositories && activeSearch != "" && !HasUser(selectedUser)
  {
    TextQueryEnabled(mode == Repositories && |activeSearch| > 0 && !HasUser(selectedUser), activeSearch)
  }

  /** The selected user's repositories are listed whenever a user is selected. */
  function UserReposEnabled(selectedUser: Option<string>): (r: bool)
    ensures r <==> HasUser(selectedUser)
  {
    TextQueryEnabled(HasUser(selectedUser), selectedUser.GetOr(""))
  }

  /** The user and the repository search never run together, nor the repository
      search and the user's repository list. */
  lemma QueriesExclusive(mode: Mode, activeSearch: string, selectedUser: Option<string>)
    ensures !(UsersEnabled(mode, activeSearch) && ReposEnabled(mode, activeSearch, selectedUser))
    ensures !(ReposEnabled(mode, activeSearch, selectedUser) && UserReposEnabled(selectedUser))
  {
  }

  /** String.prototype.trim. */
  function Trim(s: string): string {
    Strip(s, JsWhitespace)
  }

  class Search {
    var searchQuery: string
    var activeSearch: string
    var mode: Mode
    var selectedUser: Option<string>
    var page: int
    /** The last total counts the two searches reported. */
    var usersTotalCount: int
    var reposTotalCount: int

    /** A submitted search has no surrounding whitespace. */
    ghost predicate Valid()
      reads this
    {
      activeSearch == Trim(activeSearch)
    }

    constructor ()
      ensures Valid()
      ensures searchQuery == "" && activeSearch == "" && mode == Repositories
      ensures selectedUser == None && page == 1
      ensures usersTotalCount == 0 && reposTotalCount == 0
    {
      searchQuery := "";
      activeSearch := "";
      StripFixed("", JsWhitespace);
      mode := Repositories;
      selectedUser := None;
      page := 1;
      usersTotalCount := 0;
      reposTotalCount := 0;
    }

    /** The input's onChange. */
    method Type(text: string)
      modifies this
      ensures searchQuery == text
      ensures activeSearch == old(activeSearch) && mode == old(mode)
      ensures selectedUser == old(selectedUser) && page == old(page)
      ensures usersTotalCount == old(usersTotalCount) && reposTotalCount == old(reposTotalCount)
    {
      searchQuery := text;
    }

    /** handleSearch: a query that is blank after trimming changes nothing;
        otherwise the trimmed query becomes the search, the user is deselected and
        the first page is shown. */
    method Submit()
      requires Valid()
      modifies this
      ensures Valid()
      ensures searchQuery == old(searchQuery) && mode == old(mode)
      ensures Trim(old(searchQuery)) == "" ==>
        activeSearch == old(activeSearch) && selectedUser == old(selectedUser) && page == old(page)
      ensures Trim(old(searchQuery)) != "" ==>
        activeSearch == Trim(old(searchQuery)) && selectedUser == None && page == 1
      ensures usersTotalCount == old(usersTotalCount) && reposTotalCount == old(reposTotalCount)
    {
      var trimmed := Trim(searchQuery);
      if trimmed == "" {
        return;
      }
      StripIdempotent(searchQuery, JsWhitespace);
      activeSearch := trimmed;
      selectedUser := None;
      page := 1;
    }

    /** The Repositories and Users buttons: the mode changes, the user is
        deselected and the first page is shown. */
    method SwitchMode(m: Mode)
      modifies this
      ensures mode == m && selectedUser == None && page == 1
      ensures searchQuery == old(searchQuery) && activeSearch == old(activeSearch)
      ensures usersTotalCount == old(usersTotalCount) && reposTotalCount == old(reposTotalCount)
    {
      mode := m;
      selectedUser := None;
      page := 1;
    }

    /** handleUserClick: that user's repositories, from the first page. */
    method SelectUser(login: string)
      modifies this
      ensures selectedUser == Some(login) && page == 1
      ensures searchQuery == old(searchQuery) && activeSearch == old(activeSearch) && mode == old(mode)
      ensures usersTotalCount == old(usersTotalCount) && reposTotalCount == old(reposTotalCount)
    {
      selectedUser := Some(login);
      page := 1;
    }

    /** handleBackToUsers: deselects the user and keeps the page. */
    method BackToUsers()
      modifies this
      ensures selectedUser == None
      ensures page == old(page)
      ensures searchQuery == old(searchQuery) && activeSearch == old(activeSearch) && mode == old(mode)
      ensures usersTotalCount == old(usersTotalCount) && reposTotalCount == old(reposTotalCount)
    {
      selectedUser := None;
    }

    /** The pager's onPageChange. */
    method SetPage(p: int)
      modifies this
      ensures page == p
      ensures searchQuery == old(searchQuery) && activeSearch == old(activeSearch)
      ensures mode == old(mode) && selectedUser == old(selectedUser)
      ensures usersTotalCount == old(usersTotalCount) && reposTotalCount == old(reposTotalCount)
    {
      page := p;
    }

    /** The render-time update of the remembered totals from whichever search
        answered. */
    method SyncTotals(usersTotal: Option<int>, reposTotal: Option<int>)
      modifies this
      ensures usersTotalCount == usersTotal.GetOr(old(usersTotalCount))
      ensures reposTotalCount == reposTotal.GetOr(old(reposTotalCount))
      ensures searchQuery == old(searchQuery) && activeSearch == old(activeSearch)
      ensures mode == old(mode) && selectedUser == old(selectedUser) && page == old(page)
    {
      if usersTotal.Some? && usersTotal.value != usersTotalCount {
        usersTotalCount := usersTotal.value;
      }
      if reposTotal.Some? && reposTotal.value != reposTotalCount {
        reposTotalCount := reposTotal.value;
      }
    }
  }

  /** Typing a query and submitting it in users mode runs the user search for the
      trimmed text from its first page, and neither of the other two queries. */
  method SearchUsersFor(text: string) returns (key: Option<QueryClient.Key>, reposRun: bool, userReposRun: bool)
    requires Trim(text) != ""
    ensures key == Some(SearchUsersKey(Trim(text), 1, PerPage))
    ensures !reposRun && !userReposRun
  {
    var s := new Search();
    s.SwitchMode(Users);
    s.Type(text);
    s.Submit();
    key := if UsersEnabled(s.mode, s.activeSearch) then Some(SearchUsersKey(s.activeSearch, s.page, PerPage)) else None;
    reposRun := ReposEnabled(s.mode, s.activeSearch, s.selectedUser);
    userReposRun := UserReposEnabled(s.selectedUser);
  }
}
