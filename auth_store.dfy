/** The client's authentication store: the signed-in user, whether the session
    check is still running, and the authenticated flag the route guards read. */
module AuthStore {
  import opened Wrappers

  /** The user as /auth/me describes it. */
  datatype UserDetails = UserDetails(name: string, id: int, email: string)

  class Store {
    var user: Option<UserDetails>
    var isLoading: bool
    var isAuthenticated: bool

    /** The flag always says whether a user is stored. */
    ghost predicate Valid()
      reads this
    {
      isAuthenticated <==> user.Some?
    }

    /** The store as created: no user, loading, not authenticated. */
    constructor ()
      ensures Valid()
      ensures user == None && isLoading && !isAuthenticated
    {
      user := None;
      isLoading := true;
      isAuthenticated := false;
    }

    /** setUser: stores the user (or null), derives the flag from it and ends loading. */
    method SetUser(u: Option<UserDetails>)
      requires Valid()
      modifies this
      ensures Valid()
      ensures user == u && !isLoading
      ensures isAuthenticated <==> u.Some?
    {
      user := u;
      isAuthenticated := u.Some?;
      isLoading := false;
    }

    /** setLoading: changes only the loading flag. */
    method SetLoading(loading: bool)
      requires Valid()
      modifies this
      ensures Valid()
      ensures isLoading == loading
      ensures user == old(user) && isAuthenticated == old(isAuthenticated)
    {
      isLoading := loading;
    }

    /** clearUser: no user, not authenticated, not loading. */
    method ClearUser()
      requires Valid()
      modifies this
      ensures Valid()
      ensures user == None && !isAuthenticated && !isLoading
    {
      user := None;
      isAuthenticated := false;
      isLoading := false;
    }
  }

  /** A sign-in followed by a sign-out leaves the store as the session check left
      it, except that loading is over. */
  method SignInThenOut(u: UserDetails) returns (authenticatedBetween: bool, authenticatedAfter: bool, loadingAfter: bool)
    ensures authenticatedBetween && !authenticatedAfter && !loadingAfter
  {
    var s := new Store();
    s.SetLoading(true);
    s.SetUser(Some(u));
    authenticatedBetween := s.isAuthenticated;
    s.ClearUser();
    authenticatedAfter := s.isAuthenticated;
    loadingAfter := s.isLoading;
  }
}
