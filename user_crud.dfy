/** The users table: registration with a unique email, and the two lookups the
    authentication routes use. The database is an in-memory table with ids handed
    out by a counter; the password hash function is a parameter. */
module UserCrud {
  import opened Wrappers

  /** A row of the users table; `isActive` defaults to true. */
  datatype User = User(id: nat, name: string, email: string, hashedPassword: string, isActive: bool)

  /** The answer to a registration whose email is taken (the unique index's IntegrityError). */
  const EmailRegistered := HttpError(400, "Email already registered")

  /** No two rows share an email: the unique index on users.email. */
  predicate UniqueEmails(us: seq<User>) {
    forall i, j :: 0 <= i < j < |us| ==> us[i].email != us[j].email
  }

  predicate IncreasingIds(us: seq<User>) {
    forall i, j :: 0 <= i < j < |us| ==> us[i].id < us[j].id
  }

  /** scalar_one_or_none of `WHERE email = ...`: the row with that email, if any. */
  function FindByEmail(us: seq<User>, email: string): (r: Option<User>)
    ensures r.None? <==> forall i :: 0 <= i < |us| ==> us[i].email != email
    ensures r.Some? ==> r.value in us && r.value.email == email
  {
    if us == [] then None
    else if us[0].email == email then Some(us[0])
    else
      var r := FindByEmail(us[1..], email);
      assert forall i :: 1 <= i < |us| ==> us[i] == us[1..][i - 1];
      r
  }

  /** scalar_one_or_none of `WHERE id = ...`: the row with that id, if any. */
  function FindById(us: seq<User>, id: nat): (r: Option<User>)
    ensures r.None? <==> forall i :: 0 <= i < |us| ==> us[i].id != id
    ensures r.Some? ==> r.value in us && r.value.id == id
  {
    if us == [] then None
    else if us[0].id == id then Some(us[0])
    else
      var r := FindById(us[1..], id);
      assert forall i :: 1 <= i < |us| ==> us[i] == us[1..][i - 1];
      r
  }

  /** With unique emails the lookup finds the one row of that email: "one or none"
      never meets two. */
  lemma {:induction false} FindByEmailExact(us: seq<User>, i: nat)
    requires UniqueEmails(us) && i < |us|
    ensures FindByEmail(us, us[i].email) == Some(us[i])
  {
    if i > 0 {
      assert us[0].email != us[i].email;
      assert us[1..][i - 1] == us[i];
      FindByEmailExact(us[1..], i - 1);
    }
  }

  /** With increasing ids the lookup by id finds the one row of that id. */
  lemma {:induction false} FindByIdExact(us: seq<User>, i: nat)
    requires IncreasingIds(us) && i < |us|
    ensures FindById(us, us[i].id) == Some(us[i])
  {
    if i > 0 {
      assert us[0].id < us[i].id;
      assert us[1..][i - 1] == us[i];
      FindByIdExact(us[1..], i - 1);
    }
  }

  class UserTable {
    var users: seq<User>
    /** The id the next user gets. */
    var nextId: nat

    ghost predicate Valid()
      reads this
    {
      UniqueEmails(users) && IncreasingIds(users) && forall i :: 0 <= i < |users| ==> users[i].id < nextId
    }

    constructor ()
      ensures Valid() && users == [] && nextId == 0
    {
      users := [];
      nextId := 0;
    }

    /** get_user_by_email. */
    function GetByEmail(email: string): (r: Option<User>)
      reads this
      ensures r.None? <==> forall i :: 0 <= i < |users| ==> users[i].email != email
      ensures r.Some? ==> r.value in users && r.value.email == email
    {
      FindByEmail(users, email)
    }

    /** get_user_by_id. */
    function GetById(id: nat): (r: Option<User>)
      reads this
      ensures r.None? <==> forall i :: 0 <= i < |users| ==> users[i].id != id
      ensures r.Some? ==> r.value in users && r.value.id == id
    {
      FindById(users, id)
    }

    /** create_user: the row stores the hash of the password, never the password; a
        taken email is refused and the table is left as it was (the rollback). A new
        user is then found by its email and by its id. */
    method Create(name: string, email: string, password: string, hash: string -> string) returns (r: Result<User>)
      requires Valid()
      modifies this
      ensures Valid()
      ensures old(GetByEmail(email)).Some? ==>
        r == Err(EmailRegistered) && users == old(users) && nextId == old(nextId)
      ensures old(GetByEmail(email)).None? ==>
        && r == Ok(User(old(nextId), name, email, hash(password), true))
        && users == old(users) + [r.value] && nextId == old(nextId) + 1
      ensures r.Ok? ==> GetByEmail(email) == Some(r.value) && GetById(r.value.id) == Some(r.value)
    {
      if FindByEmail(users, email).Some? {
        return Err(EmailRegistered);
      }
      var u := User(nextId, name, email, hash(password), true);
      users := users + [u];
      nextId := nextId + 1;
      FindByEmailExact(users, |users| - 1);
      FindByIdExact(users, |users| - 1);
      return Ok(u);
    }
  }
}
