/** The bookmark toggle of a repository card. The card shows an optimistic copy of
    its repository that differs from it in the bookmark flag only: a click flips the
    flag at once and sends the add or remove request, a failure flips it back, and
    a success leaves it to the refreshed cache. */
module RepositoryCard {
  import opened Wrappers
  import opened GithubQuery

  /** The request a click sends: remove a bookmark by its id, or add one for a
      GitHub repository id. */
  datatype Request = RemoveBookmark(bookmarkId: string) | AddBookmark(repoId: int)

  /** The optimistic reducer: the repository with only its flag replaced. */
  function Optimistic(state: Repository, newIsAdded: bool): (r: Repository)
    ensures r.isAdded == newIsAdded
    ensures r.(isAdded := state.isAdded) == state
  {
    state.(isAdded := newIsAdded)
  }

  /** A click removes when the card shows the repository as added and knows a
      (non-empty, hence truthy) bookmark id; every other click adds. */
  predicate WillRemove(r: Repository) {
    r.isAdded && r.bookmarkId.Some? && r.bookmarkId.value != ""
  }

  /** The flag a request shows while it runs, and the one its failure restores. */
  function Pending(req: Request): bool { req.AddBookmark? }

  class Card {
    /** The repository the card was given. */
    var repository: Repository
    /** What the card shows. */
    var shown: Repository
    /** Whether the add and the remove mutation are running. */
    var addPending: bool
    var removePending: bool

    ghost predicate Valid()
      reads this
    {
      shown == Optimistic(repository, shown.isAdded)
    }

    constructor (repository: Repository)
      ensures Valid()
      ensures this.repository == repository && shown == repository
      ensures !addPending && !removePending
    {
      this.repository := repository;
      shown := repository;
      addPending := false;
      removePending := false;
    }

    /** The button is disabled while either mutation runs. */
    predicate Disabled()
      reads this
    {
      addPending || removePending
    }

    /** handleBookmarkToggle on an enabled button. */
    method Toggle() returns (req: Request)
      requires Valid() && !Disabled()
      modifies this
      ensures Valid() && repository == old(repository)
      ensures old(WillRemove(shown)) ==> req == RemoveBookmark(old(shown).bookmarkId.value)
      ensures !old(WillRemove(shown)) ==> req == AddBookmark(old(shown).id)
      ensures shown == Optimistic(old(shown), Pending(req))
      ensures addPending == req.AddBookmark? && removePending == req.RemoveBookmark?
    {
      if shown.isAdded && shown.bookmarkId.Some? && shown.bookmarkId.value != "" {
        req := RemoveBookmark(shown.bookmarkId.value);
        shown := Optimistic(shown, false);
        removePending := true;
      } else {
        req := AddBookmark(shown.id);
        shown := Optimistic(shown, true);
        addPending := true;
      }
    }

    /** The request succeeded: only its pending flag clears. */
    method Succeeded(req: Request)
      requires Valid()
      modifies this
      ensures Valid() && repository == old(repository) && shown == old(shown)
      ensures addPending == (old(addPending) && !req.AddBookmark?)
      ensures removePending == (old(removePending) && !req.RemoveBookmark?)
    {
      if req.AddBookmark? { addPending := false; } else { removePending := false; }
    }

    /** The request failed: the flag is set back to the opposite of what the
        request showed, and its pending flag clears. */
    method Failed(req: Request)
      requires Valid()
      modifies this
      ensures Valid() && repository == old(repository)
      ensures shown == Optimistic(old(shown), !Pending(req))
      ensures addPending == (old(addPending) && !req.AddBookmark?)
      ensures removePending == (old(removePending) && !req.RemoveBookmark?)
    {
      if req.AddBookmark? {
        shown := Optimistic(shown, false);
        addPending := false;
      } else {
        shown := Optimistic(shown, true);
        removePending := false;
      }
    }
  }

  /** The request a click on a card showing `r` sends. */
  function Click(r: Repository): (req: Request)
    ensures req.RemoveBookmark? <==> WillRemove(r)
    ensures req.RemoveBookmark? ==> Some(req.bookmarkId) == r.bookmarkId
    ensures req.AddBookmark? ==> req.repoId == r.id
  {
    if WillRemove(r) then RemoveBookmark(r.bookmarkId.value) else AddBookmark(r.id)
  }

  /** A failed click restores what the card showed exactly when the card's flag
      agreed with its bookmark id; a repository marked added without an id is
      shown as not added after its add fails. */
  lemma FailedClickRestores(r: Repository)
    ensures Optimistic(Optimistic(r, Pending(Click(r))), !Pending(Click(r))) == r
      <==> (r.isAdded <==> WillRemove(r))
  {
  }

  /** On a card whose flag agrees with its bookmark id, a click flips the flag. */
  lemma ClickFlipsWhenConsistent(r: Repository)
    requires r.isAdded <==> WillRemove(r)
    ensures Optimistic(r, Pending(Click(r))).isAdded == !r.isAdded
  {
  }

  /** A click on a fresh card, then its failure: the card is back as it was, for
      any repository whose flag agrees with its bookmark id, and enabled again. */
  method ClickAndFail(r: Repository) returns (shownAfter: Repository, disabledAfter: bool)
    requires r.isAdded <==> WillRemove(r)
    ensures shownAfter == r && !disabledAfter
  {
    var card := new Card(r);
    var req := card.Toggle();
    assert req == Click(r);
    card.Failed(req);
    FailedClickRestores(r);
    shownAfter := card.shown;
    disabledAfter := card.Disabled();
  }
}
