/** The dashboard's bookmark list: the page of bookmarks it shows, the delete
    dialog's pending id, the optimistic removal a confirmed delete applies before
    the server answers, and when and how many pages the pager offers. */
module Dashboard {
  import opened Wrappers
  import opened BookmarksQuery

  /** The page size; the dashboard never changes it. */
  const PerPage := 10

  /** The optimistic reducer: the list without the bookmarks of that id, the rest in
      their order. */
  function Without(s: seq<BackendBookmark>, deletedId: string): (r: seq<BackendBookmark>)
    ensures forall b :: b in r <==> b in s && b.id != deletedId
    ensures |r| <= |s|
    ensures (forall k :: 0 <= k < |s| ==> s[k].id != deletedId) ==> r == s
  {
    if s == [] then []
    else
      var rest := Without(s[1..], deletedId);
      assert s == [s[0]] + s[1..];
      if s[0].id == deletedId then rest else [s[0]] + rest
  }

  /** Removing from a concatenation removes from each part: the order of what stays
      is the order of the list. */
  lemma {:induction false} WithoutAppend(a: seq<BackendBookmark>, b: seq<BackendBookmark>, deletedId: string)
    ensures Without(a + b, deletedId) == Without(a, deletedId) + Without(b, deletedId)
  {
    if a == [] {
      assert a + b == b;
    } else {
      assert (a + b)[0] == a[0] && (a + b)[1..] == a[1..] + b;
      WithoutAppend(a[1..], b, deletedId);
    }
  }

  /** Removing the same id twice is removing it once. */
  lemma WithoutIdempotent(s: seq<BackendBookmark>, deletedId: string)
    ensures Without(Without(s, deletedId), deletedId) == Without(s, deletedId)
  {
  }

  /** `bookmarkList?.items || []`: the items, or nothing before the first answer. */
  function Shown(data: Option<BookmarkList>): (r: seq<BackendBookmark>)
    ensures data.None? ==> r == []
    ensures data.Some? ==> r == data.value.items
  {
    if data.Some? then data.value.items else []
  }

  /** `bookmarkList?.total || 0`. */
  function Total(data: Option<BookmarkList>): (r: int)
    ensures data.None? ==> r == 0
    ensures data.Some? ==> r == data.value.total
  {
    if data.Some? then data.value.total else 0
  }

  /** Math.ceil(total / perPage) for a positive page size. */
  function TotalPages(total: int, perPage: int): (r: int)
    requires perPage > 0
    ensures (r - 1) * perPage < total <= r * perPage
  {
    if total % perPage == 0 then total / perPage else total / perPage + 1
  }

  /** The pager is shown only when there is more than one page of bookmarks. */
  predicate ShowPager(data: Option<BookmarkList>) {
    Total(data) > PerPage
  }

  /** When the pager is shown it offers at least two pages, and exactly enough
      pages of ten for every bookmark. */
  lemma PagerPages(data: Option<BookmarkList>)
    requires ShowPager(data)
    ensures TotalPages(Total(data), PerPage) >= 2
    ensures data.Some?
  {
  }

  class Page {
    /** The server's list, as last fetched. */
    var bookmarks: seq<BackendBookmark>
    /** The list the page shows. */
    var shown: seq<BackendBookmark>
    /** The bookmark the delete dialog asks about. */
    var bookmarkToDelete: Option<string>

    /** What is shown is the server's list less some bookmarks. */
    ghost predicate Valid()
      reads this
    {
      forall b :: b in shown ==> b in bookmarks
    }

    constructor (data: Option<BookmarkList>)
      ensures Valid()
      ensures bookmarks == Shown(data) && shown == bookmarks && bookmarkToDelete == None
    {
      bookmarks := Shown(data);
      shown := bookmarks;
      bookmarkToDelete := None;
    }

    /** The dialog is open exactly when a (truthy, so non-empty) id is pending. */
    predicate DialogOpen()
      reads this
    {
      bookmarkToDelete.Some? && bookmarkToDelete.value != ""
    }

    /** handleRemoveBookmark: asks about that bookmark. */
    method HandleRemove(id: string)
      modifies this
      ensures bookmarkToDelete == Some(id)
      ensures bookmarks == old(bookmarks) && shown == old(shown)
      ensures DialogOpen() <==> id != ""
    {
      bookmarkToDelete := Some(id);
    }

    /** handleCloseDialog: drops the question. */
    method CloseDialog()
      modifies this
      ensures bookmarkToDelete == None && !DialogOpen()
      ensures bookmarks == old(bookmarks) && shown == old(shown)
    {
      bookmarkToDelete := None;
    }

    /** confirmDelete: with nothing pending, nothing happens; otherwise the pending
        bookmark leaves the shown list at once, the dialog closes, and the removal
        of that same id is requested. */
    method ConfirmDelete() returns (request: Option<string>)
      requires Valid()
      modifies this
      ensures Valid() && bookmarks == old(bookmarks)
      ensures !old(DialogOpen()) ==>
        request == None && shown == old(shown) && bookmarkToDelete == old(bookmarkToDelete)
      ensures old(DialogOpen()) ==>
        && request == old(bookmarkToDelete)
        && shown == Without(old(shown), request.value)
        && bookmarkToDelete == None
    {
      if bookmarkToDelete.None? || bookmarkToDelete.value == "" {
        return None;
      }
      request := bookmarkToDelete;
      shown := Without(shown, request.value);
      bookmarkToDelete := None;
    }
  }

  /** Asking about a shown bookmark and confirming takes it, and only it, off the
      list at once, and requests its removal. */
  method DeleteShown(data: Option<BookmarkList>, k: nat) returns (request: Option<string>, after: seq<BackendBookmark>)
    requires k < |Shown(data)| && Shown(data)[k].id != ""
    ensures request == Some(Shown(data)[k].id)
    ensures Shown(data)[k] !in after
    ensures forall b :: b in Shown(data) && b.id != Shown(data)[k].id ==> b in after
  {
    var page := new Page(data);
    page.HandleRemove(page.shown[k].id);
    request := page.ConfirmDelete();
    after := page.shown;
  }
}
