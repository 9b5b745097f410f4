/** The bookmark endpoints: adding a repository by its GitHub id, listing the
    user's bookmarks a page at a time, deleting one, the statistics, and the CSV
    import. `userId` is what the authentication middleware left in the request
    state (None when it set nothing). */
module BookmarksRouter {
  import opened Wrappers
  import opened Text
  import opened Helpers
  import opened BookmarkCrud
  import opened GithubService
  import Config
  import Paging
  import AuthMiddleware

  const Unauthorized := HttpError(401, "Unauthorized")
  const RepositoryNotFound := HttpError(404, "Repository not found")
  const AlreadyExists := HttpError(409, "Bookmark already exists")

  // ----- POST /bookmark/add -----

  /** create_bookmark_endpoint: the lookup's own errors pass through, a missing
      repository is a 404, a missing user a 401; otherwise the bookmark is created. */
  method CreateBookmarkEndpoint(s: Config.Settings, repoId: int, fetch: string -> HttpOutcome<RepoJson>,
                                userId: Option<string>, table: BookmarkTable, today: int)
    returns (r: Result<Bookmark>)
    requires table.Valid()
    modifies table
    ensures table.Valid()
    ensures var found := GetRepositoryById(s, repoId, fetch);
      && (found.Err? ==> r == Err(found.error))
      && (found == Ok(None) ==> r == Err(RepositoryNotFound))
      && (found.Ok? && found.value.Some? && userId.None? ==> r == Err(Unauthorized))
      && (r.Err? && r.error != AlreadyExists ==> table.rows == old(table.rows) && table.nextId == old(table.nextId))
    ensures var found := GetRepositoryById(s, repoId, fetch);
      found.Ok? && found.value.Some? && userId.Some? ==>
        var item := found.value.value;
        && (old(table.IsRepoBookmarked(item.repoId, userId.value)).0 ==>
              r == Err(AlreadyExists) && table.rows == old(table.rows) && table.nextId == old(table.nextId))
        && (!old(table.IsRepoBookmarked(item.repoId, userId.value)).0 ==>
              r == Ok(NewRow(item, userId.value, old(table.nextId), today))
              && table.rows == old(table.rows) + [r.value] && table.nextId == old(table.nextId) + 1)
  {
    var found := GetRepositoryById(s, repoId, fetch);
    if found.Err? {
      return Err(found.error);
    }
    if found.value.None? {
      return Err(RepositoryNotFound);
    }
    if userId.None? {
      return Err(Unauthorized);
    }
    r := table.Create(found.value.value, userId.value, today);
  }

  // ----- GET /bookmark/list -----

  datatype ListResponse = ListResponse(
    items: seq<Bookmark>, page: int, perPage: int, total: nat, hasNext: bool, hasPrev: bool)

  /** list_my_bookmarks: one page of the user's bookmarks in descending id order (the
      page's first entry has (page - 1) * perPage of the user's rows after it in the
      table), with the total and the two pagination flags. */
  function ListMyBookmarks(table: BookmarkTable, userId: Option<string>, page: int, perPage: int): (r: Result<ListResponse>)
    reads table
    ensures !Paging.ParamsValid(page, perPage) ==> r == Err(Paging.InvalidQuery)
    ensures Paging.ParamsValid(page, perPage) && userId.None? ==> r == Err(Unauthorized)
    ensures r.Ok? ==>
      && userId.Some? && r.value.page == page && r.value.perPage == perPage
      && r.value.total == |OfUser(table.rows, userId.value)|
      && |r.value.items| <= perPage
      && (forall b :: b in r.value.items ==> b in table.rows && b.userId == userId.value)
      && (table.Valid() ==> Decreasing(r.value.items))
      && (r.value.hasNext <==> page * perPage < r.value.total)
      && (r.value.hasPrev <==> page > 1)
    ensures r.Ok? ==> ReversedWindow(r.value.items, OfUser(table.rows, userId.value), (page - 1) * perPage, perPage)
  {
    if !Paging.ParamsValid(page, perPage) then Err(Paging.InvalidQuery)
    else if userId.None? then Err(Unauthorized)
    else
      var (items, total) := table.GetUserBookmarks(userId.value, page, perPage);
      Ok(ListResponse(items, page, perPage, total, Paging.HasNext(page, perPage, total), Paging.HasPrev(page)))
  }

  /** has_next promises exactly that the next page holds something, and has_prev
      that there is a page before; the pages cover the user's bookmarks without gaps. */
  lemma ListFlagsAgree(table: BookmarkTable, user: string, page: int, perPage: int)
    requires Paging.ParamsValid(page, perPage)
    ensures var r := ListMyBookmarks(table, Some(user), page, perPage);
      && r.Ok?
      && (r.value.hasNext <==> table.GetUserBookmarks(user, page + 1, perPage).0 != [])
      && (r.value.hasPrev <==> page - 1 >= 1)
    ensures forall k :: 0 <= k < |OfUser(table.rows, user)| ==>
      Reverse(OfUser(table.rows, user))[k] in table.GetUserBookmarks(user, k / perPage + 1, perPage).0
  {
    var full := Reverse(OfUser(table.rows, user));
    PageNonEmpty(full, page + 1, perPage);
    assert (page + 1 - 1) * perPage == page * perPage;
    forall k | 0 <= k < |OfUser(table.rows, user)|
      ensures full[k] in table.GetUserBookmarks(user, k / perPage + 1, perPage).0
    {
      PageLocates(full, perPage, k);
    }
  }

  // ----- DELETE /bookmark/{id} -----

  /** remove_bookmark: a missing or empty user id is a 401; otherwise the row is deleted
      when it is the user's. */
  method RemoveBookmark(table: BookmarkTable, id: nat, userId: Option<string>) returns (r: Result<string>)
    requires table.Valid()
    modifies table
    ensures table.Valid() && table.nextId == old(table.nextId)
    ensures userId.None? || userId.value == "" ==> r == Err(Unauthorized) && table.rows == old(table.rows)
    ensures userId.Some? && userId.value != "" && Owns(old(table.rows), id, userId.value) ==>
      r == Ok("Bookmark deleted successfully") && table.rows == RemoveId(old(table.rows), id)
    ensures userId.Some? && userId.value != "" && !Owns(old(table.rows), id, userId.value) ==>
      r == Err(HttpError(404, "Bookmark not found")) && table.rows == old(table.rows)
  {
    if userId.None? || userId.value == "" {
      return Err(Unauthorized);
    }
    r := table.Delete(id, userId.value);
  }

  // ----- GET /bookmark/stats -----

  datatype StatsResponse = StatsResponse(totalBookmarks: nat, todayCount: nat, data: seq<DateCount>)

  /** A parsed optional date as a day number. */
  function DayOf(d: Option<Date>): (r: Option<int>)
    requires d.Some? ==> ValidDate(d.value)
    ensures r.Some? <==> d.Some?
    ensures d.Some? ==> r.value == DayNumber(d.value)
  {
    match d
    case None => None
    case Some(v) => Some(DayNumber(v))
  }

  /** Comparing day numbers against the window is comparing dates: a bookmark made on
      `c` is inside the window from `start` to `end` (both inclusive, either open)
      exactly when `c` is neither before `start` nor after `end`. */
  lemma WindowOfDates(c: Date, start: Option<Date>, end: Option<Date>)
    requires ValidDate(c)
    requires start.Some? ==> ValidDate(start.value)
    requires end.Some? ==> ValidDate(end.value)
    ensures InWindow(DayNumber(c), DayOf(start), DayOf(end)) <==>
      (start.None? || !Before(c, start.value)) && (end.None? || !Before(end.value, c))
  {
    if start.Some? {
      DayNumberOrder(c, start.value);
    }
    if end.Some? {
      DayNumberOrder(end.value, c);
    }
  }

  /** bookmark_stats: 401 without a user, 400 for a malformed date; otherwise the
      user's total, the number made `today`, and the per-day counts inside the window. */
  method BookmarkStats(table: BookmarkTable, userId: Option<string>, startDate: Option<string>,
                       endDate: Option<string>, today: Date)
    returns (r: Result<StatsResponse>)
    requires ValidDate(today)
    ensures userId.None? || userId.value == "" ==> r == Err(Unauthorized)
    ensures userId.Some? && userId.value != "" && (ParseDateOrNone(startDate).Err? || ParseDateOrNone(endDate).Err?) ==>
      r == Err(InvalidDate)
    ensures r.Ok? ==>
      && userId.Some? && ParseDateOrNone(startDate).Ok? && ParseDateOrNone(endDate).Ok?
      && var user := userId.value;
      var days := MatchedDays(table.rows, user, DayOf(ParseDateOrNone(startDate).value), DayOf(ParseDateOrNone(endDate).value));
      && r.value.totalBookmarks == |OfUser(table.rows, user)|
      && r.value.todayCount == Occurrences(MatchedDays(table.rows, user, None, None), DayNumber(today))
      && (forall k :: 0 <= k < |r.value.data| ==>
            r.value.data[k].count > 0 && r.value.data[k].count == Occurrences(days, r.value.data[k].day))
      && (forall k, l :: 0 <= k < l < |r.value.data| ==> r.value.data[k].day < r.value.data[l].day)
      && (forall d :: d in days ==> d in DaysOf(r.value.data))
      && SumCounts(r.value.data) == |days|
  {
    if userId.None? || userId.value == "" {
      return Err(Unauthorized);
    }
    var s := ParseDateOrNone(startDate);
    var e := ParseDateOrNone(endDate);
    if s.Err? || e.Err? {
      return Err(InvalidDate);
    }
    var total := table.TotalCount(userId.value);
    var todayCount := table.TodayCount(userId.value, DayNumber(today));
    var data := table.CountsByDate(userId.value, DayOf(s.value), DayOf(e.value));
    return Ok(StatsResponse(total, todayCount, data));
  }

  // ----- POST /bookmark/import -----

  datatype ImportResult = ImportResult(totalProcessed: nat, successful: nat, failed: nat, errors: seq<string>)

  /** What the checks of one CSV row against the URL format and GitHub come to.
      Found: the repository exists, `raw` is the stripped cell. Crash: the handler
      raises an exception that is not an HTTPException. */
  datatype RowCheck = Skip | Reject(message: string) | Found(item: BookmarkCreate, raw: string) | Crash

  /** The body of the import loop up to the existence check. `corrected` selects the
      handling of a repository GitHub does not know: as written the code reads
      `full_name` of None and crashes; corrected, the row fails with the message of
      the otherwise unreachable else-branch. */
  function CheckRow(s: Config.Settings, row: seq<string>, fetch: string -> HttpOutcome<RepoJson>, corrected: bool): (c: RowCheck)
    ensures row == [] ==> c == Skip
    ensures c.Crash? ==> !corrected
    ensures c.Found? ==> c.raw == Strip(row[0], PyWhitespace)
    ensures c.Reject? ==> exists raw :: (c.message == "Invalid URL format: " + raw || c.message == "Repo not found on GitHub: " + raw)
    ensures row != [] ==> var raw := Strip(row[0], PyWhitespace);
      && (LowerAscii(raw) == "url" ==> c == Skip)
      && (LowerAscii(raw) != "url" && ExtractOwnerRepo(raw).None? ==> c == Reject("Invalid URL format: " + raw))
      && (LowerAscii(raw) != "url" && ExtractOwnerRepo(raw).Some? ==>
            var v := ValidateGithubRepo(s, ExtractOwnerRepo(raw).value, fetch);
            && (v.Err? ==> c == Reject("Repo not found on GitHub: " + raw))
            && (v.Ok? && v.value.None? ==> c == if corrected then Reject("Repo not found on GitHub: " + raw) else Crash)
            && (v.Ok? && v.value.Some? ==> c == Found(v.value.value, raw)))
  {
    if row == [] then Skip
    else
      var raw := Strip(row[0], PyWhitespace);
      if LowerAscii(raw) == "url" then Skip
      else
        match ExtractOwnerRepo(raw)
        case None => Reject("Invalid URL format: " + raw)
        case Some(ownerRepo) =>
          match ValidateGithubRepo(s, ownerRepo, fetch)
          case Err(_) => Reject("Repo not found on GitHub: " + raw)
          case Ok(None) => if corrected then Reject("Repo not found on GitHub: " + raw) else Crash
          case Ok(Some(item)) => Found(item, raw)
  }

  /** The checks of all rows. */
  function CheckRows(s: Config.Settings, rows: seq<seq<string>>, fetch: string -> HttpOutcome<RepoJson>, corrected: bool): (cs: seq<RowCheck>)
    ensures |cs| == |rows|
    ensures forall i :: 0 <= i < |rows| ==> cs[i] == CheckRow(s, rows[i], fetch, corrected)
  {
    seq(|rows|, i requires 0 <= i < |rows| => CheckRow(s, rows[i], fetch, corrected))
  }

  /** Whether the session already holds a bookmark of `fullName` for `user`: a committed
      row, or one added earlier in the same import (the session flushes pending rows
      before it queries). */
  predicate AlreadyBookmarked(fullName: string, user: string, existing: seq<Bookmark>, pending: seq<BookmarkCreate>) {
    (exists i :: 0 <= i < |existing| && existing[i].fullName == fullName && existing[i].userId == user)
    || (exists k :: 0 <= k < |pending| && pending[k].fullName == fullName)
  }

  /** The import's running state: its counters, the error messages, the bookmarks
      added to the session, and whether the handler crashed. */
  datatype Tally = Tally(successful: nat, failed: nat, skipped: nat, errors: seq<string>,
                         pending: seq<BookmarkCreate>, crashed: bool)

  /** One row's effect on the running state, the existence check included. */
  function Record(t: Tally, c: RowCheck, user: string, existing: seq<Bookmark>): (r: Tally)
    ensures r.successful + r.failed + r.skipped == t.successful + t.failed + t.skipped + (if c.Crash? then 0 else 1)
    ensures r.pending == t.pending || (c.Found? && r.pending == t.pending + [c.item] && !AlreadyBookmarked(c.item.fullName, user, existing, t.pending))
    ensures r.crashed <==> t.crashed || c.Crash?
    ensures c.Reject? ==> r.errors == t.errors + [c.message] && r.failed == t.failed + 1
    ensures c.Found? && AlreadyBookmarked(c.item.fullName, user, existing, t.pending) ==>
      r.errors == t.errors + ["Bookmark already exists for " + c.raw] && r.failed == t.failed + 1 && r.pending == t.pending
    ensures c.Found? && !AlreadyBookmarked(c.item.fullName, user, existing, t.pending) ==>
      r.errors == t.errors && r.successful == t.successful + 1 && r.pending == t.pending + [c.item]
    ensures c.Skip? || c.Crash? ==> r.errors == t.errors && r.pending == t.pending && r.failed == t.failed
  {
    match c
    case Skip => t.(skipped := t.skipped + 1)
    case Reject(m) => t.(failed := t.failed + 1, errors := t.errors + [m])
    case Found(item, raw) =>
      if AlreadyBookmarked(item.fullName, user, existing, t.pending) then
        t.(failed := t.failed + 1, errors := t.errors + ["Bookmark already exists for " + raw])
      else t.(successful := t.successful + 1, pending := t.pending + [item])
    case Crash => t.(crashed := true)
  }

  /** The state after the rows' checks, one row at a time, stopping at a crash. */
  function Run(checks: seq<RowCheck>, user: string, existing: seq<Bookmark>): (t: Tally)
    ensures !t.crashed ==> t.successful + t.failed + t.skipped == |checks|
    ensures t.failed == |t.errors| && t.successful == |t.pending|
    ensures t.crashed <==> exists i :: 0 <= i < |checks| && checks[i].Crash?
    decreases |checks|
  {
    if checks == [] then Tally(0, 0, 0, [], [], false)
    else
      var t := Run(checks[..|checks| - 1], user, existing);
      assert forall i :: 0 <= i < |checks| - 1 ==> checks[..|checks| - 1][i] == checks[i];
      if t.crashed then t
      else Record(t, checks[|checks| - 1], user, existing)
  }

  /** Run over one more row. */
  lemma RunPrefix(checks: seq<RowCheck>, i: nat, user: string, existing: seq<Bookmark>)
    requires i < |checks|
    ensures var t := Run(checks[..i], user, existing);
      Run(checks[..i + 1], user, existing) == if t.crashed then t else Record(t, checks[i], user, existing)
  {
    assert checks[..i + 1][..i] == checks[..i];
  }

  /** The messages grow in row order: the messages after the first i rows begin the
      messages after all of them. */
  lemma {:induction false} ErrorsInRowOrder(checks: seq<RowCheck>, i: nat, user: string, existing: seq<Bookmark>)
    requires i <= |checks|
    ensures Run(checks[..i], user, existing).errors <= Run(checks, user, existing).errors
    decreases |checks|
  {
    if i < |checks| {
      var n := |checks| - 1;
      assert checks[..n][..i] == checks[..i];
      ErrorsInRowOrder(checks[..n], i, user, existing);
      var t := Run(checks[..n], user, existing);
      RecordKeepsErrors(t, checks[n], user, existing);
      RunPrefix(checks, n, user, existing);
      assert checks[..n + 1] == checks;
    } else {
      assert checks[..i] == checks;
    }
  }

  /** A row's record only appends to the messages. */
  lemma RecordKeepsErrors(t: Tally, c: RowCheck, user: string, existing: seq<Bookmark>)
    ensures t.errors <= Record(t, c, user, existing).errors
  {
  }

  /** No two of `p` have the same full name, and none has the full name of one of
      the user's rows in `existing`. */
  predicate NewNames(p: seq<BookmarkCreate>, user: string, existing: seq<Bookmark>) {
    && (forall k, l :: 0 <= k < l < |p| ==> p[k].fullName != p[l].fullName)
    && (forall k, i :: 0 <= k < |p| && 0 <= i < |existing| && existing[i].userId == user ==>
          p[k].fullName != existing[i].fullName)
  }

  /** No import adds a repository twice, nor one the user had already bookmarked. */
  lemma {:induction false} ImportAddsNoDuplicates(checks: seq<RowCheck>, user: string, existing: seq<Bookmark>)
    ensures NewNames(Run(checks, user, existing).pending, user, existing)
    decreases |checks|
  {
    if checks != [] {
      var init := checks[..|checks| - 1];
      ImportAddsNoDuplicates(init, user, existing);
      var t := Run(init, user, existing);
      var p := Run(checks, user, existing).pending;
      if p != t.pending {
        var c := checks[|checks| - 1];
        assert c.Found? && p == t.pending + [c.item] && !AlreadyBookmarked(c.item.fullName, user, existing, t.pending);
        forall k, l | 0 <= k < l < |p| ensures p[k].fullName != p[l].fullName {
          assert p[k] == t.pending[k];
          if l < |t.pending| {
            assert p[l] == t.pending[l];
            assert t.pending[k].fullName != t.pending[l].fullName;
          } else {
            assert p[l] == c.item;
            assert t.pending[k].fullName != c.item.fullName;
          }
        }
        forall k, i | 0 <= k < |p| && 0 <= i < |existing| && existing[i].userId == user
          ensures p[k].fullName != existing[i].fullName
        {
          if k < |t.pending| {
            assert p[k] == t.pending[k];
          } else {
            assert p[k] == c.item;
          }
        }
      }
    }
  }

  /** A header row "url" (any case, any surrounding whitespace) and an empty row are
      counted in total_processed but neither as imported nor as failed. */
  lemma HeaderRowsOnlyCounted(s: Config.Settings, header: string, fetch: string -> HttpOutcome<RepoJson>,
                              corrected: bool, user: string, existing: seq<Bookmark>)
    requires LowerAscii(Strip(header, PyWhitespace)) == "url"
    ensures var t := Run(CheckRows(s, [[header], []], fetch, corrected), user, existing);
      && !t.crashed && t.skipped == 2 && t.successful == 0 && t.failed == 0 && t.errors == []
  {
    var cs := CheckRows(s, [[header], []], fetch, corrected);
    assert CheckRow(s, [header], fetch, corrected) == Skip;
    assert cs[0] == Skip && cs[1] == Skip;
    assert cs[..1] == [Skip] && cs[..1][..0] == [];
  }

  /** A row naming a repository GitHub answers with 404: as written the handler
      crashes on it, corrected it reports the row as not found. */
  lemma MissingRepoRow(s: Config.Settings, raw: string, fetch: string -> HttpOutcome<RepoJson>)
    requires LowerAscii(Strip(raw, PyWhitespace)) != "url"
    requires ExtractOwnerRepo(Strip(raw, PyWhitespace)).Some?
    requires var o := fetch(s.githubApiBaseUrl + "repos/" + ExtractOwnerRepo(Strip(raw, PyWhitespace)).value);
      o.Response? && o.status == 404
    ensures CheckRow(s, [raw], fetch, false) == Crash
    ensures CheckRow(s, [raw], fetch, true) == Reject("Repo not found on GitHub: " + Strip(raw, PyWhitespace))
  {
    var ownerRepo := ExtractOwnerRepo(Strip(raw, PyWhitespace)).value;
    assert '/' in ownerRepo by {
      var p := OwnerRepoParts(Strip(raw, PyWhitespace)).value;
      assert ownerRepo[|p.0|] == '/';
    }
    assert ValidateGithubRepo(s, ownerRepo, fetch) == Ok(None);
  }

  /** An import of that one row: as written the whole import crashes, corrected it
      reports one failure and adds nothing. */
  lemma MissingRepoImport(s: Config.Settings, raw: string, fetch: string -> HttpOutcome<RepoJson>,
                          user: string, existing: seq<Bookmark>)
    requires LowerAscii(Strip(raw, PyWhitespace)) != "url"
    requires ExtractOwnerRepo(Strip(raw, PyWhitespace)).Some?
    requires var o := fetch(s.githubApiBaseUrl + "repos/" + ExtractOwnerRepo(Strip(raw, PyWhitespace)).value);
      o.Response? && o.status == 404
    ensures Run(CheckRows(s, [[raw]], fetch, false), user, existing).crashed
    ensures Run(CheckRows(s, [[raw]], fetch, true), user, existing) ==
      Tally(0, 1, 0, ["Repo not found on GitHub: " + Strip(raw, PyWhitespace)], [], false)
  {
    MissingRepoRow(s, raw, fetch);
    SingleRowRun(s, raw, fetch, false, user, existing);
    SingleRowRun(s, raw, fetch, true, user, existing);
  }

  /** An import of one row comes to that row's check recorded on an empty tally. */
  lemma SingleRowRun(s: Config.Settings, raw: string, fetch: string -> HttpOutcome<RepoJson>, corrected: bool,
                     user: string, existing: seq<Bookmark>)
    ensures var c := CheckRow(s, [raw], fetch, corrected);
      Run(CheckRows(s, [[raw]], fetch, corrected), user, existing) ==
        if c.Crash? then Tally(0, 0, 0, [], [], true) else Record(Tally(0, 0, 0, [], [], false), c, user, existing)
  {
    var c := CheckRow(s, [raw], fetch, corrected);
    assert CheckRows(s, [[raw]], fetch, corrected) == [c];
    RunSingle(c, user, existing);
  }

  /** Run over a single row. */
  lemma RunSingle(c: RowCheck, user: string, existing: seq<Bookmark>)
    ensures Run([c], user, existing) ==
      if c.Crash? then Tally(0, 0, 0, [], [], true) else Record(Tally(0, 0, 0, [], [], false), c, user, existing)
  {
    assert [c][..0] == [];
  }

  /** The corrected handler never crashes. */
  lemma CorrectedImportCompletes(s: Config.Settings, rows: seq<seq<string>>, fetch: string -> HttpOutcome<RepoJson>,
                                 user: string, existing: seq<Bookmark>)
    ensures !Run(CheckRows(s, rows, fetch, true), user, existing).crashed
  {
  }

  /** The body of the loop for a row that did not crash: the counter, message or
      pending bookmark it adds, after the existence check. */
  method CountRow(c: RowCheck, user: string, existing: seq<Bookmark>,
                  successful: nat, failed: nat, ghost skipped: nat, errors: seq<string>, pending: seq<BookmarkCreate>)
    returns (successful': nat, failed': nat, ghost skipped': nat, errors': seq<string>, pending': seq<BookmarkCreate>)
    requires !c.Crash?
    ensures var t := Record(Tally(successful, failed, skipped, errors, pending, false), c, user, existing);
      && successful' == t.successful && failed' == t.failed && errors' == t.errors && pending' == t.pending
      && !t.crashed
    ensures Record(Tally(successful, failed, skipped, errors, pending, false), c, user, existing)
         == Tally(successful', failed', skipped', errors', pending', false)
  {
    successful', failed', skipped', errors', pending' := successful, failed, skipped, errors, pending;
    match c {
      case Skip =>
        skipped' := skipped + 1;
      case Reject(m) =>
        failed' := failed + 1;
        errors' := errors + [m];
      case Found(item, raw) =>
        if AlreadyBookmarked(item.fullName, user, existing, pending) {
          failed' := failed + 1;
          errors' := errors + ["Bookmark already exists for " + raw];
        } else {
          successful' := successful + 1;
          pending' := pending + [item];
        }
    }
  }

  /** The loop of import_bookmarks over the rows, with the session's rows before the
      import in `existing`: its counters, messages and pending bookmarks, or the crash. */
  method ProcessRows(s: Config.Settings, rows: seq<seq<string>>, user: string,
                     fetch: string -> HttpOutcome<RepoJson>, existing: seq<Bookmark>, corrected: bool)
    returns (crashed: bool, successful: nat, failed: nat, errors: seq<string>, pending: seq<BookmarkCreate>)
    ensures var t := Run(CheckRows(s, rows, fetch, corrected), user, existing);
      && crashed == t.crashed
      && (!crashed ==> successful == t.successful && failed == t.failed && errors == t.errors && pending == t.pending)
  {
    ghost var checks := CheckRows(s, rows, fetch, corrected);
    successful, failed, errors, pending := 0, 0, [], [];
    ghost var skipped: nat := 0;
    var i := 0;
    assert checks[..0] == [];
    while i < |rows|
      invariant 0 <= i <= |rows|
      invariant forall k :: 0 <= k < |rows| ==> checks[k] == CheckRow(s, rows[k], fetch, corrected)
      invariant Run(checks[..i], user, existing) == Tally(successful, failed, skipped, errors, pending, false)
    {
      RunPrefix(checks, i, user, existing);
      var c := CheckRow(s, rows[i], fetch, corrected);
      if c.Crash? {
        assert checks[i].Crash?;
        return true, successful, failed, errors, pending;
      }
      successful, failed, skipped, errors, pending := CountRow(c, user, existing, successful, failed, skipped, errors, pending);
      i := i + 1;
    }
    assert checks[..i] == checks;
    crashed := false;
  }

  /** import_bookmarks: 400 unless the file name ends in ".csv", 401 without a user;
      then the rows are processed in order and the bookmarks they add are committed
      together. A crash answers through the authentication middleware's handler of
      unexpected errors, and nothing is committed. `rows` is the parsed CSV. */
  method ImportBookmarks(s: Config.Settings, filename: string, userId: Option<string>, rows: seq<seq<string>>,
                         fetch: string -> HttpOutcome<RepoJson>, table: BookmarkTable, today: int, corrected: bool)
    returns (r: Result<ImportResult>)
    requires table.Valid()
    modifies table
    ensures table.Valid()
    ensures !EndsWith(filename, ".csv") ==> r == Err(HttpError(400, "File must be a CSV.")) && table.rows == old(table.rows)
    ensures EndsWith(filename, ".csv") && userId.None? ==> r == Err(Unauthorized) && table.rows == old(table.rows)
    ensures EndsWith(filename, ".csv") && userId.Some? ==>
      var t := Run(CheckRows(s, rows, fetch, corrected), userId.value, old(table.rows));
      && (t.crashed ==> r == Err(HttpError(500, AuthMiddleware.UnexpectedErrorDetail)) && table.rows == old(table.rows))
      && (!t.crashed ==>
            r == Ok(ImportResult(|rows|, t.successful, t.failed, t.errors))
            && table.rows == old(table.rows) + NewRows(t.pending, userId.value, old(table.nextId), today))
  {
    if !EndsWith(filename, ".csv") {
      return Err(HttpError(400, "File must be a CSV."));
    }
    if userId.None? {
      return Err(Unauthorized);
    }
    var crashed, successful, failed, errors, pending := ProcessRows(s, rows, userId.value, fetch, table.rows, corrected);
    if crashed {
      return Err(HttpError(500, AuthMiddleware.UnexpectedErrorDetail));
    }
    table.AddAll(pending, userId.value, today);
    return Ok(ImportResult(|rows|, successful, failed, errors));
  }
}
