/** The bookmarks table and the queries the backend runs on it. The database is
    an in-memory table: a sequence of rows in insertion order. Row ids are handed
    out by a counter, so the table's rows are in increasing id order; creation
    times are kept as whole days, which is all the date queries look at. */
module BookmarkCrud {
  import opened Wrappers

  /** BookmarkCreate: a repository as the GitHub lookups describe it. */
  datatype BookmarkCreate = BookmarkCreate(
    repoName: string, repoUrl: string, ownerName: string, ownerId: int,
    ownerAvatarUrl: Option<string>, ownerUrl: string, description: Option<string>,
    fullName: string, repoId: int)

  /** A row of the bookmarks table. */
  datatype Bookmark = Bookmark(
    id: nat, githubRepoId: int, userId: string, repoName: string, fullName: string,
    ownerName: string, ownerId: int, ownerAvatarUrl: Option<string>, ownerUrl: string,
    repoUrl: string, description: Option<string>, createdDay: int)

  /** The row that creating a bookmark of `item` for `userId` adds. */
  function NewRow(item: BookmarkCreate, userId: string, id: nat, day: int): Bookmark {
    Bookmark(id, item.repoId, userId, item.repoName, item.fullName, item.ownerName, item.ownerId,
      item.ownerAvatarUrl, item.ownerUrl, item.repoUrl, item.description, day)
  }

  /** The rows that adding `items` for `userId` adds, with ids from `firstId` on. */
  function NewRows(items: seq<BookmarkCreate>, userId: string, firstId: nat, day: int): (r: seq<Bookmark>)
    ensures |r| == |items|
    ensures forall k :: 0 <= k < |r| ==> r[k] == NewRow(items[k], userId, firstId + k, day)
  {
    seq(|items|, k requires 0 <= k < |items| => NewRow(items[k], userId, firstId + k, day))
  }

  predicate Increasing(rs: seq<Bookmark>) {
    forall i, j :: 0 <= i < j < |rs| ==> rs[i].id < rs[j].id
  }

  predicate Decreasing(rs: seq<Bookmark>) {
    forall i, j :: 0 <= i < j < |rs| ==> rs[i].id > rs[j].id
  }

  /** `.first()` of a query without ORDER BY: here the first matching row in table order. */
  function First(rs: seq<Bookmark>, p: Bookmark -> bool): (r: Option<Bookmark>)
    ensures r.None? <==> forall i :: 0 <= i < |rs| ==> !p(rs[i])
    ensures r.Some? ==> exists i :: 0 <= i < |rs| && rs[i] == r.value && p(rs[i])
  {
    if rs == [] then None
    else if p(rs[0]) then Some(rs[0])
    else
      var r := First(rs[1..], p);
      assert forall i :: 1 <= i < |rs| ==> rs[i] == rs[1..][i - 1];
      assert r.Some? ==> exists i :: 0 <= i < |rs[1..]| && rs[1..][i] == r.value && p(rs[1..][i]);
      r
  }

  /** The rows of one user, in table order. */
  function OfUser(rs: seq<Bookmark>, user: string): (r: seq<Bookmark>)
    ensures |r| <= |rs|
    ensures forall b :: b in r <==> b in rs && b.userId == user
  {
    if rs == [] then []
    else if rs[0].userId == user then [rs[0]] + OfUser(rs[1..], user)
    else OfUser(rs[1..], user)
  }

  /** Keeping a sub-sequence keeps increasing ids increasing. */
  lemma {:induction false} OfUserIncreasing(rs: seq<Bookmark>, user: string)
    requires Increasing(rs)
    ensures Increasing(OfUser(rs, user))
  {
    if rs != [] {
      OfUserIncreasing(rs[1..], user);
      var t := OfUser(rs[1..], user);
      forall k | 0 <= k < |t| ensures rs[0].id < t[k].id {
        assert t[k] in rs[1..];
      }
    }
  }

  function Reverse(s: seq<Bookmark>): (r: seq<Bookmark>)
    ensures |r| == |s|
    ensures forall i :: 0 <= i < |s| ==> r[i] == s[|s| - 1 - i]
  {
    if s == [] then [] else Reverse(s[1..]) + [s[0]]
  }

  /** The table without the row of id `id`. */
  function RemoveId(rs: seq<Bookmark>, id: nat): (r: seq<Bookmark>)
    ensures forall b :: b in r <==> b in rs && b.id != id
    ensures |r| <= |rs|
  {
    if rs == [] then []
    else if rs[0].id == id then RemoveId(rs[1..], id)
    else [rs[0]] + RemoveId(rs[1..], id)
  }

  /** Removing rows keeps the remaining ids increasing. */
  lemma {:induction false} RemoveIdIncreasing(rs: seq<Bookmark>, id: nat)
    requires Increasing(rs)
    ensures Increasing(RemoveId(rs, id))
  {
    if rs != [] {
      RemoveIdIncreasing(rs[1..], id);
      var t := RemoveId(rs[1..], id);
      forall k | 0 <= k < |t| ensures rs[0].id < t[k].id {
        assert t[k] in rs[1..];
      }
    }
  }

  /** Removing an id no row has changes nothing. */
  lemma {:induction false} RemoveAbsent(rs: seq<Bookmark>, id: nat)
    requires forall i :: 0 <= i < |rs| ==> rs[i].id != id
    ensures RemoveId(rs, id) == rs
  {
    if rs != [] {
      assert forall i :: 0 <= i < |rs[1..]| ==> rs[1..][i].id == rs[i + 1].id;
      RemoveAbsent(rs[1..], id);
    }
  }

  /** With distinct ids, removing an id that is present removes exactly one row. */
  lemma {:induction false} RemovePresent(rs: seq<Bookmark>, i: nat)
    requires Increasing(rs) && i < |rs|
    ensures |RemoveId(rs, rs[i].id)| == |rs| - 1
  {
    var id := rs[i].id;
    if i == 0 {
      assert forall j :: 0 <= j < |rs[1..]| ==> rs[1..][j].id == rs[j + 1].id > id;
      RemoveAbsent(rs[1..], id);
    } else {
      assert rs[0].id < id;
      assert rs[1..][i - 1] == rs[i];
      assert Increasing(rs[1..]);
      RemovePresent(rs[1..], i - 1);
    }
  }

  /** Removing a present id from a valid table leaves a valid table one row shorter. */
  lemma RemoveKeepsValid(rs: seq<Bookmark>, i: nat, bound: nat)
    requires Increasing(rs) && i < |rs|
    requires forall j :: 0 <= j < |rs| ==> rs[j].id < bound
    ensures var r := RemoveId(rs, rs[i].id);
      Increasing(r) && |r| == |rs| - 1 && forall j :: 0 <= j < |r| ==> r[j].id < bound
  {
    var r := RemoveId(rs, rs[i].id);
    RemoveIdIncreasing(rs, rs[i].id);
    RemovePresent(rs, i);
    forall j | 0 <= j < |r| ensures r[j].id < bound {
      assert r[j] in rs;
    }
  }

  /** `rs` holds a row of id `id` that belongs to `user`. */
  predicate Owns(rs: seq<Bookmark>, id: nat, user: string) {
    exists i :: 0 <= i < |rs| && rs[i].id == id && rs[i].userId == user
  }

  function Min(a: int, b: int): int {
    if a <= b then a else b
  }

  /** Where a page starts: (page - 1) * perPage, a page below 1 read as 1. */
  function Offset(page: int, perPage: int): (r: int)
    requires perPage >= 1
    ensures r >= 0
  {
    ((if page < 1 then 1 else page) - 1) * perPage
  }

  /** One page of `full`: `perPage` rows from offset (page - 1) * perPage, a page below 1 read as 1. */
  function Page(full: seq<Bookmark>, page: int, perPage: int): (r: seq<Bookmark>)
    requires perPage >= 1
    ensures |r| <= perPage
    ensures var offset := Offset(page, perPage);
      forall k :: 0 <= k < |r| ==> offset + k < |full| && r[k] == full[offset + k]
    ensures var offset := Offset(page, perPage);
      |r| == if offset >= |full| then 0 else Min(perPage, |full| - offset)
  {
    var offset := Offset(page, perPage);
    if offset >= |full| then [] else full[offset..offset + Min(perPage, |full| - offset)]
  }

  /** Every row of the full listing is on exactly one page: row k is entry k % perPage
      of page k / perPage + 1. */
  lemma PageLocates(full: seq<Bookmark>, perPage: int, k: nat)
    requires perPage >= 1 && k < |full|
    ensures var p := k / perPage + 1;
      k % perPage < |Page(full, p, perPage)| && Page(full, p, perPage)[k % perPage] == full[k]
  {
    var p := k / perPage + 1;
    assert (p - 1) * perPage + k % perPage == k;
  }

  /** A page from 1 on is non-empty exactly when its offset is below the total. */
  lemma PageNonEmpty(full: seq<Bookmark>, page: int, perPage: int)
    requires perPage >= 1 && page >= 1
    ensures |Page(full, page, perPage)| > 0 <==> (page - 1) * perPage < |full|
  {
  }

  /** `pg` is the window of `perPage` rows from `offset` on, counted from the end of `us`:
      entry k is the row of `us` that has offset + k rows after it. */
  predicate ReversedWindow(pg: seq<Bookmark>, us: seq<Bookmark>, offset: int, perPage: int) {
    && 0 <= offset
    && |pg| == (if offset >= |us| then 0 else Min(perPage, |us| - offset))
    && forall k :: 0 <= k < |pg| ==> offset + k < |us| && pg[k] == us[|us| - 1 - (offset + k)]
  }

  /** A page of the reversed rows, read against the rows themselves: entry k of the page
      is the row that has offset + k rows after it. */
  lemma PageOfReverse(us: seq<Bookmark>, page: int, perPage: int)
    requires perPage >= 1
    ensures ReversedWindow(Page(Reverse(us), page, perPage), us, Offset(page, perPage), perPage)
  {
    var full := Reverse(us);
    var r := Page(full, page, perPage);
    var offset := Offset(page, perPage);
    forall k | 0 <= k < |r| ensures r[k] == us[|us| - 1 - (offset + k)] {
      assert r[k] == full[offset + k];
    }
  }

  /** One page of the user's rows in descending id order. Entry k of the page is the
      user's row that has Offset(page, perPage) + k rows of the user after it in `rows`. */
  function UserPage(rows: seq<Bookmark>, user: string, page: int, perPage: int): (r: seq<Bookmark>)
    requires perPage >= 1
    ensures ReversedWindow(r, OfUser(rows, user), Offset(page, perPage), perPage)
    ensures forall b :: b in r ==> b in rows && b.userId == user
    ensures Increasing(rows) ==> Decreasing(r)
  {
    PageOfReverse(OfUser(rows, user), page, perPage);
    UserPageRows(rows, user, page, perPage);
    Page(Reverse(OfUser(rows, user)), page, perPage)
  }

  /** A page of a user's rows holds only that user's rows, in decreasing id order when
      the table is in increasing id order. */
  lemma UserPageRows(rows: seq<Bookmark>, user: string, page: int, perPage: int)
    requires perPage >= 1
    ensures var items := Page(Reverse(OfUser(rows, user)), page, perPage);
      && (forall b :: b in items ==> b in rows && b.userId == user)
      && (Increasing(rows) ==> Decreasing(items))
  {
    var full := Reverse(OfUser(rows, user));
    var items := Page(full, page, perPage);
    assert forall b :: b in items ==> b in full;
    if Increasing(rows) {
      OfUserIncreasing(rows, user);
      ReverseDecreasing(OfUser(rows, user));
      PageDecreasing(full, page, perPage);
    }
  }

  lemma ReverseDecreasing(s: seq<Bookmark>)
    requires Increasing(s)
    ensures Decreasing(Reverse(s))
  {
  }

  /** A page of a sequence in decreasing id order is in decreasing id order. */
  lemma PageDecreasing(r: seq<Bookmark>, page: int, perPage: int)
    requires perPage >= 1 && Decreasing(r)
    ensures Decreasing(Page(r, page, perPage))
  {
    var offset := Offset(page, perPage);
    WindowDecreasing(r, offset, Page(r, page, perPage));
  }

  /** A run of consecutive entries of a decreasing sequence is decreasing. */
  lemma WindowDecreasing(r: seq<Bookmark>, offset: int, pg: seq<Bookmark>)
    requires Decreasing(r)
    requires forall k :: 0 <= k < |pg| ==> 0 <= offset + k < |r| && pg[k] == r[offset + k]
    ensures Decreasing(pg)
  {
    forall k, l | 0 <= k < l < |pg| ensures pg[k].id > pg[l].id {
      var a, b := pg[k], pg[l];
      assert a == r[offset + k] && b == r[offset + l];
    }
  }

  /** A day inside the optional inclusive window. */
  predicate InWindow(day: int, start: Option<int>, end: Option<int>) {
    (start.None? || start.value <= day) && (end.None? || day <= end.value)
  }

  /** The creation days of the user's rows inside the window, in table order. */
  function MatchedDays(rs: seq<Bookmark>, user: string, start: Option<int>, end: Option<int>): (r: seq<int>)
    ensures |r| <= |rs|
    ensures forall d :: d in r ==> InWindow(d, start, end)
  {
    if rs == [] then []
    else if rs[0].userId == user && InWindow(rs[0].createdDay, start, end) then
      [rs[0].createdDay] + MatchedDays(rs[1..], user, start, end)
    else MatchedDays(rs[1..], user, start, end)
  }

  /** How many of `days` lie in [a, b). */
  function CountIn(days: seq<int>, a: int, b: int): (n: nat)
    ensures n <= |days|
  {
    if days == [] then 0
    else (if a <= days[0] < b then 1 else 0) + CountIn(days[1..], a, b)
  }

  /** How many times `d` occurs in `days`. */
  function Occurrences(days: seq<int>, d: int): nat {
    CountIn(days, d, d + 1)
  }

  lemma {:induction false} CountInEmpty(days: seq<int>, a: int)
    ensures CountIn(days, a, a) == 0
  {
    if days != [] {
      CountInEmpty(days[1..], a);
    }
  }

  lemma {:induction false} CountInSplit(days: seq<int>, a: int, b: int, c: int)
    requires a <= b <= c
    ensures CountIn(days, a, c) == CountIn(days, a, b) + CountIn(days, b, c)
  {
    if days != [] {
      CountInSplit(days[1..], a, b, c);
    }
  }

  lemma {:induction false} CountInAll(days: seq<int>, a: int, b: int)
    requires forall d :: d in days ==> a <= d < b
    ensures CountIn(days, a, b) == |days|
  {
    if days != [] {
      assert days[0] in days;
      assert forall d :: d in days[1..] ==> d in days;
      CountInAll(days[1..], a, b);
    }
  }

  /** A day has a positive count exactly when it occurs. */
  lemma {:induction false} CountInOne(days: seq<int>, d: int)
    ensures Occurrences(days, d) > 0 <==> d in days
  {
    if days != [] {
      CountInOne(days[1..], d);
      assert d in days <==> days[0] == d || d in days[1..];
    }
  }

  /** One entry of the by-date breakdown. The day is kept as a number; its rendering
      as text depends on the database dialect. */
  datatype DateCount = DateCount(day: int, count: nat)

  function SumCounts(s: seq<DateCount>): nat {
    if s == [] then 0 else SumCounts(s[..|s| - 1]) + s[|s| - 1].count
  }

  /** The days of a breakdown, in order. */
  function DaysOf(s: seq<DateCount>): seq<int> {
    if s == [] then [] else DaysOf(s[..|s| - 1]) + [s[|s| - 1].day]
  }

  /** What the grouping loop has built once every day in [lo, d) is done. */
  ghost predicate GroupedUpTo(days: seq<int>, lo: int, d: int, out: seq<DateCount>) {
    && (forall k :: 0 <= k < |out| ==> lo <= out[k].day < d)
    && (forall k :: 0 <= k < |out| ==> out[k].count > 0 && out[k].count == Occurrences(days, out[k].day))
    && (forall k, l :: 0 <= k < l < |out| ==> out[k].day < out[l].day)
    && (forall e :: lo <= e < d && Occurrences(days, e) > 0 ==> e in DaysOf(out))
    && SumCounts(out) == CountIn(days, lo, d)
  }

  /** The entry list after day `d` is looked at. */
  function WithDay(days: seq<int>, d: int, out: seq<DateCount>): seq<DateCount> {
    if Occurrences(days, d) > 0 then out + [DateCount(d, Occurrences(days, d))] else out
  }

  lemma GroupStep(days: seq<int>, lo: int, d: int, out: seq<DateCount>)
    requires lo <= d && GroupedUpTo(days, lo, d, out)
    ensures GroupedUpTo(days, lo, d + 1, WithDay(days, d, out))
  {
    var c := Occurrences(days, d);
    var next := WithDay(days, d, out);
    CountInSplit(days, lo, d, d + 1);
    if c > 0 {
      AppendEntry(out, DateCount(d, c));
      assert forall k :: 0 <= k < |out| ==> next[k] == out[k];
    }
    forall e | lo <= e <= d && Occurrences(days, e) > 0 ensures e in DaysOf(next) {
      if e < d {
        assert e in DaysOf(out);
      }
    }
  }

  /** GROUP BY day ORDER BY day over the matched days, with the result loop of the
      query: one entry per day that occurs, ascending, with its number of occurrences. */
  method GroupByDay(days: seq<int>) returns (out: seq<DateCount>)
    ensures forall k :: 0 <= k < |out| ==> out[k].count > 0 && out[k].count == Occurrences(days, out[k].day)
    ensures forall k, l :: 0 <= k < l < |out| ==> out[k].day < out[l].day
    ensures forall d :: d in days ==> d in DaysOf(out)
    ensures SumCounts(out) == |days|
  {
    if days == [] {
      return [];
    }
    var lo, hi := MinOf(days), MaxOf(days);
    out := GroupDays(days, lo, hi);
    GroupedAll(days, lo, hi, out);
  }

  /** The loop over the days lo..hi. */
  method GroupDays(days: seq<int>, lo: int, hi: int) returns (out: seq<DateCount>)
    requires lo <= hi
    ensures GroupedUpTo(days, lo, hi + 1, out)
  {
    out := [];
    var d := lo;
    while d <= hi
      invariant lo <= d <= hi + 1
      invariant out == Grouped(days, lo, d)
      decreases hi - d
    {
      out := WithDay(days, d, out);
      d := d + 1;
    }
    GroupedSpec(days, lo, hi + 1);
  }

  /** The entries the loop has built once the days in [lo, d) are done. */
  ghost function Grouped(days: seq<int>, lo: int, d: int): seq<DateCount>
    decreases d - lo
  {
    if d <= lo then [] else WithDay(days, d - 1, Grouped(days, lo, d - 1))
  }

  lemma {:induction false} GroupedSpec(days: seq<int>, lo: int, d: int)
    requires lo <= d
    ensures GroupedUpTo(days, lo, d, Grouped(days, lo, d))
    decreases d - lo
  {
    if d == lo {
      CountInEmpty(days, lo);
    } else {
      GroupedSpec(days, lo, d - 1);
      GroupStep(days, lo, d - 1, Grouped(days, lo, d - 1));
    }
  }

  /** Once every day from the smallest to the largest is done, every day is listed and
      the counts add up to the number of days. */
  lemma GroupedAll(days: seq<int>, lo: int, hi: int, out: seq<DateCount>)
    requires forall d :: d in days ==> lo <= d <= hi
    requires GroupedUpTo(days, lo, hi + 1, out)
    ensures forall d :: d in days ==> d in DaysOf(out)
    ensures SumCounts(out) == |days|
  {
    CountInAll(days, lo, hi + 1);
    forall e | e in days ensures e in DaysOf(out) {
      CountInOne(days, e);
    }
  }

  lemma AppendEntry(s: seq<DateCount>, x: DateCount)
    ensures DaysOf(s + [x]) == DaysOf(s) + [x.day]
    ensures SumCounts(s + [x]) == SumCounts(s) + x.count
  {
    assert (s + [x])[..|s|] == s;
  }

  function MinOf(s: seq<int>): (m: int)
    requires s != []
    ensures m in s && forall d :: d in s ==> m <= d
  {
    if |s| == 1 then s[0]
    else
      var t := MinOf(s[1..]);
      assert forall d :: d in s ==> d == s[0] || d in s[1..];
      if s[0] <= t then s[0] else t
  }

  function MaxOf(s: seq<int>): (m: int)
    requires s != []
    ensures m in s && forall d :: d in s ==> d <= m
  {
    if |s| == 1 then s[0]
    else
      var t := MaxOf(s[1..]);
      assert forall d :: d in s ==> d == s[0] || d in s[1..];
      if s[0] >= t then s[0] else t
  }

  /** Within the whole table, a user's unbounded day list has one day per row of theirs. */
  lemma {:induction false} MatchedDaysUnbounded(rs: seq<Bookmark>, user: string)
    ensures |MatchedDays(rs, user, None, None)| == |OfUser(rs, user)|
  {
    if rs != [] {
      MatchedDaysUnbounded(rs[1..], user);
    }
  }

  /** Restricting the window to a single day counts that day's occurrences. */
  lemma {:induction false} SingleDayWindow(rs: seq<Bookmark>, user: string, day: int)
    ensures |MatchedDays(rs, user, Some(day), Some(day))| == Occurrences(MatchedDays(rs, user, None, None), day)
  {
    if rs != [] {
      SingleDayWindow(rs[1..], user, day);
    }
  }

  /** The bookmarks table. */
  class BookmarkTable {
    var rows: seq<Bookmark>
    /** The id the next row gets. */
    var nextId: nat

    ghost predicate Valid()
      reads this
    {
      Increasing(rows) && forall i :: 0 <= i < |rows| ==> rows[i].id < nextId
    }

    constructor ()
      ensures Valid() && rows == [] && nextId == 0
    {
      rows := [];
      nextId := 0;
    }

    /** get_bookmark_by_full_name. */
    function GetByFullName(fullName: string, user: string): (r: Option<Bookmark>)
      reads this
      ensures r.None? <==> forall i :: 0 <= i < |rows| ==> !(rows[i].fullName == fullName && rows[i].userId == user)
      ensures r.Some? ==> r.value in rows && r.value.fullName == fullName && r.value.userId == user
    {
      First(rows, (b: Bookmark) => b.fullName == fullName && b.userId == user)
    }

    /** is_repo_bookmarked: whether the user has a row for the repository, and that row's id. */
    function IsRepoBookmarked(repoId: int, user: string): (r: (bool, Option<nat>))
      reads this
      ensures r.0 <==> exists i :: 0 <= i < |rows| && rows[i].githubRepoId == repoId && rows[i].userId == user
      ensures r.1.Some? <==> r.0
      ensures r.0 ==> exists i :: (0 <= i < |rows| && rows[i].githubRepoId == repoId && rows[i].userId == user
        && rows[i].id == r.1.value)
    {
      match First(rows, (b: Bookmark) => b.githubRepoId == repoId && b.userId == user)
      case Some(b) => (true, Some(b.id))
      case None => (false, None)
    }

    /** create_bookmark: refuses a repository the user already has, else adds one row. */
    method Create(item: BookmarkCreate, user: string, today: int) returns (r: Result<Bookmark>)
      requires Valid()
      modifies this
      ensures Valid()
      ensures old(IsRepoBookmarked(item.repoId, user)).0 ==>
        r == Err(HttpError(409, "Bookmark already exists")) && rows == old(rows) && nextId == old(nextId)
      ensures !old(IsRepoBookmarked(item.repoId, user)).0 ==>
        && r == Ok(NewRow(item, user, old(nextId), today))
        && rows == old(rows) + [r.value] && nextId == old(nextId) + 1
    {
      if IsRepoBookmarked(item.repoId, user).0 {
        return Err(HttpError(409, "Bookmark already exists"));
      }
      var b := NewRow(item, user, nextId, today);
      rows := rows + [b];
      nextId := nextId + 1;
      return Ok(b);
    }

    /** Adds the rows of `items` for `user` in order (the import's commit). */
    method AddAll(items: seq<BookmarkCreate>, user: string, today: int)
      requires Valid()
      modifies this
      ensures Valid()
      ensures rows == old(rows) + NewRows(items, user, old(nextId), today)
      ensures nextId == old(nextId) + |items|
    {
      var i := 0;
      while i < |items|
        invariant 0 <= i <= |items|
        invariant Valid()
        invariant rows == old(rows) + NewRows(items[..i], user, old(nextId), today)
        invariant nextId == old(nextId) + i
      {
        assert NewRows(items[..i + 1], user, old(nextId), today)
          == NewRows(items[..i], user, old(nextId), today) + [NewRow(items[i], user, nextId, today)];
        rows := rows + [NewRow(items[i], user, nextId, today)];
        nextId := nextId + 1;
        i := i + 1;
      }
      assert items[..i] == items;
    }

    /** get_user_bookmarks: one page of the user's rows in descending id order, and their
        total. Entry k of page p is the user's row that has (p - 1) * perPage + k rows of the
        user after it in the table. */
    function GetUserBookmarks(user: string, page: int, perPage: int): (r: (seq<Bookmark>, nat))
      requires perPage >= 1
      reads this
      ensures r.1 == |OfUser(rows, user)|
      ensures |r.0| <= perPage
      ensures ReversedWindow(r.0, OfUser(rows, user), Offset(page, perPage), perPage)
      ensures forall b :: b in r.0 ==> b in rows && b.userId == user
      ensures Valid() ==> Decreasing(r.0)
    {
      (UserPage(rows, user, page, perPage), |OfUser(rows, user)|)
    }

    /** delete_bookmark: removes the row of that id when it is the user's, else 404. */
    method Delete(id: nat, user: string) returns (r: Result<string>)
      requires Valid()
      modifies this
      ensures Valid() && nextId == old(nextId)
      ensures Owns(old(rows), id, user) ==>
        r == Ok("Bookmark deleted successfully") && rows == RemoveId(old(rows), id) && |rows| == |old(rows)| - 1
      ensures !Owns(old(rows), id, user) ==> r == Err(HttpError(404, "Bookmark not found")) && rows == old(rows)
    {
      var found := First(rows, (b: Bookmark) => b.id == id && b.userId == user);
      if found.None? {
        return Err(HttpError(404, "Bookmark not found"));
      }
      var i :| 0 <= i < |rows| && rows[i] == found.value && rows[i].id == id && rows[i].userId == user;
      assert Owns(rows, id, user);
      RemoveKeepsValid(rows, i, nextId);
      rows := RemoveId(rows, id);
      return Ok("Bookmark deleted successfully");
    }

    /** get_total_bookmarks_count. */
    function TotalCount(user: string): (n: nat)
      reads this
      ensures n == |OfUser(rows, user)|
      ensures n == |MatchedDays(rows, user, None, None)|
    {
      MatchedDaysUnbounded(rows, user);
      |OfUser(rows, user)|
    }

    /** get_today_bookmarks_count; `today` stands for the server's date. */
    function TodayCount(user: string, today: int): (n: nat)
      reads this
      ensures n == Occurrences(MatchedDays(rows, user, None, None), today)
    {
      SingleDayWindow(rows, user, today);
      |MatchedDays(rows, user, Some(today), Some(today))|
    }

    /** get_bookmark_counts_by_date: one entry per day on which the user created rows
        inside the window, days ascending, each with that day's count. */
    method CountsByDate(user: string, start: Option<int>, end: Option<int>) returns (out: seq<DateCount>)
      ensures var days := MatchedDays(rows, user, start, end);
        forall k :: 0 <= k < |out| ==> out[k].count > 0 && out[k].count == Occurrences(days, out[k].day)
      ensures forall k, l :: 0 <= k < l < |out| ==> out[k].day < out[l].day
      ensures forall d :: d in MatchedDays(rows, user, start, end) ==> d in DaysOf(out)
      ensures SumCounts(out) == |MatchedDays(rows, user, start, end)|
    {
      out := GroupByDay(MatchedDays(rows, user, start, end));
    }
  }
}
