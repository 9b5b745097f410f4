/** The client-side query cache that the frontend's data hooks read and the
    bookmark mutations patch: entries addressed by keys that are sequences of
    segments, matched by key prefix for invalidation and for bulk updates. */
module QueryClient {
  import opened Wrappers

  /** One key segment: the keys in this application hold strings and numbers. */
  datatype Seg = Str(s: string) | Num(n: int)

  type Key = seq<Seg>

  /** A filter key matches every cached key that starts with it. */
  predicate IsPrefix(prefix: Key, key: Key) {
    |prefix| <= |key| && key[..|prefix|] == prefix
  }

  /** A cached query: its data (None before the first fetch completes) and whether it was invalidated. */
  datatype Entry<D> = Entry(data: Option<D>, stale: bool)

  /** The entries after every entry under `prefix` is marked stale. */
  function Invalidated<D>(entries: map<Key, Entry<D>>, prefix: Key): (r: map<Key, Entry<D>>)
    ensures r.Keys == entries.Keys
    ensures forall k :: k in entries && !IsPrefix(prefix, k) ==> r[k] == entries[k]
    ensures forall k :: k in entries && IsPrefix(prefix, k) ==>
      r[k].stale && r[k].data == entries[k].data
  {
    map k | k in entries :: if IsPrefix(prefix, k) then entries[k].(stale := true) else entries[k]
  }

  /** The entry after an updater runs on it: a result of None leaves it as it was,
      any other result becomes its fresh data. */
  function ApplyUpdater<D>(e: Entry<D>, updater: Option<D> -> Option<D>): Entry<D> {
    var next := updater(e.data);
    if next.None? then e else Entry(next, false)
  }

  /** The entries after the updater runs on every entry under `prefix`. */
  function Updated<D>(entries: map<Key, Entry<D>>, prefix: Key, updater: Option<D> -> Option<D>): (r: map<Key, Entry<D>>)
    ensures r.Keys == entries.Keys
    ensures forall k :: k in entries && !IsPrefix(prefix, k) ==> r[k] == entries[k]
    ensures forall k :: k in entries && IsPrefix(prefix, k) ==> r[k] == ApplyUpdater(entries[k], updater)
  {
    map k | k in entries :: if IsPrefix(prefix, k) then ApplyUpdater(entries[k], updater) else entries[k]
  }

  /** The query cache the application shares between its components. */
  class Client<D> {
    var entries: map<Key, Entry<D>>

    constructor ()
      ensures entries == map[]
    {
      entries := map[];
    }

    function GetQueryData(key: Key): (r: Option<D>)
      reads this
      ensures key !in entries ==> r == None
      ensures key in entries ==> r == entries[key].data
    {
      if key in entries then entries[key].data else None
    }

    /** A query whose fetch completed stores its data under its key. */
    method Store(key: Key, data: D)
      modifies this
      ensures entries == old(entries)[key := Entry(Some(data), false)]
    {
      entries := entries[key := Entry(Some(data), false)];
    }

    method InvalidateQueries(prefix: Key)
      modifies this
      ensures entries == Invalidated(old(entries), prefix)
    {
      entries := Invalidated(entries, prefix);
    }

    method SetQueriesData(prefix: Key, updater: Option<D> -> Option<D>)
      modifies this
      ensures entries == Updated(old(entries), prefix, updater)
    {
      entries := Updated(entries, prefix, updater);
    }
  }
}
