/** `SQLiteLRUCache`: an LRU cache with an entry-count bound and an optional
    time-to-live, kept in a single table
    `cache(key primary key, value, created_at, last_accessed_at)`.

    The table is a map from key to row. Timestamps are integer milliseconds
    since the epoch; the caller passes the clock `now` into every operation.
    Two clocks of different precision meet in this table: a row written by
    `insert or replace` takes its column defaults, which carry milliseconds,
    while a read sets `last_accessed_at` to `current_timestamp`, which is
    truncated to whole seconds. The expiry sweep compares whole seconds. */
module SQLiteCache {
  import opened Common

  /** One row of the `cache` table. */
  datatype Row<V> = Row(value: V, createdAt: nat, lastAccessedAt: nat)

  type Table<V> = map<Key, Row<V>>

  /** `strftime('%s', t)`: the whole seconds of a millisecond timestamp. */
  function Seconds(ms: nat): nat
  {
    ms / 1000
  }

  /** `current_timestamp`, in milliseconds: the clock truncated to the second. */
  function CurrentTimestamp(now: nat): (t: nat)
    ensures t <= now < t + 1000
    ensures Seconds(t) == Seconds(now)
  {
    Seconds(now) * 1000
  }

  /** The sweep's condition: whole seconds since the last access exceed `ttl`. */
  predicate Expired<V>(ttl: int, now: nat, row: Row<V>)
  {
    Seconds(now) - Seconds(row.lastAccessedAt) > ttl
  }

  /** The table after `__delete_expired_entries`: with no ttl nothing goes;
      otherwise exactly the expired rows go and every other row stays as it was. */
  function Swept<V>(table: Table<V>, ttl: Option<int>, now: nat): (s: Table<V>)
    ensures ttl.None? ==> s == table
    ensures forall k :: k in s <==> k in table && !(ttl.Some? && Expired(ttl.value, now, table[k]))
    ensures forall k :: k in s ==> s[k] == table[k]
  {
    match ttl
    case None => table
    case Some(t) => map k | k in table && !Expired(t, now, table[k]) :: table[k]
  }

  /** `__update_last_accessed_at`: only `key`'s row changes, and only its
      `last_accessed_at`, which becomes `current_timestamp`. */
  function Touched<V>(table: Table<V>, key: Key, now: nat): (t: Table<V>)
    ensures t.Keys == table.Keys
    ensures forall k :: k in table && k != key ==> t[k] == table[k]
    ensures key in table ==> t[key].value == table[key].value && t[key].createdAt == table[key].createdAt
    ensures key in table ==> Seconds(t[key].lastAccessedAt) == Seconds(now) && t[key].lastAccessedAt <= now
  {
    if key in table then table[key := table[key].(lastAccessedAt := CurrentTimestamp(now))]
    else table
  }

  /** `insert or replace into cache(key, value)`: both timestamps take their
      default, the current time with milliseconds. */
  function Inserted<V>(table: Table<V>, key: Key, value: V, now: nat): (t: Table<V>)
    ensures t.Keys == table.Keys + {key}
    ensures t[key].value == value && t[key].createdAt == now && t[key].lastAccessedAt == now
    ensures forall k :: k in table && k != key ==> t[k] == table[k]
  {
    table[key := Row(value, now, now)]
  }

  /** `__getitem__` as a function of the table before the call: sweep, look
      the key up, and on a hit refresh its recency. */
  function GetSpec<V>(table: Table<V>, ttl: Option<int>, now: nat, key: Key): (r: (Result<V>, Table<V>))
    ensures r.0.Ok? <==> key in Swept(table, ttl, now)
    ensures r.0.Ok? ==> r.0.value == table[key].value
    ensures r.0.Err? ==> r.0.error == KeyError(key) && r.1 == Swept(table, ttl, now)
    ensures r.1.Keys == Swept(table, ttl, now).Keys
  {
    var s := Swept(table, ttl, now);
    if key in s then (Ok(s[key].value), Touched(s, key, now))
    else (Err(KeyError(key)), s)
  }

  /** The row `select key from cache order by last_accessed_at asc limit 1`
      may return: one with the minimum `last_accessed_at`. */
  predicate IsLeastRecent<V>(table: Table<V>, k: Key)
  {
    k in table && forall j :: j in table ==> table[k].lastAccessedAt <= table[j].lastAccessedAt
  }

  /** The rows of `s` whose keys are in `kept`. */
  function Restrict<V>(s: Table<V>, kept: set<Key>): Table<V>
  {
    map k | k in kept && k in s :: s[k]
  }

  /** An eviction pass over `s` that keeps `kept` removed the least recently
      used rows: every evicted row was accessed no later than every kept one. */
  predicate EvictsLeastRecentFirst<V>(s: Table<V>, kept: set<Key>)
  {
    kept <= s.Keys &&
    forall e, k :: e in s && e !in kept && k in kept ==> s[e].lastAccessedAt <= s[k].lastAccessedAt
  }

  /** `items()` as a function of the table and of the enumerated keys: each
      key is fetched with `__getitem__` in turn, and a key whose fetch raises
      `KeyError` is skipped. Returns the pairs and the final table. */
  function Fetch<V>(table: Table<V>, ttl: Option<int>, now: nat, keys: seq<Key>): (r: (seq<(Key, V)>, Table<V>))
    ensures |r.0| <= |keys| && r.1.Keys <= table.Keys
    ensures forall i :: 0 <= i < |r.0| ==> r.0[i].0 in keys
    decreases |keys|
  {
    if keys == [] then ([], table)
    else
      var before := Fetch(table, ttl, now, keys[..|keys| - 1]);
      var k := keys[|keys| - 1];
      var got := GetSpec(before.1, ttl, now, k);
      if got.0.Ok? then (before.0 + [(k, got.0.value)], got.1) else (before.0, got.1)
  }

  /** The rows of `s` with `last_accessed_at` set to `current_timestamp` for
      the keys in `keys`. */
  function TouchedAll<V>(s: Table<V>, keys: set<Key>, now: nat): (t: Table<V>)
    ensures t.Keys == s.Keys
  {
    map k | k in s :: if k in keys then s[k].(lastAccessedAt := CurrentTimestamp(now)) else s[k]
  }

  /** A table in which every row is non-empty has a least recently used row,
      so `popitem` on a non-empty table always selects one. */
  lemma {:induction false} LeastRecentExists<V>(table: Table<V>)
    requires table != map[]
    ensures exists k :: IsLeastRecent(table, k)
    decreases |table|
  {
    var x :| x in table;
    var rest := table - {x};
    if rest == map[] {
      assert table.Keys == {x} by {
        assert rest.Keys == {};
        assert table.Keys == rest.Keys + {x};
      }
      assert IsLeastRecent(table, x);
    } else {
      assert |rest| < |table| by {
        assert rest.Keys == table.Keys - {x};
      }
      LeastRecentExists(rest);
      var m :| IsLeastRecent(rest, m);
      if table[x].lastAccessedAt < table[m].lastAccessedAt {
        forall j | j in table ensures table[x].lastAccessedAt <= table[j].lastAccessedAt {
          if j != x { assert j in rest; }
        }
        assert IsLeastRecent(table, x);
      } else {
        forall j | j in table ensures table[m].lastAccessedAt <= table[j].lastAccessedAt {
          if j != x { assert j in rest; }
        }
        assert IsLeastRecent(table, m);
      }
    }
  }

  /** The sweep is idempotent at a fixed clock: a second sweep removes nothing. */
  lemma SweptIdempotent<V>(table: Table<V>, ttl: Option<int>, now: nat)
    ensures Swept(Swept(table, ttl, now), ttl, now) == Swept(table, ttl, now)
  {
  }

  lemma RestrictSize<V>(s: Table<V>, kept: set<Key>)
    requires kept <= s.Keys
    ensures |Restrict(s, kept)| == |kept|
  {
    assert Restrict(s, kept).Keys == kept;
  }

  /** Deleting a row from a table the sweep leaves alone leaves a table the
      sweep leaves alone. */
  lemma UnexpiredRemove<V>(t: Table<V>, ttl: Option<int>, now: nat, k: Key)
    requires Swept(t, ttl, now) == t
    ensures Swept(t - {k}, ttl, now) == t - {k}
  {
  }

  /** One `popitem` inside the eviction loop of `__setitem__`: evicting the
      least recently used kept row keeps the pass least-recently-used-first. */
  lemma {:induction false} EvictionStep<V>(s: Table<V>, kept: set<Key>, victim: Key)
    requires EvictsLeastRecentFirst(s, kept)
    requires IsLeastRecent(Restrict(s, kept), victim)
    ensures victim in kept
    ensures EvictsLeastRecentFirst(s, kept - {victim})
    ensures Restrict(s, kept) - {victim} == Restrict(s, kept - {victim})
  {
    var t := Restrict(s, kept);
    forall e, k | e in s && e !in kept - {victim} && k in kept - {victim}
      ensures s[e].lastAccessedAt <= s[k].lastAccessedAt
    {
      if e == victim {
        assert k in t;
      }
    }
  }

  /** After `set(key, value)` at `now`, a `get(key)` at a later clock `later`
      returns `value`, as long as the row has not expired in between. */
  lemma SetThenGet<V>(table: Table<V>, ttl: Option<int>, key: Key, value: V, now: nat, later: nat)
    requires ttl.None? || Seconds(later) - Seconds(now) <= ttl.value
    ensures GetSpec(Inserted(table, key, value, now), ttl, later, key).0 == Ok(value)
  {
  }

  /** A read stamps `last_accessed_at` with whole seconds while a write
      stamps `created_at` with milliseconds, so after writing a key at `now`
      and reading it at `later`, `last_accessed_at > created_at` holds
      exactly when the read falls in a later second; a read in the same
      second leaves `last_accessed_at` at or before `created_at`. */
  lemma ReadStampAfterWrite<V>(table: Table<V>, ttl: Option<int>, key: Key, value: V, now: nat, later: nat)
    requires now <= later
    requires ttl.None? || Seconds(later) - Seconds(now) <= ttl.value
    ensures var t := GetSpec(Inserted(table, key, value, now), ttl, later, key).1;
      && key in t && t[key].createdAt == now
      && (t[key].lastAccessedAt > t[key].createdAt <==> Seconds(later) > Seconds(now))
  {
    var stamp := CurrentTimestamp(later);
    if Seconds(later) > Seconds(now) {
      assert stamp >= (Seconds(now) + 1) * 1000;
    } else {
      assert stamp == Seconds(now) * 1000;
    }
  }

  /** An eviction pass that removes anything removes a row that was
      accessed strictly before every other row. */
  lemma StrictlyOldestEvicted<V>(s: Table<V>, kept: set<Key>, oldest: Key)
    requires oldest in s && forall k :: k in s && k != oldest ==> s[oldest].lastAccessedAt < s[k].lastAccessedAt
    requires EvictsLeastRecentFirst(s, kept) && |kept| < |s|
    ensures oldest !in kept
  {
    assert |s.Keys| == |s|;
    var e := MissingElement(kept, s.Keys);
    if oldest in kept {
      assert false;
    }
  }

  /** When the swept table has room, `set` evicts nothing: the eviction loop
      keeps every row, and overwriting a present key leaves the count as it was. */
  lemma {:induction false} OverwriteBelowCapacity<V>(s: Table<V>, kept: set<Key>, maxsize: int, key: Key, value: V, now: nat)
    requires |s| < maxsize
    requires EvictsLeastRecentFirst(s, kept) && |kept| == Min(|s|, maxsize - 1)
    ensures Restrict(s, kept) == s
    ensures key in s ==> |Inserted(Restrict(s, kept), key, value, now)| == |s|
  {
    assert kept == s.Keys by {
      if kept != s.Keys {
        var e :| e in s.Keys && e !in kept;
        assert |s.Keys - {e}| == |s.Keys| - 1;
        assert |s.Keys| == |s|;
        SubsetCardinality(kept, s.Keys - {e});
      }
    }
    assert Restrict(s, kept) == s;
    if key in s {
      assert Inserted(s, key, value, now).Keys == s.Keys;
    }
  }

  /** Refreshing one more key of a partly refreshed table. */
  lemma TouchedAllStep<V>(s: Table<V>, done: set<Key>, k: Key, now: nat)
    requires k in s
    ensures Touched(TouchedAll(s, done, now), k, now) == TouchedAll(s, done + {k}, now)
  {
  }

  /** With a non-negative ttl a refreshed row has age zero, so a sweep at the
      same clock keeps every row of a partly refreshed swept table. */
  lemma TouchedAllUnexpired<V>(s: Table<V>, ttl: Option<int>, done: set<Key>, now: nat)
    requires ttl.None? || ttl.value >= 0
    requires Swept(s, ttl, now) == s
    ensures Swept(TouchedAll(s, done, now), ttl, now) == TouchedAll(s, done, now)
  {
    var t := TouchedAll(s, done, now);
    if ttl.Some? {
      forall k | k in t ensures !Expired(ttl.value, now, t[k]) {
        assert k in s;
        assert !Expired(ttl.value, now, s[k]);
      }
    }
  }

  /** When the ttl keeps freshly read rows (no ttl, or a non-negative one),
      `items()` over a swept table yields every enumerated key with its
      stored value, in enumeration order, and refreshes every one of them. */
  lemma {:induction false} FetchComplete<V>(s: Table<V>, ttl: Option<int>, now: nat, keys: seq<Key>)
    requires ttl.None? || ttl.value >= 0
    requires Swept(s, ttl, now) == s
    requires forall k :: k in keys ==> k in s
    ensures |Fetch(s, ttl, now, keys).0| == |keys|
    ensures forall i :: 0 <= i < |keys| ==> Fetch(s, ttl, now, keys).0[i] == (keys[i], s[keys[i]].value)
    ensures Fetch(s, ttl, now, keys).1 == TouchedAll(s, (set k | k in keys), now)
    decreases |keys|
  {
    if keys != [] {
      var init := keys[..|keys| - 1];
      var k := keys[|keys| - 1];
      assert keys == init + [k];
      assert forall j :: j in init ==> j in keys;
      FetchComplete(s, ttl, now, init);
      FetchOneMore(s, ttl, now, init, k);
      var pairs, before := Fetch(s, ttl, now, keys).0, Fetch(s, ttl, now, init).0;
      assert pairs == before + [(k, s[k].value)];
      forall i | 0 <= i < |keys| ensures pairs[i] == (keys[i], s[keys[i]].value) {
        if i < |init| {
          assert pairs[i] == before[i] && keys[i] == init[i];
        }
      }
    }
  }

  /** The step of `FetchComplete`: when the keys fetched so far have been
      refreshed and nothing else has changed, fetching one more key of the
      table yields its value and refreshes it too. */
  lemma FetchOneMore<V>(s: Table<V>, ttl: Option<int>, now: nat, init: seq<Key>, k: Key)
    requires ttl.None? || ttl.value >= 0
    requires Swept(s, ttl, now) == s
    requires k in s
    requires Fetch(s, ttl, now, init).1 == TouchedAll(s, (set j | j in init), now)
    ensures Fetch(s, ttl, now, init + [k])
      == (Fetch(s, ttl, now, init).0 + [(k, s[k].value)], TouchedAll(s, (set j | j in init + [k]), now))
  {
    var done := set j | j in init;
    var t := TouchedAll(s, done, now);
    TouchedAllUnexpired(s, ttl, done, now);
    assert k in t;
    var got := GetSpec(t, ttl, now, k);
    assert got.0 == Ok(s[k].value);
    TouchedAllStep(s, done, k, now);
    assert (set j | j in init + [k]) == done + {k};
    assert (init + [k])[..|init|] == init;
  }

  class SQLiteLRUCache<V> {
    /** The `cache` table. */
    var table: Table<V>
    const maxsize: int
    const ttl: Option<int>

    /** Opens a cache over the rows already stored, dropping the expired ones. */
    constructor (maxsize: int, ttl: Option<int>, existing: Table<V>, now: nat)
      ensures this.maxsize == maxsize && this.ttl == ttl
      ensures table == Swept(existing, ttl, now)
    {
      this.maxsize := maxsize;
      this.ttl := ttl;
      table := existing;
      new;
      DeleteExpiredEntries(now);
    }

    /** `__delete_expired_entries`: a single `delete ... where` statement. */
    method DeleteExpiredEntries(now: nat)
      modifies this
      ensures table == Swept(old(table), ttl, now)
    {
      if ttl.None? {
        return;
      }
      table := map k | k in table && !Expired(ttl.value, now, table[k]) :: table[k];
    }

    /** `__update_last_accessed_at`: an `update` that matches at most one row. */
    method UpdateLastAccessedAt(key: Key, now: nat)
      modifies this
      ensures table == Touched(old(table), key, now)
    {
      if key in table {
        table := table[key := table[key].(lastAccessedAt := CurrentTimestamp(now))];
      }
    }

    /** `__getitem__`: sweep, select the value, refresh the key's recency; a
        missing key raises `KeyError(key)` after the sweep only. */
    method Get(key: Key, now: nat) returns (r: Result<V>)
      modifies this
      ensures (r, table) == GetSpec(old(table), ttl, now, key)
    {
      DeleteExpiredEntries(now);
      if key !in table {
        return Err(KeyError(key));
      }
      var value := table[key].value;
      UpdateLastAccessedAt(key, now);
      return Ok(value);
    }

    /** `__setitem__`: sweep; reject `maxsize < 1`; evict least recently used
        rows one at a time until one more row fits; then insert or replace.
        `kept` names the swept rows that survive the eviction loop. */
    method Set(key: Key, value: V, now: nat) returns (r: Outcome, ghost kept: set<Key>)
      modifies this
      ensures var s := Swept(old(table), ttl, now);
        if maxsize < 1 then r == Fail(ValueTooLarge) && table == s
        else
          && r == Pass
          && EvictsLeastRecentFirst(s, kept)
          && |kept| == Min(|s|, maxsize - 1)
          && table == Inserted(Restrict(s, kept), key, value, now)
      ensures r == Pass ==> |table| <= maxsize && key in table && table[key] == Row(value, now, now)
    {
      DeleteExpiredEntries(now);
      ghost var s := table;
      SweptIdempotent(old(table), ttl, now);
      if 1 > maxsize {
        return Fail(ValueTooLarge), s.Keys;
      }
      kept := EvictUntilFits(now);
      RestrictSize(s, kept);
      table := table[key := Row(value, now, now)];
      assert |table| <= |kept| + 1 by {
        assert table.Keys == kept + {key};
      }
      r := Pass;
    }

    /** The eviction loop of `__setitem__` over a swept table: `popitem`
        until one more row fits. `kept` names the rows that survive. */
    method EvictUntilFits(now: nat) returns (ghost kept: set<Key>)
      modifies this
      requires maxsize >= 1 && Swept(table, ttl, now) == table
      ensures EvictsLeastRecentFirst(old(table), kept)
      ensures |kept| == Min(|old(table)|, maxsize - 1)
      ensures table == Restrict(old(table), kept)
    {
      ghost var s := table;
      var currentSize := Len(now);
      kept := s.Keys;
      assert Restrict(s, kept) == s;
      while currentSize + 1 > maxsize
        invariant table == Restrict(s, kept)
        invariant EvictsLeastRecentFirst(s, kept)
        invariant Swept(table, ttl, now) == table
        invariant currentSize == |kept|
        invariant |kept| == |s| || |kept| >= maxsize - 1
        decreases currentSize
      {
        ghost var before := table;
        RestrictSize(s, kept);
        assert before != map[];
        var popped, victim := Popitem(now);
        assert popped.Ok?;  // the pass has swept at this clock, so the victim is still there
        EvictionStep(s, kept, victim);
        UnexpiredRemove(before, ttl, now, victim);
        kept := kept - {victim};
        currentSize := Len(now);
        RestrictSize(s, kept);
      }
      RestrictSize(s, kept);
    }

    /** `__delitem__`: a `delete` statement; it never raises and does not sweep. */
    method Delete(key: Key)
      modifies this
      ensures table == old(table) - {key}
    {
      table := table - {key};
    }

    /** `__contains__`: sweep, then report whether the key has a row. */
    method Contains(key: Key, now: nat) returns (b: bool)
      modifies this
      ensures table == Swept(old(table), ttl, now)
      ensures b <==> key in table
    {
      DeleteExpiredEntries(now);
      b := key in table;
    }

    /** `__len__`: sweep, then count the rows. */
    method Len(now: nat) returns (n: nat)
      modifies this
      ensures table == Swept(old(table), ttl, now)
      ensures n == |table|
    {
      DeleteExpiredEntries(now);
      n := |table|;
    }

    /** `__iter__`: sweep, then list every key once, in storage order. */
    method Iter(now: nat) returns (keys: seq<Key>)
      modifies this
      ensures table == Swept(old(table), ttl, now)
      ensures forall k :: k in keys <==> k in table
      ensures Distinct(keys) && |keys| == |table|
    {
      DeleteExpiredEntries(now);
      keys := Enumerate(table.Keys);
    }

    /** `pop` of `MutableMapping`: `__getitem__` (which sweeps and stamps
        the access) followed by `__delitem__`; a missing key raises
        `KeyError(key)` and removes nothing beyond the sweep. */
    method Pop(key: Key, now: nat) returns (r: Result<V>)
      modifies this
      ensures var s := Swept(old(table), ttl, now);
        if key in s then r == Ok(s[key].value) && table == s - {key}
        else r == Err(KeyError(key)) && table == s
    {
      r := Get(key, now);
      if r.Ok? {
        Delete(key);
      }
    }

    /** `popitem`: select a least recently used row and `pop` it. `pop` is
        `MutableMapping.pop`, a `__getitem__` (which sweeps and refreshes)
        followed by a `__delitem__`, so a selected row that the sweep removes
        raises `KeyError(victim)`. An empty table raises the "is empty" error. */
    method Popitem(now: nat) returns (r: Result<(Key, V)>, ghost victim: Key)
      modifies this
      ensures old(table) == map[] ==> r == Err(CacheEmpty) && table == old(table)
      ensures old(table) != map[] ==>
        && IsLeastRecent(old(table), victim)
        && var s := Swept(old(table), ttl, now);
           if victim in s then r == Ok((victim, s[victim].value)) && table == s - {victim}
           else r == Err(KeyError(victim)) && table == s
    {
      if table == map[] {
        return Err(CacheEmpty), "";
      }
      LeastRecentExists(table);
      var key :| key in table && IsLeastRecent(table, key);
      victim := key;
      var got := Pop(key, now);
      if got.Err? {
        return Err(got.error), victim;
      }
      r := Ok((key, got.value));
    }

    /** `items`: sweep, enumerate the keys, fetch each one with `__getitem__`
        and skip any that raises `KeyError`. `order` is the enumeration. */
    method Items(now: nat) returns (pairs: seq<(Key, V)>, ghost order: seq<Key>)
      modifies this
      ensures var s := Swept(old(table), ttl, now);
        && (forall k :: k in order <==> k in s)
        && Distinct(order) && |order| == |s|
        && (pairs, table) == Fetch(s, ttl, now, order)
    {
      DeleteExpiredEntries(now);
      SweptIdempotent(old(table), ttl, now);
      ghost var s := table;
      var keys := Iter(now);
      order := keys;
      pairs := [];
      var i := 0;
      while i < |keys|
        invariant 0 <= i <= |keys|
        invariant (pairs, table) == Fetch(s, ttl, now, keys[..i])
      {
        assert keys[..i + 1][..i] == keys[..i];
        var got := Get(keys[i], now);
        if got.Ok? {
          pairs := pairs + [(keys[i], got.value)];
        }
        i := i + 1;
      }
      assert keys[..|keys|] == keys;
    }

    /** `keys`: the keys of `items()`, so every key is fetched and refreshed. */
    method Keys(now: nat) returns (keys: seq<Key>, ghost order: seq<Key>)
      modifies this
      ensures var s := Swept(old(table), ttl, now);
        && (forall k :: k in order <==> k in s)
        && Distinct(order) && |order| == |s|
        && keys == KeysOf(Fetch(s, ttl, now, order).0)
        && table == Fetch(s, ttl, now, order).1
    {
      var pairs;
      pairs, order := Items(now);
      keys := KeysOf(pairs);
    }

    /** `values`: the values of `items()`. */
    method Values(now: nat) returns (values: seq<V>, ghost order: seq<Key>)
      modifies this
      ensures var s := Swept(old(table), ttl, now);
        && (forall k :: k in order <==> k in s)
        && Distinct(order) && |order| == |s|
        && values == ValuesOf(Fetch(s, ttl, now, order).0)
        && table == Fetch(s, ttl, now, order).1
    {
      var pairs;
      pairs, order := Items(now);
      values := ValuesOf(pairs);
    }
  }

  /** A new cache of size 3 after writing `"hello"` at 1000 ms and `"foo"`
      at 2000 ms. */
  method WriteTwo() returns (c: SQLiteLRUCache<string>)
    ensures fresh(c) && c.ttl.None? && c.maxsize == 3
    ensures c.table == map["hello" := Row("world", 1000, 1000), "foo" := Row("bar", 2000, 2000)]
  {
    c := new SQLiteLRUCache<string>(3, None, map[], 0);
    ghost var before := c.table;
    var outcome, kept := c.Set("hello", "world", 1000);
    OverwriteBelowCapacity(before, kept, 3, "hello", "world", 1000);
    before := c.table;
    assert before == map["hello" := Row("world", 1000, 1000)];
    outcome, kept := c.Set("foo", "bar", 2000);
    OverwriteBelowCapacity(before, kept, 3, "foo", "bar", 2000);
  }

  /** Of the rows `"hello"`, last read at 1000 ms, and `"foo"`, last read at
      2000 ms, only `"hello"` is least recently used. */
  lemma OldestOfTwo(s: Table<string>, v: Key)
    requires s == map["hello" := Row("world", 1000, 1000), "foo" := Row("bar", 2000, 2000)]
    requires IsLeastRecent(s, v)
    ensures v == "hello"
  {
    assert s[v].lastAccessedAt <= s["hello"].lastAccessedAt == 1000;
  }

  /** `popitem` after writing `"hello"` and then `"foo"` removes and
      returns `("hello", "world")`, leaving one row. */
  method PopitemScenario() returns (r: Result<(Key, string)>, n: nat)
    ensures r == Ok(("hello", "world")) && n == 1
  {
    var c := WriteTwo();
    ghost var victim;
    ghost var s := c.table;
    r, victim := c.Popitem(3000);
    assert "hello" in s;
    OldestOfTwo(s, victim);
    assert c.table == map["foo" := Row("bar", 2000, 2000)];
    n := c.Len(3000);
  }

  /** A new cache of size 3 after writing `"a"`, `"b"` and `"c"` at 1000,
      2000 and 3000 ms. */
  method WriteThree() returns (c: SQLiteLRUCache<int>)
    ensures fresh(c) && c.ttl.None? && c.maxsize == 3
    ensures c.table == map["a" := Row(1, 1000, 1000), "b" := Row(2, 2000, 2000), "c" := Row(3, 3000, 3000)]
  {
    c := new SQLiteLRUCache<int>(3, None, map[], 0);
    ghost var before := c.table;
    var outcome, kept := c.Set("a", 1, 1000);
    OverwriteBelowCapacity(before, kept, 3, "a", 1, 1000);
    before := c.table;
    assert before == map["a" := Row(1, 1000, 1000)];
    outcome, kept := c.Set("b", 2, 2000);
    OverwriteBelowCapacity(before, kept, 3, "b", 2, 2000);
    before := c.table;
    assert before == map["a" := Row(1, 1000, 1000), "b" := Row(2, 2000, 2000)];
    outcome, kept := c.Set("c", 3, 3000);
    OverwriteBelowCapacity(before, kept, 3, "c", 3, 3000);
  }

  /** The eviction pass of a fourth write into the rows of `WriteThree`
      keeps `"b"` and `"c"`. */
  lemma EvictionOfThree(s: Table<int>, kept: set<Key>)
    requires s == map["a" := Row(1, 1000, 1000), "b" := Row(2, 2000, 2000), "c" := Row(3, 3000, 3000)]
    requires EvictsLeastRecentFirst(s, kept) && |kept| == Min(|s|, 2)
    ensures Restrict(s, kept) == map["b" := Row(2, 2000, 2000), "c" := Row(3, 3000, 3000)]
  {
    assert s.Keys == {"a", "b", "c"} && |s.Keys| == 3;
    StrictlyOldestEvicted(s, kept, "a");
    SubsetOfEqualSize(kept, {"b", "c"});
  }

  /** Writing a fourth key into a full cache of size 3 evicts the least
      recently used row, `"a"`, and keeps the size at 3. */
  method MaxsizeScenario() returns (rows: Table<int>, n: nat)
    ensures rows == map["b" := Row(2, 2000, 2000), "c" := Row(3, 3000, 3000), "d" := Row(4, 4000, 4000)]
    ensures n == 3
  {
    var c := WriteThree();
    ghost var s := c.table;
    var outcome, kept := c.Set("d", 4, 4000);
    EvictionOfThree(s, kept);
    rows := c.table;
    n := c.Len(4000);
  }
}
