/** `FSLRUCache`: an LRU cache with an entry-count bound and an optional
    time-to-live, kept as one file per entry in a directory.

    The directory is a map from file path to the file's content and its two
    timestamps. Recency is the file's access time and age is measured from
    its change time. How those timestamps move is the operating system's
    business; the model fixes it as follows: a new file gets access and
    change time `now`, overwriting a file sets its change time to `now`, and
    reading a file sets its access time to `now` exactly when the cache was
    opened with `readUpdatesAtime` (a file system mounted with `strictatime`).
    Time is an integer in the unit of `ttl`; the caller passes the clock. */
module FSCache {
  import opened Common
  import opened FsPaths

  /** A file of the cache directory. */
  datatype FileEntry<V> = FileEntry(value: V, atime: nat, ctime: nat)

  type Dir<V> = map<Path, FileEntry<V>>

  /** The sweep's condition: the time since the last change exceeds `ttl`. */
  predicate Expired<V>(ttl: int, now: nat, f: FileEntry<V>)
  {
    now - f.ctime > ttl
  }

  /** The directory after `__delete_expired_entries`: with no ttl nothing
      goes; otherwise exactly the expired files go and the others stay. */
  function Swept<V>(files: Dir<V>, ttl: Option<int>, now: nat): (s: Dir<V>)
    ensures ttl.None? ==> s == files
    ensures forall p :: p in s <==> p in files && !(ttl.Some? && Expired(ttl.value, now, files[p]))
    ensures forall p :: p in s ==> s[p] == files[p]
  {
    match ttl
    case None => files
    case Some(t) => map p | p in files && !Expired(t, now, files[p]) :: files[p]
  }

  /** `write_bytes`: the new content; a new file is created at `now`, an
      existing one keeps its access time and changes at `now`. */
  function Written<V>(files: Dir<V>, path: Path, value: V, now: nat): (d: Dir<V>)
    ensures d.Keys == files.Keys + {path}
    ensures d[path].value == value && d[path].ctime == now
    ensures d[path].atime == if path in files then files[path].atime else now
    ensures forall p :: p in files && p != path ==> d[p] == files[p]
  {
    if path in files then files[path := FileEntry(value, files[path].atime, now)]
    else files[path := FileEntry(value, now, now)]
  }

  /** `read_bytes`: under the access-time policy the file's access time
      becomes `now`; nothing else changes. */
  function ReadAt<V>(files: Dir<V>, path: Path, now: nat, readUpdatesAtime: bool): (d: Dir<V>)
    ensures d.Keys == files.Keys
    ensures forall p :: p in files ==> d[p].value == files[p].value && d[p].ctime == files[p].ctime
    ensures forall p :: p in files && (p != path || !readUpdatesAtime) ==> d[p] == files[p]
    ensures readUpdatesAtime && path in files ==> d[path].atime == now
  {
    if readUpdatesAtime && path in files then files[path := files[path].(atime := now)] else files
  }

  /** `__getitem__` as a function of the directory before the call: sweep,
      read the key's file; a missing file raises `KeyError(key)`. */
  function GetSpec<V>(files: Dir<V>, ttl: Option<int>, now: nat, readUpdatesAtime: bool, key: Key): (r: (Result<V>, Dir<V>))
    ensures r.0.Ok? <==> KeyToPath(key) in Swept(files, ttl, now)
    ensures r.0.Ok? ==> r.0.value == files[KeyToPath(key)].value
    ensures r.0.Err? ==> r.0.error == KeyError(key) && r.1 == Swept(files, ttl, now)
    ensures r.1.Keys == Swept(files, ttl, now).Keys
  {
    var s := Swept(files, ttl, now);
    var p := KeyToPath(key);
    if p in s then (Ok(s[p].value), ReadAt(s, p, now, readUpdatesAtime))
    else (Err(KeyError(key)), s)
  }

  /** A listed path whose derived key can be read back from `s`. */
  predicate Readable<V>(s: Dir<V>, path: Path)
  {
    KeyToPath(PathToKey(path)) in s
  }

  /** What `popitem` promises, given the directory `f0` before it, the
      directory `s` its first sweep leaves and the directory `f1` it leaves:
      either the key of the readable path `chosen` was popped, and no path
      with an earlier access time was readable, or no path was readable,
      "Cache is empty" was raised and only the sweep took effect. */
  ghost predicate PoppedLeastRecent<V>(f0: Dir<V>, s: Dir<V>, r: Result<(Key, V)>, chosen: Path, f1: Dir<V>)
  {
    if r.Ok? then
      && chosen in f0 && Readable(s, chosen)
      && r.value.0 == PathToKey(chosen)
      && r.value.1 == s[KeyToPath(r.value.0)].value
      && (forall q :: q in f0 && f0[q].atime < f0[chosen].atime ==> !Readable(s, q))
      && f1 == s - {KeyToPath(r.value.0)}
    else
      && r == Err(CacheEmpty)
      && (forall q :: q in f0 ==> !Readable(s, q))
      && f1 == s
  }

  /** `c` is a path `popitem` may pick in `d`: it is readable, and no path
      accessed before it is. */
  ghost predicate LeastRecentReadable<V>(d: Dir<V>, c: Path)
  {
    c in d && Readable(d, c) && forall q :: q in d && d[q].atime < d[c].atime ==> !Readable(d, q)
  }

  /** The directories a run of successful `popitem` calls on a swept
      directory walks through, from `d` to `last`: the `i`-th call picks
      `chosen[i]` and removes the file of the key derived from it. */
  ghost predicate PopsInOrder<V>(d: Dir<V>, chosen: seq<Path>, last: Dir<V>)
    decreases |chosen|
  {
    if chosen == [] then last == d
    else
      && LeastRecentReadable(d, chosen[0])
      && PopsInOrder(d - {KeyToPath(PathToKey(chosen[0]))}, chosen[1..], last)
  }

  /** The `st_atime_ns` of every listed file. */
  function AccessTimes<V>(files: Dir<V>): map<Path, nat>
  {
    map p | p in files :: files[p].atime
  }

  predicate SortedBy(r: seq<Path>, atimes: map<Path, nat>)
    requires forall p :: p in r ==> p in atimes
  {
    forall i, j :: 0 <= i < j < |r| ==> atimes[r[i]] <= atimes[r[j]]
  }

  /** Places `x` after the leading elements of `sorted` whose access time
      is not later than its own. */
  function InsertByAtime(sorted: seq<Path>, x: Path, atimes: map<Path, nat>): (r: seq<Path>)
    requires x in atimes && forall p :: p in sorted ==> p in atimes
    ensures multiset(r) == multiset(sorted) + multiset{x}
    ensures forall p :: p in r ==> p in atimes
    decreases |sorted|
  {
    if sorted == [] then [x]
    else if atimes[x] < atimes[sorted[0]] then [x] + sorted
    else
      assert sorted == [sorted[0]] + sorted[1..];
      [sorted[0]] + InsertByAtime(sorted[1..], x, atimes)
  }

  /** `sorted(file_to_ts.items(), key=lambda x: x[1])`: the listed paths in
      ascending access time; equal times keep their listing order. */
  function SortByAtime(paths: seq<Path>, atimes: map<Path, nat>): (r: seq<Path>)
    requires forall p :: p in paths ==> p in atimes
    ensures multiset(r) == multiset(paths)
    ensures forall p :: p in r ==> p in atimes
    decreases |paths|
  {
    if paths == [] then []
    else
      var init := paths[..|paths| - 1];
      assert paths == init + [paths[|paths| - 1]];
      InsertByAtime(SortByAtime(init, atimes), paths[|paths| - 1], atimes)
  }

  /** A permutation of `s` plus `x` is bounded below by every lower bound
      of `s` and `x`. */
  lemma AtLeastAll(s: seq<Path>, x: Path, r: seq<Path>, atimes: map<Path, nat>, bound: nat)
    requires multiset(r) == multiset(s) + multiset{x}
    requires forall p :: p in r ==> p in atimes
    requires x in atimes && bound <= atimes[x]
    requires forall i :: 0 <= i < |s| ==> s[i] in atimes && bound <= atimes[s[i]]
    ensures forall i :: 0 <= i < |r| ==> bound <= atimes[r[i]]
  {
    forall i | 0 <= i < |r| ensures bound <= atimes[r[i]] {
      assert r[i] in multiset(r);
      if r[i] != x {
        assert r[i] in multiset(s);
        var j :| 0 <= j < |s| && s[j] == r[i];
      }
    }
  }

  /** Inserting into a list sorted by access time keeps it sorted. */
  lemma {:induction false} InsertSorted(sorted: seq<Path>, x: Path, atimes: map<Path, nat>)
    requires x in atimes && forall p :: p in sorted ==> p in atimes
    requires SortedBy(sorted, atimes)
    ensures SortedBy(InsertByAtime(sorted, x, atimes), atimes)
    decreases |sorted|
  {
    var r := InsertByAtime(sorted, x, atimes);
    if sorted != [] {
      if atimes[x] < atimes[sorted[0]] {
        forall i, j | 0 <= i < j < |r| ensures atimes[r[i]] <= atimes[r[j]] {
          if i > 0 {
            assert r[i] == sorted[i - 1] && r[j] == sorted[j - 1];
          } else {
            assert r[j] == sorted[j - 1];
          }
        }
      } else {
        var tail := sorted[1..];
        var rest := InsertByAtime(tail, x, atimes);
        InsertSorted(tail, x, atimes);
        assert forall i :: 0 <= i < |tail| ==> tail[i] == sorted[i + 1];
        AtLeastAll(tail, x, rest, atimes, atimes[sorted[0]]);
        assert r == [sorted[0]] + rest;
        forall i, j | 0 <= i < j < |r| ensures atimes[r[i]] <= atimes[r[j]] {
          assert r[j] == rest[j - 1];
          if i > 0 {
            assert r[i] == rest[i - 1];
          }
        }
      }
    }
  }

  /** Sorting by access time keeps exactly the listed paths, in ascending
      access time. */
  lemma {:induction false} SortedMembers(paths: seq<Path>, atimes: map<Path, nat>)
    requires forall p :: p in paths ==> p in atimes
    ensures forall p :: p in SortByAtime(paths, atimes) <==> p in paths
    ensures |SortByAtime(paths, atimes)| == |paths|
    ensures SortedBy(SortByAtime(paths, atimes), atimes)
    decreases |paths|
  {
    var r := SortByAtime(paths, atimes);
    forall p ensures p in r <==> p in paths {
      assert p in r <==> p in multiset(r);
    }
    assert |multiset(r)| == |multiset(paths)|;
    if paths != [] {
      var init := paths[..|paths| - 1];
      assert forall p :: p in init ==> p in paths;
      SortedMembers(init, atimes);
      InsertSorted(SortByAtime(init, atimes), paths[|paths| - 1], atimes);
    }
  }

  /** In a listing sorted by access time whose first `i` paths yield no
      readable key, no path with an earlier access time than the `i`-th
      yields a readable key. */
  lemma UnreadableBefore<V>(f0: Dir<V>, s: Dir<V>, r: seq<Path>, atimes: map<Path, nat>, i: nat)
    requires atimes == AccessTimes(f0)
    requires forall p :: p in r <==> p in f0
    requires SortedBy(r, atimes) && i < |r|
    requires forall j :: 0 <= j < i ==> !Readable(s, r[j])
    ensures forall q :: q in f0 && f0[q].atime < f0[r[i]].atime ==> !Readable(s, q)
  {
    forall q | q in f0 && f0[q].atime < f0[r[i]].atime
      ensures !Readable(s, q)
    {
      var j :| 0 <= j < |r| && r[j] == q;
      assert j < i;
    }
  }

  /** `popitem` stopping at the `i`-th path of the listing sorted by access
      time, the first readable one, keeps its promise. */
  lemma PoppedFound<V>(f0: Dir<V>, s: Dir<V>, ordered: seq<Path>, atimes: map<Path, nat>, i: nat, r: Result<(Key, V)>, f1: Dir<V>)
    requires atimes == AccessTimes(f0)
    requires forall p :: p in ordered <==> p in f0
    requires SortedBy(ordered, atimes) && i < |ordered|
    requires forall j :: 0 <= j < i ==> !Readable(s, ordered[j])
    requires Readable(s, ordered[i])
    requires r == Ok((PathToKey(ordered[i]), s[KeyToPath(PathToKey(ordered[i]))].value))
    requires f1 == s - {KeyToPath(PathToKey(ordered[i]))}
    ensures PoppedLeastRecent(f0, s, r, ordered[i], f1)
  {
    UnreadableBefore(f0, s, ordered, atimes, i);
  }

  /** `popitem` finding no readable path in the listing keeps its promise;
      an empty listing means an empty directory, which no sweep changes. */
  lemma PoppedNone<V>(f0: Dir<V>, ttl: Option<int>, now: nat, ordered: seq<Path>, f1: Dir<V>)
    requires forall p :: p in ordered <==> p in f0
    requires forall j :: 0 <= j < |ordered| ==> !Readable(Swept(f0, ttl, now), ordered[j])
    requires f1 == if ordered == [] then f0 else Swept(f0, ttl, now)
    ensures PoppedLeastRecent(f0, Swept(f0, ttl, now), Err(CacheEmpty), "", f1)
  {
    var s := Swept(f0, ttl, now);
    forall q | q in f0 ensures !Readable(s, q) {
      var j :| 0 <= j < |ordered| && ordered[j] == q;
    }
    if ordered == [] {
      assert f0 == map[];
    }
  }

  /** One more successful `popitem` extends a run of them. */
  lemma {:induction false} PopsInOrderStep<V>(d: Dir<V>, chosen: seq<Path>, mid: Dir<V>, c: Path)
    requires PopsInOrder(d, chosen, mid) && LeastRecentReadable(mid, c)
    ensures PopsInOrder(d, chosen + [c], mid - {KeyToPath(PathToKey(c))})
    decreases |chosen|
  {
    if chosen == [] {
      assert [c][1..] == [];
    } else {
      PopsInOrderStep(d - {KeyToPath(PathToKey(chosen[0]))}, chosen[1..], mid, c);
      assert (chosen + [c])[1..] == chosen[1..] + [c];
    }
  }

  /** Each successful `popitem` removes exactly one file and leaves the
      others as they were. */
  lemma {:induction false} PopsInOrderCount<V>(d: Dir<V>, chosen: seq<Path>, last: Dir<V>)
    requires PopsInOrder(d, chosen, last)
    ensures |last| == |d| - |chosen|
    ensures forall p :: p in last ==> p in d && last[p] == d[p]
    decreases |chosen|
  {
    if chosen != [] {
      var gone := KeyToPath(PathToKey(chosen[0]));
      var next := d - {gone};
      PopsInOrderCount(next, chosen[1..], last);
      assert d.Keys == next.Keys + {gone} && gone !in next.Keys;
      assert |d| == |next| + 1;
    }
  }

  /** The keys `__iter__` derives from the listed paths. */
  function KeysOfPaths(paths: seq<Path>): seq<Key>
  {
    seq(|paths|, i requires 0 <= i < |paths| => PathToKey(paths[i]))
  }

  /** `items()` as a function of the directory and of the derived keys: each
      key is fetched with `__getitem__` in turn and a key whose fetch raises
      `KeyError` is skipped. Returns the pairs and the final directory. */
  function Fetch<V>(files: Dir<V>, ttl: Option<int>, now: nat, readUpdatesAtime: bool, keys: seq<Key>): (r: (seq<(Key, V)>, Dir<V>))
    ensures |r.0| <= |keys| && r.1.Keys <= files.Keys
    ensures forall i :: 0 <= i < |r.0| ==> r.0[i].0 in keys
    decreases |keys|
  {
    if keys == [] then ([], files)
    else
      var before := Fetch(files, ttl, now, readUpdatesAtime, keys[..|keys| - 1]);
      var k := keys[|keys| - 1];
      var got := GetSpec(before.1, ttl, now, readUpdatesAtime, k);
      if got.0.Ok? then (before.0 + [(k, got.0.value)], got.1) else (before.0, got.1)
  }

  /** The pairs `items()` yields from a swept directory: the keys whose file
      exists, each with its file's value, in listing order. */
  function Present<V>(s: Dir<V>, keys: seq<Key>): (pairs: seq<(Key, V)>)
    decreases |keys|
  {
    if keys == [] then []
    else
      var k := keys[|keys| - 1];
      Present(s, keys[..|keys| - 1]) + (if KeyToPath(k) in s then [(k, s[KeyToPath(k)].value)] else [])
  }

  /** The sweep is idempotent at a fixed clock. */
  lemma SweptIdempotent<V>(files: Dir<V>, ttl: Option<int>, now: nat)
    ensures Swept(Swept(files, ttl, now), ttl, now) == Swept(files, ttl, now)
  {
  }

  /** Removing a file from a directory the sweep leaves alone leaves a
      directory the sweep leaves alone. */
  lemma UnexpiredRemove<V>(files: Dir<V>, ttl: Option<int>, now: nat, path: Path)
    requires Swept(files, ttl, now) == files
    ensures Swept(files - {path}, ttl, now) == files - {path}
  {
  }

  /** `__getitem__` sweeps first, so it behaves the same on a directory
      and on that directory swept. */
  lemma GetSweepsFirst<V>(files: Dir<V>, ttl: Option<int>, now: nat, readUpdatesAtime: bool, key: Key)
    ensures GetSpec(files, ttl, now, readUpdatesAtime, key) == GetSpec(Swept(files, ttl, now), ttl, now, readUpdatesAtime, key)
  {
    SweptIdempotent(files, ttl, now);
  }

  /** After `set(key, value)` wrote the key's file at `now`, a `get(key)`
      and a `contains(key)` at a later clock `later` find it, as long as
      the file has not expired in between. */
  lemma SetThenGet<V>(files: Dir<V>, ttl: Option<int>, key: Key, value: V, now: nat, later: nat, readUpdatesAtime: bool)
    requires KeyToPath(key) in files && files[KeyToPath(key)].value == value && files[KeyToPath(key)].ctime == now
    requires ttl.None? || later - now <= ttl.value
    ensures GetSpec(files, ttl, later, readUpdatesAtime, key).0 == Ok(value)
    ensures KeyToPath(key) in Swept(files, ttl, later)
  {
  }

  /** Overwriting a file keeps the number of files; writing a new one adds
      one. */
  lemma WrittenCount<V>(files: Dir<V>, path: Path, value: V, now: nat)
    ensures |Written(files, path, value, now)| == if path in files then |files| else |files| + 1
  {
    var d := Written(files, path, value, now);
    if path in files {
      assert d.Keys == files.Keys;
    } else {
      assert d.Keys == files.Keys + {path};
    }
  }

  /** Reading a file leaves its change time alone, so it cannot make a
      swept directory expire. */
  lemma ReadKeepsUnexpired<V>(s: Dir<V>, ttl: Option<int>, now: nat, readUpdatesAtime: bool, path: Path)
    requires Swept(s, ttl, now) == s
    ensures Swept(ReadAt(s, path, now, readUpdatesAtime), ttl, now) == ReadAt(s, path, now, readUpdatesAtime)
  {
    var t := ReadAt(s, path, now, readUpdatesAtime);
    if ttl.Some? {
      forall p | p in t ensures !Expired(ttl.value, now, t[p]) {
        assert t[p].ctime == s[p].ctime;
      }
    }
  }

  /** `items()` over a swept directory yields exactly the derived keys whose
      file exists, with their values, in listing order, without raising; it
      removes no file and changes no content. */
  lemma {:induction false} FetchYieldsPresent<V>(s: Dir<V>, ttl: Option<int>, now: nat, readUpdatesAtime: bool, keys: seq<Key>)
    requires Swept(s, ttl, now) == s
    ensures Fetch(s, ttl, now, readUpdatesAtime, keys).0 == Present(s, keys)
    ensures var t := Fetch(s, ttl, now, readUpdatesAtime, keys).1;
      t.Keys == s.Keys && Swept(t, ttl, now) == t &&
      forall p :: p in t ==> t[p].value == s[p].value && t[p].ctime == s[p].ctime
    decreases |keys|
  {
    if keys != [] {
      var init := keys[..|keys| - 1];
      var k := keys[|keys| - 1];
      FetchYieldsPresent(s, ttl, now, readUpdatesAtime, init);
      var t := Fetch(s, ttl, now, readUpdatesAtime, init).1;
      ReadKeepsUnexpired(t, ttl, now, readUpdatesAtime, KeyToPath(k));
    }
  }

  class FSLRUCache<V> {
    /** The cache directory. */
    var files: Dir<V>
    const maxsize: int
    const ttl: Option<int>
    /** The operating system's access-time policy: does a read set the
        file's access time? */
    const readUpdatesAtime: bool

    /** Opens a cache over the files already present, dropping expired ones. */
    constructor (maxsize: int, ttl: Option<int>, readUpdatesAtime: bool, existing: Dir<V>, now: nat)
      ensures this.maxsize == maxsize && this.ttl == ttl && this.readUpdatesAtime == readUpdatesAtime
      ensures files == Swept(existing, ttl, now)
    {
      this.maxsize := maxsize;
      this.ttl := ttl;
      this.readUpdatesAtime := readUpdatesAtime;
      files := existing;
      new;
      DeleteExpiredEntries(now);
    }

    /** `__delete_expired_entries`: list the directory and unlink, one file
        at a time, each file whose change time is more than `ttl` ago; a
        file that is already gone is skipped. */
    method DeleteExpiredEntries(now: nat)
      modifies this
      ensures files == Swept(old(files), ttl, now)
    {
      if ttl.None? {
        return;
      }
      var paths := Enumerate(files.Keys);
      ghost var f0 := files;
      var i := 0;
      while i < |paths|
        invariant 0 <= i <= |paths|
        invariant forall p :: p in files <==> p in f0 && !(p in paths[..i] && Expired(ttl.value, now, f0[p]))
        invariant forall p :: p in files ==> files[p] == f0[p]
      {
        var p := paths[i];
        if p in files {
          if now - files[p].ctime > ttl.value {
            files := files - {p};
          }
        }
        assert paths[..i + 1] == paths[..i] + [p];
        i := i + 1;
      }
      assert paths[..i] == paths;
    }

    /** `__getitem__`: sweep, then read the key's file; a read that fails
        raises `KeyError(key)`. */
    method Get(key: Key, now: nat) returns (r: Result<V>)
      modifies this
      ensures (r, files) == GetSpec(old(files), ttl, now, readUpdatesAtime, key)
    {
      DeleteExpiredEntries(now);
      var p := KeyToPath(key);
      if p !in files {
        return Err(KeyError(key));
      }
      var value := files[p].value;
      if readUpdatesAtime {
        files := files[p := files[p].(atime := now)];
      }
      return Ok(value);
    }

    /** `__setitem__`: sweep; reject `maxsize < 1`; call `popitem` until one
        more file fits (its "Cache is empty" error propagates); then write
        the key's file. `chosen` lists the paths the `popitem` calls picked
        and `kept` is the directory they leave. */
    method Set(key: Key, value: V, now: nat) returns (r: Outcome, ghost chosen: seq<Path>, ghost kept: Dir<V>)
      modifies this
      ensures var s := Swept(old(files), ttl, now);
        if maxsize < 1 then r == Fail(ValueTooLarge) && files == s
        else
          && PopsInOrder(s, chosen, kept)
          && (r == Pass || r == Fail(CacheEmpty))
          && (r == Pass ==> |kept| == Min(|s|, maxsize - 1) && files == Written(kept, KeyToPath(key), value, now))
          && (r == Fail(CacheEmpty) ==> files == kept && |kept| >= maxsize && forall q :: q in kept ==> !Readable(kept, q))
      ensures maxsize >= 1 && |Swept(old(files), ttl, now)| < maxsize ==>
        r == Pass && files == Written(Swept(old(files), ttl, now), KeyToPath(key), value, now)
      ensures r == Pass ==>
        && |files| <= maxsize
        && KeyToPath(key) in files
        && files[KeyToPath(key)].value == value && files[KeyToPath(key)].ctime == now
    {
      DeleteExpiredEntries(now);
      ghost var s := files;
      SweptIdempotent(old(files), ttl, now);
      if 1 > maxsize {
        return Fail(ValueTooLarge), [], s;
      }
      r, chosen := EvictUntilFits(now);
      kept := files;
      PopsInOrderCount(s, chosen, kept);
      if |s| < maxsize {
        assert chosen == [];
      }
      if r == Pass {
        var p := KeyToPath(key);
        files := Written(files, p, value, now);
        assert |files| <= |kept| + 1 by {
          assert files.Keys == kept.Keys + {p};
        }
      }
    }

    /** The eviction loop of `__setitem__` over a swept directory: `popitem`
        until one more file fits, or until `popitem` finds nothing readable. */
    method EvictUntilFits(now: nat) returns (r: Outcome, ghost chosen: seq<Path>)
      modifies this
      requires maxsize >= 1 && Swept(files, ttl, now) == files
      ensures PopsInOrder(old(files), chosen, files)
      ensures r == Pass || r == Fail(CacheEmpty)
      ensures r == Pass ==> |files| == Min(|old(files)|, maxsize - 1)
      ensures r == Fail(CacheEmpty) ==> |files| >= maxsize && forall q :: q in files ==> !Readable(files, q)
    {
      ghost var s := files;
      var currentSize := Len(now);
      chosen := [];
      while currentSize + 1 > maxsize
        invariant currentSize == |files| <= |s|
        invariant Swept(files, ttl, now) == files
        invariant PopsInOrder(s, chosen, files)
        invariant |files| == |s| || |files| >= maxsize - 1
        decreases currentSize
      {
        ghost var before := files;
        var popped;
        ghost var c;
        popped, c := Popitem(now);
        if popped.Err? {
          return Fail(CacheEmpty), chosen;
        }
        ghost var gone := KeyToPath(popped.value.0);
        assert files == before - {gone} && gone in before;
        assert |files| == |before| - 1 by {
          assert before.Keys == files.Keys + {gone} && gone !in files.Keys;
        }
        PopsInOrderStep(s, chosen, before, c);
        chosen := chosen + [c];
        UnexpiredRemove(before, ttl, now, gone);
        currentSize := Len(now);
      }
      r := Pass;
    }

    /** `__delitem__`: unlink the key's file, swallowing every failure. */
    method Delete(key: Key)
      modifies this
      ensures files == old(files) - {KeyToPath(key)}
    {
      files := files - {KeyToPath(key)};
    }

    /** `__contains__`: sweep, then test whether the key's file exists. */
    method Contains(key: Key, now: nat) returns (b: bool)
      modifies this
      ensures files == Swept(old(files), ttl, now)
      ensures b <==> KeyToPath(key) in files
    {
      DeleteExpiredEntries(now);
      b := KeyToPath(key) in files;
    }

    /** `__len__`: sweep, then count the listed files. */
    method Len(now: nat) returns (n: nat)
      modifies this
      ensures files == Swept(old(files), ttl, now)
      ensures n == |files|
    {
      DeleteExpiredEntries(now);
      n := |files|;
    }

    /** `__iter__`: sweep, list the directory, derive a key from each path.
        `order` is the listing. */
    method Iter(now: nat) returns (keys: seq<Key>, ghost order: seq<Path>)
      modifies this
      ensures files == Swept(old(files), ttl, now)
      ensures (forall p :: p in order <==> p in files) && Distinct(order) && |order| == |files|
      ensures keys == KeysOfPaths(order)
    {
      DeleteExpiredEntries(now);
      var paths := Enumerate(files.Keys);
      order := paths;
      keys := KeysOfPaths(paths);
    }

    /** `keys`: the keys `__iter__` yields; nothing is read. */
    method Keys(now: nat) returns (keys: seq<Key>, ghost order: seq<Path>)
      modifies this
      ensures files == Swept(old(files), ttl, now)
      ensures (forall p :: p in order <==> p in files) && Distinct(order) && |order| == |files|
      ensures keys == KeysOfPaths(order)
    {
      keys, order := Iter(now);
    }

    /** `pop` of `MutableMapping`: `__getitem__` (which sweeps and reads)
        followed by `__delitem__`; a missing key raises `KeyError(key)`
        and removes nothing beyond the sweep. */
    method Pop(key: Key, now: nat) returns (r: Result<V>)
      modifies this
      ensures var s := Swept(old(files), ttl, now);
        if KeyToPath(key) in s then r == Ok(s[KeyToPath(key)].value) && files == s - {KeyToPath(key)}
        else r == Err(KeyError(key)) && files == s
    {
      r := Get(key, now);
      if r.Ok? {
        Delete(key);
      }
    }

    /** `popitem`: order the listed paths by access time and `pop` the key
        derived from the first path for which that succeeds; `pop` is a
        `__getitem__` (which sweeps and reads) followed by a `__delitem__`.
        When no path yields a readable key, "Cache is empty" is raised.
        `chosen` is the path whose key was popped. */
    method Popitem(now: nat) returns (r: Result<(Key, V)>, ghost chosen: Path)
      modifies this
      ensures PoppedLeastRecent(old(files), Swept(old(files), ttl, now), r, chosen, files)
    {
      ghost var f0 := files;
      ghost var s := Swept(files, ttl, now);
      var paths := Enumerate(files.Keys);
      var atimes := AccessTimes(files);
      var ordered := SortByAtime(paths, atimes);
      SortedMembers(paths, atimes);
      ghost var i;
      r, i := PopFirstReadable(ordered, now, s);
      if r.Ok? {
        chosen := ordered[i];
        PoppedFound(f0, s, ordered, atimes, i, r, files);
      } else {
        chosen := "";
        PoppedNone(f0, ttl, now, ordered, files);
      }
    }

    /** The loop of `popitem`: `pop` the key derived from each path of
        `ordered` in turn until one succeeds; `i` is the index of that path.
        `s` is the directory after the first sweep. */
    method PopFirstReadable(ordered: seq<Path>, now: nat, ghost s: Dir<V>) returns (r: Result<(Key, V)>, ghost i: nat)
      modifies this
      requires s == Swept(files, ttl, now)
      ensures if r.Ok? then
          && i < |ordered|
          && (forall j :: 0 <= j < i ==> !Readable(s, ordered[j]))
          && Readable(s, ordered[i])
          && r.value == (PathToKey(ordered[i]), s[KeyToPath(PathToKey(ordered[i]))].value)
          && files == s - {KeyToPath(PathToKey(ordered[i]))}
        else
          && r == Err(CacheEmpty)
          && (forall j :: 0 <= j < |ordered| ==> !Readable(s, ordered[j]))
          && files == if ordered == [] then old(files) else s
    {
      ghost var f0 := files;
      SweptIdempotent(f0, ttl, now);
      var k := 0;
      while k < |ordered|
        invariant 0 <= k <= |ordered|
        invariant files == if k == 0 then f0 else s
        invariant forall j :: 0 <= j < k ==> !Readable(s, ordered[j])
      {
        var key := PathToKey(ordered[k]);
        var got := Pop(key, now);
        if got.Ok? {
          return Ok((key, got.value)), k;
        }
        forall j | 0 <= j < k + 1 ensures !Readable(s, ordered[j]) {
          if j == k {
            assert ordered[j] == ordered[k];
          }
        }
        k := k + 1;
      }
      r, i := Err(CacheEmpty), k;
    }

    /** `items`: sweep, then fetch each key `__iter__` yields with
        `__getitem__`, skipping those that raise `KeyError`. */
    method Items(now: nat) returns (pairs: seq<(Key, V)>, ghost order: seq<Path>)
      modifies this
      ensures var s := Swept(old(files), ttl, now);
        && (forall p :: p in order <==> p in s) && Distinct(order) && |order| == |s|
        && (pairs, files) == Fetch(s, ttl, now, readUpdatesAtime, KeysOfPaths(order))
    {
      DeleteExpiredEntries(now);
      SweptIdempotent(old(files), ttl, now);
      var keys;
      keys, order := Iter(now);
      pairs := GetEach(keys, now);
    }

    /** The loop of `items`: `__getitem__` on each key in turn, keeping the
        pairs of those that do not raise `KeyError`. */
    method GetEach(keys: seq<Key>, now: nat) returns (pairs: seq<(Key, V)>)
      modifies this
      ensures (pairs, files) == Fetch(old(files), ttl, now, readUpdatesAtime, keys)
    {
      ghost var f0 := files;
      pairs := [];
      var i := 0;
      while i < |keys|
        invariant 0 <= i <= |keys|
        invariant (pairs, files) == Fetch(f0, ttl, now, readUpdatesAtime, keys[..i])
      {
        assert keys[..i + 1][..i] == keys[..i];
        var got := Get(keys[i], now);
        if got.Ok? {
          pairs := pairs + [(keys[i], got.value)];
        }
        i := i + 1;
      }
      assert keys[..|keys|] == keys;
    }

    /** `values`: the values of `items()`. */
    method Values(now: nat) returns (values: seq<V>, ghost order: seq<Path>)
      modifies this
      ensures var s := Swept(old(files), ttl, now);
        && (forall p :: p in order <==> p in s) && Distinct(order) && |order| == |s|
        && values == ValuesOf(Fetch(s, ttl, now, readUpdatesAtime, KeysOfPaths(order)).0)
        && files == Fetch(s, ttl, now, readUpdatesAtime, KeysOfPaths(order)).1
    {
      var pairs;
      pairs, order := Items(now);
      values := ValuesOf(pairs);
    }
  }

  /** `__setitem__` of a new key into a cache with room and no ttl creates
      the key's file at `now` and changes nothing else. */
  method WriteNew<V>(c: FSLRUCache<V>, key: Key, value: V, now: nat)
    modifies c
    requires c.ttl.None? && |c.files| < c.maxsize && KeyToPath(key) !in c.files
    ensures c.files == old(c.files)[KeyToPath(key) := FileEntry(value, now, now)]
  {
    var outcome;
    ghost var chosen, kept;
    outcome, chosen, kept := c.Set(key, value, now);
  }

  /** A new cache, clear at start, after writing `"hello"` at time 1 and
      `"foo"` at time 2 and reading `"hello"` at time 3 on a file system
      where reads set the access time. */
  method WriteTwoReadFirst() returns (c: FSLRUCache<string>)
    ensures fresh(c) && c.ttl.None?
    ensures c.files == map[KeyToPath("hello") := FileEntry("world", 3, 1), KeyToPath("foo") := FileEntry("bar", 2, 2)]
  {
    c := new FSLRUCache<string>(3, None, true, map[], 0);
    ghost var hello, foo := KeyToPath("hello"), KeyToPath("foo");
    assert |hello| == 9 && |foo| == 7;
    WriteNew(c, "hello", "world", 1);
    WriteNew(c, "foo", "bar", 2);
    assert c.files == map[hello := FileEntry("world", 1, 1), foo := FileEntry("bar", 2, 2)];
    var _ := c.Get("hello", 3);
  }

  /** Of the files of `"hello"`, read at time 3, and `"foo"`, read at time
      2, both readable, `popitem` can only pop `"foo"`. */
  lemma PopsFoo(f: Dir<string>, r: Result<(Key, string)>, chosen: Path, f1: Dir<string>)
    requires f == map[KeyToPath("hello") := FileEntry("world", 3, 1), KeyToPath("foo") := FileEntry("bar", 2, 2)]
    requires PoppedLeastRecent(f, f, r, chosen, f1)
    ensures r == Ok(("foo", "bar"))
  {
    ScenarioKeysRoundTrip();
    var hello, foo := KeyToPath("hello"), KeyToPath("foo");
    assert Readable(f, hello) && Readable(f, foo);
  }

  /** The keys `"hello"` and `"foo"` are recovered from their files. */
  lemma ScenarioKeysRoundTrip()
    ensures PathToKey(KeyToPath("hello")) == "hello" && PathToKey(KeyToPath("foo")) == "foo"
  {
    RoundTrip("hello");
    RoundTrip("foo");
  }

  /** Reading `"hello"` after writing `"hello"` and then `"foo"` makes
      `"foo"` the least recently used entry, so `popitem` returns it. */
  method LastAccessScenario() returns (r: Result<(Key, string)>)
    ensures r == Ok(("foo", "bar"))
  {
    var c := WriteTwoReadFirst();
    ghost var f := c.files;
    ghost var chosen;
    r, chosen := c.Popitem(4);
    PopsFoo(f, r, chosen, c.files);
  }

  /** The keys `"a"`, `"b"`, `"c"` and `"d"` are distinct, and `"a"` is
      recovered from its file. */
  lemma TestKeysQualify()
    ensures Distinct(["a", "b", "c", "d"]) && RoundTrips("a")
  {
  }

  /** When a readable file `a`, whose derived key leads back to it, was
      accessed strictly before every other file, a run of `popitem` calls
      that removes one file removes `a`, and one that removes none leaves
      `a` readable. */
  lemma StrictlyOldestFileEvicted<V>(s: Dir<V>, a: Path, chosen: seq<Path>, kept: Dir<V>)
    requires a in s && KeyToPath(PathToKey(a)) == a
    requires forall q :: q in s && q != a ==> s[a].atime < s[q].atime
    requires PopsInOrder(s, chosen, kept)
    ensures |kept| <= |s|
    ensures |kept| == |s| ==> kept == s && Readable(kept, a)
    ensures |kept| == |s| - 1 ==> kept == s - {a}
  {
    PopsInOrderCount(s, chosen, kept);
    if |kept| == |s| - 1 {
      var c0 := chosen[0];
      assert LeastRecentReadable(s, c0);
      assert c0 == a by {
        assert Readable(s, a);
      }
      PopsInOrderCount(s - {a}, chosen[1..], kept);
    }
  }

  /** A new cache of size 3, clear at start, after writing the distinct
      keys `ka`, `kb` and `kc` with the values 1, 2 and 3 at times 1, 2 and
      3. */
  method WriteThreeFiles(ka: Key, kb: Key, kc: Key, readUpdatesAtime: bool) returns (c: FSLRUCache<int>)
    requires ka != kb && ka != kc && kb != kc
    ensures fresh(c) && c.ttl.None? && c.maxsize == 3
    ensures c.files == map[KeyToPath(ka) := FileEntry(1, 1, 1), KeyToPath(kb) := FileEntry(2, 2, 2), KeyToPath(kc) := FileEntry(3, 3, 3)]
  {
    c := new FSLRUCache<int>(3, None, readUpdatesAtime, map[], 0);
    KeyToPathInjective(ka, kb);
    KeyToPathInjective(ka, kc);
    KeyToPathInjective(kb, kc);
    WriteNew(c, ka, 1, 1);
    WriteNew(c, kb, 2, 2);
    WriteNew(c, kc, 3, 3);
  }

  /** A directory of three distinct files holds three files. */
  lemma ThreeFiles<V>(a: Path, b: Path, c: Path, ea: FileEntry<V>, eb: FileEntry<V>, ec: FileEntry<V>)
    requires a != b && a != c && b != c
    ensures |map[a := ea, b := eb, c := ec]| == 3
  {
    assert map[a := ea, b := eb, c := ec].Keys == {a, b, c};
  }

  /** Removing the first of three distinct files leaves the other two. */
  lemma DropFirstOfThree<V>(a: Path, b: Path, c: Path, ea: FileEntry<V>, eb: FileEntry<V>, ec: FileEntry<V>)
    requires a != b && a != c
    ensures map[a := ea, b := eb, c := ec] - {a} == map[b := eb, c := ec]
  {
    var s, t := map[a := ea, b := eb, c := ec] - {a}, map[b := eb, c := ec];
    assert s.Keys == t.Keys;
    assert forall p :: p in s ==> s[p] == t[p];
  }

  /** A run of `popitem` calls over the files `a`, `b`, `c`, accessed at 1,
      2 and 3, with `a` readable: it removes at most one file per call; if
      it removes none, `a` is still readable; if it removes one, that is
      `a`. */
  lemma EvictionOfThreeFiles<V>(a: Path, b: Path, c: Path, v1: V, v2: V, v3: V, chosen: seq<Path>, kept: Dir<V>)
    requires a != b && a != c && b != c
    requires KeyToPath(PathToKey(a)) == a
    requires PopsInOrder(map[a := FileEntry(v1, 1, 1), b := FileEntry(v2, 2, 2), c := FileEntry(v3, 3, 3)], chosen, kept)
    ensures |kept| <= 3
    ensures |kept| == 3 ==> a in kept && Readable(kept, a)
    ensures |kept| == 2 ==> kept == map[b := FileEntry(v2, 2, 2), c := FileEntry(v3, 3, 3)]
  {
    var s := map[a := FileEntry(v1, 1, 1), b := FileEntry(v2, 2, 2), c := FileEntry(v3, 3, 3)];
    ThreeFiles(a, b, c, FileEntry(v1, 1, 1), FileEntry(v2, 2, 2), FileEntry(v3, 3, 3));
    StrictlyOldestFileEvicted(s, a, chosen, kept);
    DropFirstOfThree(a, b, c, FileEntry(v1, 1, 1), FileEntry(v2, 2, 2), FileEntry(v3, 3, 3));
  }

  /** The outcomes `__setitem__` of a fourth path `d` allows on the files
      `b`, `c` and one more, `a`, that a single eviction removes and that
      stays readable when nothing is evicted: only the one that evicts `a`
      and writes `d`. */
  lemma FourthWriteEvictsFirst<V>(a: Path, b: Path, c: Path, d: Path, v2: V, v3: V, v4: V,
                                  r: Outcome, kept: Dir<V>, files: Dir<V>)
    requires b != c && b != d && c != d
    requires |kept| <= 3
    requires |kept| == 3 ==> a in kept && Readable(kept, a)
    requires |kept| == 2 ==> kept == map[b := FileEntry(v2, 2, 2), c := FileEntry(v3, 3, 3)]
    requires r == Pass || r == Fail(CacheEmpty)
    requires r == Pass ==> |kept| == 2 && files == Written(kept, d, v4, 4)
    requires r == Fail(CacheEmpty) ==> |kept| >= 3 && forall q :: q in kept ==> !Readable(kept, q)
    ensures r == Pass
    ensures files == map[b := FileEntry(v2, 2, 2), c := FileEntry(v3, 3, 3), d := FileEntry(v4, 4, 4)]
  {
    if r == Fail(CacheEmpty) {
      assert false;
    }
    assert kept.Keys == {b, c};
    assert files == kept[d := FileEntry(v4, 4, 4)];
  }

  /** What `__setitem__` of a fourth path `d` leaves, given the files `a`,
      `b`, `c` accessed at 1, 2 and 3 and the facts its contract states: `a`
      is evicted and `d` written. */
  lemma FourthWriteOverThree<V>(a: Path, b: Path, c: Path, d: Path, v1: V, v2: V, v3: V, v4: V,
                                r: Outcome, chosen: seq<Path>, kept: Dir<V>, files: Dir<V>)
    requires a != b && a != c && b != c && b != d && c != d
    requires KeyToPath(PathToKey(a)) == a
    requires PopsInOrder(map[a := FileEntry(v1, 1, 1), b := FileEntry(v2, 2, 2), c := FileEntry(v3, 3, 3)], chosen, kept)
    requires r == Pass || r == Fail(CacheEmpty)
    requires r == Pass ==> |kept| == Min(3, 2) && files == Written(kept, d, v4, 4)
    requires r == Fail(CacheEmpty) ==> files == kept && |kept| >= 3 && forall q :: q in kept ==> !Readable(kept, q)
    ensures r == Pass
    ensures files == map[b := FileEntry(v2, 2, 2), c := FileEntry(v3, 3, 3), d := FileEntry(v4, 4, 4)]
  {
    EvictionOfThreeFiles(a, b, c, v1, v2, v3, chosen, kept);
    FourthWriteEvictsFirst(a, b, c, d, v2, v3, v4, r, kept, files);
  }

  /** Writing a fourth key `kd` into a full cache of three evicts the least
      recently accessed key `ka`: three entries before, three after, holding
      the values 2, 3 and 4; on either access-time policy. The keys of the
      test, `"a"` to `"d"`, qualify (`TestKeysQualify`). */
  method FileMaxsizeScenario(ka: Key, kb: Key, kc: Key, kd: Key, readUpdatesAtime: bool)
    returns (before: nat, after: nat, files: Dir<int>)
    requires Distinct([ka, kb, kc, kd]) && RoundTrips(ka)
    ensures before == 3 && after == 3
    ensures files == map[KeyToPath(kb) := FileEntry(2, 2, 2), KeyToPath(kc) := FileEntry(3, 3, 3), KeyToPath(kd) := FileEntry(4, 4, 4)]
  {
    assert ka != kb && ka != kc && kb != kc && kb != kd && kc != kd by {
      assert [ka, kb, kc, kd][0] == ka && [ka, kb, kc, kd][1] == kb;
      assert [ka, kb, kc, kd][2] == kc && [ka, kb, kc, kd][3] == kd;
    }
    var c := WriteThreeFiles(ka, kb, kc, readUpdatesAtime);
    ghost var a, b, cc, d := KeyToPath(ka), KeyToPath(kb), KeyToPath(kc), KeyToPath(kd);
    KeyToPathInjective(ka, kb);
    KeyToPathInjective(ka, kc);
    KeyToPathInjective(kb, kc);
    KeyToPathInjective(kb, kd);
    KeyToPathInjective(kc, kd);
    RoundTrip(ka);
    ThreeFiles(a, b, cc, FileEntry(1, 1, 1), FileEntry(2, 2, 2), FileEntry(3, 3, 3));
    ThreeFiles(b, cc, d, FileEntry(2, 2, 2), FileEntry(3, 3, 3), FileEntry(4, 4, 4));
    before := c.Len(3);
    var outcome;
    ghost var chosen, kept;
    outcome, chosen, kept := c.Set(kd, 4, 4);
    FourthWriteOverThree(a, b, cc, d, 1, 2, 3, 4, outcome, chosen, kept, c.files);
    after := c.Len(4);
    files := c.files;
  }

  /** test_fs.py's `test_maxsize` with its own keys `"a"` to `"d"`. */
  method TestMaxsize(readUpdatesAtime: bool) returns (before: nat, after: nat, files: Dir<int>)
    ensures before == 3 && after == 3
    ensures files == map[KeyToPath("b") := FileEntry(2, 2, 2), KeyToPath("c") := FileEntry(3, 3, 3), KeyToPath("d") := FileEntry(4, 4, 4)]
  {
    TestKeysQualify();
    before, after, files := FileMaxsizeScenario("a", "b", "c", "d", readUpdatesAtime);
  }
}
