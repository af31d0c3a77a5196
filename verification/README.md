# cachetools_ext in Dafny

A model of the three cache classes of `cachetools_ext`. Each class is a
`MutableMapping` over a storage medium, and the model holds that medium as
a map in a class field:

- `SQLiteLRUCache` (module `SQLiteCache`, `sqlite.dfy`) keeps an LRU cache
  in one SQLite table `cache(key, value, created_at, last_accessed_at)`. The
  table is a `map<Key, Row<V>>`, timestamps are integer milliseconds, and
  every operation takes the clock `now` as a parameter. Reads, writes, size
  queries and iteration first run a TTL sweep, which deletes the rows whose
  whole-second age since the last access exceeds `ttl`. `__setitem__`
  rejects `maxsize < 1`. It then evicts with `popitem`, which removes the
  row with the smallest `last_accessed_at`, until one more row fits. Then
  it does an insert-or-replace.
- `FSLRUCache` (modules `FsPaths`, `fs_paths.dfy`, and `FSCache`, `fs.dfy`)
  keeps one file per entry in a directory. The directory is a
  `map<Path, FileEntry<V>>` holding each file's value, access time and
  change time. Recency is the access time, and the sweep measures age from
  the change time. `popitem` sorts the listed paths by access time and pops
  the first one whose derived key can be read back.
- `S3Cache` (module `S3Store`, `s3.dfy`) keeps each entry as the object
  `keyPrefix + key` of a bucket, modelled as a `map<string, V>`. Iteration
  goes through `get_all_keys`, which pages through `list_objects_v2`. The
  listing call is an oracle, a function from the stored object keys, the
  prefix and the `StartAfter` cursor to one response.

`Common` (`common.dfy`) holds the keys, the errors the caches raise
(`KeyError`, `ValueError`, `IndexError`), the result wrappers, and the
enumeration of a key set in an unspecified order.

Behaviour the model keeps as the code has it:

- **SQLite timestamps.** A written row takes the column defaults
  `strftime('%Y-%m-%d %H:%M:%f', 'NOW')`, which carry milliseconds. A read
  sets `last_accessed_at = current_timestamp`, which is whole seconds. A
  read in the same second as the write therefore leaves `last_accessed_at`
  at or before `created_at`; this is `ReadStampAfterWrite`. The same read
  also moves the key's recency back against keys written earlier in that
  second.
- **`path_to_key`.** It uses `str.strip(".pkl")`, which strips the
  *characters* `.`, `p`, `k`, `l` from both ends of the file name. The round
  trip back to the key holds exactly for keys that contain no `/` and
  neither start nor end with one of those characters (`RoundTrip`). For
  example `"help"` comes back as `"he"`. `popitem` skips files whose derived
  key does not lead back to a file, and raises "Cache is empty" when no
  file does, even if the directory is not empty.
- **The S3 cursor.** `get_all_keys` never reassigns `keys`. So every request
  after the first uses `StartAfter` = the last entry of the *first* page.
  The entries yielded are whole listing entries, not key strings. With a
  deterministic client, a truncated second response repeats forever
  (`TruncatedLaterPageRepeats`). The model bounds the requests by `fuel`.
  The oracle accepts the entry as a cursor, although a real client would
  most likely reject a `StartAfter` that is not a string (client failures
  are left out).

## Model

| member | source | states |
|---|---|---|
| Common.Enumerate | cachetools_ext/sqlite.py:125-130 | lists every key of the set exactly once, in some order; this is also the `glob("*")` listing of the filesystem cache (fs.py:102-109, 128-132, 141-160) |
| Common.DeleteCount | cachetools_ext/sqlite.py:106-108 | deleting a key is idempotent, leaves the key absent, and lowers the count by one exactly when the key was present |
| SQLiteCache.CurrentTimestamp | cachetools_ext/sqlite.py:164-175 | `current_timestamp` is the clock truncated to its second: at most `now`, less than a second before it, in the same second |
| SQLiteCache.Touched | cachetools_ext/sqlite.py:164-175 | refreshing a key keeps the key set, changes no other row and neither the value nor `created_at` of the key's row, and stamps it within the current second, never after `now` |
| SQLiteCache.Inserted | cachetools_ext/sqlite.py:100-103 | insert-or-replace adds the key if missing, stores the value with both timestamps `now`, and changes no other row |
| SQLiteCache.GetSpec | cachetools_ext/sqlite.py:70-85 | `get` hits exactly when the key survives the sweep, returning its stored value; a miss raises `KeyError(key)` and leaves only the sweep; either way the swept key set is kept |
| SQLiteCache.Fetch | cachetools_ext/sqlite.py:132-139 | `items()` yields at most one pair per enumerated key, every yielded key was enumerated, and no row is added |
| SQLiteCache.Swept | cachetools_ext/sqlite.py:177-191 | with no ttl the table is unchanged; otherwise a row stays iff its whole-second age since last access is at most `ttl`, and kept rows are unchanged |
| SQLiteCache.TouchedAll | cachetools_ext/sqlite.py:132-139 | refreshing the recency of fetched keys keeps the key set |
| SQLiteCache.LeastRecentExists | cachetools_ext/sqlite.py:149-162 | a non-empty table has a row with minimum `last_accessed_at`, so the `order by ... limit 1` query returns a row |
| SQLiteCache.SweptIdempotent | cachetools_ext/sqlite.py:177-191 | a second sweep at the same clock removes nothing |
| SQLiteCache.EvictionStep | cachetools_ext/sqlite.py:96-98 | popping the least recent kept row keeps the eviction pass least-recently-used-first |
| SQLiteCache.SetThenGet | cachetools_ext/sqlite.py:100-103 | after insert-or-replace, a `get` of the key before it expires returns the value written |
| SQLiteCache.ReadStampAfterWrite | cachetools_ext/sqlite.py:164-175 | after a write and a read, `last_accessed_at > created_at` holds exactly when the read falls in a later second than the write |
| SQLiteCache.StrictlyOldestEvicted | cachetools_ext/sqlite.py:96-98 | an eviction pass that removes anything removes a row accessed strictly before all others |
| SQLiteCache.OverwriteBelowCapacity | cachetools_ext/sqlite.py:91-103 | when the swept table has room nothing is evicted, and overwriting a present key keeps the count |
| SQLiteCache.TouchedAllUnexpired | cachetools_ext/sqlite.py:177-191 | with a non-negative ttl, rows just read survive a sweep at the same clock |
| SQLiteCache.FetchComplete | cachetools_ext/sqlite.py:132-139 | over a swept table with a non-negative ttl, `items()` yields every enumerated key with its value, in order, and refreshes each one |
| SQLiteCache.FetchOneMore | cachetools_ext/sqlite.py:134-139 | when the keys fetched so far are refreshed, fetching one more present key yields its stored value and refreshes it too |
| SQLiteCache.SQLiteLRUCache.constructor | cachetools_ext/sqlite.py:11-67 | the cache opens over the stored rows with the expired ones removed |
| SQLiteCache.SQLiteLRUCache.DeleteExpiredEntries | cachetools_ext/sqlite.py:177-191 | the table becomes its sweep |
| SQLiteCache.SQLiteLRUCache.UpdateLastAccessedAt | cachetools_ext/sqlite.py:164-175 | only the key's `last_accessed_at` changes, to `current_timestamp`; a missing key changes nothing |
| SQLiteCache.SQLiteLRUCache.Get | cachetools_ext/sqlite.py:70-85 | sweep; a hit returns the stored value and refreshes only that key; a miss raises `KeyError(key)` and changes nothing beyond the sweep |
| SQLiteCache.SQLiteLRUCache.Set | cachetools_ext/sqlite.py:87-104 | `ValueError` exactly when `maxsize < 1`; otherwise the least recently used rows are evicted down to `min(len, maxsize - 1)`, the key is written with both timestamps `now`, and the count ends at most `maxsize` |
| SQLiteCache.SQLiteLRUCache.EvictUntilFits | cachetools_ext/sqlite.py:94-98 | the loop evicts least recently used rows first, down to `min(len, maxsize - 1)` rows, and leaves the others unchanged |
| SQLiteCache.SQLiteLRUCache.Delete | cachetools_ext/sqlite.py:106-108 | removes the key's row if present and never raises |
| SQLiteCache.SQLiteLRUCache.Contains | cachetools_ext/sqlite.py:110-116 | sweep; true iff the key has a row |
| SQLiteCache.SQLiteLRUCache.Len | cachetools_ext/sqlite.py:118-123 | sweep; the number of rows |
| SQLiteCache.SQLiteLRUCache.Iter | cachetools_ext/sqlite.py:125-130 | sweep; every remaining key exactly once |
| SQLiteCache.SQLiteLRUCache.Pop | cachetools_ext/sqlite.py:162 | `get` then `delete`: a present key is returned with its value and removed; a missing one raises `KeyError` |
| SQLiteCache.SQLiteLRUCache.Popitem | cachetools_ext/sqlite.py:149-162 | an empty table raises "is empty"; otherwise a row with minimum `last_accessed_at` is selected and popped, or `KeyError` is raised when the sweep inside `pop` removed it |
| SQLiteCache.SQLiteLRUCache.Items | cachetools_ext/sqlite.py:132-139 | sweep, enumerate, then fetch each key with `get` and skip a `KeyError` |
| SQLiteCache.SQLiteLRUCache.Keys | cachetools_ext/sqlite.py:141-143 | the keys of `items()` |
| SQLiteCache.SQLiteLRUCache.Values | cachetools_ext/sqlite.py:145-147 | the values of `items()` |
| SQLiteCache.WriteTwo | test/test_sqlite.py:38-41 | writing `hello` then `foo` into a new cache of size 3 stores both rows, stamped at their write times |
| SQLiteCache.OldestOfTwo | test/test_sqlite.py:42-43 | of `hello` and `foo`, only `hello` is least recently used |
| SQLiteCache.PopitemScenario | test/test_sqlite.py:38-44 | after writing `hello` then `foo`, `popitem` returns `("hello", "world")` and one row remains |
| SQLiteCache.WriteThree | cachetools_ext/sqlite.py:87-104 | writing `a`, `b`, `c` at 1, 2 and 3 seconds into a cache of size 3 evicts nothing |
| SQLiteCache.EvictionOfThree | cachetools_ext/sqlite.py:94-98 | evicting down to two of the rows `a`, `b`, `c`, least recently used first, keeps exactly `b` and `c` |
| SQLiteCache.MaxsizeScenario | cachetools_ext/sqlite.py:87-104 | writing a fourth key into a full cache of three evicts the least recently used key and keeps three rows |
| FsPaths.NameIsSuffix | cachetools_ext/fs.py:54-55 | `Path.name` is the `/`-free suffix after the last `/`; a path without `/` is its own name |
| FsPaths.LStripIsSuffix | cachetools_ext/fs.py:54-55 | the leading half of `strip` leaves a suffix that does not start with a stripped character |
| FsPaths.RStripIsPrefix | cachetools_ext/fs.py:54-55 | the trailing half of `strip` leaves a prefix that does not end with a stripped character |
| FsPaths.LStripSpec | cachetools_ext/fs.py:54-55 | the leading strip removes exactly the longest prefix made of `.`, `p`, `k`, `l` |
| FsPaths.RStripSpec | cachetools_ext/fs.py:54-55 | the trailing strip removes exactly the longest suffix made of `.`, `p`, `k`, `l` |
| FsPaths.StripSpec | cachetools_ext/fs.py:54-55 | `strip(".pkl")` keeps the stretch between the longest prefix and the longest suffix made of `.`, `p`, `k`, `l`, which neither starts nor ends with one of them |
| FsPaths.DerivedKeyRoundTrips | cachetools_ext/fs.py:51-55 | every key `path_to_key` derives is one whose file `path_to_key` maps back to the same key |
| FsPaths.KeyToPathInjective | cachetools_ext/fs.py:51-52 | the file name `f"{key}.pkl"` is injective: for keys without `/`, the only ones the model covers, two keys share a file exactly when they are equal |
| FsPaths.StripEnds | cachetools_ext/fs.py:54-55 | the result of `strip(".pkl")` neither starts nor ends with one of `.`, `p`, `k`, `l` |
| FsPaths.NameOfKeyPath | cachetools_ext/fs.py:51-52 | the name of a key's file is the key's name followed by `.pkl` |
| FsPaths.RStripKeyPath | cachetools_ext/fs.py:54-55 | the trailing strip removes the whole `.pkl` extension and then keeps stripping into the key |
| FsPaths.StripDropsExtension | cachetools_ext/fs.py:54-55 | stripping a name ending in `.pkl` leaves nothing longer than the part before `.pkl` |
| FsPaths.RoundTrip | cachetools_ext/fs.py:51-55 | `path_to_key(key_to_path(k)) == k` iff `k` has no `/` and neither starts nor ends with `.`, `p`, `k` or `l` |
| FsPaths.RStripDropsStripChars | cachetools_ext/fs.py:54-55 | trailing stripped characters are all removed |
| FsPaths.ListedKeyOf | cachetools_ext/fs.py:51-55 | for a `/`-free key that does not start with a stripped character, the file maps back to the key right-stripped |
| FsPaths.TrailingStripCharsLost | cachetools_ext/fs.py:51-55 | a round-tripping key followed by stripped characters maps back to the key without them |
| FsPaths.HelpListsAsHe | cachetools_ext/fs.py:51-55 | the key `"help"` is listed back as `"he"` |
| FSCache.Swept | cachetools_ext/fs.py:141-160 | with no ttl the directory is unchanged; otherwise a file stays iff `now - ctime <= ttl`, and kept files are unchanged |
| FSCache.Written | cachetools_ext/fs.py:83-84 | the key's file holds the value and changes at `now`; a new file is accessed at `now`, an existing one keeps its access time; other files are unchanged |
| FSCache.ReadAt | cachetools_ext/fs.py:61 | a read keeps every file, its value and its change time; only the read file's access time moves, to `now`, and only under the access-time policy |
| FSCache.GetSpec | cachetools_ext/fs.py:57-68 | `get` hits exactly when the key's file survives the sweep, returning its stored value; a miss raises `KeyError(key)` and leaves only the sweep; either way the swept files are kept |
| FSCache.InsertByAtime | cachetools_ext/fs.py:132 | inserting a path adds exactly that path to the list, as a multiset |
| FSCache.InsertSorted | cachetools_ext/fs.py:132 | inserting into a list sorted by access time keeps it sorted |
| FSCache.SortByAtime | cachetools_ext/fs.py:132 | `sorted(..., key=atime)` is a permutation of the listing |
| FSCache.SortedMembers | cachetools_ext/fs.py:130-132 | sorting keeps exactly the listed paths, as many as listed, in ascending access time |
| FSCache.UnreadableBefore | cachetools_ext/fs.py:133-138 | when the first paths of the sorted listing yield no readable key, no path with an earlier access time does |
| FSCache.PoppedFound | cachetools_ext/fs.py:133-136 | stopping at the first readable path of the sorted listing pops a key no earlier-accessed readable path precedes |
| FSCache.PoppedNone | cachetools_ext/fs.py:133-139 | when no path of the listing is readable, "Cache is empty" is raised and only the sweep took effect, also for an empty directory |
| FSCache.PopsInOrderStep | cachetools_ext/fs.py:79-81 | one more `popitem` that picks a least recently accessed readable path extends a run of evictions |
| FSCache.PopsInOrderCount | cachetools_ext/fs.py:79-81 | a run of evictions removes one file per call and leaves the other files unchanged |
| FSCache.Fetch | cachetools_ext/fs.py:111-118 | `items()` yields at most one pair per derived key, every yielded key was derived from the listing, and no file is added |
| FSCache.SweptIdempotent | cachetools_ext/fs.py:141-160 | a second sweep at the same clock removes nothing |
| FSCache.GetSweepsFirst | cachetools_ext/fs.py:57-58 | `get` behaves the same on a directory and on its sweep |
| FSCache.SetThenGet | cachetools_ext/fs.py:83-84 | a file written at `now` is found by `get` and `contains` until it expires |
| FSCache.WrittenCount | cachetools_ext/fs.py:83-84 | overwriting a file keeps the count; writing a new one adds one |
| FSCache.ReadKeepsUnexpired | cachetools_ext/fs.py:61 | a read leaves the change time alone, so it expires nothing |
| FSCache.FetchYieldsPresent | cachetools_ext/fs.py:111-118 | over a swept directory `items()` yields exactly the derived keys whose file exists, with values, in listing order, removing nothing |
| FSCache.FSLRUCache.constructor | cachetools_ext/fs.py:13-49 | the cache opens over the existing files with the expired ones removed |
| FSCache.FSLRUCache.DeleteExpiredEntries | cachetools_ext/fs.py:141-160 | the directory becomes its sweep |
| FSCache.FSLRUCache.Get | cachetools_ext/fs.py:57-68 | sweep; a present file yields its value and, under the access-time policy, a new access time; a missing one raises `KeyError(key)` |
| FSCache.FSLRUCache.Set | cachetools_ext/fs.py:70-84 | `ValueError` when `maxsize < 1`; otherwise a run of `popitem` calls, each removing the file of the key derived from a least recently accessed readable path; on success the swept directory is cut to `min(len, maxsize - 1)` files and the key's file written; "Cache is empty" only once at least `maxsize` files remain and none is readable; with room nothing is evicted |
| FSCache.FSLRUCache.EvictUntilFits | cachetools_ext/fs.py:79-81 | the loop ends with `min(len, maxsize - 1)` files after evictions in least-recently-accessed order, or with "Cache is empty" when at least `maxsize` files remain and none is readable |
| FSCache.FSLRUCache.Delete | cachetools_ext/fs.py:86-92 | removes the key's file if present and never raises |
| FSCache.FSLRUCache.Contains | cachetools_ext/fs.py:94-100 | sweep; true iff the key's file exists |
| FSCache.FSLRUCache.Len | cachetools_ext/fs.py:102-104 | sweep; the number of files |
| FSCache.FSLRUCache.Iter | cachetools_ext/fs.py:106-109 | sweep; one derived key per listed file, in listing order |
| FSCache.FSLRUCache.Keys | cachetools_ext/fs.py:120-122 | the keys of `__iter__` |
| FSCache.FSLRUCache.Pop | cachetools_ext/fs.py:136 | `get` then `delete`: a present key is returned with its value and its file removed; a missing one raises `KeyError` |
| FSCache.FSLRUCache.PopFirstReadable | cachetools_ext/fs.py:133-139 | pops the key of the first path of the given order that yields a present key, with every earlier path unreadable; otherwise raises "Cache is empty" with every path unreadable |
| FSCache.FSLRUCache.Popitem | cachetools_ext/fs.py:128-139 | pops the key of a readable path with no readable path accessed earlier; raises "Cache is empty" exactly when no listed path is readable |
| FSCache.FSLRUCache.Items | cachetools_ext/fs.py:111-118 | sweep, list, then fetch each derived key with `get` and skip a `KeyError` |
| FSCache.FSLRUCache.GetEach | cachetools_ext/fs.py:113-118 | fetching each key in turn with `get`, skipping a `KeyError`, is `Fetch` of the keys |
| FSCache.FSLRUCache.Values | cachetools_ext/fs.py:124-126 | the values of `items()` |
| FSCache.WriteTwoReadFirst | test/test_fs.py:52-58 | writing `hello` at 1 and `foo` at 2, then reading `hello` at 3, leaves both files with `hello` accessed last |
| FSCache.PopsFoo | test/test_fs.py:60-61 | with `hello` accessed at 3 and `foo` at 2, both readable, `popitem` can only return `("foo", "bar")` |
| FSCache.ScenarioKeysRoundTrip | test/test_fs.py:52-61 | the keys `hello` and `foo` are listed back from their files |
| FSCache.LastAccessScenario | test/test_fs.py:52-61 | after writing `hello` then `foo` and reading `hello`, `popitem` returns `("foo", "bar")` |
| FSCache.WriteNew | cachetools_ext/fs.py:70-84 | writing a new key into a cache with room and no ttl creates its file at `now` and changes nothing else |
| FSCache.TestKeysQualify | test/test_fs.py:100-104 | the keys `a` to `d` are distinct, and `a` is listed back from its file |
| FSCache.WriteThreeFiles | test/test_fs.py:98-103 | writing three distinct keys into a new cache of size 3 creates their three files, stamped at their write times |
| FSCache.StrictlyOldestFileEvicted | cachetools_ext/fs.py:128-139 | when a readable file was accessed strictly before all others, a run of evictions that removes one file removes that one |
| FSCache.EvictionOfThreeFiles | cachetools_ext/fs.py:79-81 | over files accessed at 1, 2, 3 with the first readable, evicting one file removes the first, and evicting none leaves it readable |
| FSCache.FourthWriteEvictsFirst | cachetools_ext/fs.py:79-84 | of the outcomes `__setitem__` allows there, only evicting the first file and writing the new one remains |
| FSCache.FourthWriteOverThree | cachetools_ext/fs.py:70-84 | writing a fourth file over files accessed at 1, 2, 3 evicts the first and writes the fourth |
| FSCache.FileMaxsizeScenario | test/test_fs.py:98-109 | writing `d` into a full cache of three leaves three entries, holding the values 2, 3 and 4, on either access-time policy |
| FSCache.TestMaxsize | test/test_fs.py:98-109 | with the keys `a` to `d`: three entries before the fourth write and three after, holding the values 2, 3 and 4 |
| S3Store.GetAllKeys | cachetools_ext/s3.py:54-78 | the loop yields the first page, then the pages requested after the first page's last entry, and stops at the first non-truncated page |
| S3Store.LaterPagesExtend | cachetools_ext/s3.py:68-78 | the requests after the first only append to what was yielded, and end at a final page or when the bound is exhausted |
| S3Store.ListingStartsWithFirstPage | cachetools_ext/s3.py:54-78 | the listing starts with the first page; it raises `IndexError` exactly when the first page is truncated and empty |
| S3Store.NoContentsEndsListing | cachetools_ext/s3.py:60-61 | a first response without `Contents` ends the listing with nothing yielded |
| S3Store.TruncatedLaterPageRepeats | cachetools_ext/s3.py:73-76 | when the response to the fixed cursor is truncated, every later request yields the same page and the listing never ends |
| S3Store.CompleteListing | cachetools_ext/s3.py:68-78 | a listing completes iff the first page is final, or the one page after it is; it is then the first page, or the first page followed by that one; a truncated empty first page raises `IndexError` |
| S3Store.PrefixInjective | cachetools_ext/s3.py:27 | distinct keys address distinct objects under the same prefix |
| S3Store.S3Cache.constructor | cachetools_ext/s3.py:9-22 | stores `maxsize`, the prefix and the client |
| S3Store.S3Cache.Get | cachetools_ext/s3.py:24-36 | returns the object `keyPrefix + key`, or raises `KeyError(key)` when it cannot be fetched |
| S3Store.S3Cache.Set | cachetools_ext/s3.py:38-42 | stores the object `keyPrefix + key` and nothing else; nothing is evicted |
| S3Store.S3Cache.Delete | cachetools_ext/s3.py:44-45 | removes the object `keyPrefix + key` if present, never raising |
| S3Store.S3Cache.Contains | cachetools_ext/s3.py:24-36 | true iff `get` does not raise, i.e. the object exists |
| S3Store.S3Cache.Iter | cachetools_ext/s3.py:50-51 | the entries `get_all_keys` yields for the prefix |
| S3Store.S3Cache.Len | cachetools_ext/s3.py:47-48 | the number of entries iteration yields; an error of the iteration propagates |
| S3Store.OverwriteKeepsListing | cachetools_ext/s3.py:38-48 | overwriting an object keeps the stored keys, so the listing and the length are unchanged |
| S3Store.EmptyBucketLength | test/test_s3.py:28 | a client that lists an empty bucket without `Contents`, or as one final empty page, gives an empty cache length 0 |
| S3Store.SetThenGet | test/test_s3.py:13-18 | after `set`, `get` of the key returns the value and other keys are unaffected |

## Left out

- SQLite plumbing: the connection, cursors, `commit`, the WAL and busy-timeout pragmas, dropping and creating the table. The table is a map.
- Filesystem calls: `mkdir`, `rmtree`, `glob`, `os.stat`, `read_bytes`, `write_bytes`, `unlink`. The directory is a map, and how the operating system moves access and change times is fixed by the rules in `fs.dfy`.
- Keys containing `/` in the filesystem cache: every map entry is a file named `key.pkl`, taken as a plain string. `self.path / f"{key}.pkl"` goes through pathlib, which the model does not follow for such keys. It collapses `.` segments and repeated slashes, so `x` and `./x`, or `a//b` and `a/b`, share a file. A key starting with `/` replaces the cache directory, so its file lies outside the cache. A key naming a missing subdirectory makes `write_bytes` raise `FileNotFoundError`, where FSCache.FSLRUCache.Set succeeds.
- The debug `print` in the filesystem sweep.
- `pickle`: values are stored as they are, so a value that cannot be pickled or unpickled is not modelled.
- The boto3 client: the bucket is a map, and `list_objects_v2` is an oracle that depends only on the stored object keys, the prefix and the cursor. Failures other than a missing object are not modelled.
- Float TTLs and float timestamps: time is an integer in the unit of `ttl` for the filesystem cache, and in milliseconds for SQLite.
- Constructor type checks, default paths, `clear_on_start` and the `bucket` name: a cache is opened over a given map.
- Concurrency between processes: each operation is atomic. The skip-on-miss of `items()` therefore only arises, in the filesystem cache, from keys that do not lead back to a file.
- Generator laziness: `__iter__`, `items()`, `keys()` and `values()` return their whole output at once, and an entry deleted between two yields is not modelled.
- S3Store.GetAllKeys: the number of requests after the first is bounded by `fuel`, and running out of it is reported as an error. The source loops without bound.
- SQLiteCache.SQLiteLRUCache.Popitem: ties between rows with the same `last_accessed_at` are resolved by an unspecified choice, as SQLite's storage order is not modelled.
- FSCache.FSLRUCache.Set: each eviction is stated through the path `popitem` picks and the key derived from it, not through the file names of the keys. Ties between files with the same access time are an unspecified choice.
- One clock per operation: every call takes a single `now`, and the sweeps an operation runs inside itself (in `len()`, `pop` and `get`) all use it. In the source the clock can move between them. So a victim that `__setitem__` selected can expire before the `pop` inside `popitem` sweeps, and `KeyError(victim)` escapes `__setitem__` (sqlite.py:87-98, 70-85). That is why SQLiteCache.SQLiteLRUCache.Set can promise success for every `maxsize >= 1`. The same holds for the `popitem` calls inside FSCache.FSLRUCache.Set, and for `items()` yielding every swept key in both caches.
- S3Store.S3Cache.Get: a client or deserialisation failure on an existing object is not modelled; only a missing object raises `KeyError`.
