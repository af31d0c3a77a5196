/** `S3Cache`: a cache kept as objects of an S3 bucket, each cache key `k`
    stored under the object key `keyPrefix + k`, with no eviction.

    The bucket is a map from object key to the stored value. The client's
    `list_objects_v2` is an oracle: given the object keys the bucket holds,
    the listing prefix and the `StartAfter` cursor, it returns one response.
    Nothing is assumed about how the oracle pages the bucket. */
module S3Store {
  import opened Common

  /** An entry of a listing's `Contents`: the object's description as the
      client returns it, which carries the object key. */
  datatype ObjectSummary = ObjectSummary(key: string)

  /** The `StartAfter` argument: the empty string of the first request, or
      the listing entry that later requests pass. */
  datatype StartAfter = FromStart | After(entry: ObjectSummary)

  /** A `list_objects_v2` response: without a `Contents` field, or with its
      entries and its `IsTruncated` flag. */
  datatype ListResponse = NoContents | Listing(contents: seq<ObjectSummary>, isTruncated: bool)

  /** `list_objects_v2` as a function of the stored object keys, the prefix
      and the cursor. */
  type Lister = (set<string>, string, StartAfter) -> ListResponse

  /** What `get_all_keys` yields, and the error that ends it early, if any. */
  datatype Listed = Listed(entries: seq<ObjectSummary>, error: Option<Error>)

  /** The inner `page`: one request; a response without `Contents` is an
      empty page with no next page. */
  function Page(list: Lister, bucket: set<string>, prefix: string, cursor: StartAfter): (seq<ObjectSummary>, bool)
  {
    match list(bucket, prefix, cursor)
    case NoContents => ([], false)
    case Listing(contents, isTruncated) => (contents, isTruncated)
  }

  /** The requests after the first: each one is sent with the same `cursor`,
      and their entries are appended to `acc`; `fuel` bounds how many are
      sent. */
  function LaterPages(list: Lister, bucket: set<string>, prefix: string, acc: seq<ObjectSummary>, cursor: StartAfter, fuel: nat): Listed
    decreases fuel
  {
    if fuel == 0 then Listed(acc, Some(OutOfFuel))
    else
      var (page, more) := Page(list, bucket, prefix, cursor);
      if more then LaterPages(list, bucket, prefix, acc + page, cursor, fuel - 1)
      else Listed(acc + page, None)
  }

  /** `get_all_keys`: the first page from `StartAfter=""`; while the last
      response was truncated, the next page from after the last entry of
      the FIRST page (`keys` is never reassigned). A truncated but empty
      first page makes `keys[-1]` raise `IndexError`. */
  function AllKeys(list: Lister, bucket: set<string>, prefix: string, fuel: nat): Listed
  {
    var (first, more) := Page(list, bucket, prefix, FromStart);
    if !more then Listed(first, None)
    else if first == [] then Listed(first, Some(IndexError))
    else LaterPages(list, bucket, prefix, first, After(first[|first| - 1]), fuel)
  }

  /** The loop of `get_all_keys`, with at most `fuel` requests after the
      first. */
  method GetAllKeys(list: Lister, bucket: set<string>, prefix: string, fuel: nat) returns (r: Listed)
    ensures r == AllKeys(list, bucket, prefix, fuel)
  {
    var first := Page(list, bucket, prefix, FromStart);
    var keys, hasNextPage := first.0, first.1;
    var entries := keys;
    if hasNextPage && keys == [] {
      return Listed(entries, Some(IndexError));
    }
    var left := fuel;
    while hasNextPage
      invariant hasNextPage ==>
        && keys != []
        && AllKeys(list, bucket, prefix, fuel) == LaterPages(list, bucket, prefix, entries, After(keys[|keys| - 1]), left)
      invariant !hasNextPage ==> AllKeys(list, bucket, prefix, fuel) == Listed(entries, None)
      decreases left
    {
      if left == 0 {
        return Listed(entries, Some(OutOfFuel));
      }
      var next := Page(list, bucket, prefix, After(keys[|keys| - 1]));
      entries := entries + next.0;
      hasNextPage := next.1;
      left := left - 1;
    }
    r := Listed(entries, None);
  }

  /** The later requests only append to what was yielded before them, and
      they end either at a page that is not truncated or when the bound on
      the requests is exhausted. */
  lemma {:induction false} LaterPagesExtend(list: Lister, bucket: set<string>, prefix: string, acc: seq<ObjectSummary>, cursor: StartAfter, fuel: nat)
    ensures var r := LaterPages(list, bucket, prefix, acc, cursor, fuel);
      && |acc| <= |r.entries| && r.entries[..|acc|] == acc
      && (r.error == None || r.error == Some(OutOfFuel))
    decreases fuel
  {
    if fuel > 0 {
      var page := Page(list, bucket, prefix, cursor);
      if page.1 {
        LaterPagesExtend(list, bucket, prefix, acc + page.0, cursor, fuel - 1);
        var r := LaterPages(list, bucket, prefix, acc + page.0, cursor, fuel - 1);
        assert r.entries[..|acc|] == (r.entries[..|acc + page.0|])[..|acc|];
      } else {
        assert (acc + page.0)[..|acc|] == acc;
      }
    }
  }

  /** `get_all_keys` always yields the first page first; it raises
      `IndexError` exactly when the first page is truncated and empty, and
      otherwise either completes or exhausts the bound on the requests. */
  lemma ListingStartsWithFirstPage(list: Lister, bucket: set<string>, prefix: string, fuel: nat)
    ensures var first := Page(list, bucket, prefix, FromStart);
      var r := AllKeys(list, bucket, prefix, fuel);
      && |first.0| <= |r.entries| && r.entries[..|first.0|] == first.0
      && (r.error == Some(IndexError) <==> first.1 && first.0 == [])
      && (r.error == None || r.error == Some(IndexError) || r.error == Some(OutOfFuel))
  {
    var first := Page(list, bucket, prefix, FromStart);
    if first.1 && first.0 != [] {
      LaterPagesExtend(list, bucket, prefix, first.0, After(first.0[|first.0| - 1]), fuel);
    } else {
      assert first.0[..|first.0|] == first.0;
    }
  }

  /** A response without `Contents` to the first request ends the listing
      with nothing yielded. */
  lemma NoContentsEndsListing(list: Lister, bucket: set<string>, prefix: string, fuel: nat)
    requires list(bucket, prefix, FromStart) == NoContents
    ensures AllKeys(list, bucket, prefix, fuel) == Listed([], None)
  {
  }

  /** The later requests all carry the same cursor, so if the response to
      it is truncated the listing never ends: every request repeats the
      same page, and any bound on the requests is exhausted. */
  lemma {:induction false} TruncatedLaterPageRepeats(list: Lister, bucket: set<string>, prefix: string, acc: seq<ObjectSummary>, cursor: StartAfter, fuel: nat)
    requires list(bucket, prefix, cursor).Listing? && list(bucket, prefix, cursor).isTruncated
    ensures var r := LaterPages(list, bucket, prefix, acc, cursor, fuel);
      && r.error == Some(OutOfFuel)
      && |r.entries| == |acc| + fuel * |list(bucket, prefix, cursor).contents|
      && r.entries[..|acc|] == acc
    decreases fuel
  {
    if fuel > 0 {
      var page := list(bucket, prefix, cursor).contents;
      TruncatedLaterPageRepeats(list, bucket, prefix, acc + page, cursor, fuel - 1);
      var r := LaterPages(list, bucket, prefix, acc + page, cursor, fuel - 1);
      assert r.entries[..|acc|] == (r.entries[..|acc + page|])[..|acc|];
    }
  }

  /** A listing that completes is either the first page alone, when it is
      not truncated, or the first page followed by the one page requested
      after it, when that one is not truncated; no other listing
      completes. */
  lemma {:induction false} CompleteListing(list: Lister, bucket: set<string>, prefix: string, fuel: nat)
    ensures var first := Page(list, bucket, prefix, FromStart);
      var r := AllKeys(list, bucket, prefix, fuel);
      if !first.1 then r == Listed(first.0, None)
      else if first.0 == [] then r.error == Some(IndexError)
      else
        var second := Page(list, bucket, prefix, After(first.0[|first.0| - 1]));
        (r.error == None <==> fuel > 0 && !second.1) &&
        (r.error == None ==> r.entries == first.0 + second.0)
  {
    var first := Page(list, bucket, prefix, FromStart);
    if first.1 && first.0 != [] {
      var cursor := After(first.0[|first.0| - 1]);
      var second := Page(list, bucket, prefix, cursor);
      if fuel > 0 && second.1 {
        TruncatedLaterPageRepeats(list, bucket, prefix, first.0 + second.0, cursor, fuel - 1);
      }
    }
  }

  /** Prefixing is injective: distinct cache keys name distinct objects. */
  lemma PrefixInjective(prefix: string, k1: string, k2: string)
    ensures prefix + k1 == prefix + k2 <==> k1 == k2
  {
    if prefix + k1 == prefix + k2 {
      assert k1 == (prefix + k1)[|prefix|..];
      assert k2 == (prefix + k2)[|prefix|..];
    }
  }

  class S3Cache<V> {
    /** The bucket: object key to stored value. */
    var objects: map<string, V>
    /** Stored by the constructor and never consulted. */
    const maxsize: int
    const keyPrefix: string
    /** The client's `list_objects_v2`. */
    const list: Lister

    constructor (maxsize: int, keyPrefix: string, list: Lister, objects: map<string, V>)
      ensures this.maxsize == maxsize && this.keyPrefix == keyPrefix && this.list == list
      ensures this.objects == objects
    {
      this.maxsize := maxsize;
      this.keyPrefix := keyPrefix;
      this.list := list;
      this.objects := objects;
    }

    /** `__getitem__`: fetch the object `keyPrefix + key`; a failed fetch
        raises `KeyError(key)`. Nothing changes. */
    method Get(key: Key) returns (r: Result<V>)
      ensures keyPrefix + key in objects ==> r == Ok(objects[keyPrefix + key])
      ensures keyPrefix + key !in objects ==> r == Err(KeyError(key))
    {
      if keyPrefix + key in objects {
        r := Ok(objects[keyPrefix + key]);
      } else {
        r := Err(KeyError(key));
      }
    }

    /** `__setitem__`: store the object `keyPrefix + key`; no eviction. */
    method Set(key: Key, value: V)
      modifies this
      ensures objects == old(objects)[keyPrefix + key := value]
    {
      objects := objects[keyPrefix + key := value];
    }

    /** `__delitem__`: delete the object `keyPrefix + key`; deleting an
        absent object is no error. */
    method Delete(key: Key)
      modifies this
      ensures objects == old(objects) - {keyPrefix + key}
    {
      objects := objects - {keyPrefix + key};
    }

    /** `__contains__` of `MutableMapping`: `__getitem__`, with `KeyError`
        read as absent. */
    method Contains(key: Key) returns (b: bool)
      ensures b <==> keyPrefix + key in objects
    {
      var got := Get(key);
      b := got.Ok?;
    }

    /** `__iter__`: the entries `get_all_keys` yields for the prefix. */
    method Iter(fuel: nat) returns (r: Listed)
      ensures r == AllKeys(list, objects.Keys, keyPrefix, fuel)
    {
      r := GetAllKeys(list, objects.Keys, keyPrefix, fuel);
    }

    /** `__len__`: the number of entries iteration yields; an error that
        ends the iteration propagates. */
    method Len(fuel: nat) returns (r: Result<nat>)
      ensures var listed := AllKeys(list, objects.Keys, keyPrefix, fuel);
        r == if listed.error.None? then Ok(|listed.entries|) else Err(listed.error.value)
    {
      var listed := Iter(fuel);
      var n := 0;
      var i := 0;
      while i < |listed.entries|
        invariant 0 <= i <= |listed.entries| && n == i
      {
        n := n + 1;
        i := i + 1;
      }
      if listed.error.Some? {
        return Err(listed.error.value);
      }
      r := Ok(n);
    }
  }

  /** Overwriting an object keeps the stored keys, so the listing, and the
      length, are those of before. */
  lemma OverwriteKeepsListing<V>(objects: map<string, V>, k: string, v: V, list: Lister, prefix: string, fuel: nat)
    requires k in objects
    ensures AllKeys(list, objects[k := v].Keys, prefix, fuel) == AllKeys(list, objects.Keys, prefix, fuel)
  {
    assert objects[k := v].Keys == objects.Keys;
  }

  /** With a client that answers an empty bucket without `Contents`, or with
      an empty final page, an empty cache has length 0. */
  lemma EmptyBucketLength(list: Lister, prefix: string, fuel: nat)
    requires list({}, prefix, FromStart) in {NoContents, Listing([], false)}
    ensures AllKeys(list, {}, prefix, fuel) == Listed([], None)
  {
  }

  /** Storing a value and reading it back, with no other operation in
      between, yields that value; other cache keys are unaffected. */
  method SetThenGet<V>(c: S3Cache<V>, key: Key, value: V, other: Key) returns (r: Result<V>, r2: Result<V>)
    modifies c
    ensures r == Ok(value)
    ensures other != key ==> r2 == old(if c.keyPrefix + other in c.objects then Ok(c.objects[c.keyPrefix + other]) else Err(KeyError(other)))
  {
    c.Set(key, value);
    r := c.Get(key);
    PrefixInjective(c.keyPrefix, key, other);
    r2 := c.Get(other);
  }
}
