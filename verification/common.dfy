/** Shared vocabulary of the three cache backends: keys, the errors a cache
    operation raises, result wrappers, and enumeration of a finite key set
    (the order in which a backend lists its entries is not specified). */
module Common {

  /** Cache keys are strings in all three backends. */
  type Key = string

  /** The exceptions the cache operations raise. */
  datatype Error =
    | KeyError(key: Key)   // `KeyError(key)` raised by `__missing__` or by a failed lookup
    | CacheEmpty           // `KeyError("... is empty")` raised by `popitem`
    | ValueTooLarge        // `ValueError("value too large")` raised by `__setitem__`
    | IndexError           // `keys[-1]` on an empty first listing page
    | OutOfFuel            // the listing loop did not finish within the given bound

  datatype Option<T> = None | Some(value: T)

  datatype Result<T> = Ok(value: T) | Err(error: Error)

  /** The outcome of an operation that returns nothing on success. */
  datatype Outcome = Pass | Fail(error: Error)

  predicate Distinct<T(==)>(xs: seq<T>)
  {
    forall i, j :: 0 <= i < j < |xs| ==> xs[i] != xs[j]
  }

  /** The keys of a sequence of `(key, value)` pairs, in order. */
  function KeysOf<V>(pairs: seq<(Key, V)>): seq<Key>
  {
    seq(|pairs|, i requires 0 <= i < |pairs| => pairs[i].0)
  }

  /** The values of a sequence of `(key, value)` pairs, in order. */
  function ValuesOf<V>(pairs: seq<(Key, V)>): seq<V>
  {
    seq(|pairs|, i requires 0 <= i < |pairs| => pairs[i].1)
  }

  function Min(a: int, b: int): int
  {
    if a <= b then a else b
  }

  /** Lists every element of `s` exactly once, in an unspecified order: the
      shape of a `select key from cache` result or of a directory listing. */
  method Enumerate<T(==)>(s: set<T>) returns (xs: seq<T>)
    ensures forall x :: x in xs <==> x in s
    ensures Distinct(xs)
    ensures |xs| == |s|
  {
    xs := [];
    var rest := s;
    while rest != {}
      invariant rest <= s
      invariant forall x :: x in xs <==> x in s && x !in rest
      invariant Distinct(xs)
      invariant |xs| + |rest| == |s|
      decreases rest
    {
      var x :| x in rest;
      xs := xs + [x];
      rest := rest - {x};
    }
  }

  /** A subset is no larger than its superset. */
  lemma {:induction false} SubsetCardinality<T>(a: set<T>, b: set<T>)
    requires a <= b
    ensures |a| <= |b|
    decreases |b|
  {
    if a != {} {
      var x :| x in a;
      SubsetCardinality(a - {x}, b - {x});
    }
  }

  /** A subset as large as its superset is the superset. */
  lemma SubsetOfEqualSize<T>(a: set<T>, b: set<T>)
    requires a <= b && |a| == |b|
    ensures a == b
  {
    if a != b {
      var x :| x in b && x !in a;
      assert |b - {x}| == |b| - 1;
      SubsetCardinality(a, b - {x});
    }
  }

  /** A subset smaller than its superset misses one of its elements. */
  lemma MissingElement<T>(a: set<T>, b: set<T>) returns (x: T)
    requires a <= b && |a| < |b|
    ensures x in b && x !in a
  {
    assert b == a + (b - a) && a * (b - a) == {};
    assert |b - a| == |b| - |a|;
    x :| x in b - a;
  }

  /** Deleting an entry, as `__delitem__` does, is idempotent, removes the
      key, and lowers the count by one exactly when the key was present. */
  lemma DeleteCount<K, V>(m: map<K, V>, k: K)
    ensures k !in m - {k}
    ensures (m - {k}) - {k} == m - {k}
    ensures |m - {k}| == if k in m then |m| - 1 else |m|
  {
    if k in m {
      assert (m - {k}).Keys == m.Keys - {k};
    } else {
      assert m - {k} == m;
    }
  }
}
