/** The file names of `FSLRUCache`: a key `k` is stored in the file `k.pkl`
    of the cache directory, and a listed file is mapped back to a key by
    taking its name and applying `str.strip(".pkl")`.

    `str.strip(chars)` removes every leading and every trailing character
    that belongs to the SET `chars`; it does not remove a suffix. So the
    mapping back recovers the key only when the key contains no `/` and
    neither starts nor ends with one of `.`, `p`, `k`, `l`. */
module FsPaths {

  /** A path relative to the cache directory. */
  type Path = string

  /** The characters of the argument `".pkl"` to `str.strip`. */
  predicate IsStripChar(c: char)
  {
    c == '.' || c == 'p' || c == 'k' || c == 'l'
  }

  /** `key_to_path`: the key followed by the `.pkl` extension. */
  function KeyToPath(key: string): Path
  {
    key + ".pkl"
  }

  /** `Path.name`: what follows the last `/`. */
  function Name(path: Path): string
    decreases |path|
  {
    if path == [] then []
    else if path[|path| - 1] == '/' then []
    else Name(path[..|path| - 1]) + [path[|path| - 1]]
  }

  /** The leading half of `str.strip`. */
  function LStrip(s: string): string
    decreases |s|
  {
    if s != [] && IsStripChar(s[0]) then LStrip(s[1..]) else s
  }

  /** The trailing half of `str.strip`. */
  function RStrip(s: string): string
    decreases |s|
  {
    if s != [] && IsStripChar(s[|s| - 1]) then RStrip(s[..|s| - 1]) else s
  }

  /** `str.strip(".pkl")`. */
  function Strip(s: string): string
  {
    RStrip(LStrip(s))
  }

  /** `path_to_key`. */
  function PathToKey(path: Path): string
  {
    Strip(Name(path))
  }

  /** Distinct keys are stored in distinct files. */
  lemma KeyToPathInjective(k1: string, k2: string)
    ensures KeyToPath(k1) == KeyToPath(k2) <==> k1 == k2
  {
    if KeyToPath(k1) == KeyToPath(k2) {
      assert |k1| == |k2|;
      assert k1 == KeyToPath(k1)[..|k1|];
    }
  }

  /** The keys that `path_to_key` recovers from their own file. */
  predicate RoundTrips(key: string)
  {
    '/' !in key && (key != [] ==> !IsStripChar(key[0]) && !IsStripChar(key[|key| - 1]))
  }

  /** A name is a `/`-free suffix of its path, and a path without `/` is
      its own name. */
  lemma {:induction false} NameIsSuffix(path: Path)
    ensures |Name(path)| <= |path| && Name(path) == path[|path| - |Name(path)|..]
    ensures '/' !in Name(path)
    ensures '/' !in path ==> Name(path) == path
    decreases |path|
  {
    if path != [] && path[|path| - 1] != '/' {
      var init := path[..|path| - 1];
      NameIsSuffix(init);
      assert path == init + [path[|path| - 1]];
    }
  }

  /** The leading strip leaves a suffix of its input that is empty or does
      not start with a stripped character. */
  lemma {:induction false} LStripIsSuffix(s: string)
    ensures |LStrip(s)| <= |s| && LStrip(s) == s[|s| - |LStrip(s)|..]
    ensures LStrip(s) == [] || !IsStripChar(LStrip(s)[0])
    decreases |s|
  {
    if s != [] && IsStripChar(s[0]) {
      LStripIsSuffix(s[1..]);
    }
  }

  /** The trailing strip leaves a prefix of its input that is empty or does
      not end with a stripped character. */
  lemma {:induction false} RStripIsPrefix(s: string)
    ensures |RStrip(s)| <= |s| && RStrip(s) == s[..|RStrip(s)|]
    ensures RStrip(s) == [] || !IsStripChar(RStrip(s)[|RStrip(s)| - 1])
    decreases |s|
  {
    if s != [] && IsStripChar(s[|s| - 1]) {
      RStripIsPrefix(s[..|s| - 1]);
    }
  }

  /** What `str.strip(".pkl")` leaves is empty or neither starts nor ends
      with a stripped character. */
  lemma StripEnds(s: string)
    ensures Strip(s) == [] || (!IsStripChar(Strip(s)[0]) && !IsStripChar(Strip(s)[|Strip(s)| - 1]))
  {
    var l := LStrip(s);
    LStripIsSuffix(s);
    RStripIsPrefix(l);
    var r := RStrip(l);
    if r != [] {
      assert r[0] == l[0];
    }
  }

  /** The leading strip removes exactly the longest prefix of stripped
      characters. */
  lemma {:induction false} LStripSpec(s: string) returns (i: nat)
    ensures i <= |s| && LStrip(s) == s[i..]
    ensures forall k :: 0 <= k < i ==> IsStripChar(s[k])
    ensures i < |s| ==> !IsStripChar(s[i])
    decreases |s|
  {
    if s != [] && IsStripChar(s[0]) {
      var i1 := LStripSpec(s[1..]);
      i := i1 + 1;
      assert s[1..][i1..] == s[i..];
      forall k | 0 <= k < i ensures IsStripChar(s[k]) {
        if k > 0 {
          assert s[k] == s[1..][k - 1];
        }
      }
    } else {
      i := 0;
    }
  }

  /** The trailing strip removes exactly the longest suffix of stripped
      characters. */
  lemma {:induction false} RStripSpec(s: string) returns (j: nat)
    ensures j <= |s| && RStrip(s) == s[..j]
    ensures forall k :: j <= k < |s| ==> IsStripChar(s[k])
    ensures 0 < j ==> !IsStripChar(s[j - 1])
    decreases |s|
  {
    if s != [] && IsStripChar(s[|s| - 1]) {
      var init := s[..|s| - 1];
      j := RStripSpec(init);
      assert init[..j] == s[..j];
      forall k | j <= k < |s| ensures IsStripChar(s[k]) {
        if k < |s| - 1 {
          assert s[k] == init[k];
        }
      }
    } else {
      j := |s|;
      assert s[..j] == s;
    }
  }

  /** `str.strip(".pkl")` keeps the stretch `s[i..j]` of its input between
      the longest prefix and the longest suffix made of the characters `.`,
      `p`, `k`, `l`; when every character is one of them, nothing is kept. */
  lemma StripSpec(s: string) returns (i: nat, j: nat)
    ensures i <= j <= |s| && Strip(s) == s[i..j]
    ensures forall k :: 0 <= k < i ==> IsStripChar(s[k])
    ensures forall k :: j <= k < |s| ==> IsStripChar(s[k])
    ensures i < j ==> !IsStripChar(s[i]) && !IsStripChar(s[j - 1])
  {
    i := LStripSpec(s);
    var l := s[i..];
    var j1 := RStripSpec(l);
    j := i + j1;
    assert l[..j1] == s[i..j];
    forall k | j <= k < |s| ensures IsStripChar(s[k]) {
      assert s[k] == l[k - i];
    }
    if i < j {
      assert s[i] == l[0] && s[j - 1] == l[j1 - 1];
    }
  }

  /** Every key `path_to_key` derives round-trips: it is stored in a file
      that `path_to_key` maps back to the same key. */
  lemma DerivedKeyRoundTrips(path: Path)
    ensures RoundTrips(PathToKey(path))
    ensures PathToKey(KeyToPath(PathToKey(path))) == PathToKey(path)
  {
    var n := Name(path);
    NameIsSuffix(path);
    var i, j := StripSpec(n);
    StripEnds(n);
    var k := PathToKey(path);
    assert '/' !in k by {
      forall m | 0 <= m < |k| ensures k[m] != '/' {
        assert k[m] == n[i + m];
      }
    }
    RoundTrip(k);
  }

  /** The `.pkl` extension contains no `/`, so the name of a key's file is
      the name of the key followed by `.pkl`. */
  lemma NameOfKeyPath(key: string)
    ensures Name(KeyToPath(key)) == Name(key) + ".pkl"
  {
    var p0, p1, p2, p3 := key + ".", key + ".p", key + ".pk", key + ".pkl";
    assert p3[..|p3| - 1] == p2 && p2[..|p2| - 1] == p1 && p1[..|p1| - 1] == p0 && p0[..|p0| - 1] == key;
    assert Name(p0) == Name(key) + ".";
    assert Name(p1) == Name(p0) + "p";
    assert Name(p2) == Name(p1) + "k";
    assert Name(p3) == Name(p2) + "l";
  }

  /** A trailing stripped character goes. */
  lemma RStripStep(s: string, c: char)
    requires IsStripChar(c)
    ensures RStrip(s + [c]) == RStrip(s)
  {
    assert (s + [c])[..|s|] == s;
  }

  /** A leading stripped character goes. */
  lemma LStripStep(c: char, s: string)
    requires IsStripChar(c)
    ensures LStrip([c] + s) == LStrip(s)
  {
    assert ([c] + s)[1..] == s;
  }

  /** The trailing strip removes the whole `.pkl` extension. */
  lemma RStripKeyPath(key: string)
    ensures RStrip(key + ".pkl") == RStrip(key)
  {
    var p0, p1, p2 := key + ".", key + ".p", key + ".pk";
    assert p0 == key + ['.'] && p1 == p0 + ['p'] && p2 == p1 + ['k'] && key + ".pkl" == p2 + ['l'];
    RStripStep(p2, 'l');
    RStripStep(p1, 'k');
    RStripStep(p0, 'p');
    RStripStep(key, '.');
  }

  /** A path that contains a `/` is longer than its name. */
  lemma {:induction false} NameShorter(path: Path)
    requires '/' in path
    ensures |Name(path)| < |path|
    decreases |path|
  {
    if path[|path| - 1] != '/' {
      var init := path[..|path| - 1];
      var i :| 0 <= i < |path| && path[i] == '/';
      assert init[i] == '/';
      NameShorter(init);
    }
  }

  /** A name ending in `.pkl` loses at least the extension to the strip:
      what remains is never longer than the part before `.pkl`. */
  lemma StripDropsExtension(n: string)
    ensures |Strip(n + ".pkl")| <= |n|
  {
    var s := n + ".pkl";
    var l := LStrip(s);
    var r := RStrip(l);
    LStripIsSuffix(s);
    RStripIsPrefix(l);
    if r != [] {
      // the last kept character is not stripped, so it lies before the extension
      var at := |s| - |l| + |r| - 1;
      assert r[|r| - 1] == l[|r| - 1] == s[at];
      assert forall i :: |n| <= i < |s| ==> IsStripChar(s[i]);
      assert at < |n|;
    }
  }

  /** The round trip `path_to_key(key_to_path(key)) == key` holds exactly
      for the keys that contain no `/` and neither start nor end with one of
      the characters `.`, `p`, `k`, `l`. */
  lemma {:induction false} RoundTrip(key: string)
    ensures PathToKey(KeyToPath(key)) == key <==> RoundTrips(key)
  {
    NameOfKeyPath(key);
    NameIsSuffix(key);
    var n := Name(key);
    if RoundTrips(key) {
      assert n == key;
      if key == [] {
        assert ".pkl" == ['.'] + "pkl" && "pkl" == ['p'] + "kl" && "kl" == ['k'] + "l" && "l" == ['l'] + "";
        LStripStep('.', "pkl");
        LStripStep('p', "kl");
        LStripStep('k', "l");
        LStripStep('l', "");
        assert KeyToPath(key) == ".pkl" && Name(".pkl") == ".pkl";
        assert LStrip(".pkl") == "";
        assert Strip(".pkl") == RStrip("") == "";
      } else {
        assert (key + ".pkl")[0] == key[0];
        assert LStrip(key + ".pkl") == key + ".pkl";
        RStripKeyPath(key);
        assert RStrip(key) == key;
      }
    } else {
      StripDropsExtension(n);
      StripEnds(n + ".pkl");
      if '/' in key {
        NameShorter(key);
      }
    }
  }

  /** Trailing stripped characters are dropped. */
  lemma {:induction false} RStripDropsStripChars(s: string, u: string)
    requires forall i :: 0 <= i < |u| ==> IsStripChar(u[i])
    ensures RStrip(s + u) == RStrip(s)
    decreases |u|
  {
    if u != [] {
      var init := u[..|u| - 1];
      assert s + u == (s + init) + [u[|u| - 1]];
      RStripStep(s + init, u[|u| - 1]);
      RStripDropsStripChars(s, init);
    } else {
      assert s + u == s;
    }
  }

  /** For a key without `/` that does not start with a stripped character,
      `path_to_key` undoes `key_to_path` up to the trailing strip. */
  lemma ListedKeyOf(key: string)
    requires '/' !in key && key != [] && !IsStripChar(key[0])
    ensures PathToKey(KeyToPath(key)) == RStrip(key)
  {
    NameOfKeyPath(key);
    NameIsSuffix(key);
    var p := key + ".pkl";
    assert p[0] == key[0];
    assert LStrip(p) == p;
    RStripKeyPath(key);
  }

  /** A key that ends in stripped characters is listed back without them:
      the file of `k + t` yields `k` when `k` itself round-trips. For
      example the key `"help"` is listed back as `"he"`. */
  lemma {:induction false} TrailingStripCharsLost(k: string, t: string)
    requires RoundTrips(k) && k != []
    requires forall i :: 0 <= i < |t| ==> IsStripChar(t[i])
    ensures PathToKey(KeyToPath(k + t)) == k
  {
    var key := k + t;
    forall i | 0 <= i < |key| ensures key[i] != '/' {
      if i < |k| {
        assert key[i] == k[i];
      } else {
        assert key[i] == t[i - |k|];
      }
    }
    assert key[0] == k[0];
    ListedKeyOf(key);
    RStripDropsStripChars(k, t);
    assert RStrip(k) == k;
  }

  /** `"help"` is stored in `help.pkl`, which is listed back as the key `"he"`. */
  lemma HelpListsAsHe()
    ensures PathToKey(KeyToPath("help")) == "he"
  {
    assert "he" + "lp" == "help";
    TrailingStripCharsLost("he", "lp");
  }
}
