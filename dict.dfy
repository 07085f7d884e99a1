/** Python dictionary semantics as the annotator uses them: a dict built by a
    series of assignments `d[k] = v`, in which a later assignment to a key
    replaces an earlier one (this is also how a dict comprehension behaves). */
module Dict {

  /** The keys of a list of (key, value) assignments, in order. */
  function Keys<K, V>(s: seq<(K, V)>): (ks: seq<K>)
    ensures |ks| == |s|
    ensures forall i :: 0 <= i < |s| ==> ks[i] == s[i].0
  {
    seq(|s|, i requires 0 <= i < |s| => s[i].0)
  }

  /** Stated as a lemma so that callers name the split they need. */
  lemma KeysAppend<K, V>(s: seq<(K, V)>, t: seq<(K, V)>)
    ensures Keys(s + t) == Keys(s) + Keys(t)
  {
  }

  /** No value occurs twice in `s`. */
  ghost predicate Distinct<T>(s: seq<T>) {
    forall x | x in s :: multiset(s)[x] <= 1
  }

  /** The dictionary left by performing the assignments of `s` from first to last. */
  function ToMap<K, V>(s: seq<(K, V)>): (m: map<K, V>)
    ensures m.Keys == set k | k in Keys(s)
    decreases |s|
  {
    if s == [] then map[]
    else
      var init, last := s[..|s| - 1], s[|s| - 1];
      assert Keys(s) == Keys(init) + [last.0];
      ToMap(init)[last.0 := last.1]
  }

  /** One more assignment updates the dictionary at its key. */
  lemma ToMapSnoc<K, V>(s: seq<(K, V)>, k: K, v: V)
    ensures ToMap(s + [(k, v)]) == ToMap(s)[k := v]
  {
    assert (s + [(k, v)])[..|s|] == s;
  }

  /** The last assignment to a key wins: when no later assignment in `s` has
      the key of `s[j]`, the dictionary maps that key to `s[j]`'s value. */
  lemma {:induction false} ToMapLast<K, V>(s: seq<(K, V)>, j: nat)
    requires j < |s|
    requires forall j' :: j < j' < |s| ==> s[j'].0 != s[j].0
    ensures s[j].0 in ToMap(s) && ToMap(s)[s[j].0] == s[j].1
    decreases |s|
  {
    var init, last := s[..|s| - 1], s[|s| - 1];
    assert s == init + [last];
    ToMapSnoc(init, last.0, last.1);
    if j < |s| - 1 {
      assert init[j] == s[j];
      ToMapLast(init, j);
    }
  }

  lemma DistinctPrefix<T>(s: seq<T>, x: T)
    requires Distinct(s + [x])
    ensures Distinct(s) && x !in s
  {
    assert multiset(s + [x]) == multiset(s) + multiset{x};
    forall y | y in s
      ensures multiset(s)[y] <= 1
    {
      assert y in s + [x];
    }
    assert x in s + [x];
  }

  /** When no key is assigned twice, every assignment survives in the dictionary. */
  lemma {:induction false} ToMapDistinct<K, V>(s: seq<(K, V)>, k: K, v: V)
    requires Distinct(Keys(s))
    requires (k, v) in s
    ensures k in ToMap(s) && ToMap(s)[k] == v
    decreases |s|
  {
    var init, last := s[..|s| - 1], s[|s| - 1];
    assert s == init + [last];
    KeysAppend(init, [last]);
    assert Keys(s) == Keys(init) + [last.0];
    DistinctPrefix(Keys(init), last.0);
    if last.0 == k {
      forall i | 0 <= i < |init|
        ensures init[i] != (k, v)
      {
        assert Keys(init)[i] == init[i].0;
      }
    } else {
      assert (k, v) in init;
      ToMapDistinct(init, k, v);
    }
  }

  /** Rearranging a list of assignments rearranges its keys. */
  lemma {:induction false} KeysPermutation<K, V>(s: seq<(K, V)>, t: seq<(K, V)>)
    requires multiset(s) == multiset(t)
    ensures multiset(Keys(s)) == multiset(Keys(t))
    decreases |s|
  {
    if s != [] {
      var e := s[0];
      assert e in multiset(t);
      var j :| 0 <= j < |t| && t[j] == e;
      var rest := t[..j] + t[j + 1..];
      RemoveMatching(s, t, j);
      assert t == t[..j] + [e] + t[j + 1..];
      assert s == [e] + s[1..];
      KeysPermutation(s[1..], rest);
      KeysAppend([e], s[1..]);
      KeysAppend(t[..j] + [e], t[j + 1..]);
      KeysAppend(t[..j], [e]);
      KeysAppend(t[..j], t[j + 1..]);
    }
  }

  /** Taking the same element out of two rearrangements of each other leaves
      rearrangements of each other. */
  lemma RemoveMatching<T>(s: seq<T>, t: seq<T>, j: nat)
    requires multiset(s) == multiset(t) && s != [] && j < |t| && t[j] == s[0]
    ensures multiset(s[1..]) == multiset(t[..j] + t[j + 1..])
  {
    var e := s[0];
    assert t == t[..j] + [e] + t[j + 1..];
    assert s == [e] + s[1..];
    assert multiset(s) == multiset{e} + multiset(s[1..]);
    assert multiset(t) == multiset(t[..j]) + multiset{e} + multiset(t[j + 1..]);
    assert multiset(t[..j] + t[j + 1..]) == multiset(t[..j]) + multiset(t[j + 1..]);
    assert multiset(s[1..]) == multiset(s) - multiset{e};
    assert multiset(t[..j] + t[j + 1..]) == multiset(t) - multiset{e};
  }
}
