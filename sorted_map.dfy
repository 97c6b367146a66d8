/**
 * The abstract value of a unique-key index: its in-order entry sequence, sorted
 * strictly by key. `Put` and `Lookup` are the specifications the tree's `insert`
 * and `get` are proved against.
 */
module SortedMap {
  import opened Wrappers
  import opened Orders

  ghost predicate StrictlySorted<K(!new), V>(s: seq<(K, V)>, less: (K, K) -> bool)
  {
    forall i, j :: 0 <= i < j < |s| ==> less(s[i].0, s[j].0)
  }

  predicate HasKey<K(!new,==), V>(s: seq<(K, V)>, k: K)
  {
    exists i :: 0 <= i < |s| && s[i].0 == k
  }

  /** The value stored under `k`: the first entry with that key. */
  function Lookup<K(!new,==), V>(s: seq<(K, V)>, k: K): (r: Option<V>)
    ensures r.None? <==> !HasKey(s, k)
    ensures r.Some? ==> (k, r.value) in s
  {
    if s == [] then None
    else if s[0].0 == k then Some(s[0].1)
    else
      var r := Lookup(s[1..], k);
      assert HasKey(s[1..], k) ==> HasKey(s, k) by {
        if HasKey(s[1..], k) { var i :| 0 <= i < |s[1..]| && s[1..][i].0 == k; assert s[i + 1].0 == k; }
      }
      assert HasKey(s, k) ==> HasKey(s[1..], k) by {
        if HasKey(s, k) { var i :| 0 <= i < |s| && s[i].0 == k; assert i > 0 && s[1..][i - 1].0 == k; }
      }
      r
  }

  /** Insert-or-overwrite into a strictly sorted entry sequence, branching as the
      tree insert does: `cmp < 0` before, `cmp > 0` further on, otherwise replace. */
  function Put<K(!new), V>(s: seq<(K, V)>, k: K, v: V, less: (K, K) -> bool): seq<(K, V)>
  {
    if s == [] then [(k, v)]
    else if less(k, s[0].0) then [(k, v)] + s
    else if less(s[0].0, k) then [s[0]] + Put(s[1..], k, v, less)
    else [(k, v)] + s[1..]
  }

  /** Every entry of `Put(s, k, v)` is the new one or an old one, and only an entry
      with key `k` can have been dropped. */
  lemma {:induction false} PutEntries<K(!new), V>(s: seq<(K, V)>, k: K, v: V, less: (K, K) -> bool)
    requires StrictTotalOrder(less)
    ensures (k, v) in Put(s, k, v, less)
    ensures forall e :: e in Put(s, k, v, less) ==> e == (k, v) || e in s
    ensures forall e :: e in s && e.0 != k ==> e in Put(s, k, v, less)
  {
    if s != [] && less(s[0].0, k) {
      PutEntries(s[1..], k, v, less);
      assert s == [s[0]] + s[1..];
    } else if s != [] {
      assert s == [s[0]] + s[1..];
    }
  }

  lemma {:induction false} PutSorted<K(!new), V>(s: seq<(K, V)>, k: K, v: V, less: (K, K) -> bool)
    requires StrictTotalOrder(less)
    requires StrictlySorted(s, less)
    ensures StrictlySorted(Put(s, k, v, less), less)
  {
    if s != [] && less(s[0].0, k) {
      PutSorted(s[1..], k, v, less);
      PutEntries(s[1..], k, v, less);
      var t := Put(s[1..], k, v, less);
      forall j | 0 <= j < |t| ensures less(s[0].0, t[j].0) {
        assert t[j] in t;
        if t[j] != (k, v) {
          var m :| 0 <= m < |s[1..]| && s[1..][m] == t[j];
          assert s[m + 1] == t[j];
        }
      }
    }
  }

  /** `get` after `put(k, v)` returns `v`. */
  lemma {:induction false} LookupPutSame<K(!new), V>(s: seq<(K, V)>, k: K, v: V, less: (K, K) -> bool)
    requires StrictTotalOrder(less)
    ensures Lookup(Put(s, k, v, less), k) == Some(v)
  {
    if s != [] && less(s[0].0, k) {
      LookupPutSame(s[1..], k, v, less);
    }
  }

  /** `put(k, v)` leaves the value under every other key as it was. */
  lemma {:induction false} LookupPutOther<K(!new), V>(s: seq<(K, V)>, k: K, v: V, k': K, less: (K, K) -> bool)
    requires StrictTotalOrder(less)
    requires k' != k
    ensures Lookup(Put(s, k, v, less), k') == Lookup(s, k')
  {
    if s != [] {
      if less(k, s[0].0) {
      } else if less(s[0].0, k) {
        LookupPutOther(s[1..], k, v, k', less);
      } else {
        assert s[0].0 == k;
      }
    }
  }

  /** The entry count grows by one exactly when the key was absent. */
  lemma {:induction false} PutLength<K(!new), V>(s: seq<(K, V)>, k: K, v: V, less: (K, K) -> bool)
    requires StrictTotalOrder(less)
    requires StrictlySorted(s, less)
    ensures |Put(s, k, v, less)| == |s| + (if HasKey(s, k) then 0 else 1)
  {
    if s != [] {
      if less(k, s[0].0) {
        assert !HasKey(s, k) by {
          forall i | 0 <= i < |s| ensures s[i].0 != k { if i > 0 { assert less(s[0].0, s[i].0); } }
        }
      } else if less(s[0].0, k) {
        PutLength(s[1..], k, v, less);
        assert HasKey(s, k) == HasKey(s[1..], k) by {
          if HasKey(s, k) { var i :| 0 <= i < |s| && s[i].0 == k; assert i > 0 && s[1..][i - 1].0 == k; }
          if HasKey(s[1..], k) { var i :| 0 <= i < |s[1..]| && s[1..][i].0 == k; assert s[i + 1].0 == k; }
        }
      } else {
        assert s[0].0 == k;
      }
    }
  }

  // Splitting lemmas: how `Put` and `Lookup` act on the in-order sequence of a node,
  // `Inorder(left) + [(key, val)] + Inorder(right)`.

  lemma {:induction false} PutAppendLeft<K(!new), V>(a: seq<(K, V)>, b: seq<(K, V)>, k: K, v: V, less: (K, K) -> bool)
    requires b != [] && less(k, b[0].0)
    ensures Put(a + b, k, v, less) == Put(a, k, v, less) + b
  {
    if a == [] {
      assert a + b == b;
    } else {
      assert (a + b)[1..] == a[1..] + b;
      PutAppendLeft(a[1..], b, k, v, less);
    }
  }

  lemma {:induction false} PutAppendRight<K(!new), V>(a: seq<(K, V)>, b: seq<(K, V)>, k: K, v: V, less: (K, K) -> bool)
    requires StrictTotalOrder(less)
    requires forall i :: 0 <= i < |a| ==> less(a[i].0, k)
    ensures Put(a + b, k, v, less) == a + Put(b, k, v, less)
  {
    if a == [] {
      assert a + b == b;
    } else {
      assert (a + b)[1..] == a[1..] + b;
      assert less(a[0].0, k);
      PutAppendRight(a[1..], b, k, v, less);
    }
  }

  lemma {:induction false} LookupAppend<K(!new), V>(a: seq<(K, V)>, b: seq<(K, V)>, k: K)
    ensures Lookup(a + b, k) == if HasKey(a, k) then Lookup(a, k) else Lookup(b, k)
  {
    if a == [] {
      assert a + b == b;
    } else {
      assert (a + b)[1..] == a[1..] + b;
      LookupAppend(a[1..], b, k);
    }
  }

  /** In a strictly sorted sequence the entry for a present key is the one `Lookup` finds. */
  lemma {:induction false} LookupSortedMember<K(!new), V>(s: seq<(K, V)>, e: (K, V), less: (K, K) -> bool)
    requires StrictTotalOrder(less)
    requires StrictlySorted(s, less)
    requires e in s
    ensures Lookup(s, e.0) == Some(e.1)
  {
    if s[0] != e {
      assert e in s[1..];
      var m :| 0 <= m < |s[1..]| && s[1..][m] == e;
      assert less(s[0].0, s[m + 1].0);
      LookupSortedMember(s[1..], e, less);
    }
  }

  /** The entries as a map; an earlier entry wins over a later one with the same
      key, as in `Lookup`. */
  ghost function MapOf<K(!new), V>(s: seq<(K, V)>): map<K, V>
  {
    if s == [] then map[] else MapOf(s[1..])[s[0].0 := s[0].1]
  }

  /** `Lookup` is lookup in `MapOf`. */
  lemma {:induction false} MapOfLookup<K(!new), V>(s: seq<(K, V)>, k: K)
    ensures Lookup(s, k) == if k in MapOf(s) then Some(MapOf(s)[k]) else None
  {
    if s != [] {
      MapOfLookup(s[1..], k);
    }
  }

  /** `Put` is map update. */
  lemma {:induction false} MapOfPut<K(!new), V>(s: seq<(K, V)>, k: K, v: V, less: (K, K) -> bool)
    requires StrictTotalOrder(less)
    ensures MapOf(Put(s, k, v, less)) == MapOf(s)[k := v]
  {
    if s == [] {
    } else if less(k, s[0].0) {
      assert ([(k, v)] + s)[1..] == s;
    } else if less(s[0].0, k) {
      MapOfPut(s[1..], k, v, less);
      assert ([s[0]] + Put(s[1..], k, v, less))[1..] == Put(s[1..], k, v, less);
    } else {
      assert ([(k, v)] + s[1..])[1..] == s[1..];
    }
  }

  /** In a strictly sorted sequence every entry is in the map, and every key of the map
      comes from an entry. */
  lemma MapOfEntries<K(!new), V>(s: seq<(K, V)>, less: (K, K) -> bool)
    requires StrictTotalOrder(less) && StrictlySorted(s, less)
    ensures forall i :: 0 <= i < |s| ==> s[i].0 in MapOf(s) && MapOf(s)[s[i].0] == s[i].1
    ensures forall k :: k in MapOf(s) ==> exists i :: 0 <= i < |s| && s[i].0 == k
  {
    forall i | 0 <= i < |s| ensures s[i].0 in MapOf(s) && MapOf(s)[s[i].0] == s[i].1 {
      assert s[i] in s;
      LookupSortedMember(s, s[i], less);
      MapOfLookup(s, s[i].0);
    }
    forall k | k in MapOf(s) ensures exists i :: 0 <= i < |s| && s[i].0 == k {
      MapOfLookup(s, k);
    }
  }

  /** The first key of a strictly sorted sequence is below every other key. */
  lemma SortedFirstLeast<K(!new), V>(s: seq<(K, V)>, less: (K, K) -> bool)
    requires s != [] && StrictlySorted(s, less)
    ensures forall e :: e in s && e.0 != s[0].0 ==> less(s[0].0, e.0)
  {
    forall e | e in s && e.0 != s[0].0 ensures less(s[0].0, e.0) {
      var i :| 0 <= i < |s| && s[i] == e;
      assert i != 0;
    }
  }

  /** The last key of a strictly sorted sequence is above every other key. */
  lemma SortedLastGreatest<K(!new), V>(s: seq<(K, V)>, less: (K, K) -> bool)
    requires s != [] && StrictlySorted(s, less)
    ensures forall e :: e in s && e.0 != s[|s| - 1].0 ==> less(e.0, s[|s| - 1].0)
  {
    forall e | e in s && e.0 != s[|s| - 1].0 ensures less(e.0, s[|s| - 1].0) {
      var i :| 0 <= i < |s| && s[i] == e;
      assert i != |s| - 1;
    }
  }

  /** What strict ordering of `a + [m] + b` says about its parts. */
  lemma SortedParts<K(!new), V>(a: seq<(K, V)>, m: (K, V), b: seq<(K, V)>, less: (K, K) -> bool)
    requires StrictlySorted(a + [m] + b, less)
    ensures StrictlySorted(a, less) && StrictlySorted(b, less)
    ensures forall i :: 0 <= i < |a| ==> less(a[i].0, m.0)
    ensures forall i :: 0 <= i < |b| ==> less(m.0, b[i].0)
  {
    var s := a + [m] + b;
    forall i, j | 0 <= i < j < |a| ensures less(a[i].0, a[j].0) { assert s[i] == a[i] && s[j] == a[j]; }
    forall i, j | 0 <= i < j < |b| ensures less(b[i].0, b[j].0) {
      assert s[|a| + 1 + i] == b[i] && s[|a| + 1 + j] == b[j];
    }
    forall i | 0 <= i < |a| ensures less(a[i].0, m.0) { assert s[i] == a[i] && s[|a|] == m; }
    forall i | 0 <= i < |b| ensures less(m.0, b[i].0) { assert s[|a| + 1 + i] == b[i] && s[|a|] == m; }
  }
}
