/** Sequence helpers used by the traversal queries: projection of entry values and
    order-preserving filtering by a predicate. */
module Seqs {

  function Values<K, V>(s: seq<(K, V)>): seq<V>
  {
    seq(|s|, i requires 0 <= i < |s| => s[i].1)
  }

  function Keys<K, V>(s: seq<(K, V)>): seq<K>
  {
    seq(|s|, i requires 0 <= i < |s| => s[i].0)
  }

  /** The subsequence of `s` whose elements satisfy `keep`, in the order of `s`. */
  function Filter<T>(s: seq<T>, keep: T -> bool): seq<T>
  {
    if s == [] then []
    else if keep(s[0]) then [s[0]] + Filter(s[1..], keep)
    else Filter(s[1..], keep)
  }

  lemma {:induction false} FilterAppend<T>(a: seq<T>, b: seq<T>, keep: T -> bool)
    ensures Filter(a + b, keep) == Filter(a, keep) + Filter(b, keep)
  {
    if a != [] {
      assert (a + b)[1..] == a[1..] + b;
      FilterAppend(a[1..], b, keep);
    } else {
      assert a + b == b;
    }
  }

  /** Filtering keeps exactly the elements that satisfy the predicate, with their
      multiplicities, and nothing else. */
  lemma {:induction false} FilterContents<T>(s: seq<T>, keep: T -> bool, x: T)
    ensures x in Filter(s, keep) <==> x in s && keep(x)
    ensures multiset(Filter(s, keep))[x] == if keep(x) then multiset(s)[x] else 0
  {
    if s != [] {
      FilterContents(s[1..], keep, x);
      assert s == [s[0]] + s[1..];
    }
  }

  /** Filtering is a subsequence: it preserves any ordering relation that holds
      between every earlier and later element of `s`. */
  lemma {:induction false} FilterKeepsOrder<T>(s: seq<T>, keep: T -> bool, before: (T, T) -> bool)
    requires forall i, j :: 0 <= i < j < |s| ==> before(s[i], s[j])
    ensures forall i, j :: 0 <= i < j < |Filter(s, keep)| ==> before(Filter(s, keep)[i], Filter(s, keep)[j])
  {
    if s != [] {
      FilterKeepsOrder(s[1..], keep, before);
      var f := Filter(s[1..], keep);
      forall x | x in f ensures before(s[0], x) {
        FilterContents(s[1..], keep, x);
        var k :| 0 <= k < |s[1..]| && s[1..][k] == x;
        assert s[k + 1] == x;
      }
    }
  }
}
