/**
 * Recency order: the order of the self-sorting follower lists and of the date
 * indexes, newest first. `InsertNewest` is the three-case splice: the new element
 * goes in front of the first element that is not newer than it, so it precedes
 * every element with an equal date ("last inserted wins ties").
 */
module Recency {

  ghost predicate NonIncreasing<T>(s: seq<T>, date: T -> int)
  {
    forall i, j :: 0 <= i < j < |s| ==> date(s[i]) >= date(s[j])
  }

  function InsertNewest<T>(s: seq<T>, x: T, date: T -> int): seq<T>
  {
    if s == [] || date(s[0]) <= date(x) then [x] + s
    else [s[0]] + InsertNewest(s[1..], x, date)
  }

  /** Where the splice puts the new element: after the elements strictly newer than it. */
  function InsertionPoint<T>(s: seq<T>, x: T, date: T -> int): (p: nat)
    ensures p <= |s|
    ensures forall i :: 0 <= i < p ==> date(s[i]) > date(x)
    ensures p < |s| ==> date(s[p]) <= date(x)
  {
    if s == [] || date(s[0]) <= date(x) then 0
    else 1 + InsertionPoint(s[1..], x, date)
  }

  /** The splice inserts exactly one element, at the insertion point, and moves nothing else. */
  lemma {:induction false} InsertNewestAt<T>(s: seq<T>, x: T, date: T -> int, p: nat)
    requires p <= |s|
    requires forall i :: 0 <= i < p ==> date(s[i]) > date(x)
    requires p < |s| ==> date(s[p]) <= date(x)
    ensures InsertNewest(s, x, date) == s[..p] + [x] + s[p..]
  {
    if p > 0 {
      InsertNewestAt(s[1..], x, date, p - 1);
      assert s[..p] == [s[0]] + s[1..][..p - 1];
      assert s[p..] == s[1..][p - 1..];
    }
  }

  /** The element gains exactly one occurrence; nothing is lost. */
  lemma InsertNewestMultiset<T>(s: seq<T>, x: T, date: T -> int)
    ensures multiset(InsertNewest(s, x, date)) == multiset(s) + multiset{x}
    ensures |InsertNewest(s, x, date)| == |s| + 1
  {
    var p := InsertionPoint(s, x, date);
    InsertNewestAt(s, x, date, p);
    assert s == s[..p] + s[p..];
  }

  lemma InsertNewestIndex<T>(s: seq<T>, x: T, date: T -> int)
    ensures var p, t := InsertionPoint(s, x, date), InsertNewest(s, x, date);
      |t| == |s| + 1 && t[p] == x &&
      (forall i :: 0 <= i < p ==> t[i] == s[i]) &&
      (forall i :: p < i <= |s| ==> t[i] == s[i - 1])
  {
    InsertNewestAt(s, x, date, InsertionPoint(s, x, date));
  }

  /** The splice keeps a newest-first sequence newest-first. */
  lemma InsertNewestSorted<T>(s: seq<T>, x: T, date: T -> int)
    requires NonIncreasing(s, date)
    ensures NonIncreasing(InsertNewest(s, x, date), date)
  {
    var p := InsertionPoint(s, x, date);
    var t := InsertNewest(s, x, date);
    InsertNewestIndex(s, x, date);
    forall i, j | 0 <= i < j < |t| ensures date(t[i]) >= date(t[j]) {
      if j < p {
      } else if j == p {
      } else if i == p {
        assert date(s[p]) <= date(x) && date(s[p]) >= date(s[j - 1]);
      } else if i < p {
      } else {
      }
    }
  }

  /** In a newest-first sequence the insertion point separates the strictly newer
      elements from the rest: the new element precedes every element with its date. */
  lemma InsertNewestBeforeTies<T>(s: seq<T>, x: T, date: T -> int)
    requires NonIncreasing(s, date)
    ensures forall i :: 0 <= i < |s| ==> (i < InsertionPoint(s, x, date) <==> date(s[i]) > date(x))
  {
    var p := InsertionPoint(s, x, date);
    forall i | p <= i < |s| ensures date(s[i]) <= date(x) {
      assert date(s[p]) >= date(s[i]);
    }
  }

  // Splitting lemmas used by the date index on `Inorder(left) + [node] + Inorder(right)`.

  lemma {:induction false} InsertNewestAppendLeft<T>(a: seq<T>, b: seq<T>, x: T, date: T -> int)
    requires b != [] && date(b[0]) <= date(x)
    ensures InsertNewest(a + b, x, date) == InsertNewest(a, x, date) + b
  {
    if a == [] {
      assert a + b == b;
    } else {
      assert (a + b)[1..] == a[1..] + b;
      InsertNewestAppendLeft(a[1..], b, x, date);
    }
  }

  lemma {:induction false} InsertNewestAppendRight<T>(a: seq<T>, b: seq<T>, x: T, date: T -> int)
    requires forall i :: 0 <= i < |a| ==> date(a[i]) > date(x)
    ensures InsertNewest(a + b, x, date) == a + InsertNewest(b, x, date)
  {
    if a == [] {
      assert a + b == b;
    } else {
      assert (a + b)[1..] == a[1..] + b;
      assert date(a[0]) > date(x);
      InsertNewestAppendRight(a[1..], b, x, date);
    }
  }
}
