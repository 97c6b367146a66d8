/**
 * What the user and weet stores keep in step: an id index (`idBST`, `useridBST`)
 * and a date index (`dateBST`, `userdateBST`) holding the same records. As
 * abstract values these are a map from id to record and the date index's
 * newest-first sequence of records.
 */
module Catalogs {
  import opened Seqs
  import opened Recency

  /** `byId` and `items` hold the same records: each item is stored under its own
      id, each stored record is an item, and no id is on two items. */
  ghost predicate Indexed<T>(byId: map<int, T>, items: seq<T>, idOf: T -> int)
  {
    (forall i :: 0 <= i < |items| ==> idOf(items[i]) in byId && byId[idOf(items[i])] == items[i]) &&
    (forall k :: k in byId ==> idOf(byId[k]) == k && byId[k] in items) &&
    (forall i, j :: 0 <= i < j < |items| ==> idOf(items[i]) != idOf(items[j]))
  }

  /** An id is in the index exactly when some item carries it. */
  lemma IndexedIds<T>(byId: map<int, T>, items: seq<T>, idOf: T -> int, k: int)
    requires Indexed(byId, items, idOf)
    ensures k in byId <==> exists i :: 0 <= i < |items| && idOf(items[i]) == k
  {
    if k in byId {
      var i :| 0 <= i < |items| && items[i] == byId[k];
      assert idOf(items[i]) == k;
    }
  }

  /** Adding a record with a new id to both indexes keeps them in step. */
  lemma IndexedAdd<T>(byId: map<int, T>, items: seq<T>, x: T, idOf: T -> int, date: T -> int)
    requires Indexed(byId, items, idOf) && idOf(x) !in byId
    ensures Indexed(byId[idOf(x) := x], InsertNewest(items, x, date), idOf)
  {
    InsertNewestIndex(items, x, date);
    IndexedSplice(byId, items, x, idOf, InsertionPoint(items, x, date), InsertNewest(items, x, date));
  }

  /** `t` is `items` with `x` spliced in at position `p`. */
  ghost predicate SplicedAt<T>(items: seq<T>, x: T, p: int, t: seq<T>)
  {
    0 <= p <= |items| && |t| == |items| + 1 && t[p] == x &&
    (forall i :: 0 <= i < p ==> t[i] == items[i]) &&
    (forall i :: p < i <= |items| ==> t[i] == items[i - 1])
  }

  /** The splice at `p` keeps the indexes in step. */
  lemma IndexedSplice<T>(byId: map<int, T>, items: seq<T>, x: T, idOf: T -> int, p: int, t: seq<T>)
    requires Indexed(byId, items, idOf) && idOf(x) !in byId
    requires SplicedAt(items, x, p, t)
    ensures Indexed(byId[idOf(x) := x], t, idOf)
  {
    var m := byId[idOf(x) := x];
    SplicedStored(byId, items, x, idOf, p, t);
    SplicedDistinct(byId, items, x, idOf, p, t);
    forall k | k in m ensures idOf(m[k]) == k && m[k] in t {
      if k != idOf(x) {
        var j :| 0 <= j < |items| && items[j] == byId[k];
        var i := if j < p then j else j + 1;
        assert t[i] == items[j];
      }
    }
  }

  /** After the splice every item is stored under its id. */
  lemma SplicedStored<T>(byId: map<int, T>, items: seq<T>, x: T, idOf: T -> int, p: int, t: seq<T>)
    requires Indexed(byId, items, idOf) && idOf(x) !in byId && SplicedAt(items, x, p, t)
    ensures forall i :: 0 <= i < |t| ==> idOf(t[i]) in byId[idOf(x) := x] && byId[idOf(x) := x][idOf(t[i])] == t[i]
  {
    forall i | 0 <= i < |t| && i != p ensures idOf(t[i]) in byId && byId[idOf(t[i])] == t[i] {
      var j := if i < p then i else i - 1;
      assert t[i] == items[j];
    }
  }

  /** After the splice no id is on two items. */
  lemma SplicedDistinct<T>(byId: map<int, T>, items: seq<T>, x: T, idOf: T -> int, p: int, t: seq<T>)
    requires Indexed(byId, items, idOf) && idOf(x) !in byId && SplicedAt(items, x, p, t)
    ensures forall i, j :: 0 <= i < j < |t| ==> idOf(t[i]) != idOf(t[j])
  {
    forall i, j | 0 <= i < j < |t| ensures idOf(t[i]) != idOf(t[j]) {
      var i' := if i < p then i else i - 1;
      var j' := if j < p then j else j - 1;
      if i == p {
        assert t[j] == items[j'];
      } else if j == p {
        assert t[i] == items[i'];
      } else {
        assert t[i] == items[i'] && t[j] == items[j'];
      }
    }
  }

  /** Filtering a newest-first sequence gives a newest-first sequence. */
  lemma FilterNewestFirst<T>(s: seq<T>, keep: T -> bool, date: T -> int)
    requires NonIncreasing(s, date)
    ensures NonIncreasing(Filter(s, keep), date)
  {
    FilterKeepsOrder(s, keep, (a: T, b: T) => date(a) >= date(b));
  }

  /** Filtering a sequence with distinct ids gives a sequence with distinct ids. */
  lemma FilterDistinct<T>(s: seq<T>, keep: T -> bool, idOf: T -> int)
    requires forall i, j :: 0 <= i < j < |s| ==> idOf(s[i]) != idOf(s[j])
    ensures forall i, j :: 0 <= i < j < |Filter(s, keep)| ==> idOf(Filter(s, keep)[i]) != idOf(Filter(s, keep)[j])
  {
    FilterKeepsOrder(s, keep, (a: T, b: T) => idOf(a) != idOf(b));
  }
}
