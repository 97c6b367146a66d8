/**
 * The two kinds of red-black index object the stores keep.
 *
 * `RedBlackBST` is the unique-key symbol table (`WeetRedBlackLiteBST`, `UserRedBlackBST`,
 * and the search/insert half of `FollowerRedBlackLiteBST`): its abstract state is the
 * strictly ascending in-order entry sequence `Entries()`.
 *
 * `DateRedBlackBST` is the descending-date multi index (`WeetDateRedBlackBST`,
 * `UserDateRedBlackBST`): it keys every value by its date, sends equal-or-newer dates
 * left, and its abstract state is the in-order value sequence `Items()`, newest first.
 */
module RedBlackTrees {
  import opened Wrappers
  import opened Orders
  import opened Seqs
  import opened SortedMap
  import opened Recency
  import opened Queues
  import opened Llrb

  class RedBlackBST<K(!new,==), V> {
    var root: Tree<K, V>
    var n: int
    const less: (K, K) -> bool

    /** BST order, the LLRB colour rules, a black root and `n` counting the entries. */
    ghost predicate Valid()
      reads this
    {
      StrictTotalOrder(less) && StrictlySorted(Inorder(root), less) &&
      LeanLeft(root) && !IsRed(root) && n == |Inorder(root)|
    }

    /** The entries in key order. */
    ghost function Entries(): seq<(K, V)>
      reads this
    {
      Inorder(root)
    }

    /** The entries as a map from key to value. */
    ghost function Contents(): map<K, V>
      reads this
    {
      MapOf(Inorder(root))
    }

    /** Every entry is in the map, and every key of the map comes from an entry. */
    lemma EntriesContents()
      requires Valid()
      ensures forall i :: 0 <= i < |Entries()| ==> Entries()[i].0 in Contents() && Contents()[Entries()[i].0] == Entries()[i].1
      ensures forall k :: k in Contents() ==> exists i :: 0 <= i < |Entries()| && Entries()[i].0 == k
    {
      MapOfEntries(Entries(), less);
    }

    constructor (less: (K, K) -> bool)
      requires StrictTotalOrder(less)
      ensures Valid() && Entries() == [] && Contents() == map[] && this.less == less
    {
      root := Leaf;
      n := 0;
      this.less := less;
    }

    /** `get`: the value stored under `key`, `None` where Java returns `null`. */
    method Get(key: K) returns (r: Option<V>)
      requires Valid()
      ensures r == Lookup(Entries(), key)
      ensures r.None? <==> !HasKey(Entries(), key)
      ensures r.Some? ==> (key, r.value) in Entries()
      ensures r == if key in Contents() then Some(Contents()[key]) else None
    {
      r := Llrb.Get(root, key, less);
      MapOfLookup(Entries(), key);
    }

    /** `contains`: `get(key) != null`. */
    method Contains(key: K) returns (b: bool)
      requires Valid()
      ensures b <==> HasKey(Entries(), key)
    {
      var r := Get(key);
      b := r.Some?;
    }

    /** `put`: insert or overwrite, then blacken the root. */
    method Put(key: K, val: V)
      requires Valid()
      modifies this
      ensures Valid()
      ensures Entries() == SortedMap.Put(old(Entries()), key, val, less)
      ensures n == old(n) + (if key in old(Contents()) then 0 else 1)
      ensures Contents() == old(Contents())[key := val]
    {
      ghost var E := Inorder(root);
      MapOfLookup(E, key);
      var r, grew := InsertUnique(root, key, val, less);
      BlackenLeanLeft(r);
      PutLength(E, key, val, less);
      PutSorted(E, key, val, less);
      root := r.(color := Black);
      if grew {
        n := n + 1;
      }
      MapOfPut(E, key, val, less);
    }

    method Size() returns (r: int)
      requires Valid()
      ensures r == |Entries()|
    {
      r := n;
    }

    method IsEmpty() returns (b: bool)
      requires Valid()
      ensures b <==> Entries() == []
    {
      b := n == 0;
    }

    method TreeHeight() returns (h: int)
      requires Valid()
      ensures -1 <= h < |Entries()| && (h == -1 <==> Entries() == [])
      ensures h == Height(root)
      ensures root.Node? ==> h == 1 + if Height(root.left) >= Height(root.right) then Height(root.left) else Height(root.right)
    {
      h := Height(root);
    }

    method MinKey() returns (r: Option<K>)
      requires Valid()
      ensures r.None? <==> Entries() == []
      ensures r.Some? ==> r.value == Entries()[0].0
      ensures r.Some? ==> forall e :: e in Entries() ==> e.0 == r.value || less(r.value, e.0)
    {
      r := Min(root, less);
    }

    method MaxKey() returns (r: Option<K>)
      requires Valid()
      ensures r.None? <==> Entries() == []
      ensures r.Some? ==> r.value == Entries()[|Entries()| - 1].0
      ensures r.Some? ==> forall e :: e in Entries() ==> e.0 == r.value || less(e.0, r.value)
    {
      r := Max(root, less);
    }

    /** `inorderTraversal`: a fresh queue of the values in key order. */
    method InorderTraversal() returns (q: Queue<V>)
      requires Valid()
      ensures fresh(q) && q.Valid()
      ensures q.items == Values(Entries())
    {
      q := new Queue<V>();
      EnqueueAll(root, q);
    }
  }

  class DateRedBlackBST<V> {
    var root: Tree<int, V>
    var n: int
    const dateOf: V -> int

    /** Each node is keyed by its value's date; dates never increase in order; the
        colour rules hold, the root is black, and `n` counts the nodes. */
    ghost predicate Valid()
      reads this
    {
      NonIncreasing(Inorder(root), EntryDate) && LeanLeft(root) && !IsRed(root) &&
      n == |Inorder(root)| && KeyedByDate(Inorder(root), dateOf)
    }

    /** The stored values, newest first. */
    ghost function Items(): seq<V>
      reads this
    {
      Values(Inorder(root))
    }

    /** The stored values are newest first by their own dates. */
    lemma ItemsNewestFirst()
      requires Valid()
      ensures NonIncreasing(Items(), dateOf)
    {
      var E := Inorder(root);
      forall i, j | 0 <= i < j < |Items()| ensures dateOf(Items()[i]) >= dateOf(Items()[j]) {
        assert EntryDate(E[i]) >= EntryDate(E[j]);
      }
    }

    constructor (dateOf: V -> int)
      ensures Valid() && Items() == [] && this.dateOf == dateOf
    {
      root := Leaf;
      n := 0;
      this.dateOf := dateOf;
    }

    /** `put(weet)` / `put(user)`: the new value goes before every stored value whose
        date is not newer than its own. */
    method Put(val: V)
      requires Valid()
      modifies this
      ensures Valid()
      ensures Items() == InsertNewest(old(Items()), val, dateOf)
      ensures n == old(n) + 1
    {
      var s := Inorder(root);
      var r := InsertNewestFirst(root, dateOf(val), val);
      BlackenLeanLeft(r);
      InsertNewestMultiset(s, (dateOf(val), val), EntryDate);
      InsertNewestSorted(s, (dateOf(val), val), EntryDate);
      KeyedInsertNewest(s, val, dateOf);
      root := r.(color := Black);
      n := n + 1;
    }

    method Size() returns (r: int)
      requires Valid()
      ensures r == |Items()|
    {
      r := n;
    }

    /** `inOrderDates` / `inOrderUsers`: a fresh queue of every value, newest first. */
    method InOrder() returns (q: Queue<V>)
      requires Valid()
      ensures fresh(q) && q.Valid()
      ensures q.items == Items()
    {
      q := new Queue<V>();
      EnqueueAll(root, q);
    }

    /** The filtered walks (`inOrderUser`, `inOrderContaining`, `inOrderDateOn`,
        `inOrderDateBefore`, `inOrderUsersContaining`, `inOrderUsersBefore`): a fresh
        queue of the values satisfying `keep`, newest first. */
    method InOrderWhere(keep: V -> bool) returns (q: Queue<V>)
      requires Valid()
      ensures fresh(q) && q.Valid()
      ensures q.items == Filter(Items(), keep)
    {
      q := new Queue<V>();
      EnqueueWhere(root, q, keep);
    }
  }

  /** Every entry's key is the date of its value. */
  ghost predicate KeyedByDate<V>(s: seq<(int, V)>, dateOf: V -> int)
  {
    forall i :: 0 <= i < |s| ==> s[i].0 == dateOf(s[i].1)
  }

  /** Inserting `(dateOf(v), v)` into a date-keyed entry sequence is inserting `v` into
      its value sequence, and the result is still date-keyed. */
  lemma {:induction false} KeyedInsertNewest<V>(s: seq<(int, V)>, v: V, dateOf: V -> int)
    requires KeyedByDate(s, dateOf)
    ensures KeyedByDate(InsertNewest(s, (dateOf(v), v), EntryDate), dateOf)
    ensures Values(InsertNewest(s, (dateOf(v), v), EntryDate)) == InsertNewest(Values(s), v, dateOf)
  {
    var x := (dateOf(v), v);
    if s == [] || EntryDate(s[0]) <= EntryDate(x) {
      assert Values([x] + s) == [v] + Values(s);
    } else {
      assert KeyedByDate(s[1..], dateOf) by {
        forall i | 0 <= i < |s[1..]| ensures s[1..][i].0 == dateOf(s[1..][i].1) { assert s[1..][i] == s[i + 1]; }
      }
      KeyedInsertNewest(s[1..], v, dateOf);
      assert Values(s)[1..] == Values(s[1..]);
      var t := InsertNewest(s[1..], x, EntryDate);
      assert Values([s[0]] + t) == [s[0].1] + Values(t);
    }
  }
}
