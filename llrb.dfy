/**
 * The left-leaning red-black tree (algs4 `RedBlackLiteBST`) shared by every index.
 * Nodes are datatype values: where the Java code reassigns `h.left`, `h.right`,
 * `h.val` or a colour, the model builds the updated node and returns it, exactly as
 * `insert` and the rotations return the new root of the subtree.
 *
 * Two insertion policies exist in the source:
 *  - unique keys (`cmp < 0` left, `cmp > 0` right, otherwise overwrite), proved
 *    against `SortedMap.Put` on the in-order entry sequence;
 *  - newest-first dates (`cmp >= 0` left, otherwise right), proved against
 *    `Recency.InsertNewest`, so an in-order walk lists newest first.
 */
module Llrb {
  import opened Wrappers
  import opened Orders
  import opened Seqs
  import opened SortedMap
  import opened Recency
  import opened Queues

  datatype Color = Red | Black

  datatype Tree<K, V> = Leaf | Node(color: Color, key: K, val: V, left: Tree<K, V>, right: Tree<K, V>)

  ghost function Inorder<K, V>(t: Tree<K, V>): seq<(K, V)>
  {
    match t
    case Leaf => []
    case Node(_, k, v, l, r) => Inorder(l) + [(k, v)] + Inorder(r)
  }

  /** `isRed`: is the link to this node red? Null links are black. */
  predicate IsRed<K, V>(t: Tree<K, V>)
  {
    t.Node? && t.color == Red
  }

  /** The LLRB colour rules everywhere below and at `t`: no right link is red, and no
      red link is followed by a red left link. */
  ghost predicate LeanLeft<K, V>(t: Tree<K, V>)
  {
    match t
    case Leaf => true
    case Node(c, _, _, l, r) => !IsRed(r) && (c == Red ==> !IsRed(l)) && LeanLeft(l) && LeanLeft(r)
  }

  /** The one violation `insert` may hand back to its caller: a red node whose left
      child is also red, everything else in order. The caller's `rotateRight` repairs it. */
  ghost predicate RedLeftRed<K, V>(t: Tree<K, V>)
  {
    t.Node? && t.color == Red && IsRed(t.left) && LeanLeft(t.left) && !IsRed(t.right) && LeanLeft(t.right)
  }

  /** `rotateRight` (its Java `assert` is the precondition): the red left link becomes
      a red right link; the in-order entry sequence is unchanged. */
  function RotateRight<K, V>(h: Tree<K, V>): (x: Tree<K, V>)
    requires h.Node? && IsRed(h.left)
    ensures Inorder(x) == Inorder(h)
    ensures x.Node? && x.color == h.color && x.left == h.left.left
    ensures IsRed(x.right) && x.right.left == h.left.right && x.right.right == h.right
  {
    var l := h.left;
    Node(h.color, l.key, l.val, l.left, Node(Red, h.key, h.val, l.right, h.right))
  }

  /** `rotateLeft`: the red right link becomes a red left link; in-order unchanged. */
  function RotateLeft<K, V>(h: Tree<K, V>): (x: Tree<K, V>)
    requires h.Node? && IsRed(h.right)
    ensures Inorder(x) == Inorder(h)
    ensures x.Node? && x.color == h.color && x.right == h.right.right
    ensures IsRed(x.left) && x.left.left == h.left && x.left.right == h.right.left
  {
    var r := h.right;
    Node(h.color, r.key, r.val, Node(Red, h.key, h.val, h.left, r.left), r.right)
  }

  /** `flipColors`: a black node with two red children becomes red with two black
      children; the in-order entry sequence is unchanged. */
  function FlipColors<K, V>(h: Tree<K, V>): (x: Tree<K, V>)
    requires h.Node? && !IsRed(h) && IsRed(h.left) && IsRed(h.right)
    ensures Inorder(x) == Inorder(h)
    ensures IsRed(x) && x.left.Node? && !IsRed(x.left) && x.right.Node? && !IsRed(x.right)
  {
    Node(Red, h.key, h.val, h.left.(color := Black), h.right.(color := Black))
  }

  /** The shapes a node can have on `insert`'s return path, after the recursive call
      updated one child (or after an overwrite). */
  ghost predicate FixUpReady<K, V>(h: Tree<K, V>)
  {
    h.Node? &&
    (// the left child was updated
     (LeanLeft(h.right) && !IsRed(h.right) &&
      (LeanLeft(h.left) || (h.color == Black && RedLeftRed(h.left)))) ||
     // the right child was updated, or nothing below changed
     (LeanLeft(h.left) && (h.color == Red ==> !IsRed(h.left)) && LeanLeft(h.right)))
  }

  /** The three fix-up steps of `insert`. Each step's Java `assert` holds, the in-order
      sequence is unchanged, and the colour rules hold again, except for a red-red
      left pair when the node was red to begin with. */
  function FixUp<K, V>(h: Tree<K, V>): (r: Tree<K, V>)
    requires FixUpReady(h)
    ensures r.Node? && Inorder(r) == Inorder(h)
    ensures LeanLeft(r) || (h.color == Red && RedLeftRed(r))
  {
    var h1 := if IsRed(h.right) && !IsRed(h.left) then RotateLeft(h) else h;
    var h2 := if IsRed(h1.left) && IsRed(h1.left.left) then RotateRight(h1) else h1;
    if IsRed(h2.left) && IsRed(h2.right) then FlipColors(h2) else h2
  }

  lemma BlackenLeanLeft<K, V>(t: Tree<K, V>)
    requires LeanLeft(t) || RedLeftRed(t)
    ensures t.Node? ==> LeanLeft(t.(color := Black))
  {
  }

  /** What strict ordering of a node's in-order sequence says about its parts. */
  lemma SortedSplit<K(!new), V>(h: Tree<K, V>, less: (K, K) -> bool)
    requires h.Node? && StrictlySorted(Inorder(h), less)
    ensures StrictlySorted(Inorder(h.left), less) && StrictlySorted(Inorder(h.right), less)
    ensures forall i :: 0 <= i < |Inorder(h.left)| ==> less(Inorder(h.left)[i].0, h.key)
    ensures forall i :: 0 <= i < |Inorder(h.right)| ==> less(h.key, Inorder(h.right)[i].0)
  {
    var a, m, b := Inorder(h.left), (h.key, h.val), Inorder(h.right);
    SortedParts(a, m, b, less);
  }

  /** Replacing the left subtree by its updated version is a `Put` on the whole node
      when the key sorts before the node's key. */
  lemma InsertLeftCase<K(!new), V>(h: Tree<K, V>, l: Tree<K, V>, key: K, val: V, less: (K, K) -> bool)
    requires h.Node? && less(key, h.key)
    requires Inorder(l) == Put(Inorder(h.left), key, val, less)
    ensures Inorder(h.(left := l)) == Put(Inorder(h), key, val, less)
  {
    var a, m, b := Inorder(h.left), (h.key, h.val), Inorder(h.right);
    assert Inorder(h) == a + ([m] + b);
    PutAppendLeft(a, [m] + b, key, val, less);
  }

  /** The mirror case: the key sorts after the node's key and every key on its left. */
  lemma InsertRightCase<K(!new), V>(h: Tree<K, V>, rt: Tree<K, V>, key: K, val: V, less: (K, K) -> bool)
    requires StrictTotalOrder(less)
    requires h.Node? && StrictlySorted(Inorder(h), less) && less(h.key, key)
    requires Inorder(rt) == Put(Inorder(h.right), key, val, less)
    ensures Inorder(h.(right := rt)) == Put(Inorder(h), key, val, less)
  {
    SortedSplit(h, less);
    var a, m, b := Inorder(h.left), (h.key, h.val), Inorder(h.right);
    var am := a + [m];
    assert Inorder(h) == am + b;
    forall i | 0 <= i < |am| ensures less(am[i].0, key) {
      if i < |a| {
        assert am[i] == a[i];
        assert less(a[i].0, h.key);
      }
    }
    PutAppendRight(am, b, key, val, less);
  }

  /** The overwrite case: `h.val = val` is a `Put` of the node's own key. */
  lemma InsertSameCase<K(!new), V>(h: Tree<K, V>, key: K, val: V, less: (K, K) -> bool)
    requires StrictTotalOrder(less)
    requires h.Node? && StrictlySorted(Inorder(h), less) && !less(key, h.key) && !less(h.key, key)
    ensures Inorder(h.(val := val)) == Put(Inorder(h), key, val, less)
  {
    SortedSplit(h, less);
    var a, m, b := Inorder(h.left), (h.key, h.val), Inorder(h.right);
    assert key == h.key;
    assert Inorder(h) == a + ([m] + b);
    assert Inorder(h.(val := val)) == a + ([(key, val)] + b);
    PutAppendRight(a, [m] + b, key, val, less);
  }

  /** The unique-key `insert` (id and topic indexes). `grew` is the `n++` of the
      new-leaf case. */
  method InsertUnique<K(!new), V>(h: Tree<K, V>, key: K, val: V, less: (K, K) -> bool) returns (r: Tree<K, V>, grew: bool)
    requires StrictTotalOrder(less)
    requires StrictlySorted(Inorder(h), less) && LeanLeft(h)
    ensures r.Node?
    ensures Inorder(r) == Put(Inorder(h), key, val, less)
    ensures |Inorder(r)| == |Inorder(h)| + (if grew then 1 else 0)
    ensures LeanLeft(r) || (IsRed(h) && RedLeftRed(r))
    decreases h
  {
    if h.Leaf? {
      return Node(Red, key, val, Leaf, Leaf), true;
    }
    SortedSplit(h, less);
    var x := h;
    if less(key, h.key) {
      var l;
      l, grew := InsertUnique(h.left, key, val, less);
      x := h.(left := l);
      InsertLeftCase(h, l, key, val, less);
    } else if less(h.key, key) {
      var rt;
      rt, grew := InsertUnique(h.right, key, val, less);
      x := h.(right := rt);
      InsertRightCase(h, rt, key, val, less);
    } else {
      x := h.(val := val);
      grew := false;
      InsertSameCase(h, key, val, less);
    }
    r := FixUp(x);
  }

  /** What date order of a node's in-order sequence says about its parts. */
  lemma DateSplit<V>(h: Tree<int, V>)
    requires h.Node? && NonIncreasing(Inorder(h), EntryDate)
    ensures NonIncreasing(Inorder(h.left), EntryDate) && NonIncreasing(Inorder(h.right), EntryDate)
    ensures forall i :: 0 <= i < |Inorder(h.left)| ==> Inorder(h.left)[i].0 >= h.key
  {
    var a, m, b := Inorder(h.left), (h.key, h.val), Inorder(h.right);
    var s := Inorder(h);
    assert s == a + [m] + b;
    forall i, j | 0 <= i < j < |a| ensures a[i].0 >= a[j].0 { assert s[i] == a[i] && s[j] == a[j]; }
    forall i, j | 0 <= i < j < |b| ensures b[i].0 >= b[j].0 {
      assert s[|a| + 1 + i] == b[i] && s[|a| + 1 + j] == b[j];
    }
    forall i | 0 <= i < |a| ensures a[i].0 >= h.key { assert s[i] == a[i] && s[|a|] == m; }
  }

  /** An entry at least as new as the node goes into the left subtree. */
  lemma NewestLeftCase<V>(h: Tree<int, V>, l: Tree<int, V>, date: int, val: V)
    requires h.Node? && date >= h.key
    requires Inorder(l) == InsertNewest(Inorder(h.left), (date, val), EntryDate)
    ensures Inorder(h.(left := l)) == InsertNewest(Inorder(h), (date, val), EntryDate)
  {
    var a, m, b := Inorder(h.left), (h.key, h.val), Inorder(h.right);
    assert Inorder(h) == a + ([m] + b);
    InsertNewestAppendLeft(a, [m] + b, (date, val), EntryDate);
  }

  /** An older entry goes into the right subtree, after the node and its left part. */
  lemma NewestRightCase<V>(h: Tree<int, V>, rt: Tree<int, V>, date: int, val: V)
    requires h.Node? && date < h.key
    requires forall i :: 0 <= i < |Inorder(h.left)| ==> Inorder(h.left)[i].0 >= h.key
    requires Inorder(rt) == InsertNewest(Inorder(h.right), (date, val), EntryDate)
    ensures Inorder(h.(right := rt)) == InsertNewest(Inorder(h), (date, val), EntryDate)
  {
    var a, m, b := Inorder(h.left), (h.key, h.val), Inorder(h.right);
    var am := a + [m];
    assert Inorder(h) == am + b;
    forall i | 0 <= i < |am| ensures am[i].0 > date {
      if i < |a| {
        assert am[i] == a[i];
      }
    }
    InsertNewestAppendRight(am, b, (date, val), EntryDate);
  }

  /** The newest-first `insert` of the date indexes: `cmp >= 0` goes left, so equal
      dates are placed before (in-order) the entries already there. */
  method InsertNewestFirst<V>(h: Tree<int, V>, date: int, val: V) returns (r: Tree<int, V>)
    requires NonIncreasing(Inorder(h), EntryDate) && LeanLeft(h)
    ensures r.Node?
    ensures Inorder(r) == InsertNewest(Inorder(h), (date, val), EntryDate)
    ensures LeanLeft(r) || (IsRed(h) && RedLeftRed(r))
    decreases h
  {
    if h.Leaf? {
      return Node(Red, date, val, Leaf, Leaf);
    }
    DateSplit(h);
    var x := h;
    if date >= h.key {
      var l := InsertNewestFirst(h.left, date, val);
      x := h.(left := l);
      NewestLeftCase(h, l, date, val);
    } else {
      var rt := InsertNewestFirst(h.right, date, val);
      x := h.(right := rt);
      NewestRightCase(h, rt, date, val);
    }
    r := FixUp(x);
  }

  function EntryDate<V>(e: (int, V)): int { e.0 }

  /** A key below the node's key can only be in the left subtree. */
  lemma LookupLeftCase<K(!new), V>(x: Tree<K, V>, key: K, less: (K, K) -> bool)
    requires StrictTotalOrder(less) && x.Node? && less(key, x.key)
    requires forall i :: 0 <= i < |Inorder(x.right)| ==> less(x.key, Inorder(x.right)[i].0)
    ensures Lookup(Inorder(x), key) == Lookup(Inorder(x.left), key)
  {
    var a, m, b := Inorder(x.left), (x.key, x.val), Inorder(x.right);
    assert Inorder(x) == a + ([m] + b);
    LookupAppend(a, [m] + b, key);
    assert !HasKey([m] + b, key) by {
      forall i | 0 <= i < |[m] + b| ensures ([m] + b)[i].0 != key {
        if i > 0 {
          assert ([m] + b)[i] == b[i - 1];
        }
      }
    }
  }

  /** A key above the node's key can only be in the right subtree. */
  lemma LookupRightCase<K(!new), V>(x: Tree<K, V>, key: K, less: (K, K) -> bool)
    requires StrictTotalOrder(less) && x.Node? && less(x.key, key)
    requires forall i :: 0 <= i < |Inorder(x.left)| ==> less(Inorder(x.left)[i].0, x.key)
    ensures Lookup(Inorder(x), key) == Lookup(Inorder(x.right), key)
  {
    var a, m, b := Inorder(x.left), (x.key, x.val), Inorder(x.right);
    assert Inorder(x) == (a + [m]) + b;
    LookupAppend(a + [m], b, key);
    assert !HasKey(a + [m], key) by {
      forall i | 0 <= i < |a + [m]| ensures (a + [m])[i].0 != key {
        if i < |a| {
          assert (a + [m])[i] == a[i];
        }
      }
    }
  }

  /** The node's own key is found at the node. */
  lemma LookupHereCase<K(!new), V>(x: Tree<K, V>, key: K, less: (K, K) -> bool)
    requires StrictTotalOrder(less) && x.Node? && !less(key, x.key) && !less(x.key, key)
    requires forall i :: 0 <= i < |Inorder(x.left)| ==> less(Inorder(x.left)[i].0, x.key)
    ensures Lookup(Inorder(x), key) == Some(x.val)
  {
    var a, m, b := Inorder(x.left), (x.key, x.val), Inorder(x.right);
    assert key == x.key;
    assert Inorder(x) == a + ([m] + b);
    LookupAppend(a, [m] + b, key);
    assert !HasKey(a, key) by {
      forall i | 0 <= i < |a| ensures a[i].0 != key {
        assert less(a[i].0, x.key);
      }
    }
  }

  /** The iterative `get(x, key)`: the value of the entry with that key, `None` for
      the Java `null` of an absent key. */
  method Get<K(!new,==), V>(root: Tree<K, V>, key: K, less: (K, K) -> bool) returns (r: Option<V>)
    requires StrictTotalOrder(less) && StrictlySorted(Inorder(root), less)
    ensures r == Lookup(Inorder(root), key)
  {
    var x := root;
    while x.Node?
      invariant StrictlySorted(Inorder(x), less)
      invariant Lookup(Inorder(x), key) == Lookup(Inorder(root), key)
      decreases x
    {
      SortedSplit(x, less);
      if less(key, x.key) {
        LookupLeftCase(x, key, less);
        x := x.left;
      } else if less(x.key, key) {
        LookupRightCase(x, key, less);
        x := x.right;
      } else {
        LookupHereCase(x, key, less);
        return Some(x.val);
      }
    }
    r := None;
  }

  /** The key of the leftmost node. */
  function FirstKey<K, V>(t: Tree<K, V>): K
    requires t.Node?
  {
    if t.left.Node? then FirstKey(t.left) else t.key
  }

  /** The key of the rightmost node. */
  function LastKey<K, V>(t: Tree<K, V>): K
    requires t.Node?
  {
    if t.right.Node? then LastKey(t.right) else t.key
  }

  /** The leftmost key is the first key in order. */
  lemma {:induction false} FirstKeyInorder<K, V>(t: Tree<K, V>)
    requires t.Node?
    ensures Inorder(t) != [] && FirstKey(t) == Inorder(t)[0].0
  {
    if t.left.Node? {
      FirstKeyInorder(t.left);
      assert Inorder(t) == Inorder(t.left) + ([(t.key, t.val)] + Inorder(t.right));
    }
  }

  /** The rightmost key is the last key in order. */
  lemma {:induction false} LastKeyInorder<K, V>(t: Tree<K, V>)
    requires t.Node?
    ensures Inorder(t) != [] && LastKey(t) == Inorder(t)[|Inorder(t)| - 1].0
  {
    if t.right.Node? {
      LastKeyInorder(t.right);
      assert Inorder(t) == (Inorder(t.left) + [(t.key, t.val)]) + Inorder(t.right);
    }
  }

  /** `min()`: the walk down the left links, remembering the last key seen; the
      smallest key, `None` (Java `null`) on an empty tree. */
  method Min<K(!new), V>(root: Tree<K, V>, less: (K, K) -> bool) returns (r: Option<K>)
    requires StrictTotalOrder(less) && StrictlySorted(Inorder(root), less)
    ensures r.None? <==> Inorder(root) == []
    ensures r.Some? ==> r.value == Inorder(root)[0].0
    ensures r.Some? ==> forall e :: e in Inorder(root) && e.0 != r.value ==> less(r.value, e.0)
  {
    var x := root;
    r := None;
    while x.Node?
      invariant r.None? ==> x == root
      invariant r.Some? ==> root.Node? && FirstKey(root) == if x.Node? then FirstKey(x) else r.value
      decreases x
    {
      r := Some(x.key);
      x := x.left;
    }
    if r.Some? {
      FirstKeyInorder(root);
      SortedFirstLeast(Inorder(root), less);
    }
  }

  /** `max()`: the walk down the right links; the largest key. */
  method Max<K(!new), V>(root: Tree<K, V>, less: (K, K) -> bool) returns (r: Option<K>)
    requires StrictTotalOrder(less) && StrictlySorted(Inorder(root), less)
    ensures r.None? <==> Inorder(root) == []
    ensures r.Some? ==> r.value == Inorder(root)[|Inorder(root)| - 1].0
    ensures r.Some? ==> forall e :: e in Inorder(root) && e.0 != r.value ==> less(e.0, r.value)
  {
    var x := root;
    r := None;
    while x.Node?
      invariant r.None? ==> x == root
      invariant r.Some? ==> root.Node? && LastKey(root) == if x.Node? then LastKey(x) else r.value
      decreases x
    {
      r := Some(x.key);
      x := x.right;
    }
    if r.Some? {
      LastKeyInorder(root);
      SortedLastGreatest(Inorder(root), less);
    }
  }

  /** `height(x)`: -1 for an empty tree, 0 for a single node, never more than the
      number of entries minus one. */
  function Height<K, V>(t: Tree<K, V>): (h: int)
    ensures -1 <= h < |Inorder(t)|
    ensures h == -1 <==> t.Leaf?
  {
    match t
    case Leaf => -1
    case Node(_, _, _, l, r) =>
      var hl, hr := Height(l), Height(r);
      1 + if hl >= hr then hl else hr
  }

  /** The unfiltered in-order walks (`inorderTraversal`, `inOrderDates`, `inOrderUsers`). */
  method EnqueueAll<K, V>(x: Tree<K, V>, queue: Queue<V>)
    requires queue.Valid()
    modifies queue
    ensures queue.Valid()
    ensures queue.items == old(queue.items) + Values(Inorder(x))
    decreases x
  {
    if x.Leaf? { return; }
    EnqueueAll(x.left, queue);
    queue.Enqueue(x.val);
    EnqueueAll(x.right, queue);
    ValuesAppend(Inorder(x.left), [(x.key, x.val)], Inorder(x.right));
  }

  /** The filtered in-order walks: enqueue, in order, the values satisfying `keep`. */
  method EnqueueWhere<K, V>(x: Tree<K, V>, queue: Queue<V>, keep: V -> bool)
    requires queue.Valid()
    modifies queue
    ensures queue.Valid()
    ensures queue.items == old(queue.items) + Filter(Values(Inorder(x)), keep)
    decreases x
  {
    if x.Leaf? { return; }
    ghost var q0 := queue.items;
    EnqueueWhere(x.left, queue, keep);
    ghost var q1 := queue.items;
    if keep(x.val) {
      queue.Enqueue(x.val);
    }
    ghost var q2 := queue.items;
    EnqueueWhere(x.right, queue, keep);
    FilterNode(x, keep);
    assert queue.items == q0 + Filter(Values(Inorder(x.left)), keep) + (if keep(x.val) then [x.val] else [])
      + Filter(Values(Inorder(x.right)), keep);
  }

  lemma FilterNode<K, V>(x: Tree<K, V>, keep: V -> bool)
    requires x.Node?
    ensures Filter(Values(Inorder(x)), keep) ==
      Filter(Values(Inorder(x.left)), keep) + (if keep(x.val) then [x.val] else []) + Filter(Values(Inorder(x.right)), keep)
  {
    var a, b := Values(Inorder(x.left)), Values(Inorder(x.right));
    ValuesAppend(Inorder(x.left), [(x.key, x.val)], Inorder(x.right));
    assert Values(Inorder(x)) == a + [x.val] + b;
    FilterAppend(a + [x.val], b, keep);
    FilterAppend(a, [x.val], keep);
    assert Filter([x.val], keep) == if keep(x.val) then [x.val] else [];
  }

  lemma ValuesAppend<K, V>(a: seq<(K, V)>, b: seq<(K, V)>, c: seq<(K, V)>)
    ensures Values(a + b + c) == Values(a) + Values(b) + Values(c)
  {
  }
}
