/**
 * The follower graph: who follows whom and since when.
 *
 * Each user known to the store has a `FollowerRelationship` holding two date-ordered
 * edge lists (the users following it, and the users it follows) with a counter beside
 * each. The relationships sit in a red-black index by user id. The store's abstract
 * state is the map `Graph()` from user id to its two edge lists; `AddEdge` is the
 * pure specification of `addFollower` on that map.
 */
module Followers {
  import opened Wrappers
  import opened Orders
  import opened SortedMap
  import opened Recency
  import opened Llrb
  import opened RedBlackTrees
  import opened Ranking

  /** `KeyValuePair`: the other user's id and the date of the edge. */
  datatype KeyValuePair = KeyValuePair(id: int, date: int)

  function KvpDate(e: KeyValuePair): int { e.date }

  /** The ids of an edge list, front to back. */
  function Ids(s: seq<KeyValuePair>): seq<int>
  {
    seq(|s|, i requires 0 <= i < |s| => s[i].id)
  }

  /** `KeyValuePairTopUsers`: a user id and its follower count, as `getTopUsers` ranks them. */
  datatype KeyValuePairTopUsers = KeyValuePairTopUsers(id: int, followers: int)

  function FollowerCount(e: KeyValuePairTopUsers): int { e.followers }

  function TopUserId(e: KeyValuePairTopUsers): int { e.id }

  /** The three-case splice of `addFollower`, `addFollows` and `SortedList.addFollower`:
      an empty list gets the element as its head; an element at least as recent as
      the head goes in front (case 1); otherwise the cursor `temp` walks until the
      next element is not more recent (case 2), or the element goes last (case 3). */
  method SpliceByDate(list: seq<KeyValuePair>, kvp: KeyValuePair) returns (r: seq<KeyValuePair>)
    ensures r == InsertNewest(list, kvp, KvpDate)
  {
    if list == [] {
      return [kvp];
    }
    if list[0].date <= kvp.date {
      return [kvp] + list;
    }
    var temp := 0;
    while temp + 1 < |list|
      invariant 0 <= temp < |list|
      invariant forall k :: 0 <= k <= temp ==> list[k].date > kvp.date
    {
      if list[temp + 1].date <= kvp.date {
        InsertNewestAt(list, kvp, KvpDate, temp + 1);
        return list[..temp + 1] + [kvp] + list[temp + 1..];
      }
      temp := temp + 1;
    }
    InsertNewestAt(list, kvp, KvpDate, |list|);
    assert list[..|list|] + [kvp] + list[|list|..] == list + [kvp];
    r := list + [kvp];
  }

  /** The edges of one user: `follower` lists who follows it, `follows` whom it follows,
      each newest first, each with its counter. */
  class FollowerRelationship {
    const userid: int
    var numberOfFollowers: int
    var numberOfFollows: int
    var follower: seq<KeyValuePair>
    var follows: seq<KeyValuePair>

    /** Each counter equals its list's length and each list is newest first. */
    ghost predicate Valid()
      reads this
    {
      numberOfFollowers == |follower| && numberOfFollows == |follows| &&
      NonIncreasing(follower, KvpDate) && NonIncreasing(follows, KvpDate)
    }

    constructor (userid: int)
      ensures Valid() && this.userid == userid && follower == [] && follows == []
    {
      this.userid := userid;
      numberOfFollowers := 0;
      numberOfFollows := 0;
      follower := [];
      follows := [];
    }

    method AddFollower(followerid: int, date: int)
      requires Valid()
      modifies this
      ensures Valid()
      ensures follower == InsertNewest(old(follower), KeyValuePair(followerid, date), KvpDate)
      ensures follows == old(follows)
    {
      InsertNewestSorted(follower, KeyValuePair(followerid, date), KvpDate);
      InsertNewestMultiset(follower, KeyValuePair(followerid, date), KvpDate);
      follower := SpliceByDate(follower, KeyValuePair(followerid, date));
      numberOfFollowers := numberOfFollowers + 1;
    }

    method AddFollows(followsid: int, date: int)
      requires Valid()
      modifies this
      ensures Valid()
      ensures follows == InsertNewest(old(follows), KeyValuePair(followsid, date), KvpDate)
      ensures follower == old(follower)
    {
      InsertNewestSorted(follows, KeyValuePair(followsid, date), KvpDate);
      InsertNewestMultiset(follows, KeyValuePair(followsid, date), KvpDate);
      follows := SpliceByDate(follows, KeyValuePair(followsid, date));
      numberOfFollows := numberOfFollows + 1;
    }

    method GetUserId() returns (r: int)
      ensures r == userid
    {
      r := userid;
    }

    /** `getFollowers()`: the follower ids front to back, read through `numberOfFollowers`. */
    method GetFollowers() returns (r: seq<int>)
      requires Valid()
      ensures r == Ids(follower)
    {
      r := [];
      for i := 0 to numberOfFollowers
        invariant r == Ids(follower[..i])
      {
        assert Ids(follower[..i + 1]) == Ids(follower[..i]) + [follower[i].id];
        r := r + [follower[i].id];
      }
      assert follower[..numberOfFollowers] == follower;
    }

    /** `getFollows()`: the followed ids front to back, read through `numberOfFollows`. */
    method GetFollows() returns (r: seq<int>)
      requires Valid()
      ensures r == Ids(follows)
    {
      r := [];
      for i := 0 to numberOfFollows
        invariant r == Ids(follows[..i])
      {
        assert Ids(follows[..i + 1]) == Ids(follows[..i]) + [follows[i].id];
        r := r + [follows[i].id];
      }
      assert follows[..numberOfFollows] == follows;
    }

    /** `isAFollower(followsid)`: a linear search of `getFollows()`. */
    method IsAFollower(followsid: int) returns (b: bool)
      requires Valid()
      ensures b <==> followsid in Ids(follows)
    {
      var arrayOfFollows := GetFollows();
      for i := 0 to numberOfFollows
        invariant followsid !in arrayOfFollows[..i]
      {
        if arrayOfFollows[i] == followsid {
          return true;
        }
      }
      assert arrayOfFollows[..numberOfFollows] == arrayOfFollows;
      return false;
    }

    method GetNumberOfFollowers() returns (r: int)
      requires Valid()
      ensures r == |follower|
    {
      r := numberOfFollowers;
    }

    method GetNumberOfFollows() returns (r: int)
      requires Valid()
      ensures r == |follows|
    {
      r := numberOfFollows;
    }
  }

  /** The newest-first result list of the mutual queries (no counter). */
  class SortedList {
    var follower: seq<KeyValuePair>

    constructor ()
      ensures follower == []
    {
      follower := [];
    }

    method AddFollower(followerid: int, date: int)
      modifies this
      ensures follower == InsertNewest(old(follower), KeyValuePair(followerid, date), KvpDate)
    {
      follower := SpliceByDate(follower, KeyValuePair(followerid, date));
    }
  }

  // ---------------------------------------------------------------------------
  // The abstract follower graph and the specification of `addFollower`.

  datatype Edges = Edges(followers: seq<KeyValuePair>, follows: seq<KeyValuePair>)

  /** Every edge is recorded at both ends: `b` in `a`'s follows list exactly when `a`
      is in `b`'s follower list. */
  ghost predicate Consistent(g: map<int, Edges>)
  {
    (forall a, b :: a in g && b in Ids(g[a].follows) ==> b in g && a in Ids(g[b].followers)) &&
    (forall a, b :: a in g && b in Ids(g[a].followers) ==> b in g && a in Ids(g[b].follows))
  }

  /** Every list of the graph is newest first. */
  ghost predicate NewestFirst(g: map<int, Edges>)
  {
    forall u :: u in g ==> NonIncreasing(g[u].followers, KvpDate) && NonIncreasing(g[u].follows, KvpDate)
  }

  /** Steps 2 of `addFollower`: a user without a relationship gets an empty one. */
  function Ensure(g: map<int, Edges>, u: int): (g': map<int, Edges>)
    ensures u in g' && g'.Keys == g.Keys + {u}
    ensures forall v :: v in g ==> g'[v] == g[v]
    ensures u !in g ==> g'[u] == Edges([], [])
  {
    if u in g then g else g[u := Edges([], [])]
  }

  /** Steps 3 and 4 of `addFollower` between two users that both have relationships:
      refuse an edge that already exists, otherwise record it in `a`'s follows list and
      then in `b`'s follower list. */
  function Link(g: map<int, Edges>, a: int, b: int, date: int): (r: (map<int, Edges>, bool))
    requires a in g && b in g
    ensures r.1 <==> b !in Ids(g[a].follows)
    ensures r.0.Keys == g.Keys
  {
    if b in Ids(g[a].follows) then (g, false)
    else
      var g2 := g[a := Edges(g[a].followers, InsertNewest(g[a].follows, KeyValuePair(b, date), KvpDate))];
      (g2[b := Edges(InsertNewest(g2[b].followers, KeyValuePair(a, date), KvpDate), g2[b].follows)], true)
  }

  /** `Link` of a new edge, as its two list updates one after the other. */
  lemma LinkSteps(g: map<int, Edges>, a: int, b: int, date: int, g2: map<int, Edges>, g3: map<int, Edges>)
    requires a in g && b in g && b !in Ids(g[a].follows)
    requires g2 == g[a := Edges(g[a].followers, InsertNewest(g[a].follows, KeyValuePair(b, date), KvpDate))]
    requires g3 == g2[b := Edges(InsertNewest(g2[b].followers, KeyValuePair(a, date), KvpDate), g2[b].follows)]
    ensures Link(g, a, b, date) == (g3, true)
  {
  }

  /** `addFollower(a, b, date)` on the abstract graph: refuse a self-follow; create
      missing relationships; then `Link`. */
  function AddEdge(g: map<int, Edges>, a: int, b: int, date: int): (r: (map<int, Edges>, bool))
    ensures r.1 <==> a != b && !(a in g && b in Ids(g[a].follows))
  {
    if a == b then (g, false) else Link(Ensure(Ensure(g, a), b), a, b, date)
  }

  /** Once the missing relationships exist, `AddEdge` is `Link`. */
  lemma AddEdgeLink(g: map<int, Edges>, a: int, b: int, date: int, g1: map<int, Edges>)
    requires a != b && g1 == Ensure(Ensure(g, a), b)
    ensures a in g1 && b in g1 && AddEdge(g, a, b, date) == Link(g1, a, b, date)
  {
  }

  lemma InsertNewestIds(s: seq<KeyValuePair>, x: KeyValuePair)
    ensures forall u :: u in Ids(InsertNewest(s, x, KvpDate)) <==> u == x.id || u in Ids(s)
    ensures |InsertNewest(s, x, KvpDate)| == |s| + 1
  {
    InsertNewestMultiset(s, x, KvpDate);
    var t := InsertNewest(s, x, KvpDate);
    forall u ensures u in Ids(t) <==> u == x.id || u in Ids(s) {
      if u in Ids(t) {
        var i :| 0 <= i < |t| && t[i].id == u;
        assert t[i] in multiset(t);
        if t[i] != x {
          assert t[i] in multiset(s);
          var j :| 0 <= j < |s| && s[j] == t[i];
          assert Ids(s)[j] == u;
        }
      }
      if u == x.id {
        assert x in multiset(t);
        var i :| 0 <= i < |t| && t[i] == x;
        assert Ids(t)[i] == u;
      } else if u in Ids(s) {
        var j :| 0 <= j < |s| && s[j].id == u;
        assert s[j] in multiset(t);
        var i :| 0 <= i < |t| && t[i] == s[j];
        assert Ids(t)[i] == u;
      }
    }
  }

  /** A refused self-follow changes nothing. */
  lemma AddSelfRefused(g: map<int, Edges>, a: int, date: int)
    ensures AddEdge(g, a, a, date) == (g, false)
  {
  }

  /** A successful `addFollower(a, b, d)`: `b` is now among `a`'s follows and `a` among
      `b`'s followers, each of those two lists grew by exactly one, `a`'s follower list
      and `b`'s follows list are as before, and every other user is untouched. */
  lemma AddEffects(g: map<int, Edges>, a: int, b: int, date: int)
    requires AddEdge(g, a, b, date).1
    ensures var (g', _) := AddEdge(g, a, b, date);
      var ea, eb := Ensure(g, a)[a], Ensure(g, b)[b];
      g'.Keys == g.Keys + {a, b} &&
      b in Ids(g'[a].follows) && a in Ids(g'[b].followers) &&
      |g'[a].follows| == |ea.follows| + 1 && |g'[b].followers| == |eb.followers| + 1 &&
      g'[a].followers == ea.followers && g'[b].follows == eb.follows &&
      forall u :: u in g && u != a && u != b ==> g'[u] == g[u]
  {
    var g1 := Ensure(Ensure(g, a), b);
    InsertNewestIds(g1[a].follows, KeyValuePair(b, date));
    InsertNewestIds(g1[b].followers, KeyValuePair(a, date));
  }

  /** After a successful `addFollower(a, b, d)`, repeating it with any date is refused
      and changes nothing. */
  lemma AddTwiceRefused(g: map<int, Edges>, a: int, b: int, date: int, date': int)
    requires AddEdge(g, a, b, date).1
    ensures AddEdge(AddEdge(g, a, b, date).0, a, b, date') == (AddEdge(g, a, b, date).0, false)
  {
    AddEffects(g, a, b, date);
  }

  /** On a consistent graph a refused `addFollower` changes nothing, and a successful
      one keeps the graph consistent. */
  lemma AddKeepsConsistent(g: map<int, Edges>, a: int, b: int, date: int)
    requires Consistent(g)
    ensures !AddEdge(g, a, b, date).1 ==> AddEdge(g, a, b, date).0 == g
    ensures Consistent(AddEdge(g, a, b, date).0)
  {
    if a != b {
      var g1 := Ensure(Ensure(g, a), b);
      EnsureConsistent(g, a);
      EnsureConsistent(Ensure(g, a), b);
      if b in Ids(g1[a].follows) {
        assert a in g && b in Ids(g[a].follows);
        assert b in g;
        assert g1 == g;
      } else {
        LinkKeepsConsistent(g1, a, b, date);
      }
    }
  }

  /** Recording a new edge at both ends keeps a graph consistent. */
  lemma LinkKeepsConsistent(g: map<int, Edges>, a: int, b: int, date: int)
    requires a != b && a in g && b in g && Consistent(g)
    ensures Consistent(Link(g, a, b, date).0)
  {
    if b !in Ids(g[a].follows) {
      var g' := Link(g, a, b, date).0;
      InsertNewestIds(g[a].follows, KeyValuePair(b, date));
      InsertNewestIds(g[b].followers, KeyValuePair(a, date));
      assert g'[a].followers == g[a].followers && g'[b].follows == g[b].follows;
      forall x, y | x in g' && y in Ids(g'[x].follows) ensures y in g' && x in Ids(g'[y].followers) {
        if x == a && y == b {
        } else if x == a || x == b {
          assert y in Ids(g[x].follows);
        } else {
          assert g'[x] == g[x];
        }
      }
      forall x, y | x in g' && y in Ids(g'[x].followers) ensures y in g' && x in Ids(g'[y].follows) {
        if x == b && y == a {
        } else if x == a || x == b {
          assert y in Ids(g[x].followers);
        } else {
          assert g'[x] == g[x];
        }
      }
    }
  }

  /** `addFollower` keeps every list of the graph newest first. */
  lemma AddKeepsNewestFirst(g: map<int, Edges>, a: int, b: int, date: int)
    requires NewestFirst(g)
    ensures NewestFirst(AddEdge(g, a, b, date).0)
  {
    if a != b {
      var g1 := Ensure(Ensure(g, a), b);
      assert NewestFirst(g1);
      LinkKeepsNewestFirst(g1, a, b, date);
    }
  }

  /** Recording a new edge at both ends keeps every list newest first. */
  lemma LinkKeepsNewestFirst(g: map<int, Edges>, a: int, b: int, date: int)
    requires a in g && b in g && NewestFirst(g)
    ensures NewestFirst(Link(g, a, b, date).0)
  {
    if b !in Ids(g[a].follows) {
      var g2 := g[a := Edges(g[a].followers, InsertNewest(g[a].follows, KeyValuePair(b, date), KvpDate))];
      InsertNewestSorted(g[a].follows, KeyValuePair(b, date), KvpDate);
      assert NewestFirst(g2);
      InsertNewestSorted(g2[b].followers, KeyValuePair(a, date), KvpDate);
    }
  }

  // ---------------------------------------------------------------------------
  // The mutual queries.

  /** The matches of `x` (an element of the first list) against `B`, in `B`'s order:
      one copy of `x` for each element of `B` with the same id. */
  function MatchRow(x: KeyValuePair, B: seq<KeyValuePair>): seq<KeyValuePair>
  {
    if B == [] then []
    else MatchRow(x, B[..|B| - 1]) + (if B[|B| - 1].id == x.id then [x] else [])
  }

  /** Every match the nested loops of `getMutualFollowers` find, in the order they find
      them: the outer loop over `A`, the inner over `B`; the element kept is `A`'s. */
  function Matches(A: seq<KeyValuePair>, B: seq<KeyValuePair>): seq<KeyValuePair>
  {
    if A == [] then []
    else Matches(A[..|A| - 1], B) + MatchRow(A[|A| - 1], B)
  }

  /** Splicing the elements of `xs`, in order, into `list`. */
  function InsertAll(list: seq<KeyValuePair>, xs: seq<KeyValuePair>): seq<KeyValuePair>
  {
    if xs == [] then list
    else InsertNewest(InsertAll(list, xs[..|xs| - 1]), xs[|xs| - 1], KvpDate)
  }

  lemma {:induction false} MatchRowContents(x: KeyValuePair, B: seq<KeyValuePair>)
    ensures forall e :: e in MatchRow(x, B) ==> e == x
    ensures MatchRow(x, B) != [] <==> x.id in Ids(B)
  {
    if B != [] {
      var B' := B[..|B| - 1];
      MatchRowContents(x, B');
      assert Ids(B) == Ids(B') + [B[|B| - 1].id];
    }
  }

  /** Each element found is an edge of the first list whose id is on the second. */
  lemma {:induction false} MatchesContents(A: seq<KeyValuePair>, B: seq<KeyValuePair>)
    ensures forall e :: e in Matches(A, B) ==> e in A && e.id in Ids(B)
  {
    if A != [] {
      var A', x := A[..|A| - 1], A[|A| - 1];
      MatchesContents(A', B);
      MatchRowContents(x, B);
      var M', R := Matches(A', B), MatchRow(x, B);
      assert A == A' + [x];
      forall e | e in M' + R ensures e in A && e.id in Ids(B) {
        if e in M' {
          assert e in A';
        }
      }
    }
  }

  /** Every id found is on both lists. */
  lemma MatchesIdsBoth(A: seq<KeyValuePair>, B: seq<KeyValuePair>)
    ensures forall u :: u in Ids(Matches(A, B)) ==> u in Ids(A) && u in Ids(B)
  {
    var M := Matches(A, B);
    MatchesContents(A, B);
    forall u | u in Ids(M) ensures u in Ids(A) && u in Ids(B) {
      var i :| 0 <= i < |M| && M[i].id == u;
      assert M[i] in M;
      var t :| 0 <= t < |A| && A[t] == M[i];
      assert Ids(A)[t] == u;
    }
  }

  /** Every id on both lists is found. */
  lemma {:induction false} MatchesIdsFound(A: seq<KeyValuePair>, B: seq<KeyValuePair>)
    ensures forall u :: u in Ids(A) && u in Ids(B) ==> u in Ids(Matches(A, B))
  {
    if A != [] {
      var A', x := A[..|A| - 1], A[|A| - 1];
      MatchesIdsFound(A', B);
      MatchRowContents(x, B);
      var M', R := Matches(A', B), MatchRow(x, B);
      var M := M' + R;
      assert M == Matches(A, B);
      forall u | u in Ids(A) && u in Ids(B) ensures u in Ids(M) {
        var i :| 0 <= i < |A| && A[i].id == u;
        if i < |A'| {
          assert Ids(A')[i] == u;
          var j :| 0 <= j < |M'| && M'[j].id == u;
          assert Ids(M)[j] == u;
        } else {
          assert x.id == u && R != [];
          assert R[0] in R;
          assert Ids(M)[|M'|] == u;
        }
      }
    }
  }

  /** Splicing keeps a newest-first list newest first and adds exactly the spliced
      elements. */
  lemma {:induction false} InsertAllContents(list: seq<KeyValuePair>, xs: seq<KeyValuePair>)
    requires NonIncreasing(list, KvpDate)
    ensures NonIncreasing(InsertAll(list, xs), KvpDate)
    ensures multiset(InsertAll(list, xs)) == multiset(list) + multiset(xs)
    ensures |InsertAll(list, xs)| == |list| + |xs|
  {
    if xs != [] {
      var xs', x := xs[..|xs| - 1], xs[|xs| - 1];
      InsertAllContents(list, xs');
      InsertNewestSorted(InsertAll(list, xs'), x, KvpDate);
      InsertNewestMultiset(InsertAll(list, xs'), x, KvpDate);
      assert xs == xs' + [x];
    }
  }

  /** Two rearrangements of each other hold the same elements and the same ids. */
  lemma SameElements(r: seq<KeyValuePair>, M: seq<KeyValuePair>)
    requires multiset(r) == multiset(M)
    ensures forall e :: e in r <==> e in M
    ensures forall u :: u in Ids(r) <==> u in Ids(M)
  {
    assert forall e :: e in r <==> e in multiset(M);
    forall u ensures u in Ids(r) <==> u in Ids(M) {
      if u in Ids(r) {
        var i :| 0 <= i < |r| && r[i].id == u;
        assert r[i] in multiset(M);
        var j :| 0 <= j < |M| && M[j] == r[i];
        assert Ids(M)[j] == u;
      }
      if u in Ids(M) {
        var j :| 0 <= j < |M| && M[j].id == u;
        assert M[j] in multiset(r);
        var i :| 0 <= i < |r| && r[i] == M[j];
        assert Ids(r)[i] == u;
      }
    }
  }

  /** What `getMutualFollowers` / `getMutualFollows` return: the common ids, newest first
      by the date on the first user's edge, one entry per match found. */
  lemma MutualResult(A: seq<KeyValuePair>, B: seq<KeyValuePair>)
    ensures forall u :: u in Ids(InsertAll([], Matches(A, B))) <==> u in Ids(A) && u in Ids(B)
    ensures forall e :: e in InsertAll([], Matches(A, B)) ==> e in A
    ensures NonIncreasing(InsertAll([], Matches(A, B)), KvpDate)
    ensures |InsertAll([], Matches(A, B))| == |Matches(A, B)|
  {
    MatchesContents(A, B);
    MatchesIdsBoth(A, B);
    MatchesIdsFound(A, B);
    InsertAllContents([], Matches(A, B));
    SameElements(InsertAll([], Matches(A, B)), Matches(A, B));
  }

  /** The inner loop of the mutual queries for one element `x` of the first list: each
      element of `B` with the same id adds `x` to the result list and counts it. */
  method MatchRowInto(list: SortedList, x: KeyValuePair, B: seq<KeyValuePair>, count: int, ghost done: seq<KeyValuePair>) returns (count': int)
    requires list.follower == InsertAll([], done) && count == |list.follower|
    modifies list
    ensures list.follower == InsertAll([], done + MatchRow(x, B))
    ensures count' == |list.follower|
  {
    count' := count;
    assert B[..0] == [];
    assert done + MatchRow(x, B[..0]) == done;
    for j := 0 to |B|
      invariant list.follower == InsertAll([], done + MatchRow(x, B[..j]))
      invariant count' == |list.follower|
    {
      ghost var prefix := done + MatchRow(x, B[..j]);
      assert B[..j + 1][..j] == B[..j];
      assert B[..j + 1][j] == B[j];
      if x.id == B[j].id {
        assert done + MatchRow(x, B[..j + 1]) == prefix + [x];
        assert (prefix + [x])[..|prefix|] == prefix;
        InsertNewestMultiset(list.follower, x, KvpDate);
        list.AddFollower(x.id, x.date);
        count' := count' + 1;
      } else {
        assert done + MatchRow(x, B[..j + 1]) == prefix;
      }
    }
    assert B[..|B|] == B;
  }

  /** Steps 1-3 of `getMutualFollowers` on the two lists: the nested loops with their
      cursors, the `SortedList` and its `count`, then the copy into the result. */
  method MutualIds(A: seq<KeyValuePair>, B: seq<KeyValuePair>) returns (r: seq<int>)
    ensures r == Ids(InsertAll([], Matches(A, B)))
  {
    var sortedList := new SortedList();
    var count := 0;
    assert A[..0] == [];
    for i := 0 to |A|
      invariant sortedList.follower == InsertAll([], Matches(A[..i], B))
      invariant count == |sortedList.follower|
    {
      count := MatchRowInto(sortedList, A[i], B, count, Matches(A[..i], B));
      assert A[..i + 1][..i] == A[..i];
      assert A[..i + 1][i] == A[i];
    }
    assert A[..|A|] == A;
    r := [];
    for k := 0 to count
      invariant r == Ids(sortedList.follower[..k])
    {
      assert Ids(sortedList.follower[..k + 1]) == Ids(sortedList.follower[..k]) + [sortedList.follower[k].id];
      r := r + [sortedList.follower[k].id];
    }
    assert sortedList.follower[..count] == sortedList.follower;
  }

  // ---------------------------------------------------------------------------
  // `getTopUsers`.

  /** The pair `inorder` builds for one relationship: its user id and follower counter. */
  function TopUserPair(rel: FollowerRelationship): KeyValuePairTopUsers
    reads rel
  {
    KeyValuePairTopUsers(rel.userid, rel.numberOfFollowers)
  }

  /** The pairs of a run of index entries, in order. */
  ghost function Snapshot(s: seq<(int, FollowerRelationship)>): seq<KeyValuePairTopUsers>
    reads set k | 0 <= k < |s| :: s[k].1
  {
    seq(|s|, i requires 0 <= i < |s| reads set k | 0 <= k < |s| :: s[k].1 => TopUserPair(s[i].1))
  }

  /** The recursive `inorder(x, kvpArray)`: `count` is the index object's cursor field,
      passed in and handed back. */
  method InorderFill(x: Tree<int, FollowerRelationship>, kvpArray: array<KeyValuePairTopUsers>, count: int) returns (count': int)
    requires 0 <= count && count + |Inorder(x)| <= kvpArray.Length
    modifies kvpArray
    ensures count' == count + |Inorder(x)|
    ensures forall k :: 0 <= k < kvpArray.Length && !(count <= k < count') ==> kvpArray[k] == old(kvpArray[k])
    ensures forall k :: count <= k < count' ==> kvpArray[k] == TopUserPair(Inorder(x)[k - count].1)
    decreases x
  {
    if x.Leaf? {
      return count;
    }
    InorderAllocated(x.left);
    var c1 := InorderFill(x.left, kvpArray, count);
    label Left:
    kvpArray[c1] := TopUserPair(x.val);
    label Middle:
    count' := InorderFill(x.right, kvpArray, c1 + 1);
    var L, R := Inorder(x.left), Inorder(x.right);
    assert Inorder(x) == L + [(x.key, x.val)] + R;
    forall k | count <= k < count' ensures kvpArray[k] == TopUserPair(Inorder(x)[k - count].1) {
      if k < c1 {
        assert Inorder(x)[k - count] == L[k - count];
        assert kvpArray[k] == old@Left(kvpArray[k]);
      } else if k == c1 {
        assert Inorder(x)[k - count] == (x.key, x.val);
        assert kvpArray[k] == old@Middle(kvpArray[k]);
      } else {
        assert Inorder(x)[k - count] == R[k - c1 - 1];
      }
    }
  }

  lemma {:induction false} InorderAllocated(x: Tree<int, FollowerRelationship>)
    ensures forall e :: e in Inorder(x) ==> allocated(e.1)
  {
    if x.Node? {
      InorderAllocated(x.left);
      InorderAllocated(x.right);
    }
  }

  /** The copy loop of `getTopUsers`: the ids of the ranked pairs, in order. */
  method UserIds(pairs: seq<KeyValuePairTopUsers>) returns (r: seq<int>)
    ensures |r| == |pairs| && forall k :: 0 <= k < |r| ==> r[k] == pairs[k].id
  {
    r := [];
    for i := 0 to |pairs|
      invariant |r| == i && forall k :: 0 <= k < i ==> r[k] == pairs[k].id
    {
      r := r + [pairs[i].id];
    }
  }

  /** `inorder()`: an array of `size()` pairs in id order; the cursor starts at 0. */
  method TopUserPairs(bst: RedBlackBST<int, FollowerRelationship>) returns (kvpArray: array<KeyValuePairTopUsers>)
    requires bst.Valid()
    ensures fresh(kvpArray) && kvpArray[..] == old(Snapshot(bst.Entries()))
  {
    ghost var pairs := Snapshot(bst.Entries());
    var size := bst.Size();
    kvpArray := new KeyValuePairTopUsers[size];
    var count := InorderFill(bst.root, kvpArray, 0);
    forall k | 0 <= k < size ensures kvpArray[k] == pairs[k] {
      assert pairs[k] == old(TopUserPair(bst.Entries()[k].1));
    }
  }

  /** Giving a user an empty relationship keeps the graph consistent. */
  lemma EnsureConsistent(g: map<int, Edges>, u: int)
    requires Consistent(g)
    ensures Consistent(Ensure(g, u))
  {
  }

  /** The relationships' edge lists, as the graph sees them. */
  ghost function EdgesOf(rel: FollowerRelationship): Edges
    reads rel
  {
    Edges(rel.follower, rel.follows)
  }

  /** The follower index is valid and holds exactly `rels`; each relationship is stored
      under its own user id and keeps its counters. */
  ghost predicate FollowIndex(bst: RedBlackBST<int, FollowerRelationship>, rels: map<int, FollowerRelationship>)
    reads bst, rels.Values
  {
    bst.Valid() && bst.Contents() == rels &&
    (forall k :: k in rels ==> rels[k].userid == k && rels[k].Valid())
  }

  /** Each user id of the index, mapped to its relationship's two edge lists. */
  ghost function GraphOf(rels: map<int, FollowerRelationship>): map<int, Edges>
    reads rels.Values
  {
    map k | k in rels :: EdgesOf(rels[k])
  }

  /** Lines 81-84 (and 86-89) of `addFollower`: a new, empty relationship for `uid`,
      put into the index; `rels'` is the index afterwards. */
  method CreateRelationship(bst: RedBlackBST<int, FollowerRelationship>, ghost rels: map<int, FollowerRelationship>, uid: int)
      returns (rel: FollowerRelationship, ghost rels': map<int, FollowerRelationship>)
    requires FollowIndex(bst, rels) && uid !in rels
    modifies bst
    ensures FollowIndex(bst, rels') && fresh(rel) && rels' == rels[uid := rel]
    ensures GraphOf(rels') == Ensure(old(GraphOf(rels)), uid)
  {
    ghost var g := GraphOf(rels);
    rel := new FollowerRelationship(uid);
    bst.Put(uid, rel);
    rels' := rels[uid := rel];
    assert GraphOf(rels') == Ensure(g, uid);
  }

  /** The relationship `get(uid)` found, or a new one when it found none. */
  method Resolve(bst: RedBlackBST<int, FollowerRelationship>, ghost rels: map<int, FollowerRelationship>, uid: int,
                 found: Option<FollowerRelationship>)
      returns (rel: FollowerRelationship, ghost rels': map<int, FollowerRelationship>)
    requires FollowIndex(bst, rels) && found == (if uid in rels then Some(rels[uid]) else None)
    modifies bst
    ensures FollowIndex(bst, rels') && rels' == rels[uid := rel]
    ensures if uid in rels then rel == rels[uid] else fresh(rel)
    ensures GraphOf(rels') == Ensure(old(GraphOf(rels)), uid)
  {
    if found.None? {
      rel, rels' := CreateRelationship(bst, rels, uid);
    } else {
      rel, rels' := found.value, rels;
    }
  }

  /** Lines 77-89 of `addFollower`: `get` both users, then give each one that is
      missing a new relationship; `rels'` is the index afterwards. */
  method FindOrCreate(bst: RedBlackBST<int, FollowerRelationship>, ghost rels: map<int, FollowerRelationship>, uid1: int, uid2: int)
      returns (one: FollowerRelationship, two: FollowerRelationship, ghost rels': map<int, FollowerRelationship>)
    requires FollowIndex(bst, rels) && uid1 != uid2
    modifies bst
    ensures FollowIndex(bst, rels')
    ensures rels' == rels[uid1 := one][uid2 := two]
    ensures if uid1 in rels then one == rels[uid1] else fresh(one)
    ensures if uid2 in rels then two == rels[uid2] else fresh(two)
    ensures GraphOf(rels') == Ensure(Ensure(old(GraphOf(rels)), uid1), uid2)
  {
    var userOne := bst.Get(uid1);
    var userTwo := bst.Get(uid2);
    ghost var r1;
    ghost var g0 := GraphOf(rels);
    one, r1 := Resolve(bst, rels, uid1, userOne);
    assert GraphOf(r1) == Ensure(g0, uid1);
    two, rels' := Resolve(bst, r1, uid2, userTwo);
  }

  /** The follower store: one relationship per user id in a red-black index.
      `rels` is the index's content as a map from user id to relationship object. */
  class FollowerStore {
    const followerBST: RedBlackBST<int, FollowerRelationship>
    ghost var rels: map<int, FollowerRelationship>

    /** Each user id of the index, mapped to its relationship's two edge lists. */
    ghost function Graph(): map<int, Edges>
      reads this, rels.Values
    {
      GraphOf(rels)
    }

    /** The index is valid and holds exactly `rels`. */
    ghost predicate Valid()
      reads this, followerBST, rels.Values
    {
      FollowIndex(followerBST, rels)
    }

    constructor ()
      ensures Valid() && Graph() == map[]
    {
      IntLessIsStrictTotalOrder();
      followerBST := new RedBlackBST<int, FollowerRelationship>(IntLess);
      rels := map[];
    }

    /** Every list of a valid store is newest first. */
    lemma GraphNewestFirst()
      requires Valid()
      ensures NewestFirst(Graph())
    {
    }

    /** The relationship `get(uid)` finds for a user of the graph. */
    method Find(uid: int) returns (rel: FollowerRelationship)
      requires Valid() && uid in Graph()
      ensures rel == rels[uid]
    {
      var search := followerBST.Get(uid);
      rel := search.value;
    }

    /** `addFollower(uid1, uid2, followDate)`: exactly `AddEdge` on the graph, with the
        same verdict. */
    method AddFollower(uid1: int, uid2: int, followDate: int) returns (ok: bool)
      requires Valid()
      modifies this, followerBST, rels.Values
      ensures Valid()
      ensures (Graph(), ok) == AddEdge(old(Graph()), uid1, uid2, followDate)
    {
      if uid1 == uid2 {
        return false;
      }
      ghost var g0 := Graph();
      var one, two;
      ghost var r;
      one, two, r := FindOrCreate(followerBST, rels, uid1, uid2);
      assert forall k :: k in r ==> r[k] as object != this;
      rels := r;
      AddEdgeLink(g0, uid1, uid2, followDate, Graph());
      ok := LinkUsers(uid1, uid2, followDate, one, two);
    }

    /** Lines 93-107 of `addFollower`: `Link` on the stored relationships. */
    method LinkUsers(uid1: int, uid2: int, followDate: int, one: FollowerRelationship, two: FollowerRelationship) returns (ok: bool)
      requires Valid() && uid1 != uid2 && uid1 in rels && uid2 in rels
      requires one == rels[uid1] && two == rels[uid2]
      modifies one, two
      ensures Valid() && rels == old(rels)
      ensures (Graph(), ok) == Link(old(Graph()), uid1, uid2, followDate)
    {
      ghost var g := Graph();
      var already := IsAFollower(uid1, uid2);
      if already {
        return false;
      }
      RecordFollows(uid1, uid2, followDate, one);
      ghost var g2 := Graph();
      RecordFollower(uid2, uid1, followDate, two);
      ok := true;
      LinkSteps(g, uid1, uid2, followDate, g2, Graph());
    }

    /** `userOne.addFollows(uid2, followDate)` on a stored relationship. */
    method RecordFollows(uid: int, other: int, date: int, rel: FollowerRelationship)
      requires Valid() && uid in rels && rel == rels[uid]
      modifies rel
      ensures Valid() && rels == old(rels)
      ensures var e := old(Graph())[uid];
        Graph() == old(Graph())[uid := Edges(e.followers, InsertNewest(e.follows, KeyValuePair(other, date), KvpDate))]
    {
      rel.AddFollows(other, date);
      forall k | k in rels && k != uid ensures rels[k] != rel {
      }
    }

    /** `userTwo.addFollower(uid1, followDate)` on a stored relationship. */
    method RecordFollower(uid: int, other: int, date: int, rel: FollowerRelationship)
      requires Valid() && uid in rels && rel == rels[uid]
      modifies rel
      ensures Valid() && rels == old(rels)
      ensures var e := old(Graph())[uid];
        Graph() == old(Graph())[uid := Edges(InsertNewest(e.followers, KeyValuePair(other, date), KvpDate), e.follows)]
    {
      rel.AddFollower(other, date);
      forall k | k in rels && k != uid ensures rels[k] != rel {
      }
    }

    /** `getFollowers(uid)`: the ids following `uid`, newest first. */
    method GetFollowers(uid: int) returns (r: seq<int>)
      requires Valid() && uid in Graph()
      ensures r == Ids(Graph()[uid].followers)
    {
      var search := Find(uid);
      r := search.GetFollowers();
    }

    /** `getFollows(uid)`: the ids `uid` follows, newest first. */
    method GetFollows(uid: int) returns (r: seq<int>)
      requires Valid() && uid in Graph()
      ensures r == Ids(Graph()[uid].follows)
    {
      var search := Find(uid);
      r := search.GetFollows();
    }

    /** `isAFollower(uidFollower, uidFollows)`: whether the first follows the second. */
    method IsAFollower(uidFollower: int, uidFollows: int) returns (b: bool)
      requires Valid() && uidFollower in Graph()
      ensures b <==> uidFollows in Ids(Graph()[uidFollower].follows)
    {
      var search := Find(uidFollower);
      b := search.IsAFollower(uidFollows);
    }

    /** `getNumFollowers(uid)`: the stored counter, which is the follower list's length. */
    method GetNumFollowers(uid: int) returns (r: int)
      requires Valid() && uid in Graph()
      ensures r == |Graph()[uid].followers|
    {
      var search := Find(uid);
      r := search.GetNumberOfFollowers();
    }

    /** `getMutualFollowers(uid1, uid2)`: the matches of the two follower lists, spliced
        newest first (see `MutualResult`). */
    method GetMutualFollowers(uid1: int, uid2: int) returns (r: seq<int>)
      requires Valid() && uid1 in Graph() && uid2 in Graph()
      ensures r == Ids(InsertAll([], Matches(Graph()[uid1].followers, Graph()[uid2].followers)))
    {
      var one := followerBST.Get(uid1);
      var two := followerBST.Get(uid2);
      r := MutualIds(one.value.follower, two.value.follower);
    }

    /** `getMutualFollows(uid1, uid2)`: the same over the two follows lists. */
    method GetMutualFollows(uid1: int, uid2: int) returns (r: seq<int>)
      requires Valid() && uid1 in Graph() && uid2 in Graph()
      ensures r == Ids(InsertAll([], Matches(Graph()[uid1].follows, Graph()[uid2].follows)))
    {
      var one := followerBST.Get(uid1);
      var two := followerBST.Get(uid2);
      r := MutualIds(one.value.follows, two.value.follows);
    }

    /** The pairs `inorder()` builds from a valid store: one per user, each carrying
        that user's follower count, and no id twice. */
    lemma SnapshotRanks()
      requires Valid()
      ensures |Snapshot(followerBST.Entries())| == |followerBST.Entries()|
      ensures PairsOf(Graph(), Snapshot(followerBST.Entries()))
    {
      var E := followerBST.Entries();
      var P := Snapshot(E);
      var g := Graph();
      followerBST.EntriesContents();
      forall k | 0 <= k < |P| ensures P[k].id == E[k].0 && E[k].0 in g && P[k].followers == |g[E[k].0].followers| {
        var rel := rels[E[k].0];
        assert E[k].1 == rel;
        assert P[k] == TopUserPair(rel);
      }
      forall u | u in g ensures exists k :: 0 <= k < |P| && P[k].id == u {
        var k :| 0 <= k < |E| && E[k].0 == u;
        assert P[k].id == u;
      }
      forall i, j | 0 <= i < j < |P| ensures P[i].id != P[j].id {
        assert followerBST.less(E[i].0, E[j].0);
      }
    }

    /** `getTopUsers()`: every user exactly once, most followed first. */
    method GetTopUsers() returns (r: seq<int>)
      requires Valid() && Graph() != map[]
      ensures forall u :: u in r <==> u in Graph()
      ensures forall k :: 0 <= k < |r| ==> r[k] in Graph()
      ensures forall i, j :: 0 <= i < j < |r| ==> r[i] != r[j]
      ensures forall i, j :: 0 <= i < j < |r| ==> |Graph()[r[i]].followers| >= |Graph()[r[j]].followers|
    {
      ghost var g := Graph();
      ghost var pairs := Snapshot(followerBST.Entries());
      SnapshotRanks();
      var kvpArray := TopUserPairs(followerBST);
      assert kvpArray[..] == pairs;
      var size := followerBST.Size();
      r := RankedIds(kvpArray, size, g);
      assert Graph() == g;
    }
  }

  /** The rest of `getTopUsers`: `quickSort(kvpArray, 0, size - 1)`, then the ids of
      the sorted pairs in order. */
  method RankedIds(kvpArray: array<KeyValuePairTopUsers>, size: int, ghost g: map<int, Edges>) returns (r: seq<int>)
    requires g != map[] && size == kvpArray.Length && PairsOf(g, kvpArray[..])
    modifies kvpArray
    ensures forall u :: u in r <==> u in g
    ensures forall k :: 0 <= k < |r| ==> r[k] in g
    ensures forall i, j :: 0 <= i < j < |r| ==> r[i] != r[j]
    ensures forall i, j :: 0 <= i < j < |r| ==> |g[r[i]].followers| >= |g[r[j]].followers|
  {
    ghost var pairs := kvpArray[..];
    assert size > 0 by {
      assert (forall u :: u !in g) ==> g == map[];
      var u :| u in g;
      var k :| 0 <= k < |pairs| && pairs[k].id == u;
    }
    QuickSort(kvpArray, 0, size - 1, FollowerCount);
    r := UserIds(kvpArray[..]);
    RankedUsers(g, pairs, kvpArray[..], r);
  }

  /** `pairs` has one entry per user of `g`, with that user's follower count, and no id
      twice. */
  ghost predicate PairsOf(g: map<int, Edges>, pairs: seq<KeyValuePairTopUsers>)
  {
    (forall k :: 0 <= k < |pairs| ==> pairs[k].id in g && pairs[k].followers == |g[pairs[k].id].followers|) &&
    (forall u :: u in g ==> exists k :: 0 <= k < |pairs| && pairs[k].id == u) &&
    (forall i, j :: 0 <= i < j < |pairs| ==> pairs[i].id != pairs[j].id)
  }

  /** Ranking such pairs by count and keeping the ids lists every user once, most
      followed first. */
  lemma RankedUsers(g: map<int, Edges>, pairs: seq<KeyValuePairTopUsers>, sorted: seq<KeyValuePairTopUsers>, r: seq<int>)
    requires PairsOf(g, pairs)
    requires multiset(pairs) == multiset(sorted)
    requires SortedDescBetween(sorted, 0, |sorted| - 1, FollowerCount)
    requires |r| == |sorted| && forall k :: 0 <= k < |r| ==> r[k] == sorted[k].id
    ensures forall u :: u in r <==> u in g
    ensures forall k :: 0 <= k < |r| ==> r[k] in g
    ensures forall i, j :: 0 <= i < j < |r| ==> r[i] != r[j]
    ensures forall i, j :: 0 <= i < j < |r| ==> |g[r[i]].followers| >= |g[r[j]].followers|
  {
    PermutedKeys(pairs, sorted, TopUserId);
    forall u ensures u in r <==> u in g {
      if u in r {
        var i :| 0 <= i < |r| && r[i] == u;
        assert sorted[i] in pairs;
      }
      if u in g {
        var t :| 0 <= t < |pairs| && pairs[t].id == u;
        assert pairs[t] in sorted;
        var i :| 0 <= i < |sorted| && sorted[i] == pairs[t];
        assert r[i] == u;
      }
    }
    forall i, j | 0 <= i < j < |r| ensures |g[r[i]].followers| >= |g[r[j]].followers| {
      assert sorted[i] in pairs && sorted[j] in pairs;
      assert FollowerCount(sorted[i]) >= FollowerCount(sorted[j]);
    }
  }
}
