/**
 * The user store: `useridBST`, a unique-key index from user id to user, and
 * `userdateBST`, the descending-join-date index that every listing walks in order.
 */
module Users {
  import opened Wrappers
  import opened Seqs
  import opened Recency
  import opened Orders
  import opened Queues
  import opened RedBlackTrees
  import opened Text
  import opened Catalogs

  /** The fields of a user the store reads. */
  datatype User = User(id: int, name: string, dateJoined: int)

  function UserId(u: User): int { u.id }

  function JoinDate(u: User): int { u.dateJoined }

  /** The test of `inOrderUsersContaining`: the name contains `query`. */
  function NameContains(query: string): User -> bool
  {
    (u: User) => Contains(u.name, query)
  }

  /** The test of `inOrderUsersBefore`: the join date is strictly before `date`. */
  function JoinedBefore(date: int): User -> bool
  {
    (u: User) => u.dateJoined < date
  }

  class UserStore {
    const useridBST: RedBlackBST<int, User>
    const userdateBST: DateRedBlackBST<User>
    var size: int

    /** Every user stored under its id. */
    ghost function ById(): map<int, User>
      reads this, useridBST
    {
      useridBST.Contents()
    }

    /** Every user, latest join date first: what `inOrderUsers` lists. */
    ghost function Users(): seq<User>
      reads this, userdateBST
    {
      userdateBST.Items()
    }

    /** Both indexes are valid and hold the same users; `size` counts them. */
    ghost predicate Valid()
      reads this, useridBST, userdateBST
    {
      useridBST.Valid() && userdateBST.Valid() && userdateBST.dateOf == JoinDate &&
      Indexed(ById(), Users(), UserId) && size == |Users()|
    }

    constructor ()
      ensures Valid() && ById() == map[] && Users() == []
    {
      IntLessIsStrictTotalOrder();
      useridBST := new RedBlackBST<int, User>(IntLess);
      userdateBST := new DateRedBlackBST<User>(JoinDate);
      size := 0;
    }

    /** The listing order of a valid store: latest join date first, no user twice,
        and a user is listed exactly when it is stored under its id. */
    lemma UsersListed()
      requires Valid()
      ensures NonIncreasing(Users(), JoinDate)
      ensures forall i, j :: 0 <= i < j < |Users()| ==> Users()[i].id != Users()[j].id
      ensures forall u :: u in Users() <==> u.id in ById() && ById()[u.id] == u
    {
      userdateBST.ItemsNewestFirst();
    }

    /** `addUser(usr)`: a user whose id is already stored is refused and nothing
        changes; otherwise it goes into both indexes and `size` grows by one. */
    method AddUser(usr: User) returns (ok: bool)
      requires Valid()
      modifies this, useridBST, userdateBST
      ensures Valid()
      ensures ok <==> usr.id !in old(ById())
      ensures !ok ==> ById() == old(ById()) && Users() == old(Users()) && size == old(size)
      ensures ok ==> ById() == old(ById())[usr.id := usr]
      ensures ok ==> Users() == InsertNewest(old(Users()), usr, JoinDate)
      ensures ok ==> size == old(size) + 1 && useridBST.n == old(useridBST.n) + 1 && userdateBST.n == old(userdateBST.n) + 1
    {
      var found := GetUser(usr.id);
      if found.Some? {
        return false;
      }
      InsertUser(usr);
      ok := true;
    }

    /** Lines 81-83 of `addUser`: put a user with a new id into both indexes. */
    method InsertUser(usr: User)
      requires Valid() && usr.id !in ById()
      modifies this, useridBST, userdateBST
      ensures Valid()
      ensures ById() == old(ById())[usr.id := usr]
      ensures Users() == InsertNewest(old(Users()), usr, JoinDate)
      ensures size == old(size) + 1 && useridBST.n == old(useridBST.n) + 1 && userdateBST.n == old(userdateBST.n) + 1
    {
      ghost var m0, s0 := ById(), Users();
      IndexedAdd(m0, s0, usr, UserId, JoinDate);
      useridBST.Put(usr.id, usr);
      userdateBST.Put(usr);
      size := size + 1;
      assert ById() == m0[usr.id := usr];
      assert Users() == InsertNewest(s0, usr, JoinDate);
    }

    /** `getUser(uid)`: the user stored under `uid`, `None` where Java returns `null`. */
    method GetUser(uid: int) returns (r: Option<User>)
      requires Valid()
      ensures r.None? <==> uid !in ById()
      ensures r.Some? ==> r.value == ById()[uid] && r.value.id == uid && r.value in Users()
    {
      r := useridBST.Get(uid);
    }

    /** `getUsers()`: every user, latest join date first. */
    method GetUsers() returns (r: seq<User>)
      requires Valid()
      ensures r == Users()
    {
      var userQueue := userdateBST.InOrder();
      r := QueueToArray(userQueue);
    }

    /** `getUsersContaining(query)`: the users whose name contains `query`, in the
        order of `getUsers()`. */
    method GetUsersContaining(query: string) returns (r: seq<User>)
      requires Valid()
      ensures r == Filter(Users(), NameContains(query))
      ensures forall u :: u in r <==> u in Users() && Contains(u.name, query)
      ensures NonIncreasing(r, JoinDate)
    {
      var keep := NameContains(query);
      var userQueue := userdateBST.InOrderWhere(keep);
      r := QueueToArray(userQueue);
      Listed(keep, r);
    }

    /** `getUsersJoinedBefore(dateBefore)`: the users who joined strictly before
        `dateBefore`, in the order of `getUsers()`. */
    method GetUsersJoinedBefore(dateBefore: int) returns (r: seq<User>)
      requires Valid()
      ensures r == Filter(Users(), JoinedBefore(dateBefore))
      ensures forall u :: u in r <==> u in Users() && u.dateJoined < dateBefore
      ensures NonIncreasing(r, JoinDate)
    {
      var keep := JoinedBefore(dateBefore);
      var userQueue := userdateBST.InOrderWhere(keep);
      r := QueueToArray(userQueue);
      Listed(keep, r);
    }

    /** A filtered listing holds exactly the listed users that pass, newest first. */
    lemma Listed(keep: User -> bool, r: seq<User>)
      requires Valid() && r == Filter(Users(), keep)
      ensures forall u :: u in r <==> u in Users() && keep(u)
      ensures NonIncreasing(r, JoinDate)
    {
      UsersListed();
      forall u ensures u in r <==> u in Users() && keep(u) {
        FilterContents(Users(), keep, u);
      }
      FilterNewestFirst(Users(), keep, JoinDate);
    }
  }
}
