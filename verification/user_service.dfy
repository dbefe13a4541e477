/** `UserServiceImpl`: the in-memory user directory, a hash map from id to
    user with a counter that issues ids from 1. */
module UserService {
  import opened Common
  import opened Entities

  datatype UserStore = UserStore(users: map<int, User>, nextId: int)

  /** The store right after construction. */
  function Empty(): (s: UserStore)
    ensures s.users == map[] && s.nextId == 1
  {
    UserStore(map[], 1)
  }

  /** Every entry is filed under its own id, and every id was issued:
      it lies in `1 .. nextId - 1`. */
  ghost predicate Valid(s: UserStore) {
    && 1 <= s.nextId
    && forall id :: id in s.users ==> s.users[id].id == id && 1 <= id < s.nextId
  }

  lemma EmptyIsValid()
    ensures Valid(Empty())
  {
  }

  /** `create`: any id in the body is ignored; the user gets `nextId`,
      which then advances. */
  function Create(s: UserStore, name: string, email: string): (r: (UserStore, User))
    ensures r.1 == User(s.nextId, name, email)
    ensures r.0.nextId == s.nextId + 1
    ensures r.0.users.Keys == s.users.Keys + {s.nextId}
    ensures r.0.users[s.nextId] == r.1
    ensures forall id :: id in s.users && id != s.nextId ==> r.0.users[id] == s.users[id]
  {
    var u := User(s.nextId, name, email);
    (UserStore(s.users[s.nextId := u], s.nextId + 1), u)
  }

  /** In a valid store the new id is fresh, so no user is overwritten. */
  lemma CreateIsFresh(s: UserStore, name: string, email: string)
    requires Valid(s)
    ensures s.nextId !in s.users
    ensures Valid(Create(s, name, email).0)
    ensures |Create(s, name, email).0.users| == |s.users| + 1
    ensures forall id :: id in s.users ==> Create(s, name, email).0.users[id] == s.users[id]
  {
    var s' := Create(s, name, email).0;
    assert s'.users.Keys == s.users.Keys + {s.nextId};
    assert |s'.users.Keys| == |s.users.Keys| + 1;
  }

  /** Ids are issued in strictly increasing order. */
  lemma CreateIdsIncrease(s: UserStore, n1: string, e1: string, n2: string, e2: string)
    ensures var (s1, u1) := Create(s, n1, e1);
            var (s2, u2) := Create(s1, n2, e2);
            u1.id < u2.id
  {
  }

  /** `getById`: the stored user, or none (the mapper turns a missing
      entry into `null`). */
  function GetById(s: UserStore, id: int): (r: Option<User>)
    ensures r.Some? <==> id in s.users
    ensures r.Some? ==> r.value == s.users[id]
  {
    if id in s.users then Some(s.users[id]) else None
  }

  /** A created user can be read back under its id. */
  lemma GetAfterCreate(s: UserStore, name: string, email: string)
    ensures var (s', u) := Create(s, name, email);
            GetById(s', u.id) == Some(u)
  {
  }

  /** `update`: only the fields present in the body change. For an id
      that is not stored the source dereferences `null` and fails; the model
      answers `None` there. */
  function Update(s: UserStore, id: int, name: Option<string>, email: Option<string>): (r: Option<(UserStore, User)>)
    ensures r.None? <==> id !in s.users
    ensures r.Some? ==> var (s', u) := r.value;
      && u.id == s.users[id].id
      && u.name == name.GetOr(s.users[id].name)
      && u.email == email.GetOr(s.users[id].email)
      && s'.nextId == s.nextId
      && s'.users.Keys == s.users.Keys
      && s'.users[id] == u
      && forall k :: k in s.users && k != id ==> s'.users[k] == s.users[k]
  {
    if id !in s.users then None
    else
      var cur := s.users[id];
      var u := cur.(name := name.GetOr(cur.name), email := email.GetOr(cur.email));
      Some((s.(users := s.users[id := u]), u))
  }

  lemma UpdatePreservesValid(s: UserStore, id: int, name: Option<string>, email: Option<string>)
    requires Valid(s) && id in s.users
    ensures Valid(Update(s, id, name, email).value.0)
  {
  }

  /** An update with an empty body changes nothing. */
  lemma EmptyUpdateIsIdentity(s: UserStore, id: int)
    requires id in s.users
    ensures Update(s, id, None, None) == Some((s, s.users[id]))
  {
    assert s.users[id := s.users[id]] == s.users;
  }

  /** `delete`: removes that key only; the counter keeps its value, so a
      deleted id is never issued again. */
  function Delete(s: UserStore, id: int): (r: UserStore)
    ensures r.users.Keys == s.users.Keys - {id}
    ensures forall k :: k in r.users ==> r.users[k] == s.users[k]
    ensures r.nextId == s.nextId
  {
    s.(users := s.users - {id})
  }

  lemma DeletedIdNotReused(s: UserStore, id: int, name: string, email: string)
    requires Valid(s) && id in s.users
    ensures Valid(Delete(s, id))
    ensures Create(Delete(s, id), name, email).1.id != id
    ensures GetById(Delete(s, id), id).None?
  {
  }

  /** The stored users with ids `lo .. nextId - 1`, by ascending id. */
  function ListedFrom(s: UserStore, lo: int): (r: seq<User>)
    decreases s.nextId - lo
    ensures Valid(s) ==> forall i :: 0 <= i < |r| ==>
      lo <= r[i].id && r[i].id in s.users && s.users[r[i].id] == r[i]
    ensures Valid(s) ==> forall i, j :: 0 <= i < j < |r| ==> r[i].id < r[j].id
    ensures forall id :: lo <= id < s.nextId && id in s.users ==> s.users[id] in r
  {
    if lo >= s.nextId then []
    else (if lo in s.users then [s.users[lo]] else []) + ListedFrom(s, lo + 1)
  }

  /** `getAll`: every stored user exactly once. The hash map's iteration
      order is not specified; the model lists users by ascending id. */
  function GetAll(s: UserStore): (r: seq<User>)
    ensures Valid(s) ==> forall u :: u in r <==> u in s.users.Values
    ensures Valid(s) ==> forall i, j :: 0 <= i < j < |r| ==> r[i].id < r[j].id
  {
    ListedFrom(s, 1)
  }
}
