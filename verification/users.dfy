/** The user registry (`users/mod.rs`): a map from user id to user name plus the
    `usersid` counter that issues new ids. Each operation is a pure transition
    returning the handler's result together with the new registry. */
module Users {
  import opened Errors
  import opened Digits

  datatype User = User(id: nat, name: string)

  /** `users` is the users table, `nextId` the shared `usersid` counter. */
  datatype UserStore = UserStore(users: map<nat, string>, nextId: nat)

  /** No two users share a name. */
  ghost predicate NamesUnique(users: map<nat, string>) {
    forall a, b :: a in users && b in users && a != b ==> users[a] != users[b]
  }

  /** The registry invariant: names are unique and every stored id was issued by the counter. */
  ghost predicate Valid(s: UserStore) {
    NamesUnique(s.users) && forall id :: id in s.users ==> id < s.nextId
  }

  /** `user_exists`: is some user called `name`? */
  function UserExists(s: UserStore, name: string): (b: bool)
    ensures b <==> exists id :: id in s.users && s.users[id] == name
  {
    name in s.users.Values
  }

  /** `get_user`: the user with this id, or `NotFound`. */
  function GetUser(s: UserStore, id: nat): (r: Result<User>)
    ensures r.Ok? <==> id in s.users
    ensures r.Ok? ==> r.value.id == id && r.value.name == s.users[id]
    ensures r.Err? ==> r.kind == NotFound
  {
    if id in s.users then Ok(User(id, s.users[id])) else Err(NotFound)
  }

  /** `get_user_id`: the id of the user called `name`, or `NotFound`. */
  method GetUserId(s: UserStore, name: string) returns (r: Result<nat>)
    ensures r.Err? <==> !UserExists(s, name)
    ensures r.Err? ==> r.kind == NotFound
    ensures r.Ok? ==> r.value in s.users && s.users[r.value] == name
  {
    if name in s.users.Values {
      var id :| id in s.users && s.users[id] == name;
      r := Ok(id);
    } else {
      r := Err(NotFound);
    }
  }

  /** In a valid registry a name identifies at most one user, so `GetUserId` has one answer. */
  lemma NameIdentifiesUser(s: UserStore, name: string, a: nat, b: nat)
    requires Valid(s)
    requires a in s.users && s.users[a] == name
    requires b in s.users && s.users[b] == name
    ensures a == b
  {
  }

  /** `create_user`: reserve the counter's current value as the new id, then refuse a
      name that is already taken. The id is consumed whether or not creation succeeds. */
  function CreateUser(s: UserStore, name: string): (out: (Result<User>, UserStore))
    ensures out.1.nextId == s.nextId + 1
    ensures out.0.Ok? <==> !UserExists(s, name)
    ensures out.0.Err? ==> out.0.kind == InvalidArgument && out.1.users == s.users
    ensures out.0.Ok? ==> out.0.value == User(s.nextId, name)
    ensures out.0.Ok? ==> out.1.users.Keys == s.users.Keys + {s.nextId}
    ensures out.0.Ok? ==> out.1.users[s.nextId] == name
    ensures forall id :: id in s.users && id != s.nextId ==> id in out.1.users && out.1.users[id] == s.users[id]
  {
    var id := s.nextId;
    var reserved := s.(nextId := id + 1);
    if name in s.users.Values then (Err(InvalidArgument), reserved)
    else (Ok(User(id, name)), reserved.(users := s.users[id := name]))
  }

  /** In a valid registry the reserved id is fresh, so a creation never overwrites a user. */
  lemma CreateUserNeverOverwrites(s: UserStore, name: string)
    requires Valid(s)
    ensures s.users.Keys <= CreateUser(s, name).1.users.Keys
    ensures forall id :: id in s.users ==> CreateUser(s, name).1.users[id] == s.users[id]
  {
  }

  lemma CreateUserPreservesValid(s: UserStore, name: string)
    requires Valid(s)
    ensures Valid(CreateUser(s, name).1)
  {
  }

  /** `update_user`: rename user `id` to `name`. Unknown id gives `NotFound`; an unchanged
      name succeeds without a write; a name held by another user gives `InvalidArgument`. */
  function UpdateUser(s: UserStore, id: nat, name: string): (out: (Result<User>, UserStore))
    ensures id !in s.users ==> out == (Err(NotFound), s)
    ensures id in s.users && s.users[id] == name ==> out == (Ok(User(id, name)), s)
    ensures out.0.Err? ==> out.1 == s
    ensures out.0 == Err(InvalidArgument) <==>
      id in s.users && s.users[id] != name &&
      exists other :: other in s.users && other != id && s.users[other] == name
    ensures out.0.Ok? <==> id in s.users && (s.users[id] == name || !UserExists(s, name))
    ensures out.0.Ok? ==> out.0.value == User(id, name) && id in s.users
    ensures out.0.Ok? ==> out.1.nextId == s.nextId && out.1.users == s.users[id := name]
  {
    match GetUser(s, id)
    case Err(e) => (Err(e), s)
    case Ok(user) =>
      if name == user.name then (Ok(User(id, name)), s)
      else if UserExists(s, name) then (Err(InvalidArgument), s)
      else (Ok(User(id, name)), s.(users := s.users[id := name]))
  }

  /** A rename touches only its target: the set of ids and every other user's name stay. */
  lemma UpdateUserOnlyRenamesTarget(s: UserStore, id: nat, name: string)
    ensures UpdateUser(s, id, name).1.users.Keys == s.users.Keys
    ensures forall other :: other in s.users && other != id ==>
      UpdateUser(s, id, name).1.users[other] == s.users[other]
    ensures UpdateUser(s, id, name).1.nextId == s.nextId
  {
  }

  lemma UpdateUserPreservesValid(s: UserStore, id: nat, name: string)
    requires Valid(s)
    ensures Valid(UpdateUser(s, id, name).1)
  {
  }

  /** The two's-complement reinterpretation of a `u32` as an `i32` (Rust's `as i32`). */
  function AsI32(n: nat): (r: int)
    requires n < U32_LIMIT
    ensures -0x8000_0000 <= r < 0x8000_0000
    ensures (r - n) % U32_LIMIT == 0
  {
    if n < 0x8000_0000 then n else n - U32_LIMIT
  }

  /** `update_user` as written: the responses are those of `UpdateUser`, but the `UPDATE`
      statement binds the id through `as i32`, so for an id of 2^31 or more it matches no
      row and the stored name is left unchanged while the response reports the rename. */
  function UpdateUserAsWritten(s: UserStore, id: nat, name: string): (out: (Result<User>, UserStore))
    requires id < U32_LIMIT
    ensures out.0 == UpdateUser(s, id, name).0
    ensures id < 0x8000_0000 ==> out == UpdateUser(s, id, name)
    ensures id >= 0x8000_0000 ==> out.1 == s
  {
    match GetUser(s, id)
    case Err(e) => (Err(e), s)
    case Ok(user) =>
      if name == user.name then (Ok(User(id, name)), s)
      else if UserExists(s, name) then (Err(InvalidArgument), s)
      else
        var key := AsI32(id);
        (Ok(User(id, name)), if key >= 0 && key in s.users then s.(users := s.users[key := name]) else s)
  }

  /** The discrepancy on a concrete input: user 2^31 asks to be renamed; the response
      says the rename happened, yet the stored name is still the old one. */
  lemma UpdateUserAsWrittenLosesRename()
    ensures var s := UserStore(map[0x8000_0000 := "alice"], 0x8000_0001);
            var out := UpdateUserAsWritten(s, 0x8000_0000, "bob");
            && out.0 == Ok(User(0x8000_0000, "bob"))
            && out.1.users[0x8000_0000] == "alice"
            && UpdateUser(s, 0x8000_0000, "bob").1.users[0x8000_0000] == "bob"
  {
    var s := UserStore(map[0x8000_0000 := "alice"], 0x8000_0001);
    assert !UserExists(s, "bob") by {
      assert s.users.Keys == {0x8000_0000};
    }
  }

  /** Some entry of `r` carries the id `id`. */
  ghost predicate Listed(r: seq<User>, id: nat) {
    exists i :: 0 <= i < |r| && r[i].id == id
  }

  /** Strictly ascending ids. */
  ghost predicate Ascending(r: seq<User>) {
    forall i, j :: 0 <= i < j < |r| ==> r[i].id < r[j].id
  }

  /** Every entry is a user of the registry, under its stored name. */
  ghost predicate Faithful(r: seq<User>, users: map<nat, string>) {
    forall i :: 0 <= i < |r| ==> r[i].id in users && r[i].name == users[r[i].id]
  }

  /** The loop invariant of `ListUsers`: `r` lists, in order, exactly the users outside
      `remaining`, and every id still to be listed is above all ids listed so far. */
  ghost predicate ListingProgress(s: UserStore, r: seq<User>, remaining: set<nat>) {
    && remaining <= s.users.Keys
    && Ascending(r)
    && Faithful(r, s.users)
    && (forall i, k :: 0 <= i < |r| && k in remaining ==> r[i].id < k)
    && (forall id :: id in s.users && id !in remaining ==> Listed(r, id))
  }

  /** Appending the least remaining id keeps the listing invariant. */
  lemma ListingStep(s: UserStore, r: seq<User>, remaining: set<nat>, m: nat)
    requires ListingProgress(s, r, remaining)
    requires m in remaining && forall k :: k in remaining ==> m <= k
    ensures m in s.users
    ensures ListingProgress(s, r + [User(m, s.users[m])], remaining - {m})
  {
    var r' := r + [User(m, s.users[m])];
    var remaining' := remaining - {m};
    forall i, j | 0 <= i < j < |r'|
      ensures r'[i].id < r'[j].id
    {
      assert r'[i] == r[i];
      if j < |r| {
        assert r'[j] == r[j];
      }
    }
    forall i, k | 0 <= i < |r'| && k in remaining'
      ensures r'[i].id < k
    {
      if i < |r| {
        assert r'[i] == r[i];
      }
    }
    forall i | 0 <= i < |r'|
      ensures r'[i].id in s.users && r'[i].name == s.users[r'[i].id]
    {
      if i < |r| {
        assert r'[i] == r[i];
      }
    }
    forall id | id in s.users && id !in remaining'
      ensures Listed(r', id)
    {
      if id == m {
        assert r'[|r|].id == m;
      } else {
        var i :| 0 <= i < |r| && r[i].id == id;
        assert r'[i].id == id;
      }
    }
  }

  /** `get_users`: every user, in ascending id order (`ORDER BY id`). */
  method ListUsers(s: UserStore) returns (r: seq<User>)
    ensures forall i, j :: 0 <= i < j < |r| ==> r[i].id < r[j].id
    ensures forall i :: 0 <= i < |r| ==> r[i].id in s.users && r[i].name == s.users[r[i].id]
    ensures forall id :: id in s.users ==> Listed(r, id)
  {
    var remaining := s.users.Keys;
    r := [];
    while remaining != {}
      invariant ListingProgress(s, r, remaining)
      decreases remaining
    {
      MinimumExists(remaining);
      var m :| m in remaining && forall k :: k in remaining ==> m <= k;
      ListingStep(s, r, remaining, m);
      r, remaining := r + [User(m, s.users[m])], remaining - {m};
    }
  }

  /** A non-empty set of ids has a least element. */
  lemma MinimumExists(ids: set<nat>)
    requires ids != {}
    ensures exists m :: m in ids && forall k :: k in ids ==> m <= k
  {
    var x :| x in ids;
    MinimumAtMost(ids, x);
  }

  /** Descending from any member `x` reaches a least element of `ids`, by induction on `x`. */
  lemma {:induction false} MinimumAtMost(ids: set<nat>, x: nat)
    requires x in ids
    ensures exists m :: m in ids && forall k :: k in ids ==> m <= k
    decreases x
  {
    if exists y :: y in ids && y < x {
      var y :| y in ids && y < x;
      MinimumAtMost(ids, y);
    } else {
      assert forall k :: k in ids ==> x <= k;
    }
  }

  /** A run of creations, one per name, threading the registry through. */
  function CreateAll(s: UserStore, names: seq<string>): (out: (seq<Result<User>>, UserStore))
    ensures |out.0| == |names|
    ensures out.1.nextId == s.nextId + |names|
    decreases |names|
  {
    if |names| == 0 then ([], s)
    else
      var (r, s1) := CreateUser(s, names[0]);
      var (rs, s2) := CreateAll(s1, names[1..]);
      ([r] + rs, s2)
  }

  /** The i-th creation of a run is issued id `nextId + i`, whether or not earlier
      creations failed: ids are strictly increasing and never reissued, with gaps where a
      creation was refused. */
  lemma {:induction false} CreateAllIssuesConsecutiveIds(s: UserStore, names: seq<string>)
    ensures forall i :: 0 <= i < |names| && CreateAll(s, names).0[i].Ok? ==>
      CreateAll(s, names).0[i].value.id == s.nextId + i
    decreases |names|
  {
    if |names| > 0 {
      var (r, s1) := CreateUser(s, names[0]);
      CreateAllIssuesConsecutiveIds(s1, names[1..]);
    }
  }

  /** Two successful creations of one run never share an id. */
  lemma CreateAllIdsDistinct(s: UserStore, names: seq<string>, i: nat, j: nat)
    requires i < j < |names|
    requires CreateAll(s, names).0[i].Ok? && CreateAll(s, names).0[j].Ok?
    ensures CreateAll(s, names).0[i].value.id < CreateAll(s, names).0[j].value.id
  {
    CreateAllIssuesConsecutiveIds(s, names);
  }

  lemma {:induction false} CreateAllPreservesValid(s: UserStore, names: seq<string>)
    requires Valid(s)
    ensures Valid(CreateAll(s, names).1)
    decreases |names|
  {
    if |names| > 0 {
      CreateUserPreservesValid(s, names[0]);
      CreateAllPreservesValid(CreateUser(s, names[0]).1, names[1..]);
    }
  }
}
