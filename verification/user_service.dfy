/** `UserService` (src/services/userService.js): the login upsert and the
    lookup by identity-provider id, each wrapping store errors in a message
    of its own. */
module UserService {
  import opened Wrappers
  import opened Records
  import Tables

  /** The profile fields the login flow passes in. */
  datatype Profile = Profile(id: UserId, email: Option<string>, name: Option<string>, picture: Option<string>)

  const SavePrefix: string := "Error saving user: "
  const FetchPrefix: string := "Error fetching user: "

  /** `getUserById(id)`: the row, or `null`; a failing statement is rethrown
      as "Error fetching user: <message>". */
  function GetUserById(s: Store, f: Faults, id: UserId): (r: Result<Option<User>>)
    ensures UserSelect in f ==> r == Err(FetchPrefix + f[UserSelect])
    ensures UserSelect !in f ==> r.Ok? && (r.value.Some? <==> id in s.users)
    ensures r.Ok? && r.value.Some? ==> r.value.value == s.users[id]
  {
    if UserSelect in f then Err(FetchPrefix + f[UserSelect])
    else if id in s.users then Ok(Some(s.users[id]))
    else Ok(None)
  }

  /** The `INSERT ... ON CONFLICT(id) DO UPDATE` row: a new user is stamped
      `now`; an existing one keeps its `created_at`. */
  function Upserted(s: Store, p: Profile, now: Timestamp): User {
    var createdAt := if p.id in s.users then s.users[p.id].createdAt else now;
    User(p.id, p.email, p.name, p.picture, createdAt)
  }

  /** `saveUser(user)`: upserts, then reads the row back through
      `getUserById`. Any error, including the wrapped one of the read-back,
      is rethrown as "Error saving user: <message>"; the upsert, once run,
      stays in the store. */
  function SaveUser(s: Store, f: Faults, p: Profile, now: Timestamp): (r: Step<Option<User>>)
    requires Wf(s)
    ensures Wf(r.store)
    ensures UserUpsert in f ==> r == Step(s, Err(SavePrefix + f[UserUpsert]))
    ensures UserUpsert !in f ==>
      && p.id in r.store.users
      && var u := r.store.users[p.id];
      && u.id == p.id && u.email == p.email && u.name == p.name && u.picture == p.picture
      && (p.id in s.users ==> u.createdAt == s.users[p.id].createdAt)
      && (p.id !in s.users ==> u.createdAt == now)
      && Tables.SameExcept(s.users, r.store.users, p.id)
      && r.store.users.Keys == s.users.Keys + {p.id}
    ensures UserUpsert !in f && UserSelect in f ==> r.result == Err(SavePrefix + FetchPrefix + f[UserSelect])
    ensures UserUpsert !in f && UserSelect !in f ==> r.result == Ok(Some(r.store.users[p.id]))
    ensures r.result.Ok? ==> r.result.value == Some(r.store.users[p.id])
    ensures r.store.polls == s.polls && r.store.options == s.options && r.store.votes == s.votes
  {
    if UserUpsert in f then Step(s, Err(SavePrefix + f[UserUpsert]))
    else
      var s' := s.(users := s.users[p.id := Upserted(s, p, now)]);
      match GetUserById(s', f, p.id)
      case Err(m) =>
        assert UserSelect in f ==> SavePrefix + m == SavePrefix + FetchPrefix + f[UserSelect];
        Step(s', Err(SavePrefix + m))
      case Ok(u) => Step(s', Ok(u))
  }

  /** Saving the same profile again changes nothing, whatever the clock says. */
  lemma SaveUserIdempotent(s: Store, f: Faults, p: Profile, now: Timestamp, later: Timestamp)
    requires Wf(s) && UserUpsert !in f
    ensures var s1 := SaveUser(s, f, p, now).store;
            SaveUser(s1, f, p, later).store == s1
  {
  }

  /** What `saveUser` returned is what a later lookup finds; without failing
      statements the save succeeds and the lookup finds the saved user. */
  lemma SaveThenGet(s: Store, f: Faults, p: Profile, now: Timestamp)
    requires Wf(s)
    ensures var r := SaveUser(s, f, p, now);
            r.result.Ok? ==> GetUserById(r.store, f, p.id) == r.result
    ensures UserUpsert !in f && UserSelect !in f ==>
            GetUserById(SaveUser(s, f, p, now).store, f, p.id) == Ok(Some(Upserted(s, p, now)))
  {
  }

  /** A returning user's `created_at` survives a change of profile. */
  lemma SaveUserKeepsCreatedAt(s: Store, f: Faults, p: Profile, now: Timestamp)
    requires Wf(s) && UserUpsert !in f && p.id in s.users
    ensures var r := SaveUser(s, f, p, now);
            r.store.users[p.id].createdAt == s.users[p.id].createdAt
  {
  }
}
