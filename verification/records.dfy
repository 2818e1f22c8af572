/** The four tables of the SQLite database as an in-memory store, the
    record shapes of their rows, and the store failures a statement may
    raise. */
module Records {
  import opened Wrappers

  /** `INTEGER PRIMARY KEY AUTOINCREMENT`: the first id handed out is 1. */
  type RowId = nat

  /** Users are keyed by the identity provider's opaque string id. */
  type UserId = string

  /** A `CURRENT_TIMESTAMP` default; the clock is a parameter of every insert. */
  type Timestamp = nat

  /** A scalar SQLite value as it arrives from a JSON body (used for `is_active`,
      whose column type does not stop a client from storing `true`, `0` or text). */
  datatype Scalar = Null | Bool(b: bool) | Num(n: int) | Text(s: string)

  datatype User = User(
    id: UserId,
    email: Option<string>,
    name: Option<string>,
    picture: Option<string>,
    createdAt: Timestamp)

  /** A poll row. The `polls` table has no `created_by` column, so a row read
      from it carries `createdBy == None`; the field exists because the
      controllers read `poll.created_by`. */
  datatype Poll = Poll(
    id: RowId,
    title: string,
    description: Option<string>,
    createdAt: Timestamp,
    isActive: Scalar,
    createdBy: Option<UserId>)

  datatype PollOption = PollOption(id: RowId, pollId: RowId, text: string)

  datatype Vote = Vote(
    id: RowId,
    optionId: RowId,
    voterId: Option<UserId>,
    votedAt: Timestamp)

  /** The database: one map per table, plus the `sqlite_sequence` entry of
      each AUTOINCREMENT table (the largest id that table ever handed out). */
  datatype Store = Store(
    users: map<UserId, User>,
    polls: map<RowId, Poll>,
    options: map<RowId, PollOption>,
    votes: map<RowId, Vote>,
    lastPollId: RowId,
    lastOptionId: RowId,
    lastVoteId: RowId)

  /** What SQLite guarantees of its tables: each row is stored under its own
      primary key, and AUTOINCREMENT ids are positive and never exceed the
      table's sequence entry. */
  ghost predicate Wf(s: Store) {
    && (forall u :: u in s.users ==> s.users[u].id == u)
    && (forall k :: k in s.polls ==> 1 <= k <= s.lastPollId && s.polls[k].id == k)
    && (forall k :: k in s.options ==> 1 <= k <= s.lastOptionId && s.options[k].id == k)
    && (forall k :: k in s.votes ==> 1 <= k <= s.lastVoteId && s.votes[k].id == k)
  }

  /** A freshly created database. */
  function EmptyStore(): (s: Store)
    ensures Wf(s)
    ensures s.polls == map[] && s.options == map[] && s.votes == map[] && s.users == map[]
  {
    Store(map[], map[], map[], map[], 0, 0, 0)
  }

  /** The prepared statements the services run. */
  datatype Stmt =
    | PollInsert | PollSelect | PollsSelectAll | PollUpdate | PollDelete
    | PollOptionsSelect | PollVotesCount | OptionVotesCount
    | OptionInsert | OptionSelect | OptionsSelectAll | OptionUpdate | OptionDelete
    | VoteInsert | VoteSelect | VotesSelectAll | VoteUpdate | VoteDelete
    | UserUpsert | UserSelect

  /** Store failures (constraint violations, I/O errors) are not visible in
      the code, so they are a parameter: a statement listed here throws an
      `Error` with the given message and changes nothing. */
  type Faults = map<Stmt, string>

  /** The outcome of a service call that may write: the store afterwards and
      what the call returned or threw. */
  datatype Step<+T> = Step(store: Store, result: Result<T>)

  /** `{ id: info.lastInsertRowid }` */
  datatype Created = Created(id: RowId)

  /** `{ updated: info.changes > 0 }` */
  datatype Updated = Updated(updated: bool)

  /** `{ deleted: info.changes > 0 }` */
  datatype Deleted = Deleted(deleted: bool)
}
