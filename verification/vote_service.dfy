/** `VoteService` (src/services/voteService.js): primary-key CRUD on the
    `votes` table. There is no uniqueness rule on (option, voter). */
module VoteService {
  import opened Wrappers
  import opened Records
  import Tables

  /** `createVote(option_id, voter_id)`: inserts a vote and returns its new rowid. */
  function CreateVote(s: Store, f: Faults, optionId: RowId, voterId: Option<UserId>,
                      now: Timestamp): (r: Step<Created>)
    requires Wf(s)
    ensures Wf(r.store)
    ensures VoteInsert in f ==> r == Step(s, Err(f[VoteInsert]))
    ensures VoteInsert !in f ==>
      && r.result.Ok?
      && var id := r.result.value.id;
      && id !in s.votes
      && (forall k :: k in s.votes ==> k < id)
      && r.store.votes.Keys == s.votes.Keys + {id}
      && r.store.votes[id] == Vote(id, optionId, voterId, now)
      && Tables.SameExcept(s.votes, r.store.votes, id)
      && r.store.polls == s.polls && r.store.options == s.options && r.store.users == s.users
  {
    if VoteInsert in f then Step(s, Err(f[VoteInsert]))
    else
      var id := s.lastVoteId + 1;
      Step(s.(votes := s.votes[id := Vote(id, optionId, voterId, now)], lastVoteId := id), Ok(Created(id)))
  }

  /** `getAllVotes()`: every vote, in rowid order. */
  function GetAllVotes(s: Store, f: Faults): (r: Result<seq<Vote>>)
    requires Wf(s)
    ensures VotesSelectAll in f ==> r == Err(f[VotesSelectAll])
    ensures VotesSelectAll !in f ==>
      && r.Ok?
      && (forall i, j :: 0 <= i < j < |r.value| ==> r.value[i].id < r.value[j].id)
      && (forall v :: v in r.value <==> v.id in s.votes && s.votes[v.id] == v)
  {
    if VotesSelectAll in f then Err(f[VotesSelectAll])
    else
      var ks := Tables.Select(s.votes, s.lastVoteId + 1, (v: Vote) => true);
      var rows := Tables.RowsAt(s.votes, ks);
      assert forall i :: 0 <= i < |rows| ==> rows[i].id == ks[i];
      assert forall v: Vote :: v.id in s.votes && s.votes[v.id] == v ==> v in rows by {
        forall v: Vote | v.id in s.votes && s.votes[v.id] == v ensures v in rows {
          var i :| 0 <= i < |ks| && ks[i] == v.id;
          assert rows[i] == v;
        }
      }
      Ok(rows)
  }

  /** `getVoteById(id)`: the row, or `undefined` when there is none. */
  function GetVoteById(s: Store, f: Faults, id: RowId): (r: Result<Option<Vote>>)
    ensures VoteSelect in f ==> r == Err(f[VoteSelect])
    ensures VoteSelect !in f ==> r.Ok? && (r.value.Some? <==> id in s.votes)
    ensures r.Ok? && r.value.Some? ==> r.value.value == s.votes[id]
  {
    if VoteSelect in f then Err(f[VoteSelect])
    else if id in s.votes then Ok(Some(s.votes[id]))
    else Ok(None)
  }

  /** `updateVote(id, option_id, voter_id)`: rewrites the option and voter of
      that row, keeping its id and `voted_at`. */
  function UpdateVote(s: Store, f: Faults, id: RowId, optionId: RowId, voterId: Option<UserId>): (r: Step<Updated>)
    requires Wf(s)
    ensures Wf(r.store)
    ensures VoteUpdate in f ==> r == Step(s, Err(f[VoteUpdate]))
    ensures VoteUpdate !in f ==> r.result == Ok(Updated(id in s.votes))
    ensures id !in s.votes ==> r.store == s
    ensures id in s.votes && VoteUpdate !in f ==>
      id in r.store.votes && r.store.votes[id] == Vote(id, optionId, voterId, s.votes[id].votedAt)
    ensures r.store.votes.Keys == s.votes.Keys
    ensures Tables.SameExcept(s.votes, r.store.votes, id)
    ensures r.store.polls == s.polls && r.store.options == s.options && r.store.users == s.users
  {
    if VoteUpdate in f then Step(s, Err(f[VoteUpdate]))
    else if id !in s.votes then Step(s, Ok(Updated(false)))
    else Step(s.(votes := s.votes[id := s.votes[id].(optionId := optionId, voterId := voterId)]), Ok(Updated(true)))
  }

  /** `deleteVote(id)`: removes the row with that id, if any. */
  function DeleteVote(s: Store, f: Faults, id: RowId): (r: Step<Deleted>)
    requires Wf(s)
    ensures Wf(r.store)
    ensures VoteDelete in f ==> r == Step(s, Err(f[VoteDelete]))
    ensures VoteDelete !in f ==> r.result == Ok(Deleted(id in s.votes))
    ensures VoteDelete !in f ==> r.store.votes.Keys == s.votes.Keys - {id}
    ensures Tables.SameExcept(s.votes, r.store.votes, id)
    ensures r.store.polls == s.polls && r.store.options == s.options && r.store.users == s.users
  {
    if VoteDelete in f then Step(s, Err(f[VoteDelete]))
    else Step(s.(votes := s.votes - {id}), Ok(Deleted(id in s.votes)))
  }

  /** Nothing stops a voter from voting twice for the same option: two
      inserts give two distinct rows with the same option and voter. */
  lemma DuplicateVotesAllowed(s: Store, f: Faults, optionId: RowId, voterId: Option<UserId>, now: Timestamp)
    requires Wf(s) && VoteInsert !in f
    ensures var c1 := CreateVote(s, f, optionId, voterId, now);
            var c2 := CreateVote(c1.store, f, optionId, voterId, now);
            && c1.result.Ok? && c2.result.Ok?
            && c1.result.value.id != c2.result.value.id
            && c1.result.value.id in c2.store.votes && c2.result.value.id in c2.store.votes
            && c2.store.votes[c1.result.value.id].optionId == c2.store.votes[c2.result.value.id].optionId == optionId
            && c2.store.votes[c1.result.value.id].voterId == c2.store.votes[c2.result.value.id].voterId == voterId
  {
  }

  /** A created vote is found under the returned id. */
  lemma CreateThenGet(s: Store, f: Faults, optionId: RowId, voterId: Option<UserId>, now: Timestamp)
    requires Wf(s) && VoteInsert !in f && VoteSelect !in f
    ensures var c := CreateVote(s, f, optionId, voterId, now);
            GetVoteById(c.store, f, c.result.value.id) == Ok(Some(Vote(c.result.value.id, optionId, voterId, now)))
  {
  }

  /** An update is visible to the next lookup, with the original `voted_at`. */
  lemma UpdateThenGet(s: Store, f: Faults, id: RowId, optionId: RowId, voterId: Option<UserId>)
    requires Wf(s) && VoteUpdate !in f && VoteSelect !in f && id in s.votes
    ensures GetVoteById(UpdateVote(s, f, id, optionId, voterId).store, f, id)
         == Ok(Some(Vote(id, optionId, voterId, s.votes[id].votedAt)))
  {
  }

  /** After a delete the vote is gone and a second delete reports `false`. */
  lemma DeleteThenGet(s: Store, f: Faults, id: RowId)
    requires Wf(s) && VoteDelete !in f && VoteSelect !in f
    ensures var d := DeleteVote(s, f, id);
            && GetVoteById(d.store, f, id) == Ok(None)
            && DeleteVote(d.store, f, id).result == Ok(Deleted(false))
  {
  }
}
