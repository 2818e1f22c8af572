/** `VoteController` (src/controllers/voteController.js): the voter is always
    the acting user, and only that voter may delete a vote. */
module VoteController {
  import opened Wrappers
  import opened Records
  import opened Http
  import VoteService

  /** The `req.body` of a create or update; a `voter_id` in it is ignored. */
  datatype VoteForm = VoteForm(optionId: RowId, voterId: Option<UserId>)

  const VoteNotFound: Response := Response(404, ErrorBody("Vote not found"))
  const DeleteForbidden: Response := Response(403, ErrorBody("Unauthorized to delete this vote"))

  /** `vote.voter_id !== req.user.id` negated: strict equality, so a vote
      without a voter belongs to nobody. */
  predicate OwnsVote(v: Vote, user: UserId) {
    v.voterId == Some(user)
  }

  /** `create`: records the acting user as the voter and answers 201. */
  function Create(s: Store, f: Faults, user: UserId, form: VoteForm, now: Timestamp): (h: Handled)
    requires Wf(s)
    ensures Wf(h.store)
    ensures VoteInsert in f ==> h == ServerError(s, f[VoteInsert])
    ensures VoteInsert !in f ==>
      && h.response.status == 201 && h.response.body.CreatedBody?
      && var id := h.response.body.created.id;
      && id !in s.votes && id in h.store.votes
      && h.store.votes[id] == Vote(id, form.optionId, Some(user), now)
  {
    var c := VoteService.CreateVote(s, f, form.optionId, Some(user), now);
    match c.result
    case Ok(created) => Handled(c.store, Response(201, CreatedBody(created)))
    case Err(m) => ServerError(c.store, m)
  }

  /** `getAll`: every vote, or 500. */
  function GetAll(s: Store, f: Faults): (h: Handled)
    requires Wf(s)
    ensures h.store == s
    ensures VotesSelectAll in f ==> h == ServerError(s, f[VotesSelectAll])
    ensures VotesSelectAll !in f ==>
      && h.response.status == 200 && h.response.body.VotesBody?
      && forall v :: v in h.response.body.votes <==> v.id in s.votes && s.votes[v.id] == v
  {
    match VoteService.GetAllVotes(s, f)
    case Ok(votes) => Handled(s, Response(200, VotesBody(votes)))
    case Err(m) => ServerError(s, m)
  }

  /** `getById`: the vote, 404 "Vote not found", or 500. */
  function GetById(s: Store, f: Faults, id: RowId): (h: Handled)
    ensures h.store == s
    ensures VoteSelect in f ==> h == ServerError(s, f[VoteSelect])
    ensures VoteSelect !in f && id !in s.votes ==> h.response == VoteNotFound
    ensures VoteSelect !in f && id in s.votes ==> h.response == Response(200, VoteBody(s.votes[id]))
  {
    match VoteService.GetVoteById(s, f, id)
    case Err(m) => ServerError(s, m)
    case Ok(None) => Handled(s, VoteNotFound)
    case Ok(Some(v)) => Handled(s, Response(200, VoteBody(v)))
  }

  /** `update`: no ownership check; the vote is reassigned to the acting user,
      and `updated: false` answers 404. */
  function Update(s: Store, f: Faults, user: UserId, id: RowId, form: VoteForm): (h: Handled)
    requires Wf(s)
    ensures Wf(h.store)
    ensures h.store == VoteService.UpdateVote(s, f, id, form.optionId, Some(user)).store
    ensures VoteUpdate in f ==> h == ServerError(s, f[VoteUpdate])
    ensures VoteUpdate !in f && id !in s.votes ==> h == Handled(s, VoteNotFound)
    ensures VoteUpdate !in f && id in s.votes ==>
      && h.response == Response(200, UpdatedBody(Updated(true)))
      && h.store.votes[id].voterId == Some(user) && h.store.votes[id].optionId == form.optionId
  {
    var u := VoteService.UpdateVote(s, f, id, form.optionId, Some(user));
    match u.result
    case Err(m) => ServerError(u.store, m)
    case Ok(updated) =>
      if !updated.updated then Handled(u.store, VoteNotFound)
      else Handled(u.store, Response(200, UpdatedBody(updated)))
  }

  /** `delete`: 404 when the vote is missing, else 403 unless the acting user
      is its voter, else the result of `deleteVote`. */
  function Delete(s: Store, f: Faults, user: UserId, id: RowId): (h: Handled)
    requires Wf(s)
    ensures Wf(h.store)
    ensures h.response.status in {200, 403, 404, 500}
    ensures VoteSelect in f ==> h == ServerError(s, f[VoteSelect])
    ensures VoteSelect !in f && id !in s.votes ==> h == Handled(s, VoteNotFound)
    ensures h.response.status == 403 <==> VoteSelect !in f && id in s.votes && !OwnsVote(s.votes[id], user)
    ensures h.response.status == 403 ==> h == Handled(s, DeleteForbidden)
    ensures VoteSelect !in f && id in s.votes && OwnsVote(s.votes[id], user) ==>
      && h.store == VoteService.DeleteVote(s, f, id).store
      && (VoteDelete in f ==> h == ServerError(s, f[VoteDelete]))
      && (VoteDelete !in f ==> h.response == Response(200, DeletedBody(Deleted(true))) && id !in h.store.votes)
  {
    match VoteService.GetVoteById(s, f, id)
    case Err(m) => ServerError(s, m)
    case Ok(None) => Handled(s, VoteNotFound)
    case Ok(Some(v)) =>
      if !OwnsVote(v, user) then Handled(s, DeleteForbidden)
      else
        var d := VoteService.DeleteVote(s, f, id);
        match d.result
        case Ok(deleted) => Handled(d.store, Response(200, DeletedBody(deleted)))
        case Err(m) => ServerError(d.store, m)
  }

  /** The body's `voter_id` plays no part in a create. */
  lemma CreateIgnoresBodyVoter(s: Store, f: Faults, user: UserId, optionId: RowId,
                               v1: Option<UserId>, v2: Option<UserId>, now: Timestamp)
    requires Wf(s)
    ensures Create(s, f, user, VoteForm(optionId, v1), now) == Create(s, f, user, VoteForm(optionId, v2), now)
  {
  }

  /** A vote stored without a voter can be deleted by no one. */
  lemma VoterlessVoteUndeletable(s: Store, f: Faults, user: UserId, id: RowId)
    requires Wf(s) && VoteSelect !in f && id in s.votes && s.votes[id].voterId.None?
    ensures Delete(s, f, user, id) == Handled(s, DeleteForbidden)
  {
  }

  /** Whoever casts a vote through `create` may delete it afterwards. */
  lemma CreatorMayDelete(s: Store, f: Faults, user: UserId, form: VoteForm, now: Timestamp)
    requires Wf(s) && VoteInsert !in f && VoteSelect !in f && VoteDelete !in f
    ensures var c := Create(s, f, user, form, now);
            var d := Delete(c.store, f, user, c.response.body.created.id);
            d.response == Response(200, DeletedBody(Deleted(true)))
            && d.store.votes == s.votes
  {
    var c := Create(s, f, user, form, now);
    var id := c.response.body.created.id;
    assert c.store.votes - {id} == s.votes;
  }
}
