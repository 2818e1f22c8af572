/** `PollController` (src/controllers/pollController.js): request handlers
    over `PollService`, with the creator-based ownership rule for update and
    delete. */
module PollController {
  import opened Wrappers
  import opened Records
  import opened Aggregation
  import opened Http
  import PollService

  /** The `req.body` of a create; `is_active` may be absent. */
  datatype PollForm = PollForm(title: string, description: Option<string>, isActive: Option<Scalar>)

  /** The `req.body` of an update. */
  datatype PollEdit = PollEdit(title: string, description: Option<string>, isActive: Scalar)

  const PollNotFound: Response := Response(404, ErrorBody("Poll not found"))

  /** `is_active ?? 1`: only an absent or `null` value becomes 1. */
  function ActiveFlag(isActive: Option<Scalar>): (v: Scalar)
    ensures isActive == None || isActive == Some(Null) ==> v == Num(1)
    ensures isActive.Some? && isActive.value != Null ==> v == isActive.value
  {
    if isActive.None? || isActive.value == Null then Num(1) else isActive.value
  }

  /** JavaScript truthiness of a nullable string: `null`, `undefined` and `""` are falsy. */
  predicate Truthy(v: Option<string>) {
    v.Some? && v.value != ""
  }

  /** The negation of `poll.created_by && poll.created_by !== req.user.id`. */
  predicate MayMutate(p: Poll, user: UserId) {
    !(Truthy(p.createdBy) && p.createdBy.value != user)
  }

  /** The ownership rule case by case: a poll without a (non-empty) creator
      may be changed by anyone, one with a creator only by that user. */
  lemma MayMutateCases(p: Poll, user: UserId)
    ensures p.createdBy == None ==> MayMutate(p, user)
    ensures p.createdBy == Some("") ==> MayMutate(p, user)
    ensures p.createdBy == Some(user) ==> MayMutate(p, user)
    ensures MayMutate(p, user) <==> p.createdBy.None? || p.createdBy.value in {"", user}
  {
  }

  /** `create`: inserts with `is_active ?? 1` and answers 201 with the new id.
      The acting user is passed on but `createPoll` binds no creator. */
  function Create(s: Store, f: Faults, user: UserId, form: PollForm, now: Timestamp): (h: Handled)
    requires Wf(s)
    ensures Wf(h.store)
    ensures PollInsert in f ==> h == ServerError(s, f[PollInsert])
    ensures PollInsert !in f ==>
      && h.response.status == 201 && h.response.body.CreatedBody?
      && var id := h.response.body.created.id;
      && id !in s.polls && id in h.store.polls
      && h.store.polls[id] == Poll(id, form.title, form.description, now, ActiveFlag(form.isActive), None)
  {
    var c := PollService.CreatePoll(s, f, form.title, form.description, Some(ActiveFlag(form.isActive)), now);
    match c.result
    case Ok(created) => Handled(c.store, Response(201, CreatedBody(created)))
    case Err(m) => ServerError(c.store, m)
  }

  /** `getAll`: every poll, or 500. */
  function GetAll(s: Store, f: Faults): (h: Handled)
    requires Wf(s)
    ensures h.store == s
    ensures PollsSelectAll in f ==> h == ServerError(s, f[PollsSelectAll])
    ensures PollsSelectAll !in f ==>
      && h.response.status == 200 && h.response.body.PollsBody?
      && forall p :: p in h.response.body.polls <==> p.id in s.polls && s.polls[p.id] == p
  {
    match PollService.GetAllPolls(s, f)
    case Ok(polls) => Handled(s, Response(200, PollsBody(polls)))
    case Err(m) => ServerError(s, m)
  }

  /** `getById`: the poll, 404 "Poll not found", or 500. */
  function GetById(s: Store, f: Faults, id: RowId): (h: Handled)
    ensures h.store == s
    ensures PollSelect in f ==> h == ServerError(s, f[PollSelect])
    ensures PollSelect !in f && id !in s.polls ==> h.response == PollNotFound
    ensures PollSelect !in f && id in s.polls ==> h.response == Response(200, PollBody(s.polls[id]))
  {
    match PollService.GetPollById(s, f, id)
    case Err(m) => ServerError(s, m)
    case Ok(None) => Handled(s, PollNotFound)
    case Ok(Some(p)) => Handled(s, Response(200, PollBody(p)))
  }

  /** `update`: 404 when the poll is missing, else 403 when someone else owns
      it, else the result of `updatePoll`. Store errors answer 500. */
  function Update(s: Store, f: Faults, user: UserId, id: RowId, edit: PollEdit): (h: Handled)
    requires Wf(s)
    ensures Wf(h.store)
    ensures h.response.status in {200, 403, 404, 500}
    ensures PollSelect in f ==> h == ServerError(s, f[PollSelect])
    ensures PollSelect !in f && id !in s.polls ==> h == Handled(s, PollNotFound)
    ensures h.response.status == 403 <==>
      PollSelect !in f && id in s.polls && !MayMutate(s.polls[id], user)
    ensures h.response.status == 403 ==>
      h == Handled(s, Response(403, ErrorBody("Unauthorized to update this poll")))
    ensures PollSelect !in f && id in s.polls && MayMutate(s.polls[id], user) ==>
      && h.store == PollService.UpdatePoll(s, f, id, edit.title, edit.description, edit.isActive).store
      && (PollUpdate in f ==> h == ServerError(s, f[PollUpdate]))
      && (PollUpdate !in f ==> h.response == Response(200, UpdatedBody(Updated(true))))
  {
    match PollService.GetPollById(s, f, id)
    case Err(m) => ServerError(s, m)
    case Ok(None) => Handled(s, PollNotFound)
    case Ok(Some(p)) =>
      if !MayMutate(p, user) then
        Handled(s, Response(403, ErrorBody("Unauthorized to update this poll")))
      else
        var u := PollService.UpdatePoll(s, f, id, edit.title, edit.description, edit.isActive);
        match u.result
        case Ok(updated) => Handled(u.store, Response(200, UpdatedBody(updated)))
        case Err(m) => ServerError(u.store, m)
  }

  /** `delete`: the same 404, then 403, then mutate order as `update`. */
  function Delete(s: Store, f: Faults, user: UserId, id: RowId): (h: Handled)
    requires Wf(s)
    ensures Wf(h.store)
    ensures h.response.status in {200, 403, 404, 500}
    ensures PollSelect in f ==> h == ServerError(s, f[PollSelect])
    ensures PollSelect !in f && id !in s.polls ==> h == Handled(s, PollNotFound)
    ensures h.response.status == 403 <==>
      PollSelect !in f && id in s.polls && !MayMutate(s.polls[id], user)
    ensures h.response.status == 403 ==>
      h == Handled(s, Response(403, ErrorBody("Unauthorized to delete this poll")))
    ensures PollSelect !in f && id in s.polls && MayMutate(s.polls[id], user) ==>
      && h.store == PollService.DeletePoll(s, f, id).store
      && (PollDelete in f ==> h == ServerError(s, f[PollDelete]))
      && (PollDelete !in f ==> h.response == Response(200, DeletedBody(Deleted(true))) && id !in h.store.polls)
  {
    match PollService.GetPollById(s, f, id)
    case Err(m) => ServerError(s, m)
    case Ok(None) => Handled(s, PollNotFound)
    case Ok(Some(p)) =>
      if !MayMutate(p, user) then
        Handled(s, Response(403, ErrorBody("Unauthorized to delete this poll")))
      else
        var d := PollService.DeletePoll(s, f, id);
        match d.result
        case Ok(deleted) => Handled(d.store, Response(200, DeletedBody(deleted)))
        case Err(m) => ServerError(d.store, m)
  }

  /** `getResults`: a missing poll answers 404 "Poll not found"; otherwise
      the results view is returned unchanged. */
  function GetResults(s: Store, f: Faults, id: RowId): (h: Handled)
    requires Wf(s)
    ensures h.store == s
    ensures PollService.GetPollResults(s, f, id) == Ok(None) ==> h.response == PollNotFound
    ensures forall v :: PollService.GetPollResults(s, f, id) == Ok(Some(v)) ==> h.response == Response(200, ResultsBody(v))
    ensures forall m :: PollService.GetPollResults(s, f, id) == Err(m) ==> h == ServerError(s, m)
    ensures PollSelect !in f ==> (h.response == PollNotFound <==> id !in s.polls)
  {
    match PollService.GetPollResults(s, f, id)
    case Err(m) => ServerError(s, m)
    case Ok(None) => Handled(s, PollNotFound)
    case Ok(Some(v)) => Handled(s, Response(200, ResultsBody(v)))
  }

  /** Faults agree on every statement but `st`. */
  ghost predicate AgreeExcept(f: Faults, g: Faults, st: Stmt) {
    forall t :: t != st ==> (t in f <==> t in g) && (t in f ==> f[t] == g[t])
  }

  /** A refused update never reaches `updatePoll`: its outcome does not
      depend on how that statement would behave. */
  lemma UpdateRefusalSkipsMutation(s: Store, f: Faults, g: Faults, user: UserId, id: RowId, edit: PollEdit)
    requires Wf(s) && AgreeExcept(f, g, PollUpdate)
    requires Update(s, f, user, id, edit).response.status in {403, 404}
    ensures Update(s, g, user, id, edit) == Update(s, f, user, id, edit)
  {
  }

  /** A refused delete never reaches `deletePoll`. */
  lemma DeleteRefusalSkipsMutation(s: Store, f: Faults, g: Faults, user: UserId, id: RowId)
    requires Wf(s) && AgreeExcept(f, g, PollDelete)
    requires Delete(s, f, user, id).response.status in {403, 404}
    ensures Delete(s, g, user, id) == Delete(s, f, user, id)
  {
  }

  /** The creator argument is dropped: who creates a poll makes no difference. */
  lemma CreateIgnoresUser(s: Store, f: Faults, user: UserId, other: UserId, form: PollForm, now: Timestamp)
    requires Wf(s)
    ensures Create(s, f, user, form, now) == Create(s, f, other, form, now)
  {
  }
}
