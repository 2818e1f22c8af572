/** The route table (src/routes/index.js) as a dispatcher over the
    controllers, and what holds of every store that a sequence of routed
    requests can produce from an empty database. */
module Api {
  import opened Records
  import opened Http
  import PollController
  import OptionController
  import VoteController

  datatype Request =
    | PostPoll(pollForm: PollController.PollForm)
    | GetPolls
    | GetPoll(id: RowId)
    | PutPoll(id: RowId, edit: PollController.PollEdit)
    | DeletePoll(id: RowId)
    | PostOption(optionForm: OptionController.OptionForm)
    | GetOptions
    | GetOption(id: RowId)
    | PutOption(id: RowId, optionForm: OptionController.OptionForm)
    | DeleteOption(id: RowId)
    | PostVote(voteForm: VoteController.VoteForm)
    | GetVotes
    | GetVote(id: RowId)
    | PutVote(id: RowId, voteForm: VoteController.VoteForm)
    | DeleteVote(id: RowId)

  /** One request: who makes it, which statements fail while it runs, and the clock. */
  datatype Call = Call(user: UserId, faults: Faults, request: Request, now: Timestamp)

  function Route(s: Store, c: Call): (h: Handled)
    requires Wf(s)
    ensures Wf(h.store)
  {
    var f := c.faults;
    match c.request
    case PostPoll(form) => PollController.Create(s, f, c.user, form, c.now)
    case GetPolls => PollController.GetAll(s, f)
    case GetPoll(id) => PollController.GetById(s, f, id)
    case PutPoll(id, edit) => PollController.Update(s, f, c.user, id, edit)
    case DeletePoll(id) => PollController.Delete(s, f, c.user, id)
    case PostOption(form) => OptionController.Create(s, f, form)
    case GetOptions => OptionController.GetAll(s, f)
    case GetOption(id) => OptionController.GetById(s, f, id)
    case PutOption(id, form) => OptionController.Update(s, f, id, form)
    case DeleteOption(id) => OptionController.Delete(s, f, id)
    case PostVote(form) => VoteController.Create(s, f, c.user, form, c.now)
    case GetVotes => VoteController.GetAll(s, f)
    case GetVote(id) => VoteController.GetById(s, f, id)
    case PutVote(id, form) => VoteController.Update(s, f, c.user, id, form)
    case DeleteVote(id) => VoteController.Delete(s, f, c.user, id)
  }

  /** The store after serving `calls` in order. */
  function Run(s: Store, calls: seq<Call>): (s': Store)
    requires Wf(s)
    ensures Wf(s')
    decreases |calls|
  {
    if calls == [] then s else Run(Route(s, calls[0]).store, calls[1..])
  }

  /** No poll records a creator, and every vote records a voter. */
  ghost predicate ApiInvariant(s: Store) {
    && (forall k :: k in s.polls ==> s.polls[k].createdBy.None?)
    && (forall k :: k in s.votes ==> s.votes[k].voterId.Some?)
  }

  lemma RouteKeepsInvariant(s: Store, c: Call)
    requires Wf(s) && ApiInvariant(s)
    ensures ApiInvariant(Route(s, c).store)
  {
    var f := c.faults;
    match c.request {
      case PostPoll(form) => PostPollKeeps(s, f, c.user, form, c.now);
      case PutPoll(id, edit) => PutPollKeeps(s, f, c.user, id, edit);
      case DeletePoll(id) => DeletePollKeeps(s, f, c.user, id);
      case PostOption(form) => PostOptionKeeps(s, f, form);
      case PutOption(id, form) => PutOptionKeeps(s, f, id, form);
      case DeleteOption(id) => DeleteOptionKeeps(s, f, id);
      case PostVote(form) => PostVoteKeeps(s, f, c.user, form, c.now);
      case PutVote(id, form) => PutVoteKeeps(s, f, c.user, id, form);
      case DeleteVote(id) => DeleteVoteKeeps(s, f, c.user, id);
      case GetPolls =>
      case GetPoll(id) =>
      case GetOptions =>
      case GetOption(id) =>
      case GetVotes =>
      case GetVote(id) =>
    }
  }

  lemma PostPollKeeps(s: Store, f: Faults, user: UserId, form: PollController.PollForm, now: Timestamp)
    requires Wf(s) && ApiInvariant(s)
    ensures ApiInvariant(PollController.Create(s, f, user, form, now).store)
  {
  }

  lemma PutPollKeeps(s: Store, f: Faults, user: UserId, id: RowId, edit: PollController.PollEdit)
    requires Wf(s) && ApiInvariant(s)
    ensures ApiInvariant(PollController.Update(s, f, user, id, edit).store)
  {
  }

  lemma DeletePollKeeps(s: Store, f: Faults, user: UserId, id: RowId)
    requires Wf(s) && ApiInvariant(s)
    ensures ApiInvariant(PollController.Delete(s, f, user, id).store)
  {
  }

  lemma PostOptionKeeps(s: Store, f: Faults, form: OptionController.OptionForm)
    requires Wf(s) && ApiInvariant(s)
    ensures ApiInvariant(OptionController.Create(s, f, form).store)
  {
  }

  lemma PutOptionKeeps(s: Store, f: Faults, id: RowId, form: OptionController.OptionForm)
    requires Wf(s) && ApiInvariant(s)
    ensures ApiInvariant(OptionController.Update(s, f, id, form).store)
  {
  }

  lemma DeleteOptionKeeps(s: Store, f: Faults, id: RowId)
    requires Wf(s) && ApiInvariant(s)
    ensures ApiInvariant(OptionController.Delete(s, f, id).store)
  {
  }

  lemma PostVoteKeeps(s: Store, f: Faults, user: UserId, form: VoteController.VoteForm, now: Timestamp)
    requires Wf(s) && ApiInvariant(s)
    ensures ApiInvariant(VoteController.Create(s, f, user, form, now).store)
  {
  }

  lemma PutVoteKeeps(s: Store, f: Faults, user: UserId, id: RowId, form: VoteController.VoteForm)
    requires Wf(s) && ApiInvariant(s)
    ensures ApiInvariant(VoteController.Update(s, f, user, id, form).store)
  {
  }

  lemma DeleteVoteKeeps(s: Store, f: Faults, user: UserId, id: RowId)
    requires Wf(s) && ApiInvariant(s)
    ensures ApiInvariant(VoteController.Delete(s, f, user, id).store)
  {
  }

  lemma {:induction false} RunKeepsInvariant(s: Store, calls: seq<Call>)
    requires Wf(s) && ApiInvariant(s)
    ensures ApiInvariant(Run(s, calls))
    decreases |calls|
  {
    if calls != [] {
      RouteKeepsInvariant(s, calls[0]);
      RunKeepsInvariant(Route(s, calls[0]).store, calls[1..]);
    }
  }

  /** Because `createPoll` never stores a creator, the 403 branch of the poll
      controller is unreachable through the routes: any user may update or
      delete any poll. */
  lemma PollsNeverForbidden(calls: seq<Call>, c: Call)
    requires c.request.PutPoll? || c.request.DeletePoll?
    ensures Route(Run(EmptyStore(), calls), c).response.status != 403
  {
    var s := Run(EmptyStore(), calls);
    RunKeepsInvariant(EmptyStore(), calls);
    if c.request.PutPoll? {
      var id := c.request.id;
      if id in s.polls {
        assert s.polls[id].createdBy.None?;
        assert PollController.MayMutate(s.polls[id], c.user);
      }
    } else {
      var id := c.request.id;
      if id in s.polls {
        assert s.polls[id].createdBy.None?;
        assert PollController.MayMutate(s.polls[id], c.user);
      }
    }
  }

  /** Every vote stored through the routes can be deleted by its voter: the
      403 of a vote delete only ever refuses a different user. */
  lemma VoteDeleteForbiddenOnlyToOthers(calls: seq<Call>, c: Call)
    requires c.request.DeleteVote?
    ensures var s := Run(EmptyStore(), calls);
            var id := c.request.id;
            Route(s, c).response.status == 403 ==>
              id in s.votes && s.votes[id].voterId.Some? && s.votes[id].voterId.value != c.user
  {
    RunKeepsInvariant(EmptyStore(), calls);
  }
}
