/** `OptionController` (src/controllers/optionController.js): status mapping
    over `OptionService`. No handler looks at the acting user, so there is
    no ownership rule for options. */
module OptionController {
  import opened Wrappers
  import opened Records
  import opened Http
  import OptionService

  /** The `req.body` of a create or update. */
  datatype OptionForm = OptionForm(pollId: RowId, text: string)

  const OptionNotFound: Response := Response(404, ErrorBody("Option not found"))

  /** `create`: answers 201 with the new id. */
  function Create(s: Store, f: Faults, form: OptionForm): (h: Handled)
    requires Wf(s)
    ensures Wf(h.store)
    ensures OptionInsert in f ==> h == ServerError(s, f[OptionInsert])
    ensures OptionInsert !in f ==>
      && h.response.status == 201 && h.response.body.CreatedBody?
      && var id := h.response.body.created.id;
      && id !in s.options && id in h.store.options
      && h.store.options[id] == PollOption(id, form.pollId, form.text)
  {
    var c := OptionService.CreateOption(s, f, form.pollId, form.text);
    match c.result
    case Ok(created) => Handled(c.store, Response(201, CreatedBody(created)))
    case Err(m) => ServerError(c.store, m)
  }

  /** `getAll`: every option, or 500. */
  function GetAll(s: Store, f: Faults): (h: Handled)
    requires Wf(s)
    ensures h.store == s
    ensures OptionsSelectAll in f ==> h == ServerError(s, f[OptionsSelectAll])
    ensures OptionsSelectAll !in f ==>
      && h.response.status == 200 && h.response.body.OptionsBody?
      && forall o :: o in h.response.body.options <==> o.id in s.options && s.options[o.id] == o
  {
    match OptionService.GetAllOptions(s, f)
    case Ok(options) => Handled(s, Response(200, OptionsBody(options)))
    case Err(m) => ServerError(s, m)
  }

  /** `getById`: the option, 404 "Option not found", or 500. */
  function GetById(s: Store, f: Faults, id: RowId): (h: Handled)
    ensures h.store == s
    ensures OptionSelect in f ==> h == ServerError(s, f[OptionSelect])
    ensures OptionSelect !in f && id !in s.options ==> h.response == OptionNotFound
    ensures OptionSelect !in f && id in s.options ==> h.response == Response(200, OptionBody(s.options[id]))
  {
    match OptionService.GetOptionById(s, f, id)
    case Err(m) => ServerError(s, m)
    case Ok(None) => Handled(s, OptionNotFound)
    case Ok(Some(o)) => Handled(s, Response(200, OptionBody(o)))
  }

  /** `update`: `updated: false` answers 404, otherwise the service result. */
  function Update(s: Store, f: Faults, id: RowId, form: OptionForm): (h: Handled)
    requires Wf(s)
    ensures Wf(h.store)
    ensures h.store == OptionService.UpdateOption(s, f, id, form.pollId, form.text).store
    ensures OptionUpdate in f ==> h == ServerError(s, f[OptionUpdate])
    ensures OptionUpdate !in f && id !in s.options ==> h == Handled(s, OptionNotFound)
    ensures OptionUpdate !in f && id in s.options ==>
      && h.response == Response(200, UpdatedBody(Updated(true)))
      && h.store.options[id] == PollOption(id, form.pollId, form.text)
  {
    var u := OptionService.UpdateOption(s, f, id, form.pollId, form.text);
    match u.result
    case Err(m) => ServerError(u.store, m)
    case Ok(updated) =>
      if !updated.updated then Handled(u.store, OptionNotFound)
      else Handled(u.store, Response(200, UpdatedBody(updated)))
  }

  /** `delete`: `deleted: false` answers 404, otherwise the service result. */
  function Delete(s: Store, f: Faults, id: RowId): (h: Handled)
    requires Wf(s)
    ensures Wf(h.store)
    ensures h.store == OptionService.DeleteOption(s, f, id).store
    ensures OptionDelete in f ==> h == ServerError(s, f[OptionDelete])
    ensures OptionDelete !in f && id !in s.options ==> h == Handled(s, OptionNotFound)
    ensures OptionDelete !in f && id in s.options ==>
      h.response == Response(200, DeletedBody(Deleted(true))) && id !in h.store.options
  {
    var d := OptionService.DeleteOption(s, f, id);
    match d.result
    case Err(m) => ServerError(d.store, m)
    case Ok(deleted) =>
      if !deleted.deleted then Handled(d.store, OptionNotFound)
      else Handled(d.store, Response(200, DeletedBody(deleted)))
  }
}
