/** `OptionService` (src/services/optionService.js): primary-key CRUD on the
    `options` table. No call checks that the referenced poll exists. */
module OptionService {
  import opened Wrappers
  import opened Records
  import Tables

  /** `createOption(poll_id, text)`: inserts an option and returns its new rowid. */
  function CreateOption(s: Store, f: Faults, pollId: RowId, text: string): (r: Step<Created>)
    requires Wf(s)
    ensures Wf(r.store)
    ensures OptionInsert in f ==> r == Step(s, Err(f[OptionInsert]))
    ensures OptionInsert !in f ==>
      && r.result.Ok?
      && var id := r.result.value.id;
      && id !in s.options
      && (forall k :: k in s.options ==> k < id)
      && r.store.options.Keys == s.options.Keys + {id}
      && r.store.options[id] == PollOption(id, pollId, text)
      && Tables.SameExcept(s.options, r.store.options, id)
      && r.store.polls == s.polls && r.store.votes == s.votes && r.store.users == s.users
  {
    if OptionInsert in f then Step(s, Err(f[OptionInsert]))
    else
      var id := s.lastOptionId + 1;
      Step(s.(options := s.options[id := PollOption(id, pollId, text)], lastOptionId := id), Ok(Created(id)))
  }

  /** `getAllOptions()`: every option, in rowid order. */
  function GetAllOptions(s: Store, f: Faults): (r: Result<seq<PollOption>>)
    requires Wf(s)
    ensures OptionsSelectAll in f ==> r == Err(f[OptionsSelectAll])
    ensures OptionsSelectAll !in f ==>
      && r.Ok?
      && (forall i, j :: 0 <= i < j < |r.value| ==> r.value[i].id < r.value[j].id)
      && (forall o :: o in r.value <==> o.id in s.options && s.options[o.id] == o)
  {
    if OptionsSelectAll in f then Err(f[OptionsSelectAll])
    else
      var ks := Tables.Select(s.options, s.lastOptionId + 1, (o: PollOption) => true);
      var rows := Tables.RowsAt(s.options, ks);
      assert forall i :: 0 <= i < |rows| ==> rows[i].id == ks[i];
      assert forall o: PollOption :: o.id in s.options && s.options[o.id] == o ==> o in rows by {
        forall o: PollOption | o.id in s.options && s.options[o.id] == o ensures o in rows {
          var i :| 0 <= i < |ks| && ks[i] == o.id;
          assert rows[i] == o;
        }
      }
      Ok(rows)
  }

  /** `getOptionById(id)`: the row, or `undefined` when there is none. */
  function GetOptionById(s: Store, f: Faults, id: RowId): (r: Result<Option<PollOption>>)
    ensures OptionSelect in f ==> r == Err(f[OptionSelect])
    ensures OptionSelect !in f ==> r.Ok? && (r.value.Some? <==> id in s.options)
    ensures r.Ok? && r.value.Some? ==> r.value.value == s.options[id]
  {
    if OptionSelect in f then Err(f[OptionSelect])
    else if id in s.options then Ok(Some(s.options[id]))
    else Ok(None)
  }

  /** `updateOption(id, poll_id, text)`: may move the option to another poll. */
  function UpdateOption(s: Store, f: Faults, id: RowId, pollId: RowId, text: string): (r: Step<Updated>)
    requires Wf(s)
    ensures Wf(r.store)
    ensures OptionUpdate in f ==> r == Step(s, Err(f[OptionUpdate]))
    ensures OptionUpdate !in f ==> r.result == Ok(Updated(id in s.options))
    ensures id !in s.options ==> r.store == s
    ensures id in s.options && OptionUpdate !in f ==>
      id in r.store.options && r.store.options[id] == PollOption(id, pollId, text)
    ensures r.store.options.Keys == s.options.Keys
    ensures Tables.SameExcept(s.options, r.store.options, id)
    ensures r.store.polls == s.polls && r.store.votes == s.votes && r.store.users == s.users
  {
    if OptionUpdate in f then Step(s, Err(f[OptionUpdate]))
    else if id !in s.options then Step(s, Ok(Updated(false)))
    else Step(s.(options := s.options[id := s.options[id].(pollId := pollId, text := text)]), Ok(Updated(true)))
  }

  /** `deleteOption(id)`: removes the row with that id, if any. Its votes are
      left as they are. */
  function DeleteOption(s: Store, f: Faults, id: RowId): (r: Step<Deleted>)
    requires Wf(s)
    ensures Wf(r.store)
    ensures OptionDelete in f ==> r == Step(s, Err(f[OptionDelete]))
    ensures OptionDelete !in f ==> r.result == Ok(Deleted(id in s.options))
    ensures OptionDelete !in f ==> r.store.options.Keys == s.options.Keys - {id}
    ensures Tables.SameExcept(s.options, r.store.options, id)
    ensures r.store.polls == s.polls && r.store.votes == s.votes && r.store.users == s.users
  {
    if OptionDelete in f then Step(s, Err(f[OptionDelete]))
    else Step(s.(options := s.options - {id}), Ok(Deleted(id in s.options)))
  }

  /** An option may be created for a poll id that does not exist. */
  lemma CreateForMissingPoll(s: Store, f: Faults, pollId: RowId, text: string)
    requires Wf(s) && OptionInsert !in f && pollId !in s.polls
    ensures var c := CreateOption(s, f, pollId, text);
            c.result.Ok? && c.store.options[c.result.value.id].pollId !in c.store.polls
  {
  }

  /** A created option is found under the returned id. */
  lemma CreateThenGet(s: Store, f: Faults, pollId: RowId, text: string)
    requires Wf(s) && OptionInsert !in f && OptionSelect !in f
    ensures var c := CreateOption(s, f, pollId, text);
            GetOptionById(c.store, f, c.result.value.id) == Ok(Some(PollOption(c.result.value.id, pollId, text)))
  {
  }

  /** After a delete the option is gone and a second delete reports `false`. */
  lemma DeleteThenGet(s: Store, f: Faults, id: RowId)
    requires Wf(s) && OptionDelete !in f && OptionSelect !in f
    ensures var d := DeleteOption(s, f, id);
            && GetOptionById(d.store, f, id) == Ok(None)
            && DeleteOption(d.store, f, id).result == Ok(Deleted(false))
  {
  }

  /** Moving an option to another poll is visible to the next lookup. */
  lemma UpdateThenGet(s: Store, f: Faults, id: RowId, pollId: RowId, text: string)
    requires Wf(s) && OptionUpdate !in f && OptionSelect !in f && id in s.options
    ensures GetOptionById(UpdateOption(s, f, id, pollId, text).store, f, id)
         == Ok(Some(PollOption(id, pollId, text)))
  {
  }
}
