/** `PollService` (src/services/pollService.js): primary-key CRUD on the
    `polls` table, plus the results view, whose shape is the datatype `PollResults` of
    module `Aggregation`. */
module PollService {
  import opened Wrappers
  import opened Records
  import Tables
  import opened Aggregation

  /** The `is_active = 1` default parameter: it applies only when the argument
      is `undefined`, so an explicit `null` or `0` is stored as given. */
  function ActiveOrDefault(isActive: Option<Scalar>): (v: Scalar)
    ensures isActive.None? ==> v == Num(1)
    ensures isActive.Some? ==> v == isActive.value
  {
    isActive.GetOr(Num(1))
  }

  /** `createPoll(title, description, is_active = 1)`: inserts a poll and
      returns its new rowid. The statement binds no creator. */
  function CreatePoll(s: Store, f: Faults, title: string, description: Option<string>,
                      isActive: Option<Scalar>, now: Timestamp): (r: Step<Created>)
    requires Wf(s)
    ensures Wf(r.store)
    ensures PollInsert in f ==> r == Step(s, Err(f[PollInsert]))
    ensures PollInsert !in f ==>
      && r.result.Ok?
      && var id := r.result.value.id;
      && id !in s.polls
      && (forall k :: k in s.polls ==> k < id)
      && r.store.polls.Keys == s.polls.Keys + {id}
      && r.store.polls[id] == Poll(id, title, description, now, ActiveOrDefault(isActive), None)
      && Tables.SameExcept(s.polls, r.store.polls, id)
      && r.store.options == s.options && r.store.votes == s.votes && r.store.users == s.users
  {
    if PollInsert in f then Step(s, Err(f[PollInsert]))
    else
      var id := s.lastPollId + 1;
      var poll := Poll(id, title, description, now, ActiveOrDefault(isActive), None);
      Step(s.(polls := s.polls[id := poll], lastPollId := id), Ok(Created(id)))
  }

  /** `getAllPolls()`: every poll, in rowid order. */
  function GetAllPolls(s: Store, f: Faults): (r: Result<seq<Poll>>)
    requires Wf(s)
    ensures PollsSelectAll in f ==> r == Err(f[PollsSelectAll])
    ensures PollsSelectAll !in f ==>
      && r.Ok?
      && (forall i, j :: 0 <= i < j < |r.value| ==> r.value[i].id < r.value[j].id)
      && (forall p :: p in r.value <==> p.id in s.polls && s.polls[p.id] == p)
  {
    if PollsSelectAll in f then Err(f[PollsSelectAll])
    else
      var ks := Tables.Select(s.polls, s.lastPollId + 1, (p: Poll) => true);
      var rows := Tables.RowsAt(s.polls, ks);
      assert forall i :: 0 <= i < |rows| ==> rows[i].id == ks[i];
      assert forall p: Poll :: p.id in s.polls && s.polls[p.id] == p ==> p in rows by {
        forall p: Poll | p.id in s.polls && s.polls[p.id] == p ensures p in rows {
          var i :| 0 <= i < |ks| && ks[i] == p.id;
          assert rows[i] == p;
        }
      }
      Ok(rows)
  }

  /** `getPollById(id)`: the row, or `undefined` when there is none. */
  function GetPollById(s: Store, f: Faults, id: RowId): (r: Result<Option<Poll>>)
    ensures PollSelect in f ==> r == Err(f[PollSelect])
    ensures PollSelect !in f ==> r.Ok? && (r.value.Some? <==> id in s.polls)
    ensures r.Ok? && r.value.Some? ==> r.value.value == s.polls[id]
  {
    if PollSelect in f then Err(f[PollSelect])
    else if id in s.polls then Ok(Some(s.polls[id]))
    else Ok(None)
  }

  /** `updatePoll(id, title, description, is_active)`: rewrites those three
      columns of the row with that id, if any, and reports whether one changed. */
  function UpdatePoll(s: Store, f: Faults, id: RowId, title: string,
                      description: Option<string>, isActive: Scalar): (r: Step<Updated>)
    requires Wf(s)
    ensures Wf(r.store)
    ensures PollUpdate in f ==> r == Step(s, Err(f[PollUpdate]))
    ensures PollUpdate !in f ==> r.result == Ok(Updated(id in s.polls))
    ensures id !in s.polls ==> r.store == s
    ensures id in s.polls && PollUpdate !in f ==>
      && id in r.store.polls
      && var old_, new_ := s.polls[id], r.store.polls[id];
      && new_.title == title && new_.description == description && new_.isActive == isActive
      && new_.id == old_.id && new_.createdAt == old_.createdAt && new_.createdBy == old_.createdBy
    ensures r.store.polls.Keys == s.polls.Keys
    ensures Tables.SameExcept(s.polls, r.store.polls, id)
    ensures r.store.options == s.options && r.store.votes == s.votes && r.store.users == s.users
  {
    if PollUpdate in f then Step(s, Err(f[PollUpdate]))
    else if id !in s.polls then Step(s, Ok(Updated(false)))
    else
      var poll := s.polls[id].(title := title, description := description, isActive := isActive);
      Step(s.(polls := s.polls[id := poll]), Ok(Updated(true)))
  }

  /** `deletePoll(id)`: removes the row with that id, if any, and reports
      whether one was removed. Options and votes are left as they are. */
  function DeletePoll(s: Store, f: Faults, id: RowId): (r: Step<Deleted>)
    requires Wf(s)
    ensures Wf(r.store)
    ensures PollDelete in f ==> r == Step(s, Err(f[PollDelete]))
    ensures PollDelete !in f ==> r.result == Ok(Deleted(id in s.polls))
    ensures PollDelete !in f ==> r.store.polls.Keys == s.polls.Keys - {id}
    ensures Tables.SameExcept(s.polls, r.store.polls, id)
    ensures r.store.options == s.options && r.store.votes == s.votes && r.store.users == s.users
  {
    if PollDelete in f then Step(s, Err(f[PollDelete]))
    else Step(s.(polls := s.polls - {id}), Ok(Deleted(id in s.polls)))
  }

  /** A poll created without faults is found again under the returned id, with
      no creator recorded. */
  lemma CreateThenGet(s: Store, f: Faults, title: string, description: Option<string>,
                      isActive: Option<Scalar>, now: Timestamp)
    requires Wf(s) && PollInsert !in f && PollSelect !in f
    ensures var c := CreatePoll(s, f, title, description, isActive, now);
            var got := GetPollById(c.store, f, c.result.value.id);
            got.Ok? && got.value.Some? && got.value.value.title == title
            && got.value.value.createdBy.None?
  {
  }

  /** An update is visible to the next lookup; creation time and creator are kept. */
  lemma UpdateThenGet(s: Store, f: Faults, id: RowId, title: string, description: Option<string>, isActive: Scalar)
    requires Wf(s) && PollUpdate !in f && PollSelect !in f && id in s.polls
    ensures GetPollById(UpdatePoll(s, f, id, title, description, isActive).store, f, id)
         == Ok(Some(Poll(id, title, description, s.polls[id].createdAt, isActive, s.polls[id].createdBy)))
  {
  }

  /** After a successful delete the poll is gone, and a second delete of the
      same id reports `deleted: false`. */
  lemma DeleteThenGet(s: Store, f: Faults, id: RowId)
    requires Wf(s) && PollDelete !in f && PollSelect !in f
    ensures var d := DeletePoll(s, f, id);
            && GetPollById(d.store, f, id) == Ok(None)
            && DeletePoll(d.store, f, id).result == Ok(Deleted(false))
  {
  }

  // ---- getPollResults over the store ----

  /** `SELECT id, text FROM options WHERE poll_id = ?`: the poll's options in
      rowid order. */
  function PollOptionKeys(s: Store, pollId: RowId): (ks: seq<RowId>)
    requires Wf(s)
    ensures Tables.Increasing(ks)
    ensures forall k :: k in ks <==> k in s.options && s.options[k].pollId == pollId
  {
    Tables.Select(s.options, s.lastOptionId + 1, (o: PollOption) => o.pollId == pollId)
  }

  function Summaries(s: Store, ks: seq<RowId>): (os: seq<OptionSummary>)
    requires forall k :: k in ks ==> k in s.options
    ensures |os| == |ks|
    ensures forall i :: 0 <= i < |ks| ==> os[i] == OptionSummary(ks[i], s.options[ks[i]].text)
  {
    seq(|ks|, i requires 0 <= i < |ks| => OptionSummary(ks[i], s.options[ks[i]].text))
  }

  /** The total query's answer: every vote row that joins one of the poll's options. */
  function PollTotal(s: Store, pollId: RowId): nat {
    VotesInPoll(s, pollId, s.lastVoteId + 1)
  }

  /** The per-option count query's answer. */
  function OptionCount(s: Store, optionId: RowId): nat {
    VotesFor(s.votes, optionId, s.lastVoteId + 1)
  }

  /** Over a well-formed store the total query counts every vote row whose
      option belongs to the poll, whatever its rowid. */
  lemma PollTotalIsSize(s: Store, pollId: RowId)
    requires Wf(s)
    ensures PollTotal(s, pollId) == |set k | k in s.votes && JoinsPoll(s, s.votes[k], pollId)|
  {
    VotesInPollIsSize(s, pollId, s.lastVoteId + 1);
    assert (set k | k in s.votes && k < s.lastVoteId + 1 && JoinsPoll(s, s.votes[k], pollId))
        == (set k | k in s.votes && JoinsPoll(s, s.votes[k], pollId));
  }

  /** Over a well-formed store the per-option query counts every vote row
      naming the option. */
  lemma OptionCountIsSize(s: Store, optionId: RowId)
    requires Wf(s)
    ensures OptionCount(s, optionId) == |set k | k in s.votes && s.votes[k].optionId == optionId|
  {
    VotesForIsSize(s.votes, optionId, s.lastVoteId + 1);
    assert (set k | k in s.votes && k < s.lastVoteId + 1 && s.votes[k].optionId == optionId)
        == (set k | k in s.votes && s.votes[k].optionId == optionId);
  }

  function OptionCounts(s: Store, ks: seq<RowId>): (cs: seq<Option<nat>>)
    ensures |cs| == |ks|
    ensures forall i :: 0 <= i < |ks| ==> cs[i] == Some(OptionCount(s, ks[i]))
  {
    seq(|ks|, i requires 0 <= i < |ks| => Some(OptionCount(s, ks[i])))
  }

  /** The statements `getPollResults` may run. */
  predicate ResultsFaultless(f: Faults) {
    PollSelect !in f && PollOptionsSelect !in f && PollVotesCount !in f && OptionVotesCount !in f
  }

  /** `getPollResults(pollId)` against one snapshot of the store. Each query
      runs only when the code reaches it, so a failing statement matters only
      on the paths that execute it. */
  function GetPollResults(s: Store, f: Faults, pollId: RowId): (r: Result<Option<PollResults>>)
    requires Wf(s)
    ensures r.Err? ==> r.message in f.Values
    ensures PollSelect in f ==> r == Err(f[PollSelect])
    ensures ResultsFaultless(f) ==> r.Ok?
    ensures PollSelect !in f && pollId !in s.polls ==> r == Ok(None)
    ensures r.Ok? ==> (r.value.None? <==> pollId !in s.polls)
    ensures r.Ok? && r.value.Some? ==> r.value.value.poll == s.polls[pollId]
  {
    if PollSelect in f then Err(f[PollSelect])
    else if pollId !in s.polls then Ok(None)
    else if PollOptionsSelect in f then Err(f[PollOptionsSelect])
    else
      var ks := PollOptionKeys(s, pollId);
      var poll := Some(s.polls[pollId]);
      if ks == [] then Ok(Aggregate(poll, [], None, []))
      else if PollVotesCount in f then Err(f[PollVotesCount])
      else
        var total := PollTotal(s, pollId);
        if total != 0 && OptionVotesCount in f then Err(f[OptionVotesCount])
        else Ok(Aggregate(poll, Summaries(s, ks), Some(total), OptionCounts(s, ks)))
  }

  /** Without store failures, the store version is the answer-level
      `Aggregate` fed with what the store's queries return. */
  lemma ResultsAggregateStoreAnswers(s: Store, f: Faults, pollId: RowId)
    requires Wf(s) && ResultsFaultless(f)
    ensures var poll := if pollId in s.polls then Some(s.polls[pollId]) else None;
            var ks := PollOptionKeys(s, pollId);
            GetPollResults(s, f, pollId)
              == Ok(Aggregate(poll, Summaries(s, ks), if ks == [] then None else Some(PollTotal(s, pollId)), OptionCounts(s, ks)))
  {
  }

  /** The results view of a found poll lists exactly its options, in rowid
      order, each with the number of vote rows naming it; `totalVotes` is
      absent exactly when the poll has no options, and otherwise equals the
      sum of the listed counts. */
  lemma {:induction false} ResultsMatchStore(s: Store, f: Faults, pollId: RowId)
    requires Wf(s)
    ensures var r := GetPollResults(s, f, pollId);
            r.Ok? && r.value.Some? ==>
              var v := r.value.value;
              var ks := PollOptionKeys(s, pollId);
              && |v.options| == |ks|
              && (forall i :: 0 <= i < |ks| ==>
                    && v.options[i].id == ks[i]
                    && v.options[i].text == s.options[ks[i]].text
                    && v.options[i].votes == OptionCount(s, ks[i]))
              && (v.totalVotes.None? <==> ks == [])
              && (v.totalVotes.Some? ==> v.totalVotes.value == SumTallies(v.options))
  {
    var r := GetPollResults(s, f, pollId);
    if r.Ok? && r.value.Some? {
      var v := r.value.value;
      var ks := PollOptionKeys(s, pollId);
      var n := s.lastVoteId + 1;
      if ks != [] {
        VotesInPollIsSum(s, pollId, ks, n);
        if PollTotal(s, pollId) == 0 {
          forall i | 0 <= i < |ks| ensures OptionCount(s, ks[i]) == 0 {
            VotesForAtMostSum(s.votes, ks, n, i);
          }
          SumTalliesOfZeros(v.options);
        } else {
          SumTalliesOfCounts(s.votes, ks, n, v.options);
        }
      }
    }
  }

  /** In a store the counts are consistent with the total, so every
      percentage lies in 0..100. */
  lemma ResultsPercentagesAtMost100(s: Store, f: Faults, pollId: RowId)
    requires Wf(s)
    ensures var r := GetPollResults(s, f, pollId);
            r.Ok? && r.value.Some? ==>
              forall i :: 0 <= i < |r.value.value.options| ==> r.value.value.options[i].percentage <= 100
  {
    var r := GetPollResults(s, f, pollId);
    if r.Ok? && r.value.Some? && pollId in s.polls {
      var ks := PollOptionKeys(s, pollId);
      var n := s.lastVoteId + 1;
      if ks != [] {
        VotesInPollIsSum(s, pollId, ks, n);
        forall i | 0 <= i < |ks| ensures CountOrZero(CountAnswer(OptionCounts(s, ks), i)) <= CountOrZero(Some(PollTotal(s, pollId))) {
          VotesForAtMostSum(s.votes, ks, n, i);
        }
        AggregatePercentagesAtMost100(Some(s.polls[pollId]), Summaries(s, ks), Some(PollTotal(s, pollId)), OptionCounts(s, ks));
      }
    }
  }
}
