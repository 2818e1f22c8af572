/** The arithmetic of `getPollResults` (src/services/pollService.js): how
    the answers of its queries become the results view, and what the two
    vote-counting queries count in a store. */
module Aggregation {
  import opened Wrappers
  import opened Records
  import Tables

  /** A row of `SELECT id, text FROM options WHERE poll_id = ?`. */
  datatype OptionSummary = OptionSummary(id: RowId, text: string)

  /** `{ ...option, votes, percentage }` */
  datatype OptionTally = OptionTally(id: RowId, text: string, votes: nat, percentage: nat)

  /** `{ poll, options, totalVotes }`; `totalVotes == None` is an object
      without that key. */
  datatype PollResults = PollResults(poll: Poll, options: seq<OptionTally>, totalVotes: Option<nat>)

  /** `Math.round((count / total) * 100)` over exact rationals: the integer
      nearest to 100 * count / total, a half rounding up. */
  function RoundedPercent(count: nat, total: nat): (pct: nat)
    requires total > 0
    ensures total * (2 * (pct as int) - 1) <= 200 * count < total * (2 * pct + 1)
  {
    var num, den := 200 * count + total, 2 * total;
    var q := num / den;
    assert num == den * q + num % den;
    assert den * q == 2 * total * q;
    q
  }

  /** The rounding bracket of `RoundedPercent` determines its value. */
  lemma RoundedPercentUnique(count: nat, total: nat, pct: int)
    requires total > 0
    requires total * (2 * pct - 1) <= 200 * count < total * (2 * pct + 1)
    ensures pct == RoundedPercent(count, total)
  {
    var r: int := RoundedPercent(count, total);
    LessByFactor(total, 2 * pct - 1, 2 * r + 1);
    LessByFactor(total, 2 * r - 1, 2 * pct + 1);
  }

  lemma LessByFactor(t: int, a: int, b: int)
    requires t > 0 && t * a < t * b
    ensures a < b
  {
  }

  /** A share of at most the whole is at most 100 percent. */
  lemma RoundedPercentAtMost100(count: nat, total: nat)
    requires 0 < total && count <= total
    ensures RoundedPercent(count, total) <= 100
  {
    var r: int := RoundedPercent(count, total);
    LessByFactor(total, 2 * r - 1, 201);
  }

  /** The examples of tests/services/pollService.test.js and the rounding
      rule: 7/10 and 3/10, then 1/3 and 2/3, whose shares do not add to 100. */
  lemma RoundedPercentExamples()
    ensures RoundedPercent(7, 10) == 70 && RoundedPercent(3, 10) == 30
    ensures RoundedPercent(1, 3) == 33 && RoundedPercent(2, 3) == 67
    ensures RoundedPercent(1, 8) + RoundedPercent(3, 8) + RoundedPercent(4, 8) == 101
  {
  }

  /** `queryRow || { count: 0 }`: an `undefined` row counts as zero. */
  function CountOrZero(answer: Option<nat>): nat {
    answer.GetOr(0)
  }

  /** The answer to the i-th per-option count query. Answers are consumed in
      option order; past the end of `counts` the query answers `undefined`. */
  function CountAnswer(counts: seq<Option<nat>>, i: nat): Option<nat> {
    if i < |counts| then counts[i] else None
  }

  function ZeroTally(o: OptionSummary): OptionTally {
    OptionTally(o.id, o.text, 0, 0)
  }

  function CountedTally(o: OptionSummary, count: nat, total: nat): OptionTally
    requires total > 0
  {
    OptionTally(o.id, o.text, count, RoundedPercent(count, total))
  }

  /** `getPollResults` over the answers its queries return: the poll lookup
      (`None` when not found), the option list, the total row and the
      per-option count rows. */
  function Aggregate(poll: Option<Poll>, options: seq<OptionSummary>,
                     total: Option<nat>, counts: seq<Option<nat>>): (r: Option<PollResults>)
    ensures r.None? <==> poll.None?
    ensures r.Some? ==> r.value.poll == poll.value && |r.value.options| == |options|
    ensures r.Some? && options == [] ==> r.value == PollResults(poll.value, [], None)
    ensures r.Some? && options != [] ==> r.value.totalVotes == Some(CountOrZero(total))
    ensures r.Some? ==> forall i :: 0 <= i < |options| ==>
      r.value.options[i].id == options[i].id && r.value.options[i].text == options[i].text
    ensures r.Some? && CountOrZero(total) == 0 ==> forall i :: 0 <= i < |options| ==>
      r.value.options[i].votes == 0 && r.value.options[i].percentage == 0
    ensures r.Some? && CountOrZero(total) > 0 ==> forall i :: 0 <= i < |options| ==>
      && r.value.options[i].votes == CountOrZero(CountAnswer(counts, i))
      && r.value.options[i].percentage == RoundedPercent(r.value.options[i].votes, CountOrZero(total))
  {
    if poll.None? then None
    else if |options| == 0 then Some(PollResults(poll.value, [], None))
    else
      var t := CountOrZero(total);
      if t == 0 then
        Some(PollResults(poll.value, seq(|options|, i requires 0 <= i < |options| => ZeroTally(options[i])), Some(0)))
      else
        var tallies := seq(|options|, i requires 0 <= i < |options| =>
          CountedTally(options[i], CountOrZero(CountAnswer(counts, i)), t));
        Some(PollResults(poll.value, tallies, Some(t)))
  }

  /** When no count answer exceeds the total, every percentage is in 0..100. */
  lemma AggregatePercentagesAtMost100(poll: Option<Poll>, options: seq<OptionSummary>,
                                      total: Option<nat>, counts: seq<Option<nat>>)
    requires forall i :: 0 <= i < |options| ==> CountOrZero(CountAnswer(counts, i)) <= CountOrZero(total)
    ensures var r := Aggregate(poll, options, total, counts);
            r.Some? ==> forall i :: 0 <= i < |r.value.options| ==> r.value.options[i].percentage <= 100
  {
    var r := Aggregate(poll, options, total, counts);
    if r.Some? && CountOrZero(total) > 0 {
      forall i | 0 <= i < |r.value.options| ensures r.value.options[i].percentage <= 100 {
        RoundedPercentAtMost100(CountOrZero(CountAnswer(counts, i)), CountOrZero(total));
      }
    }
  }

  /** The mocked cases of tests/services/pollService.test.js: a missing
      poll, a poll without options, a zero total, 7 and 3 of 10, an
      `undefined` total row and an `undefined` count row. */
  lemma AggregateMockedCases(p: Poll)
    ensures Aggregate(None, [], None, []) == None
    ensures Aggregate(Some(p), [], None, []) == Some(PollResults(p, [], None))
    ensures var os := [OptionSummary(1, "Option 1"), OptionSummary(2, "Option 2")];
            && Aggregate(Some(p), os, Some(0), [])
                 == Some(PollResults(p, [OptionTally(1, "Option 1", 0, 0), OptionTally(2, "Option 2", 0, 0)], Some(0)))
            && Aggregate(Some(p), os, Some(10), [Some(7), Some(3)])
                 == Some(PollResults(p, [OptionTally(1, "Option 1", 7, 70), OptionTally(2, "Option 2", 3, 30)], Some(10)))
            && Aggregate(Some(p), os, None, [])
                 == Some(PollResults(p, [OptionTally(1, "Option 1", 0, 0), OptionTally(2, "Option 2", 0, 0)], Some(0)))
    ensures Aggregate(Some(p), [OptionSummary(1, "Option 1")], Some(10), [None])
              == Some(PollResults(p, [OptionTally(1, "Option 1", 0, 0)], Some(10)))
  {
    var os := [OptionSummary(1, "Option 1"), OptionSummary(2, "Option 2")];
    RoundedPercentExamples();
    assert RoundedPercent(0, 10) == 0;
    var r := Aggregate(Some(p), os, Some(10), [Some(7), Some(3)]).value;
    assert r.options == [OptionTally(1, "Option 1", 7, 70), OptionTally(2, "Option 2", 3, 30)];
    var z := Aggregate(Some(p), os, Some(0), []).value;
    assert z.options == [OptionTally(1, "Option 1", 0, 0), OptionTally(2, "Option 2", 0, 0)];
    var u := Aggregate(Some(p), os, None, []).value;
    assert u.options == [OptionTally(1, "Option 1", 0, 0), OptionTally(2, "Option 2", 0, 0)];
    var one := Aggregate(Some(p), [OptionSummary(1, "Option 1")], Some(10), [None]).value;
    assert one.options == [OptionTally(1, "Option 1", 0, 0)];
  }

  // ---- The vote-counting queries over a store ----

  /** `SELECT COUNT(*) FROM votes WHERE option_id = ?`, scanning rowids below `n`. */
  function VotesFor(votes: map<RowId, Vote>, optionId: RowId, n: nat): nat {
    if n == 0 then 0
    else VotesFor(votes, optionId, n - 1) + (if n - 1 in votes && votes[n - 1].optionId == optionId then 1 else 0)
  }

  /** The votes that `JOIN options o ON v.option_id = o.id WHERE o.poll_id = ?` keeps. */
  ghost predicate JoinsPoll(s: Store, v: Vote, pollId: RowId) {
    v.optionId in s.options && s.options[v.optionId].pollId == pollId
  }

  /** The total query of `getPollResults`, scanning vote rowids below `n`. */
  function VotesInPoll(s: Store, pollId: RowId, n: nat): nat {
    if n == 0 then 0
    else
      VotesInPoll(s, pollId, n - 1)
      + (if n - 1 in s.votes && s.votes[n - 1].optionId in s.options
            && s.options[s.votes[n - 1].optionId].pollId == pollId then 1 else 0)
  }

  /** The count is the number of vote rows naming that option. */
  lemma {:induction false} VotesForIsSize(votes: map<RowId, Vote>, optionId: RowId, n: nat)
    ensures VotesFor(votes, optionId, n) == |set k | k in votes && k < n && votes[k].optionId == optionId|
  {
    if n > 0 {
      VotesForIsSize(votes, optionId, n - 1);
      var below := set k | k in votes && k < n - 1 && votes[k].optionId == optionId;
      var upto := set k | k in votes && k < n && votes[k].optionId == optionId;
      if n - 1 in votes && votes[n - 1].optionId == optionId {
        assert upto == below + {n - 1};
      } else {
        assert upto == below;
      }
    }
  }

  /** The total is the number of vote rows whose option belongs to the poll. */
  lemma {:induction false} VotesInPollIsSize(s: Store, pollId: RowId, n: nat)
    ensures VotesInPoll(s, pollId, n) == |set k | k in s.votes && k < n && JoinsPoll(s, s.votes[k], pollId)|
  {
    if n > 0 {
      VotesInPollIsSize(s, pollId, n - 1);
      var below := set k | k in s.votes && k < n - 1 && JoinsPoll(s, s.votes[k], pollId);
      var upto := set k | k in s.votes && k < n && JoinsPoll(s, s.votes[k], pollId);
      if n - 1 in s.votes && JoinsPoll(s, s.votes[n - 1], pollId) {
        assert upto == below + {n - 1};
      } else {
        assert upto == below;
      }
    }
  }

  /** The per-option counts of an option list, added up. */
  function SumVotes(votes: map<RowId, Vote>, ks: seq<RowId>, n: nat): nat {
    if ks == [] then 0 else VotesFor(votes, ks[0], n) + SumVotes(votes, ks[1..], n)
  }

  /** Adding one more vote row to the scan adds one to the sum exactly when
      that vote names one of the (distinct) options. */
  lemma {:induction false} SumVotesStep(votes: map<RowId, Vote>, ks: seq<RowId>, n: nat)
    requires Tables.Increasing(ks)
    ensures SumVotes(votes, ks, n + 1)
         == SumVotes(votes, ks, n) + (if n in votes && votes[n].optionId in ks then 1 else 0)
  {
    if ks != [] {
      assert Tables.Increasing(ks[1..]);
      SumVotesStep(votes, ks[1..], n);
      if n in votes && votes[n].optionId == ks[0] {
        assert votes[n].optionId !in ks[1..] by {
          forall j | 0 <= j < |ks[1..]| ensures ks[1..][j] != ks[0] {
            assert ks[1..][j] == ks[j + 1];
          }
        }
      }
      if n in votes && votes[n].optionId in ks && votes[n].optionId != ks[0] {
        assert votes[n].optionId in ks[1..] by {
          var j :| 0 <= j < |ks| && ks[j] == votes[n].optionId;
          assert j > 0 && ks[1..][j - 1] == ks[j];
        }
      }
    }
  }

  /** The total query counts exactly the votes the per-option queries count,
      when `ks` lists the poll's options without repetition. */
  lemma {:induction false} VotesInPollIsSum(s: Store, pollId: RowId, ks: seq<RowId>, n: nat)
    requires Tables.Increasing(ks)
    requires forall k :: k in ks <==> k in s.options && s.options[k].pollId == pollId
    ensures VotesInPoll(s, pollId, n) == SumVotes(s.votes, ks, n)
  {
    if n == 0 {
      SumVotesZero(s.votes, ks);
    } else {
      VotesInPollIsSum(s, pollId, ks, n - 1);
      SumVotesStep(s.votes, ks, n - 1);
    }
  }

  lemma {:induction false} SumVotesZero(votes: map<RowId, Vote>, ks: seq<RowId>)
    ensures SumVotes(votes, ks, 0) == 0
  {
    if ks != [] {
      SumVotesZero(votes, ks[1..]);
    }
  }

  /** One option's count never exceeds the sum over the list it is in. */
  lemma {:induction false} VotesForAtMostSum(votes: map<RowId, Vote>, ks: seq<RowId>, n: nat, i: nat)
    requires i < |ks|
    ensures VotesFor(votes, ks[i], n) <= SumVotes(votes, ks, n)
  {
    if i > 0 {
      VotesForAtMostSum(votes, ks[1..], n, i - 1);
    }
  }

  /** The `votes` fields of a results view, added up. */
  function SumTallies(ts: seq<OptionTally>): nat {
    if ts == [] then 0 else ts[0].votes + SumTallies(ts[1..])
  }

  lemma {:induction false} SumTalliesOfCounts(votes: map<RowId, Vote>, ks: seq<RowId>, n: nat, ts: seq<OptionTally>)
    requires |ts| == |ks|
    requires forall i :: 0 <= i < |ks| ==> ts[i].votes == VotesFor(votes, ks[i], n)
    ensures SumTallies(ts) == SumVotes(votes, ks, n)
  {
    if ks != [] {
      SumTalliesOfCounts(votes, ks[1..], n, ts[1..]);
    }
  }

  lemma {:induction false} SumTalliesOfZeros(ts: seq<OptionTally>)
    requires forall i :: 0 <= i < |ts| ==> ts[i].votes == 0
    ensures SumTallies(ts) == 0
  {
    if ts != [] {
      SumTalliesOfZeros(ts[1..]);
    }
  }
}
