# Poll project: services, controllers and results aggregation in Dafny

This project models the server core of a small voting application: per-entity
services that run primary-key CRUD statements against four SQLite tables
(`users`, `polls`, `options`, `votes`), the Express controllers that turn
service outcomes into HTTP status codes and JSON bodies, and the poll-results
aggregation (`getPollResults`), which counts votes per option and rounds
percentages.

## How the model is built

- **Store** (`records.dfy`, module `Records`). The database is a value:
  one map per table from primary key to row, plus each table's
  `sqlite_sequence` entry. `Wf` states what SQLite guarantees: every row sits
  under its own key, and AUTOINCREMENT ids are positive and never above the
  sequence entry. Every write is proved to keep `Wf`.
- **Store failures.** The code cannot show when a statement throws (I/O
  error, constraint violation, a value the driver refuses to bind), so this
  is a parameter. `Faults` maps a statement kind to the message it throws.
  A failing statement changes nothing.
- **Services** (`poll_service.dfy`, `option_service.dfy`, `vote_service.dfy`,
  `user_service.dfy`) are pure transitions `store -> Step(store', result)`.
  Reads return a `Result` and cannot change the store. So `getPollResults` is
  read-only, and calling it twice gives the same output.
- **Results, modelled twice** (`aggregation.dfy`, `poll_service.dfy`).
  - `Aggregation.Aggregate` works on the raw answers of the queries. That
    includes the `undefined` rows of the mocked unit tests.
  - `PollService.GetPollResults` runs the same logic against a store snapshot.
  - `Math.round((count / total) * 100)` is modelled as exact round-half-up:
    `(200*count + total) / (2*total)`.
- **Controllers** (`poll_controller.dfy`, `vote_controller.dfy`,
  `option_controller.dfy`) are pure functions. Their inputs are the store,
  the faults, the acting user's id and the request fields. Their output is
  the new store and a `Response(status, body)`.
- **Routes** (`api.dfy`) dispatch the fifteen routed requests. They let the
  model state what holds of every store that requests can build from an
  empty database.

What the code does that a reader might not expect, all proved:
- The `polls` table has no `created_by` column, and `createPoll` binds no
  creator even though the controller passes one. So through the routes no
  poll ever has an owner, and the 403 branch of poll update and delete can
  never fire (`Api.PollsNeverForbidden`).
- Vote deletion uses strict equality on `voter_id`. A vote without a voter
  can therefore be deleted by no one.
- `totalVotes` is absent when a poll has no options, and 0 when its options
  have no votes.
- The join total equals the sum of the per-option counts in every single
  snapshot. No foreign-key invariant is needed for this: the join and the
  per-option queries look at the same option ids.

## Model

| member | source | states |
|---|---|---|
| `Records.EmptyStore` | src/db/setup.js:17-40 | a freshly created database has empty tables and satisfies the table invariant; the `users` table is assumed to exist alongside the three created here |
| `Tables.Select` | src/services/pollService.js:39-41 | a rowid-order scan lists exactly the keys below the bound whose rows match the filter, strictly increasing |
| `PollService.ActiveOrDefault` | src/services/pollService.js:5 | the `is_active = 1` default applies only to an undefined argument; any given value, even null or 0, is kept |
| `PollService.CreatePoll` | src/services/pollService.js:5-11 | a new poll gets an id above every existing one; the row holds the given title, description and flag, no creator; nothing else changes; a failing insert changes nothing and throws |
| `PollService.GetAllPolls` | src/services/pollService.js:13-15 | lists exactly the stored polls, in increasing id order |
| `PollService.GetPollById` | src/services/pollService.js:17-19 | returns the stored row when the id exists and nothing otherwise |
| `PollService.UpdatePoll` | src/services/pollService.js:21-27 | `updated` is true iff the id existed; only that row changes, only in title, description and flag; id, creation time and creator are kept |
| `PollService.DeletePoll` | src/services/pollService.js:29-33 | `deleted` is true iff the id existed; afterwards the id is absent; other polls, options and votes are unchanged |
| `PollService.CreateThenGet` | src/services/pollService.js:5-19 | a created poll is found again under the returned id, with no creator |
| `PollService.UpdateThenGet` | src/services/pollService.js:17-27 | after an update the lookup returns the new title, description and flag with the original creation time |
| `PollService.DeleteThenGet` | src/services/pollService.js:17-33 | after a delete the poll is not found, and deleting it again reports false |
| `PollService.PollOptionKeys` | src/services/pollService.js:39-41 | the options query lists exactly the options with that poll id, each once, in id order |
| `PollService.GetPollResults` | src/services/pollService.js:35-90 | null iff no poll has that id; a found poll is returned as stored; errors come only from failing statements, and without them the call succeeds |
| `PollService.ResultsAggregateStoreAnswers` | src/services/pollService.js:35-90 | the store version equals the answer-level aggregation fed with the store's query answers |
| `PollService.ResultsMatchStore` | src/services/pollService.js:39-89 | the view lists the poll's options in order with their ids and texts; each `votes` is that option's vote count; `totalVotes` is absent iff there are no options, and otherwise equals the sum of the `votes` |
| `PollService.ResultsPercentagesAtMost100` | src/services/pollService.js:68-83 | in a store snapshot every percentage lies in 0..100 |
| `Aggregation.RoundedPercent` | src/services/pollService.js:76 | the result is the integer nearest to 100·count/total, a half rounding up |
| `Aggregation.RoundedPercentUnique` | src/services/pollService.js:76 | that nearest-integer bracket determines the percentage uniquely |
| `Aggregation.RoundedPercentAtMost100` | src/services/pollService.js:76 | a count no larger than the total gives at most 100 |
| `Aggregation.RoundedPercentExamples` | tests/services/pollService.test.js:230-269 | 7/10 gives 70 and 3/10 gives 30; 1/3 and 2/3 give 33 and 67; shares 1, 3, 4 of 8 add up to 101, since percentages are not normalised |
| `Aggregation.Aggregate` | src/services/pollService.js:35-90 | null iff the poll lookup found nothing; no options gives `{poll, options: []}` without `totalVotes`; a zero or undefined total gives zeros and `totalVotes` 0; otherwise each option's count, with undefined read as 0, and its rounded percentage; ids and texts are kept in order |
| `Aggregation.AggregatePercentagesAtMost100` | src/services/pollService.js:68-83 | if no count answer exceeds the total, every percentage is at most 100 |
| `Aggregation.AggregateMockedCases` | tests/services/pollService.test.js:156-346 | reproduces the mocked cases: missing poll, no options, zero total, 7 and 3 of 10, undefined total row, undefined count row |
| `Aggregation.VotesForIsSize` | src/services/pollService.js:69-75 | the per-option count is the number of vote rows naming that option |
| `Aggregation.VotesInPollIsSize` | src/services/pollService.js:47-54 | the join total counts the vote rows whose option exists and belongs to the poll |
| `PollService.PollTotalIsSize` | src/services/pollService.js:47-54 | in a well-formed store `PollTotal`, the total query's answer, is the number of stored votes whose option belongs to the poll |
| `PollService.OptionCountIsSize` | src/services/pollService.js:69-75 | in a well-formed store `OptionCount`, the per-option query's answer, is the number of stored votes naming that option |
| `Aggregation.VotesInPollIsSum` | src/services/pollService.js:47-75 | the join total equals the sum of the per-option counts over the poll's options |
| `OptionService.CreateOption` | src/services/optionService.js:5-11 | a new option gets an id above every existing one and holds the given poll id and text; the poll is not checked; nothing else changes |
| `OptionService.GetAllOptions` | src/services/optionService.js:13-15 | lists exactly the stored options, in increasing id order |
| `OptionService.GetOptionById` | src/services/optionService.js:17-19 | returns the stored row when the id exists and nothing otherwise |
| `OptionService.UpdateOption` | src/services/optionService.js:21-27 | `updated` is true iff the id existed; that row gets the new poll id and text; other options are unchanged |
| `OptionService.DeleteOption` | src/services/optionService.js:29-33 | `deleted` is true iff the id existed; afterwards the id is absent; votes are unchanged |
| `OptionService.CreateForMissingPoll` | src/services/optionService.js:5-11 | an option can be created for a poll id that does not exist |
| `OptionService.CreateThenGet` | src/services/optionService.js:5-19 | a created option is found again under the returned id |
| `OptionService.DeleteThenGet` | src/services/optionService.js:17-33 | after a delete the option is not found, and deleting it again reports false |
| `OptionService.UpdateThenGet` | src/services/optionService.js:17-27 | after an update the lookup returns the moved option |
| `VoteService.CreateVote` | src/services/voteService.js:5-11 | adds exactly one vote with the given option and voter, under an id above every existing one |
| `VoteService.GetAllVotes` | src/services/voteService.js:13-15 | lists exactly the stored votes, in increasing id order |
| `VoteService.GetVoteById` | src/services/voteService.js:17-19 | returns the stored row when the id exists and nothing otherwise |
| `VoteService.UpdateVote` | src/services/voteService.js:21-27 | `updated` is true iff the id existed; only that row's option and voter change; `voted_at` is kept |
| `VoteService.DeleteVote` | src/services/voteService.js:29-33 | `deleted` is true iff the id existed; afterwards the id is absent and other votes are unchanged |
| `VoteService.DuplicateVotesAllowed` | src/services/voteService.js:5-11 | the same option and voter twice gives two distinct stored votes |
| `VoteService.CreateThenGet` | src/services/voteService.js:5-19 | a created vote is found again under the returned id, with the given option, voter and time |
| `VoteService.UpdateThenGet` | src/services/voteService.js:17-27 | after an update the lookup returns the new option and voter with the original `voted_at` |
| `VoteService.DeleteThenGet` | src/services/voteService.js:17-33 | after a delete the vote is not found, and deleting it again reports false |
| `UserService.GetUserById` | src/services/userService.js:34-41 | returns the user when present and null otherwise; a store error is rethrown as "Error fetching user: " plus its message |
| `UserService.SaveUser` | src/services/userService.js:10-27 | inserts or overwrites only that user; without failing statements it returns the stored record; the row carries the profile's email, name and picture, keeps an existing user's creation time and otherwise takes the current time; other users and tables are unchanged; errors get the prefix "Error saving user: ", and a failing read-back gets both prefixes |
| `UserService.SaveThenGet` | src/services/userService.js:10-41 | the record `saveUser` returns is what a later lookup of that id finds; without failing statements that lookup finds the upserted user |
| `UserService.SaveUserIdempotent` | src/services/userService.js:12-21 | saving the same profile again leaves the store unchanged, even at a later time |
| `UserService.SaveUserKeepsCreatedAt` | src/services/userService.js:15-18 | a returning user keeps the original creation time |
| `Http.ServerError` | src/controllers/pollController.js:17-19 | a thrown error answers 500 with `{error: message}` and changes nothing more |
| `PollController.ActiveFlag` | src/controllers/pollController.js:13 | `is_active ?? 1`: only an absent or null flag becomes 1; 0 and false are kept |
| `PollController.MayMutateCases` | src/controllers/pollController.js:49 | a poll with no creator, or an empty one, may be changed by anyone; a poll with a creator may be changed only by that user |
| `PollController.Create` | src/controllers/pollController.js:5-20 | answers 201 with a fresh id whose row has the defaulted flag and no creator; a failing insert answers 500 |
| `PollController.GetAll` | src/controllers/pollController.js:22-29 | answers 200 with exactly the stored polls, or 500 |
| `PollController.GetById` | src/controllers/pollController.js:31-39 | answers 200 with the row, 404 "Poll not found" when absent, or 500 |
| `PollController.Update` | src/controllers/pollController.js:41-65 | a missing poll answers 404 for any user; a poll owned by someone else answers 403; both leave the store unchanged; otherwise the store is updated and the answer is `updated: true`, or 500 |
| `PollController.Delete` | src/controllers/pollController.js:67-85 | the same 404, then 403, then delete order; an allowed delete removes the poll and answers `deleted: true` |
| `PollController.GetResults` | src/controllers/pollController.js:87-100 | a null result answers 404 "Poll not found", which happens iff the poll is missing; otherwise the results are returned unchanged; errors answer 500 |
| `PollController.UpdateRefusalSkipsMutation` | src/controllers/pollController.js:44-55 | a 403 or 404 update never reaches `updatePoll`, so its outcome does not depend on that statement |
| `PollController.DeleteRefusalSkipsMutation` | src/controllers/pollController.js:69-80 | a 403 or 404 delete never reaches `deletePoll` |
| `PollController.CreateIgnoresUser` | src/controllers/pollController.js:7-15 | who creates a poll makes no difference to the outcome |
| `VoteController.Create` | src/controllers/voteController.js:5-15 | answers 201 and stores the acting user as the voter; a failing insert answers 500 |
| `VoteController.GetAll` | src/controllers/voteController.js:17-24 | answers 200 with exactly the stored votes, or 500 |
| `VoteController.GetById` | src/controllers/voteController.js:26-34 | answers 200 with the row, 404 "Vote not found" when absent, or 500 |
| `VoteController.Update` | src/controllers/voteController.js:36-48 | no ownership check; a missing vote answers 404; otherwise the vote is given the new option and the acting user as voter, and the answer is `updated: true` |
| `VoteController.Delete` | src/controllers/voteController.js:50-68 | a missing vote answers 404; 403 iff the vote's voter is not exactly the acting user, with the store unchanged; otherwise one delete runs and its result is returned |
| `VoteController.CreateIgnoresBodyVoter` | src/controllers/voteController.js:5-10 | a `voter_id` in the body has no effect |
| `VoteController.VoterlessVoteUndeletable` | src/controllers/voteController.js:57-61 | a vote with no voter answers 403 to every user |
| `VoteController.CreatorMayDelete` | src/controllers/voteController.js:50-64 | whoever cast a vote through `create` can delete it, which restores the votes table |
| `OptionController.Create` | src/controllers/optionController.js:5-13 | answers 201 with a fresh id whose row holds the body's poll id and text, or 500 |
| `OptionController.GetAll` | src/controllers/optionController.js:15-22 | answers 200 with exactly the stored options, or 500 |
| `OptionController.GetById` | src/controllers/optionController.js:24-32 | answers 200 with the row, 404 "Option not found" when absent, or 500 |
| `OptionController.Update` | src/controllers/optionController.js:34-44 | with no user involved, the store is what `updateOption` leaves; a missing option answers 404, otherwise `updated: true` |
| `OptionController.Delete` | src/controllers/optionController.js:46-55 | with no user involved, the store is what `deleteOption` leaves; a missing option answers 404, otherwise `deleted: true` |
| `Api.Route` | src/routes/index.js:10-29 | every routed request keeps the table invariant |
| `Api.RouteKeepsInvariant` | src/routes/index.js:10-29 | no routed request records a poll creator or stores a vote without a voter |
| `Api.RunKeepsInvariant` | src/routes/index.js:10-29 | the same holds after any sequence of routed requests |
| `Api.PollsNeverForbidden` | src/services/pollService.js:5-11 | after any sequence of routed requests from an empty database, no poll update or delete answers 403 |
| `Api.VoteDeleteForbiddenOnlyToOthers` | src/controllers/voteController.js:57-61 | through the routes, a vote delete answers 403 only to a user other than the vote's recorded voter |

## Left out

- Percentages use exact rational rounding. JavaScript computes `count / total * 100` in doubles, which can land just below an exact .5 and round down.
- `getPollResults` runs several queries with no transaction; a write between them could make the counts disagree with the total. The model reads one snapshot.
- Foreign keys and `ON DELETE CASCADE` (src/db/setup.js:30, 38) depend on a driver setting the code does not show. Deletes remove only their own row, and a rejected foreign key is one more store failure under `Faults`.
- How the driver binds values it cannot store (`undefined`, booleans) and NOT NULL violations are not visible. They count as store failures. Body fields other than `is_active` on create are taken as present.
- Request bodies are taken to be objects. Destructuring a missing `req.body` throws before the handlers' `try` blocks, so Express's own error handling would answer; that path is not modelled.
- Request ids are natural numbers. SQLite's text-to-integer comparison of `req.params.id` and non-numeric ids are not modelled.
- Every request is modelled with a signed-in user id. The route table in src/routes/index.js:11-29 mounts no authentication middleware, so nothing in the shown code supplies `req.user`. Without it, poll create (src/controllers/pollController.js:7) and vote create and update (src/controllers/voteController.js:7, 38) throw before their `try` blocks. Vote delete throws inside its `try` and answers 500 (src/controllers/voteController.js:57). Poll update and delete read `req.user.id` only for a poll with a truthy `created_by` (src/controllers/pollController.js:49, 74), which the routes never store. The read handlers and all option handlers never read it. None of these user-less paths is modelled.
- UserService.SaveUser: like `UserService.GetUserById` and `Records.EmptyStore`, it assumes an external table `users(id, email, name, picture, created_at DEFAULT CURRENT_TIMESTAMP)`. The shown code never creates it: src/db/setup.js:17-40 creates only `polls`, `options` and `votes`. Against that database, the `INSERT INTO users` (src/services/userService.js:13) and the `SELECT * FROM users` (src/services/userService.js:36) would both fail with "no such table". The `created_at` default that `SaveUser` stamps with the current time is likewise an assumption.
- Listing operations return rows in increasing rowid order. This is an assumption about SQLite's current plan, a full scan of a rowid table. The queries carry no `ORDER BY` (src/services/pollService.js:14, 40; src/services/optionService.js:14; src/services/voteService.js:14), so SQL itself does not promise this order. The ordering clauses of `PollService.GetAllPolls`, `PollService.PollOptionKeys`, `OptionService.GetAllOptions`, `VoteService.GetAllVotes` and `Tables.Select` rest on it.
- `src/middleware/auth.js` (OAuth, sessions, the login callback that calls `saveUser`), `src/controllers/homeController.js` (HTML), `src/index.js` (server start-up), the schema DDL and directory creation in `src/db/setup.js`, and `src/scripts/seedData.js` are I/O or one-off scripts.
- Some test expectations contradict the code; the model follows the code. tests/controllers/voteController.test.js:33-38 expects the voter from the body. The poll controller tests expect `createPoll` to take a creator, which src/services/pollService.js:5 does not accept.
- `getPollResults` has no route in src/routes/index.js. `PollController.GetResults` is modelled anyway, but `Api.Route` does not dispatch it.
