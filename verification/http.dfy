/** What a controller hands to Express: a status code and a JSON body, and
    the store the handler leaves behind. */
module Http {
  import opened Records
  import opened Aggregation

  datatype Body =
    | ErrorBody(error: string)
    | CreatedBody(created: Created)
    | UpdatedBody(updated: Updated)
    | DeletedBody(deleted: Deleted)
    | PollBody(poll: Poll)
    | PollsBody(polls: seq<Poll>)
    | OptionBody(option: PollOption)
    | OptionsBody(options: seq<PollOption>)
    | VoteBody(vote: Vote)
    | VotesBody(votes: seq<Vote>)
    | ResultsBody(results: PollResults)

  /** `res.status(status).json(body)`; `res.json(body)` alone answers 200. */
  datatype Response = Response(status: nat, body: Body)

  datatype Handled = Handled(store: Store, response: Response)

  /** The `catch (err)` of every handler: `res.status(500).json({ error: err.message })`. */
  function ServerError(s: Store, message: string): (h: Handled)
    ensures h.store == s && h.response.status == 500 && h.response.body.ErrorBody?
    ensures h.response.body.error == message
  {
    Handled(s, Response(500, ErrorBody(message)))
  }
}
