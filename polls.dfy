/** Value objects shared by the ranking and analytics engine: the rows the
    request handlers read from the datastore and hand to the data structures. */
module Polls {

  /** A value or its absence (JavaScript's `null`). */
  datatype Option<+T> = None | Some(value: T)

  /** A value or the message of the rejection the handler would send. */
  datatype Result<+T> = Ok(value: T) | Err(message: string)

  /** A poll row: `id`, `title`, `created_at`, the nullable `expires_at` and
      `total_votes`. Timestamps are milliseconds since the epoch. */
  datatype Poll = Poll(id: int, title: string, createdAt: int, expiresAt: Option<int>, totalVotes: int)

  /** A tally of one poll option: `id`, `option_text`, `vote_count` and the
      caller-computed `percentage`, treated here as an opaque integer key. */
  datatype OptionTally = OptionTally(id: int, optionText: string, voteCount: int, percentage: int)
}
