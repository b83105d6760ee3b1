/** The value types the twitter core works on. */
module Tweets {

  /** A tweet; the timestamp stands for a java.time.Instant, as an integer. */
  datatype Tweet = Tweet(id: int, author: string, text: string, timestamp: int)

  /** A closed interval of instants. */
  datatype Timespan = Timespan(start: int, end: int)

  /** The outcome of an operation that may throw IllegalArgumentException. */
  datatype Result<T> = Success(value: T) | Failure(error: string)
}
