/** The part of a Redis keyspace the storage protocols rely on: entries with a deadline on a
millisecond clock. A key has expired once the clock is past its deadline. */
module Keyspace {
  import opened Options

  datatype Entry<+V> = Entry(value: V, deadline: Option<int>)

  const MILLIS_PER_SECOND: int := 1000
  const NANOS_PER_MILLI: int := 1_000_000
  const NANOS_PER_SECOND: int := 1_000_000_000

  predicate Expired<V>(e: Entry<V>, clock: int) {
    e.deadline.Some? && clock > e.deadline.value
  }

  /** An entry as a command sees it: an expired key is a missing key. */
  function Live<V>(e: Option<Entry<V>>, clock: int): Option<Entry<V>> {
    if e.Some? && Expired(e.value, clock) then None else e
  }

  /** EXPIRE with a whole number of seconds; a number that is not positive deletes the key. */
  function Expire<V>(e: Option<Entry<V>>, clock: int, seconds: int): Option<Entry<V>> {
    if e.None? || seconds <= 0 then None
    else Some(e.value.(deadline := Some(clock + seconds * MILLIS_PER_SECOND)))
  }

  /** What a storage call reports besides its value. */
  datatype Status = OK | RedisDown | KeyNotFound | ValueMismatch
}
