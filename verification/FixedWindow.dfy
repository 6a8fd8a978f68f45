/** IncrementWithExpiry (pkg/storage/redis_helpers.go and the script in redis_cluster.go): a
counter whose first increment opens a window, for a key touched by nothing else. */
module FixedWindow {
  import opened Options
  import opened Keyspace

  /** int64(ttl.Seconds()): whole seconds of a duration in nanoseconds, toward zero. */
  function WholeSeconds(ttl: int): int {
    if ttl >= 0 then ttl / NANOS_PER_SECOND else -((-ttl) / NANOS_PER_SECOND)
  }

  /** INCR, then EXPIRE if the new value is one and the number of seconds is positive. */
  function Incremented(e: Option<Entry<int>>, clock: int, seconds: int): (Option<Entry<int>>, int) {
    var before := if Live(e, clock).Some? then Live(e, clock).value else Entry(0, None);
    var value := before.value + 1;
    var after := Some(before.(value := value));
    (if value == 1 && seconds > 0 then Expire(after, clock, seconds) else after, value)
  }

  class CounterStore {
    var entry: Option<Entry<int>>
    var clock: int

    constructor (clock: int)
      ensures entry == None && this.clock == clock
    {
      entry, this.clock := None, clock;
    }

    method Incr() returns (value: int)
      modifies this`entry
      ensures match Live(old(entry), clock)
              case None => value == 1 && entry == Some(Entry(1, None))
              case Some(e) => value == e.value + 1 && entry == Some(e.(value := value))
    {
      entry := Live(entry, clock);
      if entry.None? {
        entry := Some(Entry(0, None));
      }
      value := entry.value.value + 1;
      entry := Some(entry.value.(value := value));
    }

    method IncrementWithExpiry(up: bool, ttl: int) returns (value: int, status: Status)
      modifies this`entry
      ensures status == if up then OK else RedisDown
      ensures up ==> (entry, value) == Incremented(old(entry), clock, WholeSeconds(ttl))
      ensures !up ==> value == 0 && entry == old(entry)
    {
      if !up {
        return 0, RedisDown;
      }
      value := Incr();
      if value == 1 && WholeSeconds(ttl) > 0 {
        entry := Expire(entry, clock, WholeSeconds(ttl));
      }
      return value, OK;
    }
  }

  // ---------------------------------------------------------------- every run

  datatype Call = Call(clock: int, ttl: int)

  /** The entry after the calls, and the value the last of them returned. */
  function Run(calls: seq<Call>): (Option<Entry<int>>, int) {
    if calls == [] then (None, 0)
    else
      var c := calls[|calls| - 1];
      Incremented(Run(calls[..|calls| - 1]).0, c.clock, WholeSeconds(c.ttl))
  }

  /** A window opened by `first` is over at `clock`: its whole seconds have passed. Without a
      whole second it never is. */
  predicate Over(first: Call, clock: int) {
    WholeSeconds(first.ttl) > 0 && clock > first.clock + WholeSeconds(first.ttl) * MILLIS_PER_SECOND
  }

  /** The call that opened the window in which the last call fell. */
  function Opener(calls: seq<Call>): (i: nat)
    requires calls != []
    ensures i < |calls|
  {
    var last := |calls| - 1;
    if last == 0 then 0
    else
      var i := Opener(calls[..last]);
      if Over(calls[i], calls[last].clock) then last else i
  }

  /** Window openers mean what their name says: no call since the opener came after its window
      was over, and the opener itself came after the previous window was over. */
  lemma {:induction false} OpenerOpens(calls: seq<Call>)
    requires calls != []
    ensures var i := Opener(calls);
            && (forall k :: i < k < |calls| ==> !Over(calls[i], calls[k].clock))
            && (i > 0 ==> Over(calls[Opener(calls[..i])], calls[i].clock))
  {
    var last := |calls| - 1;
    if last > 0 {
      OpenerOpens(calls[..last]);
      var i := Opener(calls[..last]);
      if !Over(calls[i], calls[last].clock) {
        assert calls[..last][..i] == calls[..i];
      }
    }
  }

  /** In every run, whatever the ttls, the call returns the number of calls since its window
      opened, itself included, and the key's deadline is the one the opener set: later calls
      never extend it. */
  lemma {:induction false} CountsSinceOpener(calls: seq<Call>)
    requires calls != []
    ensures var i := Opener(calls);
            var count := |calls| - i;
            var seconds := WholeSeconds(calls[i].ttl);
            Run(calls) == (Some(Entry(count, if seconds > 0 then Some(calls[i].clock + seconds * MILLIS_PER_SECOND) else None)), count)
  {
    var last := |calls| - 1;
    if last > 0 {
      CountsSinceOpener(calls[..last]);
    } else {
      assert calls[..last] == [];
    }
  }

  /** The live value at any later time: the count while the opener's window lasts, then none. */
  lemma LiveValue(calls: seq<Call>, clock: int)
    requires calls != []
    ensures var live := Live(Run(calls).0, clock);
            if Over(calls[Opener(calls)], clock) then live == None
            else live.Some? && live.value.value == |calls| - Opener(calls)
  {
    CountsSinceOpener(calls);
  }

  /** In every run, the key ever disappears exactly when the window's opener had a ttl of at least
      one second. */
  lemma WindowEndsIff(calls: seq<Call>)
    requires calls != []
    ensures (exists clock :: Live(Run(calls).0, clock) == None) <==> calls[Opener(calls)].ttl >= NANOS_PER_SECOND
  {
    var first := calls[Opener(calls)];
    forall clock ensures Live(Run(calls).0, clock) == None <==> Over(first, clock) {
      LiveValue(calls, clock);
    }
    if first.ttl >= NANOS_PER_SECOND {
      assert Over(first, first.clock + WholeSeconds(first.ttl) * MILLIS_PER_SECOND + 1);
    }
  }

  /** The deadline the key has, in nanoseconds, is the opener's time plus its ttl. */
  ghost predicate TtlIsHonoured(calls: seq<Call>)
    requires calls != []
  {
    var entry := Run(calls).0;
    var first := calls[Opener(calls)];
    && entry.Some? && entry.value.deadline.Some?
    && entry.value.deadline.value * NANOS_PER_MILLI == first.clock * NANOS_PER_MILLI + first.ttl
  }

  /** The documentation says the ttl is set for the first value. It is, in every run, exactly when
      the opener's ttl is a positive whole number of seconds; any other one is cut. */
  lemma TtlIsHonouredIff(calls: seq<Call>)
    requires calls != []
    ensures TtlIsHonoured(calls) <==>
            calls[Opener(calls)].ttl > 0 && calls[Opener(calls)].ttl % NANOS_PER_SECOND == 0
  {
    CountsSinceOpener(calls);
  }

  /** A ttl of at least a second is cut by less than a second, and never lengthened. */
  lemma DeadlineIsClose(calls: seq<Call>)
    requires calls != [] && calls[Opener(calls)].ttl >= NANOS_PER_SECOND
    ensures var entry := Run(calls).0;
            var first := calls[Opener(calls)];
            && entry.Some? && entry.value.deadline.Some?
            && var lasts := (entry.value.deadline.value - first.clock) * NANOS_PER_MILLI;
            first.ttl - NANOS_PER_SECOND < lasts <= first.ttl
  {
    CountsSinceOpener(calls);
  }

  /** With a ttl of one and a half seconds the key is gone after one. */
  lemma FractionIsCut(clock: int)
    ensures var calls := [Call(clock, 1_500_000_000)];
            Live(Run(calls).0, clock + 1001) == None && !TtlIsHonoured(calls)
  {
    var calls := [Call(clock, 1_500_000_000)];
    LiveValue(calls, clock + 1001);
    TtlIsHonouredIff(calls);
  }

  /** With a ttl below one second the key never expires, and later calls do not repair it. */
  lemma {:induction false} SubSecondTtlNeverResets(calls: seq<Call>)
    requires calls != [] && calls[0].ttl < NANOS_PER_SECOND
    ensures Run(calls) == (Some(Entry(|calls|, None)), |calls|)
  {
    OpenerStaysFirst(calls);
    CountsSinceOpener(calls);
  }

  lemma {:induction false} OpenerStaysFirst(calls: seq<Call>)
    requires calls != [] && calls[0].ttl < NANOS_PER_SECOND
    ensures Opener(calls) == 0
  {
    if |calls| > 1 {
      OpenerStaysFirst(calls[..|calls| - 1]);
    }
  }
}
