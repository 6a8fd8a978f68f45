/** The Redis client's lifecycle (Client in pkg/storage/redis_cluster.go). Every method body under
the mutex is one atomic step; any number of Start loops and Close calls interleave those steps. */
module RedisClient {
  import opened Options
  import opened Backoff

  /** The fields under the mutex. Pools are numbered as they are created; `doneCloses` counts how
      often the channel `done` has been closed. */
  datatype Fields = Fields(pool: Option<nat>, up: bool, stopped: bool, doneCloses: nat, created: nat)

  const NewFields: Fields := Fields(None, false, false, 0, 0)

  /** What connect does; `made` says whether a new pool could be allocated. */
  function Dialed(f: Fields, made: bool): (Fields, bool) {
    if f.stopped then (f, false)
    else if f.pool.Some? then (f, true)
    else if !made then (f, false)
    else (f.(pool := Some(f.created), created := f.created + 1), true)
  }

  function Marked(f: Fields, up: bool): Fields {
    if f.stopped then f else f.(up := up)
  }

  /** The locked part of Close, which hands the pool to the caller to be closed. */
  function Stop(f: Fields): (Fields, Option<nat>) {
    (f.(pool := None, up := false, stopped := true,
        doneCloses := if f.stopped then f.doneCloses else f.doneCloses + 1), f.pool)
  }

  /** The three tests of Connected. */
  predicate Ready(f: Fields) {
    f.up && f.pool.Some? && !f.stopped
  }

  class Client {
    var pool: Option<nat>
    var up: bool
    var stopped: bool
    ghost var doneCloses: nat
    var created: nat

    ghost function State(): Fields
      reads this
    {
      Fields(pool, up, stopped, doneCloses, created)
    }

    constructor ()
      ensures State() == NewFields
    {
      pool, up, stopped, doneCloses, created := None, false, false, 0, 0;
    }

    method Connected() returns (r: bool)
      ensures r == Ready(State())
    {
      return up && pool.Some? && !stopped;
    }

    method Connect(made: bool) returns (r: bool)
      modifies this
      ensures (State(), r) == Dialed(old(State()), made)
    {
      if stopped {
        return false;
      }
      if pool.Some? {
        return true;
      }
      if !made {
        return false;
      }
      pool := Some(created);
      created := created + 1;
      return true;
    }

    method SetUp(b: bool)
      modifies this
      ensures State() == Marked(old(State()), b)
    {
      if !stopped {
        up := b;
      }
    }

    method Close() returns (toClose: Option<nat>)
      modifies this
      ensures (State(), toClose) == Stop(old(State()))
    {
      toClose := pool;
      pool := None;
      up := false;
      if !stopped {
        stopped := true;
        doneCloses := doneCloses + 1;
      }
    }
  }

  // ---------------------------------------------------------------- the goroutines

  /** What Start answers: nil when its context ended, an error when the client was closed. */
  datatype Answer = Nil | ErrClosed

  /** Where a goroutine is. A Start loop goes from Check through Mark and back, and `first` says
      that it has not probed yet; a Close call begins at Stopping. */
  datatype Pc =
    | Check(failures: nat, delay: int, first: bool)
    | Wait(failures: nat, delay: int, first: bool)
    | Dial(failures: nat)
    | Snapshot(failures: nat)
    | Ping(failures: nat, snapshot: Option<nat>)
    | Mark(failures: nat, ok: bool)
    | Stopping(answer: Answer)
    | ClosingPool(pool: nat, answer: Answer)
    | Returned(answer: Answer)

  /** The choices a step leaves open: which case of the select fires, whether a pool can be made,
      whether the ping succeeds, and the random draw. */
  datatype Choice = CtxDone | DoneClosed | TimerFired | Outcome(ok: bool) | Draw(r: int) | NoChoice

  datatype Action = Begin(t: nat, start: bool) | Move(t: nat, choice: Choice)

  /** `closed` lists the pools on which pool.Close was called. */
  datatype System = System(fields: Fields, threads: map<nat, Pc>, closed: seq<nat>)

  const Initial: System := System(NewFields, map[], [])

  ghost predicate Possible(f: Fields, pc: Pc, choice: Choice) {
    match pc
    case Check(_, _, _) => choice == NoChoice
    case Wait(_, _, _) => choice in {CtxDone, TimerFired} || (choice == DoneClosed && f.doneCloses > 0)
    case Dial(_) => choice.Outcome?
    case Snapshot(_) => choice == NoChoice
    case Ping(_, _) => choice.Outcome?
    case Mark(failures, ok) => if ok then choice == NoChoice else choice.Draw? && 0 <= choice.r <= Nominal(failures + 1) / 2
    case Stopping(_) => choice == NoChoice
    case ClosingPool(_, _) => choice == NoChoice
    case Returned(_) => false
  }

  ghost predicate Enabled(s: System, a: Action) {
    match a
    case Begin(t, _) => t !in s.threads
    case Move(t, choice) => t in s.threads && Possible(s.fields, s.threads[t], choice)
  }

  /** One step of one goroutine: the new fields and its new place. */
  ghost function Advance(f: Fields, pc: Pc, choice: Choice): (Fields, Pc)
    requires Possible(f, pc, choice)
  {
    match pc
    case Check(failures, delay, first) =>
      (f, if f.stopped then Stopping(ErrClosed) else Wait(failures, delay, first))
    case Wait(failures, _, _) =>
      (f, if choice == CtxDone then Stopping(Nil) else if choice == DoneClosed then Stopping(ErrClosed) else Dial(failures))
    case Dial(failures) =>
      var (f', ok) := Dialed(f, choice.ok);
      (f', if ok then Snapshot(failures) else Mark(failures, false))
    case Snapshot(failures) =>
      (f, if f.pool.None? then Mark(failures, false) else Ping(failures, f.pool))
    case Ping(failures, _) =>
      (f, Mark(failures, choice.ok))
    case Mark(failures, ok) =>
      (Marked(f, ok), if ok then Check(0, HEALTHY as int, false) else Check(failures + 1, Jittered(failures + 1, choice.r), false))
    case Stopping(answer) =>
      var (f', pool) := Stop(f);
      (f', if pool.Some? then ClosingPool(pool.value, answer) else Returned(answer))
    case ClosingPool(_, answer) =>
      (f, Returned(answer))
  }

  ghost function Next(s: System, a: Action): System
    requires Enabled(s, a)
  {
    match a
    case Begin(t, start) => s.(threads := s.threads[t := if start then Check(0, 0, true) else Stopping(Nil)])
    case Move(t, choice) =>
      var pc := s.threads[t];
      var (f, pc') := Advance(s.fields, pc, choice);
      System(f, s.threads[t := pc'], if pc.ClosingPool? then s.closed + [pc.pool] else s.closed)
  }

  /** The state a schedule leads to, if each of its actions can be taken. */
  ghost function Run(schedule: seq<Action>): (bool, System) {
    if schedule == [] then (true, Initial)
    else
      var (ok, s) := Run(schedule[..|schedule| - 1]);
      var a := schedule[|schedule| - 1];
      if ok && Enabled(s, a) then (true, Next(s, a)) else (false, s)
  }

  lemma RunSnoc(schedule: seq<Action>, a: Action)
    requires Run(schedule).0 && Enabled(Run(schedule).1, a)
    ensures Run(schedule + [a]) == (true, Next(Run(schedule).1, a))
  {
    assert (schedule + [a])[..|schedule|] == schedule;
  }

  // ---------------------------------------------------------------- the invariant

  ghost predicate FieldsInv(f: Fields) {
    && (f.stopped ==> f.pool.None? && !f.up)
    && (f.up ==> f.pool.Some?)
    && f.doneCloses == (if f.stopped then 1 else 0)
    && f.created <= 1
    && (f.pool.Some? ==> f.pool.value == 0 && f.created == 1)
    && (!f.stopped && f.pool.None? ==> f.created == 0)
  }

  /** A loop that has connected still has its pool, unless the client has been stopped meanwhile. */
  ghost predicate PcInv(f: Fields, pc: Pc) {
    match pc
    case Check(_, _, _) => true
    case Wait(_, _, _) => true
    case Dial(_) => true
    case Snapshot(_) => f.pool.Some? || f.stopped
    case Ping(_, _) => f.pool.Some? || f.stopped
    case Mark(_, ok) => ok ==> f.pool.Some? || f.stopped
    case Stopping(answer) => answer == ErrClosed ==> f.stopped
    case ClosingPool(pool, _) => f.stopped && pool == 0
    case Returned(_) => f.stopped
  }

  ghost function Closers(threads: map<nat, Pc>): set<nat> {
    set t | t in threads && threads[t].ClosingPool?
  }

  /** Every pool created is held by the client, being closed by one goroutine, or closed. */
  ghost predicate PoolsAccounted(s: System) {
    && s.fields.created == (if s.fields.pool.Some? then 1 else 0) + |Closers(s.threads)| + |s.closed|
    && forall i :: 0 <= i < |s.closed| ==> s.closed[i] == 0
  }

  ghost predicate Inv(s: System) {
    && FieldsInv(s.fields)
    && (forall t :: t in s.threads ==> PcInv(s.fields, s.threads[t]))
    && PoolsAccounted(s)
  }

  lemma AdvanceKeepsInv(f: Fields, pc: Pc, choice: Choice)
    requires FieldsInv(f) && PcInv(f, pc) && Possible(f, pc, choice)
    ensures FieldsInv(Advance(f, pc, choice).0) && PcInv(Advance(f, pc, choice).0, Advance(f, pc, choice).1)
    ensures f.stopped ==> Advance(f, pc, choice).0 == f
  {
  }

  /** Other goroutines are not disturbed. */
  lemma AdvanceKeepsOthers(f: Fields, pc: Pc, choice: Choice, other: Pc)
    requires FieldsInv(f) && PcInv(f, pc) && Possible(f, pc, choice)
    requires PcInv(f, other)
    ensures PcInv(Advance(f, pc, choice).0, other)
  {
  }

  lemma ClosersAfter(threads: map<nat, Pc>, t: nat, pc: Pc)
    ensures |Closers(threads[t := pc])| ==
            |Closers(threads)| - (if t in threads && threads[t].ClosingPool? then 1 else 0) + (if pc.ClosingPool? then 1 else 0)
  {
    var before, after := Closers(threads), Closers(threads[t := pc]);
    assert after == if pc.ClosingPool? then (before - {t}) + {t} else before - {t};
  }

  lemma NextKeepsInv(s: System, a: Action)
    requires Inv(s) && Enabled(s, a)
    ensures Inv(Next(s, a))
  {
    match a
    case Begin(t, start) =>
      ClosersAfter(s.threads, t, if start then Check(0, 0, true) else Stopping(Nil));
    case Move(t, choice) =>
      var pc := s.threads[t];
      var (f, pc') := Advance(s.fields, pc, choice);
      AdvanceKeepsInv(s.fields, pc, choice);
      ClosersAfter(s.threads, t, pc');
      forall u | u in s.threads && u != t ensures PcInv(f, s.threads[u]) {
        AdvanceKeepsOthers(s.fields, pc, choice, s.threads[u]);
      }
  }

  lemma {:induction false} RunKeepsInv(schedule: seq<Action>)
    requires Run(schedule).0
    ensures Inv(Run(schedule).1)
  {
    if schedule == [] {
      assert Closers(Initial.threads) == {};
    } else {
      RunKeepsInv(schedule[..|schedule| - 1]);
      NextKeepsInv(Run(schedule[..|schedule| - 1]).1, schedule[|schedule| - 1]);
    }
  }

  // ---------------------------------------------------------------- what callers rely on

  /** In every state of every interleaving: at most one pool was ever created and none was closed
      twice, `done` was closed at most once, a stopped client has no pool and is not up, a client
      that is up has a pool, and a Start or Close that has returned left the client stopped. */
  lemma LifecycleIsSafe(schedule: seq<Action>)
    requires Run(schedule).0
    ensures var s := Run(schedule).1;
            && s.fields.created <= 1
            && (forall i, j :: 0 <= i < j < |s.closed| ==> s.closed[i] != s.closed[j])
            && s.fields.doneCloses <= 1 && (s.fields.doneCloses == 1 <==> s.fields.stopped)
            && (s.fields.stopped ==> s.fields.pool == None && !s.fields.up)
            && (s.fields.up ==> s.fields.pool.Some?)
            && forall t :: t in s.threads && s.threads[t].Returned? ==> s.fields.stopped
  {
    RunKeepsInv(schedule);
  }

  /** Stopping is final: from then on no step changes the fields, so no loop can allocate a
      replacement pool or mark the client up. */
  lemma {:induction false} StoppedIsFinal(before: seq<Action>, after: seq<Action>)
    requires Run(before + after).0
    requires Run(before).1.fields.stopped
    ensures Run(before).0 && Run(before + after).1.fields == Run(before).1.fields
  {
    if after == [] {
      assert before + after == before;
    } else {
      var n := |after| - 1;
      var prefix := before + after[..n];
      assert (before + after)[..|before + after| - 1] == prefix;
      StoppedIsFinal(before, after[..n]);
      RunKeepsInv(prefix);
      var s, a := Run(prefix).1, after[n];
      if a.Move? {
        AdvanceKeepsInv(s.fields, s.threads[a.t], a.choice);
      }
    }
  }

  /** Nothing leaks: once somebody has stopped the client and no goroutine is between taking the
      pool and closing it, every pool created has been closed, once. */
  lemma EveryPoolIsClosed(schedule: seq<Action>)
    requires Run(schedule).0
    requires Run(schedule).1.fields.stopped
    requires forall t :: t in Run(schedule).1.threads ==> !Run(schedule).1.threads[t].ClosingPool?
    ensures var s := Run(schedule).1;
            s.closed == if s.fields.created == 1 then [0] else []
  {
    var s := Run(schedule).1;
    RunKeepsInv(schedule);
    assert Closers(s.threads) == {};
  }

  /** Connected needs only one of its three tests: in every reachable state it equals `up`. And a
      pool it vouches for has neither been closed nor been taken by somebody to be closed. */
  lemma ConnectedMeansUsable(schedule: seq<Action>)
    requires Run(schedule).0
    ensures var s := Run(schedule).1;
            && (Ready(s.fields) <==> s.fields.up)
            && (Ready(s.fields) ==>
                  && s.fields.pool.value !in s.closed
                  && forall t :: t in s.threads ==> !s.threads[t].ClosingPool?)
  {
    var s := Run(schedule).1;
    RunKeepsInv(schedule);
    if Ready(s.fields) {
      assert Closers(s.threads) == {};
      assert forall t :: t in s.threads && s.threads[t].ClosingPool? ==> t in Closers(s.threads);
    }
  }

  // ---------------------------------------------------------------- probes and delays

  /** The action is goroutine `t` recording the outcome of its probe. */
  ghost predicate Marks(s: System, a: Action, t: nat) {
    a.Move? && a.t == t && t in s.threads && s.threads[t].Mark?
  }

  /** The outcome recorded last, by any goroutine. */
  ghost function RecordedLast(schedule: seq<Action>): Option<bool> {
    if schedule == [] then None
    else
      var before, a := schedule[..|schedule| - 1], schedule[|schedule| - 1];
      var s := Run(before).1;
      if Marks(s, a, a.t) then Some(s.threads[a.t].ok) else RecordedLast(before)
  }

  /** Connected reports the outcome recorded last, until the client is closed. */
  lemma {:induction false} ConnectedReportsRecordedLast(schedule: seq<Action>)
    requires Run(schedule).0
    ensures var f := Run(schedule).1.fields;
            Ready(f) <==> !f.stopped && RecordedLast(schedule) == Some(true)
  {
    ConnectedMeansUsable(schedule);
    if schedule != [] {
      var before := schedule[..|schedule| - 1];
      ConnectedReportsRecordedLast(before);
      ConnectedMeansUsable(before);
    }
  }

  /** How a step ends a probe, if it does: with what the ping answers, or with a failure when there is
      no pool to ping, because the client is stopped or none could be made. */
  ghost function ProbeEnd(f: Fields, pc: Pc, choice: Choice): Option<bool> {
    match pc
    case Dial(_) => if f.stopped || (f.pool.None? && choice == Outcome(false)) then Some(false) else None
    case Snapshot(_) => if f.pool.None? then Some(false) else None
    case Ping(_, _) => if choice.Outcome? then Some(choice.ok) else None
    case _ => None
  }

  /** The same for an action; `t` is the goroutine whose probes are meant. */
  ghost function ProbeEndOf(s: System, a: Action, t: nat): Option<bool> {
    if a.Move? && a.t == t && t in s.threads then ProbeEnd(s.fields, s.threads[t], a.choice) else None
  }

  /** The number of probes of goroutine `t` that failed since its last success or its beginning;
      none before its first has ended. */
  ghost function FailuresInARow(schedule: seq<Action>, t: nat): Option<nat> {
    if schedule == [] then None
    else
      var before, a := schedule[..|schedule| - 1], schedule[|schedule| - 1];
      var earlier := FailuresInARow(before, t);
      match ProbeEndOf(Run(before).1, a, t)
      case None => earlier
      case Some(ok) => Some(if ok then 0 else Streak(earlier) + 1)
  }

  /** What a loop remembers of its probes, and what it makes of it. */
  ghost predicate Remembers(pc: Pc, failures: Option<nat>) {
    match pc
    case Check(k, delay, first) => first == failures.None? && GoodDelay(k, delay, failures)
    case Wait(k, delay, first) => first == failures.None? && GoodDelay(k, delay, failures)
    case Dial(k) => k == Streak(failures)
    case Snapshot(k) => k == Streak(failures)
    case Ping(k, _) => k == Streak(failures)
    case Mark(k, ok) => failures == Some(if ok then 0 else k + 1)
    case _ => true
  }

  function Streak(failures: Option<nat>): nat {
    if failures.Some? then failures.value else 0
  }

  ghost predicate GoodDelay(k: nat, delay: int, failures: Option<nat>) {
    && k == Streak(failures)
    && match failures
       case None => delay == 0
       case Some(n) => if n == 0 then delay == HEALTHY as int else Nominal(n) <= 2 * delay <= 2 * Nominal(n)
  }

  lemma AdvanceRemembers(f: Fields, pc: Pc, choice: Choice, failures: Option<nat>)
    requires Possible(f, pc, choice) && Remembers(pc, failures)
    ensures Remembers(Advance(f, pc, choice).1,
                      match ProbeEnd(f, pc, choice)
                      case None => failures
                      case Some(ok) => Some(if ok then 0 else Streak(failures) + 1))
  {
    if pc.Mark? && !pc.ok {
      JitterStaysInBand(pc.failures + 1, choice.r);
    }
  }

  lemma {:induction false} NoProbesBeforeBegin(schedule: seq<Action>, t: nat)
    requires Run(schedule).0 && t !in Run(schedule).1.threads
    ensures FailuresInARow(schedule, t) == None
  {
    if schedule != [] {
      NoProbesBeforeBegin(schedule[..|schedule| - 1], t);
    }
  }

  lemma {:induction false} LoopsRemember(schedule: seq<Action>, t: nat)
    requires Run(schedule).0 && t in Run(schedule).1.threads
    ensures Remembers(Run(schedule).1.threads[t], FailuresInARow(schedule, t))
  {
    var before, a := schedule[..|schedule| - 1], schedule[|schedule| - 1];
    var s := Run(before).1;
    if t in s.threads {
      LoopsRemember(before, t);
      if a.Move? && a.t == t {
        AdvanceRemembers(s.fields, s.threads[t], a.choice, FailuresInARow(before, t));
      }
    } else {
      NoProbesBeforeBegin(before, t);
    }
  }

  /** In every interleaving, whenever a loop waits, it waits for no time before its first probe, for
      the healthy interval after a probe that succeeded, and after k probes that failed in a row
      for between half and all of the k-th nominal delay. */
  lemma WaitsFollowBackoff(schedule: seq<Action>, t: nat)
    requires Run(schedule).0 && t in Run(schedule).1.threads && Run(schedule).1.threads[t].Wait?
    ensures var delay := Run(schedule).1.threads[t].delay;
            match FailuresInARow(schedule, t)
            case None => delay == 0
            case Some(k) => if k == 0 then delay == 30_000_000_000 else Nominal(k) <= 2 * delay <= 2 * Nominal(k)
  {
    LoopsRemember(schedule, t);
  }

  /** How often the timer of `t` fired, and how many of its probes have ended, in a schedule. */
  ghost function TimerFires(schedule: seq<Action>, t: nat): nat {
    if schedule == [] then 0
    else TimerFires(schedule[..|schedule| - 1], t) + (if schedule[|schedule| - 1] == Move(t, TimerFired) then 1 else 0)
  }

  ghost function Probes(schedule: seq<Action>, t: nat): nat {
    if schedule == [] then 0
    else
      var before, a := schedule[..|schedule| - 1], schedule[|schedule| - 1];
      Probes(before, t) + (if ProbeEndOf(Run(before).1, a, t).Some? then 1 else 0)
  }

  /** Every time its timer fires a loop makes one probe, however many have failed before: the timer
      fired once for each probe that has ended and for the one under way. */
  lemma {:induction false} EachTimerMakesAProbe(schedule: seq<Action>, t: nat)
    requires Run(schedule).0
    ensures var s := Run(schedule).1;
            var probing := t in s.threads && (s.threads[t].Dial? || s.threads[t].Snapshot? || s.threads[t].Ping?);
            TimerFires(schedule, t) == Probes(schedule, t) + if probing then 1 else 0
  {
    if schedule != [] {
      EachTimerMakesAProbe(schedule[..|schedule| - 1], t);
    }
  }

  /** What a Start that is on its way out or has returned answers. */
  function AnswerOf(pc: Pc): Option<Answer> {
    if pc.Stopping? || pc.ClosingPool? || pc.Returned? then Some(pc.answer) else None
  }

  lemma {:induction false} UnknownHasNotActed(schedule: seq<Action>, t: nat)
    requires Run(schedule).0 && t !in Run(schedule).1.threads
    ensures forall a :: a in schedule ==> a.t != t
  {
    if schedule != [] {
      var n := |schedule| - 1;
      UnknownHasNotActed(schedule[..n], t);
      assert schedule == schedule[..n] + [schedule[n]];
    }
  }

  /** Start answers nil exactly when its context ended, and the closed-client error otherwise. */
  lemma {:induction false} NilMeansContextEnded(schedule: seq<Action>, t: nat)
    requires Run(schedule).0 && Begin(t, true) in schedule
    ensures var s := Run(schedule).1;
            && t in s.threads
            && (Move(t, CtxDone) in schedule <==> AnswerOf(s.threads[t]) == Some(Nil))
  {
    var n := |schedule| - 1;
    var before, a := schedule[..n], schedule[n];
    assert schedule == before + [a];
    if Begin(t, true) in before {
      NilMeansContextEnded(before, t);
    } else {
      UnknownHasNotActed(before, t);
    }
  }

  /** Start answers the closed-client error only if the client was in fact closed. */
  lemma ErrClosedMeansStopped(schedule: seq<Action>, t: nat)
    requires Run(schedule).0 && t in Run(schedule).1.threads
    requires var pc := Run(schedule).1.threads[t]; pc == Stopping(ErrClosed) || pc == Returned(ErrClosed)
    ensures Run(schedule).1.fields.stopped
  {
    RunKeepsInv(schedule);
  }

  // ---------------------------------------------------------------- winding down

  /** How many of its own steps a goroutine of a stopped client can still take. */
  function Rank(pc: Pc): nat {
    match pc
    case Returned(_) => 0
    case ClosingPool(_, _) => 1
    case Stopping(_) => 1
    case Check(_, _, _) => 2
    case Mark(_, _) => 3
    case Ping(_, _) => 4
    case Snapshot(_) => 5
    case Dial(_) => 6
    case Wait(_, _, _) => 7
  }

  /** The steps of goroutine `t` in a schedule. */
  function Steps(schedule: seq<Action>, t: nat): nat {
    if schedule == [] then 0
    else
      var a := schedule[|schedule| - 1];
      Steps(schedule[..|schedule| - 1], t) + (if a.Move? && a.t == t then 1 else 0)
  }

  lemma StoppedStepDescends(f: Fields, pc: Pc, choice: Choice)
    requires FieldsInv(f) && f.stopped && PcInv(f, pc) && Possible(f, pc, choice)
    ensures Rank(Advance(f, pc, choice).1) < Rank(pc)
  {
  }

  /** The rank a goroutine had when the client was stopped, or has if it begins later. */
  ghost function RankThen(s: System, t: nat): nat {
    if t in s.threads then Rank(s.threads[t]) else 2
  }

  /** Close ends every loop: after the client has been stopped, no goroutine takes more than seven
      further steps, however the schedule goes on; one that has not returned has some left. */
  lemma {:induction false} StoppedLoopsWindDown(before: seq<Action>, after: seq<Action>, t: nat)
    requires Run(before + after).0 && Run(before).1.fields.stopped
    ensures Run(before).0 && Run(before + after).1.fields.stopped
    ensures var at, later := Run(before).1, Run(before + after).1;
            && Steps(after, t) + RankThen(later, t) <= RankThen(at, t) <= 7
            && (t !in later.threads ==> t !in at.threads && Steps(after, t) == 0)
  {
    if after == [] {
      assert before + after == before;
    } else {
      var n := |after| - 1;
      var prefix := before + after[..n];
      assert (before + after)[..|before + after| - 1] == prefix;
      StoppedLoopsWindDown(before, after[..n], t);
      RunKeepsInv(prefix);
      var s, a := Run(prefix).1, after[n];
      if a.Move? {
        AdvanceKeepsInv(s.fields, s.threads[a.t], a.choice);
        StoppedStepDescends(s.fields, s.threads[a.t], a.choice);
      }
    }
  }

  /** A choice that brings a goroutine one step nearer to its return: it leaves the select through
      `done` if the client is stopped, and otherwise because its context has ended. */
  function WayOut(f: Fields, pc: Pc): Choice {
    match pc
    case Wait(_, _, _) => if f.stopped then DoneClosed else CtxDone
    case Dial(_) => Outcome(false)
    case Ping(_, _) => Outcome(false)
    case Mark(_, ok) => if ok then NoChoice else Draw(0)
    case _ => NoChoice
  }

  function StepsOut(pc: Pc): nat {
    match pc
    case Returned(_) => 0
    case ClosingPool(_, _) => 1
    case Stopping(_) => 2
    case Wait(_, _, _) => 3
    case Check(_, _, _) => 4
    case Mark(_, _) => 5
    case Ping(_, _) => 6
    case Snapshot(_) => 7
    case Dial(_) => 8
  }

  lemma WayOutLeads(f: Fields, pc: Pc)
    requires FieldsInv(f) && PcInv(f, pc) && !pc.Returned?
    ensures Possible(f, pc, WayOut(f, pc))
    ensures StepsOut(Advance(f, pc, WayOut(f, pc)).1) < StepsOut(pc)
    ensures f.stopped ==> Advance(f, pc, WayOut(f, pc)).0 == f
  {
  }

  /** Goroutine `t` alone moves, and in a stopped client it waits neither for its timer nor for its
      context: the closed channel is enough. */
  ghost predicate Unaided(rest: seq<Action>, t: nat, stopped: bool) {
    forall i :: 0 <= i < |rest| ==>
      && rest[i].Move? && rest[i].t == t && rest[i].choice != TimerFired
      && (stopped ==> rest[i].choice != CtxDone)
  }

  /** From every state of every interleaving a goroutine can return in at most eight steps of its
      own, without any other goroutine: nobody waits for anybody, and Close wakes every loop. */
  lemma {:induction false} CanReturnUnaided(schedule: seq<Action>, t: nat) returns (rest: seq<Action>)
    requires Run(schedule).0 && t in Run(schedule).1.threads
    ensures |rest| <= StepsOut(Run(schedule).1.threads[t]) <= 8
    ensures Unaided(rest, t, Run(schedule).1.fields.stopped)
    ensures Run(schedule + rest).0
    ensures var s := Run(schedule + rest).1; t in s.threads && s.threads[t].Returned?
    decreases StepsOut(Run(schedule).1.threads[t])
  {
    var s := Run(schedule).1;
    var pc := s.threads[t];
    if pc.Returned? {
      rest := [];
      assert schedule + rest == schedule;
    } else {
      RunKeepsInv(schedule);
      WayOutLeads(s.fields, pc);
      var a := Move(t, WayOut(s.fields, pc));
      RunSnoc(schedule, a);
      var tail := CanReturnUnaided(schedule + [a], t);
      rest := [a] + tail;
      assert schedule + rest == schedule + [a] + tail;
    }
  }

  /** Where a Start of a client that was already stopped can be. */
  predicate Refusing(pc: Pc) {
    pc.Check? || pc == Stopping(ErrClosed) || pc == Returned(ErrClosed)
  }

  /** A Start of a client that was closed before never waits, dials or probes, and answers the
      closed-client error. */
  lemma {:induction false} ClosedClientRefusesStart(before: seq<Action>, t: nat, after: seq<Action>)
    requires Run(before + [Begin(t, true)] + after).0
    requires Run(before).1.fields.stopped
    ensures var s := Run(before + [Begin(t, true)] + after).1;
            s.fields.stopped && t in s.threads && Refusing(s.threads[t])
  {
    var started := before + [Begin(t, true)];
    if after == [] {
      assert started + after == started;
      assert started[..|started| - 1] == before;
    } else {
      var n := |after| - 1;
      var prefix := started + after[..n];
      assert (started + after)[..|started + after| - 1] == prefix;
      ClosedClientRefusesStart(before, t, after[..n]);
      RunKeepsInv(prefix);
      var s, a := Run(prefix).1, after[n];
      if a.Move? {
        AdvanceKeepsInv(s.fields, s.threads[a.t], a.choice);
      }
    }
  }

  // ---------------------------------------------------------------- the latest probe

  /** The outcome of the probe that ended last, whether or not it has been recorded yet. */
  ghost function LatestProbe(schedule: seq<Action>): Option<bool> {
    if schedule == [] then None
    else
      var before, a := schedule[..|schedule| - 1], schedule[|schedule| - 1];
      var end := ProbeEndOf(Run(before).1, a, a.t);
      if end.Some? then end else LatestProbe(before)
  }

  /** What the comment on Connected promises. */
  ghost predicate ReportsLatestProbe(schedule: seq<Action>) {
    var f := Run(schedule).1.fields;
    Ready(f) <==> !f.stopped && LatestProbe(schedule) == Some(true)
  }

  /** No outcome is waiting to be recorded. */
  ghost predicate AllRecorded(s: System) {
    forall t :: t in s.threads ==> !s.threads[t].Mark?
  }

  /** Every Start of the run is one of the given loops; Close calls are not restricted. */
  ghost predicate StartsOnly(schedule: seq<Action>, loops: set<nat>) {
    forall i :: 0 <= i < |schedule| && schedule[i].Begin? && schedule[i].start ==> schedule[i].t in loops
  }

  predicate IsCloser(pc: Pc) {
    pc.Stopping? || pc.ClosingPool? || pc.Returned?
  }

  /** What holds with one loop only: the others are closing, and what has not been recorded is the
      outcome the loop is about to record. */
  ghost predicate OneLoop(schedule: seq<Action>, t: nat) {
    var s := Run(schedule).1;
    && (forall u :: u in s.threads && u != t ==> IsCloser(s.threads[u]))
    && LatestProbe(schedule) ==
       if t in s.threads && s.threads[t].Mark? then Some(s.threads[t].ok) else RecordedLast(schedule)
  }

  lemma {:induction false} StaysOneLoop(schedule: seq<Action>, t: nat)
    requires Run(schedule).0 && StartsOnly(schedule, {t})
    ensures OneLoop(schedule, t)
  {
    if schedule != [] {
      var before, a := schedule[..|schedule| - 1], schedule[|schedule| - 1];
      assert a == schedule[|schedule| - 1];
      assert StartsOnly(before, {t});
      StaysOneLoop(before, t);
    }
  }

  /** A client with one Start loop, and any number of Close calls, reports its latest probe. */
  lemma OneLoopReportsLatest(schedule: seq<Action>, t: nat)
    requires Run(schedule).0 && StartsOnly(schedule, {t}) && AllRecorded(Run(schedule).1)
    ensures ReportsLatestProbe(schedule)
  {
    StaysOneLoop(schedule, t);
    ConnectedReportsRecordedLast(schedule);
  }

  lemma ProbeSnoc(schedule: seq<Action>, a: Action)
    requires Run(schedule).0 && Enabled(Run(schedule).1, a)
    ensures Run(schedule + [a]) == (true, Next(Run(schedule).1, a))
    ensures var end := ProbeEndOf(Run(schedule).1, a, a.t);
            LatestProbe(schedule + [a]) == if end.Some? then end else LatestProbe(schedule)
  {
    RunSnoc(schedule, a);
    assert (schedule + [a])[..|schedule|] == schedule;
  }

  /** A loop begins and waits, then connects and is about to ping. */
  function ToDial(t: nat): seq<Action> {
    [Begin(t, true), Move(t, NoChoice), Move(t, TimerFired)]
  }

  function ToPing(t: nat): seq<Action> {
    ToDial(t) + [Move(t, Outcome(true)), Move(t, NoChoice)]
  }

  lemma ReachesDial(schedule: seq<Action>, t: nat)
    requires Run(schedule).0
    requires var s := Run(schedule).1; t !in s.threads && !s.fields.stopped
    ensures Run(schedule + ToDial(t)).0
    ensures var s, s' := Run(schedule).1, Run(schedule + ToDial(t)).1;
            s'.fields == s.fields && s'.threads == s.threads[t := Dial(0)]
  {
    var r1 := schedule + [Begin(t, true)];
    RunSnoc(schedule, Begin(t, true));
    var r2 := r1 + [Move(t, NoChoice)];
    RunSnoc(r1, Move(t, NoChoice));
    RunSnoc(r2, Move(t, TimerFired));
    assert schedule + ToDial(t) == r2 + [Move(t, TimerFired)];
  }

  lemma ReachesPing(schedule: seq<Action>, t: nat)
    requires Run(schedule).0
    requires var s := Run(schedule).1; t !in s.threads && !s.fields.stopped
    ensures Run(schedule + ToPing(t)).0
    ensures var s, s' := Run(schedule).1, Run(schedule + ToPing(t)).1;
            && s'.fields == Dialed(s.fields, true).0
            && s'.threads == s.threads[t := Ping(0, s'.fields.pool)]
  {
    var r1 := schedule + ToDial(t);
    ReachesDial(schedule, t);
    var r2 := r1 + [Move(t, Outcome(true))];
    RunSnoc(r1, Move(t, Outcome(true)));
    RunSnoc(r2, Move(t, NoChoice));
    assert schedule + ToPing(t) == r2 + [Move(t, NoChoice)];
  }

  /** Loop `u` pings successfully, then `v` fails to; `v` records its outcome first. */
  function Overtaking(u: nat, v: nat): seq<Action> {
    ToPing(u) + ToPing(v) + [Move(u, Outcome(true))] + [Move(v, Outcome(false))] + [Move(v, Draw(0))] + [Move(u, NoChoice)]
  }

  /** With two loops the promise fails: the outcomes can be recorded in the wrong order, and Connected
      stays true although the latest probe failed and nothing is left to be recorded. */
  lemma OvertakingProbeIsLost(u: nat, v: nat)
    requires u != v
    ensures Run(Overtaking(u, v)).0 && AllRecorded(Run(Overtaking(u, v)).1)
    ensures Ready(Run(Overtaking(u, v)).1.fields) && LatestProbe(Overtaking(u, v)) == Some(false)
  {
    assert Run([]) == (true, Initial);
    assert [] + ToPing(u) == ToPing(u);
    ReachesPing([], u);
    ReachesPing(ToPing(u), v);
    var r0 := ToPing(u) + ToPing(v);
    var r1 := r0 + [Move(u, Outcome(true))];
    ProbeSnoc(r0, Move(u, Outcome(true)));
    var r2 := r1 + [Move(v, Outcome(false))];
    ProbeSnoc(r1, Move(v, Outcome(false)));
    var r3 := r2 + [Move(v, Draw(0))];
    ProbeSnoc(r2, Move(v, Draw(0)));
    ProbeSnoc(r3, Move(u, NoChoice));
  }

  /** In all runs of the given Start loops, with any Close calls, Connected reports the latest probe
      whenever none is left to be recorded. */
  ghost predicate AlwaysReportsLatest(loops: set<nat>) {
    forall schedule :: Run(schedule).0 && StartsOnly(schedule, loops) && AllRecorded(Run(schedule).1) ==>
      ReportsLatestProbe(schedule)
  }

  lemma TwoLoopsDoNotReport(loops: set<nat>, u: nat, v: nat)
    requires u in loops && v in loops && u != v
    ensures !AlwaysReportsLatest(loops)
  {
    OvertakingProbeIsLost(u, v);
    assert StartsOnly(Overtaking(u, v), loops);
    assert !ReportsLatestProbe(Overtaking(u, v));
  }

  /** This holds if and only if there is at most one loop. */
  lemma ReportsLatestIffOneLoop(loops: set<nat>)
    ensures AlwaysReportsLatest(loops) <==> |loops| <= 1
  {
    if |loops| <= 1 {
      var t: nat := 0;
      if loops != {} {
        t :| t in loops;
        assert |loops - {t}| == 0;
      }
      forall schedule | Run(schedule).0 && StartsOnly(schedule, loops) && AllRecorded(Run(schedule).1)
        ensures ReportsLatestProbe(schedule)
      {
        OneLoopReportsLatest(schedule, t);
      }
    } else {
      var u :| u in loops;
      assert |loops - {u}| > 0;
      var v :| v in loops - {u};
      TwoLoopsDoNotReport(loops, u, v);
    }
  }

  // ---------------------------------------------------------------- probing goes on

  /** From a wait, the steps of a probe with the given outcome. */
  function ToSnapshot(t: nat): seq<Action> {
    [Move(t, TimerFired), Move(t, Outcome(true))]
  }

  function ProbeSteps(t: nat, ok: bool): seq<Action> {
    ToSnapshot(t) + [Move(t, NoChoice), Move(t, Outcome(ok))]
  }

  /** Goroutine `t` has begun and the client is not stopped. */
  ghost predicate Running(schedule: seq<Action>, t: nat) {
    var (ok, s) := Run(schedule);
    ok && !s.fields.stopped && t in s.threads
  }

  lemma ProbeCountSnoc(schedule: seq<Action>, a: Action, t: nat)
    requires Run(schedule).0 && Enabled(Run(schedule).1, a)
    ensures Run(schedule + [a]) == (true, Next(Run(schedule).1, a))
    ensures Probes(schedule + [a], t) == Probes(schedule, t) + if ProbeEndOf(Run(schedule).1, a, t).Some? then 1 else 0
  {
    RunSnoc(schedule, a);
    assert (schedule + [a])[..|schedule|] == schedule;
  }

  lemma ReachesSnapshot(schedule: seq<Action>, t: nat)
    requires Running(schedule, t) && Run(schedule).1.threads[t].Wait?
    ensures var later := schedule + ToSnapshot(t);
            && Running(later, t) && Run(later).1.threads[t].Snapshot? && Run(later).1.fields.pool.Some?
            && Probes(later, t) == Probes(schedule, t)
  {
    var r1 := schedule + [Move(t, TimerFired)];
    ProbeCountSnoc(schedule, Move(t, TimerFired), t);
    ProbeCountSnoc(r1, Move(t, Outcome(true)), t);
    assert schedule + ToSnapshot(t) == r1 + [Move(t, Outcome(true))];
  }

  lemma SnapshotProbes(schedule: seq<Action>, t: nat, ok: bool)
    requires Running(schedule, t) && Run(schedule).1.threads[t].Snapshot? && Run(schedule).1.fields.pool.Some?
    ensures var later := schedule + [Move(t, NoChoice)] + [Move(t, Outcome(ok))];
            && Running(later, t) && Run(later).1.threads[t].Mark?
            && LatestProbe(later) == Some(ok)
            && Probes(later, t) == Probes(schedule, t) + 1
  {
    var r1 := schedule + [Move(t, NoChoice)];
    ProbeCountSnoc(schedule, Move(t, NoChoice), t);
    ProbeCountSnoc(r1, Move(t, Outcome(ok)), t);
    ProbeSnoc(r1, Move(t, Outcome(ok)));
  }

  /** The loop never gives up: whenever it waits and the client is not stopped, whatever has failed
      before, its timer leads to one more probe, which can succeed or fail. */
  lemma CanProbeAgain(schedule: seq<Action>, t: nat, ok: bool)
    requires Running(schedule, t) && Run(schedule).1.threads[t].Wait?
    ensures var later := schedule + ProbeSteps(t, ok);
            && Running(later, t) && Run(later).1.threads[t].Mark?
            && LatestProbe(later) == Some(ok)
            && Probes(later, t) == Probes(schedule, t) + 1
  {
    ReachesSnapshot(schedule, t);
    SnapshotProbes(schedule + ToSnapshot(t), t, ok);
    assert schedule + ProbeSteps(t, ok) == schedule + ToSnapshot(t) + [Move(t, NoChoice)] + [Move(t, Outcome(ok))];
  }
}
