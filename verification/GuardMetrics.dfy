/** The counters a guarded call leaves behind (Guard.Start, Call.Finish and Guard.Do in
gmicro/resilience/guard.go). Each update of a metric is one atomic step; calls of any number of
goroutines interleave their steps. Sentinel admits or blocks as it likes. */
module GuardMetrics {
  import opened Options

  /** The labels every metric carries. */
  datatype Label = Label(dependency: string, resource: string)

  /** What errors.Is finds in an operation's error. */
  datatype OpError = NoError | Failure(deadline: bool, canceled: bool)

  datatype Outcome = Success | Timeout | Canceled | Failed | Blocked

  /** A deadline outranks a cancellation, and no operation is reported as blocked. */
  function OperationOutcome(err: OpError): (r: Outcome)
    ensures r == Success <==> err == NoError
    ensures r == Timeout <==> err.Failure? && err.deadline
    ensures r == Canceled <==> err == Failure(false, true)
    ensures r != Blocked
  {
    match err
    case NoError => Success
    case Failure(deadline, canceled) => if deadline then Timeout else if canceled then Canceled else Failed
  }

  datatype Reason = Isolation | CircuitOpen | Flow | SystemLoad | Hotspot | Unknown

  /** How far a call that passed configuration has come. Entering: the inflight gauge is about to go
      up. Gauged: Sentinel is about to be asked. Open: Start has returned the call. The rest is the
      blocked way out of Start and the once-guarded body of Finish, one place per metric update. */
  datatype Pc =
    | Entering
    | Gauged
    | Open
    | BlockedGauge(reason: Reason)
    | BlockedCount(reason: Reason)
    | BlockedFallback(reason: Reason)
    | BlockedDone(reason: Reason)
    | FinishGauge(outcome: Outcome)
    | FinishCount(outcome: Outcome)
    | Finished(outcome: Outcome)

  datatype Call = Call(labels: Label, pc: Pc)

  datatype System = System(
    calls: seq<Call>,
    inflight: map<Label, int>,
    requests: map<(Label, Outcome), int>,
    fallbacks: map<(Label, Reason), int>)

  const Initial: System := System([], map[], map[], map[])

  function At<K>(m: map<K, int>, k: K): int {
    if k in m then m[k] else 0
  }

  function Add<K>(m: map<K, int>, k: K, delta: int): map<K, int> {
    m[k := At(m, k) + delta]
  }

  // ---------------------------------------------------------------- steps

  /** Pass: a Start that got past configure. Admit and Block: Sentinel's answer; a disabled guard
      always admits. Finish: any call of Finish, the first or a later one. Go: the next update. */
  datatype Action = Pass(labels: Label) | Admit(i: nat) | Block(i: nat, reason: Reason) | Finish(i: nat, err: OpError) | Go(i: nat)

  predicate Movable(pc: Pc, a: Action) {
    match a
    case Pass(_) => false
    case Admit(_) => pc.Gauged?
    case Block(_, _) => pc.Gauged?
    case Finish(_, _) => pc.Open? || pc.FinishGauge? || pc.FinishCount? || pc.Finished?
    case Go(_) =>
      pc.Entering? || pc.BlockedGauge? || pc.BlockedCount? || pc.BlockedFallback? || pc.FinishGauge? || pc.FinishCount?
  }

  predicate Enabled(s: System, a: Action) {
    a.Pass? || (a.i < |s.calls| && Movable(s.calls[a.i].pc, a))
  }

  /** Where the step takes its call. Only the first Finish moves it; a later one finds the once
      taken. */
  function Moved(pc: Pc, a: Action): Pc
    requires Movable(pc, a)
  {
    match a
    case Admit(_) => Open
    case Block(_, reason) => BlockedGauge(reason)
    case Finish(_, err) => if pc.Open? then FinishGauge(OperationOutcome(err)) else pc
    case Go(_) =>
      match pc
      case Entering => Gauged
      case BlockedGauge(reason) => BlockedCount(reason)
      case BlockedCount(reason) => BlockedFallback(reason)
      case BlockedFallback(reason) => BlockedDone(reason)
      case FinishGauge(outcome) => FinishCount(outcome)
      case FinishCount(outcome) => Finished(outcome)
  }

  /** The update the step makes to each metric. */
  function GaugeDelta(pc: Pc, a: Action): int {
    if !a.Go? then 0
    else if pc.Entering? then 1
    else if pc.BlockedGauge? || pc.FinishGauge? then -1
    else 0
  }

  function CountedOutcome(pc: Pc, a: Action): Option<Outcome> {
    if !a.Go? then None
    else if pc.BlockedCount? then Some(Blocked)
    else if pc.FinishCount? then Some(pc.outcome)
    else None
  }

  function CountedReason(pc: Pc, a: Action): Option<Reason> {
    if a.Go? && pc.BlockedFallback? then Some(pc.reason) else None
  }

  function Next(s: System, a: Action): System
    requires Enabled(s, a)
  {
    if a.Pass? then s.(calls := s.calls + [Call(a.labels, Entering)])
    else
      var Call(labels, pc) := s.calls[a.i];
      var (outcome, reason) := (CountedOutcome(pc, a), CountedReason(pc, a));
      System(s.calls[a.i := Call(labels, Moved(pc, a))],
             if GaugeDelta(pc, a) == 0 then s.inflight else Add(s.inflight, labels, GaugeDelta(pc, a)),
             if outcome.None? then s.requests else Add(s.requests, (labels, outcome.value), 1),
             if reason.None? then s.fallbacks else Add(s.fallbacks, (labels, reason.value), 1))
  }

  ghost function Run(schedule: seq<Action>): (bool, System) {
    if schedule == [] then (true, Initial)
    else
      var (ok, s) := Run(schedule[..|schedule| - 1]);
      var a := schedule[|schedule| - 1];
      if ok && Enabled(s, a) then (true, Next(s, a)) else (false, s)
  }

  lemma RunSnoc(schedule: seq<Action>, a: Action)
    requires Run(schedule).0 && Enabled(Run(schedule).1, a)
    ensures Run(schedule + [a]) == (true, Next(Run(schedule).1, a))
  {
    assert (schedule + [a])[..|schedule|] == schedule;
  }

  // ---------------------------------------------------------------- counting calls

  type Test = Call -> bool

  function Count(calls: seq<Call>, test: Test): nat {
    if calls == [] then 0
    else Count(calls[..|calls| - 1], test) + (if test(calls[|calls| - 1]) then 1 else 0)
  }

  lemma {:induction false} CountUpdate(calls: seq<Call>, i: nat, call: Call, test: Test)
    requires i < |calls|
    ensures Count(calls[i := call], test) ==
            Count(calls, test) - (if test(calls[i]) then 1 else 0) + (if test(call) then 1 else 0)
  {
    var n := |calls| - 1;
    if i == n {
      assert calls[i := call][..n] == calls[..n];
    } else {
      assert calls[i := call][..n] == calls[..n][i := call];
      CountUpdate(calls[..n], i, call, test);
    }
  }

  lemma CountAppend(calls: seq<Call>, call: Call, test: Test)
    ensures Count(calls + [call], test) == Count(calls, test) + (if test(call) then 1 else 0)
  {
    assert (calls + [call])[..|calls|] == calls;
  }

  predicate Holds(pc: Pc) {
    pc.Gauged? || pc.Open? || pc.BlockedGauge? || pc.FinishGauge?
  }

  function OutcomeOf(pc: Pc): Option<Outcome> {
    match pc
    case Finished(outcome) => Some(outcome)
    case BlockedFallback(_) => Some(Blocked)
    case BlockedDone(_) => Some(Blocked)
    case _ => None
  }

  function ReasonOf(pc: Pc): Option<Reason> {
    if pc.BlockedDone? then Some(pc.reason) else None
  }

  /** The calls that hold the inflight gauge. */
  function HoldsGauge(l: Label): Test {
    (c: Call) => c.labels == l && Holds(c.pc)
  }

  /** The calls counted under an outcome. */
  function CountedAs(l: Label, o: Outcome): Test {
    (c: Call) => c.labels == l && OutcomeOf(c.pc) == Some(o)
  }

  function FellBack(l: Label, r: Reason): Test {
    (c: Call) => c.labels == l && ReasonOf(c.pc) == Some(r)
  }

  /** Finish never records the outcome reserved for blocked calls. */
  ghost predicate Honest(s: System) {
    forall i :: 0 <= i < |s.calls| ==>
      match s.calls[i].pc
      case FinishGauge(o) => o != Blocked
      case FinishCount(o) => o != Blocked
      case Finished(o) => o != Blocked
      case _ => true
  }

  ghost predicate GaugeInv(s: System, l: Label) {
    At(s.inflight, l) == Count(s.calls, HoldsGauge(l))
  }

  ghost predicate RequestsInv(s: System, l: Label, o: Outcome) {
    At(s.requests, (l, o)) == Count(s.calls, CountedAs(l, o))
  }

  ghost predicate FallbacksInv(s: System, l: Label, r: Reason) {
    At(s.fallbacks, (l, r)) == Count(s.calls, FellBack(l, r))
  }

  /** How a step changes a count: only the call it moves matters. */
  lemma CountAfter(s: System, a: Action, test: Test)
    requires Enabled(s, a)
    ensures a.Pass? ==> Count(Next(s, a).calls, test) == Count(s.calls, test) + (if test(Call(a.labels, Entering)) then 1 else 0)
    ensures !a.Pass? ==>
              var Call(labels, pc) := s.calls[a.i];
              Count(Next(s, a).calls, test) ==
                Count(s.calls, test) - (if test(Call(labels, pc)) then 1 else 0) + (if test(Call(labels, Moved(pc, a))) then 1 else 0)
  {
    if a.Pass? {
      CountAppend(s.calls, Call(a.labels, Entering), test);
    } else {
      var Call(labels, pc) := s.calls[a.i];
      CountUpdate(s.calls, a.i, Call(labels, Moved(pc, a)), test);
    }
  }

  /** Each metric is updated exactly when the call's new place says so. */
  lemma UpdatesFollowPlaces(pc: Pc, a: Action)
    requires Movable(pc, a)
    ensures GaugeDelta(pc, a) == (if Holds(Moved(pc, a)) then 1 else 0) - (if Holds(pc) then 1 else 0)
    ensures if CountedOutcome(pc, a).None? then OutcomeOf(Moved(pc, a)) == OutcomeOf(pc)
            else OutcomeOf(pc).None? && OutcomeOf(Moved(pc, a)) == CountedOutcome(pc, a)
    ensures if CountedReason(pc, a).None? then ReasonOf(Moved(pc, a)) == ReasonOf(pc)
            else ReasonOf(pc).None? && ReasonOf(Moved(pc, a)) == CountedReason(pc, a)
  {
  }

  lemma NextKeepsGauge(s: System, a: Action, l: Label)
    requires Enabled(s, a) && GaugeInv(s, l)
    ensures GaugeInv(Next(s, a), l)
  {
    CountAfter(s, a, HoldsGauge(l));
    if !a.Pass? {
      UpdatesFollowPlaces(s.calls[a.i].pc, a);
    }
  }

  lemma NextKeepsRequests(s: System, a: Action, l: Label, o: Outcome)
    requires Enabled(s, a) && RequestsInv(s, l, o)
    ensures RequestsInv(Next(s, a), l, o)
  {
    CountAfter(s, a, CountedAs(l, o));
    if !a.Pass? {
      UpdatesFollowPlaces(s.calls[a.i].pc, a);
    }
  }

  lemma NextKeepsFallbacks(s: System, a: Action, l: Label, r: Reason)
    requires Enabled(s, a) && FallbacksInv(s, l, r)
    ensures FallbacksInv(Next(s, a), l, r)
  {
    CountAfter(s, a, FellBack(l, r));
    if !a.Pass? {
      UpdatesFollowPlaces(s.calls[a.i].pc, a);
    }
  }

  lemma NextKeepsHonest(s: System, a: Action)
    requires Enabled(s, a) && Honest(s)
    ensures Honest(Next(s, a))
  {
  }

  lemma {:induction false} RunKeepsInv(schedule: seq<Action>, l: Label, o: Outcome, r: Reason)
    requires Run(schedule).0
    ensures var s := Run(schedule).1;
            Honest(s) && GaugeInv(s, l) && RequestsInv(s, l, o) && FallbacksInv(s, l, r)
  {
    if schedule != [] {
      RunKeepsInv(schedule[..|schedule| - 1], l, o, r);
      var s, a := Run(schedule[..|schedule| - 1]).1, schedule[|schedule| - 1];
      NextKeepsHonest(s, a);
      NextKeepsGauge(s, a, l);
      NextKeepsRequests(s, a, l, o);
      NextKeepsFallbacks(s, a, l, r);
    }
  }

  // ---------------------------------------------------------------- conservation

  /** The sum of requests_total over all outcomes, and of fallback_total over all reasons. */
  function TotalRequests(s: System, l: Label): int {
    At(s.requests, (l, Success)) + At(s.requests, (l, Timeout)) + At(s.requests, (l, Canceled))
    + At(s.requests, (l, Failed)) + At(s.requests, (l, Blocked))
  }

  function TotalFallbacks(s: System, l: Label): int {
    At(s.fallbacks, (l, Isolation)) + At(s.fallbacks, (l, CircuitOpen)) + At(s.fallbacks, (l, Flow))
    + At(s.fallbacks, (l, SystemLoad)) + At(s.fallbacks, (l, Hotspot)) + At(s.fallbacks, (l, Unknown))
  }

  function Passed(l: Label): Test {
    (c: Call) => c.labels == l
  }

  /** The Starts with the label that got past configure in a schedule. */
  function Passes(schedule: seq<Action>, l: Label): nat {
    if schedule == [] then 0
    else
      var a := schedule[|schedule| - 1];
      Passes(schedule[..|schedule| - 1], l) + (if a.Pass? && a.labels == l then 1 else 0)
  }

  /** Each of them has its call, and no call comes from anywhere else. */
  lemma {:induction false} PassesAreCalls(schedule: seq<Action>, l: Label)
    requires Run(schedule).0
    ensures Count(Run(schedule).1.calls, Passed(l)) == Passes(schedule, l)
  {
    if schedule != [] {
      var before, a := schedule[..|schedule| - 1], schedule[|schedule| - 1];
      PassesAreCalls(before, l);
      CountAfter(Run(before).1, a, Passed(l));
    }
  }

  /** Calls that have the gauge neither up nor accounted for: before the first update, or between
      giving the gauge back and being counted. */
  function InTransit(l: Label): Test {
    (c: Call) => c.labels == l && (c.pc.Entering? || c.pc.BlockedCount? || c.pc.FinishCount?)
  }

  function AwaitsFallback(l: Label): Test {
    (c: Call) => c.labels == l && c.pc.BlockedFallback?
  }

  lemma {:induction false} CallsPartition(calls: seq<Call>, l: Label)
    ensures Count(calls, Passed(l)) ==
            Count(calls, HoldsGauge(l)) + Count(calls, InTransit(l))
            + Count(calls, CountedAs(l, Success)) + Count(calls, CountedAs(l, Timeout)) + Count(calls, CountedAs(l, Canceled))
            + Count(calls, CountedAs(l, Failed)) + Count(calls, CountedAs(l, Blocked))
  {
    if calls != [] {
      CallsPartition(calls[..|calls| - 1], l);
      var pc := calls[|calls| - 1].pc;
      assert OutcomeOf(pc).Some? ==> (var o := OutcomeOf(pc).value; o.Success? || o.Timeout? || o.Canceled? || o.Failed? || o.Blocked?);
    }
  }

  lemma {:induction false} FallbacksPartition(calls: seq<Call>, l: Label)
    requires forall i :: 0 <= i < |calls| ==> calls[i].pc != Finished(Blocked)
    ensures Count(calls, CountedAs(l, Blocked)) ==
            Count(calls, AwaitsFallback(l))
            + Count(calls, FellBack(l, Isolation)) + Count(calls, FellBack(l, CircuitOpen)) + Count(calls, FellBack(l, Flow))
            + Count(calls, FellBack(l, SystemLoad)) + Count(calls, FellBack(l, Hotspot)) + Count(calls, FellBack(l, Unknown))
  {
    if calls != [] {
      FallbacksPartition(calls[..|calls| - 1], l);
      assert calls[|calls| - 1].pc != Finished(Blocked);
      var pc := calls[|calls| - 1].pc;
      assert ReasonOf(pc).Some? ==> (var r := ReasonOf(pc).value; r.Isolation? || r.CircuitOpen? || r.Flow? || r.SystemLoad? || r.Hotspot? || r.Unknown?);
    }
  }

  /** In every state of every interleaving, for every dependency and resource: the inflight gauge is
      the number of calls holding it; the requests counted, plus those in flight, plus those
      between two updates, are the Starts that passed configuration; and the blocked requests are
      the fallbacks, plus those about to be counted as such. */
  lemma CountersAreConserved(schedule: seq<Action>, l: Label)
    requires Run(schedule).0
    ensures var s := Run(schedule).1;
            && At(s.inflight, l) == Count(s.calls, HoldsGauge(l))
            && TotalRequests(s, l) + At(s.inflight, l) + Count(s.calls, InTransit(l)) == Passes(schedule, l)
            && At(s.requests, (l, Blocked)) == TotalFallbacks(s, l) + Count(s.calls, AwaitsFallback(l))
  {
    var s := Run(schedule).1;
    RunKeepsInv(schedule, l, Success, Isolation);
    RunKeepsInv(schedule, l, Timeout, CircuitOpen);
    RunKeepsInv(schedule, l, Canceled, Flow);
    RunKeepsInv(schedule, l, Failed, SystemLoad);
    RunKeepsInv(schedule, l, Blocked, Hotspot);
    RunKeepsInv(schedule, l, Blocked, Unknown);
    PassesAreCalls(schedule, l);
    CallsPartition(s.calls, l);
    FallbacksPartition(s.calls, l);
  }

  /** No Start or Finish for the labels is between two of its updates. */
  ghost predicate Settled(s: System, l: Label) {
    forall i :: 0 <= i < |s.calls| && s.calls[i].labels == l ==>
      var pc := s.calls[i].pc; pc.Open? || pc.BlockedDone? || pc.Finished?
  }

  function IsOpen(l: Label): Test {
    (c: Call) => c.labels == l && c.pc.Open?
  }

  lemma {:induction false} SettledCounts(calls: seq<Call>, l: Label)
    requires forall i :: 0 <= i < |calls| && calls[i].labels == l ==>
               var pc := calls[i].pc; pc.Open? || pc.BlockedDone? || pc.Finished?
    ensures Count(calls, InTransit(l)) == 0 && Count(calls, AwaitsFallback(l)) == 0
    ensures Count(calls, HoldsGauge(l)) == Count(calls, IsOpen(l))
  {
    if calls != [] {
      SettledCounts(calls[..|calls| - 1], l);
    }
  }

  /** Between calls the books balance: inflight is the number of calls started and not finished,
      requests counted plus inflight are the Starts that passed configuration, and every blocked
      request has its fallback. */
  lemma SettledBooksBalance(schedule: seq<Action>, l: Label)
    requires Run(schedule).0 && Settled(Run(schedule).1, l)
    ensures var s := Run(schedule).1;
            && At(s.inflight, l) == Count(s.calls, IsOpen(l))
            && TotalRequests(s, l) + At(s.inflight, l) == Passes(schedule, l)
            && TotalFallbacks(s, l) == At(s.requests, (l, Blocked))
  {
    CountersAreConserved(schedule, l);
    SettledCounts(Run(schedule).1.calls, l);
  }

  // ---------------------------------------------------------------- only the first Finish counts

  predicate HasFinish(schedule: seq<Action>, i: nat) {
    exists k :: 0 <= k < |schedule| && schedule[k].Finish? && schedule[k].i == i
  }

  /** The schedule without every Finish of a call but its first. */
  function FirstFinishes(schedule: seq<Action>): seq<Action> {
    if schedule == [] then []
    else
      var before, a := schedule[..|schedule| - 1], schedule[|schedule| - 1];
      if a.Finish? && HasFinish(before, a.i) then FirstFinishes(before) else FirstFinishes(before) + [a]
  }

  lemma {:induction false} FinishedStaysFinished(schedule: seq<Action>, i: nat)
    requires Run(schedule).0 && HasFinish(schedule, i)
    ensures var s := Run(schedule).1;
            i < |s.calls| && (s.calls[i].pc.FinishGauge? || s.calls[i].pc.FinishCount? || s.calls[i].pc.Finished?)
  {
    var n := |schedule| - 1;
    assert forall k :: 0 <= k < n ==> schedule[..n][k] == schedule[k];
    if HasFinish(schedule[..n], i) {
      FinishedStaysFinished(schedule[..n], i);
    }
  }

  /** Extra Finish calls change nothing, in any interleaving: deleting from a schedule every Finish
      of a call but its first leaves a schedule that can run and ends in the same state. */
  lemma {:induction false} ExtraFinishesAreIgnored(schedule: seq<Action>)
    requires Run(schedule).0
    ensures Run(FirstFinishes(schedule)) == Run(schedule)
  {
    if schedule != [] {
      var before, a := schedule[..|schedule| - 1], schedule[|schedule| - 1];
      ExtraFinishesAreIgnored(before);
      if a.Finish? && HasFinish(before, a.i) {
        FinishedStaysFinished(before, a.i);
        var s := Run(before).1;
        assert Next(s, a).calls == s.calls;
      } else {
        RunSnoc(FirstFinishes(before), a);
      }
    }
  }

  /** And each call is left with one Finish at most. */
  lemma {:induction false} OneFinishRemains(schedule: seq<Action>, j: nat, k: nat)
    requires var kept := FirstFinishes(schedule);
             j < k < |kept| && kept[j].Finish? && kept[k].Finish?
    ensures FirstFinishes(schedule)[j].i != FirstFinishes(schedule)[k].i
  {
    var before, a := schedule[..|schedule| - 1], schedule[|schedule| - 1];
    var kept := FirstFinishes(before);
    if k < |kept| {
      OneFinishRemains(before, j, k);
    } else {
      KeptWasThere(before, j);
    }
  }

  lemma {:induction false} KeptWasThere(schedule: seq<Action>, j: nat)
    requires j < |FirstFinishes(schedule)| && FirstFinishes(schedule)[j].Finish?
    ensures HasFinish(schedule, FirstFinishes(schedule)[j].i)
  {
    var n := |schedule| - 1;
    var kept := FirstFinishes(schedule[..n]);
    if j < |kept| {
      KeptWasThere(schedule[..n], j);
      var k :| 0 <= k < n && schedule[..n][k].Finish? && schedule[..n][k].i == kept[j].i;
      assert schedule[k] == schedule[..n][k];
    } else {
      assert schedule[n].Finish?;
    }
  }

  // ---------------------------------------------------------------- the methods

  /** A guard whose methods run one at a time. `history` is the run of the machine above that the
      methods have performed, so its theorems hold of every state a caller sees. */
  class Guard {
    const dependency: string
    const enabled: bool
    var calls: seq<Call>
    var inflight: map<Label, int>
    var requests: map<(Label, Outcome), int>
    var fallbacks: map<(Label, Reason), int>
    ghost var history: seq<Action>

    ghost function State(): System
      reads this
    {
      System(calls, inflight, requests, fallbacks)
    }

    ghost predicate Valid()
      reads this
    {
      Run(history) == (true, State())
    }

    constructor (dependency: string, enabled: bool)
      ensures Valid() && State() == Initial && this.dependency == dependency && this.enabled == enabled
    {
      this.dependency, this.enabled := dependency, enabled;
      calls, inflight, requests, fallbacks, history := [], map[], map[], map[], [];
    }

    /** `configured` is the answer of configure and `verdict` Sentinel's block reason, if it
        blocks. A call that is not started leaves no trace, a started one is open, and a blocked
        one is counted as a blocked request and a fallback. */
    method Start(resource: string, configured: bool, verdict: Option<Reason>) returns (call: Option<nat>)
      requires Valid()
      modifies this
      ensures Valid()
      ensures call.Some? <==> resource != "" && ':' !in resource && configured && (!enabled || verdict.None?)
      ensures resource == "" || ':' in resource || !configured ==> State() == old(State())
      ensures call.Some? ==>
                && call.value == |old(calls)| && calls == old(calls) + [Call(Label(dependency, resource), Open)]
                && inflight == Add(old(inflight), Label(dependency, resource), 1)
                && requests == old(requests) && fallbacks == old(fallbacks)
      ensures call.None? && resource != "" && ':' !in resource && configured ==>
                && verdict.Some?
                && calls == old(calls) + [Call(Label(dependency, resource), BlockedDone(verdict.value))]
                && inflight == Add(Add(old(inflight), Label(dependency, resource), 1), Label(dependency, resource), -1)
                && requests == Add(old(requests), (Label(dependency, resource), Blocked), 1)
                && fallbacks == Add(old(fallbacks), (Label(dependency, resource), verdict.value), 1)
    {
      if resource == "" || ':' in resource {
        return None;
      }
      if !configured {
        return None;
      }
      var labels := Label(dependency, resource);
      var i := |calls|;
      Perform(Pass(labels));
      Perform(Go(i));
      if !enabled || verdict.None? {
        Perform(Admit(i));
        return Some(i);
      }
      Perform(Block(i, verdict.value));
      Reject(i);
      return None;
    }

    /** The three updates on the blocked way out of Start. */
    method Reject(i: nat)
      requires Valid()
      requires i < |calls| && calls[i].pc.BlockedGauge?
      modifies this
      ensures Valid()
      ensures var (labels, reason) := (old(calls)[i].labels, old(calls)[i].pc.reason);
              && calls == old(calls)[i := Call(labels, BlockedDone(reason))]
              && inflight == Add(old(inflight), labels, -1)
              && requests == Add(old(requests), (labels, Blocked), 1)
              && fallbacks == Add(old(fallbacks), (labels, reason), 1)
    {
      Perform(Go(i));
      Perform(Go(i));
      Perform(Go(i));
    }

    /** The first Finish of an open call counts its outcome and lowers the gauge. */
    method Finish(call: Option<nat>, err: OpError)
      requires Valid()
      requires call.Some? ==> call.value < |calls| && (calls[call.value].pc.Open? || calls[call.value].pc.Finished?)
      modifies this
      ensures Valid()
      ensures call.None? || old(calls)[call.value].pc.Finished? ==> State() == old(State())
      ensures call.Some? && old(calls)[call.value].pc.Open? ==>
                var labels := old(calls)[call.value].labels;
                && calls == old(calls)[call.value := Call(labels, Finished(OperationOutcome(err)))]
                && inflight == Add(old(inflight), labels, -1)
                && requests == Add(old(requests), (labels, OperationOutcome(err)), 1)
                && fallbacks == old(fallbacks)
    {
      if call.None? {
        return;
      }
      var first := calls[call.value].pc.Open?;
      Perform(Action.Finish(call.value, err));
      if first {
        Perform(Go(call.value));
        Perform(Go(call.value));
      }
    }

    /** One atomic update. */
    method Perform(a: Action)
      requires Valid() && Enabled(State(), a)
      modifies this
      ensures Valid() && State() == Next(old(State()), a)
    {
      RunSnoc(history, a);
      var s := Next(System(calls, inflight, requests, fallbacks), a);
      calls, inflight, requests, fallbacks := s.calls, s.inflight, s.requests, s.fallbacks;
      history := history + [a];
    }

    /** Do runs an operation between Start and Finish. An operation that succeeds after its context
        ended is reported, and counted, with the context's error. */
    method Do(resource: string, configured: bool, verdict: Option<Reason>, fn: Option<OpError>, ctxErr: OpError)
      returns (started: bool, err: OpError)
      requires Valid()
      modifies this
      ensures Valid()
      ensures fn.None? ==> State() == old(State()) && !started
      ensures started <==> fn.Some? && resource != "" && ':' !in resource && configured && (!enabled || verdict.None?)
      ensures started ==>
                && err == (if fn.value.NoError? then ctxErr else fn.value)
                && calls == old(calls) + [Call(Label(dependency, resource), Finished(OperationOutcome(err)))]
                && inflight == Add(Add(old(inflight), Label(dependency, resource), 1), Label(dependency, resource), -1)
                && requests == Add(old(requests), (Label(dependency, resource), OperationOutcome(err)), 1)
                && fallbacks == old(fallbacks)
      ensures resource == "" || ':' in resource || !configured ==> State() == old(State())
      ensures !started && fn.Some? && resource != "" && ':' !in resource && configured ==>
                && verdict.Some?
                && calls == old(calls) + [Call(Label(dependency, resource), BlockedDone(verdict.value))]
                && inflight == Add(Add(old(inflight), Label(dependency, resource), 1), Label(dependency, resource), -1)
                && requests == Add(old(requests), (Label(dependency, resource), Blocked), 1)
                && fallbacks == Add(old(fallbacks), (Label(dependency, resource), verdict.value), 1)
    {
      if fn.None? {
        return false, NoError;
      }
      var call := Start(resource, configured, verdict);
      if call.None? {
        return false, NoError;
      }
      err := fn.value;
      if err.NoError? && !ctxErr.NoError? {
        err := ctxErr;
      }
      Finish(call, err);
      started := true;
    }
  }
}
