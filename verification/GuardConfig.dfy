/** The lazy configuration of a guarded resource (Guard.configure in gmicro/resilience/guard.go):
LoadOrStore of a shared object, a once-guarded load, and deletion by key after a failure. The
steps of any number of concurrent calls interleave; loadRules succeeds or fails as it likes. */
module GuardConfig {

  /** The once of a configuration object. `Done` holds what loadRules answered. */
  datatype Once = Fresh | Running | Done(ok: bool)

  /** A configuration object: the resource it was stored for, its once, how often loadRules was
      started for it, and the call responsible for it (its creator, then the one that runs it). */
  datatype Config = Config(resource: string, once: Once, loads: nat, owner: nat)

  /** Where a configure call is; `c` is the object it obtained. */
  datatype Pc =
    | Enter(resource: string)
    | Holding(resource: string, c: nat)
    | Loading(resource: string, c: nat)
    | Checking(resource: string, c: nat)
    | Returned(resource: string, c: nat, ok: bool)

  datatype System = System(configs: seq<Config>, stored: map<string, nat>, calls: map<nat, Pc>)

  const Initial: System := System([], map[], map[])

  datatype Action = Begin(t: nat, resource: string) | Move(t: nat, loadOk: bool)

  predicate Enabled(s: System, a: Action) {
    match a
    case Begin(t, _) => t !in s.calls
    case Move(t, _) =>
      && t in s.calls
      && match s.calls[t]
         case Holding(_, c) => c < |s.configs| && !s.configs[c].once.Running?
         case Enter(_) => true
         case Loading(_, c) => c < |s.configs|
         case Checking(_, c) => c < |s.configs| && s.configs[c].once.Done?
         case Returned(_, _, _) => false
  }

  function Next(s: System, a: Action): System
    requires Enabled(s, a)
  {
    match a
    case Begin(t, resource) => s.(calls := s.calls[t := Enter(resource)])
    case Move(t, loadOk) =>
      match s.calls[t]
      case Enter(r) =>
        if r in s.stored then s.(calls := s.calls[t := Holding(r, s.stored[r])])
        else
          var c := |s.configs|;
          System(s.configs + [Config(r, Fresh, 0, t)], s.stored[r := c], s.calls[t := Holding(r, c)])
      case Holding(r, c) =>
        if s.configs[c].once.Done? then s.(calls := s.calls[t := Checking(r, c)])
        else
          var config := s.configs[c].(once := Running, loads := s.configs[c].loads + 1, owner := t);
          s.(configs := s.configs[c := config], calls := s.calls[t := Loading(r, c)])
      case Loading(r, c) =>
        s.(configs := s.configs[c := s.configs[c].(once := Done(loadOk))], calls := s.calls[t := Checking(r, c)])
      case Checking(r, c) =>
        var ok := s.configs[c].once.ok;
        s.(stored := if ok then s.stored else s.stored - {r}, calls := s.calls[t := Returned(r, c, ok)])
  }

  ghost function Run(schedule: seq<Action>): (bool, System) {
    if schedule == [] then (true, Initial)
    else
      var (ok, s) := Run(schedule[..|schedule| - 1]);
      var a := schedule[|schedule| - 1];
      if ok && Enabled(s, a) then (true, Next(s, a)) else (false, s)
  }

  lemma RunSnoc(schedule: seq<Action>, a: Action)
    requires Run(schedule).0 && Enabled(Run(schedule).1, a)
    ensures Run(schedule + [a]) == (true, Next(Run(schedule).1, a))
  {
    assert (schedule + [a])[..|schedule|] == schedule;
  }

  // ---------------------------------------------------------------- the invariant

  ghost predicate ConfigInv(config: Config) {
    config.loads == if config.once.Fresh? then 0 else 1
  }

  ghost predicate CallInv(s: System, t: nat, pc: Pc) {
    match pc
    case Enter(_) => true
    case Holding(r, c) => c < |s.configs| && s.configs[c].resource == r
    case Loading(r, c) => c < |s.configs| && s.configs[c].resource == r && s.configs[c].once.Running? && s.configs[c].owner == t
    case Checking(r, c) => c < |s.configs| && s.configs[c].resource == r && s.configs[c].once.Done?
    case Returned(r, c, ok) => c < |s.configs| && s.configs[c].resource == r && s.configs[c].once == Done(ok)
  }

  /** A stored object that has not loaded successfully has a responsible call still in flight; in
      particular the call that saw it fail has yet to delete it. */
  ghost predicate StoredInv(s: System, r: string, c: nat) {
    && c < |s.configs| && s.configs[c].resource == r
    && var config := s.configs[c];
    && (!(config.once == Done(true)) ==> config.owner in s.calls)
    && match config.once
       case Fresh => s.calls[config.owner] == Holding(r, c)
       case Running => s.calls[config.owner] == Loading(r, c)
       case Done(ok) => !ok ==> s.calls[config.owner] == Checking(r, c)
  }

  /** An object that is being loaded is being loaded by a call. */
  ghost predicate RunnerInv(s: System, c: nat) {
    c < |s.configs| && s.configs[c].once.Running? ==>
      && s.configs[c].owner in s.calls
      && s.calls[s.configs[c].owner] == Loading(s.configs[c].resource, c)
  }

  ghost predicate Inv(s: System) {
    && (forall c :: 0 <= c < |s.configs| ==> ConfigInv(s.configs[c]))
    && (forall c: nat :: RunnerInv(s, c))
    && (forall t :: t in s.calls ==> CallInv(s, t, s.calls[t]))
    && (forall r :: r in s.stored ==> StoredInv(s, r, s.stored[r]))
  }

  lemma NextKeepsCalls(s: System, a: Action)
    requires Inv(s) && Enabled(s, a)
    ensures var s' := Next(s, a);
            && (forall c :: 0 <= c < |s'.configs| ==> ConfigInv(s'.configs[c]))
            && (forall t :: t in s'.calls ==> CallInv(s', t, s'.calls[t]))
  {
  }

  lemma NextKeepsRunners(s: System, a: Action, c: nat)
    requires Inv(s) && Enabled(s, a)
    ensures RunnerInv(Next(s, a), c)
  {
    assert RunnerInv(s, c);
  }

  lemma NextKeepsStored(s: System, a: Action, r: string)
    requires Inv(s) && Enabled(s, a)
    requires r in Next(s, a).stored
    ensures StoredInv(Next(s, a), r, Next(s, a).stored[r])
  {
    if r in s.stored {
      assert StoredInv(s, r, s.stored[r]);
    }
  }

  lemma {:induction false} RunKeepsInv(schedule: seq<Action>)
    requires Run(schedule).0
    ensures Inv(Run(schedule).1)
  {
    if schedule != [] {
      RunKeepsInv(schedule[..|schedule| - 1]);
      var s, a := Run(schedule[..|schedule| - 1]).1, schedule[|schedule| - 1];
      NextKeepsCalls(s, a);
      forall c: nat ensures RunnerInv(Next(s, a), c) {
        NextKeepsRunners(s, a, c);
      }
      forall r | r in Next(s, a).stored ensures StoredInv(Next(s, a), r, Next(s, a).stored[r]) {
        NextKeepsStored(s, a, r);
      }
    }
  }

  // ---------------------------------------------------------------- what callers rely on

  /** In every interleaving loadRules is started at most once per configuration object, and a call
      that has returned answers what loadRules answered for the object it obtained: nil only if
      that object was loaded, once, for this resource, successfully. */
  lemma CallsAnswerTheirLoad(schedule: seq<Action>)
    requires Run(schedule).0
    ensures var s := Run(schedule).1;
            && (forall c :: 0 <= c < |s.configs| ==> s.configs[c].loads <= 1)
            && forall t :: t in s.calls && s.calls[t].Returned? ==>
                 var Returned(r, c, ok) := s.calls[t];
                 && c < |s.configs|
                 && s.configs[c].resource == r && s.configs[c].once == Done(ok) && s.configs[c].loads == 1
  {
    RunKeepsInv(schedule);
    var s := Run(schedule).1;
    forall t | t in s.calls && s.calls[t].Returned?
      ensures CallInv(s, t, s.calls[t]) && ConfigInv(s.configs[s.calls[t].c]) {}
  }

  ghost predicate Quiet(s: System, r: string) {
    forall t :: t in s.calls && s.calls[t].resource == r ==> s.calls[t].Returned?
  }

  /** Whenever no call for a resource is in flight, the object stored for it, if any, was loaded
      successfully: a failure is never kept. */
  lemma QuietMeansLoaded(schedule: seq<Action>, r: string)
    requires Run(schedule).0
    requires Quiet(Run(schedule).1, r) && r in Run(schedule).1.stored
    ensures var s := Run(schedule).1;
            s.stored[r] < |s.configs| && s.configs[s.stored[r]].once == Done(true)
  {
    RunKeepsInv(schedule);
    var s := Run(schedule).1;
    assert StoredInv(s, r, s.stored[r]);
  }

  /** So a call that enters when no other call for its resource is in flight either finds a
      successful load or starts over with a fresh object. */
  lemma FailureIsRetried(schedule: seq<Action>, t: nat, r: string, loadOk: bool)
    requires Run(schedule).0
    requires t in Run(schedule).1.calls && Run(schedule).1.calls[t] == Enter(r)
    requires forall u :: u in Run(schedule).1.calls && u != t && Run(schedule).1.calls[u].resource == r ==>
               Run(schedule).1.calls[u].Returned?
    ensures var s' := Next(Run(schedule).1, Move(t, loadOk));
            && s'.calls[t].Holding? && s'.calls[t].c < |s'.configs|
            && s'.configs[s'.calls[t].c].once in {Fresh, Done(true)}
  {
    RunKeepsInv(schedule);
    var s := Run(schedule).1;
    if r in s.stored {
      assert StoredInv(s, r, s.stored[r]);
    }
  }

  /** No load for the resource has failed so far. */
  ghost predicate NoneFailed(s: System, r: string) {
    forall c :: 0 <= c < |s.configs| && s.configs[c].resource == r ==> s.configs[c].once != Done(false)
  }

  /** Until a load for a resource fails, every call for it shares one object, so loadRules is started
      for the resource at most once, however many calls there are. */
  lemma {:induction false} OneObjectUntilFailure(schedule: seq<Action>, r: string)
    requires Run(schedule).0 && NoneFailed(Run(schedule).1, r)
    ensures var s := Run(schedule).1;
            forall c :: 0 <= c < |s.configs| && s.configs[c].resource == r ==> r in s.stored && s.stored[r] == c && s.configs[c].loads <= 1
  {
    if schedule != [] {
      var before, a := schedule[..|schedule| - 1], schedule[|schedule| - 1];
      var s := Run(before).1;
      RunKeepsInv(before);
      RunKeepsInv(schedule);
      assert NoneFailed(s, r) by {
        NoneFailedBefore(s, a, r);
      }
      OneObjectUntilFailure(before, r);
    }
  }

  lemma NoneFailedBefore(s: System, a: Action, r: string)
    requires Inv(s) && Enabled(s, a) && NoneFailed(Next(s, a), r)
    ensures NoneFailed(s, r)
  {
    forall c | 0 <= c < |s.configs| && s.configs[c].resource == r ensures s.configs[c].once != Done(false) {
      assert Next(s, a).configs[c].once != Done(false);
    }
  }

  /** An object is removed exactly when a call checks an object of its resource whose load failed, be
      it that object or another one. */
  lemma RemovedIff(schedule: seq<Action>, a: Action, r: string)
    requires Run(schedule).0 && Enabled(Run(schedule).1, a) && r in Run(schedule).1.stored
    ensures var s := Run(schedule).1;
            r !in Next(s, a).stored <==>
              exists c :: 0 <= c < |s.configs| && s.configs[c].once == Done(false) && a.Move? && s.calls[a.t] == Checking(r, c)
  {
  }

  function Obtain(t: nat, r: string): seq<Action> { [Begin(t, r), Move(t, true)] }

  function LoadAndCheck(t: nat, loadOk: bool): seq<Action> { [Move(t, true), Move(t, loadOk), Move(t, true)] }

  lemma Obtains(schedule: seq<Action>, t: nat, r: string)
    requires Run(schedule).0 && t !in Run(schedule).1.calls
    ensures Run(schedule + Obtain(t, r)).0
    ensures var s, s' := Run(schedule).1, Run(schedule + Obtain(t, r)).1;
            var c := if r in s.stored then s.stored[r] else |s.configs|;
            && s'.configs == (if r in s.stored then s.configs else s.configs + [Config(r, Fresh, 0, t)])
            && s'.stored == s.stored[r := c] && s'.calls == s.calls[t := Holding(r, c)]
  {
    RunSnoc(schedule, Begin(t, r));
    RunSnoc(schedule + [Begin(t, r)], Move(t, true));
    assert schedule + Obtain(t, r) == schedule + [Begin(t, r)] + [Move(t, true)];
  }

  lemma LoadsAndChecks(schedule: seq<Action>, t: nat, loadOk: bool)
    requires Run(schedule).0
    requires var s := Run(schedule).1;
             && t in s.calls && s.calls[t].Holding? && s.calls[t].c < |s.configs| && s.configs[s.calls[t].c].once.Fresh?
    ensures Run(schedule + LoadAndCheck(t, loadOk)).0
    ensures var s, s' := Run(schedule).1, Run(schedule + LoadAndCheck(t, loadOk)).1;
            var Holding(r, c) := s.calls[t];
            && s'.configs == s.configs[c := s.configs[c].(once := Done(loadOk), loads := s.configs[c].loads + 1, owner := t)]
            && s'.stored == (if loadOk then s.stored else s.stored - {r})
            && s'.calls == s.calls[t := Returned(r, c, loadOk)]
  {
    var r1 := schedule + [Move(t, true)];
    RunSnoc(schedule, Move(t, true));
    var r2 := r1 + [Move(t, loadOk)];
    RunSnoc(r1, Move(t, loadOk));
    RunSnoc(r2, Move(t, true));
    assert schedule + LoadAndCheck(t, loadOk) == r2 + [Move(t, true)];
  }

  /** Two calls share an object whose load fails; the second checks it only after a third call has
      stored and loaded a new one, and removes that. */
  function LateCheck(r: string): seq<Action> {
    Obtain(0, r) + Obtain(1, r) + LoadAndCheck(0, false) + Obtain(2, r) + LoadAndCheck(2, true) + [Move(1, true)] + [Move(1, true)]
  }

  /** So an object that was loaded successfully need not stay: with a failed load before it, a late
      call can remove it, and the resource is loaded again. */
  lemma LateCheckDropsLoaded(r: string)
    ensures var (ok, s) := Run(LateCheck(r));
            ok && r !in s.stored && |s.configs| == 2 && s.configs[0].once == Done(false) && s.configs[1].once == Done(true)
  {
    assert Run([]) == (true, Initial) && [] + Obtain(0, r) == Obtain(0, r);
    Obtains([], 0, r);
    var r1 := Obtain(0, r);
    Obtains(r1, 1, r);
    var r2 := r1 + Obtain(1, r);
    LoadsAndChecks(r2, 0, false);
    var r3 := r2 + LoadAndCheck(0, false);
    Obtains(r3, 2, r);
    var r4 := r3 + Obtain(2, r);
    LoadsAndChecks(r4, 2, true);
    var r5 := r4 + LoadAndCheck(2, true);
    RunSnoc(r5, Move(1, true));
    RunSnoc(r5 + [Move(1, true)], Move(1, true));
  }

  // ---------------------------------------------------------------- progress

  /** No deadlock: in every interleaving a call in flight can move, whatever loadRules answers, or it
      waits for another call that is loading the same object and can move itself. */
  lemma NobodyIsStuck(schedule: seq<Action>, t: nat, loadOk: bool)
    requires Run(schedule).0
    requires t in Run(schedule).1.calls && !Run(schedule).1.calls[t].Returned?
    ensures var s := Run(schedule).1;
            || Enabled(s, Move(t, loadOk))
            || (s.calls[t].Holding? &&
                exists u :: u in s.calls && s.calls[u] == Loading(s.calls[t].resource, s.calls[t].c) && Enabled(s, Move(u, loadOk)))
  {
    RunKeepsInv(schedule);
    var s := Run(schedule).1;
    assert CallInv(s, t, s.calls[t]);
    if s.calls[t].Holding? {
      var c := s.calls[t].c;
      assert RunnerInv(s, c);
      if s.configs[c].once.Running? {
        assert Enabled(s, Move(s.configs[c].owner, loadOk));
      }
    }
  }

  /** The moves of call `t` in a schedule. */
  function Moves(schedule: seq<Action>, t: nat): nat {
    if schedule == [] then 0
    else
      var a := schedule[|schedule| - 1];
      Moves(schedule[..|schedule| - 1], t) + (if a.Move? && a.t == t then 1 else 0)
  }

  function MovesLeft(pc: Pc): nat {
    match pc
    case Enter(_) => 4
    case Holding(_, _) => 3
    case Loading(_, _) => 2
    case Checking(_, _) => 1
    case Returned(_, _, _) => 0
  }

  /** And no livelock: a call returns after at most four moves of its own. */
  lemma {:induction false} CallsAreShort(schedule: seq<Action>, t: nat)
    requires Run(schedule).0
    ensures var s := Run(schedule).1;
            Moves(schedule, t) + (if t in s.calls then MovesLeft(s.calls[t]) else 4) <= 4
  {
    if schedule != [] {
      CallsAreShort(schedule[..|schedule| - 1], t);
    }
  }

  // ---------------------------------------------------------------- the method

  /** The guard's configuration map, with calls that run one at a time. `history` is the run of the
      machine above that they have performed, so its theorems hold of every state a caller sees. */
  class Configurations {
    const enabled: bool
    var configs: seq<Config>
    var stored: map<string, nat>
    var calls: map<nat, Pc>
    ghost var history: seq<Action>

    ghost function State(): System
      reads this
    {
      System(configs, stored, calls)
    }

    ghost predicate Valid()
      reads this
    {
      Run(history) == (true, State())
    }

    constructor (enabled: bool)
      ensures Valid() && State() == Initial && this.enabled == enabled
    {
      this.enabled, configs, stored, calls, history := enabled, [], map[], map[], [];
    }

    method Perform(a: Action)
      requires Valid() && Enabled(State(), a)
      modifies this
      ensures Valid() && State() == Next(old(State()), a)
    {
      RunSnoc(history, a);
      var s := Next(System(configs, stored, calls), a);
      configs, stored, calls := s.configs, s.stored, s.calls;
      history := history + [a];
    }

    /** One undisturbed configure call `t`; `loadOk` is what loadRules would answer. It loads only
        if nothing is stored, and keeps the new object only if the load succeeds. */
    method Configure(t: nat, resource: string, loadOk: bool) returns (ok: bool)
      requires Valid() && t !in calls && Quiet(State(), resource)
      modifies this
      ensures Valid() && Quiet(State(), resource)
      ensures !enabled ==> ok && State() == old(State())
      ensures enabled ==> (ok <==> resource in old(stored) || loadOk)
      ensures enabled && (resource in old(stored) || !loadOk) ==> stored == old(stored)
      ensures enabled && resource !in old(stored) && loadOk ==> stored == old(stored)[resource := |old(configs)|]
      ensures enabled ==> |configs| == |old(configs)| + if resource in old(stored) then 0 else 1
    {
      if !enabled {
        return true;
      }
      if resource in stored {
        QuietMeansLoaded(history, resource);
      }
      Perform(Begin(t, resource));
      Perform(Move(t, loadOk));
      Perform(Move(t, loadOk));
      if calls[t].Loading? {
        Perform(Move(t, loadOk));
      }
      ok := configs[calls[t].c].once.ok;
      Perform(Move(t, loadOk));
    }
  }
}
