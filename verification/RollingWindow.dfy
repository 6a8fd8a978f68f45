/** SetRollingWindow and GetRollingWindow (pkg/storage/redis_cluster.go) in their transactional
mode: a sorted set of members scored by time, pruned on every call and expired as a whole.

The caller reads its clock, in nanoseconds, and then sends the transaction, which Redis runs at a
time of its own, in milliseconds; nothing ties the two together unless a lemma says so. A score is
a time rounded to a float64; all that is used of the rounding is that it is monotone. */
module RollingWindow {
  import opened Options
  import opened Keyspace
  import opened Decimals

  type Rounding = int -> int
  type Scores = map<string, int>

  ghost predicate Monotone(round: Rounding) {
    forall x, y :: x <= y ==> round(x) <= round(y)
  }

  /** What stays the same for one key: the window in seconds and the rounding. `Edge` is the score up
      to which a call removes members. */
  datatype Setting = Setting(per: int, round: Rounding) {
    function Edge(now: int): int { round(now - per * NANOS_PER_SECOND) }
  }

  type Key = Option<Entry<Scores>>

  // ---------------------------------------------------------------- commands

  function Contents(key: Key): Scores {
    if key.Some? then key.value.value else map[]
  }

  /** A sorted set that becomes empty is removed, and its deadline with it. */
  function WithContents(key: Key, scores: Scores): Key {
    if scores == map[] then None
    else if key.None? then Some(Entry(scores, None))
    else Some(key.value.(value := scores))
  }

  /** ZREMRANGEBYSCORE key -inf edge */
  function Pruned(scores: Scores, edge: int): Scores {
    map m | m in scores && scores[m] > edge :: scores[m]
  }

  /** ZRANGE key 0 -1: every member once, by ascending score. */
  ghost predicate IsRange(scores: Scores, members: seq<string>) {
    && |members| == |scores|
    && (forall i :: 0 <= i < |members| ==> members[i] in scores)
    && (forall m :: m in scores ==> m in members)
    && (forall i, j :: 0 <= i < j < |members| ==> members[i] != members[j])
    && (forall i, j :: 0 <= i < j < |members| && members[i] in scores && members[j] in scores ==>
          scores[members[i]] <= scores[members[j]])
  }

  lemma {:induction false} LowestExists(scores: Scores, rest: set<string>) returns (low: string)
    requires rest != {} && rest <= scores.Keys
    ensures low in rest && forall m :: m in rest ==> scores[low] <= scores[m]
    decreases rest
  {
    low :| low in rest;
    if rest != {low} {
      var other := LowestExists(scores, rest - {low});
      low := if scores[other] <= scores[low] then other else low;
    }
  }

  method ZRange(scores: Scores) returns (members: seq<string>)
    ensures IsRange(scores, members)
  {
    members := [];
    var rest := scores.Keys;
    while rest != {}
      invariant rest <= scores.Keys
      invariant forall m :: m in scores <==> m in rest || m in members
      invariant forall m :: m in members ==> m !in rest
      invariant |members| + |rest| == |scores|
      invariant forall i, j :: 0 <= i < j < |members| ==> members[i] != members[j]
      invariant forall i, j :: 0 <= i < j < |members| && members[i] in scores && members[j] in scores ==>
                  scores[members[i]] <= scores[members[j]]
      invariant forall i, m :: 0 <= i < |members| && m in rest ==> members[i] in scores && scores[members[i]] <= scores[m]
      decreases rest
    {
      ghost var lowest := LowestExists(scores, rest);
      var low :| low in rest && forall m :: m in rest ==> scores[low] <= scores[m];
      members := members + [low];
      rest := rest - {low};
    }
  }

  // ---------------------------------------------------------------- the two calls

  /** The scores left in the window when Redis runs the call at `at`: what the call returns. */
  function Seen(c: Setting, key: Key, now: int, at: int): Scores {
    Pruned(Contents(Live(key, at)), c.Edge(now))
  }

  function AfterGet(c: Setting, key: Key, now: int, at: int): Key {
    WithContents(Live(key, at), Seen(c, key, now, at))
  }

  function AfterSet(c: Setting, key: Key, now: int, at: int, member: string): Key {
    var scores := Seen(c, key, now, at)[member := c.round(now)];
    Expire(Some(Entry(scores, None)), at, c.per)
  }

  function Itoa(n: int): string {
    if n < 0 then "-" + Decimal(-n) else Decimal(n)
  }

  function MemberFor(now: int, valueOverride: string): string {
    if valueOverride != "-1" then valueOverride else Itoa(now)
  }

  /** Calls without an override at different times never share a member, so none hides another. */
  lemma GeneratedMembersDiffer(t: int, u: int)
    requires MemberFor(t, "-1") == MemberFor(u, "-1")
    ensures t == u
  {
    var (a, b) := (if t < 0 then -t else t, if u < 0 then -u else u);
    assert Value(Decimal(a)) == a && Value(Decimal(b)) == b;
    assert IsDigit(Decimal(a)[0]) && IsDigit(Decimal(b)[0]);
    assert Itoa(t) == Itoa(u);
    if t < 0 && u < 0 {
      assert Itoa(t)[1..] == Decimal(a) && Itoa(u)[1..] == Decimal(b);
    }
  }

  /** The member a call adds: the override, or else the decimal notation of the time. */
  ghost predicate IsMember(member: string, now: int, valueOverride: string) {
    if valueOverride != "-1" then member == valueOverride
    else if now < 0 then member != "" && member[0] == '-' && Digits(member[1..]) && Value(member[1..]) == -now
    else Digits(member) && Value(member) == now
  }

  lemma MemberIsRight(now: int, valueOverride: string)
    ensures IsMember(MemberFor(now, valueOverride), now, valueOverride)
  {
    assert ("-" + Decimal(if now < 0 then -now else now))[1..] == Decimal(if now < 0 then -now else now);
  }

  class WindowStore {
    const c: Setting
    var key: Key

    constructor (c: Setting)
      ensures this.c == c && key == None
    {
      this.c, key := c, None;
    }

    method ZRemRangeByScore(clock: int, edge: int)
      modifies this
      ensures key == WithContents(Live(old(key), clock), Pruned(Contents(Live(old(key), clock)), edge))
    {
      key := Live(key, clock);
      key := WithContents(key, Pruned(Contents(key), edge));
    }

    method ZAdd(member: string, score: int)
      modifies this
      ensures key == WithContents(old(key), Contents(old(key))[member := score])
    {
      key := WithContents(key, Contents(key)[member := score]);
    }

    method SetRollingWindow(up: bool, now: int, at: int, valueOverride: string) returns (count: int, members: seq<string>)
      modifies this
      ensures up ==> IsRange(Seen(c, old(key), now, at), members) && count == |members|
      ensures up ==> key == AfterSet(c, old(key), now, at, MemberFor(now, valueOverride))
      ensures up && c.per > 0 ==>
                exists m :: m in Contents(key) && Contents(key)[m] == c.round(now) && IsMember(m, now, valueOverride)
      ensures !up ==> count == 0 && members == [] && key == old(key)
    {
      if !up {
        return 0, [];
      }
      ZRemRangeByScore(at, c.Edge(now));
      members := ZRange(Contents(key));
      var member := valueOverride;
      if valueOverride == "-1" {
        member := Itoa(now);
      }
      MemberIsRight(now, valueOverride);
      ZAdd(member, c.round(now));
      key := Expire(key, at, c.per);
      count := |members|;
    }

    method GetRollingWindow(up: bool, now: int, at: int) returns (count: int, members: seq<string>)
      modifies this
      ensures up ==> IsRange(Seen(c, old(key), now, at), members) && count == |members|
      ensures up ==> key == AfterGet(c, old(key), now, at)
      ensures !up ==> count == 0 && members == [] && key == old(key)
    {
      if !up {
        return 0, [];
      }
      ZRemRangeByScore(at, c.Edge(now));
      members := ZRange(Contents(key));
      count := |members|;
    }
  }

  // ---------------------------------------------------------------- every run

  /** A call with the caller's time `now`, run by Redis at `at`, in the order in which Redis ran them. */
  datatype Op = Set(now: int, at: int, member: string) | Get(now: int, at: int)

  /** The key, and beside it a log that forgets nothing: the time of the latest call that set each
      member. */
  datatype State = State(key: Key, log: map<string, int>)

  function Step(c: Setting, s: State, op: Op): State {
    match op
    case Set(now, at, member) => State(AfterSet(c, s.key, now, at, member), s.log[member := now])
    case Get(now, at) => State(AfterGet(c, s.key, now, at), s.log)
  }

  function Run(c: Setting, ops: seq<Op>): State {
    if ops == [] then State(None, map[]) else Step(c, Run(c, ops[..|ops| - 1]), ops[|ops| - 1])
  }

  predicate Sets(op: Op, member: string) {
    op.Set? && op.member == member
  }

  /** The members whose latest call scores above the time one window ago. */
  function InWindow(c: Setting, log: map<string, int>, now: int): set<string> {
    set m | m in log && c.round(log[m]) > c.round(now - c.per * NANOS_PER_SECOND)
  }

  /** The members the next call returns. */
  function Returned(c: Setting, ops: seq<Op>, now: int, at: int): set<string> {
    Seen(c, Run(c, ops).key, now, at).Keys
  }

  function Window(c: Setting, ops: seq<Op>, now: int): set<string> {
    InWindow(c, Run(c, ops).log, now)
  }

  /** What is stored is logged, with the score of its latest call. */
  ghost predicate Logged(c: Setting, s: State) {
    forall m :: m in Contents(s.key) ==> m in s.log && Contents(s.key)[m] == c.round(s.log[m])
  }

  lemma {:induction false} RunKeepsLogged(c: Setting, ops: seq<Op>)
    ensures Logged(c, Run(c, ops))
  {
    if ops != [] {
      RunKeepsLogged(c, ops[..|ops| - 1]);
    }
  }

  /** Nothing stale is ever returned: in every run, with any clocks, any delays, and callers whose
      times are out of order, a call returns only members whose latest call is in its window. */
  lemma ReturnedIsInWindow(c: Setting, ops: seq<Op>, now: int, at: int)
    ensures Returned(c, ops, now, at) <= Window(c, ops, now)
  {
    RunKeepsLogged(c, ops);
  }

  /** Nor is anything stale kept: after a call only members of its window are stored, and its own. */
  lemma StoredIsInWindow(c: Setting, ops: seq<Op>, op: Op)
    ensures forall m :: m in Contents(Step(c, Run(c, ops), op).key) ==> m in Window(c, ops, op.now) || Sets(op, m)
  {
    ReturnedIsInWindow(c, ops, op.now, op.at);
  }

  // ---------------------------------------------------------------- when nothing is missed

  /** The callers' times do not go back. */
  ghost predicate Ordered(ops: seq<Op>) {
    forall i, j :: 0 <= i < j < |ops| ==> ops[i].now <= ops[j].now
  }

  /** The latest call that set a member, and so renewed the deadline. */
  function LastSet(ops: seq<Op>): (r: Option<nat>)
    ensures r.Some? ==> r.value < |ops| && ops[r.value].Set?
    ensures r.Some? ==> forall j :: r.value < j < |ops| ==> !ops[j].Set?
    ensures r.None? ==> forall j :: 0 <= j < |ops| ==> !ops[j].Set?
  {
    if ops == [] then None
    else if ops[|ops| - 1].Set? then Some(|ops| - 1)
    else LastSet(ops[..|ops| - 1])
  }

  /** Redis runs the call while the deadline set by the latest Set has not passed, or there is
      nothing in the window to be lost. */
  ghost predicate OnTime(c: Setting, ops: seq<Op>, now: int, at: int) {
    || (LastSet(ops).Some? ==> at <= ops[LastSet(ops).value].at + c.per * MILLIS_PER_SECOND)
    || Window(c, ops, now) == {}
  }

  /** The key's deadline is the latest Set's. */
  lemma {:induction false} DeadlineIsLastSets(c: Setting, ops: seq<Op>)
    ensures var key := Run(c, ops).key;
            key.Some? ==>
              && LastSet(ops).Some?
              && key.value.deadline == Some(ops[LastSet(ops).value].at + c.per * MILLIS_PER_SECOND)
  {
    if ops != [] {
      DeadlineIsLastSets(c, ops[..|ops| - 1]);
    }
  }

  /** The key holds the whole window as of the caller's time `t`. */
  ghost predicate Complete(c: Setting, s: State, t: int) {
    InWindow(c, s.log, t) <= Contents(s.key).Keys
  }

  /** From a complete state, a call returns exactly its window if and only if it is on time. */
  lemma ExactIffOnTime(c: Setting, ops: seq<Op>, t: int, now: int, at: int)
    requires Monotone(c.round) && Complete(c, Run(c, ops), t) && t <= now
    ensures Returned(c, ops, now, at) == Window(c, ops, now) <==> OnTime(c, ops, now, at)
  {
    var s := Run(c, ops);
    RunKeepsLogged(c, ops);
    DeadlineIsLastSets(c, ops);
    assert c.Edge(t) <= c.Edge(now);
    assert Window(c, ops, now) <= InWindow(c, s.log, t);
    if Live(s.key, at) == s.key {
      assert Returned(c, ops, now, at) == Window(c, ops, now);
    } else {
      assert Returned(c, ops, now, at) == {};
    }
  }

  lemma StepKeepsComplete(c: Setting, ops: seq<Op>, op: Op)
    requires Monotone(c.round)
    requires Returned(c, ops, op.now, op.at) == Window(c, ops, op.now)
    ensures Complete(c, Step(c, Run(c, ops), op), op.now)
  {
    var s := Run(c, ops);
    forall m | m in InWindow(c, Step(c, s, op).log, op.now) ensures m in Contents(Step(c, s, op).key) {
      assert (op.Get? || m != op.member) ==> m in Window(c, ops, op.now);
      if op.Set? && c.per <= 0 {
        assert c.round(op.now) <= c.Edge(op.now);
        NothingStored(c, ops);
      }
    }
  }

  /** With a window that is not positive nothing is ever stored. */
  lemma {:induction false} NothingStored(c: Setting, ops: seq<Op>)
    requires c.per <= 0
    ensures Run(c, ops).key == None
  {
    if ops != [] {
      NothingStored(c, ops[..|ops| - 1]);
    }
  }

  /** Call number `j` of the run returns exactly its window; it is on time. */
  ghost predicate ExactAt(c: Setting, ops: seq<Op>, j: nat)
    requires j < |ops|
  {
    Returned(c, ops[..j], ops[j].now, ops[j].at) == Window(c, ops[..j], ops[j].now)
  }

  ghost predicate OnTimeAt(c: Setting, ops: seq<Op>, j: nat)
    requires j < |ops|
  {
    OnTime(c, ops[..j], ops[j].now, ops[j].at)
  }

  ghost predicate AllExact(c: Setting, ops: seq<Op>) {
    forall j :: 0 <= j < |ops| ==> ExactAt(c, ops, j)
  }

  ghost predicate AllOnTime(c: Setting, ops: seq<Op>) {
    forall j :: 0 <= j < |ops| ==> OnTimeAt(c, ops, j)
  }

  lemma SameInPrefix(c: Setting, ops: seq<Op>, n: nat, j: nat)
    requires j < n <= |ops|
    ensures ExactAt(c, ops[..n], j) <==> ExactAt(c, ops, j)
    ensures OnTimeAt(c, ops[..n], j) <==> OnTimeAt(c, ops, j)
  {
    assert ops[..n][..j] == ops[..j];
  }

  lemma {:induction false} ExactRunIsComplete(c: Setting, ops: seq<Op>)
    requires Monotone(c.round) && AllExact(c, ops)
    ensures Complete(c, Run(c, ops), if ops == [] then 0 else ops[|ops| - 1].now)
  {
    if ops != [] {
      var n := |ops| - 1;
      assert ExactAt(c, ops, n);
      StepKeepsComplete(c, ops[..n], ops[n]);
    }
  }

  /** The pruned, expiring set refines the log exactly in the runs in which every call is on time:
      each call returns exactly the members whose latest earlier call lies inside its window if
      and only if no call finds the deadline of the latest Set past and its window not empty. */
  lemma {:induction false} WindowRefinesLogIff(c: Setting, ops: seq<Op>)
    requires Monotone(c.round) && Ordered(ops)
    ensures AllExact(c, ops) <==> AllOnTime(c, ops)
  {
    if ops != [] {
      var n := |ops| - 1;
      var before := ops[..n];
      assert Ordered(before);
      WindowRefinesLogIff(c, before);
      AllExactInPrefix(c, ops);
      AllOnTimeInPrefix(c, ops);
      if AllExact(c, before) {
        LastIsExactIff(c, ops);
      }
    }
  }

  lemma AllExactInPrefix(c: Setting, ops: seq<Op>)
    requires ops != []
    ensures AllExact(c, ops) <==> AllExact(c, ops[..|ops| - 1]) && ExactAt(c, ops, |ops| - 1)
  {
    var n := |ops| - 1;
    forall j | 0 <= j < n ensures ExactAt(c, ops[..n], j) <==> ExactAt(c, ops, j) {
      SameInPrefix(c, ops, n, j);
    }
  }

  lemma AllOnTimeInPrefix(c: Setting, ops: seq<Op>)
    requires ops != []
    ensures AllOnTime(c, ops) <==> AllOnTime(c, ops[..|ops| - 1]) && OnTimeAt(c, ops, |ops| - 1)
  {
    var n := |ops| - 1;
    forall j | 0 <= j < n ensures OnTimeAt(c, ops[..n], j) <==> OnTimeAt(c, ops, j) {
      SameInPrefix(c, ops, n, j);
    }
  }

  lemma LastIsExactIff(c: Setting, ops: seq<Op>)
    requires Monotone(c.round) && Ordered(ops) && ops != [] && AllExact(c, ops[..|ops| - 1])
    ensures ExactAt(c, ops, |ops| - 1) <==> OnTimeAt(c, ops, |ops| - 1)
  {
    var n := |ops| - 1;
    ExactRunIsComplete(c, ops[..n]);
    assert n == 0 ==> Complete(c, Run(c, ops[..n]), ops[n].now);
    ExactIffOnTime(c, ops[..n], if n == 0 then ops[n].now else ops[n - 1].now, ops[n].now, ops[n].at);
  }

  /** A transaction that arrives late can miss a member: the window is one second, the member was
      set at time zero, and a call of 999.5 ms that Redis runs at 1001 ms does not return it. */
  lemma LateCallMissesMember(member: string)
    ensures var c := Setting(1, (x: int) => x);
            var ops := [Set(0, 0, member)];
            Returned(c, ops, 999_500_000, 1001) == {} && Window(c, ops, 999_500_000) == {member}
  {
    var c := Setting(1, (x: int) => x);
    var ops := [Set(0, 0, member)];
    assert ops[..0] == [];
    assert Run(c, ops) == Step(c, Run(c, []), ops[0]);
    assert Run(c, ops).log == map[member := 0];
    DeadlineIsLastSets(c, ops);
  }

  // ---------------------------------------------------------------- bounded delays

  /** Redis's time lies between the caller's, at a fixed distance, and `delay` nanoseconds later. */
  ghost predicate Prompt(op: Op, skew: int, delay: int) {
    (op.now + skew) / NANOS_PER_MILLI <= op.at <= (op.now + skew + delay) / NANOS_PER_MILLI
  }

  /** The members newer than the window by more than the delay. */
  ghost function Recent(c: Setting, log: map<string, int>, now: int, delay: int): set<string> {
    set m | m in log && c.round(log[m]) > c.round(now + delay - c.per * NANOS_PER_SECOND)
  }

  /** By the time the key expires, no member is recent any more. */
  lemma ExpiryComesLate(c: Setting, latest: Op, call: Op, skew: int, delay: int, t: int)
    requires Monotone(c.round)
    requires Prompt(latest, skew, delay) && Prompt(call, skew, delay)
    requires call.at > latest.at + c.per * MILLIS_PER_SECOND
    requires t <= latest.now
    ensures c.round(t) <= c.round(call.now + delay - c.per * NANOS_PER_SECOND)
  {
    assert latest.now <= call.now + delay - c.per * NANOS_PER_SECOND;
  }

  lemma {:induction false} LogEndsAtLastSet(c: Setting, ops: seq<Op>, m: string)
    requires Ordered(ops) && m in Run(c, ops).log
    ensures LastSet(ops).Some? && Run(c, ops).log[m] <= ops[LastSet(ops).value].now
  {
    var n := |ops| - 1;
    if !Sets(ops[n], m) {
      LogEndsAtLastSet(c, ops[..n], m);
    }
  }

  lemma SeesRecent(c: Setting, ops: seq<Op>, t: int, call: Op, skew: int, delay: nat)
    requires Monotone(c.round) && Ordered(ops) && t <= call.now
    requires Prompt(call, skew, delay) && forall i :: 0 <= i < |ops| ==> Prompt(ops[i], skew, delay)
    requires Recent(c, Run(c, ops).log, t, delay) <= Contents(Run(c, ops).key).Keys
    ensures Recent(c, Run(c, ops).log, call.now, delay) <= Returned(c, ops, call.now, call.at)
  {
    var s := Run(c, ops);
    RunKeepsLogged(c, ops);
    DeadlineIsLastSets(c, ops);
    assert c.Edge(t + delay) <= c.Edge(call.now + delay) && c.Edge(call.now) <= c.Edge(call.now + delay);
    if Live(s.key, call.at) != s.key {
      forall m | m in s.log ensures m !in Recent(c, s.log, call.now, delay) {
        LogEndsAtLastSet(c, ops, m);
        ExpiryComesLate(c, ops[LastSet(ops).value], call, skew, delay, s.log[m]);
      }
    }
    forall m | m in Recent(c, s.log, call.now, delay) ensures m in Returned(c, ops, call.now, call.at) {
      assert m in Recent(c, s.log, t, delay);
    }
  }

  lemma {:induction false} RunHoldsRecent(c: Setting, ops: seq<Op>, skew: int, delay: nat)
    requires Monotone(c.round) && Ordered(ops)
    requires forall i :: 0 <= i < |ops| ==> Prompt(ops[i], skew, delay)
    ensures Recent(c, Run(c, ops).log, if ops == [] then 0 else ops[|ops| - 1].now, delay) <= Contents(Run(c, ops).key).Keys
  {
    if ops == [] {
    } else if c.per <= 0 {
      forall m | m in Run(c, ops).log ensures m !in Recent(c, Run(c, ops).log, ops[|ops| - 1].now, delay) {
        LogEndsAtLastSet(c, ops, m);
        assert ops[LastSet(ops).value].now <= ops[|ops| - 1].now;
      }
    } else {
      var n := |ops| - 1;
      var before, op := ops[..n], ops[n];
      RunHoldsRecent(c, before, skew, delay);
      assert Recent(c, Run(c, []).log, op.now, delay) == {};
      SeesRecent(c, before, if n == 0 then op.now else ops[n - 1].now, op, skew, delay);
      forall m | m in Recent(c, Run(c, ops).log, op.now, delay) ensures m in Contents(Run(c, ops).key) {
        assert !Sets(op, m) ==> m in Recent(c, Run(c, before).log, op.now, delay);
      }
    }
  }

  /** With delays of up to `delay`, in every run, a call returns every member that is in its window
      by more than the delay, and only members in its window. */
  lemma RecentIsReturned(c: Setting, ops: seq<Op>, call: Op, skew: int, delay: nat)
    requires Monotone(c.round) && Ordered(ops + [call])
    requires forall i :: 0 <= i < |ops + [call]| ==> Prompt((ops + [call])[i], skew, delay)
    ensures Recent(c, Run(c, ops).log, call.now, delay)
         <= Returned(c, ops, call.now, call.at)
         <= Window(c, ops, call.now)
  {
    var all := ops + [call];
    assert forall i :: 0 <= i < |ops| ==> ops[i] == all[i];
    assert call == all[|ops|];
    RunHoldsRecent(c, ops, skew, delay);
    assert ops == [] ==> Recent(c, Run(c, ops).log, call.now, delay) == {};
    SeesRecent(c, ops, if ops == [] then call.now else ops[|ops| - 1].now, call, skew, delay);
    ReturnedIsInWindow(c, ops, call.now, call.at);
  }

  /** In particular, with no delay at all it returns exactly its window. */
  lemma UndelayedIsExact(c: Setting, ops: seq<Op>, call: Op, skew: int)
    requires Monotone(c.round) && Ordered(ops + [call])
    requires forall i :: 0 <= i < |ops + [call]| ==> Prompt((ops + [call])[i], skew, 0)
    ensures Returned(c, ops, call.now, call.at) == Window(c, ops, call.now)
  {
    RecentIsReturned(c, ops, call, skew, 0);
    assert Recent(c, Run(c, ops).log, call.now, 0) == Window(c, ops, call.now);
  }

  // ---------------------------------------------------------------- the log

  ghost predicate LatestSet(ops: seq<Op>, i: int, t: int, member: string) {
    0 <= i < |ops| && Sets(ops[i], member) && ops[i].now == t && forall j :: i < j < |ops| ==> !Sets(ops[j], member)
  }

  /** The log is what it claims to be: for each member, the time of the latest call that set it. */
  lemma {:induction false} LogHoldsLatest(c: Setting, ops: seq<Op>, member: string, t: int)
    ensures var log := Run(c, ops).log;
            member in log && log[member] == t <==> exists i :: LatestSet(ops, i, t, member)
  {
    if ops != [] {
      var n := |ops| - 1;
      LogHoldsLatest(c, ops[..n], member, t);
      forall i | 0 <= i < n
        ensures LatestSet(ops, i, t, member) <==> LatestSet(ops[..n], i, t, member) && !Sets(ops[n], member)
      {
        assert forall j :: 0 <= j < n ==> ops[..n][j] == ops[j];
      }
      assert LatestSet(ops, n, t, member) <==> Sets(ops[n], member) && ops[n].now == t;
      if !Sets(ops[n], member) {
        forall i | LatestSet(ops, i, t, member) ensures i < n {}
        forall i | LatestSet(ops[..n], i, t, member) ensures LatestSet(ops, i, t, member) {}
      }
    }
  }
}
