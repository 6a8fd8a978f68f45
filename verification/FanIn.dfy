/** AggregateGoroutines (pkg/errors/aggregate.go): one goroutine per function sends its result on
a channel with room for all of them, and the caller takes one value per function. The model is
every interleaving of those sends and takes. */
module FanIn {
  import opened AggregateErrors

  /** `sent` says which goroutines have sent, `taken` is what the caller has received so far and
      `errs` the slice it appends to. */
  datatype State = State(sent: seq<bool>, channel: seq<Err>, taken: seq<Err>, errs: seq<Err>)

  datatype Action = Send(k: nat) | Take

  function Init(n: nat): State {
    State(seq(n, _ => false), [], [], [])
  }

  /** The collecting loop has run once per unit of capacity. */
  predicate Done(results: seq<Err>, s: State) {
    |s.taken| == |results|
  }

  predicate Pending(s: State, k: nat) {
    k < |s.sent| && !s.sent[k]
  }

  predicate Enabled(results: seq<Err>, s: State, a: Action) {
    match a
    case Send(k) => Pending(s, k) && k < |results| && |s.channel| < |results|
    case Take => !Done(results, s) && s.channel != []
  }

  function Next(results: seq<Err>, s: State, a: Action): State
    requires Enabled(results, s, a)
  {
    match a
    case Send(k) => s.(sent := s.sent[k := true], channel := s.channel + [results[k]])
    case Take =>
      var err := s.channel[0];
      s.(channel := s.channel[1..],
         taken := s.taken + [err],
         errs := if err.Nil? then s.errs else s.errs + [err])
  }

  /** The state a schedule leads to, if each of its actions can be taken. */
  ghost function Run(results: seq<Err>, schedule: seq<Action>): (r: (bool, State)) {
    if schedule == [] then (true, Init(|results|))
    else
      var (ok, s) := Run(results, schedule[..|schedule| - 1]);
      var a := schedule[|schedule| - 1];
      if ok && Enabled(results, s, a) then (true, Next(results, s, a)) else (false, s)
  }

  /** The results already sent. */
  ghost function Sent(results: seq<Err>, sent: seq<bool>): multiset<Err>
    requires |results| == |sent|
  {
    if sent == [] then multiset{}
    else
      var n := |sent| - 1;
      Sent(results[..n], sent[..n]) + (if sent[n] then multiset{results[n]} else multiset{})
  }

  ghost predicate Inv(results: seq<Err>, s: State) {
    && |s.sent| == |results|
    && multiset(s.channel) + multiset(s.taken) == Sent(results, s.sent)
    && s.errs == NonNil(s.taken)
  }

  lemma SentCount(results: seq<Err>, sent: seq<bool>, e: Err)
    requires |results| == |sent| > 0
    ensures var n := |sent| - 1;
            Sent(results, sent)[e] == Sent(results[..n], sent[..n])[e] + (if sent[n] && results[n] == e then 1 else 0)
  {
  }

  lemma {:induction false} SentCountAfter(results: seq<Err>, sent: seq<bool>, k: nat, e: Err)
    requires |results| == |sent| && k < |sent| && !sent[k]
    ensures Sent(results, sent[k := true])[e] == Sent(results, sent)[e] + (if results[k] == e then 1 else 0)
    decreases |sent|
  {
    var n := |sent| - 1;
    SentCount(results, sent, e);
    SentCount(results, sent[k := true], e);
    if k == n {
      assert sent[k := true][..n] == sent[..n];
    } else {
      assert sent[k := true][..n] == sent[..n][k := true];
      SentCountAfter(results[..n], sent[..n], k, e);
    }
  }

  lemma SentAfter(results: seq<Err>, sent: seq<bool>, k: nat)
    requires |results| == |sent| && k < |sent| && !sent[k]
    ensures Sent(results, sent[k := true]) == Sent(results, sent) + multiset{results[k]}
  {
    forall e: Err
      ensures Sent(results, sent[k := true])[e] == (Sent(results, sent) + multiset{results[k]})[e]
    {
      SentCountAfter(results, sent, k, e);
    }
  }

  lemma {:induction false} NothingSent(results: seq<Err>, n: nat)
    requires n == |results|
    ensures Sent(results, seq(n, _ => false)) == multiset{}
  {
    if n > 0 {
      assert seq(n, _ => false)[..n - 1] == seq(n - 1, _ => false);
      NothingSent(results[..n - 1], n - 1);
    }
  }

  /** At most one value per goroutine has been sent; all of them only when none is pending. */
  lemma {:induction false} SentSize(results: seq<Err>, sent: seq<bool>)
    requires |results| == |sent|
    ensures |Sent(results, sent)| <= |sent|
    ensures (exists k :: 0 <= k < |sent| && !sent[k]) <==> |Sent(results, sent)| < |sent|
    ensures |Sent(results, sent)| == |sent| ==> Sent(results, sent) == multiset(results)
    decreases |sent|
  {
    if sent != [] {
      var n := |sent| - 1;
      SentSize(results[..n], sent[..n]);
      assert results == results[..n] + [results[n]];
    }
  }

  lemma {:induction false} NonNilSnoc(list: seq<Err>, e: Err)
    ensures NonNil(list + [e]) == NonNil(list) + (if e.Nil? then [] else [e])
  {
    assert (list + [e])[..|list|] == list;
  }

  lemma {:induction false} RunKeepsInv(results: seq<Err>, schedule: seq<Action>)
    requires Run(results, schedule).0
    ensures Inv(results, Run(results, schedule).1)
  {
    if schedule == [] {
      NothingSent(results, |results|);
    } else {
      var s := Run(results, schedule[..|schedule| - 1]).1;
      RunKeepsInv(results, schedule[..|schedule| - 1]);
      match schedule[|schedule| - 1]
      case Send(k) =>
        SentAfter(results, s.sent, k);
      case Take =>
        assert s.channel == [s.channel[0]] + s.channel[1..];
        NonNilSnoc(s.taken, s.channel[0]);
    }
  }

  /** In every schedule there is room in the channel for whoever still has to send. */
  lemma SendersNeverBlock(results: seq<Err>, schedule: seq<Action>, k: nat)
    requires Run(results, schedule).0
    requires Pending(Run(results, schedule).1, k)
    ensures Enabled(results, Run(results, schedule).1, Send(k))
  {
    var s := Run(results, schedule).1;
    RunKeepsInv(results, schedule);
    SentSize(results, s.sent);
    assert |multiset(s.channel) + multiset(s.taken)| == |s.channel| + |s.taken|;
  }

  /** Until the caller is done it can take a value or some goroutine can send one, and every
      schedule has at most two actions per function; so the collection always completes. */
  lemma NoDeadlock(results: seq<Err>, schedule: seq<Action>)
    requires Run(results, schedule).0
    ensures var s := Run(results, schedule).1;
            !Done(results, s) ==> exists a :: Enabled(results, s, a)
  {
    var s := Run(results, schedule).1;
    RunKeepsInv(results, schedule);
    SentSize(results, s.sent);
    assert |multiset(s.channel) + multiset(s.taken)| == |s.channel| + |s.taken|;
    if !Done(results, s) {
      if s.channel != [] {
        assert Enabled(results, s, Take);
      } else {
        var k :| 0 <= k < |s.sent| && !s.sent[k];
        assert Enabled(results, s, Send(k));
      }
    }
  }

  lemma {:induction false} ScheduleLength(results: seq<Err>, schedule: seq<Action>)
    requires Run(results, schedule).0
    ensures var s := Run(results, schedule).1;
            |schedule| == |s.channel| + 2 * |s.taken| <= 2 * |results|
  {
    var s := Run(results, schedule).1;
    RunKeepsInv(results, schedule);
    SentSize(results, s.sent);
    assert |multiset(s.channel) + multiset(s.taken)| == |s.channel| + |s.taken|;
    if schedule != [] {
      ScheduleLength(results, schedule[..|schedule| - 1]);
    }
  }

  lemma {:induction false} NonNilBag(list: seq<Err>, e: Err)
    ensures multiset(NonNil(list))[e] == if e.Nil? then 0 else multiset(list)[e]
  {
    if list != [] {
      var n := |list| - 1;
      NonNilBag(list[..n], e);
      assert list == list[..n] + [list[n]];
    }
  }

  lemma {:induction false} NonNilHasNoNil(list: seq<Err>)
    ensures forall i :: 0 <= i < |NonNil(list)| ==> !NonNil(list)[i].Nil?
    ensures NonNil(list) == [] <==> forall i :: 0 <= i < |list| ==> list[i].Nil?
  {
    if list != [] {
      NonNilHasNoNil(list[..|list| - 1]);
    }
  }

  /** Whatever the schedule, when the caller is done every function's result was taken exactly
      once, nothing is left in the channel, and the aggregate returned holds exactly the non-nil
      results, counted with multiplicity; it is nil exactly when all functions succeeded. */
  lemma CollectsExactlyTheFailures(results: seq<Err>, schedule: seq<Action>)
    requires Run(results, schedule).0
    requires Done(results, Run(results, schedule).1)
    ensures var s := Run(results, schedule).1;
            && s.channel == []
            && multiset(s.taken) == multiset(results)
            && multiset(s.errs) == multiset(NonNil(results))
            && Bundle(s.errs) == (if s.errs == [] then Nil else Agg(s.errs))
            && (Bundle(s.errs).Nil? <==> forall i :: 0 <= i < |results| ==> results[i].Nil?)
  {
    var s := Run(results, schedule).1;
    RunKeepsInv(results, schedule);
    SentSize(results, s.sent);
    assert |multiset(s.channel) + multiset(s.taken)| == |s.channel| + |s.taken|;
    assert multiset(s.taken) == multiset(results);
    forall e: Err ensures multiset(s.errs)[e] == multiset(NonNil(results))[e] {
      NonNilBag(s.taken, e);
      NonNilBag(results, e);
    }
    assert multiset(s.errs) == multiset(NonNil(results));
    assert |s.errs| == |multiset(s.errs)| && |NonNil(results)| == |multiset(NonNil(results))|;
    NonNilHasNoNil(s.taken);
    NonNilHasNoNil(results);
    NoNils(s.errs);
  }

  /** The results in the order in which they were sent. */
  ghost function Arrivals(results: seq<Err>, schedule: seq<Action>): seq<Err> {
    if schedule == [] then []
    else
      var a := schedule[|schedule| - 1];
      Arrivals(results, schedule[..|schedule| - 1]) + (if a.Send? && a.k < |results| then [results[a.k]] else [])
  }

  lemma TakeKeepsOrder(taken: seq<Err>, channel: seq<Err>)
    requires channel != []
    ensures (taken + [channel[0]]) + channel[1..] == taken + channel
  {
  }

  /** The caller takes them in that order. */
  lemma {:induction false} TakenInOrder(results: seq<Err>, schedule: seq<Action>)
    requires Run(results, schedule).0
    ensures var s := Run(results, schedule).1; s.taken + s.channel == Arrivals(results, schedule)
  {
    if schedule != [] {
      var s := Run(results, schedule[..|schedule| - 1]).1;
      TakenInOrder(results, schedule[..|schedule| - 1]);
      match schedule[|schedule| - 1]
      case Send(k) =>
        assert s.taken + (s.channel + [results[k]]) == (s.taken + s.channel) + [results[k]];
      case Take =>
        TakeKeepsOrder(s.taken, s.channel);
    }
  }

  /** So when it is done the aggregate lists the failures in the order in which they arrived. */
  lemma FailuresInArrivalOrder(results: seq<Err>, schedule: seq<Action>)
    requires Run(results, schedule).0 && Done(results, Run(results, schedule).1)
    ensures Run(results, schedule).1.errs == NonNil(Arrivals(results, schedule))
  {
    RunKeepsInv(results, schedule);
    TakenInOrder(results, schedule);
    CollectsExactlyTheFailures(results, schedule);
    var s := Run(results, schedule).1;
    assert s.taken + [] == s.taken;
  }
}
