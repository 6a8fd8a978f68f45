/** The budgeted depth-first search over an error graph (pkg/errors/walk.go). */
module ErrorWalk {
  import opened ErrorGraph

  const MAX_NODES: nat := 1000

  /** What a visitor answers for each error it is shown. */
  type Visitor = nat -> bool

  /** The walker's two fields, and the record of what the walk has done so far:
      the nodes it entered, the calls it made to the visitor in order, and whether
      some non-nil error was dropped because the budget was spent. */
  datatype Walk = Walk(seen: set<nat>, remaining: nat, entered: set<nat>, visited: seq<nat>, cut: bool)

  const Fresh: Walk := FreshWith(MAX_NODES)

  function FreshWith(budget: nat): Walk {
    Walk({}, budget, {}, [], false)
  }

  /** Every entry is charged to the budget. */
  function Charge(n: nat, w: Walk): Walk
    requires w.remaining > 0
  {
    w.(remaining := w.remaining - 1, entered := w.entered + {n})
  }

  predicate Known(g: Graph, n: nat, w: Walk) {
    g(n).comparable && n in w.seen
  }

  /** A node that was not known is remembered if its type is comparable and, unless it is an
      aggregate, shown to the visitor. */
  function Show(g: Graph, n: nat, w: Walk): Walk
    requires w.remaining > 0
  {
    Charge(n, w).(seen := if g(n).comparable then w.seen + {n} else w.seen,
                  visited := if IsAggregate(g, n) then w.visited else w.visited + [n])
  }

  /** The visitor is only asked about errors that are not aggregates. */
  predicate Accepts(g: Graph, visit: Visitor, n: nat) {
    !IsAggregate(g, n) && visit(n)
  }

  function WalkTree(g: Graph, e: Ref, visit: Visitor, w: Walk): (r: (Walk, bool))
    ensures r.0.remaining <= w.remaining
    decreases w.remaining, 0
  {
    if e.Nil? then (w, false)
    else if w.remaining == 0 then (w.(cut := true), false)
    else if Known(g, e.id, w) then (Charge(e.id, w), false)
    else if Accepts(g, visit, e.id) then (Show(g, e.id, w), true)
    else WalkList(g, Children(g(e.id)), visit, Show(g, e.id, w))
  }

  function WalkList(g: Graph, es: seq<Ref>, visit: Visitor, w: Walk): (r: (Walk, bool))
    ensures r.0.remaining <= w.remaining
    decreases w.remaining, 1 + |es|
  {
    if es == [] then (w, false)
    else
      var (w', found) := WalkTree(g, es[0], visit, w);
      if found then (w', true) else WalkList(g, es[1..], visit, w')
  }

  // ---------------------------------------------------------------- record keeping

  /** The facts tying the record to the walker's fields. */
  ghost predicate Consistent(g: Graph, visit: Visitor, w: Walk) {
    && (forall n :: n in w.seen <==> n in w.entered && g(n).comparable)
    && (forall n :: n in w.visited <==> n in w.entered && !IsAggregate(g, n))
    && (forall n :: n in w.visited ==> !visit(n))
    && (forall i, j :: 0 <= i < j < |w.visited| && w.visited[i] == w.visited[j] ==> !g(w.visited[i]).comparable)
  }

  /** All children of the nodes entered since `before` have been entered too. */
  ghost predicate ClosedSince(g: Graph, before: set<nat>, after: set<nat>) {
    && before <= after
    && forall n, c :: n in after && n !in before && Edge(g, n, c) ==> c in after
  }

  ghost predicate HoldsAll(entered: set<nat>, es: seq<Ref>) {
    forall e :: e in es && e.Err? ==> e.id in entered
  }

  lemma {:induction false} TreeKeepsRecord(g: Graph, e: Ref, visit: Visitor, w: Walk)
    requires Consistent(g, visit, w)
    ensures var (w', found) := WalkTree(g, e, visit, w);
            && (w.cut ==> w'.cut)
            && w.entered <= w'.entered
            && (!found ==> Consistent(g, visit, w'))
            && (!found && !w'.cut ==> ClosedSince(g, w.entered, w'.entered) && HoldsAll(w'.entered, [e]))
    decreases w.remaining, 0
  {
    if e.Err? && w.remaining > 0 && !Known(g, e.id, w) && !Accepts(g, visit, e.id) {
      ChildrenAreEdges(g, e.id);
      ListKeepsRecord(g, Children(g(e.id)), visit, Show(g, e.id, w));
    }
  }

  lemma {:induction false} ListKeepsRecord(g: Graph, es: seq<Ref>, visit: Visitor, w: Walk)
    requires Consistent(g, visit, w)
    ensures var (w', found) := WalkList(g, es, visit, w);
            && (w.cut ==> w'.cut)
            && w.entered <= w'.entered
            && (!found ==> Consistent(g, visit, w'))
            && (!found && !w'.cut ==> ClosedSince(g, w.entered, w'.entered) && HoldsAll(w'.entered, es))
    decreases w.remaining, 1 + |es|
  {
    if es != [] {
      TreeKeepsRecord(g, es[0], visit, w);
      var (w', found) := WalkTree(g, es[0], visit, w);
      if !found {
        ListKeepsRecord(g, es[1..], visit, w');
        assert es == [es[0]] + es[1..];
      }
    }
  }

  /** The walk stopped at the last error it showed to the visitor. */
  ghost predicate Accepted(g: Graph, visit: Visitor, w: Walk) {
    && w.visited != []
    && var last := |w.visited| - 1;
    && visit(w.visited[last]) && !IsAggregate(g, w.visited[last])
    && (forall i :: 0 <= i < last ==> !visit(w.visited[i]))
    && (forall i, j :: 0 <= i < j <= last && w.visited[i] == w.visited[j] ==> !g(w.visited[i]).comparable)
    && (forall n :: n in w.visited ==> n in w.entered)
  }

  lemma {:induction false} TreeStopsAtAccepted(g: Graph, e: Ref, visit: Visitor, w: Walk)
    requires Consistent(g, visit, w)
    ensures var (w', found) := WalkTree(g, e, visit, w);
            && (found ==> Accepted(g, visit, w'))
            && |w'.visited| + w'.remaining <= |w.visited| + w.remaining
    decreases w.remaining, 0
  {
    if e.Err? && w.remaining > 0 && !Known(g, e.id, w) && !Accepts(g, visit, e.id) {
      ListStopsAtAccepted(g, Children(g(e.id)), visit, Show(g, e.id, w));
    }
  }

  lemma {:induction false} ListStopsAtAccepted(g: Graph, es: seq<Ref>, visit: Visitor, w: Walk)
    requires Consistent(g, visit, w)
    ensures var (w', found) := WalkList(g, es, visit, w);
            && (found ==> Accepted(g, visit, w'))
            && |w'.visited| + w'.remaining <= |w.visited| + w.remaining
    decreases w.remaining, 1 + |es|
  {
    if es != [] {
      TreeStopsAtAccepted(g, es[0], visit, w);
      TreeKeepsRecord(g, es[0], visit, w);
      var (w', found) := WalkTree(g, es[0], visit, w);
      if !found {
        ListStopsAtAccepted(g, es[1..], visit, w');
      }
    }
  }

  /** A set, possibly infinite, that holds every child of every member. */
  ghost predicate ClosedUnder(g: Graph, inside: iset<nat>) {
    forall n, c :: n in inside && Edge(g, n, c) ==> c in inside
  }

  ghost predicate AllInside(inside: iset<nat>, base: set<nat>, s: set<nat>) {
    forall n :: n in s ==> n in inside || n in base
  }

  /** A walk that begins inside such a set never leaves it. */
  lemma {:induction false} TreeStaysInside(g: Graph, inside: iset<nat>, base: set<nat>, e: Ref, visit: Visitor, w: Walk)
    requires ClosedUnder(g, inside) && AllInside(inside, base, w.entered)
    requires e.Err? ==> e.id in inside
    ensures AllInside(inside, base, WalkTree(g, e, visit, w).0.entered)
    decreases w.remaining, 0
  {
    if e.Err? && w.remaining > 0 && !Known(g, e.id, w) && !Accepts(g, visit, e.id) {
      ChildrenAreEdges(g, e.id);
      ListStaysInside(g, inside, base, Children(g(e.id)), visit, Show(g, e.id, w));
    }
  }

  lemma {:induction false} ListStaysInside(g: Graph, inside: iset<nat>, base: set<nat>, es: seq<Ref>, visit: Visitor, w: Walk)
    requires ClosedUnder(g, inside) && AllInside(inside, base, w.entered)
    requires forall e: Ref :: e in es && e.Err? ==> e.id in inside
    ensures AllInside(inside, base, WalkList(g, es, visit, w).0.entered)
    decreases w.remaining, 1 + |es|
  {
    if es != [] {
      TreeStaysInside(g, inside, base, es[0], visit, w);
      var (w', found) := WalkTree(g, es[0], visit, w);
      if !found {
        ListStaysInside(g, inside, base, es[1..], visit, w');
      }
    }
  }

  /** So it enters only what can be reached. */
  lemma WalkEntersReachable(g: Graph, e: Ref, visit: Visitor, budget: nat)
    ensures forall n :: n in WalkTree(g, e, visit, FreshWith(budget)).0.entered ==> Reachable(g, e, n)
  {
    var inside := iset n | Reachable(g, e, n);
    forall n, c | n in inside && Edge(g, n, c) ensures c in inside {
      ReachesChild(g, e, n, c);
    }
    if e.Err? { ReachesItself(g, e.id); }
    TreeStaysInside(g, inside, {}, e, visit, FreshWith(budget));
  }

  // ---------------------------------------------------------------- the search theorems

  /** Soundness, for every graph, visitor and budget: a search that answers true stopped at
      a reachable, non-aggregate error that the visitor accepted, after it had rejected every
      earlier one. */
  lemma SearchIsSound(g: Graph, e: Ref, visit: Visitor, budget: nat)
    requires WalkTree(g, e, visit, FreshWith(budget)).1
    ensures var v := WalkTree(g, e, visit, FreshWith(budget)).0.visited;
            && v != []
            && Reachable(g, e, v[|v| - 1])
            && !g(v[|v| - 1]).shape.Aggregate?
            && visit(v[|v| - 1])
            && forall i :: 0 <= i < |v| - 1 ==> !visit(v[i])
  {
    TreeStopsAtAccepted(g, e, visit, FreshWith(budget));
    WalkEntersReachable(g, e, visit, budget);
  }

  /** Completeness, on cyclic, shared and infinite graphs alike: a search that answers false
      without having dropped anything showed the visitor exactly the reachable non-aggregate
      errors, and the visitor rejected each of them. */
  lemma SearchIsComplete(g: Graph, e: Ref, visit: Visitor, budget: nat)
    requires var (w, found) := WalkTree(g, e, visit, FreshWith(budget)); !found && !w.cut
    ensures var w := WalkTree(g, e, visit, FreshWith(budget)).0;
            forall n :: n in w.visited <==> Reachable(g, e, n) && !g(n).shape.Aggregate?
    ensures forall n :: Reachable(g, e, n) && !g(n).shape.Aggregate? ==> !visit(n)
  {
    var w0 := FreshWith(budget);
    var w := WalkTree(g, e, visit, w0).0;
    TreeKeepsRecord(g, e, visit, w0);
    assert Closed(g, w.entered);
    if e.Err? { ReachesItself(g, e.id); assert e in [e]; }
    WalkEntersReachable(g, e, visit, budget);
    forall n | Reachable(g, e, n)
      ensures n in w.entered
    {
      ClosedHoldsReachable(g, w.entered, e, n);
    }
  }

  /** Nothing is dropped while budget is left over. */
  lemma {:induction false} TreeCutsOnlyWhenSpent(g: Graph, e: Ref, visit: Visitor, w: Walk)
    requires w.cut ==> w.remaining == 0
    ensures var w' := WalkTree(g, e, visit, w).0; w'.cut ==> w'.remaining == 0
    decreases w.remaining, 0
  {
    if e.Err? && w.remaining > 0 && !Known(g, e.id, w) && !Accepts(g, visit, e.id) {
      ListCutsOnlyWhenSpent(g, Children(g(e.id)), visit, Show(g, e.id, w));
    }
  }

  lemma {:induction false} ListCutsOnlyWhenSpent(g: Graph, es: seq<Ref>, visit: Visitor, w: Walk)
    requires w.cut ==> w.remaining == 0
    ensures var w' := WalkList(g, es, visit, w).0; w'.cut ==> w'.remaining == 0
    decreases w.remaining, 1 + |es|
  {
    if es != [] {
      TreeCutsOnlyWhenSpent(g, es[0], visit, w);
      var (w', found) := WalkTree(g, es[0], visit, w);
      if !found {
        ListCutsOnlyWhenSpent(g, es[1..], visit, w');
      }
    }
  }

  lemma {:induction false} TreeKeepsCut(g: Graph, e: Ref, visit: Visitor, w: Walk)
    requires w.cut
    ensures WalkTree(g, e, visit, w).0.cut
    decreases w.remaining, 0
  {
    if e.Err? && w.remaining > 0 && !Known(g, e.id, w) && !Accepts(g, visit, e.id) {
      ListKeepsCut(g, Children(g(e.id)), visit, Show(g, e.id, w));
    }
  }

  lemma {:induction false} ListKeepsCut(g: Graph, es: seq<Ref>, visit: Visitor, w: Walk)
    requires w.cut
    ensures WalkList(g, es, visit, w).0.cut
    decreases w.remaining, 1 + |es|
  {
    if es != [] {
      TreeKeepsCut(g, es[0], visit, w);
      var (w', found) := WalkTree(g, es[0], visit, w);
      if !found {
        ListKeepsCut(g, es[1..], visit, w');
      }
    }
  }

  /** On any graph at all the visitor is called at most MAX_NODES times, and is never shown
      the same comparable error twice. */
  lemma SearchIsBounded(g: Graph, e: Ref, visit: Visitor)
    ensures var v := WalkTree(g, e, visit, Fresh).0.visited;
            && |v| <= MAX_NODES
            && forall i, j :: 0 <= i < j < |v| && v[i] == v[j] ==> !g(v[i]).comparable
  {
    TreeKeepsRecord(g, e, visit, Fresh);
    TreeStopsAtAccepted(g, e, visit, Fresh);
  }

  // ---------------------------------------------------------------- the order of the visits

  lemma {:induction false} TreeOnlyAppends(g: Graph, e: Ref, visit: Visitor, w: Walk)
    ensures w.visited <= WalkTree(g, e, visit, w).0.visited
    decreases w.remaining, 0
  {
    if e.Err? && w.remaining > 0 && !Known(g, e.id, w) && !Accepts(g, visit, e.id) {
      ListOnlyAppends(g, Children(g(e.id)), visit, Show(g, e.id, w));
    }
  }

  lemma {:induction false} ListOnlyAppends(g: Graph, es: seq<Ref>, visit: Visitor, w: Walk)
    ensures w.visited <= WalkList(g, es, visit, w).0.visited
    decreases w.remaining, 1 + |es|
  {
    if es != [] {
      TreeOnlyAppends(g, es[0], visit, w);
      var (w', found) := WalkTree(g, es[0], visit, w);
      if !found {
        ListOnlyAppends(g, es[1..], visit, w');
      }
    }
  }

  lemma {:induction false} ListSplits(g: Graph, es: seq<Ref>, k: nat, visit: Visitor, w: Walk)
    requires k <= |es|
    ensures var (w', found) := WalkList(g, es[..k], visit, w);
            WalkList(g, es, visit, w) == if found then (w', true) else WalkList(g, es[k..], visit, w')
    decreases k
  {
    if k == 0 {
      assert es[0..] == es;
    } else {
      var (w', found) := WalkTree(g, es[0], visit, w);
      assert es[..k][0] == es[0] && es[..k][1..] == es[1..][..k - 1] && es[1..][k - 1..] == es[k..];
      if !found {
        ListSplits(g, es[1..], k - 1, visit, w');
      }
    }
  }

  /** Reachable from one of the first `k` members; reachable from one of them without passing `e`. */
  ghost predicate FromFirst(g: Graph, members: seq<Ref>, k: nat, n: nat) {
    exists i :: 0 <= i < k <= |members| && Reachable(g, members[i], n)
  }

  ghost predicate FromFirstAvoiding(g: Graph, members: seq<Ref>, k: nat, e: nat, n: nat) {
    exists i, path :: 0 <= i < k <= |members| && PathTo(g, path, members[i], n) && e !in path
  }

  lemma {:induction false} PathIsEntered(g: Graph, e: nat, entered: set<nat>, path: seq<nat>)
    requires ClosedSince(g, {e}, entered) && IsPath(g, path) && path[0] in entered && e !in path
    ensures path[|path| - 1] in entered
    decreases |path|
  {
    if |path| > 1 {
      assert Edge(g, path[0], path[1]);
      var rest := path[1..];
      forall i | 0 <= i < |rest| - 1 ensures Edge(g, rest[i], rest[i + 1]) {
        assert Edge(g, path[i + 1], path[i + 2]);
      }
      PathIsEntered(g, e, entered, rest);
    }
  }

  lemma FirstMembersEnterOnly(g: Graph, e: nat, members: seq<Ref>, k: nat, visit: Visitor, w: Walk)
    requires k <= |members| && w.entered == {e}
    ensures forall n :: n in WalkList(g, members[..k], visit, w).0.entered ==> n == e || FromFirst(g, members, k, n)
  {
    var inside := iset n | FromFirst(g, members, k, n);
    forall n, c | n in inside && Edge(g, n, c) ensures c in inside {
      var i :| 0 <= i < k && Reachable(g, members[i], n);
      ReachesChild(g, members[i], n, c);
    }
    forall r: Ref | r in members[..k] && r.Err? ensures r.id in inside {
      var i :| 0 <= i < k && members[i] == r;
      ReachesItself(g, r.id);
    }
    ListStaysInside(g, inside, {e}, members[..k], visit, w);
  }

  lemma FirstMembersEnterAll(g: Graph, e: nat, members: seq<Ref>, k: nat, visit: Visitor, w: Walk)
    requires k <= |members| && w.entered == {e} && Consistent(g, visit, w)
    requires var (w', found) := WalkList(g, members[..k], visit, w); !found && !w'.cut
    ensures var w' := WalkList(g, members[..k], visit, w).0;
            Consistent(g, visit, w') && e in w'.entered
            && forall n :: FromFirstAvoiding(g, members, k, e, n) ==> n in w'.entered
  {
    var w' := WalkList(g, members[..k], visit, w).0;
    ListKeepsRecord(g, members[..k], visit, w);
    forall n | FromFirstAvoiding(g, members, k, e, n) ensures n in w'.entered {
      var i, path :| 0 <= i < k && PathTo(g, path, members[i], n) && e !in path;
      assert members[..k][i] == members[i];
      PathIsEntered(g, e, w'.entered, path);
    }
  }

  /** The search goes depth first and from left to right: of an error that unwraps to several, or an
      aggregate, a first part of the visits is the error itself (unless it is an aggregate) and what
      its first `k` members lead to, for every `k`, and nothing else. A member that leads back to the
      error need not lead on from there. */
  lemma MembersInOrder(g: Graph, e: nat, members: seq<Ref>, k: nat, visit: Visitor, budget: nat) returns (p: nat)
    requires g(e).shape == Many(members) || g(e).shape == Aggregate(members)
    requires k <= |members|
    requires var (w, found) := WalkTree(g, Err(e), visit, FreshWith(budget)); !found && !w.cut
    ensures var v := WalkTree(g, Err(e), visit, FreshWith(budget)).0.visited;
            && p <= |v|
            && (e in v[..p] <==> g(e).shape.Many?)
            && (forall n :: n in v[..p] ==> n == e || FromFirst(g, members, k, n))
            && (forall n :: FromFirstAvoiding(g, members, k, e, n) && !g(n).shape.Aggregate? ==> n in v[..p])
  {
    var shown := Show(g, e, FreshWith(budget));
    var (first, found) := WalkList(g, members[..k], visit, shown);
    ListSplits(g, members, k, visit, shown);
    ListOnlyAppends(g, members[k..], visit, first);
    if first.cut {
      ListKeepsCut(g, members[k..], visit, first);
    }
    FirstMembersEnterOnly(g, e, members, k, visit, shown);
    FirstMembersEnterAll(g, e, members, k, visit, shown);
    p := |first.visited|;
  }

  // ---------------------------------------------------------------- the walker object

  /** The walker threaded through the recursive calls. `visited` is what the visitor's
      closure sees; `entered` and `cut` are only recorded. */
  class Walker {
    var seen: set<nat>
    var remaining: nat
    var visited: seq<nat>
    ghost var entered: set<nat>
    ghost var cut: bool

    ghost function State(): Walk
      reads this
    {
      Walk(seen, remaining, entered, visited, cut)
    }

    constructor ()
      ensures State() == Fresh
    {
      seen, remaining, visited, entered, cut := {}, MAX_NODES, [], {}, false;
    }

    method WalkErrorTree(g: Graph, err: Ref, visit: Visitor) returns (found: bool)
      modifies this
      ensures (State(), found) == WalkTree(g, err, visit, old(State()))
      decreases remaining, 0
    {
      if err.Nil? {
        return false;
      }
      if remaining == 0 {
        cut := true;
        return false;
      }
      remaining := remaining - 1;
      entered := entered + {err.id};
      if g(err.id).comparable {
        if err.id in seen {
          return false;
        }
        seen := seen + {err.id};
      }
      if g(err.id).shape.Aggregate? {
        found := WalkEach(g, g(err.id).shape.errs, visit);
        return;
      }
      visited := visited + [err.id];
      if visit(err.id) {
        return true;
      }
      match g(err.id).shape {
        case Many(causes) =>
          found := WalkEach(g, causes, visit);
        case One(cause) =>
          ghost var shown := State();
          found := WalkErrorTree(g, cause, visit);
          assert WalkList(g, [cause], visit, shown) == WalkTree(g, cause, visit, shown);
        case Leaf =>
          found := false;
      }
    }

    method WalkEach(g: Graph, es: seq<Ref>, visit: Visitor) returns (found: bool)
      modifies this
      ensures (State(), found) == WalkList(g, es, visit, old(State()))
      decreases remaining, 1
    {
      for i := 0 to |es|
        invariant remaining <= old(remaining)
        invariant WalkList(g, es, visit, old(State())) == WalkList(g, es[i..], visit, State())
      {
        assert es[i..][1..] == es[i + 1..];
        found := WalkErrorTree(g, es[i], visit);
        if found {
          return;
        }
      }
      return false;
    }
  }

  method WalkErrors(g: Graph, err: Ref, visit: Visitor) returns (found: bool, visited: seq<nat>)
    ensures found == WalkTree(g, err, visit, Fresh).1
    ensures visited == WalkTree(g, err, visit, Fresh).0.visited
  {
    var walker := new Walker();
    found := walker.WalkErrorTree(g, err, visit);
    visited := walker.visited;
  }
}
