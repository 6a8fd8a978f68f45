/** The depth-first search against two simpler forms of itself: the order in which an
explicit stack would enter the nodes, and a bound on how many nodes it can enter. */
module WalkOrder {
  import opened Options
  import opened ErrorGraph
  import opened ErrorWalk

  /** The stack and the known nodes after the error on top of the stack has been entered: a known
      comparable node is not expanded again. */
  function Pop(g: Graph, stack: seq<Ref>, seen: set<nat>): (seq<Ref>, set<nat>)
    requires stack != [] && stack[0].Err?
  {
    var n := stack[0].id;
    if g(n).comparable && n in seen then (stack[1..], seen)
    else (Children(g(n)) + stack[1..], if g(n).comparable then seen + {n} else seen)
  }

  /** The first `budget` entries of a depth-first traversal with an explicit stack and no visitor. */
  function Order(g: Graph, stack: seq<Ref>, seen: set<nat>, budget: nat): seq<nat>
    decreases budget, |stack|
  {
    if stack == [] || budget == 0 then []
    else if stack[0].Nil? then Order(g, stack[1..], seen, budget)
    else [stack[0].id] + Order(g, Pop(g, stack, seen).0, Pop(g, stack, seen).1, budget - 1)
  }

  /** The first entry the visitor accepts. */
  function FirstAccepted(g: Graph, visit: Visitor, order: seq<nat>): (r: Option<nat>)
    ensures r.Some? ==> r.value in order && Accepts(g, visit, r.value)
    ensures r.None? ==> forall n :: n in order ==> !Accepts(g, visit, n)
  {
    if order == [] then None
    else if Accepts(g, visit, order[0]) then Some(order[0])
    else FirstAccepted(g, visit, order[1..])
  }

  lemma {:induction false} FirstIsFirst(g: Graph, visit: Visitor, order: seq<nat>) returns (i: nat)
    requires FirstAccepted(g, visit, order).Some?
    ensures i < |order| && order[i] == FirstAccepted(g, visit, order).value
    ensures forall j :: 0 <= j < i ==> !Accepts(g, visit, order[j])
  {
    if Accepts(g, visit, order[0]) {
      i := 0;
    } else {
      var k := FirstIsFirst(g, visit, order[1..]);
      i := k + 1;
    }
  }

  function FirstFrom(g: Graph, stack: seq<Ref>, visit: Visitor, w: Walk): Option<nat> {
    FirstAccepted(g, visit, Order(g, stack, w.seen, w.remaining))
  }

  /** What a recursive call found, and what it left for the rest of the stack. */
  ghost predicate Simulates(g: Graph, es: seq<Ref>, rest: seq<Ref>, visit: Visitor, w: Walk, r: (Walk, bool)) {
    if r.1 then r.0.visited != [] && FirstFrom(g, es + rest, visit, w) == Some(r.0.visited[|r.0.visited| - 1])
    else FirstFrom(g, es + rest, visit, w) == FirstFrom(g, rest, visit, r.0)
  }

  lemma FirstAcceptedPops(g: Graph, visit: Visitor, n: nat, order: seq<nat>)
    ensures FirstAccepted(g, visit, [n] + order) == if Accepts(g, visit, n) then Some(n) else FirstAccepted(g, visit, order)
  {
    assert ([n] + order)[1..] == order;
  }

  /** What popping one non-nil error does to the scan, when it is known and when it is new. */
  lemma ScanPopsKnown(g: Graph, n: nat, rest: seq<Ref>, visit: Visitor, w: Walk)
    requires w.remaining > 0 && Known(g, n, w) && !Accepts(g, visit, n)
    ensures FirstFrom(g, [Err(n)] + rest, visit, w) == FirstFrom(g, rest, visit, Charge(n, w))
  {
    assert ([Err(n)] + rest)[1..] == rest;
    FirstAcceptedPops(g, visit, n, Order(g, rest, w.seen, w.remaining - 1));
  }

  lemma ScanPopsNew(g: Graph, n: nat, rest: seq<Ref>, visit: Visitor, w: Walk)
    requires w.remaining > 0 && !Known(g, n, w)
    ensures FirstFrom(g, [Err(n)] + rest, visit, w) ==
            if Accepts(g, visit, n) then Some(n) else FirstFrom(g, Children(g(n)) + rest, visit, Show(g, n, w))
  {
    assert ([Err(n)] + rest)[1..] == rest;
    FirstAcceptedPops(g, visit, n, Order(g, Children(g(n)) + rest, Show(g, n, w).seen, w.remaining - 1));
  }

  lemma {:induction false} TreeSimulates(g: Graph, e: Ref, rest: seq<Ref>, visit: Visitor, w: Walk)
    requires Consistent(g, visit, w)
    ensures Simulates(g, [e], rest, visit, w, WalkTree(g, e, visit, w))
    decreases w.remaining, 0
  {
    assert ([e] + rest)[1..] == rest;
    if e.Err? && w.remaining > 0 {
      if Known(g, e.id, w) {
        ScanPopsKnown(g, e.id, rest, visit, w);
      } else {
        ScanPopsNew(g, e.id, rest, visit, w);
        if !Accepts(g, visit, e.id) {
          ListSimulates(g, Children(g(e.id)), rest, visit, Show(g, e.id, w));
        }
      }
    }
  }

  lemma {:induction false} ListSimulates(g: Graph, es: seq<Ref>, rest: seq<Ref>, visit: Visitor, w: Walk)
    requires Consistent(g, visit, w)
    ensures Simulates(g, es, rest, visit, w, WalkList(g, es, visit, w))
    decreases w.remaining, 1 + |es|
  {
    if es == [] {
      assert es + rest == rest;
    } else {
      assert es + rest == [es[0]] + (es[1..] + rest);
      TreeSimulates(g, es[0], es[1..] + rest, visit, w);
      TreeKeepsRecord(g, es[0], visit, w);
      var (w', found) := WalkTree(g, es[0], visit, w);
      if !found {
        ListSimulates(g, es[1..], rest, visit, w');
      }
    }
  }

  /** The recursive, visiting search returns what scanning the stack order returns: it answers
      true exactly when one of the first `budget` entries is acceptable, and stops at the first. */
  lemma SearchScansOrder(g: Graph, e: Ref, visit: Visitor, budget: nat)
    ensures var (w, found) := WalkTree(g, e, visit, FreshWith(budget));
            var first := FirstAccepted(g, visit, Order(g, [e], {}, budget));
            && found == first.Some?
            && (found ==> w.visited != [] && first.value == w.visited[|w.visited| - 1])
  {
    TreeSimulates(g, e, [], visit, FreshWith(budget));
    assert [e] + [] == [e];
  }

  /** Nodes that unwrap and compare alike, whatever contracts they carry. */
  predicate SameForm(a: Node, b: Node) {
    a.shape == b.shape && a.comparable == b.comparable
  }

  /** The order depends on nothing but the form of the entries it holds. */
  lemma {:induction false} OrderAgrees(g: Graph, h: Graph, stack: seq<Ref>, seen: set<nat>, budget: nat)
    requires forall n :: n in Order(g, stack, seen, budget) ==> SameForm(g(n), h(n))
    ensures Order(g, stack, seen, budget) == Order(h, stack, seen, budget)
    decreases budget, |stack|
  {
    if stack != [] && budget > 0 {
      if stack[0].Nil? {
        OrderAgrees(g, h, stack[1..], seen, budget);
      } else {
        var (stack', seen') := Pop(g, stack, seen);
        assert Order(g, stack, seen, budget) == [stack[0].id] + Order(g, stack', seen', budget - 1);
        assert stack[0].id in Order(g, stack, seen, budget);
        OrderAgrees(g, h, stack', seen', budget - 1);
      }
    }
  }

  lemma {:induction false} OrderGrows(g: Graph, stack: seq<Ref>, seen: set<nat>, budget: nat, more: nat)
    ensures Order(g, stack, seen, budget) <= Order(g, stack, seen, budget + more)
    decreases budget, |stack|
  {
    if stack != [] && budget > 0 {
      if stack[0].Nil? {
        OrderGrows(g, stack[1..], seen, budget, more);
      } else {
        var (stack', seen') := Pop(g, stack, seen);
        OrderGrows(g, stack', seen', budget - 1, more);
      }
    }
  }

  lemma {:induction false} FirstAcceptedInPrefix(g: Graph, visit: Visitor, a: seq<nat>, b: seq<nat>)
    requires a <= b
    requires FirstAccepted(g, visit, a).Some?
    ensures FirstAccepted(g, visit, b) == FirstAccepted(g, visit, a)
  {
    assert a[0] == b[0];
    if !Accepts(g, visit, a[0]) {
      FirstAcceptedInPrefix(g, visit, a[1..], b[1..]);
    }
  }

  lemma OrderAnswerGrows(g: Graph, e: Ref, visit: Visitor, budget: nat, more: nat)
    requires FirstAccepted(g, visit, Order(g, [e], {}, budget)).Some?
    ensures FirstAccepted(g, visit, Order(g, [e], {}, budget + more)) == FirstAccepted(g, visit, Order(g, [e], {}, budget))
  {
    OrderGrows(g, [e], {}, budget, more);
    FirstAcceptedInPrefix(g, visit, Order(g, [e], {}, budget), Order(g, [e], {}, budget + more));
  }

  /** The error a search stops at, if it answers true. */
  ghost function StopsAt(g: Graph, e: Ref, visit: Visitor, budget: nat): Option<nat> {
    var (w, found) := WalkTree(g, e, visit, FreshWith(budget));
    if found && w.visited != [] then Some(w.visited[|w.visited| - 1]) else None
  }

  /** A search answers true exactly if it stops somewhere, and then at the first acceptable entry. */
  lemma StopsAtFirst(g: Graph, e: Ref, visit: Visitor, budget: nat)
    ensures StopsAt(g, e, visit, budget) == FirstAccepted(g, visit, Order(g, [e], {}, budget))
    ensures StopsAt(g, e, visit, budget).Some? <==> WalkTree(g, e, visit, FreshWith(budget)).1
  {
    SearchScansOrder(g, e, visit, budget);
  }

  /** Raising the budget never changes an answer of true, nor the error it stopped at. */
  lemma LargerBudgetAgrees(g: Graph, e: Ref, visit: Visitor, budget: nat, more: nat)
    requires StopsAt(g, e, visit, budget).Some?
    ensures StopsAt(g, e, visit, budget + more) == StopsAt(g, e, visit, budget)
  {
    var first := FirstAccepted(g, visit, Order(g, [e], {}, budget));
    assert first == StopsAt(g, e, visit, budget) by {
      StopsAtFirst(g, e, visit, budget);
    }
    assert first == StopsAt(g, e, visit, budget + more) by {
      OrderAnswerGrows(g, e, visit, budget, more);
      StopsAtFirst(g, e, visit, budget + more);
    }
  }

  // ---------------------------------------------------------------- exactness

  ghost predicate SomeReachableAccepted(g: Graph, e: Ref, visit: Visitor) {
    exists n :: Reachable(g, e, n) && Accepts(g, visit, n)
  }

  ghost predicate DecidesReachability(g: Graph, e: Ref, visit: Visitor, budget: nat) {
    WalkTree(g, e, visit, FreshWith(budget)).1 == SomeReachableAccepted(g, e, visit)
  }

  /** Every error worth showing is among the first `budget` entries of the stack order. */
  ghost predicate OrderCovers(g: Graph, e: Ref, budget: nat) {
    forall n :: Reachable(g, e, n) && !IsAggregate(g, n) ==> n in Order(g, [e], {}, budget)
  }

  lemma CoveredIsDecided(g: Graph, e: Ref, visit: Visitor, budget: nat)
    requires OrderCovers(g, e, budget)
    ensures DecidesReachability(g, e, visit, budget)
  {
    SearchScansOrder(g, e, visit, budget);
    if WalkTree(g, e, visit, FreshWith(budget)).1 {
      SearchIsSound(g, e, visit, budget);
    }
  }

  lemma DecidedIsCovered(g: Graph, e: Ref, budget: nat, m: nat)
    requires forall visit: Visitor :: DecidesReachability(g, e, visit, budget)
    requires Reachable(g, e, m) && !IsAggregate(g, m)
    ensures m in Order(g, [e], {}, budget)
  {
    var visit: Visitor := (n: nat) => n == m;
    assert DecidesReachability(g, e, visit, budget);
    assert Accepts(g, visit, m);
    SearchScansOrder(g, e, visit, budget);
  }

  /** The search decides reachability, for every visitor, exactly when the first `budget` entries
      of the stack order hold every reachable non-aggregate error. */
  lemma SearchIsExactIff(g: Graph, e: Ref, budget: nat)
    ensures (forall visit: Visitor :: DecidesReachability(g, e, visit, budget)) <==> OrderCovers(g, e, budget)
  {
    if OrderCovers(g, e, budget) {
      forall visit: Visitor ensures DecidesReachability(g, e, visit, budget) {
        CoveredIsDecided(g, e, visit, budget);
      }
    }
    if forall visit: Visitor :: DecidesReachability(g, e, visit, budget) {
      forall m | Reachable(g, e, m) && !IsAggregate(g, m) ensures m in Order(g, [e], {}, budget) {
        DecidedIsCovered(g, e, budget, m);
      }
    }
  }

  /** A chain one longer than the budget hides its last error from the search. */
  function Chain(length: nat, tip: Option<Spec>): Graph {
    (n: nat) => if n < length then Node(One(Err(n + 1)), true, None) else Node(Leaf, true, tip)
  }

  ghost predicate AllBelow(order: seq<nat>, bound: nat) {
    forall n :: n in order ==> n < bound
  }

  lemma {:induction false} ChainOrder(length: nat, tip: Option<Spec>, from: nat, seen: set<nat>)
    requires from <= length
    requires forall n :: n in seen ==> n < from
    ensures AllBelow(Order(Chain(length, tip), [Err(from)], seen, length - from), length)
    decreases length - from
  {
    if from < length {
      var g := Chain(length, tip);
      assert Children(g(from)) + [Err(from)][1..] == [Err(from + 1)];
      ChainOrder(length, tip, from + 1, seen + {from});
    }
  }

  lemma {:induction false} ChainReaches(length: nat, tip: Option<Spec>, from: nat)
    requires from <= length
    ensures Reachable(Chain(length, tip), Err(0), from)
  {
    if from == 0 {
      ReachesItself(Chain(length, tip), 0);
    } else {
      ChainReaches(length, tip, from - 1);
      ReachesChild(Chain(length, tip), Err(0), from - 1, from);
    }
  }

  lemma {:induction false} ChainOrderEnds(length: nat, tip: Option<Spec>, from: nat, seen: set<nat>, budget: nat)
    requires from <= length < from + budget
    requires forall n :: n in seen ==> n < from
    ensures length in Order(Chain(length, tip), [Err(from)], seen, budget)
    decreases length - from
  {
    if from < length {
      var g := Chain(length, tip);
      assert Children(g(from)) + [Err(from)][1..] == [Err(from + 1)];
      ChainOrderEnds(length, tip, from + 1, seen + {from}, budget - 1);
    }
  }

  lemma NotInOrderIsNotFound(g: Graph, e: Ref, visit: Visitor, budget: nat)
    requires forall n :: n in Order(g, [e], {}, budget) ==> !Accepts(g, visit, n)
    ensures !WalkTree(g, e, visit, FreshWith(budget)).1
  {
    SearchScansOrder(g, e, visit, budget);
  }

  /** The last error of a chain is found exactly when it is not wrapped as often as the budget. */
  lemma ChainTipIsFoundIff(length: nat, tip: Option<Spec>, visit: Visitor, budget: nat)
    requires visit(length) && forall n: nat :: n < length ==> !visit(n)
    ensures WalkTree(Chain(length, tip), Err(0), visit, FreshWith(budget)).1 <==> length < budget
  {
    var g := Chain(length, tip);
    var order := Order(g, [Err(0)], {}, budget);
    if length < budget {
      ChainOrderEnds(length, tip, 0, {}, budget);
      assert Accepts(g, visit, length);
      SearchScansOrder(g, Err(0), visit, budget);
    } else {
      ChainOrder(length, tip, 0, {});
      OrderGrows(g, [Err(0)], {}, budget, length - budget);
      forall m | m in order ensures !Accepts(g, visit, m) {
        assert m in Order(g, [Err(0)], {}, length);
      }
      NotInOrderIsNotFound(g, Err(0), visit, budget);
    }
  }

  /** So no budget makes the search exact on every error: wrap an acceptable one that often. */
  lemma DeepChainIsMissed(tip: Option<Spec>, visit: Visitor, budget: nat)
    requires visit(budget) && forall n: nat :: n < budget ==> !visit(n)
    ensures SomeReachableAccepted(Chain(budget, tip), Err(0), visit)
    ensures !WalkTree(Chain(budget, tip), Err(0), visit, FreshWith(budget)).1
  {
    ChainTipIsFoundIff(budget, tip, visit, budget);
    ChainReaches(budget, tip, budget);
    assert Accepts(Chain(budget, tip), visit, budget);
  }

  // ---------------------------------------------------------------- a budget that is enough

  type Weight = nat -> nat

  /** The total weight of the non-nil members of a child list. */
  function Total(weight: Weight, es: seq<Ref>): nat {
    if es == [] then 0
    else (if es[0].Err? then weight(es[0].id) else 0) + Total(weight, es[1..])
  }

  /** A comparable node weighs one, because it is expanded once at most; any other node weighs
      as much as its whole unfolding down to comparable nodes. */
  ghost predicate Weighs(g: Graph, nodes: set<nat>, weight: Weight) {
    forall n :: n in nodes ==>
      weight(n) == if g(n).comparable then 1 else 1 + Total(weight, Children(g(n)))
  }

  /** The weight that expanding each node of a set once would add. */
  ghost function Expansion(g: Graph, weight: Weight, nodes: set<nat>): nat {
    if nodes == {} then 0
    else var n :| n in nodes; Total(weight, Children(g(n))) + Expansion(g, weight, nodes - {n})
  }

  lemma {:induction false} ExpansionTakes(g: Graph, weight: Weight, nodes: set<nat>, n: nat)
    requires n in nodes
    ensures Expansion(g, weight, nodes) == Total(weight, Children(g(n))) + Expansion(g, weight, nodes - {n})
    decreases nodes
  {
    var m :| m in nodes && Expansion(g, weight, nodes) == Total(weight, Children(g(m))) + Expansion(g, weight, nodes - {m});
    if m != n {
      ExpansionTakes(g, weight, nodes - {m}, n);
      ExpansionTakes(g, weight, nodes - {n}, m);
      assert nodes - {m} - {n} == nodes - {n} - {m};
    }
  }

  lemma {:induction false} ExpansionMonotone(g: Graph, weight: Weight, small: set<nat>, large: set<nat>)
    requires small <= large
    ensures Expansion(g, weight, small) <= Expansion(g, weight, large)
    decreases large
  {
    if small != {} {
      var n :| n in small;
      ExpansionTakes(g, weight, small, n);
      ExpansionTakes(g, weight, large, n);
      ExpansionMonotone(g, weight, small - {n}, large - {n});
    }
  }

  /** How much of the budget a call used, counting the first drop as one more. */
  ghost function Used(w: Walk, w': Walk): int {
    w.remaining - w'.remaining + (if w'.cut && !w.cut then 1 else 0)
  }

  ghost predicate Affordable(g: Graph, nodes: set<nat>, weight: Weight, w: Walk, w': Walk, price: nat) {
    && w.seen <= w'.seen <= nodes
    && (forall n :: n in w'.seen ==> g(n).comparable)
    && (w.cut ==> w'.cut)
    && Used(w, w') + Expansion(g, weight, w.seen) <= price + Expansion(g, weight, w'.seen)
  }

  lemma {:induction false} TreeIsAffordable(g: Graph, nodes: set<nat>, weight: Weight, e: Ref, visit: Visitor, w: Walk)
    requires Closed(g, nodes) && Weighs(g, nodes, weight)
    requires w.seen <= nodes && forall n :: n in w.seen ==> g(n).comparable
    requires HoldsAll(nodes, [e])
    ensures Affordable(g, nodes, weight, w, WalkTree(g, e, visit, w).0, Total(weight, [e]))
    decreases w.remaining, 0
  {
    assert e in [e];
    assert Total(weight, [e]) == if e.Err? then weight(e.id) else 0;
    if e.Err? && w.remaining > 0 && !Known(g, e.id, w) {
      var w' := Show(g, e.id, w);
      if g(e.id).comparable {
        assert w'.seen - {e.id} == w.seen;
        ExpansionTakes(g, weight, w'.seen, e.id);
      }
      if !Accepts(g, visit, e.id) {
        ChildrenAreEdges(g, e.id);
        ListIsAffordable(g, nodes, weight, Children(g(e.id)), visit, w');
      }
    }
  }

  lemma {:induction false} ListIsAffordable(g: Graph, nodes: set<nat>, weight: Weight, es: seq<Ref>, visit: Visitor, w: Walk)
    requires Closed(g, nodes) && Weighs(g, nodes, weight)
    requires w.seen <= nodes && forall n :: n in w.seen ==> g(n).comparable
    requires HoldsAll(nodes, es)
    ensures Affordable(g, nodes, weight, w, WalkList(g, es, visit, w).0, Total(weight, es))
    decreases w.remaining, 1 + |es|
  {
    if es != [] {
      assert es[0] in es;
      assert Total(weight, [es[0]]) == if es[0].Err? then weight(es[0].id) else 0;
      TreeIsAffordable(g, nodes, weight, es[0], visit, w);
      var (w', found) := WalkTree(g, es[0], visit, w);
      if !found {
        ListIsAffordable(g, nodes, weight, es[1..], visit, w');
      }
    }
  }

  /** If the weight of the error plus one expansion of every comparable node of a finite closed
      set fits the budget, nothing is dropped and the search decides reachability exactly. */
  lemma SearchIsExactWithin(g: Graph, nodes: set<nat>, weight: Weight, e: nat, visit: Visitor, budget: nat)
    requires Closed(g, nodes) && Weighs(g, nodes, weight) && e in nodes
    requires weight(e) + Expansion(g, weight, set n | n in nodes && g(n).comparable) <= budget
    ensures WalkTree(g, Err(e), visit, FreshWith(budget)).1 == SomeReachableAccepted(g, Err(e), visit)
    ensures !WalkTree(g, Err(e), visit, FreshWith(budget)).0.cut
  {
    var w0 := FreshWith(budget);
    var (w, found) := WalkTree(g, Err(e), visit, w0);
    TreeIsAffordable(g, nodes, weight, Err(e), visit, w0);
    assert Total(weight, [Err(e)]) == weight(e);
    ExpansionMonotone(g, weight, w.seen, set n | n in nodes && g(n).comparable);
    TreeCutsOnlyWhenSpent(g, Err(e), visit, w0);
    if found {
      SearchIsSound(g, Err(e), visit, budget);
    } else {
      SearchIsComplete(g, Err(e), visit, budget);
    }
  }

  // ---------------------------------------------------------------- the least budget that is enough

  /** The finite set of everything that can be reached. */
  ghost predicate Spans(g: Graph, e: nat, nodes: set<nat>) {
    forall n :: n in nodes <==> Reachable(g, Err(e), n)
  }

  ghost predicate RejectsAll(g: Graph, nodes: set<nat>, visit: Visitor) {
    forall n :: n in nodes ==> !Accepts(g, visit, n)
  }

  /** A rejecting walk that drops nothing pays the whole price. */
  ghost predicate PaidInFull(g: Graph, weight: Weight, w: Walk, w': Walk, price: nat) {
    w.remaining - w'.remaining + Expansion(g, weight, w.seen) == price + Expansion(g, weight, w'.seen)
  }

  lemma {:induction false} TreePaysInFull(g: Graph, nodes: set<nat>, weight: Weight, e: Ref, visit: Visitor, w: Walk)
    requires Closed(g, nodes) && Weighs(g, nodes, weight) && HoldsAll(nodes, [e]) && RejectsAll(g, nodes, visit)
    requires forall n :: n in w.seen ==> g(n).comparable
    ensures var (w', found) := WalkTree(g, e, visit, w);
            && !found
            && (w.cut ==> w'.cut)
            && (forall n :: n in w'.seen ==> g(n).comparable)
            && (!w'.cut ==> PaidInFull(g, weight, w, w', Total(weight, [e])))
    decreases w.remaining, 0
  {
    assert e in [e];
    assert Total(weight, [e]) == if e.Err? then weight(e.id) else 0;
    if e.Err? && w.remaining > 0 && !Known(g, e.id, w) {
      var w' := Show(g, e.id, w);
      if g(e.id).comparable {
        assert w'.seen - {e.id} == w.seen;
        ExpansionTakes(g, weight, w'.seen, e.id);
      }
      ChildrenAreEdges(g, e.id);
      ListPaysInFull(g, nodes, weight, Children(g(e.id)), visit, w');
    }
  }

  lemma {:induction false} ListPaysInFull(g: Graph, nodes: set<nat>, weight: Weight, es: seq<Ref>, visit: Visitor, w: Walk)
    requires Closed(g, nodes) && Weighs(g, nodes, weight) && HoldsAll(nodes, es) && RejectsAll(g, nodes, visit)
    requires forall n :: n in w.seen ==> g(n).comparable
    ensures var (w', found) := WalkList(g, es, visit, w);
            && !found
            && (w.cut ==> w'.cut)
            && (forall n :: n in w'.seen ==> g(n).comparable)
            && (!w'.cut ==> PaidInFull(g, weight, w, w', Total(weight, es)))
    decreases w.remaining, 1 + |es|
  {
    if es != [] {
      assert es[0] in es;
      assert Total(weight, [es[0]]) == if es[0].Err? then weight(es[0].id) else 0;
      TreePaysInFull(g, nodes, weight, es[0], visit, w);
      ListPaysInFull(g, nodes, weight, es[1..], visit, WalkTree(g, es[0], visit, w).0);
    }
  }

  /** The bound is exact: a search that has to look at everything drops nothing if and only if the
      weight of the error plus one expansion of every comparable reachable node fits the budget,
      and then it uses exactly that much. */
  lemma DropsNothingIff(g: Graph, nodes: set<nat>, weight: Weight, e: nat, visit: Visitor, budget: nat)
    requires Spans(g, e, nodes)
    requires Weighs(g, nodes, weight) && RejectsAll(g, nodes, visit)
    ensures var w := WalkTree(g, Err(e), visit, FreshWith(budget)).0;
            var price := weight(e) + Expansion(g, weight, set n | n in nodes && g(n).comparable);
            && (!w.cut <==> price <= budget)
            && (!w.cut ==> w.remaining == budget - price)
  {
    var w0 := FreshWith(budget);
    var w := WalkTree(g, Err(e), visit, w0).0;
    ReachesItself(g, e);
    assert Closed(g, nodes) by {
      forall n, c | n in nodes && Edge(g, n, c) ensures c in nodes { ReachesChild(g, Err(e), n, c); }
    }
    var comparable := set n | n in nodes && g(n).comparable;
    if weight(e) + Expansion(g, weight, comparable) <= budget {
      SearchIsExactWithin(g, nodes, weight, e, visit, budget);
    }
    TreePaysInFull(g, nodes, weight, Err(e), visit, w0);
    if !w.cut {
      EnteredAreReachable(g, e, visit, budget);
      assert w.seen == comparable;
      assert Total(weight, [Err(e)]) == weight(e);
    }
  }

  lemma EnteredAreReachable(g: Graph, e: nat, visit: Visitor, budget: nat)
    requires var (w, found) := WalkTree(g, Err(e), visit, FreshWith(budget)); !found && !w.cut
    ensures var w := WalkTree(g, Err(e), visit, FreshWith(budget)).0;
            && Consistent(g, visit, w)
            && forall n :: n in w.entered <==> Reachable(g, Err(e), n)
  {
    var w0 := FreshWith(budget);
    var w := WalkTree(g, Err(e), visit, w0).0;
    TreeKeepsRecord(g, Err(e), visit, w0);
    assert Err(e) in [Err(e)];
    assert Closed(g, w.entered);
    WalkEntersReachable(g, Err(e), visit, budget);
    forall n | Reachable(g, Err(e), n) ensures n in w.entered {
      ClosedHoldsReachable(g, w.entered, Err(e), n);
    }
  }

  // ---------------------------------------------------------------- when no budget is enough

  /** A non-comparable node that unwraps to some node of the set. */
  ghost predicate GoesOn(g: Graph, n: nat, loop: set<nat>) {
    !g(n).comparable && exists c :: c in loop && Edge(g, n, c)
  }

  /** Non-comparable nodes that can be unwrapped within the set forever: a cycle of them, or several. */
  ghost predicate Endless(g: Graph, loop: set<nat>) {
    loop != {} && forall n {:trigger GoesOn(g, n, loop)} :: n in loop ==> GoesOn(g, n, loop)
  }

  ghost predicate EndsEverywhere(g: Graph, nodes: set<nat>) {
    forall loop :: loop <= nodes ==> !Endless(g, loop)
  }

  lemma {:induction false} LoopIsCut(g: Graph, loop: set<nat>, n: nat, visit: Visitor, w: Walk)
    requires Endless(g, loop) && n in loop
    ensures var (w', found) := WalkTree(g, Err(n), visit, w); found || w'.cut
    decreases w.remaining, 0
  {
    assert GoesOn(g, n, loop);
    if w.remaining > 0 && !Accepts(g, visit, n) {
      var c :| c in loop && Edge(g, n, c);
      ChildrenAreEdges(g, n);
      LoopIsCutInList(g, loop, c, Children(g(n)), visit, Show(g, n, w));
    }
  }

  lemma {:induction false} LoopIsCutInList(g: Graph, loop: set<nat>, c: nat, es: seq<Ref>, visit: Visitor, w: Walk)
    requires Endless(g, loop) && c in loop && Err(c) in es
    ensures var (w', found) := WalkList(g, es, visit, w); found || w'.cut
    decreases w.remaining, 1 + |es|
  {
    var (w', found) := WalkTree(g, es[0], visit, w);
    if !found {
      if es[0] == Err(c) {
        LoopIsCut(g, loop, c, visit, w);
        ListKeepsCut(g, es[1..], visit, w');
      } else {
        LoopIsCutInList(g, loop, c, es[1..], visit, w');
      }
    }
  }

  /** A walk that has entered such a set and goes on has been cut. */
  ghost predicate CutIfInside(loop: set<nat>, w: Walk) {
    w.entered !! loop || w.cut
  }

  lemma {:induction false} TreeIsCutInside(g: Graph, loop: set<nat>, e: Ref, visit: Visitor, w: Walk)
    requires Endless(g, loop) && CutIfInside(loop, w)
    ensures var (w', found) := WalkTree(g, e, visit, w); found || CutIfInside(loop, w')
    decreases w.remaining, 0
  {
    if e.Err? && w.remaining > 0 {
      if e.id in loop {
        LoopIsCut(g, loop, e.id, visit, w);
      } else if !Known(g, e.id, w) && !Accepts(g, visit, e.id) {
        ListIsCutInside(g, loop, Children(g(e.id)), visit, Show(g, e.id, w));
      }
    }
  }

  lemma {:induction false} ListIsCutInside(g: Graph, loop: set<nat>, es: seq<Ref>, visit: Visitor, w: Walk)
    requires Endless(g, loop) && CutIfInside(loop, w)
    ensures var (w', found) := WalkList(g, es, visit, w); found || CutIfInside(loop, w')
    decreases w.remaining, 1 + |es|
  {
    if es != [] {
      TreeIsCutInside(g, loop, es[0], visit, w);
      var (w', found) := WalkTree(g, es[0], visit, w);
      if !found {
        ListIsCutInside(g, loop, es[1..], visit, w');
      }
    }
  }

  /** Where a cycle of non-comparable errors can be reached, an answer of false always comes from a
      search that dropped something, whatever the budget and the visitor. */
  lemma LoopIsNeverExhausted(g: Graph, e: nat, loop: set<nat>, n: nat, visit: Visitor, budget: nat)
    requires Endless(g, loop) && n in loop && Reachable(g, Err(e), n)
    ensures var (w, found) := WalkTree(g, Err(e), visit, FreshWith(budget)); found || w.cut
  {
    var w0 := FreshWith(budget);
    var (w, found) := WalkTree(g, Err(e), visit, w0);
    TreeIsCutInside(g, loop, Err(e), visit, w0);
    if !found && !w.cut {
      TreeKeepsRecord(g, Err(e), visit, w0);
      assert Err(e) in [Err(e)];
      assert Closed(g, w.entered);
      ClosedHoldsReachable(g, w.entered, Err(e), n);
    }
  }

  lemma {:induction false} TotalIgnores(weight: Weight, weight': Weight, es: seq<Ref>)
    requires forall e :: e in es && e.Err? ==> weight(e.id) == weight'(e.id)
    ensures Total(weight, es) == Total(weight', es)
  {
    if es != [] {
      assert es[0] in es;
      TotalIgnores(weight, weight', es[1..]);
    }
  }

  /** The nodes outside `todo` have their weights, which depend on no node of `todo`. */
  ghost predicate WeighsExcept(g: Graph, nodes: set<nat>, todo: set<nat>, weight: Weight) {
    && Weighs(g, nodes - todo, weight)
    && (forall n :: n in todo ==> n in nodes && !g(n).comparable)
    && forall n, c :: n in nodes - todo && !g(n).comparable && Edge(g, n, c) ==> c !in todo
  }

  lemma WeighOne(g: Graph, nodes: set<nat>, todo: set<nat>, weight: Weight, n: nat) returns (weight': Weight)
    requires WeighsExcept(g, nodes, todo, weight)
    requires n in todo && forall c :: c in todo ==> !Edge(g, n, c)
    ensures WeighsExcept(g, nodes, todo - {n}, weight')
  {
    weight' := (m: nat) => if m == n then 1 + Total(weight, Children(g(n))) else weight(m);
    forall m | m in nodes - (todo - {n}) && !g(m).comparable
      ensures Total(weight, Children(g(m))) == Total(weight', Children(g(m)))
    {
      assert !Edge(g, m, n);
      ChildrenAreEdges(g, m);
      TotalIgnores(weight, weight', Children(g(m)));
    }
  }

  lemma {:induction false} WeighRest(g: Graph, nodes: set<nat>, todo: set<nat>, weight: Weight) returns (weight': Weight)
    requires WeighsExcept(g, nodes, todo, weight)
    requires EndsEverywhere(g, nodes)
    ensures Weighs(g, nodes, weight')
    decreases todo
  {
    if todo == {} {
      weight' := weight;
      assert nodes - todo == nodes;
    } else {
      assert !Endless(g, todo);
      var n :| n in todo && !GoesOn(g, n, todo);
      weight' := WeighOne(g, nodes, todo, weight, n);
      weight' := WeighRest(g, nodes, todo - {n}, weight');
    }
  }

  ghost predicate FitsSomeBudget(g: Graph, e: nat, visit: Visitor) {
    exists budget :: !WalkTree(g, Err(e), visit, FreshWith(budget)).0.cut
  }

  lemma FiniteFits(g: Graph, e: nat, nodes: set<nat>, visit: Visitor)
    requires Spans(g, e, nodes) && EndsEverywhere(g, nodes)
    requires !SomeReachableAccepted(g, Err(e), visit)
    ensures FitsSomeBudget(g, e, visit)
  {
    var todo := set n | n in nodes && !g(n).comparable;
    var weight := WeighRest(g, nodes, todo, _ => 1);
    var price := weight(e) + Expansion(g, weight, set n | n in nodes && g(n).comparable);
    DropsNothingIff(g, nodes, weight, e, visit, price);
  }

  /** A search that has to look at everything can do so within some budget if and only if what it can
      reach is finite and holds no cycle of non-comparable errors; DropsNothingIff gives the least. */
  lemma SomeBudgetIsEnoughIff(g: Graph, e: nat, visit: Visitor)
    requires !SomeReachableAccepted(g, Err(e), visit)
    ensures FitsSomeBudget(g, e, visit) <==>
            exists nodes :: Spans(g, e, nodes) && EndsEverywhere(g, nodes)
  {
    if nodes :| Spans(g, e, nodes) && EndsEverywhere(g, nodes) {
      FiniteFits(g, e, nodes, visit);
    }
    if budget :| !WalkTree(g, Err(e), visit, FreshWith(budget)).0.cut {
      var (w, found) := WalkTree(g, Err(e), visit, FreshWith(budget));
      if found {
        SearchIsSound(g, Err(e), visit, budget);
      }
      EnteredAreReachable(g, e, visit, budget);
      assert Spans(g, e, w.entered);
      forall loop | loop <= w.entered ensures !Endless(g, loop) {
        if Endless(g, loop) {
          var n :| n in loop;
          LoopIsNeverExhausted(g, e, loop, n, visit, budget);
        }
      }
    }
  }
}
