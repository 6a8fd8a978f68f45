/** Coded errors (pkg/errors/spec.go) and the lookups that read them back (pkg/errors/code.go),
over the current registry. The diagnostic text is not modelled; the public contract is. */
module CodedErrors {
  import opened Options
  import opened ErrorGraph
  import opened ErrorWalk
  import opened WalkOrder
  import opened CodeRegistry

  // ---------------------------------------------------------------- constructors

  function RegisteredSpec(codes: Codes, code: int): Option<Spec> {
    if code in codes then Some(codes[code].Contract()) else None
  }

  function SpecForCode(codes: Codes, code: int): Spec {
    (if code in codes then codes[code] else UnknownCoder).Contract()
  }

  function CatalogSpec(codes: Codes, spec: Spec): Spec {
    match RegisteredSpec(codes, spec.code)
    case Some(registered) => registered
    case None => SpecForCode(codes, UnknownCoder.Code())
  }

  function SafeSpec(codes: Codes, spec: Spec): Spec {
    if ValidSpec(spec) then spec else SpecForCode(codes, UnknownCoder.Code())
  }

  /** A `*withSpec`: a pointer, so comparable, that unwraps to its cause. */
  function WithSpec(spec: Spec, cause: Ref): Node {
    Node(One(cause), true, Some(spec))
  }

  function NewSpec(codes: Codes, spec: Spec): Node {
    WithSpec(CatalogSpec(codes, spec), Nil)
  }

  function NewCode(codes: Codes, code: int): Node {
    match RegisteredSpec(codes, code)
    case Some(registered) => NewSpec(codes, registered)
    case None => NewSpec(codes, SpecForCode(codes, UnknownCoder.Code()))
  }

  function NewPublicSpec(codes: Codes, spec: Spec): Node {
    var registered := RegisteredSpec(codes, spec.code);
    if registered.None? || spec.kind != registered.value.kind || spec.message == "" then
      NewCode(codes, UnknownCoder.Code())
    else
      WithSpec(SafeSpec(codes, spec.(reference := registered.value.reference)), Nil)
  }

  function WrapSpec(codes: Codes, err: Ref, spec: Spec): Option<Node> {
    if err.Nil? then None else Some(WithSpec(CatalogSpec(codes, spec), err))
  }

  function WrapCode(codes: Codes, err: Ref, code: int): Option<Node> {
    match RegisteredSpec(codes, code)
    case Some(registered) => WrapSpec(codes, err, registered)
    case None => WrapSpec(codes, err, SpecForCode(codes, UnknownCoder.Code()))
  }

  /** The public contract of a code: the registered one, or that of internal errors. */
  ghost function Published(codes: Codes, code: int): Spec {
    if code in codes then Spec(codes[code].Code(), codes[code].Kind(), codes[code].Text(), codes[code].Reference())
    else Spec(1, "internal", "An internal server error occurred", "http://goshop/pkg/errors/README.md")
  }

  /** Whatever the caller passes, the error carries the registered contract of the code, whole, or
      the internal one when the code is not registered: a call site can neither expose its own
      number nor define a second contract. Wrapping nil gives nil and otherwise keeps the cause. */
  lemma ConstructorsCarryRegistered(codes: Codes, code: int, spec: Spec, err: Ref)
    requires WellFormed(codes)
    ensures NewCode(codes, code) == Node(One(Nil), true, Some(Published(codes, code)))
    ensures NewSpec(codes, spec) == Node(One(Nil), true, Some(Published(codes, spec.code)))
    ensures WrapCode(codes, err, code) ==
            if err.Nil? then None else Some(Node(One(err), true, Some(Published(codes, code))))
    ensures WrapSpec(codes, err, spec) ==
            if err.Nil? then None else Some(Node(One(err), true, Some(Published(codes, spec.code))))
  {
  }

  /** A wrapped error leads to itself and to exactly what its cause leads to. */
  lemma WrappingKeepsCause(g: Graph, codes: Codes, w: nat, err: Ref, code: int, n: nat)
    requires err.Err? && WrapCode(codes, err, code) == Some(g(w))
    ensures Reachable(g, Err(w), n) <==> n == w || Reachable(g, err, n)
  {
    ReachesItself(g, w);
    if Reachable(g, err, n) {
      var path :| PathTo(g, path, err, n);
      assert PathTo(g, [w] + path, Err(w), n) by {
        forall i | 0 <= i < |path| ensures Edge(g, ([w] + path)[i], ([w] + path)[i + 1]) {
          assert i > 0 ==> Edge(g, path[i - 1], path[i]);
        }
      }
    }
    if Reachable(g, Err(w), n) && n != w {
      var path :| PathTo(g, path, Err(w), n);
      assert Edge(g, path[0], path[1]);
      forall i | 0 <= i < |path| - 2 ensures Edge(g, path[1..][i], path[1..][i + 1]) {
        assert Edge(g, path[i + 1], path[i + 2]);
      }
      assert PathTo(g, path[1..], err, n);
    }
  }

  /** A public variant is accepted exactly when its code is registered with the same kind and its
      message is not empty; then only the reference is replaced. Otherwise it becomes the
      internal contract. */
  lemma PublicVariantIsReviewed(codes: Codes, spec: Spec)
    requires WellFormed(codes)
    ensures NewPublicSpec(codes, spec) == Node(One(Nil), true, Some(
              if spec.code in codes && codes[spec.code].Kind() == spec.kind && spec.message != ""
              then Spec(spec.code, spec.kind, spec.message, codes[spec.code].Reference())
              else Published(codes, 1)))
  {
    if spec.code in codes {
      assert ValidSpec(codes[spec.code].Contract());
    }
  }

  // ---------------------------------------------------------------- lookups

  function IsCoded(g: Graph): Visitor {
    (n: nat) => g(n).spec.Some?
  }

  function HasCode(g: Graph, code: int): Visitor {
    (n: nat) => g(n).spec.Some? && g(n).spec.value.code == code
  }

  /** A non-aggregate error with a contract, or with that of the code. */
  ghost predicate Coded(g: Graph, n: nat) {
    !g(n).shape.Aggregate? && g(n).spec.Some?
  }

  ghost predicate Carries(g: Graph, n: nat, code: int) {
    Coded(g, n) && g(n).spec.value.code == code
  }

  ghost predicate ReachesCode(g: Graph, e: Ref, code: int) {
    exists n :: Reachable(g, e, n) && Carries(g, n, code)
  }

  /** The first contract in the traversal order of the error. */
  function FirstSpec(g: Graph, e: Ref): Option<Spec> {
    match FirstAccepted(g, IsCoded(g), Order(g, [e], {}, MAX_NODES))
    case Some(n) => g(n).spec
    case None => None
  }

  ghost predicate NoneCoded(g: Graph, order: seq<nat>, k: nat) {
    forall i :: 0 <= i < k <= |order| ==> !Coded(g, order[i])
  }

  /** `spec` is the contract of an entry of the order, and no entry before that one is coded. */
  ghost predicate IsFirstSpec(g: Graph, order: seq<nat>, spec: Spec) {
    exists i :: 0 <= i < |order| && Coded(g, order[i]) && g(order[i]).spec == Some(spec) && NoneCoded(g, order, i)
  }

  ghost predicate IsAnswer(g: Graph, order: seq<nat>, spec: Option<Spec>) {
    if spec.Some? then IsFirstSpec(g, order, spec.value) else NoneCoded(g, order, |order|)
  }

  lemma FirstSpecIsFirst(g: Graph, e: Ref)
    ensures IsAnswer(g, Order(g, [e], {}, MAX_NODES), FirstSpec(g, e))
  {
    var order := Order(g, [e], {}, MAX_NODES);
    forall n ensures Coded(g, n) <==> Accepts(g, IsCoded(g), n) {}
    if FirstAccepted(g, IsCoded(g), order).Some? {
      var i := FirstIsFirst(g, IsCoded(g), order);
      assert NoneCoded(g, order, i);
    }
  }

  lemma LastVisitedIsFirst(g: Graph, e: Ref, budget: nat)
    ensures var (w, found) := WalkTree(g, e, IsCoded(g), FreshWith(budget));
            && (found ==> w.visited != [])
            && FirstAccepted(g, IsCoded(g), Order(g, [e], {}, budget)) ==
               (if found && w.visited != [] then Some(w.visited[|w.visited| - 1]) else None)
  {
    SearchScansOrder(g, e, IsCoded(g), budget);
  }

  method SpecOf(g: Graph, err: Ref) returns (spec: Option<Spec>)
    ensures spec == FirstSpec(g, err)
    ensures IsAnswer(g, Order(g, [err], {}, MAX_NODES), spec)
  {
    var found, visited := WalkErrors(g, err, IsCoded(g));
    LastVisitedIsFirst(g, err, MAX_NODES);
    spec := if found then g(visited[|visited| - 1]).spec else None;
    FirstSpecIsFirst(g, err);
  }

  method IsCode(g: Graph, err: Ref, code: int) returns (found: bool)
    ensures found <==> exists n :: n in Order(g, [err], {}, MAX_NODES) && Carries(g, n, code)
    ensures found ==> ReachesCode(g, err, code)
  {
    IsCodeScans(g, err, code);
    var visited;
    found, visited := WalkErrors(g, err, HasCode(g, code));
  }

  lemma OneFirstSpec(g: Graph, order: seq<nat>, spec: Option<Spec>, other: Spec)
    requires IsAnswer(g, order, spec) && IsFirstSpec(g, order, other)
    ensures spec == Some(other)
  {
  }

  /** The coder reported for an error; nil has none. */
  function CoderOf(codes: Codes, g: Graph, e: Ref): Option<Coder> {
    if e.Nil? then None
    else match FirstSpec(g, e)
      case Some(spec) => Some(if spec.code in codes then codes[spec.code] else UnknownCoder)
      case None => Some(UnknownCoder)
  }

  method ParseCoder(codes: Codes, g: Graph, err: Ref) returns (coder: Option<Coder>)
    ensures coder == CoderOf(codes, g, err)
    ensures coder.None? <==> err.Nil?
    ensures forall spec :: IsFirstSpec(g, Order(g, [err], {}, MAX_NODES), spec) && spec.code in codes ==>
              coder == Some(codes[spec.code])
  {
    if err.Nil? {
      return None;
    }
    var spec := SpecOf(g, err);
    forall other | IsFirstSpec(g, Order(g, [err], {}, MAX_NODES), other) ensures spec == Some(other) {
      OneFirstSpec(g, Order(g, [err], {}, MAX_NODES), spec, other);
    }
    if spec.Some? && spec.value.code in codes {
      return Some(codes[spec.value.code]);
    }
    return Some(UnknownCoder);
  }

  /** IsCode reports every code that SpecOf reports. */
  lemma FirstSpecIsCode(g: Graph, e: Ref)
    requires FirstSpec(g, e).Some?
    ensures WalkTree(g, e, HasCode(g, FirstSpec(g, e).value.code), Fresh).1
  {
    SearchScansOrder(g, e, HasCode(g, FirstSpec(g, e).value.code), MAX_NODES);
  }

  // ---------------------------------------------------------------- when IsCode is exact

  lemma IsCodeScans(g: Graph, e: Ref, code: int)
    ensures WalkTree(g, e, HasCode(g, code), Fresh).1 <==>
            exists m :: m in Order(g, [e], {}, MAX_NODES) && Carries(g, m, code)
    ensures WalkTree(g, e, HasCode(g, code), Fresh).1 ==> ReachesCode(g, e, code)
  {
    SearchScansOrder(g, e, HasCode(g, code), MAX_NODES);
    forall n ensures Carries(g, n, code) <==> Accepts(g, HasCode(g, code), n) {}
    if WalkTree(g, e, HasCode(g, code), Fresh).1 {
      SearchIsSound(g, e, HasCode(g, code), MAX_NODES);
    }
  }

  /** Graphs that differ at most in the contracts their errors carry. */
  ghost predicate SameShape(g: Graph, h: Graph) {
    forall n :: SameForm(g(n), h(n))
  }

  lemma SameShapeReaches(g: Graph, h: Graph, e: Ref, n: nat)
    requires SameShape(g, h) && Reachable(g, e, n)
    ensures Reachable(h, e, n)
  {
    var path :| PathTo(g, path, e, n);
    forall i | 0 <= i < |path| - 1 ensures Edge(h, path[i], path[i + 1]) {
      assert Edge(g, path[i], path[i + 1]);
    }
    assert PathTo(h, path, e, n);
  }

  /** IsCode reports exactly the codes that can be reached. */
  ghost predicate DecidesCodes(g: Graph, e: Ref) {
    forall code :: WalkTree(g, e, HasCode(g, code), Fresh).1 <==> ReachesCode(g, e, code)
  }

  lemma CoveredDecidesCodes(g: Graph, h: Graph, e: Ref)
    requires SameShape(g, h) && OrderCovers(g, e, MAX_NODES)
    ensures DecidesCodes(h, e)
  {
    OrderAgrees(g, h, [e], {}, MAX_NODES);
    forall n | Reachable(h, e, n) && !IsAggregate(h, n) ensures n in Order(h, [e], {}, MAX_NODES) {
      SameShapeReaches(h, g, e, n);
    }
    forall code ensures WalkTree(h, e, HasCode(h, code), Fresh).1 <==> ReachesCode(h, e, code) {
      CoveredIsDecided(h, e, HasCode(h, code), MAX_NODES);
      forall n ensures Carries(h, n, code) <==> Accepts(h, HasCode(h, code), n) {}
    }
  }

  /** The same errors with a contract on one of them only. */
  function OnlyCoded(g: Graph, m: nat): Graph {
    (n: nat) => g(n).(spec := if n == m then Some(UnknownCoder.Contract()) else None)
  }

  lemma DecidedCodeIsCovered(g: Graph, e: Ref, m: nat)
    requires DecidesCodes(OnlyCoded(g, m), e)
    requires Reachable(g, e, m) && !IsAggregate(g, m)
    ensures m in Order(g, [e], {}, MAX_NODES)
  {
    var h, code := OnlyCoded(g, m), UnknownCoder.Code();
    SameShapeReaches(g, h, e, m);
    assert Carries(h, m, code);
    IsCodeScans(h, e, code);
    OrderAgrees(g, h, [e], {}, MAX_NODES);
  }

  /** Whatever contracts the errors carry, IsCode reports exactly the codes that can be reached: this
      holds if and only if the first 1000 entries hold every reachable non-aggregate error, which
      depends on how the errors unwrap and not on any contract or code. */
  lemma IsCodeIsExactIff(g: Graph, e: Ref)
    ensures (forall h: Graph :: SameShape(g, h) ==> DecidesCodes(h, e)) <==> OrderCovers(g, e, MAX_NODES)
  {
    if OrderCovers(g, e, MAX_NODES) {
      forall h: Graph | SameShape(g, h) ensures DecidesCodes(h, e) {
        CoveredDecidesCodes(g, h, e);
      }
    }
    if forall h: Graph :: SameShape(g, h) ==> DecidesCodes(h, e) {
      forall m | Reachable(g, e, m) && !IsAggregate(g, m) ensures m in Order(g, [e], {}, MAX_NODES) {
        assert SameShape(g, OnlyCoded(g, m));
        DecidedCodeIsCovered(g, e, m);
      }
    }
  }

  /** SpecOf finds a contract exactly when a coded error can be reached. */
  ghost predicate DecidesCoded(g: Graph, e: Ref) {
    FirstSpec(g, e).Some? <==> exists n :: Reachable(g, e, n) && Coded(g, n)
  }

  lemma CoveredDecidesCoded(g: Graph, h: Graph, e: Ref)
    requires SameShape(g, h) && OrderCovers(g, e, MAX_NODES)
    ensures DecidesCoded(h, e)
  {
    OrderAgrees(g, h, [e], {}, MAX_NODES);
    FirstSpecIsFirst(h, e);
    forall n | Reachable(h, e, n) && Coded(h, n) ensures n in Order(h, [e], {}, MAX_NODES) {
      SameShapeReaches(h, g, e, n);
    }
    SearchScansOrder(h, e, IsCoded(h), MAX_NODES);
    if FirstSpec(h, e).Some? {
      SearchIsSound(h, e, IsCoded(h), MAX_NODES);
    }
  }

  /** The same condition is exact for SpecOf, and so for ParseCoder: whatever contracts the errors
      carry, a contract is found whenever one can be reached. */
  lemma SpecOfIsExactIff(g: Graph, e: Ref)
    ensures (forall h: Graph :: SameShape(g, h) ==> DecidesCoded(h, e)) <==> OrderCovers(g, e, MAX_NODES)
  {
    if OrderCovers(g, e, MAX_NODES) {
      forall h: Graph | SameShape(g, h) ensures DecidesCoded(h, e) {
        CoveredDecidesCoded(g, h, e);
      }
    }
    if forall h: Graph :: SameShape(g, h) ==> DecidesCoded(h, e) {
      forall m | Reachable(g, e, m) && !IsAggregate(g, m) ensures m in Order(g, [e], {}, MAX_NODES) {
        var h := OnlyCoded(g, m);
        assert SameShape(g, h);
        SameShapeReaches(g, h, e, m);
        assert Coded(h, m);
        FirstSpecIsFirst(h, e);
        OrderAgrees(g, h, [e], {}, MAX_NODES);
      }
    }
  }

  /** Within the budget, IsCode is reachability of the code: see SearchIsExactWithin for the weights. */
  lemma IsCodeIsReachability(g: Graph, nodes: set<nat>, weight: Weight, e: nat, code: int)
    requires Closed(g, nodes) && Weighs(g, nodes, weight) && e in nodes
    requires weight(e) + Expansion(g, weight, set n | n in nodes && g(n).comparable) <= MAX_NODES
    ensures WalkTree(g, Err(e), HasCode(g, code), Fresh).1 <==> ReachesCode(g, Err(e), code)
  {
    SearchIsExactWithin(g, nodes, weight, e, HasCode(g, code), MAX_NODES);
    forall n ensures Carries(g, n, code) <==> Accepts(g, HasCode(g, code), n) {}
  }

  /** Beyond the budget it is not: a code wrapped MAX_NODES times is not reported. */
  lemma DeepCodeIsMissed(spec: Spec)
    ensures var g := Chain(MAX_NODES, Some(spec));
            && SomeReachableAccepted(g, Err(0), HasCode(g, spec.code))
            && !WalkTree(g, Err(0), HasCode(g, spec.code), Fresh).1
  {
    DeepChainIsMissed(Some(spec), HasCode(Chain(MAX_NODES, Some(spec)), spec.code), MAX_NODES);
  }

  /** A code that is wrapped in any number of plain wrappers is reachable, and is reported exactly
      when there are fewer than 1000 of them. */
  lemma WrappedCodeIsFoundIff(wrappers: nat, spec: Spec)
    ensures var g := Chain(wrappers, Some(spec));
            && ReachesCode(g, Err(0), spec.code)
            && (WalkTree(g, Err(0), HasCode(g, spec.code), Fresh).1 <==> wrappers < 1000)
  {
    var g := Chain(wrappers, Some(spec));
    ChainReaches(wrappers, Some(spec), wrappers);
    assert Carries(g, wrappers, spec.code);
    ChainTipIsFoundIff(wrappers, Some(spec), HasCode(g, spec.code), MAX_NODES);
  }

  // ---------------------------------------------------------------- every run of the package

  /** A process: its registry and the errors it has built so far. */
  datatype Process = Process(codes: Codes, heap: seq<Node>)

  const Boot: Process := Process(InitialCodes, [])

  datatype Op =
    | OpRegister(spec: Spec)
    | OpRegisterAll(catalog: Catalog)
    | OpNewCode(code: int)
    | OpWrapCode(err: Ref, code: int)
    | OpNewSpec(spec: Spec)
    | OpNewPublicSpec(spec: Spec)
    | OpWrapSpec(err: Ref, spec: Spec)
    | OpUncoded(shape: Shape, comparable: bool)

  function GraphOf(heap: seq<Node>): Graph {
    (n: nat) => if n < |heap| then heap[n] else Node(Leaf, true, None)
  }

  function Push(p: Process, node: Option<Node>): Process {
    if node.Some? then p.(heap := p.heap + [node.value]) else p
  }

  ghost function Step(p: Process, op: Op): Process {
    match op
    case OpRegister(spec) => p.(codes := Register(p.codes, spec).0)
    case OpRegisterAll(catalog) => p.(codes := RegisterCatalog(p.codes, catalog).0)
    case OpNewCode(code) => Push(p, Some(NewCode(p.codes, code)))
    case OpWrapCode(err, code) => Push(p, WrapCode(p.codes, err, code))
    case OpNewSpec(spec) => Push(p, Some(NewSpec(p.codes, spec)))
    case OpNewPublicSpec(spec) => Push(p, Some(NewPublicSpec(p.codes, spec)))
    case OpWrapSpec(err, spec) => Push(p, WrapSpec(p.codes, err, spec))
    case OpUncoded(shape, comparable) => Push(p, Some(Node(shape, comparable, None)))
  }

  ghost function Run(p: Process, ops: seq<Op>): Process {
    if ops == [] then p else Step(Run(p, ops[..|ops| - 1]), ops[|ops| - 1])
  }

  /** The registry stands behind a contract: same code, kind and reference. */
  ghost predicate Backed(codes: Codes, spec: Spec) {
    && ValidSpec(spec)
    && spec.code in codes
    && codes[spec.code].Kind() == spec.kind
    && codes[spec.code].Reference() == spec.reference
  }

  ghost predicate Sane(p: Process) {
    && WellFormed(p.codes)
    && forall n :: 0 <= n < |p.heap| && p.heap[n].spec.Some? ==> Backed(p.codes, p.heap[n].spec.value)
  }

  lemma StepKeepsSane(p: Process, op: Op)
    requires Sane(p)
    ensures Sane(Step(p, op))
    ensures Extends(p.codes, Step(p, op).codes) && p.heap <= Step(p, op).heap
  {
    match op
    case OpRegisterAll(catalog) => RegistrationKeeps(p.codes, catalog);
    case OpNewPublicSpec(spec) => PublicVariantIsReviewed(p.codes, spec);
    case _ =>
  }

  lemma {:induction false} RunKeepsSane(p: Process, ops: seq<Op>)
    requires Sane(p)
    ensures Sane(Run(p, ops))
    ensures Extends(p.codes, Run(p, ops).codes) && p.heap <= Run(p, ops).heap
  {
    if ops != [] {
      RunKeepsSane(p, ops[..|ops| - 1]);
      StepKeepsSane(Run(p, ops[..|ops| - 1]), ops[|ops| - 1]);
    }
  }

  /** In every run, an error built at some point keeps its contract, and the registry stands
      behind that contract in every later state. */
  lemma ContractsStayBacked(before: seq<Op>, after: seq<Op>, n: nat)
    requires n < |Run(Boot, before).heap|
    ensures var later := Run(Run(Boot, before), after);
            && n < |later.heap| && later.heap[n] == Run(Boot, before).heap[n]
            && (later.heap[n].spec.Some? ==> Backed(later.codes, later.heap[n].spec.value))
  {
    RunKeepsSane(Boot, before);
    RunKeepsSane(Run(Boot, before), after);
  }

  /** In every state of every run, SpecOf and ParseCoder agree on any error: they report the same
      code, kind and reference, or neither finds a contract and the coder is the unknown one. */
  lemma LookupsAgree(ops: seq<Op>, e: nat)
    ensures var p := Run(Boot, ops);
            var g := GraphOf(p.heap);
            var coder := CoderOf(p.codes, g, Err(e));
            && coder.Some?
            && match FirstSpec(g, Err(e))
               case None => coder.value == UnknownCoder
               case Some(spec) =>
                 && ValidSpec(spec)
                 && coder.value.Code() == spec.code
                 && coder.value.Kind() == spec.kind
                 && coder.value.Reference() == spec.reference
  {
    RunKeepsSane(Boot, ops);
  }

  // ---------------------------------------------------------------- answers do not change

  lemma PopStaysInside(g: Graph, nodes: set<nat>, stack: seq<Ref>, seen: set<nat>)
    requires Closed(g, nodes) && HoldsAll(nodes, stack) && stack != [] && stack[0].Err?
    ensures HoldsAll(nodes, Pop(g, stack, seen).0)
  {
    assert stack[0] in stack;
    ChildrenAreEdges(g, stack[0].id);
  }

  lemma {:induction false} OrderStaysInside(g: Graph, nodes: set<nat>, stack: seq<Ref>, seen: set<nat>, budget: nat)
    requires Closed(g, nodes) && HoldsAll(nodes, stack)
    ensures forall n :: n in Order(g, stack, seen, budget) ==> n in nodes
    decreases budget, |stack|
  {
    if stack != [] && budget > 0 {
      assert stack[0] in stack;
      if stack[0].Nil? {
        OrderStaysInside(g, nodes, stack[1..], seen, budget);
      } else {
        var (stack', seen') := Pop(g, stack, seen);
        PopStaysInside(g, nodes, stack, seen);
        OrderStaysInside(g, nodes, stack', seen', budget - 1);
      }
    }
  }

  lemma {:induction false} FirstCodedAgrees(g: Graph, h: Graph, order: seq<nat>)
    requires forall n :: n in order ==> g(n) == h(n)
    ensures FirstAccepted(g, IsCoded(g), order) == FirstAccepted(h, IsCoded(h), order)
  {
    if order != [] {
      assert order[0] in order;
      FirstCodedAgrees(g, h, order[1..]);
    }
  }

  lemma FirstSpecAgrees(g: Graph, h: Graph, nodes: set<nat>, e: nat)
    requires Closed(g, nodes) && e in nodes
    requires forall n :: n in nodes ==> g(n) == h(n)
    ensures FirstSpec(g, Err(e)) == FirstSpec(h, Err(e))
  {
    OrderStaysInside(g, nodes, [Err(e)], {}, MAX_NODES);
    OrderAgrees(g, h, [Err(e)], {}, MAX_NODES);
    FirstCodedAgrees(g, h, Order(g, [Err(e)], {}, MAX_NODES));
  }

  /** Once everything reachable from an error has been built, SpecOf and ParseCoder give the same
      answers for it in every later state of the run, whatever is registered or built since. */
  lemma LookupsNeverChange(before: seq<Op>, after: seq<Op>, e: nat)
    requires forall n: nat :: Reachable(GraphOf(Run(Boot, before).heap), Err(e), n) ==> n < |Run(Boot, before).heap|
    ensures var p := Run(Boot, before);
            var later := Run(p, after);
            && FirstSpec(GraphOf(later.heap), Err(e)) == FirstSpec(GraphOf(p.heap), Err(e))
            && CoderOf(later.codes, GraphOf(later.heap), Err(e)) == CoderOf(p.codes, GraphOf(p.heap), Err(e))
  {
    var p := Run(Boot, before);
    var later := Run(p, after);
    var g, h := GraphOf(p.heap), GraphOf(later.heap);
    RunKeepsSane(Boot, before);
    RunKeepsSane(p, after);
    var nodes := set n: nat | n < |p.heap| && Reachable(g, Err(e), n);
    ReachesItself(g, e);
    assert Closed(g, nodes) by {
      forall n, c | n in nodes && Edge(g, n, c) ensures c in nodes { ReachesChild(g, Err(e), n, c); }
    }
    FirstSpecAgrees(g, h, nodes, e);
    SpecIsBacked(p, e);
  }

  lemma SpecIsBacked(p: Process, e: nat)
    requires Sane(p)
    ensures FirstSpec(GraphOf(p.heap), Err(e)).Some? ==> Backed(p.codes, FirstSpec(GraphOf(p.heap), Err(e)).value)
  {
  }
}
