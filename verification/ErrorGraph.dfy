/** Error values as nodes of a directed graph.

An error is a node id. A node knows which of the two unwrapping forms or the
aggregate form its type implements, whether its type can be compared (and so
be used as a map key), and the public contract it carries when it is a coded
error. A graph is a total function on ids, so it may be cyclic, may share
nodes, and may even be infinite.
*/
module ErrorGraph {
  import opened Options

  /** The transport-independent public contract of a business error. */
  datatype Spec = Spec(code: int, kind: string, message: string, reference: string)

  /** An error-typed variable: nil or a node. */
  datatype Ref = Nil | Err(id: nat)

  datatype Shape =
    | Leaf
    | One(cause: Ref)
    | Many(causes: seq<Ref>)
    | Aggregate(errs: seq<Ref>)

  datatype Node = Node(shape: Shape, comparable: bool, spec: Option<Spec>)

  type Graph = nat -> Node

  /** What the search follows, in its order. */
  function Children(node: Node): seq<Ref> {
    match node.shape
    case Leaf => []
    case One(cause) => [cause]
    case Many(causes) => causes
    case Aggregate(errs) => errs
  }

  predicate IsAggregate(g: Graph, n: nat) {
    g(n).shape.Aggregate?
  }

  /** Unwrapping `from` once can give `to`. */
  predicate Edge(g: Graph, from: nat, to: nat) {
    match g(from).shape
    case Leaf => false
    case One(cause) => cause == Err(to)
    case Many(causes) => Err(to) in causes
    case Aggregate(errs) => Err(to) in errs
  }

  /** `path` follows edges from its first to its last node. */
  ghost predicate IsPath(g: Graph, path: seq<nat>) {
    && path != []
    && forall i :: 0 <= i < |path| - 1 ==> Edge(g, path[i], path[i + 1])
  }

  ghost predicate PathTo(g: Graph, path: seq<nat>, e: Ref, n: nat) {
    IsPath(g, path) && e == Err(path[0]) && n == path[|path| - 1]
  }

  /** `n` is `e` itself or can be unwrapped from it in any number of steps. */
  ghost predicate Reachable(g: Graph, e: Ref, n: nat) {
    exists path :: PathTo(g, path, e, n)
  }

  lemma ChildrenAreEdges(g: Graph, from: nat)
    ensures forall c: Ref :: c in Children(g(from)) && c.Err? ==> Edge(g, from, c.id)
    ensures forall c: nat :: Edge(g, from, c) ==> Err(c) in Children(g(from))
  {
  }

  lemma ReachesItself(g: Graph, n: nat)
    ensures Reachable(g, Err(n), n)
  {
    assert PathTo(g, [n], Err(n), n);
  }

  lemma ReachesChild(g: Graph, e: Ref, n: nat, child: nat)
    requires Reachable(g, e, n)
    requires Edge(g, n, child)
    ensures Reachable(g, e, child)
  {
    var path :| PathTo(g, path, e, n);
    assert PathTo(g, path + [child], e, child);
  }

  /** A set that holds every child of every member. */
  ghost predicate Closed(g: Graph, s: set<nat>) {
    forall n, c :: n in s && Edge(g, n, c) ==> c in s
  }

  lemma {:induction false} PathStaysInside(g: Graph, s: set<nat>, path: seq<nat>)
    requires Closed(g, s)
    requires IsPath(g, path) && path[0] in s
    ensures path[|path| - 1] in s
    decreases |path|
  {
    if |path| > 1 {
      assert Edge(g, path[0], path[1]);
      var rest := path[1..];
      forall i | 0 <= i < |rest| - 1
        ensures Edge(g, rest[i], rest[i + 1])
      {
        assert Edge(g, path[i + 1], path[i + 2]);
      }
      PathStaysInside(g, s, rest);
    }
  }

  /** Everything reachable from a member of a closed set is a member. */
  lemma ClosedHoldsReachable(g: Graph, s: set<nat>, e: Ref, n: nat)
    requires Closed(g, s)
    requires e.Err? && e.id in s
    requires Reachable(g, e, n)
    ensures n in s
  {
    var path :| PathTo(g, path, e, n);
    PathStaysInside(g, s, path);
  }
}
