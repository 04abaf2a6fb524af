/**
 The principal graph the querying helpers work on: principals (nodes), the
 directed "can obtain the permissions of" relation between them (edges), and
 paths, which are edge sequences walked from a start principal.
 */
module Common {

  /** A principal. Two nodes are the same principal when they are equal;
      `isAdmin` marks a principal that already holds unrestricted capability. */
  datatype Node = Node(arn: string, isAdmin: bool)

  /** `source` can obtain the effective permissions of `destination`. */
  datatype Edge = Edge(source: Node, destination: Node)

  /** The graph as the querying helpers see it: its edges, in their stored order. */
  datatype Graph = Graph(edges: seq<Edge>)

  /** A walk through the graph, as the list of edges it takes. */
  type Path = seq<Edge>

  /** The node a non-empty path ends at (`path[-1].destination`). */
  function Target(p: Path): Node
    requires |p| > 0
  {
    p[|p| - 1].destination
  }

  /** `p` without its last edge. */
  function Parent(p: Path): Path
    requires |p| > 0
  {
    p[..|p| - 1]
  }

  /** `p` is a non-empty chain of edges of `graph` that leaves from `start`. */
  predicate IsPathFrom(graph: Graph, start: Node, p: Path) {
    && |p| > 0
    && p[0].source == start
    && (forall k :: 0 <= k < |p| ==> p[k] in graph.edges)
    && (forall k :: 0 <= k < |p| - 1 ==> p[k].destination == p[k + 1].source)
  }

  /** `x` can be reached from `start` by following at least one edge. */
  ghost predicate Reachable(graph: Graph, start: Node, x: Node) {
    exists p :: IsPathFrom(graph, start, p) && Target(p) == x
  }

  /** Walking `p` from `start`, every edge leads to a node the walk has not
      left yet: the only node that may be entered twice is the current one,
      through a self-loop. In particular `start` is a destination only of a
      self-loop in first position. */
  predicate NeverReturns(start: Node, p: Path) {
    && (forall k :: 1 <= k < |p| ==> p[k].destination != start)
    && (forall k, l :: 0 <= l && l + 1 < k < |p| ==> p[k].destination != p[l].destination)
  }

  predicate AllNonEmpty(ps: seq<Path>) {
    forall i :: 0 <= i < |ps| ==> |ps[i]| > 0
  }

  /** The end node of every path of `ps`, in order. */
  function Targets(ps: seq<Path>): (r: seq<Node>)
    requires AllNonEmpty(ps)
    ensures |r| == |ps|
    ensures forall i :: 0 <= i < |ps| ==> r[i] == Target(ps[i])
  {
    if |ps| == 0 then [] else Targets(ps[..|ps| - 1]) + [Target(ps[|ps| - 1])]
  }

  lemma TargetsAppend(a: seq<Path>, b: seq<Path>)
    requires AllNonEmpty(a) && AllNonEmpty(b)
    ensures AllNonEmpty(a + b)
    ensures Targets(a + b) == Targets(a) + Targets(b)
  {
    assert AllNonEmpty(a + b);
    var t := Targets(a + b);
    assert forall i :: 0 <= i < |a| ==> t[i] == Target(a[i]);
    assert forall i :: |a| <= i < |a + b| ==> t[i] == Target(b[i - |a|]);
  }

  /** Every node that occurs in an edge of `graph`. */
  ghost function NodesOf(graph: Graph): set<Node> {
    (set e | e in graph.edges :: e.source) + (set e | e in graph.edges :: e.destination)
  }

  /** A set of nodes that contains `start` and is closed under the edges of
      `graph` contains the end of every path from `start`. */
  lemma {:induction false} ClosedContainsTargets(graph: Graph, start: Node, closed: seq<Node>, p: Path)
    requires start in closed
    requires forall e :: e in graph.edges && e.source in closed ==> e.destination in closed
    requires IsPathFrom(graph, start, p)
    ensures Target(p) in closed
    decreases |p|
  {
    if |p| > 1 {
      var q := Parent(p);
      assert IsPathFrom(graph, start, q);
      ClosedContainsTargets(graph, start, closed, q);
      assert p[|p| - 2].destination == p[|p| - 1].source;
    }
  }
}
