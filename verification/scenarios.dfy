/**
 What the search lists on a four-node diamond, proved for any four distinct
 nodes: the whole list, in which the far node ends an entry along each of
 its two routes.
 */
module Scenarios {
  import opened Common
  import opened QueryUtils

  /** `a` reaches `d` through `b` and through `c`. */
  function Diamond(a: Node, b: Node, c: Node, d: Node): Graph {
    Graph([Edge(a, b), Edge(a, c), Edge(b, d), Edge(c, d)])
  }

  predicate Distinct(a: Node, b: Node, c: Node, d: Node) {
    a != b && a != c && a != d && b != c && b != d && c != d
  }

  /** The search list from `a`: both one-edge paths, then each extended to `d`. */
  function DiamondList(a: Node, b: Node, c: Node, d: Node): seq<Path> {
    [[Edge(a, b)], [Edge(a, c)], [Edge(a, b), Edge(b, d)], [Edge(a, c), Edge(c, d)]]
  }

  /** `[e]` when the filter keeps `e`, `[]` otherwise. */
  function Kept(e: Edge, node: Node, ignored: seq<Node>): seq<Edge> {
    if Selected(e, node, ignored) then [e] else []
  }

  /** The filter over one more edge is the filter over the others, followed by
      that edge when it is selected. */
  lemma FilterSnoc(edges: seq<Edge>, e: Edge, node: Node, ignored: seq<Node>)
    ensures EdgesWithNodeSource(Graph(edges + [e]), node, ignored)
            == EdgesWithNodeSource(Graph(edges), node, ignored) + Kept(e, node, ignored)
  {
    assert (edges + [e])[..|edges|] == edges;
  }

  /** The filter on the diamond keeps its edges one by one, in order. */
  lemma DiamondFilter(a: Node, b: Node, c: Node, d: Node, node: Node, ignored: seq<Node>)
    ensures EdgesWithNodeSource(Diamond(a, b, c, d), node, ignored)
            == Kept(Edge(a, b), node, ignored) + Kept(Edge(a, c), node, ignored)
               + Kept(Edge(b, d), node, ignored) + Kept(Edge(c, d), node, ignored)
  {
    var ab, ac, bd, cd := Edge(a, b), Edge(a, c), Edge(b, d), Edge(c, d);
    var k0, k1, k2, k3 := Kept(ab, node, ignored), Kept(ac, node, ignored), Kept(bd, node, ignored), Kept(cd, node, ignored);
    assert EdgesWithNodeSource(Graph([ab]), node, ignored) == k0 by {
      FilterSnoc([], ab, node, ignored);
      assert [] + [ab] == [ab];
    }
    assert EdgesWithNodeSource(Graph([ab, ac]), node, ignored) == k0 + k1 by {
      FilterSnoc([ab], ac, node, ignored);
      assert [ab] + [ac] == [ab, ac];
    }
    assert EdgesWithNodeSource(Graph([ab, ac, bd]), node, ignored) == k0 + k1 + k2 by {
      FilterSnoc([ab, ac], bd, node, ignored);
      assert [ab, ac] + [bd] == [ab, ac, bd];
    }
    FilterSnoc([ab, ac, bd], cd, node, ignored);
    assert [ab, ac, bd] + [cd] == Diamond(a, b, c, d).edges;
  }

  lemma ExtensionsOne(p: Path, e: Edge)
    ensures Extensions(p, [e]) == [p + [e]]
  {
  }

  /** From `a`, nothing explored yet: both edges out of `a`, in order. */
  lemma FilterFromA(a: Node, b: Node, c: Node, d: Node)
    requires Distinct(a, b, c, d)
    ensures EdgesWithNodeSource(Diamond(a, b, c, d), a, []) == [Edge(a, b), Edge(a, c)]
  {
    DiamondFilter(a, b, c, d, a, []);
  }

  /** From `b` (and likewise `c`), while `d` is unexplored: the edge to `d`. */
  lemma FilterFromMiddle(a: Node, b: Node, c: Node, d: Node, x: Node, ignored: seq<Node>)
    requires Distinct(a, b, c, d)
    requires x == b || x == c
    requires d !in ignored
    ensures EdgesWithNodeSource(Diamond(a, b, c, d), x, ignored) == [Edge(x, d)]
  {
    DiamondFilter(a, b, c, d, x, ignored);
  }

  /** No edge leaves `d`. */
  lemma FilterFromD(a: Node, b: Node, c: Node, d: Node, ignored: seq<Node>)
    requires Distinct(a, b, c, d)
    ensures EdgesWithNodeSource(Diamond(a, b, c, d), d, ignored) == []
  {
    DiamondFilter(a, b, c, d, d, ignored);
  }

  /** When either of the first two entries is expanded, `d` is unexplored. */
  lemma FarNotExplored(a: Node, b: Node, c: Node, d: Node, j: int)
    requires Distinct(a, b, c, d)
    requires 0 <= j <= 1
    ensures d !in [a] + Targets(DiamondList(a, b, c, d)[..j])
  {
    var l := DiamondList(a, b, c, d);
    var t := [a] + Targets(l[..j]);
    forall k | 0 <= k < |t| ensures t[k] != d {
      if k > 0 { assert t[k] == Target(l[k - 1]); }
    }
  }

  /** Each of the two one-edge entries is extended to `d`. */
  lemma ExpandOneEdge(a: Node, b: Node, c: Node, d: Node, j: int)
    requires Distinct(a, b, c, d)
    requires 0 <= j <= 1
    ensures AllNonEmpty(DiamondList(a, b, c, d))
    ensures ExpansionOf(Diamond(a, b, c, d), a, DiamondList(a, b, c, d), j)
            == [DiamondList(a, b, c, d)[j + 2]]
  {
    var l := DiamondList(a, b, c, d);
    assert AllNonEmpty(l) by {
      forall i | 0 <= i < |l| ensures |l[i]| > 0 { }
    }
    var x := if j == 0 then b else c;
    var t := [a] + Targets(l[..j]);
    assert l[j] == [Edge(a, x)] && Target(l[j]) == x;
    assert l[j + 2] == l[j] + [Edge(x, d)];
    FarNotExplored(a, b, c, d, j);
    FilterFromMiddle(a, b, c, d, x, t);
    ExtensionsOne(l[j], Edge(x, d));
    assert ExpansionOf(Diamond(a, b, c, d), a, l, j) == Extensions(l[j], [Edge(x, d)]);
  }

  /** Each of the two two-edge entries ends at `d` and adds nothing. */
  lemma ExpandTwoEdges(a: Node, b: Node, c: Node, d: Node, j: int)
    requires Distinct(a, b, c, d)
    requires 2 <= j <= 3
    ensures AllNonEmpty(DiamondList(a, b, c, d))
    ensures ExpansionOf(Diamond(a, b, c, d), a, DiamondList(a, b, c, d), j) == []
  {
    var l := DiamondList(a, b, c, d);
    assert AllNonEmpty(l) by {
      forall i | 0 <= i < |l| ensures |l[i]| > 0 { }
    }
    assert Target(l[j]) == d;
    FilterFromD(a, b, c, d, [a] + Targets(l[..j]));
  }

  /** Unfolding the first entry: the one-edge paths, then the path through `b`. */
  lemma DiamondUnfoldedOne(a: Node, b: Node, c: Node, d: Node)
    requires Distinct(a, b, c, d)
    ensures AllNonEmpty(DiamondList(a, b, c, d))
    ensures Unfolded(Diamond(a, b, c, d), a, [Edge(a, b), Edge(a, c)], DiamondList(a, b, c, d), 1)
            == DiamondList(a, b, c, d)[..3]
  {
    var g, l := Diamond(a, b, c, d), DiamondList(a, b, c, d);
    ExpandOneEdge(a, b, c, d, 0);
    var u0 := Unfolded(g, a, [Edge(a, b), Edge(a, c)], l, 0);
    assert u0 == [l[0], l[1]];
    assert l[..3] == [l[0], l[1], l[2]];
  }

  /** Unfolding the first two entries already yields the whole list. */
  lemma DiamondUnfoldedTwo(a: Node, b: Node, c: Node, d: Node)
    requires Distinct(a, b, c, d)
    ensures AllNonEmpty(DiamondList(a, b, c, d))
    ensures Unfolded(Diamond(a, b, c, d), a, [Edge(a, b), Edge(a, c)], DiamondList(a, b, c, d), 2)
            == DiamondList(a, b, c, d)
  {
    var l := DiamondList(a, b, c, d);
    DiamondUnfoldedOne(a, b, c, d);
    ExpandOneEdge(a, b, c, d, 1);
    assert l == l[..3] + [l[3]];
  }

  /** The diamond list solves the search-list equation for the search from `a`. */
  lemma DiamondUnfolds(a: Node, b: Node, c: Node, d: Node)
    requires Distinct(a, b, c, d)
    ensures Unfolds(Diamond(a, b, c, d), a, EdgesWithNodeSource(Diamond(a, b, c, d), a, []), DiamondList(a, b, c, d))
  {
    var g, l := Diamond(a, b, c, d), DiamondList(a, b, c, d);
    var first := [Edge(a, b), Edge(a, c)];
    FilterFromA(a, b, c, d);
    DiamondUnfoldedTwo(a, b, c, d);
    ExpandTwoEdges(a, b, c, d, 2);
    ExpandTwoEdges(a, b, c, d, 3);
    assert Unfolded(g, a, first, l, 3) == l + [];
    assert Unfolded(g, a, first, l, 4) == Unfolded(g, a, first, l, 3) + [];
  }

  /** The search from `a` lists exactly both one-edge paths and then a path to
      `d` through `b` and another through `c`: `d` counts as explored only
      once a path ending at it is expanded, and both one-edge paths are
      expanded before that. */
  method DiamondSearch(a: Node, b: Node, c: Node, d: Node) returns (result: seq<Path>)
    requires Distinct(a, b, c, d)
    ensures result == DiamondList(a, b, c, d)
    ensures [Edge(a, b), Edge(b, d)] in result
    ensures [Edge(a, c), Edge(c, d)] in result
  {
    var g := Diamond(a, b, c, d);
    result := GetSearchList(g, a);
    DiamondUnfolds(a, b, c, d);
    UnfoldsUnique(g, a, EdgesWithNodeSource(g, a, []), result, DiamondList(a, b, c, d));
  }
}
