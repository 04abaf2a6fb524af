/**
 The querying helpers: the stable edge filter, the breadth-first path
 enumeration from a source principal, and the connectivity predicate built
 on it.
 */
module QueryUtils {
  import opened Common

  /** `r` is `s` with some elements dropped and the rest kept in order. */
  ghost predicate IsSubsequence<T>(r: seq<T>, s: seq<T>)
    decreases |s|
  {
    if |r| == 0 then true
    else if |s| == 0 then false
    else (r[|r| - 1] == s[|s| - 1] && IsSubsequence(r[..|r| - 1], s[..|s| - 1]))
         || IsSubsequence(r, s[..|s| - 1])
  }

  /** The test the filter applies to each edge. */
  predicate Selected(e: Edge, node: Node, ignored: seq<Node>) {
    e.source == node && e.destination !in ignored
  }

  /** The edges of `graph` that leave `node` and do not enter an ignored node,
      in the graph's own order, each as often as the graph holds it. */
  function EdgesWithNodeSource(graph: Graph, node: Node, ignored: seq<Node>): (r: seq<Edge>)
    ensures IsSubsequence(r, graph.edges)
    ensures forall e :: multiset(r)[e] == if Selected(e, node, ignored) then multiset(graph.edges)[e] else 0
    decreases |graph.edges|
  {
    if |graph.edges| == 0 then []
    else
      var n := |graph.edges|;
      var e := graph.edges[n - 1];
      var rest := graph.edges[..n - 1];
      var kept := EdgesWithNodeSource(Graph(rest), node, ignored);
      assert graph.edges == rest + [e];
      if Selected(e, node, ignored) then kept + [e] else kept
  }

  lemma {:induction false} SubsequenceCounts<T>(r: seq<T>, s: seq<T>)
    requires IsSubsequence(r, s)
    ensures multiset(r) <= multiset(s)
    decreases |s|
  {
    if |r| > 0 {
      var s' := s[..|s| - 1];
      assert s == s' + [s[|s| - 1]];
      if r[|r| - 1] == s[|s| - 1] && IsSubsequence(r[..|r| - 1], s') {
        SubsequenceCounts(r[..|r| - 1], s');
        assert r == r[..|r| - 1] + [r[|r| - 1]];
      } else {
        SubsequenceCounts(r, s');
      }
    }
  }

  /** The contract of `EdgesWithNodeSource` determines its result: any
      subsequence of the graph's edges that holds each selected edge as often
      as the graph does, and no other edge, is that result. */
  lemma {:induction false} EdgesWithNodeSourceUnique(graph: Graph, node: Node, ignored: seq<Node>, r: seq<Edge>)
    requires IsSubsequence(r, graph.edges)
    requires forall e :: multiset(r)[e] == if Selected(e, node, ignored) then multiset(graph.edges)[e] else 0
    ensures r == EdgesWithNodeSource(graph, node, ignored)
    decreases |graph.edges|
  {
    var edges := graph.edges;
    if |edges| == 0 {
      assert multiset(r) == multiset{} by {
        forall e ensures multiset(r)[e] == 0 { }
      }
    } else {
      var n := |edges|;
      var last := edges[n - 1];
      var rest := Graph(edges[..n - 1]);
      assert edges == rest.edges + [last];
      if Selected(last, node, ignored) {
        assert multiset(r)[last] > 0;
        var r' := r[..|r| - 1];
        assert r == r' + [r[|r| - 1]];
        if r[|r| - 1] == last && IsSubsequence(r', rest.edges) {
          forall e
            ensures multiset(r')[e] == if Selected(e, node, ignored) then multiset(rest.edges)[e] else 0
          {
          }
          EdgesWithNodeSourceUnique(rest, node, ignored, r');
        } else {
          assert IsSubsequence(r, rest.edges);
          SubsequenceCounts(r, rest.edges);
          assert false;
        }
      } else {
        assert last !in r by {
          assert multiset(r)[last] == 0;
        }
        if |r| > 0 {
          assert r[|r| - 1] in r;
        }
        assert IsSubsequence(r, rest.edges);
        forall e
          ensures multiset(r)[e] == if Selected(e, node, ignored) then multiset(rest.edges)[e] else 0
        {
          if e != last {
            assert multiset(edges)[e] == multiset(rest.edges)[e];
          }
        }
        EdgesWithNodeSourceUnique(rest, node, ignored, r);
      }
    }
  }

  /** The one-edge paths `[e]`, one per edge of `es`. */
  function Singletons(es: seq<Edge>): seq<Path> {
    seq(|es|, i requires 0 <= i < |es| => [es[i]])
  }

  /** How many paths of `ps` end at a node of `s`. */
  ghost function CountEndingIn(ps: seq<Path>, s: set<Node>): nat {
    if |ps| == 0 then 0
    else (if |ps[0]| > 0 && Target(ps[0]) in s then 1 else 0) + CountEndingIn(ps[1..], s)
  }

  lemma {:induction false} CountEndingInAppend(a: seq<Path>, b: seq<Path>, s: set<Node>)
    ensures CountEndingIn(a + b, s) == CountEndingIn(a, s) + CountEndingIn(b, s)
    decreases |a|
  {
    if |a| > 0 {
      assert (a + b)[1..] == a[1..] + b;
      CountEndingInAppend(a[1..], b, s);
    } else {
      assert a + b == b;
    }
  }

  /** The search result starts with the one-edge paths along `first`, and
      every later entry is longer. */
  ghost predicate LeadingSingletons(first: seq<Edge>, result: seq<Path>) {
    && |first| <= |result|
    && (forall i :: 0 <= i < |first| ==> result[i] == [first[i]])
    && (forall i :: |first| <= i < |result| ==> |result[i]| >= 2)
  }

  /** Entry `i`, when longer than one edge, extends an earlier entry by one edge. */
  ghost predicate ExtendsEarlier(result: seq<Path>, i: int)
    requires 0 <= i < |result|
  {
    |result[i]| >= 2 ==> Parent(result[i]) in result[..i]
  }

  /** Every entry of length two or more extends an earlier entry by one edge. */
  ghost predicate PrefixClosed(result: seq<Path>) {
    forall i {:trigger ExtendsEarlier(result, i)} :: 0 <= i < |result| ==> ExtendsEarlier(result, i)
  }

  /** Path lengths never decrease along the result. */
  ghost predicate BreadthFirst(result: seq<Path>) {
    forall i, j :: 0 <= i <= j < |result| ==> |result[i]| <= |result[j]|
  }

  /** Every node entry `i` passes through before its last edge is the end of
      an entry before it. */
  ghost predicate PassesEarlierEnds(result: seq<Path>, i: int)
    requires AllNonEmpty(result)
    requires 0 <= i < |result|
  {
    forall k :: 0 <= k < |result[i]| - 1 ==> result[i][k].destination in Targets(result[..i])
  }

  /** Every node an entry passes through before its last edge has been
      explored by the time the entry is expanded. */
  ghost predicate AncestorsEarlier(result: seq<Path>)
    requires AllNonEmpty(result)
  {
    forall i {:trigger PassesEarlierEnds(result, i)} :: 0 <= i < |result| ==> PassesEarlierEnds(result, i)
  }

  /** Entry `i` has been expanded: each edge out of its end into a node not
      explored at that time (`node` and the ends of the entries before `i`)
      extends the entry somewhere in the result. */
  ghost predicate EntryExpanded(graph: Graph, node: Node, result: seq<Path>, i: int)
    requires AllNonEmpty(result)
    requires 0 <= i < |result|
  {
    forall e :: e in graph.edges && e.source == Target(result[i])
      && e.destination !in [node] + Targets(result[..i])
      ==> result[i] + [e] in result
  }

  /** The first `n` entries have been expanded. */
  ghost predicate ExpandedUpTo(graph: Graph, node: Node, result: seq<Path>, n: int)
    requires AllNonEmpty(result)
    requires 0 <= n <= |result|
  {
    forall i {:trigger EntryExpanded(graph, node, result, i)} :: 0 <= i < n ==> EntryExpanded(graph, node, result, i)
  }

  /** Every entry of the result is a path from `node`. */
  ghost predicate AllPathsFrom(graph: Graph, node: Node, result: seq<Path>) {
    && AllNonEmpty(result)
    && (forall i :: 0 <= i < |result| ==> IsPathFrom(graph, node, result[i]))
  }

  /** The nodes explored before entry `index` is expanded: `node`, then the
      end of each entry already expanded. */
  ghost predicate ExploredBefore(node: Node, result: seq<Path>, index: int, explored: seq<Node>) {
    && AllNonEmpty(result)
    && 0 <= index <= |result|
    && explored == [node] + Targets(result[..index])
  }

  /** Every edge out of an explored node leads to an explored node or to the
      end of some entry. */
  ghost predicate ClosedUpTo(graph: Graph, result: seq<Path>, explored: seq<Node>)
    requires AllNonEmpty(result)
  {
    forall e :: e in graph.edges && e.source in explored
      ==> e.destination in explored || e.destination in Targets(result)
  }

  /** The state of the search loop before entry `index` is expanded;
      `first` holds the start node's edges, the search's first level. */
  ghost predicate SearchState(graph: Graph, node: Node, first: seq<Edge>, result: seq<Path>,
                              index: int, explored: seq<Node>) {
    && AllPathsFrom(graph, node, result)
    && ExploredBefore(node, result, index, explored)
    && LeadingSingletons(first, result)
    && PrefixClosed(result)
    && BreadthFirst(result)
    && (index < |result| ==> |result[|result| - 1]| <= |result[index]| + 1)
    && AncestorsEarlier(result)
    && (forall i :: 0 <= i < |result| ==> NeverReturns(node, result[i]))
    && ExpandedUpTo(graph, node, result, index)
    && ClosedUpTo(graph, result, explored)
  }

  /** `next` holds exactly the edges out of `c` into nodes outside `explored`. */
  ghost predicate ExactlyEdgesOut(graph: Graph, c: Node, explored: seq<Node>, next: seq<Edge>) {
    forall e :: e in next <==> e in graph.edges && e.source == c && e.destination !in explored
  }

  /** `grown` is `result` followed by entry `index` extended by each edge of
      `next` in turn. */
  ghost predicate Expansion(result: seq<Path>, index: int, next: seq<Edge>, grown: seq<Path>)
    requires 0 <= index < |result|
  {
    && |grown| == |result| + |next|
    && (forall i :: 0 <= i < |result| ==> grown[i] == result[i])
    && (forall i :: |result| <= i < |grown| ==> grown[i] == result[index] + [next[i - |result|]])
  }

  lemma TargetsPrefix(ps: seq<Path>, i: int, j: int)
    requires AllNonEmpty(ps)
    requires 0 <= i <= j <= |ps|
    ensures Targets(ps[..i]) == Targets(ps[..j])[..i]
    ensures forall x :: x in Targets(ps[..i]) ==> x in Targets(ps[..j])
  {
    var a, b := Targets(ps[..i]), Targets(ps[..j]);
    assert forall k :: 0 <= k < i ==> a[k] == Target(ps[k]) == b[k];
    assert a == b[..i];
  }

  lemma ExpansionPrefix(result: seq<Path>, index: int, next: seq<Edge>, grown: seq<Path>, i: int)
    requires 0 <= index < |result|
    requires Expansion(result, index, next, grown)
    requires 0 <= i <= |result|
    ensures grown[..i] == result[..i]
  {
  }

  /** `p` extended by each edge of `es` in turn. */
  function Extensions(p: Path, es: seq<Edge>): seq<Path> {
    seq(|es|, i requires 0 <= i < |es| => p + [es[i]])
  }

  /** What expanding entry `i` appends: the entry extended by each edge the
      filter yields out of its end, with `node` and the ends of the entries
      before `i` as the explored nodes. */
  ghost function ExpansionOf(graph: Graph, node: Node, result: seq<Path>, i: int): seq<Path>
    requires AllNonEmpty(result)
    requires 0 <= i < |result|
  {
    Extensions(result[i], EdgesWithNodeSource(graph, Target(result[i]), [node] + Targets(result[..i])))
  }

  /** The one-edge paths along `first`, followed by what expanding each of the
      first `n` entries of `result` appends, in order. */
  ghost function Unfolded(graph: Graph, node: Node, first: seq<Edge>, result: seq<Path>, n: int): seq<Path>
    requires AllNonEmpty(result)
    requires 0 <= n <= |result|
    decreases n
  {
    if n == 0 then Singletons(first)
    else Unfolded(graph, node, first, result, n - 1) + ExpansionOf(graph, node, result, n - 1)
  }

  /** `result` is exactly the breadth-first search list with first-level edges
      `first`: its one-edge paths, then what expanding each of its own
      entries appends, entry by entry. */
  ghost predicate Unfolds(graph: Graph, node: Node, first: seq<Edge>, result: seq<Path>) {
    && AllNonEmpty(result)
    && result == Unfolded(graph, node, first, result, |result|)
  }

  /** What the first `n` entries append depends only on those entries. */
  lemma {:induction false} UnfoldedPrefix(graph: Graph, node: Node, first: seq<Edge>, a: seq<Path>, b: seq<Path>, n: int)
    requires AllNonEmpty(a) && AllNonEmpty(b)
    requires 0 <= n <= |a| && n <= |b|
    requires a[..n] == b[..n]
    ensures Unfolded(graph, node, first, a, n) == Unfolded(graph, node, first, b, n)
    decreases n
  {
    if n > 0 {
      assert a[..n - 1] == a[..n][..n - 1] && b[..n - 1] == b[..n][..n - 1];
      assert a[n - 1] == a[..n][n - 1] && b[n - 1] == b[..n][n - 1];
      UnfoldedPrefix(graph, node, first, a, b, n - 1);
    }
  }

  /** Each expansion appends: the list unfolded so far is a prefix of the
      list unfolded further. */
  lemma {:induction false} UnfoldedGrows(graph: Graph, node: Node, first: seq<Edge>, result: seq<Path>, n: int, m: int)
    requires AllNonEmpty(result)
    requires 0 <= n <= m <= |result|
    ensures |Unfolded(graph, node, first, result, n)| <= |Unfolded(graph, node, first, result, m)|
    ensures Unfolded(graph, node, first, result, m)[..|Unfolded(graph, node, first, result, n)|]
            == Unfolded(graph, node, first, result, n)
    decreases m
  {
    if n < m {
      UnfoldedGrows(graph, node, first, result, n, m - 1);
      var prev := Unfolded(graph, node, first, result, m - 1);
      var added := ExpansionOf(graph, node, result, m - 1);
      assert Unfolded(graph, node, first, result, m) == prev + added;
      PrefixOfAppend(prev, added, |Unfolded(graph, node, first, result, n)|);
    }
  }

  lemma PrefixOfAppend<T>(a: seq<T>, b: seq<T>, k: int)
    requires 0 <= k <= |a|
    ensures (a + b)[..k] == a[..k]
  {
  }

  /** An entry that expansions `n` to `m - 1` appended is one edge longer than
      the entry it extends, which is one of those expanded. */
  lemma {:induction false} AppendedBy(graph: Graph, node: Node, first: seq<Edge>, result: seq<Path>, n: int, m: int, k: int)
    returns (i: int)
    requires AllNonEmpty(result)
    requires 0 <= n <= m <= |result|
    requires |Unfolded(graph, node, first, result, n)| <= k < |Unfolded(graph, node, first, result, m)|
    ensures n <= i < m
    ensures |Unfolded(graph, node, first, result, m)[k]| == |result[i]| + 1
    decreases m
  {
    if n == m {
      assert false;
    }
    var before := Unfolded(graph, node, first, result, m - 1);
    var added := ExpansionOf(graph, node, result, m - 1);
    assert Unfolded(graph, node, first, result, m) == before + added;
    if k < |before| {
      i := AppendedBy(graph, node, first, result, n, m - 1, k);
      assert (before + added)[k] == before[k];
    } else {
      i := m - 1;
      ExpansionOfLonger(graph, node, result, i);
      assert (before + added)[k] == added[k - |before|];
    }
  }

  /** Every path that expanding entry `i` appends is one edge longer than it. */
  lemma ExpansionOfLonger(graph: Graph, node: Node, result: seq<Path>, i: int)
    requires AllNonEmpty(result)
    requires 0 <= i < |result|
    ensures forall j :: 0 <= j < |ExpansionOf(graph, node, result, i)| ==> |ExpansionOf(graph, node, result, i)[j]| == |result[i]| + 1
  {
  }

  /** In a search list, the part unfolded from the first `n` entries already
      reaches past entry `n`, as long as the list itself does. Otherwise some
      entry from position `n` on would extend an entry that is itself at
      position `n` or later, and so on downwards in length without end. */
  lemma {:induction false} UnfoldedPastEntryFrom(graph: Graph, node: Node, first: seq<Edge>, result: seq<Path>, n: int, k: int)
    requires Unfolds(graph, node, first, result)
    requires 0 <= n <= k < |result|
    requires |Unfolded(graph, node, first, result, n)| <= k
    ensures |Unfolded(graph, node, first, result, n)| > n
    decreases |result[k]|
  {
    var u := Unfolded(graph, node, first, result, n);
    if |u| <= n {
      var i := AppendedBy(graph, node, first, result, n, |result|, k);
      assert |result[i]| < |result[k]|;
      UnfoldedPastEntryFrom(graph, node, first, result, n, i);
    }
  }

  lemma UnfoldedPastEntry(graph: Graph, node: Node, first: seq<Edge>, result: seq<Path>, n: int)
    requires Unfolds(graph, node, first, result)
    requires 0 <= n < |result|
    ensures |Unfolded(graph, node, first, result, n)| > n
  {
    if |Unfolded(graph, node, first, result, n)| <= n {
      UnfoldedPastEntryFrom(graph, node, first, result, n, n);
    }
  }

  /** Entry `n` of a search list is already in the part unfolded from the
      entries before it. */
  lemma EntryUnfolded(graph: Graph, node: Node, first: seq<Edge>, result: seq<Path>, n: int)
    requires Unfolds(graph, node, first, result)
    requires 0 <= n < |result|
    ensures n < |Unfolded(graph, node, first, result, n)|
    ensures result[n] == Unfolded(graph, node, first, result, n)[n]
  {
    UnfoldedPastEntry(graph, node, first, result, n);
    UnfoldedGrows(graph, node, first, result, n, |result|);
    var u := Unfolded(graph, node, first, result, n);
    assert result[..|u|][n] == u[n];
  }

  lemma AgreeOneMore<T>(a: seq<T>, b: seq<T>, n: int)
    requires 0 <= n < |a| && n < |b|
    requires a[..n] == b[..n] && a[n] == b[n]
    ensures a[..n + 1] == b[..n + 1]
  {
    assert a[..n + 1] == a[..n] + [a[n]] && b[..n + 1] == b[..n] + [b[n]];
  }

  /** Two search lists with the same first-level edges agree on their first
      `n` entries. */
  lemma {:induction false} UnfoldsAgree(graph: Graph, node: Node, first: seq<Edge>, a: seq<Path>, b: seq<Path>, n: int)
    requires Unfolds(graph, node, first, a) && Unfolds(graph, node, first, b)
    requires 0 <= n <= |a| && n <= |b|
    ensures a[..n] == b[..n]
    decreases n
  {
    if n > 0 {
      UnfoldsAgree(graph, node, first, a, b, n - 1);
      UnfoldedPrefix(graph, node, first, a, b, n - 1);
      EntryUnfolded(graph, node, first, a, n - 1);
      EntryUnfolded(graph, node, first, b, n - 1);
      AgreeOneMore(a, b, n - 1);
    }
  }

  /** The search-list equation has one solution: the first-level edges
      determine the whole list, order and repetitions included. */
  lemma UnfoldsUnique(graph: Graph, node: Node, first: seq<Edge>, a: seq<Path>, b: seq<Path>)
    requires Unfolds(graph, node, first, a) && Unfolds(graph, node, first, b)
    ensures a == b
  {
    if |a| < |b| {
      UnfoldsNotShorter(graph, node, first, a, b);
    } else if |b| < |a| {
      UnfoldsNotShorter(graph, node, first, b, a);
    } else {
      UnfoldsAgree(graph, node, first, a, b, |a|);
    }
  }

  /** A search list is no shorter than another with the same first-level
      edges: were it a proper prefix of the other, its own entries would
      already unfold past its end. */
  lemma UnfoldsNotShorter(graph: Graph, node: Node, first: seq<Edge>, a: seq<Path>, b: seq<Path>)
    requires Unfolds(graph, node, first, a) && Unfolds(graph, node, first, b)
    ensures |a| >= |b|
  {
    if |a| < |b| {
      UnfoldsAgree(graph, node, first, a, b, |a|);
      assert a[..|a|] == a;
      UnfoldedPrefix(graph, node, first, a, b, |a|);
      UnfoldedPastEntry(graph, node, first, b, |a|);
    }
  }

  /** Expanding entry `index` along the filter's edges continues the
      unfolding by one entry. */
  lemma StepUnfolded(graph: Graph, node: Node, first: seq<Edge>, result: seq<Path>, index: int,
                     explored: seq<Node>, next: seq<Edge>, grown: seq<Path>)
    requires ExploredBefore(node, result, index, explored)
    requires index < |result|
    requires result == Unfolded(graph, node, first, result, index)
    requires next == EdgesWithNodeSource(graph, Target(result[index]), explored)
    requires Expansion(result, index, next, grown)
    requires AllNonEmpty(grown)
    ensures grown == Unfolded(graph, node, first, grown, index + 1)
  {
    ExpansionPrefix(result, index, next, grown, index);
    ExpansionPrefix(result, index, next, grown, index + 1);
    assert grown[index] == grown[..index + 1][index] == result[index];
    UnfoldedPrefix(graph, node, first, result, grown, index);
    assert ExpansionOf(graph, node, grown, index) == Extensions(result[index], next);
    assert grown == result + Extensions(result[index], next);
  }

  /** The filter used in each expansion yields exactly the edges out of `c` into
      unexplored nodes. */
  lemma FilterIsExact(graph: Graph, c: Node, explored: seq<Node>)
    ensures ExactlyEdgesOut(graph, c, explored, EdgesWithNodeSource(graph, c, explored))
  {
    var r := EdgesWithNodeSource(graph, c, explored);
    forall e
      ensures e in r <==> e in graph.edges && e.source == c && e.destination !in explored
    {
      assert e in r <==> multiset(r)[e] > 0;
      assert e in graph.edges <==> multiset(graph.edges)[e] > 0;
    }
  }

  /** The search state right after the first-level edges are collected
      and the start node is marked explored. */
  lemma SearchStart(graph: Graph, node: Node, first: seq<Edge>)
    requires ExactlyEdgesOut(graph, node, [], first)
    ensures SearchState(graph, node, first, Singletons(first), 0, [node])
  {
    var result := Singletons(first);
    forall i | 0 <= i < |result|
      ensures IsPathFrom(graph, node, result[i])
    {
      assert result[i] == [first[i]] && first[i] in first;
    }
    assert result[..0] == [];
    forall i | 0 <= i < |result|
      ensures ExtendsEarlier(result, i) && PassesEarlierEnds(result, i)
    {
      assert |result[i]| == 1;
    }
    StartClosed(graph, node, first);
  }

  /** Every edge out of the start node ends a first-level entry. */
  lemma StartClosed(graph: Graph, node: Node, first: seq<Edge>)
    requires ExactlyEdgesOut(graph, node, [], first)
    ensures AllNonEmpty(Singletons(first))
    ensures ClosedUpTo(graph, Singletons(first), [node])
  {
    var result := Singletons(first);
    forall e | e in graph.edges && e.source in [node]
      ensures e.destination in Targets(result)
    {
      assert e in first;
      var j :| 0 <= j < |first| && first[j] == e;
      assert Targets(result)[j] == e.destination;
    }
  }

  /** Expanding entry `index` keeps every entry a path from `node`. */
  lemma StepPaths(graph: Graph, node: Node, result: seq<Path>, index: int, explored: seq<Node>,
                  next: seq<Edge>, grown: seq<Path>)
    requires AllPathsFrom(graph, node, result)
    requires 0 <= index < |result|
    requires ExactlyEdgesOut(graph, Target(result[index]), explored, next)
    requires Expansion(result, index, next, grown)
    ensures AllPathsFrom(graph, node, grown)
  {
    var p := result[index];
    forall i | 0 <= i < |grown|
      ensures |grown[i]| > 0 && IsPathFrom(graph, node, grown[i])
    {
      if i < |result| {
        assert grown[i] == result[i];
      } else {
        var e := next[i - |result|];
        assert e in next;
        assert grown[i] == p + [e];
        assert IsPathFrom(graph, node, p);
      }
    }
  }

  /** Expanding entry `index` keeps the leading singletons and prefix closure. */
  lemma StepPrefix(first: seq<Edge>, result: seq<Path>, index: int, next: seq<Edge>, grown: seq<Path>)
    requires AllNonEmpty(result)
    requires 0 <= index < |result|
    requires LeadingSingletons(first, result)
    requires PrefixClosed(result)
    requires Expansion(result, index, next, grown)
    ensures LeadingSingletons(first, grown)
    ensures PrefixClosed(grown)
  {
    var p := result[index];
    forall i | 0 <= i < |grown|
      ensures ExtendsEarlier(grown, i)
    {
      if i < |result| {
        ExpansionPrefix(result, index, next, grown, i);
        assert ExtendsEarlier(result, i);
      } else {
        assert grown[i] == p + [next[i - |result|]];
        assert Parent(grown[i]) == p == grown[..i][index];
      }
    }
  }

  /** Expanding entry `index` keeps path lengths in breadth-first order. */
  lemma StepOrder(result: seq<Path>, index: int, next: seq<Edge>, grown: seq<Path>)
    requires 0 <= index < |result|
    requires BreadthFirst(result)
    requires |result[|result| - 1]| <= |result[index]| + 1
    requires Expansion(result, index, next, grown)
    ensures BreadthFirst(grown)
    ensures index + 1 < |grown| ==> |grown[|grown| - 1]| <= |grown[index + 1]| + 1
  {
    var p := result[index];
    forall i | |result| <= i < |grown|
      ensures |grown[i]| == |p| + 1
    {
      assert grown[i] == p + [next[i - |result|]];
    }
    forall i, j | 0 <= i <= j < |grown|
      ensures |grown[i]| <= |grown[j]|
    {
      if j < |result| {
        assert grown[i] == result[i] && grown[j] == result[j];
      } else if i < |result| {
        assert grown[i] == result[i];
        assert |result[i]| <= |result[|result| - 1]|;
      }
    }
  }

  /** Expanding entry `index` keeps every node an entry passes through before
      its last edge among the ends of earlier entries. */
  lemma StepAncestors(result: seq<Path>, index: int, next: seq<Edge>, grown: seq<Path>)
    requires AllNonEmpty(result)
    requires 0 <= index < |result|
    requires AncestorsEarlier(result)
    requires Expansion(result, index, next, grown)
    ensures AllNonEmpty(grown)
    ensures AncestorsEarlier(grown)
  {
    var p := result[index];
    assert AllNonEmpty(grown) by {
      forall i | |result| <= i < |grown|
        ensures |grown[i]| > 0
      {
        assert grown[i] == p + [next[i - |result|]];
      }
    }
    forall i | 0 <= i < |grown|
      ensures PassesEarlierEnds(grown, i)
    {
      if i < |result| {
        ExpansionPrefix(result, index, next, grown, i);
        assert grown[i] == result[i];
        assert PassesEarlierEnds(result, i);
      } else {
        assert PassesEarlierEnds(result, index);
        NewEntryAncestors(result, index, next, grown, i);
      }
    }
  }

  /** A new entry passes only through the expanded entry's nodes, all of
      them ends of entries no later than the expanded one. */
  lemma NewEntryAncestors(result: seq<Path>, index: int, next: seq<Edge>, grown: seq<Path>, i: int)
    requires AllNonEmpty(result) && AllNonEmpty(grown)
    requires 0 <= index < |result| <= i < |grown|
    requires PassesEarlierEnds(result, index)
    requires Expansion(result, index, next, grown)
    ensures PassesEarlierEnds(grown, i)
  {
    var p := result[index];
    assert grown[i] == p + [next[i - |result|]];
    var before := Targets(grown[..i]);
    forall m | 0 <= m <= index
      ensures before[m] == Target(result[m])
    {
      assert grown[..i][m] == grown[m] == result[m];
    }
    forall k | 0 <= k < |grown[i]| - 1
      ensures grown[i][k].destination in before
    {
      if k < |p| - 1 {
        assert grown[i][k] == p[k];
        var x := p[k].destination;
        assert x in Targets(result[..index]);
        var m :| 0 <= m < index && Targets(result[..index])[m] == x;
        assert result[..index][m] == result[m];
        assert before[m] == x;
      } else {
        assert before[index] == Target(p);
      }
    }
  }

  /** Expanding entry `index` keeps every entry from returning to a node it
      has left: the new last edge avoids every explored node, and those
      include `node` and every node the expanded entry passed through. */
  lemma StepNeverReturns(graph: Graph, node: Node, result: seq<Path>, index: int, explored: seq<Node>,
                         next: seq<Edge>, grown: seq<Path>)
    requires ExploredBefore(node, result, index, explored)
    requires index < |result|
    requires AncestorsEarlier(result)
    requires forall i :: 0 <= i < |result| ==> NeverReturns(node, result[i])
    requires ExactlyEdgesOut(graph, Target(result[index]), explored, next)
    requires Expansion(result, index, next, grown)
    ensures forall i :: 0 <= i < |grown| ==> NeverReturns(node, grown[i])
  {
    var p := result[index];
    forall i | 0 <= i < |grown|
      ensures NeverReturns(node, grown[i])
    {
      if i < |result| {
        assert grown[i] == result[i];
      } else {
        var e := next[i - |result|];
        assert grown[i] == p + [e];
        assert e in next;
        assert e.destination !in explored;
        assert PassesEarlierEnds(result, index);
        assert NeverReturns(node, p);
      }
    }
  }

  /** Expanding entry `index` completes the expansion of that entry, and the
      earlier entries stay expanded. */
  lemma StepExpanded(graph: Graph, node: Node, result: seq<Path>, index: int, explored: seq<Node>,
                     next: seq<Edge>, grown: seq<Path>)
    requires ExploredBefore(node, result, index, explored)
    requires index < |result|
    requires ExpandedUpTo(graph, node, result, index)
    requires ExactlyEdgesOut(graph, Target(result[index]), explored, next)
    requires Expansion(result, index, next, grown)
    requires AllNonEmpty(grown)
    ensures ExploredBefore(node, grown, index + 1, explored + [Target(result[index])])
    ensures ExpandedUpTo(graph, node, grown, index + 1)
  {
    var p := result[index];
    ExpansionPrefix(result, index, next, grown, index + 1);
    assert result[..index + 1] == result[..index] + [p];
    TargetsAppend(result[..index], [p]);
    forall i | 0 <= i < index + 1
      ensures EntryExpanded(graph, node, grown, i)
    {
      ExpansionPrefix(result, index, next, grown, i);
      assert grown[i] == result[i];
      if i < index {
        assert EntryExpanded(graph, node, result, i);
        forall e | e in graph.edges && e.source == Target(grown[i]) && e.destination !in [node] + Targets(grown[..i])
          ensures grown[i] + [e] in grown
        {
          assert result[i] + [e] in result;
          var j :| 0 <= j < |result| && result[j] == result[i] + [e];
          assert grown[j] == result[j];
        }
      } else {
        forall e | e in graph.edges && e.source == Target(p) && e.destination !in [node] + Targets(grown[..i])
          ensures grown[i] + [e] in grown
        {
          assert e in next;
          var j :| 0 <= j < |next| && next[j] == e;
          assert grown[|result| + j] == p + [e];
        }
      }
    }
  }

  /** After expanding entry `index`, every edge out of an explored node still
      leads to an explored node or to the end of some entry. */
  lemma StepClosed(graph: Graph, node: Node, result: seq<Path>, index: int, explored: seq<Node>,
                   next: seq<Edge>, grown: seq<Path>)
    requires AllNonEmpty(result)
    requires 0 <= index < |result|
    requires ClosedUpTo(graph, result, explored)
    requires ExactlyEdgesOut(graph, Target(result[index]), explored, next)
    requires Expansion(result, index, next, grown)
    requires AllNonEmpty(grown)
    ensures ClosedUpTo(graph, grown, explored + [Target(result[index])])
  {
    var p := result[index];
    var c := Target(p);
    forall e | e in graph.edges && e.source in explored + [c]
      ensures e.destination in explored + [c] || e.destination in Targets(grown)
    {
      if e.source == c && e.destination !in explored {
        assert e in next;
        var j :| 0 <= j < |next| && next[j] == e;
        assert grown[|result| + j] == p + [e];
        assert Targets(grown)[|result| + j] == e.destination;
      } else {
        assert e.destination in explored || e.destination in Targets(result);
        if e.destination !in explored {
          var j :| 0 <= j < |result| && Targets(result)[j] == e.destination;
          assert grown[j] == result[j];
          assert Targets(grown)[j] == e.destination;
        }
      }
    }
  }

  /** Each expansion lowers the termination measure of the search loop: either
      the expanded end was not explored yet, so fewer nodes stay unexplored, or
      it was, and then every new entry ends outside the explored nodes, so one
      entry fewer waits whose end is already explored. */
  lemma StepMeasure(graph: Graph, node: Node, result: seq<Path>, index: int, explored: seq<Node>,
                    next: seq<Edge>, grown: seq<Path>, universe: set<Node>, seen: set<Node>)
    requires AllPathsFrom(graph, node, result)
    requires 0 <= index < |result|
    requires ExactlyEdgesOut(graph, Target(result[index]), explored, next)
    requires Expansion(result, index, next, grown)
    requires AllNonEmpty(grown)
    requires universe == NodesOf(graph) + {node}
    requires seen <= universe
    requires forall n :: n in seen <==> n in explored
    ensures seen + {Target(result[index])} <= universe
    ensures |universe - (seen + {Target(result[index])})| < |universe - seen|
            || (|universe - (seen + {Target(result[index])})| == |universe - seen|
                && CountEndingIn(grown[index + 1..], seen + {Target(result[index])})
                   < CountEndingIn(result[index..], seen))
  {
    var p := result[index];
    var c := Target(p);
    assert IsPathFrom(graph, node, p);
    assert p[|p| - 1] in graph.edges;
    assert c in universe;
    if c !in seen {
      assert universe - seen == (universe - (seen + {c})) + {c};
    } else {
      assert seen + {c} == seen;
      var kids := grown[|result|..];
      assert AllNonEmpty(kids);
      assert grown[index + 1..] == result[index + 1..] + kids;
      CountEndingInAppend(result[index + 1..], kids, seen);
      forall j | 0 <= j < |kids|
        ensures Target(kids[j]) !in seen
      {
        assert kids[j] == grown[|result| + j] == p + [next[j]];
        assert next[j] in next;
      }
      NoneEndingIn(kids, seen);
      assert result[index..][1..] == result[index + 1..];
    }
  }

  lemma {:induction false} NoneEndingIn(ps: seq<Path>, s: set<Node>)
    requires AllNonEmpty(ps)
    requires forall j :: 0 <= j < |ps| ==> Target(ps[j]) !in s
    ensures CountEndingIn(ps, s) == 0
    decreases |ps|
  {
    if |ps| > 0 {
      NoneEndingIn(ps[1..], s);
    }
  }

  /** Every end of an entry is reachable from `node`. */
  lemma SearchSound(graph: Graph, node: Node, result: seq<Path>)
    requires AllPathsFrom(graph, node, result)
    ensures forall x :: x in Targets(result) ==> Reachable(graph, node, x)
  {
    forall x | x in Targets(result)
      ensures Reachable(graph, node, x)
    {
      var i :| 0 <= i < |result| && Targets(result)[i] == x;
      assert IsPathFrom(graph, node, result[i]) && Target(result[i]) == x;
    }
  }

  /** When every entry has been expanded, the explored nodes are `node` and
      the ends of all entries, and they are closed under the graph's edges, so
      every node reachable from `node` is among them. */
  lemma SearchComplete(graph: Graph, node: Node, result: seq<Path>, explored: seq<Node>)
    requires ExploredBefore(node, result, |result|, explored)
    requires ClosedUpTo(graph, result, explored)
    ensures forall x :: Reachable(graph, node, x) ==> x == node || x in Targets(result)
  {
    assert result[..|result|] == result;
    forall x | Reachable(graph, node, x)
      ensures x == node || x in Targets(result)
    {
      var p :| IsPathFrom(graph, node, p) && Target(p) == x;
      ClosedContainsTargets(graph, node, explored, p);
    }
  }

  /** No later edge of an entry returns to `node`, so an entry can end at
      `node` only through the self-loop edge taken first. */
  lemma SelfLoopOnlyWayBack(graph: Graph, node: Node, result: seq<Path>)
    requires AllPathsFrom(graph, node, result)
    requires forall i :: 0 <= i < |result| ==> NeverReturns(node, result[i])
    ensures node in Targets(result) ==> Edge(node, node) in graph.edges
  {
    if node in Targets(result) {
      var i :| 0 <= i < |result| && Targets(result)[i] == node;
      var p := result[i];
      assert IsPathFrom(graph, node, p) && NeverReturns(node, p);
      assert p[|p| - 1].destination == node;
      assert |p| == 1;
      assert p[0] == Edge(node, node);
    }
  }

  /** A self-loop on `node` is among its first-level edges, so the one-edge
      path along it ends an entry. */
  lemma SelfLoopFound(graph: Graph, node: Node, result: seq<Path>)
    requires AllNonEmpty(result)
    requires LeadingSingletons(EdgesWithNodeSource(graph, node, []), result)
    ensures Edge(node, node) in graph.edges ==> node in Targets(result)
  {
    var first := EdgesWithNodeSource(graph, node, []);
    FilterIsExact(graph, node, []);
    if Edge(node, node) in graph.edges {
      assert Edge(node, node) in first;
      var j :| 0 <= j < |first| && first[j] == Edge(node, node);
      assert Targets(result)[j] == node;
    }
  }

  /** The first entry of a prefix-closed result has nothing before it to
      extend, so it is a single edge (or empty). */
  lemma FirstEntryShort(result: seq<Path>)
    requires PrefixClosed(result)
    requires |result| > 0
    ensures |result[0]| < 2
  {
    assert ExtendsEarlier(result, 0);
  }

  /** Without first-level edges nothing is ever appended: an entry after
      them would have to extend an earlier one, and there is none. */
  lemma SearchEmpty(first: seq<Edge>, result: seq<Path>)
    requires LeadingSingletons(first, result)
    requires PrefixClosed(result)
    ensures first == [] ==> result == []
  {
    if first == [] && |result| > 0 {
      FirstEntryShort(result);
      assert false;
    }
  }

  /** What the finished search loop establishes about its result. */
  lemma SearchFinal(graph: Graph, node: Node, first: seq<Edge>, result: seq<Path>, index: int,
                    explored: seq<Node>)
    requires SearchState(graph, node, first, result, index, explored)
    requires index >= |result|
    requires first == EdgesWithNodeSource(graph, node, [])
    ensures AllPathsFrom(graph, node, result)
    ensures LeadingSingletons(EdgesWithNodeSource(graph, node, []), result)
    ensures PrefixClosed(result)
    ensures BreadthFirst(result)
    ensures forall i :: 0 <= i < |result| ==> NeverReturns(node, result[i])
    ensures ExpandedUpTo(graph, node, result, |result|)
    ensures forall x :: x != node ==> (x in Targets(result) <==> Reachable(graph, node, x))
    ensures node in Targets(result) <==> Edge(node, node) in graph.edges
    ensures EdgesWithNodeSource(graph, node, []) == [] ==> result == []
  {
    SearchSound(graph, node, result);
    SearchComplete(graph, node, result, explored);
    SelfLoopOnlyWayBack(graph, node, result);
    SelfLoopFound(graph, node, result);
    SearchEmpty(first, result);
  }

  /** One turn of the search loop keeps its state and lowers its measure. */
  lemma SearchStep(graph: Graph, node: Node, first: seq<Edge>, result: seq<Path>, index: int,
                   explored: seq<Node>, next: seq<Edge>, grown: seq<Path>,
                   universe: set<Node>, seen: set<Node>)
    requires SearchState(graph, node, first, result, index, explored)
    requires index < |result|
    requires ExactlyEdgesOut(graph, Target(result[index]), explored, next)
    requires Expansion(result, index, next, grown)
    requires universe == NodesOf(graph) + {node}
    requires seen <= universe
    requires forall n :: n in seen <==> n in explored
    ensures SearchState(graph, node, first, grown, index + 1, explored + [Target(result[index])])
    ensures seen + {Target(result[index])} <= universe
    ensures |universe - (seen + {Target(result[index])})| < |universe - seen|
            || (|universe - (seen + {Target(result[index])})| == |universe - seen|
                && CountEndingIn(grown[index + 1..], seen + {Target(result[index])})
                   < CountEndingIn(result[index..], seen))
  {
    StepPaths(graph, node, result, index, explored, next, grown);
    StepPrefix(first, result, index, next, grown);
    StepOrder(result, index, next, grown);
    StepAncestors(result, index, next, grown);
    StepNeverReturns(graph, node, result, index, explored, next, grown);
    StepExpanded(graph, node, result, index, explored, next, grown);
    StepClosed(graph, node, result, index, explored, next, grown);
    StepMeasure(graph, node, result, index, explored, next, grown, universe, seen);
  }

  /** The expansion of one entry: the edges out of the end of entry
      `index` into nodes outside `explored`, and the result with entry
      `index` extended by each of them appended in turn. */
  method ExpandEntry(graph: Graph, result: seq<Path>, index: int, explored: seq<Node>)
    returns (next: seq<Edge>, grown: seq<Path>)
    requires 0 <= index < |result|
    requires |result[index]| > 0
    ensures next == EdgesWithNodeSource(graph, Target(result[index]), explored)
    ensures ExactlyEdgesOut(graph, Target(result[index]), explored, next)
    ensures Expansion(result, index, next, grown)
  {
    var current := result[index][|result[index]| - 1].destination;
    next := EdgesWithNodeSource(graph, current, explored);
    FilterIsExact(graph, current, explored);
    grown := result;
    var k := 0;
    while k < |next|
      invariant 0 <= k <= |next|
      invariant |grown| == |result| + k
      invariant forall i :: 0 <= i < |result| ==> grown[i] == result[i]
      invariant forall i :: |result| <= i < |grown| ==> grown[i] == result[index] + [next[i - |result|]]
    {
      grown := grown + [result[index] + [next[k]]];
      k := k + 1;
    }
  }

  /** The search loop: expands the entries in order, the
      appended ones included, until every entry has been expanded once. It
      starts from the first-level paths with only the start node explored. */
  method ExpandAll(graph: Graph, node: Node, first: seq<Edge>, start: seq<Path>)
    returns (result: seq<Path>, explored: seq<Node>)
    requires SearchState(graph, node, first, start, 0, [node])
    requires start == Singletons(first)
    ensures SearchState(graph, node, first, result, |result|, explored)
    ensures Unfolds(graph, node, first, result)
  {
    result := start;
    explored := [node];
    var index := 0;
    ghost var universe := NodesOf(graph) + {node};
    ghost var seen: set<Node> := {node};
    ghost var waiting: nat := CountEndingIn(result[index..], seen);
    while index < |result|
      invariant SearchState(graph, node, first, result, index, explored)
      invariant seen <= universe
      invariant forall n :: n in seen <==> n in explored
      invariant waiting == CountEndingIn(result[index..], seen)
      invariant result == Unfolded(graph, node, first, result, index)
      decreases |universe - seen|, waiting
    {
      var current := Target(result[index]);
      var next, grown := ExpandEntry(graph, result, index, explored);
      SearchStep(graph, node, first, result, index, explored, next, grown, universe, seen);
      StepUnfolded(graph, node, first, result, index, explored, next, grown);
      result := grown;
      explored := explored + [current];
      seen := seen + {current};
      index := index + 1;
      waiting := CountEndingIn(result[index..], seen);
    }
  }

  /** The breadth-first path enumeration. Each result entry is
      a path from `node`; the entries come in the order the search appends
      them. A node counts as explored once a path ending at it has been
      expanded, not when it is first reached, so several entries may end at
      the same node. The last clause pins the result down completely: it is
      the one solution of the search-list equation (`UnfoldsUnique`). */
  method GetSearchList(graph: Graph, node: Node) returns (result: seq<Path>)
    ensures AllPathsFrom(graph, node, result)
    ensures LeadingSingletons(EdgesWithNodeSource(graph, node, []), result)
    ensures PrefixClosed(result)
    ensures BreadthFirst(result)
    ensures forall i :: 0 <= i < |result| ==> NeverReturns(node, result[i])
    ensures ExpandedUpTo(graph, node, result, |result|)
    ensures forall x :: x != node ==> (x in Targets(result) <==> Reachable(graph, node, x))
    ensures node in Targets(result) <==> Edge(node, node) in graph.edges
    ensures EdgesWithNodeSource(graph, node, []) == [] ==> result == []
    ensures Unfolds(graph, node, EdgesWithNodeSource(graph, node, []), result)
  {
    var first := EdgesWithNodeSource(graph, node, []);
    FilterIsExact(graph, node, []);
    SearchStart(graph, node, first);
    var explored;
    result, explored := ExpandAll(graph, node, first, Singletons(first));
    SearchFinal(graph, node, first, result, |result|, explored);
  }

  /** Whether some path of `paths` ends at `destination`, scanning in order. */
  method AnyEndsAt(paths: seq<Path>, destination: Node) returns (found: bool)
    requires AllNonEmpty(paths)
    ensures found <==> destination in Targets(paths)
  {
    var i := 0;
    while i < |paths|
      invariant 0 <= i <= |paths|
      invariant forall j :: 0 <= j < i ==> Target(paths[j]) != destination
    {
      if paths[i][|paths[i]| - 1].destination == destination {
        assert Targets(paths)[i] == destination;
        return true;
      }
      i := i + 1;
    }
    return false;
  }

  /** Whether `source` can reach `destination`. An admin source
      reaches everything without a search; otherwise the answer is whether
      some path of the search list ends at `destination`, which makes a
      principal connected to itself only through a self-loop edge. */
  method IsConnected(graph: Graph, source: Node, destination: Node) returns (connected: bool)
    ensures source.isAdmin ==> connected
    ensures (!source.isAdmin && destination != source) ==> (connected <==> Reachable(graph, source, destination))
    ensures (!source.isAdmin && destination == source) ==> (connected <==> Edge(source, source) in graph.edges)
    ensures !source.isAdmin && (forall e :: e in graph.edges ==> e.source != source) ==> !connected
  {
    if source.isAdmin {
      return true;
    }
    var paths := GetSearchList(graph, source);
    connected := AnyEndsAt(paths, destination);
    if connected && destination != source {
      assert Reachable(graph, source, destination);
    }
  }
}
