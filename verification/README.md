# Principal-graph querying helpers, modelled in Dafny

PMapper (Principal Mapper) builds a graph of the principals of an AWS
account. A node is an IAM user or role. An edge from `a` to `b` means that
`a` can obtain the permissions of `b`. This project models the three reachability
helpers of `principalmapper/querying/query_utils.py`: the graph filter, the
breadth-first path search and the connectivity test.

- `get_edges_with_node_source` is a stable filter. It keeps the graph's edges
  that leave a given node and do not enter an ignored node, in the graph's
  order.
- `get_search_list` is a breadth-first enumeration of edge paths from a
  source principal. It keeps a list of explored nodes so that it stops.
- `is_connected` answers "can `source` reach `destination`?". An admin source
  always can. Otherwise the answer is whether some path of the search list
  ends at `destination`.

The model has three modules:

- `Common` (`common.dfy`) holds nodes, edges, graphs and paths, together with
  reachability as an independent reference definition. A node is reachable
  when some non-empty chain of graph edges leads to it.
- `QueryUtils` (`query_utils.dfy`) holds the three operations and the
  invariants of the search loop.
  - The loop's state is a single predicate, `SearchState`.
  - Each `Step*` lemma shows that one iteration keeps one part of that state.
  - Termination rests on a lexicographic measure: first the number of
    unexplored nodes, then the number of pending entries whose end is already
    explored.
- `Scenarios` (`scenarios.dfy`) proves the whole search list on a four-node
  diamond, for any four distinct nodes. The far node ends an entry along each
  of its two routes.

Behaviour the code has, and that a reader of its docstrings might not expect:

- **Several paths to one node.** A node is marked explored when a path ending
  at it is expanded, not when it is first reached. On the diamond
  `a→b, a→c, b→d, c→d`, the search from `a` therefore lists both `[a→b, b→d]`
  and `[a→c, c→d]` (`Scenarios.DiamondSearch`). The docstring says each path
  leads to "a new unique node". The model follows the code.
- **Self-connection only through a self-loop.** The start node is explored
  before any expansion. So no entry of length two or more ever ends at it. A
  non-admin principal is connected to itself exactly when the graph holds the
  edge from it to itself. A longer cycle back to it does not count.
- **A start node that has no edges is no error.** The search list is empty, and
  `is_connected` is false for a non-admin source.

## Model

| member | source | states |
|---|---|---|
| QueryUtils.EdgesWithNodeSource | principalmapper/querying/query_utils.py:51-59 | The result keeps the graph's edge order, as a subsequence of its edges. Each edge that leaves `node` and does not enter an ignored node appears exactly as often as the graph holds it. No other edge appears. |
| QueryUtils.EdgesWithNodeSourceUnique | principalmapper/querying/query_utils.py:55-59 | Those properties determine the filter: any ordered subsequence of the edges with those counts equals the filter's result. |
| QueryUtils.FilterIsExact | principalmapper/querying/query_utils.py:57-58 | An edge is in the filter's result iff it is a graph edge, leaves `node`, and enters no ignored node. |
| QueryUtils.ExpandEntry | principalmapper/querying/query_utils.py:42-44 | `next` is the filter's result for the entry's end with the explored nodes ignored. So it holds the edges out of that end into unexplored nodes, in the graph's order and multiplicity. The step appends, in that order, the entry extended by each of those edges. Earlier entries are untouched. |
| QueryUtils.SearchStart | principalmapper/querying/query_utils.py:31-37 | After the first-level edges are collected, each entry is a one-edge path from the start node. Only the start node is explored. Every edge out of it ends an entry. |
| QueryUtils.StepPaths | principalmapper/querying/query_utils.py:42-44 | After an iteration every entry is still a path from the start node along graph edges. Each new entry is the expanded entry followed by a graph edge out of its end. |
| QueryUtils.StepPrefix | principalmapper/querying/query_utils.py:42-44 | After an iteration the list still opens with the first-level one-edge paths, every later entry has at least two edges, and every entry of two or more edges extends an earlier entry by one edge. |
| QueryUtils.StepOrder | principalmapper/querying/query_utils.py:41-46 | After an iteration path lengths still never decrease along the list. The last entry stays at most one edge longer than the next entry to expand. |
| QueryUtils.StepAncestors | principalmapper/querying/query_utils.py:42-45 | After an iteration every node an entry passes through before its last edge is still the end of an earlier entry, so it is explored before that entry is expanded. |
| QueryUtils.StepExpanded | principalmapper/querying/query_utils.py:42-45 | After an iteration, the expanded entry's end has joined the explored list. Every edge out of that end into a node that was unexplored then has produced its extension. Earlier entries stay expanded. |
| QueryUtils.StepNeverReturns | principalmapper/querying/query_utils.py:43-45 | After its first edge, no edge of a new entry enters the start node. No edge enters a node the path passed through before its current end. A self-loop on the current end is the one exception, as in `[a→b, b→b]`. This holds because the new edge avoids every explored node. |
| QueryUtils.StepClosed | principalmapper/querying/query_utils.py:42-45 | After an iteration, every edge out of an explored node still leads to an explored node or to the end of some entry. |
| QueryUtils.StepMeasure | principalmapper/querying/query_utils.py:41-46 | Each iteration lowers the loop's measure. Either one node fewer is unexplored, or one entry fewer waits whose end is already explored. So the loop ends even on cyclic graphs. |
| QueryUtils.StepUnfolded | principalmapper/querying/query_utils.py:41-46 | When the list so far is the first-level paths followed by the expansions of the entries before `index`, expanding entry `index` along the filter's edges keeps that true for one more entry. |
| QueryUtils.ExpandAll | principalmapper/querying/query_utils.py:40-46 | The loop ends with every entry expanded. The explored list is then the start node followed by the end of every entry. The result is the first-level paths followed, entry by entry, by what expanding that entry appends. |
| QueryUtils.UnfoldsUnique | principalmapper/querying/query_utils.py:31-46 | The search-list equation has one solution. Two lists that each equal the same first-level paths followed by their own entries' expansions are equal, order and repetitions included. |
| QueryUtils.SearchSound | principalmapper/querying/query_utils.py:35-44 | Every entry's end is reachable from the start node. |
| QueryUtils.SearchComplete | principalmapper/querying/query_utils.py:41-46 | Every node reachable from the start node is the start node or the end of some entry. This holds because the explored nodes are closed under the graph's edges when the loop stops. |
| QueryUtils.SelfLoopOnlyWayBack | principalmapper/querying/query_utils.py:37-45 | An entry ends at the start node only if the graph has the self-loop edge on it. |
| QueryUtils.SelfLoopFound | principalmapper/querying/query_utils.py:35-36 | If the graph has the self-loop edge on the start node, the one-edge path along it is an entry. |
| QueryUtils.SearchEmpty | principalmapper/querying/query_utils.py:35-46 | With no first-level edges, the search list is empty. |
| QueryUtils.GetSearchList | principalmapper/querying/query_utils.py:27-48 | Every entry is a path from the start node. The list opens with the first-level edges, in the graph's order, as one-edge paths. Every other entry extends an earlier entry by one edge. Lengths never decrease. After its first edge, no edge of an entry enters the start node, and no edge enters a node the path passed through before its current end, a self-loop on that end excepted. Every entry is expanded. A node other than the start ends an entry iff it is reachable. The start node ends an entry iff it has a self-loop. No first-level edges means an empty list. Above all, the result is the first-level paths followed, entry by entry, by the entry extended along each edge the filter yields out of its end into a node unexplored at that point. That equation has only one solution (`UnfoldsUnique`). |
| QueryUtils.AnyEndsAt | principalmapper/querying/query_utils.py:67-70 | The scan answers true iff some path of the list ends at `destination`. |
| QueryUtils.IsConnected | principalmapper/querying/query_utils.py:62-71 | An admin source is connected to everything. A non-admin source is connected to another node iff that node is reachable, and to itself iff the graph has its self-loop edge. It is connected to nothing when it has no outgoing edges. |
| Scenarios.DiamondUnfolds | principalmapper/querying/query_utils.py:31-46 | On the diamond with distinct nodes, the list `[a→b]`, `[a→c]`, `[a→b, b→d]`, `[a→c, c→d]` (`DiamondList`) satisfies the search-list equation for the search from `a`: both edges out of `a`, then `b` and `c` each extended to the unexplored `d`, then nothing from `d`. |
| Scenarios.DiamondSearch | principalmapper/querying/query_utils.py:27-48 | On the diamond `a→b, a→c, b→d, c→d` with distinct nodes, the search from `a` lists exactly `[a→b]`, `[a→c]`, `[a→b, b→d]`, `[a→c, c→d]`, in that order. So it lists both routes to `d`. |

## Left out

- `pull_resource_policy_by_arn` (lines 74-92) is left out. It fetches a resource policy over the network through botocore and parses ARNs with `principalmapper.util.arns`, which is not part of this model.
- `principalmapper.common` is not part of this model.
  - A node becomes its ARN and its admin flag, compared as values. This assumes one node object per ARN in a graph, so that the helpers' `==` and `in` tests (object identity, unless `Node` defines its own equality, which this model cannot see) agree with comparing ARNs.
  - An edge becomes its two endpoints. Any other field it carries is dropped. Two parallel edges between the same nodes therefore become equal values. The filter still keeps each of them, as the multiset counts state.
  - A graph becomes its list of edges. Its node list, policies and groups are not read by these helpers.
- The copy `result[index][:]` at line 44 only guards against aliasing between Python lists. Paths here are immutable values, so the copy has no counterpart.
- Running time is not modelled. The number of paths can grow exponentially on graphs with many routes to the same node.
