# Bitcoin trust network analysis: a Dafny model

The system loads a signed "who-trusts-whom" rating network, where each row
reads "source rated target r, at time t" with r between -10 and +10. It builds
three directed graphs: the whole network, the trust view (positive ratings)
and the distrust view (negative ratings). A set of analyses then runs on these
graphs:

- shortest trust paths between two users, with a risk level and quality
  figures for a path;
- breadth-first reachability by hop, the trust radius of a user, the reach of
  a sample of users, and coverage from a set of anchor users;
- weakly and strongly connected components, the largest component, the
  network's coverage and health, and articulation points;
- the structure of a given community partition: community sizes, small
  communities with no tie to the main component, members, and edges between
  communities;
- a ranking of nodes by a centrality score and a side-by-side comparison of
  centrality measures.

This project models those analyses in Dafny and proves what they promise. The
graph-library primitives the analyses rely on are defined here from scratch:

- hop-bounded shortest-path lengths;
- shortest paths;
- weakly and strongly connected components;
- connectivity after a node is removed.

## Modules

- `Seqs` (seqs.dfy) holds sequence helpers: `Dedup`, `Select`, sums, minimum,
  maximum, mean and counting between bounds.
- `Digraph` (digraph.dfy) covers reachability over a finite edge relation.
  `Ball(E, s, k)` is the set of nodes within k hops and `Layer(E, s, k)` the
  set at distance exactly k. Both are tied to walks by lemmas.
- `TrustGraph` (trust_graph.dfy) holds the rating rows, the `Graph` value
  (nodes in insertion order, a map from node pairs to edge attributes), the
  row filter, graph building and the trust and distrust views.
- `Traversal` (traversal.dfy) holds the breadth-first search behind
  shortest-path lengths and the component enumerations.
- `Classes` (classes.dfy) holds mutual-reachability classes: they partition
  the nodes, and there is one class per distinct class.
- `Paths`, `Reachability`, `Components`, `Community` and `Centrality` model
  the five analysis files.

## Model

| member | source | states |
|---|---|---|
| Seqs.DedupSnoc | app.py:224-225 | Nodes are added in order of first appearance: an element is appended exactly when it has not appeared before. |
| Seqs.SelectAppend | analysis/reachability.py:98-99 | Selecting the present elements keeps their order: selection distributes over concatenation. |
| TrustGraph.KeepRows | app.py:216 | A row is kept exactly when the absolute value of its rating reaches the threshold. No row is invented. |
| TrustGraph.KeepRowsAppend | app.py:216 | Filtering keeps row order: filtering a concatenation is the concatenation of the filtered parts. |
| TrustGraph.KeepRowsAll | app.py:212-216 | With the default threshold of 0, every row is kept unchanged. |
| TrustGraph.LastRow | app.py:224-225 | For every rated pair there is a last row naming it, and no later row names that pair. |
| TrustGraph.BuildGraph | app.py:221-225 | Nodes are the row endpoints, deduplicated in first-appearance order. The edge keys are exactly the rated pairs. Each edge carries the rating, the time and the absolute rating (as weight) of the last row for its pair. The graph is valid. |
| TrustGraph.BuiltValid | app.py:224-225 | A node is in the built graph exactly when it is the source or target of some row. The graph is valid. |
| TrustGraph.LaterRowWins | app.py:225 | When a row is the last for its pair, the pair's edge holds that row's rating, time and the absolute rating as weight, whatever earlier rows said. |
| TrustGraph.EdgeSubgraph | app.py:228 | An edge-induced subgraph keeps exactly the selected edges that exist, with unchanged attributes. Its nodes are exactly the endpoints of those edges. |
| TrustGraph.SubgraphValid | app.py:227-231 | An edge-induced view is a valid graph with no isolated node. |
| TrustGraph.BuildGraphs | app.py:221-233 | Returns the full graph as built. The trust view holds exactly the positively rated edges and the distrust view exactly the negatively rated edges, each with the full graph's attributes. Each view's nodes are exactly its edge endpoints. |
| TrustGraph.ViewsDisjoint | app.py:227-231 | No edge is in both views. An edge rated 0 is in neither. |
| Digraph.BallIsWalkWithin | analysis/reachability.py:35 | A node lies within k hops exactly when some walk of at most k edges reaches it. This is the cutoff meaning of the shortest-path-length primitive. |
| Digraph.LayerIsDistance | analysis/reachability.py:35 | A node is in layer d exactly when it is reachable within d hops and not within d - 1. |
| Digraph.NoShorterWalk | analysis/paths.py:30 | No walk to a node of layer d has fewer than d edges. |
| Digraph.ReachesIffBall | analysis/paths.py:30 | In a graph on V, reachability is the same as lying within as many hops as V has nodes. |
| Digraph.Saturated | analysis/components.py:30 | In a graph on V, the breadth-first frontier stops growing once the hop count reaches the number of nodes. |
| Digraph.LayerBound | analysis/paths.py:165 | A shortest distance in a graph on V is less than the number of nodes. |
| Digraph.BallCard | analysis/reachability.py:67-69 | The k-hop ball is the (k-1)-hop ball plus layer k, disjointly. |
| Digraph.Distance | analysis/paths.py:165 | For a node within the bound, the shortest distance is the unique layer holding it. |
| Traversal.ShortestPathLengths | analysis/reachability.py:35 | The keys are exactly the nodes within the cutoff. Each value is that node's shortest hop distance. |
| Traversal.WeaklyConnectedComponents | analysis/components.py:30 | One class per undirected reachability class, listed in order of each class's first node. |
| Traversal.StronglyConnectedComponents | analysis/components.py:75 | One class per mutual-reachability class, in the same order. |
| Classes.ClassesPartition | analysis/components.py:30 | The listed classes are nonempty, pairwise disjoint, closed under mutual reachability and inside the node set. |
| Classes.ClassesCover | analysis/components.py:30 | Every node is in some listed class. |
| Classes.ClassesCount | analysis/components.py:41 | The number of listed classes equals the number of distinct classes of the graph. |
| Classes.SizesSum | analysis/components.py:31 | The class sizes add up to the number of nodes the classes cover. |
| Paths.PathRatings | analysis/paths.py:34 | One rating per hop: the rating of the edge between consecutive path nodes. |
| Paths.WalkBack | analysis/paths.py:30 | Rebuilds a walk of exactly d edges from source to a target at distance d. |
| Paths.FindShortestPath | analysis/paths.py:10-64 | NodeNotFound exactly when an endpoint is missing. NoPath exactly when both exist but the target is unreachable. In both error cases the path is empty and the figures are zero. Otherwise the path is a walk from source to target that no other walk undercuts; its length is its hop count, its total trust the sum of its hop ratings, and the average is total/length (0 for length 0). |
| Paths.AssessPathRisk | analysis/paths.py:67-107 | HIGH exactly when no path was found. Otherwise the result is the worse of the length risk and the trust risk, and equals one of them. |
| Paths.RiskMonotoneInLength | analysis/paths.py:84-101 | At the same average trust, a longer path is never rated less risky. |
| Paths.RiskAntitoneInTrust | analysis/paths.py:91-101 | At the same length, a higher average trust is never rated more risky. |
| Paths.QualityOf | analysis/paths.py:129-137 | Length is the number of hops. Minimum and maximum are ratings on the path that bound all others. The weakest link is the minimum. all_positive holds exactly when every rating is positive. |
| Paths.QualityAverageInRange | analysis/paths.py:132-134 | The average rating lies between the minimum and the maximum. |
| Paths.CollectedRatings | analysis/paths.py:124-127 | Ratings collected hop by hop over existing edges are exactly the path's hop ratings. |
| Paths.AnalyzePathQuality | analysis/paths.py:110-137 | Invalid exactly for paths shorter than two nodes. A lookup failure is reported exactly when some hop is not an edge, at the first such hop. Otherwise the result is the quality figures of the hop ratings. |
| Paths.QualityAllPositive | analysis/paths.py:135 | A path is all-positive exactly when every hop carries a positive rating. |
| Paths.FoundLengthsBounded | analysis/paths.py:159-168 | Every distance collected for a pair of distinct, connected nodes is at least one hop and less than the number of nodes. |
| Paths.ComputeAveragePathLength | analysis/paths.py:140-172 | Returns 0 for fewer than two nodes. Otherwise it returns the mean shortest distance over the sampled pairs that are distinct and connected, or 0 when there are none. |
| Paths.AveragePathLengthBounded | analysis/paths.py:170-171 | When some pair was connected, the average lies between 1 and the number of nodes minus one. |
| Reachability.Bucket | analysis/reachability.py:30-39 | maxDepth + 1 duplicate-free buckets. Bucket d holds exactly the nodes at distance d, other than the source. |
| Reachability.BfsReachability | analysis/reachability.py:11-41 | No buckets for a source that is not a node. Otherwise bucket d holds exactly the non-source nodes whose shortest distance is d, without duplicates. |
| Reachability.SourceNotInLayer | analysis/reachability.py:38 | The source never appears at a positive depth. |
| Reachability.BucketsPartitionBall | analysis/reachability.py:35-39 | A node other than the source is within maxDepth hops exactly when it is in some bucket 1..maxDepth. It is never in two buckets. |
| Reachability.BucketSize | analysis/reachability.py:68 | A bucket's length is the number of nodes at exactly that distance. |
| Reachability.ComputeTrustRadius | analysis/reachability.py:44-77 | Per-hop counts, running totals and total are the layer sizes of hops 1..maxHops, their prefix sums and their sum. A user outside the graph gets all zeros. |
| Reachability.HopCountsSum | analysis/reachability.py:67-70 | The total is the number of nodes within maxHops, minus the user. |
| Reachability.RunningTotalsMonotone | analysis/reachability.py:69-70 | The running totals never decrease and end at the total. |
| Reachability.TrustRadiusProperties | analysis/reachability.py:61-76 | The cumulative counts never decrease, and the last one equals the total. For a user in the graph, the total is the number of nodes reachable within maxHops, not counting the user. For a user outside the graph, every count is zero. |
| Reachability.DefaultSampleNodes | analysis/reachability.py:92-95 | The default sample holds min(20, node count) graph nodes. |
| Reachability.DefaultSampleTop | analysis/reachability.py:92-95 | No node left out of the default sample has a higher degree than any node in it. |
| Reachability.ReachRows | analysis/reachability.py:97-108 | One row per sampled user that is a node, in sample order. Each row is that user's trust radius. |
| Reachability.AnalyzeNetworkReach | analysis/reachability.py:80-110 | The same rows, over the given sample or else the default one. |
| Reachability.GetUnreachableNodes | analysis/reachability.py:144-166 | Every node for a source outside the graph. Otherwise exactly the nodes with no walk of at most maxDepth edges from the source. The source itself is never in the result. |
| Reachability.AddAnchor | analysis/reachability.py:185-191 | One anchor adds its nodes within maxHops (other than itself) to the covered set, and its layer h to hop set h. |
| Reachability.CoverFromAnchors | analysis/reachability.py:181-191 | The covered set and hop sets are the unions of the anchors' contributions, and anchors outside the graph contribute nothing. |
| Reachability.AnalyzeTrustPropagation | analysis/reachability.py:169-201 | anchors_analyzed counts every anchor given. total_coverage and hop_coverage are the sizes of those unions. Covered plus uncovered is the node count. The percentage is 0 on an empty graph and lies in [0, 100]. |
| Reachability.CoveredWithinNodes | analysis/reachability.py:193-200 | The covered nodes are graph nodes, so uncovered is never negative. |
| Reachability.CoveredIsUnionOfHops | analysis/reachability.py:188-191 | A node is covered exactly when it is in some hop set 1..maxHops. |
| Components.WccPartition | analysis/components.py:55-65 | The weak components partition the node set, and their sizes add up to the node count. |
| Components.WccMaximal | analysis/components.py:55-65 | A node is in x's weak component exactly when x reaches it along edges in either direction. |
| Components.SccPartition | analysis/components.py:68-78 | The strong components partition the node set. Two nodes share one exactly when each reaches the other. |
| Components.ComputeWeaklyConnectedComponents | analysis/components.py:55-65 | Returns the weak components, which partition the nodes. |
| Components.ComputeStronglyConnectedComponents | analysis/components.py:68-78 | Returns the strong components, which partition the nodes. |
| Components.FirstLargest | analysis/components.py:94 | Empty for no components. Otherwise a component at least as large as every other, and the first such in list order. |
| Components.WccNonempty | analysis/components.py:91-95 | A nonempty graph has a nonempty largest component no larger than the graph. |
| Components.GetLargestComponent | analysis/components.py:81-95 | Empty for an empty graph. Otherwise the largest weak component. |
| Components.ComputeNetworkCoverage | analysis/components.py:98-112 | 0 for an empty graph. Otherwise the largest component's share of the nodes in percent, within (0, 100]. |
| Components.SortSizes | analysis/components.py:32 | Sorts the array in place, largest first, as a permutation of its contents. |
| Components.SortedCopy | analysis/components.py:31-32 | A largest-first permutation of the component sizes. |
| Components.HistogramTotal | analysis/components.py:46-51 | The four size buckets together count every component. |
| Components.SortedSizes | analysis/components.py:30-34 | The sorted sizes are positive, one per component, sum to the node count, and begin with the largest component's size. |
| Components.AnalyzeComponents | analysis/components.py:10-52 | All zeros for an empty graph. Otherwise the component count is the number of distinct weak classes, and the sizes are a largest-first permutation of the component sizes summing to the node count. Also gives the largest size and percentage, the isolated count (size-1 components) and the histogram. |
| Components.PctAtLeast | analysis/components.py:133-138 | A percentage reaches a threshold t exactly when 100 × part ≥ t × total. |
| Components.HealthByCount | analysis/components.py:132-140 | The health level follows the 90/75/50 thresholds, restated in whole-number arithmetic. |
| Components.HealthMonotone | analysis/components.py:132-140 | A higher coverage never gives a worse health level. |
| Components.AnalyzeComponentConnectivity | analysis/components.py:115-148 | EMPTY exactly for an empty graph. Otherwise health matches coverage, fragmented means more than 10 components, and has_isolated means some component is a single node. |
| Components.IsolatedPresent | analysis/components.py:147 | The isolated count is positive exactly when some weak component has one node. |
| Components.CountWithout | analysis/components.py:167 | Removing a node leaves the other nodes, listed in order, with the components of the remaining graph. |
| Components.IsBridge | analysis/components.py:167 | True exactly when the node is an articulation point: removing it raises the undirected component count. |
| Components.CountComponents | analysis/components.py:167 | Counts the undirected components of the graph. |
| Components.BridgesSelected | analysis/components.py:167 | The selected nodes are exactly the articulation points, without duplicates. |
| Components.FindBridgeNodes | analysis/components.py:151-168 | Returns exactly the articulation points of the undirected view, each once. |
| Community.Lookup | analysis/community.py:154 | Finds a community exactly for nodes in the partition, and the one found is that node's. |
| Community.CountValues | analysis/community.py:35 | One entry per distinct community id, ids in order of first appearance (the deduplicated values), each counting its occurrences. Every value appears. |
| Community.TallySum | analysis/community.py:35 | Tallies over the distinct ids account for every value. |
| Community.CountsTotal | analysis/community.py:35 | The counter's counts add up to the number of partition entries. |
| Community.DetectCommunities | analysis/community.py:15-37 | Empty results for an empty graph. Otherwise the partition is returned, and the counter lists every community id of the partition exactly once, in first-appearance order. Each listed count equals that community's number of members. |
| Community.Members | analysis/community.py:127-138 | Exactly the nodes assigned to the community. |
| Community.MembersAppend | analysis/community.py:138 | Members come in partition order: those of a concatenation are the first part's followed by the second's. |
| Community.MembersSingle | analysis/community.py:138 | A single entry contributes its node exactly when its id matches. Together with the append lemma, this fixes the member list entry by entry, so the first 10 users at line 84 are the first 10 in partition order. |
| Community.MembersCount | analysis/community.py:138 | The member count equals the number of partition entries with that id. |
| Community.Take | analysis/community.py:84 | A prefix of at most k users, and all of them when there are at most k. |
| Community.ConnectionsToMain | analysis/community.py:71-78 | The scan yields 0 or 1. It yields 0 exactly when no member that is a node has an undirected neighbour in the main component. |
| Community.FlaggedExactly | analysis/community.py:65-85 | A community is flagged exactly when its size is below max_size and none of its members touches the main component. The entry carries its size and its first 10 members. |
| Community.FindSuspiciousCommunities | analysis/community.py:40-87 | Empty for an empty graph. Otherwise exactly the flagged communities, with the largest undirected component as the main component. |
| Community.AnalyzeCommunityStructure | analysis/community.py:90-124 | All zeros for an empty counter. Otherwise the community count and the size histogram. |
| Community.CommunityStatsConsistent | analysis/community.py:112-123 | The largest and smallest are sizes that occur and bound every size, and the average lies between them. The total is the sum of the sizes. When all sizes are positive, the histogram buckets together count every community. |
| Community.DetectedStructure | analysis/community.py:15-37 | For a detected partition, the structure's total node count is the number of partition entries, and its histogram counts every community. |
| Community.GetIntercommunityEdges | analysis/community.py:141-156 | Counts exactly the edges whose endpoints map to different communities. |
| Community.IntercommunityBounds | analysis/community.py:152-156 | At most the edge count. Zero exactly when every edge stays inside one community. Zero when all nodes share one community. |
| Centrality.Insert | analysis/centrality.py:67 | Adds the entry once, as a multiset. |
| Centrality.InsertDescending | analysis/centrality.py:67 | Insertion keeps scores in descending order. |
| Centrality.InsertStable | analysis/centrality.py:67 | Insertion keeps entries of equal score in their original order. |
| Centrality.SortDescending | analysis/centrality.py:67 | A permutation of the entries. |
| Centrality.SortDescendingCorrect | analysis/centrality.py:67 | The sort is descending by score, and stable: for each score, its entries keep their input order. |
| Centrality.SortedUnique | analysis/centrality.py:67 | Any two stable descending permutations of the same entries are equal, so the result is the one stable sort. |
| Centrality.GetTopNodes | analysis/centrality.py:56-67 | min(n, size) entries, all taken from the dictionary. |
| Centrality.TopNodesCorrect | analysis/centrality.py:67 | The top entries are descending, and no omitted entry scores above any kept one. Ties keep dictionary order. |
| Centrality.Get | analysis/centrality.py:92-95 | The node's score when present, else the default. |
| Centrality.CompareCentralities | analysis/centrality.py:70-98 | One row per top-PageRank node, ranked from 1, with its PageRank and degree (default 0). The betweenness column is present exactly when a nonempty betweenness dictionary is given. |
| Centrality.ComparisonRanked | analysis/centrality.py:84-96 | Rows are in non-increasing PageRank order. |
| Centrality.GuardEmpty | analysis/centrality.py:35-36 | An empty graph yields an empty score dictionary (for PageRank, lines 35-36, and for betweenness, lines 51-52). Otherwise the computed scores pass through. |
| Centrality.DistributionSize | analysis/centrality.py:111-125 | Nothing for an empty dictionary. Otherwise the node count. |

## Left out

- Rating rows are given as a sequence. CSV reading, the load error message
  and caching are left out (app.py:212-219).
- Node identifiers are integers. Ratings and times are integers, and pandas
  dtypes are not modelled.
- The graph invariant `Valid(g)` (distinct nodes, every edge endpoint a node)
  holds for every graph the graph library builds. The path, component and
  propagation operations require it of their caller.
- PageRank, betweenness centrality, degree centrality and Louvain community
  detection are not computed. The first two enter as score lists, and the
  partition and its size counter enter as inputs. Only the empty-graph guards
  around them are modelled.
- Centrality.DistributionSize: it models only the empty guard and the node
  count. Mean, median, standard deviation, minimum and maximum are
  floating-point library results and are left out.
- `compute_average_reachability` (analysis/reachability.py:113-141) is not
  part of this model. Its random sample and float mean add nothing beyond
  `ComputeTrustRadius`.
- Paths.FindShortestPath: it promises a shortest path but not which one. The
  graph library's choice among equally short paths depends on adjacency
  order, which the model does not fix.
- Reachability.BfsReachability: bucket membership is exact. The order of
  nodes inside a bucket, which follows the library's traversal order, is not
  stated.
- Traversal.StronglyConnectedComponents: components are listed in node
  order. The library's Tarjan order differs, and only the set of components
  is relied upon.
- Components.FindBridgeNodes: the order of the returned list follows node
  order, not the library's depth-first order.
- Paths.ComputeAveragePathLength: the random choice of pairs is replaced by a
  sequence of pairs passed in. Both ends of each pair must be nodes, as
  `random.choice(nodes)` guarantees.
- Percentages and averages are exact rationals (`real`). Floating-point
  rounding is left out.
- TrustGraph.EdgeSubgraph: the model keeps the whole graph's node order in each view. The graph library's filtered view may list its nodes in another order. That only matters for ties: the first largest component, and the default sample taken on a view.
- Reachability.DefaultSampleTop: ties in degree are broken by node order, as
  the stable sort does. Degree is the in- plus out-degree.
- Community.GetIntercommunityEdges: edges are counted once per directed edge
  of the graph passed in. A node missing from the partition counts as its own
  "no community" value, as `dict.get` returns None.
- Community.DetectCommunities: only the size count of a given partition is
  modelled. The partition itself is an input.
- Centrality.Get: a dictionary has distinct keys. On an entry list with a
  repeated key, the contract only says the result is one of that key's
  scores.
- `Paths.AnalyzePathQuality`'s lookup failure stands for the exception that
  `G[u][v]` raises for a hop that is not an edge. The message text is left
  out, as are all error strings.
- The BFS tree built and discarded at analysis/reachability.py:27 is left out.
- Negative counts for slicing or sampling cannot occur, because counts are
  `nat`.
- Visualisation, the web UI and the duplicate application files are left
  out.
