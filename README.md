# Community-detection machinery, modelled in Dafny

This project models the discrete core of a set of community-detection tools for small
undirected graphs. It covers four pieces:

- **The Louvain level machine.** A level graph's nodes carry a `community` label and the
  list of original people (`people_nodes`) they stand for. A sweep visits the nodes in
  order and moves each one to the neighbouring community with the largest modularity gain
  `ki_in / m - tot * ki / (2 m^2)`, but only when that gain is positive. A reduction then
  collapses each community into one node of the next level, concatenating people lists
  and summing edge weights per unordered pair. The machine repeats while the node count
  shrinks. The collaboration-graph generator beside it is modelled too: it builds binary
  pairs per team, applies member constraints, and counts pairs into weights.
- **The partition-quality scorer.** Modularity is computed from the modularity matrix
  `norm * (A - norm * k k^T)` masked by "same community" and summed over the lower
  triangle. The sentinel -1 is returned on a graph of zero total weight. The module also
  covers row/column filtering of adjacency matrices, Jaccard neighbourhood similarity,
  label/community conversions and row extraction.
- **Iterative greedy.** GCP places nodes one by one into the best existing community or
  a new singleton. Destruct removes a prefix of a shuffled node list. Reconstruct puts
  the removed nodes back. IG keeps a rebuilt partition only when its modularity is
  strictly higher. Both the C++ version and the Python version are modelled.
- **Clique-seeded local expansion.** Bron–Kerbosch (without pivoting) enumerates
  maximal cliques. Cliques are sorted by average pairwise distance. The highest-degree
  node picks a clique, which grows greedily under an abstract fitness; the remaining
  cliques are pruned to unselected nodes. The farthest unselected nodes serve as
  fallback seeds.

Values are modelled as values and state as state:

- Matrices are `seq<seq<real>>`, and real arithmetic stands in for the source's doubles.
- Partitions are `seq<seq<int>>`.
- The Louvain machine and the graph generator are classes whose methods update their
  fields.
- Each loop of the source is a loop in a method, proved against a specification function.

Randomness is an input:

- the shuffled node orders of GCP and IG;
- the visiting order of unordered sets and hash maps;
- the order `std::sort` gives to equal keys.

The modules are `Common` (sums, flattening, partitions), `Matrices`, `Modularity`,
`Similarity`, `Labels`, `Pairs`, `Collaborations`, `Louvain`, `IterativeGreedy`,
`IterativeGreedyPy`, `Cliques` and `LocalExpansion`.

## Model

| member | source | states |
|---|---|---|
| Louvain.LouvainMachine.constructor | Week2_Feb_22/algorithm_visualization/notebook/utils/louvain4.py:49-76 | every node starts labelled by itself with people list `[node]`, every edge has weight 1, `m` is the edge count, and the history holds the initial graph; the copy in `Week1_Feb_15/dataset_generation/notebook/utils/student_graph_generation.py` (lines 270-309) is modelled by the same member |
| Louvain.InitialLevel | Week2_Feb_22/algorithm_visualization/notebook/utils/louvain4.py:62-75 | the initial level is well formed, its people lists are exactly the nodes, and its total weight is the number of edges |
| Louvain.Singletons | Week2_Feb_22/algorithm_visualization/notebook/utils/louvain4.py:62-65 | the attribute loop labels each node by itself and gives it the people list `[node]` |
| Louvain.UnitEdges | Week2_Feb_22/algorithm_visualization/notebook/utils/louvain4.py:69-71 | the edge loop gives each input edge weight 1, in order |
| Louvain.LouvainMachine.ComputeDeltaQ | Week2_Feb_22/algorithm_visualization/notebook/utils/louvain4.py:171-201 | the gain is `ki_in/m - tot*ki/(2m^2)` for the defined `tot`, `ki_in`, `ki`, and `m > 0` whenever it is asked for a neighbouring label |
| Louvain.CountGainTerms | Week2_Feb_22/algorithm_visualization/notebook/utils/louvain4.py:180-199 | the single edge pass computes `tot` (2w per edge inside `c`), `ki_in` (w per edge from `v` into `c`) and `ki` (w per edge touching `v`); the copy in `Week1_Feb_15/dataset_generation/notebook/utils/student_graph_generation.py` (lines 471-519) is modelled by the same member |
| Louvain.GainTerms | Week2_Feb_22/algorithm_visualization/notebook/utils/louvain4.py:180-199 | with nonnegative weights `0 <= ki_in <= ki <= m` and `0 <= tot <= 2m` |
| Louvain.GainBounds | Week2_Feb_22/algorithm_visualization/notebook/utils/louvain4.py:200 | when `m` is the total weight every gain lies in [-1, 1] |
| Louvain.CandidateHasWeight | Week2_Feb_22/algorithm_visualization/notebook/utils/louvain4.py:200-231 | a neighbouring label contributes at least one unit of `ki_in`, so `m >= 1` and the division is defined |
| Louvain.LouvainMachine.NeighborCommunities | Week2_Feb_22/algorithm_visualization/notebook/utils/louvain4.py:203-211 | the candidates list exactly the distinct labels of the node's neighbours |
| Louvain.FindNeighbourLabels | Week2_Feb_22/algorithm_visualization/notebook/utils/louvain4.py:203-211 | the loop over the edges collects exactly the neighbour-label set |
| Louvain.NeighbourLabelsMember | Week2_Feb_22/algorithm_visualization/notebook/utils/louvain4.py:203-211 | a label is a candidate iff some edge joins the node to a node carrying it |
| Louvain.NeighbourLabelsAreLabels | Week2_Feb_22/algorithm_visualization/notebook/utils/louvain4.py:203-211 | every candidate label is a node of the level |
| Louvain.LouvainMachine.PossibleActions | Week2_Feb_22/algorithm_visualization/notebook/utils/louvain4.py:213-231 | one action per candidate label, each moving the node from its current label with the computed gain |
| Louvain.FirstMaxIndex | Week2_Feb_22/algorithm_visualization/notebook/utils/louvain4.py:254 | the chosen action is the first one of largest value, as `max` picks it |
| Louvain.LouvainMachine.ApplyAction | Week2_Feb_22/algorithm_visualization/notebook/utils/louvain4.py:233-238 | only the moved node's label changes; nodes, people, edges, `m` and histories stay, and the machine stays valid; the copy in `Week1_Feb_15/dataset_generation/notebook/utils/student_graph_generation.py` (lines 417-430) is modelled by the same member |
| Louvain.VisitWithActions | Week2_Feb_22/algorithm_visualization/notebook/utils/louvain4.py:252-261 | a visit with candidates records the best action and moves the node exactly when its value is positive |
| Louvain.VisitWithoutActions | Week2_Feb_22/algorithm_visualization/notebook/utils/louvain4.py:250-256 | a visit without candidates records and changes nothing |
| Louvain.LouvainMachine.Visit | Week2_Feb_22/algorithm_visualization/notebook/utils/louvain4.py:249-263 | one visit is one sweep step: record, possible move, nothing else changes; no move on an edgeless level |
| Louvain.LouvainMachine.LouvainAssign | Week2_Feb_22/algorithm_visualization/notebook/utils/louvain4.py:240-267 | the sweep visits the nodes in order, each on the level left by the previous ones; only labels change; the result is true iff some node moved (never on an edgeless level); exactly one list of the recorded visits is appended to the action history; the copy in `Week1_Feb_15/dataset_generation/notebook/utils/student_graph_generation.py` (lines 432-523) is modelled by the same member |
| Louvain.ExtendTrace | Week2_Feb_22/algorithm_visualization/notebook/utils/louvain4.py:249-263 | the visits already traced stay traced when the sweep goes on |
| Louvain.SomesSnoc | Week2_Feb_22/algorithm_visualization/notebook/utils/louvain4.py:255-256 | only visits with candidates add to the recorded phase list |
| Louvain.MoveKeepsShape | Week2_Feb_22/algorithm_visualization/notebook/utils/louvain4.py:233-238 | relabelling a node to a node of the level keeps the level well formed and its people unchanged |
| Louvain.LouvainMachine.LouvainReduce | Week2_Feb_22/algorithm_visualization/notebook/utils/louvain4.py:269-325 | the result is the reduced level: one node per label, people concatenated, weights summed per unordered label pair; the copy in `Week1_Feb_15/dataset_generation/notebook/utils/student_graph_generation.py` (lines 525-597) is modelled by the same member |
| Louvain.GroupCommunities | Week2_Feb_22/algorithm_visualization/notebook/utils/louvain4.py:275-291 | the dictionary loop gives the labels in first-occurrence order with their people lists |
| Louvain.GroupPeople | Week2_Feb_22/algorithm_visualization/notebook/utils/louvain4.py:276-290 | the dictionary holds exactly the people of the nodes grouped so far |
| Louvain.GroupHasLabels | Week2_Feb_22/algorithm_visualization/notebook/utils/louvain4.py:276-291 | every label of a grouped node becomes a new node |
| Louvain.GroupKeysAreLabels | Week2_Feb_22/algorithm_visualization/notebook/utils/louvain4.py:276-291 | every new node is the label of some grouped node |
| Louvain.RelabelEdges | Week2_Feb_22/algorithm_visualization/notebook/utils/louvain4.py:301-308 | each old edge is re-keyed by its endpoints' labels |
| Louvain.RelabelKeepsWeights | Week2_Feb_22/algorithm_visualization/notebook/utils/louvain4.py:305-308 | re-keying keeps every edge's weight and maps its endpoints through the labels |
| Louvain.RelabelTotal | Week2_Feb_22/algorithm_visualization/notebook/utils/louvain4.py:301-315 | re-keying conserves total weight |
| Louvain.CoalesceEdges | Week2_Feb_22/algorithm_visualization/notebook/utils/louvain4.py:300-323 | both orientations of a label pair fold into one edge keyed by the first-seen orientation |
| Louvain.ReducedWeight | Week2_Feb_22/algorithm_visualization/notebook/utils/louvain4.py:300-323 | reduction conserves total edge weight, so the fixed `m` stays the current total |
| Louvain.ReducedPeople | Week2_Feb_22/algorithm_visualization/notebook/utils/louvain4.py:275-296 | reduction keeps the multiset of original people |
| Louvain.ReducedWellFormed | Week2_Feb_22/algorithm_visualization/notebook/utils/louvain4.py:291-296 | the next level is well formed, its nodes are exactly the labels in use, and it has no more nodes than before |
| Louvain.ReducedEdges | Week2_Feb_22/algorithm_visualization/notebook/utils/louvain4.py:319-323 | every next-level edge joins two new nodes with weight at least 1, and no unordered pair has two edges |
| Louvain.ReducedKeepsShape | Week1_Feb_15/dataset_generation/notebook/utils/student_graph_generation.py:531-594 | the generator's reduction keeps shape, total weight and people multiset |
| Louvain.LouvainMachine.ForwardLouvain | Week2_Feb_22/algorithm_visualization/notebook/utils/louvain4.py:140-159 | the sweep is a trace of one step per node, in node order, from the old level to the swept one, which keeps nodes, people and edges; with no move the swept level is the old one; the result is true iff some node moved and the reduction has strictly fewer nodes, and then the reduced level is installed and appended to the graph history, otherwise the swept level stays and the graph history is unchanged; the action history gains the sweep's actions either way; the copy in `Week1_Feb_15/dataset_generation/notebook/utils/student_graph_generation.py` (lines 381-402) is modelled by the same member |
| Louvain.NoMoveKeepsLevel | Week2_Feb_22/algorithm_visualization/notebook/utils/louvain4.py:140-152 | a sweep in which no node moves ends on the level it started from |
| Louvain.LouvainMachine.Adopt | Week2_Feb_22/algorithm_visualization/notebook/utils/louvain4.py:156-158 | installing the reduced level appends it to the graph history and keeps the machine valid |
| Louvain.LouvainMachine.SolveCommunities | Week2_Feb_22/algorithm_visualization/notebook/utils/louvain4.py:161-169 | the loop terminates at a fixed point; its last sweep is returned as a trace of one step per node, in node order, from the last level recorded (the initial level when none was) to the final level, and its actions are the last entry of the action history; in that sweep no node moved, or reducing the final level would not lower its node count; the graph history only grows, and the final step adds an action list without a level, so the action history ends one ahead of the graph history's growth; the copy in `Week1_Feb_15/dataset_generation/notebook/utils/student_graph_generation.py` (lines 404-415) is modelled by the same member |
| Pairs.BinaryCollaborations | Week1_Feb_15/dataset_generation/notebook/utils/student_graph_generation.py:53-60 | the nested loops emit `(team[i], team[j])` for all `i < j`, in order |
| Pairs.CombinationsMember | Week1_Feb_15/dataset_generation/notebook/utils/student_graph_generation.py:55-58 | a pair is emitted iff it is `(team[a], team[b])` with `a < b` |
| Pairs.CombinationsLength | Week1_Feb_15/dataset_generation/notebook/utils/student_graph_generation.py:55-58 | a team of `n` gives `n(n-1)/2` pairs |
| Pairs.CombinationsOfShort | Week1_Feb_15/dataset_generation/notebook/utils/student_graph_generation.py:55 | teams of at most one member give no pair |
| Pairs.Coalesce | Week1_Feb_15/dataset_generation/notebook/utils/student_graph_generation.py:112-122 | the keys are the first-seen orientations, and each key counts the pairs equal to it in either orientation |
| Pairs.FirstSeenKeysDistinct | Week1_Feb_15/dataset_generation/notebook/utils/student_graph_generation.py:116-121 | no two keys are the same unordered pair |
| Pairs.FirstSeenKeysCover | Week1_Feb_15/dataset_generation/notebook/utils/student_graph_generation.py:114-121 | every input pair is counted under some key |
| Pairs.FirstSeenKeysAreFirst | Week1_Feb_15/dataset_generation/notebook/utils/student_graph_generation.py:120-121 | every key is the orientation of the first occurrence of its pair |
| Pairs.CoalesceConservesWeight | Week1_Feb_15/dataset_generation/notebook/utils/student_graph_generation.py:112-122 | the counts sum to the input total |
| Pairs.PairWeightOfUnseenKey | Week1_Feb_15/dataset_generation/notebook/utils/student_graph_generation.py:116-121 | a pair without a key never occurred, in either orientation |
| Pairs.KeysWeighAtLeastOne | Week1_Feb_15/dataset_generation/notebook/utils/student_graph_generation.py:121 | every key counts at least one occurrence |
| Collaborations.StudentGraphGenerator.constructor | Week1_Feb_15/dataset_generation/notebook/utils/student_graph_generation.py:16-22 | no constraints and no generated graphs at first |
| Collaborations.StudentGraphGenerator.ConsiderConstraint | Week1_Feb_15/dataset_generation/notebook/utils/student_graph_generation.py:45-46 | replaces the constraint list and nothing else |
| Collaborations.StudentGraphGenerator.IndividualsAndCollaborations | Week1_Feb_15/dataset_generation/notebook/utils/student_graph_generation.py:52-95 | returns the constrained members and pairs of the current teams |
| Collaborations.TeamPairsMember | Week1_Feb_15/dataset_generation/notebook/utils/student_graph_generation.py:68-76 | the pair list is the concatenation over teams of each team's ordered pairs |
| Collaborations.TeamPairsLength | Week1_Feb_15/dataset_generation/notebook/utils/student_graph_generation.py:68-76 | its length is the sum of `n(n-1)/2` over teams |
| Collaborations.AllMembersMember | Week1_Feb_15/dataset_generation/notebook/utils/student_graph_generation.py:68-72 | without constraints the individuals are exactly the team members |
| Collaborations.KeepPairsMember | Week1_Feb_15/dataset_generation/notebook/utils/student_graph_generation.py:89-91 | a pair is kept iff both endpoints are in the constraints |
| Collaborations.EndpointsAreIndividuals | Week1_Feb_15/dataset_generation/notebook/utils/student_graph_generation.py:79-93 | both endpoints of every kept pair are kept individuals |
| Collaborations.UnitTotal | Week1_Feb_15/dataset_generation/notebook/utils/student_graph_generation.py:114-121 | each binary pair contributes one unit |
| Collaborations.WeightedEdgesSpec | Week1_Feb_15/dataset_generation/notebook/utils/student_graph_generation.py:130-134 | the weighted edges sum to the number of binary pairs, each weighs at least 1, no pair repeats, and every binary pair is covered |
| Collaborations.StudentGraphGenerator.GenerateGraph | Week1_Feb_15/dataset_generation/notebook/utils/student_graph_generation.py:144-161 | succeeds iff the mode is "binary" or "weighted" and stores exactly that graph, leaving the other one alone |
| Matrices.SumLowerTriangular | Iterative-Greedy/c++/src/ig.cpp:20-28 | returns the sum of the entries with `j <= i`; the copy in `Week3_Feb_26/c++/src/utils.cpp` (lines 20-28) is modelled by the same member |
| Matrices.LowerSumLowerOnly | Iterative-Greedy/c++/src/ig.cpp:20-28 | the sum depends only on the entries with `j <= i` |
| Matrices.FilterAdjMatrix | Iterative-Greedy/c++/src/ig.cpp:66-80 | returns the filtered copy of the matrix; the copy in `Week3_Feb_26/c++/src/utils.cpp` (lines 32-46) is modelled by the same member; the copy in `Week2_Feb_22/Iterative-Greedy/utils/communities_network.py` (lines 64-82) is modelled by the same member; the copy in `Week3_Feb_26/kmeans/utils/communities_network.py` (lines 66-84) is modelled by the same member |
| Matrices.FilteredNonneg | Iterative-Greedy/c++/src/ig.cpp:66-80 | filtering a nonnegative matrix keeps it nonnegative |
| Matrices.FilteredSymmetric | Iterative-Greedy/c++/src/ig.cpp:66-80 | filtering a symmetric matrix keeps it symmetric |
| Matrices.FilteredAllAndIdempotent | Iterative-Greedy/c++/src/ig.cpp:66-80 | filtering by all nodes changes nothing, and filtering twice equals filtering once |
| Matrices.ExtractRows | Week3_Feb_26/c++/src/utils.cpp:257-266 | one row per index, and row `t` is input row `rowIndices[t]` |
| Modularity.ModMatrixSymmetric | Week2_Feb_22/Iterative-Greedy/utils/communities_network.py:6-21 | the modularity matrix of a symmetric matrix is symmetric |
| Modularity.CppCommunityMask | Iterative-Greedy/c++/src/ig.cpp:41-53 | the mask loop builds the "same community, distinct nodes" 0/1 matrix |
| Modularity.PyCommunityMask | Week2_Feb_22/Iterative-Greedy/utils/communities_network.py:52-59 | the `combinations` loop builds the Python mask |
| Modularity.PyMaskIsCppMask | Week2_Feb_22/Iterative-Greedy/utils/communities_network.py:54-59 | both masks are equal, so a pair sharing several communities counts once |
| Modularity.ModularityCpp | Iterative-Greedy/c++/src/ig.cpp:30-64 | returns the lower-triangle sum of the masked modularity matrix, and exactly -1 when the total weight is 0 |
| Modularity.ModularityPy | Week2_Feb_22/Iterative-Greedy/utils/communities_network.py:24-61 | returns the Python modularity, and exactly -1 when the total weight is 0; the copy in `Week3_Feb_26/kmeans/utils/communities_network.py` (lines 26-63) is modelled by the same member; `calculate_Q_Sim` in `Week3_Feb_26/kmeans/utils/communities_network.py` (lines 164-201) is the same computation on the similarity matrix, sentinel included |
| Modularity.ModularityPyIsCpp | Week2_Feb_22/Iterative-Greedy/utils/communities_network.py:24-61 | the Python and C++ scores agree on every partition whose communities repeat no node; a node listed twice in one community is paired with itself by `combinations`, which marks the diagonal in Python's mask but never in the C++ one |
| Modularity.SingletonAddsNothing | Week2_Feb_22/Iterative-Greedy/utils/communities_network.py:54-59 | adding a community of at most one node leaves modularity unchanged |
| Modularity.ContainedCommunityAddsNothing | Iterative-Greedy/c++/src/ig.cpp:41-53 | adding a community contained in an existing one leaves modularity unchanged |
| Modularity.ModularityInRange | Iterative-Greedy/c++/src/ig.cpp:30-64 | for a nonnegative matrix modularity lies in [-1, 1] |
| Modularity.ModularityPyInRange | Week3_Feb_26/kmeans/utils/communities_network.py:26-63 | the Python score lies in [-1, 1] as well |
| Similarity.NeighbourSetsMember | Week3_Feb_26/kmeans/utils/communities_network.py:144-145 | row `i`'s set is exactly the columns with non-zero entries |
| Similarity.JaccardSymmetric | Week3_Feb_26/kmeans/utils/communities_network.py:148-161 | the Jaccard index is symmetric |
| Similarity.JaccardUnit | Week3_Feb_26/kmeans/utils/communities_network.py:148-161 | the Jaccard index lies in [0, 1] and is 0 on an empty union |
| Similarity.JaccardSelf | Week3_Feb_26/kmeans/utils/communities_network.py:155-159 | a set's index with itself is 1, or 0 when it is empty |
| Similarity.JaccardSimilarity | Week3_Feb_26/kmeans/utils/communities_network.py:148-161 | the filled matrix is square and holds the Jaccard index of every pair of neighbourhoods |
| Similarity.SimilarityProperties | Week3_Feb_26/kmeans/utils/communities_network.py:148-161 | the similarity matrix is symmetric with entries in [0, 1]; its diagonal is 1 exactly for nodes with a neighbour |
| Similarity.QSimInRange | Week3_Feb_26/kmeans/utils/communities_network.py:164-201 | the similarity-weighted modularity lies in [-1, 1] |
| Labels.CommunitiesToLabelPairs | Week2_Feb_22/Iterative-Greedy/utils/communities_network.py:85-107 | the output is sorted and holds exactly one `(label, index + 1)` pair per member; the copy in `Week3_Feb_26/kmeans/utils/communities_network.py` (lines 87-106) is modelled by the same member |
| Labels.LabelPairsMember | Week2_Feb_22/Iterative-Greedy/utils/communities_network.py:97-105 | a pair occurs iff it is some member's original label with its 1-based community index |
| Labels.LabelPairsLength | Week2_Feb_22/Iterative-Greedy/utils/communities_network.py:103-105 | there is one pair per listed member |
| Labels.SortPairsSpec | Week2_Feb_22/Iterative-Greedy/utils/communities_network.py:107 | sorting gives a sorted permutation |
| Labels.SortedUnique | Week2_Feb_22/Iterative-Greedy/utils/communities_network.py:107 | two sorted permutations of one list are equal, so the output is determined |
| Labels.TransformationDict | Week2_Feb_22/Iterative-Greedy/utils/communities_network.py:127-142 | the map is defined on exactly the indices of `nodes` and sends `i` to `nodes[i]` |
| Labels.MaxListedNode | Iterative-Greedy/c++/src/ig.cpp:375-380 | the first loop finds the largest listed node, or -1 |
| Labels.MaxNodeIsMax | Iterative-Greedy/c++/src/ig.cpp:375-382 | that node bounds every listed node and is listed itself, unless the lists are empty |
| Labels.CommunitiesToLabels | Iterative-Greedy/c++/src/ig.cpp:372-392 | the labels have length max node + 1, and each entry is the index of the last community holding the node, or -1; the copy in `Week3_Feb_26/c++/src/utils.cpp` (lines 124-144) is modelled by the same member |
| Labels.LastLabelSpec | Week3_Feb_26/c++/src/utils.cpp:124-144 | -1 iff no community holds the node; otherwise a community holds it and no later one does |
| Labels.Trunc | Week3_Feb_26/c++/src/utils.cpp:243-245 | the `double` label becomes the `int` map key by truncation toward zero: the key lies between 0 and the label, less than 1 away |
| Labels.TruncatedInts | Week3_Feb_26/c++/src/utils.cpp:243-245 | whole-number labels, as k-means cluster indices are, keep their values as keys |
| Labels.MapValues | Week3_Feb_26/c++/src/utils.cpp:248-252 | the map's values are listed once per key, in the order the keys are yielded |
| Labels.LabelsToCommunities | Week3_Feb_26/c++/src/utils.cpp:240-255 | one group per distinct truncated label, in some order, holding exactly the indices with that key; the groups are non-empty, pairwise different, as many as the labels in use, and cover every index |
| Labels.ListedGroupsByLabel | Week3_Feb_26/c++/src/utils.cpp:240-255 | whatever order the map yields its keys in, the groups listed by that order are the groups by label |
| Labels.MembersSpec | Week3_Feb_26/c++/src/utils.cpp:244-246 | a group holds exactly the indices with its label, each once |
| Labels.GroupsNonEmpty | Week3_Feb_26/c++/src/utils.cpp:240-255 | no group is empty |
| Labels.GroupsCover | Week3_Feb_26/c++/src/utils.cpp:240-255 | every index lies in the group of its label |
| Labels.GroupsDisjoint | Week3_Feb_26/c++/src/utils.cpp:240-255 | no index lies in two groups |
| Labels.PartitionLabels | Week3_Feb_26/c++/src/utils.cpp:124-144 | on a partition each node's label is its one community |
| Labels.LabelsRoundTrip | Week3_Feb_26/c++/src/utils.cpp:240-255 | on a partition of `0..n-1`, labels then groups give back the communities as sets |
| IterativeGreedy.ScoreOf | Iterative-Greedy/c++/src/ig.cpp:30-64 | scores a partition with the scorer of the chosen version |
| IterativeGreedy.FilteredScoreInRange | Iterative-Greedy/c++/src/ig.cpp:30-80 | the score of any filtered nonnegative matrix lies in [-1, 1] |
| IterativeGreedy.BestTrial | Iterative-Greedy/c++/src/ig.cpp:103-123 | finds the first trial of highest score above -1, or -1 with score -1 |
| IterativeGreedy.PlaceChoice | Iterative-Greedy/c++/src/ig.cpp:98-139 | GCP opens a singleton iff no trial beats the singleton score; otherwise it joins the first best community, whose score is strictly higher |
| IterativeGreedy.PlaceNode | Iterative-Greedy/c++/src/ig.cpp:98-139 | one GCP step adds the node once and keeps the partition in range |
| IterativeGreedy.GcpCounts | Iterative-Greedy/c++/src/ig.cpp:90-139 | after `k` steps every placed node occurs exactly once and no community is empty |
| IterativeGreedy.GcpPartition | Iterative-Greedy/c++/src/ig.cpp:82-142 | for an order of `0..N-1`, GCP returns a partition of `0..N-1` |
| IterativeGreedy.GcpScore | Iterative-Greedy/c++/src/ig.cpp:82-142 | the score GCP returns is the modularity of its partition |
| IterativeGreedy.GCP | Iterative-Greedy/c++/src/ig.cpp:82-142 | returns GCP's partition of `0..N-1` and its score; with the Python scorer it models the Python GCP in `Week2_Feb_22/Iterative-Greedy/utils/iterative_greedy_algorithm.py` (lines 7-61) |
| IterativeGreedy.WithoutCount | Iterative-Greedy/c++/src/ig.cpp:163-170 | a kept community loses exactly the removed nodes |
| IterativeGreedy.KeepUnremoved | Iterative-Greedy/c++/src/ig.cpp:164-170 | the copy loop keeps the unremoved nodes in order |
| IterativeGreedy.FilterCount | Iterative-Greedy/c++/src/ig.cpp:161-175 | filtering removes every removed node and keeps every other node's count |
| IterativeGreedy.RemoveCount | Iterative-Greedy/c++/src/ig.cpp:153 | `floor(beta * n)` never exceeds `n` |
| IterativeGreedy.Destruct | Iterative-Greedy/c++/src/ig.cpp:144-178 | removes the first `floor(beta * n)` shuffled nodes, keeps community and node order, and drops emptied communities |
| IterativeGreedy.DestructSplits | Iterative-Greedy/c++/src/ig.cpp:144-178 | on a partition, the kept and the removed nodes together are every node exactly once |
| IterativeGreedy.ReinsertChoice | Iterative-Greedy/c++/src/ig.cpp:190-228 | reconstruct opens a singleton iff every trial is below the current score or all trials are -1; otherwise it joins the first best community, scoring at least the current one |
| IterativeGreedy.ReinsertNode | Iterative-Greedy/c++/src/ig.cpp:190-228 | one reconstruct step adds the node once and keeps the partition in range |
| IterativeGreedy.Reconstruct | Iterative-Greedy/c++/src/ig.cpp:181-229 | every removed node is put back exactly once |
| IterativeGreedy.RebuiltIsPartition | Iterative-Greedy/c++/src/ig.cpp:144-229 | destruct then reconstruct turns a partition into a partition |
| IterativeGreedy.Rebuild | Iterative-Greedy/c++/src/ig.cpp:238-243 | one destruct/reconstruct round yields a partition |
| IterativeGreedy.Iterate | Iterative-Greedy/c++/src/ig.cpp:236-249 | a round keeps the current partition unless the rebuilt one has strictly higher modularity |
| IterativeGreedy.IgImproves | Iterative-Greedy/c++/src/ig.cpp:231-254 | IG's result has at least GCP's modularity |
| IterativeGreedy.IG | Iterative-Greedy/c++/src/ig.cpp:231-254 | IG returns a partition of `0..N-1` with modularity at least GCP's |
| IterativeGreedyPy.PlaceAgrees | Week2_Feb_22/Iterative-Greedy/utils/iterative_greedy_algorithm.py:20-59 | one Python GCP step makes the same choice as the C++ one |
| IterativeGreedyPy.GcpAgrees | Week2_Feb_22/Iterative-Greedy/utils/iterative_greedy_algorithm.py:7-61 | the Python GCP equals the C++ GCP for the same order |
| IterativeGreedyPy.Destruct | Week2_Feb_22/Iterative-Greedy/utils/iterative_greedy_algorithm.py:64-80 | removes the first `floor(beta * N)` shuffled nodes and drops emptied communities, keeping order |
| IterativeGreedyPy.ReinsertAsWritten | Week2_Feb_22/Iterative-Greedy/utils/iterative_greedy_algorithm.py:96-129 | the step as written, with its failure as `None`; when it succeeds it agrees with the corrected step |
| IterativeGreedyPy.AsWrittenFailsExactly | Week2_Feb_22/Iterative-Greedy/utils/iterative_greedy_algorithm.py:112-123 | the written step fails iff the current score and every trial score are -1 |
| IterativeGreedyPy.AsWrittenLosesNode | Week2_Feb_22/Iterative-Greedy/utils/iterative_greedy_algorithm.py:112-123 | on two isolated nodes the written step fails where the corrected one opens a singleton |
| IterativeGreedyPy.ReconstructFrom | Week2_Feb_22/Iterative-Greedy/utils/iterative_greedy_algorithm.py:83-132 | the corrected reconstruct puts every removed node back exactly once |
| IterativeGreedyPy.ReinsertNext | Week2_Feb_22/Iterative-Greedy/utils/iterative_greedy_algorithm.py:92-129 | one step grows the filter set by the node and places it |
| IterativeGreedyPy.GrownNodes | Week2_Feb_22/Iterative-Greedy/utils/iterative_greedy_algorithm.py:87-100 | the filter set is the unremoved nodes plus the nodes placed so far |
| IterativeGreedyPy.Reconstruct | Week2_Feb_22/Iterative-Greedy/utils/iterative_greedy_algorithm.py:83-132 | the loop computes the corrected reconstruct |
| IterativeGreedyPy.RebuiltIsPartition | Week2_Feb_22/Iterative-Greedy/utils/iterative_greedy_algorithm.py:64-132 | destruct then reconstruct turns a partition into a partition |
| IterativeGreedyPy.Rebuild | Week2_Feb_22/Iterative-Greedy/utils/iterative_greedy_algorithm.py:151-155 | one round yields a partition and its score |
| IterativeGreedyPy.Iterate | Week2_Feb_22/Iterative-Greedy/utils/iterative_greedy_algorithm.py:149-162 | a round replaces the partition, and extends both traces, only on strictly higher modularity |
| IterativeGreedyPy.IgTraced | Week2_Feb_22/Iterative-Greedy/utils/iterative_greedy_algorithm.py:135-164 | the traces start with GCP's partition and score, and each entry is a partition scoring strictly above the previous one |
| IterativeGreedyPy.IG | Week2_Feb_22/Iterative-Greedy/utils/iterative_greedy_algorithm.py:135-164 | IG returns a partition whose traces are improving and start from GCP |
| Cliques.NonZero | Week3_Feb_26/c++/src/network.cpp:8-15 | the adjacency relation is "entry non-zero" |
| Cliques.IsNeighborOfAll | Week3_Feb_26/c++/src/network.cpp:8-15 | true iff the node is adjacent to every clique member, so vacuously true on an empty clique |
| Cliques.NeighboursMember | Week3_Feb_26/c++/src/network.cpp:33-38 | the new candidate list holds exactly the old candidates adjacent to the node |
| Cliques.NeighboursDrop | Week3_Feb_26/c++/src/network.cpp:33-38 | without self-loops the node's own list shrinks, so the recursion terminates |
| Cliques.BronKerbosch | Week3_Feb_26/c++/src/network.cpp:18-55 | the loop that always takes the front candidate and then excludes it appends exactly the cliques the recursion defines; with minimum size 3 it is also `BronKerbosch` in `Week3_Feb_26/c++/src/local_expansion.cpp` (lines 15-45), which records only cliques of more than 2 nodes |
| Cliques.BranchesUnfold | Week3_Feb_26/c++/src/network.cpp:27-54 | one step of the loop is the branch on the front candidate followed by the rest |
| Cliques.NetworkCliques | Week3_Feb_26/c++/src/network.cpp:58-69 | enumerates from all nodes with no size filter; an empty graph gives one empty clique |
| Cliques.FoundMaximal | Week3_Feb_26/c++/src/network.cpp:21-24 | a recorded list is distinct, pairwise adjacent and maximal, since it is recorded only when P and X are empty |
| Cliques.AllCliquesMaximal | Week3_Feb_26/c++/src/network.cpp:18-68 | on a symmetric loopless graph every reported list is a maximal clique |
| Cliques.AllCliquesOnce | Week3_Feb_26/c++/src/network.cpp:18-68 | no maximal clique is reported twice |
| Cliques.AllCliquesComplete | Week3_Feb_26/c++/src/network.cpp:18-68 | every maximal clique meeting the size bound is reported |
| Cliques.IsolatedNodeReported | Week3_Feb_26/c++/src/network.cpp:21-24 | an isolated node is reported as a singleton clique |
| Cliques.AsWrittenSelfLoop | Week3_Feb_26/c++/src/network.cpp:27-48 | on the one-node graph with a self-loop the recursion calls itself with the same candidates and non-candidates, so it never reaches its base case |
| Cliques.WithoutLoops | Week3_Feb_26/c++/src/network.cpp:33-38 | dropping the self-loops gives a loopless graph with the same edges between distinct nodes |
| Cliques.WithoutLoopsLoopless | Week3_Feb_26/c++/src/network.cpp:58-69 | a graph already without self-loops is unchanged, so the corrected enumeration agrees with the modelled one there |
| Cliques.MaximalWithoutLoops | Week3_Feb_26/c++/src/network.cpp:18-55 | a set is a maximal clique with the self-loops iff it is one without them |
| Cliques.CorrectedCliques | Week3_Feb_26/c++/src/network.cpp:18-69 | the enumeration on the graph without its self-loops reports maximal cliques of the graph, distinct, of at least the minimum size, and every such clique |
| LocalExpansion.FindAllCliques | Week3_Feb_26/c++/src/local_expansion.cpp:47-58 | enumerates the maximal cliques of the positive-weight graph with at least 3 nodes, each distinct and in range |
| LocalExpansion.AverageWeight | Week3_Feb_26/c++/src/local_expansion.cpp:60-73 | the nested loops compute the ordered-pair distance sum over `n(n-1)` |
| LocalExpansion.AverageBounds | Week3_Feb_26/c++/src/local_expansion.cpp:60-73 | the average lies between any bounds of the off-diagonal distances |
| LocalExpansion.SortHeaviestFirst | Week3_Feb_26/c++/src/local_expansion.cpp:90-93 | the sort gives a permutation in non-increasing weight |
| LocalExpansion.FindAndSortCliquesByAverageWeight | Week3_Feb_26/c++/src/local_expansion.cpp:80-102 | a permutation of the enumerated cliques in non-increasing average distance |
| LocalExpansion.DegreeCountsNeighbours | Week3_Feb_26/c++/src/local_expansion.cpp:115-120 | a node's degree counts its positive row entries |
| LocalExpansion.FindNodeWithHighestDegree | Week3_Feb_26/c++/src/local_expansion.cpp:104-129 | -1 iff every node is skipped; otherwise an unskipped node of maximum degree, the lowest such index |
| LocalExpansion.ComputeSubgraphDistanceMatrix | Week3_Feb_26/c++/src/local_expansion.cpp:153-169 | a fresh `n x n` array with entry `(i, j)` equal to `adj(sub[i], sub[j])` |
| LocalExpansion.SubgraphOfFiltered | Week3_Feb_26/c++/src/local_expansion.cpp:153-169 | the subgraph matrix reads the filtered matrix at the subgraph's nodes |
| LocalExpansion.FindSubgraphCentroid | Week3_Feb_26/c++/src/local_expansion.cpp:131-149 | returns the subgraph node of the first smallest row sum |
| LocalExpansion.RowSum | Week3_Feb_26/c++/src/local_expansion.cpp:137-140 | the inner loop yields the total of the row of the subgraph matrix |
| LocalExpansion.FirstCliqueWith | Week3_Feb_26/c++/src/local_expansion.cpp:229-236 | -1 iff no clique holds the node; otherwise the first clique that does |
| LocalExpansion.ArbitraryOrder | Week3_Feb_26/c++/src/local_expansion.cpp:245-247 | the clique is reordered, which is a permutation |
| LocalExpansion.Expand | Week3_Feb_26/c++/src/local_expansion.cpp:249-260 | the clique grows only by new unselected nodes, each raising the fitness strictly, and every node passed over did not raise it at its turn |
| LocalExpansion.EraseAll | Week3_Feb_26/c++/src/local_expansion.cpp:267-269 | the clique's nodes leave the unselected set |
| LocalExpansion.SurvivorsMember | Week3_Feb_26/c++/src/local_expansion.cpp:275-277 | a node survives iff it is in the clique and still unselected |
| LocalExpansion.CopyUnselected | Week3_Feb_26/c++/src/local_expansion.cpp:274-277 | `copy_if` keeps the unselected nodes in order |
| LocalExpansion.PrunedSound | Week3_Feb_26/c++/src/local_expansion.cpp:271-282 | every pruned entry is a clique's survivors, more than 2 of them |
| LocalExpansion.PrunedComplete | Week3_Feb_26/c++/src/local_expansion.cpp:271-282 | every clique with more than 2 survivors is kept |
| LocalExpansion.PruneCliques | Week3_Feb_26/c++/src/local_expansion.cpp:271-282 | the loop computes the pruned list |
| LocalExpansion.CliqueSeeds | Week3_Feb_26/c++/src/local_expansion.cpp:211-285 | phase one yields at most `k` distinct in-range seeds, none of them still unselected; the cliques are the enumerated cliques of 3 or more nodes sorted heaviest first; round `t` began with the nodes no earlier community took, and its pending list is that sorted list pruned to those nodes; its seed is the first node of highest degree outside that round's skip list, no skipped node lies in a pending clique, the seed lies in a pending clique, and the first pending clique holding it, its surviving nodes in some order, starts the round's community, which grows only by nodes raising the fitness while every node passed over did not raise it at its turn; the unselected set is exactly the nodes no community covers; fewer than `k` seeds only when no enumerated clique keeps more than 2 unselected nodes |
| LocalExpansion.GrownDisjoint | Week3_Feb_26/c++/src/local_expansion.cpp:262-266 | the communities grown in phase one are pairwise disjoint, since each round erases its community from the unselected set and the next one grows only from what is left |
| LocalExpansion.NoCliquesNoSeeds | Week3_Feb_26/c++/src/local_expansion.cpp:211-285 | with no clique of 3 or more nodes the first phase takes no seed and leaves every node unselected |
| LocalExpansion.SeedsStart | Week3_Feb_26/c++/src/local_expansion.cpp:211-219 | before the first round every node is unselected and every enumerated clique is pending whole |
| LocalExpansion.SkipRound | Week3_Feb_26/c++/src/local_expansion.cpp:223-241 | a node of highest degree found in no remaining clique is skipped and the phase's invariant holds |
| LocalExpansion.SeedRound | Week3_Feb_26/c++/src/local_expansion.cpp:240-284 | a round that grows the first pending clique holding the node into a community, erases it from the unselected set and prunes the cliques keeps the phase's invariant with one more seed |
| LocalExpansion.PrunedAfterSeed | Week3_Feb_26/c++/src/local_expansion.cpp:229-282 | erasing the grown clique from the pending list and pruning the rest by the new unselected set gives the sorted list pruned by that set, so each round's pending list is the sorted list pruned to the nodes still unselected |
| LocalExpansion.PrunedTwice | Week3_Feb_26/c++/src/local_expansion.cpp:271-282 | pruning a pruned list by a smaller unselected set is pruning the original list by it |
| LocalExpansion.PrunedDrop | Week3_Feb_26/c++/src/local_expansion.cpp:266-282 | removing a clique none of whose nodes is still unselected does not change the pruned list |
| LocalExpansion.PrunedWhole | Week3_Feb_26/c++/src/local_expansion.cpp:213-219 | before any node is taken, pruning keeps every enumerated clique as it is |
| LocalExpansion.NoneLeft | Week3_Feb_26/c++/src/local_expansion.cpp:222 | an empty pending list means no enumerated clique keeps more than 2 unselected nodes |
| LocalExpansion.SurvivorsTwice | Week3_Feb_26/c++/src/local_expansion.cpp:271-282 | pruning an already pruned clique by a smaller unselected set is pruning the original by it |
| LocalExpansion.SeedsEnd | Week3_Feb_26/c++/src/local_expansion.cpp:222-285 | when the loop stops with `k` seeds or no cliques, the phase's outcome holds |
| LocalExpansion.FarthestUnselected | Week3_Feb_26/c++/src/local_expansion.cpp:293-300 | returns an unselected node whose summed distance to the seeds is largest |
| LocalExpansion.FallbackSeeds | Week3_Feb_26/c++/src/local_expansion.cpp:288-306 | fails with "No more nodes to select, k is too large" iff too few nodes remain; otherwise tops the seeds up to `k` with distinct farthest nodes |
| LocalExpansion.LocalExpansion | Week3_Feb_26/c++/src/local_expansion.cpp:210-309 | the clique phase round by round, as `CliqueSeeds` states it; fails with "No more nodes to select, k is too large" iff fewer nodes remain unselected than seeds are missing; otherwise exactly `k` distinct in-range seeds, the clique seeds first and then a chain of farthest unselected nodes |

## Left out

- File readers and writers (GML, `.dat`, true labels, pickle, exports) and the data-source reader: I/O. The generator's teams are constructor input.
- Visualisation, printing, pandas tables, manim animations, the `order_nodes`, `modularity_gain`, `modularity_score`, `compute_modularity` and `map_to_true_labels_space` helpers of the Louvain files, the networkx/sklearn/`community_louvain` wrappers, NMI (logarithms), k-means, PCA, `distance_matrix` (square roots) and `standard_scale`.
- Floating point: doubles are modelled as exact reals, so rounding and ties that only rounding breaks are not captured.
- Randomness: `random.shuffle`, `np.random.choice` and the C++ generators are inputs. The shuffle orders of GCP and the per-iteration shuffles of IG are parameters, and the IG iteration count is their number.
- LocalExpansion.LocalExpansion: `fitnessFunction` (`pow` with exponents 0.9 and 1.1) is a function-typed parameter, so the model proves nothing about which nodes a real fitness adds.
- LocalExpansion.ArbitraryOrder: `std::sort` with a comparator that reads the vector being sorted has no defined result, so the model allows any permutation.
- LocalExpansion.SortHeaviestFirst, LocalExpansion.FarthestUnselected, Labels.LabelsToCommunities, Louvain.LouvainMachine.NeighborCommunities, LocalExpansion.Expand: unordered containers (`std::sort` ties, `unordered_set`, `unordered_map`, Python `set`) are visited in an order the model leaves open.
- LocalExpansion.LocalExpansion: requires an adjacency matrix without self-loops, which the clique enumeration needs.
- LocalExpansion.AverageWeight: requires at least two nodes; the source divides 0 by 0 below that, and every clique it is called on has at least three.
- LocalExpansion.FindSubgraphCentroid: requires a non-empty subgraph, where the source would dereference past its one-element start; the `DBL_MAX` start is modelled as "no minimum yet".
- Labels.LabelsToCommunities: labels are exact reals, so a label outside the `int` range or a NaN, where the C++ conversion is undefined, is not modelled.
- Cliques.BronKerbosch: requires a graph without self-loops; with a self-loop the source's candidate list need not shrink (see Findings). The clique properties also need a symmetric graph.
- IterativeGreedy.GCP: requires `N >= 1` nodes, an order that is a permutation of `0..N-1` and a nonnegative matrix (`Nonnegative(A)`, as an adjacency matrix is), which keeps every modularity score at or above -1, the value the source uses as "no score yet". The `nodes.size() > 1` branch of the C++ GCP can never run and is not modelled.
- IterativeGreedy.PlaceNode, IterativeGreedy.IG, IterativeGreedyPy.IG: require a nonnegative matrix, for the same reason as IterativeGreedy.GCP.
- IterativeGreedy.IG: the C++ IG's unused `mod` variable and NMI logging are not modelled.
- IterativeGreedy.Destruct: requires `0 <= beta <= 1` and at least `floor(beta * n)` shuffled nodes, which the source's own shuffle guarantees.
- IterativeGreedyPy.IG: the plotting frames are not modelled; the modularity and community traces are.
- Modularity.ModularityInRange: the bound needs a nonnegative matrix, as an adjacency matrix is.
- Louvain.LouvainMachine.SolveCommunities: the contract describes the last sweep and the stopping condition; the earlier sweeps are stated one at a time by `ForwardLouvain`, not collected into one trace, and nothing is claimed about the final partition's modularity.
- Labels.CommunitiesToLabelPairs, Modularity.PyCommunityMask, Modularity.ModularityPy: require every community member to be a node index in `0..n-1`. Out of range, the Python raises `KeyError` at `dic[node]` (`Week2_Feb_22/Iterative-Greedy/utils/communities_network.py`, line 105) or `IndexError` at `C[i, j]` (lines 57-58), and a negative index wraps to the other end of the row. These error paths are not modelled; every caller passes in-range nodes.
- Collaborations.StudentGraphGenerator.GenerateGraph: the networkx graphs are modelled as node sets and edge lists; the source's assertion failure is the `false` result.

## Findings

| source | as written | input that shows it | evidently intended | confidence | as-written member | corrected member |
|---|---|---|---|---|---|---|
| Week2_Feb_22/Iterative-Greedy/utils/iterative_greedy_algorithm.py:112-123 | when every trial score and the current score are -1, `Mdb >= Mdphi` holds with `best_community_index == -1`, so `communities[-1] = None` overwrites the last community (losing its nodes and the reinserted one) or raises on an empty list | two isolated nodes, communities `[[0]]`, reinserting node 1 | open a singleton, as the C++ guard `Mdb >= Mdphi && Mdb != -1` does | not executed | IterativeGreedyPy.AsWrittenLosesNode | IterativeGreedyPy.ReconstructFrom |
| Week3_Feb_26/c++/src/network.cpp:33-38 | a node with a self-loop stays among its own new candidates, so the recursion on it repeats the same candidate and non-candidate lists and never ends (the same holds for `BronKerbosch` in `Week3_Feb_26/c++/src/local_expansion.cpp`, lines 29-33) | the one-node graph `[[1]]` | enumerate as if the self-loops were absent, since a clique never uses them | not executed; only matters when an input carries a self-loop | Cliques.AsWrittenSelfLoop | Cliques.CorrectedCliques |
