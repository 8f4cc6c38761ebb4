# Clustering-targeted graph rewiring, modelled in Dafny

This project models two parts of a network-analysis project.

The first is the rewiring engine of `models.py`. `model1`, `model2` and `model3` take a networkx graph and its current average clustering coefficient. They rewire the graph in place, round after round, until the coefficient lies within `allowed_error` of a target `cluster`.

- In each round every node drops one random incident edge.
- It then builds a pool of candidate partners by a model-specific rule and caps the pool at `nodes_per_round` with `random.sample`.
- It scores each candidate by adding the edge, measuring `average_clustering` and removing the edge again.
- It keeps the edge to the first candidate with the best score.
- Models 2 and 3 first reconnect the graph. They attach every node outside the largest connected component to a random member of it.

The second part is the configuration-model generator of `utilities.py`.

- `configuration_A` matches degree stubs at random.
- `configuration_B` draws degree sequences from a weight list until one passes the Erdős–Gallai test, then calls `configuration_A`.
- `digest_network` computes the degree histogram (a `numpy.bincount` of the degree list) that it passes to `configuration_B` as weights.

## Structure

- `graphs.dfy` (module `Graphs`)
  - Undirected graphs over the nodes `0 .. n-1`, stored as one neighbour set per node. A self-loop at `v` means `v in adj[v]`.
  - `add_edge` and `remove_edge` as functions, with their round trips.
  - Connected components, `is_connected`, and the lemmas behind the connectivity repair.
  - The class `Graph`, whose `adj` field the models update in place.
- `selection.dfy` (module `Selection`)
  - List comprehensions and `random.sample`.
  - The `nodes_per_round` cap.
  - `list.index(max(list))`.
- `clustering.dfy` (module `Clustering`)
  - networkx's local and average clustering coefficients, as exact reals.
- `rewiring.dfy` (module `Rewiring`)
  - The three candidate pools and the tentative scoring loop.
  - One node step, one round and the convergence loop, with `model1`, `model2` and `model3` as `RunModel1`, `RunModel2` and `RunModel3`.
- `configuration.dfy` (module `Configuration`)
  - Stubs and `configuration_A`.
  - The Erdős–Gallai predicate.
  - `random.choices` and `configuration_B`.
- `histogram.dfy` (module `Histogram`)
  - The degree list and its bincount.

## How the source is represented

Every random pick is a nondeterministic choice (`:|`) that satisfies exactly the constraints of the Python call:

- a `random.choice` result is a member of the list;
- a `random.sample` result is drawn from distinct positions of the pool;
- a `random.choices` result is an index of positive weight.

Every contract therefore holds for every possible outcome of the random generator.

The one-hour `signal.alarm` of the models becomes a budget of `maxRounds` whole rounds.

- The alarm fires right after `i += 1` of round `maxRounds + 1`.
- A run stopped by the alarm therefore returns `i` rounds but only `i` coefficients, not `i + 1`: the coefficient of the interrupted round was never appended.

Only `TimeoutException` is caught. Any other exception leaves `model1`, `model2` or `model3`, and nothing is returned. The outcome `Raised` marks such a run; its `rounds` and `trajectory` describe the state at the moment of the exception, which the caller never sees. Two exceptions can occur:

- On an empty graph, model 1 reaches `average_clustering` (models.py:71), which divides by zero. Models 2 and 3 fail earlier, in `nx.is_connected` (models.py:118 and 208), which rejects a graph without nodes.
- Model 3 can read `degree_of_removed_node` before anything was assigned to it (models.py:226). The name is read inside a list comprehension. Before Python 3.12 the comprehension has its own scope, so this raises `NameError`. From Python 3.12 on, comprehensions are inlined and it raises `UnboundLocalError`, a subclass of `NameError`.

The loops of `configuration_A` and `configuration_B` may never end in Python. Here each has a draw budget and reports whether it stopped by itself.

Four quirks of the source are kept as written and proved as lemmas:

- Model 1 excludes the neighbour list taken before the drop, so the dropped neighbour is never a candidate.
- Model 2 discards the node itself from its exclusion set, so the node is its own candidate. In a triangle this makes model 2 add a self-loop (`Model2TriangleSelfLoop`).
- Model 3 does not exclude current neighbours. Scoring an existing neighbour adds nothing and then deletes the existing edge (`Model3ScoringDeletesEdge`).
- Model 3 reads `degree_of_removed_node` even when the node has no neighbour. It then reuses the value of an earlier node step. On a one-node graph without a self-loop it raises, because nothing was ever assigned to it.

The random picks of a run are not recorded, but each run comes with ghost witnesses of them. `Round` returns the graph before every node step, and each step is shown to be one of the outcomes `StepOutcome` allows. `Rewire` returns the graph after every round, and each round is shown to be a repair step followed by such node steps. Every coefficient after the first is the average clustering of its round's graph.

`configuration_A` returns with a ghost log of its idle draws: the draws of two different nodes that were already linked. Such a draw uses up one stub of each but adds no edge. The log records exactly those draws, each of them an edge of the final graph, and a node's shortfall is the number of logged draws that name it.

## Model

| member | source | states |
|---|---|---|
| Graphs.NodeList | models.py:115 | `list(G.nodes())` lists exactly the nodes 0 .. n-1, in order |
| Graphs.Degree | models.py:222 | a node has degree 0 exactly when it has no neighbour; without a self-loop the degree is its number of neighbours |
| Graphs.WithEdge | models.py:62 | after `add_edge(u, v)`, the edges are the old ones plus {u, v} recorded at both ends; a well-formed graph stays well-formed |
| Graphs.WithoutEdge | models.py:64 | after `remove_edge(u, v)`, the edges are the old ones minus {u, v} at both ends; a well-formed graph stays well-formed |
| Graphs.AddRemoveRoundTrip | models.py:62-64 | adding an absent edge and removing it again gives back the same graph |
| Graphs.RemoveAddRoundTrip | models.py:47-48 | removing a present edge and adding it again gives back the same graph |
| Graphs.AddThenRemove | models.py:237-239 | `add_edge` then `remove_edge` of one pair deletes that pair whether or not it was an edge before |
| Graphs.Detach | models.py:61-64 | after a tentative add/remove for each candidate in turn, exactly the edges between the node and the candidates are gone |
| Graphs.DetachNonNeighbours | models.py:61-64 | tentative add/remove over candidates that are not neighbours leaves the graph unchanged |
| Graphs.Neighbourhood | models.py:136-137 | every neighbour of a member of the set is in the result, and the result holds only nodes |
| Graphs.NeighbourhoodOnlyNeighbours | models.py:136-137 | conversely, every member of the result is a neighbour of some member of the set |
| Graphs.Closure | models.py:119 | the nodes reachable from S: a superset of S, closed under neighbours, within the node set |
| Graphs.ClosureLeast | models.py:119 | the reachable set lies inside every neighbour-closed set containing S |
| Graphs.Component | models.py:119 | a node's connected component contains the node and only nodes |
| Graphs.ReachSymmetric | models.py:119 | if y is in the component of x, then x is in the component of y |
| Graphs.IsolatedComponent | models.py:209 | a node without neighbours is alone in its component |
| Graphs.Connected | models.py:118 | `is_connected` holds exactly when every node's component is the whole node set |
| Graphs.ConnectedHasNeighbours | models.py:218-222 | in a connected graph of two or more nodes every node has a neighbour, so model 3's first node step assigns `degree_of_removed_node` |
| Graphs.ComponentGrows | models.py:122 | adding edges never shrinks a component |
| Graphs.JoinedToComponentIsConnected | models.py:118-122 | once every node outside a component has an edge into it, the graph is connected |
| Graphs.Graph.constructor | utilities.py:41-42 | a new graph on n nodes has n isolated nodes |
| Graphs.Graph.AddEdge | models.py:62 | the graph afterwards is `WithEdge` of the old graph and stays well-formed |
| Graphs.Graph.RemoveEdge | models.py:48 | the graph afterwards is `WithoutEdge` of the old graph and stays well-formed |
| Selection.Filter | models.py:51 | the comprehension keeps exactly the members that pass the test and is no longer than its input; an increasing list stays increasing |
| Selection.Sample | models.py:55 | `random.sample(pool, k)` returns k entries taken from distinct positions of the pool |
| Selection.SampleOfDistinctIsDistinct | models.py:55 | a sample of a list without repeats has no repeats |
| Selection.CapCandidates | models.py:54-57 | the candidates are the whole pool when it has at most `nodes_per_round` entries, otherwise exactly `nodes_per_round` distinct pool members |
| Selection.FirstMaxIndex | models.py:68 | `index(max(...))`: the position of a maximal score, with every earlier score strictly smaller |
| Clustering.Neighbours | models.py:63 | clustering looks at a node's neighbours minus the node itself |
| Clustering.LinkedPairs | models.py:63 | the linked neighbour pairs are a subset of the ordered pairs of distinct neighbours |
| Clustering.OrderedPairsCount | models.py:63 | a node with d neighbours has d(d-1) ordered neighbour pairs |
| Clustering.LocalClustering | models.py:63 | a node's coefficient lies between 0 and 1 |
| Clustering.ClusteringSum | models.py:63 | the sum of the first k coefficients lies between 0 and k |
| Clustering.AverageClustering | models.py:71 | `average_clustering` of a non-empty graph lies between 0 and 1 |
| Clustering.SelfLoopKeepsClustering | models.py:152-153 | adding a self-loop leaves the average clustering unchanged, so model 2's self-candidate scores the graph as it is |
| Rewiring.Model1Pool | models.py:51 | the candidates are exactly the nodes other than the node itself and not among its neighbours before the drop, in node order, without repeats |
| Rewiring.Extended | models.py:135-138 | the exclusion set is the old neighbours and their neighbours after the drop, less the node itself |
| Rewiring.Model2Pool | models.py:141 | the candidates are exactly the nodes outside the exclusion set, in node order, without repeats; the node itself is always one |
| Rewiring.Model3Pool | models.py:226 | the candidates are exactly the other nodes whose degree after the drop equals the remembered degree, in node order, without repeats |
| Rewiring.Pool | models.py:50-51 | a pool holds only nodes, in node order, without repeats; models 1 and 2 never offer a current neighbour other than the node itself |
| Rewiring.TentativeScore | models.py:61-63 | each tentative score lies between 0 and 1 |
| Rewiring.Best | models.py:67-68 | a partner is kept exactly when there is a candidate; it is the candidate at the first position of maximal score |
| Rewiring.ScoreCandidates | models.py:59-64 | each score is the clustering with the edge to that candidate, after the earlier candidates were tried; the graph ends with those candidate edges removed |
| Rewiring.Choose | models.py:50-69 | the candidates are a capped sample of the model's pool, scored as above; the graph ends with the first best candidate attached |
| Rewiring.NodeStep | models.py:43-69 | a node step drops a random edge exactly when the node has one, chooses as above, and raises only in model 3 with no neighbour and nothing remembered |
| Rewiring.Model1StepEdges | models.py:44-69 | in model 1 a node step removes at most the dropped edge and adds at most the chosen one |
| Rewiring.Model2StepEdges | models.py:128-159 | in model 2, at a node without a self-loop, a step removes at most the dropped edge and adds at most the chosen one |
| Rewiring.ThreeNodeModel2Pool | models.py:135-141 | in a three-node graph, after node 0 drops one of its two neighbours, node 0 is its own only candidate |
| Rewiring.SoleCandidate | models.py:144-159 | a pool with a single member c, under a positive cap, makes c the partner kept |
| Rewiring.Model2TriangleSelfLoop | models.py:135-159 | model 2 on a triangle adds a self-loop at node 0 |
| Rewiring.Model3Candidates | models.py:220-226 | model 3's candidates differ from the node and have, after the drop, the degree the dropped neighbour had before it, or the remembered value when nothing was dropped |
| Rewiring.Model3ScoringDeletesEdge | models.py:236-239 | in model 3 every candidate other than the winner ends the step without an edge to the node, even a former neighbour |
| Rewiring.TriangleModel3Pool | models.py:222-226 | in a triangle, model 3 offers node 0 its remaining neighbour 2 |
| Rewiring.LargestComponent | models.py:119 | the chosen component is as large as any other, and is the component of the first node whose component is largest |
| Rewiring.AttachOutside | models.py:120-122 | every node outside the component gains exactly one neighbour, a member of the component it was not linked to; members of the component gain only outside nodes; no edge is lost |
| Rewiring.RepairConnectivity | models.py:118-122 | `Repaired`: afterwards the graph is connected and no edge is lost; a connected graph is left alone; otherwise every node outside the largest component gains exactly one edge into it, and nothing else is added |
| Rewiring.TracedStep | models.py:43-69 | a node step extends the round's trace by one step allowed by `StepOutcome`; it raises exactly in model 3 at a node without neighbours with nothing remembered |
| Rewiring.Sweep | models.py:124-159 | the node steps of a round, one per node in node order, each an outcome `StepOutcome` allows, from the graph the repair left to the graph at the end; the loop stops at once when model 3 raises, which happens only on a single node |
| Rewiring.Round | models.py:115-159 | `RoundTrace`: the repair (models 2 and 3) takes the graph to start, which is the graph itself for model 1; then one allowed node step per node, ending in the graph handed back; it raises only in model 3 on a single node with no degree remembered, and does raise there when that node has no self-loop and no degree is remembered |
| Rewiring.InBounds | models.py:40 | a coefficient is in bounds exactly when the loop condition fails |
| Rewiring.ExplainedRound | models.py:114-162 | a round that does not raise extends the run's graphs by one graph reached by an allowed round, with its average clustering as the next coefficient; a round that raises does so from the last graph and leaves it unchanged |
| Rewiring.Rewire | models.py:30-83 | `Reported` and `Explained`: the trajectory and counter the source returns, plus the graphs behind them, each reached from the one before by an allowed round and scored by its average clustering; the graph is unchanged when the start is in bounds; an empty graph, or model 3's isolated single node, raises in the first round; a run that raises inside a round did so from the last graph recorded |
| Rewiring.RunModel1 | models.py:14-83 | `Reported`: the trajectory starts at `c_current`; every entry before the last lies out of bounds; a converged run ends in bounds with `i + 1` entries; an in-bounds start returns `i = 0`, `[c_current]` and the same graph; the run times out exactly when the budget is exceeded; it raises exactly on an empty graph. `Explained`: the graph after each round comes from the one before by the repair-free round of model 1, every coefficient after the first is the average clustering of its graph, and the graph returned is the last one |
| Rewiring.RunModel2 | models.py:87-173 | the same report and the same round-by-round graphs for model 2, each round a repair followed by model 2's node steps; it raises exactly on an empty graph |
| Rewiring.RunModel3 | models.py:177-258 | the same report and round-by-round graphs for model 3; it raises in the first round on an empty graph and on a one-node graph without a self-loop; a run that raises inside a round did so from the last graph recorded |
| Configuration.Stubs | utilities.py:40 | the stub list names only nodes of S, and node i exactly `S[i]` times |
| Configuration.RemoveFirst | utilities.py:48-49 | `list.remove(x)` takes exactly one occurrence of x away |
| Configuration.OneNodeDrawsAreIdle | utilities.py:44-46 | when every remaining stub names one node, every draw names that node twice, so the loop makes no progress |
| Configuration.DistinctStubsCanPair | utilities.py:44-46 | two stubs naming different nodes form a possible draw, so progress is possible |
| Configuration.RemovePair | utilities.py:48-49 | the two removals shrink the stub list by two, one occurrence of v and one of w |
| Configuration.Shortfall | utilities.py:45-49 | a node falls short exactly when some idle draw named it, and by at most one stub per idle draw |
| Configuration.ShortfallCounts | utilities.py:45-49 | a node's shortfall is the number of idle draws that name it |
| Configuration.Logged | utilities.py:45-47 | a draw of two different nodes is logged exactly when they were already adjacent, and then each of them falls one further stub short while every other node's shortfall stays |
| Configuration.DrawCount | utilities.py:45-49 | after a draw of v and w, each node's degree, remaining stubs and shortfall still add up to its entry of S |
| Configuration.LoggedLinked | utilities.py:46-47 | after a draw, every logged idle draw still names an edge of the graph |
| Configuration.IdleDrawLinks | utilities.py:46-47 | a node named by an idle draw has a neighbour |
| Configuration.DrawKeepsBudget | utilities.py:45-49 | a successful draw keeps `Budget`: degree plus remaining stubs plus shortfall equals `S[i]` for every node, and every idle draw names an edge |
| Configuration.StubsMatchNothing | utilities.py:40-42 | the initial state, with no edge, all stubs and no shortfall, meets the loop invariant |
| Configuration.DrawKeepsMatching | utilities.py:45-49 | a successful draw keeps the loop invariant: no self-loops, the exact stub accounting, an even number of stubs used |
| Configuration.Draw | utilities.py:44-49 | a draw names two stubs at distinct positions; with different nodes it adds their edge, removes one stub of each and logs the draw exactly when they were already linked; with the same node nothing changes |
| Configuration.ConfigurationA | utilities.py:31-50 | the result has `len(S)` nodes and no self-loops; every node's degree, its remaining stubs and the number of logged idle draws naming it add up to its entry of S; every idle draw names an edge of the result; a node with a positive entry and no stub left has a neighbour; the loop stops by itself exactly when at most one stub remains; when all stubs name one node nothing ever changes |
| Configuration.UsedStubsLink | utilities.py:44-49 | a node with a positive entry whose stubs are all used has a neighbour |
| Configuration.PairOfStubsIsLinked | utilities.py:31-50 | for `S = [1, 1]`, once the loop stops by itself the two nodes are linked |
| Configuration.StarIsNoOutcome | utilities.py:31-50 | for `S = [4, 2, 2, 2]`, the star on centre 0 with no stub left meets no loop state: its leaves would need two idle draws with the centre, leaving the centre two stubs short rather than one |
| Configuration.IdleDrawAtLeaf | utilities.py:46-47 | an idle draw that names a node with a single neighbour names that neighbour too |
| Configuration.TwoIdleDraws | utilities.py:45-49 | two different idle draws naming a node leave it at least two stubs short |
| Configuration.Graphical | utilities.py:64 | an accepted sequence has a degree sum between 0 and `n(n-1)` |
| Configuration.SortDesc | utilities.py:64 | the sorted sequence is descending and a permutation of its input |
| Configuration.OneIsNotGraphical | utilities.py:63-64 | the initial `S = [1]` fails the test, so at least one sequence is drawn |
| Configuration.ErdosGallaiBoundsDegrees | utilities.py:64 | for non-negative sequences the inequalities already bound every degree by `len(S) - 1` |
| Configuration.DescendingUnique | utilities.py:64 | two descending sequences with the same entries are equal |
| Configuration.SumOfMultiset | utilities.py:64 | the degree sum does not depend on the order of the entries |
| Configuration.GraphicalIgnoresOrder | utilities.py:64 | the test accepts a sequence exactly when it accepts every reordering of it |
| Configuration.NoWeight | utilities.py:65 | for non-negative weights, there is no weight to draw by exactly when every weight is zero |
| Configuration.PositiveEntry | utilities.py:65 | non-negative weights with a positive total have an entry of positive weight |
| Configuration.EntryAtMostSum | utilities.py:65 | every non-negative weight is at most the total, so a positive entry gives a positive total |
| Configuration.Choices | utilities.py:65 | `random.choices(..., k=n)` returns `max(n, 0)` indices, each of positive weight |
| Configuration.ConfigurationB | utilities.py:53-66 | it raises exactly when there is no weight; a built graph comes from a sequence that passed the test, after at least one draw, of length n with entries of positive weight; the graph meets the `configuration_A` invariant with its exact stub accounting; without any positive weight below n nothing is built |
| Histogram.DegreeSequence | utilities.py:88 | the degree list has one entry per node, entry v the degree of node v, which is zero exactly for a node without neighbours |
| Histogram.BinCount | utilities.py:89 | entry d counts the occurrences of d; every value lies below the length; the last entry's index occurs; empty exactly for an empty input |
| Histogram.BinCountTotal | utilities.py:89 | the counts add up to the length of the input |
| Histogram.DegreeHistogram | utilities.py:88-89 | the histogram is empty exactly for a graph without nodes |
| Histogram.DegreeHistogramCounts | utilities.py:88-89 | entry d is the number of nodes of degree d; every degree lies below the length; the entries add up to the number of nodes |
| Histogram.HistogramWeights | utilities.py:88-92 | the weights are non-negative; degree d has positive weight exactly when some node has degree d; `random.choices` raises on them exactly when the network has no node |

## Left out

- Rewire: the alarm is checked only at the start of each round. An interruption in the middle of a round is not modelled. Such an interruption leaves a partial round, possibly with a tentative edge still in place.
- Rewire: `time.time`, `signal` and the execution-time prints are not modelled.
- Rewire: `random.seed(seed)` and the Mersenne-Twister sequence are not modelled; only the set of possible picks is. The same holds for `configuration_A` and `configuration_B`, and for `configuration_B` calling `configuration_A` without its seed.
- Clustering.AverageClustering: computed in exact reals. Floating-point rounding is not modelled, including how it could break ties in `max(c_possible)`.
- Rewire: `nodes_per_round` is a natural number. A negative value makes `random.sample` raise in Python, and that case is not modelled.
- Graphs.Graph.AddEdge: both endpoints must be nodes already. networkx would create missing nodes, but no call in the core adds an edge to an unknown node.
- Rewire: node labels are 0 .. n-1, in insertion order. The `if node not in G` guard (models.py:125, 215) is not modelled because nodes are never removed.
- ConfigurationA: the budget `maxDraws` replaces the unbounded `while` loop. The Python loop never ends when every remaining stub names one node (`OneNodeDrawsAreIdle`).
- ConfigurationB: the budget `maxDraws` replaces the unbounded rejection loop.
- ConfigurationB: requires non-negative weights. Python does not check this, and negative weights lead to draws this model does not describe. The histogram that `digest_network` passes never has a negative weight (`HistogramWeights`).
- Choices: models only which indices can be drawn, not their probabilities.
- Configuration.Graphical: states the classical Erdős–Gallai inequalities on the descending sort, together with the range and parity checks networkx performs first. networkx's own implementation, with its Zverovich–Zverovich shortcut, is not part of this model. The theorem that the inequalities characterise the degree sequences of simple graphs is not proved here.
- `digest_network`: reading the CSV with pandas, the per-edge attributes, and the final `average_clustering` call are not modelled. Only the degree list and its histogram (lines 88-89) are.
- `analyze_graph`, `timeout_handler` and example.py are not part of this model.
