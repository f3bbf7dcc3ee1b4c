# Alzheimer brain-network simulation: a Dafny model of its graph logic

The program draws a random graph of ten "neurons" and degrades it according
to a chosen brain state. Healthy keeps every connection. Early Alzheimer
removes 30% of the connections and Advanced Alzheimer removes 60%. Each
surviving connection gets a random weight from the state's range, and
neurons left without connections are removed. The page then highlights a
selected neuron together with its neighbours and shows the number of
neurons, the number of connections and the average weight.

This project models that logic and proves what it guarantees:

- `graphs.dfy` (module `Graphs`): the graph as a value. Nodes are an ordered
  sequence, because networkx keeps nodes in insertion order. Edges are
  unordered pairs stored smaller endpoint first. Weights are integer
  hundredths. The module also holds neighbours, the activation set and the
  node colour list.
- `degradation.dfy` (module `Degradation`): the state labels, the removal
  count, the weight ranges and `Degraded`. `Degraded` is the graph that
  `generate_brain` returns for given outcomes of its random calls. The
  lemmas beside it state the properties of that graph.
- `brain.dfy` (module `BrainNet`): `generate_brain` as the program runs it.
  A `Brain` object stands for the networkx graph `G`, and its methods change
  it in place as `remove_edges_from`, the weight-assignment loops and
  `remove_nodes_from` do; it is read with `nx.isolates`. `GenerateBrain` is proved to
  produce exactly `Degraded`.
- `summaries.dfy` (module `Summaries`): the neuron count, connection count
  and average weight, including the guard for a graph with no edges.

The random calls are inputs, constrained to what they can return:

- The result of `nx.erdos_renyi_graph(n=10, p=0.5)` is `sampled`, any simple
  graph on nodes 0..9.
- `random.sample(list(G.edges()), k)` gives `toRemove`: a subset of the
  edges of exactly the prescribed size.
- The `round(random.uniform(a, b), 2)` draws are a map `draw` from each
  edge to a value in [100a, 100b].

`int(0.3 * m)` and `int(0.6 * m)` are written as `(3 * m) / 10` and
`(6 * m) / 10`. These agree with the float expressions for every m up to 45,
and `SampledEdgeBound` proves that a 10-node graph has at most 45 edges.

Behaviour of the code to note:

- An unrecognised state label does not fail. No edge is removed and no
  weight is assigned. The only change is isolate pruning. A surviving edge
  then has no weight, so reading the weight list (model.py:72) raises
  `KeyError`. `Summary` returns `None` in that case.
- Selecting a neuron has no membership check of its own. `G.neighbors`
  (model.py:56) raises `NetworkXError` for a node not in the graph, and the
  selection list only offers present nodes. So `Neighbours` and
  `Activation` require the node to be in the graph, and `Colours` requires
  it whenever the graph has a node.
- The weight ranges are closed intervals (for example 70..100 hundredths for
  Healthy), as `round(uniform(a, b), 2)` produces. They are not open
  intervals.
- The node count and edge probability are fixed in the code (10 and 0.5).
  They are not parameters there.

## Model

| member | source | states |
|---|---|---|
| Degradation.RemovalCount | model.py:28 | the number of edges removed is floor(3m/10) for Early and floor(6m/10) for Advanced (10k <= 3m < 10(k+1), and likewise for 6m); it is 0 for Healthy and any other label; it never exceeds m |
| Degradation.Upto | model.py:21 | the generated graph lists nodes 0..n-1 once each, in increasing order |
| Degradation.StateOf | model.py:23-33 | each of "Healthy", "Early Alzheimer" and "Advanced Alzheimer" selects its own branch, and exactly the other strings select none |
| Degradation.RangeOf | model.py:25-37 | exactly the three recognised states draw weights, each from a non-empty range inside [0, 100] hundredths |
| Degradation.Without | model.py:39 | removing nodes keeps exactly the nodes not dropped, with their labels; an ascending list stays ascending (every node list in the model is ascending, from `Upto`, so this fixes the order); dropping every node leaves none |
| Degradation.Isolated | model.py:39 | `nx.isolates` selects exactly the listed nodes with no incident edge, so no edge has an endpoint among them |
| Degradation.Degraded | model.py:20-40 | the graph `generate_brain` returns: its nodes are among 0..n-1 and ascending, its edges are among the sampled ones |
| Degradation.Survivors | model.py:39 | the nodes left after pruning isolates are exactly those of 0..n-1 with an incident kept edge, in ascending order |
| Degradation.DegradedWellFormed | model.py:20-40 | the returned graph is well formed: distinct nodes, every edge joins two present nodes, and only present edges carry weights |
| Degradation.DegradedEdges | model.py:28-39 | the surviving edges are a subset of the sampled edges; the removed edges are exactly `toRemove`; the edge count is m minus the removal count |
| Degradation.HealthyKeepsEveryEdge | model.py:23-25 | Healthy removes no edge, and every sampled edge gets a weight in [70, 100] hundredths |
| Degradation.WeightsInRange | model.py:25-37 | in the three recognised states, every remaining edge has a weight, and it lies in the state's range ([70,100], [30,60] or [10,30]) |
| Degradation.NoIsolatedNodes | model.py:39 | a node is kept exactly when it is one of 0..n-1 with an incident surviving edge, and every kept node has degree at least 1 |
| Degradation.UnrecognisedOnlyPrunes | model.py:23-39 | any other label removes no edge and assigns no weight |
| Degradation.EarlySingleEdgeSurvives | model.py:27-31 | with one sampled edge, Early Alzheimer removes nothing, and the edge survives with a weight in [30, 60] |
| Degradation.EmptySampleGivesEmptyGraph | model.py:20-40 | with no sampled edge, nothing is removed (the sample size is 0) and the result has no nodes, no edges and no weights |
| Degradation.SimpleEdgeBound | model.py:21 | a simple graph on n nodes has at most n(n-1)/2 edges |
| Degradation.SampledEdgeBound | model.py:21 | the 10-node sampled graph has at most 45 edges, the range in which the exact removal count equals the float one |
| BrainNet.Brain.Sampled | model.py:21 | the generated graph has nodes 0..n-1, the sampled edges and no weights |
| BrainNet.Brain.RemoveEdgesFrom | model.py:29 | the listed edges and their weights are removed, nodes are untouched, and the graph stays well formed |
| BrainNet.Brain.AssignWeights | model.py:24-25 | every current edge gets its drawn weight; nodes and edges are unchanged |
| BrainNet.Brain.Isolates | model.py:39 | returns exactly the nodes with no incident edge, each once |
| BrainNet.Brain.RemoveNodesFrom | model.py:39 | the listed nodes go, together with every edge touching one of them and that edge's weight; the rest keep their order |
| BrainNet.KeepNodes | model.py:39 | one pass over the node list keeps exactly `Without(s, drop)` |
| BrainNet.Brain.Degrade | model.py:23-37 | the branch on the label: edges become old edges minus the removed set; the weights are the drawn values on every surviving edge, or none for an unrecognised label |
| BrainNet.Brain.PruneIsolates | model.py:39 | only isolated nodes are removed; no edge and no weight changes |
| BrainNet.RemovingUntouchedNodes | model.py:39 | removing nodes that no edge touches keeps every edge and every weight |
| BrainNet.NodesRemoved | model.py:39 | after `remove_nodes_from`, a node remains exactly when it was present and not dropped; an edge remains exactly when it was present and touches no dropped node, and keeps its weight; a well-formed graph stays well formed |
| BrainNet.WithoutDistinct | model.py:39 | removing nodes from a list without repeats leaves no repeats |
| BrainNet.GenerateBrain | model.py:20-40 | the in-place run yields exactly `Degraded` for the same random outcomes, so every property above holds of the graph the page uses |
| Graphs.Join | model.py:56 | an unordered pair of distinct nodes has a single stored form, smaller endpoint first |
| Graphs.OtherImageSize | model.py:56 | distinct incident edges of v lead to distinct neighbours |
| Graphs.Neighbours | model.py:56 | the neighbours of v are exactly the nodes adjacent to v; v is not among them; there are degree(v) of them |
| Graphs.Activation | model.py:56-60 | the activation set is the selected node together with every adjacent node and nothing else; it has 1 + degree members, all present in the graph when the graph is well formed |
| Graphs.Colours | model.py:54-63 | one colour per node in node order; a node is blue iff it is the selected node or adjacent to it; with no nodes the list is empty |
| Graphs.CountBlueMatches | model.py:61 | over a list without repeats, the number of blue positions is the number of activated nodes in the list |
| Graphs.BlueNodeCount | model.py:54-61 | exactly 1 + degree(selected) nodes are drawn blue |
| Summaries.TotalWeight | model.py:96 | `sum(weights)` in hundredths; a sum of weights that are not negative is not negative |
| Summaries.TotalWeightRemove | model.py:72 | the sum does not depend on the order `G.edges()` visits the edges: any edge can be taken out first |
| Summaries.LightestAndHeaviest | model.py:96 | for a non-empty edge set, some edge weighs at most the mean and some edge at least the mean |
| Summaries.TotalWeightBounds | model.py:72 | a sum of count weights, each in [lo, hi], lies in [lo * count, hi * count] |
| Summaries.Summary | model.py:72-96 | the panel fails (`KeyError`) exactly when some edge has no weight; otherwise the neuron and connection counts are the graph's sizes, and the average is "N/A" exactly when no edge remains, else a mean over all of the graph's edges that lies between the lightest and the heaviest edge weight |
| Summaries.GeneratedSummary | model.py:20-96 | for a recognised state the panel always shows: the connection count is m minus the removal count, and the mean weight lies in the state's range |
| Summaries.UnrecognisedSummary | model.py:23-39 | for any other label, the panel fails exactly when the sampled graph had an edge |

## Left out

- Streamlit page setup and widgets (radio, button, `st.rerun`, selectbox, info box, messages, metric widgets; model.py:9-10, 43-47, 55, 57, 85-96) are UI, so they are not modelled. The metric values they show are modelled.
- Background image loading (model.py:13-17) is file I/O and is not modelled.
- `nx.spring_layout` and all matplotlib drawing (model.py:51, 66-82) are foreign layout and plotting code with float coordinates. This includes the edge colour map and the edge labels.
- The randomness of `nx.erdos_renyi_graph` (with p = 0.5), `random.sample` and `random.uniform` is not modelled. Their outcomes are inputs. A probability, and reproducibility from a seed, cannot be stated about them.
- The order in which networkx iterates edges is not modelled. Edges form a set, and the draws are a map from each edge to its weight, so which draw goes to which edge is part of the input. The weight sum is proved independent of that order (`TotalWeightRemove`).
- Summaries.Summary: the mean is kept as its integer sum and count in hundredths. The float division and `:.2f` formatting of model.py:96 are not modelled.
- BrainNet.Brain.Isolates: the contract says which nodes are returned and that none repeats, but not that they come in node order. Only the set matters to `remove_nodes_from`.
