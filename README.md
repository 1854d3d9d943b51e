# visJS2jupyter network heat propagation, modelled in Dafny

visJS2jupyter draws networks in Jupyter notebooks. Its analytic core is
network heat propagation: a random walk with restart over a normalised
adjacency matrix, seeded by a list of genes. This project models the
following parts of it:

- the adjacency normaliser (`normalized_adj_matrix`) in conserving and in
  symmetric (non-conserving) mode;
- the propagation engine (`network_propagation`): the seed vector Y, then a
  fixed number of steps of `F := alpha·W'·F + (1-alpha)·Y`;
- the Laplacian builder, the index maps and the label/vector alignment of
  the SciPy heat kernel (`SciPYKernel`), with the exponential kernel itself
  taken as a given matrix;
- the graph bookkeeping of `draw_heat_prop`:
  - seed validation;
  - selection of the hottest nodes (`set_num_nodes`);
  - edge heat as the larger of the endpoint heats;
  - node shapes, border widths and size multipliers;
  - the physics default (`set_physics_enabled`);
- `create_graph_union`: the overlap codes and the edge weights of the union;
- the prologue of `visjs_network`:
  - the input checks;
  - the deprecated-option overrides;
  - `check_nodes_dict`, which fills in default values in place;
  - `stringify_bool`;
  - the graph size strings of `create_graph_style_file`.

Heat is modelled over exact `real`s. This is why seed mass, column sums and
mass conservation hold exactly.

Modules:

- `Wrappers`: `Option` and `Result`.
- `Vectors`: vectors and matrices as sequences, with sums, dot products
  and matrix-vector products.
- `Lists`: sorting with duplicates removed (`sorted(set(..))`,
  `np.union1d`), `dict(zip(..))` and the first index of a label.
- `Graphs`:
  - index graphs: `n` nodes numbered in `G.nodes()` order, plus an edge
    list;
  - label graphs: a node list plus label pairs;
  - the networkx unweighted degree.
- `Normalization`: `normalized_adj_matrix`.
- `Propagation`: `network_propagation`.
- `HeatKernel`: `SciPYKernel`, as a class whose fields are set by its
  constructor.
- `GraphUnion`: `create_graph_union`.
- `HeatDisplay`: `draw_heat_prop`, `set_num_nodes` and
  `set_physics_enabled`.
- `VisjsOptions`: the parts of `visJS_module.py` named above.

`notebooks/networkProp/network_prop.py` repeats `normalized_adj_matrix` and
`network_propagation` verbatim. They are modelled once, and the rows below
cite both copies.

Where the code and its documentation disagree, the model follows the code:

- With `num_its = 0` the loop of `network_propagation` never binds `Fnew`,
  so the function fails instead of returning Y. `NetworkPropagation`
  requires `numIts >= 1`.
- With an empty seed list the loop that fills Y never runs, so nothing is
  divided by zero and Y stays all zero.
- `create_graph_union` fails on two empty graphs, at `log10(0)`. It also
  fails when neither graph has an edge, at `zip(*[])`. Both cases are
  modelled as `Failure` results.

## Model

| member | source | states |
|---|---|---|
| Lists.SortedUnique | visJS2jupyter/scipy_heatKernel.py:45 | the node order is strictly increasing and holds exactly the input labels; when the input has no duplicates, nothing is lost |
| Lists.InsertIncreasing | visJS2jupyter/scipy_heatKernel.py:45 | inserting a label into a strictly increasing list keeps it strictly increasing |
| Lists.ZipAt | visJS2jupyter/visualizations.py:173-175 | `dict(zip(keys, values))` with distinct keys maps the i-th key to the i-th value |
| Lists.IndexOf | visJS2jupyter/visualizations.py:273 | `node_map` sends a label to a position holding that label, and no earlier position holds it |
| Graphs.EndpointDegree | visJS2jupyter/visualizations.py:434-435 | both ends of every edge have degree at least 1, so the divisions at lines 443-446 never divide by zero |
| Graphs.SimpleLastJoin | visJS2jupyter/visualizations.py:455-457 | in a graph without repeated pairs, the edge that last writes a position is the only edge that joins that pair |
| Normalization.NormalizedMatrix | visJS2jupyter/visualizations.py:448-460 | W' is an n×n matrix whose entry (i,j) is the flow of the last edge joining i and j, and 0 when no edge does |
| Normalization.WriteEdge | notebooks/networkProp/network_prop.py:36-52 | one turn of the edge loop extends "the matrix agrees with the first k edges" to k+1 edges |
| Normalization.NormalizedAdjMatrix | visJS2jupyter/visualizations.py:417-460 | writing each edge's entries into a zero matrix, later edges overwriting earlier ones, gives exactly `NormalizedMatrix` |
| Normalization.ConservingEdgeEntries | visJS2jupyter/visualizations.py:442-444 | conserving mode: for each edge (u,v) with weight w, W'[u][v] = w/deg(v) and W'[v][u] = w/deg(u), and both degrees are at least 1 |
| Normalization.NonAdjacentZero | notebooks/networkProp/network_prop.py:54-66 | a pair joined by no edge has W' entry 0, in either mode |
| Normalization.NonConservingSymmetric | visJS2jupyter/visualizations.py:445-453 | in non-conserving mode W' is symmetric |
| Normalization.NonConservingEdgeEntries | notebooks/networkProp/network_prop.py:51-52 | non-conserving mode: both entries of an edge are w/sqrt(deg u · deg v), and that square root is positive |
| Normalization.LastJoinSymmetric | visJS2jupyter/visualizations.py:451-453 | the last edge joining i and j is the last edge joining j and i |
| Normalization.JoinedToCountsDegree | visJS2jupyter/visualizations.py:434-435 | on a simple graph, the number of nodes joined to j equals the degree of j |
| Normalization.ConservingColumn | visJS2jupyter/visualizations.py:442-444 | in conserving, unweighted mode, column j is 1/deg(j) on the neighbours of j and 0 elsewhere, and an isolated node's column is all zero |
| Normalization.ConservingColumnSums | visJS2jupyter/visualizations.py:424 | in conserving, unweighted mode on a simple graph, a column sums to 1 when its node has an edge, and to 0 otherwise |
| Normalization.NormalizedNonNegative | visJS2jupyter/visualizations.py:430-446 | with non-negative weights, or with weights ignored, W' has no negative entry |
| Propagation.SeedDistribution | visJS2jupyter/visualizations.py:486-489 | Y has one entry per node, and the entry for v is (occurrences of v in the seeds)/len(seeds), or 0 when the seed list is empty |
| Propagation.SeedVector | notebooks/networkProp/network_prop.py:93-96 | the loop that adds 1/len(seeds) per occurrence, in place, builds exactly `SeedDistribution` |
| Propagation.SeedDistributionSumsToOne | visJS2jupyter/visualizations.py:488-489 | for a non-empty seed list inside the graph, Y sums to 1 |
| Propagation.SeedDistributionNonNegative | visJS2jupyter/visualizations.py:488-489 | Y has no negative entry |
| Propagation.CountsSum | visJS2jupyter/visualizations.py:488-489 | the per-node occurrence counts of a seed list inside the graph sum to its length, so a seed listed twice counts twice |
| Propagation.NetworkPropagation | visJS2jupyter/visualizations.py:463-496 | with `num_its >= 1` the result is exactly `num_its` steps of F := alpha·W'·F + (1-alpha)·Y from F = Y, with Y unchanged throughout |
| Propagation.MixOfUnitTotals | visJS2jupyter/visualizations.py:493 | an alpha/(1-alpha) mix of two vectors that each sum to 1 sums to 1 |
| Propagation.MassConserved | notebooks/networkProp/network_prop.py:97-101 | for a column-stochastic W' and Y summing to 1, every iterate sums to 1 |
| Propagation.HeatConserved | visJS2jupyter/visualizations.py:424 | in conserving, unweighted mode, on a simple graph without isolated nodes and with a non-empty seed list, the heat vector sums to 1 after every step |
| Propagation.HeatNonNegative | visJS2jupyter/visualizations.py:492-494 | non-negative W' and Y with 0 <= alpha <= 1 keep every iterate non-negative |
| Vectors.ColumnStochasticPreservesSum | visJS2jupyter/visualizations.py:493 | multiplying by a matrix whose columns each sum to 1 preserves a vector's sum |
| Propagation.StepSum | visJS2jupyter/visualizations.py:493 | with a column-stochastic W', one step takes a heat total s to alpha·s + (1-alpha)·(total of Y) |
| HeatKernel.IndexMaps | visJS2jupyter/scipy_heatKernel.py:44-50 | `index2node` and `node2index` are mutually inverse bijections between 0..n-1 and the sorted labels |
| HeatKernel.OffDiagonalRow | visJS2jupyter/scipy_heatKernel.py:77-88 | scanning the columns of row i adds a -1 triple exactly for each other node that is adjacent in either direction, in row-major order |
| HeatKernel.VisitPair | visJS2jupyter/scipy_heatKernel.py:79-88 | visiting one pair (i,j) keeps the triple invariant |
| HeatKernel.LaplacianTriples | visJS2jupyter/scipy_heatKernel.py:59-88 | the first n triples are (i, i, deg i) for every node in index order, an isolated node's (i, i, 0) included; after them come the -1 triples for exactly the adjacent pairs i≠j, in row-major order; no position is listed twice |
| HeatKernel.CooEntryUnique | visJS2jupyter/scipy_heatKernel.py:92 | when no position is listed twice, the summed COO entry at (i,j) is that position's one triple, or 0 when it has none |
| HeatKernel.LaplacianMatrix | visJS2jupyter/scipy_heatKernel.py:63-92 | the assembled Laplacian entry (i,j) is deg(i) on the diagonal, -1 for adjacent pairs and 0 elsewhere |
| HeatKernel.LaplacianSymmetric | visJS2jupyter/scipy_heatKernel.py:81-82 | the assembled Laplacian is symmetric |
| HeatKernel.AlignedAt | visJS2jupyter/scipy_heatKernel.py:138-145 | position i of the aligned array is the input value of label i, or 0 when the label is missing from the input |
| HeatKernel.ForeignKeysIgnored | visJS2jupyter/scipy_heatKernel.py:139-145 | an input key that is not a node label does not change the aligned array |
| HeatKernel.AlignKeyedRoundTrip | visJS2jupyter/scipy_heatKernel.py:138-155 | aligning a vector that was keyed by the distinct labels gives the vector back |
| HeatKernel.AlignVector | visJS2jupyter/scipy_heatKernel.py:138-145 | the append loop builds exactly the aligned array |
| HeatKernel.KeyByLabel | visJS2jupyter/scipy_heatKernel.py:151-155 | the idx-counter loop builds exactly `dict(zip(labels, values))` |
| HeatKernel.SciPyKernel.constructor | visJS2jupyter/scipy_heatKernel.py:26-100 | the object stores the graph and the kernel; its labels are the sorted, duplicate-free node list; `index2node` maps position i to label i; and its Laplacian triples describe the graph as `LaplacianTriples` states: exactly the Laplacian's entries, each position once, the n diagonal triples first (an isolated node's (i, i, 0) included), then the -1 triples in row-major order |
| HeatKernel.SciPyKernel.GetLabels | visJS2jupyter/scipy_heatKernel.py:104-112 | the result holds exactly the node labels, one element per node |
| HeatKernel.SciPyKernel.KernelMultiplyOne | visJS2jupyter/scipy_heatKernel.py:125-157 | the result is keyed by exactly the node labels, and label i carries row i of the kernel times the aligned input |
| HeatKernel.SciPyKernel.Diffuse | visJS2jupyter/scipy_heatKernel.py:159-175 | the result equals that of `KernelMultiplyOne` |
| GraphUnion.FloorLog10 | visJS2jupyter/visualizations.py:159-160 | for n >= 1 the result k satisfies 10^k <= n < 10^(k+1), which is `int(math.log10(n))` |
| GraphUnion.ListingsFlip | visJS2jupyter/visualizations.py:164-168 | an edge and its reverse are listed equally often |
| GraphUnion.AddListing | visJS2jupyter/visualizations.py:164-171 | one turn of the edge loop keeps the weight invariant: each listed pair, in either orientation, carries 1 + (listings - 1)·ival under one key |
| GraphUnion.EdgeWeights | visJS2jupyter/visualizations.py:162-171 | the loop's dictionary meets that invariant for the whole edge list |
| GraphUnion.EdgeWeightsEmpty | visJS2jupyter/visualizations.py:173 | the weight dictionary is empty exactly when neither graph has an edge, the case in which `zip(*[])` fails |
| GraphUnion.NodeOverlap | visJS2jupyter/visualizations.py:141-157 | a node gets overlap 0 iff it is only in G1, 2 iff only in G2 and 1 iff in both, and its membership name follows the code |
| GraphUnion.UnionEdgeWeight | visJS2jupyter/visualizations.py:162-171 | when neither graph repeats an edge, a union edge has weight 1 + ival if both graphs hold it, in either orientation, and 1 otherwise |
| GraphUnion.CreateGraphUnion | visJS2jupyter/visualizations.py:116-180 | either one of the two failures, exactly when the inputs trigger it, or the sorted node union with its overlap codes and names and the union edge weights with ival = 10·floor(log10 n) |
| HeatDisplay.SetPhysicsEnabled | visJS2jupyter/visualizations.py:499-516 | an explicit setting wins; otherwise physics is on iff there are fewer than 100 nodes |
| HeatDisplay.NodeSizeMultiplier | visJS2jupyter/visualizations.py:279-284 | the multiplier is 1 iff there are more than 500 nodes, 5 iff there are at most 200, and 3 otherwise |
| HeatDisplay.InvalidSeeds | visJS2jupyter/visualizations.py:201 | the invalid list holds exactly the seeds that are not nodes, each as often as it occurs among the seeds, in seed order |
| HeatDisplay.NoInvalidSeeds | visJS2jupyter/visualizations.py:200-205 | there are no invalid seeds iff every seed is a node of the graph |
| HeatDisplay.InsertByHeat | visJS2jupyter/visualizations.py:534 | inserting one (node, heat) entry only adds that entry |
| HeatDisplay.InsertByHeatDescending | visJS2jupyter/visualizations.py:534 | insertion keeps the list in descending heat order |
| HeatDisplay.SortByHeat | visJS2jupyter/visualizations.py:534 | sorting by heat is a permutation of its input |
| HeatDisplay.SortByHeatDescending | visJS2jupyter/visualizations.py:534 | the sorted list has descending heats |
| HeatDisplay.SortByHeatDistinct | visJS2jupyter/visualizations.py:534 | sorting keeps node labels distinct |
| HeatDisplay.SortByHeatStable | visJS2jupyter/visualizations.py:534 | the sort is stable, as `sorted(..., reverse=True)` is: of two entries with equal heat, the one listed first comes first |
| HeatDisplay.TopHottestNodes | visJS2jupyter/visualizations.py:535 | the first k sorted labels are min(k, n) distinct nodes of the graph |
| HeatDisplay.TopHottestHotter | visJS2jupyter/visualizations.py:533-535 | every kept node is at least as hot as every dropped node |
| HeatDisplay.TopHottestTieBreak | visJS2jupyter/visualizations.py:533-535 | ties are broken by node order: when a node is kept, every node listed before it with the same heat is kept too |
| HeatDisplay.SetNumNodesTieBreak | visJS2jupyter/visualizations.py:532-537 | the kept graph obeys the same tie-break: a node listed before a kept node with the same heat is kept |
| HeatDisplay.SetNumNodesKeepsHottest | visJS2jupyter/visualizations.py:532-537 | when `num_nodes` is given and below the node count, exactly max(num_nodes, 0) distinct nodes are kept, each at least as hot as every dropped node, with the edges among them; otherwise the graph is returned unchanged |
| HeatDisplay.SetNumNodesWellFormed | visJS2jupyter/visualizations.py:536 | the reduced graph is again a well-formed graph and its nodes are nodes of the input |
| HeatDisplay.EdgeHeats | visJS2jupyter/visualizations.py:229-236 | every edge gets a heat that is at least both endpoint heats and equal to one of them, i.e. their maximum |
| HeatDisplay.IndexGraph | visJS2jupyter/visualizations.py:430-435 | numbering the nodes in `G.nodes()` order gives a valid index graph with one node per label and each edge joining the positions of its two endpoints, with weight 1 (the unweighted default) |
| HeatDisplay.SeedIndices | visJS2jupyter/visualizations.py:488-489 | each seed label is replaced by its node's position |
| HeatDisplay.SeedIndicesCount | visJS2jupyter/visualizations.py:488-489 | the position of node i occurs as often among the seed indices as label i among the seeds |
| HeatDisplay.SeedLabelMass | visJS2jupyter/visualizations.py:486-489 | the seed mass of the node labelled x is (occurrences of x in the seeds)/len(seeds) |
| HeatDisplay.PropagatedHeat | visJS2jupyter/visualizations.py:207-209 | `prop_graph` has exactly the node labels as keys |
| HeatDisplay.PropagatedHeatAt | visJS2jupyter/visualizations.py:207-209 | node i's heat is entry i of the propagation result with alpha 0.5 and 20 steps |
| HeatDisplay.NodeShapes | visJS2jupyter/visualizations.py:255-261 | a node is drawn as a triangle iff it is a seed, and as a dot otherwise |
| HeatDisplay.EdgeEnds | visJS2jupyter/visualizations.py:273-276 | each edge's source and target are positions of its two endpoints in the node list |
| HeatDisplay.BuildView | visJS2jupyter/visualizations.py:225-288 | the view holds the edge heats, edge ends, border widths (2 for seeds, 0 otherwise), shapes, size multiplier and physics flag |
| HeatDisplay.DrawHeatProp | visJS2jupyter/visualizations.py:183-293 | an invalid seed aborts before propagation with the invalid list; otherwise the nodes are propagated and reduced, an empty node or edge list aborts, and the result is a view exactly when the reduced graph has both nodes and edges, built from that graph |
| VisjsOptions.FirstMissing | visJS2jupyter/visJS_module.py:191-201 | the first required key missing from the first record, with every earlier key present, or none when all are present |
| VisjsOptions.ValidateInputs | visJS2jupyter/visJS_module.py:182-217 | each error is reported exactly when every earlier check passes and its own fails, in the code's order (empty nodes, non-dict node, missing node key, empty edges, non-dict edge, missing edge key); a missing key is the first one missing in the order `id`, `x`, `y` or `source`, `target`; there is no error iff both first records are dicts holding their required keys |
| VisjsOptions.Resolved | visJS2jupyter/visJS_module.py:219-241 | physics stays on iff it was on and scaling_factor <= 1; a positive time_stamp replaces graph_id; each label option that is given sets both the node and the edge value; all else is kept |
| VisjsOptions.ResolveOptions | visJS2jupyter/visJS_module.py:219-241 | the step-by-step reassignments give exactly `Resolved` |
| VisjsOptions.ResolvedIdempotent | visJS2jupyter/visJS_module.py:219-241 | applying the overrides twice is the same as applying them once |
| VisjsOptions.ResolvedDefaults | visJS2jupyter/visJS_module.py:219-241 | the default arguments change nothing |
| VisjsOptions.FillKey | visJS2jupyter/visJS_module.py:742-743 | the loop over the records sets one key in every record to its default, in place |
| VisjsOptions.FillStepKeeps | visJS2jupyter/visJS_module.py:740-755 | filling one key leaves every other key's presence and value unchanged |
| VisjsOptions.CheckNodesDict | visJS2jupyter/visJS_module.py:731-757 | it succeeds iff the titles need no id that is missing; then the array afterwards is `Filled` of the array before; otherwise the array is left as the KeyError leaves it, `PartlyFilled` of the array before |
| VisjsOptions.FillTitles | visJS2jupyter/visJS_module.py:750-752 | the title loop succeeds iff every node has an id, and then every node's title is its id; otherwise the nodes before the first node without an id get their titles and the rest are untouched |
| VisjsOptions.ThreeFilled | visJS2jupyter/visJS_module.py:740-749 | the `node_shape`, `color` and `border_width` loops keep the list length and leave the presence of `id`, `title` and `degree` unchanged on every node |
| VisjsOptions.FirstWithoutId | visJS2jupyter/visJS_module.py:750-752 | the node at which the title loop stops has no id, and every node before it has one |
| VisjsOptions.PartlyFilledAt | visJS2jupyter/visJS_module.py:740-755 | after the KeyError a node has a title iff it comes before the first node without an id or had one already; no degree has been added and no id changed |
| VisjsOptions.FilledIsPerNode | visJS2jupyter/visJS_module.py:740 | each record is filled on its own, decided only by the first record's keys |
| VisjsOptions.FilledAt | visJS2jupyter/visJS_module.py:740-755 | the list length is unchanged; a key among the five that the first record lacks is set to its default (title to the record's id); every other key keeps its presence and value |
| VisjsOptions.FilledFirstComplete | visJS2jupyter/visJS_module.py:740-755 | afterwards the first record holds all five keys |
| VisjsOptions.FilledIdempotent | visJS2jupyter/visJS_module.py:740-755 | filling twice is filling once |
| VisjsOptions.FilledComplete | visJS2jupyter/visJS_module.py:740-755 | when the first record already holds all five keys, no record changes |
| VisjsOptions.StringifyBool | visJS2jupyter/visJS_module.py:910-911 | the result is "true" or "false", and "true" iff the value is truthy in Python |
| VisjsOptions.StringifyBoolOfBool | visJS2jupyter/visJS_module.py:910-911 | a Python bool becomes its JavaScript spelling |
| VisjsOptions.NatToStringRoundTrip | visJS2jupyter/visJS_module.py:961-962 | the decimal spelling of a natural number parses back to it |
| VisjsOptions.IntToStringRoundTrip | visJS2jupyter/visJS_module.py:961-962 | the decimal spelling of an integer, sign included, parses back to it |
| VisjsOptions.SizeStringsMeaning | visJS2jupyter/visJS_module.py:948-962 | with the override, both sizes are "100%"; otherwise each is "<scaling_factor·size>px"; the edge length stays undefined or is scaled |

## Left out

- The heat kernel `expm(-0.1·L)` and the sparse CSC machinery: the kernel is a given n×n matrix that the constructor receives.
- The square root in non-conserving normalisation: it is a parameter, required to be a function that returns the non-negative square root of every non-negative real.
- Floating point: heat, weights and scaling factors are exact reals (or integers for sizes). Rounding and the float spelling of sizes (`"1350.0px"`) are not modelled, and `int(math.log10(n))` is modelled as the exact floor of the base-10 logarithm.
- VisjsOptions.SizeStrings: the scaling factor is an integer, so a fractional `scaling_factor` (which Python multiplies into a float size such as `"1350.0px"`) is outside its domain.
- Node labels are integers. Colours (`return_node_to_color`, `return_edge_to_color`), `spring_layout` positions, node titles built with `str`/`round`, and the HTML, CSS and JavaScript text are not modelled.
- HeatDisplay.SetNumNodes: the kept graph lists its nodes hottest first. networkx's `G.subgraph` may list them, and orient its edges, in another order, which changes only the order of `nodes`, `edges` and the `node_map` positions.
- HeatDisplay.DrawHeatProp: `nx.set_node_attributes` also writes the heat into the caller's graph. That side effect is not modelled; the heat is a map returned next to the graph.
- HeatDisplay.DrawHeatProp: the other display parameters of `draw_heat_prop`, and the call into `visjs_network` with them, are not modelled. The result is the view data that the call receives.
- HeatKernel.SciPyKernel.Diffuse: the `reverse` parameter is accepted and ignored, as in the code. The unused `ncols`, `nrows` and `laplacian` fields are not stored.
- VisjsOptions.CheckNodesDict: records are values in an array. Python dictionaries shared between two list positions (aliasing) are not modelled.
- VisjsOptions.CheckNodesDict: every element is a record. A later element that is not a dict, which makes the first fill loop raise a TypeError at `visJS_module.py:743`, is outside the model. The array is non-empty because `visjs_network` returns on an empty node list (`visJS_module.py:183`) before it calls `check_nodes_dict`.
- Propagation.NetworkPropagation: requires every seed index to be a node. A seed outside G makes `Y[g]` raise a KeyError (`visualizations.py:489`); that failure is not modelled. `draw_heat_prop` rejects such seeds before it propagates, as `HeatDisplay.DrawHeatProp` states.
- Normalization.NormalizedAdjMatrix: every edge carries a weight. With `weighted=True`, an edge without a `weight` attribute makes `e[2]['weight']` raise a KeyError (`visualizations.py:438`); that failure is not modelled.
- The messages printed before each early return are not modelled; the returned error names the failing check.
- `export_to_cytoscape`, the random-graph and localisation functions of `network_prop.py`, and the file writes of `create_graph_style_file` are not part of this model.
- networkx and pandas are not modelled. An index graph is a node count plus an edge list, and a label graph is a node list plus an edge list of label pairs.
