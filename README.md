# halligalli pricing engine (Dafny model)

halligalli solves a column-generation master problem with SCIP. Its pricing
engine keeps one directed acyclic flow network per network group. Each
network is read from a GraphML file whose vertices are `Node`s with seven
fields (`laufbahngruppe`, `laufbahn`, `dienstgrad`, `zeitscheibe`,
`status`, `ausbildung`, `netzwerk`); each edge stands for an `Arc`, a pair
of nodes.

Before solving, `initialize_container` does two things:

- It loads every network (`generate_networks`).
- It walks the master problem's constraints (`generate_maps`):
  - constraints whose name contains an unneeded substring are deleted;
  - every y-variable `y(a1|…|a7,b1|…|b7)` is decoded into its arc by
    `parse_lp_var`, then removed from its constraint;
  - the arc is recorded in the `DataManager` registry;
  - each constraint that had y-variables is marked modifiable and recorded.

In every pricing round (`ObjPricerGFCG::pricing`):

- all edge weights are reset;
- each recorded constraint's negated dual (or Farkas) value times each
  y-coefficient is added to the weight of that arc's edge;
- each network's shortest source-to-sink path is computed, with the cached
  path reused while it is fresh;
- the strategy picks which negative paths become new priced columns:
  `FullPricer` takes all of them, `KShortestPricer` the `k` shortest.

The model is organised by source file:

- `values.dfy` (`Node`, `Arc`, `Path`, and the comparison operators);
- `text.dfy` (the `std::string::find`, `substr`, `std::stoi` and
  `std::to_string` behaviour the codec relies on);
- `parse_lp.dfy` and `roundtrip.dfy` (the variable-name codec and its
  inverse);
- `graph.dfy` (the boost graph and `dag_shortest_paths`);
- `scan.dfy` and `network.dfy` (the `Network` class, with its constructor
  as a specification over the XML elements);
- `registry.dfy` (the `DataManager` class);
- `master.dfy` (the SCIP calls the engine makes, recorded in order);
- `pricing_spec.dfy` and `pricer.dfy` (weights, column generation and the
  two strategies, with a `Pricer` class holding the counters);
- `initialize.dfy` (`generate_networks`, `generate_maps` and
  `initialize_container`);
- `startup.dfy` (initialization leaves what pricing requires).

Objects that the source updates in place (`Network`, `DataManager`, the
pricer, the master problem) are classes. Methods that loop in the source
are methods with loops, proved against functions or predicates that specify
them.

Where the code's comments and its behaviour differ, the model follows the
code, with one exception noted last:

- `parse_negx` and `parse_bool` abort with the offending field, not the
  whole name. Only a `std::stoi` failure of fields 1, 2, 5 and 7 reaches the
  catch that reports the whole name.
- The k-shortest sort is `std::sort` under `Path`'s own ordering, which is
  not part of this model. The model orders by length only, and ties are
  resolved by the order the paths arrive in.
- With the sink unreachable, `shortest_path`'s walk back fails its
  `assert` (Network.cpp:159); it does not return an infinite length. The
  model requires a reachable sink.
- `Arc::to_string` does not invert the codec (see Findings). Abort
  messages that name an arc use the rendering as written.
- The exception: the constructor's endpoint check as written aborts on an
  edge at the vertex with XML id 0 (see Findings). `Networks.Network.Load`
  and the scan it is proved against use the intended check, and
  `Scans.LoadSpecAsWritten` is the constructor as written.

## Model

| member | source | states |
|---|---|---|
| Outcomes.MapInsert | src/lib/DataManager.cpp:74-77 | `insert` on a map: a new key gets the value, an existing key keeps its value, no other key changes |
| Text.FindSubSpec | src/lib/parse_lp.cpp:38-39 | `find` of a substring gives the first occurrence at or after the start, and -1 exactly when there is none |
| Text.FindSubFromStart | src/lib/parse_lp.cpp:72-73 | searching `y(` from the start fails exactly when the name does not contain `y(` |
| Text.FindCharSpec | src/lib/parse_lp.cpp:88-97 | `find` of a delimiter gives the first index at or after the start holding it, or -1 when none does |
| Text.FindLastChar | src/lib/Network.cpp:39 | `find_last_of('_')`: -1 or an index holding `_`, with no `_` after it |
| Text.Substr | src/lib/parse_lp.cpp:91 | `substr` yields exactly the characters between the two positions |
| Text.SubstrAfterPrefix | src/lib/parse_lp.cpp:42 | cutting off a prefix gives back the text that followed it |
| Text.StoiDigits | src/lib/parse_lp.cpp:40 | `std::stoi` of a string of digits in range is its decimal value |
| Text.StoiMinusDigits | src/lib/parse_lp.cpp:40 | `std::stoi` of `-` and digits is the negated value |
| Text.StoiIntToString | src/lib/parse_lp.cpp:57-63 | `std::stoi` reads back every 32-bit `int` that `std::to_string` writes |
| Text.NatToStringValue | src/lib/Arc.cpp:25-31 | the digits `std::to_string` writes for a natural number have that number as their value |
| Text.IntToStringChars | src/lib/Arc.cpp:25-38 | a rendered integer is non-empty and holds only digits and a minus sign |
| Values.NodeKeyInjective | src/lib/Node.cpp:27-32 | the tuple `std::tie` builds determines the node |
| Values.NodeLessLexicographic | src/lib/Node.cpp:27-32 | `Node::operator<` compares the seven fields lexicographically in declaration order, with `false` below `true` |
| Values.NodeLessIrreflexive | src/lib/Node.cpp:27-32 | no node is below itself |
| Values.NodeLessTransitive | src/lib/Node.cpp:27-32 | `<` on nodes is transitive |
| Values.NodeTrichotomy | src/lib/Node.cpp:27-43 | for any two nodes exactly one of `<`, `==` and `>` holds |
| Values.NodeEqIsEquality | src/lib/Node.cpp:34-43 | `Node::operator==` holds exactly for equal values |
| Values.ArcEqIsEquality | src/lib/Arc.cpp:16-18 | `Arc::operator==` holds exactly when both ends are equal |
| Values.ArcLessLexicographic | src/lib/Arc.cpp:8-11 | `Arc::operator<` compares the sources first, then the targets |
| Values.ArcStrictTotalOrder | src/lib/Arc.cpp:8-18 | `<` on arcs is irreflexive, transitive and trichotomous with `==`, so arcs can be map keys |
| Graphs.EdgeStrictTotalOrder | src/lib/Network.cpp:220-229 | `Edge::operator<` is a strict total order, and `==` holds exactly for equal edges |
| Graphs.FirstEdge | src/lib/Network.cpp:180 | `boost::edge` gives -1 or the first index holding the edge, with no occurrence before it |
| Graphs.FirstEdgeFound | src/lib/Network.cpp:158-159 | an edge that is in the graph is found |
| Graphs.Combine | src/lib/Network.cpp:149-151 | `closed_plus` with the `INT_MAX` start value taken as a true infinity: an unreached distance stays unreached, a reached one grows by the weight |
| Graphs.WalkArcsPrepend | src/lib/Network.cpp:155-166 | a walk's arcs are listed from the sink back to the source |
| Graphs.Relax | src/lib/Network.cpp:143-151 | relaxing one edge keeps the distances rooted at the source and the predecessor tree consistent, changes only the edge's target and leaves that target no longer than through the edge |
| Graphs.RelaxOutEdges | src/lib/Network.cpp:143-151 | relaxing every out-edge of the next vertex in topological order extends the relaxed prefix by one vertex |
| Graphs.DagShortestPaths | src/lib/Network.cpp:143-151 | after relaxing in topological order the source is at 0, no walk from the source to a vertex is shorter than its distance, and the predecessors form a tree of relaxed edges |
| Networks.TruncateToInt | src/lib/Network.cpp:182 | the `double` to `int` conversion truncates toward zero |
| Networks.DistinctArcsDistinctEdges | src/lib/Network.cpp:130 | two different arcs sit on two different edges, so weighting one leaves the other alone |
| Networks.TracePath | src/lib/Network.cpp:155-166 | the walk back along the predecessors is a source-to-sink walk whose cost is the sink's distance and whose arcs are the listed ones |
| Networks.ComputeShortestPath | src/lib/Network.cpp:143-170 | the path built is a shortest source-to-sink path of the network's group |
| Networks.Network.GetEdgeWeight | src/lib/Network.cpp:173-183 | an indexed arc gives its edge's weight truncated to `int`; an unknown arc aborts with the arc's `Arc::to_string` rendering as written |
| Networks.Network.SetEdgeWeight | src/lib/Network.cpp:195-205 | the cache goes stale; an indexed arc's edge takes the weight and no other edge changes; an unknown arc aborts |
| Networks.Network.AddToEdgeWeight | src/lib/Network.cpp:207-218 | the cache goes stale; the amount is added to the arc's edge only; an unknown arc aborts |
| Networks.Network.ResetEdgeWeights | src/lib/Network.cpp:185-193 | the cache goes stale and every edge weighs 0 |
| Networks.Network.ShortestPath | src/lib/Network.cpp:138-171 | a fresh cache is returned unchanged; otherwise a shortest path for the current weights is computed and cached; weights never change |
| Networks.Network.Init | src/lib/Network.cpp:32-136 | a network built from a scanned graph holds that graph, its indexes, source, sink and order, with a stale cache |
| Networks.Network.Recompute | src/lib/Network.cpp:140-170 | the cache holds a newly computed shortest path for the current weights, which are unchanged |
| Networks.Network.Load | src/lib/Network.cpp:32-136 | with the intended endpoint check, the constructor aborts with the file name exactly when the specification of the file aborts; otherwise the network has the file's group, vertices, edges at weight 0, indexes, source and sink, and the edges' arcs are appended to the arc list |
| Networks.ScanElements | src/lib/Network.cpp:54-134 | the loop over the XML elements computes the scan of all of them |
| Networks.AddElement | src/lib/Network.cpp:54-134 | one XML element is one step of the scan: a vertex, an edge or a skipped element |
| Networks.AddVertex | src/lib/Network.cpp:55-109 | a vertex record is one vertex step of the scan |
| Networks.AddEdge | src/lib/Network.cpp:110-133 | an edge record is one edge step of the scan |
| Networks.AbortPersists | src/lib/Network.cpp:54-134 | once an element aborts, the whole constructor aborts |
| Scans.GroupSuffixAfterLast | src/lib/Network.cpp:39 | the group text is what follows the last `_` of the file name |
| Scans.GroupOfTestGraph | src/test/test_network.cpp:14-20 | the file `test_graph_26.xml` belongs to group 26 |
| Scans.VertexStep | src/lib/Network.cpp:92-108 | a vertex record keeps the scan's indexes consistent; a second source or sink aborts with the file name |
| Scans.EdgeStep | src/lib/Network.cpp:110-133 | with the intended endpoint check: an edge record keeps the scan's indexes consistent; an unknown end aborts with the file name |
| Scans.CountOneUnique | src/lib/Network.cpp:98-107 | when a pattern is counted at most once, only one vertex carries it |
| Scans.ScanStep | src/lib/Network.cpp:54-134 | one element keeps the scan's indexes consistent or aborts with the file name |
| Scans.ScanUpTo | src/lib/Network.cpp:54-134 | the scan of the first `i` elements keeps its indexes consistent or aborts with the file name |
| Scans.LoadSpec | src/lib/Network.cpp:32-136 | a loaded graph has consistent indexes and its source and sink are vertices; a failure aborts with the file name |
| Scans.ScanUpToAgrees | src/lib/Network.cpp:54-134 | a completed scan lists the vertex records in order, indexes each edge both ways, lists each edge's arc and gives each edge weight 0 |
| Scans.ScanUpToOk | src/lib/Network.cpp:54-134 | with the intended endpoint check, the element loop completes exactly when every edge names vertices read before it and at most one vertex has the source pattern and at most one the sink pattern |
| Scans.LoadSpecOk | src/lib/Network.cpp:32-136 | with the intended endpoint check, the constructor succeeds exactly when the file name has a group, every edge is resolved, and exactly one source and one sink exist |
| Scans.EdgeStepAsWritten | src/lib/Network.cpp:111-121 | the endpoint check as written: an edge between known vertices aborts exactly when an end has XML id 0; otherwise it reads as the intended check |
| Scans.ScanStepAsWritten | src/lib/Network.cpp:54-134 | one element as written: where it succeeds it agrees with the intended step |
| Scans.ScanUpToAsWritten | src/lib/Network.cpp:54-134 | the element loop as written keeps the scan's indexes consistent; a failure aborts with the file name |
| Scans.LoadSpecAsWritten | src/lib/Network.cpp:32-136 | the constructor as written: a loaded graph has consistent indexes and its source and sink are vertices; a failure aborts with the file name |
| Scans.ScanAsWrittenAgrees | src/lib/Network.cpp:54-134 | the loop as written only rejects more: where it completes it builds the intended scan, and with no edge at id 0 the two are equal |
| Scans.LoadAsWrittenAgrees | src/lib/Network.cpp:32-136 | the constructor as written loads only what the intended one loads, the same network, and all of it when no edge touches id 0 |
| Scans.EndpointCheckRejectsIdZero | src/lib/Network.cpp:113-114 | a file with a source vertex of id 0, a sink of id 1 and an edge between them loads with the intended check and aborts as written |
| Scans.LoadSpecFacts | src/lib/Network.cpp:92-135 | a loaded network has its file's group and its source and sink are the one vertex with each pattern |
| Registry.AppendConstraint | src/lib/DataManager.cpp:79-89 | the pair goes at the end of the arc's list, which is created when missing; no other arc changes |
| Registry.AppendAllInOrder | src/lib/DataManager.cpp:79-89 | from an empty map, an arc is present exactly when some call named it, and its list holds its pairs in call order |
| Registry.RecordArcsSpec | src/lib/DataManager.cpp:91-96 | every arc's `netzwerk` becomes a key; an old key keeps its group and a new one gets the network's group |
| Registry.DataManager.constructor | src/lib/DataManager.hpp:66-79 | a registry with no networks, constraints, arcs or paths |
| Registry.DataManager.GetNetwork | src/lib/DataManager.cpp:39-44 | the stored network of the group, or an abort with the group |
| Registry.DataManager.GetNetworkByArc | src/lib/DataManager.cpp:46-53 | the network of the group of the arc's source `netzwerk`; an unknown `netzwerk` aborts with the arc and a missing network with the group |
| Registry.DataManager.GetConstraintsOfArc | src/lib/DataManager.cpp:55-60 | the arc's list of (constraint, coefficient) pairs, or none |
| Registry.DataManager.GetPath | src/lib/DataManager.cpp:62-67 | the path recorded for a column name, or none |
| Registry.DataManager.AddConstraint | src/lib/DataManager.cpp:69-72 | the constraint is appended; nothing else changes |
| Registry.DataManager.AddNetwork | src/lib/DataManager.cpp:74-77 | inserted under the group unless the group is taken; nothing else changes |
| Registry.DataManager.AddScipConstraintToArc | src/lib/DataManager.cpp:79-89 | the arc-to-constraints map is updated as `AppendConstraint` says; nothing else changes |
| Registry.DataManager.AddArcsOfNetwork | src/lib/DataManager.cpp:91-96 | the `netzwerk`-to-group map is updated as `RecordArcs` says; nothing else changes |
| Registry.DataManager.AddVarPathPair | src/lib/DataManager.cpp:98-101 | the name-to-path map gets the path unless the name is taken |
| Registry.SameNetworkByArcAndGroup | src/lib/DataManager.cpp:39-53 | both lookups return the same stored network |
| ParseLp.Negate32 | src/lib/parse_lp.cpp:42 | negation of a 32-bit value other than the minimum |
| ParseLp.ParseNegx | src/lib/parse_lp.cpp:34-45 | a failure aborts with the field itself; a success needs a digit in the field |
| ParseLp.ParseNegxPlain | src/lib/parse_lp.cpp:39-40 | a rendered `int` without `neg` reads as itself |
| ParseLp.ParseNegxPrefixed | src/lib/parse_lp.cpp:41-42 | `neg` followed by the digits of `n` reads as `-n` |
| ParseLp.ParseNegxNoDigit | src/lib/parse_lp.cpp:44 | a field without a digit aborts with the field |
| ParseLp.ParseBool | src/lib/parse_lp.cpp:47-53 | exactly `false` and `true` are accepted, with their values; anything else aborts with the field |
| ParseLp.ParseIndices | src/lib/parse_lp.cpp:55-66 | a node is built only when each of its seven fields reads as that node's field |
| ParseLp.Convert | src/lib/parse_lp.cpp:110-113 | an arc is returned only when both nodes' fields convert to its ends; the result is never "no match" |
| ParseLp.LocateNodes | src/lib/parse_lp.cpp:69-80 | the two node positions lie inside the name |
| ParseLp.ParseLpVarCases | src/lib/parse_lp.cpp:68-78 | "no match" exactly when the name lacks `y(`; with `y(` and no `,` the name aborts with itself |
| ParseLp.TakePiece | src/lib/parse_lp.cpp:91-97 | one round of the cursor walk takes one piece and advances the cursor as the piece specification says |
| ParseLp.SplitNode | src/lib/parse_lp.cpp:88-108 | the five `\|` rounds and the final cut give the node's seven pieces |
| ParseLp.ParseLpVar | src/lib/parse_lp.cpp:68-114 | `parse_lp_var` computes the specification of the name |
| RoundTrip.NodePiecesJoin | src/lib/parse_lp.cpp:88-108 | seven plain fields joined by `\|` and followed by the stop character cut back into those fields |
| RoundTrip.ParseVarName | src/lib/parse_lp.cpp:68-108 | a name laid out as `y(src,tgt)` cuts into exactly its source and target fields |
| RoundTrip.IntFieldsParse | src/lib/parse_lp.cpp:57-63 | every integer field of a rendered node reads back as itself |
| RoundTrip.ParseFieldWords | src/lib/parse_lp.cpp:55-66 | `parse_indices` inverts the rendering with the bool as `true`/`false` |
| RoundTrip.ParseFieldStringsAborts | src/lib/parse_lp.cpp:62 | `parse_indices` rejects the as-written rendering at the bool field |
| RoundTrip.ArcToStringRejected | src/lib/Arc.cpp:23-39 | the as-written `to_string` of any arc makes `parse_lp_var` abort |
| RoundTrip.ArcToStringCorrectedRoundTrip | src/lib/Arc.cpp:23-39 | the corrected rendering parses back to the arc |
| Scip.Master.constructor | src/app/halligalli.cpp:73 | a master problem with nothing recorded yet |
| Scip.Master.AddPricedVar | src/lib/ObjPricerGFCG.cpp:163-169 | the column is appended; no other record changes |
| Scip.Master.AddCoefLinear | src/lib/ObjPricerGFCG.cpp:146 | the coefficient is appended; no other record changes |
| Scip.Master.DelCons | src/lib/initialize.cpp:81 | the deletion is appended; no other record changes |
| Scip.Master.DelCoefLinear | src/lib/initialize.cpp:121 | the removed (constraint, variable) pair is appended; no other record changes |
| Scip.Master.SetConsModifiable | src/lib/initialize.cpp:128 | the constraint is appended to the modifiable ones; no other record changes |
| PricingSpec.ScaledAt | src/lib/ObjPricerGFCG.cpp:120-124 | entry `k` of a constraint adds coefficient times price to the same arc |
| PricingSpec.ContributionsSum | src/lib/ObjPricerGFCG.cpp:107-127 | what the contributions add to an arc is the sum over constraints with nonzero price of coefficient times price |
| PricingSpec.ForGroupKeepsArc | src/lib/ObjPricerGFCG.cpp:123 | an arc of group `g` keeps all its contributions when they are sent to their networks |
| PricingSpec.ForGroupDropsArc | src/lib/ObjPricerGFCG.cpp:123 | an arc of another group gets nothing from group `g`'s share |
| PricingSpec.ApplyAllFromZero | src/lib/Network.cpp:207-218 | from zero weights, an indexed arc's edge ends at the sum of its contributions |
| PricingSpec.ApplyAllUntouched | src/lib/Network.cpp:207-218 | an edge that stands for no indexed arc (a parallel edge, which `boost::edge` never returns) keeps its weight through every `add_to_edge_weight` |
| PricingSpec.AppliedFromZero | src/lib/ObjPricerGFCG.cpp:116-127 | from zero weights, every known arc of every network ends at what the constraints of its group add to it |
| PricingSpec.AppliedStep | src/lib/ObjPricerGFCG.cpp:123-124 | adding one more resolvable contribution to its arc's edge, in its own network only, keeps every network's weights equal to all contributions so far applied to its start weights |
| PricingSpec.AppliedStepAt | src/lib/ObjPricerGFCG.cpp:123-124 | the same for one network: the network the contribution goes to has it applied, and any other network's share does not change |
| PricingSpec.FirstUnresolvedShift | src/lib/ObjPricerGFCG.cpp:116-127 | the first failing contribution of a later constraint is the first failure overall |
| PricingSpec.ColumnNamesDistinct | src/lib/ObjPricerGFCG.cpp:160 | different counter values give different `p_N` names |
| PricingSpec.Attach | src/lib/ObjPricerGFCG.cpp:136-150 | one coefficient per recorded constraint |
| PricingSpec.AttachMembership | src/lib/ObjPricerGFCG.cpp:136-150 | the coefficients are exactly the recorded (constraint, coefficient) pairs for the column |
| PricingSpec.ColumnCoefficientsMembership | src/lib/ObjPricerGFCG.cpp:171-182 | the new column gets a coefficient in a constraint exactly when some arc of the path was recorded with it there |
| PricingSpec.ColumnsFor | src/lib/ObjPricerGFCG.cpp:160-169 | one column per generated path |
| PricingSpec.RecordedKeys | src/lib/ObjPricerGFCG.cpp:185 | recording paths adds only the generated names |
| PricingSpec.RecordedKeeps | src/lib/ObjPricerGFCG.cpp:185 | recording keeps every existing entry |
| PricingSpec.RecordedAt | src/lib/ObjPricerGFCG.cpp:185 | with fresh names, path `i` is recorded under the name for counter `n0 + i` |
| PricingSpec.GeneratedStep | src/lib/ObjPricerGFCG.cpp:159-188 | one more path adds one named column, its coefficients and its entry in the name-to-path map |
| PricingSpec.ShortestNegativeIff | src/lib/FullPricer.cpp:42-43 | a shortest path is negative exactly when some source-to-sink walk is |
| PricingSpec.CandidateNegative | src/lib/FullPricer.cpp:43 | a negative shortest path's network has a negative walk |
| PricingSpec.ShortestLengthsAgree | src/lib/KShortestPricer.cpp:46-54 | two shortest paths of a network under the same weights have the same length |
| PricingSpec.InsertByLength | src/lib/KShortestPricer.cpp:61 | insertion keeps the paths as a multiset and adds the new one |
| PricingSpec.InsertSorted | src/lib/KShortestPricer.cpp:61 | inserting into a sorted sequence keeps it sorted by length |
| PricingSpec.SortByLength | src/lib/KShortestPricer.cpp:61 | sorting is a permutation |
| PricingSpec.InsertAfterTies | src/lib/KShortestPricer.cpp:61 | a path no shorter than every placed path goes last, behind those of its own length: the insertion is stable |
| PricingSpec.TiesKeepArrivalOrder | src/lib/KShortestPricer.cpp:61 | two paths of equal length leave the sort in the order they arrived |
| PricingSpec.SortSorted | src/lib/KShortestPricer.cpp:61 | the sorted paths are ordered by length |
| PricingSpec.SortKeepsDistinct | src/lib/KShortestPricer.cpp:61 | sorting keeps the paths' groups distinct |
| PricingSpec.KeptAreShortest | src/lib/KShortestPricer.cpp:61-63 | after sorting, the first `k` are no longer than any of the rest |
| PricingSpec.KeptFromSorted | src/lib/KShortestPricer.cpp:59-64 | the `k` kept paths are among the candidates and no longer than any candidate left out |
| PricingSpec.KeepShortestSpec | src/lib/KShortestPricer.cpp:59-64 | `min(k, n)` paths are kept; they are among the candidates, keep the groups distinct and are no longer than any path left out |
| PricingSpec.UncoveredNotShorter | src/lib/KShortestPricer.cpp:59-64 | a negative network left without a kept path has no shortest path shorter than a kept one |
| PricingSpec.FullProgressStart | src/lib/FullPricer.cpp:40 | before the loop no network is visited and no path is taken |
| PricingSpec.FullProgressStep | src/lib/FullPricer.cpp:42-51 | visiting a network with a negative shortest path adds that path |
| PricingSpec.FullProgressSkip | src/lib/FullPricer.cpp:43 | visiting a network without a negative walk adds nothing |
| PricingSpec.FullProgressDone | src/lib/FullPricer.cpp:40-63 | after all networks are visited, the paths are one negative shortest path for every network with a negative walk and for no other |
| PricingSpec.KeepShortestSelects | src/lib/KShortestPricer.cpp:46-64 | keeping the `k` shortest candidates gives distinct-network negative shortest paths, `min(k, #negative networks)` of them, none longer than a left-out network's shortest path |
| PricingSpec.KeptAreCandidates | src/lib/KShortestPricer.cpp:59-64 | paths kept from the candidates are candidates |
| Pricing.StaleIsReady | src/lib/Network.cpp:187 | networks whose cache is stale have a valid cache |
| Startup.InitializedIsReady | src/app/halligalli.cpp:87-96 | a registry filled from empty by `initialize_container` holds networks under their own groups, valid and with no cached path, so once their sinks are reachable the pricer built on it is ready for every pricing round |
| Pricing.PricedRound | src/lib/ObjPricerGFCG.cpp:107-134 | after reset and reweighting every indexed arc weighs what the constraints of its group put on it, and 0 when its `netzwerk` has another group; every edge that is no arc's edge keeps the 0 of `zero_arc_weights` |
| Pricing.Pricer.constructor | src/lib/ObjPricerGFCG.cpp:36-43 | both counters start at 0, on the given registry, master problem and strategy (`k > 0` for the k-shortest one) |
| Pricing.Pricer.ZeroArcWeights | src/lib/ObjPricerGFCG.cpp:95-105 | every network's weights are 0 and their caches stale |
| Pricing.Pricer.AddToNetwork | src/lib/ObjPricerGFCG.cpp:123-124 | the amount goes on the arc's edge in that network only; an unknown arc aborts with its `Arc::to_string` rendering as written |
| Pricing.Pricer.AddContribution | src/lib/ObjPricerGFCG.cpp:120-126 | one contribution is applied exactly when its arc resolves to a network that knows it; otherwise the abort says why |
| Pricing.Pricer.AddConstraintWeights | src/lib/ObjPricerGFCG.cpp:120-127 | all of one constraint's scaled entries are applied, or the first unresolved one aborts |
| Pricing.Pricer.AddConstraintPrice | src/lib/ObjPricerGFCG.cpp:117-128 | a zero price adds nothing; otherwise the constraint's entries are applied |
| Pricing.Pricer.SetArcWeights | src/lib/ObjPricerGFCG.cpp:113-134 | all constraints' contributions are applied in order, or the first unresolvable arc aborts with its context |
| Pricing.Pricer.AddVariable | src/lib/ObjPricerGFCG.cpp:136-150 | the column's coefficients are appended for each recorded constraint; nothing else changes |
| Pricing.Pricer.GenerateColumns | src/lib/ObjPricerGFCG.cpp:159-188 | the column `p_N` is added with the coefficients of the path's recorded arcs and the path is recorded under its name |
| Pricing.Pricer.RefreshNetwork | src/lib/FullPricer.cpp:42 | the network's shortest path for the current weights; no network's weights change |
| Pricing.Pricer.NetworkPath | src/lib/FullPricer.cpp:42-43 | the path is the network's shortest and is negative exactly when the network has a negative walk |
| Pricing.Pricer.CountedColumns | src/lib/FullPricer.cpp:46-51 | one more generated column and the counter up by one |
| Pricing.Pricer.AddPath | src/lib/FullPricer.cpp:46-51 | as `CountedColumns`, with every network's weights kept |
| Pricing.Pricer.FullVisit | src/lib/FullPricer.cpp:41-55 | one network visited: its path is generated exactly when it is negative |
| Pricing.Pricer.FullShortestPathCG | src/lib/FullPricer.cpp:32-64 | the count is the number of generated columns, which are exactly the Full selection |
| Pricing.Pricer.NegativePaths | src/lib/KShortestPricer.cpp:46-55 | one negative shortest path for each network with a negative walk |
| Pricing.Pricer.AddKeptPath | src/lib/KShortestPricer.cpp:71-83 | a kept path becomes a column and the counter goes up |
| Pricing.Pricer.AddKept | src/lib/KShortestPricer.cpp:66-88 | every kept path becomes a column, in order, and the count is their number |
| Pricing.Pricer.KShortestShortestPathCG | src/lib/KShortestPricer.cpp:39-91 | the generated columns are exactly the k-shortest selection |
| Pricing.Pricer.ShortestPathCG | src/lib/ObjPricerGFCG.cpp:196 | the strategy's selection becomes the new columns |
| Pricing.Pricer.WeighArcs | src/lib/ObjPricerGFCG.cpp:194-195 | after reset and reweighting every arc weighs its round weight and every edge that stands for no arc weighs 0, or the first unresolvable arc aborts |
| Pricing.Pricer.PricingRound | src/lib/ObjPricerGFCG.cpp:194-198 | reset, reweighting and the strategy's selection, with the count of columns |
| Pricing.Pricer.Pricing | src/lib/ObjPricerGFCG.cpp:190-201 | a pricing round, then the iteration counter goes up by one |
| Pricing.Pricer.ScipRedcost | src/lib/ObjPricerGFCG.cpp:60-75 | the result is success, and a round is priced with the LP duals |
| Pricing.Pricer.ScipFarkas | src/lib/ObjPricerGFCG.cpp:77-93 | the result is success, and a round is priced with the Farkas values |
| Initialize.Parses | src/lib/initialize.cpp:108-110 | one parse per variable of the constraint, in order |
| Initialize.ArcsOf | src/lib/initialize.cpp:115 | the (arc, coefficient) pairs of the decoded y-variables, in order |
| Initialize.RemovedOf | src/lib/initialize.cpp:121 | one removed (constraint, variable) pair per decoded y-variable |
| Initialize.CallsOf | src/lib/initialize.cpp:118 | one reverse-index call per decoded y-variable |
| Initialize.Handles | src/lib/initialize.cpp:128-131 | the handles of the recorded constraints, in order |
| Initialize.CollectOk | src/lib/initialize.cpp:108-112 | the decoding of a constraint's variables succeeds exactly when no name is malformed; otherwise the first malformed one gives the abort context |
| Initialize.CollectInOrder | src/lib/initialize.cpp:108-115 | the decoded entries are the y-variables at increasing positions, with their names and coefficients, and every decoded position is included |
| Initialize.CollectNames | src/lib/initialize.cpp:109-121 | a name is among the entries exactly when some variable of that name decodes to an arc |
| Initialize.MapsOk | src/lib/initialize.cpp:72-133 | `generate_maps` succeeds exactly when the decoding of every constraint not pruned succeeds |
| Initialize.DeletedIffPruned | src/lib/initialize.cpp:76-86 | a constraint is deleted exactly when its name contains an unneeded substring |
| Initialize.OnlyKeptTouched | src/lib/initialize.cpp:86 | only constraints that are not pruned are made modifiable or lose variables |
| Initialize.PrunedNeverRecorded | src/lib/initialize.cpp:86 | a pruned constraint is neither recorded nor made modifiable |
| Initialize.RecordedInOrder | src/lib/initialize.cpp:125-131 | constraints are recorded in increasing handle order, and the modifiable ones are exactly the recorded ones |
| Initialize.RecordedIffPricing | src/lib/initialize.cpp:93-131 | a constraint is recorded exactly when it is not pruned and has at least one y-variable |
| Initialize.RecordedArcs | src/lib/initialize.cpp:113-115 | a recorded constraint holds exactly its decoded (arc, coefficient) pairs |
| Initialize.CallsAreReverseIndex | src/lib/initialize.cpp:117-118 | the arc-registry calls are the reverse index of the recorded constraints |
| Initialize.ReverseIndexHas | src/lib/initialize.cpp:117-118 | an arc's reverse-index entries are exactly the (constraint, coefficient) pairs of recorded constraints holding the arc |
| Initialize.EntriesForCalls | src/lib/initialize.cpp:118 | one constraint's calls give an arc exactly its pairs in that constraint |
| Initialize.ArcIndexFromRecords | src/lib/initialize.cpp:113-118 | from an empty registry, an arc's list is its reverse-index entries, and it holds a pair exactly when a recorded constraint has that arc and coefficient |
| Initialize.RemovedAreYVars | src/lib/initialize.cpp:108-122 | a variable is removed from a constraint exactly when the constraint is not pruned and a variable of that name decodes to an arc |
| Initialize.RemovedHas | src/lib/initialize.cpp:121 | the pairs removed for a constraint are exactly its decoded names |
| Initialize.PruneByName | src/lib/initialize.cpp:76-86 | the result is true exactly when some substring occurs in the name, and then the constraint is deleted once; nothing else changes |
| Initialize.MapVars | src/lib/initialize.cpp:108-123 | the variable loop registers, records and removes the decoded y-variables in order, or aborts at the first malformed name |
| Initialize.AddYVar | src/lib/initialize.cpp:113-121 | one decoded y-variable is appended to the arc's reverse-index list and removed from the constraint, as one more entry of the effect |
| Initialize.RecordConstraint | src/lib/initialize.cpp:125-132 | a constraint with y-variables is made modifiable and recorded |
| Initialize.MapKept | src/lib/initialize.cpp:88-132 | a constraint not pruned has its y-variables handled and is recorded when it has any, as its effect says, or aborts as the effect says |
| Initialize.MapConstraint | src/lib/initialize.cpp:72-132 | one constraint is pruned or handled exactly as its effect says, with its abort context |
| Initialize.GenerateMaps | src/lib/initialize.cpp:66-134 | succeeds exactly as the specification does, with its abort context, and leaves the master problem and registry as its effect says |
| Initialize.LoadFile | src/lib/initialize.cpp:51-52 | a file's network is loaded as its specification says, and its arcs are listed |
| Initialize.RegisterNetwork | src/lib/initialize.cpp:49-56 | a file that loads adds its network under its group, keeping existing groups, and records its arcs' groups; a failure aborts with the path |
| Initialize.RegisteredSnoc | src/lib/initialize.cpp:47-61 | one more registered file keeps the registry as the files so far say |
| Initialize.RegisterNext | src/lib/initialize.cpp:47-61 | one more file is registered as the files so far say, or aborts with its path |
| Initialize.RegisterAll | src/lib/initialize.cpp:47-62 | every file is registered, or the first that fails aborts with its path |
| Initialize.GenerateNetworks | src/lib/initialize.cpp:43-64 | no files aborts with the location; otherwise every file's network is registered, or the first failure aborts |
| Initialize.InitializeContainer | src/lib/initialize.cpp:136-141 | networks first, then maps: success exactly when there are files, all load and the maps succeed, with the registry and master problem as both effects say |

## Left out

- Threads and the thread pool. Every parallel loop (loading networks, resetting weights, reweighting constraints, computing shortest paths, generating columns) is run sequentially. Networks are visited in an arbitrary order of their groups, standing for `unordered_map` iteration, and the locks and futures are not modelled. Network weights, which the C++ updates from several threads without a lock, cannot be updated concurrently in the model.
- Floating point: weights, coefficients, duals and lengths are exact reals. `SCIPisZero` and `SCIPisNegative` are exact comparisons with 0, with no tolerance.
- `std::filesystem` directory listing and the `.xml` extension filter. The files are given as a sequence of (path, XML elements, topological order) records, and the model loads them in that order.
- XML parsing (`read_xml`, `get_value<int>`). Each file is given as a sequence of vertex, edge and other elements with their values already read. Uninitialised `k0`–`k6` when a key is missing, and the abort on an unknown key at Network.cpp:88, are not modelled.
- `boost::dag_shortest_paths` computes its own topological order. The model takes that order as part of the input (`order`) and requires it to be one.
- Networks.Network.ShortestPath: requires a reachable sink. The C++ walk back fails its assertion otherwise.
- `update_constraint_pointers` and `scip_init` (SCIP's transformed constraints). The model has no separate transformed problem.
- SCIP return codes (`SCIP_CALL`, the `!= SCIP_OKAY` aborts in `generate_maps`, `SCIPgetConsNVars` and the like): SCIP calls are modelled as always succeeding and are recorded in order in `Scip.Master`. `SCIPreleaseVar` and `SCIPinfinity` are reduced to an infinite upper bound on the column.
- Logging (`LOG_F`, `DLOG_F`), including the `get_edge_weight` call at ObjPricerGFCG.cpp:125-126, which only logs. `reporting.cpp` and `halligalli.cpp` are not part of this model.
- `Path::operator<`, the order `std::sort` uses, is not part of this model. The model sorts by length with a stable insertion sort (a path goes behind every path of its own length), so ties keep their arrival order.
- Pricing.Pricer.Pricing: `n_iterations_` is counted only when the round succeeds, because `ABORT_F` never returns.
- Initialize.GenerateNetworks: does not state that the added networks are new objects (that is stated by Initialize.RegisterNetwork), only that each is stored under its own group and valid.
- Graphs.Combine: the distances start at `INT_MAX` (Network.cpp:151) while `closed_plus<double>` treats only `DBL_MAX` as infinite, so a reached distance of `INT_MAX` or more is never recorded (an edge source to sink of weight 3e9 leaves the sink unreached and the walk's assertion fails). The model treats the start value as a true infinity, so Graphs.DagShortestPaths and Networks.Network.ShortestPath assume every shortest distance stays below `INT_MAX`.
- Networks.TruncateToInt: a weight outside the `int` range makes the C++ conversion at Network.cpp:182 undefined; the model returns the unbounded truncation, so Networks.Network.GetEdgeWeight does not model that case.
- Scans.LoadSpec: the abort contexts of the constructor keep only the file name; the vertex id printed at Network.cpp:113-114 and 120-121 and the `e.what()` text printed at Network.cpp:43 are not modelled.
- Networks.Network.Load: uses the intended endpoint check, not the one as written (see Findings); Scans.LoadSpecAsWritten models the check as written and Scans.LoadAsWrittenAgrees relates the two.
- Scans.LoadSpec: specifies the constructor with the intended endpoint check; Scans.LoadSpecAsWritten is the constructor as written.
- Scans.EdgeStep: the intended endpoint check; Scans.EdgeStepAsWritten aborts on a known vertex with id 0 as the code does. An unknown id, which the code dereferences at `end()` (undefined behaviour), aborts in both.
- ParseLp.Negate32: negating `INT_MIN` is undefined in C++; the model leaves that value at `INT_MIN`.

## Findings

| source | as written | input that shows it | evidently intended | confidence | as-written member | corrected member |
|---|---|---|---|---|---|---|
| src/lib/Arc.cpp:30 | `std::to_string(source.ausbildung)` (and `target.ausbildung` at line 37) renders the bool as `0` or `1`, which `parse_bool` (parse_lp.cpp:47-53) rejects | any arc, e.g. both ends `Node(1,1,-2,-1,3,false,10)`: its rendering has `0` as field 6 and parsing it aborts | the bool written as `true`/`false`, as the LP files and the codec use, so that rendering and parsing are inverse | not executed | RoundTrip.ArcToStringRejected | RoundTrip.ArcToStringCorrectedRoundTrip |
| src/lib/Network.cpp:113 | the endpoint check `!source_res->first` tests the found key, not whether `find` returned `end()`: an edge from or to vertex id 0 aborts, and an unknown id dereferences `end()` | vertex id 0 with the source pattern, vertex id 1 with the sink pattern, an edge 0 to 1, in a file `…/test_graph_26.xml`: the intended constructor loads it, the one as written aborts | reject an edge exactly when an end's id is not known (`source_res == id_map_.end()`), at lines 113 and 120 | not executed | Scans.EndpointCheckRejectsIdZero | Scans.EdgeStep |
