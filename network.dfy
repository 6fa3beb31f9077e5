/** `Network`: one DAG of the column generation, with its group, source and
    sink, the arc/edge indexes, mutable edge weights and a cached shortest
    path that every weight change invalidates. */
module Networks {

  import opened Outcomes
  import opened Text
  import opened Values
  import opened Graphs
  import opened Scans

  /** The `double` to `int` conversion of `get_edge_weight`: truncation
      toward zero. */
  function TruncateToInt(x: real): (r: int)
    ensures x >= 0.0 ==> r as real <= x < r as real + 1.0
    ensures x < 0.0 ==> r as real - 1.0 < x <= r as real
  {
    if x >= 0.0 then x.Floor else -((-x).Floor)
  }

  /** `p` is a shortest source-to-sink path of the graph: it belongs to the
      network's group, it is the cost and the arc list (from the sink back to
      the source) of some walk from `s` to `t`, and no walk from `s` to `t`
      costs less. */
  ghost predicate IsShortestPath(g: Dag, s: nat, t: nat, group: int, p: Path)
    requires WellFormed(g)
  {
    p.networkGroup == group &&
    (exists es :: IsWalk(g.edges, es, s, t) && (forall k :: 0 <= k < |es| ==> es[k] < |g.edges|) &&
                  Cost(g.weights, es) == p.length && WalkArcs(g, es) == p.arcs) &&
    (forall es :: IsWalk(g.edges, es, s, t) ==> p.length <= Cost(g.weights, es))
  }

  /** The weights `ws` with `x` added to entry `k`. */
  function AddAt(ws: seq<real>, k: nat, x: real): (r: seq<real>)
    requires k < |ws|
  {
    ws[k := ws[k] + x]
  }

  /** The edge `boost::edge` finds for an indexed arc: the first edge between
      the two vertices the arc-to-edge map gives. */
  function ArcEdgeIndex(nodes: seq<Node>, edges: seq<Edge>, arcToEdge: map<Arc, Edge>, arc: Arc): (k: nat)
    requires ArcToEdgeSound(nodes, edges, arcToEdge) && arc in arcToEdge
    ensures k < |edges| && edges[k] == arcToEdge[arc] && ArcAt(nodes, edges[k]) == arc
  {
    FirstEdgeFound(edges, arcToEdge[arc]);
    FirstEdge(edges, arcToEdge[arc], 0)
  }

  /** Two different arcs are stored on two different edges, so changing the
      weight of one leaves the other's alone. */
  lemma DistinctArcsDistinctEdges(nodes: seq<Node>, edges: seq<Edge>, arcToEdge: map<Arc, Edge>, a: Arc, b: Arc)
    requires ArcToEdgeSound(nodes, edges, arcToEdge)
    requires a in arcToEdge && b in arcToEdge && a != b
    ensures ArcEdgeIndex(nodes, edges, arcToEdge, a) != ArcEdgeIndex(nodes, edges, arcToEdge, b)
  {
  }

  /** The walk back from `t` along the predecessors to `s`: `boost::edge`
      gives the first edge from the predecessor, and the edge-to-arc map its
      arc. The arcs are those of a walk from `s` to `t` whose cost is the
      distance of `t`, listed from `t` back to `s`. */
  method TracePath(g: Dag, s: nat, t: nat, order: seq<nat>, d: seq<Dist>, pred: seq<nat>, ghost via: seq<nat>,
                   edgeToArc: map<Edge, Arc>)
    returns (arcs: seq<Arc>, ghost es: seq<nat>)
    requires WellFormed(g) && s < |g.nodes| && t < |g.nodes|
    requires |d| == |g.nodes| && |pred| == |g.nodes| && |via| == |g.nodes|
    requires Tree(g, s, order, d, pred, via) && d[s] == Fin(0.0) && d[t].Fin?
    requires forall j :: 0 <= j < |g.edges| ==> g.edges[j] in edgeToArc
    requires EdgeToArcSound(g.nodes, g.edges, edgeToArc)
    ensures IsWalk(g.edges, es, s, t) && (forall k :: 0 <= k < |es| ==> es[k] < |g.edges|)
    ensures Cost(g.weights, es) == d[t].val && WalkArcs(g, es) == arcs
  {
    arcs := [];
    var v: nat := t;
    es := [];
    while v != s
      invariant v < |g.nodes| && d[v].Fin?
      invariant IsWalk(g.edges, es, v, t) && (forall k :: 0 <= k < |es| ==> es[k] < |g.edges|)
      invariant Cost(g.weights, es) == d[t].val - d[v].val
      invariant WalkArcs(g, es) == arcs
      decreases Rank(order, v)
    {
      var u := pred[v];
      assert g.edges[via[v]] == Edge(u, v);
      FirstEdgeFound(g.edges, Edge(u, v));
      var k := FirstEdge(g.edges, Edge(u, v), 0);
      var e := g.edges[k];
      arcs := arcs + [edgeToArc[e]];
      WalkPrepend(g.edges, via[v], es, u, v, t);
      CostPrepend(g.weights, via[v], es);
      WalkArcsPrepend(g, via[v], es);
      es := [via[v]] + es;
      v := u;
      WalkEdges(g.edges, es, v, t);
    }
  }

  /** The shortest path from `s` to `t` with the current weights: the
      distances and predecessors of a DAG shortest-path run from `s`, and
      the walk back from `t`. */
  method ComputeShortestPath(g: Dag, s: nat, t: nat, group: int, order: seq<nat>, edgeToArc: map<Edge, Arc>)
    returns (p: Path)
    requires WellFormed(g) && TopoOrder(order, |g.nodes|, g.edges) && s < |g.nodes| && t < |g.nodes|
    requires exists es :: IsWalk(g.edges, es, s, t)
    requires forall j :: 0 <= j < |g.edges| ==> g.edges[j] in edgeToArc
    requires EdgeToArcSound(g.nodes, g.edges, edgeToArc)
    ensures IsShortestPath(g, s, t, group, p)
  {
    var d, pred, via := DagShortestPaths(g, s, order);
    ReachedFinite(g, s, t, d);
    var arcs: seq<Arc>;
    ghost var es: seq<nat>;
    arcs, es := TracePath(g, s, t, order, d, pred, via, edgeToArc);
    p := Path(d[t].val, arcs, group);
    ShortestFromTrace(g, s, t, group, d[t], es, p);
  }

  /** A reachable vertex has a finite distance once no walk is shorter. */
  lemma ReachedFinite(g: Dag, s: nat, t: nat, d: seq<Dist>)
    requires WellFormed(g) && |d| == |g.nodes| && t < |g.nodes|
    requires exists es :: IsWalk(g.edges, es, s, t)
    requires forall v, es :: 0 <= v < |g.nodes| && IsWalk(g.edges, es, s, v) ==>
               NoLonger(d[v], Fin(Cost(g.weights, es)))
    ensures d[t].Fin?
  {
    var reach :| IsWalk(g.edges, reach, s, t);
    assert NoLonger(d[t], Fin(Cost(g.weights, reach)));
  }

  /** A walk whose cost is a distance no walk undercuts is a shortest path. */
  lemma ShortestFromTrace(g: Dag, s: nat, t: nat, group: int, dt: Dist, es: seq<nat>, p: Path)
    requires WellFormed(g) && dt.Fin?
    requires forall w :: IsWalk(g.edges, w, s, t) ==> NoLonger(dt, Fin(Cost(g.weights, w)))
    requires IsWalk(g.edges, es, s, t) && (forall k :: 0 <= k < |es| ==> es[k] < |g.edges|)
    requires Cost(g.weights, es) == dt.val && WalkArcs(g, es) == p.arcs
    requires p.length == dt.val && p.networkGroup == group
    ensures IsShortestPath(g, s, t, group, p)
  {
    forall w | IsWalk(g.edges, w, s, t)
      ensures p.length <= Cost(g.weights, w)
    {
      assert NoLonger(dt, Fin(Cost(g.weights, w)));
    }
  }

  class Network {
    // Fixed once the graph file is read.
    const group: Int32
    const nodes: seq<Node>              // the node of each vertex descriptor
    const edges: seq<Edge>              // edges in insertion order
    const source: nat
    const sink: nat
    const idMap: map<int, nat>          // XML id -> vertex descriptor
    const arcToEdge: map<Arc, Edge>
    const edgeToArc: map<Edge, Arc>
    const order: seq<nat>               // the vertices in topological order
    // Changed by the weight operations and the shortest path.
    var weights: seq<real>              // one weight per edge
    var isFresh: bool
    var cached: Path

    /** The graph with the current weights. */
    function Graph(): (g: Dag)
      reads this`weights
      ensures g.nodes == nodes && g.edges == edges && g.weights == weights
    {
      Dag(nodes, edges, weights)
    }

    /** The indexes agree with the graph. */
    ghost predicate Indexed()
    {
      EdgesInBounds(nodes, edges) && source < |nodes| && sink < |nodes| &&
      (forall id :: id in idMap ==> idMap[id] < |nodes|) &&
      EdgesIndexed(nodes, edges, edgeToArc, arcToEdge) &&
      EdgeToArcSound(nodes, edges, edgeToArc) &&
      ArcToEdgeSound(nodes, edges, arcToEdge)
    }

    /** One weight per edge, and the indexes agree with the graph. */
    ghost predicate Valid()
      reads this`weights
    {
      |weights| == |edges| && Indexed()
    }

    /** The graph is acyclic with `order` as its topological order, and the
        sink can be reached from the source. */
    ghost predicate Solvable()
    {
      TopoOrder(order, |nodes|, edges) && exists es :: IsWalk(edges, es, source, sink)
    }

    /** A fresh cached path is a shortest path of the current weights. */
    ghost predicate CacheValid()
      reads this
      requires Valid()
    {
      isFresh ==> IsShortestPath(Dag(nodes, edges, weights), source, sink, group, cached)
    }

    constructor Init(group: Int32, graph: Dag, source: nat, sink: nat, idMap: map<int, nat>,
                     arcToEdge: map<Arc, Edge>, edgeToArc: map<Edge, Arc>, order: seq<nat>)
      requires WellFormed(graph) && source < |graph.nodes| && sink < |graph.nodes|
      requires forall id :: id in idMap ==> idMap[id] < |graph.nodes|
      requires EdgesIndexed(graph.nodes, graph.edges, edgeToArc, arcToEdge)
      requires EdgeToArcSound(graph.nodes, graph.edges, edgeToArc)
      requires ArcToEdgeSound(graph.nodes, graph.edges, arcToEdge)
      ensures Valid() && CacheValid() && !isFresh
      ensures this.group == group && Graph() == graph && this.source == source && this.sink == sink
      ensures this.idMap == idMap && this.arcToEdge == arcToEdge && this.edgeToArc == edgeToArc
      ensures this.order == order
    {
      this.group := group;
      nodes := graph.nodes;
      edges := graph.edges;
      weights := graph.weights;
      this.source := source;
      this.sink := sink;
      this.idMap := idMap;
      this.arcToEdge := arcToEdge;
      this.edgeToArc := edgeToArc;
      this.order := order;
      isFresh := false;
      cached := Path(0.0, [], group);
    }

    /** The index of the edge that stands for `arc`. */
    function EdgeIndex(arc: Arc): (k: nat)
      requires Indexed() && arc in arcToEdge
      ensures k < |edges| && edges[k] == arcToEdge[arc]
    {
      ArcEdgeIndex(nodes, edges, arcToEdge, arc)
    }

    /** The weight of the edge that stands for `arc`. */
    ghost function Weight(arc: Arc): (r: real)
      reads this`weights
      requires Valid() && arc in arcToEdge
    {
      weights[EdgeIndex(arc)]
    }

    /** `get_edge_weight`: the weight of the arc's edge converted to `int`;
        an arc the network does not know aborts with its rendering. */
    function GetEdgeWeight(arc: Arc): (r: Outcome<int>)
      reads this`weights
      requires Valid()
      ensures r.Ok? <==> arc in arcToEdge
      ensures r.Ok? ==> r.value == TruncateToInt(Weight(arc))
      ensures r.Abort? ==> r.context == ArcToString(arc)
    {
      if arc !in arcToEdge then Abort(ArcToString(arc))
      else Ok(TruncateToInt(weights[EdgeIndex(arc)]))
    }

    /** `set_edge_weight`: the cached path goes stale; the arc's edge gets
        the weight, and no other edge changes. An unknown arc aborts. */
    method SetEdgeWeight(arc: Arc, weight: real) returns (r: Outcome<()>)
      modifies this
      requires Valid()
      ensures Valid() && CacheValid() && !isFresh && cached == old(cached)
      ensures r.Ok? <==> arc in arcToEdge
      ensures r.Abort? ==> r.context == ArcToString(arc) && weights == old(weights)
      ensures r.Ok? ==> weights == old(weights)[EdgeIndex(arc) := weight]
    {
      isFresh := false;
      if arc !in arcToEdge {
        return Abort(ArcToString(arc));
      }
      var k := EdgeIndex(arc);
      weights := weights[k := weight];
      r := Ok(());
    }

    /** `add_to_edge_weight`: like `set_edge_weight`, with the weight added
        to the current one. */
    method AddToEdgeWeight(arc: Arc, weight: real) returns (r: Outcome<()>)
      modifies this
      requires Valid()
      ensures Valid() && CacheValid() && !isFresh && cached == old(cached)
      ensures r.Ok? <==> arc in arcToEdge
      ensures r.Abort? ==> r.context == ArcToString(arc) && weights == old(weights)
      ensures r.Ok? ==> weights == AddAt(old(weights), EdgeIndex(arc), weight)
    {
      isFresh := false;
      if arc !in arcToEdge {
        return Abort(ArcToString(arc));
      }
      var k := EdgeIndex(arc);
      var current := weights[k];
      weights := weights[k := current + weight];
      r := Ok(());
    }

    /** `reset_edge_weights`: the cached path goes stale and every edge gets
        weight 0. */
    method ResetEdgeWeights()
      modifies this
      requires Valid()
      ensures Valid() && CacheValid() && !isFresh && cached == old(cached)
      ensures |weights| == |edges| && forall k :: 0 <= k < |weights| ==> weights[k] == 0.0
    {
      isFresh := false;
      var j := 0;
      while j < |weights|
        invariant 0 <= j <= |weights| == |edges|
        invariant forall k :: 0 <= k < j ==> weights[k] == 0.0
        invariant !isFresh && cached == old(cached)
      {
        weights := weights[j := 0.0];
        j := j + 1;
      }
    }

    /** `shortest_path`: the cached path while it is fresh; otherwise the
        relaxation from the source in the topological order `order`, then the
        walk back from the sink along the predecessors, collecting the arc of
        each edge; the result is cached. The sink must be reachable. */
    method ShortestPath() returns (p: Path)
      modifies this
      requires Valid() && CacheValid() && Solvable()
      ensures Valid() && CacheValid() && isFresh && cached == p && weights == old(weights)
      ensures IsShortestPath(Dag(nodes, edges, weights), source, sink, group, p)
      ensures old(isFresh) ==> p == old(cached)
    {
      if isFresh {
        return cached;
      }
      p := Recompute();
    }

    /** The shortest path for the current weights, which becomes the fresh
        cached path. */
    method Recompute() returns (p: Path)
      modifies this
      requires Valid() && Solvable()
      ensures isFresh && cached == p && weights == old(weights)
      ensures IsShortestPath(Dag(nodes, edges, weights), source, sink, group, p)
    {
      p := ComputeShortestPath(Dag(nodes, edges, weights), source, sink, group, order, edgeToArc);
      cached, isFresh := p, true;
    }

    /** The constructor: the group from the file name (aborting when the
        suffix has no leading integer), then every element in file order,
        then the check that a source and a sink were found. The arcs of the
        edges are appended to `arcsIn`. `order` is kept as the graph's
        topological order, which the shortest-path search would otherwise
        compute itself. */
    static method Load(filename: string, elements: seq<Element>, order: seq<nat>, arcsIn: seq<Arc>)
      returns (r: Outcome<Network>, arcList: seq<Arc>)
      ensures r.Abort? <==> LoadSpec(filename, elements).Abort?
      ensures r.Abort? ==> r.context == filename
      ensures r.Ok? ==>
                var l := LoadSpec(filename, elements).value;
                fresh(r.value) && r.value.Valid() && r.value.CacheValid() && !r.value.isFresh &&
                r.value.group == l.group && r.value.Graph() == Dag(l.scan.nodes, l.scan.edges, l.scan.weights) &&
                r.value.source == l.source && r.value.sink == l.sink && r.value.idMap == l.scan.idMap &&
                r.value.arcToEdge == l.scan.arcToEdge && r.value.edgeToArc == l.scan.edgeToArc &&
                r.value.order == order && arcList == arcsIn + l.scan.arcList
    {
      arcList := arcsIn;
      var group := Group(filename);
      if group.None? {
        return Abort(filename), arcList;
      }
      var scanned := ScanElements(filename, elements);
      if scanned.Abort? {
        return Abort(filename), arcList;
      }
      var sc := scanned.value;
      LoadSpecAfterScan(filename, elements, sc);
      if sc.source.None? || sc.sink.None? {
        return Abort(filename), arcList;
      }
      ScanIndexes(filename, elements, sc);
      var net := new Network.Init(group.value, Dag(sc.nodes, sc.edges, sc.weights), sc.source.value, sc.sink.value,
                                  sc.idMap, sc.arcToEdge, sc.edgeToArc, order);
      r := Ok(net);
      arcList := arcsIn + sc.arcList;
    }
  }

  /** The loop over the elements of `graphml.graph`, in file order. */
  method ScanElements(filename: string, elements: seq<Element>) returns (r: Outcome<Scan>)
    ensures r == ScanUpTo(filename, elements, |elements|)
  {
    var sc := EmptyScan;
    for i := 0 to |elements|
      invariant ScanUpTo(filename, elements, i) == Ok(sc)
    {
      ScanUpToNext(filename, elements, i, sc);
      var step := AddElement(filename, sc, elements[i]);
      if step.Abort? {
        AbortPersists(filename, elements, i + 1);
        return step;
      }
      sc := step.value;
    }
    return Ok(sc);
  }

  /** One element of `graphml.graph`: vertices and edges are recorded, any
      other element is skipped. */
  method AddElement(filename: string, sc: Scan, el: Element) returns (r: Outcome<Scan>)
    requires ScanInv(sc)
    ensures r == ScanStep(filename, sc, el)
  {
    match el {
      case VertexElem(id, node) =>
        r := AddVertex(filename, sc, id, node);
      case EdgeElem(sourceId, targetId) =>
        r := AddEdge(filename, sc, sourceId, targetId);
      case OtherElem =>
        r := Ok(sc);
    }
  }

  /** A vertex record: the vertex is added and its id recorded; a second
      source or a second sink aborts. */
  method AddVertex(filename: string, sc: Scan, id: int, node: Node) returns (r: Outcome<Scan>)
    requires ScanInv(sc)
    ensures r == VertexStep(filename, sc, id, node)
  {
    var v := |sc.nodes|;
    var added := sc.(nodes := sc.nodes + [node], idMap := MapInsert(sc.idMap, id, v));
    if IsSourceNode(node) {
      if sc.source.Some? {
        return Abort(filename);
      }
      added := added.(source := Some(v));
    } else if IsSinkNode(node) {
      if sc.sink.Some? {
        return Abort(filename);
      }
      added := added.(sink := Some(v));
    }
    return Ok(added);
  }

  /** An edge record: both ends must be known ids; the edge gets weight 0
      and is entered in both maps, and its arc is appended. */
  method AddEdge(filename: string, sc: Scan, sourceId: int, targetId: int) returns (r: Outcome<Scan>)
    requires ScanInv(sc)
    ensures r == EdgeStep(filename, sc, sourceId, targetId)
  {
    if EndpointRejected(sc.idMap, sourceId) || EndpointRejected(sc.idMap, targetId) {
      return Abort(filename);
    }
    var e := Edge(sc.idMap[sourceId], sc.idMap[targetId]);
    var arc := Arc(sc.nodes[e.source], sc.nodes[e.target]);
    r := Ok(sc.(edges := sc.edges + [e], weights := sc.weights + [0.0],
                arcToEdge := MapInsert(sc.arcToEdge, arc, e),
                edgeToArc := MapInsert(sc.edgeToArc, e, arc),
                arcList := sc.arcList + [arc]));
  }

  /** The whole constructor once the group is known and the scan is done. */
  lemma LoadSpecAfterScan(filename: string, elements: seq<Element>, sc: Scan)
    requires Group(filename).Some? && ScanUpTo(filename, elements, |elements|) == Ok(sc)
    ensures LoadSpec(filename, elements) ==
            if sc.source.None? || sc.sink.None? then Abort(filename)
            else Ok(Loaded(Group(filename).value, sc, sc.source.value, sc.sink.value))
  {
  }

  /** A finished scan has consistent indexes. */
  lemma ScanIndexes(filename: string, elements: seq<Element>, sc: Scan)
    requires ScanUpTo(filename, elements, |elements|) == Ok(sc)
    ensures EdgesIndexed(sc.nodes, sc.edges, sc.edgeToArc, sc.arcToEdge)
    ensures EdgeToArcSound(sc.nodes, sc.edges, sc.edgeToArc) && ArcToEdgeSound(sc.nodes, sc.edges, sc.arcToEdge)
  {
    ScanUpToAgrees(filename, elements, |elements|);
  }

  /** One more element is one more step of the scan. */
  lemma ScanUpToNext(filename: string, elements: seq<Element>, i: nat, sc: Scan)
    requires i < |elements| && ScanUpTo(filename, elements, i) == Ok(sc)
    ensures ScanUpTo(filename, elements, i + 1) == ScanStep(filename, sc, elements[i])
  {
  }

  /** Once the loop aborts, the whole constructor aborts. */
  lemma {:induction false} AbortPersists(filename: string, elements: seq<Element>, i: nat)
    requires i <= |elements| && ScanUpTo(filename, elements, i).Abort?
    ensures ScanUpTo(filename, elements, |elements|).Abort?
    decreases |elements| - i
  {
    if i < |elements| {
      AbortPersists(filename, elements, i + 1);
    }
  }
}
