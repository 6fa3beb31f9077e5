/** Building a network from its graph file: the group taken from the file
    name, the vertex and edge records in file order, the source and sink
    recognised by their field patterns, and the arc/edge indexes. The XML
    reading itself is replaced by a sequence of element records. */
module Scans {

  import opened Outcomes
  import opened Text
  import opened Values
  import opened Graphs

  // ---------------------------------------------------------------------------
  // The group from the file name

  /** The text after the last `_` of the file name, or all of it when there
      is none (`find_last_of` gives `npos`, and `npos + 1` wraps to 0). */
  function GroupSuffix(filename: string): (r: string)
    ensures |r| <= |filename|
  {
    var from := FindLastChar(filename, '_') + 1;
    Substr(filename, from, |filename|)
  }

  /** `std::stoi` of the suffix: the integer at its start. */
  function Group(filename: string): (r: Option<Int32>)
  {
    Stoi(GroupSuffix(filename))
  }

  /** A file name ending in `_` and a text without `_` has that text as its
      suffix, whatever comes before (directories included). */
  lemma GroupSuffixAfterLast(prefix: string, tail: string)
    requires forall k :: 0 <= k < |tail| ==> tail[k] != '_'
    ensures GroupSuffix(prefix + "_" + tail) == tail
  {
    var s := prefix + "_" + tail;
    var r := FindLastChar(s, '_');
    assert s[|prefix|] == '_';
    assert forall k :: |prefix| < k < |s| ==> s[k] == tail[k - |prefix| - 1];
    assert r == |prefix|;
    SubstrIsSlice(s, r + 1, |s|);
    assert s[r + 1..] == tail;
  }

  /** The graph file of the network tests, `…/test_graph_26.xml`, belongs to
      group 26. */
  lemma GroupOfTestGraph(dir: string)
    ensures Group(dir + "/test_graph" + "_" + "26.xml") == Some(26)
  {
    var tail := "26.xml";
    GroupSuffixAfterLast(dir + "/test_graph", tail);
    assert SpaceEnd(tail, 0) == 0;
    assert DigitEnd(tail, 2) == 2;
    assert DigitEnd(tail, 0) == 2;
    assert DigitsValue(tail, 0, 2) == 26;
  }

  // ---------------------------------------------------------------------------
  // Element records

  /** A child of `graphml.graph`: a vertex record with its XML id and the
      seven `key0 … key6` values in `Node` order, an edge record with the ids
      of its ends, or anything else. */
  datatype Element =
    | VertexElem(id: int, node: Node)
    | EdgeElem(sourceId: int, targetId: int)
    | OtherElem

  /** The source pattern: (0, 0, -2, -1, 0, false) on the first six fields. */
  predicate IsSourceNode(n: Node)
  {
    n.laufbahngruppe == 0 && n.laufbahn == 0 && n.zeitscheibe == -1 && n.status == 0 &&
    !n.ausbildung && n.dienstgrad == -2
  }

  /** The sink pattern: (0, 0, 35, -1, 0, false) on the first six fields. */
  predicate IsSinkNode(n: Node)
  {
    n.laufbahngruppe == 0 && n.laufbahn == 0 && n.zeitscheibe == -1 && n.status == 0 &&
    !n.ausbildung && n.dienstgrad == 35
  }

  /** What the constructor has built after a prefix of the elements. */
  datatype Scan = Scan(
    nodes: seq<Node>,             // the node of each vertex descriptor
    edges: seq<Edge>,             // edges in insertion order
    weights: seq<real>,           // one weight per edge
    idMap: map<int, nat>,         // XML id -> vertex descriptor
    arcToEdge: map<Arc, Edge>,
    edgeToArc: map<Edge, Arc>,
    arcList: seq<Arc>,            // arcs appended to the caller's list
    source: Option<nat>,
    sink: Option<nat>)

  const EmptyScan := Scan([], [], [], map[], map[], map[], [], None, None)

  /** The indexes point into the graph: the facts every later step and the
      network rely on. */
  predicate ScanInv(sc: Scan)
  {
    |sc.weights| == |sc.edges| &&
    (forall id :: id in sc.idMap ==> sc.idMap[id] < |sc.nodes|) &&
    EdgesInBounds(sc.nodes, sc.edges) &&
    (sc.source.Some? ==> sc.source.value < |sc.nodes|) &&
    (sc.sink.Some? ==> sc.sink.value < |sc.nodes|)
  }

  /** The as-written endpoint check of the constructor: `!res->first` tests
      the XML id that was found, so it fires for a known vertex with id 0
      (an id that is not found leaves `res` at `end()`, which is then
      dereferenced). */
  predicate EndpointRejectedAsWritten(idMap: map<int, nat>, id: int)
    requires id in idMap
  {
    id == 0
  }

  /** The evidently intended check: the edge end is rejected when its id
      names no vertex read so far. */
  predicate EndpointRejected(idMap: map<int, nat>, id: int)
  {
    id !in idMap
  }

  /** A vertex record: the vertex is appended and its id recorded (the first
      vertex with an id keeps it); a vertex with the source or sink pattern
      is remembered, and a second one aborts. */
  function VertexStep(filename: string, sc: Scan, id: int, node: Node): (r: Outcome<Scan>)
    requires ScanInv(sc)
    ensures r.Ok? ==> ScanInv(r.value)
    ensures r.Abort? ==> r.context == filename
  {
    var v := |sc.nodes|;
    var added := sc.(nodes := sc.nodes + [node], idMap := MapInsert(sc.idMap, id, v));
    if IsSourceNode(node) then
      if sc.source.Some? then Abort(filename) else Ok(added.(source := Some(v)))
    else if IsSinkNode(node) then
      if sc.sink.Some? then Abort(filename) else Ok(added.(sink := Some(v)))
    else Ok(added)
  }

  /** The arc an edge stands for: the nodes of its two ends (a default arc
      for an end that is not a vertex). */
  function ArcAt(nodes: seq<Node>, e: Edge): (a: Arc)
    ensures e.source < |nodes| && e.target < |nodes| ==> a == Arc(nodes[e.source], nodes[e.target])
  {
    if e.source < |nodes| && e.target < |nodes| then Arc(nodes[e.source], nodes[e.target])
    else Arc(ZeroNode, ZeroNode)
  }

  const ZeroNode := Node(0, 0, 0, 0, 0, false, 0)

  /** An edge record between two known vertices: the edge is appended with
      weight 0, its arc is recorded in both indexes (the first entry for a
      key stays) and appended to the arc list. */
  function EdgeStep(filename: string, sc: Scan, sourceId: int, targetId: int): (r: Outcome<Scan>)
    requires ScanInv(sc)
    ensures r.Ok? ==> ScanInv(r.value)
    ensures r.Abort? ==> r.context == filename
  {
    if EndpointRejected(sc.idMap, sourceId) then Abort(filename)
    else if EndpointRejected(sc.idMap, targetId) then Abort(filename)
    else
      var e := Edge(sc.idMap[sourceId], sc.idMap[targetId]);
      var arc := ArcAt(sc.nodes, e);
      Ok(sc.(edges := sc.edges + [e], weights := sc.weights + [0.0],
             arcToEdge := MapInsert(sc.arcToEdge, arc, e),
             edgeToArc := MapInsert(sc.edgeToArc, e, arc),
             arcList := sc.arcList + [arc]))
  }

  /** One element of `graphml.graph`; anything but a vertex or an edge is
      skipped. */
  function ScanStep(filename: string, sc: Scan, el: Element): (r: Outcome<Scan>)
    requires ScanInv(sc)
    ensures r.Ok? ==> ScanInv(r.value)
    ensures r.Abort? ==> r.context == filename
  {
    match el
    case VertexElem(id, node) => VertexStep(filename, sc, id, node)
    case EdgeElem(sourceId, targetId) => EdgeStep(filename, sc, sourceId, targetId)
    case OtherElem => Ok(sc)
  }

  /** The constructor's loop over the first `i` elements. */
  function ScanUpTo(filename: string, elements: seq<Element>, i: nat): (r: Outcome<Scan>)
    requires i <= |elements|
    ensures r.Ok? ==> ScanInv(r.value)
    ensures r.Abort? ==> r.context == filename
  {
    if i == 0 then Ok(EmptyScan)
    else
      match ScanUpTo(filename, elements, i - 1)
      case Abort(c) => Abort(c)
      case Ok(sc) => ScanStep(filename, sc, elements[i - 1])
  }

  /** The whole constructor: the group first, then the elements, then the
      check that a source and a sink were found. */
  datatype Loaded = Loaded(group: Int32, scan: Scan, source: nat, sink: nat)

  function LoadSpec(filename: string, elements: seq<Element>): (r: Outcome<Loaded>)
    ensures r.Ok? ==> ScanInv(r.value.scan) && r.value.source < |r.value.scan.nodes| && r.value.sink < |r.value.scan.nodes|
    ensures r.Abort? ==> r.context == filename
  {
    match Group(filename)
    case None => Abort(filename)
    case Some(group) =>
      match ScanUpTo(filename, elements, |elements|)
      case Abort(c) => Abort(c)
      case Ok(sc) =>
        if sc.source.None? || sc.sink.None? then Abort(filename)
        else Ok(Loaded(group, sc, sc.source.value, sc.sink.value))
  }

  // ---------------------------------------------------------------------------
  // What the elements determine

  /** The nodes of the vertex records among the first `i` elements. */
  function VertexNodes(elements: seq<Element>, i: nat): (r: seq<Node>)
    requires i <= |elements|
  {
    if i == 0 then []
    else if elements[i - 1].VertexElem? then VertexNodes(elements, i - 1) + [elements[i - 1].node]
    else VertexNodes(elements, i - 1)
  }

  /** The ids of the vertex records among the first `i` elements. */
  function KnownIds(elements: seq<Element>, i: nat): (r: set<int>)
    requires i <= |elements|
  {
    if i == 0 then {}
    else if elements[i - 1].VertexElem? then KnownIds(elements, i - 1) + {elements[i - 1].id}
    else KnownIds(elements, i - 1)
  }

  /** Every edge record among the first `i` names two vertices read before it. */
  predicate EdgesResolved(elements: seq<Element>, i: nat)
    requires i <= |elements|
  {
    forall k :: 0 <= k < i && elements[k].EdgeElem? ==>
      elements[k].sourceId in KnownIds(elements, k) && elements[k].targetId in KnownIds(elements, k)
  }

  /** How many of the nodes have the source pattern (with `sink`, the sink
      pattern). */
  function CountPattern(ns: seq<Node>, sink: bool): (r: nat)
  {
    if ns == [] then 0
    else CountPattern(ns[..|ns| - 1], sink) +
         (if (if sink then IsSinkNode(ns[|ns| - 1]) else IsSourceNode(ns[|ns| - 1])) then 1 else 0)
  }

  predicate HasPattern(n: Node, sink: bool)
  {
    if sink then IsSinkNode(n) else IsSourceNode(n)
  }

  /** The remembered source (sink) is the one vertex with its pattern, or
      there is none when no vertex has it. */
  predicate Detected(ns: seq<Node>, found: Option<nat>, sink: bool)
  {
    (found.None? ==> CountPattern(ns, sink) == 0) &&
    (found.Some? ==> found.value < |ns| && HasPattern(ns[found.value], sink) && CountPattern(ns, sink) == 1)
  }

  lemma CountPatternAppend(ns: seq<Node>, n: Node, sink: bool)
    ensures CountPattern(ns + [n], sink) == CountPattern(ns, sink) + (if HasPattern(n, sink) then 1 else 0)
  {
    assert (ns + [n])[..|ns|] == ns;
  }

  /** Only one vertex can have a pattern that is counted once. */
  lemma {:induction false} CountOneUnique(ns: seq<Node>, x: nat, y: nat, sink: bool)
    requires x < |ns| && y < |ns| && HasPattern(ns[x], sink) && HasPattern(ns[y], sink)
    requires CountPattern(ns, sink) <= 1
    ensures x == y
    decreases |ns|
  {
    var p := ns[..|ns| - 1];
    assert ns == p + [ns[|ns| - 1]];
    CountPatternAppend(p, ns[|ns| - 1], sink);
    if x < |p| && y < |p| {
      assert p[x] == ns[x] && p[y] == ns[y];
      CountOneUnique(p, x, y, sink);
    } else if x < |p| {
      assert p[x] == ns[x];
      CountPositive(p, x, sink);
    } else if y < |p| {
      assert p[y] == ns[y];
      CountPositive(p, y, sink);
    }
  }

  lemma {:induction false} CountPositive(ns: seq<Node>, x: nat, sink: bool)
    requires x < |ns| && HasPattern(ns[x], sink)
    ensures CountPattern(ns, sink) >= 1
    decreases |ns|
  {
    var p := ns[..|ns| - 1];
    assert ns == p + [ns[|ns| - 1]];
    CountPatternAppend(p, ns[|ns| - 1], sink);
    if x < |p| {
      assert p[x] == ns[x];
      CountPositive(p, x, sink);
    }
  }

  /** The vertices are the vertex records in order, and the known ids are
      theirs. */
  predicate NodesAgree(elements: seq<Element>, i: nat, nodes: seq<Node>, ids: set<int>)
    requires i <= |elements|
  {
    nodes == VertexNodes(elements, i) && ids == KnownIds(elements, i)
  }

  /** Every edge has weight 0 and the arc listed for it is its arc. */
  predicate ArcListAgrees(nodes: seq<Node>, edges: seq<Edge>, weights: seq<real>, arcList: seq<Arc>)
  {
    |arcList| == |edges| && |weights| == |edges| &&
    (forall j :: 0 <= j < |edges| ==> weights[j] == 0.0 && arcList[j] == ArcAt(nodes, edges[j]))
  }

  /** Every edge joins two vertices. */
  predicate EdgesInBounds(nodes: seq<Node>, edges: seq<Edge>)
  {
    forall j :: 0 <= j < |edges| ==> edges[j].source < |nodes| && edges[j].target < |nodes|
  }

  /** Every edge is a key of the edge-to-arc map, and its arc a key of the
      arc-to-edge map. */
  predicate EdgesIndexed(nodes: seq<Node>, edges: seq<Edge>, edgeToArc: map<Edge, Arc>, arcToEdge: map<Arc, Edge>)
  {
    forall j :: 0 <= j < |edges| ==> edges[j] in edgeToArc && ArcAt(nodes, edges[j]) in arcToEdge
  }

  /** The edge-to-arc map sends an edge of the graph to its arc. */
  predicate EdgeToArcSound(nodes: seq<Node>, edges: seq<Edge>, edgeToArc: map<Edge, Arc>)
  {
    forall e :: e in edgeToArc ==> e in edges && edgeToArc[e] == ArcAt(nodes, e)
  }

  /** The arc-to-edge map sends an arc to an edge of the graph that stands
      for it. */
  predicate ArcToEdgeSound(nodes: seq<Node>, edges: seq<Edge>, arcToEdge: map<Arc, Edge>)
  {
    forall a :: a in arcToEdge ==> arcToEdge[a] in edges && ArcAt(nodes, arcToEdge[a]) == a
  }

  /** Everything a successful scan of the first `i` elements establishes. */
  predicate ScanAgrees(elements: seq<Element>, i: nat, sc: Scan)
    requires i <= |elements|
  {
    NodesAgree(elements, i, sc.nodes, sc.idMap.Keys) &&
    Detected(sc.nodes, sc.source, false) && Detected(sc.nodes, sc.sink, true) &&
    ArcListAgrees(sc.nodes, sc.edges, sc.weights, sc.arcList) &&
    EdgesIndexed(sc.nodes, sc.edges, sc.edgeToArc, sc.arcToEdge) &&
    EdgeToArcSound(sc.nodes, sc.edges, sc.edgeToArc) &&
    ArcToEdgeSound(sc.nodes, sc.edges, sc.arcToEdge)
  }

  // Appending a vertex leaves the arcs of the existing edges alone.

  lemma ArcAtExtend(nodes: seq<Node>, n: Node, e: Edge)
    requires e.source < |nodes| && e.target < |nodes|
    ensures ArcAt(nodes + [n], e) == ArcAt(nodes, e)
  {
  }

  lemma IndexesExtend(nodes: seq<Node>, n: Node, edges: seq<Edge>, weights: seq<real>, arcList: seq<Arc>,
                      edgeToArc: map<Edge, Arc>, arcToEdge: map<Arc, Edge>)
    requires EdgesInBounds(nodes, edges)
    requires ArcListAgrees(nodes, edges, weights, arcList) && EdgesIndexed(nodes, edges, edgeToArc, arcToEdge)
    requires EdgeToArcSound(nodes, edges, edgeToArc) && ArcToEdgeSound(nodes, edges, arcToEdge)
    ensures ArcListAgrees(nodes + [n], edges, weights, arcList) && EdgesIndexed(nodes + [n], edges, edgeToArc, arcToEdge)
    ensures EdgeToArcSound(nodes + [n], edges, edgeToArc) && ArcToEdgeSound(nodes + [n], edges, arcToEdge)
  {
    forall j | 0 <= j < |edges| ensures ArcAt(nodes + [n], edges[j]) == ArcAt(nodes, edges[j]) {
      ArcAtExtend(nodes, n, edges[j]);
    }
    forall e | e in edges ensures ArcAt(nodes + [n], e) == ArcAt(nodes, e) {
      var j :| 0 <= j < |edges| && edges[j] == e;
      ArcAtExtend(nodes, n, edges[j]);
    }
  }

  // Appending an edge with weight 0 and inserting its arc.

  lemma ArcListAppend(nodes: seq<Node>, edges: seq<Edge>, weights: seq<real>, arcList: seq<Arc>, e: Edge)
    requires ArcListAgrees(nodes, edges, weights, arcList)
    ensures ArcListAgrees(nodes, edges + [e], weights + [0.0], arcList + [ArcAt(nodes, e)])
  {
  }

  lemma EdgesIndexedAppend(nodes: seq<Node>, edges: seq<Edge>, edgeToArc: map<Edge, Arc>, arcToEdge: map<Arc, Edge>, e: Edge)
    requires EdgesIndexed(nodes, edges, edgeToArc, arcToEdge)
    ensures EdgesIndexed(nodes, edges + [e], MapInsert(edgeToArc, e, ArcAt(nodes, e)), MapInsert(arcToEdge, ArcAt(nodes, e), e))
  {
  }

  lemma EdgeToArcAppend(nodes: seq<Node>, edges: seq<Edge>, edgeToArc: map<Edge, Arc>, e: Edge)
    requires EdgeToArcSound(nodes, edges, edgeToArc)
    ensures EdgeToArcSound(nodes, edges + [e], MapInsert(edgeToArc, e, ArcAt(nodes, e)))
  {
    var m := MapInsert(edgeToArc, e, ArcAt(nodes, e));
    forall x | x in m ensures x in edges + [e] && m[x] == ArcAt(nodes, x) {
      if x in edgeToArc {
        assert x in edges;
      }
    }
  }

  lemma ArcToEdgeAppend(nodes: seq<Node>, edges: seq<Edge>, arcToEdge: map<Arc, Edge>, e: Edge)
    requires ArcToEdgeSound(nodes, edges, arcToEdge)
    ensures ArcToEdgeSound(nodes, edges + [e], MapInsert(arcToEdge, ArcAt(nodes, e), e))
  {
    var m := MapInsert(arcToEdge, ArcAt(nodes, e), e);
    forall a | a in m ensures m[a] in edges + [e] && ArcAt(nodes, m[a]) == a {
      if a in arcToEdge {
        assert arcToEdge[a] in edges;
      }
    }
  }

  lemma {:induction false} ScanUpToAgrees(filename: string, elements: seq<Element>, i: nat)
    requires i <= |elements|
    ensures ScanUpTo(filename, elements, i).Ok? ==>
              ScanAgrees(elements, i, ScanUpTo(filename, elements, i).value)
  {
    if i > 0 {
      ScanUpToAgrees(filename, elements, i - 1);
      var prev := ScanUpTo(filename, elements, i - 1);
      if prev.Ok? && ScanUpTo(filename, elements, i).Ok? {
        StepAgrees(filename, elements, i - 1, prev.value);
      }
    }
  }

  lemma StepAgrees(filename: string, elements: seq<Element>, i: nat, sc: Scan)
    requires i < |elements| && ScanInv(sc) && ScanAgrees(elements, i, sc)
    requires ScanStep(filename, sc, elements[i]).Ok?
    ensures ScanAgrees(elements, i + 1, ScanStep(filename, sc, elements[i]).value)
  {
    match elements[i]
    case VertexElem(id, node) => VertexAgrees(filename, elements, i, sc, id, node);
    case EdgeElem(a, b) => EdgeAgrees(filename, elements, i, sc, a, b);
    case OtherElem =>
  }

  lemma VertexAgrees(filename: string, elements: seq<Element>, i: nat, sc: Scan, id: int, node: Node)
    requires i < |elements| && elements[i] == VertexElem(id, node)
    requires ScanInv(sc) && ScanAgrees(elements, i, sc)
    requires VertexStep(filename, sc, id, node).Ok?
    ensures ScanAgrees(elements, i + 1, VertexStep(filename, sc, id, node).value)
  {
    var sc' := VertexStep(filename, sc, id, node).value;
    VertexStepShape(filename, sc, id, node);
    IndexesExtend(sc.nodes, node, sc.edges, sc.weights, sc.arcList, sc.edgeToArc, sc.arcToEdge);
    DetectedExtend(sc.nodes, node, sc.source, false, sc'.source);
    DetectedExtend(sc.nodes, node, sc.sink, true, sc'.sink);
  }

  /** A vertex step appends the node, inserts the id, fills the matching
      slot and leaves the edges alone. */
  lemma VertexStepShape(filename: string, sc: Scan, id: int, node: Node)
    requires ScanInv(sc) && VertexStep(filename, sc, id, node).Ok?
    ensures var sc' := VertexStep(filename, sc, id, node).value;
            sc'.nodes == sc.nodes + [node] && sc'.idMap == MapInsert(sc.idMap, id, |sc.nodes|) &&
            sc'.edges == sc.edges && sc'.weights == sc.weights && sc'.arcList == sc.arcList &&
            sc'.edgeToArc == sc.edgeToArc && sc'.arcToEdge == sc.arcToEdge &&
            (HasPattern(node, false) ==> sc.source.None? && sc'.source == Some(|sc.nodes|)) &&
            (!HasPattern(node, false) ==> sc'.source == sc.source) &&
            (HasPattern(node, true) ==> sc.sink.None? && sc'.sink == Some(|sc.nodes|)) &&
            (!HasPattern(node, true) ==> sc'.sink == sc.sink)
  {
  }

  /** The source (sink) slot after a vertex is appended: set to the new
      vertex when it has the pattern and none was found before, kept
      otherwise. */
  lemma DetectedExtend(ns: seq<Node>, n: Node, found: Option<nat>, sink: bool, found': Option<nat>)
    requires Detected(ns, found, sink)
    requires HasPattern(n, sink) ==> found.None? && found' == Some(|ns|)
    requires !HasPattern(n, sink) ==> found' == found
    ensures Detected(ns + [n], found', sink)
  {
    CountPatternAppend(ns, n, sink);
    if found.Some? {
      assert (ns + [n])[found.value] == ns[found.value];
    }
  }

  lemma EdgeAgrees(filename: string, elements: seq<Element>, i: nat, sc: Scan, a: int, b: int)
    requires i < |elements| && elements[i] == EdgeElem(a, b)
    requires ScanInv(sc) && ScanAgrees(elements, i, sc)
    requires EdgeStep(filename, sc, a, b).Ok?
    ensures ScanAgrees(elements, i + 1, EdgeStep(filename, sc, a, b).value)
  {
    var e := Edge(sc.idMap[a], sc.idMap[b]);
    var sc' := EdgeStep(filename, sc, a, b).value;
    assert sc'.nodes == sc.nodes && sc'.idMap == sc.idMap && sc'.source == sc.source && sc'.sink == sc.sink;
    assert sc'.edges == sc.edges + [e] && sc'.weights == sc.weights + [0.0] && sc'.arcList == sc.arcList + [ArcAt(sc.nodes, e)];
    assert sc'.edgeToArc == MapInsert(sc.edgeToArc, e, ArcAt(sc.nodes, e));
    assert sc'.arcToEdge == MapInsert(sc.arcToEdge, ArcAt(sc.nodes, e), e);
    ArcListAppend(sc.nodes, sc.edges, sc.weights, sc.arcList, e);
    EdgesIndexedAppend(sc.nodes, sc.edges, sc.edgeToArc, sc.arcToEdge, e);
    EdgeToArcAppend(sc.nodes, sc.edges, sc.edgeToArc, e);
    ArcToEdgeAppend(sc.nodes, sc.edges, sc.arcToEdge, e);
  }

  // ---------------------------------------------------------------------------
  // When the constructor succeeds

  /** Fewer elements never resolve fewer edges or count more patterns. */
  lemma PrefixConditions(elements: seq<Element>, i: nat)
    requires 0 < i <= |elements|
    ensures EdgesResolved(elements, i) ==> EdgesResolved(elements, i - 1)
    ensures CountPattern(VertexNodes(elements, i - 1), false) <= CountPattern(VertexNodes(elements, i), false)
    ensures CountPattern(VertexNodes(elements, i - 1), true) <= CountPattern(VertexNodes(elements, i), true)
  {
    if elements[i - 1].VertexElem? {
      CountPatternAppend(VertexNodes(elements, i - 1), elements[i - 1].node, false);
      CountPatternAppend(VertexNodes(elements, i - 1), elements[i - 1].node, true);
    }
  }

  /** The loop over the first `i` elements completes exactly when every edge
      record names vertices read before it and at most one vertex has the
      source pattern and at most one the sink pattern. */
  lemma {:induction false} ScanUpToOk(filename: string, elements: seq<Element>, i: nat)
    requires i <= |elements|
    ensures ScanUpTo(filename, elements, i).Ok? <==>
              EdgesResolved(elements, i) &&
              CountPattern(VertexNodes(elements, i), false) <= 1 &&
              CountPattern(VertexNodes(elements, i), true) <= 1
  {
    if i > 0 {
      ScanUpToOk(filename, elements, i - 1);
      PrefixConditions(elements, i);
      var prev := ScanUpTo(filename, elements, i - 1);
      if prev.Ok? {
        ScanUpToAgrees(filename, elements, i - 1);
        StepOk(filename, elements, i - 1, prev.value);
      }
    }
  }

  lemma StepOk(filename: string, elements: seq<Element>, i: nat, sc: Scan)
    requires i < |elements| && ScanInv(sc) && ScanAgrees(elements, i, sc)
    requires EdgesResolved(elements, i)
    requires CountPattern(VertexNodes(elements, i), false) <= 1 && CountPattern(VertexNodes(elements, i), true) <= 1
    ensures ScanStep(filename, sc, elements[i]).Ok? <==>
              EdgesResolved(elements, i + 1) &&
              CountPattern(VertexNodes(elements, i + 1), false) <= 1 &&
              CountPattern(VertexNodes(elements, i + 1), true) <= 1
  {
    match elements[i]
    case VertexElem(id, node) =>
      CountPatternAppend(sc.nodes, node, false);
      CountPatternAppend(sc.nodes, node, true);
      assert VertexNodes(elements, i + 1) == sc.nodes + [node];
      assert EdgesResolved(elements, i + 1);
    case EdgeElem(a, b) =>
      assert VertexNodes(elements, i + 1) == sc.nodes;
      assert EdgesResolved(elements, i + 1) <==> a in sc.idMap && b in sc.idMap;
    case OtherElem =>
      assert VertexNodes(elements, i + 1) == sc.nodes;
      assert EdgesResolved(elements, i + 1);
  }

  /** The constructor succeeds exactly when the file name has a group, every
      edge record names vertices read before it, and exactly one vertex has
      the source pattern and exactly one the sink pattern. */
  lemma LoadSpecOk(filename: string, elements: seq<Element>)
    ensures LoadSpec(filename, elements).Ok? <==>
              Group(filename).Some? && EdgesResolved(elements, |elements|) &&
              CountPattern(VertexNodes(elements, |elements|), false) == 1 &&
              CountPattern(VertexNodes(elements, |elements|), true) == 1
  {
    ScanUpToOk(filename, elements, |elements|);
    ScanUpToAgrees(filename, elements, |elements|);
  }

  /** A network that loads has the group of its file name, the vertex
      records as its vertices, as its source the one vertex with the source
      pattern and as its sink the one with the sink pattern, and every edge
      with weight 0, indexed both ways and listed with its arc. */
  lemma LoadSpecFacts(filename: string, elements: seq<Element>)
    requires LoadSpec(filename, elements).Ok?
    ensures var l := LoadSpec(filename, elements).value;
            Group(filename) == Some(l.group) &&
            ScanAgrees(elements, |elements|, l.scan) &&
            IsSourceNode(l.scan.nodes[l.source]) && IsSinkNode(l.scan.nodes[l.sink]) &&
            (forall v :: 0 <= v < |l.scan.nodes| && IsSourceNode(l.scan.nodes[v]) ==> v == l.source) &&
            (forall v :: 0 <= v < |l.scan.nodes| && IsSinkNode(l.scan.nodes[v]) ==> v == l.sink)
  {
    var l := LoadSpec(filename, elements).value;
    ScanUpToAgrees(filename, elements, |elements|);
    forall v | 0 <= v < |l.scan.nodes| && IsSourceNode(l.scan.nodes[v]) ensures v == l.source {
      CountOneUnique(l.scan.nodes, v, l.source, false);
    }
    forall v | 0 <= v < |l.scan.nodes| && IsSinkNode(l.scan.nodes[v]) ensures v == l.sink {
      CountOneUnique(l.scan.nodes, v, l.sink, true);
    }
  }

  // ---------------------------------------------------------------------------
  // The constructor as written

  /** An edge record with the endpoint check as written: an end whose XML
      id is known but 0 aborts; otherwise the record is read as the
      intended check reads it (an unknown id, which the C++ dereferences at
      `end()`, aborts there as well). */
  function EdgeStepAsWritten(filename: string, sc: Scan, sourceId: int, targetId: int): (r: Outcome<Scan>)
    requires ScanInv(sc)
    ensures r.Ok? ==> r == EdgeStep(filename, sc, sourceId, targetId)
    ensures r.Abort? ==> r.context == filename
    ensures sourceId in sc.idMap && targetId in sc.idMap ==>
              (r.Abort? <==> sourceId == 0 || targetId == 0)
  {
    if EndpointRejected(sc.idMap, sourceId) || EndpointRejected(sc.idMap, targetId) then Abort(filename)
    else if EndpointRejectedAsWritten(sc.idMap, sourceId) || EndpointRejectedAsWritten(sc.idMap, targetId) then
      Abort(filename)
    else EdgeStep(filename, sc, sourceId, targetId)
  }

  function ScanStepAsWritten(filename: string, sc: Scan, el: Element): (r: Outcome<Scan>)
    requires ScanInv(sc)
    ensures r.Ok? ==> r == ScanStep(filename, sc, el)
    ensures r.Abort? ==> r.context == filename
  {
    match el
    case VertexElem(id, node) => VertexStep(filename, sc, id, node)
    case EdgeElem(sourceId, targetId) => EdgeStepAsWritten(filename, sc, sourceId, targetId)
    case OtherElem => Ok(sc)
  }

  function ScanUpToAsWritten(filename: string, elements: seq<Element>, i: nat): (r: Outcome<Scan>)
    requires i <= |elements|
    ensures r.Ok? ==> ScanInv(r.value)
    ensures r.Abort? ==> r.context == filename
  {
    if i == 0 then Ok(EmptyScan)
    else
      match ScanUpToAsWritten(filename, elements, i - 1)
      case Abort(c) => Abort(c)
      case Ok(sc) => ScanStepAsWritten(filename, sc, elements[i - 1])
  }

  /** The constructor with the endpoint check as written. */
  function LoadSpecAsWritten(filename: string, elements: seq<Element>): (r: Outcome<Loaded>)
    ensures r.Ok? ==> ScanInv(r.value.scan) && r.value.source < |r.value.scan.nodes| && r.value.sink < |r.value.scan.nodes|
    ensures r.Abort? ==> r.context == filename
  {
    match Group(filename)
    case None => Abort(filename)
    case Some(group) =>
      match ScanUpToAsWritten(filename, elements, |elements|)
      case Abort(c) => Abort(c)
      case Ok(sc) =>
        if sc.source.None? || sc.sink.None? then Abort(filename)
        else Ok(Loaded(group, sc, sc.source.value, sc.sink.value))
  }

  /** No edge record has an end with XML id 0. */
  predicate NoEdgeAtIdZero(elements: seq<Element>)
  {
    forall k :: 0 <= k < |elements| && elements[k].EdgeElem? ==>
      elements[k].sourceId != 0 && elements[k].targetId != 0
  }

  /** The as-written scan only rejects more: where it completes it builds
      what the intended scan builds, and without an edge at id 0 the two
      are the same. */
  lemma {:induction false} ScanAsWrittenAgrees(filename: string, elements: seq<Element>, i: nat)
    requires i <= |elements|
    ensures ScanUpToAsWritten(filename, elements, i).Ok? ==>
              ScanUpToAsWritten(filename, elements, i) == ScanUpTo(filename, elements, i)
    ensures NoEdgeAtIdZero(elements) ==>
              ScanUpToAsWritten(filename, elements, i) == ScanUpTo(filename, elements, i)
  {
    if i > 0 {
      ScanAsWrittenAgrees(filename, elements, i - 1);
      var prev := ScanUpToAsWritten(filename, elements, i - 1);
      if prev.Ok? && NoEdgeAtIdZero(elements) && elements[i - 1].EdgeElem? {
        assert elements[i - 1].sourceId != 0 && elements[i - 1].targetId != 0;
      }
    }
  }

  /** The constructor as written loads only networks the intended one loads,
      the same networks, and all of them when no edge touches id 0. */
  lemma LoadAsWrittenAgrees(filename: string, elements: seq<Element>)
    ensures LoadSpecAsWritten(filename, elements).Ok? ==>
              LoadSpecAsWritten(filename, elements) == LoadSpec(filename, elements)
    ensures NoEdgeAtIdZero(elements) ==>
              LoadSpecAsWritten(filename, elements) == LoadSpec(filename, elements)
  {
    ScanAsWrittenAgrees(filename, elements, |elements|);
  }

  const IdZeroSource := Node(0, 0, -2, -1, 0, false, 0)
  const IdOneSink := Node(0, 0, 35, -1, 0, false, 0)
  const IdZeroEdgeFile := [VertexElem(0, IdZeroSource), VertexElem(1, IdOneSink), EdgeElem(0, 1)]

  /** The two vertex records of `IdZeroEdgeFile` scan alike both ways. */
  lemma IdZeroEdgeFileVertices(filename: string)
    ensures ScanUpTo(filename, IdZeroEdgeFile, 2) == ScanUpToAsWritten(filename, IdZeroEdgeFile, 2)
    ensures ScanUpTo(filename, IdZeroEdgeFile, 2).Ok?
    ensures var sc := ScanUpTo(filename, IdZeroEdgeFile, 2).value;
            sc.idMap.Keys == {0, 1} && sc.source.Some? && sc.sink.Some?
  {
    var s1 := EmptyScan.(nodes := [IdZeroSource], idMap := map[0 := 0], source := Some(0));
    assert MapInsert(EmptyScan.idMap, 0, 0) == map[0 := 0];
    assert IsSourceNode(IdZeroSource);
    assert EmptyScan.nodes + [IdZeroSource] == [IdZeroSource];
    assert VertexStep(filename, EmptyScan, 0, IdZeroSource) == Ok(s1);
    assert ScanUpTo(filename, IdZeroEdgeFile, 1) == Ok(s1);
    assert ScanUpToAsWritten(filename, IdZeroEdgeFile, 1) == Ok(s1);
    assert ScanStep(filename, s1, IdZeroEdgeFile[1]) == ScanStepAsWritten(filename, s1, IdZeroEdgeFile[1]);
  }

  /** A file with a source vertex of id 0, a sink vertex of id 1 and an edge
      between them: the intended constructor loads it, the one as written
      aborts on the edge. */
  lemma EndpointCheckRejectsIdZero()
    ensures var filename := "" + "/test_graph" + "_" + "26.xml";
            LoadSpec(filename, IdZeroEdgeFile).Ok? && LoadSpecAsWritten(filename, IdZeroEdgeFile).Abort?
  {
    var filename := "" + "/test_graph" + "_" + "26.xml";
    GroupOfTestGraph("");
    IdZeroEdgeFileVertices(filename);
    var sc := ScanUpTo(filename, IdZeroEdgeFile, 2).value;
    assert IdZeroEdgeFile[2] == EdgeElem(0, 1);
    assert EdgeStep(filename, sc, 0, 1).Ok?;
    assert EdgeStepAsWritten(filename, sc, 0, 1).Abort?;
  }
}
