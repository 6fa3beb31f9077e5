/** The graph underneath a `Network`: boost's adjacency list with vertex
    descriptors `0 .. |nodes|-1`, its edges in insertion order with one
    weight each, walks and their costs, and the relaxation in topological
    order that `boost::dag_shortest_paths` performs. */
module Graphs {

  import opened Values

  /** A boost edge: the vertex descriptors of its two ends. */
  datatype Edge = Edge(source: nat, target: nat)

  /** `Edge::operator<`: `std::tie(source, target)` compared as tuples. */
  predicate EdgeLess(a: Edge, b: Edge)
  {
    LexLess([a.source, a.target], [b.source, b.target])
  }

  /** `Edge::operator==`: both ends agree. */
  predicate EdgeEq(a: Edge, b: Edge)
  {
    a.source == b.source && a.target == b.target
  }

  /** Edges are usable as ordered keys: `<` is a strict total order whose
      incomparable pairs are exactly the `==` pairs. */
  lemma EdgeStrictTotalOrder(a: Edge, b: Edge, c: Edge)
    ensures !EdgeLess(a, a)
    ensures EdgeLess(a, b) && EdgeLess(b, c) ==> EdgeLess(a, c)
    ensures EdgeLess(a, b) || EdgeEq(a, b) || EdgeLess(b, a)
    ensures !(EdgeLess(a, b) && EdgeLess(b, a))
    ensures EdgeEq(a, b) <==> a == b
  {
    var ka, kb, kc := [a.source, a.target], [b.source, b.target], [c.source, c.target];
    LexLessIrreflexive(ka);
    if EdgeLess(a, b) && EdgeLess(b, c) {
      LexLessTransitive(ka, kb, kc);
    }
    LexLessTrichotomy(ka, kb);
    if ka == kb {
      assert ka[0] == kb[0] && ka[1] == kb[1];
    }
  }

  /** The graph: the node of each vertex, the edges in insertion order and
      one weight per edge. */
  datatype Dag = Dag(nodes: seq<Node>, edges: seq<Edge>, weights: seq<real>)

  /** Every edge joins two vertices and carries a weight. */
  predicate WellFormed(g: Dag)
  {
    |g.weights| == |g.edges| &&
    forall j :: 0 <= j < |g.edges| ==> g.edges[j].source < |g.nodes| && g.edges[j].target < |g.nodes|
  }

  /** The arc an edge stands for: the nodes of its two ends. */
  function ArcOfEdge(g: Dag, e: Edge): (a: Arc)
    requires e.source < |g.nodes| && e.target < |g.nodes|
    ensures a.source == g.nodes[e.source] && a.target == g.nodes[e.target]
  {
    Arc(g.nodes[e.source], g.nodes[e.target])
  }

  /** `boost::edge(u, v)`: the index of the first edge from `u` to `v`
      (out-edges are kept in insertion order), if there is one. */
  function FirstEdge(edges: seq<Edge>, e: Edge, from: nat): (r: int)
    requires from <= |edges|
    ensures r == -1 || (from <= r < |edges| && edges[r] == e)
    ensures forall k :: from <= k < (if r == -1 then |edges| else r) ==> edges[k] != e
    decreases |edges| - from
  {
    if from == |edges| then -1
    else if edges[from] == e then from
    else FirstEdge(edges, e, from + 1)
  }

  /** `boost::edge` finds an edge that is there. */
  lemma FirstEdgeFound(edges: seq<Edge>, e: Edge)
    requires e in edges
    ensures FirstEdge(edges, e, 0) != -1
  {
    var j :| 0 <= j < |edges| && edges[j] == e;
  }

  // ---------------------------------------------------------------------------
  // Walks

  /** `es` lists edge indices that form a walk from `from` to `to`: each
      edge starts where the one before it ends. */
  ghost predicate IsWalk(edges: seq<Edge>, es: seq<nat>, from: nat, to: nat)
    decreases |es|
  {
    if es == [] then from == to
    else
      var e := es[|es| - 1];
      e < |edges| && edges[e].target == to && IsWalk(edges, es[..|es| - 1], from, edges[e].source)
  }

  /** The weight of edge `e` (0 for an index out of range). */
  function WeightOf(weights: seq<real>, e: nat): (r: real)
  {
    if e < |weights| then weights[e] else 0.0
  }

  /** The total weight of the edges of a walk. */
  ghost function Cost(weights: seq<real>, es: seq<nat>): (r: real)
    decreases |es|
  {
    if es == [] then 0.0 else Cost(weights, es[..|es| - 1]) + WeightOf(weights, es[|es| - 1])
  }

  /** Every index of a walk is an edge of the graph. */
  lemma {:induction false} WalkEdges(edges: seq<Edge>, es: seq<nat>, from: nat, to: nat)
    requires IsWalk(edges, es, from, to)
    ensures forall k :: 0 <= k < |es| ==> es[k] < |edges|
    decreases |es|
  {
    if es != [] {
      var p := es[..|es| - 1];
      WalkEdges(edges, p, from, edges[es[|es| - 1]].source);
      assert forall k :: 0 <= k < |p| ==> es[k] == p[k];
    }
  }

  /** An edge from `u` to `v` in front of a walk from `v` is a walk from `u`. */
  lemma {:induction false} WalkPrepend(edges: seq<Edge>, e: nat, es: seq<nat>, u: nat, v: nat, to: nat)
    requires e < |edges| && edges[e] == Edge(u, v)
    requires IsWalk(edges, es, v, to)
    ensures IsWalk(edges, [e] + es, u, to)
    decreases |es|
  {
    if es == [] {
      assert ([e] + es)[..0] == [];
    } else {
      var last := es[|es| - 1];
      var p := es[..|es| - 1];
      WalkPrepend(edges, e, p, u, v, edges[last].source);
      assert ([e] + es)[..|es|] == [e] + p;
    }
  }

  /** The cost of a walk grows by the weight of an edge put in front. */
  lemma {:induction false} CostPrepend(weights: seq<real>, e: nat, es: seq<nat>)
    ensures Cost(weights, [e] + es) == WeightOf(weights, e) + Cost(weights, es)
    decreases |es|
  {
    if es == [] {
      assert ([e] + es)[..0] == [];
    } else {
      var p := es[..|es| - 1];
      CostPrepend(weights, e, p);
      assert ([e] + es)[..|es|] == [e] + p;
    }
  }

  /** The arcs of a walk, from its last edge back to its first: the order in
      which `Network::shortest_path` lists them. */
  ghost function WalkArcs(g: Dag, es: seq<nat>): (r: seq<Arc>)
    requires WellFormed(g)
    requires forall k :: 0 <= k < |es| ==> es[k] < |g.edges|
    decreases |es|
  {
    if es == [] then []
    else [ArcOfEdge(g, g.edges[es[|es| - 1]])] + WalkArcs(g, es[..|es| - 1])
  }

  /** An edge put in front of a walk puts its arc at the end of the list. */
  lemma {:induction false} WalkArcsPrepend(g: Dag, e: nat, es: seq<nat>)
    requires WellFormed(g) && e < |g.edges|
    requires forall k :: 0 <= k < |es| ==> es[k] < |g.edges|
    ensures WalkArcs(g, [e] + es) == WalkArcs(g, es) + [ArcOfEdge(g, g.edges[e])]
    decreases |es|
  {
    if es == [] {
      assert ([e] + es)[..0] == [];
    } else {
      var p := es[..|es| - 1];
      WalkArcsPrepend(g, e, p);
      assert ([e] + es)[..|es|] == [e] + p;
    }
  }

  // ---------------------------------------------------------------------------
  // Distances

  /** A tentative distance; `Inf` stands for the `INT_MAX` start value the
      call passes as infinity, taken here as a true infinity (a reached
      distance is assumed to stay below `INT_MAX`). */
  datatype Dist = Inf | Fin(val: real)

  /** `boost::closed_plus` with the start value as its infinity: an
      unreached distance stays unreached. */
  function Combine(d: Dist, w: real): (r: Dist)
    ensures r.Fin? <==> d.Fin?
    ensures r.Fin? ==> r.val == d.val + w
  {
    if d.Inf? then Inf else Fin(d.val + w)
  }

  /** `std::less` on distances, infinity above every finite value. */
  predicate Shorter(a: Dist, b: Dist)
  {
    a.Fin? && (b.Inf? || a.val < b.val)
  }

  /** `a` is at most `b`. */
  predicate NoLonger(a: Dist, b: Dist)
  {
    b.Inf? || (a.Fin? && a.val <= b.val)
  }

  lemma NoLongerTransitive(a: Dist, b: Dist, c: Dist)
    requires NoLonger(a, b) && NoLonger(b, c)
    ensures NoLonger(a, c)
  {
  }

  // ---------------------------------------------------------------------------
  // Topological order

  /** The position of `v` in `order`, or `|order|` when it is absent. */
  function Rank(order: seq<nat>, v: nat): (r: nat)
    ensures r <= |order|
    ensures r < |order| ==> order[r] == v
  {
    RankFrom(order, v, 0)
  }

  function RankFrom(order: seq<nat>, v: nat, from: nat): (r: nat)
    requires from <= |order|
    ensures from <= r <= |order|
    ensures r < |order| ==> order[r] == v
    decreases |order| - from
  {
    if from == |order| then from
    else if order[from] == v then from
    else RankFrom(order, v, from + 1)
  }

  /** `order` lists each of the `n` vertices once, and every edge goes
      forward in it: the order `dag_shortest_paths` relaxes in. */
  ghost predicate TopoOrder(order: seq<nat>, n: nat, edges: seq<Edge>)
  {
    |order| == n &&
    (forall k :: 0 <= k < n ==> order[k] < n && Rank(order, order[k]) == k) &&
    (forall v :: 0 <= v < n ==> Rank(order, v) < n) &&
    (forall j :: 0 <= j < |edges| ==> Rank(order, edges[j].source) < Rank(order, edges[j].target))
  }

  /** Every edge whose start comes before position `i` of the order has been
      relaxed: its end is no farther than its start plus its weight. */
  ghost predicate Relaxed(g: Dag, order: seq<nat>, d: seq<Dist>, i: nat)
    requires WellFormed(g) && |d| == |g.nodes|
  {
    forall j :: 0 <= j < |g.edges| && Rank(order, g.edges[j].source) < i ==>
      NoLonger(d[g.edges[j].target], Combine(d[g.edges[j].source], g.weights[j]))
  }

  /** The predecessor tree: every finite distance but the source's was set
      through an edge `via[v]` from `pred[v]`, which comes earlier in the
      order and whose own distance is finite, and the distance is that
      predecessor's plus the edge's weight. */
  ghost predicate Tree(g: Dag, s: nat, order: seq<nat>, d: seq<Dist>, pred: seq<nat>, via: seq<nat>)
    requires WellFormed(g) && |d| == |g.nodes| && |pred| == |g.nodes| && |via| == |g.nodes|
  {
    forall v :: 0 <= v < |g.nodes| && v != s && d[v].Fin? ==>
      via[v] < |g.edges| && g.edges[via[v]] == Edge(pred[v], v) &&
      pred[v] < |g.nodes| && d[pred[v]].Fin? && d[v].val == d[pred[v]].val + g.weights[via[v]] &&
      Rank(order, pred[v]) < Rank(order, v)
  }

  /** Only vertices at or after the source in the order have a finite
      distance, and the source's is 0. */
  ghost predicate Rooted(g: Dag, s: nat, order: seq<nat>, d: seq<Dist>)
    requires |d| == |g.nodes| && s < |g.nodes|
  {
    d[s] == Fin(0.0) &&
    forall v :: 0 <= v < |g.nodes| && d[v].Fin? ==> Rank(order, s) <= Rank(order, v)
  }

  /** When every edge is relaxed, no walk from the source is shorter than
      the distance at its end. */
  lemma {:induction false} WalkBound(g: Dag, s: nat, order: seq<nat>, d: seq<Dist>, es: seq<nat>, v: nat)
    requires WellFormed(g) && |d| == |g.nodes| && s < |g.nodes| && v < |g.nodes|
    requires Relaxed(g, order, d, |g.nodes|) && TopoOrder(order, |g.nodes|, g.edges)
    requires d[s] == Fin(0.0)
    requires IsWalk(g.edges, es, s, v)
    ensures NoLonger(d[v], Fin(Cost(g.weights, es)))
    decreases |es|
  {
    if es != [] {
      var e := es[|es| - 1];
      var u := g.edges[e].source;
      WalkBound(g, s, order, d, es[..|es| - 1], u);
    }
  }

  /** Lowering the distance of the end `v` of edge `j` to the start's
      distance plus the weight keeps the finite distances at or after the
      source. */
  lemma RelaxRooted(g: Dag, s: nat, order: seq<nat>, j: nat, d: seq<Dist>)
    requires WellFormed(g) && TopoOrder(order, |g.nodes|, g.edges) && s < |g.nodes|
    requires j < |g.edges| && |d| == |g.nodes| && Rooted(g, s, order, d)
    requires Shorter(Combine(d[g.edges[j].source], g.weights[j]), d[g.edges[j].target])
    ensures Rooted(g, s, order, d[g.edges[j].target := Combine(d[g.edges[j].source], g.weights[j])])
  {
    var u, v := g.edges[j].source, g.edges[j].target;
    assert Rank(order, s) <= Rank(order, u) < Rank(order, v);
  }

  /** ... and keeps the predecessor tree, with `u` recorded for `v`. */
  lemma RelaxTree(g: Dag, s: nat, order: seq<nat>, i: nat, j: nat, d: seq<Dist>, pred: seq<nat>, via: seq<nat>)
    requires WellFormed(g) && i < |order| && j < |g.edges| && g.edges[j].source == order[i]
    requires Rank(order, order[i]) == i < Rank(order, g.edges[j].target)
    requires |d| == |g.nodes| && |pred| == |g.nodes| && |via| == |g.nodes|
    requires Tree(g, s, order, d, pred, via)
    requires forall x :: 0 <= x < |g.nodes| && d[x].Fin? && x != s ==> Rank(order, pred[x]) <= i
    requires Shorter(Combine(d[order[i]], g.weights[j]), d[g.edges[j].target])
    ensures var v := g.edges[j].target;
            Tree(g, s, order, d[v := Combine(d[order[i]], g.weights[j])], pred[v := order[i]], via[v := j])
  {
  }

  /** One relaxation of edge `j` out of `u`: `boost::relax` lowers the
      distance of its end, and records `u` as predecessor, when going through
      `u` is strictly shorter. */
  method Relax(g: Dag, s: nat, order: seq<nat>, i: nat, j: nat,
               d: seq<Dist>, pred: seq<nat>, ghost via: seq<nat>)
    returns (d': seq<Dist>, pred': seq<nat>, ghost via': seq<nat>)
    requires WellFormed(g) && TopoOrder(order, |g.nodes|, g.edges) && s < |g.nodes|
    requires i < |g.nodes| && j < |g.edges| && g.edges[j].source == order[i]
    requires |d| == |g.nodes| && |pred| == |g.nodes| && |via| == |g.nodes|
    requires Rooted(g, s, order, d) && Tree(g, s, order, d, pred, via)
    requires forall v :: 0 <= v < |g.nodes| && d[v].Fin? && v != s ==> Rank(order, pred[v]) <= i
    ensures |d'| == |g.nodes| && |pred'| == |g.nodes| && |via'| == |g.nodes|
    ensures Rooted(g, s, order, d') && Tree(g, s, order, d', pred', via')
    ensures forall v :: 0 <= v < |g.nodes| && v != g.edges[j].target ==> d'[v] == d[v]
    ensures Monotone(d', d) && Settled(order, d', d, i)
    ensures forall v :: 0 <= v < |g.nodes| && d'[v].Fin? && v != s ==> Rank(order, pred'[v]) <= i
    ensures NoLonger(d'[g.edges[j].target], Combine(d'[order[i]], g.weights[j]))
  {
    var u := order[i];
    var v := g.edges[j].target;
    assert Rank(order, u) == i < Rank(order, v);
    var cand := Combine(d[u], g.weights[j]);
    if Shorter(cand, d[v]) {
      RelaxRooted(g, s, order, j, d);
      assert Rank(order, u) == i < Rank(order, v);
      RelaxTree(g, s, order, i, j, d, pred, via);
      d' := d[v := cand];
      pred' := pred[v := u];
      via' := via[v := j];
    } else {
      d', pred', via' := d, pred, via;
    }
  }

  /** No distance in `after` is longer than in `before`. */
  ghost predicate Monotone(after: seq<Dist>, before: seq<Dist>)
    requires |after| == |before|
  {
    forall v :: 0 <= v < |before| ==> NoLonger(after[v], before[v])
  }

  /** The distances at positions up to `i` of the order are unchanged. */
  ghost predicate Settled(order: seq<nat>, after: seq<Dist>, before: seq<Dist>, i: nat)
    requires |after| == |before|
  {
    forall v :: 0 <= v < |before| && Rank(order, v) <= i ==> after[v] == before[v]
  }

  /** The out-edges of `u` among the first `j` edges are relaxed. */
  ghost predicate RelaxedFrom(g: Dag, d: seq<Dist>, u: nat, j: nat)
    requires WellFormed(g) && |d| == |g.nodes| && u < |g.nodes| && j <= |g.edges|
  {
    forall k :: 0 <= k < j && g.edges[k].source == u ==>
      NoLonger(d[g.edges[k].target], Combine(d[u], g.weights[k]))
  }

  /** Lowering distances away from `u` keeps its relaxed out-edges relaxed,
      and edge `j` joins them once relaxed itself. */
  lemma RelaxedFromStep(g: Dag, u: nat, j: nat, before: seq<Dist>, after: seq<Dist>)
    requires WellFormed(g) && |before| == |g.nodes| && |after| == |g.nodes| && u < |g.nodes| && j < |g.edges|
    requires RelaxedFrom(g, before, u, j) && Monotone(after, before) && after[u] == before[u]
    requires g.edges[j].source == u ==> NoLonger(after[g.edges[j].target], Combine(after[u], g.weights[j]))
    ensures RelaxedFrom(g, after, u, j + 1)
  {
    forall k | 0 <= k < j + 1 && g.edges[k].source == u
      ensures NoLonger(after[g.edges[k].target], Combine(after[u], g.weights[k]))
    {
      if k < j {
        var t := g.edges[k].target;
        NoLongerTransitive(after[t], before[t], Combine(before[u], g.weights[k]));
      }
    }
  }

  /** Lowering distances only after position `i` keeps the earlier edges
      relaxed. */
  lemma RelaxedStep(g: Dag, order: seq<nat>, i: nat, before: seq<Dist>, after: seq<Dist>)
    requires WellFormed(g) && |before| == |g.nodes| && |after| == |g.nodes|
    requires Relaxed(g, order, before, i) && Monotone(after, before) && Settled(order, after, before, i)
    ensures Relaxed(g, order, after, i)
  {
    forall k | 0 <= k < |g.edges| && Rank(order, g.edges[k].source) < i
      ensures NoLonger(after[g.edges[k].target], Combine(after[g.edges[k].source], g.weights[k]))
    {
      var t := g.edges[k].target;
      assert after[g.edges[k].source] == before[g.edges[k].source];
      NoLongerTransitive(after[t], before[t], Combine(before[g.edges[k].source], g.weights[k]));
    }
  }

  /** All out-edges of `order[i]` relaxed, in edge order. */
  method RelaxOutEdges(g: Dag, s: nat, order: seq<nat>, i: nat,
                       d: seq<Dist>, pred: seq<nat>, ghost via: seq<nat>)
    returns (d': seq<Dist>, pred': seq<nat>, ghost via': seq<nat>)
    requires WellFormed(g) && TopoOrder(order, |g.nodes|, g.edges) && s < |g.nodes| && i < |g.nodes|
    requires |d| == |g.nodes| && |pred| == |g.nodes| && |via| == |g.nodes|
    requires Rooted(g, s, order, d) && Tree(g, s, order, d, pred, via) && Relaxed(g, order, d, i)
    requires forall v :: 0 <= v < |g.nodes| && d[v].Fin? && v != s ==> Rank(order, pred[v]) < i
    ensures |d'| == |g.nodes| && |pred'| == |g.nodes| && |via'| == |g.nodes|
    ensures Rooted(g, s, order, d') && Tree(g, s, order, d', pred', via') && Relaxed(g, order, d', i + 1)
    ensures forall v :: 0 <= v < |g.nodes| && d'[v].Fin? && v != s ==> Rank(order, pred'[v]) < i + 1
  {
    var u := order[i];
    assert Rank(order, u) == i;
    d', pred', via' := d, pred, via;
    var j := 0;
    while j < |g.edges|
      invariant 0 <= j <= |g.edges|
      invariant |d'| == |g.nodes| && |pred'| == |g.nodes| && |via'| == |g.nodes|
      invariant Rooted(g, s, order, d') && Tree(g, s, order, d', pred', via')
      invariant forall v :: 0 <= v < |g.nodes| && d'[v].Fin? && v != s ==> Rank(order, pred'[v]) <= i
      invariant Relaxed(g, order, d', i) && RelaxedFrom(g, d', u, j)
    {
      ghost var before := d';
      if g.edges[j].source == u {
        d', pred', via' := Relax(g, s, order, i, j, d', pred', via');
        RelaxedStep(g, order, i, before, d');
      }
      RelaxedFromStep(g, u, j, before, d');
      j := j + 1;
    }
    assert Relaxed(g, order, d', i + 1) by {
      forall k | 0 <= k < |g.edges| && Rank(order, g.edges[k].source) < i + 1
        ensures NoLonger(d'[g.edges[k].target], Combine(d'[g.edges[k].source], g.weights[k]))
      {
        if Rank(order, g.edges[k].source) == i {
          assert g.edges[k].source == u;
        }
      }
    }
  }

  /** `boost::dag_shortest_paths` from `s`: every distance starts infinite
      (the source's at 0) and every predecessor at the vertex itself; then
      the out-edges of each vertex are relaxed in topological order. The
      result is optimal over every walk from the source, and every finite
      distance is realised by the predecessor tree. */
  method DagShortestPaths(g: Dag, s: nat, order: seq<nat>)
    returns (d: seq<Dist>, pred: seq<nat>, ghost via: seq<nat>)
    requires WellFormed(g) && TopoOrder(order, |g.nodes|, g.edges) && s < |g.nodes|
    ensures |d| == |g.nodes| && |pred| == |g.nodes| && |via| == |g.nodes|
    ensures d[s] == Fin(0.0)
    ensures forall v, es :: 0 <= v < |g.nodes| && IsWalk(g.edges, es, s, v) ==>
              NoLonger(d[v], Fin(Cost(g.weights, es)))
    ensures Tree(g, s, order, d, pred, via)
  {
    var n := |g.nodes|;
    d := seq(n, v => if v == s then Fin(0.0) else Inf);
    pred := seq(n, v => v);
    via := seq(n, v => 0);
    var i := 0;
    while i < n
      invariant 0 <= i <= n
      invariant |d| == n && |pred| == n && |via| == n
      invariant Rooted(g, s, order, d) && Tree(g, s, order, d, pred, via) && Relaxed(g, order, d, i)
      invariant forall v :: 0 <= v < n && d[v].Fin? && v != s ==> Rank(order, pred[v]) < i
    {
      d, pred, via := RelaxOutEdges(g, s, order, i, d, pred, via);
      i := i + 1;
    }
    forall v, es | 0 <= v < n && IsWalk(g.edges, es, s, v)
      ensures NoLonger(d[v], Fin(Cost(g.weights, es)))
    {
      WalkBound(g, s, order, d, es, v);
    }
  }
}
