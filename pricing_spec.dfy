/** What one pricing round computes, as functions: the weight each
    constraint's price puts on its arcs, and the columns a generated path
    adds to the master problem. */
module PricingSpec {

  import opened Outcomes
  import opened Text
  import opened Values
  import opened Graphs
  import opened Scans
  import opened Networks
  import opened Registry

  // ---------------------------------------------------------------------------
  // Arc weights from the prices

  /** An amount to be added to an arc's weight. */
  type Contribution = (Arc, real)

  /** What `set_arc_weights` adds to an arc for one entry: the entry's
      coefficient times its constraint's price. */
  function Amount(coef: real, price: real): (r: real)
  {
    coef * price
  }

  /** The (arc, coefficient · price) pairs of one constraint's arcs. */
  function Scaled(arcs: seq<(Arc, real)>, price: real): (r: seq<Contribution>)
    ensures |r| == |arcs|
  {
    if arcs == [] then []
    else Scaled(arcs[..|arcs| - 1], price) + [(arcs[|arcs| - 1].0, Amount(arcs[|arcs| - 1].1, price))]
  }

  /** Entry `k` of a constraint becomes contribution `k`: the same arc, with
      the entry's coefficient times the price. */
  lemma {:induction false} ScaledAt(arcs: seq<(Arc, real)>, price: real, k: nat)
    requires k < |arcs|
    ensures Scaled(arcs, price)[k] == (arcs[k].0, Amount(arcs[k].1, price))
  {
    var init := arcs[..|arcs| - 1];
    if k < |init| {
      ScaledAt(init, price, k);
    }
  }

  /** The contributions of the constraints, in order; a constraint whose
      price is zero contributes nothing. */
  function Contributions(cs: seq<Constraint>, price: ConsId -> real): (r: seq<Contribution>)
  {
    if cs == [] then [] else Contributions(cs[..|cs| - 1], price) + ContributionsOf(cs[|cs| - 1], price)
  }

  /** The contributions of one constraint. */
  function ContributionsOf(c: Constraint, price: ConsId -> real): (r: seq<Contribution>)
  {
    if price(c.handle) == 0.0 then [] else Scaled(c.arcs, price(c.handle))
  }

  /** The total the contributions add to `arc`. */
  function SumFor(cs: seq<Contribution>, arc: Arc): (r: real)
  {
    if cs == [] then 0.0
    else SumFor(cs[..|cs| - 1], arc) + (if cs[|cs| - 1].0 == arc then cs[|cs| - 1].1 else 0.0)
  }

  /** The total one constraint's arcs add to `arc`: the coefficient of each
      of its entries for `arc` times its price. */
  function ConstraintShare(arcs: seq<(Arc, real)>, price: real, arc: Arc): (r: real)
  {
    if arcs == [] then 0.0
    else ConstraintShare(arcs[..|arcs| - 1], price, arc) +
         (if arcs[|arcs| - 1].0 == arc then Amount(arcs[|arcs| - 1].1, price) else 0.0)
  }

  /** The total all constraints with a nonzero price add to `arc`. */
  function PriceSum(cs: seq<Constraint>, price: ConsId -> real, arc: Arc): (r: real)
  {
    if cs == [] then 0.0
    else
      var c := cs[|cs| - 1];
      PriceSum(cs[..|cs| - 1], price, arc) + (if price(c.handle) == 0.0 then 0.0 else ConstraintShare(c.arcs, price(c.handle), arc))
  }

  lemma {:induction false} SumForAppend(xs: seq<Contribution>, ys: seq<Contribution>, arc: Arc)
    ensures SumFor(xs + ys, arc) == SumFor(xs, arc) + SumFor(ys, arc)
    decreases |ys|
  {
    if ys == [] {
      assert xs + ys == xs;
    } else {
      var ys' := ys[..|ys| - 1];
      assert (xs + ys)[..|xs + ys| - 1] == xs + ys';
      SumForAppend(xs, ys', arc);
    }
  }

  lemma {:induction false} SumForScaled(arcs: seq<(Arc, real)>, price: real, arc: Arc)
    ensures SumFor(Scaled(arcs, price), arc) == ConstraintShare(arcs, price, arc)
  {
    if arcs != [] {
      var init := arcs[..|arcs| - 1];
      SumForScaled(init, price, arc);
      var last := arcs[|arcs| - 1];
      SumForAppend(Scaled(init, price), [(last.0, Amount(last.1, price))], arc);
      assert SumFor([(last.0, Amount(last.1, price))], arc) == (if last.0 == arc then Amount(last.1, price) else 0.0) by {
        assert [(last.0, Amount(last.1, price))][..0] == [];
      }
    }
  }

  /** The weight the contributions put on an arc is, as the doc comment of
      `set_arc_weights` says, the sum over the constraints with a nonzero
      price of coefficient times price, one term per entry of the arc. */
  lemma {:induction false} ContributionsSum(cs: seq<Constraint>, price: ConsId -> real, arc: Arc)
    ensures SumFor(Contributions(cs, price), arc) == PriceSum(cs, price, arc)
  {
    if cs != [] {
      var c := cs[|cs| - 1];
      ContributionsSum(cs[..|cs| - 1], price, arc);
      SumForAppend(Contributions(cs[..|cs| - 1], price), ContributionsOf(c, price), arc);
      if price(c.handle) != 0.0 {
        SumForScaled(c.arcs, price(c.handle), arc);
      }
    }
  }

  /** The contributions whose arc belongs to group `g` by its source
      `netzwerk`. */
  function ForGroup(cs: seq<Contribution>, arcNetwork: map<int, int>, g: int): (r: seq<Contribution>)
    ensures forall c :: c in r ==> c in cs
  {
    if cs == [] then []
    else
      var c := cs[|cs| - 1];
      ForGroup(cs[..|cs| - 1], arcNetwork, g) +
      (if c.0.source.netzwerk as int in arcNetwork && arcNetwork[c.0.source.netzwerk as int] == g then [c] else [])
  }

  lemma {:induction false} ForGroupAppend(xs: seq<Contribution>, ys: seq<Contribution>, arcNetwork: map<int, int>, g: int)
    ensures ForGroup(xs + ys, arcNetwork, g) == ForGroup(xs, arcNetwork, g) + ForGroup(ys, arcNetwork, g)
    decreases |ys|
  {
    if ys == [] {
      assert xs + ys == xs;
    } else {
      var ys' := ys[..|ys| - 1];
      assert (xs + ys)[..|xs + ys| - 1] == xs + ys';
      ForGroupAppend(xs, ys', arcNetwork, g);
    }
  }

  /** An arc of group `g` loses none of its contributions to the filter. */
  lemma {:induction false} ForGroupKeepsArc(cs: seq<Contribution>, arcNetwork: map<int, int>, g: int, arc: Arc)
    requires arc.source.netzwerk as int in arcNetwork && arcNetwork[arc.source.netzwerk as int] == g
    ensures SumFor(ForGroup(cs, arcNetwork, g), arc) == SumFor(cs, arc)
  {
    if cs != [] {
      var c := cs[|cs| - 1];
      ForGroupKeepsArc(cs[..|cs| - 1], arcNetwork, g, arc);
      var kept := if c.0.source.netzwerk as int in arcNetwork && arcNetwork[c.0.source.netzwerk as int] == g then [c] else [];
      SumForAppend(ForGroup(cs[..|cs| - 1], arcNetwork, g), kept, arc);
      assert [c][..0] == [];
    }
  }

  /** The weights after `add_to_edge_weight` of each contribution in turn.
      A contribution for an arc the network does not know leaves them alone
      here; the pricer aborts before it gets that far. */
  function ApplyAll(nodes: seq<Node>, edges: seq<Edge>, arcToEdge: map<Arc, Edge>, w: seq<real>, cs: seq<Contribution>)
    : (r: seq<real>)
    requires ArcToEdgeSound(nodes, edges, arcToEdge) && |w| == |edges|
    ensures |r| == |w|
  {
    if cs == [] then w
    else
      var r := ApplyAll(nodes, edges, arcToEdge, w, cs[..|cs| - 1]);
      var c := cs[|cs| - 1];
      if c.0 in arcToEdge then
        var j := ArcEdgeIndex(nodes, edges, arcToEdge, c.0);
        AddAt(r, j, c.1)
      else r
  }

  /** An edge that stands for no indexed arc (a parallel edge, or a second
      edge of an arc) keeps its weight. */
  lemma {:induction false} ApplyAllUntouched(nodes: seq<Node>, edges: seq<Edge>, arcToEdge: map<Arc, Edge>,
                                             w: seq<real>, cs: seq<Contribution>, j: nat)
    requires ArcToEdgeSound(nodes, edges, arcToEdge) && |w| == |edges| && j < |w|
    requires forall a :: a in arcToEdge ==> ArcEdgeIndex(nodes, edges, arcToEdge, a) != j
    ensures ApplyAll(nodes, edges, arcToEdge, w, cs)[j] == w[j]
    decreases |cs|
  {
    if cs != [] {
      ApplyAllUntouched(nodes, edges, arcToEdge, w, cs[..|cs| - 1], j);
    }
  }

  lemma {:induction false} ApplyAllAppend(nodes: seq<Node>, edges: seq<Edge>, arcToEdge: map<Arc, Edge>, w: seq<real>,
                                          xs: seq<Contribution>, ys: seq<Contribution>)
    requires ArcToEdgeSound(nodes, edges, arcToEdge) && |w| == |edges|
    ensures ApplyAll(nodes, edges, arcToEdge, w, xs + ys) ==
            ApplyAll(nodes, edges, arcToEdge, ApplyAll(nodes, edges, arcToEdge, w, xs), ys)
    decreases |ys|
  {
    if ys == [] {
      assert xs + ys == xs;
    } else {
      var ys' := ys[..|ys| - 1];
      assert (xs + ys)[..|xs + ys| - 1] == xs + ys';
      assert (xs + ys)[|xs + ys| - 1] == ys[|ys| - 1];
      ApplyAllAppend(nodes, edges, arcToEdge, w, xs, ys');
    }
  }

  /** From all-zero weights, the weight of a known arc's edge is the total
      the contributions add to that arc: distinct arcs sit on distinct
      edges. */
  lemma {:induction false} ApplyAllFromZero(nodes: seq<Node>, edges: seq<Edge>, arcToEdge: map<Arc, Edge>, w: seq<real>,
                                            cs: seq<Contribution>, arc: Arc)
    requires ArcToEdgeSound(nodes, edges, arcToEdge) && |w| == |edges|
    requires forall k :: 0 <= k < |w| ==> w[k] == 0.0
    requires arc in arcToEdge
    ensures ApplyAll(nodes, edges, arcToEdge, w, cs)[ArcEdgeIndex(nodes, edges, arcToEdge, arc)] == SumFor(cs, arc)
  {
    if cs != [] {
      var init := cs[..|cs| - 1];
      ApplyAllFromZero(nodes, edges, arcToEdge, w, init, arc);
      var last := cs[|cs| - 1].0;
      if last != arc && last in arcToEdge {
        DistinctArcsDistinctEdges(nodes, edges, arcToEdge, last, arc);
      }
    }
  }

  /** An arc of another group gets nothing from group `g`'s contributions. */
  lemma {:induction false} ForGroupDropsArc(cs: seq<Contribution>, arcNetwork: map<int, int>, g: int, arc: Arc)
    requires !(arc.source.netzwerk as int in arcNetwork && arcNetwork[arc.source.netzwerk as int] == g)
    ensures SumFor(ForGroup(cs, arcNetwork, g), arc) == 0.0
  {
    if cs != [] {
      var c := cs[|cs| - 1];
      ForGroupDropsArc(cs[..|cs| - 1], arcNetwork, g, arc);
      var kept := if c.0.source.netzwerk as int in arcNetwork && arcNetwork[c.0.source.netzwerk as int] == g then [c] else [];
      SumForAppend(ForGroup(cs[..|cs| - 1], arcNetwork, g), kept, arc);
      assert [c][..0] == [];
    }
  }

  lemma ContributionsSnoc(cs: seq<Constraint>, c: Constraint, price: ConsId -> real)
    ensures Contributions(cs + [c], price) == Contributions(cs, price) + ContributionsOf(c, price)
  {
    var t := cs + [c];
    assert t[..|t| - 1] == cs && t[|t| - 1] == c;
  }

  lemma {:induction false} ContributionsAppend(xs: seq<Constraint>, ys: seq<Constraint>, price: ConsId -> real)
    ensures Contributions(xs + ys, price) == Contributions(xs, price) + Contributions(ys, price)
    decreases |ys|
  {
    if ys == [] {
      assert xs + ys == xs;
    } else {
      var ys', y := ys[..|ys| - 1], ys[|ys| - 1];
      assert ys == ys' + [y];
      ContributionsAppend(xs, ys', price);
      ContributionsAppendStep(xs, ys', y, price);
    }
  }

  /** The induction step of `ContributionsAppend`. */
  lemma ContributionsAppendStep(xs: seq<Constraint>, ys: seq<Constraint>, y: Constraint, price: ConsId -> real)
    requires Contributions(xs + ys, price) == Contributions(xs, price) + Contributions(ys, price)
    ensures Contributions(xs + (ys + [y]), price) == Contributions(xs, price) + Contributions(ys + [y], price)
  {
    assert xs + (ys + [y]) == (xs + ys) + [y];
    ContributionsSnoc(xs + ys, y, price);
    ContributionsSnoc(ys, y, price);
    AppendAssoc(Contributions(xs, price), Contributions(ys, price), ContributionsOf(y, price));
  }

  lemma TakeSnoc<T>(s: seq<T>, i: nat)
    requires i < |s|
    ensures s[..i + 1] == s[..i] + [s[i]]
  {
  }

  lemma AppendAssoc<T>(a: seq<T>, b: seq<T>, d: seq<T>)
    ensures (a + b) + d == a + (b + d)
  {
  }

  // ---------------------------------------------------------------------------
  // Where each contribution goes

  /** `get_network(arc)` finds a network for the arc and that network knows
      the arc, so `add_to_edge_weight` does not abort. */
  predicate Resolvable(networks: map<int, Network>, arcNetwork: map<int, int>, arc: Arc)
  {
    arc.source.netzwerk in arcNetwork && arcNetwork[arc.source.netzwerk] in networks &&
    arc in networks[arcNetwork[arc.source.netzwerk]].arcToEdge
  }

  predicate Resolved(networks: map<int, Network>, arcNetwork: map<int, int>, cs: seq<Contribution>)
  {
    forall k :: 0 <= k < |cs| ==> Resolvable(networks, arcNetwork, cs[k].0)
  }

  lemma ResolvedAppend(networks: map<int, Network>, arcNetwork: map<int, int>, xs: seq<Contribution>, ys: seq<Contribution>)
    ensures Resolved(networks, arcNetwork, xs + ys) <==>
            Resolved(networks, arcNetwork, xs) && Resolved(networks, arcNetwork, ys)
  {
    if Resolved(networks, arcNetwork, xs) && Resolved(networks, arcNetwork, ys) {
      forall k | 0 <= k < |xs + ys|
        ensures Resolvable(networks, arcNetwork, (xs + ys)[k].0)
      {
        if k < |xs| {
          assert (xs + ys)[k] == xs[k];
        } else {
          assert (xs + ys)[k] == ys[k - |xs|];
        }
      }
    }
    if Resolved(networks, arcNetwork, xs + ys) {
      forall k | 0 <= k < |ys|
        ensures Resolvable(networks, arcNetwork, ys[k].0)
      {
        assert (xs + ys)[|xs| + k] == ys[k];
      }
      forall k | 0 <= k < |xs|
        ensures Resolvable(networks, arcNetwork, xs[k].0)
      {
        assert (xs + ys)[k] == xs[k];
      }
    }
  }

  /** The abort message of the first contribution that cannot be applied:
      the arc when its `netzwerk` has no group, the group when that group
      has no network, and the arc when the network does not know it. */
  function FailureContext(networks: map<int, Network>, arcNetwork: map<int, int>, arc: Arc): (r: string)
  {
    if arc.source.netzwerk !in arcNetwork then ArcToString(arc)
    else if arcNetwork[arc.source.netzwerk] !in networks then IntToString(arcNetwork[arc.source.netzwerk])
    else ArcToString(arc)
  }

  /** Contribution `k` is the first one that cannot be applied. */
  predicate FirstUnresolved(networks: map<int, Network>, arcNetwork: map<int, int>, cs: seq<Contribution>, k: int)
  {
    0 <= k < |cs| && Resolved(networks, arcNetwork, cs[..k]) && !Resolvable(networks, arcNetwork, cs[k].0)
  }

  /** A first failure inside `ys`, after contributions that all resolve, is
      the first failure of the whole sequence. */
  lemma FirstUnresolvedShift(networks: map<int, Network>, arcNetwork: map<int, int>,
                             xs: seq<Contribution>, ys: seq<Contribution>, zs: seq<Contribution>, k: int)
    requires Resolved(networks, arcNetwork, xs) && FirstUnresolved(networks, arcNetwork, ys, k)
    ensures FirstUnresolved(networks, arcNetwork, xs + ys + zs, |xs| + k)
    ensures (xs + ys + zs)[|xs| + k] == ys[k]
  {
    var all := xs + ys + zs;
    assert all[..|xs| + k] == xs + ys[..k];
    ResolvedAppend(networks, arcNetwork, xs, ys[..k]);
  }

  /** The weights of the networks keyed by group. */
  ghost function Weights(networks: map<int, Network>): (w: map<int, seq<real>>)
    reads networks.Values
    ensures w.Keys == networks.Keys
  {
    map g | g in networks :: networks[g].weights
  }

  /** Every network's weights `w[g]` are its weights `w0[g]` with the
      contributions of its group added in order. */
  ghost predicate Applied(networks: map<int, Network>, arcNetwork: map<int, int>, w0: map<int, seq<real>>,
                          w: map<int, seq<real>>, cs: seq<Contribution>)
  {
    forall g :: g in networks ==> AppliedAt(networks, arcNetwork, w0, w, cs, g)
  }

  ghost predicate AppliedAt(networks: map<int, Network>, arcNetwork: map<int, int>, w0: map<int, seq<real>>,
                            w: map<int, seq<real>>, cs: seq<Contribution>, g: int)
    requires g in networks
  {
    var n := networks[g];
    g in w0 && g in w &&
    ArcToEdgeSound(n.nodes, n.edges, n.arcToEdge) &&
    |w0[g]| == |n.edges| &&
    w[g] == ApplyAll(n.nodes, n.edges, n.arcToEdge, w0[g], ForGroup(cs, arcNetwork, g))
  }

  /** No contributions: the weights are where they started. */
  lemma AppliedNone(networks: map<int, Network>, arcNetwork: map<int, int>, w0: map<int, seq<real>>)
    requires w0.Keys == networks.Keys
    requires forall g :: g in networks ==> ArcToEdgeSound(networks[g].nodes, networks[g].edges, networks[g].arcToEdge)
    requires forall g :: g in networks ==> |w0[g]| == |networks[g].edges|
    ensures Applied(networks, arcNetwork, w0, w0, [])
  {
    forall g | g in networks
      ensures AppliedAt(networks, arcNetwork, w0, w0, [], g)
    {
      assert ForGroup([], arcNetwork, g) == [];
    }
  }

  /** One more contribution, added to the network of its arc's group: the
      weights are those with the longer sequence applied. */
  lemma AppliedStep(networks: map<int, Network>, arcNetwork: map<int, int>, w0: map<int, seq<real>>,
                    w: map<int, seq<real>>, cs: seq<Contribution>, c: Contribution,
                    g0: int, ow: seq<real>, nw: seq<real>, w': map<int, seq<real>>)
    requires Applied(networks, arcNetwork, w0, w, cs)
    requires Resolvable(networks, arcNetwork, c.0)
    requires g0 == arcNetwork[c.0.source.netzwerk]
    requires networks[g0].Indexed()
    requires w[g0] == ow
    requires |ow| == |networks[g0].edges|
    requires nw == AddAt(ow, networks[g0].EdgeIndex(c.0), c.1)
    requires w' == w[g0 := nw]
    ensures Applied(networks, arcNetwork, w0, w', cs + [c])
  {
    forall g | g in networks
      ensures AppliedAt(networks, arcNetwork, w0, w', cs + [c], g)
    {
      assert AppliedAt(networks, arcNetwork, w0, w, cs, g);
      assert AppliedAt(networks, arcNetwork, w0, w, cs, arcNetwork[c.0.source.netzwerk]);
      AppliedStepAt(networks, arcNetwork, w0, w, cs, c, w', g);
    }
  }

  lemma AppliedStepAt(networks: map<int, Network>, arcNetwork: map<int, int>, w0: map<int, seq<real>>,
                      w: map<int, seq<real>>, cs: seq<Contribution>, c: Contribution, w': map<int, seq<real>>, g: int)
    requires g in networks && AppliedAt(networks, arcNetwork, w0, w, cs, g)
    requires Resolvable(networks, arcNetwork, c.0)
    requires var g0 := arcNetwork[c.0.source.netzwerk];
             var n := networks[g0];
             ArcToEdgeSound(n.nodes, n.edges, n.arcToEdge) &&
             var j := ArcEdgeIndex(n.nodes, n.edges, n.arcToEdge, c.0);
             g0 in w && |w[g0]| == |n.edges| &&
             w' == w[g0 := AddAt(w[g0], j, c.1)]
    ensures AppliedAt(networks, arcNetwork, w0, w', cs + [c], g)
  {
    var g0 := arcNetwork[c.0.source.netzwerk];
    var n := networks[g];
    var f := ForGroup(cs, arcNetwork, g);
    ForGroupAppend(cs, [c], arcNetwork, g);
    assert [c][..0] == [];
    if g == g0 {
      assert ForGroup(cs + [c], arcNetwork, g) == f + [c];
      ApplyAllStep(n.nodes, n.edges, n.arcToEdge, w0[g], f, c);
    } else {
      assert ForGroup(cs + [c], arcNetwork, g) == f + [];
      assert f + [] == f;
    }
  }

  /** Applying one more contribution adds its amount to its arc's edge. */
  lemma ApplyAllStep(nodes: seq<Node>, edges: seq<Edge>, arcToEdge: map<Arc, Edge>, w: seq<real>,
                     cs: seq<Contribution>, c: Contribution)
    requires ArcToEdgeSound(nodes, edges, arcToEdge) && |w| == |edges| && c.0 in arcToEdge
    ensures var r := ApplyAll(nodes, edges, arcToEdge, w, cs);
            var j := ArcEdgeIndex(nodes, edges, arcToEdge, c.0);
            ApplyAll(nodes, edges, arcToEdge, w, cs + [c]) == AddAt(r, j, c.1)
  {
    var cs' := cs + [c];
    assert cs'[..|cs'| - 1] == cs && cs'[|cs'| - 1] == c;
  }

  /** From all-zero weights, an arc a network knows ends up with the total
      the constraints' prices put on it when its `netzwerk` belongs to the
      network's group, and with 0 otherwise. */
  lemma {:induction false} AppliedFromZero(networks: map<int, Network>, arcNetwork: map<int, int>,
                                           w0: map<int, seq<real>>, w: map<int, seq<real>>,
                                           constraints: seq<Constraint>, price: ConsId -> real, g: int, arc: Arc)
    requires Applied(networks, arcNetwork, w0, w, Contributions(constraints, price))
    requires g in networks && arc in networks[g].arcToEdge
    requires forall k :: 0 <= k < |w0[g]| ==> w0[g][k] == 0.0
    ensures var n := networks[g];
            w[g][ArcEdgeIndex(n.nodes, n.edges, n.arcToEdge, arc)] ==
            if arc.source.netzwerk as int in arcNetwork && arcNetwork[arc.source.netzwerk as int] == g
            then PriceSum(constraints, price, arc) else 0.0
  {
    var n := networks[g];
    var cs := Contributions(constraints, price);
    ApplyAllFromZero(n.nodes, n.edges, n.arcToEdge, w0[g], ForGroup(cs, arcNetwork, g), arc);
    if arc.source.netzwerk as int in arcNetwork && arcNetwork[arc.source.netzwerk as int] == g {
      ForGroupKeepsArc(cs, arcNetwork, g, arc);
      ContributionsSum(constraints, price, arc);
    } else {
      ForGroupDropsArc(cs, arcNetwork, g, arc);
    }
  }

  // ---------------------------------------------------------------------------
  // Columns

  /** A variable bound of the master problem. */
  datatype Bound = Finite(value: real) | Infinity

  /** A priced variable of the master problem: its name, bounds and
      objective coefficient. */
  datatype Column = Column(name: string, lower: Bound, upper: Bound, objective: real)

  /** The coefficient of a column in a master constraint. */
  datatype Coefficient = Coefficient(cons: ConsId, column: string, coef: real)

  /** The name of the `n`-th generated column. */
  function ColumnName(n: int): (r: string)
  {
    "p_" + IntToString(n)
  }

  /** Different counter values give different column names. */
  lemma ColumnNamesDistinct(i: nat, j: nat)
    requires i != j
    ensures ColumnName(i) != ColumnName(j)
  {
    if ColumnName(i) == ColumnName(j) {
      assert NatToString(i) == ColumnName(i)[2..] == ColumnName(j)[2..] == NatToString(j);
      NatToStringValue(i);
      NatToStringValue(j);
    }
  }

  /** The variable `generate_columns` creates: continuous, with bounds 0 and
      infinity and objective 0. */
  function PricedColumn(name: string): (r: Column)
  {
    Column(name, Finite(0.0), Infinity, 0.0)
  }

  /** `add_variable`: the column with each recorded coefficient, one entry
      per recorded (constraint, coefficient) pair, in order. */
  function Attach(name: string, cds: seq<ConstraintData>): (r: seq<Coefficient>)
    ensures |r| == |cds|
  {
    if cds == [] then []
    else Attach(name, cds[..|cds| - 1]) + [Coefficient(cds[|cds| - 1].0, name, cds[|cds| - 1].1)]
  }

  /** The coefficients `generate_columns` adds for a path: for each arc in
      order, those recorded for the arc, and none for an arc without an
      entry. */
  function ColumnCoefficients(name: string, arcs: seq<Arc>, arcConstraints: map<Arc, seq<ConstraintData>>)
    : (r: seq<Coefficient>)
  {
    if arcs == [] then []
    else
      var a := arcs[|arcs| - 1];
      ColumnCoefficients(name, arcs[..|arcs| - 1], arcConstraints) +
      (if a in arcConstraints then Attach(name, arcConstraints[a]) else [])
  }

  lemma {:induction false} AttachMembership(name: string, cds: seq<ConstraintData>, x: Coefficient)
    ensures x in Attach(name, cds) <==> x.column == name && (x.cons, x.coef) in cds
  {
    if cds != [] {
      var init := cds[..|cds| - 1];
      AttachMembership(name, init, x);
      assert cds == init + [cds[|cds| - 1]];
    }
  }

  /** The new column appears in a constraint with a coefficient exactly when
      some arc of the path was recorded in that constraint with that
      coefficient. */
  lemma {:induction false} ColumnCoefficientsMembership(name: string, arcs: seq<Arc>,
                                                        arcConstraints: map<Arc, seq<ConstraintData>>, x: Coefficient)
    ensures x in ColumnCoefficients(name, arcs, arcConstraints) <==>
            x.column == name &&
            exists i :: 0 <= i < |arcs| && arcs[i] in arcConstraints && (x.cons, x.coef) in arcConstraints[arcs[i]]
  {
    if arcs != [] {
      var init := arcs[..|arcs| - 1];
      var a := arcs[|arcs| - 1];
      ColumnCoefficientsMembership(name, init, arcConstraints, x);
      if a in arcConstraints {
        AttachMembership(name, arcConstraints[a], x);
      }
      if x.column == name && (exists i :: 0 <= i < |arcs| && arcs[i] in arcConstraints && (x.cons, x.coef) in arcConstraints[arcs[i]]) {
        var i :| 0 <= i < |arcs| && arcs[i] in arcConstraints && (x.cons, x.coef) in arcConstraints[arcs[i]];
        if i < |init| {
          assert init[i] == arcs[i];
        }
      }
      if exists i :: 0 <= i < |init| && init[i] in arcConstraints && (x.cons, x.coef) in arcConstraints[init[i]] {
        var i :| 0 <= i < |init| && init[i] in arcConstraints && (x.cons, x.coef) in arcConstraints[init[i]];
        assert arcs[i] == init[i];
      }
    }
  }

  /** The columns generated for `paths` with the counter starting at `n0`. */
  function ColumnsFor(n0: nat, paths: seq<Path>): (r: seq<Column>)
    ensures |r| == |paths|
  {
    if paths == [] then [] else ColumnsFor(n0, paths[..|paths| - 1]) + [PricedColumn(ColumnName(n0 + |paths| - 1))]
  }

  /** The coefficients generated for `paths` with the counter starting at `n0`. */
  function CoefficientsFor(n0: nat, paths: seq<Path>, arcConstraints: map<Arc, seq<ConstraintData>>)
    : (r: seq<Coefficient>)
  {
    if paths == [] then []
    else CoefficientsFor(n0, paths[..|paths| - 1], arcConstraints) +
         ColumnCoefficients(ColumnName(n0 + |paths| - 1), paths[|paths| - 1].arcs, arcConstraints)
  }

  /** The name-to-path map after recording `paths` under the names from `n0`. */
  function Recorded(m: map<string, Path>, n0: nat, paths: seq<Path>): (r: map<string, Path>)
  {
    if paths == [] then m
    else MapInsert(Recorded(m, n0, paths[..|paths| - 1]), ColumnName(n0 + |paths| - 1), paths[|paths| - 1])
  }

  /** Recording adds only the generated names. */
  lemma {:induction false} RecordedKeys(m: map<string, Path>, n0: nat, paths: seq<Path>, x: string)
    requires x in Recorded(m, n0, paths)
    ensures x in m || exists j :: n0 <= j < n0 + |paths| && x == ColumnName(j)
  {
    if paths != [] {
      var init := paths[..|paths| - 1];
      if x != ColumnName(n0 + |paths| - 1) {
        RecordedKeys(m, n0, init, x);
      }
    }
  }

  /** Recording keeps every entry already there. */
  lemma {:induction false} RecordedKeeps(m: map<string, Path>, n0: nat, paths: seq<Path>, x: string)
    requires x in m
    ensures x in Recorded(m, n0, paths) && Recorded(m, n0, paths)[x] == m[x]
  {
    if paths != [] {
      RecordedKeeps(m, n0, paths[..|paths| - 1], x);
    }
  }

  /** When none of the names is taken yet, path `i` is recorded under the
      `i`-th name. */
  lemma {:induction false} RecordedAt(m: map<string, Path>, n0: nat, paths: seq<Path>, i: nat)
    requires forall j :: n0 <= j < n0 + |paths| ==> ColumnName(j) !in m
    requires i < |paths|
    ensures ColumnName(n0 + i) in Recorded(m, n0, paths) && Recorded(m, n0, paths)[ColumnName(n0 + i)] == paths[i]
  {
    var init := paths[..|paths| - 1];
    var last := |paths| - 1;
    var name := ColumnName(n0 + last);
    if i == last {
      if name in Recorded(m, n0, init) {
        RecordedKeys(m, n0, init, name);
        var j :| n0 <= j < n0 + last && name == ColumnName(j);
        ColumnNamesDistinct(j, n0 + last);
      }
    } else {
      RecordedAt(m, n0, init, i);
      ColumnNamesDistinct(n0 + i, n0 + last);
      assert paths[i] == init[i];
    }
  }

  /** Appending a path adds one column generation step. */
  lemma GeneratedStep(n0: nat, paths: seq<Path>, p: Path, arcConstraints: map<Arc, seq<ConstraintData>>,
                      m: map<string, Path>)
    ensures ColumnsFor(n0, paths + [p]) == ColumnsFor(n0, paths) + [PricedColumn(ColumnName(n0 + |paths|))]
    ensures CoefficientsFor(n0, paths + [p], arcConstraints) ==
            CoefficientsFor(n0, paths, arcConstraints) + ColumnCoefficients(ColumnName(n0 + |paths|), p.arcs, arcConstraints)
    ensures Recorded(m, n0, paths + [p]) == MapInsert(Recorded(m, n0, paths), ColumnName(n0 + |paths|), p)
  {
    var ps := paths + [p];
    assert ps[..|ps| - 1] == paths && ps[|ps| - 1] == p;
  }

  // ---------------------------------------------------------------------------
  // Which paths become columns

  /** Some source-to-sink walk has negative cost. */
  ghost predicate HasNegativeWalk(g: Dag, s: nat, t: nat)
  {
    exists es :: IsWalk(g.edges, es, s, t) && Cost(g.weights, es) < 0.0
  }

  /** Network `n`'s shortest path under weights `w` is `p`. */
  ghost predicate ShortestIn(n: Network, w: seq<real>, p: Path)
  {
    WellFormed(Dag(n.nodes, n.edges, w)) && IsShortestPath(Dag(n.nodes, n.edges, w), n.source, n.sink, n.group, p)
  }

  /** The groups whose network has a negative source-to-sink walk under the
      weights `w`. */
  ghost function NegativeGroups(networks: map<int, Network>, w: map<int, seq<real>>): (r: set<int>)
  {
    set g | g in networks && g in w && HasNegativeWalk(Dag(networks[g].nodes, networks[g].edges, w[g]),
                                                       networks[g].source, networks[g].sink)
  }

  function Min(a: int, b: int): (r: int)
  {
    if a <= b then a else b
  }

  /** A shortest path is negative exactly when some walk is. */
  lemma ShortestNegativeIff(g: Dag, s: nat, t: nat, group: int, p: Path)
    requires WellFormed(g) && IsShortestPath(g, s, t, group, p)
    ensures p.length < 0.0 <==> HasNegativeWalk(g, s, t)
  {
    if p.length < 0.0 {
      var es :| IsWalk(g.edges, es, s, t) && (forall k :: 0 <= k < |es| ==> es[k] < |g.edges|) &&
                Cost(g.weights, es) == p.length && WalkArcs(g, es) == p.arcs;
      assert IsWalk(g.edges, es, s, t) && Cost(g.weights, es) < 0.0;
    }
    if HasNegativeWalk(g, s, t) {
      var es :| IsWalk(g.edges, es, s, t) && Cost(g.weights, es) < 0.0;
      assert p.length <= Cost(g.weights, es);
    }
  }

  /** The paths ordered by length, shortest first. */
  predicate SortedByLength(ps: seq<Path>)
  {
    forall i, j :: 0 <= i < j < |ps| ==> ps[i].length <= ps[j].length
  }

  /** `p` inserted in front of the first path longer than it, so behind
      every path of its own length. */
  function InsertByLength(p: Path, ps: seq<Path>): (r: seq<Path>)
    ensures multiset(r) == multiset(ps) + multiset{p} && |r| == |ps| + 1
  {
    if ps == [] || p.length < ps[0].length then [p] + ps
    else
      assert ps == [ps[0]] + ps[1..];
      [ps[0]] + InsertByLength(p, ps[1..])
  }

  /** Inserting keeps a sorted sequence sorted. */
  lemma {:induction false} InsertSorted(p: Path, ps: seq<Path>)
    requires SortedByLength(ps)
    ensures SortedByLength(InsertByLength(p, ps))
  {
    if ps != [] && p.length >= ps[0].length {
      var rest := InsertByLength(p, ps[1..]);
      SortedTail(ps);
      InsertSorted(p, ps[1..]);
      forall i | 0 <= i < |rest|
        ensures ps[0].length <= rest[i].length
      {
        MemberOfSum(rest[i], rest, ps[1..], p);
        if rest[i] != p {
          SortedHeadBound(ps, rest[i]);
        }
      }
      ConsSorted(ps[0], rest);
    }
  }

  /** An element of a sequence holding the elements of `b` and `y` is `y`
      or an element of `b`. */
  lemma MemberOfSum<T>(x: T, a: seq<T>, b: seq<T>, y: T)
    requires multiset(a) == multiset(b) + multiset{y} && x in a
    ensures x == y || x in b
  {
    assert x in multiset(a);
  }

  lemma SortedTail(ps: seq<Path>)
    requires SortedByLength(ps) && ps != []
    ensures SortedByLength(ps[1..])
  {
    var t := ps[1..];
    forall i, j | 0 <= i < j < |t|
      ensures t[i].length <= t[j].length
    {
      assert t[i] == ps[i + 1] && t[j] == ps[j + 1];
    }
  }

  lemma SortedHeadBound(ps: seq<Path>, x: Path)
    requires SortedByLength(ps) && ps != [] && x in ps[1..]
    ensures ps[0].length <= x.length
  {
    var j :| 0 <= j < |ps[1..]| && ps[1..][j] == x;
    assert ps[j + 1] == x;
  }

  lemma ConsSorted(h: Path, rest: seq<Path>)
    requires SortedByLength(rest)
    requires forall i :: 0 <= i < |rest| ==> h.length <= rest[i].length
    ensures SortedByLength([h] + rest)
  {
    var r := [h] + rest;
    forall i, j | 0 <= i < j < |r|
      ensures r[i].length <= r[j].length
    {
      assert r[j] == rest[j - 1];
      if i > 0 {
        assert r[i] == rest[i - 1];
      }
    }
  }

  /** After sorting, the first `k` paths are no longer than any of the rest:
      they are `k` shortest. */
  lemma KeptAreShortest(ps: seq<Path>, k: nat)
    requires SortedByLength(ps) && k <= |ps|
    ensures forall p, q :: p in ps[..k] && q in ps[k..] ==> p.length <= q.length
  {
    forall p, q | p in ps[..k] && q in ps[k..]
      ensures p.length <= q.length
    {
      var i :| 0 <= i < k && ps[..k][i] == p;
      var j :| 0 <= j < |ps| - k && ps[k..][j] == q;
      assert ps[i] == p && ps[k + j] == q;
    }
  }

  /** No two of the paths come from the same network group. */
  predicate DistinctGroups(ps: seq<Path>)
  {
    forall i, j :: 0 <= i < j < |ps| ==> ps[i].networkGroup != ps[j].networkGroup
  }

  /** `p` is a shortest path of the network of its group, and negative. */
  ghost predicate Candidate(networks: map<int, Network>, w: map<int, seq<real>>, p: Path)
  {
    p.networkGroup in networks && p.networkGroup in w && p.length < 0.0 &&
    ShortestIn(networks[p.networkGroup], w[p.networkGroup], p)
  }

  /** A candidate's network has a negative walk. */
  lemma CandidateNegative(networks: map<int, Network>, w: map<int, seq<real>>, p: Path)
    requires Candidate(networks, w, p)
    ensures p.networkGroup in NegativeGroups(networks, w)
  {
    var n := networks[p.networkGroup];
    ShortestNegativeIff(Dag(n.nodes, n.edges, w[p.networkGroup]), n.source, n.sink, n.group as int, p);
  }

  /** Two shortest paths of the same network under the same weights have
      the same length. */
  lemma ShortestLengthsAgree(n: Network, w: seq<real>, p: Path, q: Path)
    requires ShortestIn(n, w, p) && ShortestIn(n, w, q)
    ensures p.length == q.length
  {
    var g := Dag(n.nodes, n.edges, w);
    var ep :| IsWalk(g.edges, ep, n.source, n.sink) && (forall k :: 0 <= k < |ep| ==> ep[k] < |g.edges|) &&
              Cost(g.weights, ep) == p.length && WalkArcs(g, ep) == p.arcs;
    var eq :| IsWalk(g.edges, eq, n.source, n.sink) && (forall k :: 0 <= k < |eq| ==> eq[k] < |g.edges|) &&
              Cost(g.weights, eq) == q.length && WalkArcs(g, eq) == q.arcs;
    assert q.length <= Cost(g.weights, ep);
    assert p.length <= Cost(g.weights, eq);
  }

  /** A path no shorter than any already placed goes last: the insertion
      is stable. */
  lemma {:induction false} InsertAfterTies(p: Path, ps: seq<Path>)
    requires forall i :: 0 <= i < |ps| ==> ps[i].length <= p.length
    ensures InsertByLength(p, ps) == ps + [p]
  {
    if ps != [] {
      InsertAfterTies(p, ps[1..]);
      assert [ps[0]] + (ps[1..] + [p]) == ps + [p];
    }
  }

  /** The paths sorted by length, by inserting them one after the other. */
  function SortByLength(ps: seq<Path>): (r: seq<Path>)
    ensures multiset(r) == multiset(ps) && |r| == |ps|
  {
    if ps == [] then []
    else
      assert ps == ps[..|ps| - 1] + [ps[|ps| - 1]];
      InsertByLength(ps[|ps| - 1], SortByLength(ps[..|ps| - 1]))
  }

  /** Two paths of equal length keep their arrival order. */
  lemma TiesKeepArrivalOrder(p: Path, q: Path)
    requires p.length == q.length
    ensures SortByLength([p, q]) == [p, q]
  {
    assert [p, q][..1] == [p];
    assert SortByLength([p]) == [p];
    InsertAfterTies(q, [p]);
  }

  lemma {:induction false} SortSorted(ps: seq<Path>)
    ensures SortedByLength(SortByLength(ps))
  {
    if ps != [] {
      SortSorted(ps[..|ps| - 1]);
      InsertSorted(ps[|ps| - 1], SortByLength(ps[..|ps| - 1]));
    }
  }

  /** Inserting a path of a new group keeps the groups distinct. */
  lemma {:induction false} InsertKeepsDistinct(p: Path, ps: seq<Path>)
    requires DistinctGroups(ps)
    requires forall i :: 0 <= i < |ps| ==> ps[i].networkGroup != p.networkGroup
    ensures DistinctGroups(InsertByLength(p, ps))
  {
    if ps == [] || p.length < ps[0].length {
      var r := [p] + ps;
      forall i, j | 0 <= i < j < |r|
        ensures r[i].networkGroup != r[j].networkGroup
      {
        assert r[j] == ps[j - 1];
        if i > 0 {
          assert r[i] == ps[i - 1];
        }
      }
    } else {
      var tail := ps[1..];
      var rest := InsertByLength(p, tail);
      InsertKeepsDistinct(p, tail);
      forall i | 0 <= i < |rest|
        ensures rest[i].networkGroup != ps[0].networkGroup
      {
        assert rest[i] in multiset(rest);
        if rest[i] != p {
          var j :| 0 <= j < |tail| && tail[j] == rest[i];
          assert ps[j + 1] == rest[i];
        }
      }
      var r := [ps[0]] + rest;
      forall i, j | 0 <= i < j < |r|
        ensures r[i].networkGroup != r[j].networkGroup
      {
        assert r[j] == rest[j - 1];
        if i > 0 {
          assert r[i] == rest[i - 1];
        }
      }
    }
  }

  /** Sorting keeps the groups distinct. */
  lemma {:induction false} SortKeepsDistinct(ps: seq<Path>)
    requires DistinctGroups(ps)
    ensures DistinctGroups(SortByLength(ps))
  {
    if ps != [] {
      var init, last := ps[..|ps| - 1], ps[|ps| - 1];
      assert DistinctGroups(init) by {
        forall i, j | 0 <= i < j < |init|
          ensures init[i].networkGroup != init[j].networkGroup
        {
          assert init[i] == ps[i] && init[j] == ps[j];
        }
      }
      SortKeepsDistinct(init);
      var s := SortByLength(init);
      forall i | 0 <= i < |s|
        ensures s[i].networkGroup != last.networkGroup
      {
        assert s[i] in multiset(init);
        var j :| 0 <= j < |init| && init[j] == s[i];
        assert ps[j] == s[i];
      }
      InsertKeepsDistinct(last, s);
    }
  }

  /** The paths a k-shortest round keeps: all of them when there are at
      most `k`, otherwise the first `k` once sorted by length. */
  function KeepShortest(ps: seq<Path>, k: nat): (r: seq<Path>)
  {
    if k < |ps| then SortByLength(ps)[..k] else ps
  }

  /** `k` of the paths are kept, or all when there are fewer; the kept ones
      are among the paths, keep distinct groups distinct, and are no longer
      than any path left out. */
  lemma KeepShortestSpec(ps: seq<Path>, k: nat)
    ensures |KeepShortest(ps, k)| == Min(k, |ps|)
    ensures forall p :: p in KeepShortest(ps, k) ==> p in ps
    ensures DistinctGroups(ps) ==> DistinctGroups(KeepShortest(ps, k))
    ensures forall p, q :: p in KeepShortest(ps, k) && q in ps && q !in KeepShortest(ps, k) ==> p.length <= q.length
  {
    if k < |ps| {
      KeptFromSorted(ps, k);
      if DistinctGroups(ps) {
        SortKeepsDistinct(ps);
        PrefixKeepsDistinct(SortByLength(ps), k);
      }
    }
  }

  lemma PrefixKeepsDistinct(ps: seq<Path>, k: nat)
    requires DistinctGroups(ps) && k <= |ps|
    ensures DistinctGroups(ps[..k])
  {
    forall i, j | 0 <= i < j < k
      ensures ps[..k][i].networkGroup != ps[..k][j].networkGroup
    {
      assert ps[..k][i] == ps[i] && ps[..k][j] == ps[j];
    }
  }

  /** The first `k` sorted paths are among the paths and no longer than the
      others. */
  lemma KeptFromSorted(ps: seq<Path>, k: nat)
    requires k < |ps|
    ensures forall p :: p in SortByLength(ps)[..k] ==> p in ps
    ensures forall p, q :: p in SortByLength(ps)[..k] && q in ps && q !in SortByLength(ps)[..k] ==> p.length <= q.length
  {
    var s := SortByLength(ps);
    SortSorted(ps);
    KeptAreShortest(s, k);
    PermutedPrefix(s, ps, k);
  }

  /** Splitting a rearrangement of `ps` at `k`: the front holds elements of
      `ps`, and what of `ps` is not in front is behind. */
  lemma PermutedPrefix<T>(s: seq<T>, ps: seq<T>, k: nat)
    requires multiset(s) == multiset(ps) && k <= |s|
    ensures forall p :: p in s[..k] ==> p in ps
    ensures forall q :: q in ps && q !in s[..k] ==> q in s[k..]
  {
    assert s == s[..k] + s[k..];
    forall p | p in s[..k]
      ensures p in ps
    {
      assert p in multiset(s[..k]);
      assert p in multiset(s);
    }
    forall q | q in ps && q !in s[..k]
      ensures q in s[k..]
    {
      assert multiset(s) == multiset(s[..k]) + multiset(s[k..]);
      assert q in multiset(ps);
      assert q in multiset(s[k..]);
    }
  }

  /** A negative network that got no kept path has no path shorter than a
      kept one, when every negative network had a candidate and the kept
      paths are no longer than the candidates left out. */
  lemma UncoveredNotShorter(networks: map<int, Network>, w: map<int, seq<real>>, cands: seq<Path>,
                            kept: seq<Path>, q: Path)
    requires forall g :: g in NegativeGroups(networks, w) ==>
               exists j :: 0 <= j < |cands| && cands[j].networkGroup == g
    requires forall j :: 0 <= j < |cands| ==> Candidate(networks, w, cands[j])
    requires forall p, c :: p in kept && c in cands && c !in kept ==> p.length <= c.length
    requires Candidate(networks, w, q)
    requires forall j :: 0 <= j < |kept| ==> kept[j].networkGroup != q.networkGroup
    ensures forall p :: p in kept ==> p.length <= q.length
  {
    CandidateNegative(networks, w, q);
    var j :| 0 <= j < |cands| && cands[j].networkGroup == q.networkGroup;
    var c := cands[j];
    assert Candidate(networks, w, c);
    ShortestLengthsAgree(networks[q.networkGroup], w[q.networkGroup], c, q);
    assert c !in kept;
  }

  /** What `FullPricer` selects: a negative shortest path of every network
      with a negative walk and of no other, one per network. */
  ghost predicate SelectedFull(networks: map<int, Network>, w: map<int, seq<real>>, paths: seq<Path>)
  {
    DistinctGroups(paths) &&
    (forall i :: 0 <= i < |paths| ==> Candidate(networks, w, paths[i])) &&
    |paths| == |NegativeGroups(networks, w)| &&
    forall g :: g in NegativeGroups(networks, w) ==> exists i :: 0 <= i < |paths| && paths[i].networkGroup == g
  }

  /** What `KShortestPricer` selects: negative shortest paths of distinct
      networks, `k` of them or all when there are fewer negative networks,
      none longer than the shortest path of a negative network left out. */
  ghost predicate SelectedK(networks: map<int, Network>, w: map<int, seq<real>>, k: int, paths: seq<Path>)
  {
    DistinctGroups(paths) &&
    (forall i :: 0 <= i < |paths| ==> Candidate(networks, w, paths[i])) &&
    |paths| == Min(k, |NegativeGroups(networks, w)|) &&
    forall q, i :: 0 <= i < |paths| && Candidate(networks, w, q) &&
                   (forall j :: 0 <= j < |paths| ==> paths[j].networkGroup != q.networkGroup) ==>
                   paths[i].length <= q.length
  }

  /** Part way through `FullPricer`'s loop, with the groups `todo` still to
      visit and `neg` the groups with a negative walk: `paths` holds one
      candidate for each negative network visited, `groups` being those
      networks. */
  ghost predicate FullProgress(networks: map<int, Network>, w: map<int, seq<real>>, neg: set<int>,
                               todo: set<int>, groups: set<int>, paths: seq<Path>)
  {
    groups == neg - todo && |paths| == |groups| &&
    (forall i :: 0 <= i < |paths| ==> paths[i].networkGroup !in todo && Candidate(networks, w, paths[i])) &&
    DistinctGroups(paths) &&
    forall h :: h in groups ==> exists i :: 0 <= i < |paths| && paths[i].networkGroup == h
  }

  lemma FullProgressStart(networks: map<int, Network>, w: map<int, seq<real>>)
    ensures FullProgress(networks, w, NegativeGroups(networks, w), networks.Keys, {}, [])
  {
  }

  /** Visiting a group with a negative shortest path adds the path. */
  lemma FullProgressStep(networks: map<int, Network>, w: map<int, seq<real>>, neg: set<int>, todo: set<int>,
                         groups: set<int>, paths: seq<Path>, g: int, p: Path)
    requires FullProgress(networks, w, neg, todo, groups, paths) && g in todo && g in neg
    requires p.networkGroup == g && Candidate(networks, w, p)
    ensures FullProgress(networks, w, neg, todo - {g}, groups + {g}, paths + [p])
  {
    assert g !in groups;
    assert groups + {g} == neg - (todo - {g});
    DistinctSnoc(paths, p);
    CoveredSnoc(groups, paths, p);
    VisitedSnoc(networks, w, todo, paths, p);
  }

  lemma DistinctSnoc(paths: seq<Path>, p: Path)
    requires DistinctGroups(paths)
    requires forall i :: 0 <= i < |paths| ==> paths[i].networkGroup != p.networkGroup
    ensures DistinctGroups(paths + [p])
  {
    var ps := paths + [p];
    forall i, j | 0 <= i < j < |ps|
      ensures ps[i].networkGroup != ps[j].networkGroup
    {
      assert ps[i] == paths[i];
    }
  }

  lemma CoveredSnoc(groups: set<int>, paths: seq<Path>, p: Path)
    requires forall h :: h in groups ==> exists i :: 0 <= i < |paths| && paths[i].networkGroup == h
    ensures forall h :: h in groups + {p.networkGroup} ==>
              exists i :: 0 <= i < |paths + [p]| && (paths + [p])[i].networkGroup == h
  {
    var ps := paths + [p];
    forall h | h in groups + {p.networkGroup}
      ensures exists i :: 0 <= i < |ps| && ps[i].networkGroup == h
    {
      if h == p.networkGroup {
        assert ps[|paths|].networkGroup == h;
      } else {
        var i :| 0 <= i < |paths| && paths[i].networkGroup == h;
        assert ps[i].networkGroup == h;
      }
    }
  }

  lemma VisitedSnoc(networks: map<int, Network>, w: map<int, seq<real>>, todo: set<int>, paths: seq<Path>, p: Path)
    requires forall i :: 0 <= i < |paths| ==> paths[i].networkGroup !in todo && Candidate(networks, w, paths[i])
    requires Candidate(networks, w, p)
    ensures forall i :: 0 <= i < |paths + [p]| ==>
              (paths + [p])[i].networkGroup !in todo - {p.networkGroup} && Candidate(networks, w, (paths + [p])[i])
  {
    var ps := paths + [p];
    forall i | 0 <= i < |ps|
      ensures ps[i].networkGroup !in todo - {p.networkGroup} && Candidate(networks, w, ps[i])
    {
      if i < |paths| {
        assert ps[i] == paths[i];
      }
    }
  }

  /** Visiting a group without a negative walk changes nothing. */
  lemma FullProgressSkip(networks: map<int, Network>, w: map<int, seq<real>>, neg: set<int>, todo: set<int>,
                         groups: set<int>, paths: seq<Path>, g: int)
    requires FullProgress(networks, w, neg, todo, groups, paths) && g in todo && g !in neg
    ensures FullProgress(networks, w, neg, todo - {g}, groups, paths)
  {
    assert groups == neg - (todo - {g});
  }

  /** Once every group is visited, the paths are `FullPricer`'s selection. */
  lemma FullProgressDone(networks: map<int, Network>, w: map<int, seq<real>>, groups: set<int>, paths: seq<Path>)
    requires FullProgress(networks, w, NegativeGroups(networks, w), {}, groups, paths)
    ensures SelectedFull(networks, w, paths)
  {
    assert groups == NegativeGroups(networks, w);
  }

  /** Keeping the `k` shortest of one candidate per negative network is
      `KShortestPricer`'s selection. */
  lemma KeepShortestSelects(networks: map<int, Network>, w: map<int, seq<real>>, groups: set<int>,
                            cands: seq<Path>, k: nat)
    requires FullProgress(networks, w, NegativeGroups(networks, w), {}, groups, cands)
    ensures SelectedK(networks, w, k, KeepShortest(cands, k))
  {
    var kept := KeepShortest(cands, k);
    KeepShortestSpec(cands, k);
    assert groups == NegativeGroups(networks, w);
    KeptAreCandidates(networks, w, cands, kept);
    forall q, i | 0 <= i < |kept| && Candidate(networks, w, q) &&
                  (forall j :: 0 <= j < |kept| ==> kept[j].networkGroup != q.networkGroup)
      ensures kept[i].length <= q.length
    {
      UncoveredNotShorter(networks, w, cands, kept, q);
      assert kept[i] in kept;
    }
  }

  /** Paths taken from candidates are candidates. */
  lemma KeptAreCandidates(networks: map<int, Network>, w: map<int, seq<real>>, cands: seq<Path>, kept: seq<Path>)
    requires forall j :: 0 <= j < |cands| ==> Candidate(networks, w, cands[j])
    requires forall p :: p in kept ==> p in cands
    ensures forall i :: 0 <= i < |kept| ==> Candidate(networks, w, kept[i])
  {
    forall i | 0 <= i < |kept|
      ensures Candidate(networks, w, kept[i])
    {
      assert kept[i] in kept;
      var j :| 0 <= j < |cands| && cands[j] == kept[i];
    }
  }
}
