/** `ObjPricerGFCG` and its two strategies (`FullPricer`,
    `KShortestPricer`): one pricing round resets all edge weights, puts the
    constraints' prices on the arcs, computes every network's shortest path
    and turns the selected negative paths into new columns of the master
    problem. */
module Pricing {

  import opened Outcomes
  import opened Text
  import opened Values
  import opened Graphs
  import opened Scans
  import opened Networks
  import opened Registry
  import opened PricingSpec
  import opened Scip

  /** Which paths become columns: every negative one (`FullPricer`) or the
      `k` shortest negative ones (`KShortestPricer`). */
  datatype Strategy = Full | KShortest(k: int)

  /** The dual values SCIP reports for the constraints: of the LP solution
      (`SCIPgetDualsolLinear`) and of the Farkas proof
      (`SCIPgetDualfarkasLinear`). */
  datatype Duals = Duals(solution: ConsId -> real, farkas: ConsId -> real)

  /** The result a pricing callback reports to SCIP. */
  datatype PricerResult = Success

  /** The price of a constraint in a round: the negated dual value of the
      solution, or of the Farkas proof in a Farkas round. */
  function Price(duals: Duals, farkas: bool): (price: ConsId -> real)
  {
    if farkas then (c: ConsId) => -duals.farkas(c) else (c: ConsId) => -duals.solution(c)
  }

  /** Every weight is 0. */
  predicate Zero(w: seq<real>)
  {
    forall k :: 0 <= k < |w| ==> w[k] == 0.0
  }

  /** A network the pricer can work with: stored under its own group, its
      indexes consistent, its cache right and its sink reachable. */
  ghost predicate NetReady(n: Network, g: int)
    reads n
  {
    n.group as int == g && n.Valid() && n.CacheValid() && n.Solvable()
  }

  ghost predicate NetworksReady(networks: map<int, Network>)
    reads networks.Values
  {
    DistinctNetworks(networks) && forall g {:trigger NetReady(networks[g], g)} :: g in networks ==> NetReady(networks[g], g)
  }

  /** A network whose weights are being set: like a ready one, with no
      fresh cached path. */
  ghost predicate NetStale(n: Network, g: int)
    reads n
  {
    n.group as int == g && n.Valid() && !n.isFresh && n.Solvable()
  }

  ghost predicate NetworksStale(networks: map<int, Network>)
    reads networks.Values
  {
    DistinctNetworks(networks) && forall g {:trigger NetStale(networks[g], g)} :: g in networks ==> NetStale(networks[g], g)
  }

  /** A stale cache is trivially right. */
  lemma StaleIsReady(networks: map<int, Network>)
    requires NetworksStale(networks)
    ensures NetworksReady(networks)
  {
    forall g | g in networks
      ensures NetReady(networks[g], g)
    {
      assert NetStale(networks[g], g);
    }
  }

  /** The weight a round gives an arc of network `g`: what the prices of
      all constraints put on it when its `netzwerk` belongs to group `g`,
      and 0 otherwise. */
  function RoundWeight(arcNetwork: map<int, int>, constraints: seq<Constraint>, price: ConsId -> real,
                       g: int, arc: Arc): (r: real)
  {
    if arc.source.netzwerk as int in arcNetwork && arcNetwork[arc.source.netzwerk as int] == g
    then PriceSum(constraints, price, arc) else 0.0
  }

  /** The weights `w` a round leaves: every arc of every network weighs
      its `RoundWeight`, and every edge that stands for no arc keeps the 0
      of the reset. */
  ghost predicate PricedWeights(networks: map<int, Network>, arcNetwork: map<int, int>, w: map<int, seq<real>>,
                                constraints: seq<Constraint>, price: ConsId -> real)
  {
    (forall g, arc :: g in networks && g in w && arc in networks[g].arcToEdge && networks[g].Indexed() &&
                      |w[g]| == |networks[g].edges| ==>
       w[g][networks[g].EdgeIndex(arc)] == RoundWeight(arcNetwork, constraints, price, g, arc)) &&
    (forall g, j :: g in networks && g in w && networks[g].Indexed() && |w[g]| == |networks[g].edges| &&
                    0 <= j < |w[g]| && NoArcOn(networks[g], j) ==>
       w[g][j] == 0.0)
  }

  /** Edge `j` of `n` is the edge of no indexed arc. */
  ghost predicate NoArcOn(n: Network, j: int)
    requires n.Indexed()
  {
    forall arc :: arc in n.arcToEdge ==> n.EdgeIndex(arc) != j
  }

  /** Applying all contributions to all-zero weights prices every arc. */
  lemma PricedRound(networks: map<int, Network>, arcNetwork: map<int, int>, w0: map<int, seq<real>>,
                    w: map<int, seq<real>>, constraints: seq<Constraint>, price: ConsId -> real)
    requires Applied(networks, arcNetwork, w0, w, Contributions(constraints, price))
    requires forall g :: g in networks ==> g in w0 && Zero(w0[g])
    ensures PricedWeights(networks, arcNetwork, w, constraints, price)
  {
    forall g, arc | g in networks && g in w && arc in networks[g].arcToEdge && networks[g].Indexed() &&
                    |w[g]| == |networks[g].edges|
      ensures w[g][networks[g].EdgeIndex(arc)] == RoundWeight(arcNetwork, constraints, price, g, arc)
    {
      PricedArc(networks, arcNetwork, w0, w, constraints, price, g, arc);
    }
    forall g, j | g in networks && g in w && networks[g].Indexed() && |w[g]| == |networks[g].edges| &&
                  0 <= j < |w[g]| && NoArcOn(networks[g], j)
      ensures w[g][j] == 0.0
    {
      var n := networks[g];
      assert AppliedAt(networks, arcNetwork, w0, w, Contributions(constraints, price), g);
      ApplyAllUntouched(n.nodes, n.edges, n.arcToEdge, w0[g], ForGroup(Contributions(constraints, price), arcNetwork, g), j);
      assert Zero(w0[g]);
    }
  }

  lemma PricedArc(networks: map<int, Network>, arcNetwork: map<int, int>, w0: map<int, seq<real>>,
                  w: map<int, seq<real>>, constraints: seq<Constraint>, price: ConsId -> real, g: int, arc: Arc)
    requires Applied(networks, arcNetwork, w0, w, Contributions(constraints, price))
    requires g in networks && g in w0 && Zero(w0[g]) && arc in networks[g].arcToEdge && networks[g].Indexed()
    ensures w[g][networks[g].EdgeIndex(arc)] == RoundWeight(arcNetwork, constraints, price, g, arc)
  {
    assert Zero(w0[g]);
    AppliedFromZero(networks, arcNetwork, w0, w, constraints, price, g, arc);
  }

  lemma NonEmptyHasElement(s: set<int>)
    requires |s| > 0
    ensures exists g :: g in s
  {
    if forall g :: g !in s {
      assert false;
    }
  }

  /** The networks are ready when network `g` and each other one is. */
  lemma ReadyFromEach(networks: map<int, Network>, g: int)
    requires DistinctNetworks(networks) && g in networks && NetReady(networks[g], g)
    requires forall h :: h in networks && h != g ==> NetReady(networks[h], h)
    ensures NetworksReady(networks)
  {
  }

  /** The weights are `w` when network `g`'s and each other one's are. */
  lemma WeightsFromEach(networks: map<int, Network>, g: int, w: map<int, seq<real>>)
    requires w.Keys == networks.Keys && g in networks && networks[g].weights == w[g]
    requires forall h :: h in networks && h != g ==> networks[h].weights == w[h]
    ensures Weights(networks) == w
  {
    var v := Weights(networks);
    forall h | h in networks
      ensures v[h] == w[h]
    {
      if h != g {
        assert networks[h].weights == w[h];
      }
    }
  }

  /** A map that differs from `w` at most at `k`, where it holds `v`, is
      `w` updated at `k`. */
  lemma MapUpdateOne<K, V>(w: map<K, V>, w': map<K, V>, k: K, v: V)
    requires w'.Keys == w.Keys && k in w && w'[k] == v
    requires forall j :: j in w && j != k ==> w'[j] == w[j]
    ensures w' == w[k := v]
  {
  }

  class Pricer {
    const dm: DataManager
    const master: Master
    const strategy: Strategy
    var nGeneratedPaths: nat
    var nIterations: nat

    /** A pricer with both counters at 0; the k-shortest strategy needs
        `k > 0`. */
    constructor (dm: DataManager, master: Master, strategy: Strategy)
      requires strategy.KShortest? ==> strategy.k > 0
      ensures this.dm == dm && this.master == master && this.strategy == strategy
      ensures nGeneratedPaths == 0 && nIterations == 0
    {
      this.dm := dm;
      this.master := master;
      this.strategy := strategy;
      nGeneratedPaths := 0;
      nIterations := 0;
    }

    ghost predicate Ready()
      reads dm, dm.networks.Values
    {
      (strategy.KShortest? ==> strategy.k > 0) && NetworksReady(dm.networks)
    }

    ghost predicate Stale()
      reads dm, dm.networks.Values
    {
      (strategy.KShortest? ==> strategy.k > 0) && NetworksStale(dm.networks)
    }

    /** Ready, with the weights `w`. */
    ghost predicate Steady(w: map<int, seq<real>>)
      reads dm, dm.networks.Values
    {
      Ready() && Weights(dm.networks) == w
    }

    /** `zero_arc_weights`: every edge of every network gets weight 0. */
    method ZeroArcWeights()
      requires Ready()
      modifies dm.networks.Values
      ensures Stale()
      ensures forall g :: g in dm.networks ==> Zero(dm.networks[g].weights)
    {
      var todo := dm.networks.Keys;
      while |todo| > 0
        invariant todo <= dm.networks.Keys
        invariant (strategy.KShortest? ==> strategy.k > 0) && DistinctNetworks(dm.networks)
        invariant forall g {:trigger NetReady(dm.networks[g], g)} :: g in todo ==> NetReady(dm.networks[g], g)
        invariant forall g {:trigger NetStale(dm.networks[g], g)} :: g in dm.networks && g !in todo ==> NetStale(dm.networks[g], g)
        invariant forall g :: g in dm.networks && g !in todo ==> Zero(dm.networks[g].weights)
        decreases |todo|
      {
        NonEmptyHasElement(todo);
        var g :| g in todo;
        assert NetReady(dm.networks[g], g);
        dm.networks[g].ResetEdgeWeights();
        assert NetStale(dm.networks[g], g);
        todo := todo - {g};
      }
    }
    /** `add_to_edge_weight` on the network of group `g0`: no other
        network changes, so all stay stale and only that network's weights
        differ. */
    method AddToNetwork(g0: int, net: Network, arc: Arc, amount: real) returns (r: Outcome<()>)
      requires Stale() && g0 in dm.networks && net == dm.networks[g0] && net.Valid()
      modifies net
      ensures Stale()
      ensures r.Ok? <==> arc in net.arcToEdge
      ensures r.Abort? ==> r.context == ArcToString(arc)
      ensures r.Ok? ==> net.weights == AddAt(old(net.weights), net.EdgeIndex(arc), amount)
      ensures Weights(dm.networks) == old(Weights(dm.networks))[g0 := net.weights]
    {
      ghost var w := Weights(dm.networks);
      assert NetStale(net, g0);
      r := net.AddToEdgeWeight(arc, amount);
      assert NetStale(net, g0);
      assert NetworksStale(dm.networks) by {
        forall g | g in dm.networks
          ensures NetStale(dm.networks[g], g)
        {
          if g != g0 {
            assert old(NetStale(dm.networks[g], g));
          }
        }
      }
      ghost var w' := Weights(dm.networks);
      forall g | g in w && g != g0
        ensures w'[g] == w[g]
      {
        assert dm.networks[g] != net;
      }
      MapUpdateOne(w, w', g0, net.weights);
    }

    /** One pass of the inner loop of `set_arc_weights`: the amount is added
        to the arc's edge in the network of the arc's group. A `netzwerk`
        without a group, a group without a network or an arc the network
        does not know aborts. */
    method AddContribution(c: Contribution, ghost w0: map<int, seq<real>>, ghost done: seq<Contribution>)
        returns (r: Outcome<()>)
      requires Stale()
      requires Applied(dm.networks, dm.arcNetwork, w0, Weights(dm.networks), done)
      modifies dm.networks.Values
      ensures Stale()
      ensures r.Ok? <==> Resolvable(dm.networks, dm.arcNetwork, c.0)
      ensures r.Ok? ==> Applied(dm.networks, dm.arcNetwork, w0, Weights(dm.networks), done + [c])
      ensures r.Abort? ==> r.context == FailureContext(dm.networks, dm.arcNetwork, c.0)
    {
      var arc, amount := c.0, c.1;
      var found := dm.GetNetworkByArc(arc);
      if found.Abort? {
        return Abort(found.context);
      }
      var g0 := dm.arcNetwork[arc.source.netzwerk];
      assert NetStale(dm.networks[g0], g0);
      r := AddToNetwork(g0, found.value, arc, amount);
      if r.Ok? {
        AppliedStep(dm.networks, dm.arcNetwork, w0, old(Weights(dm.networks)), done, c, g0,
                    old(found.value.weights), found.value.weights, Weights(dm.networks));
      }
    }

    /** The inner loop of `set_arc_weights` for one constraint with a
        nonzero price: every entry's coefficient times the price is added
        to its arc's edge in the network of its group. The first entry whose
        network or edge cannot be found aborts. */
    method AddConstraintWeights(arcs: seq<(Arc, real)>, price: real,
                                ghost w0: map<int, seq<real>>, ghost done: seq<Contribution>)
        returns (r: Outcome<()>)
      requires Stale()
      requires Applied(dm.networks, dm.arcNetwork, w0, Weights(dm.networks), done)
      modifies dm.networks.Values
      ensures Stale()
      ensures r.Ok? <==> Resolved(dm.networks, dm.arcNetwork, Scaled(arcs, price))
      ensures r.Ok? ==> Applied(dm.networks, dm.arcNetwork, w0, Weights(dm.networks), done + Scaled(arcs, price))
      ensures r.Abort? ==> exists k :: FirstUnresolved(dm.networks, dm.arcNetwork, Scaled(arcs, price), k) &&
                                       r.context == FailureContext(dm.networks, dm.arcNetwork, arcs[k].0)
    {
      ghost var s := Scaled(arcs, price);
      assert done + s[..0] == done;
      for j := 0 to |arcs|
        invariant Stale()
        invariant Resolved(dm.networks, dm.arcNetwork, s[..j])
        invariant Applied(dm.networks, dm.arcNetwork, w0, Weights(dm.networks), done + s[..j])
      {
        ScaledAt(arcs, price, j);
        r := AddContribution((arcs[j].0, Amount(arcs[j].1, price)), w0, done + s[..j]);
        if r.Abort? {
          assert FirstUnresolved(dm.networks, dm.arcNetwork, s, j);
          return;
        }
        assert s[..j + 1] == s[..j] + [s[j]];
        assert done + s[..j + 1] == (done + s[..j]) + [s[j]];
        ResolvedAppend(dm.networks, dm.arcNetwork, s[..j], [s[j]]);
      }
      assert s[..|arcs|] == s;
      r := Ok(());
    }

    /** The body of the thread-pool task `set_arc_weights` posts for one
        constraint: a price of zero adds nothing; any other price goes on
        every entry's arc. */
    method AddConstraintPrice(cons: Constraint, dual: real, ghost price: ConsId -> real,
                              ghost w0: map<int, seq<real>>, ghost done: seq<Contribution>)
        returns (r: Outcome<()>)
      requires dual == price(cons.handle)
      requires Stale()
      requires Applied(dm.networks, dm.arcNetwork, w0, Weights(dm.networks), done)
      modifies dm.networks.Values
      ensures Stale()
      ensures r.Ok? <==> Resolved(dm.networks, dm.arcNetwork, ContributionsOf(cons, price))
      ensures r.Ok? ==> Applied(dm.networks, dm.arcNetwork, w0, Weights(dm.networks), done + ContributionsOf(cons, price))
      ensures r.Abort? ==> exists k :: FirstUnresolved(dm.networks, dm.arcNetwork, ContributionsOf(cons, price), k) &&
                                       r.context == FailureContext(dm.networks, dm.arcNetwork, ContributionsOf(cons, price)[k].0)
    {
      if dual == 0.0 {
        assert done + [] == done;
        return Ok(());
      }
      r := AddConstraintWeights(cons.arcs, dual, w0, done);
      if r.Abort? {
        ghost var k :| FirstUnresolved(dm.networks, dm.arcNetwork, Scaled(cons.arcs, dual), k) &&
                 r.context == FailureContext(dm.networks, dm.arcNetwork, cons.arcs[k].0);
        ScaledAt(cons.arcs, dual, k);
      }
    }

    /** `set_arc_weights`: the constraints in order, each with its price
        (the negated dual value, or the negated Farkas value in a Farkas
        round), put their contributions on the arcs. An arc whose network
        cannot be found, or which its network does not know, aborts. */
    method SetArcWeights(duals: Duals, farkas: bool) returns (r: Outcome<()>)
      requires Stale()
      modifies dm.networks.Values
      ensures Stale()
      ensures r.Ok? <==> Resolved(dm.networks, dm.arcNetwork, Contributions(dm.constraints, Price(duals, farkas)))
      ensures r.Ok? ==> Applied(dm.networks, dm.arcNetwork, old(Weights(dm.networks)), Weights(dm.networks),
                                Contributions(dm.constraints, Price(duals, farkas)))
      ensures r.Abort? ==>
                var cs := Contributions(dm.constraints, Price(duals, farkas));
                exists k :: FirstUnresolved(dm.networks, dm.arcNetwork, cs, k) &&
                            r.context == FailureContext(dm.networks, dm.arcNetwork, cs[k].0)
    {
      ghost var price := Price(duals, farkas);
      ghost var w0 := Weights(dm.networks);
      forall g | g in dm.networks
        ensures ArcToEdgeSound(dm.networks[g].nodes, dm.networks[g].edges, dm.networks[g].arcToEdge)
        ensures |w0[g]| == |dm.networks[g].edges|
      {
        assert NetStale(dm.networks[g], g);
      }
      AppliedNone(dm.networks, dm.arcNetwork, w0);
      var cs := dm.constraints;
      assert cs[..0] == [];
      for i := 0 to |cs|
        invariant Stale()
        invariant Resolved(dm.networks, dm.arcNetwork, Contributions(cs[..i], price))
        invariant Applied(dm.networks, dm.arcNetwork, w0, Weights(dm.networks), Contributions(cs[..i], price))
      {
        var cons := cs[i];
        var dual := if farkas then -duals.farkas(cons.handle) else -duals.solution(cons.handle);
        ghost var before := Contributions(cs[..i], price);
        r := AddConstraintPrice(cons, dual, price, w0, before);
        assert cs[..i + 1] == cs[..i] + [cons];
        ContributionsSnoc(cs[..i], cons, price);
        if r.Abort? {
          ghost var k :| FirstUnresolved(dm.networks, dm.arcNetwork, ContributionsOf(cons, price), k) &&
                   r.context == FailureContext(dm.networks, dm.arcNetwork, ContributionsOf(cons, price)[k].0);
          assert cs[..i + 1] + cs[i + 1..] == cs;
          ContributionsAppend(cs[..i + 1], cs[i + 1..], price);
          FirstUnresolvedShift(dm.networks, dm.arcNetwork, before, ContributionsOf(cons, price),
                               Contributions(cs[i + 1..], price), k);
          return;
        }
        ResolvedAppend(dm.networks, dm.arcNetwork, before, ContributionsOf(cons, price));
      }
      assert cs[..|cs|] == cs;
      r := Ok(());
    }

    /** `add_variable`: the column goes into every recorded constraint with
        the recorded coefficient, in order. */
    method AddVariable(name: string, cds: seq<ConstraintData>)
      modifies master
      ensures master.coefficients == old(master.coefficients) + Attach(name, cds)
      ensures master.columns == old(master.columns) && master.deletedConss == old(master.deletedConss)
      ensures master.deletedCoefs == old(master.deletedCoefs) && master.modifiable == old(master.modifiable)
    {
      assert cds[..0] == [];
      for i := 0 to |cds|
        invariant master.coefficients == old(master.coefficients) + Attach(name, cds[..i])
        invariant master.columns == old(master.columns) && master.deletedConss == old(master.deletedConss)
        invariant master.deletedCoefs == old(master.deletedCoefs) && master.modifiable == old(master.modifiable)
      {
        assert cds[..i + 1][..i] == cds[..i];
        master.AddCoefLinear(Coefficient(cds[i].0, name, cds[i].1));
      }
      assert cds[..|cds|] == cds;
    }

    /** `generate_columns`: a continuous variable named after the counter,
        with bounds 0 and infinity and objective 0, is priced in; it goes into
        the constraints recorded for each arc of the path; and the path is
        recorded under its name. The counter itself is left to the caller. */
    method GenerateColumns(path: Path)
      modifies master, dm
      ensures master.columns == old(master.columns) + [PricedColumn(ColumnName(nGeneratedPaths))]
      ensures master.coefficients ==
              old(master.coefficients) + ColumnCoefficients(ColumnName(nGeneratedPaths), path.arcs, dm.arcConstraints)
      ensures master.deletedConss == old(master.deletedConss) && master.deletedCoefs == old(master.deletedCoefs)
      ensures master.modifiable == old(master.modifiable)
      ensures dm.varPaths == MapInsert(old(dm.varPaths), ColumnName(nGeneratedPaths), path)
      ensures dm.constraints == old(dm.constraints) && dm.networks == old(dm.networks)
      ensures dm.arcConstraints == old(dm.arcConstraints) && dm.arcNetwork == old(dm.arcNetwork)
    {
      var name := ColumnName(nGeneratedPaths);
      master.AddPricedVar(PricedColumn(name));
      assert path.arcs[..0] == [];
      for i := 0 to |path.arcs|
        invariant master.columns == old(master.columns) + [PricedColumn(name)]
        invariant master.coefficients ==
                  old(master.coefficients) + ColumnCoefficients(name, path.arcs[..i], dm.arcConstraints)
        invariant master.deletedConss == old(master.deletedConss) && master.deletedCoefs == old(master.deletedCoefs)
        invariant master.modifiable == old(master.modifiable)
        invariant unchanged(dm)
      {
        assert path.arcs[..i + 1][..i] == path.arcs[..i];
        var found := dm.GetConstraintsOfArc(path.arcs[i]);
        if found.Some? {
          AddVariable(name, found.value);
        }
      }
      assert path.arcs[..|path.arcs|] == path.arcs;
      dm.AddVarPathPair(name, path);
    }

    /** The columns generated so far: from the master problem's columns
        `cols0` and coefficients `coefs0`, the registry's recorded paths
        `vp0` and the counter value `n0`, each of `paths` has been turned
        into a column, in order, and counted. */
    ghost predicate Generated(cols0: seq<Column>, coefs0: seq<Coefficient>, vp0: map<string, Path>,
                              n0: nat, paths: seq<Path>)
      reads this, master, dm
    {
      nGeneratedPaths == n0 + |paths| &&
      master.columns == cols0 + ColumnsFor(n0, paths) &&
      master.coefficients == coefs0 + CoefficientsFor(n0, paths, dm.arcConstraints) &&
      dm.varPaths == Recorded(vp0, n0, paths)
    }

    /** What the strategy selects, for the current weights. */
    ghost predicate Selected(paths: seq<Path>)
      reads dm, dm.networks.Values
    {
      match strategy
      case Full => SelectedFull(dm.networks, Weights(dm.networks), paths)
      case KShortest(k) => SelectedK(dm.networks, Weights(dm.networks), k, paths)
    }

    /** `shortest_path` on the network of group `g`: only that network's
        cache changes, so every network stays ready with its weights. */
    method RefreshNetwork(g: int, net: Network, ghost w: map<int, seq<real>>) returns (p: Path)
      requires Steady(w) && g in dm.networks && net == dm.networks[g]
      modifies net
      ensures Steady(w)
      ensures net.Valid() && WellFormed(Dag(net.nodes, net.edges, net.weights))
      ensures IsShortestPath(Dag(net.nodes, net.edges, net.weights), net.source, net.sink, net.group, p)
    {
      assert NetReady(net, g);
      p := net.ShortestPath();
      forall h | h in dm.networks && h != g
        ensures NetReady(dm.networks[h], h) && dm.networks[h].weights == w[h]
      {
        assert dm.networks[h] != net;
        assert old(NetReady(dm.networks[h], h));
      }
      assert NetReady(net, g);
      ReadyFromEach(dm.networks, g);
      WeightsFromEach(dm.networks, g, w);
    }

    /** The shortest path of the network of group `g`, which is negative
        exactly when the network has a negative walk. */
    method NetworkPath(g: int, ghost w: map<int, seq<real>>) returns (p: Path)
      requires Steady(w) && g in dm.networks
      modifies dm.networks[g]
      ensures Steady(w)
      ensures p.networkGroup == g && ShortestIn(dm.networks[g], w[g], p)
      ensures p.length < 0.0 <==> g in NegativeGroups(dm.networks, w)
    {
      var net := dm.networks[g];
      assert NetReady(net, g);
      p := RefreshNetwork(g, net, w);
      assert NetReady(net, g);
      ShortestNegativeIff(Dag(net.nodes, net.edges, net.weights), net.source, net.sink, g, p);
    }

    /** What both strategies do with a path they keep: `generate_columns`,
        then the generated-paths counter goes up. */
    method CountedColumns(p: Path, ghost cols0: seq<Column>, ghost coefs0: seq<Coefficient>,
                          ghost vp0: map<string, Path>, ghost n0: nat, ghost paths: seq<Path>)
      requires Generated(cols0, coefs0, vp0, n0, paths)
      modifies this`nGeneratedPaths, master, dm
      ensures Generated(cols0, coefs0, vp0, n0, paths + [p])
      ensures master.Edits() == old(master.Edits())
      ensures dm.constraints == old(dm.constraints) && dm.networks == old(dm.networks)
      ensures dm.arcConstraints == old(dm.arcConstraints) && dm.arcNetwork == old(dm.arcNetwork)
    {
      GenerateColumns(p);
      GeneratedStep(n0, paths, p, dm.arcConstraints, vp0);
      AppendAssoc(cols0, ColumnsFor(n0, paths), [PricedColumn(ColumnName(n0 + |paths|))]);
      AppendAssoc(coefs0, CoefficientsFor(n0, paths, dm.arcConstraints),
                  ColumnCoefficients(ColumnName(n0 + |paths|), p.arcs, dm.arcConstraints));
      nGeneratedPaths := nGeneratedPaths + 1;
    }

    /** `CountedColumns` touches no network, so they stay ready with their
        weights. */
    method AddPath(p: Path, ghost w: map<int, seq<real>>, ghost cols0: seq<Column>, ghost coefs0: seq<Coefficient>,
                   ghost vp0: map<string, Path>, ghost n0: nat, ghost paths: seq<Path>)
      requires Steady(w) && Generated(cols0, coefs0, vp0, n0, paths)
      modifies this`nGeneratedPaths, master, dm
      ensures Steady(w)
      ensures Generated(cols0, coefs0, vp0, n0, paths + [p])
      ensures master.Edits() == old(master.Edits())
      ensures dm.constraints == old(dm.constraints) && dm.networks == old(dm.networks)
      ensures dm.arcConstraints == old(dm.arcConstraints) && dm.arcNetwork == old(dm.arcNetwork)
    {
      ghost var nets := dm.networks;
      assert NetworksReady(nets) && Weights(nets) == w;
      CountedColumns(p, cols0, coefs0, vp0, n0, paths);
      assert NetworksReady(nets) && Weights(nets) == w;
    }

    /** One task of `FullPricer::shortest_path_cg`: the shortest path of
        the network of group `g`, turned into a column when negative. */
    method FullVisit(g: int, ghost w: map<int, seq<real>>, ghost neg: set<int>, ghost todo: set<int>,
                     ghost groups: set<int>, ghost cols0: seq<Column>, ghost coefs0: seq<Coefficient>,
                     ghost vp0: map<string, Path>, ghost n0: nat, ghost paths: seq<Path>)
        returns (added: bool, p: Path)
      requires Steady(w) && g in todo && todo <= dm.networks.Keys
      requires Generated(cols0, coefs0, vp0, n0, paths) && FullProgress(dm.networks, w, neg, todo, groups, paths)
      requires neg == NegativeGroups(dm.networks, w)
      modifies this`nGeneratedPaths, master, dm, dm.networks[g]
      ensures Steady(w)
      ensures dm.networks == old(dm.networks) && dm.constraints == old(dm.constraints)
      ensures dm.arcConstraints == old(dm.arcConstraints) && dm.arcNetwork == old(dm.arcNetwork)
      ensures master.Edits() == old(master.Edits())
      ensures added ==> Generated(cols0, coefs0, vp0, n0, paths + [p]) &&
                        FullProgress(dm.networks, w, neg, todo - {g}, groups + {g}, paths + [p])
      ensures !added ==> Generated(cols0, coefs0, vp0, n0, paths) &&
                         FullProgress(dm.networks, w, neg, todo - {g}, groups, paths)
    {
      p := NetworkPath(g, w);
      added := p.length < 0.0;
      if added {
        FullProgressStep(dm.networks, w, neg, todo, groups, paths, g, p);
        AddPath(p, w, cols0, coefs0, vp0, n0, paths);
      } else {
        FullProgressSkip(dm.networks, w, neg, todo, groups, paths, g);
      }
    }

    /** `FullPricer::shortest_path_cg`: every network's shortest path is
        computed, and each negative one becomes a column. The count it
        returns is the number of networks with a negative walk. */
    method FullShortestPathCG() returns (count: nat, ghost paths: seq<Path>)
      requires Ready()
      modifies this`nGeneratedPaths, master, dm, dm.networks.Values
      ensures Ready() && Weights(dm.networks) == old(Weights(dm.networks))
      ensures dm.networks == old(dm.networks) && dm.constraints == old(dm.constraints)
      ensures dm.arcConstraints == old(dm.arcConstraints) && dm.arcNetwork == old(dm.arcNetwork)
      ensures master.Edits() == old(master.Edits())
      ensures Generated(old(master.columns), old(master.coefficients), old(dm.varPaths), old(nGeneratedPaths), paths)
      ensures count == |paths| && SelectedFull(dm.networks, Weights(dm.networks), paths)
    {
      ghost var w := Weights(dm.networks);
      ghost var cols0, coefs0, vp0, n0 := master.columns, master.coefficients, dm.varPaths, nGeneratedPaths;
      ghost var neg := NegativeGroups(dm.networks, w);
      ghost var groups: set<int> := {};
      count, paths := 0, [];
      var todo := dm.networks.Keys;
      FullProgressStart(dm.networks, w);
      while |todo| > 0
        invariant todo <= dm.networks.Keys
        invariant Steady(w)
        invariant dm.networks == old(dm.networks) && dm.constraints == old(dm.constraints)
        invariant dm.arcConstraints == old(dm.arcConstraints) && dm.arcNetwork == old(dm.arcNetwork)
        invariant master.Edits() == old(master.Edits())
        invariant Generated(cols0, coefs0, vp0, n0, paths)
        invariant count == |paths| && FullProgress(dm.networks, w, neg, todo, groups, paths)
        decreases |todo|
      {
        NonEmptyHasElement(todo);
        var g :| g in todo;
        var added, p := FullVisit(g, w, neg, todo, groups, cols0, coefs0, vp0, n0, paths);
        if added {
          count := count + 1;
          paths := paths + [p];
          groups := groups + {g};
        }
        todo := todo - {g};
      }
      FullProgressDone(dm.networks, w, groups, paths);
    }

    /** The first half of `KShortestPricer::shortest_path_cg`: every
        network's shortest path is computed and the negative ones are
        collected, one for each network with a negative walk. */
    method NegativePaths(ghost w: map<int, seq<real>>) returns (cands: seq<Path>, ghost groups: set<int>)
      requires Steady(w)
      modifies dm.networks.Values
      ensures Steady(w)
      ensures FullProgress(dm.networks, w, NegativeGroups(dm.networks, w), {}, groups, cands)
    {
      ghost var neg := NegativeGroups(dm.networks, w);
      cands, groups := [], {};
      var todo := dm.networks.Keys;
      FullProgressStart(dm.networks, w);
      while |todo| > 0
        invariant todo <= dm.networks.Keys && dm.networks == old(dm.networks)
        invariant Steady(w) && FullProgress(dm.networks, w, neg, todo, groups, cands)
        decreases |todo|
      {
        NonEmptyHasElement(todo);
        var g :| g in todo;
        var p := NetworkPath(g, w);
        if p.length < 0.0 {
          FullProgressStep(dm.networks, w, neg, todo, groups, cands, g, p);
          cands := cands + [p];
          groups := groups + {g};
        } else {
          FullProgressSkip(dm.networks, w, neg, todo, groups, cands, g);
        }
        todo := todo - {g};
      }
    }

    /** One task of the second half of `KShortestPricer::shortest_path_cg`:
        the path's network is looked up (and not used), and the path becomes
        a column when its length is negative, which a candidate's is. */
    method AddKeptPath(p: Path, ghost w: map<int, seq<real>>, ghost cols0: seq<Column>, ghost coefs0: seq<Coefficient>,
                       ghost vp0: map<string, Path>, ghost n0: nat, ghost paths: seq<Path>)
      requires Steady(w) && Candidate(dm.networks, w, p) && Generated(cols0, coefs0, vp0, n0, paths)
      modifies this`nGeneratedPaths, master, dm
      ensures Steady(w)
      ensures Generated(cols0, coefs0, vp0, n0, paths + [p])
      ensures master.Edits() == old(master.Edits())
      ensures dm.constraints == old(dm.constraints) && dm.networks == old(dm.networks)
      ensures dm.arcConstraints == old(dm.arcConstraints) && dm.arcNetwork == old(dm.arcNetwork)
    {
      var net := dm.GetNetwork(p.networkGroup);
      assert net.Ok?;
      if p.length < 0.0 {
        AddPath(p, w, cols0, coefs0, vp0, n0, paths);
      }
    }

    /** The second half of `KShortestPricer::shortest_path_cg`: every kept
        path becomes a column, in order. */
    method AddKept(kept: seq<Path>, ghost w: map<int, seq<real>>) returns (count: nat)
      requires Steady(w)
      requires forall i :: 0 <= i < |kept| ==> Candidate(dm.networks, w, kept[i])
      modifies this`nGeneratedPaths, master, dm
      ensures Steady(w)
      ensures dm.networks == old(dm.networks) && dm.constraints == old(dm.constraints)
      ensures dm.arcConstraints == old(dm.arcConstraints) && dm.arcNetwork == old(dm.arcNetwork)
      ensures master.Edits() == old(master.Edits())
      ensures Generated(old(master.columns), old(master.coefficients), old(dm.varPaths), old(nGeneratedPaths), kept)
      ensures count == |kept|
    {
      ghost var cols0, coefs0, vp0, n0 := master.columns, master.coefficients, dm.varPaths, nGeneratedPaths;
      count := 0;
      for i := 0 to |kept|
        invariant Steady(w)
        invariant dm.networks == old(dm.networks) && dm.constraints == old(dm.constraints)
        invariant dm.arcConstraints == old(dm.arcConstraints) && dm.arcNetwork == old(dm.arcNetwork)
        invariant master.Edits() == old(master.Edits())
        invariant Generated(cols0, coefs0, vp0, n0, kept[..i])
        invariant count == i
      {
        AddKeptPath(kept[i], w, cols0, coefs0, vp0, n0, kept[..i]);
        count := count + 1;
        TakeSnoc(kept, i);
      }
      assert kept[..|kept|] == kept;
    }

    /** `KShortestPricer::shortest_path_cg`: the negative shortest paths
        are collected; when there are more than `k`, they are sorted by
        length and all but the first `k` dropped; each path left whose
        length is still negative becomes a column. */
    method KShortestShortestPathCG() returns (count: nat, ghost paths: seq<Path>)
      requires Ready() && strategy.KShortest?
      modifies this`nGeneratedPaths, master, dm, dm.networks.Values
      ensures Ready() && Weights(dm.networks) == old(Weights(dm.networks))
      ensures dm.networks == old(dm.networks) && dm.constraints == old(dm.constraints)
      ensures dm.arcConstraints == old(dm.arcConstraints) && dm.arcNetwork == old(dm.arcNetwork)
      ensures master.Edits() == old(master.Edits())
      ensures Generated(old(master.columns), old(master.coefficients), old(dm.varPaths), old(nGeneratedPaths), paths)
      ensures count == |paths| && SelectedK(dm.networks, Weights(dm.networks), strategy.k, paths)
    {
      ghost var w := Weights(dm.networks);
      var cands;
      ghost var groups;
      cands, groups := NegativePaths(w);
      var kept := cands;
      if strategy.k < |cands| {
        kept := SortByLength(cands)[..strategy.k];
      }
      assert kept == KeepShortest(cands, strategy.k);
      KeepShortestSelects(dm.networks, w, groups, cands, strategy.k);
      count := AddKept(kept, w);
      paths := kept;
    }

    /** `shortest_path_cg`, which the strategy provides. */
    method ShortestPathCG() returns (count: nat, ghost paths: seq<Path>)
      requires Ready()
      modifies this`nGeneratedPaths, master, dm, dm.networks.Values
      ensures Ready() && Weights(dm.networks) == old(Weights(dm.networks))
      ensures dm.networks == old(dm.networks) && dm.constraints == old(dm.constraints)
      ensures dm.arcConstraints == old(dm.arcConstraints) && dm.arcNetwork == old(dm.arcNetwork)
      ensures master.Edits() == old(master.Edits())
      ensures Generated(old(master.columns), old(master.coefficients), old(dm.varPaths), old(nGeneratedPaths), paths)
      ensures count == |paths| && Selected(paths)
    {
      match strategy
      case Full =>
        count, paths := FullShortestPathCG();
      case KShortest(_) =>
        count, paths := KShortestShortestPathCG();
    }

    /** The first two steps of `pricing`: `zero_arc_weights`, then
        `set_arc_weights`. When no arc is left unresolved, every arc weighs
        what the round's prices put on it. */
    method WeighArcs(duals: Duals, farkas: bool) returns (r: Outcome<()>)
      requires Ready()
      modifies dm.networks.Values
      ensures r.Ok? <==> Resolved(dm.networks, dm.arcNetwork, Contributions(dm.constraints, Price(duals, farkas)))
      ensures r.Abort? ==>
                var cs := Contributions(dm.constraints, Price(duals, farkas));
                exists k :: FirstUnresolved(dm.networks, dm.arcNetwork, cs, k) &&
                            r.context == FailureContext(dm.networks, dm.arcNetwork, cs[k].0)
      ensures r.Ok? ==> Ready() && PricedWeights(dm.networks, dm.arcNetwork, Weights(dm.networks),
                                                 dm.constraints, Price(duals, farkas))
    {
      ZeroArcWeights();
      ghost var w0 := Weights(dm.networks);
      r := SetArcWeights(duals, farkas);
      if r.Ok? {
        PricedRound(dm.networks, dm.arcNetwork, w0, Weights(dm.networks), dm.constraints, Price(duals, farkas));
        StaleIsReady(dm.networks);
      }
    }

    /** `pricing` before the iteration counter goes up. */
    method PricingRound(duals: Duals, farkas: bool) returns (r: Outcome<nat>, ghost paths: seq<Path>)
      requires Ready()
      modifies this`nGeneratedPaths, master, dm, dm.networks.Values
      ensures dm.networks == old(dm.networks) && dm.constraints == old(dm.constraints)
      ensures dm.arcConstraints == old(dm.arcConstraints) && dm.arcNetwork == old(dm.arcNetwork)
      ensures master.Edits() == old(master.Edits())
      ensures r.Ok? <==> Resolved(dm.networks, dm.arcNetwork, Contributions(dm.constraints, Price(duals, farkas)))
      ensures r.Abort? ==>
                var cs := Contributions(dm.constraints, Price(duals, farkas));
                exists k :: FirstUnresolved(dm.networks, dm.arcNetwork, cs, k) &&
                            r.context == FailureContext(dm.networks, dm.arcNetwork, cs[k].0)
      ensures r.Ok? ==> Ready() && PricedWeights(dm.networks, dm.arcNetwork, Weights(dm.networks),
                                                 dm.constraints, Price(duals, farkas))
      ensures r.Ok? ==> Generated(old(master.columns), old(master.coefficients), old(dm.varPaths),
                                  old(nGeneratedPaths), paths)
      ensures r.Ok? ==> r.value == |paths| && Selected(paths)
    {
      var weighed := WeighArcs(duals, farkas);
      if weighed.Abort? {
        return Abort(weighed.context), [];
      }
      var count;
      count, paths := ShortestPathCG();
      r := Ok(count);
    }

    /** `pricing`: all weights are reset, the constraints' prices are put on
        the arcs, the strategy turns shortest paths into columns, and the
        iteration counter goes up. An arc whose network or edge cannot be
        found aborts the round. */
    method Pricing(duals: Duals, farkas: bool) returns (r: Outcome<nat>, ghost paths: seq<Path>)
      requires Ready()
      modifies this, master, dm, dm.networks.Values
      ensures dm.networks == old(dm.networks) && dm.constraints == old(dm.constraints)
      ensures dm.arcConstraints == old(dm.arcConstraints) && dm.arcNetwork == old(dm.arcNetwork)
      ensures master.Edits() == old(master.Edits())
      ensures r.Ok? <==> Resolved(dm.networks, dm.arcNetwork, Contributions(dm.constraints, Price(duals, farkas)))
      ensures r.Abort? ==>
                var cs := Contributions(dm.constraints, Price(duals, farkas));
                exists k :: FirstUnresolved(dm.networks, dm.arcNetwork, cs, k) &&
                            r.context == FailureContext(dm.networks, dm.arcNetwork, cs[k].0)
      ensures r.Ok? ==> Ready() && PricedWeights(dm.networks, dm.arcNetwork, Weights(dm.networks),
                                                 dm.constraints, Price(duals, farkas))
      ensures r.Ok? ==> Generated(old(master.columns), old(master.coefficients), old(dm.varPaths),
                                  old(nGeneratedPaths), paths)
      ensures r.Ok? ==> r.value == |paths| && Selected(paths) && nIterations == old(nIterations) + 1
    {
      r, paths := PricingRound(duals, farkas);
      if r.Ok? {
        nIterations := nIterations + 1;
      }
    }

    /** `scip_redcost`: the result is always success, then a pricing round
        with the LP solution's duals. */
    method ScipRedcost(duals: Duals) returns (result: PricerResult, r: Outcome<nat>, ghost paths: seq<Path>)
      requires Ready()
      modifies this, master, dm, dm.networks.Values
      ensures result == Success
      ensures r.Ok? <==> Resolved(dm.networks, dm.arcNetwork, Contributions(dm.constraints, Price(duals, false)))
      ensures r.Ok? ==> Ready() && PricedWeights(dm.networks, dm.arcNetwork, Weights(dm.networks),
                                                 dm.constraints, Price(duals, false))
      ensures r.Ok? ==> Generated(old(master.columns), old(master.coefficients), old(dm.varPaths),
                                  old(nGeneratedPaths), paths)
      ensures r.Ok? ==> r.value == |paths| && Selected(paths) && nIterations == old(nIterations) + 1
    {
      result := Success;
      r, paths := Pricing(duals, false);
    }

    /** `scip_farkas`: the result is always success, then a pricing round
        with the Farkas proof's values. */
    method ScipFarkas(duals: Duals) returns (result: PricerResult, r: Outcome<nat>, ghost paths: seq<Path>)
      requires Ready()
      modifies this, master, dm, dm.networks.Values
      ensures result == Success
      ensures r.Ok? <==> Resolved(dm.networks, dm.arcNetwork, Contributions(dm.constraints, Price(duals, true)))
      ensures r.Ok? ==> Ready() && PricedWeights(dm.networks, dm.arcNetwork, Weights(dm.networks),
                                                 dm.constraints, Price(duals, true))
      ensures r.Ok? ==> Generated(old(master.columns), old(master.coefficients), old(dm.varPaths),
                                  old(nGeneratedPaths), paths)
      ensures r.Ok? ==> r.value == |paths| && Selected(paths) && nIterations == old(nIterations) + 1
    {
      result := Success;
      r, paths := Pricing(duals, true);
    }
  }
}
