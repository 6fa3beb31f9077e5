/** The registry the pricer works from (`DataManager`): the pricing
    constraints, the networks by group, the constraints each arc's y-variable
    appeared in, the group of each `netzwerk` value and the path of each
    generated column. */
module Registry {

  import opened Outcomes
  import opened Text
  import opened Values
  import opened Networks

  /** A constraint an arc's y-variable appeared in, with its coefficient. */
  type ConstraintData = (ConsId, real)

  /** `add_scip_constraint_to_arc` on the arc-to-constraints map: the pair
      goes at the end of the arc's list, which is created when the arc has
      none; no other arc's list changes. */
  function AppendConstraint(m: map<Arc, seq<ConstraintData>>, arc: Arc, entry: ConstraintData)
    : (r: map<Arc, seq<ConstraintData>>)
    ensures r.Keys == m.Keys + {arc}
    ensures arc in m ==> r[arc] == m[arc] + [entry]
    ensures arc !in m ==> r[arc] == [entry]
    ensures forall a :: a in m && a != arc ==> r[a] == m[a]
  {
    if arc in m then m[arc := m[arc] + [entry]] else m[arc := [entry]]
  }

  /** The pairs recorded for `arc` by a sequence of `AppendConstraint`
      calls, in call order. */
  function EntriesFor(calls: seq<(Arc, ConstraintData)>, arc: Arc): (r: seq<ConstraintData>)
  {
    if calls == [] then []
    else EntriesFor(calls[..|calls| - 1], arc) +
         (if calls[|calls| - 1].0 == arc then [calls[|calls| - 1].1] else [])
  }

  /** The map after a sequence of `AppendConstraint` calls. */
  function AppendAll(m: map<Arc, seq<ConstraintData>>, calls: seq<(Arc, ConstraintData)>)
    : (r: map<Arc, seq<ConstraintData>>)
  {
    if calls == [] then m
    else AppendConstraint(AppendAll(m, calls[..|calls| - 1]), calls[|calls| - 1].0, calls[|calls| - 1].1)
  }

  /** Starting from an empty map, every arc's list holds exactly its pairs
      in insertion order, and an arc is present iff some call named it. */
  lemma {:induction false} AppendAllInOrder(calls: seq<(Arc, ConstraintData)>, arc: Arc)
    ensures arc in AppendAll(map[], calls) <==> EntriesFor(calls, arc) != []
    ensures arc in AppendAll(map[], calls) ==> AppendAll(map[], calls)[arc] == EntriesFor(calls, arc)
  {
    if calls != [] {
      AppendAllInOrder(calls[..|calls| - 1], arc);
    }
  }

  /** `add_arcs_of_network` on the `netzwerk`-to-group map: each arc's
      source `netzwerk` is inserted with the group, keeping a value already
      present. */
  function RecordArcs(m: map<int, int>, group: int, arcs: seq<Arc>): (r: map<int, int>)
  {
    if arcs == [] then m
    else MapInsert(RecordArcs(m, group, arcs[..|arcs| - 1]), arcs[|arcs| - 1].source.netzwerk as int, group)
  }

  /** Every arc's `netzwerk` gets a group; a key already present keeps its
      group, and a new one gets the network's. */
  lemma {:induction false} RecordArcsSpec(m: map<int, int>, group: int, arcs: seq<Arc>)
    ensures RecordArcs(m, group, arcs).Keys == m.Keys + (set a | a in arcs :: a.source.netzwerk as int)
    ensures forall k :: k in m ==> RecordArcs(m, group, arcs)[k] == m[k]
    ensures forall k :: k in RecordArcs(m, group, arcs) && k !in m ==> RecordArcs(m, group, arcs)[k] == group
  {
    if arcs != [] {
      var init := arcs[..|arcs| - 1];
      RecordArcsSpec(m, group, init);
      assert arcs == init + [arcs[|arcs| - 1]];
      assert (set a | a in arcs :: a.source.netzwerk as int) ==
             (set a | a in init :: a.source.netzwerk as int) + {arcs[|arcs| - 1].source.netzwerk as int};
    }
  }

  /** Every group holds its own network object, as a map of values does. */
  predicate DistinctNetworks(networks: map<int, Network>)
  {
    forall g, h :: g in networks && h in networks && g != h ==> networks[g] != networks[h]
  }

  class DataManager {
    var constraints: seq<Constraint>
    var networks: map<int, Network>
    var arcConstraints: map<Arc, seq<ConstraintData>>
    var arcNetwork: map<int, int>          // `netzwerk` field -> group
    var varPaths: map<string, Path>        // generated column name -> path

    /** A registry with nothing recorded. */
    constructor ()
      ensures constraints == [] && networks == map[] && arcConstraints == map[]
      ensures arcNetwork == map[] && varPaths == map[]
    {
      constraints := [];
      networks := map[];
      arcConstraints := map[];
      arcNetwork := map[];
      varPaths := map[];
    }

    /** `get_network(group)`: the stored network itself; a group without one
        aborts with the group. */
    function GetNetwork(group: int): (r: Outcome<Network>)
      reads this
      ensures r.Ok? <==> group in networks
      ensures r.Ok? ==> r.value == networks[group]
      ensures r.Abort? ==> r.context == IntToString(group)
    {
      if group in networks then Ok(networks[group]) else Abort(IntToString(group))
    }

    /** `get_network(arc)`: the group of the arc's source `netzwerk`, then
        its network. An unknown `netzwerk` aborts with the arc's rendering, a
        group without a network with the group. */
    function GetNetworkByArc(arc: Arc): (r: Outcome<Network>)
      reads this
      ensures r.Ok? <==> arc.source.netzwerk in arcNetwork && arcNetwork[arc.source.netzwerk] in networks
      ensures r.Ok? ==> r.value == networks[arcNetwork[arc.source.netzwerk]]
      ensures r.Abort? && arc.source.netzwerk !in arcNetwork ==> r.context == ArcToString(arc)
      ensures r.Abort? && arc.source.netzwerk in arcNetwork ==>
                r.context == IntToString(arcNetwork[arc.source.netzwerk])
    {
      if arc.source.netzwerk !in arcNetwork then Abort(ArcToString(arc))
      else GetNetwork(arcNetwork[arc.source.netzwerk])
    }

    /** `get_constraints_of_arc`: the arc's list of (constraint,
        coefficient) pairs, or none. */
    function GetConstraintsOfArc(arc: Arc): (r: Option<seq<ConstraintData>>)
      reads this
      ensures r.Some? <==> arc in arcConstraints
      ensures r.Some? ==> r.value == arcConstraints[arc]
    {
      if arc in arcConstraints then Some(arcConstraints[arc]) else None
    }

    /** `get_path`: the path recorded for a generated column, or none. */
    function GetPath(varname: string): (r: Option<Path>)
      reads this
      ensures r.Some? <==> varname in varPaths
      ensures r.Some? ==> r.value == varPaths[varname]
    {
      if varname in varPaths then Some(varPaths[varname]) else None
    }

    /** `add_constraint`: appended at the end. */
    method AddConstraint(cons: Constraint)
      modifies this
      ensures constraints == old(constraints) + [cons]
      ensures networks == old(networks) && arcConstraints == old(arcConstraints)
      ensures arcNetwork == old(arcNetwork) && varPaths == old(varPaths)
    {
      constraints := constraints + [cons];
    }

    /** `add_network`: inserted under the group unless the group already has
        a network, which is kept. The object must not be stored under another
        group already (the map stores its own copy). */
    method AddNetwork(group: int, net: Network)
      modifies this
      requires DistinctNetworks(networks) && net !in networks.Values
      ensures DistinctNetworks(networks)
      ensures networks == MapInsert(old(networks), group, net)
      ensures constraints == old(constraints) && arcConstraints == old(arcConstraints)
      ensures arcNetwork == old(arcNetwork) && varPaths == old(varPaths)
    {
      networks := MapInsert(networks, group, net);
    }

    /** `add_scip_constraint_to_arc`. */
    method AddScipConstraintToArc(arc: Arc, cons: ConsId, coeff: real)
      modifies this
      ensures arcConstraints == AppendConstraint(old(arcConstraints), arc, (cons, coeff))
      ensures constraints == old(constraints) && networks == old(networks)
      ensures arcNetwork == old(arcNetwork) && varPaths == old(varPaths)
    {
      if arc !in arcConstraints {
        var consOfArc := [(cons, coeff)];
        arcConstraints := arcConstraints[arc := consOfArc];
      } else {
        arcConstraints := arcConstraints[arc := arcConstraints[arc] + [(cons, coeff)]];
      }
    }

    /** `add_arcs_of_network`: every arc's source `netzwerk` is mapped to the
        group, the first mapping of a key winning. */
    method AddArcsOfNetwork(group: int, arcs: seq<Arc>)
      modifies this
      ensures arcNetwork == RecordArcs(old(arcNetwork), group, arcs)
      ensures constraints == old(constraints) && networks == old(networks)
      ensures arcConstraints == old(arcConstraints) && varPaths == old(varPaths)
    {
      for i := 0 to |arcs|
        invariant arcNetwork == RecordArcs(old(arcNetwork), group, arcs[..i])
        invariant constraints == old(constraints) && networks == old(networks)
        invariant arcConstraints == old(arcConstraints) && varPaths == old(varPaths)
      {
        assert arcs[..i + 1][..i] == arcs[..i];
        arcNetwork := MapInsert(arcNetwork, arcs[i].source.netzwerk as int, group);
      }
      assert arcs[..|arcs|] == arcs;
    }

    /** `add_var_path_pair`: a name already present keeps its path. */
    method AddVarPathPair(varname: string, path: Path)
      modifies this
      ensures varPaths == MapInsert(old(varPaths), varname, path)
      ensures constraints == old(constraints) && networks == old(networks)
      ensures arcConstraints == old(arcConstraints) && arcNetwork == old(arcNetwork)
    {
      varPaths := MapInsert(varPaths, varname, path);
    }
  }

  /** Both kinds of lookup hand out the stored object, so a weight set
      through the network found by arc is seen through the network found by
      its group. */
  lemma SameNetworkByArcAndGroup(dm: DataManager, arc: Arc)
    requires dm.GetNetworkByArc(arc).Ok?
    ensures dm.GetNetwork(dm.arcNetwork[arc.source.netzwerk]) == dm.GetNetworkByArc(arc)
  {
  }
}
