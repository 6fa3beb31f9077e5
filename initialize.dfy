/** The start-up of the pricing engine (`initialize.cpp`): the networks are
    read and registered first, then `generate_maps` prunes the master
    problem's constraints by name and turns the y-variables of the remaining
    ones into the registry's constraint table and arc index. */
module Initialize {

  import opened Outcomes
  import opened Text
  import opened Values
  import opened Scans
  import opened Networks
  import opened Registry
  import opened PricingSpec
  import opened ParseLp
  import opened Scip

  // ---------------------------------------------------------------------
  // What `generate_maps` computes, as functions of its inputs.

  /** A y-variable found in a constraint: its name, its arc and its
      coefficient there. */
  datatype Entry = Entry(name: string, arc: Arc, coef: real)

  /** What the name parser makes of each entry's name. `generate_maps`
      uses `parse_lp_var` (`ParseLpVarSpec`); the facts below hold for any
      parser. */
  function Parses(vars: seq<(string, real)>, parse: string -> ParseResult): (r: seq<ParseResult>)
    ensures |r| == |vars| && forall j :: 0 <= j < |vars| ==> r[j] == parse(vars[j].0)
  {
    seq(|vars|, j requires 0 <= j < |vars| => parse(vars[j].0))
  }

  /** The y-variables among the entries, given what each name parses to, in
      order: a name without the `y(` prefix is skipped, and the first
      malformed one aborts with its message. */
  function Collect(vars: seq<(string, real)>, parses: seq<ParseResult>): (r: Outcome<seq<Entry>>)
    requires |parses| == |vars|
  {
    if vars == [] then Ok([])
    else
      var n := |vars| - 1;
      match Collect(vars[..n], parses[..n])
      case Abort(c) => Abort(c)
      case Ok(es) =>
        match parses[n]
        case NoMatch => Ok(es)
        case Parsed(arc) => Ok(es + [Entry(vars[n].0, arc, vars[n].1)])
        case Malformed(c) => Abort(c)
  }

  /** The y-variables of a constraint's (name, coefficient) entries. */
  function YEntries(vars: seq<(string, real)>, parse: string -> ParseResult): (r: Outcome<seq<Entry>>)
  {
    Collect(vars, Parses(vars, parse))
  }

  /** The positions of the names that parse as arcs. */
  function Positions(parses: seq<ParseResult>): (r: seq<nat>)
  {
    if parses == [] then []
    else
      var n: nat := |parses| - 1;
      var last: seq<nat> := if parses[n].Parsed? then [n] else [];
      Positions(parses[..n]) + last
  }

  /** `cons.arcs` of a recorded constraint: each y-variable's arc with its
      coefficient. */
  function ArcsOf(es: seq<Entry>): (r: seq<(Arc, real)>)
    ensures |r| == |es| && forall k :: 0 <= k < |es| ==> r[k] == (es[k].arc, es[k].coef)
  {
    seq(|es|, k requires 0 <= k < |es| => (es[k].arc, es[k].coef))
  }

  /** The `SCIPdelCoefLinear` calls for the constraint at position `i`. */
  function RemovedOf(i: ConsId, es: seq<Entry>): (r: seq<(ConsId, string)>)
    ensures |r| == |es| && forall k :: 0 <= k < |es| ==> r[k] == (i, es[k].name)
  {
    seq(|es|, k requires 0 <= k < |es| => (i, es[k].name))
  }

  /** The `add_scip_constraint_to_arc` calls for a constraint's arcs. */
  function CallsOf(i: ConsId, arcs: seq<(Arc, real)>): (r: seq<(Arc, ConstraintData)>)
    ensures |r| == |arcs| && forall k :: 0 <= k < |arcs| ==> r[k] == (arcs[k].0, (i, arcs[k].1))
  {
    seq(|arcs|, k requires 0 <= k < |arcs| => (arcs[k].0, (i, arcs[k].1)))
  }

  /** Some configured substring occurs in the name. */
  ghost predicate Pruned(name: string, subs: seq<string>)
  {
    exists s :: s in subs && Contains(name, s)
  }

  /** What `generate_maps` has done to the master problem and the registry:
      the constraints deleted, the y-variables removed from constraints, the
      constraints made modifiable, the constraints recorded and the calls
      that built the arc index, each in call order. */
  datatype Effect = Effect(deleted: seq<ConsId>, removed: seq<(ConsId, string)>, modifiable: seq<ConsId>,
                           constraints: seq<Constraint>, calls: seq<(Arc, ConstraintData)>)

  /** After the y-variables `es` of constraint `i` were handled. */
  function Handled(e: Effect, i: ConsId, es: seq<Entry>): (r: Effect)
  {
    e.(removed := e.removed + RemovedOf(i, es), calls := e.calls + CallsOf(i, ArcsOf(es)))
  }

  /** One round of the outer loop, for the constraint at position `i`. */
  ghost function ConsEffect(e: Effect, i: ConsId, c: LinearCons, subs: seq<string>, parse: string -> ParseResult): (r: Outcome<Effect>)
  {
    if Pruned(c.name, subs) then Ok(e.(deleted := e.deleted + [i]))
    else
      match YEntries(c.vars, parse)
      case Abort(ctx) => Abort(ctx)
      case Ok(es) =>
        var h := Handled(e, i, es);
        if es == [] then Ok(h)
        else Ok(h.(modifiable := h.modifiable + [i], constraints := h.constraints + [Constraint(i, ArcsOf(es))]))
  }

  /** The whole of `generate_maps` over the constraints in `SCIPgetConss`
      order; a constraint's handle is its position. */
  ghost function MapsEffect(conss: seq<LinearCons>, subs: seq<string>, parse: string -> ParseResult): (r: Outcome<Effect>)
  {
    if conss == [] then Ok(Effect([], [], [], [], []))
    else
      match MapsEffect(conss[..|conss| - 1], subs, parse)
      case Abort(ctx) => Abort(ctx)
      case Ok(e) => ConsEffect(e, |conss| - 1, conss[|conss| - 1], subs, parse)
  }

  /** The state `generate_maps` works on: the master problem's records and
      the registry's tables. */
  datatype Tables = Tables(columns: seq<Column>, coefficients: seq<Coefficient>, deletedConss: seq<ConsId>,
                           deletedCoefs: seq<(ConsId, string)>, modifiable: seq<ConsId>,
                           constraints: seq<Constraint>, networks: map<int, Network>,
                           arcConstraints: map<Arc, seq<ConstraintData>>, arcNetwork: map<int, int>,
                           varPaths: map<string, Path>)

  ghost function TablesOf(master: Master, dm: DataManager): (r: Tables)
    reads master, dm
  {
    Tables(master.columns, master.coefficients, master.deletedConss, master.deletedCoefs, master.modifiable,
           dm.constraints, dm.networks, dm.arcConstraints, dm.arcNetwork, dm.varPaths)
  }

  /** The state after an effect: the records are extended and the calls
      applied to the arc index; the priced columns, the networks and the
      rest of the registry are left alone. */
  function Apply(t: Tables, e: Effect): (r: Tables)
  {
    t.(deletedConss := t.deletedConss + e.deleted, deletedCoefs := t.deletedCoefs + e.removed,
       modifiable := t.modifiable + e.modifiable, constraints := t.constraints + e.constraints,
       arcConstraints := AppendAll(t.arcConstraints, e.calls))
  }

  // ---------------------------------------------------------------------
  // Bookkeeping for the loops.

  lemma TakeAll<T>(s: seq<T>)
    ensures s[..|s|] == s
  {
  }

  lemma TakeNext<T>(s: seq<T>, j: nat)
    requires j < |s|
    ensures s[..j + 1][..j] == s[..j] && s[..j + 1][j] == s[j]
  {
  }

  /** Applying one more arc-index call. */
  lemma AppendAllSnoc(m: map<Arc, seq<ConstraintData>>, calls: seq<(Arc, ConstraintData)>, x: (Arc, ConstraintData))
    ensures AppendAll(m, calls + [x]) == AppendConstraint(AppendAll(m, calls), x.0, x.1)
  {
    assert (calls + [x])[..|calls|] == calls;
  }

  lemma RemovedSnoc(i: ConsId, es: seq<Entry>, x: Entry)
    ensures RemovedOf(i, es + [x]) == RemovedOf(i, es) + [(i, x.name)]
  {
  }

  lemma ArcsSnoc(es: seq<Entry>, x: Entry)
    ensures ArcsOf(es + [x]) == ArcsOf(es) + [(x.arc, x.coef)]
  {
  }

  lemma CallsSnoc(i: ConsId, es: seq<Entry>, x: Entry)
    ensures CallsOf(i, ArcsOf(es + [x])) == CallsOf(i, ArcsOf(es)) + [(x.arc, (i, x.coef))]
  {
  }

  /** Handling one more y-variable adds one removal and one arc-index
      call. */
  lemma HandledSnoc(e: Effect, i: ConsId, es: seq<Entry>, x: Entry)
    ensures var h := Handled(e, i, es);
            Handled(e, i, es + [x]) ==
            h.(removed := h.removed + [(i, x.name)], calls := h.calls + [(x.arc, (i, x.coef))])
  {
    RemovedSnoc(i, es, x);
    CallsSnoc(i, es, x);
  }

  /** One more removal and arc-index call, on the state. */
  lemma ApplySnoc(t: Tables, h: Effect, rm: (ConsId, string), call: (Arc, ConstraintData))
    ensures var s := Apply(t, h);
            Apply(t, h.(removed := h.removed + [rm], calls := h.calls + [call])) ==
            s.(deletedCoefs := s.deletedCoefs + [rm], arcConstraints := AppendConstraint(s.arcConstraints, call.0, call.1))
  {
    AppendAllSnoc(t.arcConstraints, h.calls, call);
  }

  /** One more entry, when the prefix had no malformed name. */
  lemma CollectSnoc(vars: seq<(string, real)>, parses: seq<ParseResult>, j: nat)
    requires |parses| == |vars| && j < |vars| && Collect(vars[..j], parses[..j]).Ok?
    ensures var es := Collect(vars[..j], parses[..j]).value;
            Collect(vars[..j + 1], parses[..j + 1]) ==
              match parses[j]
              case NoMatch => Ok(es)
              case Parsed(arc) => Ok(es + [Entry(vars[j].0, arc, vars[j].1)])
              case Malformed(c) => Abort(c)
  {
    TakeNext(vars, j);
    TakeNext(parses, j);
  }

  /** Once a prefix aborts, the whole list aborts with the same message. */
  lemma {:induction false} CollectAbortStays(vars: seq<(string, real)>, parses: seq<ParseResult>, j: nat)
    requires |parses| == |vars| && j <= |vars| && Collect(vars[..j], parses[..j]).Abort?
    ensures Collect(vars, parses) == Collect(vars[..j], parses[..j])
  {
    if j < |vars| {
      var n := |vars| - 1;
      assert vars[..n][..j] == vars[..j];
      assert parses[..n][..j] == parses[..j];
      CollectAbortStays(vars[..n], parses[..n], j);
    } else {
      TakeAll(vars);
      TakeAll(parses);
    }
  }

  /** Once a prefix of the constraints aborts, `generate_maps` aborts with
      the same message. */
  lemma {:induction false} MapsAbortStays(conss: seq<LinearCons>, subs: seq<string>, i: nat, parse: string -> ParseResult)
    requires i <= |conss| && MapsEffect(conss[..i], subs, parse).Abort?
    ensures MapsEffect(conss, subs, parse) == MapsEffect(conss[..i], subs, parse)
  {
    if i < |conss| {
      var init := conss[..|conss| - 1];
      assert init[..i] == conss[..i];
      MapsAbortStays(init, subs, i, parse);
    } else {
      TakeAll(conss);
    }
  }

  // ---------------------------------------------------------------------
  // What `generate_maps` promises.

  /** The handles of the recorded constraints, in order. */
  function Handles(cs: seq<Constraint>): (r: seq<ConsId>)
    ensures |r| == |cs| && forall k :: 0 <= k < |cs| ==> r[k] == cs[k].handle
  {
    seq(|cs|, k requires 0 <= k < |cs| => cs[k].handle)
  }

  /** The arc index read off the constraint table: every recorded
      constraint's arcs, constraint by constraint. */
  function ReverseIndex(cs: seq<Constraint>): (r: seq<(Arc, ConstraintData)>)
  {
    if cs == [] then [] else ReverseIndex(cs[..|cs| - 1]) + CallsOf(cs[|cs| - 1].handle, cs[|cs| - 1].arcs)
  }

  /** Strictly increasing, so without repetitions. */
  predicate Increasing(hs: seq<ConsId>)
  {
    forall k, l :: 0 <= k < l < |hs| ==> hs[k] < hs[l]
  }

  /** The y-variables can be collected exactly when no name is malformed;
      otherwise the first malformed name gives the message. */
  lemma {:induction false} CollectOk(vars: seq<(string, real)>, parses: seq<ParseResult>)
    requires |parses| == |vars|
    ensures Collect(vars, parses).Ok? <==> forall j :: 0 <= j < |vars| ==> !parses[j].Malformed?
    ensures Collect(vars, parses).Abort? ==>
              exists j :: 0 <= j < |vars| && parses[j] == Malformed(Collect(vars, parses).context) &&
                          forall k :: 0 <= k < j ==> !parses[k].Malformed?
  {
    if vars != [] {
      var n := |vars| - 1;
      CollectOk(vars[..n], parses[..n]);
      assert forall k :: 0 <= k < n ==> parses[..n][k] == parses[k];
    }
  }

  /** The collected y-variables are the entries at the positions whose
      names parse, in the entries' order, each with the arc its name
      encodes and its coefficient; every name that parses is among them. */
  lemma {:induction false} CollectInOrder(vars: seq<(string, real)>, parses: seq<ParseResult>)
    requires |parses| == |vars| && Collect(vars, parses).Ok?
    ensures var es, ps := Collect(vars, parses).value, Positions(parses);
            |es| == |ps| && Increasing(ps) &&
            (forall k :: 0 <= k < |ps| ==> ps[k] < |vars| && es[k].name == vars[ps[k]].0 &&
                                            es[k].coef == vars[ps[k]].1 && parses[ps[k]] == Parsed(es[k].arc)) &&
            (forall j :: 0 <= j < |vars| && parses[j].Parsed? ==> j in ps)
  {
    if vars != [] {
      var n := |vars| - 1;
      assert Collect(vars[..n], parses[..n]).Ok?;
      CollectInOrder(vars[..n], parses[..n]);
      assert forall k :: 0 <= k < n ==> vars[..n][k] == vars[k] && parses[..n][k] == parses[k];
    }
  }

  /** A name is collected exactly when it parses as an arc and is the name
      of one of the entries. */
  lemma CollectNames(vars: seq<(string, real)>, parses: seq<ParseResult>, name: string)
    requires |parses| == |vars| && Collect(vars, parses).Ok?
    ensures (exists x :: x in Collect(vars, parses).value && x.name == name) <==>
            exists j :: 0 <= j < |vars| && vars[j].0 == name && parses[j].Parsed?
  {
    CollectInOrder(vars, parses);
    var es, ps := Collect(vars, parses).value, Positions(parses);
    if exists x :: x in es && x.name == name {
      var x :| x in es && x.name == name;
      var k :| 0 <= k < |es| && es[k] == x;
      assert vars[ps[k]].0 == name;
    }
    if exists j :: 0 <= j < |vars| && vars[j].0 == name && parses[j].Parsed? {
      var j :| 0 <= j < |vars| && vars[j].0 == name && parses[j].Parsed?;
      var k :| 0 <= k < |ps| && ps[k] == j;
      assert es[k] in es;
    }
  }

  /** `generate_maps` succeeds exactly when no constraint that survives the
      pruning has a malformed variable name. */
  lemma {:induction false} MapsOk(conss: seq<LinearCons>, subs: seq<string>, parse: string -> ParseResult)
    ensures MapsEffect(conss, subs, parse).Ok? <==>
            forall i :: 0 <= i < |conss| && !Pruned(conss[i].name, subs) ==> YEntries(conss[i].vars, parse).Ok?
  {
    if conss != [] {
      var n := |conss| - 1;
      MapsOk(conss[..n], subs, parse);
      assert forall i :: 0 <= i < n ==> conss[..n][i] == conss[i];
    }
  }

  /** A constraint is deleted exactly when its name contains a configured
      substring. */
  lemma {:induction false} DeletedIffPruned(conss: seq<LinearCons>, subs: seq<string>, i: nat, parse: string -> ParseResult)
    requires MapsEffect(conss, subs, parse).Ok?
    ensures i in MapsEffect(conss, subs, parse).value.deleted <==> i < |conss| && Pruned(conss[i].name, subs)
  {
    if conss != [] {
      var n := |conss| - 1;
      assert MapsEffect(conss[..n], subs, parse).Ok?;
      DeletedIffPruned(conss[..n], subs, i, parse);
    }
  }

  /** Everything `generate_maps` records besides the deletions concerns
      a constraint that survived the pruning. */
  lemma {:induction false} OnlyKeptTouched(conss: seq<LinearCons>, subs: seq<string>, parse: string -> ParseResult)
    requires MapsEffect(conss, subs, parse).Ok?
    ensures var e := MapsEffect(conss, subs, parse).value;
            (forall i :: i in e.modifiable ==> i < |conss| && !Pruned(conss[i].name, subs)) &&
            (forall c :: c in e.constraints ==> c.handle < |conss| && !Pruned(conss[c.handle].name, subs)) &&
            (forall x :: x in e.removed ==> x.0 < |conss| && !Pruned(conss[x.0].name, subs)) &&
            (forall x :: x in e.calls ==> x.1.0 < |conss| && !Pruned(conss[x.1.0].name, subs))
  {
    if conss != [] {
      var n := |conss| - 1;
      assert MapsEffect(conss[..n], subs, parse).Ok?;
      OnlyKeptTouched(conss[..n], subs, parse);
      assert forall i :: 0 <= i < n ==> conss[..n][i] == conss[i];
    }
  }

  /** A pruned constraint is deleted and never recorded: it is not made
      modifiable, not put in the constraint table or the arc index, and no
      variable is removed from it. */
  lemma PrunedNeverRecorded(conss: seq<LinearCons>, subs: seq<string>, i: nat, parse: string -> ParseResult)
    requires MapsEffect(conss, subs, parse).Ok? && i < |conss| && Pruned(conss[i].name, subs)
    ensures var e := MapsEffect(conss, subs, parse).value;
            i in e.deleted && i !in e.modifiable && (forall c :: c in e.constraints ==> c.handle != i) &&
            (forall x :: x in e.removed ==> x.0 != i) && (forall x :: x in e.calls ==> x.1.0 != i)
  {
    DeletedIffPruned(conss, subs, i, parse);
    OnlyKeptTouched(conss, subs, parse);
  }

  /** The recorded constraints come in the order of the master problem,
      each at most once, and exactly they are made modifiable, in the same
      order. */
  lemma {:induction false} RecordedInOrder(conss: seq<LinearCons>, subs: seq<string>, parse: string -> ParseResult)
    requires MapsEffect(conss, subs, parse).Ok?
    ensures var e := MapsEffect(conss, subs, parse).value;
            Increasing(Handles(e.constraints)) && e.modifiable == Handles(e.constraints)
  {
    if conss != [] {
      var n := |conss| - 1;
      var init := conss[..n];
      assert MapsEffect(init, subs, parse).Ok?;
      RecordedInOrder(init, subs, parse);
      OnlyKeptTouched(init, subs, parse);
      var e0 := MapsEffect(init, subs, parse).value;
      assert forall k :: 0 <= k < |e0.constraints| ==> e0.constraints[k] in e0.constraints;
    }
  }

  /** The constraint table holds a record of a constraint exactly when it
      survived the pruning and has at least one y-variable. */
  lemma {:induction false} RecordedIffPricing(conss: seq<LinearCons>, subs: seq<string>, i: nat, parse: string -> ParseResult)
    requires MapsEffect(conss, subs, parse).Ok?
    ensures (exists c :: c in MapsEffect(conss, subs, parse).value.constraints && c.handle == i) <==>
            i < |conss| && !Pruned(conss[i].name, subs) && YEntries(conss[i].vars, parse) != Ok([])
  {
    if conss != [] {
      var n := |conss| - 1;
      var init := conss[..n];
      assert MapsEffect(init, subs, parse).Ok?;
      RecordedIffPricing(init, subs, i, parse);
      OnlyKeptTouched(init, subs, parse);
      var e0 := MapsEffect(init, subs, parse).value;
      assert forall c :: c in e0.constraints ==> c.handle < n;
      if i < n {
        assert init[i] == conss[i];
      }
    }
  }

  /** A constraint's record holds its y-variables' arcs and coefficients,
      in the constraint's order. */
  lemma {:induction false} RecordedArcs(conss: seq<LinearCons>, subs: seq<string>, c: Constraint, parse: string -> ParseResult)
    requires MapsEffect(conss, subs, parse).Ok? && c in MapsEffect(conss, subs, parse).value.constraints
    ensures c.handle < |conss| && YEntries(conss[c.handle].vars, parse).Ok?
    ensures c.arcs == ArcsOf(YEntries(conss[c.handle].vars, parse).value)
  {
    var n := |conss| - 1;
    var init := conss[..n];
    assert MapsEffect(init, subs, parse).Ok?;
    var e0 := MapsEffect(init, subs, parse).value;
    if c in e0.constraints {
      RecordedArcs(init, subs, c, parse);
      assert init[c.handle] == conss[c.handle];
    }
  }

  /** The arc-index calls are exactly the recorded constraints' arcs,
      constraint by constraint. */
  lemma {:induction false} CallsAreReverseIndex(conss: seq<LinearCons>, subs: seq<string>, parse: string -> ParseResult)
    requires MapsEffect(conss, subs, parse).Ok?
    ensures MapsEffect(conss, subs, parse).value.calls == ReverseIndex(MapsEffect(conss, subs, parse).value.constraints)
  {
    if conss != [] {
      var n := |conss| - 1;
      var init := conss[..n];
      assert MapsEffect(init, subs, parse).Ok?;
      CallsAreReverseIndex(init, subs, parse);
      var e0 := MapsEffect(init, subs, parse).value;
      if !Pruned(conss[n].name, subs) {
        var es := YEntries(conss[n].vars, parse).value;
        if es != [] {
          var cs := e0.constraints + [Constraint(n, ArcsOf(es))];
          assert cs[..|cs| - 1] == e0.constraints;
        } else {
          assert CallsOf(n, ArcsOf(es)) == [];
        }
      }
    }
  }

  /** The pair (constraint, coefficient) is in the reverse index of an arc
      exactly when that constraint's record holds the arc with that
      coefficient. */
  lemma {:induction false} ReverseIndexHas(cs: seq<Constraint>, arc: Arc, d: ConstraintData)
    ensures d in EntriesFor(ReverseIndex(cs), arc) <==> exists c :: c in cs && c.handle == d.0 && (arc, d.1) in c.arcs
  {
    if cs != [] {
      var n := |cs| - 1;
      ReverseIndexHas(cs[..n], arc, d);
      EntriesForConcat(ReverseIndex(cs[..n]), CallsOf(cs[n].handle, cs[n].arcs), arc);
      EntriesForCalls(cs[n].handle, cs[n].arcs, arc, d);
      assert forall c :: c in cs <==> c in cs[..n] || c == cs[n];
    }
  }

  /** The entries of an arc in two batches of calls. */
  lemma {:induction false} EntriesForConcat(a: seq<(Arc, ConstraintData)>, b: seq<(Arc, ConstraintData)>, arc: Arc)
    ensures EntriesFor(a + b, arc) == EntriesFor(a, arc) + EntriesFor(b, arc)
  {
    if b == [] {
      assert a + b == a;
    } else {
      var n := |b| - 1;
      assert (a + b)[..|a + b| - 1] == a + b[..n];
      EntriesForConcat(a, b[..n], arc);
    }
  }

  /** The entries of an arc among one constraint's calls. */
  lemma {:induction false} EntriesForCalls(h: ConsId, arcs: seq<(Arc, real)>, arc: Arc, d: ConstraintData)
    ensures d in EntriesFor(CallsOf(h, arcs), arc) <==> d.0 == h && (arc, d.1) in arcs
  {
    if arcs != [] {
      var n := |arcs| - 1;
      assert CallsOf(h, arcs)[..|arcs| - 1] == CallsOf(h, arcs[..n]);
      EntriesForCalls(h, arcs[..n], arc, d);
      assert forall y :: y in arcs <==> y in arcs[..n] || y == arcs[n];
    }
  }

  /** Starting from an empty registry, an arc's list of constraints holds
      exactly the pairs of the records that contain the arc, in order, and
      an arc is in the index iff some record contains it. */
  lemma ArcIndexFromRecords(conss: seq<LinearCons>, subs: seq<string>, arc: Arc, d: ConstraintData, parse: string -> ParseResult)
    requires MapsEffect(conss, subs, parse).Ok?
    ensures var e := MapsEffect(conss, subs, parse).value;
            var index := AppendAll(map[], e.calls);
            (arc in index ==> index[arc] == EntriesFor(ReverseIndex(e.constraints), arc)) &&
            (arc in index && d in index[arc] <==>
               exists c :: c in e.constraints && c.handle == d.0 && (arc, d.1) in c.arcs)
  {
    var e := MapsEffect(conss, subs, parse).value;
    CallsAreReverseIndex(conss, subs, parse);
    AppendAllInOrder(e.calls, arc);
    ReverseIndexHas(e.constraints, arc, d);
  }

  /** The y-variables removed from the master problem are exactly the
      names that parse as arcs in the surviving constraints. */
  lemma {:induction false} RemovedAreYVars(conss: seq<LinearCons>, subs: seq<string>, i: nat, name: string, parse: string -> ParseResult)
    requires MapsEffect(conss, subs, parse).Ok?
    ensures (i, name) in MapsEffect(conss, subs, parse).value.removed <==>
            i < |conss| && !Pruned(conss[i].name, subs) &&
            exists j :: 0 <= j < |conss[i].vars| && conss[i].vars[j].0 == name && Parses(conss[i].vars, parse)[j].Parsed?
  {
    if conss != [] {
      var n := |conss| - 1;
      var init := conss[..n];
      assert MapsEffect(init, subs, parse).Ok?;
      RemovedAreYVars(init, subs, i, name, parse);
      if i < n {
        assert init[i] == conss[i];
      }
      if !Pruned(conss[n].name, subs) {
        var es := YEntries(conss[n].vars, parse).value;
        CollectNames(conss[n].vars, Parses(conss[n].vars, parse), name);
        RemovedHas(n, es, i, name);
      }
    }
  }

  lemma RemovedHas(n: ConsId, es: seq<Entry>, i: nat, name: string)
    ensures (i, name) in RemovedOf(n, es) <==> i == n && exists x :: x in es && x.name == name
  {
    if (i, name) in RemovedOf(n, es) {
      var k :| 0 <= k < |es| && RemovedOf(n, es)[k] == (i, name);
      assert es[k] in es;
    }
    if i == n && exists x :: x in es && x.name == name {
      var x :| x in es && x.name == name;
      var k :| 0 <= k < |es| && es[k] == x;
      assert RemovedOf(n, es)[k] == (i, name);
    }
  }

  // ---------------------------------------------------------------------
  // `generate_maps`, statement by statement.

  /** The substring loop: the first configured substring found in the name
      deletes the constraint and ends the loop. */
  method PruneByName(master: Master, i: ConsId, name: string, subs: seq<string>) returns (deleted: bool)
    modifies master
    ensures deleted <==> Pruned(name, subs)
    ensures master.deletedConss == old(master.deletedConss) + (if deleted then [i] else [])
    ensures master.columns == old(master.columns) && master.coefficients == old(master.coefficients)
    ensures master.deletedCoefs == old(master.deletedCoefs) && master.modifiable == old(master.modifiable)
  {
    deleted := false;
    for j := 0 to |subs|
      invariant !deleted && master.deletedConss == old(master.deletedConss)
      invariant forall k :: 0 <= k < j ==> !Contains(name, subs[k])
      invariant master.columns == old(master.columns) && master.coefficients == old(master.coefficients)
      invariant master.deletedCoefs == old(master.deletedCoefs) && master.modifiable == old(master.modifiable)
    {
      FindSubFromStart(name, subs[j]);
      if FindSub(name, subs[j], 0) != -1 {
        master.DelCons(i);
        deleted := true;
      }
      if deleted {
        break;
      }
    }
  }

  /** One y-variable: its arc and coefficient go into `cons.arcs` and the
      arc index, and it is removed from the constraint. */
  method AddYVar(master: Master, dm: DataManager, i: ConsId, x: Entry, arcs: seq<(Arc, real)>,
                 ghost t0: Tables, ghost e: Effect, ghost es: seq<Entry>)
    returns (arcs': seq<(Arc, real)>)
    modifies master, dm
    requires TablesOf(master, dm) == Apply(t0, Handled(e, i, es)) && arcs == ArcsOf(es)
    ensures TablesOf(master, dm) == Apply(t0, Handled(e, i, es + [x])) && arcs' == ArcsOf(es + [x])
  {
    arcs' := arcs + [(x.arc, x.coef)];
    ArcsSnoc(es, x);
    HandledSnoc(e, i, es, x);
    ghost var s := Apply(t0, Handled(e, i, es));
    ApplySnoc(t0, Handled(e, i, es), (i, x.name), (x.arc, (i, x.coef)));
    dm.AddScipConstraintToArc(x.arc, i, x.coef);
    master.DelCoefLinear(i, x.name);
    assert TablesOf(master, dm) ==
           s.(deletedCoefs := s.deletedCoefs + [(i, x.name)], arcConstraints := AppendConstraint(s.arcConstraints, x.arc, (i, x.coef)));
  }

  /** The loop over a constraint's variables: every name is parsed, the
      y-variables are handled in order, other names are skipped and a
      malformed one aborts. */
  method MapVars(master: Master, dm: DataManager, i: ConsId, vars: seq<(string, real)>,
                 ghost t0: Tables, ghost e: Effect)
    returns (r: Outcome<seq<(Arc, real)>>)
    modifies master, dm
    requires TablesOf(master, dm) == Apply(t0, Handled(e, i, []))
    ensures r.Ok? <==> YEntries(vars, ParseLpVarSpec).Ok?
    ensures r.Abort? ==> r.context == YEntries(vars, ParseLpVarSpec).context
    ensures r.Ok? ==> r.value == ArcsOf(YEntries(vars, ParseLpVarSpec).value) &&
                      TablesOf(master, dm) == Apply(t0, Handled(e, i, YEntries(vars, ParseLpVarSpec).value))
  {
    var arcs: seq<(Arc, real)> := [];
    ghost var es: seq<Entry> := [];
    ghost var ps := Parses(vars, ParseLpVarSpec);
    for j := 0 to |vars|
      invariant Collect(vars[..j], ps[..j]) == Ok(es)
      invariant arcs == ArcsOf(es) && TablesOf(master, dm) == Apply(t0, Handled(e, i, es))
    {
      CollectSnoc(vars, ps, j);
      var parsed := ParseLpVar(vars[j].0);
      assert parsed == ps[j];
      match parsed
      case NoMatch =>
      case Malformed(c) =>
        CollectAbortStays(vars, ps, j + 1);
        return Abort(c);
      case Parsed(arc) =>
        arcs := AddYVar(master, dm, i, Entry(vars[j].0, arc, vars[j].1), arcs, t0, e, es);
        es := es + [Entry(vars[j].0, arc, vars[j].1)];
    }
    TakeAll(vars);
    TakeAll(ps);
    r := Ok(arcs);
  }

  /** A constraint that had y-variables is marked modifiable and recorded
      with its arcs. */
  method RecordConstraint(master: Master, dm: DataManager, i: ConsId, arcs: seq<(Arc, real)>,
                          ghost t0: Tables, ghost h: Effect)
    modifies master, dm
    requires TablesOf(master, dm) == Apply(t0, h)
    ensures TablesOf(master, dm) ==
            Apply(t0, h.(modifiable := h.modifiable + [i], constraints := h.constraints + [Constraint(i, arcs)]))
  {
    master.SetConsModifiable(i);
    dm.AddConstraint(Constraint(i, arcs));
  }

  /** A constraint that was not pruned: its y-variables are collected and,
      when there are any, it is recorded. */
  method MapKept(master: Master, dm: DataManager, i: ConsId, c: LinearCons, subs: seq<string>,
                 ghost t0: Tables, ghost e: Effect)
    returns (r: Outcome<()>)
    modifies master, dm
    requires TablesOf(master, dm) == Apply(t0, e) && !Pruned(c.name, subs)
    ensures r.Ok? <==> ConsEffect(e, i, c, subs, ParseLpVarSpec).Ok?
    ensures r.Abort? ==> r.context == ConsEffect(e, i, c, subs, ParseLpVarSpec).context
    ensures r.Ok? ==> TablesOf(master, dm) == Apply(t0, ConsEffect(e, i, c, subs, ParseLpVarSpec).value)
  {
    assert Handled(e, i, []) == e;
    var arcs := MapVars(master, dm, i, c.vars, t0, e);
    if arcs.Abort? {
      return Abort(arcs.context);
    }
    if arcs.value != [] {
      RecordConstraint(master, dm, i, arcs.value, t0, Handled(e, i, YEntries(c.vars, ParseLpVarSpec).value));
    }
    r := Ok(());
  }

  /** One round of the outer loop: prune by name, or collect the
      y-variables and, when there are any, mark the constraint modifiable
      and record it. */
  method MapConstraint(master: Master, dm: DataManager, i: ConsId, c: LinearCons, subs: seq<string>,
                       ghost t0: Tables, ghost e: Effect)
    returns (r: Outcome<()>)
    modifies master, dm
    requires TablesOf(master, dm) == Apply(t0, e)
    ensures r.Ok? <==> ConsEffect(e, i, c, subs, ParseLpVarSpec).Ok?
    ensures r.Abort? ==> r.context == ConsEffect(e, i, c, subs, ParseLpVarSpec).context
    ensures r.Ok? ==> TablesOf(master, dm) == Apply(t0, ConsEffect(e, i, c, subs, ParseLpVarSpec).value)
  {
    var deleted := PruneByName(master, i, c.name, subs);
    if deleted {
      return Ok(());
    }
    r := MapKept(master, dm, i, c, subs, t0, e);
  }

  /** `generate_maps`: every constraint of the master problem in turn. On
      success the master problem and the registry are as `MapsEffect`
      says; a malformed y-variable name aborts with its message. */
  method GenerateMaps(master: Master, dm: DataManager, conss: seq<LinearCons>, subs: seq<string>)
    returns (r: Outcome<()>)
    modifies master, dm
    ensures r.Ok? <==> MapsEffect(conss, subs, ParseLpVarSpec).Ok?
    ensures r.Abort? ==> r.context == MapsEffect(conss, subs, ParseLpVarSpec).context
    ensures r.Ok? ==> TablesOf(master, dm) == Apply(old(TablesOf(master, dm)), MapsEffect(conss, subs, ParseLpVarSpec).value)
  {
    ghost var t0 := TablesOf(master, dm);
    ghost var e := Effect([], [], [], [], []);
    assert Apply(t0, e) == t0;
    for i := 0 to |conss|
      invariant MapsEffect(conss[..i], subs, ParseLpVarSpec) == Ok(e)
      invariant TablesOf(master, dm) == Apply(t0, e)
    {
      TakeNext(conss, i);
      r := MapConstraint(master, dm, i, conss[i], subs, t0, e);
      if r.Abort? {
        MapsAbortStays(conss, subs, i + 1, ParseLpVarSpec);
        return;
      }
      e := ConsEffect(e, i, conss[i], subs, ParseLpVarSpec).value;
    }
    TakeAll(conss);
    r := Ok(());
  }

  // ---------------------------------------------------------------------
  // `generate_networks` and `initialize_container`.

  /** A graph file as `generate_networks` finds it: its path, its elements
      in file order, and its vertices in topological order. */
  datatype GraphFile = GraphFile(path: string, elements: seq<Element>, order: seq<nat>)

  /** What reading a graph file yields: the network's group, the scan of
      its elements and the source and sink found, or an abort. */
  function LoadOf(f: GraphFile): (r: Outcome<Loaded>)
  {
    LoadSpec(f.path, f.elements)
  }

  /** The file's network can be built. The facts below hold for any reader
      `load`; `generate_networks` uses `LoadOf`. */
  ghost predicate Loads(f: GraphFile, load: GraphFile -> Outcome<Loaded>)
  {
    load(f).Ok?
  }

  /** Every file's network can be built. */
  ghost predicate AllLoad(files: seq<GraphFile>, load: GraphFile -> Outcome<Loaded>)
  {
    forall k :: 0 <= k < |files| ==> Loads(files[k], load)
  }

  /** The group the file's network gets from its name. */
  ghost function GroupOf(f: GraphFile, load: GraphFile -> Outcome<Loaded>): (r: int)
    requires Loads(f, load)
  {
    load(f).value.group as int
  }

  /** The groups of the files' networks. */
  ghost function GroupsOf(files: seq<GraphFile>, load: GraphFile -> Outcome<Loaded>): (r: set<int>)
    requires AllLoad(files, load)
  {
    set k | 0 <= k < |files| :: GroupOf(files[k], load)
  }

  /** The `netzwerk`-to-group map after `add_arcs_of_network` for each file
      in turn, with the arcs of the file's edges. */
  ghost function ArcGroups(m: map<int, int>, files: seq<GraphFile>, load: GraphFile -> Outcome<Loaded>): (r: map<int, int>)
    requires AllLoad(files, load)
  {
    if files == [] then m
    else
      var n := |files| - 1;
      var f := files[n];
      RecordArcs(ArcGroups(m, files[..n], load), GroupOf(f, load), FileArcs(f, load))
  }

  /** The arcs of the file's edges, in file order. */
  ghost function FileArcs(f: GraphFile, load: GraphFile -> Outcome<Loaded>): (r: seq<Arc>)
    requires Loads(f, load)
  {
    load(f).value.scan.arcList
  }

  /** `Network net(path, arc_list)` with an empty `arc_list`. */
  method LoadFile(f: GraphFile) returns (r: Outcome<Network>, arcList: seq<Arc>)
    ensures r.Ok? <==> Loads(f, LoadOf)
    ensures r.Abort? ==> r.context == f.path
    ensures r.Ok? ==> fresh(r.value) && r.value.Valid() && !r.value.isFresh && r.value.group as int == GroupOf(f, LoadOf) &&
                      arcList == FileArcs(f, LoadOf)
  {
    r, arcList := Network.Load(f.path, f.elements, f.order, []);
    if r.Ok? {
      assert [] + FileArcs(f, LoadOf) == FileArcs(f, LoadOf);
    }
  }

  /** The body of one `generate_networks` task: build the file's network,
      register it under its group (a group already present keeps its
      network) and map its arcs' `netzwerk` values to the group. A file
      whose network cannot be built aborts with its path. */
  method RegisterNetwork(dm: DataManager, f: GraphFile, ghost n0: map<int, Network>) returns (r: Outcome<()>)
    modifies dm
    requires DistinctNetworks(dm.networks) && NewNetworksKeyed(dm, n0)
    ensures DistinctNetworks(dm.networks) && NewNetworksKeyed(dm, n0)
    ensures r.Ok? <==> Loads(f, LoadOf)
    ensures r.Abort? ==> r.context == f.path
    ensures r.Ok? ==> dm.networks.Keys == old(dm.networks.Keys) + {GroupOf(f, LoadOf)}
    ensures forall g :: g in old(dm.networks) ==> g in dm.networks && dm.networks[g] == old(dm.networks[g])
    ensures forall g :: g in dm.networks && g !in old(dm.networks) ==>
              fresh(dm.networks[g]) && dm.networks[g].group as int == g && dm.networks[g].Valid() && !dm.networks[g].isFresh
    ensures r.Ok? ==> dm.arcNetwork == RecordArcs(old(dm.arcNetwork), GroupOf(f, LoadOf), FileArcs(f, LoadOf))
    ensures dm.constraints == old(dm.constraints) && dm.arcConstraints == old(dm.arcConstraints)
    ensures dm.varPaths == old(dm.varPaths)
  {
    var loaded, arcList := LoadFile(f);
    if loaded.Abort? {
      return Abort(loaded.context);
    }
    var net := loaded.value;
    var group := net.group as int;
    dm.AddNetwork(group, net);
    dm.AddArcsOfNetwork(group, arcList);
    r := Ok(());
  }

  /** One more file whose network can be built. */
  lemma FilesSnoc(files: seq<GraphFile>, k: nat, a0: map<int, int>, load: GraphFile -> Outcome<Loaded>)
    requires k < |files| && AllLoad(files[..k], load) && Loads(files[k], load)
    ensures AllLoad(files[..k + 1], load)
    ensures GroupsOf(files[..k + 1], load) == GroupsOf(files[..k], load) + {GroupOf(files[k], load)}
    ensures ArcGroups(a0, files[..k + 1], load) == RecordArcs(ArcGroups(a0, files[..k], load), GroupOf(files[k], load), FileArcs(files[k], load))
  {
    TakeNext(files, k);
    var fs := files[..k + 1];
    assert forall j :: 0 <= j < k ==> fs[j] == files[..k][j];
    assert GroupsOf(fs, load) == GroupsOf(files[..k], load) + {GroupOf(files[k], load)} by {
      forall g | g in GroupsOf(fs, load) ensures g in GroupsOf(files[..k], load) + {GroupOf(files[k], load)} {
        var j :| 0 <= j < |fs| && g == GroupOf(fs[j], load);
        if j < k {
          assert g == GroupOf(files[..k][j], load);
        }
      }
      forall g | g in GroupsOf(files[..k], load) ensures g in GroupsOf(fs, load) {
        var j :| 0 <= j < k && g == GroupOf(files[..k][j], load);
        assert g == GroupOf(fs[j], load);
      }
      assert GroupOf(files[k], load) == GroupOf(fs[k], load);
    }
  }

  /** The registry's networks and `netzwerk` map after the networks of
      `files` were registered on top of the networks `n0` and the map `a0`:
      each file's group has a network, an existing one being kept, and the
      arcs are mapped to their groups. */
  ghost predicate Registered(networks: map<int, Network>, arcNetwork: map<int, int>, n0: map<int, Network>,
                             a0: map<int, int>, files: seq<GraphFile>, load: GraphFile -> Outcome<Loaded>)
  {
    AllLoad(files, load) && networks.Keys == n0.Keys + GroupsOf(files, load) &&
    (forall g :: g in n0 ==> networks[g] == n0[g]) &&
    arcNetwork == ArcGroups(a0, files, load)
  }

  /** Registering one more file's network keeps the registry as the files
      so far say. */
  lemma RegisteredSnoc(networks: map<int, Network>, arcNetwork: map<int, int>,
                       networks': map<int, Network>, arcNetwork': map<int, int>,
                       n0: map<int, Network>, a0: map<int, int>, files: seq<GraphFile>, k: nat,
                       load: GraphFile -> Outcome<Loaded>)
    requires k < |files| && Registered(networks, arcNetwork, n0, a0, files[..k], load) && Loads(files[k], load)
    requires networks'.Keys == networks.Keys + {GroupOf(files[k], load)}
    requires forall g :: g in networks ==> g in networks' && networks'[g] == networks[g]
    requires arcNetwork' == RecordArcs(arcNetwork, GroupOf(files[k], load), FileArcs(files[k], load))
    ensures Registered(networks', arcNetwork', n0, a0, files[..k + 1], load)
  {
    FilesSnoc(files, k, a0, load);
  }

  /** Every network added on top of `n0` is stored under its own group, is
      valid and has no cached path yet. */
  ghost predicate NewNetworksKeyed(dm: DataManager, n0: map<int, Network>)
    reads dm, dm.networks.Values
  {
    forall g :: g in dm.networks && g !in n0 ==>
      dm.networks[g].group as int == g && dm.networks[g].Valid() && !dm.networks[g].isFresh
  }

  /** One round of the loop over the files. */
  method RegisterNext(dm: DataManager, files: seq<GraphFile>, k: nat, ghost n0: map<int, Network>, ghost a0: map<int, int>)
    returns (r: Outcome<()>)
    modifies dm
    requires k < |files| && Registered(dm.networks, dm.arcNetwork, n0, a0, files[..k], LoadOf)
    requires DistinctNetworks(dm.networks) && NewNetworksKeyed(dm, n0)
    ensures DistinctNetworks(dm.networks) && NewNetworksKeyed(dm, n0)
    ensures r.Ok? <==> Loads(files[k], LoadOf)
    ensures r.Abort? ==> r.context == files[k].path
    ensures r.Ok? ==> Registered(dm.networks, dm.arcNetwork, n0, a0, files[..k + 1], LoadOf)
    ensures dm.constraints == old(dm.constraints) && dm.arcConstraints == old(dm.arcConstraints)
    ensures dm.varPaths == old(dm.varPaths)
  {
    ghost var networks, arcNetwork := dm.networks, dm.arcNetwork;
    r := RegisterNetwork(dm, files[k], n0);
    if r.Ok? {
      RegisteredSnoc(networks, arcNetwork, dm.networks, dm.arcNetwork, n0, a0, files, k, LoadOf);
    }
  }

  /** The tasks of `generate_networks`, one file after the other; the first
      file whose network cannot be built aborts with its path. */
  method RegisterAll(dm: DataManager, files: seq<GraphFile>) returns (r: Outcome<()>)
    modifies dm
    requires DistinctNetworks(dm.networks)
    ensures DistinctNetworks(dm.networks)
    ensures r.Ok? <==> AllLoad(files, LoadOf)
    ensures r.Abort? ==> exists k :: 0 <= k < |files| && !Loads(files[k], LoadOf) && r.context == files[k].path
    ensures r.Ok? ==> Registered(dm.networks, dm.arcNetwork, old(dm.networks), old(dm.arcNetwork), files, LoadOf) &&
                      NewNetworksKeyed(dm, old(dm.networks))
    ensures dm.constraints == old(dm.constraints) && dm.arcConstraints == old(dm.arcConstraints)
    ensures dm.varPaths == old(dm.varPaths)
  {
    ghost var n0, a0 := dm.networks, dm.arcNetwork;
    assert files[..0] == [];
    assert GroupsOf([], LoadOf) == {};
    for k := 0 to |files|
      invariant Registered(dm.networks, dm.arcNetwork, n0, a0, files[..k], LoadOf)
      invariant DistinctNetworks(dm.networks) && NewNetworksKeyed(dm, n0)
      invariant dm.constraints == old(dm.constraints) && dm.arcConstraints == old(dm.arcConstraints)
      invariant dm.varPaths == old(dm.varPaths)
    {
      r := RegisterNext(dm, files, k, n0, a0);
      if r.Abort? {
        return;
      }
    }
    TakeAll(files);
    r := Ok(());
  }

  /** `generate_networks`: every graph file's network is registered; no
      file at all aborts with the directory. */
  method GenerateNetworks(dm: DataManager, location: string, files: seq<GraphFile>) returns (r: Outcome<()>)
    modifies dm
    requires DistinctNetworks(dm.networks)
    ensures DistinctNetworks(dm.networks)
    ensures r.Ok? <==> files != [] && AllLoad(files, LoadOf)
    ensures r.Abort? ==> (files == [] && r.context == location) ||
                         exists k :: 0 <= k < |files| && !Loads(files[k], LoadOf) && r.context == files[k].path
    ensures r.Ok? ==> Registered(dm.networks, dm.arcNetwork, old(dm.networks), old(dm.arcNetwork), files, LoadOf) &&
                      NewNetworksKeyed(dm, old(dm.networks))
    ensures dm.constraints == old(dm.constraints) && dm.arcConstraints == old(dm.arcConstraints)
    ensures dm.varPaths == old(dm.varPaths)
  {
    if files == [] {
      return Abort(location);
    }
    r := RegisterAll(dm, files);
  }

  /** `initialize_container`: the networks are built and registered first,
      then the constraint maps are generated on top of them. */
  method InitializeContainer(master: Master, dm: DataManager, location: string, files: seq<GraphFile>,
                             conss: seq<LinearCons>, subs: seq<string>)
    returns (r: Outcome<()>)
    modifies master, dm
    requires DistinctNetworks(dm.networks)
    ensures r.Ok? <==> files != [] && AllLoad(files, LoadOf) && MapsEffect(conss, subs, ParseLpVarSpec).Ok?
    ensures r.Ok? ==>
              Registered(dm.networks, dm.arcNetwork, old(dm.networks), old(dm.arcNetwork), files, LoadOf) && NewNetworksKeyed(dm, old(dm.networks)) &&
              TablesOf(master, dm) ==
                Apply(old(TablesOf(master, dm)).(networks := dm.networks,
                                                  arcNetwork := ArcGroups(old(dm.arcNetwork), files, LoadOf)),
                      MapsEffect(conss, subs, ParseLpVarSpec).value)
  {
    r := GenerateNetworks(dm, location, files);
    if r.Abort? {
      return;
    }
    r := GenerateMaps(master, dm, conss, subs);
  }
}
