/** The master problem as the pricing engine sees it through SCIP. Only the
    calls the engine makes are kept, each recorded in call order: the
    priced variables created, the coefficients added to constraints, the
    constraints deleted, the y-variables removed from constraints and the
    constraints marked modifiable. */
module Scip {

  import opened Values
  import opened PricingSpec

  /** A linear constraint of the original problem, as `SCIPgetConss`,
      `SCIPgetConsVars` and `SCIPgetConsVals` present it: its name and its
      (variable name, coefficient) entries. Its handle is its position. */
  datatype LinearCons = LinearCons(name: string, vars: seq<(string, real)>)

  class Master {
    var columns: seq<Column>
    var coefficients: seq<Coefficient>
    var deletedConss: seq<ConsId>
    var deletedCoefs: seq<(ConsId, string)>
    var modifiable: seq<ConsId>

    /** A master problem nothing has been done to yet. */
    constructor ()
      ensures columns == [] && coefficients == [] && deletedConss == [] && deletedCoefs == [] && modifiable == []
    {
      columns := [];
      coefficients := [];
      deletedConss := [];
      deletedCoefs := [];
      modifiable := [];
    }

    /** The records the initialization writes (deleted constraints, removed
        y-variables, constraints made modifiable), which pricing leaves alone. */
    ghost function Edits(): (r: (seq<ConsId>, seq<(ConsId, string)>, seq<ConsId>))
      reads this
    {
      (deletedConss, deletedCoefs, modifiable)
    }

    /** `SCIPcreateVarBasic` followed by `SCIPaddPricedVar`. */
    method AddPricedVar(c: Column)
      modifies this
      ensures columns == old(columns) + [c]
      ensures coefficients == old(coefficients) && deletedConss == old(deletedConss)
      ensures deletedCoefs == old(deletedCoefs) && modifiable == old(modifiable)
    {
      columns := columns + [c];
    }

    /** `SCIPaddCoefLinear`. */
    method AddCoefLinear(x: Coefficient)
      modifies this
      ensures coefficients == old(coefficients) + [x]
      ensures columns == old(columns) && deletedConss == old(deletedConss)
      ensures deletedCoefs == old(deletedCoefs) && modifiable == old(modifiable)
    {
      coefficients := coefficients + [x];
    }

    /** `SCIPdelCons`. */
    method DelCons(cons: ConsId)
      modifies this
      ensures deletedConss == old(deletedConss) + [cons]
      ensures columns == old(columns) && coefficients == old(coefficients)
      ensures deletedCoefs == old(deletedCoefs) && modifiable == old(modifiable)
    {
      deletedConss := deletedConss + [cons];
    }

    /** `SCIPdelCoefLinear`. */
    method DelCoefLinear(cons: ConsId, varname: string)
      modifies this
      ensures deletedCoefs == old(deletedCoefs) + [(cons, varname)]
      ensures columns == old(columns) && coefficients == old(coefficients)
      ensures deletedConss == old(deletedConss) && modifiable == old(modifiable)
    {
      deletedCoefs := deletedCoefs + [(cons, varname)];
    }

    /** `SCIPsetConsModifiable(..., true)`. */
    method SetConsModifiable(cons: ConsId)
      modifies this
      ensures modifiable == old(modifiable) + [cons]
      ensures columns == old(columns) && coefficients == old(coefficients)
      ensures deletedConss == old(deletedConss) && deletedCoefs == old(deletedCoefs)
    {
      modifiable := modifiable + [cons];
    }
  }
}
