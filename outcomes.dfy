/** Result shapes shared by the whole model.
    `Option` stands for boost::optional (an expected absence), `Outcome` for a
    computation that either yields a value or stops the process with ABORT_F
    (the context string is the text the abort message carries). */
module Outcomes {

  datatype Option<+T> = None | Some(value: T)

  datatype Outcome<+T> = Ok(value: T) | Abort(context: string)

  /** `std::map::insert` / `std::unordered_map::insert`: a key already
      present keeps its value. */
  function MapInsert<K, V>(m: map<K, V>, k: K, v: V): (r: map<K, V>)
    ensures r.Keys == m.Keys + {k}
    ensures forall x :: x in m ==> r[x] == m[x]
    ensures k !in m ==> r[k] == v
  {
    if k in m then m else m[k := v]
  }
}
