/** The start of the program (`halligalli.cpp`): `initialize_container`
    fills an empty `DataManager`, and a pricer is built on it. */
module Startup {

  import opened Registry
  import opened Initialize
  import opened Pricing

  /** What `initialize_container` leaves in a registry that started empty
      is what every pricing round requires, once each network's sink can be
      reached from its source. */
  lemma InitializedIsReady(p: Pricer)
    requires DistinctNetworks(p.dm.networks) && NewNetworksKeyed(p.dm, map[])
    requires p.strategy.KShortest? ==> p.strategy.k > 0
    requires forall g :: g in p.dm.networks ==> p.dm.networks[g].Solvable()
    ensures p.Ready()
  {
    forall g | g in p.dm.networks
      ensures NetReady(p.dm.networks[g], g)
    {
      assert p.dm.networks[g].Solvable();
    }
  }
}
