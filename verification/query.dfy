/** `checkIntersect(poly)` end to end: rank the features around the query
    county, then accumulate populations along the ranking. */
module Query {
  import opened Regions
  import opened SortedInsert
  import opened Ranking
  import opened Accumulation

  /** The current variant: every feature is ranked, missing populations are
      skipped, and the target is the population of New York City. */
  function NearestCounties(features: seq<Feature>, ownId: GeoId, pop: PopulationTable): (r: Option<Summary>)
    ensures r.Some? ==> r.value.numPop.Finite? && r.value.numPop.v <= NycPopulation
  {
    CheckIntersect(Rank(features, ownId, pop, Everything))
  }

  /** The earlier variant: only features that meet the buffer are ranked. */
  function LegacyNearestCounties(features: seq<Feature>, ownId: GeoId, pop: PopulationTable,
                                 inBuffer: GeoId -> bool): (r: Option<seq<GeoId>>)
    ensures r.Some? ==> |r.value| <= |features|
  {
    LegacyCheckIntersect(Rank(features, ownId, pop, inBuffer))
  }

  /** A query county that alone exceeds the target, with no other county at
      distance 0, is itself the crossing entry: nothing is selected and
      `numPop` is 0. */
  lemma QueryAloneExceedsTarget(features: seq<Feature>, ownId: GeoId, pop: PopulationTable)
    requires ownId in pop && pop[ownId] > NycPopulation
    requires forall i :: (0 <= i < |features| && features[i].id != ownId) ==> features[i].distance > 0.0
    ensures NearestCounties(features, ownId, pop) == Some(Summary({}, Finite(0), 0))
  {
    var ranked := Rank(features, ownId, pop, Everything);
    RankSelfFirst(features, ownId, pop, Everything);
    FirstEntryCrossing(ranked, NycPopulation);
    CheckIntersectAtCrossing(ranked, 0);
    assert ranked[..0] == [];
    assert IdSet(ranked[..0]) == {};
  }

  /** When no other county lies at distance 0 and the query county alone does
      not exceed the target, a defined result selects the query county. */
  lemma QuerySelectsItself(features: seq<Feature>, ownId: GeoId, pop: PopulationTable)
    requires forall i :: (0 <= i < |features| && features[i].id != ownId) ==> features[i].distance > 0.0
    requires ownId !in pop || pop[ownId] <= NycPopulation
    requires NearestCounties(features, ownId, pop).Some?
    ensures ownId in NearestCounties(features, ownId, pop).value.geos
  {
    var ranked := Rank(features, ownId, pop, Everything);
    RankSelfFirst(features, ownId, pop, Everything);
    CheckIntersectUndefined(ranked);
    CrossingExists(ranked, NycPopulation);
    var k: nat :| IsCrossing(ranked, NycPopulation, k);
    FirstEntryCrossing(ranked, NycPopulation);
    assert k != 0;
    CheckIntersectAtCrossing(ranked, k);
    assert ranked[..k][0] == ranked[0];
  }

  /** In the earlier variant, a query county missing from the population
      table, with no other ranked county at distance 0, is ranked first and
      turns the sum into NaN at once: the result is `undefined`. */
  lemma LegacyQueryMissingPopulation(features: seq<Feature>, ownId: GeoId, pop: PopulationTable,
                                     inBuffer: GeoId -> bool)
    requires ownId !in pop
    requires forall i :: (0 <= i < |features| && Kept(features[i], ownId, inBuffer))
                           ==> features[i].distance > 0.0
    ensures LegacyNearestCounties(features, ownId, pop, inBuffer) == None
  {
    var ranked := Rank(features, ownId, pop, inBuffer);
    RankSelfFirst(features, ownId, pop, inBuffer);
    assert ranked[..0] == [];
    LegacyPoisoned(ranked, 0);
  }

  /** The first ranked entry is the crossing entry exactly when its own
      finite population exceeds the target. */
  lemma FirstEntryCrossing(ranked: seq<Entry>, target: nat)
    requires |ranked| > 0
    ensures IsCrossing(ranked, target, 0) <==> Val(ranked[0]) > target
  {
  }
}
