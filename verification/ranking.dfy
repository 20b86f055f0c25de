/** `_checkIntersect`: rank the counties around a query county by distance.
    Every feature whose id differs from the query's and that passes the
    `inBuffer` filter is inserted with bisect-right; then the query itself is
    inserted last, at distance 0. The current variant includes every feature;
    the earlier one includes only features that intersect a 1000-mile buffer
    around the query, which is an input predicate here. */
module Ranking {
  import opened Regions
  import opened SortedInsert

  /** The filter of the current variant: every feature is a candidate. */
  function Everything(id: GeoId): bool
  {
    true
  }

  /** A feature takes part in the ranking: it is not the query, and it passes the filter. */
  predicate Kept(f: Feature, ownId: GeoId, inBuffer: GeoId -> bool)
  {
    f.id != ownId && inBuffer(f.id)
  }

  /** `{geoId, summable: pop[geoId], distance}` for a candidate feature. */
  function EntryFor(f: Feature, pop: PopulationTable): Entry
  {
    Entry(f.id, Lookup(pop, f.id), f.distance)
  }

  /** The query's own entry, forced to distance 0. */
  function OwnEntry(ownId: GeoId, pop: PopulationTable): Entry
  {
    Entry(ownId, Lookup(pop, ownId), 0.0)
  }

  /** Reference: the candidates' entries in feature order, before any ranking. */
  ghost function Candidates(features: seq<Feature>, ownId: GeoId, pop: PopulationTable,
                      inBuffer: GeoId -> bool): seq<Entry>
  {
    if features == [] then []
    else
      (if Kept(features[0], ownId, inBuffer) then [EntryFor(features[0], pop)] else [])
      + Candidates(features[1..], ownId, pop, inBuffer)
  }

  /** The `for (const otherGeom of polyList)` loop: skip the query's own id and
      excluded features, insert every other feature into the sorted list. */
  function RankLoop(acc: seq<Entry>, features: seq<Feature>, ownId: GeoId,
                    pop: PopulationTable, inBuffer: GeoId -> bool): (r: seq<Entry>)
    ensures |acc| <= |r| <= |acc| + |features|
    decreases |features|
  {
    if features == [] then acc
    else if !Kept(features[0], ownId, inBuffer) then
      RankLoop(acc, features[1..], ownId, pop, inBuffer)
    else
      RankLoop(InsertIntoSorted(acc, EntryFor(features[0], pop)), features[1..], ownId, pop, inBuffer)
  }

  /** `_checkIntersect(poly, polyList)`, with the query given by its id: at
      most one entry per feature, plus the query's own. */
  function Rank(features: seq<Feature>, ownId: GeoId, pop: PopulationTable,
                inBuffer: GeoId -> bool): (r: seq<Entry>)
    ensures 1 <= |r| <= |features| + 1
  {
    InsertIntoSorted(RankLoop([], features, ownId, pop, inBuffer), OwnEntry(ownId, pop))
  }

  lemma {:induction false} RankLoopSorted(acc: seq<Entry>, features: seq<Feature>, ownId: GeoId,
                                          pop: PopulationTable, inBuffer: GeoId -> bool)
    requires Sorted(acc)
    ensures Sorted(RankLoop(acc, features, ownId, pop, inBuffer))
    ensures multiset(RankLoop(acc, features, ownId, pop, inBuffer))
         == multiset(acc) + multiset(Candidates(features, ownId, pop, inBuffer))
    decreases |features|
  {
    if features != [] {
      if Kept(features[0], ownId, inBuffer) {
        InsertKeepsSorted(acc, EntryFor(features[0], pop));
        RankLoopSorted(InsertIntoSorted(acc, EntryFor(features[0], pop)), features[1..], ownId, pop, inBuffer);
      } else {
        RankLoopSorted(acc, features[1..], ownId, pop, inBuffer);
      }
    }
  }

  lemma {:induction false} RankLoopStable(acc: seq<Entry>, features: seq<Feature>, ownId: GeoId,
                                          pop: PopulationTable, inBuffer: GeoId -> bool, d: real)
    requires Sorted(acc)
    ensures AtDistance(RankLoop(acc, features, ownId, pop, inBuffer), d)
         == AtDistance(acc, d) + AtDistance(Candidates(features, ownId, pop, inBuffer), d)
    decreases |features|
  {
    if features == [] {
      assert AtDistance(Candidates(features, ownId, pop, inBuffer), d) == [];
    } else if Kept(features[0], ownId, inBuffer) {
      var e := EntryFor(features[0], pop);
      var rest := Candidates(features[1..], ownId, pop, inBuffer);
      InsertKeepsSorted(acc, e);
      RankLoopStable(InsertIntoSorted(acc, e), features[1..], ownId, pop, inBuffer, d);
      InsertThenRest(acc, e, rest, d);
      assert Candidates(features, ownId, pop, inBuffer) == [e] + rest;
    } else {
      RankLoopStable(acc, features[1..], ownId, pop, inBuffer, d);
      assert Candidates(features, ownId, pop, inBuffer) == Candidates(features[1..], ownId, pop, inBuffer);
    }
  }

  /** Inserting one candidate and then the rest gives, at each distance, the
      old entries followed by the candidates in order. */
  lemma InsertThenRest(acc: seq<Entry>, e: Entry, rest: seq<Entry>, d: real)
    requires Sorted(acc)
    ensures AtDistance(InsertIntoSorted(acc, e), d) + AtDistance(rest, d)
         == AtDistance(acc, d) + AtDistance([e] + rest, d)
  {
    var mark := if e.distance == d then [e] else [];
    InsertStable(acc, e, d);
    AtDistanceCons(e, rest, d);
    ConcatAssoc(AtDistance(acc, d), mark, AtDistance(rest, d));
  }

  lemma {:induction false} CandidatesMembership(features: seq<Feature>, ownId: GeoId,
                                                pop: PopulationTable, inBuffer: GeoId -> bool, e: Entry)
    ensures e in Candidates(features, ownId, pop, inBuffer)
        <==> exists i :: 0 <= i < |features| && Kept(features[i], ownId, inBuffer)
                                            && e == EntryFor(features[i], pop)
  {
    if features != [] {
      CandidatesMembership(features[1..], ownId, pop, inBuffer, e);
      if e in Candidates(features[1..], ownId, pop, inBuffer) {
        var i :| 0 <= i < |features[1..]| && Kept(features[1..][i], ownId, inBuffer)
                 && e == EntryFor(features[1..][i], pop);
        assert features[i + 1] == features[1..][i];
      }
      if exists i :: 0 <= i < |features| && Kept(features[i], ownId, inBuffer)
                     && e == EntryFor(features[i], pop) {
        var i :| 0 <= i < |features| && Kept(features[i], ownId, inBuffer)
                 && e == EntryFor(features[i], pop);
        if i > 0 {
          assert features[1..][i - 1] == features[i];
        }
      }
    }
  }

  /** The ranked list is sorted ascending by distance and is, as a multiset,
      exactly the candidates' entries plus the query's own entry. */
  lemma RankSortedPermutation(features: seq<Feature>, ownId: GeoId, pop: PopulationTable,
                              inBuffer: GeoId -> bool)
    ensures Sorted(Rank(features, ownId, pop, inBuffer))
    ensures multiset(Rank(features, ownId, pop, inBuffer))
         == multiset(Candidates(features, ownId, pop, inBuffer)) + multiset{OwnEntry(ownId, pop)}
  {
    RankLoopSorted([], features, ownId, pop, inBuffer);
    InsertKeepsSorted(RankLoop([], features, ownId, pop, inBuffer), OwnEntry(ownId, pop));
  }

  /** Equal distances keep feature order, and the query (inserted last at
      distance 0) comes after every other entry at distance 0. */
  lemma RankStable(features: seq<Feature>, ownId: GeoId, pop: PopulationTable,
                   inBuffer: GeoId -> bool, d: real)
    ensures AtDistance(Rank(features, ownId, pop, inBuffer), d)
         == AtDistance(Candidates(features, ownId, pop, inBuffer), d)
            + (if d == 0.0 then [OwnEntry(ownId, pop)] else [])
  {
    var loop := RankLoop([], features, ownId, pop, inBuffer);
    var cs := Candidates(features, ownId, pop, inBuffer);
    var own := OwnEntry(ownId, pop);
    assert AtDistance(loop, d) == AtDistance(cs, d) by {
      RankLoopStable([], features, ownId, pop, inBuffer, d);
      assert AtDistance([], d) + AtDistance(cs, d) == AtDistance(cs, d);
    }
    assert AtDistance(InsertIntoSorted(loop, own), d)
        == AtDistance(loop, d) + (if own.distance == d then [own] else []) by {
      RankLoopSorted([], features, ownId, pop, inBuffer);
      InsertStable(loop, own, d);
    }
  }

  /** An entry is ranked iff it is the query's own entry or the entry of a
      kept feature; every ranked entry carries `pop[geoId]`. */
  lemma RankMembership(features: seq<Feature>, ownId: GeoId, pop: PopulationTable,
                       inBuffer: GeoId -> bool, e: Entry)
    ensures e in Rank(features, ownId, pop, inBuffer)
        <==> e == OwnEntry(ownId, pop)
             || exists i :: 0 <= i < |features| && Kept(features[i], ownId, inBuffer)
                                               && e == EntryFor(features[i], pop)
    ensures e in Rank(features, ownId, pop, inBuffer) ==> e.summable == Lookup(pop, e.geoId)
  {
    RankSortedPermutation(features, ownId, pop, inBuffer);
    CandidatesMembership(features, ownId, pop, inBuffer, e);
    assert e in Rank(features, ownId, pop, inBuffer)
       <==> e in multiset(Rank(features, ownId, pop, inBuffer));
  }

  /** The query appears exactly once: its own entry occurs once and no other
      ranked entry has the query's id. */
  lemma RankOwnOnce(features: seq<Feature>, ownId: GeoId, pop: PopulationTable,
                    inBuffer: GeoId -> bool)
    ensures multiset(Rank(features, ownId, pop, inBuffer))[OwnEntry(ownId, pop)] == 1
    ensures forall e :: (e in Rank(features, ownId, pop, inBuffer) && e.geoId == ownId)
                          ==> e == OwnEntry(ownId, pop)
  {
    RankSortedPermutation(features, ownId, pop, inBuffer);
    var own := OwnEntry(ownId, pop);
    CandidatesMembership(features, ownId, pop, inBuffer, own);
    assert own !in Candidates(features, ownId, pop, inBuffer);
    forall e | e in Rank(features, ownId, pop, inBuffer) && e.geoId == ownId
      ensures e == own
    {
      RankMembership(features, ownId, pop, inBuffer, e);
    }
  }

  /** A county other than the query is ranked iff some feature carries its
      id and passes the filter (the buffer-intersection test of the earlier
      variant). */
  lemma RankIncludesIff(features: seq<Feature>, ownId: GeoId, pop: PopulationTable,
                        inBuffer: GeoId -> bool, id: GeoId)
    requires id != ownId
    ensures (exists e :: e in Rank(features, ownId, pop, inBuffer) && e.geoId == id)
        <==> (inBuffer(id) && exists i :: 0 <= i < |features| && features[i].id == id)
  {
    if exists e :: e in Rank(features, ownId, pop, inBuffer) && e.geoId == id {
      var e :| e in Rank(features, ownId, pop, inBuffer) && e.geoId == id;
      RankMembership(features, ownId, pop, inBuffer, e);
    }
    if inBuffer(id) && exists i :: 0 <= i < |features| && features[i].id == id {
      var i :| 0 <= i < |features| && features[i].id == id;
      RankMembership(features, ownId, pop, inBuffer, EntryFor(features[i], pop));
    }
  }

  /** When every other ranked county lies at a positive distance, the query
      county is ranked first. */
  lemma RankSelfFirst(features: seq<Feature>, ownId: GeoId, pop: PopulationTable,
                      inBuffer: GeoId -> bool)
    requires forall i :: (0 <= i < |features| && Kept(features[i], ownId, inBuffer))
                           ==> features[i].distance > 0.0
    ensures Rank(features, ownId, pop, inBuffer)[0] == OwnEntry(ownId, pop)
  {
    RankSortedPermutation(features, ownId, pop, inBuffer);
    var r := Rank(features, ownId, pop, inBuffer);
    var own := OwnEntry(ownId, pop);
    assert own in multiset(r);
    var k :| 0 <= k < |r| && r[k] == own;
    assert r[0].distance <= 0.0;
    RankMembership(features, ownId, pop, inBuffer, r[0]);
  }
}
