/** `checkIntersect`: walk the ranked list keeping a running population sum and
    stop at the first entry after which the sum is strictly greater than the
    target; the ids taken before that entry are the answer. The two variants of
    the program differ in the target, in what a missing population does to the
    sum, and in the shape of the answer; one walk with a policy covers both. */
module Accumulation {
  import opened Regions

  /** `TARGET_POP` of the current variant: the population of New York City. */
  const NycPopulation: nat := 8336817

  /** `TARGET_POP` of the earlier variant. */
  const LegacyTarget: nat := 10000000

  /** How a population that is not a finite number enters the running sum. */
  datatype MissingPolicy =
    | SkipNonFinite  // `Number.isFinite(summable) ? targetSum + summable : targetSum`
    | PlainAdd       // `targetSum += summable`, so `undefined` turns the sum into NaN

  /** A JavaScript number as far as this code can observe it. */
  datatype Number = Finite(v: int) | NaN

  function AsNumber(s: Option<nat>): Number
  {
    match s
    case Some(n) => Finite(n)
    case None => NaN
  }

  function Plus(a: Number, b: Number): Number
  {
    if a.Finite? && b.Finite? then Finite(a.v + b.v) else NaN
  }

  function Minus(a: Number, b: Number): Number
  {
    if a.Finite? && b.Finite? then Finite(a.v - b.v) else NaN
  }

  /** `sum > target`; every comparison with NaN is false. */
  predicate Exceeds(sum: Number, target: nat)
  {
    sum.Finite? && sum.v > target
  }

  /** One update of the running sum. The sum becomes NaN exactly when it
      already was NaN or when plain `+=` meets a missing population; otherwise
      it grows by the population, a missing one counting as 0. */
  function AddPopulation(policy: MissingPolicy, sum: Number, s: Option<nat>): (r: Number)
    ensures r.NaN? <==> sum.NaN? || (policy == PlainAdd && s.None?)
    ensures r.Finite? ==> r.v == sum.v + (if s.Some? then s.value else 0)
  {
    match policy
    case SkipNonFinite => if s.Some? then Plus(sum, AsNumber(s)) else sum
    case PlainAdd => Plus(sum, AsNumber(s))
  }

  /** Where the walk stopped: the ids taken before the crossing entry, the
      running sum after adding it, and its `summable`. */
  datatype Crossing = Crossing(taken: seq<GeoId>, sum: Number, summable: Option<nat>)

  /** The `for (const geo of idsSortedbyDistance)` loop from position `k` on,
      with running sum `sum` and the ids `taken` so far. None: the loop ran off
      the end and the function returned `undefined`. */
  function Walk(policy: MissingPolicy, target: nat, es: seq<Entry>, k: nat,
                sum: Number, taken: seq<GeoId>): (r: Option<Crossing>)
    requires k <= |es|
    ensures r.Some? ==> Exceeds(r.value.sum, target)
    ensures r.Some? ==> taken <= r.value.taken && |r.value.taken| < |taken| + |es| - k
    ensures r.Some? && !Exceeds(sum, target)
            ==> r.value.summable.Some? && r.value.sum.v - r.value.summable.value <= target
    decreases |es| - k
  {
    if k == |es| then None
    else
      var sum' := AddPopulation(policy, sum, es[k].summable);
      if Exceeds(sum', target) then Some(Crossing(taken, sum', es[k].summable))
      else Walk(policy, target, es, k + 1, sum', taken + [es[k].geoId])
  }

  /** What the current variant returns: the set of ids, `numPop` and `numCounties`. */
  datatype Summary = Summary(geos: set<GeoId>, numPop: Number, numCounties: nat)

  /** `checkIntersect` of the current variant, given the ranked list. */
  function CheckIntersect(ranked: seq<Entry>): (r: Option<Summary>)
    ensures r.Some? ==> r.value.numPop.Finite? && r.value.numPop.v <= NycPopulation
  {
    match Walk(SkipNonFinite, NycPopulation, ranked, 0, Finite(0), [])
    case None => None
    case Some(c) =>
      var geos := set id | id in c.taken;
      Some(Summary(geos, Minus(c.sum, AsNumber(c.summable)), |geos|))
  }

  /** `checkIntersect` of the earlier variant, given the ranked list: the array
      of ids pushed before the crossing entry. */
  function LegacyCheckIntersect(ranked: seq<Entry>): (r: Option<seq<GeoId>>)
    ensures r.Some? ==> |r.value| < |ranked|
  {
    match Walk(PlainAdd, LegacyTarget, ranked, 0, Finite(0), [])
    case None => None
    case Some(c) => Some(c.taken)
  }

  // ---------------------------------------------------------------------------
  // Reference definitions

  /** The value a population contributes when non-finite ones count as 0. */
  ghost function Val(e: Entry): nat
  {
    match e.summable
    case Some(n) => n
    case None => 0
  }

  /** Sum of the finite populations of `es`. */
  ghost function FiniteSum(es: seq<Entry>): nat
  {
    if es == [] then 0 else FiniteSum(es[..|es| - 1]) + Val(es[|es| - 1])
  }

  /** Every population in `es` is present. */
  ghost predicate AllFinite(es: seq<Entry>)
  {
    forall i :: 0 <= i < |es| ==> es[i].summable.Some?
  }

  /** Entry `k` is the crossing entry: the prefix before it sums to at most the
      target, and the prefix through it sums to more. */
  ghost predicate IsCrossing(es: seq<Entry>, target: nat, k: nat)
  {
    k < |es| && FiniteSum(es[..k]) <= target < FiniteSum(es[..k + 1])
  }

  /** The ids of `es`, in order. */
  ghost function IdSeq(es: seq<Entry>): seq<GeoId>
  {
    seq(|es|, i requires 0 <= i < |es| => es[i].geoId)
  }

  /** The ids of `es`, as a set. */
  ghost function IdSet(es: seq<Entry>): set<GeoId>
  {
    set i | 0 <= i < |es| :: es[i].geoId
  }

  // ---------------------------------------------------------------------------
  // Prefix sums

  lemma PrefixStep(es: seq<Entry>, k: nat)
    requires k < |es|
    ensures FiniteSum(es[..k + 1]) == FiniteSum(es[..k]) + Val(es[k])
    ensures IdSeq(es[..k + 1]) == IdSeq(es[..k]) + [es[k].geoId]
  {
    assert es[..k + 1][..k] == es[..k];
  }

  /** Prefix sums never decrease. */
  lemma {:induction false} PrefixSumMonotone(es: seq<Entry>, m: nat, n: nat)
    requires m <= n <= |es|
    ensures FiniteSum(es[..m]) <= FiniteSum(es[..n])
    decreases n - m
  {
    if m < n {
      PrefixStep(es, m);
      PrefixSumMonotone(es, m + 1, n);
    }
  }

  /** The crossing entry, when there is one, ends the longest prefix whose sum
      stays within the target: every prefix up to it stays within, every longer
      prefix exceeds. Hence it is unique. */
  lemma CrossingIsLongestPrefix(es: seq<Entry>, target: nat, k: nat)
    requires IsCrossing(es, target, k)
    ensures forall m :: 0 <= m <= |es| ==> (FiniteSum(es[..m]) <= target <==> m <= k)
    ensures forall j: nat :: IsCrossing(es, target, j) ==> j == k
  {
    forall m | 0 <= m <= |es|
      ensures FiniteSum(es[..m]) <= target <==> m <= k
    {
      if m <= k {
        PrefixSumMonotone(es, m, k);
      } else {
        PrefixSumMonotone(es, k + 1, m);
      }
    }
  }

  /** A list that sums to more than the target has a crossing entry. */
  lemma {:induction false} FindCrossing(es: seq<Entry>, target: nat) returns (k: nat)
    requires FiniteSum(es) > target
    ensures IsCrossing(es, target, k)
    decreases |es|
  {
    var n := |es| - 1;
    var init := es[..n];
    if FiniteSum(init) > target {
      k := FindCrossing(init, target);
      assert init[..k] == es[..k] && init[..k + 1] == es[..k + 1];
    } else {
      k := n;
      assert es[..n + 1] == es;
    }
  }

  /** A crossing entry exists exactly when the whole list sums to more than
      the target. */
  lemma CrossingExists(es: seq<Entry>, target: nat)
    ensures (exists k: nat :: IsCrossing(es, target, k)) <==> FiniteSum(es) > target
  {
    if exists k: nat :: IsCrossing(es, target, k) {
      var k: nat :| IsCrossing(es, target, k);
      CrossingBelowTotal(es, target, k);
    }
    if FiniteSum(es) > target {
      var k := FindCrossing(es, target);
    }
  }

  /** The prefix through a crossing entry, and so the whole list, sums to more
      than the target. */
  lemma CrossingBelowTotal(es: seq<Entry>, target: nat, k: nat)
    requires IsCrossing(es, target, k)
    ensures FiniteSum(es) > target
  {
    PrefixSumMonotone(es, k + 1, |es|);
    assert es[..|es|] == es;
  }

  // ---------------------------------------------------------------------------
  // The walk against the reference

  /** From a position whose running sum is the finite prefix sum, one step
      adds the entry's finite population (under PlainAdd, when it is present). */
  lemma AddStep(policy: MissingPolicy, es: seq<Entry>, k: nat)
    requires k < |es|
    requires policy == PlainAdd ==> es[k].summable.Some?
    ensures AddPopulation(policy, Finite(FiniteSum(es[..k])), es[k].summable)
         == Finite(FiniteSum(es[..k + 1]))
  {
    PrefixStep(es, k);
  }

  /** Up to the crossing entry the walk keeps the prefix sum and the prefix's
      ids, and it stops at the crossing entry, provided every population it
      adds on the way is present or the policy skips missing ones. */
  lemma {:induction false} WalkReachesCrossing(policy: MissingPolicy, es: seq<Entry>, target: nat,
                                               k: nat, j: nat)
    requires k <= j
    requires IsCrossing(es, target, j)
    requires policy == PlainAdd ==> forall i :: k <= i <= j ==> es[i].summable.Some?
    ensures Walk(policy, target, es, k, Finite(FiniteSum(es[..k])), IdSeq(es[..k]))
         == Some(Crossing(IdSeq(es[..j]), Finite(FiniteSum(es[..j + 1])), es[j].summable))
    decreases j - k
  {
    AddStep(policy, es, k);
    PrefixStep(es, k);
    if k < j {
      PrefixSumMonotone(es, k + 1, j);
      WalkReachesCrossing(policy, es, target, k + 1, j);
    }
  }

  /** Once the running sum is NaN it never exceeds the target again. */
  lemma {:induction false} WalkFromNaN(es: seq<Entry>, target: nat, k: nat, taken: seq<GeoId>)
    requires k <= |es|
    ensures Walk(PlainAdd, target, es, k, NaN, taken) == None
    decreases |es| - k
  {
    if k < |es| {
      WalkFromNaN(es, target, k + 1, taken + [es[k].geoId]);
    }
  }

  /** When the whole list sums to at most the target, the walk runs off the end. */
  lemma {:induction false} WalkRunsOut(policy: MissingPolicy, es: seq<Entry>, target: nat,
                                       k: nat, taken: seq<GeoId>)
    requires k <= |es|
    requires FiniteSum(es) <= target
    ensures Walk(policy, target, es, k, Finite(FiniteSum(es[..k])), taken) == None
    decreases |es| - k
  {
    if k < |es| {
      PrefixStep(es, k);
      PrefixSumMonotone(es, k + 1, |es|);
      assert es[..|es|] == es;
      if policy == PlainAdd && es[k].summable.None? {
        WalkFromNaN(es, target, k + 1, taken + [es[k].geoId]);
      } else {
        AddStep(policy, es, k);
        WalkRunsOut(policy, es, target, k + 1, taken + [es[k].geoId]);
      }
    }
  }

  /** Under PlainAdd, a missing population reached before the sum exceeds the
      target poisons the sum, and the walk runs off the end. */
  lemma {:induction false} WalkPoisoned(es: seq<Entry>, target: nat, k: nat, m: nat,
                                        taken: seq<GeoId>)
    requires k <= m < |es|
    requires es[m].summable.None?
    requires FiniteSum(es[..m]) <= target
    ensures Walk(PlainAdd, target, es, k, Finite(FiniteSum(es[..k])), taken) == None
    decreases m - k
  {
    PrefixStep(es, k);
    if es[k].summable.None? {
      WalkFromNaN(es, target, k + 1, taken + [es[k].geoId]);
    } else {
      AddStep(PlainAdd, es, k);
      PrefixSumMonotone(es, k + 1, m);
      WalkPoisoned(es, target, k + 1, m, taken + [es[k].geoId]);
    }
  }

  // ---------------------------------------------------------------------------
  // The current variant

  /** At a crossing, the current variant returns the ids of the prefix before
      the crossing entry, that prefix's finite sum as `numPop` (at most the
      target, while adding the crossing entry would exceed it), and the number
      of distinct ids as `numCounties`. */
  lemma CheckIntersectAtCrossing(ranked: seq<Entry>, k: nat)
    requires IsCrossing(ranked, NycPopulation, k)
    ensures CheckIntersect(ranked)
         == Some(Summary(IdSet(ranked[..k]), Finite(FiniteSum(ranked[..k])), |IdSet(ranked[..k])|))
  {
    assert ranked[..0] == [];
    WalkReachesCrossing(SkipNonFinite, ranked, NycPopulation, 0, k);
    PrefixStep(ranked, k);
    var prefix := ranked[..k];
    assert (set id | id in IdSeq(prefix)) == IdSet(prefix) by {
      forall id | id in IdSeq(prefix) ensures id in IdSet(prefix) {
        var i :| 0 <= i < |prefix| && IdSeq(prefix)[i] == id;
      }
      forall id | id in IdSet(prefix) ensures id in IdSeq(prefix) {
        var i :| 0 <= i < |prefix| && prefix[i].geoId == id;
        assert IdSeq(prefix)[i] == id;
      }
    }
  }

  /** The current variant returns `undefined` exactly when the finite
      populations of the whole ranked list sum to at most the target. */
  lemma CheckIntersectUndefined(ranked: seq<Entry>)
    ensures CheckIntersect(ranked).None? <==> FiniteSum(ranked) <= NycPopulation
  {
    assert ranked[..0] == [];
    if FiniteSum(ranked) <= NycPopulation {
      WalkRunsOut(SkipNonFinite, ranked, NycPopulation, 0, []);
    } else {
      CrossingExists(ranked, NycPopulation);
      var k: nat :| IsCrossing(ranked, NycPopulation, k);
      CheckIntersectAtCrossing(ranked, k);
    }
  }

  // ---------------------------------------------------------------------------
  // The earlier variant

  /** At a crossing reached without a missing population, the earlier variant
      returns the ids before the crossing entry, in ranked order. */
  lemma LegacyAtCrossing(ranked: seq<Entry>, k: nat)
    requires IsCrossing(ranked, LegacyTarget, k)
    requires AllFinite(ranked[..k + 1])
    ensures LegacyCheckIntersect(ranked) == Some(IdSeq(ranked[..k]))
    ensures forall i :: 0 <= i < k ==> LegacyCheckIntersect(ranked).value[i] == ranked[i].geoId
  {
    assert ranked[..0] == [];
    assert forall i :: 0 <= i <= k ==> ranked[i].summable.Some? by {
      forall i | 0 <= i <= k ensures ranked[i].summable.Some? {
        assert ranked[..k + 1][i] == ranked[i];
      }
    }
    WalkReachesCrossing(PlainAdd, ranked, LegacyTarget, 0, k);
  }

  /** A missing population met before the sum exceeds the target makes the
      earlier variant return `undefined`. */
  lemma LegacyPoisoned(ranked: seq<Entry>, m: nat)
    requires m < |ranked| && ranked[m].summable.None?
    requires FiniteSum(ranked[..m]) <= LegacyTarget
    ensures LegacyCheckIntersect(ranked) == None
  {
    assert ranked[..0] == [];
    WalkPoisoned(ranked, LegacyTarget, 0, m, []);
  }

  /** The earlier variant returns an array exactly when the sum crosses the
      target and every population up to and including the crossing entry is
      present; in particular it returns `undefined` whenever the whole list
      sums to at most the target. */
  lemma LegacyDefinedIff(ranked: seq<Entry>)
    ensures LegacyCheckIntersect(ranked).Some?
        <==> exists k: nat :: IsCrossing(ranked, LegacyTarget, k) && AllFinite(ranked[..k + 1])
    ensures FiniteSum(ranked) <= LegacyTarget ==> LegacyCheckIntersect(ranked) == None
  {
    assert ranked[..0] == [];
    if FiniteSum(ranked) <= LegacyTarget {
      WalkRunsOut(PlainAdd, ranked, LegacyTarget, 0, []);
      CrossingExists(ranked, LegacyTarget);
    } else {
      CrossingExists(ranked, LegacyTarget);
      var k: nat :| IsCrossing(ranked, LegacyTarget, k);
      CrossingIsLongestPrefix(ranked, LegacyTarget, k);
      if AllFinite(ranked[..k + 1]) {
        LegacyAtCrossing(ranked, k);
      } else {
        var m :| 0 <= m < k + 1 && ranked[..k + 1][m].summable.None?;
        PrefixSumMonotone(ranked, m, k);
        LegacyPoisoned(ranked, m);
      }
    }
  }

  // ---------------------------------------------------------------------------
  // The earlier variant with missing populations skipped

  /** The earlier variant's walk with its target, but with missing populations
      contributing 0 instead of turning the sum into NaN, as the current
      variant does. */
  function LegacyCheckIntersectSkipping(ranked: seq<Entry>): Option<seq<GeoId>>
  {
    match Walk(SkipNonFinite, LegacyTarget, ranked, 0, Finite(0), [])
    case None => None
    case Some(c) => Some(c.taken)
  }

  /** With missing populations skipped, the earlier variant returns the ids
      of the longest prefix within the target whenever the whole list exceeds
      it, missing populations or not. */
  lemma LegacySkippingSpec(ranked: seq<Entry>, k: nat)
    ensures LegacyCheckIntersectSkipping(ranked).None? <==> FiniteSum(ranked) <= LegacyTarget
    ensures IsCrossing(ranked, LegacyTarget, k)
            ==> LegacyCheckIntersectSkipping(ranked) == Some(IdSeq(ranked[..k]))
  {
    assert ranked[..0] == [];
    if IsCrossing(ranked, LegacyTarget, k) {
      WalkReachesCrossing(SkipNonFinite, ranked, LegacyTarget, 0, k);
    }
    if FiniteSum(ranked) <= LegacyTarget {
      WalkRunsOut(SkipNonFinite, ranked, LegacyTarget, 0, []);
    } else {
      CrossingExists(ranked, LegacyTarget);
      var j: nat :| IsCrossing(ranked, LegacyTarget, j);
      WalkReachesCrossing(SkipNonFinite, ranked, LegacyTarget, 0, j);
    }
  }

  /** A county without a population, ranked first, ahead of a county whose
      population exceeds the target: the earlier variant returns `undefined`
      although the sum crosses the target at the second entry; skipping the
      missing population returns the first county. */
  lemma LegacyMissingPopulationExample()
    ensures var ranked := [Entry("A", None, 0.0), Entry("B", Some(20000000), 1.0)];
            && IsCrossing(ranked, LegacyTarget, 1)
            && LegacyCheckIntersect(ranked) == None
            && LegacyCheckIntersectSkipping(ranked) == Some(["A"])
  {
    var ranked := [Entry("A", None, 0.0), Entry("B", Some(20000000), 1.0)];
    assert ranked[..1][..0] == [] && ranked[..2][..1] == ranked[..1];
    assert FiniteSum(ranked[..1]) == 0;
    assert ranked[..2] == ranked;
    LegacyPoisoned(ranked, 0);
    LegacySkippingSpec(ranked, 1);
    assert IdSeq(ranked[..1]) == ["A"];
  }
}
