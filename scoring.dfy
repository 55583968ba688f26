/**
 * Risk scoring (`give_me_the_odds` after the deadline check): encounters per
 * itinerary, the first itinerary with the fewest, and the odds of success.
 */
module Scoring {
  import opened Entities

  /** A bounty hunter is met at a stop when both the planet and the day match. */
  predicate Meets(h: BountyHunter, planet: string, day: int)
  {
    h.planet == planet && h.day == day
  }

  /** Hunters among the first n of hs met at (planet, day). */
  function HuntersAt(hs: seq<BountyHunter>, planet: string, day: int, n: nat): (r: nat)
    requires n <= |hs|
    ensures r <= n
  {
    if n == 0 then 0
    else HuntersAt(hs, planet, day, n - 1) + (if Meets(hs[n - 1], planet, day) then 1 else 0)
  }

  /** Encounters at the first n stops of it. */
  function EncountersUpTo(it: Itinerary, hs: seq<BountyHunter>, n: nat): (r: nat)
    requires WellFormed(it) && n <= |it.stops|
    ensures r <= n * |hs|
  {
    if n == 0 then 0
    else
      assert (n - 1) * |hs| + |hs| == n * |hs|;
      EncountersUpTo(it, hs, n - 1) + HuntersAt(hs, it.stops[n - 1], it.days[n - 1], |hs|)
  }

  /** The number of (stop index, hunter) pairs that meet. */
  function Encounters(it: Itinerary, hs: seq<BountyHunter>): (r: nat)
    requires WellFormed(it)
    // each stop meets each hunter at most once
    ensures r <= |it.stops| * |hs|
  {
    EncountersUpTo(it, hs, |it.stops|)
  }

  lemma {:induction false} HuntersAtZero(hs: seq<BountyHunter>, planet: string, day: int, n: nat)
    requires n <= |hs|
    ensures HuntersAt(hs, planet, day, n) == 0 <==> forall j :: 0 <= j < n ==> !Meets(hs[j], planet, day)
  {
    if n > 0 {
      HuntersAtZero(hs, planet, day, n - 1);
    }
  }

  lemma {:induction false} EncountersUpToZero(it: Itinerary, hs: seq<BountyHunter>, n: nat)
    requires WellFormed(it) && n <= |it.stops|
    ensures EncountersUpTo(it, hs, n) == 0 <==>
      forall i, j :: 0 <= i < n && 0 <= j < |hs| ==> !Meets(hs[j], it.stops[i], it.days[i])
  {
    if n > 0 {
      EncountersUpToZero(it, hs, n - 1);
      HuntersAtZero(hs, it.stops[n - 1], it.days[n - 1], |hs|);
    }
  }

  /** An itinerary has no encounter exactly when no hunter is at any of its stops on its day. */
  lemma EncountersZero(it: Itinerary, hs: seq<BountyHunter>)
    requires WellFormed(it)
    ensures Encounters(it, hs) == 0 <==>
      forall i, j :: 0 <= i < |it.stops| && 0 <= j < |hs| ==> !Meets(hs[j], it.stops[i], it.days[i])
  {
    EncountersUpToZero(it, hs, |it.stops|);
  }

  /** The encounter count of one itinerary: a loop over its stops and, inside, over the hunters. */
  method CountEncounters(path: seq<string>, days: seq<int>, hs: seq<BountyHunter>) returns (k: nat)
    requires WellFormed(Itinerary(path, days))
    ensures k == Encounters(Itinerary(path, days), hs)
  {
    ghost var it := Itinerary(path, days);
    k := 0;
    var i := 0;
    while i < |path|
      invariant i <= |path|
      invariant k == EncountersUpTo(it, hs, i)
    {
      var currentStop, currentDay := path[i], days[i];
      ghost var before := k;
      var j := 0;
      while j < |hs|
        invariant j <= |hs|
        invariant k == before + HuntersAt(hs, currentStop, currentDay, j)
      {
        if hs[j].planet == currentStop && hs[j].day == currentDay {
          k := k + 1;
        }
        j := j + 1;
      }
      i := i + 1;
    }
  }

  /** `min(ks)` and then `ks.index(min(ks))`: the smallest value and where it first occurs. */
  method FirstMinimum(ks: seq<nat>) returns (kMin: nat, at: nat)
    requires |ks| > 0
    ensures at < |ks| && ks[at] == kMin
    ensures forall j :: 0 <= j < |ks| ==> kMin <= ks[j]
    ensures forall j :: 0 <= j < at ==> ks[j] > kMin
  {
    kMin := ks[0];
    var i := 1;
    while i < |ks|
      invariant 1 <= i <= |ks|
      invariant kMin in ks[..i]
      invariant forall j :: 0 <= j < i ==> kMin <= ks[j]
    {
      if ks[i] < kMin {
        kMin := ks[i];
      }
      i := i + 1;
    }
    assert ks[..|ks|] == ks;
    at := 0;
    while ks[at] != kMin
      invariant at < |ks|
      invariant kMin in ks[at..]
      invariant forall j :: 0 <= j < at ==> ks[j] > kMin
      decreases |ks| - at
    {
      at := at + 1;
    }
  }

  // ---------------------------------------------------------------------
  // Odds.

  function Pow(x: real, n: nat): (r: real)
    ensures x > 0.0 ==> r > 0.0
  {
    if n == 0 then 1.0 else x * Pow(x, n - 1)
  }

  /** The capture probability as the source sums it: 0.1 + Σ_{j=1}^{k-1} 9^j / 10^(j+1). */
  function CaptureSeries(k: nat): (r: real)
    requires k >= 1
    // the capture probability is 1 - 0.9^k: each encounter is survived with probability 9/10
    ensures r == 1.0 - Pow(0.9, k)
  {
    if k == 1 then 0.1
    else
      SeriesTerm(k - 1);
      CaptureSeries(k - 1) + Pow(9.0, k - 1) / Pow(10.0, k)
  }

  lemma {:induction false} NinesOverTens(j: nat)
    ensures Pow(9.0, j) == Pow(0.9, j) * Pow(10.0, j)
  {
    if j > 0 {
      NinesOverTens(j - 1);
      calc {
        Pow(9.0, j);
        9.0 * Pow(9.0, j - 1);
        9.0 * (Pow(0.9, j - 1) * Pow(10.0, j - 1));
        (0.9 * Pow(0.9, j - 1)) * (10.0 * Pow(10.0, j - 1));
      }
    }
  }

  /** Each term of the series is a tenth of the survival probability so far. */
  lemma SeriesTerm(j: nat)
    ensures Pow(9.0, j) / Pow(10.0, j + 1) == Pow(0.9, j) * 0.1
  {
    NinesOverTens(j);
    var t := Pow(10.0, j);
    assert Pow(10.0, j + 1) == 10.0 * t;
    assert Pow(9.0, j) == Pow(0.9, j) * t;
    assert (Pow(0.9, j) * t) / (10.0 * t) == Pow(0.9, j) * 0.1;
  }

  /** The odds for k encounters in closed form. */
  function SuccessOdds(k: nat): real
  {
    100.0 * Pow(0.9, k)
  }

  /** The odds from the minimal encounter count, summing the series term by term. */
  method OddsFor(kMin: nat) returns (odds: real)
    ensures kMin == 0 ==> odds == 100.0
    ensures kMin >= 1 ==> odds == 100.0 * (1.0 - CaptureSeries(kMin))
    ensures odds == SuccessOdds(kMin)
  {
    if kMin >= 1 {
      var prob := 0.1;
      var j := 1;
      while j < kMin
        invariant 1 <= j <= kMin
        invariant prob == CaptureSeries(j)
      {
        prob := prob + Pow(9.0, j) / Pow(10.0, j + 1);
        j := j + 1;
      }
      odds := 100.0 * (1.0 - prob);
    } else {
      odds := 100.0;
    }
  }

  /** The odds lie in (0, 100] and are 100 exactly when there is no encounter. */
  lemma {:induction false} SuccessOddsBounds(k: nat)
    ensures 0.0 < SuccessOdds(k) <= 100.0
    ensures SuccessOdds(k) == 100.0 <==> k == 0
  {
    if k > 0 {
      SuccessOddsBounds(k - 1);
      assert SuccessOdds(k) == 0.9 * SuccessOdds(k - 1);
    }
  }

  /** Fewer encounters always give strictly better odds. */
  lemma {:induction false} SuccessOddsDecreasing(k1: nat, k2: nat)
    requires k1 < k2
    ensures SuccessOdds(k1) > SuccessOdds(k2)
    decreases k2
  {
    SuccessOddsBounds(k2 - 1);
    assert SuccessOdds(k2) == 0.9 * SuccessOdds(k2 - 1);
    if k1 < k2 - 1 {
      SuccessOddsDecreasing(k1, k2 - 1);
    }
  }

  /** One encounter gives 90, two give 81. */
  lemma SuccessOddsExamples()
    ensures SuccessOdds(1) == 90.0 && SuccessOdds(2) == 81.0
    ensures 100.0 * (1.0 - CaptureSeries(1)) == 90.0
    ensures 100.0 * (1.0 - CaptureSeries(2)) == 81.0
  {
  }
}
