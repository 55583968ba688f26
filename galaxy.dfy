/**
 * The whole pipeline (`give_me_the_odds`): simulate every candidate path,
 * keep those arriving by the countdown, add their rest variants, count the
 * bounty-hunter encounters of every itinerary and turn the fewest into odds.
 */
module Galaxy {
  import opened Dict
  import opened Naming
  import opened Entities
  import opened Feasibility
  import opened Deadline
  import opened RestVariants
  import opened Scoring

  /** find_acceptable_paths: the feasible itineraries arriving by the countdown. */
  function Accepted(m: Mission, g: Graph, paths: seq<seq<string>>): (r: seq<Entry>)
    requires AllHopsAreEdges(g, paths)
    ensures forall e :: e in r <==> e in Feasible(m, g, paths) && LastDay(e.1) <= m.countdown
  {
    Acceptable(Feasible(m, g, paths), m.countdown)
  }

  /**
   * `{**acceptable_paths, **alternative_paths}`: the accepted items, then the
   * variants put over them one by one. Every itinerary in it starts at the
   * departure and arrives by the countdown.
   */
  function Pool(ed: Edition, m: Mission, g: Graph, paths: seq<seq<string>>, order: seq<string> -> seq<string>): (pool: seq<Entry>)
    requires AllHopsAreEdges(g, paths) && ValidOrder(order)
    ensures |pool| >= |Accepted(m, g, paths)|
    ensures forall e :: e in pool ==>
      WellFormed(e.1) && StartsAt(e.1, m.departure) && LastDay(e.1) <= m.countdown
  {
    var acc := Accepted(m, g, paths);
    AllVariantsSound(ed, acc, m.countdown, order, m.departure);
    Merge(acc, Merge([], AllVariants(ed, acc, m.countdown, order)))
  }

  /** Item i has the fewest encounters of the pool, and no earlier item has as few. */
  ghost predicate FirstFewestAt(pool: seq<Entry>, hs: seq<BountyHunter>, i: int)
    requires forall e :: e in pool ==> WellFormed(e.1)
  {
    0 <= i < |pool| &&
    (forall j :: 0 <= j < |pool| ==> Encounters(pool[i].1, hs) <= Encounters(pool[j].1, hs)) &&
    (forall j :: 0 <= j < i ==> Encounters(pool[i].1, hs) < Encounters(pool[j].1, hs))
  }

  /**
   * The answer for a non-empty pool: the path of the first itinerary with the
   * fewest encounters, and odds of 100·0.9^k for its k encounters, which lie
   * in (0, 100] and are 100 exactly when some itinerary meets no hunter.
   */
  ghost predicate OddsOfPool(pool: seq<Entry>, hs: seq<BountyHunter>, odds: real, optimalPath: seq<string>)
    requires forall e :: e in pool ==> WellFormed(e.1)
  {
    0.0 < odds <= 100.0 &&
    (odds == 100.0 <==> exists i :: 0 <= i < |pool| && Encounters(pool[i].1, hs) == 0) &&
    exists i :: FirstFewestAt(pool, hs, i) &&
      optimalPath == pool[i].1.stops &&
      odds == SuccessOdds(Encounters(pool[i].1, hs))
  }

  /** The first item with the fewest encounters is unique: no other index satisfies the predicate. */
  lemma FirstFewestUnique(pool: seq<Entry>, hs: seq<BountyHunter>, i: int)
    requires forall e :: e in pool ==> WellFormed(e.1)
    requires FirstFewestAt(pool, hs, i)
    ensures forall j :: FirstFewestAt(pool, hs, j) <==> j == i
  {
    forall j | 0 <= j < |pool| && j != i ensures !FirstFewestAt(pool, hs, j) {
      if j < i {
        assert Encounters(pool[i].1, hs) < Encounters(pool[j].1, hs);
      } else {
        assert Encounters(pool[i].1, hs) <= Encounters(pool[j].1, hs);
      }
    }
  }

  /** The encounter count of every itinerary of the pool and its path, in pool order. */
  method EncounterTable(pool: seq<Entry>, hs: seq<BountyHunter>) returns (kTable: seq<nat>, finalPaths: seq<seq<string>>)
    requires forall e :: e in pool ==> WellFormed(e.1)
    ensures |kTable| == |pool| && |finalPaths| == |pool|
    ensures forall j :: 0 <= j < |pool| ==>
      kTable[j] == Encounters(pool[j].1, hs) && finalPaths[j] == pool[j].1.stops
  {
    kTable, finalPaths := [], [];
    var n := 0;
    while n < |pool|
      invariant n <= |pool| && |kTable| == n && |finalPaths| == n
      invariant forall j :: 0 <= j < n ==>
        kTable[j] == Encounters(pool[j].1, hs) && finalPaths[j] == pool[j].1.stops
    {
      var value := pool[n].1;
      assert pool[n] in pool;
      var k := CountEncounters(value.stops, value.days, hs);
      kTable := kTable + [k];
      finalPaths := finalPaths + [value.stops];
      n := n + 1;
    }
  }

  /** The first minimum of the table is the first itinerary with the fewest encounters. */
  lemma FewestGivesOdds(pool: seq<Entry>, hs: seq<BountyHunter>, kTable: seq<nat>, kMin: nat, at: nat)
    requires forall e :: e in pool ==> WellFormed(e.1)
    requires |kTable| == |pool|
    requires forall j :: 0 <= j < |pool| ==> kTable[j] == Encounters(pool[j].1, hs)
    requires at < |kTable| && kTable[at] == kMin
    requires forall j :: 0 <= j < |kTable| ==> kMin <= kTable[j]
    requires forall j :: 0 <= j < at ==> kTable[j] > kMin
    ensures FirstFewestAt(pool, hs, at) && pool[at].1.stops != []
    ensures 0.0 < SuccessOdds(kMin) <= 100.0
    ensures SuccessOdds(kMin) == 100.0 <==> exists i :: 0 <= i < |pool| && Encounters(pool[i].1, hs) == 0
  {
    assert pool[at] in pool;
    SuccessOddsBounds(kMin);
  }

  /** find_acceptable_paths: simulate, then keep what arrives by the countdown. */
  method FindAcceptablePaths(m: Mission, g: Graph, paths: seq<seq<string>>) returns (acceptable: seq<Entry>)
    requires AllHopsAreEdges(g, paths)
    ensures acceptable == Accepted(m, g, paths)
  {
    var feasible := FindFeasiblePaths(m, g, paths);
    acceptable := Acceptable(feasible, m.countdown);
  }

  /**
   * give_me_the_odds. With no itinerary arriving by the countdown the answer
   * is 0 and no path. Otherwise the path is that of the first itinerary of
   * the pool with the fewest encounters and the odds are 100·0.9^k for its
   * k encounters: positive, and 100 exactly when some itinerary meets no
   * bounty hunter.
   */
  method GiveMeTheOdds(ed: Edition, m: Mission, g: Graph, paths: seq<seq<string>>, order: seq<string> -> seq<string>)
    returns (odds: real, optimalPath: seq<string>)
    requires AllHopsAreEdges(g, paths) && ValidOrder(order)
    ensures odds == 0.0 <==> forall e :: e in Feasible(m, g, paths) ==> LastDay(e.1) > m.countdown
    ensures optimalPath == [] <==> forall e :: e in Feasible(m, g, paths) ==> LastDay(e.1) > m.countdown
    ensures Accepted(m, g, paths) != [] ==>
      OddsOfPool(Pool(ed, m, g, paths, order), m.bountyHunters, odds, optimalPath)
  {
    var feasible := FindFeasiblePaths(m, g, paths);
    var valid := Acceptable(feasible, m.countdown);
    if |valid| == 0 {
      return 0.0, [];
    }
    var acceptable := FindAcceptablePaths(m, g, paths);
    var alternative := FindAlternativePaths(ed, acceptable, m.countdown, order);
    var all := Merge(acceptable, alternative);
    assert all == Pool(ed, m, g, paths, order);
    var kTable, finalPaths := EncounterTable(all, m.bountyHunters);
    var kMin, at := FirstMinimum(kTable);
    optimalPath := finalPaths[at];
    odds := OddsFor(kMin);
    FewestGivesOdds(all, m.bountyHunters, kTable, kMin, at);
    assert valid[0] in feasible;
  }

  // ---------------------------------------------------------------------
  // Properties of the pool.

  /**
   * In the Refactored edition no variant key is a path key and no two
   * variant keys clash, so the merge overwrites nothing: the pool is the
   * accepted items followed by all their variants.
   */
  lemma RefactoredPoolIsConcatenation(m: Mission, g: Graph, paths: seq<seq<string>>, order: seq<string> -> seq<string>)
    requires AllHopsAreEdges(g, paths) && ValidOrder(order)
    ensures var acc := Accepted(m, g, paths);
      Pool(Refactored, m, g, paths, order) == acc + AllVariants(Refactored, acc, m.countdown, order)
  {
    var feasible := Feasible(m, g, paths);
    var acc := Accepted(m, g, paths);
    FeasibleKeys(m, g, paths);
    SubsequenceDistinctKeys(acc, feasible);
    SubsequenceMembers(acc, feasible);
    var vs := AllVariants(Refactored, acc, m.countdown, order);
    RefactoredKeysAllDistinct(acc, m.countdown, order);
    RefactoredVariantKeysOf(acc, m.countdown, order);
    assert [] + vs == vs;
    MergeFresh([], vs);
    MergeFresh(acc, vs);
  }

  /** With non-negative travel times every itinerary of the pool has its days in order. */
  lemma PoolDaysNonDecreasing(ed: Edition, m: Mission, g: Graph, paths: seq<seq<string>>, order: seq<string> -> seq<string>)
    requires AllHopsAreEdges(g, paths) && ValidOrder(order)
    requires forall p :: p in paths ==> NonNegativeHops(g, p)
    ensures forall e :: e in Pool(ed, m, g, paths, order) ==> NonDecreasing(e.1.days)
  {
    var acc := Accepted(m, g, paths);
    FeasibleDaysNonDecreasing(m, g, paths);
    AllVariantsSound(ed, acc, m.countdown, order, m.departure);
  }
}
