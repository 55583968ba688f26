/**
 * The feasibility simulation (`find_feasible_paths`): each candidate path is
 * walked hop by hop, building the parallel lists of stops and cumulative days.
 */
module Feasibility {
  import opened Dict
  import opened Naming
  import opened Entities

  /**
   * The route graph as travel times looked up by (origin, destination). The
   * source's graph is undirected, so a caller supplies both orientations.
   */
  type Graph = map<(string, string), int>

  /** Hop i of p, from p[i-1] to p[i]. */
  function Edge(p: seq<string>, i: nat): (string, string)
    requires 0 < i < |p|
  {
    (p[i - 1], p[i])
  }

  /** Every consecutive pair of the path is an edge, as for every path all_simple_paths yields. */
  predicate HopsAreEdges(g: Graph, p: seq<string>)
  {
    forall i :: 0 < i < |p| ==> Edge(p, i) in g
  }

  predicate AllHopsAreEdges(g: Graph, paths: seq<seq<string>>)
  {
    forall p :: p in paths ==> HopsAreEdges(g, p)
  }

  /** Number of hops, `len(zip(path[:-1], path[1:]))`. */
  function Hops(p: seq<string>): nat
  {
    if |p| == 0 then 0 else |p| - 1
  }

  /** Travel time of hop i, from p[i-1] to p[i]. */
  function Weight(g: Graph, p: seq<string>, i: nat): int
    requires HopsAreEdges(g, p) && 0 < i < |p|
  {
    g[Edge(p, i)]
  }

  /**
   * One turn of the hop loop. The hop is kept iff its travel time is within
   * the FULL autonomy (remaining autonomy is recomputed from it every time and
   * never consulted); a hop that uses all of it adds a refuel stop at the same
   * planet one day later. HopEffect states what it does.
   */
  function Hop(it: Itinerary, v: string, w: int, autonomy: int): (r: Itinerary)
    requires WellFormed(it)
    ensures WellFormed(r)
  {
    if w <= autonomy then
      var travelDays := LastDay(it) + w;
      if autonomy - w == 0 then
        Itinerary(it.stops + [v, v], it.days + [travelDays, travelDays + 1])
      else
        Itinerary(it.stops + [v], it.days + [travelDays])
    else
      it
  }

  /**
   * A hop only appends, and what it appends is the planet reached. An
   * over-range hop changes nothing. A kept hop appends one entry on day
   * LastDay(it) + w, and a refuel entry one day later when it uses the whole
   * autonomy.
   */
  lemma HopEffect(it: Itinerary, v: string, w: int, autonomy: int)
    requires WellFormed(it)
    ensures var r := Hop(it, v, w, autonomy);
      |r.stops| >= |it.stops| &&
      r.stops[..|it.stops|] == it.stops && r.days[..|it.days|] == it.days &&
      (forall i :: |it.stops| <= i < |r.stops| ==> r.stops[i] == v)
    ensures w > autonomy ==> Hop(it, v, w, autonomy) == it
    ensures w <= autonomy ==> |Hop(it, v, w, autonomy).stops| == |it.stops| + (if w == autonomy then 2 else 1)
    ensures w <= autonomy ==> Hop(it, v, w, autonomy).days[|it.days|] == LastDay(it) + w
    ensures w <= autonomy ==> LastDay(Hop(it, v, w, autonomy)) == LastDay(it) + w + (if w == autonomy then 1 else 0)
  {
    var r := Hop(it, v, w, autonomy);
    if w <= autonomy {
      assert r.stops[..|it.stops|] == it.stops && r.days[..|it.days|] == it.days;
    }
  }

  /** The itinerary after the first n hops of p. */
  function Walk(m: Mission, g: Graph, p: seq<string>, n: nat): (r: Itinerary)
    requires HopsAreEdges(g, p) && n <= Hops(p)
    ensures WellFormed(r) && StartsAt(r, m.departure)
  {
    if n == 0 then Itinerary([m.departure], [0])
    else Hop(Walk(m, g, p, n - 1), p[n], Weight(g, p, n), m.autonomy)
  }

  /** The itinerary of a whole path. */
  function Simulate(m: Mission, g: Graph, p: seq<string>): (r: Itinerary)
    requires HopsAreEdges(g, p)
    ensures WellFormed(r) && StartsAt(r, m.departure)
    // the arrival day and the stop count, in terms of the hops kept and refuelled
    ensures LastDay(r) == KeptTravel(m, g, p, Hops(p)) + Refuels(m, g, p, Hops(p))
    ensures |r.stops| == 1 + KeptHops(m, g, p, Hops(p)) + Refuels(m, g, p, Hops(p))
  {
    WalkTotals(m, g, p, Hops(p));
    Walk(m, g, p, Hops(p))
  }

  /** The dict find_feasible_paths returns: one itinerary per path, keyed path_1 … path_n in enumeration order. */
  function Feasible(m: Mission, g: Graph, paths: seq<seq<string>>): (r: seq<Entry>)
    requires AllHopsAreEdges(g, paths)
    ensures |r| == |paths|
    ensures forall e :: e in r ==> WellFormed(e.1) && StartsAt(e.1, m.departure)
  {
    seq(|paths|, i requires 0 <= i < |paths| => (PathKey(i + 1), Simulate(m, g, paths[i])))
  }

  // ---------------------------------------------------------------------
  // Reference quantities over the hops, independent of the loop.

  /** Total travel time of the kept hops among the first n. */
  function KeptTravel(m: Mission, g: Graph, p: seq<string>, n: nat): int
    requires HopsAreEdges(g, p) && n <= Hops(p)
  {
    if n == 0 then 0
    else KeptTravel(m, g, p, n - 1) + (if Weight(g, p, n) <= m.autonomy then Weight(g, p, n) else 0)
  }

  /** Number of kept hops among the first n. */
  function KeptHops(m: Mission, g: Graph, p: seq<string>, n: nat): nat
    requires HopsAreEdges(g, p) && n <= Hops(p)
  {
    if n == 0 then 0
    else KeptHops(m, g, p, n - 1) + (if Weight(g, p, n) <= m.autonomy then 1 else 0)
  }

  /** Number of hops among the first n that use exactly the full autonomy. */
  function Refuels(m: Mission, g: Graph, p: seq<string>, n: nat): nat
    requires HopsAreEdges(g, p) && n <= Hops(p)
  {
    if n == 0 then 0
    else Refuels(m, g, p, n - 1) + (if Weight(g, p, n) == m.autonomy then 1 else 0)
  }

  /** Total travel time of the first i hops. */
  function Travel(g: Graph, p: seq<string>, i: nat): int
    requires HopsAreEdges(g, p) && i <= Hops(p)
  {
    if i == 0 then 0 else Travel(g, p, i - 1) + Weight(g, p, i)
  }

  predicate NonNegativeHops(g: Graph, p: seq<string>)
  {
    forall i :: 0 < i < |p| ==> Edge(p, i) in g && g[Edge(p, i)] >= 0
  }

  // ---------------------------------------------------------------------
  // Properties of the simulation.

  /**
   * The arrival day is the travel time of the kept hops plus one day per
   * refuel, and there is one stop per kept hop, one per refuel, and the
   * departure.
   */
  lemma {:induction false} WalkTotals(m: Mission, g: Graph, p: seq<string>, n: nat)
    requires HopsAreEdges(g, p) && n <= Hops(p)
    ensures LastDay(Walk(m, g, p, n)) == KeptTravel(m, g, p, n) + Refuels(m, g, p, n)
    ensures |Walk(m, g, p, n).stops| == 1 + KeptHops(m, g, p, n) + Refuels(m, g, p, n)
  {
    if n > 0 {
      WalkTotals(m, g, p, n - 1);
    }
  }

  /** With non-negative travel times the days never go back. */
  lemma {:induction false} WalkDaysNonDecreasing(m: Mission, g: Graph, p: seq<string>, n: nat)
    requires HopsAreEdges(g, p) && n <= Hops(p) && NonNegativeHops(g, p)
    ensures NonDecreasing(Walk(m, g, p, n).days)
  {
    if n > 0 {
      WalkDaysNonDecreasing(m, g, p, n - 1);
      var it := Walk(m, g, p, n - 1);
      var r := Walk(m, g, p, n);
      assert Weight(g, p, n) >= 0;
      forall i, j | 0 <= i <= j < |r.days| ensures r.days[i] <= r.days[j] {
        if j < |it.days| {
          assert r.days[i] == it.days[i] && r.days[j] == it.days[j];
        } else if i < |it.days| {
          assert r.days[i] == it.days[i] <= LastDay(it);
        }
      }
    }
  }

  /**
   * When every hop is strictly within the autonomy, nothing is skipped and
   * nothing is inserted: the stops are the path itself and the days are the
   * running travel times.
   */
  lemma {:induction false} WalkWithinRange(m: Mission, g: Graph, p: seq<string>, n: nat)
    requires HopsAreEdges(g, p) && n <= Hops(p)
    requires |p| >= 1 && p[0] == m.departure
    requires forall i :: 0 < i <= n ==> Weight(g, p, i) < m.autonomy
    ensures Walk(m, g, p, n).stops == p[..n + 1]
    ensures |Walk(m, g, p, n).days| == n + 1
    ensures forall i :: 0 <= i <= n ==> Walk(m, g, p, n).days[i] == Travel(g, p, i)
  {
    if n > 0 {
      WalkWithinRange(m, g, p, n - 1);
      assert p[..n + 1] == p[..n] + [p[n]];
    }
  }

  /** find_feasible_paths' inner loop for one path. */
  method SimulatePath(m: Mission, g: Graph, path: seq<string>) returns (it: Itinerary)
    requires HopsAreEdges(g, path)
    ensures it == Simulate(m, g, path)
  {
    var currentAutonomy := m.autonomy;
    var travelDays := 0;
    var stops := [m.departure];
    var days := [0];
    var i := 0;
    while i < Hops(path)
      invariant i <= Hops(path)
      invariant Itinerary(stops, days) == Walk(m, g, path, i)
      invariant travelDays == days[|days| - 1]
    {
      var current, nextStop := path[i], path[i + 1];
      assert Edge(path, i + 1) == (current, nextStop);
      var travelTime := g[(current, nextStop)];
      ghost var before := Itinerary(stops, days);
      assert travelTime == Weight(g, path, i + 1);
      if travelTime <= m.autonomy {
        travelDays := travelDays + travelTime;
        days := days + [travelDays];
        stops := stops + [nextStop];
        currentAutonomy := m.autonomy - travelTime;
        if currentAutonomy == 0 {
          stops := stops + [nextStop];
          travelDays := travelDays + 1;
          days := days + [travelDays];
          currentAutonomy := m.autonomy;
        }
      }
      assert Itinerary(stops, days) == Hop(before, nextStop, travelTime, m.autonomy);
      i := i + 1;
    }
    it := Itinerary(stops, days);
  }

  /** Simulating one more path puts one more item, under a fresh key. */
  lemma FeasibleSnoc(m: Mission, g: Graph, paths: seq<seq<string>>, idx: nat)
    requires AllHopsAreEdges(g, paths) && idx < |paths|
    ensures AllHopsAreEdges(g, paths[..idx]) && AllHopsAreEdges(g, paths[..idx + 1])
    ensures Feasible(m, g, paths[..idx + 1]) ==
      Put(Feasible(m, g, paths[..idx]), PathKey(idx + 1), Simulate(m, g, paths[idx]))
  {
    assert forall p :: p in paths[..idx + 1] ==> p in paths;
    assert forall p :: p in paths[..idx] ==> p in paths;
    var key, it := PathKey(idx + 1), Simulate(m, g, paths[idx]);
    var f, f1 := Feasible(m, g, paths[..idx]), Feasible(m, g, paths[..idx + 1]);
    assert !HasKey(f, key) by {
      forall j | 0 <= j < idx ensures f[j].0 != key {
        PathKeyInjective(j + 1, idx + 1);
      }
    }
    assert Put(f, key, it) == f + [(key, it)];
    forall j | 0 <= j < |f1| ensures f1[j] == (f + [(key, it)])[j] {
      assert paths[..idx + 1][j] == paths[j];
      if j < idx {
        assert paths[..idx][j] == paths[j];
      }
    }
  }

  /** find_feasible_paths: `feasible_paths['path_' + str(idx + 1)] = [stops, days]` per path. */
  method FindFeasiblePaths(m: Mission, g: Graph, paths: seq<seq<string>>) returns (feasible: seq<Entry>)
    requires AllHopsAreEdges(g, paths)
    ensures feasible == Feasible(m, g, paths)
  {
    feasible := [];
    var idx := 0;
    while idx < |paths|
      invariant idx <= |paths|
      invariant feasible == Feasible(m, g, paths[..idx])
    {
      var it := SimulatePath(m, g, paths[idx]);
      var key := PathKey(idx + 1);
      FeasibleSnoc(m, g, paths, idx);
      feasible := Put(feasible, key, it);
      idx := idx + 1;
    }
    assert paths[..|paths|] == paths;
  }

  /** The feasible dict has one key per path and no key twice. */
  lemma FeasibleKeys(m: Mission, g: Graph, paths: seq<seq<string>>)
    requires AllHopsAreEdges(g, paths)
    ensures DistinctKeys(Feasible(m, g, paths))
    ensures forall e :: e in Feasible(m, g, paths) ==> IsPathKey(e.0)
  {
    var f := Feasible(m, g, paths);
    forall i, j | 0 <= i < j < |f| ensures f[i].0 != f[j].0 {
      PathKeyInjective(i + 1, j + 1);
    }
  }

  /** With non-negative travel times every feasible itinerary has non-decreasing days. */
  lemma FeasibleDaysNonDecreasing(m: Mission, g: Graph, paths: seq<seq<string>>)
    requires AllHopsAreEdges(g, paths)
    requires forall p :: p in paths ==> NonNegativeHops(g, p)
    ensures forall e :: e in Feasible(m, g, paths) ==> NonDecreasing(e.1.days)
  {
    forall i | 0 <= i < |paths| ensures NonDecreasing(Simulate(m, g, paths[i]).days) {
      WalkDaysNonDecreasing(m, g, paths[i], Hops(paths[i]));
    }
  }
}
