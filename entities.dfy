/** The records the pipeline works on. */
module Entities {

  /** A bounty hunter: the planet it watches and the day it is there. */
  datatype BountyHunter = BountyHunter(planet: string, day: int)

  /**
   * The mission: the MillenniumFalcon fields (autonomy, departure, arrival)
   * with the Empire fields it inherits (countdown, bounty hunters). The routes
   * database is replaced by the graph and candidate paths given to each stage.
   */
  datatype Mission = Mission(
    autonomy: int,
    departure: string,
    arrival: string,
    countdown: int,
    bountyHunters: seq<BountyHunter>)

  /** The `[stops, days]` pair stored for one path: where the ship is and on which day. */
  datatype Itinerary = Itinerary(stops: seq<string>, days: seq<int>)

  /** One dict item: a key such as "path_3" and its itinerary. */
  type Entry = (string, Itinerary)

  /** Stops and days run in lockstep and there is at least the departure. */
  predicate WellFormed(it: Itinerary)
  {
    |it.stops| == |it.days| && |it.days| >= 1
  }

  predicate StartsAt(it: Itinerary, departure: string)
  {
    |it.stops| >= 1 && |it.days| >= 1 && it.stops[0] == departure && it.days[0] == 0
  }

  /** `days[-1]`: the arrival day. */
  function LastDay(it: Itinerary): int
    requires |it.days| >= 1
  {
    it.days[|it.days| - 1]
  }

  predicate NonDecreasing(days: seq<int>)
  {
    forall i, j :: 0 <= i <= j < |days| ==> days[i] <= days[j]
  }
}
