/**
 * The rest-variant generator (`find_alternative_paths`): every itinerary with
 * a day to spare gets one variant per distinct non-final stop, with one rest
 * day inserted.
 */
module RestVariants {
  import opened Dict
  import opened Naming
  import opened Entities

  /** `e` lists the elements of `s`, each once: one iteration order of `set(s)`. */
  ghost predicate IsEnumeration(e: seq<string>, s: seq<string>)
  {
    (forall i, j :: 0 <= i < j < |e| ==> e[i] != e[j]) &&
    (forall x :: x in e <==> x in s)
  }

  /**
   * Python leaves the iteration order of `set(path[:-1])` unspecified, so the
   * model takes it as a parameter: any function giving an enumeration.
   */
  ghost predicate ValidOrder(order: seq<string> -> seq<string>)
  {
    forall s :: IsEnumeration(order(s), s)
  }

  function Elems(s: seq<string>): set<string>
  {
    set x | x in s
  }

  lemma {:induction false} DistinctCount(e: seq<string>)
    requires forall i, j :: 0 <= i < j < |e| ==> e[i] != e[j]
    ensures |Elems(e)| == |e|
  {
    if e != [] {
      var t := e[1..];
      assert forall i, j :: 0 <= i < j < |t| ==> t[i] != t[j] by {
        forall i, j | 0 <= i < j < |t| ensures t[i] != t[j] {
          assert t[i] == e[i + 1] && t[j] == e[j + 1];
        }
      }
      DistinctCount(t);
      assert Elems(e) == {e[0]} + Elems(t);
      assert e[0] !in Elems(t) by {
        forall x | x in t ensures x != e[0] {
          var j :| 0 <= j < |t| && t[j] == x;
          assert e[j + 1] == x;
        }
      }
    }
  }

  lemma {:induction false} ElemsBound(s: seq<string>)
    ensures |Elems(s)| <= |s|
  {
    if s != [] {
      ElemsBound(s[1..]);
      assert Elems(s) == {s[0]} + Elems(s[1..]);
    }
  }

  /** An enumeration of `set(s)` has one entry per distinct element of s, so at most |s|. */
  lemma EnumerationLength(e: seq<string>, s: seq<string>)
    requires IsEnumeration(e, s)
    ensures |e| == |Elems(s)| <= |s|
  {
    DistinctCount(e);
    assert Elems(e) == Elems(s);
    ElemsBound(s);
  }

  /** `path[:-1]`: every stop but the last. */
  function NonFinal(it: Itinerary): seq<string>
    requires |it.stops| >= 1
  {
    it.stops[..|it.stops| - 1]
  }

  function Shifted(ds: seq<int>): seq<int>
  {
    seq(|ds|, i requires 0 <= i < |ds| => ds[i] + 1)
  }

  /**
   * The variant of `it` with `marker` inserted at index idx+1 on day
   * days[idx]+1 and every later day one day later.
   */
  function InsertRest(it: Itinerary, idx: nat, marker: string): (r: Itinerary)
    requires WellFormed(it) && idx < |it.stops|
    ensures WellFormed(r) && |r.stops| == |it.stops| + 1
    ensures LastDay(r) == LastDay(it) + 1
  {
    Itinerary(
      it.stops[..idx + 1] + [marker] + it.stops[idx + 1..],
      it.days[..idx + 1] + [it.days[idx] + 1] + Shifted(it.days[idx + 1..]))
  }

  /**
   * Element by element: both lists grow by one, everything up to idx is kept,
   * the rest day follows at idx+1, everything after moves one place on and
   * one day later; so the arrival is exactly one day later.
   */
  lemma RestVariantShape(it: Itinerary, idx: nat, marker: string)
    requires WellFormed(it) && idx < |it.stops|
    ensures var r := InsertRest(it, idx, marker);
      WellFormed(r) && |r.stops| == |it.stops| + 1 &&
      (forall j :: 0 <= j <= idx ==> r.stops[j] == it.stops[j] && r.days[j] == it.days[j]) &&
      r.stops[idx + 1] == marker && r.days[idx + 1] == it.days[idx] + 1 &&
      (forall j :: idx + 1 < j < |r.stops| ==> r.stops[j] == it.stops[j - 1] && r.days[j] == it.days[j - 1] + 1) &&
      LastDay(r) == LastDay(it) + 1
  {
  }

  /** A variant starts where the itinerary starts, and keeps its days in order. */
  lemma RestVariantInvariants(it: Itinerary, idx: nat, marker: string, departure: string)
    requires WellFormed(it) && idx < |it.stops|
    ensures StartsAt(it, departure) ==> StartsAt(InsertRest(it, idx, marker), departure)
    ensures NonDecreasing(it.days) ==> NonDecreasing(InsertRest(it, idx, marker).days)
  {
    RestVariantShape(it, idx, marker);
    if NonDecreasing(it.days) {
      RestVariantNonDecreasing(it, idx, marker);
    }
  }

  lemma RestVariantNonDecreasing(it: Itinerary, idx: nat, marker: string)
    requires WellFormed(it) && idx < |it.stops| && NonDecreasing(it.days)
    ensures NonDecreasing(InsertRest(it, idx, marker).days)
  {
    var d, e := it.days, InsertRest(it, idx, marker).days;
    RestVariantShape(it, idx, marker);
    // e[k] is d[k] up to idx, d[idx] + 1 at idx + 1, and d[k - 1] + 1 after
    forall i, j | 0 <= i <= j < |e| ensures e[i] <= e[j] {
      if j == idx + 1 && i <= idx {
        assert d[i] <= d[idx];
      } else if j > idx + 1 {
        if i <= idx {
          assert d[i] <= d[j - 1];
        } else if i == idx + 1 {
          assert d[idx] <= d[j - 1];
        } else {
          assert d[i - 1] <= d[j - 1];
        }
      }
    }
  }

  /**
   * The copy-insert-shift of one variant: insert the marker and the rest day
   * at idx+1, then add one to every later day in place.
   */
  method RestVariant(path: seq<string>, day: seq<int>, idx: nat, marker: string)
    returns (pathCopy: seq<string>, dayCopy: seq<int>)
    requires |path| == |day| && idx < |day|
    ensures Itinerary(pathCopy, dayCopy) == InsertRest(Itinerary(path, day), idx, marker)
  {
    pathCopy := path;
    dayCopy := day;
    pathCopy := pathCopy[..idx + 1] + [marker] + pathCopy[idx + 1..];
    dayCopy := dayCopy[..idx + 1] + [dayCopy[idx] + 1] + dayCopy[idx + 1..];
    var i := idx + 2;
    while i < |dayCopy|
      invariant idx + 2 <= i <= |dayCopy| == |day| + 1
      invariant dayCopy[..idx + 1] == day[..idx + 1] && dayCopy[idx + 1] == day[idx] + 1
      invariant forall j :: idx + 2 <= j < i ==> dayCopy[j] == day[j - 1] + 1
      invariant forall j :: i <= j < |dayCopy| ==> dayCopy[j] == day[j - 1]
    {
      dayCopy := dayCopy[i := dayCopy[i] + 1];
      i := i + 1;
    }
    ghost var spec := InsertRest(Itinerary(path, day), idx, marker).days;
    assert forall j :: 0 <= j < |dayCopy| ==> dayCopy[j] == spec[j] by {
      forall j | 0 <= j < |dayCopy| ensures dayCopy[j] == spec[j] {
        if j <= idx {
          assert dayCopy[j] == dayCopy[..idx + 1][j];
        }
      }
    }
  }

  /**
   * The variants of one item, in generation order: none without slack,
   * otherwise one per enumerated distinct non-final stop, the idx-th resting
   * at that stop's name but inserted at index idx+1.
   */
  function VariantsOf(ed: Edition, e: Entry, countdown: int, order: seq<string> -> seq<string>): (r: seq<Entry>)
    requires WellFormed(e.1) && ValidOrder(order)
    // at most one variant per non-final stop, and only with a day to spare
    ensures |r| <= |e.1.stops| - 1
    ensures r != [] ==> countdown - LastDay(e.1) >= 1
  {
    if countdown - LastDay(e.1) >= 1 then
      var uniqueStops := order(NonFinal(e.1));
      EnumerationLength(uniqueStops, NonFinal(e.1));
      seq(|uniqueStops|, idx requires 0 <= idx < |uniqueStops| =>
        (VariantKey(ed, e.0, idx + 1), InsertRest(e.1, idx, RestLabel(ed, uniqueStops[idx]))))
    else
      []
  }

  /** The variants of all items, in generation order. */
  function AllVariants(ed: Edition, acc: seq<Entry>, countdown: int, order: seq<string> -> seq<string>): seq<Entry>
    requires forall e :: e in acc ==> WellFormed(e.1)
    requires ValidOrder(order)
    decreases |acc|
  {
    if acc == [] then []
    else
      assert forall e :: e in acc[..|acc| - 1] ==> e in acc;
      AllVariants(ed, acc[..|acc| - 1], countdown, order) + VariantsOf(ed, acc[|acc| - 1], countdown, order)
  }

  /** The variants of one item with a day to spare, one by one. */
  lemma VariantsOfAt(ed: Edition, e: Entry, countdown: int, order: seq<string> -> seq<string>)
    requires WellFormed(e.1) && ValidOrder(order) && countdown - LastDay(e.1) >= 1
    ensures var u := order(NonFinal(e.1));
      |u| < |e.1.stops| && |VariantsOf(ed, e, countdown, order)| == |u| &&
      forall q :: 0 <= q < |u| ==>
        VariantsOf(ed, e, countdown, order)[q] == (VariantKey(ed, e.0, q + 1), InsertRest(e.1, q, RestLabel(ed, u[q])))
  {
    EnumerationLength(order(NonFinal(e.1)), NonFinal(e.1));
  }

  /** AllVariants of one more item. */
  lemma AllVariantsSnoc(ed: Edition, acc: seq<Entry>, n: nat, countdown: int, order: seq<string> -> seq<string>)
    requires forall e :: e in acc ==> WellFormed(e.1)
    requires ValidOrder(order) && n < |acc|
    ensures forall e :: e in acc[..n] ==> WellFormed(e.1)
    ensures AllVariants(ed, acc[..n + 1], countdown, order) ==
      AllVariants(ed, acc[..n], countdown, order) + VariantsOf(ed, acc[n], countdown, order)
  {
    assert forall e :: e in acc[..n] ==> e in acc;
    assert acc[..n + 1][..n] == acc[..n];
  }

  /** The first idx + 1 variants of one item are the first idx and then variant idx. */
  lemma VariantsPrefixSnoc(ed: Edition, e: Entry, countdown: int, order: seq<string> -> seq<string>, idx: nat)
    requires WellFormed(e.1) && ValidOrder(order) && countdown - LastDay(e.1) >= 1
    requires idx < |order(NonFinal(e.1))|
    ensures idx + 1 < |e.1.stops| && idx < |VariantsOf(ed, e, countdown, order)|
    ensures var mine, u := VariantsOf(ed, e, countdown, order), order(NonFinal(e.1));
      mine[..idx + 1] == mine[..idx] + [(VariantKey(ed, e.0, idx + 1), InsertRest(e.1, idx, RestLabel(ed, u[idx])))]
  {
    var mine := VariantsOf(ed, e, countdown, order);
    VariantsOfAt(ed, e, countdown, order);
    assert mine[..idx + 1] == mine[..idx] + [mine[idx]];
  }

  /** Putting variant idx of one item is one more step of the merge of its variants. */
  lemma PutVariantStep(ed: Edition, e: Entry, countdown: int, order: seq<string> -> seq<string>,
                       alternative: seq<Entry>, idx: nat)
    requires WellFormed(e.1) && ValidOrder(order) && countdown - LastDay(e.1) >= 1
    requires idx < |order(NonFinal(e.1))|
    ensures idx + 1 < |e.1.stops| && idx < |VariantsOf(ed, e, countdown, order)|
    ensures var mine, u := VariantsOf(ed, e, countdown, order), order(NonFinal(e.1));
      Merge(alternative, mine[..idx + 1]) ==
      Put(Merge(alternative, mine[..idx]), VariantKey(ed, e.0, idx + 1), InsertRest(e.1, idx, RestLabel(ed, u[idx])))
  {
    var mine, u := VariantsOf(ed, e, countdown, order), order(NonFinal(e.1));
    VariantsPrefixSnoc(ed, e, countdown, order, idx);
    MergeSnoc(alternative, mine[..idx], VariantKey(ed, e.0, idx + 1), InsertRest(e.1, idx, RestLabel(ed, u[idx])));
  }

  /**
   * find_alternative_paths' body for one item: when it has a day to spare,
   * `alternative_paths[variant key] = [path_copy, day_copy]` for each
   * enumerated distinct non-final stop.
   */
  method PutVariantsOf(ed: Edition, e: Entry, countdown: int, order: seq<string> -> seq<string>, alternative: seq<Entry>)
    returns (updated: seq<Entry>)
    requires WellFormed(e.1) && ValidOrder(order)
    ensures updated == Merge(alternative, VariantsOf(ed, e, countdown, order))
  {
    updated := alternative;
    var (key, value) := e;
    var path, day := value.stops, value.days;
    ghost var mine := VariantsOf(ed, e, countdown, order);
    var possibleRest := countdown - day[|day| - 1];
    if possibleRest >= 1 {
      var uniqueStops := order(path[..|path| - 1]);
      VariantsOfAt(ed, e, countdown, order);
      var idx := 0;
      while idx < |uniqueStops|
        invariant idx <= |uniqueStops| == |mine|
        invariant updated == Merge(alternative, mine[..idx])
      {
        var pathCopy, dayCopy := RestVariant(path, day, idx, RestLabel(ed, uniqueStops[idx]));
        PutVariantStep(ed, e, countdown, order, alternative, idx);
        updated := Put(updated, VariantKey(ed, key, idx + 1), Itinerary(pathCopy, dayCopy));
        idx := idx + 1;
      }
      assert mine[..|uniqueStops|] == mine;
    } else {
      assert mine == [];
    }
  }

  /** find_alternative_paths: the variants of every accepted item, put into a new dict. */
  method FindAlternativePaths(ed: Edition, acc: seq<Entry>, countdown: int, order: seq<string> -> seq<string>)
    returns (alternative: seq<Entry>)
    requires forall e :: e in acc ==> WellFormed(e.1)
    requires ValidOrder(order)
    ensures alternative == Merge([], AllVariants(ed, acc, countdown, order))
  {
    alternative := [];
    var n := 0;
    assert acc[..0] == [];
    while n < |acc|
      invariant n <= |acc|
      invariant forall e :: e in acc[..n] ==> WellFormed(e.1)
      invariant alternative == Merge([], AllVariants(ed, acc[..n], countdown, order))
    {
      AllVariantsSnoc(ed, acc, n, countdown, order);
      alternative := PutVariantsOf(ed, acc[n], countdown, order, alternative);
      MergeAppend([], AllVariants(ed, acc[..n], countdown, order), VariantsOf(ed, acc[n], countdown, order));
      n := n + 1;
      assert forall e :: e in acc[..n] ==> e in acc;
    }
    assert acc[..|acc|] == acc;
  }

  // ---------------------------------------------------------------------
  // Properties of the variants.

  /**
   * One variant per distinct non-final stop when there is a day to spare and
   * none otherwise; the idx-th is keyed with idx+1 and rests at the idx-th
   * stop of the enumeration; each arrives exactly one day later, still by
   * the countdown, from the same start, with its days still in order.
   */
  lemma VariantsOfFacts(ed: Edition, e: Entry, countdown: int, order: seq<string> -> seq<string>, departure: string)
    requires WellFormed(e.1) && ValidOrder(order)
    ensures var vs := VariantsOf(ed, e, countdown, order);
      |vs| == (if countdown - LastDay(e.1) >= 1 then |Elems(NonFinal(e.1))| else 0) &&
      (forall q :: 0 <= q < |vs| ==>
         (q + 1 < |e.1.stops| && vs[q].0 == VariantKey(ed, e.0, q + 1) &&
          vs[q].1 == InsertRest(e.1, q, RestLabel(ed, order(NonFinal(e.1))[q])))) &&
      (forall v :: v in vs ==> WellFormed(v.1) && LastDay(v.1) == LastDay(e.1) + 1 <= countdown) &&
      (StartsAt(e.1, departure) ==> forall v :: v in vs ==> StartsAt(v.1, departure)) &&
      (NonDecreasing(e.1.days) ==> forall v :: v in vs ==> NonDecreasing(v.1.days))
  {
    var vs := VariantsOf(ed, e, countdown, order);
    var u := order(NonFinal(e.1));
    EnumerationLength(u, NonFinal(e.1));
    if countdown - LastDay(e.1) >= 1 {
      forall q | 0 <= q < |vs|
        ensures WellFormed(vs[q].1) && LastDay(vs[q].1) == LastDay(e.1) + 1
        ensures StartsAt(e.1, departure) ==> StartsAt(vs[q].1, departure)
        ensures NonDecreasing(e.1.days) ==> NonDecreasing(vs[q].1.days)
      {
        RestVariantShape(e.1, q, RestLabel(ed, u[q]));
        RestVariantInvariants(e.1, q, RestLabel(ed, u[q]), departure);
      }
    }
  }

  /** Every variant is well formed, starts at the departure and arrives by the countdown. */
  lemma {:induction false} AllVariantsSound(ed: Edition, acc: seq<Entry>, countdown: int, order: seq<string> -> seq<string>, departure: string)
    requires forall e :: e in acc ==> WellFormed(e.1) && StartsAt(e.1, departure)
    requires ValidOrder(order)
    ensures forall v :: v in AllVariants(ed, acc, countdown, order) ==>
      WellFormed(v.1) && StartsAt(v.1, departure) && LastDay(v.1) <= countdown
    ensures (forall e :: e in acc ==> NonDecreasing(e.1.days)) ==>
      forall v :: v in AllVariants(ed, acc, countdown, order) ==> NonDecreasing(v.1.days)
    decreases |acc|
  {
    if acc != [] {
      var front, last := acc[..|acc| - 1], acc[|acc| - 1];
      assert forall e :: e in front ==> e in acc;
      AllVariantsSound(ed, front, countdown, order, departure);
      VariantsOfFacts(ed, last, countdown, order, departure);
    }
  }

  /** The Refactored variants of one item have distinct keys, none a path key, all made from its key. */
  lemma RefactoredVariantKeysOfItem(e: Entry, countdown: int, order: seq<string> -> seq<string>)
    requires WellFormed(e.1) && IsPathKey(e.0) && ValidOrder(order)
    ensures var vs := VariantsOf(Refactored, e, countdown, order);
      DistinctKeys(vs) &&
      forall v :: v in vs ==> !IsPathKey(v.0) && |v.0| >= 5 && BaseOf(v.0) == e.0
  {
    var vs := VariantsOf(Refactored, e, countdown, order);
    if countdown - LastDay(e.1) >= 1 {
      VariantsOfAt(Refactored, e, countdown, order);
    }
    forall q | 0 <= q < |vs|
      ensures !IsPathKey(vs[q].0) && |vs[q].0| >= 5 && BaseOf(vs[q].0) == e.0
    {
      RefactoredVariantKey(e.0, q + 1);
    }
    forall i, j | 0 <= i < j < |vs| ensures vs[i].0 != vs[j].0 {
      RefactoredVariantKeysDistinct(e.0, i + 1, j + 1);
    }
  }

  /**
   * Refactored variant keys never repeat, are never path keys, and name the
   * item they were made from.
   */
  lemma {:induction false} RefactoredVariantKeysOf(acc: seq<Entry>, countdown: int, order: seq<string> -> seq<string>)
    requires forall e :: e in acc ==> WellFormed(e.1) && IsPathKey(e.0)
    requires DistinctKeys(acc) && ValidOrder(order)
    ensures var vs := AllVariants(Refactored, acc, countdown, order);
      DistinctKeys(vs) &&
      forall v :: v in vs ==> !IsPathKey(v.0) && |v.0| >= 5 && HasKey(acc, BaseOf(v.0))
    decreases |acc|
  {
    if acc != [] {
      var front, last := acc[..|acc| - 1], acc[|acc| - 1];
      assert forall e :: e in front ==> e in acc;
      assert DistinctKeys(front) by {
        forall i, j | 0 <= i < j < |front| ensures front[i].0 != front[j].0 {
          assert front[i] == acc[i] && front[j] == acc[j];
        }
      }
      RefactoredVariantKeysOf(front, countdown, order);
      RefactoredVariantKeysOfItem(last, countdown, order);
      var before := AllVariants(Refactored, front, countdown, order);
      var mine := VariantsOf(Refactored, last, countdown, order);
      forall v | v in before ensures HasKey(acc, BaseOf(v.0)) && BaseOf(v.0) != last.0 {
        var q :| 0 <= q < |front| && front[q].0 == BaseOf(v.0);
        assert acc[q] == front[q];
      }
      forall i, j | 0 <= i < |before| && 0 <= j < |mine| ensures before[i].0 != mine[j].0 {
        assert before[i] in before && mine[j] in mine;
      }
      DistinctConcat(before, mine);
      forall v | v in mine ensures HasKey(acc, BaseOf(v.0)) {
        assert acc[|acc| - 1] == last;
      }
    }
  }

  /**
   * In the Refactored edition the accepted keys and all variant keys are
   * pairwise different, so merging never overwrites anything.
   */
  lemma RefactoredKeysAllDistinct(acc: seq<Entry>, countdown: int, order: seq<string> -> seq<string>)
    requires forall e :: e in acc ==> WellFormed(e.1) && IsPathKey(e.0)
    requires DistinctKeys(acc) && ValidOrder(order)
    ensures DistinctKeys(acc + AllVariants(Refactored, acc, countdown, order))
  {
    var vs := AllVariants(Refactored, acc, countdown, order);
    RefactoredVariantKeysOf(acc, countdown, order);
    forall i, j | 0 <= i < |acc| && 0 <= j < |vs| ensures acc[i].0 != vs[j].0 {
      assert acc[i] in acc && vs[j] in vs;
    }
    DistinctConcat(acc, vs);
  }
}
