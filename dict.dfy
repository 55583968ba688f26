/**
 * Python's `dict` as the pipeline uses it: the list of its (key, value) items
 * in insertion order. Assigning to a key that is already present keeps that
 * key's position and replaces its value; assigning to a new key appends it.
 * `{**a, **b}` puts the items of `b`, in order, into a copy of `a`; a dict
 * built item by item from `{}` is the same fold started from the empty list.
 */
module Dict {

  predicate HasKey<K(==), V>(d: seq<(K, V)>, k: K)
  {
    exists i :: 0 <= i < |d| && d[i].0 == k
  }

  /** No key occurs twice: true of every Python dict. */
  predicate DistinctKeys<K(==), V>(d: seq<(K, V)>)
  {
    forall i, j :: 0 <= i < j < |d| ==> d[i].0 != d[j].0
  }

  /** Position of the first item with key `k`, or `|d|` when there is none. */
  function FindKey<K(==), V>(d: seq<(K, V)>, k: K): (i: nat)
    ensures i <= |d|
    ensures i < |d| ==> d[i].0 == k
    ensures forall j :: 0 <= j < i ==> d[j].0 != k
  {
    if d == [] then 0
    else if d[0].0 == k then 0
    else 1 + FindKey(d[1..], k)
  }

  /** `d[k] = v`. */
  function Put<K(==), V(==)>(d: seq<(K, V)>, k: K, v: V): (r: seq<(K, V)>)
    ensures |d| <= |r| <= |d| + 1
    ensures HasKey(d, k) ==> |r| == |d|
    ensures !HasKey(d, k) ==> r == d + [(k, v)]
    // every key already present keeps its position
    ensures forall i :: 0 <= i < |d| ==> r[i].0 == d[i].0
    // every other item is left as it was
    ensures forall i :: 0 <= i < |d| && d[i].0 != k ==> r[i] == d[i]
    ensures (k, v) in r
    ensures forall e :: e in r ==> e in d || e == (k, v)
    ensures DistinctKeys(d) ==> DistinctKeys(r)
  {
    var i := FindKey(d, k);
    if i < |d| then d[i := (k, v)] else d + [(k, v)]
  }

  /** `{**d, **items}`: the items put into `d` one after the other. */
  function Merge<K(==), V(==)>(d: seq<(K, V)>, items: seq<(K, V)>): (r: seq<(K, V)>)
    ensures |r| >= |d|
    ensures forall i :: 0 <= i < |d| ==> r[i].0 == d[i].0
    ensures forall e :: e in r ==> e in d || e in items
    ensures DistinctKeys(d) ==> DistinctKeys(r)
    decreases |items|
  {
    if items == [] then d
    else
      var last := items[|items| - 1];
      var front := items[..|items| - 1];
      assert forall e :: e in front ==> e in items;
      Put(Merge(d, front), last.0, last.1)
  }

  /** Putting one more item after `items` is one more `Put`. */
  lemma MergeSnoc<K, V>(d: seq<(K, V)>, items: seq<(K, V)>, k: K, v: V)
    ensures Merge(d, items + [(k, v)]) == Put(Merge(d, items), k, v)
  {
    assert (items + [(k, v)])[..|items|] == items;
  }

  /** Merging two lists of items one after the other is merging their concatenation. */
  lemma {:induction false} MergeAppend<K, V>(d: seq<(K, V)>, a: seq<(K, V)>, b: seq<(K, V)>)
    ensures Merge(d, a + b) == Merge(Merge(d, a), b)
    decreases |b|
  {
    if b == [] {
      assert a + b == a;
    } else {
      var front, last := b[..|b| - 1], b[|b| - 1];
      assert (a + b)[..|a + b| - 1] == a + front;
      assert (a + b)[|a + b| - 1] == last;
      MergeAppend(d, a, front);
    }
  }

  /**
   * An item of `d` whose key `items` never mentions comes out of the merge
   * unchanged and in place.
   */
  lemma {:induction false} MergeKeepsUntouched<K, V>(d: seq<(K, V)>, items: seq<(K, V)>, i: nat)
    requires i < |d| && !HasKey(items, d[i].0)
    ensures Merge(d, items)[i] == d[i]
    decreases |items|
  {
    if items != [] {
      var front := items[..|items| - 1];
      assert !HasKey(front, d[i].0) by {
        forall j | 0 <= j < |front| ensures front[j].0 != d[i].0 {
          assert front[j] == items[j];
        }
      }
      MergeKeepsUntouched(d, front, i);
      assert items[|items| - 1].0 != d[i].0;
    }
  }

  /**
   * When the merged items have distinct keys (they come from a dict), every
   * one of them is in the result: on a key collision the later dict wins.
   */
  lemma {:induction false} MergeLaterWins<K, V>(d: seq<(K, V)>, items: seq<(K, V)>)
    requires DistinctKeys(items)
    ensures forall e :: e in items ==> e in Merge(d, items)
    decreases |items|
  {
    if items != [] {
      var front := items[..|items| - 1];
      var last := items[|items| - 1];
      MergeLaterWins(d, front);
      var prev := Merge(d, front);
      forall e | e in items ensures e in Merge(d, items) {
        if e != last {
          var j :| 0 <= j < |items| && items[j] == e;
          assert j < |items| - 1;
          assert e in front by { assert front[j] == e; }
          var i :| 0 <= i < |prev| && prev[i] == e;
          assert e.0 != last.0;
          assert Merge(d, items)[i] == e;
        }
      }
    }
  }

  lemma DistinctConcat<K, V>(a: seq<(K, V)>, b: seq<(K, V)>)
    requires DistinctKeys(a) && DistinctKeys(b)
    requires forall i, j :: 0 <= i < |a| && 0 <= j < |b| ==> a[i].0 != b[j].0
    ensures DistinctKeys(a + b)
  {
    forall i, j | 0 <= i < j < |a + b| ensures (a + b)[i].0 != (a + b)[j].0 {
      if j < |a| {
      } else if i < |a| {
        assert (a + b)[j] == b[j - |a|];
      } else {
        assert (a + b)[i] == b[i - |a|] && (a + b)[j] == b[j - |a|];
      }
    }
  }

  /**
   * With no key in common and none repeated, merging is concatenation:
   * nothing is overwritten and the new items follow the old ones in order.
   */
  lemma {:induction false} MergeFresh<K, V>(d: seq<(K, V)>, items: seq<(K, V)>)
    requires DistinctKeys(d + items)
    ensures Merge(d, items) == d + items
    decreases |items|
  {
    if items != [] {
      var front := items[..|items| - 1];
      var last := items[|items| - 1];
      assert d + items == (d + front) + [last];
      assert DistinctKeys(d + front) by {
        forall i, j | 0 <= i < j < |d + front| ensures (d + front)[i].0 != (d + front)[j].0 {
          assert (d + front)[i] == (d + items)[i] && (d + front)[j] == (d + items)[j];
        }
      }
      MergeFresh(d, front);
      assert !HasKey(d + front, last.0) by {
        forall i | 0 <= i < |d + front| ensures (d + front)[i].0 != last.0 {
          assert (d + front)[i] == (d + items)[i];
          assert last == (d + items)[|d + items| - 1];
        }
      }
    }
  }
}
