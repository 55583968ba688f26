/**
 * The strings the pipeline invents: dict keys for itineraries and their rest
 * variants, and the label of an inserted rest stop. These are where the two
 * editions of Galaxy.py differ.
 */
module Naming {
  import opened Decimal

  /**
   * Classic: Galaxy.py, byte-identical to Giskard-solution/Galaxy.py.
   * Refactored: Millennium-falcon-solution/Galaxy.py.
   */
  datatype Edition = Classic | Refactored

  /** Key of the itinerary of the n-th enumerated path: `'path_' + str(n)`. */
  function PathKey(n: nat): (k: string)
    ensures IsPathKey(k)
  {
    var k := "path_" + Str(n);
    assert k[..5] == "path_" && k[5..] == Str(n);
    k
  }

  /** "path_" followed by no further underscore. */
  predicate IsPathKey(k: string)
  {
    |k| >= 5 && k[..5] == "path_" && '_' !in k[5..]
  }

  /**
   * Key of the variant resting at the n-th enumerated stop of the itinerary
   * keyed `key`: `key + str(n)` in Classic, `f"{key}_{n}"` in Refactored.
   */
  function VariantKey(ed: Edition, key: string, n: nat): (k: string)
    // the variant key extends the key it was made from ...
    ensures |k| > |key| && k[..|key|] == key
    // ... by an underscore exactly in Refactored, then only by the digits of n
    ensures k[|key|] == '_' <==> ed == Refactored
    ensures forall i :: |key| + (if ed == Refactored then 1 else 0) <= i < |k| ==> '0' <= k[i] <= '9'
  {
    match ed
    case Classic => key + Str(n)
    case Refactored => key + "_" + Str(n)
  }

  /**
   * The stop inserted for a rest day: Classic writes `stop*rest` with
   * `rest == 1`, which repeats the string once and so is the bare planet
   * name; Refactored writes `f"{stop}*{rest}"`.
   */
  function RestLabel(ed: Edition, stop: string): (l: string)
    // the label starts with the planet name, and is that name exactly in Classic
    ensures |l| >= |stop| && l[..|stop|] == stop
    ensures l == stop <==> ed == Classic
  {
    match ed
    case Classic => stop
    case Refactored => stop + "*1"
  }

  /** Position of the first underscore in `s`, or `|s|`. */
  function SepIndex(s: string): (i: nat)
    ensures i <= |s|
  {
    if s == [] || s[0] == '_' then 0 else 1 + SepIndex(s[1..])
  }

  lemma {:induction false} SepIndexAfter(x: string, y: string)
    requires '_' !in x
    ensures SepIndex(x + "_" + y) == |x|
  {
    var s := x + "_" + y;
    if x == [] {
      assert s[0] == '_';
    } else {
      assert s[0] == x[0];
      assert s[1..] == x[1..] + "_" + y;
      SepIndexAfter(x[1..], y);
    }
  }

  /** The path key a Refactored variant key was made from: the text before its second underscore. */
  function BaseOf(k: string): string
    requires |k| >= 5
  {
    k[..5 + SepIndex(k[5..])]
  }

  /** `'path_' + str(n)` names n and nothing else. */
  lemma PathKeyInjective(m: nat, n: nat)
    ensures PathKey(m) == PathKey(n) <==> m == n
  {
    assert PathKey(m)[5..] == Str(m) && PathKey(n)[5..] == Str(n);
    StrInjective(m, n);
  }

  /**
   * A Classic variant key is again of the form path_<digits>, so it can
   * coincide with the key of another itinerary or of another variant.
   */
  lemma ClassicVariantKeyIsPathKey(key: string, n: nat)
    requires IsPathKey(key)
    ensures IsPathKey(VariantKey(Classic, key, n))
  {
    var k := key + Str(n);
    assert k[..5] == key[..5];
    assert k[5..] == key[5..] + Str(n);
  }

  /** For instance the first variant of path_1 is keyed exactly like path_11. */
  lemma ClassicKeysCollide()
    ensures VariantKey(Classic, PathKey(1), 1) == PathKey(11)
  {
    assert Str(11) == Str(1) + [Digit(1)];
  }

  /**
   * A Refactored variant key is never a path key, and the path key it was
   * made from can be read back from it.
   */
  lemma RefactoredVariantKey(key: string, n: nat)
    requires IsPathKey(key)
    ensures !IsPathKey(VariantKey(Refactored, key, n))
    ensures |VariantKey(Refactored, key, n)| >= 5
    ensures BaseOf(VariantKey(Refactored, key, n)) == key
  {
    var k := key + "_" + Str(n);
    assert k[5..] == key[5..] + "_" + Str(n);
    assert k[5..][|key| - 5] == '_';
    SepIndexAfter(key[5..], Str(n));
    assert k[..|key|] == key;
  }

  /** Variants of one itinerary get distinct Refactored keys. */
  lemma RefactoredVariantKeysDistinct(key: string, m: nat, n: nat)
    ensures VariantKey(Refactored, key, m) == VariantKey(Refactored, key, n) <==> m == n
  {
    var km, kn := key + "_" + Str(m), key + "_" + Str(n);
    assert km[|key| + 1..] == Str(m) && kn[|key| + 1..] == Str(n);
    StrInjective(m, n);
  }
}
