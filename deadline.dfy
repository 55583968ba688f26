/** The deadline filter (`find_acceptable_paths`), a dict comprehension. */
module Deadline {
  import opened Dict
  import opened Entities

  /** s is t with some items left out, the rest in their order. */
  predicate IsSubsequence<T(==)>(s: seq<T>, t: seq<T>)
    decreases |t|
  {
    if s == [] then true
    else if t == [] then false
    else (s[0] == t[0] && IsSubsequence(s[1..], t[1..])) || IsSubsequence(s, t[1..])
  }

  /**
   * `{key: value for key, value in pool.items() if value[1][-1] <= countdown}`:
   * exactly the items arriving by the countdown, in their order.
   */
  function Acceptable(pool: seq<Entry>, countdown: int): (r: seq<Entry>)
    requires forall e :: e in pool ==> |e.1.days| >= 1
    ensures forall e :: e in r <==> e in pool && LastDay(e.1) <= countdown
    ensures IsSubsequence(r, pool)
  {
    if pool == [] then []
    else
      var rest := Acceptable(pool[1..], countdown);
      assert forall e :: e in pool[1..] ==> e in pool;
      if LastDay(pool[0].1) <= countdown then
        var r := [pool[0]] + rest;
        assert r[1..] == rest;
        r
      else rest
  }

  lemma {:induction false} SubsequenceMembers<T>(s: seq<T>, t: seq<T>)
    requires IsSubsequence(s, t)
    ensures forall x :: x in s ==> x in t
    decreases |t|
  {
    if s != [] {
      if s[0] == t[0] && IsSubsequence(s[1..], t[1..]) {
        SubsequenceMembers(s[1..], t[1..]);
        forall x | x in s ensures x in t {
          if x != s[0] {
            assert x in s[1..];
            assert x in t[1..];
          }
        }
      } else {
        SubsequenceMembers(s, t[1..]);
        assert forall x :: x in t[1..] ==> x in t;
      }
    }
  }

  /** A subsequence of a dict's items has no key twice either. */
  lemma {:induction false} SubsequenceDistinctKeys<K, V>(s: seq<(K, V)>, t: seq<(K, V)>)
    requires IsSubsequence(s, t) && DistinctKeys(t)
    ensures DistinctKeys(s)
    decreases |t|
  {
    if s != [] {
      assert DistinctKeys(t[1..]) by {
        forall i, j | 0 <= i < j < |t[1..]| ensures t[1..][i].0 != t[1..][j].0 {
          assert t[1..][i] == t[i + 1] && t[1..][j] == t[j + 1];
        }
      }
      if s[0] == t[0] && IsSubsequence(s[1..], t[1..]) {
        SubsequenceDistinctKeys(s[1..], t[1..]);
        SubsequenceMembers(s[1..], t[1..]);
        forall i, j | 0 <= i < j < |s| ensures s[i].0 != s[j].0 {
          if i == 0 {
            assert s[j] == s[1..][j - 1];
            assert s[j] in t[1..];
            var q :| 0 <= q < |t[1..]| && t[1..][q] == s[j];
            assert t[q + 1] == s[j];
          } else {
            assert s[i] == s[1..][i - 1] && s[j] == s[1..][j - 1];
          }
        }
      } else {
        SubsequenceDistinctKeys(s, t[1..]);
      }
    }
  }
}
