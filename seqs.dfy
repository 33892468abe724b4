/** Sequence helpers shared by the cleaning and statistics modules. */
module Seqs {

  /** The elements of `s` that satisfy `keep`, in their original order
      (a boolean-mask selection such as `df[mask]` or `df.dropna()`). */
  function Filter<T>(keep: T -> bool, s: seq<T>): (r: seq<T>)
    ensures |r| <= |s|
  {
    if s == [] then []
    else (if keep(s[0]) then [s[0]] else []) + Filter(keep, s[1..])
  }

  /** Everything selected is an element of `s` that satisfies `keep`. */
  lemma {:induction false} FilterSound<T>(keep: T -> bool, s: seq<T>, i: int)
    requires 0 <= i < |Filter(keep, s)|
    ensures Filter(keep, s)[i] in s && keep(Filter(keep, s)[i])
  {
    var head := if keep(s[0]) then [s[0]] else [];
    if i >= |head| {
      FilterSound(keep, s[1..], i - |head|);
      assert Filter(keep, s)[i] == Filter(keep, s[1..])[i - |head|];
    }
  }

  /** Every element of `s` that satisfies `keep` is selected. */
  lemma {:induction false} FilterComplete<T>(keep: T -> bool, s: seq<T>, i: int)
    requires 0 <= i < |s| && keep(s[i])
    ensures s[i] in Filter(keep, s)
  {
    if i > 0 {
      FilterComplete(keep, s[1..], i - 1);
      assert s[1..][i - 1] == s[i];
    }
  }

  /** Regrouping a concatenation of three sequences. */
  lemma AppendAssociates<T>(a: seq<T>, b: seq<T>, c: seq<T>)
    ensures (a + b) + c == a + (b + c)
  {
  }

  /** Strictly ascending integers, hence distinct. */
  ghost predicate Increasing(s: seq<int>) {
    forall i, j :: 0 <= i < j < |s| ==> s[i] < s[j]
  }

  /** Keys that never decrease from left to right. */
  ghost predicate SortedBy<T>(key: T -> int, s: seq<T>) {
    forall i, j :: 0 <= i < j < |s| ==> key(s[i]) <= key(s[j])
  }

  /** Selecting a subsequence keeps an ordering by key. */
  lemma {:induction false} FilterKeepsOrder<T>(keep: T -> bool, key: T -> int, s: seq<T>)
    requires SortedBy(key, s)
    ensures SortedBy(key, Filter(keep, s))
  {
    if s != [] {
      FilterKeepsOrder(keep, key, s[1..]);
      var rest := Filter(keep, s[1..]);
      if keep(s[0]) {
        forall j | 0 <= j < |rest| ensures key(s[0]) <= key(rest[j]) {
          FilterSound(keep, s[1..], j);
          var m :| 0 <= m < |s[1..]| && s[1..][m] == rest[j];
          assert s[m + 1] == rest[j];
        }
        var r := [s[0]] + rest;
        forall i, j | 0 <= i < j < |r| ensures key(r[i]) <= key(r[j]) {
          if i > 0 {
            assert r[i] == rest[i - 1] && r[j] == rest[j - 1];
          } else {
            assert r[j] == rest[j - 1];
          }
        }
      }
    }
  }
}
