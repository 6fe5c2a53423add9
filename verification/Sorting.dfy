/** `sort_unstable` on node ids: the ascending list with the same entries. */
module Sorting {
  import opened Buckets

  ghost predicate Ascending(s: seq<nat>) {
    forall i, j | 0 <= i < j < |s| :: s[i] <= s[j]
  }

  ghost predicate Strict(s: seq<nat>) {
    forall i, j | 0 <= i < j < |s| :: s[i] < s[j]
  }

  function Insert(s: seq<nat>, x: nat): (r: seq<nat>)
    ensures |r| == |s| + 1
  {
    if |s| == 0 || s[|s| - 1] <= x then s + [x] else Insert(s[..|s| - 1], x) + [s[|s| - 1]]
  }

  function Sort(s: seq<nat>): (r: seq<nat>)
    ensures |r| == |s|
  {
    if |s| == 0 then [] else Insert(Sort(s[..|s| - 1]), s[|s| - 1])
  }

  lemma {:induction false} InsertCount(s: seq<nat>, x: nat, k: nat)
    ensures Count(Insert(s, x), k) == Count(s, k) + if x == k then 1 else 0
  {
    if |s| == 0 || s[|s| - 1] <= x {
      CountPush(s, x, k);
    } else {
      InsertCount(s[..|s| - 1], x, k);
      CountPush(Insert(s[..|s| - 1], x), s[|s| - 1], k);
    }
  }

  lemma {:induction false} InsertAscending(s: seq<nat>, x: nat)
    requires Ascending(s)
    ensures Ascending(Insert(s, x))
    ensures forall i | 0 <= i <= |s| :: Insert(s, x)[i] <= if |s| == 0 || s[|s| - 1] <= x then x else s[|s| - 1]
  {
    if |s| > 0 && s[|s| - 1] > x {
      InsertAscending(s[..|s| - 1], x);
    }
  }

  lemma {:induction false} SortAscending(s: seq<nat>)
    ensures Ascending(Sort(s))
  {
    if |s| > 0 {
      SortAscending(s[..|s| - 1]);
      InsertAscending(Sort(s[..|s| - 1]), s[|s| - 1]);
    }
  }

  lemma {:induction false} SortCount(s: seq<nat>, k: nat)
    ensures Count(Sort(s), k) == Count(s, k)
  {
    if |s| > 0 {
      SortCount(s[..|s| - 1], k);
      InsertCount(Sort(s[..|s| - 1]), s[|s| - 1], k);
    }
  }

  lemma SortMember(s: seq<nat>, k: nat)
    ensures k in Sort(s) <==> k in s
  {
    SortCount(s, k);
    CountMember(s, k);
    CountMember(Sort(s), k);
  }
}
