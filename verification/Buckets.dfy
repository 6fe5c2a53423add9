/** Counting-sort placement: items that carry a small key are counted, the
    counts are summed up to bucket starts, and every item is written to the next
    free slot of its bucket.  The CSR builder, Kosaraju's reverse CSR and the
    degree buckets of the k-core algorithm all place their items this way. */
module Buckets {

  /** How many items carry key `k`. */
  function Count(keys: seq<nat>, k: nat): nat {
    if |keys| == 0 then 0
    else Count(keys[..|keys| - 1], k) + if keys[|keys| - 1] == k then 1 else 0
  }

  /** How many items carry a key below `k`: the start of bucket `k`. */
  function Below(keys: seq<nat>, k: nat): nat {
    if k == 0 then 0 else Below(keys, k - 1) + Count(keys, k - 1)
  }

  /** The values of the items with key `k`, in order. */
  function Select<T>(keys: seq<nat>, vals: seq<T>, k: nat): (r: seq<T>)
    requires |keys| == |vals|
    ensures |r| == Count(keys, k)
  {
    if |keys| == 0 then []
    else Select(keys[..|keys| - 1], vals[..|vals| - 1], k)
         + if keys[|keys| - 1] == k then [vals[|vals| - 1]] else []
  }

  lemma CountPush(keys: seq<nat>, x: nat, k: nat)
    ensures Count(keys + [x], k) == Count(keys, k) + if x == k then 1 else 0
  {
    assert (keys + [x])[..|keys|] == keys;
  }

  lemma {:induction false} CountMember(s: seq<nat>, k: nat)
    ensures Count(s, k) > 0 <==> k in s
  {
    if |s| > 0 {
      CountMember(s[..|s| - 1], k);
      assert s == s[..|s| - 1] + [s[|s| - 1]];
    }
  }

  lemma SelectPush<T>(keys: seq<nat>, vals: seq<T>, x: nat, v: T, k: nat)
    requires |keys| == |vals|
    ensures Select(keys + [x], vals + [v], k) == Select(keys, vals, k) + if x == k then [v] else []
  {
    assert (keys + [x])[..|keys|] == keys;
    assert (vals + [v])[..|vals|] == vals;
  }

  lemma {:induction false} BelowPush(keys: seq<nat>, x: nat, k: nat)
    ensures Below(keys + [x], k) == Below(keys, k) + if x < k then 1 else 0
  {
    if k > 0 {
      BelowPush(keys, x, k - 1);
      CountPush(keys, x, k - 1);
    }
  }

  lemma {:induction false} BelowMono(keys: seq<nat>, k: nat, l: nat)
    requires k < l
    ensures Below(keys, k) + Count(keys, k) <= Below(keys, l)
  {
    if k + 1 < l {
      BelowMono(keys, k, l - 1);
    }
  }

  /** All items lie in the buckets below a bound on their keys. */
  lemma {:induction false} BelowTotal(keys: seq<nat>, n: nat)
    requires forall i | 0 <= i < |keys| :: keys[i] < n
    ensures Below(keys, n) == |keys|
  {
    if |keys| == 0 {
      BelowEmpty(n);
      assert keys == [];
    } else {
      var front, x := keys[..|keys| - 1], keys[|keys| - 1];
      assert keys == front + [x];
      BelowTotal(front, n);
      BelowPush(front, x, n);
    }
  }

  lemma {:induction false} BelowEmpty(n: nat)
    ensures Below([], n) == 0
  {
    if n > 0 {
      BelowEmpty(n - 1);
    }
  }

  /** A prefix counts no more. */
  lemma {:induction false} CountPrefix(keys: seq<nat>, i: nat, k: nat)
    requires i <= |keys|
    ensures Count(keys[..i], k) <= Count(keys, k)
    ensures i < |keys| && keys[i] == k ==> Count(keys[..i], k) < Count(keys, k)
  {
    if i == |keys| {
      assert keys[..i] == keys;
    } else {
      var front := keys[..|keys| - 1];
      assert front[..i] == keys[..i];
      CountPrefix(front, i, k);
    }
  }

  lemma {:induction false} SelectFound<T>(keys: seq<nat>, vals: seq<T>, k: nat, v: T) returns (i: nat)
    requires |keys| == |vals| && v in Select(keys, vals, k)
    ensures i < |keys| && keys[i] == k && vals[i] == v
  {
    var n := |keys| - 1;
    if keys[n] == k && vals[n] == v {
      i := n;
    } else {
      i := SelectFound(keys[..n], vals[..n], k, v);
    }
  }

  lemma {:induction false} SelectHas<T>(keys: seq<nat>, vals: seq<T>, k: nat, i: nat)
    requires |keys| == |vals| && i < |keys| && keys[i] == k
    ensures vals[i] in Select(keys, vals, k)
    decreases |keys|
  {
    var n := |keys| - 1;
    if i < n { SelectHas(keys[..n], vals[..n], k, i); }
  }

  /** What was selected under `k` are the values of items with key `k`. */
  lemma SelectMembers<T>(keys: seq<nat>, vals: seq<T>, k: nat, v: T)
    requires |keys| == |vals|
    ensures v in Select(keys, vals, k) <==> exists i :: 0 <= i < |keys| && keys[i] == k && vals[i] == v
  {
    hide Select;
    if v in Select(keys, vals, k) {
      var i := SelectFound(keys, vals, k, v);
    }
    if i :| 0 <= i < |keys| && keys[i] == k && vals[i] == v {
      SelectHas(keys, vals, k, i);
    }
  }

  /** Bucket `k` starts with the first `i` items' share of it. */
  ghost predicate PlacedAt<T>(keys: seq<nat>, vals: seq<T>, i: nat, out: seq<T>, k: nat)
    requires i <= |keys| == |vals|
  {
    var lo, c := Below(keys, k), Count(keys[..i], k);
    lo + c <= |out| && out[lo..lo + c] == Select(keys[..i], vals[..i], k)
  }

  /** The first `i` items have been written to their buckets. */
  ghost predicate Placed<T>(keys: seq<nat>, vals: seq<T>, i: nat, out: seq<T>, n: nat)
    requires i <= |keys| == |vals|
  {
    forall k: nat | k < n :: PlacedAt(keys, vals, i, out, k)
  }

  lemma NonePlaced<T>(keys: seq<nat>, vals: seq<T>, out: seq<T>, n: nat)
    requires |keys| == |vals| <= |out| && forall i | 0 <= i < |keys| :: keys[i] < n
    ensures Placed(keys, vals, 0, out, n)
  {
    forall k: nat | k < n ensures PlacedAt(keys, vals, 0, out, k) {
      BelowTotal(keys, n);
      BelowMono(keys, k, n);
      assert keys[..0] == [] && vals[..0] == [];
    }
  }

  /** The slot of the next item is inside its bucket. */
  lemma SlotInRange(keys: seq<nat>, i: nat, n: nat)
    requires i < |keys| && forall i | 0 <= i < |keys| :: keys[i] < n
    ensures Below(keys, keys[i]) + Count(keys[..i], keys[i]) < |keys|
  {
    CountPrefix(keys, i, keys[i]);
    BelowMono(keys, keys[i], n);
    BelowTotal(keys, n);
  }

  lemma WriteOutside<T>(out: seq<T>, lo: nat, hi: nat, slot: nat, v: T)
    requires lo <= hi <= |out| && slot < |out| && !(lo <= slot < hi)
    ensures out[slot := v][lo..hi] == out[lo..hi]
  {
  }

  lemma WriteNext<T>(out: seq<T>, lo: nat, hi: nat, v: T)
    requires lo <= hi < |out|
    ensures out[hi := v][lo..hi + 1] == out[lo..hi] + [v]
  {
  }

  lemma Snoc<T>(s: seq<T>, i: nat)
    requires i < |s|
    ensures s[..i + 1] == s[..i] + [s[i]]
  {
  }

  lemma PlaceOneAt<T>(keys: seq<nat>, vals: seq<T>, i: nat, out: seq<T>, k: nat)
    requires i < |keys| == |vals| && PlacedAt(keys, vals, i, out, k)
    requires Below(keys, keys[i]) + Count(keys[..i], keys[i]) < |out|
    ensures PlacedAt(keys, vals, i + 1, out[Below(keys, keys[i]) + Count(keys[..i], keys[i]) := vals[i]], k)
  {
    hide Count, Below, Select;
    var x, lo, ks, vs := keys[i], Below(keys, k), keys[..i], vals[..i];
    var c, slot := Count(ks, k), Below(keys, x) + Count(ks, x);
    Snoc(keys, i);
    Snoc(vals, i);
    CountPush(ks, x, k);
    SelectPush(ks, vs, x, vals[i], k);
    if x == k {
      WriteNext(out, lo, lo + c, vals[i]);
    } else {
      BucketsApart(keys, i, k, x);
      WriteOutside(out, lo, lo + c, slot, vals[i]);
    }
  }

  lemma PlaceOne<T>(keys: seq<nat>, vals: seq<T>, i: nat, out: seq<T>, n: nat)
    requires i < |keys| == |vals| && |keys| <= |out| && forall i | 0 <= i < |keys| :: keys[i] < n
    requires Placed(keys, vals, i, out, n)
    ensures Below(keys, keys[i]) + Count(keys[..i], keys[i]) < |keys|
    ensures Placed(keys, vals, i + 1, out[Below(keys, keys[i]) + Count(keys[..i], keys[i]) := vals[i]], n)
  {
    SlotInRange(keys, i, n);
    var slot := Below(keys, keys[i]) + Count(keys[..i], keys[i]);
    var out', i' := out[slot := vals[i]], i + 1;
    forall k: nat | k < n ensures PlacedAt(keys, vals, i', out', k) {
      assert PlacedAt(keys, vals, i, out, k);
      PlaceOneAt(keys, vals, i, out, k);
    }
  }

  /** The slot of an item lies outside the other buckets. */
  lemma BucketsApart(keys: seq<nat>, i: nat, k: nat, x: nat)
    requires i < |keys| && x == keys[i] && k != x
    ensures var slot := Below(keys, x) + Count(keys[..i], x);
      !(Below(keys, k) <= slot < Below(keys, k) + Count(keys[..i], k))
  {
    CountPrefix(keys, i, k);
    CountPrefix(keys, i, x);
    if k < x {
      BelowMono(keys, k, x);
    } else {
      BelowMono(keys, x, k);
    }
  }

  /** Once every item has been placed, bucket `k` holds exactly its items. */
  lemma AllPlaced<T>(keys: seq<nat>, vals: seq<T>, out: seq<T>, n: nat, k: nat)
    requires |keys| == |vals| <= |out| && Placed(keys, vals, |keys|, out, n) && k < n
    ensures Below(keys, k) <= Below(keys, k + 1) <= |out|
    ensures out[Below(keys, k)..Below(keys, k + 1)] == Select(keys, vals, k)
  {
    assert PlacedAt(keys, vals, |keys|, out, k);
    assert keys[..|keys|] == keys && vals[..|vals|] == vals;
  }

  /** Every write position is the start of its bucket plus what was placed. */
  ghost predicate Positions(pos: seq<nat>, keys: seq<nat>, i: nat, n: nat)
    requires i <= |keys|
  {
    |pos| >= n && forall k: nat | k < n :: pos[k] == Below(keys, k) + Count(keys[..i], k)
  }

  lemma PositionsPush(pos: seq<nat>, keys: seq<nat>, i: nat, n: nat)
    requires i < |keys| && Positions(pos, keys, i, n) && keys[i] < n
    ensures Positions(pos[keys[i] := pos[keys[i]] + 1], keys, i + 1, n)
  {
    Snoc(keys, i);
    forall k: nat | k < n
      ensures pos[keys[i] := pos[keys[i]] + 1][k] == Below(keys, k) + Count(keys[..i] + [keys[i]], k)
    {
      CountPush(keys[..i], keys[i], k);
    }
  }

  /** The first `i` items have been placed, and the positions say so. */
  ghost predicate Filled<T>(keys: seq<nat>, vals: seq<T>, i: nat, pos: seq<nat>, flat: seq<T>, n: nat) {
    && i <= |keys| == |vals| <= |flat|
    && (forall i | 0 <= i < |keys| :: keys[i] < n)
    && Positions(pos, keys, i, n) && Placed(keys, vals, i, flat, n)
  }

  lemma FillOne<T>(keys: seq<nat>, vals: seq<T>, i: nat, pos: seq<nat>, flat: seq<T>, n: nat)
    requires Filled(keys, vals, i, pos, flat, n) && i < |keys|
    ensures keys[i] < |pos| && pos[keys[i]] < |flat|
    ensures Filled(keys, vals, i + 1, pos[keys[i] := pos[keys[i]] + 1], flat[pos[keys[i]] := vals[i]], n)
  {
    PlaceOne(keys, vals, i, flat, n);
    PositionsPush(pos, keys, i, n);
  }

  /** Writes `v` to the next free slot of bucket `w`. */
  method WriteNextSlot<T>(pos: array<nat>, flat: array<T>, w: nat, v: T)
    requires (pos as object) != (flat as object) && w < pos.Length && pos[w] < flat.Length
    modifies pos, flat
    ensures flat[..] == old(flat[..])[old(pos[w]) := v]
    ensures pos[..] == old(pos[..])[w := old(pos[w]) + 1]
  {
    flat[pos[w]] := v;
    pos[w] := pos[w] + 1;
  }

  /** Where the `u`-th item goes. */
  ghost function Slot(keys: seq<nat>, u: nat): nat
    requires u < |keys|
  {
    Below(keys, keys[u]) + Count(keys[..u], keys[u])
  }

  lemma SlotInBucket(keys: seq<nat>, u: nat)
    requires u < |keys|
    ensures Below(keys, keys[u]) <= Slot(keys, u) < Below(keys, keys[u] + 1)
  {
    CountPrefix(keys, u, keys[u]);
  }

  lemma SlotsDiffer(keys: seq<nat>, u: nat, v: nat)
    requires u < v < |keys|
    ensures Slot(keys, u) != Slot(keys, v)
  {
    SlotInBucket(keys, u);
    SlotInBucket(keys, v);
    if keys[u] == keys[v] {
      CountPrefix(keys[..v], u, keys[u]);
      assert keys[..v][..u] == keys[..u];
    } else if keys[u] < keys[v] {
      BelowMono(keys, keys[u], keys[v]);
    } else {
      BelowMono(keys, keys[v], keys[u]);
    }
  }
}
