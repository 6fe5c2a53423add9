/** Batagelj and Zaversnik's bucket algorithm (akar-algo `compute_k_core`). */
module KCore {
  import opened Graphs
  import opened Buckets

  // ------------------------------------------------------------------ the specification

  /** How many entries lead into `s`.  An entry that leads outside the graph is
      never taken away by the algorithm: it counts for every set. */
  ghost function InCount(list: seq<nat>, n: nat, s: set<nat>): nat {
    if |list| == 0 then 0
    else InCount(list[..|list| - 1], n, s) + if list[|list| - 1] in s || list[|list| - 1] >= n then 1 else 0
  }

  /** Every member of `s` has at least `k` entries into `s`. */
  ghost predicate KSet(adj: Adj, s: set<nat>, k: nat) {
    forall v | v in s :: v < |adj| && InCount(adj[v], |adj|, s) >= k
  }

  /** `k` is the largest number for which `v` lies in a `k`-set. */
  ghost predicate CoreNumber(adj: Adj, v: nat, k: nat) {
    && (exists s :: v in s && KSet(adj, s, k))
    && (forall s, c: nat | v in s && KSet(adj, s, c) :: c <= k)
  }

  /** Between two nodes there are as many entries one way as the other. */
  ghost predicate Symmetric(adj: Adj) {
    forall u: nat, v: nat | u < |adj| && v < |adj| :: Count(adj[u], v) == Count(adj[v], u)
  }

  lemma {:induction false} InCountMono(list: seq<nat>, n: nat, s: set<nat>, t: set<nat>)
    requires s <= t
    ensures InCount(list, n, s) <= InCount(list, n, t)
  {
    if |list| > 0 {
      InCountMono(list[..|list| - 1], n, s, t);
    }
  }

  /** Taking a node out of the set takes out the entries that lead to it. */
  lemma {:induction false} InCountRemove(list: seq<nat>, n: nat, s: set<nat>, v: nat)
    requires v in s && v < n
    ensures InCount(list, n, s - {v}) == InCount(list, n, s) - Count(list, v)
  {
    if |list| > 0 {
      InCountRemove(list[..|list| - 1], n, s, v);
    }
  }

  /** All entries lead into the set of all nodes, or outside. */
  lemma {:induction false} InCountAll(list: seq<nat>, n: nat, s: set<nat>)
    requires forall v: nat | v < n :: v in s
    ensures InCount(list, n, s) == |list|
  {
    if |list| > 0 {
      InCountAll(list[..|list| - 1], n, s);
    }
  }

  // ------------------------------------------------------------------ the bucket order

  /** `vert` lists the nodes and `pos` is its inverse. */
  ghost predicate Permutation(vert: seq<nat>, pos: seq<nat>) {
    && |vert| == |pos|
    && (forall p | 0 <= p < |vert| :: vert[p] < |pos| && pos[vert[p]] == p)
    && (forall v | 0 <= v < |pos| :: pos[v] < |vert| && vert[pos[v]] == v)
  }

  ghost predicate ByDegree(deg: seq<nat>, vert: seq<nat>) {
    && (forall p | 0 <= p < |vert| :: vert[p] < |deg|)
    && (forall p, q | 0 <= p <= q < |vert| :: deg[vert[p]] <= deg[vert[q]])
  }

  /** `b` is where the nodes of degree at least `d` begin. */
  ghost predicate Boundary(deg: seq<nat>, vert: seq<nat>, d: nat, b: nat) {
    && b <= |vert|
    && (forall p | 0 <= p < |vert| :: vert[p] < |deg| && (p < b <==> deg[vert[p]] < d))
  }

  /** The bucket starts are right for every degree above `level`. */
  ghost predicate BinsOk(deg: seq<nat>, vert: seq<nat>, bin: seq<nat>, level: nat) {
    forall d: nat | level < d < |bin| :: Boundary(deg, vert, d, bin[d])
  }

  ghost predicate BucketOrder(deg: seq<nat>, vert: seq<nat>, pos: seq<nat>, bin: seq<nat>, level: nat) {
    && |deg| == |vert| == |pos|
    && (forall v | 0 <= v < |deg| :: deg[v] < |bin|)
    && Permutation(vert, pos) && ByDegree(deg, vert) && BinsOk(deg, vert, bin, level)
  }

  /** Where two nodes trade places. */
  function Swap(s: seq<nat>, p: nat, q: nat): seq<nat>
    requires p < |s| && q < |s|
  {
    s[p := s[q]][q := s[p]]
  }

  lemma SwapPermutation(vert: seq<nat>, pos: seq<nat>, p: nat, q: nat)
    requires Permutation(vert, pos) && p < |vert| && q < |vert|
    ensures Permutation(Swap(vert, p, q), pos[vert[q] := p][vert[p] := q])
  {
  }

  /** Node `w` of degree above the level loses one: it moves to the front of its
      bucket, whose start moves past it. */
  lemma DecrementOrder(deg: seq<nat>, vert: seq<nat>, pos: seq<nat>, bin: seq<nat>, level: nat, w: nat)
    requires BucketOrder(deg, vert, pos, bin, level) && w < |deg| && deg[w] > level
    ensures var du := deg[w];
      && Boundary(deg, vert, du, bin[du]) && bin[du] <= pos[w] < |vert|
      && deg[vert[bin[du]]] == du
  {
    var du, p := deg[w], pos[w];
    assert Boundary(deg, vert, du, bin[du]);
    assert vert[p] == w && bin[du] <= p;
    assert deg[vert[bin[du]]] <= deg[vert[p]];
  }

  lemma DecrementSorted(deg: seq<nat>, vert: seq<nat>, p: nat, q: nat)
    requires ByDegree(deg, vert) && p <= q < |vert| && deg[vert[p]] == deg[vert[q]] > 0
    requires forall i, j | 0 <= i < j < |vert| :: vert[i] != vert[j]
    requires p > 0 ==> deg[vert[p - 1]] < deg[vert[q]]
    ensures ByDegree(deg[vert[q] := deg[vert[q]] - 1], Swap(vert, p, q))
  {
    var w := vert[q];
    var deg', vert' := deg[w := deg[w] - 1], Swap(vert, p, q);
    forall i, j | 0 <= i <= j < |vert'| ensures deg'[vert'[i]] <= deg'[vert'[j]] {
      assert p > 0 && i < p ==> deg[vert[i]] <= deg[vert[p - 1]];
    }
  }

  lemma DecrementBoundary(deg: seq<nat>, vert: seq<nat>, p: nat, q: nat, d: nat, b: nat)
    requires p <= q < |vert| && Boundary(deg, vert, d, b) && deg[vert[p]] == deg[vert[q]] > 0
    requires forall i, j | 0 <= i < j < |vert| :: vert[i] != vert[j]
    requires Boundary(deg, vert, deg[vert[q]], p)
    ensures var du := deg[vert[q]]; Boundary(deg[vert[q] := du - 1], Swap(vert, p, q), d, if d == du then b + 1 else b)
  {
    var du := deg[vert[q]];
    if d == du {
      assert deg[vert[b]] >= du;
      assert b == p;
    }
    var deg', vert', b' := deg[vert[q] := du - 1], Swap(vert, p, q), if d == du then b + 1 else b;
    forall i | 0 <= i < |vert'| ensures vert'[i] < |deg'| && (i < b' <==> deg'[vert'[i]] < d) {
      if i == p || i == q {
        assert deg'[vert'[p]] == du - 1;
      } else {
        assert vert'[i] == vert[i];
      }
    }
  }

  /** The buckets after `w` lost one of its degree. */
  lemma DecrementBuckets(deg: seq<nat>, vert: seq<nat>, pos: seq<nat>, bin: seq<nat>, level: nat, w: nat)
    requires BucketOrder(deg, vert, pos, bin, level) && w < |deg| && deg[w] > level
    ensures var du, pw := deg[w], pos[w]; var pu := bin[du];
      && du < |bin| && pu <= pw < |vert|
      && BucketOrder(deg[w := du - 1], Swap(vert, pu, pw), pos[w := pu][vert[pu] := pw], bin[du := pu + 1], level)
  {
    var du, pw := deg[w], pos[w];
    var pu := bin[du];
    DecrementOrder(deg, vert, pos, bin, level, w);
    SwapPermutation(vert, pos, pu, pw);
    assert pu > 0 ==> deg[vert[pu - 1]] < du;
    DecrementSorted(deg, vert, pu, pw);
    var deg', vert', bin' := deg[w := du - 1], Swap(vert, pu, pw), bin[du := pu + 1];
    forall d: nat | level < d < |bin| ensures Boundary(deg', vert', d, bin'[d]) {
      assert Boundary(deg, vert, d, bin[d]);
      DecrementBoundary(deg, vert, pu, pw, d, bin[d]);
    }
  }

  // ------------------------------------------------------------------ the degrees

  ghost function Max(a: int, b: int): int {
    if a >= b then a else b
  }

  /** The nodes at position `i` or later: those not processed. */
  ghost function Rest(pos: seq<nat>, i: nat): set<nat> {
    set v: nat | v < |pos| && pos[v] >= i
  }

  /** Above the level, a degree counts the entries into the rest. */
  ghost predicate LevelOk(adj: Adj, deg: seq<nat>, rest: set<nat>, level: nat) {
    && |deg| == |adj|
    && forall w | w in rest :: w < |adj| && deg[w] == Max(InCount(adj[w], |adj|, rest), level)
  }

  /** What has been shown about cores when `rest` is left at the given level. */
  ghost predicate CoresOk(adj: Adj, core: seq<nat>, rest: set<nat>, level: nat) {
    && |core| == |adj|
    && (exists s :: rest <= s && KSet(adj, s, level))
    && (forall s, c: nat | KSet(adj, s, c) && !(s <= rest) :: c <= level)
    && (forall v: nat | v < |adj| && v !in rest :: CoreNumber(adj, v, core[v]))
  }

  /** The next node's degree is its core number. */
  lemma CoreStep(adj: Adj, deg: seq<nat>, core: seq<nat>, rest: set<nat>, level: nat, v: nat)
    requires LevelOk(adj, deg, rest, level) && CoresOk(adj, core, rest, level) && v in rest
    requires forall w | w in rest :: w < |deg| && deg[v] <= deg[w]
    ensures v < |core| && CoresOk(adj, core[v := deg[v]], rest - {v}, deg[v])
  {
    var dv, core', rest' := deg[v], core[v := deg[v]], rest - {v};
    assert exists s :: rest <= s && KSet(adj, s, dv) by {
      if dv > level {
        assert KSet(adj, rest, dv);
      }
    }
    forall s, c: nat | KSet(adj, s, c) && (v in s || !(s <= rest)) ensures c <= dv {
      if s <= rest {
        InCountMono(adj[v], |adj|, s, rest);
      }
    }
    assert CoreNumber(adj, v, dv) by {
      var s :| rest <= s && KSet(adj, s, dv);
      assert v in s;
    }
    var s :| rest <= s && KSet(adj, s, dv);
    assert rest' <= s;
  }

  /** Part way through the entries of `v`, processed at level `dv`: the entries
      looked at have been taken off, down to the level. */
  ghost predicate Taking(deg0: seq<nat>, deg: seq<nat>, rest: set<nat>, v: nat, taken: seq<nat>) {
    && |deg0| == |deg| && v < |deg|
    && (forall w: nat | w < |deg| && (w !in rest || w == v) :: deg[w] == deg0[w])
    && (forall w | w in rest && w != v && w < |deg| :: deg[w] == Max(deg0[w] - Count(taken, w), deg0[v]))
  }

  lemma TakingLevel(deg0: seq<nat>, deg: seq<nat>, rest: set<nat>, v: nat, taken: seq<nat>)
    requires Taking(deg0, deg, rest, v, taken)
    ensures |deg| == |deg0| && v < |deg| && deg[v] == deg0[v]
  {
  }

  lemma TakeOne(deg0: seq<nat>, deg: seq<nat>, rest: set<nat>, v: nat, taken: seq<nat>, w: nat)
    requires Taking(deg0, deg, rest, v, taken)
    requires forall x | x in rest :: x < |deg0| && deg0[v] <= deg0[x]
    requires forall x: nat | x < |deg0| && x !in rest :: deg0[x] <= deg0[v]
    ensures Taking(deg0, if w < |deg| && deg[w] > deg[v] then deg[w := deg[w] - 1] else deg, rest, v, taken + [w])
  {
    var deg' := if w < |deg| && deg[w] > deg[v] then deg[w := deg[w] - 1] else deg;
    forall x | x in rest && x != v && x < |deg'| ensures deg'[x] == Max(deg0[x] - Count(taken + [w], x), deg0[v]) {
      CountPush(taken, w, x);
    }
  }

  /** With all entries of `v` taken off, the degrees are right for the rest without `v`. */
  lemma TakenAll(adj: Adj, deg0: seq<nat>, deg: seq<nat>, rest: set<nat>, level: nat, v: nat)
    requires Symmetric(adj) && LevelOk(adj, deg0, rest, level) && v in rest && level <= deg0[v]
    requires forall x | x in rest :: x < |deg0| && deg0[v] <= deg0[x]
    requires Taking(deg0, deg, rest, v, adj[v])
    ensures LevelOk(adj, deg, rest - {v}, deg0[v])
  {
    forall w | w in rest - {v} ensures w < |adj| && deg[w] == Max(InCount(adj[w], |adj|, rest - {v}), deg0[v]) {
      assert Count(adj[v], w) == Count(adj[w], v);
      InCountRemove(adj[w], |adj|, rest, v);
    }
  }

  /** The swap happens beyond position `i`, if the node there is at the level. */
  lemma DecrementBeyond(deg: seq<nat>, vert: seq<nat>, pos: seq<nat>, bin: seq<nat>, level: nat, w: nat, i: nat)
    requires BucketOrder(deg, vert, pos, bin, level) && w < |deg| && deg[w] > level && i < |vert|
    requires deg[vert[i]] <= level
    ensures var du, pw := deg[w], pos[w]; var pu := bin[du];
      && i < pu <= pw < |vert|
      && var pos' := pos[w := pu][vert[pu] := pw]; pos'[vert[i]] == i && Rest(pos', i) == Rest(pos, i)
  {
    DecrementOrder(deg, vert, pos, bin, level, w);
    var du, pw := deg[w], pos[w];
    var pu := bin[du];
    assert i < pu;
    var pos' := pos[w := pu][vert[pu] := pw];
    forall x: nat | x < |pos| ensures pos'[x] >= i <==> pos[x] >= i {
      if x == vert[pu] {
        assert pos[x] == pu;
      }
    }
  }

  /** All there is to know between two nodes: the first `i` have been processed. */
  ghost predicate Inv(adj: Adj, deg: seq<nat>, vert: seq<nat>, pos: seq<nat>, bin: seq<nat>, core: seq<nat>, i: nat,
                      level: nat)
  {
    && i <= |adj| == |deg| == |core|
    && BucketOrder(deg, vert, pos, bin, level)
    && LevelOk(adj, deg, Rest(pos, i), level)
    && CoresOk(adj, core, Rest(pos, i), level)
    && (forall p | 0 <= p < i :: vert[p] < |deg| && deg[vert[p]] <= level)
  }

  /** Within a node: its entries before the `j`-th have been looked at. */
  ghost predicate Inner(adj: Adj, deg0: seq<nat>, deg: seq<nat>, vert: seq<nat>, pos: seq<nat>, bin: seq<nat>, i: nat,
                        v: nat, rest: set<nat>, j: nat)
  {
    && |deg0| == |deg| == |adj| && v < |adj| && i < |vert| && vert[i] == v && v in rest && j <= |adj[v]|
    && BucketOrder(deg, vert, pos, bin, deg0[v])
    && Rest(pos, i) == rest && pos[v] == i
    && Taking(deg0, deg, rest, v, adj[v][..j])
    && (forall x | x in rest :: x < |deg0| && deg0[v] <= deg0[x])
    && (forall x: nat | x < |deg0| && x !in rest :: deg0[x] <= deg0[v])
  }

  lemma StartNode(adj: Adj, deg: seq<nat>, vert: seq<nat>, pos: seq<nat>, bin: seq<nat>, core: seq<nat>, i: nat,
                  level: nat)
    requires Inv(adj, deg, vert, pos, bin, core, i, level) && i < |adj|
    ensures vert[i] < |adj| && level <= deg[vert[i]]
    ensures Inner(adj, deg, deg, vert, pos, bin, i, vert[i], Rest(pos, i), 0)
    ensures CoresOk(adj, core[vert[i] := deg[vert[i]]], Rest(pos, i) - {vert[i]}, deg[vert[i]])
  {
    var v, rest := vert[i], Rest(pos, i);
    forall x: nat | x < |deg| ensures if x in rest then deg[v] <= deg[x] else deg[x] <= deg[v] {
      assert vert[pos[x]] == x;
    }
    assert adj[v][..0] == [];
    CoreStep(adj, deg, core, rest, level, v);
  }

  lemma SkipEntry(adj: Adj, deg0: seq<nat>, deg: seq<nat>, vert: seq<nat>, pos: seq<nat>, bin: seq<nat>, i: nat,
                  v: nat, rest: set<nat>, j: nat)
    requires Inner(adj, deg0, deg, vert, pos, bin, i, v, rest, j) && j < |adj[v]|
    requires adj[v][j] < |adj| ==> deg[adj[v][j]] <= deg[v]
    ensures Inner(adj, deg0, deg, vert, pos, bin, i, v, rest, j + 1)
  {
    Snoc(adj[v], j);
    TakeOne(deg0, deg, rest, v, adj[v][..j], adj[v][j]);
  }

  lemma TakeEntry(adj: Adj, deg0: seq<nat>, deg: seq<nat>, vert: seq<nat>, pos: seq<nat>, bin: seq<nat>, i: nat,
                  v: nat, rest: set<nat>, j: nat)
    requires Inner(adj, deg0, deg, vert, pos, bin, i, v, rest, j) && j < |adj[v]|
    requires adj[v][j] < |adj| && deg[adj[v][j]] > deg[v]
    ensures var w := adj[v][j]; var du, pw := deg[w], pos[w];
      && du < |bin| && bin[du] <= pw < |vert|
      && var pu := bin[du];
         Inner(adj, deg0, deg[w := du - 1], Swap(vert, pu, pw), pos[w := pu][vert[pu] := pw], bin[du := pu + 1], i, v,
               rest, j + 1)
  {
    hide BucketOrder, Taking, Rest;
    var w := adj[v][j];
    Snoc(adj[v], j);
    assert |deg| == |deg0| && deg[v] == deg0[v] by { TakingLevel(deg0, deg, rest, v, adj[v][..j]); }
    TakeOne(deg0, deg, rest, v, adj[v][..j], w);
    DecrementBuckets(deg, vert, pos, bin, deg0[v], w);
    DecrementBeyond(deg, vert, pos, bin, deg0[v], w, i);
  }

  lemma EndNode(adj: Adj, deg0: seq<nat>, deg: seq<nat>, vert: seq<nat>, pos: seq<nat>, bin: seq<nat>, core: seq<nat>,
                i: nat, v: nat, rest: set<nat>, level: nat)
    requires Symmetric(adj) && v < |adj| && Inner(adj, deg0, deg, vert, pos, bin, i, v, rest, |adj[v]|)
    requires LevelOk(adj, deg0, rest, level) && level <= deg0[v]
    requires CoresOk(adj, core, rest - {v}, deg0[v])
    ensures Inv(adj, deg, vert, pos, bin, core, i + 1, deg0[v])
  {
    assert adj[v][..|adj[v]|] == adj[v];
    TakenAll(adj, deg0, deg, rest, level, v);
    assert Rest(pos, i + 1) == rest - {v};
    forall p | 0 <= p < i + 1 ensures vert[p] < |deg| && deg[vert[p]] <= deg0[v] {
      assert deg[vert[p]] <= deg[vert[i]];
    }
  }

  // ------------------------------------------------------------------ bucket sort

  /** The first `i` nodes have been put in their slots. */
  ghost predicate Slotted(deg: seq<nat>, vert: seq<nat>, pos: seq<nat>, i: nat) {
    && i <= |deg| == |vert| == |pos|
    && forall u: nat | u < i :: pos[u] == Slot(deg, u) < |vert| && vert[pos[u]] == u
  }

  lemma SlotNext(deg: seq<nat>, vert: seq<nat>, pos: seq<nat>, i: nat, m: nat)
    requires Slotted(deg, vert, pos, i) && i < |deg| && forall u | 0 <= u < |deg| :: deg[u] < m
    ensures Slot(deg, i) < |vert| && Slotted(deg, vert[Slot(deg, i) := i], pos[i := Slot(deg, i)], i + 1)
  {
    SlotInRange(deg, i, m);
    forall u: nat | u < i ensures Slot(deg, u) != Slot(deg, i) {
      SlotsDiffer(deg, u, i);
    }
  }

  lemma SlottedPermutation(deg: seq<nat>, vert: seq<nat>, pos: seq<nat>)
    requires Slotted(deg, vert, pos, |deg|)
    ensures Permutation(vert, pos)
  {
    forall p | 0 <= p < |vert| ensures vert[p] < |pos| && pos[vert[p]] == p {
      DistinctOnto(pos, |pos|, p);
      var u :| 0 <= u < |pos| && pos[u] == p;
    }
  }

  /** A slot lies before the start of bucket `d` exactly if its node's degree is below `d`. */
  lemma SlotSide(deg: seq<nat>, u: nat, d: nat)
    requires u < |deg|
    ensures Slot(deg, u) < Below(deg, d) <==> deg[u] < d
  {
    SlotInBucket(deg, u);
    if deg[u] + 1 < d {
      BelowMono(deg, deg[u] + 1, d);
    } else if d < deg[u] {
      BelowMono(deg, d, deg[u]);
    }
  }

  lemma SlottedBuckets(deg: seq<nat>, vert: seq<nat>, pos: seq<nat>, bin: seq<nat>)
    requires Slotted(deg, vert, pos, |deg|) && (forall u | 0 <= u < |deg| :: deg[u] < |bin|)
    requires forall d: nat | d < |bin| :: bin[d] == Below(deg, d)
    ensures BucketOrder(deg, vert, pos, bin, 0)
  {
    assert |deg| == |vert| == |pos|;
    hide Slotted, Permutation, ByDegree, Boundary, Below;
    SlottedPermutation(deg, vert, pos);
    SlottedSorted(deg, vert, pos);
    forall d: nat | 0 < d < |bin| ensures Boundary(deg, vert, d, bin[d]) {
      SlottedBoundary(deg, vert, pos, |bin|, d);
    }
  }

  lemma SlottedSorted(deg: seq<nat>, vert: seq<nat>, pos: seq<nat>)
    requires Slotted(deg, vert, pos, |deg|) && Permutation(vert, pos)
    ensures ByDegree(deg, vert)
  {
    hide Below, Slot;
    forall p, q | 0 <= p <= q < |vert| ensures deg[vert[p]] <= deg[vert[q]] {
      SlotSide(deg, vert[p], deg[vert[q]] + 1);
      SlotSide(deg, vert[q], deg[vert[q]] + 1);
    }
  }

  lemma SlottedBoundary(deg: seq<nat>, vert: seq<nat>, pos: seq<nat>, m: nat, d: nat)
    requires Slotted(deg, vert, pos, |deg|) && Permutation(vert, pos)
    requires d < m && forall u | 0 <= u < |deg| :: deg[u] < m
    ensures Boundary(deg, vert, d, Below(deg, d))
  {
    BelowTotal(deg, m);
    BelowMono(deg, d, m);
    hide Below, Slot;
    forall p | 0 <= p < |vert| ensures p < Below(deg, d) <==> deg[vert[p]] < d {
      SlotSide(deg, vert[p], d);
    }
  }

  lemma StartInv(adj: Adj, deg: seq<nat>, vert: seq<nat>, pos: seq<nat>, bin: seq<nat>, core: seq<nat>)
    requires |deg| == |adj| == |core| && BucketOrder(deg, vert, pos, bin, 0)
    requires forall v | 0 <= v < |adj| :: deg[v] == |adj[v]|
    ensures Inv(adj, deg, vert, pos, bin, core, 0, 0)
  {
    var all := Rest(pos, 0);
    forall w | w in all ensures deg[w] == Max(InCount(adj[w], |adj|, all), 0) {
      InCountAll(adj[w], |adj|, all);
    }
    assert KSet(adj, all, 0);
  }

  // ------------------------------------------------------------------ the algorithm

  /** `bin[d]` counts the nodes of degree `d`. */
  method CountDegrees(degree: array<nat>, m: nat) returns (bin: array<nat>)
    requires forall u | 0 <= u < degree.Length :: degree[u] < m
    ensures fresh(bin) && bin.Length == m && forall d: nat | d < m :: bin[d] == Count(degree[..], d)
  {
    bin := new nat[m](_ => 0);
    for v := 0 to degree.Length
      invariant forall d: nat | d < m :: bin[d] == Count(degree[..v], d)
    {
      ghost var deg := degree[..];
      assert degree[..v] == deg[..v] && degree[..v + 1] == deg[..v] + [deg[v]];
      forall d: nat | d < m
        ensures Count(degree[..v + 1], d) == Count(degree[..v], d) + if d == degree[v] then 1 else 0
      {
        CountPush(degree[..v], degree[v], d);
      }
      bin[degree[v]] := bin[degree[v]] + 1;
    }
    assert degree[..degree.Length] == degree[..];
  }

  /** Turns the counts into bucket starts. */
  method BucketStarts(bin: array<nat>, ghost deg: seq<nat>)
    requires forall d: nat | d < bin.Length :: bin[d] == Count(deg, d)
    modifies bin
    ensures forall d: nat | d < bin.Length :: bin[d] == Below(deg, d)
  {
    var start := 0;
    for b := 0 to bin.Length
      invariant start == Below(deg, b)
      invariant forall d: nat | d < b :: bin[d] == Below(deg, d)
      invariant forall d: nat | b <= d < bin.Length :: bin[d] == Count(deg, d)
    {
      var cnt := bin[b];
      bin[b] := start;
      start := start + cnt;
    }
  }

  /** Puts every node in the next free slot of its bucket. */
  method FillBuckets(degree: array<nat>, vert: array<nat>, pos: array<nat>, bin: array<nat>)
    requires degree.Length == vert.Length == pos.Length
    requires degree != vert && degree != pos && degree != bin && vert != pos && vert != bin && pos != bin
    requires forall u | 0 <= u < degree.Length :: degree[u] < bin.Length
    requires Positions(bin[..], degree[..], 0, bin.Length)
    modifies vert, pos, bin
    ensures Slotted(degree[..], vert[..], pos[..], degree.Length)
    ensures Positions(bin[..], degree[..], degree.Length, bin.Length)
  {
    ghost var deg := degree[..];
    for v := 0 to degree.Length
      invariant degree[..] == deg
      invariant Slotted(deg, vert[..], pos[..], v) && Positions(bin[..], deg, v, bin.Length)
    {
      SlotNext(deg, vert[..], pos[..], v, bin.Length);
      PositionsPush(bin[..], deg, v, bin.Length);
      var d := degree[v];
      PutNode(vert, pos, bin, d, v);
    }
  }

  method PutNode(vert: array<nat>, pos: array<nat>, bin: array<nat>, d: nat, v: nat)
    requires vert != pos && vert != bin && pos != bin && d < bin.Length && bin[d] < vert.Length && v < pos.Length
    modifies vert, pos, bin
    ensures pos[..] == old(pos[..])[v := old(bin[d])] && vert[..] == old(vert[..])[old(bin[d]) := v]
    ensures bin[..] == old(bin[..])[d := old(bin[d]) + 1]
  {
    pos[v] := bin[d];
    vert[bin[d]] := v;
    bin[d] := bin[d] + 1;
  }

  lemma BucketEnds(bin: seq<nat>, deg: seq<nat>)
    requires Positions(bin, deg, |deg|, |bin|)
    ensures forall d: nat | d < |bin| :: bin[d] == Below(deg, d + 1)
  {
    assert deg[..|deg|] == deg;
  }

  /** Shifts the bucket ends back to bucket starts. */
  method RestoreStarts(bin: array<nat>, ghost deg: seq<nat>)
    requires bin.Length > 0 && Positions(bin[..], deg, |deg|, bin.Length)
    modifies bin
    ensures forall d: nat | d < bin.Length :: bin[d] == Below(deg, d)
  {
    BucketEnds(bin[..], deg);
    hide Positions, Count;
    for d := bin.Length - 1 downto 0
      invariant forall k: nat | k <= d :: bin[k] == Below(deg, k + 1)
      invariant forall k: nat | d < k < bin.Length :: bin[k] == Below(deg, k)
    {
      bin[d + 1] := bin[d];
    }
    bin[0] := 0;
  }

  /** Node `w` trades places with the first node of its bucket and loses one. */
  method Decrement(degree: array<nat>, vert: array<nat>, pos: array<nat>, bin: array<nat>, w: nat)
    requires degree != vert && degree != pos && degree != bin && vert != pos && vert != bin && pos != bin
    requires w < degree.Length == vert.Length == pos.Length && 0 < degree[w] < bin.Length
    requires bin[degree[w]] < vert.Length && pos[w] < vert.Length && vert[pos[w]] == w
    requires vert[bin[degree[w]]] < pos.Length && pos[vert[bin[degree[w]]]] == bin[degree[w]]
    modifies degree, vert, pos, bin
    ensures var du, pw := old(degree[w]), old(pos[w]); var pu := old(bin[du]);
      && degree[..] == old(degree[..])[w := du - 1]
      && vert[..] == Swap(old(vert[..]), pu, pw)
      && pos[..] == old(pos[..])[w := pu][old(vert[pu]) := pw]
      && bin[..] == old(bin[..])[du := pu + 1]
  {
    var du, pw := degree[w], pos[w];
    var pu := bin[du];
    if pw != pu {
      var w2 := vert[pu];
      vert[pw] := w2;
      pos[w2] := pw;
      vert[pu] := w;
      pos[w] := pu;
    }
    bin[du] := pu + 1;
    degree[w] := du - 1;
  }

  lemma InnerFacts(adj: Adj, deg0: seq<nat>, deg: seq<nat>, vert: seq<nat>, pos: seq<nat>, bin: seq<nat>, i: nat,
                   v: nat, rest: set<nat>, j: nat)
    requires Inner(adj, deg0, deg, vert, pos, bin, i, v, rest, j)
    ensures |deg| == |vert| == |pos| == |adj| && v < |adj| && deg[v] == deg0[v]
  {
  }

  lemma DecrementFacts(adj: Adj, deg0: seq<nat>, deg: seq<nat>, vert: seq<nat>, pos: seq<nat>, bin: seq<nat>, i: nat,
                       v: nat, rest: set<nat>, j: nat, w: nat)
    requires Inner(adj, deg0, deg, vert, pos, bin, i, v, rest, j) && w < |deg| && deg[w] > deg[v]
    ensures deg[w] < |bin| && bin[deg[w]] < |vert| && vert[bin[deg[w]]] < |pos| && pos[vert[bin[deg[w]]]] == bin[deg[w]]
    ensures w < |pos| && pos[w] < |vert| && vert[pos[w]] == w
  {
    DecrementOrder(deg, vert, pos, bin, deg0[v], w);
  }

  /** Processes the node at position `i`: takes its entries off its neighbours. */
  method ProcessNode(g: Csr, degree: array<nat>, vert: array<nat>, pos: array<nat>, bin: array<nat>, i: nat, v: nat,
                     ghost adj: Adj, ghost deg0: seq<nat>, ghost rest: set<nat>)
    requires g.Valid() && adj == Lists(g) && v < |adj| && degree.Length == |adj|
    requires degree != vert && degree != pos && degree != bin && vert != pos && vert != bin && pos != bin
    requires Inner(adj, deg0, degree[..], vert[..], pos[..], bin[..], i, v, rest, 0)
    modifies degree, vert, pos, bin
    ensures Inner(adj, deg0, degree[..], vert[..], pos[..], bin[..], i, v, rest, |adj[v]|)
  {
    hide Inner;
    InnerFacts(adj, deg0, degree[..], vert[..], pos[..], bin[..], i, v, rest, 0);
    var degV, n, lo, hi := degree[v], g.NumNodes(), g.offsets[v], g.offsets[v + 1];
    for e := lo to hi
      invariant Inner(adj, deg0, degree[..], vert[..], pos[..], bin[..], i, v, rest, e - lo)
      invariant degree[v] == degV
    {
      InnerFacts(adj, deg0, degree[..], vert[..], pos[..], bin[..], i, v, rest, e - lo);
      var w := g.adjacency[e].1.offset;
      assert w == adj[v][e - lo];
      if w < n && degree[w] > degV {
        DecrementFacts(adj, deg0, degree[..], vert[..], pos[..], bin[..], i, v, rest, e - lo, w);
        TakeEntry(adj, deg0, degree[..], vert[..], pos[..], bin[..], i, v, rest, e - lo);
        Decrement(degree, vert, pos, bin, w);
      } else {
        SkipEntry(adj, deg0, degree[..], vert[..], pos[..], bin[..], i, v, rest, e - lo);
      }
    }
  }

  /** Sorts the nodes into buckets by degree. */
  method BucketSort(degree: array<nat>, m: nat) returns (vert: array<nat>, pos: array<nat>, bin: array<nat>)
    requires m > 0 && forall u | 0 <= u < degree.Length :: degree[u] < m
    ensures fresh(vert) && fresh(pos) && fresh(bin) && vert != pos && vert != bin && pos != bin
    ensures BucketOrder(degree[..], vert[..], pos[..], bin[..], 0)
  {
    ghost var deg := degree[..];
    bin := CountDegrees(degree, m);
    BucketStarts(bin, deg);
    vert := new nat[degree.Length](_ => 0);
    pos := new nat[degree.Length](_ => 0);
    assert deg[..0] == [];
    FillBuckets(degree, vert, pos, bin);
    RestoreStarts(bin, deg);
    SlottedBuckets(deg, vert[..], pos[..], bin[..]);
  }

  lemma InvFacts(adj: Adj, deg: seq<nat>, vert: seq<nat>, pos: seq<nat>, bin: seq<nat>, core: seq<nat>, i: nat,
                 level: nat)
    requires Inv(adj, deg, vert, pos, bin, core, i, level)
    ensures |vert| == |deg| == |adj| == |core| && LevelOk(adj, deg, Rest(pos, i), level)
    ensures i == |adj| ==> forall v | 0 <= v < |adj| :: CoreNumber(adj, v, core[v])
  {
  }

  /** The degrees of the nodes, and a bound on them. */
  method Degrees(g: Csr, ghost adj: Adj) returns (degree: array<nat>, maxDeg: nat)
    requires g.Valid() && adj == Lists(g)
    ensures fresh(degree) && degree.Length == |adj|
    ensures forall v | 0 <= v < |adj| :: degree[v] == |adj[v]| <= maxDeg
  {
    var n := g.NumNodes();
    degree := new nat[n];
    maxDeg := 0;
    for v := 0 to n
      invariant forall u | 0 <= u < v :: degree[u] == |adj[u]| <= maxDeg
    {
      degree[v] := g.offsets[v + 1] - g.offsets[v];
      if degree[v] > maxDeg {
        maxDeg := degree[v];
      }
    }
  }

  /** `compute_k_core` */
  method ComputeKCore(g: Csr) returns (values: seq<nat>)
    requires g.Valid() && Symmetric(Lists(g))
    ensures |values| == g.NumNodes()
    ensures forall v | 0 <= v < |values| :: CoreNumber(Lists(g), v, values[v])
  {
    hide Inv, Inner, BucketOrder, LevelOk, CoresOk, Symmetric;
    var n := g.NumNodes();
    ghost var adj := Lists(g);
    var degree, maxDeg := Degrees(g, adj);
    var core := new nat[n](_ => 0);
    var vert, pos, bin := BucketSort(degree, maxDeg + 1);
    ghost var level := 0;
    StartInv(adj, degree[..], vert[..], pos[..], bin[..], core[..]);
    for i := 0 to n
      invariant Inv(adj, degree[..], vert[..], pos[..], bin[..], core[..], i, level)
    {
      InvFacts(adj, degree[..], vert[..], pos[..], bin[..], core[..], i, level);
      StartNode(adj, degree[..], vert[..], pos[..], bin[..], core[..], i, level);
      var v := vert[i];
      ghost var deg0, rest := degree[..], Rest(pos[..], i);
      core[v] := degree[v];
      ProcessNode(g, degree, vert, pos, bin, i, v, adj, deg0, rest);
      EndNode(adj, deg0, degree[..], vert[..], pos[..], bin[..], core[..], i, v, rest, level);
      level := deg0[v];
    }
    InvFacts(adj, degree[..], vert[..], pos[..], bin[..], core[..], n, level);
    values := core[..];
  }
}
