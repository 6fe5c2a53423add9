/** Compressed-sparse-row adjacency, and the graph theory every algorithm is
    proved against.  The algorithms read a `Csr`; the theorems speak about its
    adjacency lists `Lists(g)`, in which `Lists(g)[v]` holds the target of every
    entry of `v`'s slice, in order.  A target may lie outside the graph: no edge
    comes of it, and the algorithms skip it. */
module Graphs {

  // `usize::MAX`, the sentinel of the flat buffers.  Its value depends on the
  // platform, which guarantees at least 16 bits; no theorem needs to know more.
  type Width = w: nat | 0xFFFF <= w witness 0xFFFF
  const USIZE_MAX: Width

  datatype InternalId = InternalId(tableId: nat, offset: nat)

  datatype Csr = Csr(offsets: seq<nat>, adjacency: seq<(nat, InternalId)>) {

    function NumNodes(): nat {
      if |offsets| == 0 then 0 else |offsets| - 1
    }

    /** Slices are well formed, and the offset table is indexable by a `usize`. */
    predicate Valid() {
      && |offsets| <= USIZE_MAX
      && (forall i, j | 0 <= i <= j < |offsets| :: offsets[i] <= offsets[j])
      && (forall i | 0 <= i < |offsets| :: offsets[i] <= |adjacency|)
    }

    function Degree(v: nat): nat
      requires Valid() && v < NumNodes()
    {
      offsets[v + 1] - offsets[v]
    }

    function Target(v: nat, j: nat): nat
      requires Valid() && v < NumNodes() && j < Degree(v)
    {
      adjacency[offsets[v] + j].1.offset
    }
  }

  datatype Option<+T> = None | Some(value: T)

  type Adj = seq<seq<nat>>

  function Lists(g: Csr): (adj: Adj)
    requires g.Valid()
    ensures |adj| == g.NumNodes()
    ensures forall v | 0 <= v < |adj| :: |adj[v]| == g.Degree(v)
    ensures forall v, j | 0 <= v < |adj| && 0 <= j < |adj[v]| :: adj[v][j] == g.Target(v, j)
  {
    seq(g.NumNodes(), v requires 0 <= v < g.NumNodes() =>
      seq(g.Degree(v), j requires 0 <= j < g.Degree(v) => g.Target(v, j)))
  }

  // ---------------------------------------------------------------- reachability

  ghost predicate Edge(adj: Adj, u: nat, v: nat) {
    u < |adj| && v < |adj| && v in adj[u]
  }

  /** The `i`-th node of `p` is entered by an edge. */
  ghost predicate Hop(adj: Adj, p: seq<nat>, i: nat) {
    0 < i < |p| && Edge(adj, p[i - 1], p[i])
  }

  ghost predicate IsPath(adj: Adj, p: seq<nat>) {
    && |p| > 0
    && (forall i | 0 <= i < |p| :: p[i] < |adj|)
    && (forall i | 0 < i < |p| :: Hop(adj, p, i))
  }

  ghost predicate Joins(adj: Adj, p: seq<nat>, u: nat, v: nat) {
    IsPath(adj, p) && p[0] == u && p[|p| - 1] == v
  }

  ghost predicate Reach(adj: Adj, u: nat, v: nat) {
    exists p :: Joins(adj, p, u, v)
  }

  /** Strongly connected: each reaches the other. */
  ghost predicate Mutual(adj: Adj, u: nat, v: nat) {
    Reach(adj, u, v) && Reach(adj, v, u)
  }

  /** Two nodes carry the same id exactly when they are strongly connected. */
  ghost predicate Labels(adj: Adj, comp: seq<nat>) {
    && |comp| == |adj|
    && (forall u, v | 0 <= u < |adj| && 0 <= v < |adj| :: comp[u] == comp[v] <==> Mutual(adj, u, v))
  }

  /** Ids start at 0 and leave no gap. */
  ghost predicate Dense(comp: seq<nat>) {
    forall v, c: nat | 0 <= v < |comp| && c < comp[v] :: c in comp
  }

  /** `d` is the least number of edges on a path from `u` to `v`. */
  ghost predicate HopDist(adj: Adj, u: nat, v: nat, d: nat) {
    && (exists p :: Joins(adj, p, u, v) && |p| == d + 1)
    && (forall p | Joins(adj, p, u, v) :: |p| >= d + 1)
  }

  /** Components told apart by the same relation are the same partition. */
  lemma SamePartition(adj: Adj, a: seq<nat>, b: seq<nat>)
    requires Labels(adj, a) && Labels(adj, b)
    ensures forall u, v | 0 <= u < |adj| && 0 <= v < |adj| :: a[u] == a[v] <==> b[u] == b[v]
  {
  }

  lemma ReachSelf(adj: Adj, u: nat)
    requires u < |adj|
    ensures Reach(adj, u, u)
  {
    assert Joins(adj, [u], u, u);
  }

  lemma ReachEdge(adj: Adj, u: nat, v: nat)
    requires Edge(adj, u, v)
    ensures Reach(adj, u, v)
  {
    assert Joins(adj, [u, v], u, v);
  }

  lemma JoinPaths(adj: Adj, p: seq<nat>, q: seq<nat>, u: nat, v: nat, w: nat)
    requires Joins(adj, p, u, v) && Joins(adj, q, v, w)
    ensures Joins(adj, p + q[1..], u, w)
  {
    var r := p + q[1..];
    forall i | 0 < i < |r| ensures Hop(adj, r, i) {
      if i < |p| {
        assert Hop(adj, p, i);
      } else {
        assert Hop(adj, q, i - |p| + 1);
        assert r[i - 1] == q[i - |p|];
      }
    }
  }

  lemma ReachTrans(adj: Adj, u: nat, v: nat, w: nat)
    requires Reach(adj, u, v) && Reach(adj, v, w)
    ensures Reach(adj, u, w)
  {
    var p :| Joins(adj, p, u, v);
    var q :| Joins(adj, q, v, w);
    JoinPaths(adj, p, q, u, v, w);
  }

  ghost predicate ClosedSet(adj: Adj, s: set<nat>) {
    forall u, v | u in s && Edge(adj, u, v) :: v in s
  }

  /** A set that no edge leaves is left by no path. */
  lemma ClosedUnderReach(adj: Adj, s: set<nat>, u: nat, v: nat)
    requires ClosedSet(adj, s) && u in s && Reach(adj, u, v)
    ensures v in s
  {
    var p :| Joins(adj, p, u, v);
    for i := 0 to |p|
      invariant forall k | 0 <= k < i :: p[k] in s
    {
      if i > 0 { assert Hop(adj, p, i); }
    }
  }

  ghost predicate BackClosed(adj: Adj, s: set<nat>) {
    forall u: nat, v: nat | v in s && Edge(adj, u, v) :: u in s
  }

  /** A set that no edge enters is entered by no path. */
  lemma BackClosedUnderReach(adj: Adj, s: set<nat>, u: nat, v: nat)
    requires BackClosed(adj, s) && v in s && Reach(adj, u, v)
    ensures u in s
  {
    var p :| Joins(adj, p, u, v);
    var i := |p| - 1;
    while i > 0
      invariant 0 <= i < |p| && p[i] in s
    {
      assert Hop(adj, p, i);
      i := i - 1;
    }
  }

  // ------------------------------------------------------------------ cardinality

  lemma {:induction false} BoundedCard(s: set<nat>, n: nat)
    requires forall x | x in s :: x < n
    ensures |s| <= n
  {
    if n == 0 {
      assert s == {};
    } else {
      BoundedCard(s - {n - 1}, n - 1);
    }
  }

  lemma SubsetCard<T>(a: set<T>, b: set<T>)
    requires a <= b
    ensures |a| <= |b| && (|a| == |b| ==> a == b)
  {
    assert b == a + (b - a);
  }

  ghost predicate Distinct<T>(s: seq<T>) {
    forall i, j | 0 <= i < j < |s| :: s[i] != s[j]
  }

  ghost function Elems<T>(s: seq<T>): set<T> {
    set x | x in s
  }

  lemma {:induction false} DistinctCard<T>(s: seq<T>)
    requires Distinct(s)
    ensures |Elems(s)| == |s|
  {
    if |s| > 0 {
      var front, x := s[..|s| - 1], s[|s| - 1];
      DistinctCard(front);
      assert s == front + [x];
      assert Elems(s) == Elems(front) + {x};
    }
  }

  lemma DistinctBound(s: seq<nat>, n: nat)
    requires Distinct(s) && forall i | 0 <= i < |s| :: s[i] < n
    ensures |s| <= n
  {
    DistinctCard(s);
    BoundedCard(Elems(s), n);
  }

  /** As many different values below `n` as there can be are all of them. */
  lemma DistinctOnto(s: seq<nat>, n: nat, x: nat)
    requires Distinct(s) && |s| == n && (forall i | 0 <= i < n :: s[i] < n) && x < n
    ensures x in s
  {
    DistinctCard(s);
    if x !in s {
      BoundedCard(Elems(s) + {x}, n);
      assert false;
    }
  }
}
