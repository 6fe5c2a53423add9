/** Union-find: weakly connected components (akar-graph) and the spanning forest
    (akar-algo), which links by rank. */
module UnionFind {
  import opened Graphs
  import opened Buckets
  import opened Relabelling

  // ------------------------------------------------------------------ connectivity

  /** An entry joins `u` and `v`, in either direction.  With `up`, only entries that
      lead to a larger node count. */
  ghost predicate Near(adj: Adj, up: bool, u: nat, v: nat) {
    (Edge(adj, u, v) && (up ==> u < v)) || (Edge(adj, v, u) && (up ==> v < u))
  }

  ghost predicate Stride(adj: Adj, up: bool, p: seq<nat>, i: nat) {
    0 < i < |p| && Near(adj, up, p[i - 1], p[i])
  }

  ghost predicate Links(adj: Adj, up: bool, p: seq<nat>, u: nat, v: nat) {
    && |p| > 0 && p[0] == u && p[|p| - 1] == v
    && (forall i | 0 <= i < |p| :: p[i] < |adj|)
    && (forall i | 0 < i < |p| :: Stride(adj, up, p, i))
  }

  /** Connected when directions are ignored. */
  ghost predicate Connected(adj: Adj, up: bool, u: nat, v: nat) {
    exists p :: Links(adj, up, p, u, v)
  }

  lemma ConnectedSelf(adj: Adj, up: bool, u: nat)
    requires u < |adj|
    ensures Connected(adj, up, u, u)
  {
    assert Links(adj, up, [u], u, u);
  }

  lemma ConnectedNear(adj: Adj, up: bool, u: nat, v: nat)
    requires Near(adj, up, u, v)
    ensures Connected(adj, up, u, v)
  {
    var p := [u, v];
    assert Stride(adj, up, p, 1);
    assert Links(adj, up, p, u, v);
  }

  lemma ConnectedTrans(adj: Adj, up: bool, u: nat, v: nat, w: nat)
    requires Connected(adj, up, u, v) && Connected(adj, up, v, w)
    ensures Connected(adj, up, u, w)
  {
    var p :| Links(adj, up, p, u, v);
    var q :| Links(adj, up, q, v, w);
    var r := p + q[1..];
    forall i | 0 < i < |r| ensures Stride(adj, up, r, i) {
      if i < |p| {
        assert Stride(adj, up, p, i);
      } else {
        assert Stride(adj, up, q, i - |p| + 1);
        assert r[i - 1] == q[i - |p|];
      }
    }
    assert Links(adj, up, r, u, w);
  }

  function Backwards(p: seq<nat>): (r: seq<nat>)
    ensures |r| == |p| && forall i | 0 <= i < |p| :: r[i] == p[|p| - 1 - i]
  {
    seq(|p|, i requires 0 <= i < |p| => p[|p| - 1 - i])
  }

  lemma ConnectedSym(adj: Adj, up: bool, u: nat, v: nat)
    requires Connected(adj, up, u, v)
    ensures Connected(adj, up, v, u)
  {
    var p :| Links(adj, up, p, u, v);
    var r := Backwards(p);
    forall i | 0 < i < |r| ensures Stride(adj, up, r, i) {
      assert Stride(adj, up, p, |p| - i);
    }
    assert Links(adj, up, r, v, u);
  }

  /** Labels that agree across every entry agree along every path. */
  lemma {:induction false} AgreeAlong(adj: Adj, up: bool, cls: seq<nat>, p: seq<nat>, u: nat, v: nat)
    requires Links(adj, up, p, u, v) && |cls| == |adj|
    requires forall x: nat, y: nat | Near(adj, up, x, y) :: cls[x] == cls[y]
    ensures cls[u] == cls[v]
    decreases |p|
  {
    if |p| > 1 {
      var q := p[..|p| - 1];
      forall i | 0 < i < |q| ensures Stride(adj, up, q, i) {
        assert Stride(adj, up, p, i);
      }
      AgreeAlong(adj, up, cls, q, u, q[|q| - 1]);
      assert Stride(adj, up, p, |p| - 1);
    }
  }

  ghost predicate SymmetricEdges(adj: Adj) {
    forall u: nat, v: nat | Edge(adj, u, v) :: Edge(adj, v, u)
  }

  /** On a symmetric graph nothing is lost by looking at ascending entries only. */
  lemma UpEnough(adj: Adj, u: nat, v: nat)
    requires SymmetricEdges(adj) && u < |adj|
    ensures Connected(adj, true, u, v) <==> Connected(adj, false, u, v)
  {
    if Connected(adj, true, u, v) {
      var p :| Links(adj, true, p, u, v);
      forall i | 0 < i < |p| ensures Stride(adj, false, p, i) { assert Stride(adj, true, p, i); }
      assert Links(adj, false, p, u, v);
    }
    if Connected(adj, false, u, v) {
      var p :| Links(adj, false, p, u, v);
      UpPath(adj, p, u, v);
    }
  }

  lemma {:induction false} UpPath(adj: Adj, p: seq<nat>, u: nat, v: nat)
    requires SymmetricEdges(adj) && Links(adj, false, p, u, v)
    ensures Connected(adj, true, u, v)
    decreases |p|
  {
    if |p| == 1 {
      ConnectedSelf(adj, true, u);
    } else {
      var q := p[..|p| - 1];
      var w := q[|q| - 1];
      forall i | 0 < i < |q| ensures Stride(adj, false, q, i) {
        assert Stride(adj, false, p, i);
      }
      UpPath(adj, q, u, w);
      assert Stride(adj, false, p, |p| - 1);
      if w != v {
        ConnectedNear(adj, true, w, v);
        ConnectedTrans(adj, true, u, w, v);
      }
    }
  }

  // ------------------------------------------------------------------ forests

  ghost predicate InRange(s: seq<nat>, n: nat) {
    |s| == n && forall v | 0 <= v < n :: s[v] < n
  }

  /** `root` names the root of every node. */
  ghost predicate Rooted(parent: seq<nat>, root: seq<nat>) {
    && InRange(parent, |root|) && InRange(root, |root|)
    && (forall v | 0 <= v < |parent| :: root[parent[v]] == root[v] && root[root[v]] == root[v])
    && (forall v | 0 <= v < |parent| :: parent[v] == v <==> root[v] == v)
  }

  /** Ranks strictly increase along parents. */
  ghost predicate Ranked(next: seq<nat>, rank: seq<nat>) {
    && InRange(next, |rank|)
    && (forall v | 0 <= v < |next| && next[v] != v :: rank[v] < rank[next[v]])
  }

  ghost predicate Forest(parent: seq<nat>, rank: seq<nat>, root: seq<nat>) {
    Rooted(parent, root) && Ranked(parent, rank) && Ranked(root, rank)
  }

  lemma ForestStart(parent: seq<nat>, rank: seq<nat>)
    requires |parent| == |rank| && forall v | 0 <= v < |parent| :: parent[v] == v
    ensures Forest(parent, rank, parent)
  {
  }

  lemma ForestAt(parent: seq<nat>, rank: seq<nat>, root: seq<nat>, v: nat)
    requires Forest(parent, rank, root) && v < |parent|
    ensures |parent| == |rank| == |root| && parent[v] < |parent| && root[v] < |parent|
    ensures root[parent[v]] == root[v] && root[root[v]] == root[v] && parent[root[v]] == root[v]
    ensures parent[v] == v <==> root[v] == v
    ensures parent[v] != v ==> rank[v] < rank[parent[v]]
  {
  }

  /** Path compression. */
  lemma Compressed(parent: seq<nat>, rank: seq<nat>, root: seq<nat>, v: nat)
    requires Forest(parent, rank, root) && v < |parent|
    ensures Forest(parent[v := root[v]], rank, root)
  {
  }

  function Merged(root: seq<nat>, a: nat, b: nat): (r: seq<nat>)
    ensures |r| == |root| && forall v | 0 <= v < |root| :: r[v] == if root[v] == a then b else root[v]
  {
    seq(|root|, v requires 0 <= v < |root| => if root[v] == a then b else root[v])
  }

  lemma RootedLink(parent: seq<nat>, root: seq<nat>, a: nat, b: nat)
    requires Rooted(parent, root) && a < |parent| && b < |parent| && a != b && root[a] == a && root[b] == b
    ensures Rooted(parent[a := b], Merged(root, a, b))
  {
  }

  /** Root `a` is hung below root `b`, whose rank is raised to `h` if need be. */
  lemma Linked(parent: seq<nat>, rank: seq<nat>, root: seq<nat>, a: nat, b: nat, h: nat)
    requires Forest(parent, rank, root) && a < |parent| && b < |parent| && a != b && root[a] == a && root[b] == b
    requires h >= rank[b] && h > rank[a]
    ensures Forest(parent[a := b], rank[b := h], Merged(root, a, b))
  {
    RootedLink(parent, root, a, b);
    RankedLink(parent, rank, a, b, h);
    RankedMerge(root, rank, a, b, h);
  }

  lemma RankedLink(parent: seq<nat>, rank: seq<nat>, a: nat, b: nat, h: nat)
    requires Ranked(parent, rank) && a < |parent| && b < |parent| && a != b && parent[b] == b
    requires h >= rank[b] && h > rank[a]
    ensures Ranked(parent[a := b], rank[b := h])
  {
  }

  lemma RankedMerge(root: seq<nat>, rank: seq<nat>, a: nat, b: nat, h: nat)
    requires Ranked(root, rank) && a < |root| && b < |root| && a != b && root[a] == a && root[b] == b
    requires h >= rank[b] && h > rank[a]
    ensures Ranked(Merged(root, a, b), rank[b := h])
  {
    var root', rank' := Merged(root, a, b), rank[b := h];
    forall v | 0 <= v < |root| && root'[v] != v ensures rank'[v] < rank'[root'[v]] {
      if root[v] == a && v != a { assert rank[v] < rank[a]; }
    }
  }

  // ------------------------------------------------------------------ ranks and sizes

  function Pow2(k: nat): (r: nat)
    ensures r > 0
  {
    if k == 0 then 1 else 2 * Pow2(k - 1)
  }

  /** A root of rank `k` has at least `2^k` nodes below it. */
  ghost predicate Sized(rank: seq<nat>, root: seq<nat>) {
    |rank| == |root| && forall r | 0 <= r < |root| && root[r] == r :: Pow2(rank[r]) <= Count(root, r)
  }

  lemma {:induction false} MergedCount(root: seq<nat>, a: nat, b: nat, r: nat)
    requires a != b
    ensures Count(Merged(root, a, b), r)
      == if r == b then Count(root, a) + Count(root, b) else if r == a then 0 else Count(root, r)
  {
    if |root| > 0 {
      var front := root[..|root| - 1];
      MergedCount(front, a, b, r);
      assert Merged(root, a, b)[..|root| - 1] == Merged(front, a, b);
    }
  }

  lemma {:induction false} CountOwn(root: seq<nat>, r: nat)
    requires r < |root| && root[r] == r
    ensures Count(root, r) >= 1
  {
    if r < |root| - 1 { CountOwn(root[..|root| - 1], r); }
  }

  lemma SizedStart(rank: seq<nat>, root: seq<nat>)
    requires |rank| == |root| && forall v | 0 <= v < |root| :: rank[v] == 0
    ensures Sized(rank, root)
  {
    forall r | 0 <= r < |root| && root[r] == r ensures Pow2(rank[r]) <= Count(root, r) {
      CountOwn(root, r);
    }
  }

  lemma SizedMerge(rank: seq<nat>, root: seq<nat>, a: nat, b: nat, h: nat)
    requires Sized(rank, root) && a < |root| && b < |root| && a != b && root[a] == a && root[b] == b
    requires h == rank[b] || (h == rank[b] + 1 && rank[a] == rank[b])
    ensures Sized(rank[b := h], Merged(root, a, b))
  {
    var rank', root' := rank[b := h], Merged(root, a, b);
    forall r | 0 <= r < |root'| && root'[r] == r ensures Pow2(rank'[r]) <= Count(root', r) {
      MergedCount(root, a, b, r);
      assert Pow2(rank[b]) <= Count(root, b) && Pow2(rank[a]) <= Count(root, a);
      if r != b { assert root[r] == r; }
    }
  }

  lemma {:induction false} CountAtMost(keys: seq<nat>, k: nat)
    ensures Count(keys, k) <= |keys|
  {
    if |keys| > 0 { CountAtMost(keys[..|keys| - 1], k); }
  }

  /** Ranks are at most the binary logarithm of the number of nodes. */
  lemma RankLogarithmic(parent: seq<nat>, rank: seq<nat>, root: seq<nat>, v: nat)
    requires Forest(parent, rank, root) && Sized(rank, root) && v < |parent|
    ensures Pow2(rank[v]) <= |parent|
  {
    var r := root[v];
    CountAtMost(root, r);
    Pow2Mono(rank[v], rank[r]);
  }

  lemma {:induction false} Pow2Mono(a: nat, b: nat)
    requires a <= b
    ensures Pow2(a) <= Pow2(b)
    decreases b
  {
    if a < b { Pow2Mono(a, b - 1); }
  }

  // ------------------------------------------------------------------ find

  /** No rank exceeds `top`. */
  ghost predicate Under(rank: seq<nat>, top: nat) {
    forall v | 0 <= v < |rank| :: rank[v] <= top
  }

  /** Two passes: to the root, then again to hang every node on the way below it. */
  method Find(parent: array<nat>, x: nat, ghost rank: seq<nat>, ghost root: seq<nat>, ghost top: nat) returns (r: nat)
    requires Forest(parent[..], rank, root) && x < parent.Length == |root| && Under(rank, top)
    modifies parent
    ensures Forest(parent[..], rank, root) && r == root[x] && parent[x] == r
    ensures forall v | 0 <= v < parent.Length && old(parent[..])[v] == root[v] :: parent[v] == root[v]
  {
    hide Forest;
    ForestAt(parent[..], rank, root, x);
    ghost var start := parent[..];
    r := x;
    while parent[r] != r
      invariant parent[..] == start
      invariant r < parent.Length == |root| == |rank| && root[r] == root[x]
      decreases top - rank[r]
    {
      ForestAt(parent[..], rank, root, r);
      r := parent[r];
    }
    ForestAt(parent[..], rank, root, r);
    var cur: nat := x;
    while parent[cur] != r
      invariant cur < parent.Length == |root| == |rank|
      invariant Forest(parent[..], rank, root) && root[cur] == r
      invariant cur == x || parent[x] == r
      invariant forall v | 0 <= v < parent.Length && start[v] == root[v] :: parent[v] == root[v]
      decreases top - rank[cur]
    {
      ForestAt(parent[..], rank, root, cur);
      var next := parent[cur];
      Compressed(parent[..], rank, root, cur);
      ghost var before := parent[..];
      parent[cur] := r;
      assert parent[..] == before[cur := r];
      cur := next;
    }
  }

  // ------------------------------------------------------------------ what the classes mean

  /** Nodes with a common root are connected. */
  ghost predicate Joined(adj: Adj, up: bool, root: seq<nat>) {
    |root| == |adj| && forall u, v | 0 <= u < |adj| && 0 <= v < |adj| && root[u] == root[v] :: Connected(adj, up, u, v)
  }

  lemma JoinedStart(adj: Adj, up: bool, root: seq<nat>)
    requires |root| == |adj| && forall v | 0 <= v < |adj| :: root[v] == v
    ensures Joined(adj, up, root)
  {
    forall u, v | 0 <= u < |adj| && 0 <= v < |adj| && root[u] == root[v] ensures Connected(adj, up, u, v) {
      ConnectedSelf(adj, up, u);
    }
  }

  lemma JoinedMerge(adj: Adj, up: bool, root: seq<nat>, x: nat, y: nat, a: nat, b: nat)
    requires Joined(adj, up, root) && x < |adj| && y < |adj| && Near(adj, up, x, y)
    requires (a == root[x] && b == root[y]) || (a == root[y] && b == root[x])
    ensures Joined(adj, up, Merged(root, a, b))
  {
    hide Connected, Near;
    var root' := Merged(root, a, b);
    ConnectedNear(adj, up, x, y);
    ConnectedSym(adj, up, x, y);
    forall u, v | 0 <= u < |adj| && 0 <= v < |adj| && root'[u] == root'[v] ensures Connected(adj, up, u, v) {
      if root[u] != root[v] {
        Across(adj, up, root, x, y, u, v);
      }
    }
  }

  lemma Across(adj: Adj, up: bool, root: seq<nat>, x: nat, y: nat, u: nat, v: nat)
    requires Joined(adj, up, root) && x < |adj| && y < |adj| && u < |adj| && v < |adj|
    requires Connected(adj, up, x, y) && Connected(adj, up, y, x)
    requires (root[u] == root[x] && root[v] == root[y]) || (root[u] == root[y] && root[v] == root[x])
    ensures Connected(adj, up, u, v)
  {
    hide Connected;
    if root[u] == root[x] && root[v] == root[y] {
      ConnectedTrans(adj, up, u, x, y);
      ConnectedTrans(adj, up, u, y, v);
    } else {
      ConnectedTrans(adj, up, u, y, x);
      ConnectedTrans(adj, up, u, x, v);
    }
  }

  /** Entry `j` of `v` has been looked at. */
  ghost predicate Done(adj: Adj, i: nat, j: nat, v: nat, k: nat) {
    v < |adj| && k < |adj[v]| && (v < i || (v == i && k < j))
  }

  /** Every entry looked at joins nodes of one class. */
  ghost predicate Covered(adj: Adj, up: bool, root: seq<nat>, i: nat, j: nat) {
    |root| == |adj| &&
    forall v: nat, k: nat | Done(adj, i, j, v, k) && adj[v][k] < |adj| && (up ==> v < adj[v][k]) ::
      root[v] == root[adj[v][k]]
  }

  lemma CoveredMerge(adj: Adj, up: bool, root: seq<nat>, i: nat, j: nat, a: nat, b: nat)
    requires Covered(adj, up, root, i, j)
    ensures Covered(adj, up, Merged(root, a, b), i, j)
  {
  }

  /** When all entries have been looked at, the classes are the components. */
  lemma CoveredAll(adj: Adj, up: bool, root: seq<nat>, u: nat, v: nat)
    requires Covered(adj, up, root, |adj|, 0) && Joined(adj, up, root) && u < |adj| && v < |adj|
    ensures root[u] == root[v] <==> Connected(adj, up, u, v)
  {
    if Connected(adj, up, u, v) {
      var p :| Links(adj, up, p, u, v);
      forall x: nat, y: nat | Near(adj, up, x, y) ensures root[x] == root[y] {
        if Edge(adj, x, y) && (up ==> x < y) {
          var k :| 0 <= k < |adj[x]| && adj[x][k] == y;
          assert Done(adj, |adj|, 0, x, k);
        } else {
          var k :| 0 <= k < |adj[y]| && adj[y][k] == x;
          assert Done(adj, |adj|, 0, y, k);
        }
      }
      AgreeAlong(adj, up, root, p, u, v);
    }
  }

  lemma CoveredNext(adj: Adj, up: bool, root: seq<nat>, i: nat, j: nat)
    requires Covered(adj, up, root, i, j) && i < |adj| && j < |adj[i]|
    requires adj[i][j] < |adj| && (up ==> i < adj[i][j]) ==> root[i] == root[adj[i][j]]
    ensures Covered(adj, up, root, i, j + 1)
  {
    forall v: nat, k: nat | Done(adj, i, j + 1, v, k) && adj[v][k] < |adj| && (up ==> v < adj[v][k])
      ensures root[v] == root[adj[v][k]]
    {
      if v != i || k != j { assert Done(adj, i, j, v, k); }
    }
  }

  lemma CoveredRow(adj: Adj, up: bool, root: seq<nat>, i: nat)
    requires i < |adj| && Covered(adj, up, root, i, |adj[i]|)
    ensures Covered(adj, up, root, i + 1, 0)
  {
    forall v: nat, k: nat | Done(adj, i + 1, 0, v, k) && adj[v][k] < |adj| && (up ==> v < adj[v][k])
      ensures root[v] == root[adj[v][k]]
    {
      assert Done(adj, i, |adj[i]|, v, k);
    }
  }

  /** The classes after one union. */
  ghost predicate Unites(root: seq<nat>, root': seq<nat>, a: nat, b: nat) {
    && a < |root| == |root'| && b < |root| && root'[a] == root'[b]
    && (root' == root || root' == Merged(root, root[a], root[b]) || root' == Merged(root, root[b], root[a]))
  }

  ghost predicate Classes(adj: Adj, up: bool, root: seq<nat>, i: nat, j: nat) {
    Joined(adj, up, root) && Covered(adj, up, root, i, j)
  }

  /** Uniting the ends of the entry at hand. */
  lemma ClassesUnion(adj: Adj, up: bool, root: seq<nat>, root': seq<nat>, i: nat, j: nat)
    requires Classes(adj, up, root, i, j) && i < |adj| && j < |adj[i]| && adj[i][j] < |adj| && (up ==> i < adj[i][j])
    requires Unites(root, root', i, adj[i][j])
    ensures Classes(adj, up, root', i, j + 1)
  {
    hide Joined, Covered;
    var w := adj[i][j];
    assert Near(adj, up, i, w);
    assert |root| == |adj| by { ClassesSize(adj, up, root, i, j); }
    if root' != root {
      if root' == Merged(root, root[i], root[w]) {
        JoinedMerge(adj, up, root, i, w, root[i], root[w]);
        CoveredMerge(adj, up, root, i, j, root[i], root[w]);
      } else {
        JoinedMerge(adj, up, root, i, w, root[w], root[i]);
        CoveredMerge(adj, up, root, i, j, root[w], root[i]);
      }
    }
    CoveredNext(adj, up, root', i, j);
  }

  lemma ClassesSize(adj: Adj, up: bool, root: seq<nat>, i: nat, j: nat)
    requires Classes(adj, up, root, i, j)
    ensures |root| == |adj|
  {
  }

  method Union(parent: array<nat>, a: nat, b: nat, ghost rank: seq<nat>, ghost root: seq<nat>, ghost top: nat)
    returns (ghost rank': seq<nat>, ghost root': seq<nat>, ghost top': nat)
    requires Forest(parent[..], rank, root) && Under(rank, top) && a < parent.Length == |root| && b < parent.Length
    modifies parent
    ensures Forest(parent[..], rank', root') && Under(rank', top') && Unites(root, root', a, b)
  {
    hide Forest;
    ForestAt(parent[..], rank, root, a);
    ForestAt(parent[..], rank, root, b);
    var ra := Find(parent, a, rank, root, top);
    var rb := Find(parent, b, rank, root, top);
    rank', root', top' := rank, root, top;
    if ra != rb {
      var h := if rank[rb] > rank[ra] then rank[rb] else rank[ra] + 1;
      Linked(parent[..], rank, root, ra, rb, h);
      ghost var before := parent[..];
      parent[ra] := rb;
      assert parent[..] == before[ra := rb];
      rank', root', top' := rank[rb := h], Merged(root, ra, rb), top + 1;
    }
  }

  method CompressAll(parent: array<nat>, ghost rank: seq<nat>, ghost root: seq<nat>, ghost top: nat)
    requires Forest(parent[..], rank, root) && Under(rank, top) && parent.Length == |root|
    modifies parent
    ensures Forest(parent[..], rank, root) && parent[..] == root
    ensures forall v | 0 <= v < parent.Length :: parent[v] < parent.Length
  {
    hide Forest;
    for i := 0 to parent.Length
      invariant Forest(parent[..], rank, root)
      invariant forall v | 0 <= v < i :: parent[v] == root[v]
    {
      var _ := Find(parent, i, rank, root, top);
    }
    forall v | 0 <= v < parent.Length ensures parent[v] < parent.Length {
      ForestAt(parent[..], rank, root, v);
    }
  }

  /** Two nodes carry the same id exactly when they are connected; ids are issued in
      the order in which components first appear. */
  ghost predicate ComponentLabels(adj: Adj, up: bool, labels: seq<nat>) {
    && |labels| == |adj|
    && (forall u, v | 0 <= u < |adj| && 0 <= v < |adj| :: labels[u] == labels[v] <==> Connected(adj, up, u, v))
    && (forall v, c: nat | 0 <= v < |labels| && c < labels[v] :: c in labels[..v])
  }

  lemma LabelsAreComponents(adj: Adj, up: bool, root: seq<nat>, labels: seq<nat>)
    requires Classes(adj, up, root, |adj|, 0) && Relabelled(labels, root)
    ensures ComponentLabels(adj, up, labels)
  {
    hide Joined, Covered, Connected;
    ClassesSize(adj, up, root, |adj|, 0);
    forall u, v | 0 <= u < |adj| && 0 <= v < |adj| ensures labels[u] == labels[v] <==> Connected(adj, up, u, v) {
      CoveredAll(adj, up, root, u, v);
    }
  }

  method WeaklyConnectedComponents(g: Csr) returns (labels: seq<nat>)
    requires g.Valid()
    ensures ComponentLabels(Lists(g), false, labels)
  {
    hide Forest, Classes, Under, ComponentLabels, Relabelled;
    var n := g.NumNodes();
    var parent := new nat[n](i => i);
    ghost var adj := Lists(g);
    ghost var rank: seq<nat>, root, top := seq(n, _ => 0), parent[..], 0;
    WccStart(adj, rank, root);
    for i := 0 to n
      invariant Forest(parent[..], rank, root) && Under(rank, top) && Classes(adj, false, root, i, 0) && |root| == n
    {
      for j := 0 to g.Degree(i)
        invariant Forest(parent[..], rank, root) && Under(rank, top) && Classes(adj, false, root, i, j) && |root| == n
      {
        var w := g.Target(i, j);
        if w < n {
          ghost var before := root;
          rank, root, top := Union(parent, i, w, rank, root, top);
          ClassesUnion(adj, false, before, root, i, j);
        } else {
          ClassesSkip(adj, false, root, i, j);
        }
      }
      ClassesRow(adj, false, root, i);
    }
    CompressAll(parent, rank, root, top);
    labels := Relabel(parent);
    LabelsAreComponents(adj, false, root, labels);
  }

  lemma WccStart(adj: Adj, rank: seq<nat>, root: seq<nat>)
    requires |rank| == |root| == |adj| && forall v | 0 <= v < |adj| :: root[v] == v && rank[v] == 0
    ensures Forest(root, rank, root) && Under(rank, 0) && Classes(adj, false, root, 0, 0)
    ensures Classes(adj, true, root, 0, 0)
  {
    hide Connected;
    ForestStart(root, rank);
    JoinedStart(adj, false, root);
    JoinedStart(adj, true, root);
  }

  lemma ClassesSkip(adj: Adj, up: bool, root: seq<nat>, i: nat, j: nat)
    requires Classes(adj, up, root, i, j) && i < |adj| && j < |adj[i]| && !(adj[i][j] < |adj| && (up ==> i < adj[i][j]))
    ensures Classes(adj, up, root, i, j + 1)
  {
    hide Joined;
    CoveredNext(adj, up, root, i, j);
  }

  lemma ClassesRow(adj: Adj, up: bool, root: seq<nat>, i: nat)
    requires i < |adj| && Classes(adj, up, root, i, |adj[i]|)
    ensures Classes(adj, up, root, i + 1, 0)
  {
    hide Joined;
    CoveredRow(adj, up, root, i);
  }

  // ------------------------------------------------------------------ linking by rank

  method UnionByRank(parent: array<nat>, rank: array<nat>, a: nat, b: nat, ghost root: seq<nat>, ghost top: nat)
    returns (ghost root': seq<nat>, ghost top': nat)
    requires parent != rank && Forest(parent[..], rank[..], root) && Sized(rank[..], root) && Under(rank[..], top)
    requires a < parent.Length == rank.Length == |root| && b < parent.Length
    modifies parent, rank
    ensures Forest(parent[..], rank[..], root') && Sized(rank[..], root') && Under(rank[..], top')
    ensures Unites(root, root', a, b)
  {
    hide Forest, Sized;
    ForestAt(parent[..], rank[..], root, a);
    ForestAt(parent[..], rank[..], root, b);
    ghost var r0 := rank[..];
    var ra := Find(parent, a, r0, root, top);
    var rb := Find(parent, b, r0, root, top);
    root', top' := root, top;
    if ra != rb {
      ghost var before := parent[..];
      if rank[ra] < rank[rb] {
        Linked(before, r0, root, ra, rb, r0[rb]);
        SizedMerge(r0, root, ra, rb, r0[rb]);
        parent[ra] := rb;
        assert parent[..] == before[ra := rb] && r0[rb := r0[rb]] == r0;
        root' := Merged(root, ra, rb);
      } else if rank[ra] > rank[rb] {
        Linked(before, r0, root, rb, ra, r0[ra]);
        SizedMerge(r0, root, rb, ra, r0[ra]);
        parent[rb] := ra;
        assert parent[..] == before[rb := ra] && r0[ra := r0[ra]] == r0;
        root' := Merged(root, rb, ra);
      } else {
        Linked(before, r0, root, rb, ra, r0[ra] + 1);
        SizedMerge(r0, root, rb, ra, r0[ra] + 1);
        parent[rb] := ra;
        rank[ra] := rank[ra] + 1;
        assert parent[..] == before[rb := ra] && rank[..] == r0[ra := r0[ra] + 1];
        root', top' := Merged(root, rb, ra), top + 1;
      }
    }
  }

  /** `parents` and `ranks` are the source's arrays when it labels the components. */
  method SpanningForest(g: Csr) returns (labels: seq<nat>, parents: seq<nat>, ranks: seq<nat>)
    requires g.Valid()
    ensures ComponentLabels(Lists(g), true, labels)
    ensures Relabelled(labels, parents) && Forest(parents, ranks, parents) && Sized(ranks, parents)
  {
    hide Forest, Classes, Under, ComponentLabels, Relabelled, Sized;
    var n := g.NumNodes();
    var parent := new nat[n](i => i);
    var rank := new nat[n](_ => 0);
    ghost var adj := Lists(g);
    ghost var root, top := parent[..], 0;
    WccStart(adj, rank[..], root);
    SizedStart(rank[..], root);
    for v := 0 to n
      invariant Forest(parent[..], rank[..], root) && Sized(rank[..], root) && Under(rank[..], top)
      invariant Classes(adj, true, root, v, 0) && |root| == n
    {
      for j := 0 to g.Degree(v)
        invariant Forest(parent[..], rank[..], root) && Sized(rank[..], root) && Under(rank[..], top)
        invariant Classes(adj, true, root, v, j) && |root| == n
      {
        var w := g.Target(v, j);
        if w < n && v < w {
          ghost var before := root;
          root, top := UnionByRank(parent, rank, v, w, root, top);
          ClassesUnion(adj, true, before, root, v, j);
        } else {
          ClassesSkip(adj, true, root, v, j);
        }
      }
      ClassesRow(adj, true, root, v);
    }
    CompressAll(parent, rank[..], root, top);
    parents, ranks := parent[..], rank[..];
    labels := Relabel(parent);
    LabelsAreComponents(adj, true, root, labels);
  }

  /** On a symmetric graph both algorithms return the same labels. */
  lemma SameLabels(adj: Adj, a: seq<nat>, b: seq<nat>)
    requires SymmetricEdges(adj) && ComponentLabels(adj, false, a) && ComponentLabels(adj, true, b)
    ensures a == b
  {
    hide Connected;
    forall u, v | 0 <= u < |adj| && 0 <= v < |adj| ensures b[u] == b[v] <==> a[u] == a[v] {
      UpEnough(adj, u, v);
    }
    assert Relabelled(a, a) && Relabelled(b, a);
    RelabelledUnique(a, b, a, |adj|);
    assert a[..|adj|] == a && b[..|adj|] == b;
  }
}
