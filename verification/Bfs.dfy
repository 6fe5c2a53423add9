/** The breadth-first family: `bfs`, `shortest_path` and `reachable_within` of
    akar-graph, and `shortest_path_bfs` of akar-algo. */
module Bfs {
  import opened Graphs

  // ------------------------------------------------------------------ the search state

  predicate Visited(dist: seq<nat>, v: nat) {
    v < |dist| && dist[v] != USIZE_MAX
  }

  /** `v` was discovered from `u`. */
  ghost predicate Precedes(adj: Adj, dist: seq<nat>, u: nat, v: nat) {
    Visited(dist, u) && Visited(dist, v) && Edge(adj, u, v) && dist[v] == dist[u] + 1
  }

  ghost predicate HasParent(adj: Adj, dist: seq<nat>, v: nat) {
    exists u :: Precedes(adj, dist, u, v)
  }

  /** The queue lists the visited nodes once each, by distance, the source first. */
  ghost predicate Listing(adj: Adj, s: nat, dist: seq<nat>, queue: seq<nat>) {
    && |dist| == |adj| < USIZE_MAX && s < |adj|
    && |queue| > 0 && queue[0] == s && dist[s] == 0
    && (forall i | 0 <= i < |queue| :: queue[i] < |adj| && dist[queue[i]] <= i)
    && (forall v: nat | Visited(dist, v) :: v in queue)
    && (forall i | 0 <= i < |queue| :: Visited(dist, queue[i]))
    && (forall i, j | 0 <= i < j < |queue| :: queue[i] != queue[j] && dist[queue[i]] <= dist[queue[j]])
  }

  /** Every node but the source was discovered from another. */
  ghost predicate Parents(adj: Adj, dist: seq<nat>, queue: seq<nat>) {
    forall i {:trigger HasParent(adj, dist, queue[i])} | 0 < i < |queue| :: HasParent(adj, dist, queue[i])
  }

  ghost predicate Tree(adj: Adj, s: nat, dist: seq<nat>, queue: seq<nat>) {
    Listing(adj, s, dist, queue) && Parents(adj, dist, queue)
  }

  /** A target seen from `u` is visited, at most one hop further. */
  ghost predicate Seen(adj: Adj, dist: seq<nat>, u: nat, w: nat) {
    u < |dist| && (w < |adj| ==> Visited(dist, w) && dist[w] <= dist[u] + 1)
  }

  /** The first `h` nodes of the queue are expanded unless they lie at the bound;
      nothing is more than one hop beyond the node at hand. */
  ghost predicate Front(adj: Adj, dist: seq<nat>, queue: seq<nat>, h: nat, bound: nat)
    requires |dist| == |adj| && forall i | 0 <= i < |queue| :: queue[i] < |adj|
  {
    && h <= |queue|
    && (forall i, k | 0 <= i < h && dist[queue[i]] < bound && 0 <= k < |adj[queue[i]]| ::
       Seen(adj, dist, queue[i], adj[queue[i]][k]))
    && (h < |queue| ==> forall i | 0 <= i < |queue| :: dist[queue[i]] <= dist[queue[h]] + 1)
    && (forall i | 0 <= i < |queue| :: dist[queue[i]] <= bound)
  }

  /** The first `j` entries of `u` have been looked at. */
  ghost predicate Looked(adj: Adj, dist: seq<nat>, u: nat, j: nat) {
    u < |adj| && j <= |adj[u]| && forall k | 0 <= k < j :: Seen(adj, dist, u, adj[u][k])
  }

  lemma Start(adj: Adj, s: nat, dist: seq<nat>, bound: nat)
    requires s < |adj| == |dist| < USIZE_MAX && forall v | 0 <= v < |dist| :: dist[v] == USIZE_MAX
    ensures Searching(adj, s, dist[s := 0], [s], 0, bound)
  {
  }

  lemma QueueRoom(adj: Adj, s: nat, dist: seq<nat>, queue: seq<nat>)
    requires Tree(adj, s, dist, queue)
    ensures |queue| <= |adj|
  {
    DistinctBound(queue, |adj|);
  }

  lemma DiscoverListing(adj: Adj, s: nat, dist: seq<nat>, queue: seq<nat>, h: nat, w: nat)
    requires Listing(adj, s, dist, queue) && h < |queue| && !Visited(dist, w) && w < |adj|
    requires forall i | 0 <= i < |queue| :: dist[queue[i]] <= dist[queue[h]] + 1
    ensures Listing(adj, s, dist[w := dist[queue[h]] + 1], queue + [w])
  {
    DistinctBound(queue, |adj|);
    var dist', queue' := dist[w := dist[queue[h]] + 1], queue + [w];
    assert queue'[|queue|] == w;
    forall v: nat | Visited(dist', v) ensures v in queue' {
      assert v != w ==> v in queue;
    }
  }

  lemma DiscoverParents(adj: Adj, dist: seq<nat>, queue: seq<nat>, u: nat, w: nat)
    requires Parents(adj, dist, queue) && Visited(dist, u) && !Visited(dist, w) && Edge(adj, u, w)
    requires |dist| == |adj| && dist[u] + 1 < USIZE_MAX
    ensures Parents(adj, dist[w := dist[u] + 1], queue + [w])
  {
    var dist', queue' := dist[w := dist[u] + 1], queue + [w];
    forall i | 0 < i < |queue'| ensures HasParent(adj, dist', queue'[i]) {
      if i < |queue| {
        assert HasParent(adj, dist, queue[i]);
        var p :| Precedes(adj, dist, p, queue[i]);
        assert Precedes(adj, dist', p, queue'[i]);
      } else {
        assert Precedes(adj, dist', u, w);
      }
    }
  }

  lemma DiscoverTree(adj: Adj, s: nat, dist: seq<nat>, queue: seq<nat>, h: nat, bound: nat, w: nat)
    requires Tree(adj, s, dist, queue) && h < |queue| && Front(adj, dist, queue, h, bound)
    requires !Visited(dist, w) && Edge(adj, queue[h], w)
    ensures Tree(adj, s, dist[w := dist[queue[h]] + 1], queue + [w])
  {
    QueueRoom(adj, s, dist, queue);
    DiscoverListing(adj, s, dist, queue, h, w);
    DiscoverParents(adj, dist, queue, queue[h], w);
  }

  lemma DiscoverFront(adj: Adj, s: nat, dist: seq<nat>, queue: seq<nat>, h: nat, bound: nat, w: nat, j: nat)
    requires Tree(adj, s, dist, queue) && h < |queue| && Front(adj, dist, queue, h, bound)
    requires !Visited(dist, w) && w < |adj| && dist[queue[h]] < bound && Looked(adj, dist, queue[h], j)
    ensures var dist' := dist[w := dist[queue[h]] + 1];
      |queue + [w]| == |queue| + 1 && (forall i | 0 <= i < |queue + [w]| :: (queue + [w])[i] < |adj|)
      && Front(adj, dist', queue + [w], h, bound) && Looked(adj, dist', queue[h], j)
  {
    var dist', queue' := dist[w := dist[queue[h]] + 1], queue + [w];
    assert dist[queue[h]] + 1 < USIZE_MAX by { QueueRoom(adj, s, dist, queue); }
    forall i, k | 0 <= i < h && dist'[queue'[i]] < bound && 0 <= k < |adj[queue'[i]]|
      ensures Seen(adj, dist', queue'[i], adj[queue'[i]][k])
    {
      assert Seen(adj, dist, queue[i], adj[queue[i]][k]);
    }
    forall k | 0 <= k < j ensures Seen(adj, dist', queue[h], adj[queue[h]][k]) {
      assert Seen(adj, dist, queue[h], adj[queue[h]][k]);
    }
  }

  // ------------------------------------------------------------------ what it computes

  /** Along a path whose nodes are all expanded, distances grow by at most one. */
  lemma DistAlong(adj: Adj, s: nat, dist: seq<nat>, queue: seq<nat>, h: nat, bound: nat, p: seq<nat>, k: nat)
    requires Tree(adj, s, dist, queue) && Front(adj, dist, queue, h, bound)
    requires IsPath(adj, p) && p[0] == s && k < |p|
    requires forall i | 0 <= i < k :: p[i] in queue[..h] && dist[p[i]] < bound
    ensures Visited(dist, p[k]) && dist[p[k]] <= k
  {
    if k > 0 {
      DistAlong(adj, s, dist, queue, h, bound, p, k - 1);
      assert Hop(adj, p, k);
      var i :| 0 <= i < h && queue[i] == p[k - 1];
      var e :| 0 <= e < |adj[p[k - 1]]| && adj[p[k - 1]][e] == p[k];
      assert Seen(adj, dist, queue[i], adj[queue[i]][e]);
    }
  }

  /** The tree holds a path of the recorded length to every visited node. */
  lemma TreePath(adj: Adj, s: nat, dist: seq<nat>, queue: seq<nat>, v: nat) returns (p: seq<nat>)
    requires Tree(adj, s, dist, queue) && Visited(dist, v)
    ensures Joins(adj, p, s, v) && |p| == dist[v] + 1
    decreases dist[v]
  {
    var i :| 0 <= i < |queue| && queue[i] == v;
    if i == 0 {
      p := [s];
    } else {
      assert HasParent(adj, dist, queue[i]);
      var u :| Precedes(adj, dist, u, v);
      var q := TreePath(adj, s, dist, queue, u);
      p := q + [v];
      forall k | 0 < k < |p| ensures Hop(adj, p, k) {
        assert k < |q| ==> Hop(adj, q, k);
      }
    }
  }

  /** When the queue is exhausted, a node is visited exactly if some path of at
      most `bound` hops leads to it (any path, if the bound does not bind), and
      its distance is the hop distance. */
  ghost predicate Exact(adj: Adj, s: nat, dist: seq<nat>, bound: nat) {
    && |dist| == |adj|
    && (forall v: nat | Visited(dist, v) :: dist[v] <= bound && HopDist(adj, s, v, dist[v]))
    && (forall v: nat, p | Joins(adj, p, s, v) && (|p| <= bound + 1 || |adj| <= bound) :: Visited(dist, v))
  }

  /** A path within the bound runs through expanded nodes only. */
  lemma WithinBound(adj: Adj, s: nat, dist: seq<nat>, queue: seq<nat>, bound: nat, p: seq<nat>, k: nat)
    requires Tree(adj, s, dist, queue) && Front(adj, dist, queue, |queue|, bound)
    requires IsPath(adj, p) && p[0] == s && k < |p| && (k <= bound || |adj| <= bound)
    ensures Visited(dist, p[k]) && dist[p[k]] <= k
  {
    forall i | 0 <= i < k ensures p[i] in queue[..|queue|] && dist[p[i]] < bound {
      WithinBound(adj, s, dist, queue, bound, p, i);
      assert queue[..|queue|] == queue;
      QueueRoom(adj, s, dist, queue);
    }
    DistAlong(adj, s, dist, queue, |queue|, bound, p, k);
  }

  lemma Exhausted(adj: Adj, s: nat, dist: seq<nat>, queue: seq<nat>, bound: nat)
    requires Searching(adj, s, dist, queue, |queue|, bound)
    ensures Exact(adj, s, dist, bound)
  {
    forall v: nat | Visited(dist, v) ensures dist[v] <= bound && HopDist(adj, s, v, dist[v]) {
      var i :| 0 <= i < |queue| && queue[i] == v;
      var q := TreePath(adj, s, dist, queue, v);
      forall p | Joins(adj, p, s, v) ensures |p| >= dist[v] + 1 {
        if |p| <= bound {
          WithinBound(adj, s, dist, queue, bound, p, |p| - 1);
        }
      }
    }
    forall v: nat, p | Joins(adj, p, s, v) && (|p| <= bound + 1 || |adj| <= bound) ensures Visited(dist, v) {
      WithinBound(adj, s, dist, queue, bound, p, |p| - 1);
    }
  }

  /** While `w` is unvisited, it is further away than the node at hand. */
  lemma Beyond(adj: Adj, s: nat, dist: seq<nat>, queue: seq<nat>, h: nat, w: nat)
    requires Tree(adj, s, dist, queue) && h < |queue| && Front(adj, dist, queue, h, USIZE_MAX) && !Visited(dist, w)
    ensures forall p | Joins(adj, p, s, w) :: |p| > dist[queue[h]] + 1
  {
    forall p | Joins(adj, p, s, w) ensures |p| > dist[queue[h]] + 1 {
      var k := 0;
      while k < |p| && p[k] in queue[..h]
        invariant k <= |p| && forall i | 0 <= i < k :: p[i] in queue[..h] && dist[p[i]] < USIZE_MAX
      {
        k := k + 1;
      }
      assert k < |p|;
      DistAlong(adj, s, dist, queue, h, USIZE_MAX, p, k);
      var i :| 0 <= i < |queue| && queue[i] == p[k];
      assert i >= h;
    }
  }

  // ------------------------------------------------------------------ the searches

  /** The search has expanded the first `h` nodes of its queue. */
  ghost predicate Searching(adj: Adj, s: nat, dist: seq<nat>, queue: seq<nat>, h: nat, bound: nat) {
    Tree(adj, s, dist, queue) && Front(adj, dist, queue, h, bound)
  }

  lemma NextFront(adj: Adj, s: nat, dist: seq<nat>, queue: seq<nat>, h: nat, bound: nat)
    requires Searching(adj, s, dist, queue, h, bound) && h < |queue|
    requires dist[queue[h]] < bound ==> Looked(adj, dist, queue[h], |adj[queue[h]]|)
    ensures Searching(adj, s, dist, queue, h + 1, bound)
  {
  }

  /** Distances and queue after looking at a target: it is discovered if it is new. */
  function LookDist(dist: seq<nat>, w: nat, d: nat): seq<nat> {
    if w < |dist| && dist[w] == USIZE_MAX then dist[w := d] else dist
  }

  function LookQueue(dist: seq<nat>, queue: seq<nat>, w: nat): seq<nat> {
    if w < |dist| && dist[w] == USIZE_MAX then queue + [w] else queue
  }

  /** What a search in progress says about indices and values. */
  lemma Basics(adj: Adj, s: nat, dist: seq<nat>, queue: seq<nat>, h: nat, bound: nat)
    requires Searching(adj, s, dist, queue, h, bound)
    ensures |dist| == |adj| && |queue| <= |adj| < USIZE_MAX && h <= |queue|
    ensures h < |queue| ==> queue[h] < |adj| && dist[queue[h]] < |adj| && Looked(adj, dist, queue[h], 0)
  {
    QueueRoom(adj, s, dist, queue);
  }

  lemma LookNew(adj: Adj, s: nat, dist: seq<nat>, queue: seq<nat>, h: nat, bound: nat, j: nat)
    requires Searching(adj, s, dist, queue, h, bound) && h < |queue| && dist[queue[h]] < bound
    requires j < |adj[queue[h]]| && Looked(adj, dist, queue[h], j) && adj[queue[h]][j] < |adj|
    requires dist[adj[queue[h]][j]] == USIZE_MAX
    ensures var w, d := adj[queue[h]][j], dist[queue[h]] + 1;
      Searching(adj, s, dist[w := d], queue + [w], h, bound) && Looked(adj, dist[w := d], queue[h], j + 1)
  {
    var u := queue[h];
    var w := adj[u][j];
    assert Edge(adj, u, w);
    DiscoverTree(adj, s, dist, queue, h, bound, w);
    DiscoverFront(adj, s, dist, queue, h, bound, w, j);
    Basics(adj, s, dist, queue, h, bound);
  }

  lemma LookOld(adj: Adj, s: nat, dist: seq<nat>, queue: seq<nat>, h: nat, bound: nat, j: nat)
    requires Searching(adj, s, dist, queue, h, bound) && h < |queue|
    requires j < |adj[queue[h]]| && Looked(adj, dist, queue[h], j)
    requires adj[queue[h]][j] < |adj| ==> dist[adj[queue[h]][j]] != USIZE_MAX
    ensures Looked(adj, dist, queue[h], j + 1)
  {
    var w := adj[queue[h]][j];
    if w < |adj| {
      assert Visited(dist, w);
      var i :| 0 <= i < |queue| && queue[i] == w;
    }
  }

  lemma LookNext(adj: Adj, s: nat, dist: seq<nat>, queue: seq<nat>, h: nat, bound: nat, j: nat)
    requires Searching(adj, s, dist, queue, h, bound) && h < |queue| && dist[queue[h]] < bound
    requires j < |adj[queue[h]]| && Looked(adj, dist, queue[h], j)
    ensures var w, d := adj[queue[h]][j], dist[queue[h]] + 1;
      && Searching(adj, s, LookDist(dist, w, d), LookQueue(dist, queue, w), h, bound)
      && Looked(adj, LookDist(dist, w, d), queue[h], j + 1)
  {
    hide Tree, Front, Looked;
    Basics(adj, s, dist, queue, h, bound);
    var w := adj[queue[h]][j];
    if w < |adj| && dist[w] == USIZE_MAX {
      LookNew(adj, s, dist, queue, h, bound, j);
    } else {
      LookOld(adj, s, dist, queue, h, bound, j);
    }
  }

  method Look(distance: array<nat>, queue: seq<nat>, w: nat, d: nat) returns (queue': seq<nat>)
    modifies distance
    ensures distance[..] == LookDist(old(distance[..]), w, d) && queue' == LookQueue(old(distance[..]), queue, w)
  {
    queue' := queue;
    if w < distance.Length && distance[w] == USIZE_MAX {
      distance[w] := d;
      queue' := queue + [w];
    }
  }

  method Entry(g: Csr, ghost adj: Adj, u: nat, j: nat) returns (w: nat)
    requires g.Valid() && adj == Lists(g) && u < |adj| && j < |adj[u]|
    ensures w == adj[u][j]
  {
    w := g.Target(u, j);
  }

  lemma LookKeeps(dist: seq<nat>, queue: seq<nat>, u: nat, w: nat, d: nat)
    requires u < |dist| && dist[u] != USIZE_MAX
    ensures var dist' := LookDist(dist, w, d);
      && |dist'| == |dist| && dist'[u] == dist[u] && queue <= LookQueue(dist, queue, w)
      && forall v | 0 <= v < |dist| && dist[v] != USIZE_MAX :: dist'[v] == dist[v]
  {
  }

  /** Expands the `h`-th node of the queue. */
  method Expand(g: Csr, distance: array<nat>, queue0: seq<nat>, h: nat, ghost adj: Adj, ghost s: nat, ghost bound: nat)
      returns (queue: seq<nat>)
    requires g.Valid() && adj == Lists(g) && h < |queue0|
    requires Searching(adj, s, distance[..], queue0, h, bound) && distance[queue0[h]] < bound
    modifies distance
    ensures Searching(adj, s, distance[..], queue, h + 1, bound) && queue0 <= queue
    ensures forall v | 0 <= v < distance.Length && old(distance[v]) != USIZE_MAX :: distance[v] == old(distance[v])
  {
    hide Searching, Looked, LookDist, LookQueue;
    Basics(adj, s, distance[..], queue0, h, bound);
    queue := queue0;
    var u := queue[h];
    var nextDist, deg := distance[u] + 1, g.Degree(u);
    for j := 0 to deg
      invariant Searching(adj, s, distance[..], queue, h, bound) && queue0 <= queue
      invariant Looked(adj, distance[..], u, j) && distance[u] + 1 == nextDist
      invariant forall v | 0 <= v < distance.Length && old(distance[v]) != USIZE_MAX :: distance[v] == old(distance[v])
    {
      Basics(adj, s, distance[..], queue, h, bound);
      LookNext(adj, s, distance[..], queue, h, bound, j);
      var w := Entry(g, adj, u, j);
      ghost var before := distance[..];
      LookKeeps(before, queue, u, w, nextDist);
      queue := Look(distance, queue, w, nextDist);
      assert forall v | 0 <= v < distance.Length :: distance[v] == distance[..][v];
    }
    NextFront(adj, s, distance[..], queue, h, bound);
  }

  /** Runs the search to the end of its queue. */
  method Search(g: Csr, source: nat, distance: array<nat>, ghost adj: Adj) returns (queue: seq<nat>)
    requires g.Valid() && adj == Lists(g) && source < |adj| == distance.Length
    requires forall v | 0 <= v < distance.Length :: distance[v] == USIZE_MAX
    modifies distance
    ensures Searching(adj, source, distance[..], queue, |queue|, USIZE_MAX)
  {
    hide Searching;
    Start(adj, source, distance[..], USIZE_MAX);
    distance[source] := 0;
    queue := [source];
    var head := 0;
    while head < |queue|
      invariant Searching(adj, source, distance[..], queue, head, USIZE_MAX)
      decreases |adj| - head
    {
      Basics(adj, source, distance[..], queue, head, USIZE_MAX);
      queue := Expand(g, distance, queue, head, adj, source, USIZE_MAX);
      head := head + 1;
      Basics(adj, source, distance[..], queue, head, USIZE_MAX);
    }
    Basics(adj, source, distance[..], queue, head, USIZE_MAX);
  }

  // ------------------------------------------------------------------ `bfs`

  /** Every discovered node but the source records the node it was discovered from. */
  ghost predicate ParentLinks(adj: Adj, s: nat, dist: seq<nat>, parent: seq<nat>) {
    && |parent| == |dist| == |adj|
    && forall v: nat | v < |adj| ::
         if Visited(dist, v) && v != s then Precedes(adj, dist, parent[v], v) else parent[v] == USIZE_MAX
  }

  lemma LinkNew(adj: Adj, s: nat, dist: seq<nat>, parent: seq<nat>, u: nat, w: nat)
    requires ParentLinks(adj, s, dist, parent) && Visited(dist, u) && !Visited(dist, w) && Edge(adj, u, w)
    requires w != s && dist[u] + 1 < USIZE_MAX
    ensures ParentLinks(adj, s, dist[w := dist[u] + 1], parent[w := u])
  {
    var dist', parent' := dist[w := dist[u] + 1], parent[w := u];
    forall v: nat | v < |adj|
      ensures if Visited(dist', v) && v != s then Precedes(adj, dist', parent'[v], v) else parent'[v] == USIZE_MAX
    {
      if v == w {
        assert Precedes(adj, dist', u, w);
      } else if Visited(dist, v) && v != s {
        assert Precedes(adj, dist, parent[v], v);
      }
    }
  }

  function LookParent(dist: seq<nat>, parent: seq<nat>, u: nat, w: nat): seq<nat>
    requires |parent| == |dist|
  {
    if w < |dist| && dist[w] == USIZE_MAX then parent[w := u] else parent
  }

  /** Looking at an entry keeps the links, and what is known of the node at hand. */
  lemma LinkNext(adj: Adj, s: nat, dist: seq<nat>, parent: seq<nat>, queue: seq<nat>, h: nat, j: nat)
    requires Searching(adj, s, dist, queue, h, USIZE_MAX) && ParentLinks(adj, s, dist, parent)
    requires h < |queue| && j < |adj[queue[h]]|
    ensures |parent| == |dist|
    ensures var u, w := queue[h], adj[queue[h]][j]; var dist' := LookDist(dist, w, dist[u] + 1);
      && ParentLinks(adj, s, dist', LookParent(dist, parent, u, w))
      && |dist'| == |dist| && dist'[u] == dist[u] && queue <= LookQueue(dist, queue, w)
  {
    hide ParentLinks, Searching;
    Basics(adj, s, dist, queue, h, USIZE_MAX);
    LinkedLength(adj, s, dist, parent);
    var u, w := queue[h], adj[queue[h]][j];
    if w < |dist| && dist[w] == USIZE_MAX {
      assert Edge(adj, u, w);
      SourceSeen(adj, s, dist, queue, h, USIZE_MAX);
      LinkNew(adj, s, dist, parent, u, w);
    }
  }

  method LookLinked(distance: array<nat>, parent: array<nat>, queue: seq<nat>, u: nat, w: nat, d: nat)
      returns (queue': seq<nat>)
    requires distance != parent && distance.Length == parent.Length
    modifies distance, parent
    ensures distance[..] == LookDist(old(distance[..]), w, d) && queue' == LookQueue(old(distance[..]), queue, w)
    ensures parent[..] == LookParent(old(distance[..]), old(parent[..]), u, w)
  {
    if w < distance.Length && distance[w] == USIZE_MAX {
      parent[w] := u;
    }
    queue' := Look(distance, queue, w, d);
  }

  /** Expands the `h`-th node of the queue, recording parents. */
  method ExpandLinked(g: Csr, distance: array<nat>, parent: array<nat>, queue0: seq<nat>, h: nat, ghost adj: Adj,
                      ghost s: nat)
      returns (queue: seq<nat>)
    requires g.Valid() && adj == Lists(g) && h < |queue0| && distance != parent
    requires Searching(adj, s, distance[..], queue0, h, USIZE_MAX) && ParentLinks(adj, s, distance[..], parent[..])
    modifies distance, parent
    ensures Searching(adj, s, distance[..], queue, h + 1, USIZE_MAX) && ParentLinks(adj, s, distance[..], parent[..])
  {
    hide Searching, Looked, ParentLinks, LookDist, LookQueue, LookParent;
    Basics(adj, s, distance[..], queue0, h, USIZE_MAX);
    LinkedLength(adj, s, distance[..], parent[..]);
    queue := queue0;
    var u := queue[h];
    var nextDist, deg := distance[u] + 1, g.Degree(u);
    for j := 0 to deg
      invariant Searching(adj, s, distance[..], queue, h, USIZE_MAX) && queue0 <= queue
      invariant Looked(adj, distance[..], u, j) && distance[u] + 1 == nextDist < USIZE_MAX
      invariant ParentLinks(adj, s, distance[..], parent[..])
    {
      var neighbor := Entry(g, adj, u, j);
      LookNext(adj, s, distance[..], queue, h, USIZE_MAX, j);
      LinkNext(adj, s, distance[..], parent[..], queue, h, j);
      queue := LookLinked(distance, parent, queue, u, neighbor, nextDist);
      assert distance[u] == distance[..][u];
    }
    NextFront(adj, s, distance[..], queue, h, USIZE_MAX);
  }

  lemma LinkedLength(adj: Adj, s: nat, dist: seq<nat>, parent: seq<nat>)
    requires ParentLinks(adj, s, dist, parent)
    ensures |parent| == |dist| == |adj|
  {
  }

  lemma SourceSeen(adj: Adj, s: nat, dist: seq<nat>, queue: seq<nat>, h: nat, bound: nat)
    requires Searching(adj, s, dist, queue, h, bound)
    ensures s < |dist| && dist[s] == 0
  {
  }

  /** What `bfs` promises: hop distances, and links one hop closer to the source. */
  ghost predicate ShortestPathTree(adj: Adj, s: nat, distance: seq<Option<nat>>, parent: seq<Option<nat>>) {
    && |distance| == |parent| == |adj|
    && (forall v: nat | v < |adj| && distance[v].None? :: !Reach(adj, s, v) && parent[v].None?)
    && (forall v: nat | v < |adj| && distance[v].Some? :: HopDist(adj, s, v, distance[v].value))
    && (forall v: nat | v < |adj| && distance[v].Some? && parent[v].None? :: v == s)
    && (forall v: nat | v < |adj| && parent[v].Some? ::
          var u := parent[v].value; v != s && Edge(adj, u, v) && distance[v] == Some(Hops(distance, u) + 1))
  }

  ghost function Hops(distance: seq<Option<nat>>, u: nat): int {
    if u < |distance| && distance[u].Some? then distance[u].value else -1
  }

  function Unsentinel(a: seq<nat>): (r: seq<Option<nat>>) {
    seq(|a|, i requires 0 <= i < |a| => if a[i] == USIZE_MAX then None else Some(a[i]))
  }

  /** With a bound that does not bind, the visited nodes are the reachable ones. */
  lemma Reached(adj: Adj, s: nat, dist: seq<nat>, v: nat)
    requires |adj| < USIZE_MAX && Exact(adj, s, dist, USIZE_MAX) && v < |adj|
    ensures Visited(dist, v) <==> Reach(adj, s, v)
    ensures Visited(dist, v) ==> HopDist(adj, s, v, dist[v])
  {
  }

  lemma TreeResult(adj: Adj, s: nat, dist: seq<nat>, parent: seq<nat>)
    requires s < |adj| && |adj| < USIZE_MAX && Exact(adj, s, dist, USIZE_MAX) && ParentLinks(adj, s, dist, parent)
    ensures ShortestPathTree(adj, s, Unsentinel(dist), Unsentinel(parent))
  {
    hide Exact, HopDist, Reach;
    assert |dist| == |adj|;
    var distance, links := Unsentinel(dist), Unsentinel(parent);
    forall v: nat | v < |adj|
      ensures distance[v].Some? <==> Reach(adj, s, v)
      ensures distance[v].Some? ==> HopDist(adj, s, v, distance[v].value)
    {
      Reached(adj, s, dist, v);
    }
    forall v: nat | v < |adj| && distance[v].Some? && v != s
      ensures links[v].Some? && Edge(adj, links[v].value, v) && distance[v] == Some(Hops(distance, links[v].value) + 1)
    {
      assert Precedes(adj, dist, parent[v], v);
    }
  }

  /** `bfs` (and the identical `shortest_path_bfs`) */
  method BreadthFirst(g: Csr, source: nat) returns (distance: seq<Option<nat>>, parent: seq<Option<nat>>)
    requires g.Valid()
    ensures source < g.NumNodes() ==> ShortestPathTree(Lists(g), source, distance, parent)
    ensures source >= g.NumNodes() ==> distance == parent == seq(g.NumNodes(), _ => None)
  {
    hide Searching, ParentLinks;
    var n := g.NumNodes();
    if n == 0 || source >= n {
      return seq(n, _ => None), seq(n, _ => None);
    }
    ghost var adj := Lists(g);
    var dist := new nat[n](_ => USIZE_MAX);
    var link := new nat[n](_ => USIZE_MAX);
    Start(adj, source, dist[..], USIZE_MAX);
    StartLinks(adj, source, dist[..], link[..]);
    dist[source] := 0;
    var queue, head := [source], 0;
    while head < |queue|
      invariant Searching(adj, source, dist[..], queue, head, USIZE_MAX) && ParentLinks(adj, source, dist[..], link[..])
      decreases n - head
    {
      queue := ExpandLinked(g, dist, link, queue, head, adj, source);
      head := head + 1;
      Basics(adj, source, dist[..], queue, head, USIZE_MAX);
    }
    Basics(adj, source, dist[..], queue, head, USIZE_MAX);
    Exhausted(adj, source, dist[..], queue, USIZE_MAX);
    TreeResult(adj, source, dist[..], link[..]);
    distance, parent := Unsentinel(dist[..]), Unsentinel(link[..]);
  }

  lemma StartLinks(adj: Adj, s: nat, dist: seq<nat>, parent: seq<nat>)
    requires s < |adj| == |dist| == |parent| && forall v | 0 <= v < |adj| :: dist[v] == parent[v] == USIZE_MAX
    ensures ParentLinks(adj, s, dist[s := 0], parent)
  {
  }

  // ------------------------------------------------------------------ `shortest_path`

  /** Looks at the entries of the node at hand; stops at the target. */
  method ExpandUntil(g: Csr, target: nat, distance: array<nat>, queue0: seq<nat>, h: nat, ghost adj: Adj, ghost s: nat)
      returns (queue: seq<nat>, found: bool)
    requires g.Valid() && adj == Lists(g) && h < |queue0| && target < |adj|
    requires Searching(adj, s, distance[..], queue0, h, USIZE_MAX) && distance[target] == USIZE_MAX
    modifies distance
    ensures found ==> HopDist(adj, s, target, old(distance[queue0[h]]) + 1)
    ensures !found ==> Searching(adj, s, distance[..], queue, h + 1, USIZE_MAX) && distance[target] == USIZE_MAX
  {
    hide Searching, Looked;
    found := false;
    Basics(adj, s, distance[..], queue0, h, USIZE_MAX);
    queue := queue0;
    var u := queue[h];
    var nextDist, deg := distance[u] + 1, g.Degree(u);
    for j := 0 to deg
      invariant Searching(adj, s, distance[..], queue, h, USIZE_MAX) && queue0 <= queue
      invariant Looked(adj, distance[..], u, j) && distance[u] + 1 == nextDist
      invariant distance[target] == USIZE_MAX
    {
      var neighbor := Entry(g, adj, u, j);
      Basics(adj, s, distance[..], queue, h, USIZE_MAX);
      LookNext(adj, s, distance[..], queue, h, USIZE_MAX, j);
      if neighbor == target {
        FoundTarget(adj, s, distance[..], queue, h, target);
        found := true;
        return;
      }
      queue := Look(distance, queue, neighbor, nextDist);
    }
    NextFront(adj, s, distance[..], queue, h, USIZE_MAX);
  }

  /** An unvisited neighbour of the node at hand is one hop further than it. */
  lemma FoundTarget(adj: Adj, s: nat, dist: seq<nat>, queue: seq<nat>, h: nat, w: nat)
    requires Searching(adj, s, dist, queue, h, USIZE_MAX) && h < |queue| && !Visited(dist, w) && Edge(adj, queue[h], w)
    ensures HopDist(adj, s, w, dist[queue[h]] + 1)
  {
    Beyond(adj, s, dist, queue, h, w);
    var p := TreePath(adj, s, dist, queue, queue[h]);
    var q := p + [w];
    forall k | 0 < k < |q| ensures Hop(adj, q, k) {
      assert k < |p| ==> Hop(adj, p, k);
    }
    assert Joins(adj, q, s, w);
  }

  /** `shortest_path` */
  method ShortestPath(g: Csr, source: nat, target: nat) returns (r: Option<nat>)
    requires g.Valid()
    ensures source < g.NumNodes() && target < g.NumNodes() ==>
      if r.Some? then HopDist(Lists(g), source, target, r.value) else !Reach(Lists(g), source, target)
    ensures !(source < g.NumNodes() && target < g.NumNodes()) ==> r == None
  {
    hide Searching;
    var n := g.NumNodes();
    if n == 0 || source >= n || target >= n {
      return None;
    }
    ghost var adj := Lists(g);
    if source == target {
      assert Joins(adj, [source], source, source);
      return Some(0);
    }
    var distance := new nat[n](_ => USIZE_MAX);
    Start(adj, source, distance[..], USIZE_MAX);
    distance[source] := 0;
    var queue, head := [source], 0;
    while head < |queue|
      invariant Searching(adj, source, distance[..], queue, head, USIZE_MAX) && distance[target] == USIZE_MAX
      decreases n - head
    {
      Basics(adj, source, distance[..], queue, head, USIZE_MAX);
      var nextDist := distance[queue[head]] + 1;
      var found;
      queue, found := ExpandUntil(g, target, distance, queue, head, adj, source);
      if found {
        return Some(nextDist);
      }
      head := head + 1;
      Basics(adj, source, distance[..], queue, head, USIZE_MAX);
    }
    Basics(adj, source, distance[..], queue, head, USIZE_MAX);
    Exhausted(adj, source, distance[..], queue, USIZE_MAX);
    return None;
  }

  // ------------------------------------------------------------------ `reachable_within`

  /** `reachable_within` */
  method ReachableWithin(g: Csr, source: nat, maxDist: nat) returns (nodes: seq<nat>)
    requires g.Valid()
    ensures Distinct(nodes)
    ensures forall v: nat :: v in nodes <==>
      source < g.NumNodes() && v < g.NumNodes() && exists d: nat :: d <= maxDist && HopDist(Lists(g), source, v, d)
  {
    hide Searching;
    var n := g.NumNodes();
    if n == 0 || source >= n {
      return [];
    }
    ghost var adj := Lists(g);
    var distance := new nat[n](_ => USIZE_MAX);
    Start(adj, source, distance[..], maxDist);
    distance[source] := 0;
    var queue, head := [source], 0;
    while head < |queue|
      invariant Searching(adj, source, distance[..], queue, head, maxDist)
      decreases n - head
    {
      Basics(adj, source, distance[..], queue, head, maxDist);
      if distance[queue[head]] >= maxDist {
        NextFront(adj, source, distance[..], queue, head, maxDist);
      } else {
        queue := Expand(g, distance, queue, head, adj, source, maxDist);
      }
      head := head + 1;
      Basics(adj, source, distance[..], queue, head, maxDist);
    }
    Basics(adj, source, distance[..], queue, head, maxDist);
    Exhausted(adj, source, distance[..], queue, maxDist);
    WithinResult(adj, source, distance[..], queue, maxDist);
    return queue;
  }

  lemma WithinResult(adj: Adj, s: nat, dist: seq<nat>, queue: seq<nat>, bound: nat)
    requires Searching(adj, s, dist, queue, |queue|, bound) && Exact(adj, s, dist, bound)
    ensures Distinct(queue)
    ensures forall v: nat :: v in queue <==> v < |adj| && exists d: nat :: d <= bound && HopDist(adj, s, v, d)
  {
    forall v: nat ensures v in queue <==> v < |adj| && exists d: nat :: d <= bound && HopDist(adj, s, v, d) {
      if v in queue {
        assert Visited(dist, v);
      }
    }
  }

  // ------------------------------------------------------------------ the searches agree

  /** The early exit returns what the full search finds at the target. */
  lemma EarlyExitAgrees(adj: Adj, s: nat, t: nat, r: Option<nat>, distance: seq<Option<nat>>, parent: seq<Option<nat>>)
    requires ShortestPathTree(adj, s, distance, parent) && t < |adj|
    requires if r.Some? then HopDist(adj, s, t, r.value) else !Reach(adj, s, t)
    ensures r == distance[t]
  {
    if r.Some? {
      var p :| Joins(adj, p, s, t) && |p| == r.value + 1;
      assert Reach(adj, s, t);
    }
  }

  /** The bounded search lists the nodes that the full search finds within the bound. */
  lemma BoundedAgrees(adj: Adj, s: nat, bound: nat, nodes: seq<nat>, distance: seq<Option<nat>>,
                      parent: seq<Option<nat>>, v: nat)
    requires ShortestPathTree(adj, s, distance, parent) && v < |adj|
    requires v in nodes <==> exists d: nat :: d <= bound && HopDist(adj, s, v, d)
    ensures v in nodes <==> distance[v].Some? && distance[v].value <= bound
  {
    if d: nat :| d <= bound && HopDist(adj, s, v, d) {
      var p :| Joins(adj, p, s, v) && |p| == d + 1;
      assert Reach(adj, s, v);
    }
  }
}
