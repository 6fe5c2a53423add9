/** Brandes' algorithm (akar-algo `compute_betweenness_centrality`). */
module Brandes {
  import opened Graphs
  import opened ListSums
  import opened Buckets
  import opened Sums
  import opened Walks
  import opened Betweenness
  import Bfs

  // ------------------------------------------------------------------ counting paths

  ghost predicate InRange(dist: seq<int>) {
    forall v | 0 <= v < |dist| :: -1 <= dist[v] < USIZE_MAX
  }

  /** `dist`, with the sentinel -1 of this search replaced by `usize::MAX`. */
  ghost function Unsigned(dist: seq<int>): (r: seq<nat>)
    requires InRange(dist)
  {
    seq(|dist|, v requires 0 <= v < |dist| => if dist[v] < 0 then USIZE_MAX else dist[v])
  }

  /** `w` is one hop beyond `v`. */
  predicate Follows(dist: seq<int>, v: nat, w: nat) {
    v < |dist| && w < |dist| && dist[v] >= 0 && dist[w] == dist[v] + 1
  }

  /** `pred[w]` lists, once per entry looked at, the nodes `w` follows. */
  ghost predicate PredOk(adj: Adj, dist: seq<int>, cur: seq<nat>, pred: seq<seq<nat>>) {
    && |pred| == |dist| == |cur| == |adj|
    && (forall v: nat | v < |adj| :: cur[v] <= |adj[v]|)
    && (forall w: nat, i | w < |adj| && 0 <= i < |pred[w]| :: pred[w][i] < |adj|)
    && forall v: nat, w: nat | v < |adj| && w < |adj| ::
         Count(pred[w], v) == if Follows(dist, v, w) then Count(adj[v][..cur[v]], w) else 0
  }

  ghost function Base(s: nat, w: nat): real {
    if w == s then 1.0 else 0.0
  }

  /** The sum of `f` over the nodes listed in `list`, with repetition. */
  ghost function ListSum(list: seq<nat>, f: seq<real>): real {
    EntrySum(list, |f|, At(f))
  }

  /** Every count is made of the counts of the predecessors. */
  ghost predicate SigmaOk(s: nat, pred: seq<seq<nat>>, sigma: seq<real>) {
    && |sigma| == |pred|
    && forall w: nat | w < |pred| :: sigma[w] == Base(s, w) + ListSum(pred[w], sigma)
  }

  lemma ListSumPush(list: seq<nat>, f: seq<real>, v: nat)
    requires v < |f|
    ensures ListSum(list + [v], f) == ListSum(list, f) + f[v]
  {
    EntrySumNext(list + [v], |list|, |f|, At(f));
    assert (list + [v])[..|list|] == list && (list + [v])[..|list| + 1] == list + [v];
  }

  /** A list sum does not see nodes that are not listed. */
  lemma ListSumFrame(list: seq<nat>, f: seq<real>, x: nat, r: real)
    requires x < |f| && Count(list, x) == 0
    ensures ListSum(list, f[x := r]) == ListSum(list, f)
  {
    CountMember(list, x);
    EntrySumSame(list, |f|, At(f), At(f[x := r]));
  }

  /** A list sum, node by node. */
  lemma ListSumNodes(list: seq<nat>, f: seq<real>, g: int -> real)
    requires forall v | 0 <= v < |f| :: g(v) == Count(list, v) as real * f[v]
    ensures ListSum(list, f) == Sum(|f|, g)
  {
    hide Sum, EntrySum, Count;
    EntrySumNodes(list, |f|, At(f), g);
  }

  /** One entry that leads one hop further has been looked at. */
  lemma CountEntry(s: nat, pred: seq<seq<nat>>, sigma: seq<real>, v: nat, w: nat)
    requires SigmaOk(s, pred, sigma) && v < |pred| && w < |pred| && v != w
    requires forall x: nat | x < |pred| :: Count(pred[x], w) == 0
    ensures SigmaOk(s, pred[w := pred[w] + [v]], sigma[w := sigma[w] + sigma[v]])
  {
    var pred', sigma' := pred[w := pred[w] + [v]], sigma[w := sigma[w] + sigma[v]];
    forall x: nat | x < |pred| ensures sigma'[x] == Base(s, x) + ListSum(pred'[x], sigma') {
      ListSumFrame(pred[x], sigma, w, sigma'[w]);
      if x == w {
        ListSumPush(pred[w], sigma', v);
      }
    }
  }

  lemma PredEntry(adj: Adj, dist: seq<int>, cur: seq<nat>, pred: seq<seq<nat>>, v: nat)
    requires PredOk(adj, dist, cur, pred) && v < |adj| && cur[v] < |adj[v]|
    ensures var w := adj[v][cur[v]];
      PredOk(adj, dist, cur[v := cur[v] + 1], if Follows(dist, v, w) then pred[w := pred[w] + [v]] else pred)
  {
    hide Count;
    var w, cur' := adj[v][cur[v]], cur[v := cur[v] + 1];
    var pred' := if Follows(dist, v, w) then pred[w := pred[w] + [v]] else pred;
    forall x: nat, y: nat | x < |adj| && y < |adj|
      ensures Count(pred'[y], x) == if Follows(dist, x, y) then Count(adj[x][..cur'[x]], y) else 0
    {
      EntryLooked(adj[v], cur[v], y);
      CountPush(pred[y], v, x);
    }
  }

  lemma EntryLooked(list: seq<nat>, i: nat, y: nat)
    requires i < |list|
    ensures Count(list[..i + 1], y) == Count(list[..i], y) + if list[i] == y then 1 else 0
  {
    Snoc(list, i);
    CountPush(list[..i], list[i], y);
  }

  /** Discovering `w` makes it follow nodes whose entries looked at miss it. */
  lemma PredDiscover(adj: Adj, dist: seq<int>, cur: seq<nat>, pred: seq<seq<nat>>, w: nat, d: nat)
    requires PredOk(adj, dist, cur, pred) && w < |adj| && dist[w] < 0 && cur[w] == 0
    requires forall v: nat | v < |adj| :: Count(adj[v][..cur[v]], w) == 0
    ensures PredOk(adj, dist[w := d], cur, pred)
  {
    var dist' := dist[w := d];
    forall v: nat, x: nat | v < |adj| && x < |adj|
      ensures Count(pred[x], v) == if Follows(dist', v, x) then Count(adj[v][..cur[v]], x) else 0
    {
      assert Count(pred[x], v) == if Follows(dist, v, x) then Count(adj[v][..cur[v]], x) else 0;
      if v == w {
        assert adj[v][..cur[v]] == [];
      }
    }
  }

  // ------------------------------------------------------------------ what the counts are

  ghost predicate AllLooked(adj: Adj, dist: seq<int>, cur: seq<nat>) {
    |cur| == |dist| == |adj| && forall v: nat | v < |adj| && dist[v] >= 0 :: cur[v] == |adj[v]|
  }

  /** With every entry looked at, a predecessor is listed once per entry. */
  ghost predicate PredFull(adj: Adj, dist: seq<int>, pred: seq<seq<nat>>) {
    && |pred| == |dist| == |adj|
    && (forall w: nat, i | w < |adj| && 0 <= i < |pred[w]| :: pred[w][i] < |adj|)
    && forall v: nat, w: nat | v < |adj| && w < |adj| ::
       Count(pred[w], v) == if Follows(dist, v, w) then Count(adj[v], w) else 0
  }

  lemma PredIsFull(adj: Adj, dist: seq<int>, cur: seq<nat>, pred: seq<seq<nat>>)
    requires PredOk(adj, dist, cur, pred) && AllLooked(adj, dist, cur)
    ensures PredFull(adj, dist, pred)
  {
    forall v: nat, w: nat | v < |adj| && w < |adj|
      ensures Count(pred[w], v) == if Follows(dist, v, w) then Count(adj[v], w) else 0
    {
      assert adj[v][..|adj[v]|] == adj[v];
    }
  }

  /** Off the shortest paths, a term of the count is zero. */
  lemma NotFollowing(adj: Adj, s: nat, dist: seq<int>, u: nat, w: nat)
    requires |dist| == |adj| && IsDist(adj, s, dist) && u < |adj| && w < |adj| && dist[w] >= 1 && !Follows(dist, u, w)
    ensures Number(adj, s, u, dist[w] - 1) * Mult(adj, u, w) == 0.0
  {
    hide Number, Mult, Hops;
    var k := dist[w] - 1;
    if Number(adj, s, u, k) > 0.0 && Mult(adj, u, w) > 0.0 {
      StepNumber(adj, u, w);
      NumberJoin(adj, s, u, w, dist[u], 1);
      assert false;
    }
    assert Number(adj, s, u, k) == 0.0 || Mult(adj, u, w) == 0.0;
  }

  lemma FollowTerm(adj: Adj, s: nat, dist: seq<int>, pred: seq<seq<nat>>, sigma: seq<real>, u: nat, w: nat)
    requires |dist| == |adj| == |sigma| && IsDist(adj, s, dist) && PredFull(adj, dist, pred)
    requires u < |adj| && w < |adj| && dist[w] >= 1
    requires Follows(dist, u, w) ==> sigma[u] == Sigma(adj, s, dist, u)
    ensures Count(pred[w], u) as real * sigma[u] == Number(adj, s, u, dist[w] - 1) * Mult(adj, u, w)
  {
    hide IsDist, Number;
    if !Follows(dist, u, w) {
      NotFollowing(adj, s, dist, u, w);
    }
  }

  /** A node at distance 0 or none has no predecessors. */
  lemma NoPred(adj: Adj, dist: seq<int>, pred: seq<seq<nat>>, v: nat)
    requires PredFull(adj, dist, pred) && v < |adj| && dist[v] <= 0
    ensures pred[v] == []
  {
    if |pred[v]| > 0 {
      var x := pred[v][0];
      assert x < |adj| && !Follows(dist, x, v);
      CountMember(pred[v], x);
      assert false;
    }
  }

  lemma SourceSigma(adj: Adj, s: nat, dist: seq<int>, pred: seq<seq<nat>>, sigma: seq<real>, w: nat)
    requires |dist| == |adj| && IsDist(adj, s, dist) && PredFull(adj, dist, pred) && SigmaOk(s, pred, sigma)
    requires w < |adj| && dist[w] == 0
    ensures sigma[w] == Sigma(adj, s, dist, w)
  {
    OnlySource(adj, s, dist, w);
    NoPred(adj, dist, pred, w);
    hide IsDist, Sigma, PredFull;
  }

  lemma SigmaStep(adj: Adj, s: nat, dist: seq<int>, pred: seq<seq<nat>>, sigma: seq<real>, w: nat, g: int -> real)
    requires |dist| == |adj| && IsDist(adj, s, dist) && PredFull(adj, dist, pred) && |sigma| == |adj| == |pred|
    requires w < |adj| && dist[w] >= 1 && sigma[w] == ListSum(pred[w], sigma)
    requires forall u: nat | Follows(dist, u, w) :: sigma[u] == Sigma(adj, s, dist, u)
    requires forall v | 0 <= v < |sigma| :: g(v) == Count(pred[w], v) as real * sigma[v]
    ensures sigma[w] == Sigma(adj, s, dist, w)
  {
    hide IsDist, Number, Mult, Sum, Count, ListSum, PredFull;
    ListSumNodes(pred[w], sigma, g);
    forall u | 0 <= u < |adj| ensures g(u) == Number(adj, s, u, dist[w] - 1) * Mult(adj, u, w) {
      FollowTerm(adj, s, dist, pred, sigma, u, w);
    }
    NumberLast(adj, s, w, dist[w], g);
  }

  /** The counts are the numbers of shortest paths. */
  lemma {:induction false} SigmaIsNumber(adj: Adj, s: nat, dist: seq<int>, pred: seq<seq<nat>>, sigma: seq<real>,
                                         w: nat)
    requires |dist| == |adj| && IsDist(adj, s, dist) && PredFull(adj, dist, pred) && SigmaOk(s, pred, sigma)
    requires w < |adj| && dist[w] >= 0
    ensures |sigma| == |adj| && sigma[w] == Sigma(adj, s, dist, w)
    decreases dist[w]
  {
    hide IsDist, Sigma, ListSum, Count;
    if dist[w] == 0 {
      SourceSigma(adj, s, dist, pred, sigma, w);
    } else {
      SourceDist(adj, s, dist);
      forall u: nat | Follows(dist, u, w) ensures sigma[u] == Sigma(adj, s, dist, u) {
        SigmaIsNumber(adj, s, dist, pred, sigma, u);
      }
      SigmaStep(adj, s, dist, pred, sigma, w,
                (v: int) => if 0 <= v < |sigma| then Count(pred[w], v) as real * sigma[v] else 0.0);
    }
  }

  lemma OnlySource(adj: Adj, s: nat, dist: seq<int>, w: nat)
    requires |dist| == |adj| && IsDist(adj, s, dist) && w < |adj| && dist[w] == 0
    ensures w == s && Sigma(adj, s, dist, w) == 1.0
  {
    NumberZero(adj, s, w);
  }

  // ------------------------------------------------------------------ the forward search

  /** The search from `s` has expanded `h` nodes and looked at `j` entries of
      the next; `cur` counts the entries looked at, node by node. */
  ghost predicate Forward(adj: Adj, s: nat, dist: seq<int>, queue: seq<nat>, h: nat, cur: seq<nat>,
                          sigma: seq<real>, pred: seq<seq<nat>>) {
    && |dist| == |adj| == |cur| && InRange(dist)
    && Bfs.Searching(adj, s, Unsigned(dist), queue, h, USIZE_MAX)
    && PredOk(adj, dist, cur, pred) && SigmaOk(s, pred, sigma)
    && (forall i | 0 <= i < h && i < |queue| && queue[i] < |adj| :: cur[queue[i]] == |adj[queue[i]]|)
    && (forall i | h < i < |queue| && queue[i] < |adj| :: cur[queue[i]] == 0)
    && (forall v: nat | v < |adj| && dist[v] < 0 :: cur[v] == 0)
  }

  /** The next node of the queue has not been looked into. */
  ghost predicate Rested(queue: seq<nat>, h: nat, cur: seq<nat>) {
    h < |queue| ==> queue[h] < |cur| && cur[queue[h]] == 0
  }

  ghost predicate Looking(adj: Adj, s: nat, dist: seq<int>, queue: seq<nat>, h: nat, cur: seq<nat>,
                          sigma: seq<real>, pred: seq<seq<nat>>, j: nat) {
    && Forward(adj, s, dist, queue, h, cur, sigma, pred)
    && h < |queue| && queue[h] < |adj| && cur[queue[h]] == j
    && Bfs.Looked(adj, Unsigned(dist), queue[h], j)
  }

  /** No entry looked at leads to an unvisited node. */
  lemma LookedMiss(adj: Adj, s: nat, dist: seq<int>, queue: seq<nat>, h: nat, cur: seq<nat>,
                   sigma: seq<real>, pred: seq<seq<nat>>, j: nat, v: nat, w: nat)
    requires Looking(adj, s, dist, queue, h, cur, sigma, pred, j) && v < |adj| && w < |adj| && dist[w] < 0
    ensures Count(adj[v][..cur[v]], w) == 0
  {
    hide SigmaOk;
    var list, ud := adj[v][..cur[v]], Unsigned(dist);
    forall k | 0 <= k < |list| && list[k] < |adj| ensures dist[list[k]] >= 0 {
      assert Bfs.Visited(ud, v);
      var i :| 0 <= i < |queue| && queue[i] == v;
      assert i <= h && Bfs.Seen(adj, ud, queue[i], adj[queue[i]][k]);
    }
    CountMember(list, w);
  }

  /** The search state after an entry was looked at. */
  function NextDist(dist: seq<int>, w: nat, d: int): seq<int> {
    if w < |dist| && dist[w] < 0 then dist[w := d] else dist
  }

  function NextQueue(dist: seq<int>, queue: seq<nat>, w: nat): seq<nat> {
    if w < |dist| && dist[w] < 0 then queue + [w] else queue
  }

  function NextSigma(dist: seq<int>, sigma: seq<real>, v: nat, w: nat): seq<real>
    requires |sigma| == |dist|
  {
    if Follows(dist, v, w) then sigma[w := sigma[w] + sigma[v]] else sigma
  }

  function NextPred(dist: seq<int>, pred: seq<seq<nat>>, v: nat, w: nat): seq<seq<nat>>
    requires |pred| == |dist|
  {
    if Follows(dist, v, w) then pred[w := pred[w] + [v]] else pred
  }

  lemma UnsignedLook(dist: seq<int>, w: nat, d: nat)
    requires InRange(dist) && d < USIZE_MAX
    ensures InRange(NextDist(dist, w, d))
    ensures Unsigned(NextDist(dist, w, d)) == Bfs.LookDist(Unsigned(dist), w, d)
  {
  }

  lemma LookBasics(adj: Adj, s: nat, dist: seq<int>, queue: seq<nat>, h: nat, cur: seq<nat>,
                   sigma: seq<real>, pred: seq<seq<nat>>, j: nat)
    requires Looking(adj, s, dist, queue, h, cur, sigma, pred, j)
    ensures |dist| == |adj| == |cur| == |sigma| == |pred| && |queue| <= |adj| < USIZE_MAX
    ensures h < |queue| && queue[h] < |adj| && cur[queue[h]] == j && 0 <= dist[queue[h]] < |adj| && j <= |adj[queue[h]]|
    ensures InRange(dist)
    ensures Bfs.Searching(adj, s, Unsigned(dist), queue, h, USIZE_MAX) && Bfs.Looked(adj, Unsigned(dist), queue[h], j)
  {
    Bfs.Basics(adj, s, Unsigned(dist), queue, h, USIZE_MAX);
  }

  /** The breadth-first part of looking at an entry. */
  lemma LookSearch(adj: Adj, s: nat, dist: seq<int>, queue: seq<nat>, h: nat, cur: seq<nat>,
                   sigma: seq<real>, pred: seq<seq<nat>>, j: nat)
    requires Looking(adj, s, dist, queue, h, cur, sigma, pred, j) && j < |adj[queue[h]]|
    ensures var u := queue[h]; var w := adj[u][j];
      && InRange(NextDist(dist, w, dist[u] + 1))
      && Bfs.Searching(adj, s, Unsigned(NextDist(dist, w, dist[u] + 1)), NextQueue(dist, queue, w), h, USIZE_MAX)
      && Bfs.Looked(adj, Unsigned(NextDist(dist, w, dist[u] + 1)), u, j + 1)
  {
    hide Looking, Bfs.Searching, Bfs.Looked, InRange;
    LookBasics(adj, s, dist, queue, h, cur, sigma, pred, j);
    var u := queue[h];
    assert Unsigned(dist)[u] == dist[u];
    Bfs.LookNext(adj, s, Unsigned(dist), queue, h, USIZE_MAX, j);
    UnsignedLook(dist, adj[u][j], dist[u] + 1);
  }

  /** The counting part: first the target is discovered, then it is counted. */
  lemma LookPred(adj: Adj, s: nat, dist: seq<int>, queue: seq<nat>, h: nat, cur: seq<nat>,
                 sigma: seq<real>, pred: seq<seq<nat>>, j: nat)
    requires Looking(adj, s, dist, queue, h, cur, sigma, pred, j) && j < |adj[queue[h]]|
    ensures |dist| == |sigma| == |pred|
    ensures var u := queue[h]; var w := adj[u][j]; var dist' := NextDist(dist, w, dist[u] + 1);
      PredOk(adj, dist', cur[u := j + 1], NextPred(dist', pred, u, w))
  {
    hide PredOk, Looking, Forward, SigmaOk, InRange, Bfs.Searching, Bfs.Looked;
    LookBasics(adj, s, dist, queue, h, cur, sigma, pred, j);
    LookDiscover(adj, s, dist, queue, h, cur, sigma, pred, j);
    var u := queue[h];
    PredEntry(adj, NextDist(dist, adj[u][j], dist[u] + 1), cur, pred, u);
  }

  lemma SigmaFollow(adj: Adj, s: nat, dist: seq<int>, cur: seq<nat>, sigma: seq<real>, pred: seq<seq<nat>>, u: nat,
                    w: nat)
    requires PredOk(adj, dist, cur, pred) && SigmaOk(s, pred, sigma) && |sigma| == |dist| == |pred|
    requires Follows(dist, u, w) ==> cur[w] == 0 && u != w
    ensures SigmaOk(s, NextPred(dist, pred, u, w), NextSigma(dist, sigma, u, w))
  {
    if Follows(dist, u, w) {
      forall x: nat | x < |pred| ensures Count(pred[x], w) == 0 {
        NotListed(adj, dist, cur, pred, x, w);
      }
      CountEntry(s, pred, sigma, u, w);
    }
  }

  lemma LookSigma(adj: Adj, s: nat, dist: seq<int>, queue: seq<nat>, h: nat, cur: seq<nat>,
                  sigma: seq<real>, pred: seq<seq<nat>>, j: nat)
    requires Looking(adj, s, dist, queue, h, cur, sigma, pred, j) && j < |adj[queue[h]]|
    ensures |dist| == |sigma| == |pred|
    ensures var u := queue[h]; var w := adj[u][j]; var dist' := NextDist(dist, w, dist[u] + 1);
      SigmaOk(s, NextPred(dist', pred, u, w), NextSigma(dist', sigma, u, w))
  {
    assert SigmaOk(s, pred, sigma);
    hide PredOk, SigmaOk, Looking, Forward, InRange, NextPred, NextSigma, Bfs.Searching, Bfs.Looked;
    LookBasics(adj, s, dist, queue, h, cur, sigma, pred, j);
    LookDiscover(adj, s, dist, queue, h, cur, sigma, pred, j);
    FollowerFresh(adj, s, dist, queue, h, cur, sigma, pred, j);
    var u := queue[h];
    SigmaFollow(adj, s, NextDist(dist, adj[u][j], dist[u] + 1), cur, sigma, pred, u, adj[u][j]);
  }

  lemma LookDiscover(adj: Adj, s: nat, dist: seq<int>, queue: seq<nat>, h: nat, cur: seq<nat>,
                     sigma: seq<real>, pred: seq<seq<nat>>, j: nat)
    requires Looking(adj, s, dist, queue, h, cur, sigma, pred, j) && j < |adj[queue[h]]|
    ensures PredOk(adj, NextDist(dist, adj[queue[h]][j], dist[queue[h]] + 1), cur, pred)
  {
    LookBasics(adj, s, dist, queue, h, cur, sigma, pred, j);
    var w := adj[queue[h]][j];
    if w < |adj| && dist[w] < 0 {
      forall v: nat | v < |adj| ensures Count(adj[v][..cur[v]], w) == 0 {
        LookedMiss(adj, s, dist, queue, h, cur, sigma, pred, j, v, w);
      }
      PredDiscover(adj, dist, cur, pred, w, dist[queue[h]] + 1);
    }
  }

  lemma NotListed(adj: Adj, dist: seq<int>, cur: seq<nat>, pred: seq<seq<nat>>, x: nat, w: nat)
    requires PredOk(adj, dist, cur, pred) && x < |adj| && w < |adj| && cur[w] == 0
    ensures Count(pred[x], w) == 0
  {
    assert adj[w][..cur[w]] == [];
  }

  /** A node one hop beyond the node at hand has not been looked into. */
  lemma FollowerFresh(adj: Adj, s: nat, dist: seq<int>, queue: seq<nat>, h: nat, cur: seq<nat>,
                      sigma: seq<real>, pred: seq<seq<nat>>, j: nat)
    requires Looking(adj, s, dist, queue, h, cur, sigma, pred, j) && j < |adj[queue[h]]|
    ensures Follows(NextDist(dist, adj[queue[h]][j], dist[queue[h]] + 1), queue[h], adj[queue[h]][j]) ==>
      cur[adj[queue[h]][j]] == 0 && adj[queue[h]][j] != queue[h]
  {
    hide PredOk, SigmaOk;
    var u := queue[h];
    var w := adj[u][j];
    if Follows(NextDist(dist, w, dist[u] + 1), u, w) && dist[w] >= 0 {
      assert Bfs.Visited(Unsigned(dist), w);
      var i :| 0 <= i < |queue| && queue[i] == w;
      assert Unsigned(dist)[queue[i]] > Unsigned(dist)[queue[h]];
      assert i > h;
    }
  }

  /** Looking at an entry keeps the search on course. */
  lemma LookKeeps(adj: Adj, s: nat, dist: seq<int>, queue: seq<nat>, h: nat, cur: seq<nat>,
                  sigma: seq<real>, pred: seq<seq<nat>>, j: nat)
    requires Looking(adj, s, dist, queue, h, cur, sigma, pred, j) && j < |adj[queue[h]]|
    ensures |dist| == |sigma| == |pred|
    ensures var u := queue[h]; var w := adj[u][j]; var dist' := NextDist(dist, w, dist[u] + 1);
      Looking(adj, s, dist', NextQueue(dist, queue, w), h, cur[u := j + 1], NextSigma(dist', sigma, u, w),
              NextPred(dist', pred, u, w), j + 1)
  {
    hide PredOk, SigmaOk, Bfs.Searching, Bfs.Looked, InRange, NextPred, NextSigma, NextDist, NextQueue;
    LookPred(adj, s, dist, queue, h, cur, sigma, pred, j);
    LookSigma(adj, s, dist, queue, h, cur, sigma, pred, j);
    LookSearch(adj, s, dist, queue, h, cur, sigma, pred, j);
    LookCursor(adj, s, dist, queue, h, cur, sigma, pred, j);
  }

  lemma LookCursor(adj: Adj, s: nat, dist: seq<int>, queue: seq<nat>, h: nat, cur: seq<nat>,
                   sigma: seq<real>, pred: seq<seq<nat>>, j: nat)
    requires Looking(adj, s, dist, queue, h, cur, sigma, pred, j) && j < |adj[queue[h]]|
    ensures var u := queue[h]; var w := adj[u][j];
      var dist', queue', cur' := NextDist(dist, w, dist[u] + 1), NextQueue(dist, queue, w), cur[u := j + 1];
      && |queue'| >= |queue| && queue'[h] == u && |dist'| == |dist|
      && (forall i | 0 <= i < h && queue'[i] < |adj| :: cur'[queue'[i]] == |adj[queue'[i]]|)
      && (forall i | h < i < |queue'| && queue'[i] < |adj| :: cur'[queue'[i]] == 0)
      && (forall v: nat | v < |adj| && dist'[v] < 0 :: cur'[v] == 0)
  {
    hide PredOk, SigmaOk, Bfs.Searching, Bfs.Looked, InRange, Unsigned;
    LookBasics(adj, s, dist, queue, h, cur, sigma, pred, j);
    QueueOnce(adj, s, Unsigned(dist), queue, h);
  }

  lemma QueueOnce(adj: Adj, s: nat, dist: seq<nat>, queue: seq<nat>, h: nat)
    requires Bfs.Searching(adj, s, dist, queue, h, USIZE_MAX)
    ensures Distinct(queue)
  {
  }

  // ------------------------------------------------------------------ the forward methods

  /** Looks at one entry of `v`. */
  method LookAt(dist: array<int>, sigma: array<real>, pred: array<seq<nat>>, queue: seq<nat>, v: nat, w: nat,
                distV: int, sigmaV: real)
      returns (queue': seq<nat>)
    requires dist.Length == sigma.Length == pred.Length && v < dist.Length
    requires dist[v] == distV >= 0 && sigma[v] == sigmaV
    modifies dist, sigma, pred
    ensures var d := old(dist[..]); var d' := NextDist(d, w, distV + 1);
      && dist[..] == d' && queue' == NextQueue(d, queue, w)
      && sigma[..] == NextSigma(d', old(sigma[..]), v, w) && pred[..] == NextPred(d', old(pred[..]), v, w)
  {
    queue' := queue;
    if w < dist.Length {
      if dist[w] < 0 {
        dist[w] := distV + 1;
        queue' := queue + [w];
      }
      if dist[w] == distV + 1 {
        sigma[w] := sigma[w] + sigmaV;
        pred[w] := pred[w] + [v];
      }
    }
  }

  /** What looking at an entry of the node at hand leaves alone. */
  lemma LookFixed(dist: seq<int>, queue: seq<nat>, sigma: seq<real>, pred: seq<seq<nat>>, h: nat, u: nat, w: nat)
    requires |dist| == |sigma| == |pred| && h < |queue| && queue[h] == u < |dist| && dist[u] >= 0
    ensures var dist' := NextDist(dist, w, dist[u] + 1);
      && |dist'| == |dist| && dist'[u] == dist[u]
      && |NextSigma(dist', sigma, u, w)| == |sigma| && NextSigma(dist', sigma, u, w)[u] == sigma[u]
      && |NextPred(dist', pred, u, w)| == |pred|
      && |NextQueue(dist, queue, w)| > h && NextQueue(dist, queue, w)[h] == u && queue <= NextQueue(dist, queue, w)
  {
  }

  /** Expands the `h`-th node of the queue. */
  method Expand(g: Csr, dist: array<int>, sigma: array<real>, pred: array<seq<nat>>, queue0: seq<nat>, h: nat,
                ghost adj: Adj, ghost s: nat, ghost cur0: seq<nat>)
      returns (queue: seq<nat>, ghost cur: seq<nat>)
    requires g.Valid() && adj == Lists(g)
    requires Looking(adj, s, dist[..], queue0, h, cur0, sigma[..], pred[..], 0)
    modifies dist, sigma, pred
    ensures Forward(adj, s, dist[..], queue, h + 1, cur, sigma[..], pred[..]) && Rested(queue, h + 1, cur)
    ensures queue0 <= queue
  {
    hide Rested, Looking, Forward, NextDist, NextSigma, NextPred, NextQueue, InRange, Bfs.Searching, Bfs.Looked;
    LookBasics(adj, s, dist[..], queue0, h, cur0, sigma[..], pred[..], 0);
    queue, cur := queue0, cur0;
    var v := queue[h];
    var distV, sigmaV, lo, hi := dist[v], sigma[v], g.offsets[v], g.offsets[v + 1];
    for e := lo to hi
      invariant Looking(adj, s, dist[..], queue, h, cur, sigma[..], pred[..], e - lo)
      invariant h < |queue| && queue[h] == v && dist[v] == distV && sigma[v] == sigmaV && queue0 <= queue
    {
      LookBasics(adj, s, dist[..], queue, h, cur, sigma[..], pred[..], e - lo);
      LookKeeps(adj, s, dist[..], queue, h, cur, sigma[..], pred[..], e - lo);
      var w := g.adjacency[e].1.offset;
      assert w == adj[v][e - lo];
      LookFixed(dist[..], queue, sigma[..], pred[..], h, v, w);
      queue := LookAt(dist, sigma, pred, queue, v, w, distV, sigmaV);
      cur := cur[v := e - lo + 1];
    }
    ExpandDone(adj, s, dist[..], queue, h, cur, sigma[..], pred[..]);
  }

  lemma ExpandDone(adj: Adj, s: nat, dist: seq<int>, queue: seq<nat>, h: nat, cur: seq<nat>, sigma: seq<real>,
                   pred: seq<seq<nat>>)
    requires h < |queue| && queue[h] < |adj| && Looking(adj, s, dist, queue, h, cur, sigma, pred, |adj[queue[h]]|)
    ensures Forward(adj, s, dist, queue, h + 1, cur, sigma, pred) && Rested(queue, h + 1, cur)
  {
    LookBasics(adj, s, dist, queue, h, cur, sigma, pred, |adj[queue[h]]|);
    hide PredOk, SigmaOk, Bfs.Searching, Bfs.Looked;
    Bfs.NextFront(adj, s, Unsigned(dist), queue, h, USIZE_MAX);
    Bfs.Basics(adj, s, Unsigned(dist), queue, h + 1, USIZE_MAX);
  }

  /** The next node of the queue can be expanded. */
  lemma ExpandNext(adj: Adj, s: nat, dist: seq<int>, queue: seq<nat>, h: nat, cur: seq<nat>, sigma: seq<real>,
                   pred: seq<seq<nat>>)
    requires Forward(adj, s, dist, queue, h, cur, sigma, pred) && Rested(queue, h, cur)
    ensures h <= |queue| <= |adj|
    ensures h < |queue| ==> Looking(adj, s, dist, queue, h, cur, sigma, pred, 0)
  {
    hide PredOk, SigmaOk, Bfs.Searching, Bfs.Looked;
    Bfs.Basics(adj, s, Unsigned(dist), queue, h, USIZE_MAX);
  }

  /** All buffers are at their defaults. */
  ghost predicate Clean(n: nat, dist: seq<int>, sigma: seq<real>, delta: seq<real>, pred: seq<seq<nat>>) {
    && |dist| == |sigma| == |delta| == |pred| == n
    && (forall v | 0 <= v < n :: dist[v] == -1 && sigma[v] == 0.0 && delta[v] == 0.0 && pred[v] == [])
  }

  lemma StartForward(adj: Adj, s: nat, dist: seq<int>, sigma: seq<real>, delta: seq<real>, pred: seq<seq<nat>>)
    requires s < |adj| < USIZE_MAX && Clean(|adj|, dist, sigma, delta, pred)
    ensures Forward(adj, s, dist[s := 0], [s], 0, seq(|adj|, _ => 0), sigma[s := 1.0], pred)
  {
    Bfs.Start(adj, s, Unsigned(dist), USIZE_MAX);
    assert Unsigned(dist[s := 0]) == Unsigned(dist)[s := 0];
    forall v: nat | v < |adj| ensures adj[v][..0] == [] {
    }
  }

  /** The forward search is over: distances, predecessors and path counts. */
  ghost predicate Counted(adj: Adj, s: nat, dist: seq<int>, queue: seq<nat>, sigma: seq<real>, pred: seq<seq<nat>>) {
    && |dist| == |adj| == |sigma| == |pred| && s < |adj|
    && IsDist(adj, s, dist) && PredFull(adj, dist, pred)
    && (forall v: nat | v < |adj| && dist[v] >= 0 :: sigma[v] == Sigma(adj, s, dist, v) > 0.0)
    && (forall v: nat | v < |adj| && dist[v] < 0 :: dist[v] == -1 && sigma[v] == 0.0 && pred[v] == [])
    && Distinct(queue) && (forall i | 0 <= i < |queue| :: queue[i] < |adj| && dist[queue[i]] >= 0)
    && (forall v: nat | v < |adj| && dist[v] >= 0 :: v in queue)
    && (forall i, j | 0 <= i <= j < |queue| :: dist[queue[i]] <= dist[queue[j]])
  }

  lemma DistIsDist(adj: Adj, s: nat, dist: seq<int>, queue: seq<nat>)
    requires |dist| == |adj| && InRange(dist) && Bfs.Searching(adj, s, Unsigned(dist), queue, |queue|, USIZE_MAX)
    ensures IsDist(adj, s, dist)
  {
    Bfs.Exhausted(adj, s, Unsigned(dist), queue, USIZE_MAX);
    forall v: nat | v < |adj|
      ensures dist[v] >= 0 ==> Number(adj, s, v, dist[v]) > 0.0
      ensures forall k: nat | Number(adj, s, v, k) > 0.0 :: 0 <= dist[v] <= k
      ensures dist[v] == Hops(adj, s, v)
    {
      DistAt(adj, s, dist, v);
    }
  }

  lemma DistAt(adj: Adj, s: nat, dist: seq<int>, v: nat)
    requires |dist| == |adj| < USIZE_MAX && InRange(dist) && s < |adj| && v < |adj|
    requires Bfs.Exact(adj, s, Unsigned(dist), USIZE_MAX)
    ensures dist[v] >= 0 ==> Number(adj, s, v, dist[v]) > 0.0
    ensures forall k: nat | Number(adj, s, v, k) > 0.0 :: 0 <= dist[v] <= k
    ensures dist[v] == Hops(adj, s, v)
  {
    Bfs.Reached(adj, s, Unsigned(dist), v);
    hide Bfs.Exact, Number;
    if dist[v] >= 0 {
      HopDistNumber(adj, s, v, dist[v]);
      forall d: nat | HopDist(adj, s, v, d) ensures d == dist[v] {
      }
    } else {
      forall k: nat ensures Number(adj, s, v, k) == 0.0 {
        UnreachedNumber(adj, s, v, k);
      }
      forall d: nat ensures !HopDist(adj, s, v, d) {
      }
    }
  }

  lemma UnvisitedClean(adj: Adj, s: nat, dist: seq<int>, pred: seq<seq<nat>>, sigma: seq<real>, v: nat)
    requires PredFull(adj, dist, pred) && SigmaOk(s, pred, sigma) && v < |adj| && dist[v] < 0 && v != s
    ensures pred[v] == [] && sigma[v] == 0.0
  {
    NoPred(adj, dist, pred, v);
  }

  lemma QueueFacts(adj: Adj, s: nat, dist: seq<int>, queue: seq<nat>)
    requires |dist| == |adj| && InRange(dist) && Bfs.Searching(adj, s, Unsigned(dist), queue, |queue|, USIZE_MAX)
    ensures Distinct(queue) && s < |adj| && dist[s] == 0
    ensures forall i | 0 <= i < |queue| :: queue[i] < |adj| && dist[queue[i]] >= 0
    ensures forall v: nat | v < |adj| && dist[v] >= 0 :: v in queue
    ensures forall i, j | 0 <= i <= j < |queue| :: dist[queue[i]] <= dist[queue[j]]
  {
    var ud := Unsigned(dist);
    forall v: nat | v < |adj| && dist[v] >= 0 ensures v in queue {
      assert Bfs.Visited(ud, v);
    }
    forall i | 0 <= i < |queue| ensures queue[i] < |adj| && dist[queue[i]] >= 0 {
      assert Bfs.Visited(ud, queue[i]);
    }
    forall i, j | 0 <= i <= j < |queue| ensures dist[queue[i]] <= dist[queue[j]] {
      assert i < j ==> ud[queue[i]] <= ud[queue[j]];
    }
  }

  lemma ForwardDone(adj: Adj, s: nat, dist: seq<int>, queue: seq<nat>, cur: seq<nat>, sigma: seq<real>,
                    pred: seq<seq<nat>>)
    requires Forward(adj, s, dist, queue, |queue|, cur, sigma, pred)
    ensures Counted(adj, s, dist, queue, sigma, pred)
  {
    QueueFacts(adj, s, dist, queue);
    DistIsDist(adj, s, dist, queue);
    hide Bfs.Searching, IsDist;
    forall v: nat | v < |adj| && dist[v] >= 0 ensures cur[v] == |adj[v]| {
      var i :| 0 <= i < |queue| && queue[i] == v;
    }
    PredIsFull(adj, dist, cur, pred);
    hide PredFull, PredOk, SigmaOk;
    SigmaSize(s, pred, sigma);
    forall v: nat | v < |adj| && dist[v] >= 0 ensures sigma[v] == Sigma(adj, s, dist, v) > 0.0 {
      SigmaIsNumber(adj, s, dist, pred, sigma, v);
      SigmaPositive(adj, s, dist, v);
    }
    forall v: nat | v < |adj| && dist[v] < 0 ensures dist[v] == -1 && sigma[v] == 0.0 && pred[v] == [] {
      UnvisitedClean(adj, s, dist, pred, sigma, v);
    }
  }

  lemma SigmaSize(s: nat, pred: seq<seq<nat>>, sigma: seq<real>)
    requires SigmaOk(s, pred, sigma)
    ensures |sigma| == |pred|
  {
  }

  // ------------------------------------------------------------------ accumulation

  /** What the popped successors of `v` hand down to it. */
  ghost function Part(adj: Adj, s: nat, dist: seq<int>, popped: set<nat>, v: nat, w: int): real
    requires |dist| == |adj| && v < |adj|
  {
    if 0 <= w && w in popped then Coef(adj, s, dist, v, w) * (1.0 + Dependency(adj, s, w)) else 0.0
  }

  ghost function Parts(adj: Adj, s: nat, dist: seq<int>, popped: set<nat>, v: nat): real
    requires |dist| == |adj| && v < |adj|
  {
    Sum(|adj|, w => Part(adj, s, dist, popped, v, w))
  }

  /** Reached nodes that wait have got what is due from the popped ones. */
  ghost predicate DeltaOk(adj: Adj, s: nat, dist: seq<int>, popped: set<nat>, delta: seq<real>)
    requires |dist| == |adj|
  {
    && |delta| == |adj|
    && forall v: nat | v < |adj| ::
       delta[v] == if dist[v] >= 0 && v !in popped then Parts(adj, s, dist, popped, v) else 0.0
  }

  /** Everything beyond `w` has been popped. */
  ghost predicate Beyond(dist: seq<int>, popped: set<nat>, w: nat)
    requires w < |dist|
  {
    forall x: nat | x < |dist| && dist[x] == dist[w] + 1 :: x in popped
  }

  /** A node popped after all its successors has its dependency. */
  lemma PoppedDelta(adj: Adj, s: nat, dist: seq<int>, popped: set<nat>, w: nat)
    requires |dist| == |adj| && IsDist(adj, s, dist) && w < |adj| && dist[w] >= 0 && w != s && Beyond(dist, popped, w)
    ensures Parts(adj, s, dist, popped, w) == Dependency(adj, s, w)
  {
    var h := (x: int) => Part(adj, s, dist, popped, w, x);
    forall x | 0 <= x < |adj| ensures h(x) == Coef(adj, s, dist, w, x) * (1.0 + Dependency(adj, s, x)) {
      hide Dependency, IsDist, Sigma;
    }
    hide IsDist, Coef, Dependency, Part, Sum;
    DependencyRecursion(adj, s, dist, w, h);
    SumEq(|adj|, h, x => Part(adj, s, dist, popped, w, x));
  }

  lemma PartsGrow(adj: Adj, s: nat, dist: seq<int>, popped: set<nat>, v: nat, w: nat)
    requires |dist| == |adj| && v < |adj| && w < |adj| && w !in popped
    ensures Parts(adj, s, dist, popped + {w}, v)
      == Parts(adj, s, dist, popped, v) + Coef(adj, s, dist, v, w) * (1.0 + Dependency(adj, s, w))
  {
    hide Coef, Dependency, Sum;
    var f := (x: int) => Part(adj, s, dist, popped, v, x);
    var g := (x: int) => Part(adj, s, dist, popped + {w}, v, x);
    SumChange(|adj|, w, f, g);
    SumEq(|adj|, f, x => Part(adj, s, dist, popped, v, x));
    SumEq(|adj|, g, x => Part(adj, s, dist, popped + {w}, v, x));
  }

  /** A node's predecessors get their shares, entry by entry. */
  ghost predicate Handing(pred: seq<nat>, i: nat, delta0: seq<real>, delta: seq<real>, share: seq<real>)
    requires i <= |pred|
  {
    && |delta| == |delta0| == |share|
    && forall v: nat | v < |delta| :: delta[v] == delta0[v] + Count(pred[..i], v) as real * share[v]
  }

  lemma HandOne(pred: seq<nat>, i: nat, delta0: seq<real>, delta: seq<real>, share: seq<real>)
    requires i < |pred| && Handing(pred, i, delta0, delta, share) && pred[i] < |delta|
    ensures Handing(pred, i + 1, delta0, delta[pred[i] := delta[pred[i]] + share[pred[i]]], share)
  {
    hide Count;
    Snoc(pred, i);
    var delta' := delta[pred[i] := delta[pred[i]] + share[pred[i]]];
    forall v: nat | v < |delta'| ensures delta'[v] == delta0[v] + Count(pred[..i + 1], v) as real * share[v] {
      CountPush(pred[..i], pred[i], v);
      AddOne(delta0[v], Count(pred[..i], v), share[v]);
    }
  }

  lemma AddOne(a: real, c: nat, x: real)
    ensures a + (c + 1) as real * x == a + c as real * x + x
  {
  }

  lemma CountedAt(adj: Adj, s: nat, dist: seq<int>, queue: seq<nat>, sigma: seq<real>, pred: seq<seq<nat>>, v: nat,
                  w: nat)
    requires Counted(adj, s, dist, queue, sigma, pred) && v < |adj| && w < |adj| && dist[w] >= 0 && dist[v] >= 0
    ensures IsDist(adj, s, dist) && sigma[v] == Sigma(adj, s, dist, v) && sigma[w] == Sigma(adj, s, dist, w) > 0.0
    ensures Count(pred[w], v) as real == if dist[w] == dist[v] + 1 then Mult(adj, v, w) else 0.0
  {
    assert Count(pred[w], v) == if Follows(dist, v, w) then Count(adj[v], w) else 0;
  }

  lemma MulAssoc(a: real, b: real, c: real)
    ensures a * (b * c) == (a * b) * c
  {
  }

  /** The share of `v` in what `w` hands down. */
  lemma ShareIsCoef(adj: Adj, s: nat, dist: seq<int>, queue: seq<nat>, sigma: seq<real>, pred: seq<seq<nat>>, v: nat,
                    w: nat, x: real)
    requires |dist| == |adj| == |sigma| == |pred| && Counted(adj, s, dist, queue, sigma, pred)
    requires v < |adj| && w < |adj| && dist[w] >= 0 && dist[v] >= 0
    ensures sigma[w] > 0.0
    ensures Count(pred[w], v) as real * (sigma[v] / sigma[w] * x) == Coef(adj, s, dist, v, w) * x
  {
    hide Counted, IsDist, Sigma, Mult, Coef, Count;
    CountedAt(adj, s, dist, queue, sigma, pred, v, w);
    CoefIs(adj, s, dist, v, w);
    MulAssoc(Count(pred[w], v) as real, sigma[v] / sigma[w], x);
  }

  /** One predecessor has got all its shares of what `w`, of dependency `dw`, hands down. */
  lemma HandedAt(adj: Adj, s: nat, dist: seq<int>, queue: seq<nat>, sigma: seq<real>, pred: seq<seq<nat>>, w: nat,
                 popped: set<nat>, v: nat, dw: real, d: real)
    requires |dist| == |adj| == |sigma| == |pred| && Counted(adj, s, dist, queue, sigma, pred)
    requires w < |adj| && dist[w] >= 0 && w !in popped && v < |adj| && dist[v] >= 0 && sigma[w] > 0.0
    requires d == Parts(adj, s, dist, popped, v) + Count(pred[w], v) as real * (sigma[v] / sigma[w] * (1.0 + dw))
    requires w != s ==> dw == Dependency(adj, s, w)
    ensures d == Parts(adj, s, dist, popped + {w}, v)
  {
    hide Counted, Parts, Count, Coef, Dependency;
    PartsGrow(adj, s, dist, popped, v, w);
    ShareIsCoef(adj, s, dist, queue, sigma, pred, v, w, 1.0 + dw);
    if w == s {
      CoefToSource(adj, s, dist, queue, sigma, pred, v);
    }
  }

  /** All predecessors have got theirs. */
  lemma HandedAll(adj: Adj, s: nat, dist: seq<int>, queue: seq<nat>, sigma: seq<real>, pred: seq<seq<nat>>, w: nat,
                  popped: set<nat>, delta0: seq<real>, delta: seq<real>, share: seq<real>)
    requires |dist| == |adj| == |sigma| == |pred| && Counted(adj, s, dist, queue, sigma, pred)
    requires w < |adj| && dist[w] >= 0 && w !in popped && sigma[w] > 0.0
    requires DeltaOk(adj, s, dist, popped, delta0) && Handing(pred[w], |pred[w]|, delta0, delta, share)
    requires forall v: nat | v < |adj| && dist[v] >= 0 && v !in popped ::
      share[v] == sigma[v] / sigma[w] * (1.0 + delta0[w])
    requires w != s ==> delta0[w] == Dependency(adj, s, w)
    requires forall v: nat | v < |adj| && (dist[v] < 0 || v in popped) :: Count(pred[w], v) == 0
    ensures DeltaOk(adj, s, dist, popped + {w}, delta[w := 0.0])
  {
    hide Counted, Parts, Count, Dependency;
    var popped', delta' := popped + {w}, delta[w := 0.0];
    assert pred[w][..|pred[w]|] == pred[w];
    forall v: nat | v < |adj|
      ensures delta'[v] == if dist[v] >= 0 && v !in popped' then Parts(adj, s, dist, popped', v) else 0.0
    {
      assert delta[v] == delta0[v] + Count(pred[w], v) as real * share[v];
      if dist[v] >= 0 && v !in popped' {
        HandedAt(adj, s, dist, queue, sigma, pred, w, popped, v, delta0[w], delta[v]);
      }
    }
  }

  lemma CoefToSource(adj: Adj, s: nat, dist: seq<int>, queue: seq<nat>, sigma: seq<real>, pred: seq<seq<nat>>, v: nat)
    requires |dist| == |adj| && Counted(adj, s, dist, queue, sigma, pred) && v < |adj|
    ensures Coef(adj, s, dist, v, s) == 0.0
  {
    SourceDist(adj, s, dist);
  }

  // ------------------------------------------------------------------ the backward pass

  /** A buffer in which the popped nodes are back at the default. */
  ghost function Masked<T>(s: seq<T>, popped: set<nat>, d: T): seq<T> {
    seq(|s|, v requires 0 <= v < |s| => if v in popped then d else s[v])
  }

  lemma MaskOne<T>(s: seq<T>, popped: set<nat>, d: T, w: nat)
    requires w < |s|
    ensures Masked(s, popped + {w}, d) == Masked(s, popped, d)[w := d]
  {
  }

  /** What the popped nodes have added to the centralities. */
  ghost function Added(cb: seq<real>, adj: Adj, s: nat, popped: set<nat>): seq<real> {
    seq(|cb|, v requires 0 <= v < |cb| => cb[v] + if v in popped && v != s then Dependency(adj, s, v) else 0.0)
  }

  lemma AddOnePopped(cb: seq<real>, adj: Adj, s: nat, popped: set<nat>, w: nat)
    requires w < |cb| && w !in popped
    ensures Added(cb, adj, s, popped + {w}) == if w == s then Added(cb, adj, s, popped) else
      Added(cb, adj, s, popped)[w := Added(cb, adj, s, popped)[w] + Dependency(adj, s, w)]
  {
    hide Dependency;
    var a, b := Added(cb, adj, s, popped + {w}), Added(cb, adj, s, popped);
    assert b[w] == cb[w];
  }

  ghost function Popped(queue: seq<nat>, t: nat): set<nat>
    requires t <= |queue|
  {
    set i | t <= i < |queue| :: queue[i]
  }

  /** The node popped next: what is beyond it is popped, it is not, and neither
      are its predecessors. */
  lemma NextPop(adj: Adj, s: nat, dist: seq<int>, queue: seq<nat>, sigma: seq<real>, pred: seq<seq<nat>>, t: nat)
    requires Counted(adj, s, dist, queue, sigma, pred) && t < |queue|
    ensures var w, popped := queue[t], Popped(queue, t + 1);
      && w < |adj| && dist[w] >= 0 && sigma[w] > 0.0 && w !in popped && Popped(queue, t) == popped + {w}
      && Beyond(dist, popped, w)
      && (forall v | v in popped :: v < |adj| && dist[v] >= dist[w])
  {
    hide IsDist, PredFull, Sigma;
    var w, popped := queue[t], Popped(queue, t + 1);
    forall x: nat | x < |dist| && dist[x] == dist[w] + 1 ensures x in popped {
      var i :| 0 <= i < |queue| && queue[i] == x;
      assert i > t;
    }
    assert Popped(queue, t) == popped + {w};
  }

  lemma PredWaits(adj: Adj, s: nat, dist: seq<int>, queue: seq<nat>, sigma: seq<real>, pred: seq<seq<nat>>, w: nat,
                  popped: set<nat>)
    requires Counted(adj, s, dist, queue, sigma, pred) && w < |adj| && dist[w] >= 0
    requires forall v | v in popped :: v < |adj| && dist[v] >= dist[w]
    ensures forall i | 0 <= i < |pred[w]| ::
      pred[w][i] < |adj| && dist[pred[w][i]] >= 0 && pred[w][i] !in popped && pred[w][i] != w
    ensures forall v: nat | v < |adj| && (dist[v] < 0 || v in popped) :: Count(pred[w], v) == 0
  {
    hide IsDist;
    forall i | 0 <= i < |pred[w]| ensures pred[w][i] < |adj| && Follows(dist, pred[w][i], w) {
      CountMember(pred[w], pred[w][i]);
    }
    forall v: nat | v < |adj| && (dist[v] < 0 || v in popped) ensures Count(pred[w], v) == 0 {
      assert !Follows(dist, v, w);
    }
  }

  lemma HandNone(pred: seq<nat>, delta: seq<real>, share: seq<real>)
    requires |delta| == |share|
    ensures Handing(pred, 0, delta, delta, share)
  {
    assert pred[..0] == [];
  }

  /** Hands down the shares of `w` to its predecessors. */
  method HandDown(list: seq<nat>, w: nat, sigma: array<real>, delta: array<real>, ghost share: seq<real>)
    requires sigma.Length == delta.Length == |share| && sigma != delta && w < sigma.Length && sigma[w] > 0.0
    requires forall i | 0 <= i < |list| :: list[i] < sigma.Length && list[i] != w
    requires forall i | 0 <= i < |list| :: share[list[i]] == sigma[list[i]] / sigma[w] * (1.0 + delta[w])
    modifies delta
    ensures Handing(list, |list|, old(delta[..]), delta[..], share)
    ensures delta[w] == old(delta[w])
  {
    ghost var delta0 := delta[..];
    HandNone(list, delta0, share);
    for i := 0 to |list|
      invariant Handing(list, i, delta0, delta[..], share) && delta[w] == delta0[w]
    {
      hide Handing;
      HandOne(list, i, delta0, delta[..], share);
      var v := list[i];
      if sigma[w] > 0.0 {
        delta[v] := delta[v] + (sigma[v] / sigma[w]) * (1.0 + delta[w]);
      }
    }
  }

  /** The pass has popped the queue down to height `t`. */
  ghost predicate Backward(adj: Adj, s: nat, dist0: seq<int>, queue: seq<nat>, sigma0: seq<real>, pred0: seq<seq<nat>>,
                           cb0: seq<real>, t: nat,
                           dist: seq<int>, sigma: seq<real>, delta: seq<real>, pred: seq<seq<nat>>, cb: seq<real>) {
    && |dist0| == |adj| == |sigma0| == |pred0| == |cb0| && t <= |queue|
    && Counted(adj, s, dist0, queue, sigma0, pred0)
    && dist == Masked(dist0, Popped(queue, t), -1)
    && sigma == Masked(sigma0, Popped(queue, t), 0.0)
    && pred == Masked(pred0, Popped(queue, t), [])
    && DeltaOk(adj, s, dist0, Popped(queue, t), delta)
    && cb == Added(cb0, adj, s, Popped(queue, t))
  }

  lemma PopHanded(adj: Adj, s: nat, dist0: seq<int>, queue: seq<nat>, sigma0: seq<real>, pred0: seq<seq<nat>>, t: nat,
                  delta: seq<real>, delta': seq<real>, share: seq<real>)
    requires t < |queue| && |dist0| == |adj| == |sigma0| == |pred0| && Counted(adj, s, dist0, queue, sigma0, pred0)
    requires DeltaOk(adj, s, dist0, Popped(queue, t + 1), delta)
    requires queue[t] < |adj| && Handing(pred0[queue[t]], |pred0[queue[t]]|, delta, delta', share)
    requires sigma0[queue[t]] > 0.0 && |share| == |adj|
    requires forall v: nat | v < |adj| && dist0[v] >= 0 && v !in Popped(queue, t + 1) ::
      share[v] == sigma0[v] / sigma0[queue[t]] * (1.0 + delta[queue[t]])
    ensures |delta| == |delta'| == |adj| && DeltaOk(adj, s, dist0, Popped(queue, t), delta'[queue[t] := 0.0])
    ensures queue[t] != s ==> delta[queue[t]] == Dependency(adj, s, queue[t])
  {
    hide Counted, Popped, Parts, Dependency, Count;
    var w, popped := queue[t], Popped(queue, t + 1);
    NextPop(adj, s, dist0, queue, sigma0, pred0, t);
    PredWaits(adj, s, dist0, queue, sigma0, pred0, w, popped);
    PopDelta(adj, s, dist0, queue, sigma0, pred0, w, popped, delta);
    HandedAll(adj, s, dist0, queue, sigma0, pred0, w, popped, delta, delta', share);
  }

  lemma PopMasked(adj: Adj, s: nat, dist0: seq<int>, queue: seq<nat>, sigma0: seq<real>, pred0: seq<seq<nat>>,
                  cb0: seq<real>, t: nat)
    requires t < |queue| && |dist0| == |adj| == |sigma0| == |pred0| == |cb0|
    requires Counted(adj, s, dist0, queue, sigma0, pred0)
    ensures var w, popped, popped' := queue[t], Popped(queue, t + 1), Popped(queue, t);
      && w < |adj|
      && Masked(dist0, popped', -1) == Masked(dist0, popped, -1)[w := -1]
      && Masked(sigma0, popped', 0.0) == Masked(sigma0, popped, 0.0)[w := 0.0]
      && Masked(pred0, popped', []) == Masked(pred0, popped, [])[w := []]
      && Added(cb0, adj, s, popped') == if w == s then Added(cb0, adj, s, popped) else
           Added(cb0, adj, s, popped)[w := Added(cb0, adj, s, popped)[w] + Dependency(adj, s, w)]
  {
    hide Counted, Popped, Dependency;
    var w, popped := queue[t], Popped(queue, t + 1);
    NextPop(adj, s, dist0, queue, sigma0, pred0, t);
    MaskOne(dist0, popped, -1, w);
    MaskOne(sigma0, popped, 0.0, w);
    MaskOne(pred0, popped, [], w);
    AddOnePopped(cb0, adj, s, popped, w);
  }

  /** What popping `w` changes, given that its shares have been handed down. */
  lemma PopKeeps(adj: Adj, s: nat, dist0: seq<int>, queue: seq<nat>, sigma0: seq<real>, pred0: seq<seq<nat>>,
                 cb0: seq<real>, t: nat,
                 dist: seq<int>, sigma: seq<real>, delta: seq<real>, pred: seq<seq<nat>>, cb: seq<real>,
                 delta': seq<real>, share: seq<real>)
    requires t < |queue| && Backward(adj, s, dist0, queue, sigma0, pred0, cb0, t + 1, dist, sigma, delta, pred, cb)
    requires queue[t] < |adj| && Handing(pred0[queue[t]], |pred0[queue[t]]|, delta, delta', share)
    requires sigma0[queue[t]] > 0.0 && |share| == |delta| == |adj|
    requires forall v: nat | v < |adj| && dist0[v] >= 0 && v !in Popped(queue, t + 1) ::
      share[v] == sigma0[v] / sigma0[queue[t]] * (1.0 + delta[queue[t]])
    ensures |dist| == |sigma| == |delta'| == |pred| == |cb| == |adj|
    ensures var w := queue[t];
      Backward(adj, s, dist0, queue, sigma0, pred0, cb0, t, dist[w := -1], sigma[w := 0.0], delta'[w := 0.0],
               pred[w := []],
               if w == s then cb else cb[w := cb[w] + delta[w]])
  {
    hide Counted, Popped, DeltaOk, Handing, Dependency, Masked, Added;
    var popped := Popped(queue, t + 1);
    MaskSize(dist0, popped, -1);
    MaskSize(sigma0, popped, 0.0);
    MaskSize(pred0, popped, []);
    AddedSize(cb0, adj, s, popped);
    PopHanded(adj, s, dist0, queue, sigma0, pred0, t, delta, delta', share);
    PopMasked(adj, s, dist0, queue, sigma0, pred0, cb0, t);
  }

  lemma MaskSize<T>(s: seq<T>, popped: set<nat>, d: T)
    ensures |Masked(s, popped, d)| == |s|
  {
  }

  lemma AddedSize(cb: seq<real>, adj: Adj, s: nat, popped: set<nat>)
    ensures |Added(cb, adj, s, popped)| == |cb|
  {
  }

  lemma PopDelta(adj: Adj, s: nat, dist0: seq<int>, queue: seq<nat>, sigma0: seq<real>, pred0: seq<seq<nat>>, w: nat,
                 popped: set<nat>, delta: seq<real>)
    requires |dist0| == |adj| && Counted(adj, s, dist0, queue, sigma0, pred0) && DeltaOk(adj, s, dist0, popped, delta)
    requires w < |adj| && dist0[w] >= 0 && w !in popped && Beyond(dist0, popped, w)
    ensures w != s ==> delta[w] == Dependency(adj, s, w)
  {
    hide Parts, Dependency;
    if w != s {
      PoppedDelta(adj, s, dist0, popped, w);
    }
  }

  lemma BackwardSizes(adj: Adj, s: nat, dist0: seq<int>, queue: seq<nat>, sigma0: seq<real>, pred0: seq<seq<nat>>,
                      cb0: seq<real>, t: nat,
                      dist: seq<int>, sigma: seq<real>, delta: seq<real>, pred: seq<seq<nat>>, cb: seq<real>)
    requires Backward(adj, s, dist0, queue, sigma0, pred0, cb0, t, dist, sigma, delta, pred, cb)
    ensures |dist| == |sigma| == |delta| == |pred| == |cb| == |adj| == |dist0| == |sigma0| == |pred0| && t <= |queue|
  {
  }

  /** Where the pass stands when `queue[t]` is about to be popped. */
  lemma BackwardAt(adj: Adj, s: nat, dist0: seq<int>, queue: seq<nat>, sigma0: seq<real>, pred0: seq<seq<nat>>,
                   cb0: seq<real>, t: nat,
                   dist: seq<int>, sigma: seq<real>, delta: seq<real>, pred: seq<seq<nat>>, cb: seq<real>)
    requires t < |queue| && |dist| == |sigma| == |delta| == |pred| == |cb| == |adj| == |dist0| == |sigma0| == |pred0|
    requires Backward(adj, s, dist0, queue, sigma0, pred0, cb0, t + 1, dist, sigma, delta, pred, cb)
    ensures var w := queue[t];
      && w < |adj| && pred[w] == pred0[w] && sigma[w] == sigma0[w] > 0.0
      && (forall i | 0 <= i < |pred[w]| ::
         pred[w][i] < |adj| && pred[w][i] != w && sigma[pred[w][i]] == sigma0[pred[w][i]])
  {
    var w, popped := queue[t], Popped(queue, t + 1);
    NextPop(adj, s, dist0, queue, sigma0, pred0, t);
    PredWaits(adj, s, dist0, queue, sigma0, pred0, w, popped);
    hide Counted, Popped, DeltaOk, Added, Count;
  }

  ghost function Shares(sigma: seq<real>, w: nat, x: real): seq<real>
    requires w < |sigma| && sigma[w] > 0.0
  {
    seq(|sigma|, v requires 0 <= v < |sigma| => sigma[v] / sigma[w] * (1.0 + x))
  }

  method Reset(w: nat, dist: array<int>, sigma: array<real>, delta: array<real>, pred: array<seq<nat>>)
    requires w < dist.Length == sigma.Length == delta.Length == pred.Length && sigma != delta
    modifies dist, sigma, delta, pred
    ensures dist[..] == old(dist[..])[w := -1] && sigma[..] == old(sigma[..])[w := 0.0]
    ensures delta[..] == old(delta[..])[w := 0.0] && pred[..] == old(pred[..])[w := []]
  {
    pred[w] := [];
    sigma[w] := 0.0;
    dist[w] := -1;
    delta[w] := 0.0;
  }

  /** Pops one node: hands its shares down, adds its dependency, resets it. */
  method PopNode(w: nat, dist: array<int>, sigma: array<real>, delta: array<real>, pred: array<seq<nat>>,
                 cb: array<real>, s: nat,
                 ghost adj: Adj, ghost dist0: seq<int>, ghost queue: seq<nat>, ghost sigma0: seq<real>,
                 ghost pred0: seq<seq<nat>>,
                 ghost cb0: seq<real>, ghost t: nat)
    requires sigma != delta && sigma != cb && delta != cb && t < |queue| && queue[t] == w
    requires Backward(adj, s, dist0, queue, sigma0, pred0, cb0, t + 1, dist[..], sigma[..], delta[..], pred[..], cb[..])
    modifies dist, sigma, delta, pred, cb
    ensures Backward(adj, s, dist0, queue, sigma0, pred0, cb0, t, dist[..], sigma[..], delta[..], pred[..], cb[..])
  {
    hide Backward, Handing;
    BackwardSizes(adj, s, dist0, queue, sigma0, pred0, cb0, t + 1, dist[..], sigma[..], delta[..], pred[..], cb[..]);
    BackwardAt(adj, s, dist0, queue, sigma0, pred0, cb0, t, dist[..], sigma[..], delta[..], pred[..], cb[..]);
    ghost var delta0, share := delta[..], Shares(sigma0, w, delta[w]);
    HandDown(pred[w], w, sigma, delta, share);
    PopKeeps(adj, s, dist0, queue, sigma0, pred0, cb0, t, dist[..], sigma[..], delta0, pred[..], cb[..], delta[..],
             share);
    if w != s {
      cb[w] := cb[w] + delta[w];
    }
    Reset(w, dist, sigma, delta, pred);
  }

  lemma NoDependency(adj: Adj, s: nat, dist: seq<int>, v: nat)
    requires |dist| == |adj| && IsDist(adj, s, dist) && v < |adj| && (v == s || dist[v] < 0)
    ensures Dependency(adj, s, v) == 0.0
  {
    var f := (t: int) => PairShare(adj, s, t, v);
    forall t | 0 <= t < |adj| ensures f(t) == 0.0 {
      if v != s {
        ShareIsFull(adj, s, dist, v, t);
      }
    }
    hide PairShare, IsDist, Sum;
    SumZero(|adj|, f);
    DependencyIs(adj, s, v, f);
  }

  lemma BackwardStart(adj: Adj, s: nat, dist: seq<int>, queue: seq<nat>, sigma: seq<real>, delta: seq<real>,
                      pred: seq<seq<nat>>, cb: seq<real>)
    requires |dist| == |adj| == |sigma| == |pred| == |cb| == |delta| && Counted(adj, s, dist, queue, sigma, pred)
    requires forall v | 0 <= v < |adj| :: delta[v] == 0.0
    ensures Backward(adj, s, dist, queue, sigma, pred, cb, |queue|, dist, sigma, delta, pred, cb)
  {
    assert Popped(queue, |queue|) == {};
    forall v: nat | v < |adj| ensures Parts(adj, s, dist, {}, v) == 0.0 {
      SumZero(|adj|, w => Part(adj, s, dist, {}, v, w));
    }
  }

  /** The buffers are clean again, and every centrality has grown by the
      dependency of the source. */
  lemma BackwardDone(adj: Adj, s: nat, dist0: seq<int>, queue: seq<nat>, sigma0: seq<real>, pred0: seq<seq<nat>>,
                     cb0: seq<real>,
                     dist: seq<int>, sigma: seq<real>, delta: seq<real>, pred: seq<seq<nat>>, cb: seq<real>)
    requires Backward(adj, s, dist0, queue, sigma0, pred0, cb0, 0, dist, sigma, delta, pred, cb)
    ensures Clean(|adj|, dist, sigma, delta, pred)
    ensures |cb| == |cb0| == |adj| && forall v | 0 <= v < |adj| :: cb[v] == cb0[v] + Dependency(adj, s, v)
  {
    var popped := Popped(queue, 0);
    forall v: nat | v < |adj| ensures v in popped <==> dist0[v] >= 0 {
      if dist0[v] >= 0 {
        var i :| 0 <= i < |queue| && queue[i] == v;
      }
    }
    hide Popped, PredFull, Parts, Dependency, Sigma;
    forall v | 0 <= v < |adj| ensures cb[v] == cb0[v] + Dependency(adj, s, v) {
      if v == s || dist0[v] < 0 {
        NoDependency(adj, s, dist0, v);
      }
    }
  }

  // ------------------------------------------------------------------ the algorithm

  /** The forward search from `s`; the stack it fills is the queue it ends with. */
  method CountPaths(g: Csr, s: nat, dist: array<int>, sigma: array<real>, pred: array<seq<nat>>, ghost adj: Adj,
                    ghost delta: seq<real>)
      returns (queue: seq<nat>, stack: seq<nat>)
    requires g.Valid() && adj == Lists(g) && s < |adj|
    requires Clean(|adj|, dist[..], sigma[..], delta, pred[..])
    modifies dist, sigma, pred
    ensures Counted(adj, s, dist[..], queue, sigma[..], pred[..]) && stack == queue
  {
    hide Forward, Looking, Counted;
    StartForward(adj, s, dist[..], sigma[..], delta, pred[..]);
    ghost var cur := seq(|adj|, _ => 0);
    sigma[s] := 1.0;
    dist[s] := 0;
    queue, stack := [s], [];
    var head := 0;
    while head < |queue|
      invariant Forward(adj, s, dist[..], queue, head, cur, sigma[..], pred[..]) && Rested(queue, head, cur)
      invariant head <= |queue| && stack == queue[..head]
      decreases |adj| - head
    {
      ExpandNext(adj, s, dist[..], queue, head, cur, sigma[..], pred[..]);
      stack := stack + [queue[head]];
      queue, cur := Expand(g, dist, sigma, pred, queue, head, adj, s, cur);
      head := head + 1;
      ExpandNext(adj, s, dist[..], queue, head, cur, sigma[..], pred[..]);
    }
    ForwardDone(adj, s, dist[..], queue, cur, sigma[..], pred[..]);
  }

  /** One source: count paths, then accumulate dependencies and reset. */
  method FromSource(g: Csr, s: nat, dist: array<int>, sigma: array<real>, delta: array<real>, pred: array<seq<nat>>,
                    cb: array<real>,
                    ghost adj: Adj)
    requires g.Valid() && adj == Lists(g) && s < |adj| == cb.Length
    requires sigma != delta && sigma != cb && delta != cb
    requires Clean(|adj|, dist[..], sigma[..], delta[..], pred[..])
    modifies dist, sigma, delta, pred, cb
    ensures Clean(|adj|, dist[..], sigma[..], delta[..], pred[..])
    ensures forall v | 0 <= v < |adj| :: cb[v] == old(cb[v]) + Dependency(adj, s, v)
  {
    hide Counted, Backward, Dependency;
    var queue, stack := CountPaths(g, s, dist, sigma, pred, adj, delta[..]);
    ghost var dist0, sigma0, pred0, cb0 := dist[..], sigma[..], pred[..], cb[..];
    CountedSizes(adj, s, dist0, queue, sigma0, pred0);
    BackwardStart(adj, s, dist0, queue, sigma0, delta[..], pred0, cb0);
    while |stack| > 0
      invariant |stack| <= |queue| && stack == queue[..|stack|]
      invariant Backward(adj, s, dist0, queue, sigma0, pred0, cb0, |stack|, dist[..], sigma[..], delta[..], pred[..],
                         cb[..])
    {
      var w := stack[|stack| - 1];
      stack := stack[..|stack| - 1];
      PopNode(w, dist, sigma, delta, pred, cb, s, adj, dist0, queue, sigma0, pred0, cb0, |stack|);
    }
    BackwardDone(adj, s, dist0, queue, sigma0, pred0, cb0, dist[..], sigma[..], delta[..], pred[..], cb[..]);
  }

  lemma CountedSizes(adj: Adj, s: nat, dist: seq<int>, queue: seq<nat>, sigma: seq<real>, pred: seq<seq<nat>>)
    requires Counted(adj, s, dist, queue, sigma, pred)
    ensures |dist| == |adj| == |sigma| == |pred|
  {
  }

  /** `compute_betweenness_centrality` */
  method ComputeBetweenness(g: Csr) returns (values: seq<real>)
    requires g.Valid()
    ensures |values| == g.NumNodes()
    ensures forall v | 0 <= v < |values| :: values[v] == Centrality(Lists(g), v, g.NumNodes())
  {
    hide Dependency;
    var n := g.NumNodes();
    ghost var adj := Lists(g);
    var cb := new real[n](_ => 0.0);
    var pred := new seq<nat>[n](_ => []);
    var sigma := new real[n](_ => 0.0);
    var dist := new int[n](_ => -1);
    var delta := new real[n](_ => 0.0);
    for s := 0 to n
      invariant Clean(n, dist[..], sigma[..], delta[..], pred[..])
      invariant forall v | 0 <= v < n :: cb[v] == Centrality(adj, v, s)
    {
      FromSource(g, s, dist, sigma, delta, pred, cb, adj);
    }
    values := cb[..];
  }
}
