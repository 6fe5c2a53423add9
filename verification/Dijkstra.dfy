/** Dijkstra with lazy deletion (akar-algo `weighted_shortest_path_internal`).
    Distances are reals, `None` standing for infinity; the binary heap is a
    multiset of (distance, node) entries popped in its order. */
module Dijkstra {
  import opened Graphs
  import Bfs

  type Weights = (nat, nat) -> real
  type Entry = (real, nat)

  ghost function Weight(w: Weights, p: seq<nat>): real {
    if |p| < 2 then 0.0 else Weight(w, p[..|p| - 1]) + w(p[|p| - 2], p[|p| - 1])
  }

  /** `d` is the least weight of a path from `s` to `v`. */
  ghost predicate MinWeight(adj: Adj, w: Weights, s: nat, v: nat, d: real) {
    && (exists p :: Joins(adj, p, s, v) && Weight(w, p) == d)
    && (forall p | Joins(adj, p, s, v) :: d <= Weight(w, p))
  }

  ghost predicate NonNegative(adj: Adj, w: Weights) {
    forall u: nat, v: nat | Edge(adj, u, v) :: w(u, v) >= 0.0
  }

  // ------------------------------------------------------------------ the search state

  predicate Less(d: real, t: Option<real>) {
    t.None? || d < t.value
  }

  /** No further away than `d`. */
  predicate AtMost(t: Option<real>, d: real) {
    t.Some? && t.value <= d
  }

  /** Entries are never below their node's distance, and above it once the node
      is done; a node that was reached and is not done has its entry, once. */
  ghost predicate HeapOk(dist: seq<Option<real>>, done: set<nat>, heap: multiset<Entry>) {
    && (forall e | e in heap :: e.1 < |dist| && AtMost(dist[e.1], e.0))
    && (forall e | e in heap && e.1 in done :: Less'(dist[e.1], e.0))
    && (forall v: nat | v < |dist| && dist[v].Some? && v !in done :: heap[(dist[v].value, v)] == 1)
  }

  predicate Less'(t: Option<real>, d: real) {
    t.Some? && t.value < d
  }

  /** Done nodes are reached, and no further away than anything in the heap. */
  ghost predicate DoneOk(dist: seq<Option<real>>, done: set<nat>, heap: multiset<Entry>) {
    && (forall v | v in done :: v < |dist| && dist[v].Some?)
    && (forall v, e | v in done && v < |dist| && e in heap :: AtMost(dist[v], e.0))
  }

  /** The edge from `u` to `v` does not shorten the way to `v`. */
  ghost predicate Relaxed(dist: seq<Option<real>>, w: Weights, u: nat, v: nat) {
    u < |dist| && v < |dist| && dist[u].Some? && AtMost(dist[v], dist[u].value + w(u, v))
  }

  ghost predicate DoneRelaxed(adj: Adj, w: Weights, dist: seq<Option<real>>, done: set<nat>) {
    forall u: nat, v: nat | u in done && Edge(adj, u, v) :: Relaxed(dist, w, u, v)
  }

  /** `p` leads from `s` to `v` along parent links, through done nodes, and weighs `d`. */
  ghost predicate LinkPath(adj: Adj, w: Weights, s: nat, parent: seq<nat>, done: set<nat>, v: nat, d: real, p: seq<nat>)
  {
    && Joins(adj, p, s, v) && Weight(w, p) == d
    && (forall i | 0 <= i < |p| - 1 :: p[i] in done)
    && (forall i | 0 < i < |p| :: Linked(parent, p, i))
  }

  ghost predicate Linked(parent: seq<nat>, p: seq<nat>, i: nat) {
    0 < i < |p| && p[i] < |parent| && parent[p[i]] == p[i - 1]
  }

  ghost predicate HasLinkPath(adj: Adj, w: Weights, s: nat, parent: seq<nat>, done: set<nat>, v: nat, d: real) {
    exists p :: LinkPath(adj, w, s, parent, done, v, d, p)
  }

  ghost predicate LinksOk(adj: Adj, w: Weights, s: nat, dist: seq<Option<real>>, parent: seq<nat>, done: set<nat>) {
    && (forall v: nat {:trigger HasLinkPath(adj, w, s, parent, done, v, dist[v].value)} | v < |dist| && dist[v].Some? ::
          HasLinkPath(adj, w, s, parent, done, v, dist[v].value))
    && (forall v: nat | v < |dist| && v < |parent| && (dist[v].None? || v == s) :: parent[v] == USIZE_MAX)
  }

  ghost predicate Inv(adj: Adj, w: Weights, s: nat, dist: seq<Option<real>>, parent: seq<nat>, heap: multiset<Entry>,
                      done: set<nat>)
  {
    && s < |adj| == |dist| == |parent|
    && dist[s] == Some(0.0)
    && HeapOk(dist, done, heap) && DoneOk(dist, done, heap)
    && LinksOk(adj, w, s, dist, parent, done)
  }

  // ------------------------------------------------------------------ the heap order

  /** `a` is popped before `b`: smaller distance first, larger node first on a tie. */
  predicate Before(a: Entry, b: Entry) {
    a.0 < b.0 || (a.0 == b.0 && a.1 >= b.1)
  }

  predicate IsTop(heap: multiset<Entry>, t: Entry) {
    t in heap && forall e | e in heap :: Before(t, e)
  }

  lemma {:induction false} TopExists(heap: multiset<Entry>) returns (t: Entry)
    requires |heap| > 0
    ensures IsTop(heap, t)
    decreases |heap|
  {
    var e :| e in heap;
    var rest := heap - multiset{e};
    if |rest| == 0 {
      t := e;
      assert heap == rest + multiset{e};
    } else {
      var r := TopExists(rest);
      t := if Before(e, r) then e else r;
      forall x | x in heap ensures Before(t, x) {
        assert x == e || x in rest;
      }
    }
  }

  method Pop(heap: multiset<Entry>) returns (t: Entry, rest: multiset<Entry>)
    requires |heap| > 0
    ensures IsTop(heap, t) && rest == heap - multiset{t}
  {
    ghost var top := TopExists(heap);
    t :| IsTop(heap, t);
    rest := heap - multiset{t};
  }

  // ------------------------------------------------------------------ the steps

  lemma WeightPush(w: Weights, p: seq<nat>, v: nat)
    requires |p| > 0
    ensures Weight(w, p + [v]) == Weight(w, p) + w(p[|p| - 1], v)
  {
    assert (p + [v])[..|p|] == p;
  }

  lemma SkipHeap(dist: seq<Option<real>>, done: set<nat>, heap: multiset<Entry>, t: Entry)
    requires HeapOk(dist, done, heap) && DoneOk(dist, done, heap) && t in heap && t.1 < |dist| && Less'(dist[t.1], t.0)
    ensures HeapOk(dist, done, heap - multiset{t}) && DoneOk(dist, done, heap - multiset{t})
  {
  }

  /** The entry popped is its node's own: the node is not done, and may be now. */
  lemma SettleHeap(dist: seq<Option<real>>, done: set<nat>, heap: multiset<Entry>, t: Entry)
    requires HeapOk(dist, done, heap) && DoneOk(dist, done, heap) && IsTop(heap, t) && t.1 < |dist|
    requires !Less'(dist[t.1], t.0)
    ensures t.1 !in done && dist[t.1] == Some(t.0)
    ensures HeapOk(dist, done + {t.1}, heap - multiset{t}) && DoneOk(dist, done + {t.1}, heap - multiset{t})
    ensures forall v | v in done + {t.1} :: v < |dist| && AtMost(dist[v], t.0)
    ensures forall e | e in heap - multiset{t} :: t.0 <= e.0
  {
    var rest := heap - multiset{t};
    assert heap[t] == 1;
    forall e | e in rest && e.1 in done + {t.1} ensures Less'(dist[e.1], e.0) {
      if e.1 == t.1 {
        assert e != t;
      }
    }
  }

  lemma RelaxHeap(dist: seq<Option<real>>, done: set<nat>, heap: multiset<Entry>, v: nat, d: real)
    requires HeapOk(dist, done, heap) && v < |dist| && v !in done && Less(d, dist[v])
    ensures HeapOk(dist[v := Some(d)], done, heap + multiset{(d, v)})
  {
    var dist', heap' := dist[v := Some(d)], heap + multiset{(d, v)};
    assert (d, v) !in heap;
    forall e | e in heap' ensures e.1 < |dist'| && AtMost(dist'[e.1], e.0) {
      assert e == (d, v) || e in heap;
    }
    forall e | e in heap' && e.1 in done ensures Less'(dist'[e.1], e.0) {
      assert e in heap;
    }
  }

  lemma RelaxDone(dist: seq<Option<real>>, done: set<nat>, heap: multiset<Entry>, v: nat, d: real)
    requires DoneOk(dist, done, heap) && v < |dist| && v !in done
    requires forall x | x in done :: x < |dist| && AtMost(dist[x], d)
    ensures DoneOk(dist[v := Some(d)], done, heap + multiset{(d, v)})
  {
  }

  lemma RelaxLinks(adj: Adj, w: Weights, s: nat, dist: seq<Option<real>>, parent: seq<nat>, done: set<nat>, u: nat,
                   v: nat)
    requires |dist| == |parent| == |adj| && s in done && LinksOk(adj, w, s, dist, parent, done)
    requires u in done && u < |dist| && dist[u].Some? && v !in done && Edge(adj, u, v)
    ensures LinksOk(adj, w, s, dist[v := Some(dist[u].value + w(u, v))], parent[v := u], done)
  {
    var d := dist[u].value + w(u, v);
    var dist', parent' := dist[v := Some(d)], parent[v := u];
    forall x: nat | x < |dist'| && dist'[x].Some? ensures HasLinkPath(adj, w, s, parent', done, x, dist'[x].value) {
      var y := if x == v then u else x;
      assert HasLinkPath(adj, w, s, parent, done, y, dist[y].value);
      var p :| LinkPath(adj, w, s, parent, done, y, dist[y].value, p);
      LinkFrame(adj, w, s, parent, done, y, dist[y].value, p, u, v);
    }
  }

  lemma LinkFrame(adj: Adj, w: Weights, s: nat, parent: seq<nat>, done: set<nat>, y: nat, d: real, p: seq<nat>, u: nat,
                  v: nat)
    requires LinkPath(adj, w, s, parent, done, y, d, p) && v < |parent| && v !in done
    ensures y != v ==> HasLinkPath(adj, w, s, parent[v := u], done, y, d)
    ensures y == u && u in done && Edge(adj, u, v) ==> HasLinkPath(adj, w, s, parent[v := u], done, v, d + w(u, v))
  {
    var parent' := parent[v := u];
    if y != v {
      forall i | 0 < i < |p| ensures Linked(parent', p, i) {
        assert Linked(parent, p, i);
      }
      assert LinkPath(adj, w, s, parent', done, y, d, p);
    }
    if y == u && u in done && Edge(adj, u, v) {
      var q := p + [v];
      WeightPush(w, p, v);
      forall i | 0 < i < |q| ensures Hop(adj, q, i) && Linked(parent', q, i) {
        if i < |p| {
          assert Hop(adj, p, i) && Linked(parent, p, i);
        }
      }
      assert LinkPath(adj, w, s, parent', done, v, d + w(u, v), q);
    }
  }

  lemma GrowLinks(adj: Adj, w: Weights, s: nat, dist: seq<Option<real>>, parent: seq<nat>, done: set<nat>, x: nat)
    requires LinksOk(adj, w, s, dist, parent, done)
    ensures LinksOk(adj, w, s, dist, parent, done + {x})
  {
    forall v: nat | v < |dist| && dist[v].Some? ensures HasLinkPath(adj, w, s, parent, done + {x}, v, dist[v].value) {
      assert HasLinkPath(adj, w, s, parent, done, v, dist[v].value);
      var p :| LinkPath(adj, w, s, parent, done, v, dist[v].value, p);
      assert LinkPath(adj, w, s, parent, done + {x}, v, dist[v].value, p);
    }
  }

  // ------------------------------------------------------------------ what it computes

  lemma {:induction false} DistAlong(adj: Adj, w: Weights, s: nat, dist: seq<Option<real>>, p: seq<nat>)
    requires |dist| == |adj| && IsPath(adj, p) && p[0] == s && dist[s] == Some(0.0)
    requires forall u: nat, v: nat | u < |dist| && dist[u].Some? && Edge(adj, u, v) :: Relaxed(dist, w, u, v)
    ensures AtMost(dist[p[|p| - 1]], Weight(w, p))
  {
    if |p| > 1 {
      var q := p[..|p| - 1];
      forall i | 0 < i < |q| ensures Hop(adj, q, i) {
        assert Hop(adj, p, i);
      }
      DistAlong(adj, w, s, dist, q);
      assert Hop(adj, p, |p| - 1);
      assert Relaxed(dist, w, p[|p| - 2], p[|p| - 1]);
    }
  }

  /** What the search promises: least path weights, and links that trace a path
      of that weight. */
  ghost predicate ShortestPathTree(adj: Adj, w: Weights, s: nat, dist: seq<Option<real>>, parent: seq<nat>) {
    && |dist| == |parent| == |adj|
    && (forall v: nat | v < |adj| :: dist[v].Some? <==> Reach(adj, s, v))
    && (forall v: nat | v < |adj| && dist[v].Some? :: MinWeight(adj, w, s, v, dist[v].value))
    && (forall v: nat | v < |adj| && dist[v].Some? :: Traced(adj, w, s, parent, v, dist[v].value))
    && (forall v: nat | v < |adj| && (dist[v].None? || v == s) :: parent[v] == USIZE_MAX)
  }

  ghost predicate Traced(adj: Adj, w: Weights, s: nat, parent: seq<nat>, v: nat, d: real) {
    exists p :: Joins(adj, p, s, v) && Weight(w, p) == d && forall i | 0 < i < |p| :: Linked(parent, p, i)
  }

  lemma Exhausted(adj: Adj, w: Weights, s: nat, dist: seq<Option<real>>, parent: seq<nat>, done: set<nat>)
    requires Inv(adj, w, s, dist, parent, multiset{}, done) && DoneRelaxed(adj, w, dist, done)
    ensures ShortestPathTree(adj, w, s, dist, parent)
  {
    forall v: nat | v < |adj| && dist[v].Some?
      ensures v in done && Traced(adj, w, s, parent, v, dist[v].value) && Reach(adj, s, v)
    {
      assert HasLinkPath(adj, w, s, parent, done, v, dist[v].value);
      var p :| LinkPath(adj, w, s, parent, done, v, dist[v].value, p);
    }
    forall v: nat, p | v < |adj| && Joins(adj, p, s, v) ensures AtMost(dist[v], Weight(w, p)) {
      DistAlong(adj, w, s, dist, p);
    }
  }

  // ------------------------------------------------------------------ the algorithm

  /** The node in work, `u`, has relaxed its first `j` entries. */
  ghost predicate Expanding(adj: Adj, w: Weights, dist: seq<Option<real>>, done: set<nat>, u: nat, j: nat) {
    && u in done && u < |adj| == |dist| && dist[u].Some? && j <= |adj[u]|
    && (forall x: nat, v: nat | x in done && x != u && Edge(adj, x, v) :: Relaxed(dist, w, x, v))
    && (forall k | 0 <= k < j && adj[u][k] < |adj| :: Relaxed(dist, w, u, adj[u][k]))
    && (forall x | x in done :: x < |dist| && AtMost(dist[x], dist[u].value))
  }

  /** A shorter way keeps what was relaxed, since its target is not done. */
  lemma RelaxExpanding(adj: Adj, w: Weights, dist: seq<Option<real>>, done: set<nat>, u: nat, j: nat)
    requires Expanding(adj, w, dist, done, u, j) && j < |adj[u]| && adj[u][j] < |adj|
    requires adj[u][j] !in done && Less(dist[u].value + w(u, adj[u][j]), dist[adj[u][j]])
    ensures Expanding(adj, w, dist[adj[u][j] := Some(dist[u].value + w(u, adj[u][j]))], done, u, j + 1)
  {
    var v := adj[u][j];
    var dist' := dist[v := Some(dist[u].value + w(u, v))];
    forall x: nat, y: nat | x in done && x != u && Edge(adj, x, y) ensures Relaxed(dist', w, x, y) {
      assert Relaxed(dist, w, x, y);
    }
    forall k | 0 <= k < j + 1 && adj[u][k] < |adj| ensures Relaxed(dist', w, u, adj[u][k]) {
      if k < j {
        assert Relaxed(dist, w, u, adj[u][k]);
      }
    }
  }

  lemma NotDone(adj: Adj, w: Weights, dist: seq<Option<real>>, done: set<nat>, u: nat, v: nat)
    requires u < |dist| && dist[u].Some? && v < |dist| && w(u, v) >= 0.0 && Less(dist[u].value + w(u, v), dist[v])
    requires forall x | x in done :: x < |dist| && AtMost(dist[x], dist[u].value)
    ensures v !in done
  {
  }

  lemma RelaxKeeps(adj: Adj, w: Weights, s: nat, dist: seq<Option<real>>, parent: seq<nat>, heap: multiset<Entry>,
                   done: set<nat>, u: nat, v: nat)
    requires Inv(adj, w, s, dist, parent, heap, done) && NonNegative(adj, w) && s in done
    requires u in done && u < |dist| && dist[u].Some? && Edge(adj, u, v) && Less(dist[u].value + w(u, v), dist[v])
    requires forall x | x in done :: x < |dist| && AtMost(dist[x], dist[u].value)
    ensures var d := dist[u].value + w(u, v);
      v !in done && Inv(adj, w, s, dist[v := Some(d)], parent[v := u], heap + multiset{(d, v)}, done)
  {
    hide HeapOk, DoneOk, LinksOk;
    NotDone(adj, w, dist, done, u, v);
    RelaxHeap(dist, done, heap, v, dist[u].value + w(u, v));
    RelaxDone(dist, done, heap, v, dist[u].value + w(u, v));
    RelaxLinks(adj, w, s, dist, parent, done, u, v);
  }

  lemma LookExpanding(adj: Adj, w: Weights, dist: seq<Option<real>>, done: set<nat>, u: nat, j: nat)
    requires Expanding(adj, w, dist, done, u, j) && j < |adj[u]|
    requires adj[u][j] < |adj| ==> !Less(dist[u].value + w(u, adj[u][j]), dist[adj[u][j]])
    ensures Expanding(adj, w, dist, done, u, j + 1)
  {
  }

  method Write(dist: array<Option<real>>, parent: array<nat>, v: nat, d: real, u: nat)
    requires v < dist.Length == parent.Length
    modifies dist, parent
    ensures dist[..] == old(dist[..])[v := Some(d)] && parent[..] == old(parent[..])[v := u]
  {
    dist[v] := Some(d);
    parent[v] := u;
  }

  /** Relaxes every entry of a node that was just settled. */
  method Relax(g: Csr, w: Weights, node: nat, d: real, dist: array<Option<real>>, parent: array<nat>,
               heap0: multiset<Entry>,
               ghost adj: Adj, ghost s: nat, ghost done: set<nat>)
      returns (heap: multiset<Entry>)
    requires g.Valid() && adj == Lists(g) && NonNegative(adj, w) && s in done
    requires Inv(adj, w, s, dist[..], parent[..], heap0, done) && Expanding(adj, w, dist[..], done, node, 0)
    requires dist[node] == Some(d)
    modifies dist, parent
    ensures Inv(adj, w, s, dist[..], parent[..], heap, done) && DoneRelaxed(adj, w, dist[..], done)
    ensures forall x <- done | x < dist.Length :: dist[x] == old(dist[x])
  {
    hide Inv, Expanding;
    Sizes(adj, w, s, dist[..], parent[..], heap0, done, node, 0);
    heap := heap0;
    var n, lo, hi := g.NumNodes(), g.offsets[node], g.offsets[node + 1];
    for e := lo to hi
      invariant Inv(adj, w, s, dist[..], parent[..], heap, done) && Expanding(adj, w, dist[..], done, node, e - lo)
      invariant dist[node] == Some(d)
      invariant forall x <- done | x < dist.Length :: dist[x] == old(dist[x])
    {
      Sizes(adj, w, s, dist[..], parent[..], heap, done, node, e - lo);
      var neighbor := g.adjacency[e].1.offset;
      assert neighbor == adj[node][e - lo];
      if neighbor < n && Less(d + w(node, neighbor), dist[neighbor]) {
        RelaxKeeps(adj, w, s, dist[..], parent[..], heap, done, node, neighbor);
        RelaxExpanding(adj, w, dist[..], done, node, e - lo);
        Write(dist, parent, neighbor, d + w(node, neighbor), node);
        heap := heap + multiset{(d + w(node, neighbor), neighbor)};
      } else {
        LookExpanding(adj, w, dist[..], done, node, e - lo);
      }
    }
    AllRelaxed(adj, w, dist[..], done, node);
  }

  lemma Sizes(adj: Adj, w: Weights, s: nat, dist: seq<Option<real>>, parent: seq<nat>, heap: multiset<Entry>,
              done: set<nat>, u: nat, j: nat)
    requires Inv(adj, w, s, dist, parent, heap, done) && Expanding(adj, w, dist, done, u, j)
    ensures |dist| == |parent| == |adj| && u < |adj| && u in done
    ensures forall x | x in done :: x < |dist| && dist[u].Some? && AtMost(dist[x], dist[u].value)
  {
  }

  lemma AllRelaxed(adj: Adj, w: Weights, dist: seq<Option<real>>, done: set<nat>, u: nat)
    requires u < |adj| && Expanding(adj, w, dist, done, u, |adj[u]|)
    ensures DoneRelaxed(adj, w, dist, done)
  {
    forall x: nat, v: nat | x in done && Edge(adj, x, v) ensures Relaxed(dist, w, x, v) {
      if x == u {
        var k :| 0 <= k < |adj[u]| && adj[u][k] == v;
      }
    }
  }

  lemma Settle(adj: Adj, w: Weights, s: nat, dist: seq<Option<real>>, parent: seq<nat>, heap: multiset<Entry>,
               done: set<nat>, t: Entry)
    requires Inv(adj, w, s, dist, parent, heap, done) && DoneRelaxed(adj, w, dist, done)
    requires IsTop(heap, t) && t.1 < |dist| && !Less'(dist[t.1], t.0) && (s in done || t.1 == s)
    ensures t.1 !in done && dist[t.1] == Some(t.0)
    ensures Inv(adj, w, s, dist, parent, heap - multiset{t}, done + {t.1})
    ensures Expanding(adj, w, dist, done + {t.1}, t.1, 0)
  {
    SettleHeap(dist, done, heap, t);
    GrowLinks(adj, w, s, dist, parent, done, t.1);
  }

  lemma Skip(adj: Adj, w: Weights, s: nat, dist: seq<Option<real>>, parent: seq<nat>, heap: multiset<Entry>,
             done: set<nat>, t: Entry)
    requires Inv(adj, w, s, dist, parent, heap, done) && t in heap && t.1 < |dist| && Less'(dist[t.1], t.0)
    ensures Inv(adj, w, s, dist, parent, heap - multiset{t}, done)
  {
    SkipHeap(dist, done, heap, t);
  }

  lemma Start(adj: Adj, w: Weights, s: nat, dist: seq<Option<real>>, parent: seq<nat>)
    requires s < |adj| == |dist| == |parent| && forall v | 0 <= v < |adj| :: dist[v] == None && parent[v] == USIZE_MAX
    ensures Inv(adj, w, s, dist[s := Some(0.0)], parent, multiset{(0.0, s)}, {})
  {
    assert LinkPath(adj, w, s, parent, {}, s, 0.0, [s]);
    assert HasLinkPath(adj, w, s, parent, {}, s, 0.0);
  }

  lemma TopInRange(adj: Adj, w: Weights, s: nat, dist: seq<Option<real>>, parent: seq<nat>, heap: multiset<Entry>,
                   done: set<nat>, t: Entry)
    requires Inv(adj, w, s, dist, parent, heap, done) && t in heap
    ensures t.1 < |dist| == |adj| == |parent| && dist[t.1].Some?
    ensures forall x | x in done :: x < |adj|
  {
  }

  /** Until the source is settled, it is all there is in the heap. */
  ghost predicate SourceFirst(s: nat, heap: multiset<Entry>, done: set<nat>) {
    s in done || forall e | e in heap :: e.1 == s
  }

  /** The nodes have distances that do not decrease along the list. */
  ghost predicate NonDecreasing(dist: seq<Option<real>>, list: seq<nat>) {
    && (forall i | 0 <= i < |list| :: list[i] < |dist| && dist[list[i]].Some?)
    && (forall i, j | 0 <= i < j < |list| :: dist[list[i]].value <= dist[list[j]].value)
  }

  lemma NothingTwice()
    ensures Distinct<nat>([]) && Elems<nat>([]) == {}
  {
  }

  lemma PushNew(list: seq<nat>, node: nat)
    requires Distinct(list) && node !in Elems(list)
    ensures Distinct(list + [node]) && Elems(list + [node]) == Elems(list) + {node}
  {
    assert forall i | 0 <= i < |list| :: list[i] in Elems(list);
  }

  lemma LastSettled(adj: Adj, w: Weights, dist: seq<Option<real>>, done: set<nat>, list: seq<nat>, node: nat)
    requires Expanding(adj, w, dist, done, node, 0) && NonDecreasing(dist, list) && Elems(list) <= done
    ensures NonDecreasing(dist, list + [node])
  {
    forall i | 0 <= i < |list| ensures dist[list[i]].value <= dist[node].value {
      assert list[i] in Elems(list);
    }
  }

  lemma SettledStay(dist: seq<Option<real>>, dist': seq<Option<real>>, list: seq<nat>)
    requires NonDecreasing(dist, list) && |dist'| == |dist| && forall x <- list | x < |dist| :: dist'[x] == dist[x]
    ensures NonDecreasing(dist', list)
  {
    forall i | 0 <= i < |list| ensures dist'[list[i]] == dist[list[i]] {
      assert list[i] in list;
    }
  }

  /** With the heap used up, exactly the reachable nodes have been expanded. */
  lemma ExpandedAll(adj: Adj, w: Weights, s: nat, dist: seq<Option<real>>, parent: seq<nat>, done: set<nat>,
                    list: seq<nat>)
    requires Inv(adj, w, s, dist, parent, multiset{}, done) && ShortestPathTree(adj, w, s, dist, parent)
    requires Elems(list) == done
    ensures forall v: nat :: v in list <==> Reach(adj, s, v)
  {
    forall v: nat ensures v in list <==> Reach(adj, s, v) {
      assert v in list <==> v in done;
      if Reach(adj, s, v) {
        var p :| Joins(adj, p, s, v);
        assert p[|p| - 1] < |adj|;
      }
    }
  }

  /** `weighted_shortest_path_internal`; `expanded` lists the nodes in the order
      in which their entries were relaxed. */
  method WeightedShortestPath(g: Csr, source: nat, w: Weights)
      returns (distance: seq<Option<real>>, links: seq<nat>, ghost expanded: seq<nat>)
    requires g.Valid() && NonNegative(Lists(g), w)
    ensures source < g.NumNodes() ==> ShortestPathTree(Lists(g), w, source, distance, links)
    ensures source >= g.NumNodes() ==>
      distance == seq(g.NumNodes(), _ => None) && links == seq(g.NumNodes(), _ => USIZE_MAX)
    ensures Distinct(expanded)
    ensures source < g.NumNodes() ==>
              (forall v: nat :: v in expanded <==> Reach(Lists(g), source, v)) && NonDecreasing(distance, expanded)
  {
    hide Running, ShortestPathTree, NonDecreasing, Distinct, Reach, NonNegative;
    var n := g.NumNodes();
    expanded := [];
    if source >= n {
      NothingTwice();
      return seq(n, _ => None), seq(n, _ => USIZE_MAX), [];
    }
    ghost var adj := Lists(g);
    var dist := new Option<real>[n](_ => None);
    var parent := new nat[n](_ => USIZE_MAX);
    StartRunning(adj, w, source, dist[..], parent[..]);
    dist[source] := Some(0.0);
    var heap := multiset{(0.0, source)};
    while |heap| > 0
      invariant Running(adj, w, source, dist[..], parent[..], heap, expanded) && |expanded| <= n
      decreases n - |expanded|, |heap|
    {
      heap, expanded := Turn(g, w, dist, parent, heap, adj, source, expanded);
    }
    assert heap == multiset{};
    Concluded(adj, w, source, dist[..], parent[..], expanded);
    distance, links := dist[..], parent[..];
  }

  /** The state of the loop: settled nodes are those expanded, once each and by distance. */
  ghost predicate Running(adj: Adj, w: Weights, s: nat, dist: seq<Option<real>>, parent: seq<nat>,
                          heap: multiset<Entry>,
                          expanded: seq<nat>)
  {
    var done := Elems(expanded);
    && Inv(adj, w, s, dist, parent, heap, done) && DoneRelaxed(adj, w, dist, done) && SourceFirst(s, heap, done)
    && Distinct(expanded) && NonDecreasing(dist, expanded)
  }

  lemma StartRunning(adj: Adj, w: Weights, s: nat, dist: seq<Option<real>>, parent: seq<nat>)
    requires s < |adj| == |dist| == |parent| && forall v | 0 <= v < |adj| :: dist[v] == None && parent[v] == USIZE_MAX
    ensures Running(adj, w, s, dist[s := Some(0.0)], parent, multiset{(0.0, s)}, [])
  {
    NothingTwice();
    Start(adj, w, s, dist, parent);
  }

  lemma Concluded(adj: Adj, w: Weights, s: nat, dist: seq<Option<real>>, parent: seq<nat>, expanded: seq<nat>)
    requires Running(adj, w, s, dist, parent, multiset{}, expanded)
    ensures ShortestPathTree(adj, w, s, dist, parent) && Distinct(expanded) && NonDecreasing(dist, expanded)
    ensures forall v: nat :: v in expanded <==> Reach(adj, s, v)
  {
    hide Inv, DoneRelaxed, ShortestPathTree, NonDecreasing;
    Exhausted(adj, w, s, dist, parent, Elems(expanded));
    ExpandedAll(adj, w, s, dist, parent, Elems(expanded), expanded);
  }

  lemma RunningTop(adj: Adj, w: Weights, s: nat, dist: seq<Option<real>>, parent: seq<nat>, heap: multiset<Entry>,
                   expanded: seq<nat>, t: Entry)
    requires Running(adj, w, s, dist, parent, heap, expanded) && t in heap
    ensures t.1 < |dist| == |adj| == |parent| && dist[t.1].Some? && |expanded| <= |adj|
  {
    hide NonDecreasing, DoneRelaxed;
    TopInRange(adj, w, s, dist, parent, heap, Elems(expanded), t);
    InGraph(dist, expanded);
    DistinctBound(expanded, |adj|);
  }

  lemma RunningSkip(adj: Adj, w: Weights, s: nat, dist: seq<Option<real>>, parent: seq<nat>, heap: multiset<Entry>,
                    expanded: seq<nat>, t: Entry)
    requires Running(adj, w, s, dist, parent, heap, expanded) && t in heap && t.1 < |dist| && Less'(dist[t.1], t.0)
    ensures Running(adj, w, s, dist, parent, heap - multiset{t}, expanded)
  {
    hide Inv, NonDecreasing, DoneRelaxed, Distinct;
    Skip(adj, w, s, dist, parent, heap, Elems(expanded), t);
  }

  lemma RunningSettle(adj: Adj, w: Weights, s: nat, dist: seq<Option<real>>, parent: seq<nat>, heap: multiset<Entry>,
                      expanded: seq<nat>, t: Entry)
    requires Running(adj, w, s, dist, parent, heap, expanded)
    requires IsTop(heap, t) && t.1 < |dist| == |adj| && !Less'(dist[t.1], t.0)
    ensures var list := expanded + [t.1]; var done := Elems(list);
      && Inv(adj, w, s, dist, parent, heap - multiset{t}, done) && Expanding(adj, w, dist, done, t.1, 0)
      && dist[t.1] == Some(t.0) && s in done && Distinct(list) && NonDecreasing(dist, list) && |list| <= |adj|
  {
    hide Inv, NonDecreasing, DoneRelaxed, Distinct, Expanding;
    var done := Elems(expanded);
    assert s in done || t.1 == s;
    Settle(adj, w, s, dist, parent, heap, done, t);
    PushNew(expanded, t.1);
    LastSettled(adj, w, dist, done + {t.1}, expanded, t.1);
    InGraph(dist, expanded + [t.1]);
    DistinctBound(expanded + [t.1], |adj|);
  }

  lemma InGraph(dist: seq<Option<real>>, list: seq<nat>)
    requires NonDecreasing(dist, list)
    ensures forall i | 0 <= i < |list| :: list[i] < |dist|
  {
  }

  /** Pops an entry; if it is not stale, settles its node and relaxes its entries. */
  method Turn(g: Csr, w: Weights, dist: array<Option<real>>, parent: array<nat>, heap0: multiset<Entry>,
              ghost adj: Adj, ghost s: nat, ghost expanded0: seq<nat>)
      returns (heap: multiset<Entry>, ghost expanded: seq<nat>)
    requires g.Valid() && adj == Lists(g) && NonNegative(adj, w) && |heap0| > 0
    requires Running(adj, w, s, dist[..], parent[..], heap0, expanded0)
    modifies dist, parent
    ensures Running(adj, w, s, dist[..], parent[..], heap, expanded) && |expanded| <= |adj|
    ensures |expanded| > |expanded0| || (expanded == expanded0 && |heap| < |heap0|)
  {
    hide Inv, Expanding, DoneRelaxed, NonDecreasing, Distinct, NonNegative, Running;
    var top, rest := Pop(heap0);
    RunningTop(adj, w, s, dist[..], parent[..], heap0, expanded0, top);
    var (d, node) := top;
    heap, expanded := rest, expanded0;
    if d > dist[node].value {
      RunningSkip(adj, w, s, dist[..], parent[..], heap0, expanded0, top);
    } else {
      RunningSettle(adj, w, s, dist[..], parent[..], heap0, expanded0, top);
      expanded := expanded0 + [node];
      ghost var before := dist[..];
      heap := Relax(g, w, node, d, dist, parent, rest, adj, s, Elems(expanded));
      RelaxedSizes(adj, w, s, dist[..], parent[..], heap, Elems(expanded));
      SettledStay(before, dist[..], expanded);
      assert Running(adj, w, s, dist[..], parent[..], heap, expanded) by {
        RunningAgain(adj, w, s, dist[..], parent[..], heap, expanded);
      }
    }
  }

  lemma RelaxedSizes(adj: Adj, w: Weights, s: nat, dist: seq<Option<real>>, parent: seq<nat>, heap: multiset<Entry>,
                     done: set<nat>)
    requires Inv(adj, w, s, dist, parent, heap, done)
    ensures |dist| == |parent| == |adj|
  {
  }

  lemma RunningAgain(adj: Adj, w: Weights, s: nat, dist: seq<Option<real>>, parent: seq<nat>, heap: multiset<Entry>,
                     expanded: seq<nat>)
    requires Inv(adj, w, s, dist, parent, heap, Elems(expanded)) && DoneRelaxed(adj, w, dist, Elems(expanded))
    requires s in Elems(expanded) && Distinct(expanded) && NonDecreasing(dist, expanded)
    ensures Running(adj, w, s, dist, parent, heap, expanded)
  {
    hide Inv, DoneRelaxed, Distinct, NonDecreasing;
  }

  // ------------------------------------------------------------------ unit weights

  lemma {:induction false} UnitWeight(w: Weights, p: seq<nat>)
    requires |p| > 0 && forall u, v :: w(u, v) == 1.0
    ensures Weight(w, p) == (|p| - 1) as real
  {
    if |p| > 1 {
      UnitWeight(w, p[..|p| - 1]);
    }
  }

  /** Under unit weights the least path weight is the hop distance. */
  lemma UnitMinWeight(adj: Adj, w: Weights, s: nat, v: nat, d: real, k: nat)
    requires (forall u, v :: w(u, v) == 1.0) && MinWeight(adj, w, s, v, d) && HopDist(adj, s, v, k)
    ensures d == k as real
  {
    var p :| Joins(adj, p, s, v) && Weight(w, p) == d;
    var q :| Joins(adj, q, s, v) && |q| == k + 1;
    UnitWeight(w, p);
    UnitWeight(w, q);
  }

  /** With unit weights the distances are those of the breadth-first search. */
  lemma UnitWeightsAgreeWithBfs(adj: Adj, w: Weights, s: nat, dist: seq<Option<real>>, parent: seq<nat>,
                                hops: seq<Option<nat>>, links: seq<Option<nat>>)
    requires (forall u, v :: w(u, v) == 1.0) && s < |adj|
    requires ShortestPathTree(adj, w, s, dist, parent) && Bfs.ShortestPathTree(adj, s, hops, links)
    ensures forall v | 0 <= v < |adj| :: dist[v] == if hops[v].Some? then Some(hops[v].value as real) else None
  {
    forall v | 0 <= v < |adj| ensures dist[v] == if hops[v].Some? then Some(hops[v].value as real) else None {
      if hops[v].Some? {
        var p :| Joins(adj, p, s, v) && |p| == hops[v].value + 1;
        assert Reach(adj, s, v);
        UnitMinWeight(adj, w, s, v, dist[v].value, hops[v].value);
      }
    }
  }
}
