/** Kosaraju's algorithm (akar-algo `compute_scc_kosaraju`): a depth-first
    finish order, a flat reverse CSR, and reverse searches in decreasing finish
    order. */
module Kosaraju {
  import opened Graphs
  import opened Buckets

  // ------------------------------------------------------------------ finish order

  /** The first search.  `path` and `cur` are its explicit stack, as in the
      source's (node, next entry) pairs; `fin[v]` is the position of `v` in
      `order`, or the sentinel while `v` is unfinished. */
  datatype State = State(seen: set<nat>, order: seq<nat>, path: seq<nat>, cur: seq<nat>, fin: seq<nat>)

  function Top(path: seq<nat>): nat
    requires |path| > 0
  {
    path[|path| - 1]
  }

  ghost predicate Sized(adj: Adj, s: State) {
    && |adj| < USIZE_MAX && |s.cur| == |s.fin| == |adj|
    && (forall x | x in s.seen :: x < |adj|)
  }

  /** Active nodes are visited, unfinished and distinct; each reaches the later ones. */
  ghost predicate PathOk(adj: Adj, seen: set<nat>, path: seq<nat>, fin: seq<nat>) {
    && (forall k | 0 <= k < |path| :: path[k] in seen && path[k] < |fin| && fin[path[k]] == USIZE_MAX)
    && (forall j, k | 0 <= j < k < |path| :: path[j] != path[k])
    && (forall j, k | 0 <= j <= k < |path| :: Reach(adj, path[j], path[k]))
  }

  /** `order` lists the finished nodes and `fin` is its inverse. */
  ghost predicate OrderOk(seen: set<nat>, order: seq<nat>, fin: seq<nat>) {
    && (forall p | 0 <= p < |order| :: order[p] in seen && order[p] < |fin| && fin[order[p]] == p)
    && (forall x | 0 <= x < |fin| && fin[x] != USIZE_MAX :: fin[x] < |order| && order[fin[x]] == x)
  }

  ghost predicate CursorOk(adj: Adj, seen: set<nat>, path: seq<nat>, cur: seq<nat>, fin: seq<nat>)
    requires |cur| == |fin| == |adj|
  {
    && (forall x: nat | x < |adj| :: cur[x] <= |adj[x]| && (x !in seen ==> cur[x] == 0))
    && (forall x | x in seen && x < |fin| && fin[x] == USIZE_MAX :: x in path)
    && (forall x: nat | x < |adj| && fin[x] != USIZE_MAX :: cur[x] == |adj[x]|)
    && (forall x: nat, j | x < |adj| && 0 <= j < cur[x] && adj[x][j] < |adj| :: adj[x][j] in seen)
  }

  /** The property the finish order is computed for: when `y` was finished,
      whatever an edge out of the finished nodes led to was finished, or was
      active and so reaches `y`. */
  ghost predicate FinishOk(adj: Adj, fin: seq<nat>)
    requires |fin| == |adj|
  {
    forall x: nat, y: nat, w: nat | x < |adj| && y < |adj| && fin[x] <= fin[y] != USIZE_MAX && Edge(adj, x, w)
      :: fin[w] <= fin[y] || Reach(adj, w, y)
  }

  ghost predicate Inv(adj: Adj, s: State) {
    && Sized(adj, s)
    && PathOk(adj, s.seen, s.path, s.fin)
    && OrderOk(s.seen, s.order, s.fin)
    && CursorOk(adj, s.seen, s.path, s.cur, s.fin)
    && FinishOk(adj, s.fin)
  }

  predicate HasNext(adj: Adj, s: State) {
    |s.path| > 0 && Top(s.path) < |adj| && Top(s.path) < |s.cur| && s.cur[Top(s.path)] < |adj[Top(s.path)]|
  }

  function NextTarget(adj: Adj, s: State): nat
    requires HasNext(adj, s)
  {
    adj[Top(s.path)][s.cur[Top(s.path)]]
  }

  function Advance(s: State): State
    requires |s.path| > 0 && Top(s.path) < |s.cur|
  {
    s.(cur := s.cur[Top(s.path) := s.cur[Top(s.path)] + 1])
  }

  function Enter(s: State, w: nat): State {
    s.(seen := s.seen + {w}, path := s.path + [w])
  }

  function Finish(s: State): State
    requires |s.path| > 0 && Top(s.path) < |s.fin|
  {
    s.(order := s.order + [Top(s.path)], path := s.path[..|s.path| - 1], fin := s.fin[Top(s.path) := |s.order|])
  }

  /** One turn of the inner loop of the first search. */
  function Turn(adj: Adj, s: State): State
    requires |s.path| > 0 && Top(s.path) < |s.cur| == |s.fin|
  {
    if HasNext(adj, s) then
      var w := NextTarget(adj, s);
      if w < |adj| && w !in s.seen then Enter(Advance(s), w) else Advance(s)
    else Finish(s)
  }

  lemma AdvanceCursor(adj: Adj, seen: set<nat>, path: seq<nat>, cur: seq<nat>, fin: seq<nat>, v: nat)
    requires |cur| == |fin| == |adj| && CursorOk(adj, seen, path, cur, fin)
    requires v < |adj| && v in seen && fin[v] == USIZE_MAX && cur[v] < |adj[v]|
    requires adj[v][cur[v]] < |adj| ==> adj[v][cur[v]] in seen
    ensures CursorOk(adj, seen, path, cur[v := cur[v] + 1], fin)
  {
  }

  lemma EnterCursor(adj: Adj, seen: set<nat>, path: seq<nat>, cur: seq<nat>, fin: seq<nat>, w: nat)
    requires |cur| == |fin| == |adj| && CursorOk(adj, seen, path, cur, fin)
    ensures CursorOk(adj, seen + {w}, path + [w], cur, fin)
  {
    assert (path + [w])[|path|] == w;
  }

  lemma EnterPath(adj: Adj, seen: set<nat>, path: seq<nat>, fin: seq<nat>, w: nat)
    requires PathOk(adj, seen, path, fin) && w !in seen && w < |fin| == |adj| && fin[w] == USIZE_MAX
    requires |path| > 0 ==> Edge(adj, Top(path), w)
    ensures PathOk(adj, seen + {w}, path + [w], fin)
  {
    ReachSelf(adj, w);
    forall j | 0 <= j < |path| ensures Reach(adj, path[j], w) {
      ReachEdge(adj, Top(path), w);
      ReachTrans(adj, path[j], path[|path| - 1], w);
    }
  }

  lemma FinishPath(adj: Adj, seen: set<nat>, path: seq<nat>, fin: seq<nat>, t: nat)
    requires PathOk(adj, seen, path, fin) && |path| > 0
    ensures PathOk(adj, seen, path[..|path| - 1], fin[Top(path) := t])
  {
  }

  lemma FinishPushes(seen: set<nat>, order: seq<nat>, fin: seq<nat>, v: nat)
    requires OrderOk(seen, order, fin) && v in seen && v < |fin| && fin[v] == USIZE_MAX && |order| < USIZE_MAX
    ensures OrderOk(seen, order + [v], fin[v := |order|])
  {
  }

  lemma FinishCursor(adj: Adj, seen: set<nat>, path: seq<nat>, cur: seq<nat>, fin: seq<nat>, t: nat)
    requires |cur| == |fin| == |adj| && |path| > 0 && CursorOk(adj, seen, path, cur, fin)
    requires Top(path) < |adj| && cur[Top(path)] == |adj[Top(path)]| && t != USIZE_MAX
    ensures CursorOk(adj, seen, path[..|path| - 1], cur, fin[Top(path) := t])
  {
    var v := Top(path);
    assert path == path[..|path| - 1] + [v];
  }

  lemma FinishFinish(adj: Adj, s: State)
    requires Sized(adj, s) && |s.path| > 0 && !HasNext(adj, s) && |s.order| < USIZE_MAX
    requires PathOk(adj, s.seen, s.path, s.fin) && OrderOk(s.seen, s.order, s.fin)
    requires CursorOk(adj, s.seen, s.path, s.cur, s.fin) && FinishOk(adj, s.fin)
    ensures FinishOk(adj, s.fin[Top(s.path) := |s.order|])
  {
    var v, fin' := Top(s.path), s.fin[Top(s.path) := |s.order|];
    forall x: nat, y: nat, w: nat | x < |adj| && y < |adj| && fin'[x] <= fin'[y] != USIZE_MAX && Edge(adj, x, w)
      ensures fin'[w] <= fin'[y] || Reach(adj, w, y)
    {
      if y == v {
        var j :| 0 <= j < |adj[x]| && adj[x][j] == w;
        assert s.cur[x] == |adj[x]|;
        assert w in s.seen;
        if s.fin[w] == USIZE_MAX {
          var k :| 0 <= k < |s.path| && s.path[k] == w;
          assert Reach(adj, s.path[k], s.path[|s.path| - 1]);
        }
      } else {
        assert s.fin[y] < |s.order|;
        assert x != v;
      }
    }
  }

  lemma RoomInOrder(adj: Adj, s: State)
    requires Sized(adj, s) && OrderOk(s.seen, s.order, s.fin)
    ensures |s.order| <= |adj|
  {
    DistinctBound(s.order, |adj|);
  }

  lemma EnterKeeps(adj: Adj, s: State, w: nat)
    requires Inv(adj, s) && w < |adj| && w !in s.seen
    requires |s.path| > 0 ==> HasNext(adj, s) && NextTarget(adj, s) == w
    ensures Inv(adj, Enter(if |s.path| > 0 then Advance(s) else s, w))
  {
    assert s.fin[w] == USIZE_MAX;
    EnterPath(adj, s.seen, s.path, s.fin, w);
    EnterCursor(adj, s.seen, s.path, s.cur, s.fin, w);
    if |s.path| > 0 {
      assert s.path[|s.path| - 1] in s.seen;
      AdvanceCursor(adj, s.seen + {w}, s.path + [w], s.cur, s.fin, Top(s.path));
    }
  }

  lemma TurnKeeps(adj: Adj, s: State)
    requires Inv(adj, s) && |s.path| > 0
    ensures Top(s.path) < |adj| && Inv(adj, Turn(adj, s))
  {
    var v := Top(s.path);
    assert v == s.path[|s.path| - 1];
    if HasNext(adj, s) {
      var w := NextTarget(adj, s);
      if w < |adj| && w !in s.seen {
        EnterKeeps(adj, s, w);
      } else {
        AdvanceCursor(adj, s.seen, s.path, s.cur, s.fin, v);
      }
    } else {
      RoomInOrder(adj, s);
      FinishPath(adj, s.seen, s.path, s.fin, |s.order|);
      FinishPushes(s.seen, s.order, s.fin, v);
      FinishCursor(adj, s.seen, s.path, s.cur, s.fin, |s.order|);
      FinishFinish(adj, s);
    }
  }

  // ------------------------------------------------------ what the order is good for

  /** `fin` numbers all nodes differently, and has the finish property. */
  ghost predicate FinishOrdering(adj: Adj, fin: seq<nat>) {
    && |fin| == |adj|
    && (forall x | 0 <= x < |adj| :: fin[x] != USIZE_MAX)
    && (forall x, y | 0 <= x < |adj| && 0 <= y < |adj| && fin[x] == fin[y] :: x == y)
    && FinishOk(adj, fin)
  }

  lemma PathPrefix(adj: Adj, p: seq<nat>, i: nat)
    requires IsPath(adj, p) && i < |p|
    ensures Reach(adj, p[0], p[i])
  {
    var q := p[..i + 1];
    forall k | 0 < k < |q| ensures Hop(adj, q, k) {
      assert Hop(adj, p, k);
    }
    assert Joins(adj, q, p[0], p[i]);
  }

  /** A node that reaches a later finished one is strongly connected to a later
      finished one. */
  lemma ClimbOne(adj: Adj, fin: seq<nat>, x: nat, z: nat) returns (y: nat)
    requires FinishOrdering(adj, fin) && x < |adj| && z < |adj| && Reach(adj, x, z) && fin[x] < fin[z]
    ensures y < |adj| && fin[x] < fin[y] && Mutual(adj, x, y)
  {
    var p :| Joins(adj, p, x, z);
    var i := 0;
    while fin[p[i]] <= fin[x]
      invariant i < |p| && forall k | 0 <= k < i :: fin[p[k]] <= fin[x]
      decreases |p| - i
    {
      i := i + 1;
    }
    assert Hop(adj, p, i);
    PathPrefix(adj, p, i);
    y := p[i];
  }

  /** A set that contains whole components only. */
  ghost predicate WholeComponents(adj: Adj, done: set<nat>) {
    forall x: nat, y: nat | x in done && y < |adj| && Mutual(adj, x, y) :: y in done
  }

  /** Outside a union of components, the latest finished node can only be
      reached from its own component. */
  lemma Climb(adj: Adj, fin: seq<nat>, done: set<nat>, v: nat, x: nat)
    requires FinishOrdering(adj, fin) && WholeComponents(adj, done)
    requires v < |adj| && x < |adj| && x !in done && Reach(adj, x, v)
    requires forall z: nat | z < |adj| && z !in done :: fin[z] <= fin[v]
    ensures Reach(adj, v, x)
    decreases fin[v] - fin[x]
  {
    if x == v {
      ReachSelf(adj, v);
    } else {
      assert fin[x] < fin[v];
      var y := ClimbOne(adj, fin, x, v);
      ReachTrans(adj, y, x, v);
      Climb(adj, fin, done, v, y);
      ReachTrans(adj, v, y, x);
    }
  }

  // ------------------------------------------------------------------ reverse search

  ghost predicate Used(done: set<nat>, comp: seq<nat>, c: nat) {
    exists x: nat :: x in done && x < |comp| && comp[x] == c
  }

  /** The components found so far: whole, closed under predecessors, numbered
      without gaps in topological order, told apart by mutual reachability. */
  ghost predicate Emitted(adj: Adj, done: set<nat>, comp: seq<nat>, compId: nat) {
    && |comp| == |adj|
    && (forall x | x in done :: x < |adj| && comp[x] < compId)
    && WholeComponents(adj, done)
    && BackClosed(adj, done)
    && (forall x: nat, y: nat | y in done && x in done && Edge(adj, x, y) :: comp[x] <= comp[y])
    && (forall c: nat | c < compId :: Used(done, comp, c))
    && (forall x, y | x in done && y in done :: comp[x] == comp[y] <==> Mutual(adj, x, y))
  }

  /** `x` carries the current id and all its predecessors are visited. */
  ghost predicate Expanded(adj: Adj, visited: set<nat>, comp: seq<nat>, compId: nat, x: nat) {
    && x < |comp| && comp[x] == compId
    && forall u: nat | Edge(adj, u, x) :: u in visited
  }

  /** The search for the component of `v`: everything found reaches `v`, and is
      expanded unless it waits on the stack or is the node `cur` in work. */
  ghost predicate Searching(adj: Adj, done: set<nat>, found: set<nat>, stack: seq<nat>, comp: seq<nat>, compId: nat,
                            v: nat, cur: set<nat>)
  {
    && v in found && done !! found
    && (forall x | x in found :: x < |adj| && Reach(adj, x, v))
    && (forall i | 0 <= i < |stack| :: stack[i] in found)
    && (forall x | x in found && x !in stack && x !in cur :: Expanded(adj, done + found, comp, compId, x))
  }

  /** With nothing left to expand, the nodes found are exactly the component of `v`. */
  lemma FoundIsComponent(adj: Adj, fin: seq<nat>, done: set<nat>, found: set<nat>, comp: seq<nat>, compId: nat, v: nat)
    requires FinishOrdering(adj, fin) && Emitted(adj, done, comp, compId)
    requires Searching(adj, done, found, [], comp, compId, v, {})
    requires forall z: nat | z < |adj| && z !in done :: fin[z] <= fin[v]
    ensures BackClosed(adj, done + found)
    ensures forall x: nat | x < |adj| :: x in found <==> Mutual(adj, x, v)
  {
    forall x: nat, y: nat | y in done + found && Edge(adj, x, y) ensures x in done + found {
      if y in found {
        assert Expanded(adj, done + found, comp, compId, y);
      }
    }
    forall x: nat | x < |adj| ensures x in found <==> Mutual(adj, x, v) {
      if x in found {
        Climb(adj, fin, done, v, x);
      } else if Mutual(adj, x, v) {
        BackClosedUnderReach(adj, done + found, x, v);
        assert false;
      }
    }
  }

  lemma CloseComponent(adj: Adj, fin: seq<nat>, done: set<nat>, found: set<nat>, comp: seq<nat>, compId: nat, v: nat)
    requires FinishOrdering(adj, fin) && Emitted(adj, done, comp, compId)
    requires Searching(adj, done, found, [], comp, compId, v, {})
    requires forall z: nat | z < |adj| && z !in done :: fin[z] <= fin[v]
    ensures Emitted(adj, done + found, comp, compId + 1)
  {
    FoundIsComponent(adj, fin, done, found, comp, compId, v);
    var all := done + found;
    forall x | x in found ensures comp[x] == compId {
      assert Expanded(adj, all, comp, compId, x);
    }
    forall x: nat, y: nat | x in all && y < |adj| && Mutual(adj, x, y) ensures y in all {
      MutualAlong(adj, x, y, v);
    }
    forall c: nat | c < compId + 1 ensures Used(all, comp, c) {
      if c < compId {
        assert Used(done, comp, c);
        var x: nat :| x in done && x < |comp| && comp[x] == c;
        assert x in all;
      } else {
        assert v in all && comp[v] == c;
      }
    }
    forall x, y | x in all && y in all ensures comp[x] == comp[y] <==> Mutual(adj, x, y) {
      MutualAlong(adj, x, y, v);
      MutualAlong(adj, y, x, v);
      if x in found && y in found {
        ReachTrans(adj, x, v, y);
        ReachTrans(adj, y, v, x);
      }
    }
  }

  /** Mutual reachability carries over. */
  lemma MutualAlong(adj: Adj, x: nat, y: nat, v: nat)
    ensures Mutual(adj, x, y) && Mutual(adj, x, v) ==> Mutual(adj, y, v)
  {
    if Mutual(adj, x, y) && Mutual(adj, x, v) {
      ReachTrans(adj, y, x, v);
      ReachTrans(adj, v, x, y);
    }
  }

  /** Popping `x` puts it in work with its id set. */
  lemma PopSearch(adj: Adj, done: set<nat>, found: set<nat>, stack: seq<nat>, comp: seq<nat>, compId: nat, v: nat)
    requires Searching(adj, done, found, stack, comp, compId, v, {}) && |stack| > 0 && |comp| == |adj|
    ensures var x := stack[|stack| - 1];
      && x < |comp|
      && Searching(adj, done, found, stack[..|stack| - 1], comp[x := compId], compId, v, {x})
  {
    var x, rest := stack[|stack| - 1], stack[..|stack| - 1];
    assert x in found;
    assert stack == rest + [x];
    forall y | y in found && y !in rest && y != x ensures Expanded(adj, done + found, comp[x := compId], compId, y) {
      assert Expanded(adj, done + found, comp, compId, y);
    }
  }

  /** A predecessor of the node in work is found and put on the stack. */
  lemma PushSearch(adj: Adj, done: set<nat>, found: set<nat>, stack: seq<nat>, comp: seq<nat>, compId: nat, v: nat,
                   x: nat, w: nat)
    requires Searching(adj, done, found, stack, comp, compId, v, {x}) && x in found
    requires Edge(adj, w, x) && w !in done + found
    ensures Searching(adj, done, found + {w}, stack + [w], comp, compId, v, {x})
  {
    ReachEdge(adj, w, x);
    ReachTrans(adj, w, x, v);
    var stack' := stack + [w];
    forall y | y in found + {w} && y !in stack' && y != x ensures Expanded(adj, done + (found + {w}), comp, compId, y) {
      assert stack'[|stack|] == w;
      assert y in found && y !in stack;
      assert Expanded(adj, done + found, comp, compId, y);
    }
  }

  lemma EndSearch(adj: Adj, done: set<nat>, found: set<nat>, stack: seq<nat>, comp: seq<nat>, compId: nat, v: nat,
                  x: nat)
    requires Searching(adj, done, found, stack, comp, compId, v, {x}) && x < |comp| && comp[x] == compId
    requires forall u: nat | Edge(adj, u, x) :: u in done + found
    ensures Searching(adj, done, found, stack, comp, compId, v, {})
  {
    assert Expanded(adj, done + found, comp, compId, x);
  }

  lemma EmittedFrame(adj: Adj, done: set<nat>, comp: seq<nat>, comp': seq<nat>, compId: nat)
    requires Emitted(adj, done, comp, compId) && |comp'| == |comp|
    requires forall x | x in done :: x < |comp| && comp'[x] == comp[x]
    ensures Emitted(adj, done, comp', compId)
  {
    forall c: nat | c < compId ensures Used(done, comp', c) {
      assert Used(done, comp, c);
      var x: nat :| x in done && x < |comp| && comp[x] == c;
      assert comp'[x] == c;
    }
  }

  // ------------------------------------------------------------------ reverse CSR

  ghost predicate At(adj: Adj, v: nat, j: nat) {
    (v < |adj| && j <= |adj[v]|) || (v == |adj| && j == 0)
  }

  /** The in-range targets of all entries before the `j`-th entry of `v`. */
  ghost function Keys(adj: Adj, v: nat, j: nat): (r: seq<nat>)
    requires At(adj, v, j)
    ensures forall i | 0 <= i < |r| :: r[i] < |adj|
    decreases v, j
  {
    if j > 0 then if adj[v][j - 1] < |adj| then Keys(adj, v, j - 1) + [adj[v][j - 1]] else Keys(adj, v, j - 1)
    else if v > 0 then Keys(adj, v - 1, |adj[v - 1]|)
    else []
  }

  /** The nodes those entries belong to. */
  ghost function Sources(adj: Adj, v: nat, j: nat): (r: seq<nat>)
    requires At(adj, v, j)
    ensures |r| == |Keys(adj, v, j)|
    decreases v, j
  {
    if j > 0 then if adj[v][j - 1] < |adj| then Sources(adj, v, j - 1) + [v] else Sources(adj, v, j - 1)
    else if v > 0 then Sources(adj, v - 1, |adj[v - 1]|)
    else []
  }

  lemma {:induction false} FlatPrefix(adj: Adj, v: nat, j: nat)
    requires At(adj, v, j)
    ensures Keys(adj, v, j) <= Keys(adj, |adj|, 0) && Sources(adj, v, j) <= Sources(adj, |adj|, 0)
    decreases |adj| - v, if v < |adj| then |adj[v]| - j else 0
  {
    hide Keys, Sources;
    if v < |adj| {
      FlatStep(adj, v, j);
      if j < |adj[v]| {
        FlatPrefix(adj, v, j + 1);
      } else {
        FlatPrefix(adj, v + 1, 0);
      }
    }
  }

  lemma FlatStep(adj: Adj, v: nat, j: nat)
    requires v < |adj| && At(adj, v, j)
    ensures j < |adj[v]| ==> Keys(adj, v, j) <= Keys(adj, v, j + 1) && Sources(adj, v, j) <= Sources(adj, v, j + 1)
    ensures j == |adj[v]| ==> Keys(adj, v, j) == Keys(adj, v + 1, 0) && Sources(adj, v, j) == Sources(adj, v + 1, 0)
  {
  }

  ghost predicate Listed(keys: seq<nat>, sources: seq<nat>, u: nat, w: nat)
    requires |keys| == |sources|
  {
    exists i :: 0 <= i < |keys| && keys[i] == w && sources[i] == u
  }

  lemma ListedPush(keys: seq<nat>, sources: seq<nat>, u: nat, w: nat, v: nat, x: nat)
    requires |keys| == |sources|
    ensures Listed(keys + [x], sources + [v], u, w) <==> Listed(keys, sources, u, w) || (x == w && v == u)
  {
    var ks, vs := keys + [x], sources + [v];
    if i :| 0 <= i < |keys| && keys[i] == w && sources[i] == u {
      assert ks[i] == w && vs[i] == u;
    }
    if x == w && v == u {
      assert ks[|keys|] == w && vs[|keys|] == u;
    }
  }

  /** The flattened entries are the edges. */
  lemma {:induction false} FlatEdges(adj: Adj, v: nat, j: nat, u: nat, w: nat)
    requires At(adj, v, j) && w < |adj|
    ensures Listed(Keys(adj, v, j), Sources(adj, v, j), u, w)
      <==> (u < v && w in adj[u]) || (u == v < |adj| && w in adj[v][..j])
    decreases v, j
  {
    if j > 0 {
      FlatEdges(adj, v, j - 1, u, w);
      ListedPush(Keys(adj, v, j - 1), Sources(adj, v, j - 1), u, w, v, adj[v][j - 1]);
      assert adj[v][..j] == adj[v][..j - 1] + [adj[v][j - 1]];
    } else if v > 0 {
      FlatEdges(adj, v - 1, |adj[v - 1]|, u, w);
      assert adj[v - 1][..|adj[v - 1]|] == adj[v - 1];
    }
  }

  lemma {:induction false} FlatSize(g: Csr, v: nat, j: nat)
    requires g.Valid() && At(Lists(g), v, j) && |g.offsets| > 0
    ensures |Keys(Lists(g), v, j)| <= g.offsets[v] + j
    decreases v, j
  {
    if j > 0 {
      FlatSize(g, v, j - 1);
    } else if v > 0 {
      FlatSize(g, v - 1, |Lists(g)[v - 1]|);
    }
  }

  /** Slice `w` of the flat reverse CSR lists the predecessors of `w`. */
  ghost predicate ReverseAt(adj: Adj, offs: seq<nat>, flat: seq<nat>, w: nat) {
    && w + 1 < |offs| && offs[w] <= offs[w + 1] <= |flat|
    && forall u: nat :: u in flat[offs[w]..offs[w + 1]] <==> Edge(adj, u, w)
  }

  ghost predicate ReverseOf(adj: Adj, offs: seq<nat>, flat: seq<nat>) {
    forall w: nat | w < |adj| :: ReverseAt(adj, offs, flat, w)
  }

  lemma PlacedIsReverse(adj: Adj, offs: seq<nat>, flat: seq<nat>)
    requires |offs| == |adj| + 1 && forall k: nat | k <= |adj| :: offs[k] == Below(Keys(adj, |adj|, 0), k)
    requires |Keys(adj, |adj|, 0)| <= |flat|
    requires Placed(Keys(adj, |adj|, 0), Sources(adj, |adj|, 0), |Keys(adj, |adj|, 0)|, flat, |adj|)
    ensures ReverseOf(adj, offs, flat)
  {
    var ks, vs := Keys(adj, |adj|, 0), Sources(adj, |adj|, 0);
    forall w: nat | w < |adj| ensures ReverseAt(adj, offs, flat, w) {
      AllPlaced(ks, vs, flat, |adj|, w);
      forall u: nat ensures u in flat[offs[w]..offs[w + 1]] <==> Edge(adj, u, w) {
        SelectMembers(ks, vs, w, u);
        assert u in Select(ks, vs, w) <==> Listed(ks, vs, u, w);
        FlatEdges(adj, |adj|, 0, u, w);
      }
    }
  }

  /** `rev[k + 1]` counts the items with key `k`. */
  ghost predicate Counted(rev: seq<nat>, keys: seq<nat>, n: nat) {
    && |rev| == n + 1 && rev[0] == 0
    && forall k: nat | k < n :: rev[k + 1] == Count(keys, k)
  }

  lemma CountedPush(rev: seq<nat>, keys: seq<nat>, n: nat, w: nat)
    requires Counted(rev, keys, n) && w < n
    ensures Counted(rev[w + 1 := rev[w + 1] + 1], keys + [w], n)
  {
    forall k: nat | k < n ensures rev[w + 1 := rev[w + 1] + 1][k + 1] == Count(keys + [w], k) {
      CountPush(keys, w, k);
    }
  }

  lemma NoneCounted(rev: seq<nat>, adj: Adj)
    requires |rev| == |adj| + 1 && forall k | 0 <= k < |rev| :: rev[k] == 0
    ensures Counted(rev, Keys(adj, 0, 0), |adj|)
  {
  }

  lemma CountedEntry(rev: seq<nat>, adj: Adj, v: nat, j: nat)
    requires v < |adj| && j < |adj[v]| && Counted(rev, Keys(adj, v, j), |adj|)
    ensures |rev| == |adj| + 1
    ensures var w := adj[v][j];
      Counted(if w < |adj| then rev[w + 1 := rev[w + 1] + 1] else rev, Keys(adj, v, j + 1), |adj|)
  {
    var keys, w := Keys(adj, v, j), adj[v][j];
    if w < |adj| {
      assert Keys(adj, v, j + 1) == keys + [w];
      hide Count, Keys;
      CountedPush(rev, keys, |adj|, w);
    }
  }

  /** Counts where the entries of `v` lead. */
  method CountRow(g: Csr, v: nat, rev: array<nat>, ghost adj: Adj)
    requires g.Valid() && adj == Lists(g) && v < |adj| && Counted(rev[..], Keys(adj, v, 0), |adj|)
    modifies rev
    ensures Counted(rev[..], Keys(adj, v + 1, 0), |adj|)
  {
    hide Counted, Keys;
    var n, lo, hi := g.NumNodes(), g.offsets[v], g.offsets[v + 1];
    for e := lo to hi
      invariant Counted(rev[..], Keys(adj, v, e - lo), n)
    {
      var w := g.adjacency[e].1.offset;
      assert w == adj[v][e - lo];
      CountedEntry(rev[..], adj, v, e - lo);
      if w < n {
        rev[w + 1] := rev[w + 1] + 1;
      }
    }
    FlatRow(adj, v);
  }

  /** Counts the entries that lead to each node. */
  method CountIncoming(g: Csr, ghost adj: Adj) returns (rev: array<nat>)
    requires g.Valid() && adj == Lists(g)
    ensures fresh(rev) && Counted(rev[..], Keys(adj, |adj|, 0), |adj|)
  {
    hide Counted, Keys;
    var n := g.NumNodes();
    rev := new nat[n + 1](_ => 0);
    NoneCounted(rev[..], adj);
    for v := 0 to n
      invariant Counted(rev[..], Keys(adj, v, 0), n)
    {
      CountRow(g, v, rev, adj);
    }
  }

  /** Turns counts into bucket starts. */
  method PrefixSums(rev: array<nat>, n: nat, ghost keys: seq<nat>)
    requires Counted(rev[..], keys, n)
    modifies rev
    ensures forall k: nat | k <= n :: rev[k] == Below(keys, k)
  {
    for i := 0 to n
      invariant forall k: nat | k <= i :: rev[k] == Below(keys, k)
      invariant forall k: nat | i <= k < n :: rev[k + 1] == Count(keys, k)
    {
      rev[i + 1] := rev[i + 1] + rev[i];
    }
  }

  /** The `i`-th flattened item is the entry at hand. */
  lemma FlatNext(adj: Adj, v: nat, j: nat)
    requires v < |adj| && j < |adj[v]| && adj[v][j] < |adj|
    ensures var i, ks, vs := |Keys(adj, v, j)|, Keys(adj, |adj|, 0), Sources(adj, |adj|, 0);
      i < |ks| && ks[i] == adj[v][j] && vs[i] == v && |Keys(adj, v, j + 1)| == i + 1
  {
    FlatPrefix(adj, v, j + 1);
    var i := |Keys(adj, v, j)|;
    assert Keys(adj, v, j + 1)[i] == adj[v][j] && Sources(adj, v, j + 1)[i] == v;
  }

  /** Writes `v` to the next free slot of the bucket of each of its targets. */
  lemma FlatSkip(adj: Adj, v: nat, j: nat)
    requires v < |adj| && j < |adj[v]| && adj[v][j] >= |adj|
    ensures Keys(adj, v, j + 1) == Keys(adj, v, j)
  {
  }

  lemma FlatRow(adj: Adj, v: nat)
    requires v < |adj|
    ensures Keys(adj, v + 1, 0) == Keys(adj, v, |adj[v]|)
  {
  }

  method FillFrom(g: Csr, v: nat, pos: array<nat>, flat: array<nat>, ghost adj: Adj, ghost ks: seq<nat>,
                  ghost vs: seq<nat>)
    requires g.Valid() && adj == Lists(g) && pos != flat && v < |adj|
    requires ks == Keys(adj, |adj|, 0) && vs == Sources(adj, |adj|, 0)
    requires Filled(ks, vs, |Keys(adj, v, 0)|, pos[..], flat[..], |adj|)
    modifies pos, flat
    ensures Filled(ks, vs, |Keys(adj, v + 1, 0)|, pos[..], flat[..], |adj|)
  {
    hide Filled, Keys, Sources;
    var n, lo, hi := g.NumNodes(), g.offsets[v], g.offsets[v + 1];
    for e := lo to hi
      invariant Filled(ks, vs, |Keys(adj, v, e - lo)|, pos[..], flat[..], n)
    {
      var w := g.adjacency[e].1.offset;
      assert w == adj[v][e - lo];
      if w < n {
        FlatNext(adj, v, e - lo);
        FillOne(ks, vs, |Keys(adj, v, e - lo)|, pos[..], flat[..], n);
        WriteNextSlot(pos, flat, w, v);
      } else {
        FlatSkip(adj, v, e - lo);
      }
    }
    FlatRow(adj, v);
  }

  method FillReverse(g: Csr, pos: array<nat>, flat: array<nat>, ghost adj: Adj, ghost ks: seq<nat>, ghost vs: seq<nat>)
    requires g.Valid() && adj == Lists(g) && pos != flat
    requires ks == Keys(adj, |adj|, 0) && vs == Sources(adj, |adj|, 0)
    requires Filled(ks, vs, 0, pos[..], flat[..], |adj|)
    modifies pos, flat
    ensures Filled(ks, vs, |ks|, pos[..], flat[..], |adj|)
  {
    var n := g.NumNodes();
    for v := 0 to n
      invariant Filled(ks, vs, |Keys(adj, v, 0)|, pos[..], flat[..], n)
    {
      FillFrom(g, v, pos, flat, adj, ks, vs);
    }
  }

  method ReverseCsr(g: Csr) returns (offs: seq<nat>, flat: seq<nat>)
    requires g.Valid()
    ensures ReverseOf(Lists(g), offs, flat)
  {
    var n := g.NumNodes();
    ghost var adj := Lists(g);
    var totalEdges := if |g.offsets| == 0 then 0 else g.offsets[|g.offsets| - 1];
    var rev := CountIncoming(g, adj);
    PrefixSums(rev, n, Keys(adj, n, 0));
    var revAdj := new nat[totalEdges](_ => 0);
    var pos := new nat[n + 1](i requires 0 <= i < rev.Length reads rev => rev[i]);
    if |g.offsets| > 0 {
      FlatSize(g, n, 0);
    }
    ghost var ks, vs := Keys(adj, n, 0), Sources(adj, n, 0);
    assert ks[..0] == [];
    NonePlaced(ks, vs, revAdj[..], n);
    FillReverse(g, pos, revAdj, adj, ks, vs);
    offs, flat := rev[..], revAdj[..];
    PlacedIsReverse(adj, offs, flat);
  }

  // ------------------------------------------------------------------ the algorithm

  ghost predicate Flags(visited: seq<bool>, seen: set<nat>) {
    forall x: nat :: x in seen <==> x < |visited| && visited[x]
  }

  ghost predicate Frames(dfs: seq<(nat, nat)>, path: seq<nat>, cur: seq<nat>) {
    && |dfs| == |path|
    && forall k | 0 <= k < |path| :: path[k] < |cur| && dfs[k] == (path[k], cur[path[k]])
  }

  ghost function Left(adj: Adj, path: seq<nat>, cur: seq<nat>): int {
    if |path| > 0 && Top(path) < |adj| && Top(path) < |cur| then |adj[Top(path)]| - cur[Top(path)] else 0
  }

  /** A turn visits a node, finishes one, or uses up an entry. */
  ghost predicate Progress(adj: Adj, s: State, t: State) {
    && s.seen <= t.seen && |t.seen| <= |adj|
    && (|s.seen| < |t.seen|
        || (t.seen == s.seen && |t.path| < |s.path|)
        || (t.seen == s.seen && |t.path| == |s.path| && 0 <= Left(adj, t.path, t.cur) < Left(adj, s.path, s.cur)))
  }

  lemma TurnProgress(adj: Adj, s: State)
    requires Sized(adj, s) && |s.path| > 0 && Top(s.path) < |adj|
    ensures Progress(adj, s, Turn(adj, s))
  {
    var t := Turn(adj, s);
    BoundedCard(t.seen, |adj|);
  }

  method Step(g: Csr, visited: array<bool>, order: seq<nat>, dfs: seq<(nat, nat)>, ghost adj: Adj, ghost s: State)
      returns (order': seq<nat>, dfs': seq<(nat, nat)>)
    requires g.Valid() && adj == Lists(g) && |s.cur| == |s.fin| == |adj| == visited.Length
    requires Flags(visited[..], s.seen) && order == s.order && Frames(dfs, s.path, s.cur) && |dfs| > 0
    requires forall k | 0 <= k < |s.path| - 1 :: s.path[k] != Top(s.path)
    requires forall x: nat | x < |adj| && x !in s.seen :: s.cur[x] == 0 && x !in s.path
    modifies visited
    ensures var t := Turn(adj, s); Flags(visited[..], t.seen) && order' == t.order && Frames(dfs', t.path, t.cur)
  {
    order', dfs' := order, dfs;
    var (v, npos) := dfs[|dfs| - 1];
    var lo, hi := g.offsets[v], g.offsets[v + 1];
    if npos < hi - lo {
      var w := g.adjacency[lo + npos].1.offset;
      assert w == NextTarget(adj, s);
      dfs' := dfs[|dfs| - 1 := (v, npos + 1)];
      if w < g.NumNodes() && !visited[w] {
        visited[w] := true;
        dfs' := dfs' + [(w, 0)];
      }
    } else {
      order' := order + [v];
      dfs' := dfs[..|dfs| - 1];
    }
  }

  lemma IsReady(adj: Adj, s: State)
    requires Inv(adj, s) && |s.path| > 0
    ensures Top(s.path) < |adj| && forall k | 0 <= k < |s.path| - 1 :: s.path[k] != Top(s.path)
    ensures forall x: nat | x < |adj| && x !in s.seen :: s.cur[x] == 0 && x !in s.path
  {
  }

  method SearchFrom(g: Csr, start: nat, visited: array<bool>, order0: seq<nat>, ghost adj: Adj, ghost s0: State)
      returns (order: seq<nat>, ghost s: State)
    requires g.Valid() && adj == Lists(g) && start < |adj| == visited.Length && start !in s0.seen
    requires Inv(adj, s0) && s0.path == [] && Flags(visited[..], s0.seen) && order0 == s0.order
    modifies visited
    ensures Inv(adj, s) && s.path == [] && Flags(visited[..], s.seen) && order == s.order
    ensures s0.seen + {start} <= s.seen
  {
    EnterKeeps(adj, s0, start);
    s := Enter(s0, start);
    order := order0;
    visited[start] := true;
    var dfs := [(start, 0)];
    while |dfs| > 0
      invariant Inv(adj, s) && Flags(visited[..], s.seen) && order == s.order && Frames(dfs, s.path, s.cur)
      invariant s0.seen + {start} <= s.seen
      decreases |adj| - |s.seen|, |s.path|, Left(adj, s.path, s.cur)
    {
      IsReady(adj, s);
      TurnKeeps(adj, s);
      TurnProgress(adj, s);
      order, dfs := Step(g, visited, order, dfs, adj, s);
      s := Turn(adj, s);
    }
  }

  /** `order` and `fin` are inverse permutations. */
  ghost predicate Inverse(order: seq<nat>, fin: seq<nat>) {
    && |order| == |fin|
    && (forall p | 0 <= p < |order| :: order[p] < |fin| && fin[order[p]] == p)
    && (forall x | 0 <= x < |fin| :: fin[x] < |order| && order[fin[x]] == x)
  }

  lemma Finished(adj: Adj, s: State)
    requires Inv(adj, s) && s.path == [] && forall x: nat | x < |adj| :: x in s.seen
    ensures FinishOrdering(adj, s.fin) && |s.order| == |adj|
    ensures Inverse(s.order, s.fin)
  {
    assert forall x: nat | x < |adj| :: x !in s.path;
    DistinctBound(s.order, |adj|);
    DistinctBound(s.fin, |s.order|);
  }

  /** Depth-first finish order of the whole graph. */
  method FinishOrder(g: Csr) returns (order: seq<nat>, ghost fin: seq<nat>)
    requires g.Valid()
    ensures FinishOrdering(Lists(g), fin) && Inverse(order, fin)
  {
    var n := g.NumNodes();
    ghost var adj := Lists(g);
    var visited := new bool[n](_ => false);
    order := [];
    ghost var s := State({}, [], [], seq(n, _ => 0), seq(n, _ => USIZE_MAX));
    assert Inv(adj, s);
    hide Inv, FinishOrdering, Inverse;
    for start := 0 to n
      invariant Inv(adj, s) && s.path == [] && Flags(visited[..], s.seen) && order == s.order
      invariant forall x: nat | x < start :: x in s.seen
    {
      if !visited[start] {
        order, s := SearchFrom(g, start, visited, order, adj, s);
      }
    }
    Finished(adj, s);
    fin := s.fin;
  }

  lemma DropOne<T>(s: seq<T>, j: nat, x: T)
    requires j < |s| && s[j] == x
    ensures forall y :: y in s[..j + 1] <==> y in s[..j] || y == x
  {
    Snoc(s, j);
  }

  method Mark(visited: array<bool>, w: nat, ghost seen: set<nat>)
    requires w < visited.Length && Flags(visited[..], seen)
    modifies visited
    ensures Flags(visited[..], seen + {w})
  {
    ghost var before := visited[..];
    visited[w] := true;
    assert visited[..] == before[w := true];
  }

  /** Visits the predecessors of the node `x` in work. */
  method Expand(preds: seq<nat>, visited: array<bool>, stack0: seq<nat>, ghost adj: Adj, ghost done: set<nat>,
                ghost found0: set<nat>, ghost comp: seq<nat>, ghost compId: nat, ghost v: nat, ghost x: nat)
      returns (stack: seq<nat>, ghost found: set<nat>)
    requires visited.Length == |adj| == |comp| && Flags(visited[..], done + found0)
    requires forall u: nat :: u in preds <==> Edge(adj, u, x)
    requires Searching(adj, done, found0, stack0, comp, compId, v, {x}) && x in found0 && comp[x] == compId
    modifies visited
    ensures Flags(visited[..], done + found) && found0 <= found
    ensures Searching(adj, done, found, stack, comp, compId, v, {})
    ensures |stack| - |stack0| == |found| - |found0|
  {
    hide Searching;
    stack, found := stack0, found0;
    for j := 0 to |preds|
      invariant Flags(visited[..], done + found) && found0 <= found
      invariant Searching(adj, done, found, stack, comp, compId, v, {x})
      invariant forall u | u in preds[..j] :: u in done + found
      invariant |stack| - |stack0| == |found| - |found0|
    {
      var w := preds[j];
      DropOne(preds, j, w);
      assert Edge(adj, w, x);
      if !visited[w] {
        PushSearch(adj, done, found, stack, comp, compId, v, x, w);
        Mark(visited, w, done + found);
        assert done + (found + {w}) == done + found + {w};
        stack := stack + [w];
        found := found + {w};
      }
    }
    assert preds[..|preds|] == preds;
    EndSearch(adj, done, found, stack, comp, compId, v, x);
  }

  /** Pops a node, gives it the id and visits its predecessors. */
  method PopAndExpand(offs: seq<nat>, flat: seq<nat>, component: array<nat>, visited: array<bool>, compId: nat,
                      stack0: seq<nat>, ghost adj: Adj, ghost done: set<nat>, ghost found0: set<nat>, ghost v: nat)
      returns (stack: seq<nat>, ghost found: set<nat>)
    requires ReverseOf(adj, offs, flat) && |stack0| > 0
    requires component.Length == visited.Length == |adj| && Flags(visited[..], done + found0)
    requires Searching(adj, done, found0, stack0, component[..], compId, v, {})
    modifies component, visited
    ensures Flags(visited[..], done + found)
    ensures Searching(adj, done, found, stack, component[..], compId, v, {})
    ensures forall x | x in done && x < component.Length :: component[x] == old(component[x])
    ensures |found0| < |found| || (|found0| == |found| && |stack| < |stack0|)
  {
    PopSearch(adj, done, found0, stack0, component[..], compId, v);
    var x := stack0[|stack0| - 1];
    component[x] := compId;
    assert ReverseAt(adj, offs, flat, x);
    stack, found := Expand(flat[offs[x]..offs[x + 1]], visited, stack0[..|stack0| - 1], adj, done, found0,
                           component[..], compId, v, x);
    SubsetCard(found0, found);
  }

  lemma StartSearch(adj: Adj, done: set<nat>, comp: seq<nat>, compId: nat, v: nat)
    requires v < |adj| && v !in done
    ensures Searching(adj, done, {v}, [v], comp, compId, v, {})
  {
    ReachSelf(adj, v);
  }

  /** Finds the component of `v` by searching the reverse CSR. */
  method CollectComponent(v: nat, offs: seq<nat>, flat: seq<nat>, component: array<nat>, visited: array<bool>,
                          compId: nat,
                          ghost adj: Adj, ghost done: set<nat>)
      returns (ghost found: set<nat>)
    requires ReverseOf(adj, offs, flat) && v < |adj| && v !in done
    requires component.Length == visited.Length == |adj| && Flags(visited[..], done)
    modifies component, visited
    ensures Flags(visited[..], done + found)
    ensures Searching(adj, done, found, [], component[..], compId, v, {})
    ensures forall x | x in done && x < component.Length :: component[x] == old(component[x])
  {
    StartSearch(adj, done, component[..], compId, v);
    found := {v};
    var stack := [v];
    visited[v] := true;
    while |stack| > 0
      invariant Flags(visited[..], done + found) && |found| <= |adj|
      invariant Searching(adj, done, found, stack, component[..], compId, v, {})
      invariant forall x | x in done && x < component.Length :: component[x] == old(component[x])
      decreases |adj| - |found|, |stack|
    {
      stack, found := PopAndExpand(offs, flat, component, visited, compId, stack, adj, done, found, v);
      BoundedCard(found, |adj|);
    }
    assert stack == [];
  }

  /** An edge between two components leads to a larger id. */
  ghost predicate Topological(adj: Adj, comp: seq<nat>)
    requires |comp| == |adj|
  {
    forall u: nat, v: nat | Edge(adj, u, v) && comp[u] != comp[v] :: comp[u] < comp[v]
  }

  lemma Result(adj: Adj, done: set<nat>, comp: seq<nat>, compId: nat)
    requires Emitted(adj, done, comp, compId) && forall x: nat | x < |adj| :: x in done
    ensures Labels(adj, comp) && Dense(comp) && Topological(adj, comp)
  {
    forall v, c: nat | 0 <= v < |comp| && c < comp[v] ensures c in comp {
      assert v in done && comp[v] < compId;
      assert Used(done, comp, c);
    }
  }

  /** Emits the component of the latest finished node that is left. */
  method EmitFrom(v: nat, offs: seq<nat>, flat: seq<nat>, component: array<nat>, visited: array<bool>, compId: nat,
                  ghost adj: Adj, ghost fin: seq<nat>, ghost done: set<nat>)
      returns (ghost done': set<nat>)
    requires ReverseOf(adj, offs, flat) && v < |adj| && v !in done
    requires component.Length == visited.Length == |adj| && Flags(visited[..], done)
    requires FinishOrdering(adj, fin) && Emitted(adj, done, component[..], compId)
    requires forall z: nat | z < |adj| && z !in done :: fin[z] <= fin[v]
    modifies component, visited
    ensures Flags(visited[..], done') && Emitted(adj, done', component[..], compId + 1)
    ensures done + {v} <= done'
  {
    ghost var comp := component[..];
    ghost var found := CollectComponent(v, offs, flat, component, visited, compId, adj, done);
    EmittedFrame(adj, done, comp, component[..], compId);
    CloseComponent(adj, fin, done, found, component[..], compId, v);
    done' := done + found;
  }

  /** `compute_scc_kosaraju` */
  method ComputeSccKosaraju(g: Csr) returns (values: seq<nat>)
    requires g.Valid()
    ensures Labels(Lists(g), values)
    ensures Dense(values)
    ensures Topological(Lists(g), values)
  {
    var n := g.NumNodes();
    ghost var adj := Lists(g);
    var order, fin := FinishOrder(g);
    var offs, flat := ReverseCsr(g);
    var component := new nat[n](_ => 0);
    var visited := new bool[n](_ => false);
    var compId := 0;
    ghost var done: set<nat> := {};
    for i := n downto 0
      invariant Flags(visited[..], done) && Emitted(adj, done, component[..], compId)
      invariant forall p | i <= p < n :: order[p] in done
    {
      var v := order[i];
      if !visited[v] {
        done := EmitFrom(v, offs, flat, component, visited, compId, adj, fin, done);
        compId := compId + 1;
      }
    }
    forall x: nat | x < n ensures x in done {
      assert order[fin[x]] in done;
    }
    Result(adj, done, component[..], compId);
    values := component[..];
  }
}
