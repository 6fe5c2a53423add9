/** Iterative Tarjan (akar-algo `compute_scc_tarjan`): strongly connected
    components of an arbitrary directed CSR. */
module Tarjan {
  import opened Graphs

  /** The buffers of the algorithm.  `path` and `cur` together are its explicit
      DFS stack: `path` lists the active nodes and `cur[v]` counts the entries of
      `v` already looked at (all of them once `v` has been left).  `seen` is the
      set of indexed nodes. */
  datatype State = State(
    idx: seq<nat>, low: seq<nat>, on: seq<bool>, comp: seq<nat>,
    stack: seq<nat>, path: seq<nat>, cur: seq<nat>,
    next: nat, compId: nat, seen: set<nat>)

  predicate Visited(idx: seq<nat>, x: nat) {
    x < |idx| && idx[x] != USIZE_MAX
  }

  /** On the component stack. */
  predicate On(on: seq<bool>, x: nat) {
    x < |on| && on[x]
  }

  /** Left for good: its component has been emitted. */
  predicate Done(idx: seq<nat>, on: seq<bool>, x: nat) {
    Visited(idx, x) && !On(on, x)
  }

  ghost predicate Sized(adj: Adj, s: State) {
    && |adj| < USIZE_MAX
    && |s.idx| == |s.low| == |s.on| == |s.comp| == |s.cur| == |adj|
  }

  /** Indices are below `next`, which counts the indexed nodes. */
  ghost predicate IndexOk(idx: seq<nat>, next: nat, seen: set<nat>) {
    && next == |seen|
    && (forall x: nat :: x in seen <==> Visited(idx, x))
    && (forall x: nat | Visited(idx, x) :: idx[x] < next)
  }

  /** The component stack lists exactly the `On` nodes, by increasing index. */
  ghost predicate StackOk(idx: seq<nat>, on: seq<bool>, stack: seq<nat>) {
    && (forall x: nat | On(on, x) :: Visited(idx, x) && x in stack)
    && (forall i | 0 <= i < |stack| :: On(on, stack[i]))
    && (forall i, j | 0 <= i < j < |stack| :: idx[stack[i]] < idx[stack[j]])
  }

  /** Active nodes are on the stack, by increasing index, and reach all that
      came on the stack after them. */
  ghost predicate PathOk(adj: Adj, idx: seq<nat>, on: seq<bool>, path: seq<nat>)
    requires |idx| == |on|
  {
    && (forall k | 0 <= k < |path| :: On(on, path[k]))
    && (forall j, k | 0 <= j < k < |path| :: idx[path[j]] < idx[path[k]])
    && (forall k, x: nat | 0 <= k < |path| && On(on, x) && idx[path[k]] <= idx[x] :: Reach(adj, path[k], x))
  }

  /** A node that was left has looked at all its entries, an unvisited one at
      none, and every entry looked at leads to a visited node. */
  ghost predicate CursorOk(adj: Adj, idx: seq<nat>, path: seq<nat>, cur: seq<nat>)
    requires |cur| == |adj|
  {
    && (forall x: nat | x < |adj| :: cur[x] <= |adj[x]|)
    && (forall x: nat | x < |adj| && !Visited(idx, x) :: cur[x] == 0)
    && (forall x: nat | x < |adj| && Visited(idx, x) && x !in path :: cur[x] == |adj[x]|)
    && (forall x: nat, j | x < |adj| && 0 <= j < cur[x] && adj[x][j] < |adj| :: Visited(idx, adj[x][j]))
  }

  ghost predicate LowWitness(adj: Adj, idx: seq<nat>, on: seq<bool>, v: nat, l: nat, w: nat)
    requires |idx| == |on|
  {
    On(on, w) && idx[w] == l && Reach(adj, v, w)
  }

  /** An active node's low link is the index of a stack node it reaches. */
  ghost predicate LowOk(adj: Adj, idx: seq<nat>, on: seq<bool>, path: seq<nat>, low: seq<nat>)
    requires |idx| == |on| == |low|
  {
    forall k | 0 <= k < |path| && path[k] < |low| ::
      low[path[k]] <= idx[path[k]] && exists w :: LowWitness(adj, idx, on, path[k], low[path[k]], w)
  }

  ghost predicate ReachesActive(adj: Adj, idx: seq<nat>, path: seq<nat>, x: nat, k: nat) {
    && k < |path| && x < |idx| && path[k] < |idx|
    && idx[path[k]] <= idx[x] && Reach(adj, x, path[k])
  }

  ghost predicate Returns(adj: Adj, idx: seq<nat>, path: seq<nat>, x: nat) {
    exists k :: ReachesActive(adj, idx, path, x, k)
  }

  /** Every stack node still reaches an active node below it. */
  ghost predicate BackOk(adj: Adj, idx: seq<nat>, on: seq<bool>, path: seq<nat>) {
    forall x: nat {:trigger Returns(adj, idx, path, x)} | On(on, x) :: Returns(adj, idx, path, x)
  }

  /** Stack node `x` lies in the segment of the `k`-th active node. */
  ghost predicate InSegment(idx: seq<nat>, on: seq<bool>, path: seq<nat>, k: nat, x: nat)
    requires |idx| == |on|
  {
    && k < |path| && On(on, x) && On(on, path[k])
    && idx[path[k]] <= idx[x]
    && (k + 1 < |path| ==> On(on, path[k + 1]) && idx[x] < idx[path[k + 1]])
  }

  /** An active node's low link bounds every entry looked at in its segment. */
  ghost predicate LowBound(adj: Adj, idx: seq<nat>, on: seq<bool>, path: seq<nat>, low: seq<nat>, cur: seq<nat>)
    requires |idx| == |on| == |low| == |cur| == |adj|
  {
    forall k: nat, x: nat, j | InSegment(idx, on, path, k, x) && 0 <= j < cur[x] && j < |adj[x]| && On(on, adj[x][j])
      :: low[path[k]] <= idx[adj[x][j]]
  }

  ghost predicate Used(idx: seq<nat>, on: seq<bool>, comp: seq<nat>, c: nat)
    requires |idx| == |on| == |comp|
  {
    exists x: nat :: Done(idx, on, x) && comp[x] == c
  }

  /** Emitted components are closed under edges, numbered without gaps in
      reverse topological order, and are exactly the classes of mutual
      reachability. */
  ghost predicate DoneOk(adj: Adj, idx: seq<nat>, on: seq<bool>, comp: seq<nat>, compId: nat)
    requires |idx| == |on| == |comp| == |adj|
  {
    && (forall x: nat | Done(idx, on, x) :: comp[x] < compId)
    && (forall x: nat, y: nat | Done(idx, on, x) && Edge(adj, x, y) :: Done(idx, on, y) && comp[y] <= comp[x])
    && (forall c: nat | c < compId :: Used(idx, on, comp, c))
    && (forall x: nat, y: nat | Done(idx, on, x) && Done(idx, on, y) :: comp[x] == comp[y] <==> Mutual(adj, x, y))
  }

  ghost predicate Inv(adj: Adj, s: State) {
    && Sized(adj, s)
    && IndexOk(s.idx, s.next, s.seen)
    && StackOk(s.idx, s.on, s.stack)
    && PathOk(adj, s.idx, s.on, s.path)
    && CursorOk(adj, s.idx, s.path, s.cur)
    && LowOk(adj, s.idx, s.on, s.path, s.low)
    && BackOk(adj, s.idx, s.on, s.path)
    && LowBound(adj, s.idx, s.on, s.path, s.low, s.cur)
    && DoneOk(adj, s.idx, s.on, s.comp, s.compId)
  }

  // ------------------------------------------------------------------ the steps

  function Top(path: seq<nat>): nat
    requires |path| > 0
  {
    path[|path| - 1]
  }

  function Min(a: nat, b: nat): nat {
    if a <= b then a else b
  }

  /** The top active node moves its cursor. */
  function Advance(s: State): State
    requires |s.path| > 0 && Top(s.path) < |s.cur|
  {
    s.(cur := s.cur[Top(s.path) := s.cur[Top(s.path)] + 1])
  }

  /** The top active node looks at an entry that discovers nothing. */
  function Look(s: State, w: nat): State
    requires |s.path| > 0 && Top(s.path) < |s.cur| && Top(s.path) < |s.low|
  {
    var v := Top(s.path);
    Advance(s).(low := if On(s.on, w) && w < |s.idx| then s.low[v := Min(s.low[v], s.idx[w])] else s.low)
  }

  /** `w` gets the next index and becomes the top of both stacks. */
  function Enter(s: State, w: nat): State
    requires w < |s.idx| == |s.low| == |s.on|
  {
    s.(idx := s.idx[w := s.next], low := s.low[w := s.next], on := s.on[w := true],
       stack := s.stack + [w], path := s.path + [w], next := s.next + 1, seen := s.seen + {w})
  }

  /** `w` is entered from the top active node, if there is one. */
  function Discover(s: State, w: nat): State
    requires w < |s.idx| == |s.low| == |s.on|
    requires |s.path| > 0 ==> Top(s.path) < |s.cur|
  {
    Enter(if |s.path| > 0 then Advance(s) else s, w)
  }

  /** The low link of the parent after its child `v` has been left. */
  function LowAfter(path: seq<nat>, low: seq<nat>, v: nat): seq<nat>
    requires v < |low| && (|path| > 0 ==> Top(path) < |low|)
  {
    if |path| > 0 then low[Top(path) := Min(low[Top(path)], low[v])] else low
  }

  /** The top active node has looked at all its entries. */
  function Leave(s: State): State
    requires |s.path| > 0 && forall k | 0 <= k < |s.path| :: s.path[k] < |s.low|
  {
    var path := s.path[..|s.path| - 1];
    s.(path := path, low := LowAfter(path, s.low, Top(s.path)))
  }

  function EmitOn(idx: seq<nat>, on: seq<bool>, i: nat): (on': seq<bool>)
    requires |idx| == |on|
  {
    seq(|on|, x requires 0 <= x < |on| => on[x] && idx[x] < i)
  }

  function EmitComp(idx: seq<nat>, on: seq<bool>, comp: seq<nat>, i: nat, c: nat): (comp': seq<nat>)
    requires |idx| == |on| == |comp|
  {
    seq(|comp|, x requires 0 <= x < |comp| => if on[x] && idx[x] >= i then c else comp[x])
  }

  /** The top active node is left, and everything from it up leaves the
      component stack, whose `p`-th element it is, with a fresh id. */
  function Emit(s: State, p: nat): State
    requires |s.path| > 0 && forall k | 0 <= k < |s.path| :: s.path[k] < |s.low|
    requires |s.idx| == |s.on| == |s.comp| == |s.low| && p <= |s.stack|
  {
    var i := s.idx[Top(s.path)];
    Leave(s).(on := EmitOn(s.idx, s.on, i), comp := EmitComp(s.idx, s.on, s.comp, i, s.compId),
              stack := s.stack[..p], compId := s.compId + 1)
  }

  predicate HasNext(adj: Adj, s: State) {
    |s.path| > 0 && Top(s.path) < |adj| && Top(s.path) < |s.cur| && s.cur[Top(s.path)] < |adj[Top(s.path)]|
  }

  function NextTarget(adj: Adj, s: State): nat
    requires HasNext(adj, s)
  {
    adj[Top(s.path)][s.cur[Top(s.path)]]
  }

  // ---------------------------------------------------------- looking at an entry

  lemma CursorStep(adj: Adj, idx: seq<nat>, path: seq<nat>, cur: seq<nat>, v: nat)
    requires |cur| == |adj| && CursorOk(adj, idx, path, cur)
    requires v < |adj| && v in path && Visited(idx, v) && cur[v] < |adj[v]|
    requires adj[v][cur[v]] < |adj| ==> Visited(idx, adj[v][cur[v]])
    ensures CursorOk(adj, idx, path, cur[v := cur[v] + 1])
  {
  }

  lemma TopSegment(idx: seq<nat>, on: seq<bool>, path: seq<nat>, k: nat)
    requires |idx| == |on| && |path| > 0
    requires forall j, k | 0 <= j < k < |path| && On(on, path[j]) && On(on, path[k]) :: idx[path[j]] < idx[path[k]]
    requires InSegment(idx, on, path, k, Top(path))
    ensures k == |path| - 1
  {
  }

  lemma LowBoundStep(adj: Adj, idx: seq<nat>, on: seq<bool>, path: seq<nat>, low: seq<nat>, cur: seq<nat>, l: nat)
    requires |idx| == |on| == |low| == |cur| == |adj| && |path| > 0
    requires forall j, k | 0 <= j < k < |path| && On(on, path[j]) && On(on, path[k]) :: idx[path[j]] < idx[path[k]]
    requires LowBound(adj, idx, on, path, low, cur)
    requires Top(path) < |adj| && cur[Top(path)] < |adj[Top(path)]| && l <= low[Top(path)]
    requires On(on, adj[Top(path)][cur[Top(path)]]) ==> l <= idx[adj[Top(path)][cur[Top(path)]]]
    ensures LowBound(adj, idx, on, path, low[Top(path) := l], cur[Top(path) := cur[Top(path)] + 1])
  {
    var v := Top(path);
    forall k: nat, x: nat, j | InSegment(idx, on, path, k, x) && 0 <= j < cur[v := cur[v] + 1][x] && j < |adj[x]|
      && On(on, adj[x][j])
      ensures low[v := l][path[k]] <= idx[adj[x][j]]
    {
      if x == v && j == cur[v] {
        TopSegment(idx, on, path, k);
      } else {
        assert low[path[k]] <= idx[adj[x][j]];
      }
    }
  }

  lemma LowOkStep(adj: Adj, idx: seq<nat>, on: seq<bool>, path: seq<nat>, low: seq<nat>, v: nat, w: nat, l: nat)
    requires |idx| == |on| == |low| && LowOk(adj, idx, on, path, low)
    requires v < |low| && l <= low[v] && (l == low[v] || LowWitness(adj, idx, on, v, l, w))
    ensures LowOk(adj, idx, on, path, low[v := l])
  {
    var low' := low[v := l];
    forall k | 0 <= k < |path| && path[k] < |low'|
      ensures low'[path[k]] <= idx[path[k]] && exists w :: LowWitness(adj, idx, on, path[k], low'[path[k]], w)
    {
      if path[k] != v || l == low[v] {
        var w :| LowWitness(adj, idx, on, path[k], low[path[k]], w);
        assert LowWitness(adj, idx, on, path[k], low'[path[k]], w);
      }
    }
  }

  lemma LookCursor(adj: Adj, s: State)
    requires Sized(adj, s) && HasNext(adj, s) && StackOk(s.idx, s.on, s.stack) && PathOk(adj, s.idx, s.on, s.path)
    requires CursorOk(adj, s.idx, s.path, s.cur)
    requires NextTarget(adj, s) < |adj| ==> Visited(s.idx, NextTarget(adj, s))
    ensures var t := Look(s, NextTarget(adj, s)); CursorOk(adj, t.idx, t.path, t.cur)
  {
    CursorStep(adj, s.idx, s.path, s.cur, Top(s.path));
  }

  lemma LookLowBound(adj: Adj, s: State)
    requires Sized(adj, s) && HasNext(adj, s) && PathOk(adj, s.idx, s.on, s.path)
    requires LowBound(adj, s.idx, s.on, s.path, s.low, s.cur)
    ensures var t := Look(s, NextTarget(adj, s)); LowBound(adj, t.idx, t.on, t.path, t.low, t.cur)
  {
    var v, w := Top(s.path), NextTarget(adj, s);
    var l := if On(s.on, w) then Min(s.low[v], s.idx[w]) else s.low[v];
    assert s.low[v := s.low[v]] == s.low;
    LowBoundStep(adj, s.idx, s.on, s.path, s.low, s.cur, l);
  }

  lemma LookLow(adj: Adj, s: State)
    requires Sized(adj, s) && HasNext(adj, s) && LowOk(adj, s.idx, s.on, s.path, s.low)
    ensures var t := Look(s, NextTarget(adj, s)); LowOk(adj, t.idx, t.on, t.path, t.low)
  {
    var v, w := Top(s.path), NextTarget(adj, s);
    if On(s.on, w) {
      ReachEdge(adj, v, w);
      LowOkStep(adj, s.idx, s.on, s.path, s.low, v, w, Min(s.low[v], s.idx[w]));
    }
  }

  /** Looking at an entry that discovers nothing. */
  lemma LookKeeps(adj: Adj, s: State)
    requires Inv(adj, s) && HasNext(adj, s)
    requires NextTarget(adj, s) < |adj| ==> Visited(s.idx, NextTarget(adj, s))
    ensures Inv(adj, Look(s, NextTarget(adj, s)))
  {
    var t := Look(s, NextTarget(adj, s));
    assert CursorOk(adj, t.idx, t.path, t.cur) by { LookCursor(adj, s); }
    assert LowOk(adj, t.idx, t.on, t.path, t.low) by { LookLow(adj, s); }
    assert LowBound(adj, t.idx, t.on, t.path, t.low, t.cur) by { LookLowBound(adj, s); }
  }

  // ---------------------------------------------------------- discovering a node

  lemma RoomForIndex(adj: Adj, s: State, w: nat)
    requires Sized(adj, s) && IndexOk(s.idx, s.next, s.seen) && w < |adj| && !Visited(s.idx, w)
    ensures s.next < |adj|
  {
    BoundedCard(s.seen + {w}, |adj|);
  }

  ghost predicate CanDiscover(adj: Adj, s: State, w: nat) {
    && w < |adj| && !Visited(s.idx, w)
    && (|s.path| > 0 ==> HasNext(adj, s) && NextTarget(adj, s) == w)
  }

  lemma DiscoverIndex(adj: Adj, s: State, w: nat)
    requires Sized(adj, s) && IndexOk(s.idx, s.next, s.seen) && CanDiscover(adj, s, w)
    ensures var t := Discover(s, w); IndexOk(t.idx, t.next, t.seen)
  {
    RoomForIndex(adj, s, w);
    var t := Discover(s, w);
    forall x: nat ensures x in t.seen <==> Visited(t.idx, x) {
      assert x in s.seen <==> Visited(s.idx, x);
    }
  }

  lemma DiscoverStack(adj: Adj, s: State, w: nat)
    requires Sized(adj, s) && IndexOk(s.idx, s.next, s.seen) && CanDiscover(adj, s, w)
    requires StackOk(s.idx, s.on, s.stack)
    ensures var t := Discover(s, w); StackOk(t.idx, t.on, t.stack)
  {
    RoomForIndex(adj, s, w);
    DiscoverFresh(adj, s, w);
    StackPush(s.idx, s.on, s.stack, s.next, w);
  }

  /** `w` is off the stack, and `next` is above every index on it. */
  ghost predicate Fresh(idx: seq<nat>, on: seq<bool>, next: nat, w: nat) {
    w < |idx| == |on| && !on[w] && forall x: nat | On(on, x) :: idx[x] < next
  }

  lemma StackPush(idx: seq<nat>, on: seq<bool>, stack: seq<nat>, next: nat, w: nat)
    requires StackOk(idx, on, stack) && Fresh(idx, on, next, w) && next < USIZE_MAX
    ensures StackOk(idx[w := next], on[w := true], stack + [w])
  {
    var idx', on', stack' := idx[w := next], on[w := true], stack + [w];
    forall i | 0 <= i < |stack| ensures stack[i] != w && idx'[stack[i]] < next {
      assert On(on, stack[i]);
    }
    forall x: nat | On(on', x) ensures Visited(idx', x) && x in stack' {
      if x != w { assert On(on, x); }
    }
  }

  lemma DiscoverFresh(adj: Adj, s: State, w: nat)
    requires Sized(adj, s) && IndexOk(s.idx, s.next, s.seen) && CanDiscover(adj, s, w)
    requires StackOk(s.idx, s.on, s.stack)
    ensures Fresh(s.idx, s.on, s.next, w)
  {
  }

  lemma PathPush(adj: Adj, idx: seq<nat>, on: seq<bool>, path: seq<nat>, next: nat, w: nat)
    requires Fresh(idx, on, next, w) && PathOk(adj, idx, on, path)
    requires Reach(adj, w, w) && forall k | 0 <= k < |path| :: Reach(adj, path[k], w)
    ensures PathOk(adj, idx[w := next], on[w := true], path + [w])
  {
    var idx', on', path' := idx[w := next], on[w := true], path + [w];
    forall k, x: nat | 0 <= k < |path'| && On(on', x) && idx'[path'[k]] <= idx'[x]
      ensures Reach(adj, path'[k], x)
    {
      if x != w {
        assert On(on, x);
      }
    }
  }

  /** All active nodes reach what the top one reaches. */
  lemma ActiveReach(adj: Adj, idx: seq<nat>, on: seq<bool>, path: seq<nat>, w: nat)
    requires |idx| == |on| && PathOk(adj, idx, on, path) && |path| > 0 && Reach(adj, Top(path), w)
    ensures forall k | 0 <= k < |path| :: Reach(adj, path[k], w)
  {
    forall k | 0 <= k < |path| ensures Reach(adj, path[k], w) {
      assert k < |path| - 1 ==> idx[path[k]] < idx[path[|path| - 1]];
      ReachTrans(adj, path[k], Top(path), w);
    }
  }

  lemma DiscoverPath(adj: Adj, s: State, w: nat)
    requires Sized(adj, s) && IndexOk(s.idx, s.next, s.seen) && CanDiscover(adj, s, w)
    requires StackOk(s.idx, s.on, s.stack) && PathOk(adj, s.idx, s.on, s.path)
    ensures var t := Discover(s, w); PathOk(adj, t.idx, t.on, t.path)
  {
    DiscoverFresh(adj, s, w);
    ReachSelf(adj, w);
    if |s.path| > 0 {
      ReachEdge(adj, Top(s.path), w);
      ActiveReach(adj, s.idx, s.on, s.path, w);
    }
    PathPush(adj, s.idx, s.on, s.path, s.next, w);
  }

  lemma CursorPush(adj: Adj, idx: seq<nat>, path: seq<nat>, cur: seq<nat>, next: nat, w: nat)
    requires |cur| == |adj| == |idx| && next < USIZE_MAX && w < |adj| && CursorOk(adj, idx, path, cur)
    ensures CursorOk(adj, idx[w := next], path + [w], cur)
  {
    var idx' := idx[w := next];
    forall x: nat, j | x < |adj| && 0 <= j < cur[x] && adj[x][j] < |adj| ensures Visited(idx', adj[x][j]) {
      assert Visited(idx, adj[x][j]);
    }
    forall x: nat | x < |adj| && Visited(idx', x) && x !in path + [w] ensures cur[x] == |adj[x]| {
      assert x != w by { assert (path + [w])[|path|] == w; }
    }
  }

  lemma DiscoverCursor(adj: Adj, s: State, w: nat)
    requires Sized(adj, s) && s.next < |adj| && CanDiscover(adj, s, w) && CursorOk(adj, s.idx, s.path, s.cur)
    requires |s.path| > 0 ==> Visited(s.idx, Top(s.path))
    ensures var t := Discover(s, w); CursorOk(adj, t.idx, t.path, t.cur)
  {
    CursorPush(adj, s.idx, s.path, s.cur, s.next, w);
    if |s.path| > 0 {
      assert Top(s.path) == (s.path + [w])[|s.path| - 1];
      CursorStep(adj, s.idx[w := s.next], s.path + [w], s.cur, Top(s.path));
    }
  }

  lemma DiscoverLow(adj: Adj, s: State, w: nat)
    requires Sized(adj, s) && IndexOk(s.idx, s.next, s.seen) && CanDiscover(adj, s, w)
    requires StackOk(s.idx, s.on, s.stack) && PathOk(adj, s.idx, s.on, s.path)
    requires LowOk(adj, s.idx, s.on, s.path, s.low)
    ensures var t := Discover(s, w); LowOk(adj, t.idx, t.on, t.path, t.low)
  {
    var t := Discover(s, w);
    ReachSelf(adj, w);
    forall k | 0 <= k < |t.path| && t.path[k] < |t.low|
      ensures t.low[t.path[k]] <= t.idx[t.path[k]]
      ensures exists x :: LowWitness(adj, t.idx, t.on, t.path[k], t.low[t.path[k]], x)
    {
      if k < |s.path| {
        assert On(s.on, s.path[k]);
        var x :| LowWitness(adj, s.idx, s.on, s.path[k], s.low[s.path[k]], x);
        assert LowWitness(adj, t.idx, t.on, t.path[k], t.low[t.path[k]], x);
      } else {
        assert LowWitness(adj, t.idx, t.on, t.path[k], t.low[t.path[k]], w);
      }
    }
  }

  lemma DiscoverBack(adj: Adj, s: State, w: nat)
    requires Sized(adj, s) && CanDiscover(adj, s, w)
    requires StackOk(s.idx, s.on, s.stack) && PathOk(adj, s.idx, s.on, s.path)
    requires BackOk(adj, s.idx, s.on, s.path)
    ensures var t := Discover(s, w); BackOk(adj, t.idx, t.on, t.path)
  {
    var t := Discover(s, w);
    ReachSelf(adj, w);
    forall x: nat | On(t.on, x) ensures Returns(adj, t.idx, t.path, x) {
      if x == w {
        assert ReachesActive(adj, t.idx, t.path, x, |s.path|);
      } else {
        assert Returns(adj, s.idx, s.path, x);
        var k: nat :| ReachesActive(adj, s.idx, s.path, x, k);
        assert On(s.on, s.path[k]);
        assert ReachesActive(adj, t.idx, t.path, x, k);
      }
    }
  }

  lemma LowBoundPush(adj: Adj, idx: seq<nat>, on: seq<bool>, path: seq<nat>, low: seq<nat>, cur: seq<nat>, next: nat,
                     w: nat)
    requires |idx| == |on| == |low| == |cur| == |adj| && Fresh(idx, on, next, w) && cur[w] == 0
    requires forall k | 0 <= k < |path| :: On(on, path[k]) && low[path[k]] <= idx[path[k]]
    requires LowBound(adj, idx, on, path, low, cur)
    ensures LowBound(adj, idx[w := next], on[w := true], path + [w], low[w := next], cur)
  {
    var idx', on', path', low' := idx[w := next], on[w := true], path + [w], low[w := next];
    forall k: nat, x: nat, j | InSegment(idx', on', path', k, x) && 0 <= j < cur[x] && j < |adj[x]|
      && On(on', adj[x][j])
      ensures low'[path'[k]] <= idx'[adj[x][j]]
    {
      assert x != w && On(on, x) && k < |path| && path'[k] == path[k];
      if adj[x][j] != w {
        assert InSegment(idx, on, path, k, x);
      }
    }
  }

  /** The entry that led to the newest node is bounded as well. */
  lemma LowBoundTree(adj: Adj, idx: seq<nat>, on: seq<bool>, path: seq<nat>, low: seq<nat>, cur: seq<nat>, v: nat)
    requires |idx| == |on| == |low| == |cur| == |adj| && LowBound(adj, idx, on, path, low, cur)
    requires v < |adj| && cur[v] < |adj[v]| && On(on, adj[v][cur[v]])
    requires forall k | 0 <= k < |path| && path[k] < |low| :: low[path[k]] <= idx[adj[v][cur[v]]]
    ensures LowBound(adj, idx, on, path, low, cur[v := cur[v] + 1])
  {
    forall k: nat, x: nat, j | InSegment(idx, on, path, k, x) && 0 <= j < cur[v := cur[v] + 1][x] && j < |adj[x]|
      && On(on, adj[x][j])
      ensures low[path[k]] <= idx[adj[x][j]]
    {
      if x != v || j != cur[v] {
        assert j < cur[x];
      }
    }
  }

  lemma DiscoverLowBound(adj: Adj, s: State, w: nat)
    requires Sized(adj, s) && CanDiscover(adj, s, w) && Fresh(s.idx, s.on, s.next, w) && s.cur[w] == 0
    requires forall k | 0 <= k < |s.path| :: On(s.on, s.path[k]) && s.low[s.path[k]] <= s.idx[s.path[k]]
    requires LowBound(adj, s.idx, s.on, s.path, s.low, s.cur)
    ensures var t := Discover(s, w); LowBound(adj, t.idx, t.on, t.path, t.low, t.cur)
  {
    LowBoundPush(adj, s.idx, s.on, s.path, s.low, s.cur, s.next, w);
    if |s.path| > 0 {
      LowBoundTree(adj, s.idx[w := s.next], s.on[w := true], s.path + [w], s.low[w := s.next], s.cur, Top(s.path));
    }
  }

  /** The emitted part depends only on which nodes are done. */
  lemma DoneFrame(adj: Adj, idx: seq<nat>, on: seq<bool>, idx': seq<nat>, on': seq<bool>, comp: seq<nat>, compId: nat)
    requires |idx| == |on| == |idx'| == |on'| == |comp| == |adj|
    requires DoneOk(adj, idx, on, comp, compId)
    requires forall x: nat :: Done(idx, on, x) <==> Done(idx', on', x)
    ensures DoneOk(adj, idx', on', comp, compId)
  {
    forall c: nat | c < compId ensures Used(idx', on', comp, c) {
      assert Used(idx, on, comp, c);
      var x: nat :| Done(idx, on, x) && comp[x] == c;
      assert Done(idx', on', x);
    }
    forall x: nat, y: nat | Done(idx', on', x) && Edge(adj, x, y) ensures Done(idx', on', y) && comp[y] <= comp[x] {
      assert Done(idx, on, x) && Done(idx, on, y);
    }
    forall x: nat, y: nat | Done(idx', on', x) && Done(idx', on', y) ensures comp[x] == comp[y] <==> Mutual(adj, x, y) {
      assert Done(idx, on, x) && Done(idx, on, y);
    }
    forall x: nat | Done(idx', on', x) ensures comp[x] < compId {
      assert Done(idx, on, x);
    }
  }

  lemma DiscoverDone(adj: Adj, s: State, w: nat)
    requires Sized(adj, s) && IndexOk(s.idx, s.next, s.seen) && CanDiscover(adj, s, w)
    requires DoneOk(adj, s.idx, s.on, s.comp, s.compId)
    ensures var t := Discover(s, w); DoneOk(adj, t.idx, t.on, t.comp, t.compId)
  {
    var t := Discover(s, w);
    RoomForIndex(adj, s, w);
    DoneFrame(adj, s.idx, s.on, t.idx, t.on, s.comp, s.compId);
  }

  lemma DiscoverKeeps(adj: Adj, s: State, w: nat)
    requires Inv(adj, s) && CanDiscover(adj, s, w)
    ensures Inv(adj, Discover(s, w))
  {
    var t := Discover(s, w);
    assert IndexOk(t.idx, t.next, t.seen) by { DiscoverIndex(adj, s, w); }
    assert StackOk(t.idx, t.on, t.stack) by { DiscoverStack(adj, s, w); }
    assert PathOk(adj, t.idx, t.on, t.path) by { DiscoverPath(adj, s, w); }
    RoomForIndex(adj, s, w);
    DiscoverFresh(adj, s, w);
    assert |s.path| > 0 ==> On(s.on, s.path[|s.path| - 1]);
    assert CursorOk(adj, t.idx, t.path, t.cur) by { DiscoverCursor(adj, s, w); }
    assert LowOk(adj, t.idx, t.on, t.path, t.low) by { DiscoverLow(adj, s, w); }
    assert BackOk(adj, t.idx, t.on, t.path) by { DiscoverBack(adj, s, w); }
    assert LowBound(adj, t.idx, t.on, t.path, t.low, t.cur) by { DiscoverLowBound(adj, s, w); }
    assert DoneOk(adj, t.idx, t.on, t.comp, t.compId) by { DiscoverDone(adj, s, w); }
  }

  // ---------------------------------------------------------- leaving a node

  ghost predicate CanLeave(adj: Adj, s: State) {
    && |s.path| > 0 && Top(s.path) < |adj| == |s.cur|
    && s.cur[Top(s.path)] == |adj[Top(s.path)]|
  }

  lemma LeavePath(adj: Adj, idx: seq<nat>, on: seq<bool>, path: seq<nat>)
    requires |idx| == |on| && |path| > 0 && PathOk(adj, idx, on, path)
    ensures PathOk(adj, idx, on, path[..|path| - 1])
  {
  }

  lemma LeaveCursor(adj: Adj, idx: seq<nat>, path: seq<nat>, cur: seq<nat>)
    requires |cur| == |adj| && |path| > 0 && CursorOk(adj, idx, path, cur)
    requires Top(path) < |adj| && cur[Top(path)] == |adj[Top(path)]|
    ensures CursorOk(adj, idx, path[..|path| - 1], cur)
  {
    var path' := path[..|path| - 1];
    assert path == path' + [Top(path)];
    forall x: nat | x < |adj| && Visited(idx, x) && x !in path' ensures cur[x] == |adj[x]| {
      assert x in path ==> x == Top(path);
    }
  }

  lemma LeaveLow(adj: Adj, idx: seq<nat>, on: seq<bool>, path: seq<nat>, low: seq<nat>)
    requires |idx| == |on| == |low| && |path| > 0 && PathOk(adj, idx, on, path) && LowOk(adj, idx, on, path, low)
    ensures LowOk(adj, idx, on, path[..|path| - 1], LowAfter(path[..|path| - 1], low, Top(path)))
  {
    var path', v := path[..|path| - 1], Top(path);
    assert LowOk(adj, idx, on, path', low);
    if |path'| > 0 {
      var p := Top(path');
      assert p == path[|path| - 2];
      assert LowWitness(adj, idx, on, v, low[v], LowWitnessOf(adj, idx, on, path, low, |path| - 1));
      var w :| LowWitness(adj, idx, on, v, low[v], w);
      ReachTrans(adj, p, v, w);
      LowOkStep(adj, idx, on, path', low, p, w, Min(low[p], low[v]));
    }
  }

  ghost function LowWitnessOf(adj: Adj, idx: seq<nat>, on: seq<bool>, path: seq<nat>, low: seq<nat>, k: nat): (w: nat)
    requires |idx| == |on| == |low| && LowOk(adj, idx, on, path, low) && k < |path| && path[k] < |low|
    ensures LowWitness(adj, idx, on, path[k], low[path[k]], w)
  {
    var w :| LowWitness(adj, idx, on, path[k], low[path[k]], w);
    w
  }

  lemma LeaveLowBound(adj: Adj, idx: seq<nat>, on: seq<bool>, path: seq<nat>, low: seq<nat>, cur: seq<nat>)
    requires |idx| == |on| == |low| == |cur| == |adj| && |path| > 0
    requires PathOk(adj, idx, on, path) && LowBound(adj, idx, on, path, low, cur)
    ensures LowBound(adj, idx, on, path[..|path| - 1], LowAfter(path[..|path| - 1], low, Top(path)), cur)
  {
    var m := |path| - 1;
    var path' := path[..m];
    var low' := LowAfter(path', low, Top(path));
    forall k: nat, x: nat, j | InSegment(idx, on, path', k, x) && 0 <= j < cur[x] && j < |adj[x]| && On(on, adj[x][j])
      ensures low'[path'[k]] <= idx[adj[x][j]]
    {
      if k + 1 == m && idx[path[m]] <= idx[x] {
        assert InSegment(idx, on, path, m, x);
        assert low[path[m]] <= idx[adj[x][j]];
      } else {
        assert InSegment(idx, on, path, k, x);
        assert low[path[k]] <= idx[adj[x][j]];
      }
    }
  }

  lemma LeaveBack(adj: Adj, idx: seq<nat>, on: seq<bool>, path: seq<nat>, low: seq<nat>)
    requires |idx| == |on| == |low| && |path| > 0
    requires PathOk(adj, idx, on, path) && LowOk(adj, idx, on, path, low) && BackOk(adj, idx, on, path)
    requires Top(path) < |low| && low[Top(path)] < idx[Top(path)]
    ensures BackOk(adj, idx, on, path[..|path| - 1])
  {
    var m := |path| - 1;
    var v, path' := path[m], path[..m];
    var w := LowWitnessOf(adj, idx, on, path, low, m);
    assert Returns(adj, idx, path, w);
    var q: nat :| ReachesActive(adj, idx, path, w, q);
    assert q < m;
    ReachTrans(adj, v, w, path[q]);
    forall x: nat | On(on, x) ensures Returns(adj, idx, path', x) {
      assert Returns(adj, idx, path, x);
      var k: nat :| ReachesActive(adj, idx, path, x, k);
      if k < m {
        assert ReachesActive(adj, idx, path', x, k);
      } else {
        ReachTrans(adj, x, v, path[q]);
        assert ReachesActive(adj, idx, path', x, q);
      }
    }
  }

  ghost predicate LeavesOpen(adj: Adj, s: State) {
    Inv(adj, s) && CanLeave(adj, s) && s.low[Top(s.path)] < s.idx[Top(s.path)]
  }

  lemma LeaveLinks(adj: Adj, s: State)
    requires LeavesOpen(adj, s)
    ensures var t := Leave(s);
      LowOk(adj, t.idx, t.on, t.path, t.low) && LowBound(adj, t.idx, t.on, t.path, t.low, t.cur)
  {
    LeaveLow(adj, s.idx, s.on, s.path, s.low);
    LeaveLowBound(adj, s.idx, s.on, s.path, s.low, s.cur);
  }

  lemma LeaveActive(adj: Adj, s: State)
    requires LeavesOpen(adj, s)
    ensures var t := Leave(s);
      && PathOk(adj, t.idx, t.on, t.path) && BackOk(adj, t.idx, t.on, t.path)
      && CursorOk(adj, t.idx, t.path, t.cur)
  {
    LeavePath(adj, s.idx, s.on, s.path);
    LeaveBack(adj, s.idx, s.on, s.path, s.low);
    LeaveCursor(adj, s.idx, s.path, s.cur);
  }

  lemma LeaveKeeps(adj: Adj, s: State)
    requires LeavesOpen(adj, s)
    ensures Inv(adj, Leave(s))
  {
    LeaveActive(adj, s);
    LeaveLinks(adj, s);
  }

  // ---------------------------------------------------------- emitting a component

  /** The segment of a node whose low link is its own index: no edge leaves it
      except into emitted components. */
  lemma SegmentClosed(adj: Adj, s: State, x: nat, y: nat)
    requires Sized(adj, s) && PathOk(adj, s.idx, s.on, s.path) && CursorOk(adj, s.idx, s.path, s.cur)
    requires StackOk(s.idx, s.on, s.stack)
    requires LowBound(adj, s.idx, s.on, s.path, s.low, s.cur)
    requires CanLeave(adj, s) && s.low[Top(s.path)] == s.idx[Top(s.path)]
    requires On(s.on, x) && s.idx[x] >= s.idx[Top(s.path)] && Edge(adj, x, y)
    ensures (On(s.on, y) && s.idx[y] >= s.idx[Top(s.path)]) || Done(s.idx, s.on, y)
  {
    var m := |s.path| - 1;
    assert s.cur[x] == |adj[x]| by {
      if x in s.path {
        var k :| 0 <= k < |s.path| && s.path[k] == x;
        if k < m {
          assert false;
        }
      }
    }
    var j :| 0 <= j < |adj[x]| && adj[x][j] == y;
    assert Visited(s.idx, y);
    if On(s.on, y) {
      assert InSegment(s.idx, s.on, s.path, m, x);
    }
  }

  /** The segment is one class of mutual reachability. */
  lemma SegmentMutual(adj: Adj, idx: seq<nat>, on: seq<bool>, path: seq<nat>, x: nat)
    requires |idx| == |on| && |path| > 0 && PathOk(adj, idx, on, path) && BackOk(adj, idx, on, path)
    requires On(on, x) && idx[x] >= idx[Top(path)]
    ensures Mutual(adj, x, Top(path))
  {
    var v := Top(path);
    assert Returns(adj, idx, path, x);
    var k: nat :| ReachesActive(adj, idx, path, x, k);
    assert k < |path| - 1 ==> idx[path[k]] < idx[path[|path| - 1]];
    ReachTrans(adj, x, path[k], v);
  }

  lemma EmitStack(idx: seq<nat>, on: seq<bool>, stack: seq<nat>, p: nat)
    requires |idx| == |on| && StackOk(idx, on, stack) && p < |stack|
    ensures StackOk(idx, EmitOn(idx, on, idx[stack[p]]), stack[..p])
  {
    var on' := EmitOn(idx, on, idx[stack[p]]);
    forall x: nat | On(on', x) ensures Visited(idx, x) && x in stack[..p] {
      assert On(on, x);
      var i :| 0 <= i < |stack| && stack[i] == x;
      assert i < p;
      assert stack[..p][i] == x;
    }
    forall i | 0 <= i < p ensures On(on', stack[..p][i]) {
      assert On(on, stack[i]);
    }
  }

  lemma EmitPath(adj: Adj, idx: seq<nat>, on: seq<bool>, path: seq<nat>)
    requires |idx| == |on| && |path| > 0 && PathOk(adj, idx, on, path)
    ensures PathOk(adj, idx, EmitOn(idx, on, idx[Top(path)]), path[..|path| - 1])
  {
    var m := |path| - 1;
    var on', path' := EmitOn(idx, on, idx[path[m]]), path[..m];
    forall k | 0 <= k < m ensures On(on', path'[k]) {
      assert On(on, path[k]);
    }
    forall k, x: nat | 0 <= k < m && On(on', x) && idx[path'[k]] <= idx[x] ensures Reach(adj, path'[k], x) {
      assert On(on, x);
    }
  }

  lemma EmitLow(adj: Adj, idx: seq<nat>, on: seq<bool>, path: seq<nat>, low: seq<nat>)
    requires |idx| == |on| == |low| && |path| > 0 && PathOk(adj, idx, on, path) && LowOk(adj, idx, on, path, low)
    requires low[Top(path)] == idx[Top(path)]
    ensures LowAfter(path[..|path| - 1], low, Top(path)) == low
    ensures LowOk(adj, idx, EmitOn(idx, on, idx[Top(path)]), path[..|path| - 1], low)
  {
    var m := |path| - 1;
    var on', path' := EmitOn(idx, on, idx[path[m]]), path[..m];
    forall k | 0 <= k < m && path'[k] < |low|
      ensures low[path'[k]] <= idx[path'[k]] && exists w :: LowWitness(adj, idx, on', path'[k], low[path'[k]], w)
    {
      assert idx[path[k]] < idx[path[m]];
      var w :| LowWitness(adj, idx, on, path[k], low[path[k]], w);
      assert LowWitness(adj, idx, on', path'[k], low[path'[k]], w);
    }
  }

  lemma EmitBack(adj: Adj, idx: seq<nat>, on: seq<bool>, path: seq<nat>)
    requires |idx| == |on| && |path| > 0 && PathOk(adj, idx, on, path) && BackOk(adj, idx, on, path)
    ensures BackOk(adj, idx, EmitOn(idx, on, idx[Top(path)]), path[..|path| - 1])
  {
    var m := |path| - 1;
    var on', path' := EmitOn(idx, on, idx[path[m]]), path[..m];
    forall x: nat | On(on', x) ensures Returns(adj, idx, path', x) {
      assert On(on, x) && Returns(adj, idx, path, x);
      var k: nat :| ReachesActive(adj, idx, path, x, k);
      assert ReachesActive(adj, idx, path', x, k);
    }
  }

  lemma EmitLowBound(adj: Adj, idx: seq<nat>, on: seq<bool>, path: seq<nat>, low: seq<nat>, cur: seq<nat>)
    requires |idx| == |on| == |low| == |cur| == |adj| && |path| > 0
    requires PathOk(adj, idx, on, path) && LowBound(adj, idx, on, path, low, cur)
    ensures LowBound(adj, idx, EmitOn(idx, on, idx[Top(path)]), path[..|path| - 1], low, cur)
  {
    var m := |path| - 1;
    var on', path' := EmitOn(idx, on, idx[path[m]]), path[..m];
    forall k: nat, x: nat, j | InSegment(idx, on', path', k, x) && 0 <= j < cur[x] && j < |adj[x]| && On(on', adj[x][j])
      ensures low[path'[k]] <= idx[adj[x][j]]
    {
      assert On(on, x) && On(on, adj[x][j]);
      assert InSegment(idx, on, path, k, x);
    }
  }

  /** A new class of mutual reachability, closed up to what was emitted before,
      may be emitted next. */
  lemma EmitDone(adj: Adj, idx: seq<nat>, on: seq<bool>, comp: seq<nat>, compId: nat, v: nat)
    requires |idx| == |on| == |comp| == |adj| && DoneOk(adj, idx, on, comp, compId)
    requires On(on, v) && forall x: nat | On(on, x) :: Visited(idx, x)
    requires forall x: nat | On(on, x) && idx[x] >= idx[v] :: Mutual(adj, x, v)
    requires forall x: nat, y: nat | On(on, x) && idx[x] >= idx[v] && Edge(adj, x, y) ::
               (On(on, y) && idx[y] >= idx[v]) || Done(idx, on, y)
    ensures DoneOk(adj, idx, EmitOn(idx, on, idx[v]), EmitComp(idx, on, comp, idx[v], compId), compId + 1)
  {
    var on', comp' := EmitOn(idx, on, idx[v]), EmitComp(idx, on, comp, idx[v], compId);
    forall x: nat ensures Done(idx, on', x) <==> Done(idx, on, x) || (On(on, x) && idx[x] >= idx[v]) {
    }
    forall x: nat, y: nat | Done(idx, on', x) && Edge(adj, x, y) ensures Done(idx, on', y) && comp'[y] <= comp'[x] {
      if Done(idx, on, x) {
        assert Done(idx, on, y);
      }
    }
    forall c: nat | c < compId + 1 ensures Used(idx, on', comp', c) {
      if c < compId {
        assert Used(idx, on, comp, c);
        var x: nat :| Done(idx, on, x) && comp[x] == c;
        assert Done(idx, on', x) && comp'[x] == c;
      } else {
        assert Done(idx, on', v) && comp'[v] == c;
      }
    }
    forall x: nat, y: nat | Done(idx, on', x) && Done(idx, on', y) ensures comp'[x] == comp'[y] <==> Mutual(adj, x, y) {
      EmitClasses(adj, idx, on, comp, compId, v, x, y);
    }
  }

  lemma EmitClasses(adj: Adj, idx: seq<nat>, on: seq<bool>, comp: seq<nat>, compId: nat, v: nat, x: nat, y: nat)
    requires |idx| == |on| == |comp| == |adj| && DoneOk(adj, idx, on, comp, compId)
    requires On(on, v) && forall x: nat | On(on, x) && idx[x] >= idx[v] :: Mutual(adj, x, v)
    requires Done(idx, on, x) || (On(on, x) && idx[x] >= idx[v])
    requires Done(idx, on, y) || (On(on, y) && idx[y] >= idx[v])
    ensures var comp' := EmitComp(idx, on, comp, idx[v], compId); comp'[x] == comp'[y] <==> Mutual(adj, x, y)
  {
    if On(on, x) && On(on, y) {
      ReachTrans(adj, x, v, y);
      ReachTrans(adj, y, v, x);
    } else if Done(idx, on, x) && On(on, y) {
      DoneStays(adj, idx, on, comp, compId, x, y);
    } else if Done(idx, on, y) && On(on, x) {
      DoneStays(adj, idx, on, comp, compId, y, x);
    }
  }

  /** Nothing on the stack can be reached from an emitted node. */
  lemma DoneStays(adj: Adj, idx: seq<nat>, on: seq<bool>, comp: seq<nat>, compId: nat, x: nat, y: nat)
    requires |idx| == |on| == |comp| == |adj| && DoneOk(adj, idx, on, comp, compId)
    requires Done(idx, on, x) && On(on, y)
    ensures !Reach(adj, x, y)
  {
    var d := set z: nat | z < |adj| && Done(idx, on, z);
    if Reach(adj, x, y) {
      ClosedUnderReach(adj, d, x, y);
      assert false;
    }
  }

  ghost predicate Closes(adj: Adj, s: State, p: nat) {
    && Inv(adj, s) && CanLeave(adj, s) && s.low[Top(s.path)] == s.idx[Top(s.path)]
    && p < |s.stack| && s.stack[p] == Top(s.path)
  }

  ghost predicate Popped(s: State, v: nat, x: nat)
    requires |s.idx| == |s.on| && v < |s.idx|
  {
    On(s.on, x) && s.idx[x] >= s.idx[v]
  }

  /** What can be reached from the root of a segment is in the segment or emitted. */
  lemma SegmentReach(adj: Adj, s: State, p: nat, y: nat)
    requires Closes(adj, s, p) && Reach(adj, Top(s.path), y)
    ensures Popped(s, Top(s.path), y) || Done(s.idx, s.on, y)
  {
    hide LowOk, BackOk, IndexOk, StackOk;
    var v := Top(s.path);
    var d := set z: nat | z < |adj| && (Popped(s, v, z) || Done(s.idx, s.on, z));
    forall x: nat, z: nat | x in d && Edge(adj, x, z) ensures z in d {
      if Popped(s, v, x) {
        SegmentClosed(adj, s, x, z);
      }
    }
    ClosedUnderReach(adj, d, v, y);
  }

  /** The segment that is popped is the strongly connected component of its root. */
  lemma SegmentIsComponent(adj: Adj, s: State, p: nat, y: nat)
    requires Closes(adj, s, p)
    ensures Popped(s, Top(s.path), y) <==> Mutual(adj, y, Top(s.path))
  {
    hide LowOk, IndexOk, StackOk, LowBound, CursorOk;
    var v := Top(s.path);
    if Popped(s, v, y) {
      SegmentMutual(adj, s.idx, s.on, s.path, y);
    }
    if Mutual(adj, y, v) {
      SegmentReach(adj, s, p, y);
      if Done(s.idx, s.on, y) {
        DoneStays(adj, s.idx, s.on, s.comp, s.compId, y, v);
      }
    }
  }

  lemma EmitActive(adj: Adj, s: State, p: nat)
    requires Closes(adj, s, p)
    ensures var t := Emit(s, p); PathOk(adj, t.idx, t.on, t.path) && BackOk(adj, t.idx, t.on, t.path)
    ensures var t := Emit(s, p); CursorOk(adj, t.idx, t.path, t.cur) && StackOk(t.idx, t.on, t.stack)
  {
    EmitStack(s.idx, s.on, s.stack, p);
    EmitPath(adj, s.idx, s.on, s.path);
    EmitBack(adj, s.idx, s.on, s.path);
    LeaveCursor(adj, s.idx, s.path, s.cur);
  }

  lemma EmitLinks(adj: Adj, s: State, p: nat)
    requires Closes(adj, s, p)
    ensures var t := Emit(s, p);
      LowOk(adj, t.idx, t.on, t.path, t.low) && LowBound(adj, t.idx, t.on, t.path, t.low, t.cur)
  {
    EmitLow(adj, s.idx, s.on, s.path, s.low);
    EmitLowBound(adj, s.idx, s.on, s.path, s.low, s.cur);
  }

  lemma EmitComponent(adj: Adj, s: State, p: nat)
    requires Closes(adj, s, p)
    ensures var t := Emit(s, p); DoneOk(adj, t.idx, t.on, t.comp, t.compId)
  {
    var v := Top(s.path);
    forall x: nat, y: nat | On(s.on, x) && s.idx[x] >= s.idx[v] && Edge(adj, x, y)
      ensures (On(s.on, y) && s.idx[y] >= s.idx[v]) || Done(s.idx, s.on, y)
    {
      SegmentClosed(adj, s, x, y);
    }
    forall x: nat | On(s.on, x) && s.idx[x] >= s.idx[v] ensures Mutual(adj, x, v) {
      SegmentMutual(adj, s.idx, s.on, s.path, x);
    }
    EmitDone(adj, s.idx, s.on, s.comp, s.compId, v);
  }

  lemma EmitKeeps(adj: Adj, s: State, p: nat)
    requires Closes(adj, s, p)
    ensures Inv(adj, Emit(s, p))
  {
    EmitActive(adj, s, p);
    EmitLinks(adj, s, p);
    EmitComponent(adj, s, p);
  }

  // ------------------------------------------------------------------ the algorithm

  /** An edge between two components leads to a smaller id. */
  ghost predicate ReverseTopological(adj: Adj, comp: seq<nat>)
    requires |comp| == |adj|
  {
    forall u: nat, v: nat | Edge(adj, u, v) && comp[u] != comp[v] :: comp[v] < comp[u]
  }

  /** The explicit DFS stack, as (node, next entry) pairs. */
  ghost predicate Frames(dfs: seq<(nat, nat)>, path: seq<nat>, cur: seq<nat>) {
    && |dfs| == |path|
    && forall k | 0 <= k < |path| :: path[k] < |cur| && dfs[k] == (path[k], cur[path[k]])
  }

  lemma Finished(adj: Adj, s: State)
    requires Inv(adj, s) && |s.path| == 0
    ensures forall x: nat :: !On(s.on, x)
  {
    forall x: nat ensures !On(s.on, x) {
      assert On(s.on, x) ==> Returns(adj, s.idx, s.path, x);
    }
  }

  lemma Result(adj: Adj, s: State)
    requires Inv(adj, s) && |s.path| == 0
    requires forall x | 0 <= x < |adj| :: Visited(s.idx, x)
    ensures Labels(adj, s.comp) && Dense(s.comp) && ReverseTopological(adj, s.comp)
  {
    Finished(adj, s);
    assert forall x | 0 <= x < |adj| :: Done(s.idx, s.on, x);
    forall v, c: nat | 0 <= v < |s.comp| && c < s.comp[v] ensures c in s.comp {
      assert Done(s.idx, s.on, v) && s.comp[v] < s.compId;
      assert Used(s.idx, s.on, s.comp, c);
    }
    forall u: nat, v: nat | Edge(adj, u, v) && s.comp[u] != s.comp[v] ensures s.comp[v] < s.comp[u] {
      assert Done(s.idx, s.on, u);
    }
  }

  /** The flags and ids after the component stack was popped down to height `p`. */
  function PopOn(on: seq<bool>, stack: seq<nat>, p: nat): seq<bool>
    requires p <= |stack|
  {
    seq(|on|, x requires 0 <= x < |on| => on[x] && x in stack[..p])
  }

  function PopComp(on: seq<bool>, comp: seq<nat>, stack: seq<nat>, p: nat, c: nat): seq<nat>
    requires |on| == |comp| && p <= |stack|
  {
    seq(|comp|, x requires 0 <= x < |comp| => if on[x] && x !in stack[..p] then c else comp[x])
  }

  lemma BelowOnStack(idx: seq<nat>, on: seq<bool>, stack: seq<nat>, p: nat, x: nat)
    requires |idx| == |on| && StackOk(idx, on, stack) && p < |stack| && On(on, x)
    ensures x in stack[..p] <==> idx[x] < idx[stack[p]]
    ensures x in stack[..p + 1] <==> x in stack[..p] || x == stack[p]
  {
    var i :| 0 <= i < |stack| && stack[i] == x;
    if i < p {
      assert stack[..p][i] == x;
    }
    assert stack[..p + 1] == stack[..p] + [stack[p]];
  }

  lemma PopStart(idx: seq<nat>, on: seq<bool>, comp: seq<nat>, stack: seq<nat>, c: nat)
    requires |idx| == |on| == |comp| && StackOk(idx, on, stack)
    ensures PopOn(on, stack, |stack|) == on && PopComp(on, comp, stack, |stack|, c) == comp
  {
    assert stack[..|stack|] == stack;
    assert forall x | 0 <= x < |on| && on[x] :: On(on, x);
  }

  lemma PopOne(idx: seq<nat>, on: seq<bool>, comp: seq<nat>, stack: seq<nat>, p: nat, c: nat)
    requires |idx| == |on| == |comp| && StackOk(idx, on, stack) && p < |stack|
    ensures stack[p] < |on|
    ensures PopOn(on, stack, p) == PopOn(on, stack, p + 1)[stack[p] := false]
    ensures PopComp(on, comp, stack, p, c) == PopComp(on, comp, stack, p + 1, c)[stack[p] := c]
    ensures PopOn(on, stack, p) == EmitOn(idx, on, idx[stack[p]])
    ensures PopComp(on, comp, stack, p, c) == EmitComp(idx, on, comp, idx[stack[p]], c)
  {
    assert On(on, stack[p]);
    forall x | 0 <= x < |on| && on[x]
      ensures x in stack[..p] <==> idx[x] < idx[stack[p]]
      ensures x in stack[..p + 1] <==> x in stack[..p] || x == stack[p]
    {
      assert On(on, x);
      BelowOnStack(idx, on, stack, p, x);
    }
  }

  method PopWrite(onStack: array<bool>, component: array<nat>, w: nat, compId: nat)
    requires w < onStack.Length == component.Length
    modifies onStack, component
    ensures onStack[..] == old(onStack[..])[w := false] && component[..] == old(component[..])[w := compId]
  {
    onStack[w] := false;
    component[w] := compId;
  }

  /** Pops the component stack down to and including `v`. */
  method PopComponent(onStack: array<bool>, component: array<nat>, stack: seq<nat>, v: nat, compId: nat,
                      ghost idx: seq<nat>)
      returns (rest: seq<nat>)
    requires |idx| == onStack.Length == component.Length
    requires StackOk(idx, onStack[..], stack) && v in stack
    modifies onStack, component
    ensures |rest| < |stack| && rest == stack[..|rest|] && stack[|rest|] == v
    ensures onStack[..] == EmitOn(idx, old(onStack[..]), idx[v])
    ensures component[..] == EmitComp(idx, old(onStack[..]), old(component[..]), idx[v], compId)
  {
    hide PopOn, PopComp, EmitOn, EmitComp, StackOk;
    ghost var on, comp := onStack[..], component[..];
    PopStart(idx, on, comp, stack, compId);
    rest := stack;
    while true
      invariant |rest| <= |stack| && rest == stack[..|rest|] && v in rest
      invariant onStack[..] == PopOn(on, stack, |rest|)
      invariant component[..] == PopComp(on, comp, stack, |rest|, compId)
      decreases |rest|
    {
      var w := rest[|rest| - 1];
      rest := rest[..|rest| - 1];
      PopOne(idx, on, comp, stack, |rest|, compId);
      PopWrite(onStack, component, w, compId);
      if w == v {
        break;
      }
    }
  }

  /** One turn of the inner loop; a component popped leaves a stack of height `p`. */
  function Turn(adj: Adj, s: State, p: nat): State
    requires Ready(adj, s) && p <= |s.stack|
  {
    var v := Top(s.path);
    if HasNext(adj, s) then
      var w := NextTarget(adj, s);
      if w < |adj| && s.idx[w] == USIZE_MAX then Discover(s, w) else Look(s, w)
    else if s.low[v] == s.idx[v] then Emit(s, p)
    else Leave(s)
  }

  /** What a turn needs to know of the state. */
  ghost predicate Ready(adj: Adj, s: State) {
    && |s.idx| == |s.low| == |s.on| == |s.comp| == |s.cur| == |adj|
    && |s.path| > 0
    && (forall k | 0 <= k < |s.path| :: s.path[k] < |adj|)
    && (forall k | 0 <= k < |s.path| - 1 :: s.path[k] != Top(s.path))
    && (forall x | 0 <= x < |adj| && s.idx[x] == USIZE_MAX :: s.cur[x] == 0 && x !in s.path)
    && (forall k | 0 <= k < |s.path| - 1 :: s.low[s.path[k]] <= s.idx[s.path[k]] < s.idx[Top(s.path)])
  }

  lemma IsReady(adj: Adj, s: State)
    requires Inv(adj, s) && |s.path| > 0
    ensures Ready(adj, s) && Top(s.path) in s.stack && StackOk(s.idx, s.on, s.stack)
  {
    assert forall k | 0 <= k < |s.path| :: On(s.on, s.path[k]);
  }

  ghost predicate ClosesAt(s: State, p: nat)
    requires |s.path| > 0
  {
    p < |s.stack| && s.stack[p] == Top(s.path)
  }

  lemma TurnKeeps(adj: Adj, s: State, p: nat)
    requires Inv(adj, s) && Ready(adj, s) && p <= |s.stack|
    requires !HasNext(adj, s) && s.low[Top(s.path)] == s.idx[Top(s.path)] ==> ClosesAt(s, p)
    ensures Inv(adj, Turn(adj, s, p))
  {
    if HasNext(adj, s) {
      var w := NextTarget(adj, s);
      if w < |adj| && s.idx[w] == USIZE_MAX { DiscoverKeeps(adj, s, w); } else { LookKeeps(adj, s); }
    } else if s.low[Top(s.path)] == s.idx[Top(s.path)] {
      EmitKeeps(adj, s, p);
    } else {
      LeaveKeeps(adj, s);
    }
  }

  ghost predicate Holds(indices: array<nat>, lowlink: array<nat>, onStack: array<bool>, component: array<nat>, s: State)
    reads indices, lowlink, onStack, component
  {
    indices[..] == s.idx && lowlink[..] == s.low && onStack[..] == s.on && component[..] == s.comp
  }

  /** Indexes `w` and flags it as being on the component stack. */
  method IndexNode(indices: array<nat>, lowlink: array<nat>, onStack: array<bool>, w: nat, nextIndex: nat)
    requires indices != lowlink && w < indices.Length == lowlink.Length == onStack.Length
    modifies indices, lowlink, onStack
    ensures indices[..] == old(indices[..])[w := nextIndex]
    ensures lowlink[..] == old(lowlink[..])[w := nextIndex]
    ensures onStack[..] == old(onStack[..])[w := true]
  {
    indices[w] := nextIndex;
    lowlink[w] := nextIndex;
    onStack[w] := true;
  }

  lemma FramesAdvance(dfs: seq<(nat, nat)>, path: seq<nat>, cur: seq<nat>)
    requires Frames(dfs, path, cur) && |path| > 0 && forall k | 0 <= k < |path| - 1 :: path[k] != Top(path)
    ensures var v := Top(path); Frames(dfs[|dfs| - 1 := (v, cur[v] + 1)], path, cur[v := cur[v] + 1])
  {
  }

  /** The top node has an entry left: look at it. */
  method NextEntry(g: Csr, indices: array<nat>, lowlink: array<nat>, onStack: array<bool>, component: array<nat>,
                   stack: seq<nat>, dfsStack: seq<(nat, nat)>, nextIndex: nat, ghost adj: Adj, ghost s: State)
      returns (stack': seq<nat>, dfsStack': seq<(nat, nat)>, nextIndex': nat)
    requires g.Valid() && adj == Lists(g) && Ready(adj, s) && HasNext(adj, s)
    requires Holds(indices, lowlink, onStack, component, s)
    requires indices != lowlink && indices != component && lowlink != component
    requires stack == s.stack && nextIndex == s.next && Frames(dfsStack, s.path, s.cur)
    modifies indices, lowlink, onStack
    ensures var t := Turn(adj, s, 0);
      && Holds(indices, lowlink, onStack, component, t) && stack' == t.stack
      && nextIndex' == t.next && Frames(dfsStack', t.path, t.cur)
  {
    stack', nextIndex' := stack, nextIndex;
    var (v, npos) := dfsStack[|dfsStack| - 1];
    var w := g.adjacency[g.offsets[v] + npos].1.offset;
    assert w == NextTarget(adj, s);
    dfsStack' := dfsStack[|dfsStack| - 1 := (v, npos + 1)];
    FramesAdvance(dfsStack, s.path, s.cur);
    if w < g.NumNodes() && indices[w] == USIZE_MAX {
      IndexNode(indices, lowlink, onStack, w, nextIndex);
      nextIndex' := nextIndex + 1;
      stack' := stack + [w];
      dfsStack' := dfsStack' + [(w, 0)];
    } else if w < g.NumNodes() && onStack[w] {
      lowlink[v] := Min(lowlink[v], indices[w]);
    }
  }

  /** The top node is exhausted: unwind it, and emit its component if it is a root. */
  method Unwind(indices: array<nat>, lowlink: array<nat>, onStack: array<bool>, component: array<nat>,
                stack: seq<nat>, dfsStack: seq<(nat, nat)>, compId: nat, ghost adj: Adj, ghost s: State)
      returns (stack': seq<nat>, dfsStack': seq<(nat, nat)>, compId': nat)
    requires Ready(adj, s) && !HasNext(adj, s)
    requires Holds(indices, lowlink, onStack, component, s)
    requires indices != lowlink && indices != component && lowlink != component
    requires stack == s.stack && compId == s.compId && Frames(dfsStack, s.path, s.cur)
    requires Top(s.path) in stack && StackOk(s.idx, s.on, s.stack)
    modifies lowlink, onStack, component
    ensures |stack'| <= |stack|
    ensures s.low[Top(s.path)] == s.idx[Top(s.path)] ==> ClosesAt(s, |stack'|)
    ensures var t := Turn(adj, s, |stack'|);
      && Holds(indices, lowlink, onStack, component, t) && stack' == t.stack
      && compId' == t.compId && Frames(dfsStack', t.path, t.cur)
  {
    stack', compId' := stack, compId;
    var v := dfsStack[|dfsStack| - 1].0;
    dfsStack' := dfsStack[..|dfsStack| - 1];
    if |dfsStack'| > 0 {
      var parent := dfsStack'[|dfsStack'| - 1].0;
      lowlink[parent] := Min(lowlink[parent], lowlink[v]);
    }
    if lowlink[v] == indices[v] {
      stack' := PopComponent(onStack, component, stack, v, compId, s.idx);
      compId' := compId + 1;
    }
  }

  /** The entries the top node has not looked at. */
  ghost function Left(adj: Adj, path: seq<nat>, cur: seq<nat>): int {
    if |path| > 0 && Top(path) < |adj| && Top(path) < |cur| then |adj[Top(path)]| - cur[Top(path)] else 0
  }

  /** A turn indexes a node, leaves one, or uses up an entry. */
  ghost predicate Progress(adj: Adj, s: State, t: State) {
    && s.seen <= t.seen
    && (s.next < t.next <= |adj|
        || (t.next == s.next && |t.path| < |s.path|)
        || (t.next == s.next && |t.path| == |s.path| && 0 <= Left(adj, t.path, t.cur) < Left(adj, s.path, s.cur)))
  }

  lemma TurnProgress(adj: Adj, s: State, p: nat)
    requires Inv(adj, s) && Ready(adj, s) && p <= |s.stack|
    ensures Progress(adj, s, Turn(adj, s, p))
  {
    hide StackOk, LowOk, BackOk, LowBound, DoneOk;
    if HasNext(adj, s) {
      var w := NextTarget(adj, s);
      if w < |adj| && s.idx[w] == USIZE_MAX {
        RoomForIndex(adj, s, w);
      }
    }
  }

  /** One turn of the inner loop. */
  method Step(g: Csr, indices: array<nat>, lowlink: array<nat>, onStack: array<bool>, component: array<nat>,
              stack: seq<nat>, dfsStack: seq<(nat, nat)>, nextIndex: nat, compId: nat, ghost adj: Adj, ghost s: State)
      returns (stack': seq<nat>, dfsStack': seq<(nat, nat)>, nextIndex': nat, compId': nat, ghost t: State)
    requires g.Valid() && adj == Lists(g) && Inv(adj, s) && |dfsStack| > 0
    requires Holds(indices, lowlink, onStack, component, s)
    requires indices != lowlink && indices != component && lowlink != component
    requires stack == s.stack && nextIndex == s.next && compId == s.compId && Frames(dfsStack, s.path, s.cur)
    modifies indices, lowlink, onStack, component
    ensures Inv(adj, t) && Holds(indices, lowlink, onStack, component, t)
    ensures stack' == t.stack && nextIndex' == t.next && compId' == t.compId && Frames(dfsStack', t.path, t.cur)
    ensures Progress(adj, s, t)
  {
    hide Inv, Holds, Progress;
    IsReady(adj, s);
    stack', nextIndex', compId' := stack, nextIndex, compId;
    var (v, npos) := dfsStack[|dfsStack| - 1];
    ghost var p := 0;
    if npos < g.offsets[v + 1] - g.offsets[v] {
      stack', dfsStack', nextIndex' :=
        NextEntry(g, indices, lowlink, onStack, component, stack, dfsStack, nextIndex, adj, s);
    } else {
      stack', dfsStack', compId' := Unwind(indices, lowlink, onStack, component, stack, dfsStack, compId, adj, s);
      p := |stack'|;
    }
    t := Turn(adj, s, p);
    assert Inv(adj, t) by { TurnKeeps(adj, s, p); }
    assert Progress(adj, s, t) by { TurnProgress(adj, s, p); }
  }

  lemma VisitStart(adj: Adj, s: State, start: nat)
    requires Inv(adj, s) && s.path == [] && start < |adj| && !Visited(s.idx, start)
    ensures |s.idx| == |s.low| == |s.on| == |s.comp| == |s.cur| == |adj| && s.cur[start] == 0 && s.next < |adj|
    ensures Inv(adj, Discover(s, start))
  {
    DiscoverKeeps(adj, s, start);
    RoomForIndex(adj, s, start);
  }

  /** Visits everything reachable from `start`. */
  method VisitFrom(g: Csr, start: nat, indices: array<nat>, lowlink: array<nat>, onStack: array<bool>,
                   component: array<nat>,
                   stack0: seq<nat>, nextIndex0: nat, compId0: nat, ghost adj: Adj, ghost s0: State)
      returns (stack: seq<nat>, nextIndex: nat, compId: nat, ghost s: State)
    requires g.Valid() && adj == Lists(g) && start < |adj| && !Visited(s0.idx, start)
    requires Inv(adj, s0) && s0.path == []
    requires Holds(indices, lowlink, onStack, component, s0)
    requires indices != lowlink && indices != component && lowlink != component
    requires stack0 == s0.stack && nextIndex0 == s0.next && compId0 == s0.compId
    modifies indices, lowlink, onStack, component
    ensures Inv(adj, s) && s.path == []
    ensures Holds(indices, lowlink, onStack, component, s)
    ensures stack == s.stack && nextIndex == s.next && compId == s.compId
    ensures s0.seen + {start} <= s.seen
  {
    hide Inv, Holds, Visited, Frames;
    Begin(indices, lowlink, onStack, component, start, nextIndex0, adj, s0);
    s := Discover(s0, start);
    stack, nextIndex, compId := stack0 + [start], nextIndex0 + 1, compId0;
    var dfsStack := [(start, 0)];
    hide Discover;
    while |dfsStack| > 0
      invariant Inv(adj, s) && Holds(indices, lowlink, onStack, component, s)
      invariant stack == s.stack && nextIndex == s.next && compId == s.compId && Frames(dfsStack, s.path, s.cur)
      invariant s0.seen + {start} <= s.seen && s.next <= |adj|
      decreases |adj| - s.next, |s.path|, Left(adj, s.path, s.cur)
    {
      stack, dfsStack, nextIndex, compId, s :=
        Step(g, indices, lowlink, onStack, component, stack, dfsStack, nextIndex, compId, adj, s);
    }
    NoFrames(dfsStack, s.path, s.cur);
  }

  lemma NoFrames(dfs: seq<(nat, nat)>, path: seq<nat>, cur: seq<nat>)
    requires Frames(dfs, path, cur) && |dfs| == 0
    ensures path == []
  {
  }

  /** The buffers after the first discovery. */
  method Begin(indices: array<nat>, lowlink: array<nat>, onStack: array<bool>, component: array<nat>, start: nat,
               nextIndex: nat,
               ghost adj: Adj, ghost s: State)
    requires start < |adj| && !Visited(s.idx, start) && Inv(adj, s) && s.path == [] && nextIndex == s.next
    requires Holds(indices, lowlink, onStack, component, s)
    requires indices != lowlink && indices != component && lowlink != component
    modifies indices, lowlink, onStack
    ensures |s.idx| == |s.low| == |s.on| == |s.cur| == |adj|
    ensures var t := Discover(s, start);
      && Inv(adj, t) && Holds(indices, lowlink, onStack, component, t) && Frames([(start, 0)], t.path, t.cur)
      && t.stack == s.stack + [start] && t.next == s.next + 1 <= |adj|
      && t.compId == s.compId && t.seen == s.seen + {start}
  {
    hide Inv, Visited;
    VisitStart(adj, s, start);
    IndexNode(indices, lowlink, onStack, start, nextIndex);
  }

  lemma SeenIsVisited(adj: Adj, s: State)
    requires Inv(adj, s)
    ensures |s.idx| == |adj| && forall x: nat :: x in s.seen <==> Visited(s.idx, x)
  {
  }

  function Initial(n: nat): State {
    State(seq(n, _ => USIZE_MAX), seq(n, _ => 0), seq(n, _ => false), seq(n, _ => 0), [], [], seq(n, _ => 0), 0, 0, {})
  }

  lemma InitialInv(adj: Adj)
    requires |adj| < USIZE_MAX
    ensures Inv(adj, Initial(|adj|))
  {
  }

  /** `compute_scc_tarjan` */
  method ComputeSccTarjan(g: Csr) returns (values: seq<nat>)
    requires g.Valid()
    ensures Labels(Lists(g), values)
    ensures Dense(values)
    ensures ReverseTopological(Lists(g), values)
  {
    hide Inv;
    var n := g.NumNodes();
    ghost var adj := Lists(g);
    var indices := new nat[n](_ => USIZE_MAX);
    var lowlink := new nat[n](_ => 0);
    var onStack := new bool[n](_ => false);
    var component := new nat[n](_ => 0);
    var stack, compId, nextIndex := [], 0, 0;
    ghost var s := Initial(n);
    InitialInv(adj);
    for start := 0 to n
      invariant Inv(adj, s) && s.path == [] && Holds(indices, lowlink, onStack, component, s)
      invariant stack == s.stack && nextIndex == s.next && compId == s.compId
      invariant forall x: nat | x < start :: x in s.seen
    {
      SeenIsVisited(adj, s);
      if indices[start] == USIZE_MAX {
        stack, nextIndex, compId, s :=
          VisitFrom(g, start, indices, lowlink, onStack, component, stack, nextIndex, compId, adj, s);
      }
    }
    SeenIsVisited(adj, s);
    Result(adj, s);
    values := component[..];
  }
}
