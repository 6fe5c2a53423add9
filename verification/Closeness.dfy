/** Repeated searches over buffers that are reset only where they were written:
    closeness centrality and shortest-path destination counts (akar-algo). */
module Closeness {
  import opened Graphs
  import opened Sums
  import opened Bfs

  // ------------------------------------------------------------------ the specification

  /** The nodes other than `s` that can be reached from it. */
  ghost predicate OthersOf(adj: Adj, s: nat, others: set<nat>) {
    forall v: nat :: v in others <==> v < |adj| && v != s && Reach(adj, s, v)
  }

  /** The hop distance of a reachable node. */
  ghost function HopsTo(adj: Adj, s: nat, v: int): real {
    if v < 0 then 0.0 else if d: nat :| HopDist(adj, s, v, d) then d as real else 0.0
  }

  /** The sum of the distances to all reachable nodes. */
  ghost function DistanceSum(adj: Adj, s: nat): real {
    Sum(|adj|, v => HopsTo(adj, s, v))
  }

  ghost predicate Destinations(adj: Adj, s: nat, count: nat) {
    exists others: set<nat> :: OthersOf(adj, s, others) && |others| == count
  }

  /** Wasserman and Faust's normalized closeness, for `r` reachable nodes at total distance `sum`. */
  function Formula(n: nat, r: nat, sum: real): real
    requires n > 1
  {
    if r > 0 && sum > 0.0 then
      (r as real / (n - 1) as real) * (r as real / (n - 1) as real) * (r as real / sum)
    else 0.0
  }

  ghost predicate IsCloseness(adj: Adj, s: nat, value: real) {
    |adj| > 1 && exists r: nat :: Destinations(adj, s, r) && value == Formula(|adj|, r, DistanceSum(adj, s))
  }

  // ------------------------------------------------------------------ what a finished search shows

  ghost function QueueSum(dist: seq<nat>, queue: seq<nat>): nat {
    if |queue| == 0 then 0
    else QueueSum(dist, queue[..|queue| - 1]) + if queue[|queue| - 1] < |dist| then dist[queue[|queue| - 1]] else 0
  }

  lemma {:induction false} QueueSumFrame(dist: seq<nat>, dist': seq<nat>, queue: seq<nat>)
    requires |dist| == |dist'| && forall i | 0 <= i < |queue| && queue[i] < |dist| :: dist[queue[i]] == dist'[queue[i]]
    ensures QueueSum(dist, queue) == QueueSum(dist', queue)
  {
    if |queue| > 0 { QueueSumFrame(dist, dist', queue[..|queue| - 1]); }
  }

  lemma QueueSumNext(dist: seq<nat>, queue: seq<nat>, i: nat)
    requires i < |queue| && queue[i] < |dist|
    ensures QueueSum(dist, queue[..i + 1]) == QueueSum(dist, queue[..i]) + dist[queue[i]]
  {
    assert queue[..i + 1][..i] == queue[..i];
  }

  /** A sum over the queue is a sum over the nodes in it. */
  lemma {:induction false} QueueSumNodes(dist: seq<nat>, queue: seq<nat>, f: int -> real)
    requires Distinct(queue) && forall i | 0 <= i < |queue| :: queue[i] < |dist|
    requires forall v | 0 <= v < |dist| :: f(v) == if v in queue then dist[v] as real else 0.0
    ensures QueueSum(dist, queue) as real == Sum(|dist|, f)
    decreases |queue|
  {
    hide Sum;
    if |queue| == 0 {
      SumZero(|dist|, f);
    } else {
      var front, x := queue[..|queue| - 1], queue[|queue| - 1];
      assert x !in front && queue == front + [x];
      var g := (v: int) => if 0 <= v < |dist| && v in front then dist[v] as real else 0.0;
      QueueSumNodes(dist, front, g);
      SumChange(|dist|, x, g, f);
    }
  }

  lemma SearchFacts(adj: Adj, s: nat, dist: seq<nat>, queue: seq<nat>)
    requires Searching(adj, s, dist, queue, |queue|, USIZE_MAX)
    ensures s in queue && Distinct(queue) && |dist| == |adj| && |queue| > 0
    ensures forall i | 0 <= i < |queue| :: queue[i] < |adj|
    ensures forall v: nat :: v in queue <==> Visited(dist, v)
    ensures forall v: nat | v < |adj| :: Visited(dist, v) <==> Reach(adj, s, v)
    ensures forall v: nat | Visited(dist, v) :: HopDist(adj, s, v, dist[v])
  {
    assert queue[0] == s;
    Exhausted(adj, s, dist, queue, USIZE_MAX);
    forall v: nat | v < |adj|
      ensures (Visited(dist, v) <==> Reach(adj, s, v)) && (Visited(dist, v) ==> HopDist(adj, s, v, dist[v]))
    {
      Reached(adj, s, dist, v);
    }
  }

  lemma SearchCount(adj: Adj, s: nat, dist: seq<nat>, queue: seq<nat>)
    requires Searching(adj, s, dist, queue, |queue|, USIZE_MAX)
    ensures |queue| > 0 && Destinations(adj, s, |queue| - 1)
  {
    SearchFacts(adj, s, dist, queue);
    hide Searching, Reach, HopDist;
    var all := Elems(queue);
    DistinctCard(queue);
    var others := all - {s};
    assert s in all;
    assert OthersOf(adj, s, others);
  }

  lemma SearchSum(adj: Adj, s: nat, dist: seq<nat>, queue: seq<nat>)
    requires Searching(adj, s, dist, queue, |queue|, USIZE_MAX)
    ensures QueueSum(dist, queue) as real == DistanceSum(adj, s)
  {
    SearchFacts(adj, s, dist, queue);
    hide Searching, Sum;
    var f := (v: int) => HopsTo(adj, s, v);
    forall v | 0 <= v < |adj| ensures f(v) == if v in queue then dist[v] as real else 0.0 {
      HopsKnown(adj, s, dist, v);
    }
    QueueSumNodes(dist, queue, f);
  }

  lemma HopsKnown(adj: Adj, s: nat, dist: seq<nat>, v: nat)
    requires v < |adj| == |dist| && (Visited(dist, v) <==> Reach(adj, s, v))
    requires Visited(dist, v) ==> HopDist(adj, s, v, dist[v])
    ensures HopsTo(adj, s, v) == if Visited(dist, v) then dist[v] as real else 0.0
  {
    if d: nat :| HopDist(adj, s, v, d) {
      var p :| Joins(adj, p, s, v) && |p| == d + 1;
    }
  }

  // ------------------------------------------------------------------ the algorithms

  ghost predicate Clean(dist: seq<nat>) {
    forall v | 0 <= v < |dist| :: dist[v] == USIZE_MAX
  }

  /** Only what the search wrote is reset, and that is everything. */
  method Reset(distance: array<nat>, queue: seq<nat>)
    requires forall i | 0 <= i < |queue| :: queue[i] < distance.Length
    requires forall v: nat | v < distance.Length && distance[v] != USIZE_MAX :: v in queue
    modifies distance
    ensures Clean(distance[..])
  {
    assert queue[0..] == queue;
    for i := 0 to |queue|
      invariant forall v: nat | v < distance.Length && distance[v] != USIZE_MAX :: v in queue[i..]
    {
      assert queue[i..] == [queue[i]] + queue[i + 1..];
      distance[queue[i]] := USIZE_MAX;
    }
  }

  method SearchFrom(g: Csr, source: nat, distance: array<nat>) returns (queue: seq<nat>, total: nat)
    requires g.Valid() && source < g.NumNodes() == distance.Length && Clean(distance[..])
    modifies distance
    ensures Searching(Lists(g), source, distance[..], queue, |queue|, USIZE_MAX)
    ensures total == QueueSum(distance[..], queue)
  {
    hide Searching;
    ghost var adj := Lists(g);
    Start(adj, source, distance[..], USIZE_MAX);
    distance[source] := 0;
    queue, total := [source], 0;
    var head := 0;
    while head < |queue|
      invariant head <= |queue| && Searching(adj, source, distance[..], queue, head, USIZE_MAX)
      invariant total == QueueSum(distance[..], queue[..head])
      decreases |adj| - head
    {
      Basics(adj, source, distance[..], queue, head, USIZE_MAX);
      ghost var dist0, queue0 := distance[..], queue;
      QueueSumNext(dist0, queue0, head);
      total := total + distance[queue[head]];
      queue := Expand(g, distance, queue, head, adj, source, USIZE_MAX);
      head := head + 1;
      Basics(adj, source, distance[..], queue, head, USIZE_MAX);
      ExpandedSum(adj, source, dist0, queue0, head - 1, distance[..], queue);
    }
    Basics(adj, source, distance[..], queue, head, USIZE_MAX);
    assert queue[..head] == queue;
  }

  lemma ExpandedSum(adj: Adj, s: nat, dist: seq<nat>, queue: seq<nat>, h: nat, dist': seq<nat>, queue': seq<nat>)
    requires Searching(adj, s, dist, queue, h, USIZE_MAX) && h < |queue| && queue <= queue' && |dist'| == |dist|
    requires forall v | 0 <= v < |dist| && dist[v] != USIZE_MAX :: dist'[v] == dist[v]
    ensures QueueSum(dist', queue'[..h + 1]) == QueueSum(dist, queue[..h + 1])
  {
    assert queue'[..h + 1] == queue[..h + 1];
    assert forall i | 0 <= i < |queue| :: Visited(dist, queue[i]);
    QueueSumFrame(dist, dist', queue[..h + 1]);
  }

  method AllSpDestinations(g: Csr) returns (values: seq<nat>)
    requires g.Valid()
    ensures |values| == g.NumNodes() && forall s | 0 <= s < |values| :: Destinations(Lists(g), s, values[s])
  {
    hide Searching, Destinations;
    var n := g.NumNodes();
    values := [];
    var distance := new nat[n](_ => USIZE_MAX);
    for source := 0 to n
      invariant Clean(distance[..]) && |values| == source
      invariant forall s | 0 <= s < source :: Destinations(Lists(g), s, values[s])
    {
      var queue := Search(g, source, distance, Lists(g));
      SearchFacts(Lists(g), source, distance[..], queue);
      SearchCount(Lists(g), source, distance[..], queue);
      values := values + [|queue| - 1];
      Reset(distance, queue);
    }
  }

  method ComputeCloseness(g: Csr) returns (values: seq<real>)
    requires g.Valid()
    ensures |values| == g.NumNodes()
    ensures g.NumNodes() <= 2 ==> forall s | 0 <= s < |values| :: values[s] == 0.0
    ensures g.NumNodes() > 2 ==> forall s | 0 <= s < |values| :: IsCloseness(Lists(g), s, values[s])
  {
    hide Searching, Destinations, IsCloseness, Formula;
    var n := g.NumNodes();
    if n <= 2 { return seq(n, _ => 0.0); }
    values := [];
    var distance := new nat[n](_ => USIZE_MAX);
    for source := 0 to n
      invariant Clean(distance[..]) && |values| == source
      invariant forall s | 0 <= s < source :: IsCloseness(Lists(g), s, values[s])
    {
      var value := ClosenessFrom(g, source, distance);
      values := values + [value];
    }
  }

  method ClosenessFrom(g: Csr, source: nat, distance: array<nat>) returns (value: real)
    requires g.Valid() && source < g.NumNodes() == distance.Length && distance.Length > 1 && Clean(distance[..])
    modifies distance
    ensures Clean(distance[..]) && IsCloseness(Lists(g), source, value)
  {
    hide Searching, Destinations, IsCloseness, Formula, Clean, Reach, HopDist, DistanceSum, QueueSum;
    var queue, total := SearchFrom(g, source, distance);
    SearchFacts(Lists(g), source, distance[..], queue);
    SearchCount(Lists(g), source, distance[..], queue);
    SearchSum(Lists(g), source, distance[..], queue);
    value := Formula(distance.Length, |queue| - 1, total as real);
    ClosenessOf(Lists(g), source, |queue| - 1, value);
    Reset(distance, queue);
  }

  lemma ClosenessOf(adj: Adj, s: nat, r: nat, value: real)
    requires |adj| > 1 && Destinations(adj, s, r) && value == Formula(|adj|, r, DistanceSum(adj, s))
    ensures IsCloseness(adj, s, value)
  {
  }
}
