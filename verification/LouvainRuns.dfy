/** Whole runs of Louvain: a seed determines the result, and when the reported number
    is the modularity. */
module LouvainRuns {
  import opened Graphs
  import opened Buckets
  import opened ListSums
  import opened Sums
  import opened Modularity
  import opened Relabelling
  import opened Louvain

  // ------------------------------------------------------------------ determinism

  lemma BestUnique(adj: Adj, weight: Weight, comm: seq<nat>, m: real, minGain: real, a: Move, b: Move)
    requires IsBest(adj, weight, comm, m, minGain, a) && IsBest(adj, weight, comm, m, minGain, b) && a.node == b.node
    ensures a == b
  {
    hide GainTo, AdjacentSet;
  }

  lemma PassUnique(adj: Adj, weight: Weight, m: real, minGain: real, order: seq<nat>, comm: seq<nat>,
                   a: seq<nat>, b: seq<nat>, aMoved: bool, bMoved: bool)
    requires Pass(adj, weight, m, minGain, order, comm, a, aMoved)
    requires Pass(adj, weight, m, minGain, order, comm, b, bMoved)
    ensures a == b && aMoved == bMoved
  {
    hide IsBest, Resolved;
    var p: seq<Move>, s: seq<bool> :| PassBy(adj, weight, m, minGain, order, comm, a, aMoved, p, s);
    var q: seq<Move>, t: seq<bool> :| PassBy(adj, weight, m, minGain, order, comm, b, bMoved, q, t);
    forall i | 0 <= i < |p| ensures p[i] == q[i] {
      BestUnique(adj, weight, comm, m, minGain, p[i], q[i]);
    }
    assert p == q;
    ResolvedUnique(comm, p, s, t, a, b);
  }

  lemma {:induction false} RunPrefix(adj: Adj, weight: Weight, m: real, minGain: real, seed: Option<nat>,
                                     a: seq<seq<nat>>, b: seq<seq<nat>>, aMoved: bool, bMoved: bool, i: nat)
    requires Run(adj, weight, m, minGain, seed, a, aMoved) && Run(adj, weight, m, minGain, seed, b, bMoved)
    requires i < |a| && i < |b|
    ensures a[i] == b[i]
    decreases i
  {
    hide Pass, OrderAt;
    if i > 0 {
      RunPrefix(adj, weight, m, minGain, seed, a, b, aMoved, bMoved, i - 1);
      assert PassAt(adj, weight, m, minGain, seed, a, aMoved, i - 1)
        && PassAt(adj, weight, m, minGain, seed, b, bMoved, i - 1);
      PassUnique(adj, weight, m, minGain, OrderAt(|adj|, seed, i), a[i - 1], a[i], b[i],
                 i + 1 < |a| || aMoved, i + 1 < |b| || bMoved);
    }
  }

  /** A run that has come to its end. */
  ghost predicate Ended(adj: Adj, weight: Weight, m: real, minGain: real, seed: Option<nat>, maxIterations: nat,
                        trace: seq<seq<nat>>, moved: bool)
  {
    && Run(adj, weight, m, minGain, seed, trace, moved)
    && |trace| - 1 <= maxIterations && (|trace| - 1 < maxIterations ==> !moved && |trace| > 1)
  }

  lemma NotShorter(adj: Adj, weight: Weight, m: real, minGain: real, seed: Option<nat>, maxIterations: nat,
                   a: seq<seq<nat>>, b: seq<seq<nat>>, aMoved: bool, bMoved: bool)
    requires Ended(adj, weight, m, minGain, seed, maxIterations, a, aMoved)
    requires Ended(adj, weight, m, minGain, seed, maxIterations, b, bMoved)
    ensures |a| >= |b|
  {
    hide Pass, OrderAt;
    if |a| < |b| {
      var i := |a| - 2;
      RunPrefix(adj, weight, m, minGain, seed, a, b, aMoved, bMoved, i);
      assert PassAt(adj, weight, m, minGain, seed, a, aMoved, i) && PassAt(adj, weight, m, minGain, seed, b, bMoved, i);
      PassUnique(adj, weight, m, minGain, OrderAt(|adj|, seed, i + 1), a[i], a[i + 1], b[i + 1], false, true);
      assert false;
    }
  }

  /** One seed gives one run, and so one vector of labels. */
  lemma SeedDeterminesRun(adj: Adj, weight: Weight, m: real, minGain: real, seed: Option<nat>, maxIterations: nat,
                          a: seq<seq<nat>>, b: seq<seq<nat>>, aMoved: bool, bMoved: bool, x: seq<nat>, y: seq<nat>)
    requires Ended(adj, weight, m, minGain, seed, maxIterations, a, aMoved) && Relabelled(x, a[|a| - 1])
    requires Ended(adj, weight, m, minGain, seed, maxIterations, b, bMoved) && Relabelled(y, b[|b| - 1])
    ensures a == b && x == y
  {
    hide Run, Relabelled;
    NotShorter(adj, weight, m, minGain, seed, maxIterations, a, b, aMoved, bMoved);
    NotShorter(adj, weight, m, minGain, seed, maxIterations, b, a, bMoved, aMoved);
    forall i | 0 <= i < |a| ensures a[i] == b[i] {
      RunPrefix(adj, weight, m, minGain, seed, a, b, aMoved, bMoved, i);
    }
    assert a == b;
    RelabelledSame(x, y, a[|a| - 1]);
  }

  lemma RelabelledSame(x: seq<nat>, y: seq<nat>, comm: seq<nat>)
    requires Relabelled(x, comm) && Relabelled(y, comm)
    ensures x == y
  {
    RelabelledUnique(x, y, comm, |comm|);
    assert x[..|comm|] == x && y[..|comm|] == y;
  }

  // ------------------------------------------------------------------ the reported number and the modularity

  /** The reported number is the modularity exactly when no weight lies inside communities. */
  lemma ReportedIffNoneInside(adj: Adj, weight: Weight, m: real, comm: seq<nat>)
    requires m != 0.0
    ensures Reported(adj, weight, m, comm) == Quality(MatrixOf(adj, weight), DegreeOf(adj, weight), m, comm)
       <==> InsideAll(adj, weight, comm) == 0.0
  {
    hide Reported, Quality, InsideAll;
    ReportedExceeds(adj, weight, m, comm);
    var x := InsideAll(adj, weight, comm);
    if x / (2.0 * m) == 0.0 {
      assert x == x / (2.0 * m) * (2.0 * m);
    }
  }

  function Alone(n: nat): (r: seq<nat>)
    ensures |r| == n && forall v | 0 <= v < n :: r[v] == v
  {
    seq(n, v => v)
  }

  lemma AloneInsideAll(adj: Adj, weight: Weight)
    requires Undirected(adj, weight)
    ensures InsideAll(adj, weight, Alone(|adj|)) == 0.0
  {
    hide Sum, Inside, Undirected;
    UndirectedMatrix(adj, weight);
    var n, a := |adj|, MatrixOf(adj, weight);
    var f := (c: int) => if c < 0 then 0.0 else Inside(a, Alone(n), c);
    forall c | 0 <= c < n ensures f(c) == 0.0 {
      AloneInside(a, Alone(n), c);
    }
    SumZero(n, f);
    SumEq(n, f, c => if c < 0 then 0.0 else Inside(MatrixOf(adj, weight), Alone(n), c));
  }

  lemma AloneSums(adj: Adj, weight: Weight, v: nat, c: nat)
    requires v < |adj| && c < |adj|
    ensures To(MatrixOf(adj, weight), Alone(|adj|), v, c) == PairWeight(adj, weight, v, c)
    ensures Tot(DegreeOf(adj, weight), Alone(|adj|), c) == Strength(adj, weight, c)
  {
    hide Sum, PairWeight, Strength;
    var n, comm, a, k := |adj|, Alone(|adj|), MatrixOf(adj, weight), DegreeOf(adj, weight);
    var f, g := (w: int) => Part(comm, c, w, a(v, w)), (w: int) => Part(comm, c, w, k(w));
    forall w | 0 <= w < n && w != c ensures f(w) == 0.0 && g(w) == 0.0 {
      assert Part(comm, c, w, a(v, w)) == 0.0 && Part(comm, c, w, k(w)) == 0.0;
    }
    SumSingle(n, c, f);
    SumSingle(n, c, g);
    assert f(c) == Part(comm, c, c, a(v, c)) && g(c) == Part(comm, c, c, k(c));
  }

  /** No edge is worth `minGain` to two nodes on their own: its weight over m, less the
      product of their degrees over 2m². */
  ghost predicate NothingToGain(adj: Adj, weight: Weight, m: real, minGain: real)
    requires m != 0.0
  {
    forall v: nat, w: nat | Edge(adj, v, w) && v != w :: PairGain(adj, weight, m, v, w) <= minGain
  }

  ghost function PairGain(adj: Adj, weight: Weight, m: real, v: nat, w: nat): real
    requires m != 0.0
  {
    PairValue(PairWeight(adj, weight, v, w), Strength(adj, weight, v), Strength(adj, weight, w), m)
  }

  function PairValue(x: real, kv: real, kw: real, m: real): real
    requires m != 0.0
  {
    x / m - kv * kw / (2.0 * m * m)
  }

  lemma AloneGain(adj: Adj, weight: Weight, m: real, v: nat, w: nat)
    requires m != 0.0 && Undirected(adj, weight) && v < |adj| && w < |adj| && v != w
    ensures GainTo(adj, weight, Alone(|adj|), m, v, w) == PairGain(adj, weight, m, v, w)
  {
    hide To, Tot, Strength, Gain, PairValue;
    AloneSums(adj, weight, v, w);
    AloneSums(adj, weight, v, v);
    assert PairWeight(adj, weight, v, v) == 0.0 by { assert Count(adj[v], v) == 0; }
    hide PairWeight, Undirected;
    assert DegreeOf(adj, weight)(v) == Strength(adj, weight, v);
    assert GainTo(adj, weight, Alone(|adj|), m, v, w)
        == Gain(PairWeight(adj, weight, v, w), 0.0, Strength(adj, weight, v), Strength(adj, weight, v),
                Strength(adj, weight, w), m);
    PairAlgebra(PairWeight(adj, weight, v, w), Strength(adj, weight, v), Strength(adj, weight, w), m);
  }

  lemma PairAlgebra(x: real, kv: real, kw: real, m: real)
    requires m != 0.0
    ensures Gain(x, 0.0, kv, kv, kw, m) == PairValue(x, kv, kw, m)
  {
    var r := 1.0 / m;
    var s, y := r * r, kv * kw;
    assert r * m == 1.0;
    assert kv * (kv - kw - kv) == -y;
    GainOver(x, 0.0, kv, kv, kw, -y, m, r, s);
    Over(x, m, r);
    assert (s / 2.0) * (2.0 * m * m) == (r * m) * (r * m);
    Over(y, 2.0 * m * m, s / 2.0);
  }

  lemma AloneAdjacent(adj: Adj, v: nat, c: nat)
    requires v < |adj|
    ensures c in AdjacentSet(adj, Alone(|adj|), v) <==> Edge(adj, v, c)
  {
    var comm := Alone(|adj|);
    if Edge(adj, v, c) {
      var j :| 0 <= j < |adj[v]| && adj[v][j] == c;
      assert LeadsTo(adj, comm, v, c, j);
    }
    if c in AdjacentSet(adj, comm, v) {
      var j: nat :| j < |adj[v]| && LeadsTo(adj, comm, v, c, j);
      assert adj[v][j] == c;
    }
  }

  /** From communities of one node each, a pass moves nothing exactly when there is
      nothing to gain. */
  lemma AloneStays(adj: Adj, weight: Weight, m: real, minGain: real, order: seq<nat>, comm': seq<nat>, moved: bool)
    requires m != 0.0 && Undirected(adj, weight) && Order(order, |adj|)
    requires Pass(adj, weight, m, minGain, order, Alone(|adj|), comm', moved)
    ensures !moved <==> NothingToGain(adj, weight, m, minGain)
  {
    hide Undirected, GainTo, PairGain, AdjacentSet;
    var n, comm := |adj|, Alone(|adj|);
    if !moved {
      hide Pass;
      forall v: nat, w: nat | Edge(adj, v, w) && v != w ensures PairGain(adj, weight, m, v, w) <= minGain {
        StillStays(adj, weight, m, minGain, order, comm, comm', v);
        AloneAdjacent(adj, v, w);
        AloneGain(adj, weight, m, v, w);
      }
    } else if NothingToGain(adj, weight, m, minGain) {
      hide Resolved;
      var plan: seq<Move>, taken: seq<bool> :| PassBy(adj, weight, m, minGain, order, comm, comm', moved, plan, taken);
      forall i: nat | i < |plan| ensures plan[i].node < n && plan[i].target == plan[i].node {
        NoBetter(adj, weight, m, minGain, plan[i]);
      }
      NothingTaken(comm, plan, taken, comm');
    }
  }

  lemma NoBetter(adj: Adj, weight: Weight, m: real, minGain: real, mv: Move)
    requires m != 0.0 && Undirected(adj, weight) && NothingToGain(adj, weight, m, minGain)
    requires IsBest(adj, weight, Alone(|adj|), m, minGain, mv)
    ensures mv.node < |adj| && mv.target == mv.node
  {
    hide Undirected, GainTo, PairGain, AdjacentSet;
    if mv.target != mv.node {
      AloneAdjacent(adj, mv.node, mv.target);
      AloneGain(adj, weight, m, mv.node, mv.target);
    }
  }

  /** Where a caller can tell beforehand that no node will move, the reported number is
      the modularity. */
  lemma UnmovedIsModularity(adj: Adj, weight: Weight, m: real, minGain: real, seed: Option<nat>, maxIterations: nat,
                            trace: seq<seq<nat>>, moved: bool)
    requires m != 0.0 && Undirected(adj, weight) && Ended(adj, weight, m, minGain, seed, maxIterations, trace, moved)
    requires maxIterations == 0 || NothingToGain(adj, weight, m, minGain)
    ensures trace[|trace| - 1] == Alone(|adj|)
    ensures Reported(adj, weight, m, trace[|trace| - 1])
         == Quality(MatrixOf(adj, weight), DegreeOf(adj, weight), m, trace[|trace| - 1])
  {
    hide Undirected, Pass, OrderAt, Order, Reported, Quality, NothingToGain;
    assert trace[0] == Alone(|adj|);
    if |trace| > 1 {
      assert PassAt(adj, weight, m, minGain, seed, trace, moved, 0);
      OrderAtIsOrder(|adj|, seed, 1);
      AloneStays(adj, weight, m, minGain, OrderAt(|adj|, seed, 1), trace[1], |trace| > 2 || moved);
      if |adj| > 0 {
        StillStays(adj, weight, m, minGain, OrderAt(|adj|, seed, 1), trace[0], trace[1], 0);
      } else {
        EmptyPass(adj, weight, m, minGain, OrderAt(|adj|, seed, 1), trace[0], trace[1], false);
      }
    }
    AloneInsideAll(adj, weight);
    ReportedIffNoneInside(adj, weight, m, Alone(|adj|));
  }

  lemma EmptyPass(adj: Adj, weight: Weight, m: real, minGain: real, order: seq<nat>, comm: seq<nat>, comm': seq<nat>,
                  moved: bool)
    requires |comm| == |adj| == 0 && Pass(adj, weight, m, minGain, order, comm, comm', moved)
    ensures comm' == comm
  {
    var plan: seq<Move>, taken: seq<bool> :| PassBy(adj, weight, m, minGain, order, comm, comm', moved, plan, taken);
    assert |comm'| == 0;
  }

  // ------------------------------------------------------------------ two nodes and one edge

  const UNIT: Weight := (_, _) => 1.0
  const PAIR: Adj := [[1], [0]]

  lemma PairCounts()
    ensures Count(PAIR[0], 1) == Count(PAIR[1], 0) == 1 && Count(PAIR[0], 0) == Count(PAIR[1], 1) == 0
  {
    assert PAIR[0][..0] == [] && PAIR[1][..0] == [];
  }

  lemma PairGraph()
    ensures Undirected(PAIR, UNIT)
    ensures PairWeight(PAIR, UNIT, 0, 1) == PairWeight(PAIR, UNIT, 1, 0) == 1.0
    ensures Strength(PAIR, UNIT, 0) == Strength(PAIR, UNIT, 1) == 1.0
    ensures Sum(2, DegreeOf(PAIR, UNIT)) / 2.0 == 1.0
  {
    PairCounts();
    forall v, w | 0 <= v < 2 && 0 <= w < 2
      ensures Count(PAIR[v], w) == Count(PAIR[w], v) && UNIT(v, w) == UNIT(w, v)
    {
    }
    forall v | 0 <= v < 2 ensures Strength(PAIR, UNIT, v) == 1.0 {
      assert PAIR[v][..0] == [];
      assert EntrySum(PAIR[v][..0], 2, WeightFrom(UNIT, v)) == 0.0;
      assert WeightFrom(UNIT, v)(PAIR[v][0]) == 1.0;
    }
    var k := DegreeOf(PAIR, UNIT);
    assert k(0) == 1.0 && k(1) == 1.0;
    assert Sum(1, k) == 1.0 && Sum(2, k) == 2.0;
  }

  /** Both nodes in community `c`: the number reported is 1, the modularity 0. */
  lemma PairTogether(c: nat)
    requires c < 2
    ensures Reported(PAIR, UNIT, 1.0, [c, c]) == 1.0
    ensures Quality(MatrixOf(PAIR, UNIT), DegreeOf(PAIR, UNIT), 1.0, [c, c]) == 0.0
  {
    PairGraph();
    PairCounts();
    var comm, a, k := [c, c], MatrixOf(PAIR, UNIT), DegreeOf(PAIR, UNIT);
    PairSums(c);
    hide Undirected, Strength, PairWeight, MatrixOf, DegreeOf;
    var other := 1 - c;
    assert other !in comm;
    EmptyCommunity(PAIR, UNIT, 1.0, comm, other);
    EmptyInside(a, comm, other);
    hide To, Tot, Inside;
    var p, i := (x: int) => ReportOf(PAIR, UNIT, 1.0, comm, x), (x: int) => if x < 0 then 0.0 else Inside(a, comm, x);
    TwoTerms(p);
    TwoTerms(i);
    SumEq(2, p, x => ReportOf(PAIR, UNIT, 1.0, comm, x));
    SumEq(2, i, x => if x < 0 then 0.0 else Inside(MatrixOf(PAIR, UNIT), comm, x));
    assert ReportOf(PAIR, UNIT, 1.0, comm, c) == 2.0 / 1.0 - (2.0 / 2.0) * (2.0 / 2.0);
    ReportedExceeds(PAIR, UNIT, 1.0, comm);
  }

  lemma TwoTerms(f: int -> real)
    ensures Sum(2, f) == f(0) + f(1)
  {
    assert Sum(1, f) == f(0);
  }

  lemma EmptyInside(a: Matrix, comm: seq<nat>, c: nat)
    requires c !in comm
    ensures Inside(a, comm, c) == 0.0
  {
    hide Sum, To;
    var h := (v: int) => Part(comm, c, v, To(a, comm, v, c));
    forall v | 0 <= v < |comm| ensures h(v) == 0.0 {
      assert comm[v] in comm;
      assert Part(comm, c, v, To(a, comm, v, c)) == 0.0;
    }
    SumZero(|comm|, h);
  }

  lemma PairSums(c: nat)
    requires c < 2
    ensures Inside(MatrixOf(PAIR, UNIT), [c, c], c) == 2.0 && Tot(DegreeOf(PAIR, UNIT), [c, c], c) == 2.0
  {
    PairGraph();
    PairCounts();
    var comm, a, k := [c, c], MatrixOf(PAIR, UNIT), DegreeOf(PAIR, UNIT);
    assert a(0, 0) == 0.0 && a(0, 1) == 1.0 && a(1, 0) == 1.0 && a(1, 1) == 0.0;
    assert k(0) == 1.0 && k(1) == 1.0;
    hide MatrixOf, DegreeOf, Undirected, Strength, PairWeight;
    forall v | 0 <= v < 2 ensures To(a, comm, v, c) == 1.0 {
      var f := (w: int) => Part(comm, c, w, a(v, w));
      TwoTerms(f);
      SumEq(2, f, w => Part(comm, c, w, a(v, w)));
    }
    hide To;
    var g, t := (v: int) => Part(comm, c, v, To(a, comm, v, c)), (v: int) => Part(comm, c, v, k(v));
    TwoTerms(g);
    TwoTerms(t);
    assert g(0) == 1.0 && g(1) == 1.0 && t(0) == 1.0 && t(1) == 1.0;
    SumEq(2, g, v => Part(comm, c, v, To(a, comm, v, c)));
    SumEq(2, t, v => Part(comm, c, v, k(v)));
  }

  lemma PairBest(minGain: real, mv: Move)
    requires minGain < 0.5 && IsBest(PAIR, UNIT, Alone(2), 1.0, minGain, mv)
    ensures mv.node < 2 && mv.target == 1 - mv.node
  {
    PairGraph();
    hide Undirected, GainTo, Strength, PairWeight, AdjacentSet;
    var v, w := mv.node, 1 - mv.node;
    AloneGain(PAIR, UNIT, 1.0, v, w);
    assert GainTo(PAIR, UNIT, Alone(2), 1.0, v, w) == 0.5;
    assert Edge(PAIR, v, w);
    AloneAdjacent(PAIR, v, w);
    AloneAdjacent(PAIR, v, mv.target);
  }

  /** Whatever the order, the first pass puts both nodes together. */
  lemma PairPass(minGain: real, order: seq<nat>, comm': seq<nat>, moved: bool)
    requires minGain < 0.5 && Order(order, 2) && Pass(PAIR, UNIT, 1.0, minGain, order, Alone(2), comm', moved)
    ensures exists c: nat :: c < 2 && comm' == [c, c]
  {
    hide IsBest, Resolved;
    var plan: seq<Move>, taken: seq<bool> :|
      PassBy(PAIR, UNIT, 1.0, minGain, order, Alone(2), comm', moved, plan, taken);
    PairBest(minGain, plan[0]);
    PairBest(minGain, plan[1]);
    hide Planned;
    FirstTaken(plan, taken, comm');
    assert order[1] == 1 - order[0] == plan[0].target;
  }

  /** The second of two moves is overtaken: its target is named after the node that moved. */
  lemma FirstTaken(plan: seq<Move>, taken: seq<bool>, comm': seq<nat>)
    requires |plan| == 2 && plan[0].node < 2 && plan[0].target == 1 - plan[0].node
    requires plan[1].node == plan[0].target && plan[1].target == plan[0].node
    requires Resolved(Alone(2), plan, taken, comm')
    ensures comm' == [plan[0].target, plan[0].target]
  {
    assert taken[0];
    assert Overtaken(plan, taken, 1);
    var w := plan[0].target;
    assert comm'[1 - w] == w && comm'[w] == w;
  }

  /** One edge between two nodes, and one pass: the number reported is 1 where the
      modularity is 0. */
  lemma ReportedIsNotModularity(minGain: real, seed: Option<nat>, trace: seq<seq<nat>>, moved: bool)
    requires minGain < 0.5 && Ended(PAIR, UNIT, 1.0, minGain, seed, 1, trace, moved)
    ensures Undirected(PAIR, UNIT) && Sum(2, DegreeOf(PAIR, UNIT)) / 2.0 == 1.0
    ensures Reported(PAIR, UNIT, 1.0, trace[|trace| - 1]) == 1.0
    ensures Quality(MatrixOf(PAIR, UNIT), DegreeOf(PAIR, UNIT), 1.0, trace[|trace| - 1]) == 0.0
  {
    hide Pass, OrderAt, Order, Reported, Quality, Undirected;
    PairGraph();
    assert |trace| == 2 && trace[0] == Alone(2);
    assert PassAt(PAIR, UNIT, 1.0, minGain, seed, trace, moved, 0);
    OrderAtIsOrder(2, seed, 1);
    PairPass(minGain, OrderAt(2, seed, 1), trace[1], moved);
    var c: nat :| c < 2 && trace[1] == [c, c];
    PairTogether(c);
  }
}
