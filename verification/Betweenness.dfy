/** Betweenness centrality: what it is, and Brandes' recursion for the
    dependency of one source on a node. */
module Betweenness {
  import opened Graphs
  import opened Sums
  import opened Walks

  // ------------------------------------------------------------------ the specification

  /** The hop distance from `s` to `t`, or -1 if there is no path. */
  ghost function Hops(adj: Adj, s: nat, t: nat): int {
    if d: nat :| HopDist(adj, s, t, d) then d else -1
  }

  /** The shortest walks from `s` to `t`. */
  ghost function Shortest(adj: Adj, s: nat, t: nat): set<Walk>
    requires t < |adj|
  {
    if Hops(adj, s, t) >= 0 then Level(adj, s, Hops(adj, s, t))[t] else {}
  }

  ghost predicate Visits(p: Walk, v: nat) {
    exists i :: 0 <= i < |p| && p[i].0 == v
  }

  /** The fraction of the shortest walks from `s` to `t` that run through `v`
      on their way. */
  ghost function PairShare(adj: Adj, s: nat, t: int, v: nat): real {
    if 0 <= t < |adj| && v != s && v != t && Shortest(adj, s, t) != {} then
      |set p | p in Shortest(adj, s, t) && Visits(p, v)| as real / |Shortest(adj, s, t)| as real
    else 0.0
  }

  /** The dependency of source `s` on `v`. */
  ghost function Dependency(adj: Adj, s: nat, v: nat): real {
    Sum(|adj|, t => PairShare(adj, s, t, v))
  }

  /** The betweenness of `v`, over all ordered pairs of nodes. */
  ghost function Centrality(adj: Adj, v: nat, m: nat): real {
    Sum(m, s => if s >= 0 then Dependency(adj, s, v) else 0.0)
  }

  /** The shortest walks are the walks no longer than any other. */
  lemma ShortestMembers(adj: Adj, s: nat, t: nat, p: Walk)
    requires s < |adj| && t < |adj|
    ensures p in Shortest(adj, s, t) ==> IsWalk(adj, p, s, t) && forall q | IsWalk(adj, q, s, t) :: |p| <= |q|
    ensures Reach(adj, s, t) && IsWalk(adj, p, s, t) && (forall q | IsWalk(adj, q, s, t) :: |p| <= |q|) ==>
      p in Shortest(adj, s, t)
  {
    var d := Hops(adj, s, t);
    if d >= 0 {
      HopDistNumber(adj, s, t, d);
      LevelMembers(adj, s, d, t, p);
      forall q | IsWalk(adj, q, s, t) ensures d <= |q| {
        NumberPositive(adj, s, t, |q|);
      }
      NumberPositive(adj, s, t, d);
    } else if IsWalk(adj, p, s, t) && forall q | IsWalk(adj, q, s, t) :: |p| <= |q| {
      var path := PathOfWalk(adj, p, s, t);
      forall q | Joins(adj, q, s, t) ensures |q| >= |p| + 1 {
        var e := WalkOfPath(adj, q, s, t);
      }
      assert HopDist(adj, s, t, |p|);
    }
  }

  // ------------------------------------------------------------------ distances from a source

  /** `dist` is the least length of a walk from `s`, or -1. */
  ghost predicate IsDist(adj: Adj, s: nat, dist: seq<int>) {
    && |dist| == |adj| && s < |adj|
    && (forall v: nat | v < |adj| && dist[v] >= 0 :: Number(adj, s, v, dist[v]) > 0.0)
    && (forall v: nat, k: nat | v < |adj| && Number(adj, s, v, k) > 0.0 :: 0 <= dist[v] <= k)
    && (forall v: nat | v < |adj| :: dist[v] == Hops(adj, s, v))
  }

  ghost function Sigma(adj: Adj, s: nat, dist: seq<int>, v: nat): (r: real)
    ensures r >= 0.0
  {
    if v < |dist| then Number(adj, s, v, dist[v]) else 0.0
  }

  lemma SigmaPositive(adj: Adj, s: nat, dist: seq<int>, v: nat)
    requires IsDist(adj, s, dist) && v < |adj| && dist[v] >= 0
    ensures Sigma(adj, s, dist, v) > 0.0 && Sigma(adj, s, dist, v) == |Shortest(adj, s, v)| as real
  {
  }

  /** The share of the shortest walks to `t` that are in `v` after `dist[v]` steps. */
  ghost function FullShare(adj: Adj, s: nat, dist: seq<int>, v: nat, t: int): real
    requires |dist| == |adj| && v < |adj|
  {
    if 0 <= t < |adj| && dist[t] >= 0 && dist[v] >= 0 && Sigma(adj, s, dist, t) > 0.0 then
      Sigma(adj, s, dist, v) * Number(adj, v, t, dist[t] - dist[v]) / Sigma(adj, s, dist, t)
    else 0.0
  }

  /** A shortest walk visits `v` after `dist[v]` steps or not at all. */
  lemma VisitTime(adj: Adj, s: nat, dist: seq<int>, t: nat, p: Walk, i: nat)
    requires IsDist(adj, s, dist) && t < |adj| && dist[t] >= 0
    requires |p| == dist[t] && IsWalk(adj, p, s, t) && i < |p| && p[i].0 < |adj|
    ensures dist[p[i].0] == i
  {
    hide Number, IsWalk, Hops;
    var v, k := p[i].0, dist[t];
    WalkBreaks(adj, s, t, p, i, v);
    NumberJoin(adj, s, v, t, dist[v], k - i);
  }

  lemma VisitsVia(adj: Adj, s: nat, dist: seq<int>, t: nat, v: nat, p: Walk)
    requires IsDist(adj, s, dist) && t < |adj| && v < |adj| && dist[t] >= 0 && v != t
    ensures p in Shortest(adj, s, t) && Visits(p, v) <==>
      0 <= dist[v] <= dist[t] && p in Via(adj, s, v, dist[v], dist[t] - dist[v])[t]
  {
    hide Number, Via, IsWalk, Level;
    var k := dist[t];
    LevelMembers(adj, s, k, t, p);
    if 0 <= dist[v] <= k {
      ViaMembers(adj, s, v, dist[v], k - dist[v], t, p);
    }
    if p in Shortest(adj, s, t) && Visits(p, v) {
      var i :| 0 <= i < |p| && p[i].0 == v;
      VisitTime(adj, s, dist, t, p, i);
    }
  }

  /** The walks through `v`, counted. */
  lemma VisitingCard(adj: Adj, s: nat, dist: seq<int>, t: nat, v: nat)
    requires |dist| == |adj| && IsDist(adj, s, dist) && t < |adj| && v < |adj| && dist[t] >= 0 && v != t
    ensures |set p | p in Shortest(adj, s, t) && Visits(p, v)| as real
      == if dist[v] >= 0 then Sigma(adj, s, dist, v) * Number(adj, v, t, dist[t] - dist[v]) else 0.0
  {
    hide Number, Via, Shortest, Visits, IsDist;
    var visiting := set p | p in Shortest(adj, s, t) && Visits(p, v);
    forall p: Walk
      ensures p in visiting <==> 0 <= dist[v] <= dist[t] && p in Via(adj, s, v, dist[v], dist[t] - dist[v])[t]
    {
      VisitsVia(adj, s, dist, t, v, p);
    }
    if 0 <= dist[v] <= dist[t] {
      assert visiting == Via(adj, s, v, dist[v], dist[t] - dist[v])[t];
      ViaCard(adj, s, v, dist[v], dist[t] - dist[v], t);
    } else {
      assert visiting == {};
      NumberNegative(adj, v, t, dist[t] - dist[v]);
    }
  }

  lemma NumberNegative(adj: Adj, v: nat, t: nat, k: int)
    ensures k < 0 ==> Number(adj, v, t, k) == 0.0
  {
  }

  /** Shares are counted the simple way as well. */
  lemma ShareIsFull(adj: Adj, s: nat, dist: seq<int>, v: nat, t: nat)
    requires |dist| == |adj| && IsDist(adj, s, dist) && v < |adj| && t < |adj| && v != s
    ensures PairShare(adj, s, t, v) == if v == t then 0.0 else FullShare(adj, s, dist, v, t)
  {
    hide Number, Visits, Level;
    if v != t && dist[t] >= 0 {
      VisitingCard(adj, s, dist, t, v);
      SigmaPositive(adj, s, dist, t);
    }
  }

  lemma FullShareOwn(adj: Adj, s: nat, dist: seq<int>, v: nat)
    requires |dist| == |adj| && IsDist(adj, s, dist) && v < |adj| && dist[v] >= 0
    ensures FullShare(adj, s, dist, v, v) == 1.0
  {
    SigmaPositive(adj, s, dist, v);
    NumberZero(adj, v, v);
    hide Number, Sigma, IsDist;
    var x := Sigma(adj, s, dist, v);
    assert x * 1.0 / x == 1.0;
  }

  lemma FullShareSum(adj: Adj, s: nat, dist: seq<int>, v: nat, g: int -> real)
    requires |dist| == |adj| && IsDist(adj, s, dist) && v < |adj| && dist[v] >= 0 && v != s
    requires forall t | 0 <= t < |adj| :: g(t) == FullShare(adj, s, dist, v, t)
    ensures Sum(|adj|, g) == 1.0 + Dependency(adj, s, v)
  {
    hide IsDist, FullShare, PairShare, Sum;
    var f := (t: int) => PairShare(adj, s, t, v);
    forall t | 0 <= t < |adj| ensures f(t) == if t == v then 0.0 else g(t) {
      ShareIsFull(adj, s, dist, v, t);
    }
    FullShareOwn(adj, s, dist, v);
    SumChange(|adj|, v, f, g);
    SumEq(|adj|, f, t => PairShare(adj, s, t, v));
  }

  // ------------------------------------------------------------------ the recursion

  /** What `v` gets of each walk through its successor `w`. */
  ghost function Coef(adj: Adj, s: nat, dist: seq<int>, v: nat, w: int): real
    requires |dist| == |adj| && v < |adj|
  {
    if 0 <= w < |adj| && dist[v] >= 0 && dist[w] == dist[v] + 1 && Sigma(adj, s, dist, w) > 0.0 then
      Mult(adj, v, w) * (Sigma(adj, s, dist, v) / Sigma(adj, s, dist, w))
    else 0.0
  }

  /** One step on from `v` leads one hop further, on the way of a shortest walk. */
  lemma StepOn(adj: Adj, s: nat, dist: seq<int>, v: nat, t: nat, w: nat)
    requires |dist| == |adj| && IsDist(adj, s, dist) && v < |adj| && t < |adj| && w < |adj|
    requires dist[v] >= 0 && dist[t] > dist[v] && Mult(adj, v, w) > 0.0
    requires Number(adj, w, t, dist[t] - dist[v] - 1) > 0.0
    ensures dist[w] == dist[v] + 1
  {
    hide Number, Mult, Hops;
    StepNumber(adj, v, w);
    NumberJoin(adj, s, v, w, dist[v], 1);
    NumberJoin(adj, s, w, t, dist[w], dist[t] - dist[v] - 1);
  }

  lemma StepNumber(adj: Adj, v: nat, w: nat)
    requires v < |adj| && w < |adj|
    ensures Number(adj, v, w, 1) == Mult(adj, v, w)
  {
    hide Number, Mult, Sum;
    var f := (u: int) => Number(adj, v, u, 0) * Mult(adj, u, w);
    NumberLast(adj, v, w, 1, f);
    forall u | 0 <= u < |adj| ensures Number(adj, v, u, 0) == if u == v then 1.0 else 0.0 {
      NumberZero(adj, v, u);
    }
    SumSingle(|adj|, v, f);
  }

  lemma CoefTerm(m: real, sv: real, sw: real, st: real, nw: real)
    requires sw > 0.0 && st > 0.0
    ensures m * (sv / sw) * (sw * nw / st) == sv / st * (m * nw)
  {
    calc {
      m * (sv / sw) * (sw * nw / st);
      m * ((sv / sw) * sw) * nw / st;
      { assert (sv / sw) * sw == sv; }
      m * sv * nw / st;
      sv / st * (m * nw);
    }
  }

  lemma FullShareIs(adj: Adj, s: nat, dist: seq<int>, v: nat, t: nat)
    requires |dist| == |adj| && IsDist(adj, s, dist) && v < |adj| && t < |adj| && dist[v] >= 0 && dist[t] >= 0
    ensures Sigma(adj, s, dist, t) > 0.0
    ensures FullShare(adj, s, dist, v, t)
      == Sigma(adj, s, dist, v) * Number(adj, v, t, dist[t] - dist[v]) / Sigma(adj, s, dist, t)
  {
    SigmaPositive(adj, s, dist, t);
  }

  lemma CoefIs(adj: Adj, s: nat, dist: seq<int>, v: nat, w: nat)
    requires |dist| == |adj| && IsDist(adj, s, dist) && v < |adj| && w < |adj| && dist[v] >= 0
    ensures dist[w] != dist[v] + 1 ==> Coef(adj, s, dist, v, w) == 0.0
    ensures dist[w] == dist[v] + 1 ==>
      (Sigma(adj, s, dist, w) > 0.0
       && Coef(adj, s, dist, v, w) == Mult(adj, v, w) * (Sigma(adj, s, dist, v) / Sigma(adj, s, dist, w)))
  {
    if dist[w] == dist[v] + 1 {
      SigmaPositive(adj, s, dist, w);
    }
  }

  lemma OffPath(adj: Adj, s: nat, dist: seq<int>, v: nat, t: nat, w: nat)
    requires |dist| == |adj| && IsDist(adj, s, dist) && v < |adj| && t < |adj| && w < |adj|
    requires dist[v] >= 0 && dist[t] > dist[v] && dist[w] != dist[v] + 1
    ensures Mult(adj, v, w) * Number(adj, w, t, dist[t] - dist[v] - 1) == 0.0
  {
    hide Number, Mult, IsDist;
    var m, nw := Mult(adj, v, w), Number(adj, w, t, dist[t] - dist[v] - 1);
    if m > 0.0 && nw > 0.0 {
      StepOn(adj, s, dist, v, t, w);
      assert false;
    }
    assert m == 0.0 || nw == 0.0;
  }

  /** A share of `v` is made of the shares of its successors. */
  lemma ShareTerm(adj: Adj, s: nat, dist: seq<int>, v: nat, t: nat, w: nat)
    requires |dist| == |adj| && IsDist(adj, s, dist) && v < |adj| && t < |adj| && w < |adj|
    requires dist[v] >= 0 && dist[t] > dist[v]
    ensures Sigma(adj, s, dist, t) > 0.0
    ensures Coef(adj, s, dist, v, w) * FullShare(adj, s, dist, w, t)
      == Sigma(adj, s, dist, v) / Sigma(adj, s, dist, t) * (Mult(adj, v, w) * Number(adj, w, t, dist[t] - dist[v] - 1))
  {
    hide Number, Mult, Sigma, IsDist, FullShare, Coef;
    FullShareIs(adj, s, dist, v, t);
    CoefIs(adj, s, dist, v, w);
    if dist[w] == dist[v] + 1 {
      FullShareIs(adj, s, dist, w, t);
      CoefTerm(Mult(adj, v, w), Sigma(adj, s, dist, v), Sigma(adj, s, dist, w), Sigma(adj, s, dist, t),
               Number(adj, w, t, dist[t] - dist[v] - 1));
    } else {
      OffPath(adj, s, dist, v, t, w);
    }
  }

  lemma ShareForward(adj: Adj, s: nat, dist: seq<int>, v: nat, t: nat, g: int -> real)
    requires |dist| == |adj| && IsDist(adj, s, dist) && v < |adj| && t < |adj|
    requires dist[v] >= 0 && dist[t] > dist[v]
    requires forall w | 0 <= w < |adj| :: g(w) == Coef(adj, s, dist, v, w) * FullShare(adj, s, dist, w, t)
    ensures FullShare(adj, s, dist, v, t) == Sum(|adj|, g)
  {
    hide Number, Mult, Sigma, Coef, FullShare, Sum, IsDist;
    FullShareIs(adj, s, dist, v, t);
    var sv, st, k := Sigma(adj, s, dist, v), Sigma(adj, s, dist, t), dist[t] - dist[v];
    var f := (w: int) => if 0 <= w < |adj| then Mult(adj, v, w) * Number(adj, w, t, k - 1) else 0.0;
    NumberFirst(adj, v, t, k, f);
    forall w | 0 <= w < |adj| ensures g(w) == (sv / st) * f(w) {
      ShareTerm(adj, s, dist, v, t, w);
    }
    SumScale(|adj|, sv / st, f, g);
    assert sv * Number(adj, v, t, k) / st == (sv / st) * Number(adj, v, t, k);
  }

  /** Nodes no further than `v` have no share of what its successors carry. */
  lemma NoShareBack(adj: Adj, s: nat, dist: seq<int>, v: nat, t: nat, w: nat)
    requires |dist| == |adj| && v < |adj| && t < |adj| && w < |adj| && dist[t] <= dist[v]
    ensures Coef(adj, s, dist, v, w) * FullShare(adj, s, dist, w, t) == 0.0
  {
  }

  lemma NoShareAside(adj: Adj, s: nat, dist: seq<int>, v: nat, t: nat)
    requires |dist| == |adj| && IsDist(adj, s, dist) && v < |adj| && t < |adj| && v != s && dist[t] <= dist[v]
    ensures PairShare(adj, s, t, v) == 0.0
  {
    hide IsDist, PairShare, FullShare;
    ShareIsFull(adj, s, dist, v, t);
    if t != v {
      FullShareBack(adj, s, dist, v, t);
    }
  }

  lemma FullShareBack(adj: Adj, s: nat, dist: seq<int>, v: nat, t: nat)
    requires |dist| == |adj| && v < |adj| && t < |adj| && t != v && dist[t] <= dist[v]
    ensures FullShare(adj, s, dist, v, t) == 0.0
  {
    NumberZero(adj, v, t);
    NumberNegative(adj, v, t, dist[t] - dist[v]);
    hide Number, Sigma;
    assert Number(adj, v, t, dist[t] - dist[v]) == 0.0;
  }

  lemma PairShareForward(adj: Adj, s: nat, dist: seq<int>, v: nat, t: nat, g: int -> real)
    requires |dist| == |adj| && IsDist(adj, s, dist) && v < |adj| && t < |adj| && dist[v] >= 0 && v != s
    requires forall w | 0 <= w < |adj| :: g(w) == Coef(adj, s, dist, v, w) * FullShare(adj, s, dist, w, t)
    ensures PairShare(adj, s, t, v) == Sum(|adj|, g)
  {
    hide IsDist, PairShare, FullShare, Coef, Sum;
    if dist[t] > dist[v] {
      ShareIsFull(adj, s, dist, v, t);
      ShareForward(adj, s, dist, v, t, g);
    } else {
      NoShareAside(adj, s, dist, v, t);
      forall w | 0 <= w < |adj| ensures g(w) == 0.0 {
        NoShareBack(adj, s, dist, v, t, w);
      }
      SumZero(|adj|, g);
    }
  }

  lemma DependencyIs(adj: Adj, s: nat, v: nat, f: int -> real)
    requires forall t | 0 <= t < |adj| :: f(t) == PairShare(adj, s, t, v)
    ensures Dependency(adj, s, v) == Sum(|adj|, f)
  {
    hide PairShare;
    SumEq(|adj|, f, t => PairShare(adj, s, t, v));
  }

  lemma SourceDist(adj: Adj, s: nat, dist: seq<int>)
    requires |dist| == |adj| && IsDist(adj, s, dist)
    ensures dist[s] == 0
  {
    NumberZero(adj, s, s);
  }

  lemma CoefZero(adj: Adj, s: nat, dist: seq<int>, v: nat, w: nat)
    requires |dist| == |adj| && IsDist(adj, s, dist) && v < |adj| && w < |adj|
    ensures Coef(adj, s, dist, v, w) == 0.0 || (dist[w] >= 1 && w != s)
  {
    SourceDist(adj, s, dist);
  }

  lemma CoefSum(adj: Adj, s: nat, dist: seq<int>, v: nat, w: nat, f: int -> real)
    requires |dist| == |adj| && IsDist(adj, s, dist) && v < |adj| && w < |adj|
    requires forall t | 0 <= t < |adj| :: f(t) == Coef(adj, s, dist, v, w) * FullShare(adj, s, dist, w, t)
    ensures Sum(|adj|, f) == Coef(adj, s, dist, v, w) * (1.0 + Dependency(adj, s, w))
  {
    hide FullShare, Sum, Dependency, IsDist, Coef;
    var c := Coef(adj, s, dist, v, w);
    var g := (t: int) => FullShare(adj, s, dist, w, t);
    SumScale(|adj|, c, g, f);
    CoefZero(adj, s, dist, v, w);
    if c != 0.0 {
      FullShareSum(adj, s, dist, w, g);
    }
  }

  /** Brandes: the dependency on `v` follows from that on its successors. */
  lemma DependencyRecursion(adj: Adj, s: nat, dist: seq<int>, v: nat, h: int -> real)
    requires |dist| == |adj| && IsDist(adj, s, dist) && v < |adj| && dist[v] >= 0 && v != s
    requires forall w | 0 <= w < |adj| :: h(w) == Coef(adj, s, dist, v, w) * (1.0 + Dependency(adj, s, w))
    ensures Dependency(adj, s, v) == Sum(|adj|, h)
  {
    hide PairShare, FullShare, Coef, Sum, Dependency, IsDist;
    var n := |adj|;
    var both := (t: int, w: int) =>
      if 0 <= w < n then Coef(adj, s, dist, v, w) * FullShare(adj, s, dist, w, t) else 0.0;
    var rows := (t: int) => Sum(n, w => both(t, w));
    var cols := (w: int) => Sum(n, t => both(t, w));
    forall t | 0 <= t < n ensures rows(t) == PairShare(adj, s, t, v) {
      PairShareForward(adj, s, dist, v, t, w => both(t, w));
    }
    DependencyIs(adj, s, v, rows);
    SumSwap(n, n, both);
    forall w | 0 <= w < n ensures cols(w) == h(w) {
      CoefSum(adj, s, dist, v, w, t => both(t, w));
    }
    SumEq(n, h, cols);
    SumEq(n, rows, t => Sum(n, w => both(t, w)));
    SumEq(n, cols, w => Sum(n, t => both(t, w)));
  }
}
