/** Walks through a graph, entry by entry, and how many there are.  Two parallel
    entries make two different walks. */
module Walks {
  import opened Graphs
  import opened Buckets
  import opened Sums

  /** A step is an entry: the node it belongs to and its place in that node's list. */
  type Walk = seq<(nat, nat)>

  ghost predicate IsStep(adj: Adj, e: (nat, nat), v: nat) {
    e.0 < |adj| && e.1 < |adj[e.0]| && adj[e.0][e.1] == v
  }

  ghost predicate IsWalk(adj: Adj, p: Walk, s: nat, v: nat) {
    if |p| == 0 then s == v else IsStep(adj, p[|p| - 1], v) && IsWalk(adj, p[..|p| - 1], s, p[|p| - 1].0)
  }

  // ------------------------------------------------------------------ one more step

  ghost function Extend(ps: set<Walk>, e: (nat, nat)): set<Walk> {
    set p | p in ps :: p + [e]
  }

  lemma SnocInjective(p: Walk, q: Walk, e: (nat, nat))
    ensures p + [e] == q + [e] ==> p == q
  {
    assert (p + [e])[..|p|] == p && (q + [e])[..|q|] == q;
  }

  lemma CardUnion<T>(a: set<T>, b: set<T>)
    requires a !! b
    ensures |a + b| == |a| + |b|
  {
  }

  lemma MulSucc(a: nat, c: nat)
    ensures a * (c + 1) == a * c + a
  {
  }

  lemma ExtendCard(ps: set<Walk>, e: (nat, nat))
    ensures |Extend(ps, e)| == |ps|
  {
    if ps != {} {
      var p :| p in ps;
      ExtendCard(ps - {p}, e);
      assert Extend(ps, e) == Extend(ps - {p}, e) + {p + [e]};
      if p + [e] in Extend(ps - {p}, e) {
        var q :| q in ps - {p} && q + [e] == p + [e];
        SnocInjective(p, q, e);
        assert false;
      }
    }
  }

  /** The walks in `ps` that go on to `v` through one of the first `j` entries of `u`. */
  ghost function ExtendFrom(adj: Adj, ps: set<Walk>, u: nat, v: nat, j: nat): set<Walk>
    requires u < |adj| && j <= |adj[u]|
  {
    if j == 0 then {}
    else ExtendFrom(adj, ps, u, v, j - 1) + if adj[u][j - 1] == v then Extend(ps, (u, j - 1)) else {}
  }

  lemma {:induction false} ExtendFromMembers(adj: Adj, ps: set<Walk>, u: nat, v: nat, j: nat, p: Walk)
    requires u < |adj| && j <= |adj[u]|
    ensures p in ExtendFrom(adj, ps, u, v, j) <==>
      |p| > 0 && p[..|p| - 1] in ps && p[|p| - 1].0 == u && p[|p| - 1].1 < j && adj[u][p[|p| - 1].1] == v
  {
    if j > 0 {
      ExtendFromMembers(adj, ps, u, v, j - 1, p);
      var e := (u, j - 1);
      assert p in Extend(ps, e) <==> |p| > 0 && p[..|p| - 1] in ps && p[|p| - 1] == e by {
        if |p| > 0 && p[..|p| - 1] in ps && p[|p| - 1] == e {
          assert p == p[..|p| - 1] + [e];
        }
      }
    }
  }

  lemma ExtendDisjoint(adj: Adj, ps: set<Walk>, u: nat, v: nat, j: nat, e: (nat, nat))
    requires u < |adj| && j <= |adj[u]| && e == (u, j)
    ensures ExtendFrom(adj, ps, u, v, j) !! Extend(ps, e)
  {
    forall p | p in Extend(ps, e) ensures p !in ExtendFrom(adj, ps, u, v, j) {
      ExtendFromMembers(adj, ps, u, v, j, p);
    }
  }

  lemma {:induction false} ExtendFromCard(adj: Adj, ps: set<Walk>, u: nat, v: nat, j: nat)
    requires u < |adj| && j <= |adj[u]|
    ensures |ExtendFrom(adj, ps, u, v, j)| == |ps| * Count(adj[u][..j], v)
  {
    if j > 0 {
      var i := j - 1;
      ExtendFromCard(adj, ps, u, v, i);
      Snoc(adj[u], i);
      CountPush(adj[u][..i], adj[u][i], v);
      ExtendFromOne(adj, ps, u, v, i);
      MulSucc(|ps|, Count(adj[u][..i], v));
    }
  }

  lemma ExtendFromOne(adj: Adj, ps: set<Walk>, u: nat, v: nat, j: nat)
    requires u < |adj| && j < |adj[u]|
    ensures |ExtendFrom(adj, ps, u, v, j + 1)| == |ExtendFrom(adj, ps, u, v, j)| + if adj[u][j] == v then |ps| else 0
  {
    if adj[u][j] == v {
      ExtendCard(ps, (u, j));
      ExtendDisjoint(adj, ps, u, v, j, (u, j));
      CardUnion(ExtendFrom(adj, ps, u, v, j), Extend(ps, (u, j)));
    } else {
      assert ExtendFrom(adj, ps, u, v, j + 1) == ExtendFrom(adj, ps, u, v, j);
    }
  }

  /** The walks that reach `v` by one more step from a node below `m`, where
      `f[u]` are the walks that end in `u`. */
  ghost function StepTo(adj: Adj, f: seq<set<Walk>>, v: nat, m: nat): set<Walk>
    requires m <= |adj| == |f|
  {
    if m == 0 then {} else StepTo(adj, f, v, m - 1) + ExtendFrom(adj, f[m - 1], m - 1, v, |adj[m - 1]|)
  }

  lemma {:induction false} StepToMembers(adj: Adj, f: seq<set<Walk>>, v: nat, m: nat, p: Walk)
    requires m <= |adj| == |f|
    ensures p in StepTo(adj, f, v, m) <==>
      |p| > 0 && p[|p| - 1].0 < m && IsStep(adj, p[|p| - 1], v) && p[..|p| - 1] in f[p[|p| - 1].0]
  {
    if m > 0 {
      StepToMembers(adj, f, v, m - 1, p);
      ExtendFromMembers(adj, f[m - 1], m - 1, v, |adj[m - 1]|, p);
    }
  }

  lemma StepToOne(adj: Adj, f: seq<set<Walk>>, v: nat, u: nat)
    requires u < |adj| == |f|
    ensures |StepTo(adj, f, v, u + 1)| == |StepTo(adj, f, v, u)| + |f[u]| * Count(adj[u], v)
  {
    var before, last := StepTo(adj, f, v, u), ExtendFrom(adj, f[u], u, v, |adj[u]|);
    ExtendFromCard(adj, f[u], u, v, |adj[u]|);
    assert adj[u][..|adj[u]|] == adj[u];
    forall p | p in last ensures p !in before {
      ExtendFromMembers(adj, f[u], u, v, |adj[u]|, p);
      StepToMembers(adj, f, v, u, p);
    }
    CardUnion(before, last);
  }

  lemma StepToNone(adj: Adj, f: seq<set<Walk>>, v: nat)
    requires |adj| == |f|
    ensures |StepTo(adj, f, v, 0)| == 0
  {
  }

  /** Numbers of walks, summed up node by node. */
  lemma {:induction false} StepToCard(adj: Adj, f: seq<set<Walk>>, v: nat, m: nat, t: int -> real)
    requires m <= |adj| == |f|
    requires forall u | 0 <= u < |adj| :: t(u) == (|f[u]| * Count(adj[u], v)) as real
    ensures |StepTo(adj, f, v, m)| as real == Sum(m, t)
  {
    hide StepTo, Count;
    if m > 0 {
      StepToCard(adj, f, v, m - 1, t);
      StepToOne(adj, f, v, m - 1);
    } else {
      StepToNone(adj, f, v);
    }
  }

  // ------------------------------------------------------------------ all walks of a length

  /** The walks of `k` steps that start in `s`, by the node they end in. */
  ghost function Level(adj: Adj, s: nat, k: nat): (f: seq<set<Walk>>)
    ensures |f| == |adj|
    decreases k
  {
    if k == 0 then seq(|adj|, v => if v == s then {[]} else {})
    else seq(|adj|, v requires 0 <= v < |adj| => StepTo(adj, Level(adj, s, k - 1), v, |adj|))
  }

  lemma {:induction false} LevelMembers(adj: Adj, s: nat, k: nat, v: nat, p: Walk)
    requires v < |adj|
    ensures p in Level(adj, s, k)[v] <==> |p| == k && IsWalk(adj, p, s, v)
    decreases k
  {
    if k > 0 {
      StepToMembers(adj, Level(adj, s, k - 1), v, |adj|, p);
      if |p| > 0 && p[|p| - 1].0 < |adj| {
        LevelMembers(adj, s, k - 1, p[|p| - 1].0, p[..|p| - 1]);
      }
    } else {
      assert |p| == 0 <==> p == [];
    }
  }

  /** The number of walks of `k` steps from `s` to `v`. */
  ghost function Number(adj: Adj, s: nat, v: int, k: int): (r: real)
    ensures r >= 0.0
  {
    if 0 <= v < |adj| && k >= 0 then |Level(adj, s, k)[v]| as real else 0.0
  }

  ghost function Mult(adj: Adj, u: int, v: int): (r: real)
    ensures r >= 0.0
  {
    if 0 <= u < |adj| && v >= 0 then Count(adj[u], v) as real else 0.0
  }

  lemma MulReal(a: nat, b: nat)
    ensures (a * b) as real == a as real * b as real
  {
  }

  lemma LevelStep(adj: Adj, s: nat, k: nat, v: nat)
    requires v < |adj| && k > 0
    ensures Level(adj, s, k)[v] == StepTo(adj, Level(adj, s, k - 1), v, |adj|)
  {
  }

  lemma TermOf(adj: Adj, s: nat, u: nat, v: nat, k: nat)
    requires u < |adj|
    ensures Number(adj, s, u, k) * Mult(adj, u, v) == (|Level(adj, s, k)[u]| * Count(adj[u], v)) as real
  {
    hide Level, Count;
    MulReal(|Level(adj, s, k)[u]|, Count(adj[u], v));
  }

  /** Counting by the last step. */
  lemma NumberLast(adj: Adj, s: nat, v: nat, k: nat, t: int -> real)
    requires v < |adj| && k > 0
    requires forall u | 0 <= u < |adj| :: t(u) == Number(adj, s, u, k - 1) * Mult(adj, u, v)
    ensures Number(adj, s, v, k) == Sum(|adj|, t)
  {
    hide Level, StepTo, Sum, Count, Mult;
    var f := Level(adj, s, k - 1);
    forall u | 0 <= u < |adj| ensures t(u) == (|f[u]| * Count(adj[u], v)) as real {
      TermOf(adj, s, u, v, k - 1);
    }
    StepToCard(adj, f, v, |adj|, t);
    LevelStep(adj, s, k, v);
  }

  lemma NumberZero(adj: Adj, s: nat, v: nat)
    requires v < |adj|
    ensures Number(adj, s, v, 0) == if v == s then 1.0 else 0.0
  {
  }

  /** Counting by the first step. */
  lemma {:induction false} NumberFirst(adj: Adj, s: nat, v: nat, k: nat, t: int -> real)
    requires s < |adj| && v < |adj| && k > 0
    requires forall u | 0 <= u < |adj| :: t(u) == Mult(adj, s, u) * Number(adj, u, v, k - 1)
    ensures Number(adj, s, v, k) == Sum(|adj|, t)
    decreases k
  {
    hide Level, Number, Mult, Sum;
    var n := |adj|;
    if k == 1 {
      // Only the walk that starts in `s` itself is there to be extended.
      var l := (u: int) => Number(adj, s, u, 0) * Mult(adj, u, v);
      NumberLast(adj, s, v, k, l);
      forall u | 0 <= u < n
        ensures Number(adj, s, u, 0) == (if u == s then 1.0 else 0.0)
        ensures Number(adj, u, v, 0) == if u == v then 1.0 else 0.0
      {
        NumberZero(adj, s, u);
        NumberZero(adj, u, v);
      }
      SumSingle(n, s, l);
      SumSingle(n, v, t);
    } else {
      var l := (x: int) => Number(adj, s, x, k - 1) * Mult(adj, x, v);
      NumberLast(adj, s, v, k, l);
      var both := (u: int, x: int) => if 0 <= u < n then Mult(adj, s, u) * Number(adj, u, x, k - 2) * Mult(adj, x, v)
        else 0.0;
      forall x | 0 <= x < n ensures l(x) == Sum(n, u => both(u, x)) {
        var f := (u: int) => if 0 <= u < n then Mult(adj, s, u) * Number(adj, u, x, k - 2) else 0.0;
        NumberFirst(adj, s, x, k - 1, f);
        SumScale(n, Mult(adj, x, v), f, u => both(u, x));
      }
      SumEq(n, l, x => Sum(n, u => both(u, x)));
      SumSwap(n, n, both);
      forall u | 0 <= u < n ensures t(u) == Sum(n, x => both(u, x)) {
        var f := (x: int) => Number(adj, u, x, k - 2) * Mult(adj, x, v);
        NumberLast(adj, u, v, k - 1, f);
        SumScale(n, Mult(adj, s, u), f, x => both(u, x));
      }
      SumEq(n, t, u => Sum(n, x => both(u, x)));
    }
  }

  // ------------------------------------------------------------------ walks and paths

  lemma NumberPositive(adj: Adj, s: nat, v: nat, k: nat)
    requires v < |adj|
    ensures Number(adj, s, v, k) > 0.0 <==> exists p :: |p| == k && IsWalk(adj, p, s, v)
  {
    var walks := Level(adj, s, k)[v];
    if walks != {} {
      var p :| p in walks;
      LevelMembers(adj, s, k, v, p);
    } else if p: Walk :| |p| == k && IsWalk(adj, p, s, v) {
      LevelMembers(adj, s, k, v, p);
      assert false;
    }
  }

  lemma {:induction false} WalkOfPath(adj: Adj, p: seq<nat>, s: nat, v: nat) returns (e: Walk)
    requires Joins(adj, p, s, v)
    ensures |e| == |p| - 1 && IsWalk(adj, e, s, v)
    decreases |p|
  {
    if |p| == 1 {
      e := [];
    } else {
      var q, u := p[..|p| - 1], p[|p| - 2];
      forall i | 0 < i < |q| ensures Hop(adj, q, i) {
        assert Hop(adj, p, i);
      }
      var f := WalkOfPath(adj, q, s, u);
      assert Hop(adj, p, |p| - 1);
      var j :| 0 <= j < |adj[u]| && adj[u][j] == v;
      e := f + [(u, j)];
      assert e[..|e| - 1] == f;
    }
  }

  lemma {:induction false} PathOfWalk(adj: Adj, e: Walk, s: nat, v: nat) returns (p: seq<nat>)
    requires s < |adj| && v < |adj| && IsWalk(adj, e, s, v)
    ensures |p| == |e| + 1 && Joins(adj, p, s, v)
    decreases |e|
  {
    if |e| == 0 {
      p := [s];
    } else {
      var u := e[|e| - 1].0;
      var q := PathOfWalk(adj, e[..|e| - 1], s, u);
      p := q + [v];
      forall i | 0 < i < |p| ensures Hop(adj, p, i) {
        assert i < |q| ==> Hop(adj, q, i);
      }
    }
  }

  /** A hop distance is the least length of a walk. */
  lemma HopDistNumber(adj: Adj, s: nat, v: nat, d: nat)
    requires s < |adj| && v < |adj| && HopDist(adj, s, v, d)
    ensures Number(adj, s, v, d) > 0.0
    ensures forall k: nat | Number(adj, s, v, k) > 0.0 :: d <= k
  {
    var p :| Joins(adj, p, s, v) && |p| == d + 1;
    var e := WalkOfPath(adj, p, s, v);
    NumberPositive(adj, s, v, d);
    forall k: nat | Number(adj, s, v, k) > 0.0 ensures d <= k {
      NumberPositive(adj, s, v, k);
      var f: Walk :| |f| == k && IsWalk(adj, f, s, v);
      var q := PathOfWalk(adj, f, s, v);
    }
  }

  lemma UnreachedNumber(adj: Adj, s: nat, v: nat, k: nat)
    requires s < |adj| && v < |adj| && !Reach(adj, s, v)
    ensures Number(adj, s, v, k) == 0.0
  {
    NumberPositive(adj, s, v, k);
    if Number(adj, s, v, k) > 0.0 {
      var f: Walk :| |f| == k && IsWalk(adj, f, s, v);
      var q := PathOfWalk(adj, f, s, v);
      assert false;
    }
  }

  // ------------------------------------------------------------------ walks by way of a node

  /** The node a walk to `t` is in after `i` steps. */
  ghost function NodeAt(p: Walk, i: nat, t: nat): nat {
    if i < |p| then p[i].0 else t
  }

  /** The walks from `s` that are in `x` after `k1` steps, and go on for `k2`
      more, by the node they end in. */
  ghost function Via(adj: Adj, s: nat, x: nat, k1: nat, k2: nat): (f: seq<set<Walk>>)
    requires x < |adj|
    ensures |f| == |adj|
    decreases k2
  {
    if k2 == 0 then seq(|adj|, t => if t == x then Level(adj, s, k1)[x] else {})
    else seq(|adj|, t requires 0 <= t < |adj| => StepTo(adj, Via(adj, s, x, k1, k2 - 1), t, |adj|))
  }

  lemma {:induction false} ViaMembers(adj: Adj, s: nat, x: nat, k1: nat, k2: nat, t: nat, p: Walk)
    requires x < |adj| && t < |adj|
    ensures p in Via(adj, s, x, k1, k2)[t] <==> |p| == k1 + k2 && IsWalk(adj, p, s, t) && NodeAt(p, k1, t) == x
    decreases k2
  {
    hide StepTo, Level;
    if k2 == 0 {
      LevelMembers(adj, s, k1, x, p);
    } else {
      ViaStep(adj, s, x, k1, k2, t);
      StepToMembers(adj, Via(adj, s, x, k1, k2 - 1), t, |adj|, p);
      hide Via;
      if |p| > 0 && p[|p| - 1].0 < |adj| {
        ViaMembers(adj, s, x, k1, k2 - 1, p[|p| - 1].0, p[..|p| - 1]);
      }
    }
  }

  lemma ViaStep(adj: Adj, s: nat, x: nat, k1: nat, k2: nat, t: nat)
    requires x < |adj| && t < |adj| && k2 > 0
    ensures Via(adj, s, x, k1, k2)[t] == StepTo(adj, Via(adj, s, x, k1, k2 - 1), t, |adj|)
  {
  }

  lemma ScaledTerm(adj: Adj, size: nat, c: real, x: nat, u: nat, t: nat, k: nat)
    requires u < |adj| && size as real == c * Number(adj, x, u, k)
    ensures c * (Number(adj, x, u, k) * Mult(adj, u, t)) == (size * Count(adj[u], t)) as real
  {
    hide Number;
    MulReal(size, Count(adj[u], t));
    assert c * (Number(adj, x, u, k) * Mult(adj, u, t)) == (c * Number(adj, x, u, k)) * Mult(adj, u, t);
  }

  lemma ViaCardStep(adj: Adj, s: nat, x: nat, k1: nat, k: nat, t: nat)
    requires x < |adj| && t < |adj|
    requires forall u | 0 <= u < |adj| ::
      |Via(adj, s, x, k1, k)[u]| as real == Number(adj, s, x, k1) * Number(adj, x, u, k)
    ensures |Via(adj, s, x, k1, k + 1)[t]| as real == Number(adj, s, x, k1) * Number(adj, x, t, k + 1)
  {
    hide Via, Number, Mult, StepTo, Sum, Level, Count;
    var f := Via(adj, s, x, k1, k);
    var c := Number(adj, s, x, k1);
    var g := (u: int) => Number(adj, x, u, k) * Mult(adj, u, t);
    var h := (u: int) => c * g(u);
    forall u | 0 <= u < |adj| ensures h(u) == (|f[u]| * Count(adj[u], t)) as real {
      ScaledTerm(adj, |f[u]|, c, x, u, t, k);
    }
    StepToCard(adj, f, t, |adj|, h);
    ViaStep(adj, s, x, k1, k + 1, t);
    SumScale(|adj|, c, g, h);
    NumberLast(adj, x, t, k + 1, g);
  }

  lemma ViaCardZero(adj: Adj, s: nat, x: nat, k1: nat, t: nat)
    requires x < |adj| && t < |adj|
    ensures |Via(adj, s, x, k1, 0)[t]| as real == Number(adj, s, x, k1) * Number(adj, x, t, 0)
  {
    NumberZero(adj, x, t);
  }

  /** As many as the ways to `x`, times the ways on from `x`. */
  lemma {:induction false} ViaCard(adj: Adj, s: nat, x: nat, k1: nat, k2: nat, t: nat)
    requires x < |adj| && t < |adj|
    ensures |Via(adj, s, x, k1, k2)[t]| as real == Number(adj, s, x, k1) * Number(adj, x, t, k2)
    decreases k2
  {
    hide Via, Number;
    if k2 == 0 {
      ViaCardZero(adj, s, x, k1, t);
    } else {
      var k := k2 - 1;
      forall u | 0 <= u < |adj|
        ensures |Via(adj, s, x, k1, k)[u]| as real == Number(adj, s, x, k1) * Number(adj, x, u, k)
      {
        ViaCard(adj, s, x, k1, k, u);
      }
      ViaCardStep(adj, s, x, k1, k, t);
    }
  }

  lemma BothPositive(a: real, b: real)
    requires a >= 0.0 && b >= 0.0 && a * b > 0.0
    ensures a > 0.0 && b > 0.0
  {
  }

  /** A walk that is in `x` after `i` steps has a walk to `x` and one on from it. */
  lemma WalkBreaks(adj: Adj, s: nat, t: nat, p: Walk, i: nat, x: nat)
    requires t < |adj| && x < |adj| && IsWalk(adj, p, s, t) && i <= |p| && NodeAt(p, i, t) == x
    ensures Number(adj, s, x, i) > 0.0 && Number(adj, x, t, |p| - i) > 0.0
  {
    hide Via, Number, IsWalk;
    ViaMembers(adj, s, x, i, |p| - i, t, p);
    ViaCard(adj, s, x, i, |p| - i, t);
    assert |Via(adj, s, x, i, |p| - i)[t]| > 0;
    BothPositive(Number(adj, s, x, i), Number(adj, x, t, |p| - i));
  }

  /** Walks can be joined. */
  lemma NumberJoin(adj: Adj, s: nat, x: nat, t: nat, k1: nat, k2: nat)
    requires x < |adj| && t < |adj| && Number(adj, s, x, k1) > 0.0 && Number(adj, x, t, k2) > 0.0
    ensures Number(adj, s, t, k1 + k2) > 0.0
  {
    ViaCard(adj, s, x, k1, k2, t);
    var walks := Via(adj, s, x, k1, k2)[t];
    assert walks != {};
    var p :| p in walks;
    ViaMembers(adj, s, x, k1, k2, t, p);
    NumberPositive(adj, s, t, k1 + k2);
  }
}
