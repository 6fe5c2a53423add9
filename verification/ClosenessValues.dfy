/** What a closeness value says: its equation, its range and when it is largest. */
module ClosenessValues {
  import opened Graphs
  import opened Sums
  import opened Closeness

  // ------------------------------------------------------------------ hop distances

  lemma {:induction false} LeastPath(adj: Adj, u: nat, v: nat, p: seq<nat>) returns (d: nat)
    requires Joins(adj, p, u, v)
    ensures HopDist(adj, u, v, d)
    decreases |p|
  {
    if q :| Joins(adj, q, u, v) && |q| < |p| {
      d := LeastPath(adj, u, v, q);
    } else {
      d := |p| - 1;
    }
  }

  lemma DistUnique(adj: Adj, u: nat, v: nat, d: nat, e: nat)
    requires HopDist(adj, u, v, d) && HopDist(adj, u, v, e)
    ensures d == e
  {
  }

  lemma HopsIs(adj: Adj, s: nat, v: nat, d: nat)
    requires HopDist(adj, s, v, d)
    ensures HopsTo(adj, s, v) == d as real
  {
    forall e: nat | HopDist(adj, s, v, e) ensures e == d { DistUnique(adj, s, v, d, e); }
  }

  /** No hop to the node itself, none counted where there is no path, one where there is an
      edge and at least two elsewhere. */
  lemma HopsFacts(adj: Adj, s: nat, v: nat)
    requires s < |adj| && v < |adj|
    ensures v == s || !Reach(adj, s, v) ==> HopsTo(adj, s, v) == 0.0
    ensures v != s && Edge(adj, s, v) ==> HopsTo(adj, s, v) == 1.0
    ensures v != s && !Edge(adj, s, v) && Reach(adj, s, v) ==> HopsTo(adj, s, v) >= 2.0
  {
    if v == s {
      assert Joins(adj, [s], s, s);
      HopsIs(adj, s, v, 0);
    } else if Reach(adj, s, v) {
      var p :| Joins(adj, p, s, v);
      var d := LeastPath(adj, s, v, p);
      HopsIs(adj, s, v, d);
      var q :| Joins(adj, q, s, v) && |q| == d + 1;
      assert Hop(adj, q, 1);
      if Edge(adj, s, v) {
        assert Joins(adj, [s, v], s, v);
      }
    } else if Edge(adj, s, v) {
      ReachEdge(adj, s, v);
    }
  }

  // ------------------------------------------------------------------ sums over sets

  ghost function Member(a: set<nat>): int -> real {
    v => if v >= 0 && v in a then 1.0 else 0.0
  }

  lemma {:induction false} MemberSum(a: set<nat>, n: nat)
    requires forall v | v in a :: v < n
    ensures Sum(n, Member(a)) == |a| as real
  {
    if n == 0 {
      assert a == {};
    } else {
      var b := a - {n - 1};
      MemberSum(b, n - 1);
      SumEq(n - 1, Member(a), Member(b));
      if n - 1 in a { assert |a| == |b| + 1; } else { assert a == b; }
    }
  }

  lemma {:induction false} SumMono(n: nat, f: int -> real, g: int -> real)
    requires forall i | 0 <= i < n :: f(i) <= g(i)
    ensures Sum(n, f) <= Sum(n, g)
    ensures Sum(n, f) == Sum(n, g) <==> forall i | 0 <= i < n :: f(i) == g(i)
  {
    if n > 0 { SumMono(n - 1, f, g); }
  }

  /** All reachable nodes together are at least one hop each away, and exactly that where
      an edge leads to each. */
  lemma DistanceAtLeast(adj: Adj, s: nat, others: set<nat>)
    requires s < |adj| && OthersOf(adj, s, others)
    ensures |others| as real <= DistanceSum(adj, s)
    ensures |others| as real == DistanceSum(adj, s) <==> forall v: nat | v in others :: Edge(adj, s, v)
  {
    hide Reach, Sum, HopsTo, Edge;
    var f, g := Member(others), (v: int) => HopsTo(adj, s, v);
    forall v: nat | v < |adj| ensures f(v) <= g(v) && (f(v) == g(v) <==> v !in others || Edge(adj, s, v)) {
      HopsFacts(adj, s, v);
    }
    MemberSum(others, |adj|);
    SumMono(|adj|, f, g);
    SumEq(|adj|, g, v => HopsTo(adj, s, v));
  }

  predicate Other(v: nat, s: nat) {
    v != s
  }

  lemma OthersFew(adj: Adj, s: nat, others: set<nat>)
    requires s < |adj| && OthersOf(adj, s, others)
    ensures |others| <= |adj| - 1
    ensures |others| == |adj| - 1 <==> forall v: nat | v < |adj| && v != s :: v in others
  {
    hide Reach;
    BoundedCard(others + {s}, |adj|);
    var all := set v: nat | v < |adj| && Other(v, s);
    AllButOne(all, |adj|, s);
    SubsetCard(others, all);
    if forall v: nat | v < |adj| && v != s :: v in others { assert others == all; }
  }

  lemma {:induction false} AllBelow(a: set<nat>, n: nat)
    requires forall v: nat :: v in a <==> v < n
    ensures |a| == n
  {
    if n == 0 {
      assert a == {};
    } else {
      AllBelow(a - {n - 1}, n - 1);
    }
  }

  lemma AllButOne(a: set<nat>, n: nat, s: nat)
    requires s < n && forall v: nat :: v in a <==> v < n && v != s
    ensures |a| == n - 1
  {
    AllBelow(a + {s}, n);
  }

  // ------------------------------------------------------------------ values

  lemma Ratio(a: real, b: real)
    requires 0.0 <= a <= b && b > 0.0
    ensures 0.0 <= a / b <= 1.0 && (a / b == 1.0 <==> a == b) && a / b * b == a
  {
  }

  lemma SmallProduct(x: real, y: real)
    requires 0.0 <= x <= 1.0 && 0.0 <= y <= 1.0
    ensures 0.0 <= x * y <= 1.0 && x * y <= x && (x * y == 1.0 <==> x == 1.0 && y == 1.0)
  {
    assert x - x * y == x * (1.0 - y);
    Positive(x, 1.0 - y);
    Positive(x, y);
  }

  lemma Positive(x: real, y: real)
    requires x >= 0.0 && y >= 0.0
    ensures x * y >= 0.0
  {
  }

  lemma FormulaFacts(n: nat, r: nat, sum: real)
    requires n > 1 && 0 < r <= n - 1 && r as real <= sum
    ensures 0.0 <= Formula(n, r, sum) <= 1.0
    ensures Formula(n, r, sum) == 1.0 <==> r == n - 1 && sum == r as real
    ensures Formula(n, r, sum) * ((n - 1) as real * (n - 1) as real) * sum == r as real * r as real * r as real
  {
    var x, y, m, t := r as real / (n - 1) as real, r as real / sum, (n - 1) as real, r as real;
    assert t <= m;
    Ratio(t, m);
    Ratio(t, sum);
    SmallProduct(x, x);
    SmallProduct(x * x, y);
    assert Formula(n, r, sum) == x * x * y;
    Cubes(x, y, m, sum, t);
  }

  lemma Cubes(x: real, y: real, m: real, sum: real, t: real)
    requires x * m == t && y * sum == t
    ensures x * x * y * (m * m) * sum == t * t * t
  {
    assert x * x * y * (m * m) * sum == (x * m) * (x * m) * (y * sum);
  }

  /** The number of reachable nodes, cubed, over the distance sum and the square of the
      number of other nodes; between 0 and 1, and 1 exactly if every other node is one hop
      away. */
  lemma ClosenessFacts(adj: Adj, s: nat, value: real)
    requires s < |adj| && IsCloseness(adj, s, value)
    ensures exists r: nat :: Destinations(adj, s, r) && ValueOf(|adj|, r, DistanceSum(adj, s), value)
    ensures 0.0 <= value <= 1.0
    ensures value == 1.0 <==> forall v: nat | v < |adj| && v != s :: Edge(adj, s, v)
  {
    hide DistanceSum, Reach, Formula, Edge;
    var r: nat :| Destinations(adj, s, r) && value == Formula(|adj|, r, DistanceSum(adj, s));
    var others: set<nat> :| OthersOf(adj, s, others) && |others| == r;
    DistanceAtLeast(adj, s, others);
    OthersFew(adj, s, others);
    forall v: nat | v < |adj| && v != s && Edge(adj, s, v) ensures v in others { ReachEdge(adj, s, v); }
    if r > 0 {
      FormulaFacts(|adj|, r, DistanceSum(adj, s));
    } else {
      NoneReached(|adj|, DistanceSum(adj, s));
      var v := SomeOther(adj, s);
      assert v !in others;
    }
    assert ValueOf(|adj|, r, DistanceSum(adj, s), value);
  }

  ghost predicate ValueOf(n: nat, r: nat, sum: real, value: real) {
    if r == 0 then value == 0.0
    else n > 0 && value * ((n - 1) as real * (n - 1) as real) * sum == r as real * r as real * r as real
  }

  lemma NoneReached(n: nat, sum: real)
    requires n > 1
    ensures Formula(n, 0, sum) == 0.0
  {
  }

  lemma SomeOther(adj: Adj, s: nat) returns (v: nat)
    requires s < |adj| && |adj| > 1
    ensures v < |adj| && v != s
  {
    v := if s == 0 then 1 else 0;
  }
}
