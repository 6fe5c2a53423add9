/** PageRank by power iteration (akar-graph `page_rank`), over the reals. */
module PageRank {
  import opened Graphs
  import opened Buckets
  import opened Sums
  import opened ListSums

  // ------------------------------------------------------------------ one iteration, as the source computes it

  /** What node `i` gives along each of its entries. */
  ghost function Give(adj: Adj, damping: real, pr: seq<real>, i: int): real {
    if 0 <= i < |adj| == |pr| && |adj[i]| > 0 then damping * (pr[i] / |adj[i]| as real) else 0.0
  }

  /** What node `i` gives to node `j`. */
  ghost function Flow(adj: Adj, damping: real, pr: seq<real>, i: int, j: nat): real {
    if 0 <= i < |adj| then Count(adj[i], j) as real * Give(adj, damping, pr, i) else 0.0
  }

  ghost function FlowTo(adj: Adj, damping: real, pr: seq<real>, j: nat): int -> real {
    i => Flow(adj, damping, pr, i, j)
  }

  ghost function Stuck(adj: Adj, pr: seq<real>): int -> real {
    i => if 0 <= i < |adj| == |pr| && |adj[i]| == 0 then pr[i] else 0.0
  }

  /** The rank held by nodes without entries. */
  ghost function Dangling(adj: Adj, pr: seq<real>): real {
    Sum(|adj|, Stuck(adj, pr))
  }

  ghost function Extra(adj: Adj, damping: real, pr: seq<real>): real
    requires |adj| > 0
  {
    if Dangling(adj, pr) > 0.0 then damping * Dangling(adj, pr) / |adj| as real else 0.0
  }

  ghost function RankOf(adj: Adj, damping: real, pr: seq<real>, j: nat): real
    requires |adj| > 0
  {
    (1.0 - damping) / |adj| as real + Sum(|adj|, FlowTo(adj, damping, pr, j)) + Extra(adj, damping, pr)
  }

  ghost predicate Iterate(adj: Adj, damping: real, pr: seq<real>, pr': seq<real>) {
    |adj| > 0 && |pr'| == |adj| && forall j: nat | j < |adj| :: pr'[j] == RankOf(adj, damping, pr, j)
  }

  function Abs(x: real): real {
    if x >= 0.0 then x else -x
  }

  ghost function Gap(p: seq<real>, q: seq<real>): int -> real {
    i => if 0 <= i < |p| && i < |q| then Abs(p[i] - q[i]) else 0.0
  }

  /** L1 distance. */
  ghost function Distance(p: seq<real>, q: seq<real>): real {
    Sum(|p|, Gap(p, q))
  }

  ghost function Mass(p: seq<real>): real {
    Sum(|p|, At(p))
  }

  ghost predicate NonNegative(p: seq<real>) {
    forall i | 0 <= i < |p| :: p[i] >= 0.0
  }

  ghost predicate InGraph(adj: Adj) {
    forall i | 0 <= i < |adj| :: forall w | w in adj[i] :: w < |adj|
  }

  // ------------------------------------------------------------------ the iteration, entry by entry

  /** What the `e`-th entry of `i` carries to `j`: the damped rank of `i`, in equal parts. */
  ghost function EntryShare(adj: Adj, damping: real, pr: seq<real>, i: int, e: int, j: nat): real {
    if 0 <= i < |adj| && i < |pr| && 0 <= e < |adj[i]| && adj[i][e] == j then
      damping * (pr[i] / |adj[i]| as real)
    else 0.0
  }

  ghost function RowShare(adj: Adj, damping: real, pr: seq<real>, i: int, j: nat): real {
    if 0 <= i < |adj| then Sum(|adj[i]|, e => EntryShare(adj, damping, pr, i, e, j)) else 0.0
  }

  lemma RowIsFlow(adj: Adj, damping: real, pr: seq<real>, i: nat, j: nat)
    requires i < |adj| == |pr|
    ensures RowShare(adj, damping, pr, i, j) == Flow(adj, damping, pr, i, j)
  {
    hide Sum;
    var n, f := |adj[i]|, (e: int) => EntryShare(adj, damping, pr, i, e, j);
    if n > 0 {
      CountSum(adj[i], j, damping * (pr[i] / n as real), n, f);
      assert adj[i][..n] == adj[i];
    } else {
      SumZero(n, f);
    }
    SumEq(n, f, e => EntryShare(adj, damping, pr, i, e, j));
  }

  /** The rank of `j`: an even part of what teleports, what the entries to `j` carry, and an
      even part of the damped rank of the nodes without entries. */
  lemma RankByEntries(adj: Adj, damping: real, pr: seq<real>, j: nat)
    requires |adj| > 0 && |pr| == |adj| && NonNegative(pr)
    ensures RankOf(adj, damping, pr, j)
      == (1.0 - damping) / |adj| as real + Sum(|adj|, i => RowShare(adj, damping, pr, i, j))
         + damping * Dangling(adj, pr) / |adj| as real
  {
    hide Sum, Flow, RowShare;
    var f, g := FlowTo(adj, damping, pr, j), (i: int) => RowShare(adj, damping, pr, i, j);
    forall i | 0 <= i < |adj| ensures f(i) == g(i) {
      RowIsFlow(adj, damping, pr, i, j);
    }
    SumEq(|adj|, f, g);
    SumEq(|adj|, g, i => RowShare(adj, damping, pr, i, j));
    StuckNonNegative(adj, pr);
  }

  // ------------------------------------------------------------------ the iteration as a matrix

  /** The share of `i`'s rank that reaches `j`. */
  ghost function Weight(adj: Adj, damping: real, i: int, j: int): real {
    if !(0 <= i < |adj|) || j < 0 then 0.0
    else if |adj[i]| == 0 then damping / |adj| as real
    else Count(adj[i], j) as real * (damping / |adj[i]| as real)
  }

  ghost function Weighted(adj: Adj, damping: real, p: int -> real, j: nat): int -> real {
    i => Weight(adj, damping, i, j) * p(i)
  }

  lemma SplitTerm(adj: Adj, damping: real, pr: seq<real>, i: nat, j: nat)
    requires i < |adj| == |pr|
    ensures Weight(adj, damping, i, j) * pr[i] ==
            Flow(adj, damping, pr, i, j) + (damping / |adj| as real) * Stuck(adj, pr)(i)
  {
    if |adj[i]| > 0 {
      var c, x, deg := Count(adj[i], j) as real, pr[i], |adj[i]| as real;
      assert damping * (x / deg) == (damping / deg) * x;
      Reorder(c, damping / deg, x);
    }
  }

  lemma Reorder(a: real, b: real, c: real)
    ensures (a * b) * c == a * (b * c)
  {
  }

  /** On non-negative ranks an iteration is affine. */
  lemma RankIsWeighted(adj: Adj, damping: real, pr: seq<real>, j: nat)
    requires |adj| > 0 && |pr| == |adj| && NonNegative(pr)
    ensures RankOf(adj, damping, pr, j)
      == (1.0 - damping) / |adj| as real + Sum(|adj|, Weighted(adj, damping, At(pr), j))
  {
    hide Sum, Flow, Weight;
    var n, r := |adj|, damping / |adj| as real;
    var f, s := FlowTo(adj, damping, pr, j), Stuck(adj, pr);
    var t := (i: int) => r * s(i);
    var w := Weighted(adj, damping, At(pr), j);
    forall i | 0 <= i < n ensures w(i) == f(i) + t(i) {
      SplitTerm(adj, damping, pr, i, j);
    }
    StuckNonNegative(adj, pr);
    hide FlowTo, Stuck, Weighted, NonNegative;
    SumAdd(n, f, t, w);
    SumScale(n, r, s, t);
    Shared(damping, Dangling(adj, pr), n as real);
  }

  lemma StuckNonNegative(adj: Adj, pr: seq<real>)
    requires |pr| == |adj| && NonNegative(pr)
    ensures Dangling(adj, pr) >= 0.0
  {
    hide Sum;
    SumNonNegative(|adj|, Stuck(adj, pr));
  }

  lemma Shared(d: real, m: real, n: real)
    requires n > 0.0
    ensures d * m / n == (d / n) * m
  {
  }

  lemma Cancels(d: real, n: real)
    requires n > 0.0
    ensures (d / n) * n == d
  {
  }

  lemma {:induction false} CountTotal(list: seq<nat>, n: nat, f: int -> real)
    requires (forall w | w in list :: w < n) && forall j | 0 <= j < n :: f(j) == Count(list, j) as real
    ensures Sum(n, f) == |list| as real
    decreases |list|
  {
    hide Sum;
    if |list| == 0 {
      SumZero(n, f);
    } else {
      var front, x := list[..|list| - 1], list[|list| - 1];
      assert x in list && forall w | w in front :: w in list;
      var g := (j: int) => if j < 0 then 0.0 else Count(front, j) as real;
      CountTotal(front, n, g);
      forall j | 0 <= j < n ensures f(j) == g(j) + if j == x then 1.0 else 0.0 {
        CountPush(front, x, j);
        assert front + [x] == list;
      }
      hide Count;
      SumChange(n, x, g, f);
    }
  }

  /** Every row of the matrix sums to the damping factor. */
  lemma RowSum(adj: Adj, damping: real, i: nat, f: int -> real)
    requires InGraph(adj) && i < |adj| && forall j | 0 <= j < |adj| :: f(j) == Weight(adj, damping, i, j)
    ensures Sum(|adj|, f) == damping
  {
    hide Sum, Count, Weight, InGraph;
    if |adj[i]| == 0 {
      RowStuck(adj, damping, i, f);
    } else {
      RowListed(adj, damping, i, f);
    }
  }

  lemma RowStuck(adj: Adj, damping: real, i: nat, f: int -> real)
    requires i < |adj| && |adj[i]| == 0 && forall j | 0 <= j < |adj| :: f(j) == Weight(adj, damping, i, j)
    ensures Sum(|adj|, f) == damping
  {
    hide Sum, Count;
    var n := |adj|;
    var one := (j: int) => 1.0;
    SumOnes(n, one);
    ScaledTo(n, damping, n as real, f, one);
  }

  lemma RowListed(adj: Adj, damping: real, i: nat, f: int -> real)
    requires InGraph(adj) && i < |adj| && |adj[i]| > 0
    requires forall j | 0 <= j < |adj| :: f(j) == Weight(adj, damping, i, j)
    ensures Sum(|adj|, f) == damping
  {
    hide Sum, Count;
    var c := (j: int) => if j < 0 then 0.0 else Count(adj[i], j) as real;
    CountTotal(adj[i], |adj|, c);
    ScaledTo(|adj|, damping, |adj[i]| as real, f, c);
  }

  lemma ScaledTo(n: nat, damping: real, total: real, f: int -> real, g: int -> real)
    requires total > 0.0 && Sum(n, g) == total && forall j | 0 <= j < n :: f(j) == g(j) * (damping / total)
    ensures Sum(n, f) == damping
  {
    hide Sum;
    SumScale(n, damping / total, g, f);
    Cancels(damping, total);
  }

  lemma {:induction false} SumOnes(n: nat, f: int -> real)
    requires forall i | 0 <= i < n :: f(i) == 1.0
    ensures Sum(n, f) == n as real
  {
    if n > 0 { SumOnes(n - 1, f); }
  }

  /** Summed over all nodes, the matrix scales a vector's mass by the damping factor. */
  lemma MatrixMass(adj: Adj, damping: real, p: int -> real)
    requires InGraph(adj)
    ensures Sum(|adj|, j => if j < 0 then 0.0 else Sum(|adj|, Weighted(adj, damping, p, j))) == damping * Sum(|adj|, p)
  {
    hide Sum, Weight, InGraph;
    var n := |adj|;
    var m := (j: int, i: int) => Weight(adj, damping, i, j) * p(i);
    SumSwap(n, n, m);
    var rows := (j: int) => Sum(n, i => m(j, i));
    forall j | 0 <= j < n ensures rows(j) == Sum(n, Weighted(adj, damping, p, j)) {
      SumEq(n, i => m(j, i), Weighted(adj, damping, p, j));
    }
    SumEq(n, rows, j => if j < 0 then 0.0 else Sum(n, Weighted(adj, damping, p, j)));
    var cols, scaled := (i: int) => Sum(n, j => m(j, i)), (i: int) => damping * p(i);
    forall i | 0 <= i < n ensures cols(i) == scaled(i) {
      var w := (j: int) => Weight(adj, damping, i, j);
      RowSum(adj, damping, i, w);
      var mi := (j: int) => m(j, i);
      SumScale(n, p(i), w, mi);
      SumEq(n, mi, j => m(j, i));
    }
    SumEq(n, cols, scaled);
    SumScale(n, damping, p, scaled);
    SumEq(n, rows, j => Sum(n, i => m(j, i)));
    SumEq(n, cols, i => Sum(n, j => m(j, i)));
  }

  // ------------------------------------------------------------------ what every iterate keeps

  ghost predicate Proper(adj: Adj, damping: real) {
    |adj| > 0 && InGraph(adj) && 0.0 <= damping <= 1.0
  }

  lemma WeightNonNegative(adj: Adj, damping: real, i: int, j: int)
    requires damping >= 0.0
    ensures Weight(adj, damping, i, j) >= 0.0
  {
  }

  /** Every entry keeps the share of the teleporting surfer. */
  lemma RanksAtLeast(adj: Adj, damping: real, pr: seq<real>, pr': seq<real>)
    requires Proper(adj, damping) && |pr| == |adj| && NonNegative(pr) && Iterate(adj, damping, pr, pr')
    ensures forall j | 0 <= j < |pr'| :: pr'[j] >= (1.0 - damping) / |adj| as real >= 0.0
  {
    hide Sum, Weight, InGraph, RankOf;
    forall j: nat | j < |pr'| ensures pr'[j] >= (1.0 - damping) / |adj| as real >= 0.0 {
      RankIsWeighted(adj, damping, pr, j);
      var w := Weighted(adj, damping, At(pr), j);
      forall i | 0 <= i < |adj| ensures w(i) >= 0.0 {
        WeightNonNegative(adj, damping, i, j);
        assert w(i) == Weight(adj, damping, i, j) * pr[i];
      }
      SumNonNegative(|adj|, w);
    }
  }

  /** Rank is conserved, dangling mass included. */
  lemma MassKept(adj: Adj, damping: real, pr: seq<real>, pr': seq<real>)
    requires Proper(adj, damping) && |pr| == |adj| && NonNegative(pr) && Iterate(adj, damping, pr, pr')
    ensures Mass(pr') == 1.0 - damping + damping * Mass(pr)
  {
    hide Sum, Weight, InGraph, RankOf;
    var n, base := |adj|, (1.0 - damping) / |adj| as real;
    var p := At(pr);
    MatrixMass(adj, damping, p);
    var flat := (j: int) => base;
    var one := (j: int) => 1.0;
    var rows := (j: int) => if j < 0 then 0.0 else Sum(n, Weighted(adj, damping, p, j));
    var all := At(pr');
    forall j | 0 <= j < n ensures all(j) == flat(j) + rows(j) {
      RankIsWeighted(adj, damping, pr, j);
    }
    hide Iterate, Weighted;
    SumAdd(n, flat, rows, all);
    SumOnes(n, one);
    SumScale(n, base, one, flat);
    Cancels(1.0 - damping, n as real);
  }

  // ------------------------------------------------------------------ contraction

  lemma {:induction false} SumAbs(n: nat, f: int -> real, g: int -> real)
    requires forall i | 0 <= i < n :: Abs(f(i)) <= g(i)
    ensures Abs(Sum(n, f)) <= Sum(n, g)
  {
    if n > 0 { SumAbs(n - 1, f, g); }
  }

  lemma {:induction false} SumMono(n: nat, f: int -> real, g: int -> real)
    requires forall i | 0 <= i < n :: f(i) <= g(i)
    ensures Sum(n, f) <= Sum(n, g)
  {
    if n > 0 { SumMono(n - 1, f, g); }
  }

  lemma Product(w: real, d: real)
    requires w >= 0.0 && d >= 0.0
    ensures w * d >= 0.0
  {
  }

  lemma AbsScale(w: real, x: real, y: real)
    requires w >= 0.0
    ensures Abs(w * x - w * y) == w * Abs(x - y)
  {
    var d := if x >= y then x - y else y - x;
    Product(w, d);
    assert w * x - w * y == w * (x - y);
    assert w * d == if x >= y then w * x - w * y else w * y - w * x;
  }

  lemma TermGap(adj: Adj, damping: real, p: seq<real>, q: seq<real>, i: nat, j: nat)
    requires damping >= 0.0 && i < |adj| == |p| == |q|
    ensures Abs(Weighted(adj, damping, At(p), j)(i) + -1.0 * Weighted(adj, damping, At(q), j)(i))
         <= Weighted(adj, damping, Gap(p, q), j)(i)
  {
    hide Weight;
    WeightNonNegative(adj, damping, i, j);
    AbsScale(Weight(adj, damping, i, j), p[i], q[i]);
  }

  lemma EntryGap(adj: Adj, damping: real, p: seq<real>, q: seq<real>, j: nat)
    requires Proper(adj, damping) && |p| == |q| == |adj| && NonNegative(p) && NonNegative(q)
    ensures Abs(RankOf(adj, damping, p, j) - RankOf(adj, damping, q, j))
      <= Sum(|adj|, Weighted(adj, damping, Gap(p, q), j))
  {
    hide Sum, Weighted, Gap, At, InGraph, RankOf, NonNegative;
    RankIsWeighted(adj, damping, p, j);
    RankIsWeighted(adj, damping, q, j);
    var n := |adj|;
    var wp, wq := Weighted(adj, damping, At(p), j), Weighted(adj, damping, At(q), j);
    var minus := (i: int) => -1.0 * wq(i);
    var diff := (i: int) => wp(i) + minus(i);
    var gap := Weighted(adj, damping, Gap(p, q), j);
    forall i | 0 <= i < n ensures Abs(diff(i)) <= gap(i) {
      TermGap(adj, damping, p, q, i, j);
    }
    SumScale(n, -1.0, wq, minus);
    SumAdd(n, wp, minus, diff);
    assert Sum(n, diff) == RankOf(adj, damping, p, j) - RankOf(adj, damping, q, j);
    SumAbs(n, diff, gap);
  }

  /** An iteration brings any two rank vectors closer, by the damping factor. */
  lemma Contracts(adj: Adj, damping: real, p: seq<real>, q: seq<real>, p': seq<real>, q': seq<real>)
    requires Proper(adj, damping) && |p| == |q| == |adj| && NonNegative(p) && NonNegative(q)
    requires Iterate(adj, damping, p, p') && Iterate(adj, damping, q, q')
    ensures Distance(p', q') <= damping * Distance(p, q)
  {
    hide Sum, Weight, InGraph, RankOf, NonNegative, Weighted;
    var n := |adj|;
    var gap', rows := Gap(p', q'), (j: int) => if j < 0 then 0.0 else Sum(n, Weighted(adj, damping, Gap(p, q), j));
    forall j | 0 <= j < n ensures gap'(j) <= rows(j) {
      EntryGap(adj, damping, p, q, j);
    }
    SumMono(n, gap', rows);
    MatrixMass(adj, damping, Gap(p, q));
  }

  // ------------------------------------------------------------------ runs

  ghost predicate Uniform(p: seq<real>, n: nat) {
    n > 0 && |p| == n && forall i | 0 <= i < n :: p[i] == 1.0 / n as real
  }

  ghost predicate IterateAt(adj: Adj, damping: real, trace: seq<seq<real>>, k: nat) {
    k + 1 < |trace| && Iterate(adj, damping, trace[k], trace[k + 1])
  }

  /** The iterates from the uniform vector on. */
  ghost predicate Iterates(adj: Adj, damping: real, trace: seq<seq<real>>) {
    |trace| > 0 && Uniform(trace[0], |adj|) && forall k: nat | k < |trace| - 1 :: IterateAt(adj, damping, trace, k)
  }

  /** Every iterate is a distribution, and no rank falls below the teleporting share. */
  lemma {:induction false} IterateProper(adj: Adj, damping: real, trace: seq<seq<real>>, k: nat)
    requires Proper(adj, damping) && Iterates(adj, damping, trace) && k < |trace|
    ensures |trace[k]| == |adj| && NonNegative(trace[k]) && Mass(trace[k]) == 1.0
    ensures forall j | 0 <= j < |adj| :: trace[k][j] >= (1.0 - damping) / |adj| as real
    decreases k
  {
    hide Iterate, InGraph, Sum;
    if k == 0 {
      UniformMass(trace[0], |adj|, damping);
    } else {
      IterateProper(adj, damping, trace, k - 1);
      assert IterateAt(adj, damping, trace, k - 1);
      IterateSize(adj, damping, trace[k - 1], trace[k]);
      RanksAtLeast(adj, damping, trace[k - 1], trace[k]);
      MassKept(adj, damping, trace[k - 1], trace[k]);
    }
  }

  lemma IterateSize(adj: Adj, damping: real, pr: seq<real>, pr': seq<real>)
    requires Iterate(adj, damping, pr, pr')
    ensures |pr'| == |adj|
  {
  }

  lemma UniformMass(p: seq<real>, n: nat, damping: real)
    requires Uniform(p, n) && 0.0 <= damping <= 1.0
    ensures NonNegative(p) && Mass(p) == 1.0
    ensures forall j | 0 <= j < n :: p[j] >= (1.0 - damping) / n as real
  {
    hide Sum;
    var one := (i: int) => 1.0;
    SumOnes(n, one);
    SumScale(n, 1.0 / n as real, one, At(p));
    Cancels(1.0, n as real);
    Smaller(1.0 - damping, n as real);
  }

  lemma Smaller(x: real, n: real)
    requires 0.0 <= x <= 1.0 && n > 0.0
    ensures 0.0 <= x / n <= 1.0 / n
  {
    assert 1.0 / n - x / n == (1.0 - x) / n;
  }

  /** Successive iterates draw together by the damping factor. */
  lemma StepsShrink(adj: Adj, damping: real, trace: seq<seq<real>>, k: nat)
    requires Proper(adj, damping) && Iterates(adj, damping, trace) && k + 2 < |trace|
    ensures Distance(trace[k + 1], trace[k + 2]) <= damping * Distance(trace[k], trace[k + 1])
  {
    hide Iterate, InGraph, Distance;
    IterateProper(adj, damping, trace, k);
    IterateProper(adj, damping, trace, k + 1);
    assert IterateAt(adj, damping, trace, k) && IterateAt(adj, damping, trace, k + 1);
    Contracts(adj, damping, trace[k], trace[k + 1], trace[k + 1], trace[k + 2]);
  }

  // ------------------------------------------------------------------ how many iterations

  function Power(x: real, k: nat): real {
    if k == 0 then 1.0 else x * Power(x, k - 1)
  }

  /** Two distributions are at most two apart. */
  lemma DistributionsNear(p: seq<real>, q: seq<real>)
    requires |p| == |q| && NonNegative(p) && NonNegative(q) && Mass(p) == Mass(q) == 1.0
    ensures Distance(p, q) <= 2.0
  {
    hide Sum;
    var both := (i: int) => At(p)(i) + At(q)(i);
    SumAdd(|p|, At(p), At(q), both);
    SumMono(|p|, Gap(p, q), both);
  }

  lemma Scaled(d: real, x: real, y: real)
    requires d >= 0.0 && x <= y
    ensures d * x <= d * y
  {
    Product(d, y - x);
  }

  /** The `k`-th step is at most `2 * damping^k` long. */
  lemma {:induction false} StepBound(adj: Adj, damping: real, trace: seq<seq<real>>, k: nat)
    requires Proper(adj, damping) && Iterates(adj, damping, trace) && k + 1 < |trace|
    ensures Distance(trace[k], trace[k + 1]) <= 2.0 * Power(damping, k)
    decreases k
  {
    assert damping >= 0.0;
    hide Iterates, Proper, Distance, Mass, Power;
    DoubledPower(damping, k);
    if k == 0 {
      IterateProper(adj, damping, trace, 0);
      IterateProper(adj, damping, trace, 1);
      DistributionsNear(trace[0], trace[1]);
    } else {
      StepBound(adj, damping, trace, k - 1);
      StepsShrink(adj, damping, trace, k - 1);
      Scaled(damping, Distance(trace[k - 1], trace[k]), 2.0 * Power(damping, k - 1));
    }
  }

  lemma DoubledPower(d: real, k: nat)
    ensures if k == 0 then Power(d, k) == 1.0 else d * (2.0 * Power(d, k - 1)) == 2.0 * Power(d, k)
  {
  }

  /** The loop stops by tolerance once `2 * damping^k` is below it. */
  lemma StopsByTolerance(adj: Adj, damping: real, trace: seq<seq<real>>, tol: real, k: nat)
    requires Proper(adj, damping) && Iterates(adj, damping, trace) && 2.0 * Power(damping, k) < tol
    requires forall j: nat | j < |trace| - 2 :: Apart(trace, tol, j)
    ensures |trace| - 1 <= k + 1
  {
    hide Iterates, Proper, Distance, Power;
    if k < |trace| - 2 {
      assert Apart(trace, tol, k);
      StepBound(adj, damping, trace, k);
    }
  }

  lemma StopsAlways(adj: Adj, damping: real, trace: seq<seq<real>>, tol: real)
    requires Proper(adj, damping) && Iterates(adj, damping, trace)
    requires forall j: nat | j < |trace| - 2 :: Apart(trace, tol, j)
    ensures forall k: nat | 2.0 * Power(damping, k) < tol :: |trace| - 1 <= k + 1
  {
    hide Iterates, Proper, Power, Apart;
    forall k: nat | 2.0 * Power(damping, k) < tol ensures |trace| - 1 <= k + 1 {
      StopsByTolerance(adj, damping, trace, tol, k);
    }
  }

  lemma Shrinks(d: real, x: real, m: real)
    requires 0.0 <= d <= 1.0 && x >= 0.0 && m >= 1.0 && x * m <= 1.0
    ensures d * x * (m + (1.0 - d)) <= 1.0
  {
    var e := 1.0 - d;
    Product(e, m + e - 1.0);
    assert d * (m + e) == m - e * (m + e - 1.0);
    Scaled(x, d * (m + e), m);
    assert d * x * (m + e) == x * (d * (m + e));
  }

  lemma {:induction false} PowerSmall(damping: real, k: nat)
    requires 0.0 <= damping <= 1.0
    ensures 0.0 <= Power(damping, k) && Power(damping, k) * (1.0 + k as real * (1.0 - damping)) <= 1.0
  {
    if k > 0 {
      PowerSmall(damping, k - 1);
      var m := 1.0 + (k - 1) as real * (1.0 - damping);
      Product((k - 1) as real, 1.0 - damping);
      PlusOne(k - 1, 1.0 - damping);
      Product(damping, Power(damping, k - 1));
      Shrinks(damping, Power(damping, k - 1), m);
    }
  }

  /** Below a damping factor of one, `2 / (tol * (1 - damping))` iterations are enough. */
  lemma ToleranceReached(damping: real, tol: real, k: nat)
    requires 0.0 <= damping < 1.0 && tol > 0.0 && k as real * (1.0 - damping) * tol >= 2.0
    ensures 2.0 * Power(damping, k) < tol
  {
    PowerSmall(damping, k);
    var x, m := Power(damping, k), 1.0 + k as real * (1.0 - damping);
    Product(k as real, 1.0 - damping);
    assert m * tol == tol + k as real * (1.0 - damping) * tol;
    if 2.0 * x >= tol {
      Scaled(m, tol, 2.0 * x);
    }
  }

  // ------------------------------------------------------------------ the algorithm

  /** `new` holds what the first `i` nodes and the first `e` entries of node `i` give. */
  ghost predicate Given(adj: Adj, damping: real, pr: seq<real>, new_: seq<real>, i: nat, e: nat) {
    && |new_| == |adj| && i <= |adj| && (i < |adj| ==> e <= |adj[i]|) && (i == |adj| ==> e == 0)
    && forall j: nat | j < |adj| :: GivenTo(adj, damping, pr, new_, i, e, j)
  }

  ghost predicate GivenTo(adj: Adj, damping: real, pr: seq<real>, new_: seq<real>, i: nat, e: nat, j: nat)
    requires j < |adj| == |new_| && (i < |adj| ==> e <= |adj[i]|)
  {
    new_[j] == (1.0 - damping) / |adj| as real + Sum(i, FlowTo(adj, damping, pr, j))
             + if i < |adj| then Count(adj[i][..e], j) as real * Give(adj, damping, pr, i) else 0.0
  }

  lemma GivenStart(adj: Adj, damping: real, pr: seq<real>, new_: seq<real>)
    requires |adj| > 0 && |new_| == |adj| && forall j | 0 <= j < |adj| :: new_[j] == (1.0 - damping) / |adj| as real
    ensures Given(adj, damping, pr, new_, 0, 0)
  {
    forall j: nat | j < |adj| ensures GivenTo(adj, damping, pr, new_, 0, 0, j) {
      assert adj[0][..0] == [];
    }
  }

  lemma GivenEntry(adj: Adj, damping: real, pr: seq<real>, new_: seq<real>, i: nat, e: nat)
    requires Given(adj, damping, pr, new_, i, e) && i < |adj| && e < |adj[i]|
    ensures var j := adj[i][e];
      Given(adj, damping, pr, if j < |adj| then new_[j := new_[j] + Give(adj, damping, pr, i)] else new_, i, e + 1)
  {
    hide Sum, Give, Count;
    var x := adj[i][e];
    var new' := if x < |adj| then new_[x := new_[x] + Give(adj, damping, pr, i)] else new_;
    var e' := e + 1;
    forall j: nat | j < |adj| ensures GivenTo(adj, damping, pr, new', i, e', j) {
      assert GivenTo(adj, damping, pr, new_, i, e, j);
      Snoc(adj[i], e);
      CountPush(adj[i][..e], x, j);
      PlusOne(Count(adj[i][..e], j), Give(adj, damping, pr, i));
    }
  }

  lemma GivenNode(adj: Adj, damping: real, pr: seq<real>, new_: seq<real>, i: nat)
    requires i < |adj| && Given(adj, damping, pr, new_, i, |adj[i]|)
    ensures Given(adj, damping, pr, new_, i + 1, 0)
  {
    hide Give, Count;
    var i' := i + 1;
    forall j: nat | j < |adj| ensures GivenTo(adj, damping, pr, new_, i', 0, j) {
      assert GivenTo(adj, damping, pr, new_, i, |adj[i]|, j);
      assert adj[i][..|adj[i]|] == adj[i];
      assert FlowTo(adj, damping, pr, j)(i) == Count(adj[i], j) as real * Give(adj, damping, pr, i);
      if i' < |adj| {
        assert adj[i'][..0] == [];
        NoCount(j);
      }
    }
  }

  lemma NoCount(j: nat)
    ensures Count([], j) == 0
  {
  }

  method Spread(g: Csr, damping: real, pr: array<real>, new_: array<real>, i: nat)
    requires g.Valid() && pr.Length == new_.Length == g.NumNodes() && pr != new_ && i < g.NumNodes()
    requires Given(Lists(g), damping, pr[..], new_[..], i, 0)
    modifies new_
    ensures Given(Lists(g), damping, pr[..], new_[..], i + 1, 0)
  {
    hide Given;
    ghost var adj := Lists(g);
    var deg := g.Degree(i);
    if deg > 0 {
      var share := pr[i] / deg as real;
      assert damping * share == Give(adj, damping, pr[..], i);
      for e := 0 to deg
        invariant Given(adj, damping, pr[..], new_[..], i, e)
      {
        var j := g.Target(i, e);
        GivenEntry(adj, damping, pr[..], new_[..], i, e);
        if j < new_.Length {
          ghost var before := new_[..];
          new_[j] := new_[j] + damping * share;
          assert new_[..] == before[j := before[j] + Give(adj, damping, pr[..], i)];
        }
      }
    }
    GivenNode(adj, damping, pr[..], new_[..], i);
  }

  method DanglingMass(g: Csr, pr: array<real>) returns (mass: real)
    requires g.Valid() && pr.Length == g.NumNodes()
    ensures mass == Dangling(Lists(g), pr[..])
  {
    mass := 0.0;
    for i := 0 to pr.Length
      invariant mass == Sum(i, Stuck(Lists(g), pr[..]))
    {
      if g.Degree(i) == 0 { mass := mass + pr[i]; }
    }
  }

  method Difference(p: array<real>, q: array<real>) returns (diff: real)
    requires p.Length == q.Length
    ensures diff == Distance(p[..], q[..])
  {
    diff := 0.0;
    for i := 0 to p.Length
      invariant diff == Sum(i, Gap(p[..], q[..]))
    {
      diff := diff + Abs(p[i] - q[i]);
    }
  }

  method OneIteration(g: Csr, damping: real, pr: array<real>, new_: array<real>)
    requires g.Valid() && pr.Length == new_.Length == g.NumNodes() > 0 && pr != new_
    modifies new_
    ensures Iterate(Lists(g), damping, pr[..], new_[..])
  {
    hide Given, Iterate, Dangling;
    ghost var adj := Lists(g);
    var n := g.NumNodes();
    FillWith(new_, (1.0 - damping) / n as real);
    var mass := DanglingMass(g, pr);
    GivenStart(adj, damping, pr[..], new_[..]);
    for i := 0 to n
      invariant Given(adj, damping, pr[..], new_[..], i, 0)
    {
      Spread(g, damping, pr, new_, i);
    }
    ghost var given := new_[..];
    var extra := 0.0;
    if mass > 0.0 {
      extra := damping * mass / n as real;
      AddAll(new_, extra);
    }
    GivenAll(adj, damping, pr[..], given, new_[..], extra);
  }

  method FillWith(a: array<real>, x: real)
    modifies a
    ensures forall j | 0 <= j < a.Length :: a[..][j] == x
  {
    for j := 0 to a.Length
      invariant forall k | 0 <= k < j :: a[k] == x
    {
      a[j] := x;
    }
  }

  method AddAll(a: array<real>, x: real)
    modifies a
    ensures forall j | 0 <= j < a.Length :: a[..][j] == old(a[..])[j] + x
  {
    ghost var before := a[..];
    for j := 0 to a.Length
      invariant forall k | 0 <= k < a.Length :: a[k] == before[k] + if k < j then x else 0.0
    {
      a[j] := a[j] + x;
    }
  }

  lemma GivenAll(adj: Adj, damping: real, pr: seq<real>, given: seq<real>, new_: seq<real>, extra: real)
    requires |adj| > 0 && Given(adj, damping, pr, given, |adj|, 0) && extra == Extra(adj, damping, pr)
    requires |new_| == |adj| == |given| && forall j | 0 <= j < |adj| :: new_[j] == given[j] + extra
    ensures Iterate(adj, damping, pr, new_)
  {
    hide Sum, Extra;
    forall j: nat | j < |adj| ensures new_[j] == RankOf(adj, damping, pr, j) {
      assert GivenTo(adj, damping, pr, given, |adj|, 0, j);
    }
  }

  /** The source swaps the two buffers; so does this. */
  method ComputePageRank(g: Csr, damping: real, maxIter: nat, tol: real)
      returns (values: seq<real>, ghost trace: seq<seq<real>>)
    requires g.Valid()
    ensures g.NumNodes() == 0 ==> values == []
    ensures g.NumNodes() > 0 ==>
              && Iterates(Lists(g), damping, trace) && values == trace[|trace| - 1] && |trace| - 1 <= maxIter
              && (|trace| - 1 < maxIter ==> |trace| > 1 && Distance(trace[|trace| - 2], values) < tol)
              && forall k: nat | k < |trace| - 2 :: Apart(trace, tol, k)
    ensures g.NumNodes() > 0 && Proper(Lists(g), damping) ==>
              forall k: nat | 2.0 * Power(damping, k) < tol :: |trace| - 1 <= k + 1
  {
    hide Iterates, Iterate, Distance, Apart, Power, Proper;
    var n := g.NumNodes();
    trace := [];
    if n == 0 { return [], []; }
    var pr, new_ := new real[n](_ => 1.0 / n as real), new real[n](_ => 0.0);
    trace := [pr[..]];
    TraceStarts(Lists(g), damping, pr[..]);
    var iter, far := 0, true;
    while iter < maxIter && far
      invariant pr.Length == new_.Length == n && pr != new_ && fresh(pr) && fresh(new_) && iter <= maxIter
      invariant |trace| == iter + 1 && trace[iter] == pr[..] && Iterates(Lists(g), damping, trace)
      invariant forall k: nat | k < iter - 1 :: Apart(trace, tol, k)
      invariant iter > 0 ==> (far <==> Apart(trace, tol, iter - 1))
      invariant !far ==> iter > 0
      decreases maxIter - iter
    {
      OneIteration(g, damping, pr, new_);
      var diff := Difference(pr, new_);
      ghost var before := trace;
      trace := trace + [new_[..]];
      TraceGrows(Lists(g), damping, before, trace, tol);
      pr, new_ := new_, pr;
      iter, far := iter + 1, diff >= tol;
    }
    values := pr[..];
    if iter > 0 { LastStep(trace, tol); }
    if Proper(Lists(g), damping) {
      StopsAlways(Lists(g), damping, trace, tol);
    }
  }

  lemma TraceStarts(adj: Adj, damping: real, p: seq<real>)
    requires Uniform(p, |adj|)
    ensures Iterates(adj, damping, [p])
  {
  }

  lemma LastStep(trace: seq<seq<real>>, tol: real)
    requires |trace| > 1
    ensures Apart(trace, tol, |trace| - 2) <==> Distance(trace[|trace| - 2], trace[|trace| - 1]) >= tol
  {
  }

  /** The `k`-th step was at least `tol` long. */
  ghost predicate Apart(trace: seq<seq<real>>, tol: real, k: nat) {
    k + 1 < |trace| && Distance(trace[k], trace[k + 1]) >= tol
  }

  lemma TraceGrows(adj: Adj, damping: real, trace: seq<seq<real>>, trace': seq<seq<real>>, tol: real)
    requires |trace| > 0 && Iterates(adj, damping, trace) && |trace'| == |trace| + 1 && trace'[..|trace|] == trace
    requires Iterate(adj, damping, trace[|trace| - 1], trace'[|trace|])
    ensures Iterates(adj, damping, trace')
    ensures forall k: nat | k < |trace| - 1 :: Apart(trace, tol, k) <==> Apart(trace', tol, k)
    ensures Apart(trace', tol, |trace| - 1) <==> Distance(trace[|trace| - 1], trace'[|trace|]) >= tol
  {
    hide Iterate, Distance;
    assert forall k | 0 <= k < |trace| :: trace'[k] == trace[k];
    forall k: nat | k < |trace'| - 1 ensures IterateAt(adj, damping, trace', k) {
      if k < |trace| - 1 { assert IterateAt(adj, damping, trace, k); }
    }
  }
}
