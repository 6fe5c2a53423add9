/** The modularity by pairs of nodes, as Newman defines it, and weighted degrees as row
    sums. */
module Newman {
  import opened Graphs
  import opened Buckets
  import opened ListSums
  import opened Sums
  import opened Modularity
  import opened Louvain

  /** A node's weighted degree is the sum of its row of the matrix. */
  lemma DegreeIsRow(adj: Adj, weight: Weight, v: nat)
    requires v < |adj|
    ensures DegreeOf(adj, weight)(v) == Sum(|adj|, w => MatrixOf(adj, weight)(v, w))
  {
    hide Sum, EntrySum, Count;
    var f, g := WeightFrom(weight, v), (w: int) => PairWeight(adj, weight, v, w);
    EntrySumNodes(adj[v], |adj|, f, g);
    forall w | 0 <= w < |adj| ensures g(w) == MatrixOf(adj, weight)(v, w) { }
    SumEq(|adj|, g, w => MatrixOf(adj, weight)(v, w));
  }

  /** What the pair adds if its nodes are together: its share of the weight, less the
      product of the nodes' shares. */
  ghost function Bond(a: Matrix, k: int -> real, m: real, v: int, w: int): real
    requires m != 0.0
  {
    a(v, w) / (2.0 * m) - (k(v) / (2.0 * m)) * (k(w) / (2.0 * m))
  }

  ghost predicate Together(comm: seq<nat>, v: int, w: int) {
    0 <= v < |comm| && 0 <= w < |comm| && comm[v] == comm[w]
  }

  ghost function PairTerm(a: Matrix, k: int -> real, m: real, comm: seq<nat>, v: int, w: int): real
    requires m != 0.0
  {
    if Together(comm, v, w) then Bond(a, k, m, v, w) else 0.0
  }

  /** The sum over all ordered pairs of nodes of one community. */
  ghost function ByPairs(a: Matrix, k: int -> real, m: real, comm: seq<nat>): real
    requires m != 0.0
  {
    Sum(|comm|, v => Sum(|comm|, w => PairTerm(a, k, m, comm, v, w)))
  }

  // ------------------------------------------------------------------ one community

  ghost function InTerm(a: Matrix, k: int -> real, m: real, comm: seq<nat>, c: nat, v: int, w: int): real
    requires m != 0.0
  {
    Part(comm, c, v, Part(comm, c, w, Bond(a, k, m, v, w)))
  }

  lemma RowPoint(a: Matrix, k: int -> real, m: real, comm: seq<nat>, c: nat, v: int, w: int)
    requires m != 0.0
    ensures var r, kv := 1.0 / (2.0 * m), k(v) / (2.0 * m);
      Part(comm, c, w, Bond(a, k, m, v, w)) == r * Part(comm, c, w, a(v, w)) + (-kv * r) * Part(comm, c, w, k(w))
  {
    ScaleOver(a(v, w), m);
    ScaleOver(k(w), m);
    BondSplit(1.0 / (2.0 * m), a(v, w), k(v) / (2.0 * m), k(w));
  }

  lemma RowOf(a: Matrix, k: int -> real, m: real, comm: seq<nat>, c: nat, v: int)
    requires m != 0.0
    ensures Sum(|comm|, w => Part(comm, c, w, Bond(a, k, m, v, w)))
      == To(a, comm, v, c) / (2.0 * m) - (k(v) / (2.0 * m)) * (Tot(k, comm, c) / (2.0 * m))
  {
    hide Sum, Part, Bond;
    var n, r := |comm|, 1.0 / (2.0 * m);
    var kv := k(v) / (2.0 * m);
    var f, g := (w: int) => Part(comm, c, w, a(v, w)), (w: int) => Part(comm, c, w, k(w));
    var rf, rg := (w: int) => r * f(w), (w: int) => (-kv * r) * g(w);
    var h := (w: int) => Part(comm, c, w, Bond(a, k, m, v, w));
    forall w | 0 <= w < n ensures h(w) == rf(w) + rg(w) {
      RowPoint(a, k, m, comm, c, v, w);
    }
    SumScale(n, r, f, rf);
    SumScale(n, -kv * r, g, rg);
    SumAdd(n, rf, rg, h);
    SumEq(n, h, w => Part(comm, c, w, Bond(a, k, m, v, w)));
    SumEq(n, f, w => Part(comm, c, w, a(v, w)));
    SumEq(n, g, w => Part(comm, c, w, k(w)));
    hide To, Tot;
    RowScaled(To(a, comm, v, c), Tot(k, comm, c), m, kv);
  }

  lemma RowScaled(to: real, tot: real, m: real, kv: real)
    requires m != 0.0
    ensures var r := 1.0 / (2.0 * m); r * to + (-kv * r) * tot == to / (2.0 * m) - kv * (tot / (2.0 * m))
  {
    ScaleOver(to, m);
    ScaleOver(tot, m);
    BondSplit(1.0 / (2.0 * m), to, kv, tot);
  }

  lemma BondSplit(r: real, x: real, kv: real, y: real)
    ensures r * x - kv * (r * y) == r * x + (-kv * r) * y
  {
  }

  lemma ShareByPairs(a: Matrix, k: int -> real, m: real, comm: seq<nat>, c: nat)
    requires m != 0.0
    ensures QualityOf(a, k, m, comm, c) == Sum(|comm|, v => Sum(|comm|, w => InTerm(a, k, m, comm, c, v, w)))
  {
    hide Sum, To, Part, InTerm, Share;
    var n, r, tot := |comm|, 1.0 / (2.0 * m), Tot(k, comm, c) / (2.0 * m);
    var f, g := (v: int) => Part(comm, c, v, To(a, comm, v, c)), (v: int) => Part(comm, c, v, k(v));
    var rf, rg := (v: int) => r * f(v), (v: int) => (-tot * r) * g(v);
    var rows := (v: int) => Sum(n, w => InTerm(a, k, m, comm, c, v, w));
    forall v | 0 <= v < n ensures rows(v) == rf(v) + rg(v) {
      RowTerm(a, k, m, comm, c, v);
    }
    SumScale(n, r, f, rf);
    SumScale(n, -tot * r, g, rg);
    SumAdd(n, rf, rg, rows);
    SumEq(n, rows, v => Sum(n, w => InTerm(a, k, m, comm, c, v, w)));
    SumEq(n, f, v => Part(comm, c, v, To(a, comm, v, c)));
    SumEq(n, g, v => Part(comm, c, v, k(v)));
    hide Inside, Tot;
    ShareScaled(Inside(a, comm, c), Tot(k, comm, c), m);
  }

  lemma ShareScaled(inside: real, tot: real, m: real)
    requires m != 0.0
    ensures var r, t := 1.0 / (2.0 * m), tot / (2.0 * m); Share(inside, tot, m) == r * inside + (-t * r) * tot
  {
    hide Share;
    ScaleOver(inside, m);
    ScaleOver(tot, m);
    ShareSplit(inside, tot, m, 1.0 / (2.0 * m), tot / (2.0 * m));
  }

  lemma RowTerm(a: Matrix, k: int -> real, m: real, comm: seq<nat>, c: nat, v: int)
    requires m != 0.0 && 0 <= v < |comm|
    ensures var r, tot := 1.0 / (2.0 * m), Tot(k, comm, c) / (2.0 * m);
      Sum(|comm|, w => InTerm(a, k, m, comm, c, v, w))
        == r * Part(comm, c, v, To(a, comm, v, c)) + (-tot * r) * Part(comm, c, v, k(v))
  {
    hide Sum, To, Tot, InTerm, Bond;
    var r, tot := 1.0 / (2.0 * m), Tot(k, comm, c) / (2.0 * m);
    RowOf(a, k, m, comm, c, v);
    InnerRow(a, k, m, comm, c, v);
    ScaleOver(To(a, comm, v, c), m);
    ScaleOver(k(v), m);
    RowSplit(r, To(a, comm, v, c), tot, k(v));
  }

  lemma InnerRow(a: Matrix, k: int -> real, m: real, comm: seq<nat>, c: nat, v: int)
    requires m != 0.0 && 0 <= v < |comm|
    ensures Sum(|comm|, w => InTerm(a, k, m, comm, c, v, w))
      == if comm[v] == c then Sum(|comm|, w => Part(comm, c, w, Bond(a, k, m, v, w))) else 0.0
  {
    hide Sum;
    var n := |comm|;
    if comm[v] == c {
      SumEq(n, w => InTerm(a, k, m, comm, c, v, w), w => Part(comm, c, w, Bond(a, k, m, v, w)));
    } else {
      SumZero(n, w => InTerm(a, k, m, comm, c, v, w));
    }
  }

  lemma RowSplit(r: real, x: real, tot: real, kv: real)
    ensures r * x - (r * kv) * tot == r * x + (-tot * r) * kv
  {
  }

  lemma ShareSplit(inside: real, tot: real, m: real, r: real, t: real)
    requires m != 0.0 && r == 1.0 / (2.0 * m) && t == tot / (2.0 * m)
    requires r * inside == inside / (2.0 * m) && r * tot == t
    ensures Share(inside, tot, m) == r * inside + (-t * r) * tot
  {
    HalfOfM(inside, m);
    assert (-t * r) * tot == -(t * (r * tot));
  }

  lemma HalfOfM(x: real, m: real)
    requires m != 0.0
    ensures x / 2.0 / m == x / (2.0 * m)
  {
    var r := 1.0 / m;
    assert r * m == 1.0;
    Over(x / 2.0, m, r);
    Over(x, 2.0 * m, r / 2.0);
  }

  // ------------------------------------------------------------------ all communities

  lemma PairOnce(a: Matrix, k: int -> real, m: real, comm: seq<nat>, v: int, w: int)
    requires m != 0.0 && Nodes(comm, |comm|) && 0 <= v < |comm| && 0 <= w < |comm|
    ensures Sum(|comm|, c => if c < 0 then 0.0 else InTerm(a, k, m, comm, c, v, w)) == PairTerm(a, k, m, comm, v, w)
  {
    hide Sum, Bond;
    var f := (c: int) => if c < 0 then 0.0 else InTerm(a, k, m, comm, c, v, w);
    if comm[v] == comm[w] {
      SumSingle(|comm|, comm[v], f);
    } else {
      SumZero(|comm|, f);
    }
    SumEq(|comm|, f, c => if c < 0 then 0.0 else InTerm(a, k, m, comm, c, v, w));
  }

  ghost function Term(a: Matrix, k: int -> real, m: real, comm: seq<nat>, c: int, v: int, w: int): real
    requires m != 0.0
  {
    if c < 0 then 0.0 else InTerm(a, k, m, comm, c, v, w)
  }

  /** For one node: over communities and partners in either order. */
  lemma NodePairs(a: Matrix, k: int -> real, m: real, comm: seq<nat>, v: int)
    requires m != 0.0 && Nodes(comm, |comm|) && 0 <= v < |comm|
    ensures Sum(|comm|, c => Sum(|comm|, w => Term(a, k, m, comm, c, v, w)))
      == Sum(|comm|, w => PairTerm(a, k, m, comm, v, w))
  {
    hide Sum, InTerm, PairTerm;
    var n := |comm|;
    var t := (c: int, w: int) => Term(a, k, m, comm, c, v, w);
    SumSwap(n, n, t);
    var p, q := (c: int) => Sum(n, w => t(c, w)), (c: int) => Sum(n, w => Term(a, k, m, comm, c, v, w));
    forall c | 0 <= c < n ensures p(c) == q(c) {
      SumEq(n, w => t(c, w), w => Term(a, k, m, comm, c, v, w));
    }
    SumEq(n, p, q);
    SumEq(n, p, c => Sum(n, w => t(c, w)));
    SumEq(n, q, c => Sum(n, w => Term(a, k, m, comm, c, v, w)));
    forall w | 0 <= w < n ensures Sum(n, c => t(c, w)) == PairTerm(a, k, m, comm, v, w) {
      PairOnce(a, k, m, comm, v, w);
      SumEq(n, c => t(c, w), c => if c < 0 then 0.0 else InTerm(a, k, m, comm, c, v, w));
    }
    SumEq(n, w => Sum(n, c => t(c, w)), w => PairTerm(a, k, m, comm, v, w));
  }

  /** The quality is the modularity: over all ordered pairs of nodes of one community, the
      pair's share of the weight less the product of its nodes' shares. */
  lemma QualityByPairs(a: Matrix, k: int -> real, m: real, comm: seq<nat>)
    requires m != 0.0 && Nodes(comm, |comm|)
    ensures Quality(a, k, m, comm) == ByPairs(a, k, m, comm)
  {
    hide Sum, InTerm, PairTerm, QualityOf;
    var n := |comm|;
    var t := (c: int, v: int) => Sum(n, w => Term(a, k, m, comm, c, v, w));
    SumSwap(n, n, t);
    forall c | 0 <= c < n ensures QualityOf(a, k, m, comm, c) == Sum(n, v => t(c, v)) {
      ShareByPairs(a, k, m, comm, c);
      forall v | 0 <= v < n ensures t(c, v) == Sum(n, w => InTerm(a, k, m, comm, c, v, w)) {
        SumEq(n, w => Term(a, k, m, comm, c, v, w), w => InTerm(a, k, m, comm, c, v, w));
      }
      SumEq(n, v => t(c, v), v => Sum(n, w => InTerm(a, k, m, comm, c, v, w)));
    }
    SumEq(n, c => QualityOf(a, k, m, comm, c), c => Sum(n, v => t(c, v)));
    var p, q := (v: int) => Sum(n, c => t(c, v)), (v: int) => Sum(n, w => PairTerm(a, k, m, comm, v, w));
    forall v | 0 <= v < n ensures p(v) == q(v) {
      NodePairs(a, k, m, comm, v);
      SumEq(n, c => t(c, v), c => Sum(n, w => Term(a, k, m, comm, c, v, w)));
    }
    SumEq(n, p, q);
    SumEq(n, p, v => Sum(n, c => t(c, v)));
    SumEq(n, q, v => Sum(n, w => PairTerm(a, k, m, comm, v, w)));
  }
}
