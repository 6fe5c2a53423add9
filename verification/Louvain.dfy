/** Louvain community detection (akar-algo `compute_louvain_weighted`), over the reals. */
module Louvain {
  import opened Graphs
  import opened ListSums
  import opened Buckets
  import opened Sorting
  import opened Sums
  import opened Modularity
  import opened Numbers
  import Digits
  import opened Relabelling

  type Weight = (nat, nat) -> real

  // ------------------------------------------------------------------ the weighted graph

  ghost function PairWeight(adj: Adj, weight: Weight, v: int, w: int): real {
    if 0 <= v < |adj| && 0 <= w < |adj| then Count(adj[v], w) as real * weight(v, w) else 0.0
  }

  ghost function MatrixOf(adj: Adj, weight: Weight): Matrix {
    (v, w) => PairWeight(adj, weight, v, w)
  }

  ghost function WeightFrom(weight: Weight, v: nat): int -> real {
    w => if w < 0 then 0.0 else weight(v, w)
  }

  ghost function Strength(adj: Adj, weight: Weight, v: int): real {
    if 0 <= v < |adj| then EntrySum(adj[v], |adj|, WeightFrom(weight, v)) else 0.0
  }

  ghost function DegreeOf(adj: Adj, weight: Weight): int -> real {
    v => Strength(adj, weight, v)
  }

  /** No loops, as many entries one way as the other, equal weights both ways. */
  ghost predicate Undirected(adj: Adj, weight: Weight) {
    && (forall v, w | 0 <= v < |adj| && 0 <= w < |adj| :: Count(adj[v], w) == Count(adj[w], v))
    && (forall v, w | 0 <= v < |adj| && 0 <= w < |adj| :: weight(v, w) == weight(w, v))
    && (forall v | 0 <= v < |adj| :: Count(adj[v], v) == 0)
  }

  lemma UndirectedMatrix(adj: Adj, weight: Weight)
    requires Undirected(adj, weight)
    ensures Symmetric(MatrixOf(adj, weight), |adj|)
  {
    var a := MatrixOf(adj, weight);
    forall v, w | 0 <= v < |adj| && 0 <= w < |adj| ensures a(v, w) == a(w, v) {
      assert Count(adj[v], w) == Count(adj[w], v) && weight(v, w) == weight(w, v);
    }
    forall v | 0 <= v < |adj| ensures a(v, v) == 0.0 {
      assert Count(adj[v], v) == 0;
    }
  }

  /** The weight of the entries of `v` that lead into community `c`. */
  ghost function LinkFrom(weight: Weight, comm: seq<nat>, v: nat, c: nat): int -> real {
    w => Part(comm, c, w, if w < 0 then 0.0 else weight(v, w))
  }

  ghost function Links(adj: Adj, weight: Weight, comm: seq<nat>, v: nat, c: nat, i: nat): real
    requires v < |adj| && i <= |adj[v]|
  {
    EntrySum(adj[v][..i], |adj|, LinkFrom(weight, comm, v, c))
  }

  lemma LinksNone(adj: Adj, weight: Weight, comm: seq<nat>, v: nat, c: nat)
    requires v < |adj|
    ensures Links(adj, weight, comm, v, c, 0) == 0.0
  {
  }

  lemma LinksNext(adj: Adj, weight: Weight, comm: seq<nat>, v: nat, c: nat, i: nat)
    requires v < |adj| == |comm| && i < |adj[v]|
    ensures Links(adj, weight, comm, v, c, i + 1) == Links(adj, weight, comm, v, c, i)
            + if adj[v][i] < |adj| && comm[adj[v][i]] == c then weight(v, adj[v][i]) else 0.0
  {
    var f := LinkFrom(weight, comm, v, c);
    EntrySumNext(adj[v], i, |adj|, f);
    var w := adj[v][i];
    assert f(w) == Part(comm, c, w, weight(v, w));
  }

  lemma LinksAll(adj: Adj, weight: Weight, comm: seq<nat>, v: nat, c: nat)
    requires v < |adj| == |comm|
    ensures Links(adj, weight, comm, v, c, |adj[v]|) == To(MatrixOf(adj, weight), comm, v, c)
  {
    hide Sum, EntrySum;
    var n, a, f := |adj|, MatrixOf(adj, weight), LinkFrom(weight, comm, v, c);
    var g := (w: int) => Part(comm, c, w, a(v, w));
    forall w | 0 <= w < n ensures g(w) == Count(adj[v], w) as real * f(w) {
      assert a(v, w) == Count(adj[v], w) as real * weight(v, w);
      assert f(w) == Part(comm, c, w, weight(v, w));
    }
    EntrySumNodes(adj[v], n, f, g);
    SumEq(n, g, w => Part(comm, c, w, a(v, w)));
    assert adj[v][..|adj[v]|] == adj[v];
  }

  /** Entry `j` of `v` leads into community `c`. */
  ghost predicate LeadsTo(adj: Adj, comm: seq<nat>, v: nat, c: nat, j: nat) {
    v < |adj| == |comm| && j < |adj[v]| && adj[v][j] < |adj| && comm[adj[v][j]] == c
  }

  /** One of the first `i` entries of `v` leads into community `c`. */
  ghost predicate Adjacent(adj: Adj, comm: seq<nat>, v: nat, c: nat, i: nat) {
    exists j: nat | j < i :: LeadsTo(adj, comm, v, c, j)
  }

  lemma AdjacentNext(adj: Adj, comm: seq<nat>, v: nat, c: nat, i: nat)
    requires v < |adj| == |comm| && i < |adj[v]|
    ensures Adjacent(adj, comm, v, c, i + 1) <==> Adjacent(adj, comm, v, c, i) || LeadsTo(adj, comm, v, c, i)
  {
    if j: nat :| j < i && LeadsTo(adj, comm, v, c, j) {
      assert j < i + 1;
    }
  }

  // ------------------------------------------------------------------ degrees

  method NodeDegree(g: Csr, weight: Weight, v: nat) returns (deg: real)
    requires g.Valid() && v < g.NumNodes()
    ensures deg == Strength(Lists(g), weight, v)
  {
    ghost var adj := Lists(g);
    ghost var f := WeightFrom(weight, v);
    deg := 0.0;
    for j := 0 to g.Degree(v)
      invariant deg == EntrySum(adj[v][..j], |adj|, f)
    {
      EntrySumNext(adj[v], j, |adj|, f);
      var w := g.Target(v, j);
      if w < g.NumNodes() {
        deg := deg + weight(v, w);
      }
    }
    assert adj[v][..|adj[v]|] == adj[v];
  }

  method Degrees(g: Csr, weight: Weight) returns (degree: array<real>, sum: real)
    requires g.Valid()
    ensures fresh(degree) && degree.Length == g.NumNodes()
    ensures forall v | 0 <= v < degree.Length :: degree[v] == Strength(Lists(g), weight, v)
    ensures sum == Sum(g.NumNodes(), DegreeOf(Lists(g), weight))
  {
    hide Strength;
    ghost var k := DegreeOf(Lists(g), weight);
    degree := new real[g.NumNodes()];
    sum := 0.0;
    for v := 0 to g.NumNodes()
      invariant forall u | 0 <= u < v :: degree[u] == Strength(Lists(g), weight, u)
      invariant sum == Sum(v, k)
    {
      var deg := NodeDegree(g, weight, v);
      degree[v] := deg;
      sum := sum + deg;
    }
  }

  // ------------------------------------------------------------------ the books

  /** What `sigma_tot` and `sigma_in` hold for the communities `comm`. */
  ghost predicate Books(adj: Adj, weight: Weight, comm: seq<nat>, tot: seq<real>, inside: seq<real>) {
    && |adj| == |comm| == |tot| == |inside|
    && (forall v | 0 <= v < |comm| :: comm[v] < |comm|)
    && (forall c | 0 <= c < |comm| :: tot[c] == Tot(DegreeOf(adj, weight), comm, c))
    && (Undirected(adj, weight) ==> forall c | 0 <= c < |comm| :: inside[c] == Inside(MatrixOf(adj, weight), comm, c))
  }

  /** Every node alone. */
  lemma BooksStart(adj: Adj, weight: Weight, comm: seq<nat>, tot: seq<real>, inside: seq<real>)
    requires |adj| == |comm| == |tot| == |inside|
    requires forall v | 0 <= v < |comm| :: comm[v] == v && tot[v] == Strength(adj, weight, v) && inside[v] == 0.0
    ensures Books(adj, weight, comm, tot, inside)
  {
    hide Sum, Strength, Undirected, PairWeight;
    var n, a, k := |adj|, MatrixOf(adj, weight), DegreeOf(adj, weight);
    forall c | 0 <= c < n ensures tot[c] == Tot(k, comm, c) {
      var f := (v: int) => Part(comm, c, v, k(v));
      forall v | 0 <= v < n && v != c ensures f(v) == 0.0 { assert Part(comm, c, v, k(v)) == 0.0; }
      SumSingle(n, c, f);
      assert f(c) == Part(comm, c, c, k(c));
    }
    if Undirected(adj, weight) {
      UndirectedMatrix(adj, weight);
      forall c | 0 <= c < n ensures inside[c] == Inside(a, comm, c) {
        AloneInside(a, comm, c);
      }
    }
  }

  lemma AloneInside(a: Matrix, comm: seq<nat>, c: nat)
    requires c < |comm| && Symmetric(a, |comm|) && forall v | 0 <= v < |comm| :: comm[v] == v
    ensures Inside(a, comm, c) == 0.0
  {
    hide Sum;
    var n := |comm|;
    var f := (w: int) => Part(comm, c, w, a(c, w));
    forall w | 0 <= w < n ensures f(w) == 0.0 { assert Part(comm, c, w, a(c, w)) == 0.0; }
    SumZero(n, f);
    SumEq(n, f, w => Part(comm, c, w, a(c, w)));
    assert To(a, comm, c, c) == 0.0;
    hide To;
    var h := (v: int) => Part(comm, c, v, To(a, comm, v, c));
    forall v | 0 <= v < n ensures h(v) == 0.0 { assert Part(comm, c, v, To(a, comm, v, c)) == 0.0; }
    SumZero(n, h);
  }

  /** What the four updates of a move do to the books. */
  lemma BooksMove(adj: Adj, weight: Weight, comm: seq<nat>, tot: seq<real>, inside: seq<real>, v: nat, d: nat,
                  cur: real, new_: real)
    requires Books(adj, weight, comm, tot, inside) && v < |comm| && d < |comm| && comm[v] != d
    requires cur == To(MatrixOf(adj, weight), comm, v, comm[v]) && new_ == To(MatrixOf(adj, weight), comm, v, d)
    ensures var c, k := comm[v], Strength(adj, weight, v);
      Books(adj, weight, comm[v := d],
            tot[c := tot[c] - k][d := tot[d] + k],
            inside[c := inside[c] - 2.0 * cur][d := inside[d] + 2.0 * new_])
  {
    hide To, Tot, Inside, Strength, Undirected, PairWeight;
    var a, deg := MatrixOf(adj, weight), DegreeOf(adj, weight);
    var c, k, comm' := comm[v], Strength(adj, weight, v), comm[v := d];
    var tot' := tot[c := tot[c] - k][d := tot[d] + k];
    var inside' := inside[c := inside[c] - 2.0 * cur][d := inside[d] + 2.0 * new_];
    assert deg(v) == k;
    forall x | 0 <= x < |comm| ensures tot'[x] == Tot(deg, comm', x) {
      TotMove(deg, comm, v, d, x);
    }
    if Undirected(adj, weight) {
      UndirectedMatrix(adj, weight);
      InsideLeft(a, comm, v, d);
      InsideJoined(a, comm, v, d);
      forall x | 0 <= x < |comm| ensures inside'[x] == Inside(a, comm', x) {
        if x != c && x != d { InsideOther(a, comm, v, d, x); }
      }
    }
  }

  /** `v`'s weight into its own community and into the one it joins. */
  method LinkSums(g: Csr, weight: Weight, community: array<nat>, v: nat, d: nat) returns (cur: real, new_: real)
    requires g.Valid() && community.Length == g.NumNodes() && v < community.Length && community[v] != d
    ensures cur == To(MatrixOf(Lists(g), weight), community[..], v, community[v])
    ensures new_ == To(MatrixOf(Lists(g), weight), community[..], v, d)
  {
    hide Links, To, PairWeight;
    ghost var adj, comm := Lists(g), community[..];
    var c := community[v];
    cur, new_ := 0.0, 0.0;
    LinksNone(adj, weight, comm, v, c);
    LinksNone(adj, weight, comm, v, d);
    for j := 0 to g.Degree(v)
      invariant cur == Links(adj, weight, comm, v, c, j) && new_ == Links(adj, weight, comm, v, d, j)
    {
      LinksNext(adj, weight, comm, v, c, j);
      LinksNext(adj, weight, comm, v, d, j);
      var w := g.Target(v, j);
      if w < g.NumNodes() {
        if community[w] == c {
          cur := cur + weight(v, w);
        } else if community[w] == d {
          new_ := new_ + weight(v, w);
        }
      }
    }
    LinksAll(adj, weight, comm, v, c);
    LinksAll(adj, weight, comm, v, d);
  }

  method ApplyMove(g: Csr, weight: Weight, degree: array<real>, community: array<nat>, sigmaTot: array<real>,
                   sigmaIn: array<real>, v: nat, d: nat)
    requires g.Valid() && degree.Length == community.Length == sigmaTot.Length == sigmaIn.Length == g.NumNodes()
    requires sigmaTot != sigmaIn && degree != sigmaTot && degree != sigmaIn
    requires Books(Lists(g), weight, community[..], sigmaTot[..], sigmaIn[..])
    requires v < community.Length && d < community.Length && community[v] != d
    requires degree[v] == Strength(Lists(g), weight, v)
    modifies community, sigmaTot, sigmaIn
    ensures community[..] == old(community[..])[v := d]
    ensures Books(Lists(g), weight, community[..], sigmaTot[..], sigmaIn[..])
  {
    hide Books, To, Strength, PairWeight;
    var c := community[v];
    assert c < community.Length by { BooksBasics(Lists(g), weight, community[..], sigmaTot[..], sigmaIn[..], v); }
    var cur, new_ := LinkSums(g, weight, community, v, d);
    BooksMove(Lists(g), weight, community[..], sigmaTot[..], sigmaIn[..], v, d, cur, new_);
    sigmaIn[c] := sigmaIn[c] - 2.0 * cur;
    sigmaTot[c] := sigmaTot[c] - degree[v];
    sigmaIn[d] := sigmaIn[d] + 2.0 * new_;
    sigmaTot[d] := sigmaTot[d] + degree[v];
    community[v] := d;
    ghost var tot, inside, k := old(sigmaTot[..]), old(sigmaIn[..]), Strength(Lists(g), weight, v);
    assert sigmaTot[..] == tot[c := tot[c] - k][d := tot[d] + k];
    assert sigmaIn[..] == inside[c := inside[c] - 2.0 * cur][d := inside[d] + 2.0 * new_];
  }

  lemma BooksBasics(adj: Adj, weight: Weight, comm: seq<nat>, tot: seq<real>, inside: seq<real>, v: nat)
    requires Books(adj, weight, comm, tot, inside) && v < |comm|
    ensures comm[v] < |comm| == |adj| == |tot| == |inside|
  {
  }

  // ------------------------------------------------------------------ the best move of a node

  /** Generation stamps tell which slots of `scratch` belong to the current node. */
  ghost predicate Gathered(adj: Adj, weight: Weight, comm: seq<nat>, v: nat, j: nat,
                           scratch: seq<real>, stamp: seq<nat>, generation: nat, touched: seq<nat>)
  {
    && v < |adj| == |comm| == |scratch| == |stamp| && j <= |adj[v]|
    && (forall c <- touched :: c < |comm|)
    && (forall c | 0 <= c < |comm| ::
          && stamp[c] <= generation
          && (stamp[c] == generation <==> Adjacent(adj, comm, v, c, j))
          && (stamp[c] == generation <==> c in touched)
          && Links(adj, weight, comm, v, c, j) == if stamp[c] == generation then scratch[c] else 0.0)
  }

  lemma GatheredStart(adj: Adj, weight: Weight, comm: seq<nat>, v: nat, scratch: seq<real>, stamp: seq<nat>,
                      generation: nat)
    requires v < |adj| == |comm| == |scratch| == |stamp| && forall c | 0 <= c < |stamp| :: stamp[c] < generation
    ensures Gathered(adj, weight, comm, v, 0, scratch, stamp, generation, [])
  {
    hide Links;
    forall c | 0 <= c < |comm| ensures Links(adj, weight, comm, v, c, 0) == 0.0 {
      LinksNone(adj, weight, comm, v, c);
    }
  }

  lemma GatheredOutside(adj: Adj, weight: Weight, comm: seq<nat>, v: nat, j: nat,
                        scratch: seq<real>, stamp: seq<nat>, generation: nat, touched: seq<nat>)
    requires Gathered(adj, weight, comm, v, j, scratch, stamp, generation, touched) && j < |adj[v]|
    requires adj[v][j] >= |adj|
    ensures Gathered(adj, weight, comm, v, j + 1, scratch, stamp, generation, touched)
  {
    hide Links, Adjacent;
    forall c | 0 <= c < |comm|
      ensures Links(adj, weight, comm, v, c, j + 1) == Links(adj, weight, comm, v, c, j)
      ensures Adjacent(adj, comm, v, c, j + 1) <==> Adjacent(adj, comm, v, c, j)
    {
      LinksNext(adj, weight, comm, v, c, j);
      AdjacentNext(adj, comm, v, c, j);
    }
  }

  lemma GatheredNext(adj: Adj, weight: Weight, comm: seq<nat>, v: nat, j: nat,
                     scratch: seq<real>, stamp: seq<nat>, generation: nat, touched: seq<nat>)
    requires Gathered(adj, weight, comm, v, j, scratch, stamp, generation, touched)
    requires j < |adj[v]| && adj[v][j] < |adj| && comm[adj[v][j]] < |comm|
    ensures var w := adj[v][j]; var c := comm[w];
      Gathered(adj, weight, comm, v, j + 1,
               scratch[c := (if stamp[c] == generation then scratch[c] else 0.0) + weight(v, w)],
               stamp[c := generation], generation, if stamp[c] == generation then touched else touched + [c])
  {
    hide Links, Adjacent;
    forall c | 0 <= c < |comm|
      ensures Links(adj, weight, comm, v, c, j + 1)
              == Links(adj, weight, comm, v, c, j) + if c == comm[adj[v][j]] then weight(v, adj[v][j]) else 0.0
      ensures Adjacent(adj, comm, v, c, j + 1) <==> Adjacent(adj, comm, v, c, j) || c == comm[adj[v][j]]
    {
      LinksNext(adj, weight, comm, v, c, j);
      AdjacentNext(adj, comm, v, c, j);
    }
  }

  method Gather(g: Csr, weight: Weight, community: array<nat>, scratch: array<real>, stamp: array<nat>,
                generation: nat, v: nat)
    returns (touched: seq<nat>)
    requires g.Valid() && v < g.NumNodes() == community.Length == scratch.Length == stamp.Length
    requires community != stamp && forall c | 0 <= c < stamp.Length :: stamp[c] < generation
    requires forall u | 0 <= u < community.Length :: community[u] < community.Length
    modifies scratch, stamp
    ensures Gathered(Lists(g), weight, community[..], v, g.Degree(v), scratch[..], stamp[..], generation, touched)
  {
    hide Gathered;
    ghost var adj, comm := Lists(g), community[..];
    touched := [];
    GatheredStart(adj, weight, comm, v, scratch[..], stamp[..], generation);
    for j := 0 to g.Degree(v)
      invariant community[..] == comm
      invariant Gathered(adj, weight, comm, v, j, scratch[..], stamp[..], generation, touched)
    {
      var w := g.Target(v, j);
      ghost var scratch0, stamp0 := scratch[..], stamp[..];
      if w < g.NumNodes() {
        GatheredNext(adj, weight, comm, v, j, scratch0, stamp0, generation, touched);
        var c := community[w];
        if stamp[c] != generation {
          stamp[c] := generation;
          scratch[c] := 0.0;
          touched := touched + [c];
        }
        scratch[c] := scratch[c] + weight(v, w);
        assert stamp[..] == stamp0[c := generation];
        assert scratch[..] == scratch0[c := (if stamp0[c] == generation then scratch0[c] else 0.0) + weight(v, w)];
      } else {
        GatheredOutside(adj, weight, comm, v, j, scratch0, stamp0, generation, touched);
      }
    }
  }

  /** The gain of moving `v` to community `c`, as the source computes it. */
  ghost function GainTo(adj: Adj, weight: Weight, comm: seq<nat>, m: real, v: nat, c: nat): real
    requires v < |comm| && m != 0.0
  {
    var a, k := MatrixOf(adj, weight), DegreeOf(adj, weight);
    Gain(To(a, comm, v, c), To(a, comm, v, comm[v]), k(v), Tot(k, comm, comm[v]), Tot(k, comm, c), m)
  }

  datatype Move = Move(node: nat, target: nat, gain: real)

  /** Among the communities `cs`, none offers more than the move, and the move is to
      the first of those that offer as much; staying means that none beats `minGain`. */
  ghost predicate BestOf(adj: Adj, weight: Weight, comm: seq<nat>, m: real, minGain: real, cs: set<nat>, mv: Move) {
    && m != 0.0 && mv.node < |comm|
    && (forall c <- cs | c != comm[mv.node] ::
          GainTo(adj, weight, comm, m, mv.node, c) <= mv.gain
          && (GainTo(adj, weight, comm, m, mv.node, c) == mv.gain && mv.target != comm[mv.node] ==> mv.target <= c))
    && (if mv.target == comm[mv.node] then mv.gain == minGain
        else mv.target in cs && mv.gain == GainTo(adj, weight, comm, m, mv.node, mv.target) > minGain)
  }

  ghost function AdjacentSet(adj: Adj, comm: seq<nat>, v: nat): set<nat>
    requires v < |adj|
  {
    set c | 0 <= c < |comm| && Adjacent(adj, comm, v, c, |adj[v]|)
  }

  ghost predicate IsBest(adj: Adj, weight: Weight, comm: seq<nat>, m: real, minGain: real, mv: Move) {
    mv.node < |adj| && BestOf(adj, weight, comm, m, minGain, AdjacentSet(adj, comm, mv.node), mv)
  }

  /** A recorded move gains exactly the change of quality it would make alone, and no
      neighbouring community would gain more. */
  lemma MoveGain(adj: Adj, weight: Weight, comm: seq<nat>, m: real, minGain: real, mv: Move, c: nat)
    requires |adj| == |comm| && Undirected(adj, weight) && IsBest(adj, weight, comm, m, minGain, mv)
    requires comm[mv.node] < |comm| && c != comm[mv.node] && c in AdjacentSet(adj, comm, mv.node)
    ensures var a, k := MatrixOf(adj, weight), DegreeOf(adj, weight);
      && Quality(a, k, m, comm[mv.node := c]) - Quality(a, k, m, comm) <= mv.gain
      && (mv.target != comm[mv.node] ==>
            && mv.target < |comm|
            && Quality(a, k, m, comm[mv.node := mv.target]) - Quality(a, k, m, comm) == mv.gain > minGain)
  {
    hide Quality, To, Tot, Gain, Undirected, Adjacent;
    UndirectedMatrix(adj, weight);
    var a, k := MatrixOf(adj, weight), DegreeOf(adj, weight);
    GainIsChange(a, k, m, comm, mv.node, c);
    if mv.target != comm[mv.node] {
      GainIsChange(a, k, m, comm, mv.node, mv.target);
    }
  }

  method BestMove(g: Csr, weight: Weight, degree: array<real>, community: array<nat>, sigmaTot: array<real>, m: real,
                  minGain: real,
                  scratch: array<real>, stamp: array<nat>, generation: nat, v: nat)
    returns (mv: Move)
    requires g.Valid()
    requires v < g.NumNodes() == community.Length == scratch.Length == stamp.Length == sigmaTot.Length == degree.Length
    requires m != 0.0 && community != stamp && scratch != sigmaTot && scratch != degree
    requires forall c | 0 <= c < stamp.Length :: stamp[c] < generation
    requires forall u | 0 <= u < community.Length :: community[u] < community.Length
    requires degree[v] == Strength(Lists(g), weight, v)
    requires forall c | 0 <= c < sigmaTot.Length :: sigmaTot[c] == Tot(DegreeOf(Lists(g), weight), community[..], c)
    modifies scratch, stamp
    ensures forall c | 0 <= c < stamp.Length :: stamp[c] <= generation
    ensures mv.node == v && mv.target < community.Length && IsBest(Lists(g), weight, community[..], m, minGain, mv)
  {
    hide Tot, To, Gathered, Strength, BestOf, Adjacent;
    ghost var adj, comm := Lists(g), community[..];
    var touched := Gather(g, weight, community, scratch, stamp, generation, v);
    GatheredLinks(adj, weight, comm, v, scratch[..], stamp[..], generation, touched);
    assert forall c | 0 <= c < stamp.Length :: stamp[..][c] == stamp[c] && scratch[..][c] == scratch[c];
    var sorted := Sort(touched);
    SortAscending(touched);
    SortedAdjacent(adj, comm, v, touched);
    var current := community[v];
    var here := if stamp[current] == generation then scratch[current] else 0.0;
    forall c <- sorted ensures c < community.Length && scratch[c] == To(MatrixOf(adj, weight), comm, v, c) {
      SortMember(touched, c);
    }
    mv := BestAmong(adj, weight, comm, sigmaTot, m, minGain, scratch, degree[v], here, sorted, v, current);
    assert community[..] == comm;
  }

  method BestAmong(ghost adj: Adj, ghost weight: Weight, ghost comm: seq<nat>, sigmaTot: array<real>, m: real,
                   minGain: real,
                   scratch: array<real>, kv: real, here: real, sorted: seq<nat>, v: nat, current: nat)
    returns (mv: Move)
    requires |comm| == sigmaTot.Length == scratch.Length && v < |comm| && m != 0.0 && Ascending(sorted)
    requires current == comm[v] < |comm| && kv == DegreeOf(adj, weight)(v)
    requires forall c | 0 <= c < sigmaTot.Length :: sigmaTot[c] == Tot(DegreeOf(adj, weight), comm, c)
    requires here == To(MatrixOf(adj, weight), comm, v, current)
    requires forall c <- sorted :: c < |comm| && scratch[c] == To(MatrixOf(adj, weight), comm, v, c)
    ensures mv.node == v && mv.target < |comm| && BestOf(adj, weight, comm, m, minGain, Elems(sorted), mv)
  {
    hide Tot, To, Gain, DegreeOf, MatrixOf;
    mv := Move(v, current, minGain);
    for i := 0 to |sorted|
      invariant mv.node == v && mv.target < |comm|
      invariant BestOf(adj, weight, comm, m, minGain, Elems(sorted[..i]), mv)
    {
      hide BestOf;
      var c := sorted[i];
      assert c in sorted;
      if c != current {
        var gain := Gain(scratch[c], here, kv, sigmaTot[current], sigmaTot[c], m);
        assert gain == GainTo(adj, weight, comm, m, v, c);
        BestStep(adj, weight, comm, m, minGain, sorted, i, mv);
        if gain > mv.gain {
          mv := Move(v, c, gain);
        }
      } else {
        BestSkip(adj, weight, comm, m, minGain, sorted, i, mv);
      }
    }
    assert sorted[..|sorted|] == sorted;
  }

  lemma SortedAdjacent(adj: Adj, comm: seq<nat>, v: nat, touched: seq<nat>)
    requires v < |adj| && forall c :: c in touched <==> c in AdjacentSet(adj, comm, v)
    ensures Elems(Sort(touched)) == AdjacentSet(adj, comm, v)
  {
    forall c: nat ensures c in Sort(touched) <==> c in AdjacentSet(adj, comm, v) {
      SortMember(touched, c);
    }
  }

  lemma GatheredLinks(adj: Adj, weight: Weight, comm: seq<nat>, v: nat, scratch: seq<real>, stamp: seq<nat>,
                      generation: nat, touched: seq<nat>)
    requires v < |adj| && Gathered(adj, weight, comm, v, |adj[v]|, scratch, stamp, generation, touched)
    ensures forall c | 0 <= c < |comm| ::
      To(MatrixOf(adj, weight), comm, v, c) == if stamp[c] == generation then scratch[c] else 0.0
    ensures forall c | 0 <= c < |comm| :: stamp[c] <= generation
    ensures forall c | 0 <= c < |comm| :: stamp[c] == generation <==> c in touched
    ensures forall c :: c in touched <==> c in AdjacentSet(adj, comm, v)
  {
    hide To, Links, Adjacent;
    forall c | 0 <= c < |comm|
      ensures To(MatrixOf(adj, weight), comm, v, c) == Links(adj, weight, comm, v, c, |adj[v]|)
    {
      LinksAll(adj, weight, comm, v, c);
    }
  }

  lemma BestStep(adj: Adj, weight: Weight, comm: seq<nat>, m: real, minGain: real, sorted: seq<nat>, i: nat, mv: Move)
    requires i < |sorted| && Ascending(sorted) && BestOf(adj, weight, comm, m, minGain, Elems(sorted[..i]), mv)
    requires sorted[i] != comm[mv.node]
    ensures var c := sorted[i]; var gain := GainTo(adj, weight, comm, m, mv.node, c);
      BestOf(adj, weight, comm, m, minGain, Elems(sorted[..i + 1]),
             if gain > mv.gain then Move(mv.node, c, gain) else mv)
  {
    hide GainTo;
    var c := sorted[i];
    assert forall x | x in sorted[..i + 1] :: x in sorted[..i] || x == c;
    assert c in sorted[..i + 1] && forall x | x in sorted[..i] :: x in sorted[..i + 1] && x <= c;
  }

  lemma BestSkip(adj: Adj, weight: Weight, comm: seq<nat>, m: real, minGain: real, sorted: seq<nat>, i: nat, mv: Move)
    requires i < |sorted| && BestOf(adj, weight, comm, m, minGain, Elems(sorted[..i]), mv) && sorted[i] == comm[mv.node]
    ensures BestOf(adj, weight, comm, m, minGain, Elems(sorted[..i + 1]), mv)
  {
    hide GainTo;
    assert forall x | x in sorted[..i + 1] :: x in sorted[..i] || x == sorted[i];
    assert forall x | x in sorted[..i] :: x in sorted[..i + 1];
  }

  // ------------------------------------------------------------------ visiting orders

  ghost predicate Order(order: seq<nat>, n: nat) {
    |order| == n && Distinct(order) && forall i | 0 <= i < |order| :: order[i] < n
  }

  const LCG_FACTOR: nat := 6364136223846793005

  function Swapped(s: seq<nat>, i: nat, j: nat): seq<nat>
    requires i < |s| && j < |s|
  {
    s[i := s[j]][j := s[i]]
  }

  function NextState(state: nat): nat {
    (state * LCG_FACTOR + 1) % TWO_64
  }

  /** Fisher-Yates over a linear congruential generator: the first `i` places are
      still to be shuffled. */
  function Shuffled(order: seq<nat>, state: nat, i: nat): (r: seq<nat>)
    requires i <= |order|
    ensures |r| == |order|
    decreases i
  {
    if i <= 1 then order
    else
      var state' := NextState(state);
      Shuffled(Swapped(order, i - 1, state' % i), state', i - 1)
  }

  /** The visiting order of a pass: ascending without a seed; with a seed, the order
      of the pass before, shuffled from the seed plus the number of the pass. */
  function OrderAt(n: nat, seed: Option<nat>, pass: nat): (r: seq<nat>)
    ensures |r| == n
  {
    if pass == 0 || seed.None? then seq(n, i => i)
    else Shuffled(OrderAt(n, seed, pass - 1), (seed.value + pass) % TWO_64, n)
  }

  method Shuffle(order: array<nat>, seed: nat)
    modifies order
    ensures order[..] == Shuffled(old(order[..]), seed, order.Length)
  {
    hide NextState;
    ghost var all := Shuffled(order[..], seed, order.Length);
    var state: nat := seed;
    var i := order.Length;
    while i > 1
      invariant 0 <= i <= order.Length && all == Shuffled(order[..], state, i)
    {
      i := i - 1;
      state := NextState(state);
      var j := state % (i + 1);
      ghost var before := order[..];
      order[i], order[j] := order[j], order[i];
      assert order[..] == Swapped(before, i, j);
    }
  }

  lemma SwapOrder(order: seq<nat>, i: nat, j: nat)
    requires Order(order, |order|) && i < |order| && j < |order|
    ensures Order(Swapped(order, i, j), |order|)
  {
  }

  lemma {:induction false} ShuffledOrder(order: seq<nat>, state: nat, i: nat)
    requires Order(order, |order|) && i <= |order|
    ensures Order(Shuffled(order, state, i), |order|)
    decreases i
  {
    hide Order, NextState;
    if i > 1 {
      var state' := NextState(state);
      SwapOrder(order, i - 1, state' % i);
      ShuffledOrder(Swapped(order, i - 1, state' % i), state', i - 1);
    }
  }

  /** The places from `i` on keep what they hold. */
  lemma {:induction false} ShuffledAbove(order: seq<nat>, state: nat, i: nat, p: nat)
    requires i <= p < |order|
    ensures Shuffled(order, state, i)[p] == order[p]
    decreases i
  {
    hide NextState;
    if i > 1 {
      var state' := NextState(state);
      ShuffledAbove(Swapped(order, i - 1, state' % i), state', i - 1, p);
    }
  }

  /** The last open place gets what is at the place drawn; that place gets what was there. */
  lemma ShuffledLast(order: seq<nat>, state: nat, i: nat)
    requires 1 < i <= |order|
    ensures var state' := NextState(state); var d := state' % i;
      && Shuffled(order, state, i)[i - 1] == order[d]
      && forall p: nat | i <= p < |order| :: Shuffled(order, state, i)[p] == order[p]
  {
    hide NextState;
    var state' := NextState(state);
    forall p: nat | i - 1 <= p < |order|
      ensures Shuffled(order, state, i)[p] == Swapped(order, i - 1, state' % i)[p]
    {
      ShuffledAbove(Swapped(order, i - 1, state' % i), state', i - 1, p);
    }
  }

  function PowerSum(b: nat, k: nat): nat {
    if k == 0 then 0 else PowerSum(b, k - 1) + Power(b, k - 1)
  }

  function Draws(state: nat, k: nat): nat {
    if k == 0 then state else NextState(Draws(state, k - 1))
  }

  /** The generator's state `k` draws on, before it is cut to 64 bits. */
  function Jump(state: nat, k: nat): nat {
    state * Power(LCG_FACTOR, k) + PowerSum(LCG_FACTOR, k)
  }

  lemma NextOfWrapped(x: nat)
    ensures NextState(x % TWO_64) == (x * LCG_FACTOR + 1) % TWO_64
  {
    Digits.ModStep(x, TWO_64, LCG_FACTOR);
  }

  lemma Distributes(a: nat, p: nat, s: nat, f: nat)
    ensures (a * p + s) * f + 1 == a * (f * p) + (s * f + 1)
  {
    assert (a * p + s) * f == a * p * f + s * f;
    assert a * p * f == a * (f * p);
  }

  lemma {:induction false} PowerSumNext(b: nat, k: nat)
    ensures PowerSum(b, k + 1) == PowerSum(b, k) * b + 1
  {
    if k > 0 {
      PowerSumNext(b, k - 1);
      SumStep(b, PowerSum(b, k - 1), Power(b, k - 1));
    }
  }

  lemma SumStep(b: nat, x: nat, p: nat)
    requires x + p == x * b + 1
    ensures x + p + b * p == (x + p) * b + 1
  {
    assert (x + p) * b == x * b + b * p;
  }

  lemma JumpNext(state: nat, k: nat)
    ensures Jump(state, k + 1) == Jump(state, k) * LCG_FACTOR + 1
  {
    PowerSumNext(LCG_FACTOR, k);
    hide PowerSum;
    Distributes(state, Power(LCG_FACTOR, k), PowerSum(LCG_FACTOR, k), LCG_FACTOR);
  }

  /** The `k`-th draw of the generator in closed form. */
  lemma {:induction false} DrawsClosed(state: nat, k: nat)
    requires state < TWO_64
    ensures Draws(state, k) == Jump(state, k) % TWO_64
  {
    hide NextState, Jump;
    if k == 0 {
      JumpStart(state);
    } else {
      DrawsClosed(state, k - 1);
      NextOfWrapped(Jump(state, k - 1));
      JumpNext(state, k - 1);
    }
  }

  lemma JumpStart(state: nat)
    ensures Jump(state, 0) == state
  {
  }

  /** Every pass visits every node once; without a seed, in the order of the ids. */
  lemma {:induction false} OrderAtIsOrder(n: nat, seed: Option<nat>, pass: nat)
    ensures Order(OrderAt(n, seed, pass), n)
    ensures seed.None? ==> forall i | 0 <= i < n :: OrderAt(n, seed, pass)[i] == i
    decreases pass
  {
    if pass > 0 && seed.Some? {
      hide Order;
      OrderAtIsOrder(n, seed, pass - 1);
      ShuffledOrder(OrderAt(n, seed, pass - 1), (seed.value + pass) % TWO_64, n);
    }
  }

  method SetOrder(order: array<nat>, seed: Option<nat>, pass: nat)
    requires pass > 0 && order[..] == OrderAt(order.Length, seed, pass - 1)
    modifies order
    ensures order[..] == OrderAt(order.Length, seed, pass)
  {
    if seed.Some? {
      Shuffle(order, (seed.value + pass) % TWO_64);
    } else {
      for i := 0 to order.Length
        invariant forall j | 0 <= j < i :: order[j] == j
      {
        order[i] := i;
      }
    }
  }

  // ------------------------------------------------------------------ one pass

  /** For every node of the order, its best move, or the decision to stay. */
  ghost predicate Planned(adj: Adj, weight: Weight, comm: seq<nat>, m: real, minGain: real, order: seq<nat>,
                          plan: seq<Move>)
  {
    && |plan| <= |order|
    && forall i | 0 <= i < |plan| ::
         plan[i].node == order[i] && plan[i].target < |comm| && IsBest(adj, weight, comm, m, minGain, plan[i])
  }

  ghost function Movers(comm: seq<nat>, plan: seq<Move>): seq<Move> {
    if |plan| == 0 then []
    else
      var mv := plan[|plan| - 1];
      Movers(comm, plan[..|plan| - 1]) + if mv.node < |comm| && comm[mv.node] != mv.target then [mv] else []
  }

  lemma {:induction false} MoversRange(comm: seq<nat>, plan: seq<Move>, n: nat)
    requires forall mv <- plan :: mv.node < n && mv.target < n
    ensures forall mv <- Movers(comm, plan) :: mv.node < n && mv.target < n
  {
    if |plan| > 0 { MoversRange(comm, plan[..|plan| - 1], n); }
  }

  /** The communities after the moves, and the nodes that have moved.  A move into
      the community named after a node that has moved is dropped. */
  ghost function Applied(comm: seq<nat>, moves: seq<Move>): (r: (seq<nat>, set<nat>))
    ensures |r.0| == |comm|
  {
    if |moves| == 0 then (comm, {})
    else
      var mv := moves[|moves| - 1];
      var (c, claimed) := Applied(comm, moves[..|moves| - 1]);
      if mv.node >= |c| || c[mv.node] == mv.target || mv.target in claimed then (c, claimed)
      else (c[mv.node := mv.target], claimed + {mv.node})
  }

  // ------------------------------------------------------------------ which moves take place

  ghost predicate DistinctNodes(moves: seq<Move>) {
    forall i, j | 0 <= i < j < |moves| :: moves[i].node != moves[j].node
  }

  /** A move before the `i`-th has taken place, of the node whose community the `i`-th
      wants to join. */
  ghost predicate Overtaken(moves: seq<Move>, taken: seq<bool>, i: nat) {
    exists j: nat :: j < i && j < |moves| && j < |taken| && i < |moves| && taken[j] && moves[j].node == moves[i].target
  }

  /** By position in the list: a move takes place exactly if it leads elsewhere and is not
      overtaken; then its node is in the target's community, and every other node where
      it was. */
  ghost predicate Resolved(comm: seq<nat>, moves: seq<Move>, taken: seq<bool>, comm': seq<nat>) {
    && |taken| == |moves| && |comm'| == |comm|
    && (forall i: nat | i < |moves| ::
          && moves[i].node < |comm|
          && (taken[i] <==> comm[moves[i].node] != moves[i].target && !Overtaken(moves, taken, i))
          && comm'[moves[i].node] == if taken[i] then moves[i].target else comm[moves[i].node])
    && forall v: nat | v < |comm| && !Moves(moves, v) :: comm'[v] == comm[v]
  }

  ghost predicate Moves(moves: seq<Move>, v: nat) {
    exists i: nat :: i < |moves| && moves[i].node == v
  }

  lemma OvertakenPrefix(moves: seq<Move>, taken: seq<bool>, mv: Move, b: bool, i: nat)
    requires |taken| == |moves| && i < |moves|
    ensures Overtaken(moves + [mv], taken + [b], i) <==> Overtaken(moves, taken, i)
  {
    if j: nat :| j < i && taken[j] && moves[j].node == moves[i].target {
      assert (moves + [mv])[j] == moves[j] && (taken + [b])[j] && (moves + [mv])[i] == moves[i];
    }
    if Overtaken(moves + [mv], taken + [b], i) {
      var j: nat :| j < i && (taken + [b])[j] && (moves + [mv])[j].node == (moves + [mv])[i].target;
      assert taken[j] && moves[j].node == moves[i].target;
    }
  }

  /** One more move, of a node that has not moved. */
  lemma ResolvedPush(comm: seq<nat>, moves: seq<Move>, taken: seq<bool>, c: seq<nat>, mv: Move, b: bool)
    requires Resolved(comm, moves, taken, c) && mv.node < |comm| && !Moves(moves, mv.node)
    requires b <==> comm[mv.node] != mv.target && !Overtaken(moves + [mv], taken + [b], |moves|)
    ensures Resolved(comm, moves + [mv], taken + [b], if b then c[mv.node := mv.target] else c)
  {
    var moves', taken', c' := moves + [mv], taken + [b], if b then c[mv.node := mv.target] else c;
    forall i: nat | i < |moves'|
      ensures moves'[i].node < |comm|
      ensures taken'[i] <==> comm[moves'[i].node] != moves'[i].target && !Overtaken(moves', taken', i)
      ensures c'[moves'[i].node] == if taken'[i] then moves'[i].target else comm[moves'[i].node]
    {
      if i < |moves| {
        OvertakenPrefix(moves, taken, mv, b, i);
        assert Moves(moves, moves[i].node);
      }
    }
    forall v: nat | Moves(moves, v) || v == mv.node ensures Moves(moves', v) {
      if v == mv.node {
        assert moves'[|moves|].node == v;
      } else {
        var i: nat :| i < |moves| && moves[i].node == v;
        assert moves'[i].node == v;
      }
    }
  }

  /** The nodes whose moves take place are those that claim a community. */
  ghost predicate Claims(moves: seq<Move>, taken: seq<bool>, claimed: set<nat>) {
    forall v: nat :: v in claimed <==> ClaimedBy(moves, taken, v)
  }

  ghost predicate ClaimedBy(moves: seq<Move>, taken: seq<bool>, v: nat) {
    exists j: nat :: j < |moves| && j < |taken| && taken[j] && moves[j].node == v
  }

  lemma ClaimsPush(moves: seq<Move>, taken: seq<bool>, claimed: set<nat>, mv: Move, b: bool)
    requires |taken| == |moves| && Claims(moves, taken, claimed)
    ensures mv.target in claimed <==> Overtaken(moves + [mv], taken + [b], |moves|)
    ensures Claims(moves + [mv], taken + [b], if b then claimed + {mv.node} else claimed)
  {
    var moves', taken' := moves + [mv], taken + [b];
    forall v: nat ensures ClaimedBy(moves', taken', v) <==> ClaimedBy(moves, taken, v) || (b && mv.node == v) {
      if j: nat :| j < |moves| && taken[j] && moves[j].node == v {
        assert taken'[j] && moves'[j].node == v;
      }
      if b && mv.node == v {
        assert taken'[|moves|] && moves'[|moves|].node == v;
      }
      if ClaimedBy(moves', taken', v) {
        var j: nat :| j < |moves'| && taken'[j] && moves'[j].node == v;
        if j < |moves| { assert taken[j] && moves[j].node == v; }
      }
    }
    if ClaimedBy(moves, taken, mv.target) {
      var j: nat :| j < |moves| && taken[j] && moves[j].node == mv.target;
      assert taken'[j] && moves'[j].node == moves'[|moves|].target;
    }
    if Overtaken(moves', taken', |moves|) {
      var j: nat :| j < |moves| && taken'[j] && moves'[j].node == moves'[|moves|].target;
      assert taken[j] && moves[j].node == mv.target;
    }
  }

  lemma {:induction false} AppliedResolved(comm: seq<nat>, moves: seq<Move>) returns (taken: seq<bool>)
    requires DistinctNodes(moves) && forall i | 0 <= i < |moves| :: moves[i].node < |comm|
    ensures Resolved(comm, moves, taken, Applied(comm, moves).0) && Claims(moves, taken, Applied(comm, moves).1)
    decreases |moves|
  {
    if |moves| == 0 {
      taken := [];
    } else {
      var front, mv := moves[..|moves| - 1], moves[|moves| - 1];
      var t := AppliedResolved(comm, front);
      var (c, claimed) := Applied(comm, front);
      assert !Moves(front, mv.node);
      var b := comm[mv.node] != mv.target && mv.target !in claimed;
      taken := t + [b];
      assert moves == front + [mv];
      hide Resolved, Claims, Overtaken;
      ResolvedAt(comm, front, t, c, mv.node);
      ClaimsPush(front, t, claimed, mv, b);
      ResolvedPush(comm, front, t, c, mv, b);
    }
  }

  lemma ResolvedAt(comm: seq<nat>, moves: seq<Move>, taken: seq<bool>, c: seq<nat>, v: nat)
    requires Resolved(comm, moves, taken, c) && v < |comm| && !Moves(moves, v)
    ensures |c| == |comm| && |taken| == |moves| && c[v] == comm[v]
  {
  }

  lemma SomeClaimed(moves: seq<Move>, taken: seq<bool>, claimed: set<nat>)
    requires |taken| == |moves| && Claims(moves, taken, claimed)
    ensures claimed != {} <==> true in taken
  {
    if v :| v in claimed {
      assert ClaimedBy(moves, taken, v);
    }
    if true in taken {
      var j :| 0 <= j < |taken| && taken[j];
      assert ClaimedBy(moves, taken, moves[j].node);
    }
  }

  /** Decisions to stay change nothing. */
  lemma {:induction false} StayersSkipped(comm: seq<nat>, plan: seq<Move>)
    requires DistinctNodes(plan) && forall i | 0 <= i < |plan| :: plan[i].node < |comm|
    ensures Applied(comm, Movers(comm, plan)) == Applied(comm, plan)
    decreases |plan|
  {
    if |plan| > 0 {
      var front, mv := plan[..|plan| - 1], plan[|plan| - 1];
      StayersSkipped(comm, front);
      var moves := Movers(comm, front);
      if comm[mv.node] != mv.target {
        assert (moves + [mv])[..|moves|] == moves;
      } else {
        assert moves + [] == moves;
        var t := AppliedResolved(comm, front);
        assert !Moves(front, mv.node);
        ResolvedAt(comm, front, t, Applied(comm, front).0, mv.node);
      }
    }
  }

  /** What takes place is determined by the list. */
  lemma {:induction false} TakenUnique(comm: seq<nat>, moves: seq<Move>, s: seq<bool>, t: seq<bool>, a: seq<nat>,
                                       b: seq<nat>, i: nat)
    requires Resolved(comm, moves, s, a) && Resolved(comm, moves, t, b) && i < |moves|
    ensures s[i] == t[i]
    decreases i
  {
    forall j: nat | j < i ensures s[j] == t[j] {
      TakenUnique(comm, moves, s, t, a, b, j);
    }
    if Overtaken(moves, s, i) {
      var j: nat :| j < i && s[j] && moves[j].node == moves[i].target;
      assert t[j];
    }
    if Overtaken(moves, t, i) {
      var j: nat :| j < i && t[j] && moves[j].node == moves[i].target;
      assert s[j];
    }
  }

  lemma ResolvedUnique(comm: seq<nat>, moves: seq<Move>, s: seq<bool>, t: seq<bool>, a: seq<nat>, b: seq<nat>)
    requires Resolved(comm, moves, s, a) && Resolved(comm, moves, t, b)
    ensures s == t && a == b
  {
    hide Overtaken;
    forall i: nat | i < |moves| ensures s[i] == t[i] {
      TakenUnique(comm, moves, s, t, a, b, i);
    }
    assert s == t;
    forall v: nat | v < |comm| ensures a[v] == b[v] {
      if Moves(moves, v) {
        var i: nat :| i < |moves| && moves[i].node == v;
      }
    }
  }

  /** Where nothing takes place, every decision was to stay. */
  lemma NothingTaken(comm: seq<nat>, moves: seq<Move>, taken: seq<bool>, comm': seq<nat>)
    requires Resolved(comm, moves, taken, comm')
    ensures true !in taken <==>
      forall i: nat | i < |moves| :: moves[i].node < |comm| && comm[moves[i].node] == moves[i].target
    ensures true !in taken ==> comm' == comm
  {
    if true !in taken {
      forall i: nat | i < |moves| ensures moves[i].node < |comm| && comm[moves[i].node] == moves[i].target {
        assert !taken[i] && forall j: nat | j < i :: !taken[j];
      }
      forall v: nat | v < |comm| ensures comm'[v] == comm[v] {
        if Moves(moves, v) {
          var i: nat :| i < |moves| && moves[i].node == v;
          assert !taken[i];
        }
      }
    }
  }

  method Plan(g: Csr, weight: Weight, degree: array<real>, community: array<nat>, sigmaTot: array<real>, m: real,
              minGain: real,
              scratch: array<real>, stamp: array<nat>, order: array<nat>, generation0: nat)
    returns (generation: nat, moves: seq<Move>, ghost plan: seq<Move>)
    requires g.Valid()
    requires g.NumNodes() == community.Length == scratch.Length == stamp.Length == sigmaTot.Length == degree.Length
    requires m != 0.0 && community != stamp && order != stamp && scratch != sigmaTot && scratch != degree
    requires forall c | 0 <= c < stamp.Length :: stamp[c] <= generation0
    requires forall u | 0 <= u < community.Length :: community[u] < community.Length
    requires forall v | 0 <= v < degree.Length :: degree[v] == Strength(Lists(g), weight, v)
    requires forall c | 0 <= c < sigmaTot.Length :: sigmaTot[c] == Tot(DegreeOf(Lists(g), weight), community[..], c)
    requires Order(order[..], community.Length)
    modifies scratch, stamp
    ensures forall c | 0 <= c < stamp.Length :: stamp[c] <= generation
    ensures |plan| == order.Length && Planned(Lists(g), weight, community[..], m, minGain, order[..], plan)
    ensures moves == Movers(community[..], plan)
    ensures forall mv <- moves :: mv.node < community.Length && mv.target < community.Length
  {
    hide Strength, Tot, IsBest;
    generation, moves, plan := generation0, [], [];
    ghost var comm, adj := community[..], Lists(g);
    for i := 0 to order.Length
      invariant community[..] == comm
      invariant forall c | 0 <= c < stamp.Length :: stamp[c] <= generation
      invariant |plan| == i && Planned(adj, weight, comm, m, minGain, order[..], plan)
      invariant moves == Movers(comm, plan)
    {
      generation := generation + 1;
      var mv := BestMove(g, weight, degree, community, sigmaTot, m, minGain, scratch, stamp, generation, order[i]);
      ghost var before := plan;
      plan := plan + [mv];
      assert plan[..|plan| - 1] == before;
      if mv.target != community[mv.node] {
        moves := moves + [mv];
      }
    }
    MoversRange(comm, plan, community.Length);
  }

  method ApplyAll(g: Csr, weight: Weight, degree: array<real>, community: array<nat>, sigmaTot: array<real>,
                  sigmaIn: array<real>,
                  moves: seq<Move>, claimed: array<nat>, claim: nat)
    returns (improved: bool)
    requires g.Valid()
    requires degree.Length == community.Length == sigmaTot.Length == sigmaIn.Length == claimed.Length == g.NumNodes()
    requires sigmaTot != sigmaIn && degree != sigmaTot && degree != sigmaIn && claimed != community
    requires Books(Lists(g), weight, community[..], sigmaTot[..], sigmaIn[..])
    requires forall v | 0 <= v < degree.Length :: degree[v] == Strength(Lists(g), weight, v)
    requires forall c | 0 <= c < claimed.Length :: claimed[c] < claim
    requires forall mv <- moves :: mv.node < community.Length && mv.target < community.Length
    modifies community, sigmaTot, sigmaIn, claimed
    ensures Books(Lists(g), weight, community[..], sigmaTot[..], sigmaIn[..])
    ensures community[..] == Applied(old(community[..]), moves).0
    ensures improved <==> Applied(old(community[..]), moves).1 != {}
    ensures DistinctNodes(moves) ==>
              exists taken :: Resolved(old(community[..]), moves, taken, community[..]) && (improved <==> true in taken)
    ensures forall c | 0 <= c < claimed.Length :: claimed[c] <= claim
  {
    hide Books, Strength;
    ghost var comm := community[..];
    improved := false;
    assert moves[..0] == [];
    for i := 0 to |moves|
      invariant Books(Lists(g), weight, community[..], sigmaTot[..], sigmaIn[..])
      invariant community[..] == Applied(comm, moves[..i]).0
      invariant improved <==> Applied(comm, moves[..i]).1 != {}
      invariant forall c | 0 <= c < claimed.Length :: claimed[c] <= claim
      invariant forall c | 0 <= c < claimed.Length :: claimed[c] == claim <==> c in Applied(comm, moves[..i]).1
    {
      assert moves[..i + 1][..i] == moves[..i];
      var mv := moves[i];
      assert mv in moves;
      if community[mv.node] != mv.target && claimed[mv.target] != claim {
        ApplyMove(g, weight, degree, community, sigmaTot, sigmaIn, mv.node, mv.target);
        claimed[mv.node] := claim;
        improved := true;
      }
    }
    assert moves[..|moves|] == moves;
    if DistinctNodes(moves) {
      assert forall i | 0 <= i < |moves| :: moves[i] in moves;
      ghost var taken := AppliedResolved(comm, moves);
      SomeClaimed(moves, taken, Applied(comm, moves).1);
    }
  }

  // ------------------------------------------------------------------ the reported number

  /** The term of a community in the number the source reports. */
  ghost function ReportOf(adj: Adj, weight: Weight, m: real, comm: seq<nat>, c: int): real {
    if m == 0.0 || c < 0 then 0.0
    else
      var t := Tot(DegreeOf(adj, weight), comm, c) / (2.0 * m);
      Inside(MatrixOf(adj, weight), comm, c) / m - t * t
  }

  ghost function Reported(adj: Adj, weight: Weight, m: real, comm: seq<nat>): real {
    Sum(|comm|, c => ReportOf(adj, weight, m, comm, c))
  }

  ghost function InsideAll(adj: Adj, weight: Weight, comm: seq<nat>): real {
    Sum(|comm|, c => if c < 0 then 0.0 else Inside(MatrixOf(adj, weight), comm, c))
  }

  /** The reported number counts every internal edge twice: it exceeds the
      modularity by the share of all weight that lies inside communities. */
  lemma ReportedExceeds(adj: Adj, weight: Weight, m: real, comm: seq<nat>)
    requires m != 0.0
    ensures Reported(adj, weight, m, comm) ==
            Quality(MatrixOf(adj, weight), DegreeOf(adj, weight), m, comm) + InsideAll(adj, weight, comm) / (2.0 * m)
  {
    hide Sum, Inside, Tot, MatrixOf, DegreeOf;
    var n, a, k := |comm|, MatrixOf(adj, weight), DegreeOf(adj, weight);
    var p := (c: int) => ReportOf(adj, weight, m, comm, c);
    var q := (c: int) => QualityOf(a, k, m, comm, c);
    var i := (c: int) => if c < 0 then 0.0 else Inside(a, comm, c);
    var h := (c: int) => (1.0 / (2.0 * m)) * i(c);
    forall c | 0 <= c < n ensures p(c) == q(c) + h(c) {
      HalfOver(Inside(a, comm, c), m);
    }
    SumScale(n, 1.0 / (2.0 * m), i, h);
    SumAdd(n, q, h, p);
    ScaleOver(Sum(n, i), m);
  }

  lemma HalfOver(x: real, m: real)
    requires m != 0.0
    ensures x / m == x / 2.0 / m + (1.0 / (2.0 * m)) * x
  {
    var r := 1.0 / m;
    assert r * m == 1.0;
    Over(x, m, r);
    Over(x / 2.0, m, r);
    Over(1.0, 2.0 * m, r / 2.0);
  }

  lemma ScaleOver(x: real, m: real)
    requires m != 0.0
    ensures (1.0 / (2.0 * m)) * x == x / (2.0 * m)
  {
    var r := 1.0 / (2.0 * m);
    assert r * (2.0 * m) == 1.0;
    Over(x, 2.0 * m, r);
  }

  lemma EmptyCommunity(adj: Adj, weight: Weight, m: real, comm: seq<nat>, c: nat)
    requires c !in comm
    ensures ReportOf(adj, weight, m, comm, c) == 0.0
  {
    hide Sum, DegreeOf, MatrixOf, To;
    var n, a, k := |comm|, MatrixOf(adj, weight), DegreeOf(adj, weight);
    var f, h := (v: int) => Part(comm, c, v, k(v)), (v: int) => Part(comm, c, v, To(a, comm, v, c));
    forall v | 0 <= v < n ensures f(v) == 0.0 && h(v) == 0.0 {
      assert comm[v] in comm;
      assert Part(comm, c, v, k(v)) == 0.0 && Part(comm, c, v, To(a, comm, v, c)) == 0.0;
    }
    SumZero(n, f);
    SumZero(n, h);
  }

  ghost function SeenTerm(seen: seq<bool>, f: int -> real): int -> real {
    c => if 0 <= c < |seen| && seen[c] then f(c) else 0.0
  }

  method Report(community: array<nat>, sigmaTot: array<real>, sigmaIn: array<real>, m: real, ghost f: int -> real)
      returns (q: real)
    requires m != 0.0 && community.Length == sigmaTot.Length == sigmaIn.Length
    requires forall v | 0 <= v < community.Length :: community[v] < community.Length
    requires forall c | 0 <= c < sigmaTot.Length ::
      f(c) == sigmaIn[c] / m - (sigmaTot[c] / (2.0 * m)) * (sigmaTot[c] / (2.0 * m))
    ensures (forall c | 0 <= c < community.Length && c !in community[..] :: f(c) == 0.0) ==>
      q == Sum(community.Length, f)
  {
    hide Sum;
    var n := community.Length;
    q := 0.0;
    var seen := new bool[n](_ => false);
    SumZero(n, SeenTerm(seen[..], f));
    for v := 0 to n
      invariant forall u | 0 <= u < v :: seen[community[u]]
      invariant q == Sum(n, SeenTerm(seen[..], f))
    {
      var c := community[v];
      if !seen[c] {
        ghost var seen0 := seen[..];
        seen[c] := true;
        SeenMore(n, seen0, seen[..], f, c);
        q := q + (sigmaIn[c] / m - (sigmaTot[c] / (2.0 * m)) * (sigmaTot[c] / (2.0 * m)));
      }
    }
    if forall c | 0 <= c < n && c !in community[..] :: f(c) == 0.0 {
      ghost var h := SeenTerm(seen[..], f);
      forall c | 0 <= c < n ensures h(c) == f(c) {
        if c in community[..] { var v :| 0 <= v < n && community[v] == c; }
      }
      SumEq(n, h, f);
    }
  }

  lemma SeenMore(n: nat, seen: seq<bool>, seen': seq<bool>, f: int -> real, c: nat)
    requires c < n == |seen| && !seen[c] && seen' == seen[c := true]
    ensures Sum(n, SeenTerm(seen', f)) == Sum(n, SeenTerm(seen, f)) + f(c)
  {
    hide Sum;
    SumChange(n, c, SeenTerm(seen, f), SeenTerm(seen', f));
  }

  // ------------------------------------------------------------------ the whole run

  /** The recorded degree sums always add up to `2m`. */
  lemma BooksTotal(adj: Adj, weight: Weight, comm: seq<nat>, tot: seq<real>, inside: seq<real>)
    requires Books(adj, weight, comm, tot, inside)
    ensures Sum(|tot|, c => if 0 <= c < |tot| then tot[c] else 0.0) == Sum(|adj|, DegreeOf(adj, weight))
  {
    hide Sum, Tot, Inside, Undirected, DegreeOf;
    var k := DegreeOf(adj, weight);
    TotTotal(k, comm);
    SumEq(|tot|, c => if 0 <= c < |tot| then tot[c] else 0.0, c => if c < 0 then 0.0 else Tot(k, comm, c));
  }

  /** `comm'` comes of `comm` by planning a best move for every node of the order, and
      applying the plan. */
  ghost predicate PassBy(adj: Adj, weight: Weight, m: real, minGain: real, order: seq<nat>,
                         comm: seq<nat>, comm': seq<nat>, moved: bool, plan: seq<Move>, taken: seq<bool>)
  {
    && |order| == |plan| == |adj| && Planned(adj, weight, comm, m, minGain, order, plan)
    && Resolved(comm, plan, taken, comm') && (moved <==> true in taken)
  }

  ghost predicate Pass(adj: Adj, weight: Weight, m: real, minGain: real, order: seq<nat>,
                       comm: seq<nat>, comm': seq<nat>, moved: bool)
  {
    exists plan, taken :: PassBy(adj, weight, m, minGain, order, comm, comm', moved, plan, taken)
  }

  ghost predicate PassAt(adj: Adj, weight: Weight, m: real, minGain: real, seed: Option<nat>,
                         trace: seq<seq<nat>>, moved: bool, i: nat)
  {
    && i + 1 < |trace|
    && Pass(adj, weight, m, minGain, OrderAt(|adj|, seed, i + 1), trace[i], trace[i + 1], i + 2 < |trace| || moved)
  }

  /** Every node starts alone; every pass but the last moves a node. */
  ghost predicate Run(adj: Adj, weight: Weight, m: real, minGain: real, seed: Option<nat>, trace: seq<seq<nat>>,
                      moved: bool)
  {
    && |trace| > 0 && trace[0] == seq(|adj|, v => v)
    && (forall i: nat | i < |trace| - 1 :: PassAt(adj, weight, m, minGain, seed, trace, moved, i))
  }

  lemma RunPass(adj: Adj, weight: Weight, m: real, minGain: real, seed: Option<nat>, trace: seq<seq<nat>>,
                comm': seq<nat>, moved: bool)
    requires Run(adj, weight, m, minGain, seed, trace, true)
    requires Pass(adj, weight, m, minGain, OrderAt(|adj|, seed, |trace|), trace[|trace| - 1], comm', moved)
    ensures Run(adj, weight, m, minGain, seed, trace + [comm'], moved)
  {
    hide Pass, OrderAt;
    var trace' := trace + [comm'];
    forall i: nat | i < |trace'| - 1 ensures PassAt(adj, weight, m, minGain, seed, trace', moved, i) {
      if i < |trace| - 1 {
        assert PassAt(adj, weight, m, minGain, seed, trace, true, i);
      }
    }
  }

  method OnePass(g: Csr, weight: Weight, degree: array<real>, community: array<nat>, sigmaTot: array<real>,
                 sigmaIn: array<real>,
                 m: real, minGain: real, scratch: array<real>, stamp: array<nat>, order: array<nat>,
                 claimed: array<nat>, claim: nat, generation0: nat)
    returns (generation: nat, improved: bool)
    requires g.Valid()
    requires g.NumNodes() == community.Length == scratch.Length == stamp.Length == sigmaTot.Length == sigmaIn.Length
      == degree.Length == claimed.Length
    requires community != stamp && order != stamp && claimed != stamp
    requires claimed != community && order != community && order != claimed
    requires scratch != sigmaTot && scratch != sigmaIn && scratch != degree
    requires sigmaTot != sigmaIn && degree != sigmaTot && degree != sigmaIn
    requires m != 0.0 && Books(Lists(g), weight, community[..], sigmaTot[..], sigmaIn[..])
    requires forall v | 0 <= v < degree.Length :: degree[v] == Strength(Lists(g), weight, v)
    requires forall c | 0 <= c < stamp.Length :: stamp[c] <= generation0
    requires forall c | 0 <= c < claimed.Length :: claimed[c] < claim
    requires Order(order[..], community.Length)
    modifies community, sigmaTot, sigmaIn, scratch, stamp, claimed
    ensures Books(Lists(g), weight, community[..], sigmaTot[..], sigmaIn[..])
    ensures forall c | 0 <= c < stamp.Length :: stamp[c] <= generation
    ensures forall c | 0 <= c < claimed.Length :: claimed[c] <= claim
    ensures Pass(Lists(g), weight, m, minGain, order[..], old(community[..]), community[..], improved)
  {
    hide Strength, Tot, Planned, Inside, Undirected;
    ghost var comm := community[..];
    assert forall c | 0 <= c < sigmaTot.Length :: sigmaTot[..][c] == sigmaTot[c];
    assert forall u | 0 <= u < community.Length :: community[u] == comm[u];
    var moves; ghost var plan;
    hide Books;
    generation, moves, plan :=
      Plan(g, weight, degree, community, sigmaTot, m, minGain, scratch, stamp, order, generation0);
    improved := ApplyAll(g, weight, degree, community, sigmaTot, sigmaIn, moves, claimed, claim);
    PlanApplied(Lists(g), weight, m, minGain, order[..], comm, plan);
  }

  /** A plan for every node of an order, applied: a pass. */
  lemma PlanApplied(adj: Adj, weight: Weight, m: real, minGain: real, order: seq<nat>, comm: seq<nat>, plan: seq<Move>)
    requires |comm| == |adj| && Order(order, |adj|) && |plan| == |order|
    requires Planned(adj, weight, comm, m, minGain, order, plan)
    ensures var r := Applied(comm, Movers(comm, plan)); Pass(adj, weight, m, minGain, order, comm, r.0, r.1 != {})
  {
    hide IsBest, Movers, Applied, Resolved;
    assert DistinctNodes(plan);
    assert forall i | 0 <= i < |plan| :: plan[i].node == order[i] < |comm|;
    StayersSkipped(comm, plan);
    var taken := AppliedResolved(comm, plan);
    var r := Applied(comm, plan);
    ResolvedSize(comm, plan, taken, r.0);
    SomeClaimed(plan, taken, r.1);
    assert PassBy(adj, weight, m, minGain, order, comm, r.0, r.1 != {}, plan, taken);
  }

  lemma ResolvedSize(comm: seq<nat>, moves: seq<Move>, taken: seq<bool>, comm': seq<nat>)
    requires Resolved(comm, moves, taken, comm')
    ensures |taken| == |moves| && |comm'| == |comm|
  {
  }

  ghost function BookTerms(tot: seq<real>, inside: seq<real>, m: real): int -> real
    requires m != 0.0 && |tot| == |inside|
  {
    c => if 0 <= c < |tot| then inside[c] / m - (tot[c] / (2.0 * m)) * (tot[c] / (2.0 * m)) else 0.0
  }

  lemma BooksReport(adj: Adj, weight: Weight, m: real, comm: seq<nat>, tot: seq<real>, inside: seq<real>)
    requires m != 0.0 && Books(adj, weight, comm, tot, inside)
    ensures forall v | 0 <= v < |comm| :: comm[v] < |comm|
    ensures Undirected(adj, weight) ==>
              && (forall c | 0 <= c < |comm| && c !in comm :: BookTerms(tot, inside, m)(c) == 0.0)
              && Sum(|comm|, BookTerms(tot, inside, m)) == Reported(adj, weight, m, comm)
  {
    hide Sum, Tot, Inside, Undirected, DegreeOf, MatrixOf;
    if Undirected(adj, weight) {
      var f, p := BookTerms(tot, inside, m), (c: int) => ReportOf(adj, weight, m, comm, c);
      forall c | 0 <= c < |comm| ensures f(c) == p(c) { }
      SumEq(|comm|, f, p);
      forall c | 0 <= c < |comm| && c !in comm ensures f(c) == 0.0 {
        EmptyCommunity(adj, weight, m, comm, c);
      }
    }
  }

  method Passes(g: Csr, weight: Weight, seed: Option<nat>, degree: array<real>, community: array<nat>,
                sigmaTot: array<real>, sigmaIn: array<real>,
                m: real, minGain: real, maxIterations: nat)
    returns (ghost trace: seq<seq<nat>>, ghost moved: bool)
    requires g.Valid() && g.NumNodes() == community.Length == sigmaTot.Length == sigmaIn.Length == degree.Length
    requires sigmaTot != sigmaIn && degree != sigmaTot && degree != sigmaIn
    requires m != 0.0 && Books(Lists(g), weight, community[..], sigmaTot[..], sigmaIn[..])
    requires forall v | 0 <= v < degree.Length :: degree[v] == Strength(Lists(g), weight, v)
    requires forall v | 0 <= v < community.Length :: community[v] == v
    modifies community, sigmaTot, sigmaIn
    ensures Books(Lists(g), weight, community[..], sigmaTot[..], sigmaIn[..])
    ensures Run(Lists(g), weight, m, minGain, seed, trace, moved) && community[..] == trace[|trace| - 1]
    ensures |trace| - 1 <= maxIterations && (|trace| - 1 < maxIterations ==> !moved && |trace| > 1)
  {
    hide Books, Strength, Order, OrderAt, Pass, PassAt, Run;
    var n := community.Length;
    StartRun(Lists(g), weight, m, minGain, seed, community[..]);
    var scratch := new real[n](_ => 0.0);
    var stamp := new nat[n](_ => 0);
    var claimed := new nat[n](_ => 0);
    var order := new nat[n](i => i);
    StartOrder(order[..], seed);
    var generation := 0;
    trace, moved := [community[..]], true;
    var improved, pass := true, 0;
    while improved && pass < maxIterations
      invariant pass <= maxIterations && |trace| == pass + 1 && moved == improved && (pass == 0 ==> improved)
      invariant Books(Lists(g), weight, community[..], sigmaTot[..], sigmaIn[..])
      invariant forall v | 0 <= v < degree.Length :: degree[v] == Strength(Lists(g), weight, v)
      invariant forall c | 0 <= c < n :: stamp[c] <= generation && claimed[c] <= pass
      invariant order[..] == OrderAt(n, seed, pass)
      invariant Run(Lists(g), weight, m, minGain, seed, trace, moved) && community[..] == trace[|trace| - 1]
      decreases maxIterations - pass
    {
      pass := pass + 1;
      SetOrder(order, seed, pass);
      OrderAtIsOrder(n, seed, pass);
      generation, improved :=
        OnePass(g, weight, degree, community, sigmaTot, sigmaIn, m, minGain, scratch, stamp, order, claimed, pass,
                generation);
      RunPass(Lists(g), weight, m, minGain, seed, trace, community[..], improved);
      trace, moved := trace + [community[..]], improved;
    }
  }

  lemma StartOrder(order: seq<nat>, seed: Option<nat>)
    requires forall i | 0 <= i < |order| :: order[i] == i
    ensures order == OrderAt(|order|, seed, 0)
  {
  }

  lemma StartRun(adj: Adj, weight: Weight, m: real, minGain: real, seed: Option<nat>, comm: seq<nat>)
    requires |comm| == |adj| && forall v | 0 <= v < |comm| :: comm[v] == v
    ensures Run(adj, weight, m, minGain, seed, [comm], true)
  {
    assert comm == seq(|adj|, v => v);
  }

  // ------------------------------------------------------------------ when the passes stop

  /** No node gains more than `minGain` of quality by joining a neighbour's community. */
  ghost predicate LocallyOptimal(adj: Adj, weight: Weight, m: real, minGain: real, comm: seq<nat>) {
    |comm| == |adj| &&
    forall v: nat, c: nat | v < |adj| && c in AdjacentSet(adj, comm, v) && c != comm[v] ::
      var a, k := MatrixOf(adj, weight), DegreeOf(adj, weight);
      Quality(a, k, m, comm[v := c]) - Quality(a, k, m, comm) <= minGain
  }

  /** A pass that moves nothing decides to stay for every node. */
  lemma StillStays(adj: Adj, weight: Weight, m: real, minGain: real, order: seq<nat>, comm: seq<nat>, comm': seq<nat>,
                   v: nat)
    requires Order(order, |adj|) && |comm| == |adj| && v < |adj|
    requires Pass(adj, weight, m, minGain, order, comm, comm', false)
    ensures IsBest(adj, weight, comm, m, minGain, Move(v, comm[v], minGain)) && comm' == comm
  {
    hide AdjacentSet, BestOf, Resolved;
    var plan: seq<Move>, taken: seq<bool> :| PassBy(adj, weight, m, minGain, order, comm, comm', false, plan, taken);
    NothingTaken(comm, plan, taken, comm');
    DistinctOnto(order, |adj|, v);
    var i :| 0 <= i < |order| && order[i] == v;
    assert plan[i] in plan && plan[i].node == v && plan[i].target == comm[v];
    StayGain(adj, weight, comm, m, minGain, plan[i]);
  }

  /** A pass that moves nothing proves its communities locally optimal. */
  lemma StillIsOptimal(adj: Adj, weight: Weight, m: real, minGain: real, order: seq<nat>, comm: seq<nat>,
                       comm': seq<nat>)
    requires |comm| == |adj| && Nodes(comm, |comm|) && Undirected(adj, weight)
    requires Order(order, |adj|) && Pass(adj, weight, m, minGain, order, comm, comm', false)
    ensures LocallyOptimal(adj, weight, m, minGain, comm) && (|adj| > 0 ==> comm' == comm)
  {
    hide Undirected, Quality, AdjacentSet, IsBest, Pass, Order;
    forall v: nat, c: nat | v < |adj| && c in AdjacentSet(adj, comm, v) && c != comm[v]
      ensures var a, k := MatrixOf(adj, weight), DegreeOf(adj, weight);
        Quality(a, k, m, comm[v := c]) - Quality(a, k, m, comm) <= minGain
    {
      StillStays(adj, weight, m, minGain, order, comm, comm', v);
      MoveGain(adj, weight, comm, m, minGain, Move(v, comm[v], minGain), c);
    }
    if |adj| > 0 { StillStays(adj, weight, m, minGain, order, comm, comm', 0); }
  }

  /** A run that stops of itself ends in locally optimal communities. */
  lemma StoppedIsOptimal(adj: Adj, weight: Weight, m: real, minGain: real, seed: Option<nat>, trace: seq<seq<nat>>)
    requires |adj| > 0 && Undirected(adj, weight) && Run(adj, weight, m, minGain, seed, trace, false) && |trace| > 1
    requires |trace[|trace| - 2]| == |adj| && Nodes(trace[|trace| - 2], |adj|)
    ensures LocallyOptimal(adj, weight, m, minGain, trace[|trace| - 1])
  {
    hide Undirected, Pass, OrderAt, Order, LocallyOptimal;
    var i := |trace| - 2;
    assert PassAt(adj, weight, m, minGain, seed, trace, false, i);
    OrderAtIsOrder(|adj|, seed, i + 1);
    StillIsOptimal(adj, weight, m, minGain, OrderAt(|adj|, seed, i + 1), trace[i], trace[i + 1]);
  }

  ghost predicate Nodes(comm: seq<nat>, n: nat) {
    forall v | 0 <= v < |comm| :: comm[v] < n
  }

  /** The communities are nodes throughout a run. */
  lemma {:induction false} RunInRange(adj: Adj, weight: Weight, m: real, minGain: real, seed: Option<nat>,
                                      trace: seq<seq<nat>>, moved: bool, i: nat)
    requires Run(adj, weight, m, minGain, seed, trace, moved) && i < |trace|
    ensures |trace[i]| == |adj| && Nodes(trace[i], |adj|)
    decreases i
  {
    hide Pass, OrderAt;
    if i > 0 {
      RunInRange(adj, weight, m, minGain, seed, trace, moved, i - 1);
      assert PassAt(adj, weight, m, minGain, seed, trace, moved, i - 1);
      PassInRange(adj, weight, m, minGain, OrderAt(|adj|, seed, i), trace[i - 1], trace[i], i + 1 < |trace| || moved);
    }
  }

  lemma PassInRange(adj: Adj, weight: Weight, m: real, minGain: real, order: seq<nat>, comm: seq<nat>, comm': seq<nat>,
                    moved: bool)
    requires |comm| == |adj| && Nodes(comm, |comm|) && Pass(adj, weight, m, minGain, order, comm, comm', moved)
    ensures |comm'| == |adj| && Nodes(comm', |adj|)
  {
    hide IsBest, AdjacentSet;
    var plan: seq<Move>, taken: seq<bool> :| PassBy(adj, weight, m, minGain, order, comm, comm', moved, plan, taken);
    hide Overtaken;
    forall v: nat | v < |comm'| ensures comm'[v] < |adj| {
      if Moves(plan, v) {
        var i: nat :| i < |plan| && plan[i].node == v;
      }
    }
  }

  lemma StayGain(adj: Adj, weight: Weight, comm: seq<nat>, m: real, minGain: real, mv: Move)
    requires mv.node < |comm| && IsBest(adj, weight, comm, m, minGain, mv) && mv.target == comm[mv.node]
    ensures mv.gain == minGain
  {
  }

  method Copy(a: array<real>) returns (b: array<real>)
    ensures fresh(b) && b.Length == a.Length && b[..] == a[..]
    ensures forall v | 0 <= v < a.Length :: b[..][v] == a[v]
  {
    b := new real[a.Length];
    for v := 0 to a.Length
      invariant b[..v] == a[..v]
    {
      b[v] := a[v];
    }
    assert b[..] == a[..];
  }

  method Conclude(g: Csr, weight: Weight, community: array<nat>, sigmaTot: array<real>, sigmaIn: array<real>, m: real)
    returns (labels: seq<nat>, value: real)
    requires g.Valid() && m != 0.0 && community.Length == g.NumNodes()
    requires Books(Lists(g), weight, community[..], sigmaTot[..], sigmaIn[..])
    ensures |labels| == community.Length && Relabelled(labels, community[..])
    ensures Undirected(Lists(g), weight) ==> value == Reported(Lists(g), weight, m, community[..])
  {
    hide Books, Sum, DegreeOf, Relabelled, Undirected, Reported;
    ghost var adj, comm := Lists(g), community[..];
    assert sigmaTot.Length == sigmaIn.Length == community.Length by {
      BooksSizes(adj, weight, comm, sigmaTot[..], sigmaIn[..]);
    }
    ghost var f := BookTerms(sigmaTot[..], sigmaIn[..], m);
    BooksReport(adj, weight, m, comm, sigmaTot[..], sigmaIn[..]);
    value := Report(community, sigmaTot, sigmaIn, m, f);
    labels := Relabel(community);
  }

  lemma BooksSizes(adj: Adj, weight: Weight, comm: seq<nat>, tot: seq<real>, inside: seq<real>)
    requires Books(adj, weight, comm, tot, inside)
    ensures |comm| == |adj| == |tot| == |inside|
  {
  }

  lemma StoppedRun(adj: Adj, weight: Weight, m: real, minGain: real, seed: Option<nat>, trace: seq<seq<nat>>,
                   maxIterations: nat)
    requires |adj| > 0 && Undirected(adj, weight) && Run(adj, weight, m, minGain, seed, trace, false)
    requires 1 < |trace| <= maxIterations
    ensures LocallyOptimal(adj, weight, m, minGain, trace[|trace| - 1])
  {
    hide Undirected, LocallyOptimal, Run;
    RunInRange(adj, weight, m, minGain, seed, trace, false, |trace| - 2);
    StoppedIsOptimal(adj, weight, m, minGain, seed, trace);
  }

  method ComputeLouvain(g: Csr, weight: Weight, seed: Option<nat>, minGain: real, maxIterations: nat)
    returns (labels: seq<nat>, q: Option<real>, ghost trace: seq<seq<nat>>, ghost moved: bool)
    requires g.Valid()
    ensures |labels| == g.NumNodes()
    ensures var adj := Lists(g); var m := Sum(|adj|, DegreeOf(adj, weight)) / 2.0;
      if |adj| == 0 || m == 0.0 then q == None && forall v | 0 <= v < |labels| :: labels[v] == 0
      else
        && Run(adj, weight, m, minGain, seed, trace, moved)
        && |trace| - 1 <= maxIterations && (|trace| - 1 < maxIterations ==> !moved && |trace| > 1)
        && Relabelled(labels, trace[|trace| - 1])
        && q.Some? && (Undirected(adj, weight) ==> q.value == Reported(adj, weight, m, trace[|trace| - 1]))
        && (Undirected(adj, weight) && |trace| - 1 < maxIterations ==>
              LocallyOptimal(adj, weight, m, minGain, trace[|trace| - 1]))
  {
    hide LocallyOptimal, Sum, DegreeOf, Run, Relabelled, Undirected, Books, Strength, Reported;
    var n := g.NumNodes();
    trace, moved := [], false;
    if n == 0 { return [], None, [], false; }
    var degree, sum := Degrees(g, weight);
    var m := sum / 2.0;
    if m == 0.0 { return seq(n, _ => 0), None, [], false; }
    var community := new nat[n](i => i);
    var sigmaIn := new real[n](_ => 0.0);
    var sigmaTot := Copy(degree);
    assert forall v | 0 <= v < n :: community[..][v] == v && sigmaIn[..][v] == 0.0;
    BooksStart(Lists(g), weight, community[..], sigmaTot[..], sigmaIn[..]);
    trace, moved := Passes(g, weight, seed, degree, community, sigmaTot, sigmaIn, m, minGain, maxIterations);
    var value;
    labels, value := Conclude(g, weight, community, sigmaTot, sigmaIn, m);
    q := Some(value);
    if Undirected(Lists(g), weight) && |trace| - 1 < maxIterations {
      StoppedRun(Lists(g), weight, m, minGain, seed, trace, maxIterations);
    }
  }
}
