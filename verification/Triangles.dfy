/** Triangle counting (akar-algo `compute_triangle_count`): sorted neighbour rows
    without duplicates, and merge intersection over canonical triples. */
module Triangles {
  import opened Graphs
  import opened Sorting

  // ------------------------------------------------------------------ the specification

  /** Neighbours: loops, duplicates and entries outside the graph do not count. */
  ghost predicate Next(adj: Adj, v: nat, u: nat) {
    Edge(adj, v, u) && u != v
  }

  /** Three nodes in ascending order. */
  datatype Tri = Tri(a: nat, b: nat, c: nat)

  ghost predicate IsTri(adj: Adj, t: Tri) {
    t.a < t.b < t.c && Next(adj, t.a, t.b) && Next(adj, t.a, t.c) && Next(adj, t.b, t.c)
  }

  ghost predicate Has(t: Tri, x: nat) {
    t.a == x || t.b == x || t.c == x
  }

  ghost function Through(s: set<Tri>, x: nat): set<Tri> {
    set t | t in s && Has(t, x)
  }

  ghost predicate AllTriangles(adj: Adj, s: set<Tri>) {
    forall t :: t in s <==> IsTri(adj, t)
  }

  /** Every node's count is the number of triangles through it. */
  ghost predicate Counted(values: seq<nat>, s: set<Tri>) {
    forall x | 0 <= x < |values| :: values[x] == |Through(s, x)|
  }

  /** Unordered pairs of neighbours of `x` that are themselves neighbours. */
  datatype Pair = Pair(a: nat, b: nat)

  ghost predicate Closes(adj: Adj, x: nat, p: Pair) {
    p.a < p.b && Next(adj, x, p.a) && Next(adj, x, p.b) && Next(adj, p.a, p.b)
  }

  ghost predicate SymmetricNext(adj: Adj) {
    forall u: nat, v: nat | Next(adj, u, v) :: Next(adj, v, u)
  }

  // ------------------------------------------------------------------ rows

  /** The entries that lead to another node of the graph. */
  function Keep(list: seq<nat>, v: nat, n: nat): (r: seq<nat>)
    ensures |r| <= |list|
  {
    if |list| == 0 then []
    else
      var x := list[|list| - 1];
      Keep(list[..|list| - 1], v, n) + if x < n && x != v then [x] else []
  }

  function Dedup(s: seq<nat>): (r: seq<nat>)
    ensures |r| <= |s| && (|s| > 0 ==> |r| > 0 && r[|r| - 1] == s[|s| - 1])
  {
    if |s| <= 1 then s
    else if s[|s| - 1] == s[|s| - 2] then Dedup(s[..|s| - 1])
    else Dedup(s[..|s| - 1]) + [s[|s| - 1]]
  }

  function Row(list: seq<nat>, v: nat, n: nat): seq<nat> {
    Dedup(Sort(Keep(list, v, n)))
  }

  lemma {:induction false} KeepMember(list: seq<nat>, v: nat, n: nat, x: nat)
    ensures x in Keep(list, v, n) <==> x in list && x < n && x != v
  {
    if |list| > 0 {
      KeepMember(list[..|list| - 1], v, n, x);
      assert list == list[..|list| - 1] + [list[|list| - 1]];
    }
  }

  lemma {:induction false} DedupMember(s: seq<nat>, x: nat)
    ensures x in Dedup(s) <==> x in s
  {
    if |s| > 1 {
      var front, last := s[..|s| - 1], s[|s| - 1];
      DedupMember(front, x);
      assert s == front + [last];
      if last == s[|s| - 2] {
        assert last in front by { assert front[|front| - 1] == last; }
      }
    }
  }

  lemma {:induction false} DedupStrict(s: seq<nat>)
    requires Ascending(s)
    ensures Strict(Dedup(s))
  {
    if |s| > 1 {
      var front, last := s[..|s| - 1], s[|s| - 1];
      DedupStrict(front);
      var d := Dedup(front);
      assert d[|d| - 1] == front[|front| - 1];
      if last != s[|s| - 2] {
        assert front[|front| - 1] < last;
        StrictPush(d, last);
      }
    }
  }

  lemma StrictPush(s: seq<nat>, x: nat)
    requires Strict(s) && (|s| > 0 ==> s[|s| - 1] < x)
    ensures Strict(s + [x])
  {
  }

  lemma RowFacts(adj: Adj, v: nat)
    requires v < |adj|
    ensures var r := Row(adj[v], v, |adj|); Strict(r) && forall x :: x in r <==> x >= 0 && Next(adj, v, x)
  {
    var k := Keep(adj[v], v, |adj|);
    SortAscending(k);
    DedupStrict(Sort(k));
    forall x: nat ensures x in Row(adj[v], v, |adj|) <==> Next(adj, v, x) {
      DedupMember(Sort(k), x);
      SortMember(k, x);
      KeepMember(adj[v], v, |adj|, x);
    }
  }

  // ------------------------------------------------------------------ counting

  lemma ThroughAdd(s: set<Tri>, t: Tri, x: nat)
    requires t !in s
    ensures |Through(s + {t}, x)| == |Through(s, x)| + if Has(t, x) then 1 else 0
  {
    if Has(t, x) {
      assert Through(s + {t}, x) == Through(s, x) + {t};
    } else {
      assert Through(s + {t}, x) == Through(s, x);
    }
  }

  lemma CountedAdd(values: seq<nat>, s: set<Tri>, t: Tri)
    requires Counted(values, s) && t !in s && t.a < t.b < t.c < |values|
    ensures Counted(values[t.a := values[t.a] + 1][t.b := values[t.b] + 1][t.c := values[t.c] + 1], s + {t})
  {
    hide Through;
    var values' := values[t.a := values[t.a] + 1][t.b := values[t.b] + 1][t.c := values[t.c] + 1];
    forall x: nat | x < |values| ensures values'[x] == |Through(s + {t}, x)| {
      ThroughAdd(s, t, x);
    }
  }

  ghost function Total(values: seq<nat>): nat {
    if |values| == 0 then 0 else Total(values[..|values| - 1]) + values[|values| - 1]
  }

  lemma {:induction false} TotalRaise(values: seq<nat>, x: nat)
    requires x < |values|
    ensures Total(values[x := values[x] + 1]) == Total(values) + 1
  {
    var n := |values| - 1;
    if x == n {
      assert values[x := values[x] + 1][..n] == values[..n];
    } else {
      TotalRaise(values[..n], x);
      assert values[x := values[x] + 1][..n] == values[..n][x := values[x] + 1];
    }
  }

  // ------------------------------------------------------------------ pairs of neighbours

  /** The two nodes of a triangle other than `x`, in ascending order. */
  ghost function Others(t: Tri, x: nat): Pair {
    if t.a == x then Pair(t.b, t.c) else if t.b == x then Pair(t.a, t.c) else Pair(t.a, t.b)
  }

  lemma {:induction false} ImageCard(s: set<Tri>, x: nat)
    requires forall t | t in s :: t.a < t.b < t.c && Has(t, x)
    ensures |set t | t in s :: Others(t, x)| == |s|
    decreases |s|
  {
    if s != {} {
      var t :| t in s;
      var rest := s - {t};
      ImageCard(rest, x);
      assert (set y | y in s :: Others(y, x)) == (set y | y in rest :: Others(y, x)) + {Others(t, x)};
      assert Others(t, x) !in (set y | y in rest :: Others(y, x));
    }
  }

  /** On a symmetric graph the triangles through `x` are the adjacent pairs of its neighbours. */
  lemma TrianglesArePairs(adj: Adj, s: set<Tri>, x: nat, pairs: set<Pair>)
    requires SymmetricNext(adj) && AllTriangles(adj, s) && forall p :: p in pairs <==> Closes(adj, x, p)
    ensures |Through(s, x)| == |pairs|
  {
    var th := Through(s, x);
    ImageCard(th, x);
    var image := set t | t in th :: Others(t, x);
    forall p ensures p in image <==> p in pairs {
      if p in pairs {
        var t := if x < p.a then Tri(x, p.a, p.b) else if x < p.b then Tri(p.a, x, p.b) else Tri(p.a, p.b, x);
        assert IsTri(adj, t) && t in th && Others(t, x) == p;
      }
    }
    assert image == pairs;
  }

  ghost function Counts(s: set<Tri>, n: nat): (values: seq<nat>)
    ensures |values| == n && Counted(values, s)
  {
    seq(n, x requires x >= 0 => |Through(s, x)|)
  }

  /** Every triangle is counted at its three nodes. */
  lemma {:induction false} TotalTriangles(values: seq<nat>, s: set<Tri>)
    requires Counted(values, s) && forall t | t in s :: t.a < t.b < t.c < |values|
    ensures Total(values) == 3 * |s|
    decreases |s|
  {
    hide Total, Has;
    if s == {} {
      assert forall x | 0 <= x < |values| :: Through(s, x) == {};
      TotalZero(values);
    } else {
      var t :| t in s;
      var rest := s - {t};
      var less := Counts(rest, |values|);
      TotalTriangles(less, rest);
      CountedAdd(less, rest, t);
      hide Through;
      var one := less[t.a := less[t.a] + 1];
      var two := one[t.b := one[t.b] + 1];
      TotalRaise(less, t.a);
      TotalRaise(one, t.b);
      TotalRaise(two, t.c);
      assert rest + {t} == s;
      assert values == two[t.c := two[t.c] + 1];
    }
  }

  lemma {:induction false} TotalZero(values: seq<nat>)
    requires forall x | 0 <= x < |values| :: values[x] == 0
    ensures Total(values) == 0
  {
    if |values| > 0 { TotalZero(values[..|values| - 1]); }
  }

  // ------------------------------------------------------------------ the flat rows

  method SortSlice(a: array<nat>, lo: nat, hi: nat)
    requires lo <= hi <= a.Length
    modifies a
    ensures a[..lo] == old(a[..lo]) && a[lo..hi] == Sort(old(a[lo..hi]))
  {
    hide Sort;
    var sorted := Sort(a[lo..hi]);
    ghost var before := a[..lo];
    for i := 0 to hi - lo
      invariant a[..lo] == before && a[lo..lo + i] == sorted[..i]
    {
      a[lo + i] := sorted[i];
      assert a[lo..lo + (i + 1)] == a[lo..lo + i] + [sorted[i]];
    }
    assert sorted[..hi - lo] == sorted;
  }

  /** In-place removal of repeated neighbours in a sorted slice. */
  method Compact(a: array<nat>, lo: nat, hi: nat) returns (write: nat)
    requires lo < hi <= a.Length
    modifies a
    ensures lo < write <= hi && a[..lo] == old(a[..lo]) && a[lo..write] == Dedup(old(a[lo..hi]))
  {
    hide Compacted;
    ghost var b := a[..];
    write := lo + 1;
    CompactStart(b, lo, hi);
    for read := lo + 1 to hi
      invariant lo < write <= read && Compacted(b, a[..], lo, hi, write, read)
    {
      CompactStep(b, a[..], lo, hi, write, read);
      if a[read] != a[write - 1] {
        ghost var a0 := a[..];
        a[write] := a[read];
        assert a[..] == a0[write := a0[read]];
        write := write + 1;
      }
    }
    CompactDone(b, a[..], lo, hi, write);
    assert a[lo..write] == a[..][lo..write] && a[..lo] == a[..][..lo];
  }

  /** The slice up to `read` is compacted, the rest is as it was. */
  ghost predicate Compacted(b: seq<nat>, a: seq<nat>, lo: nat, hi: nat, write: nat, read: nat) {
    && lo < write <= read <= hi <= |a| == |b|
    && a[..lo] == b[..lo] && a[lo..write] == Dedup(b[lo..read]) && a[read..hi] == b[read..hi]
  }

  lemma CompactStart(b: seq<nat>, lo: nat, hi: nat)
    requires lo < hi <= |b|
    ensures Compacted(b, b, lo, hi, lo + 1, lo + 1)
  {
    DedupOne(b[lo..lo + 1]);
  }

  lemma CompactStep(b: seq<nat>, a: seq<nat>, lo: nat, hi: nat, write: nat, read: nat)
    requires Compacted(b, a, lo, hi, write, read) && read < hi
    ensures if a[read] != a[write - 1] then Compacted(b, a[write := a[read]], lo, hi, write + 1, read + 1)
            else Compacted(b, a, lo, hi, write, read + 1)
  {
    hide Dedup;
    CompactNext(b, a, lo, hi, write, read);
    if a[read] != a[write - 1] {
      WriteNext(a, lo, hi, write, read);
    }
  }

  /** What reading one more element does to the deduplicated slice. */
  lemma CompactNext(b: seq<nat>, a: seq<nat>, lo: nat, hi: nat, write: nat, read: nat)
    requires Compacted(b, a, lo, hi, write, read) && read < hi
    ensures var d := a[lo..write];
      Dedup(b[lo..read + 1]) == if a[read] == a[write - 1] then d else d + [a[read]]
    ensures a[read + 1..hi] == b[read + 1..hi]
  {
    hide Dedup;
    DedupStep(b[lo..hi], read - lo);
    SliceNext(b, lo, read, hi);
    SliceNext(a, lo, read, hi);
    var d := a[lo..write];
    assert d[|d| - 1] == a[write - 1];
  }

  lemma SliceNext(s: seq<nat>, lo: nat, i: nat, hi: nat)
    requires lo <= i < hi <= |s|
    ensures s[lo..hi][..i - lo] == s[lo..i] && s[lo..hi][..i - lo + 1] == s[lo..i + 1]
    ensures s[lo..hi][i - lo] == s[i] == s[i..hi][0] && s[i + 1..hi] == s[i..hi][1..]
  {
  }

  lemma WriteNext(a: seq<nat>, lo: nat, hi: nat, write: nat, read: nat)
    requires lo < write <= read < hi <= |a|
    ensures var a' := a[write := a[read]];
      && a'[..lo] == a[..lo] && a'[lo..write + 1] == a[lo..write] + [a[read]]
      && a'[read + 1..hi] == a[read + 1..hi]
  {
    var a' := a[write := a[read]];
    assert a'[lo..write + 1] == a'[lo..write] + [a'[write]];
    assert a'[lo..write] == a[lo..write];
  }

  lemma CompactDone(b: seq<nat>, a: seq<nat>, lo: nat, hi: nat, write: nat)
    requires Compacted(b, a, lo, hi, write, hi)
    ensures lo < write <= hi <= |a| && a[..lo] == b[..lo] && a[lo..write] == Dedup(b[lo..hi])
  {
  }

  lemma DedupOne(s: seq<nat>)
    requires |s| == 1
    ensures Dedup(s) == s
  {
  }

  lemma DedupStep(s: seq<nat>, i: nat)
    requires 0 < i < |s|
    ensures var d := Dedup(s[..i]);
      |d| > 0 && Dedup(s[..i + 1]) == if s[i] == d[|d| - 1] then d else d + [s[i]]
  {
    assert s[..i + 1][..i] == s[..i];
  }

  lemma KeepNone(list: seq<nat>, v: nat, n: nat)
    ensures Keep(list[..0], v, n) == []
  {
  }

  lemma KeepNext(list: seq<nat>, j: nat, v: nat, n: nat)
    requires j < |list|
    ensures Keep(list[..j + 1], v, n) == Keep(list[..j], v, n) + if list[j] < n && list[j] != v then [list[j]] else []
  {
    assert list[..j + 1][..j] == list[..j];
  }

  method PushRow(g: Csr, v: nat, flat: array<nat>, len: nat) returns (end: nat)
    requires g.Valid() && v < g.NumNodes() && len + g.Degree(v) <= flat.Length
    modifies flat
    ensures len <= end <= len + g.Degree(v) && flat[..len] == old(flat[..len])
    ensures flat[len..end] == Row(Lists(g)[v], v, g.NumNodes())
  {
    hide Sort, Dedup, Keep;
    ghost var list, before := Lists(g)[v], flat[..len];
    KeepNone(list, v, g.NumNodes());
    var n := g.NumNodes();
    end := len;
    for j := 0 to g.Degree(v)
      invariant len <= end <= len + j && flat[..len] == before
      invariant flat[len..end] == Keep(list[..j], v, n)
    {
      KeepNext(list, j, v, n);
      var u := g.Target(v, j);
      if u < n && u != v {
        flat[end] := u;
        end := end + 1;
        assert flat[len..end] == flat[len..end - 1] + [u];
      }
    }
    assert list[..|list|] == list;
    SortSlice(flat, len, end);
    if end > len {
      end := Compact(flat, len, end);
    } else {
      DedupNone(flat[len..end]);
    }
  }

  lemma DedupNone(s: seq<nat>)
    requires |s| == 0
    ensures Dedup(s) == s
  {
  }

  ghost predicate RowAt(adj: Adj, flat: seq<nat>, offsets: seq<nat>, v: nat) {
    && v < |adj| && v + 1 < |offsets| && offsets[v] <= offsets[v + 1] <= |flat|
    && flat[offsets[v]..offsets[v + 1]] == Row(adj[v], v, |adj|)
  }

  lemma RowKept(adj: Adj, flat: seq<nat>, offsets: seq<nat>, flat': seq<nat>, offsets': seq<nat>, u: nat)
    requires RowAt(adj, flat, offsets, u) && flat <= flat' && |offsets'| == |offsets|
    requires offsets'[u] == offsets[u] && offsets'[u + 1] == offsets[u + 1]
    ensures RowAt(adj, flat', offsets', u)
  {
    hide Row;
    var i, j := offsets[u], offsets[u + 1];
    assert flat'[i..j] == flat'[..|flat|][i..j];
  }

  method Flatten(g: Csr) returns (flat: array<nat>, offsets: array<nat>)
    requires g.Valid() && g.NumNodes() > 0
    ensures fresh(flat) && fresh(offsets) && offsets.Length == g.NumNodes() + 1
    ensures forall v: nat | v < g.NumNodes() :: RowAt(Lists(g), flat[..], offsets[..], v)
  {
    hide Row;
    var n := g.NumNodes();
    ghost var adj := Lists(g);
    flat := new nat[|g.adjacency|];
    offsets := new nat[n + 1];
    var len := 0;
    offsets[0] := 0;
    for v := 0 to n
      invariant len <= g.offsets[v] && len <= flat.Length && offsets[v] == len
      invariant forall u: nat | u < v :: RowAt(adj, flat[..len], offsets[..], u)
    {
      ghost var flat0, offsets0, len0 := flat[..len], offsets[..], len;
      len := PushRow(g, v, flat, len);
      offsets[v + 1] := len;
      assert flat[..len][..len0] == flat[..len0];
      forall u: nat | u < v ensures RowAt(adj, flat[..len], offsets[..], u) {
        RowKept(adj, flat0, offsets0, flat[..len], offsets[..], u);
      }
      assert flat[..len][len0..len] == flat[len0..len];
      assert offsets[..][v] == len0 && offsets[..][v + 1] == len;
      assert RowAt(adj, flat[..len], offsets[..], v);
    }
    forall u: nat | u < n ensures RowAt(adj, flat[..], offsets[..], u) {
      RowKept(adj, flat[..len], offsets[..], flat[..], offsets[..], u);
    }
  }

  // ------------------------------------------------------------------ intersecting rows

  /** How many entries of a strictly ascending row are at most `x`. */
  method PartitionPoint(s: seq<nat>, x: nat) returns (k: nat)
    requires Strict(s)
    ensures k <= |s| && (forall i | 0 <= i < k :: s[i] <= x) && (forall i | k <= i < |s| :: s[i] > x)
  {
    k := 0;
    var hi := |s|;
    while k < hi
      invariant 0 <= k <= hi <= |s|
      invariant forall i | 0 <= i < k :: s[i] <= x
      invariant forall i | hi <= i < |s| :: s[i] > x
    {
      var mid := (k + hi) / 2;
      if s[mid] <= x { k := mid + 1; } else { hi := mid; }
    }
  }

  /** What has been passed on either side is below what is ahead on the other. */
  ghost predicate Crossed(p: seq<nat>, q: seq<nat>, i: nat, j: nat) {
    && i <= |p| && j <= |q|
    && (i < |p| ==> forall b | 0 <= b < j :: q[b] < p[i])
    && (j < |q| ==> forall a | 0 <= a < i :: p[a] < q[j])
  }

  ghost predicate Common(p: seq<nat>, q: seq<nat>, i: nat, j: nat, w: nat)
    requires i <= |p| && j <= |q|
  {
    w in p[..i] && w in q[..j]
  }

  lemma CrossedStep(p: seq<nat>, q: seq<nat>, i: nat, j: nat)
    requires Strict(p) && Strict(q) && Crossed(p, q, i, j) && i < |p| && j < |q|
    ensures p[i] == q[j] ==> Crossed(p, q, i + 1, j + 1) && p[i] !in p[..i]
    ensures p[i] == q[j] ==> forall w :: Common(p, q, i + 1, j + 1, w) <==> Common(p, q, i, j, w) || w == p[i]
    ensures p[i] < q[j] ==> Crossed(p, q, i + 1, j) && forall w :: Common(p, q, i + 1, j, w) <==> Common(p, q, i, j, w)
    ensures p[i] > q[j] ==> Crossed(p, q, i, j + 1) && forall w :: Common(p, q, i, j + 1, w) <==> Common(p, q, i, j, w)
  {
    CrossedKept(p, q, i, j);
    hide Crossed;
    forall w: nat
      ensures w in p[..i + 1] <==> w in p[..i] || w == p[i]
      ensures w in q[..j + 1] <==> w in q[..j] || w == q[j]
    {
      assert p[..i + 1] == p[..i] + [p[i]] && q[..j + 1] == q[..j] + [q[j]];
    }
  }

  lemma CrossedKept(p: seq<nat>, q: seq<nat>, i: nat, j: nat)
    requires Strict(p) && Strict(q) && Crossed(p, q, i, j) && i < |p| && j < |q|
    ensures p[i] == q[j] ==> Crossed(p, q, i + 1, j + 1)
    ensures p[i] < q[j] ==> Crossed(p, q, i + 1, j)
    ensures p[i] > q[j] ==> Crossed(p, q, i, j + 1)
    ensures p[i] !in p[..i] && p[i] !in q[..j] && q[j] !in p[..i]
  {
  }

  lemma CrossedDone(p: seq<nat>, q: seq<nat>, i: nat, j: nat, w: nat)
    requires Strict(p) && Strict(q) && Crossed(p, q, i, j) && (i == |p| || j == |q|)
    ensures Common(p, q, i, j, w) <==> w in p && w in q
  {
    if w in p && w in q {
      var a :| 0 <= a < |p| && p[a] == w;
      var b :| 0 <= b < |q| && q[b] == w;
      if i == |p| {
        assert b < j;
        assert q[..j][b] == w && p[..i][a] == w;
      } else {
        assert a < i;
        assert q[..j][b] == w && p[..i][a] == w;
      }
    }
  }

  /** The triangles found so far with those whose third node is common to the prefixes. */
  ghost predicate Grown(found: set<Tri>, base: set<Tri>, v: nat, u: nat, p: seq<nat>, q: seq<nat>, i: nat, j: nat)
    requires i <= |p| && j <= |q|
  {
    forall t :: t in found <==> t in base || (t.a == v && t.b == u && Common(p, q, i, j, t.c))
  }

  method Raise(values: array<nat>, t: Tri)
    requires t.a < t.b < t.c < values.Length
    modifies values
    ensures values[..]
      == old(values[..])[t.a := old(values[t.a]) + 1][t.b := old(values[t.b]) + 1][t.c := old(values[t.c]) + 1]
  {
    values[t.a] := values[t.a] + 1;
    values[t.b] := values[t.b] + 1;
    values[t.c] := values[t.c] + 1;
  }

  method Intersect(values: array<nat>, p: seq<nat>, q: seq<nat>, v: nat, u: nat, ghost base: set<Tri>)
      returns (ghost found: set<Tri>)
    requires Strict(p) && Strict(q) && v < u && forall w | w in p :: u < w < values.Length
    requires Counted(values[..], base) && forall w :: Tri(v, u, w) !in base
    modifies values
    ensures Counted(values[..], found)
    ensures forall t :: t in found <==> t in base || (t.a == v && t.b == u && t.c in p && t.c in q)
  {
    hide Counted, Strict, Common, Crossed;
    found := base;
    var i, j := 0, 0;
    CrossedStart(p, q);
    while i < |p| && j < |q|
      invariant 0 <= i <= |p| && 0 <= j <= |q| && Crossed(p, q, i, j)
      invariant Counted(values[..], found) && Grown(found, base, v, u, p, q, i, j)
      decreases |p| - i + |q| - j
    {
      CrossedStep(p, q, i, j);
      var a, b := p[i], q[j];
      if a == b {
        var t := Tri(v, u, a);
        assert t !in found by { NotCommon(p, q, i, j, a); }
        assert a in p;
        CountedAdd(values[..], found, t);
        Raise(values, t);
        found := found + {t};
        i, j := i + 1, j + 1;
      } else if a < b {
        i := i + 1;
      } else {
        j := j + 1;
      }
    }
    forall w ensures Common(p, q, i, j, w) <==> w in p && w in q {
      CrossedDone(p, q, i, j, w);
    }
  }

  lemma CrossedStart(p: seq<nat>, q: seq<nat>)
    ensures Crossed(p, q, 0, 0) && forall w :: !Common(p, q, 0, 0, w)
  {
  }

  lemma NotCommon(p: seq<nat>, q: seq<nat>, i: nat, j: nat, w: nat)
    requires i <= |p| && j <= |q| && w !in p[..i]
    ensures !Common(p, q, i, j, w)
  {
  }

  // ------------------------------------------------------------------ the whole count

  /** The entries behind a cut that separates those up to `x`. */
  lemma Above(s: seq<nat>, k: nat, x: nat)
    requires Strict(s) && k <= |s| && (forall i | 0 <= i < k :: s[i] <= x) && (forall i | k <= i < |s| :: s[i] > x)
    ensures Strict(s[k..]) && forall w :: w in s[k..] <==> w in s && w > x
  {
    forall w ensures w in s[k..] <==> w in s && w > x {
      if w in s && w > x {
        var i :| 0 <= i < |s| && s[i] == w;
        assert s[k..][i - k] == w;
      }
      if w in s[k..] {
        var i :| 0 <= i < |s[k..]| && s[k..][i] == w;
        assert s[k + i] == w;
      }
    }
  }

  /** All triangles of smaller first nodes, and those of `v` whose second node is in `us`. */
  ghost predicate FoundUpTo(adj: Adj, found: set<Tri>, v: nat, us: seq<nat>) {
    forall t :: t in found <==> IsTri(adj, t) && (t.a < v || (t.a == v && t.b in us))
  }

  lemma FoundNext(adj: Adj, found: set<Tri>, found': set<Tri>, v: nat, upper: seq<nat>, pos: nat, p: seq<nat>,
                  q: seq<nat>)
    requires pos < |upper| && FoundUpTo(adj, found, v, upper[..pos]) && v < upper[pos] && Next(adj, v, upper[pos])
    requires forall w :: w in p <==> w >= 0 && Next(adj, v, w) && w > upper[pos]
    requires forall w :: w in q <==> w >= 0 && Next(adj, upper[pos], w) && w > upper[pos]
    requires forall t :: t in found' <==> t in found || (t.a == v && t.b == upper[pos] && t.c in p && t.c in q)
    ensures FoundUpTo(adj, found', v, upper[..pos + 1])
  {
    hide Next;
    assert upper[..pos + 1] == upper[..pos] + [upper[pos]];
  }

  lemma FoundRow(adj: Adj, found: set<Tri>, v: nat, upper: seq<nat>)
    requires FoundUpTo(adj, found, v, upper) && forall w :: w in upper <==> w >= 0 && Next(adj, v, w) && w > v
    ensures FoundUpTo(adj, found, v + 1, [])
  {
    hide Next;
  }

  method CountPair(ghost adj: Adj, flat: array<nat>, offsets: array<nat>, values: array<nat>, v: nat, upper: seq<nat>,
                   pos: nat, ghost base: set<Tri>)
    returns (ghost found: set<Tri>)
    requires |adj| == values.Length && v < |adj| && values != flat && values != offsets
    requires forall u: nat | u < |adj| :: RowAt(adj, flat[..], offsets[..], u)
    requires pos < |upper| && Strict(upper) && forall w :: w in upper <==> w >= 0 && Next(adj, v, w) && w > v
    requires forall w | w in upper :: w < |adj|
    requires Counted(values[..], base) && FoundUpTo(adj, base, v, upper[..pos])
    modifies values
    ensures Counted(values[..], found) && FoundUpTo(adj, found, v, upper[..pos + 1])
  {
    hide Counted, FoundUpTo, Row, Next, Strict;
    var u := upper[pos];
    assert u in upper;
    var other := Slice(adj, flat, offsets, u);
    var cut := PartitionPoint(other, u);
    Above(other, cut, u);
    StrictCut(upper, pos);
    Above(upper, pos + 1, u);
    var p, q := upper[pos + 1..], other[cut..];
    NotYet(adj, base, v, upper, pos);
    found := Intersect(values, p, q, v, u, base);
    FoundNext(adj, base, found, v, upper, pos, p, q);
  }

  method CountFrom(ghost adj: Adj, flat: array<nat>, offsets: array<nat>, values: array<nat>, v: nat,
                   ghost base: set<Tri>)
    returns (ghost found: set<Tri>)
    requires |adj| == values.Length && v < |adj| && values != flat && values != offsets
    requires forall u: nat | u < |adj| :: RowAt(adj, flat[..], offsets[..], u)
    requires Counted(values[..], base) && FoundUpTo(adj, base, v, [])
    modifies values
    ensures Counted(values[..], found) && FoundUpTo(adj, found, v + 1, [])
  {
    hide Counted, FoundUpTo, Row, Next, Strict;
    found := base;
    var row := Slice(adj, flat, offsets, v);
    var cut := PartitionPoint(row, v);
    Above(row, cut, v);
    var upper := row[cut..];
    assert upper[..0] == [];
    for pos := 0 to |upper|
      invariant Counted(values[..], found) && FoundUpTo(adj, found, v, upper[..pos])
    {
      found := CountPair(adj, flat, offsets, values, v, upper, pos, found);
    }
    assert upper[..|upper|] == upper;
    FoundRow(adj, found, v, upper);
  }

  lemma StrictCut(s: seq<nat>, pos: nat)
    requires Strict(s) && pos < |s|
    ensures (forall i | 0 <= i < pos + 1 :: s[i] <= s[pos]) && (forall i | pos + 1 <= i < |s| :: s[i] > s[pos])
  {
  }

  lemma NotYet(adj: Adj, found: set<Tri>, v: nat, upper: seq<nat>, pos: nat)
    requires pos < |upper| && FoundUpTo(adj, found, v, upper[..pos]) && Strict(upper)
    ensures forall w :: Tri(v, upper[pos], w) !in found
  {
    assert upper[pos] !in upper[..pos];
  }

  /** The neighbours of a node, from the flat rows. */
  method Slice(ghost adj: Adj, flat: array<nat>, offsets: array<nat>, v: nat) returns (row: seq<nat>)
    requires v < |adj| && RowAt(adj, flat[..], offsets[..], v)
    ensures Strict(row) && forall x :: x in row <==> x >= 0 && Next(adj, v, x)
    ensures forall x | x in row :: x < |adj|
  {
    RowFacts(adj, v);
    row := flat[offsets[v]..offsets[v + 1]];
    assert row == flat[..][offsets[v]..offsets[v + 1]];
  }

  method ComputeTriangleCount(g: Csr) returns (values: seq<nat>, ghost all: set<Tri>)
    requires g.Valid()
    ensures |values| == g.NumNodes() && AllTriangles(Lists(g), all) && Counted(values, all)
    ensures Total(values) == 3 * |all|
  {
    hide Counted, RowAt, Next, Total;
    var n := g.NumNodes();
    ghost var adj := Lists(g);
    all := {};
    var counts := new nat[n](_ => 0);
    assert Counted(counts[..], {}) by { CountedNone(counts[..]); }
    if n > 0 {
      var flat, offsets := Flatten(g);
      for v := 0 to n
        invariant Counted(counts[..], all) && FoundUpTo(adj, all, v, [])
        invariant forall u: nat | u < |adj| :: RowAt(adj, flat[..], offsets[..], u)
      {
        hide FoundUpTo;
        all := CountFrom(adj, flat, offsets, counts, v, all);
      }
    }
    values := counts[..];
    FoundAll(adj, all);
    TotalTriangles(values, all);
  }

  lemma CountedNone(values: seq<nat>)
    requires forall x | 0 <= x < |values| :: values[x] == 0
    ensures Counted(values, {})
  {
    assert forall x :: Through({}, x) == {};
  }

  lemma FoundAll(adj: Adj, found: set<Tri>)
    requires FoundUpTo(adj, found, |adj|, [])
    ensures AllTriangles(adj, found) && forall t | t in found :: t.a < t.b < t.c < |adj|
  {
  }
}
