/** Communities in a weighted graph: degree sums, weight inside, and the quality
    that Louvain's gain measures.  `a(v, w)` is the weight of all entries of `v`
    that lead to `w`, `k(v)` the weighted degree. */
module Modularity {
  import opened Sums

  type Matrix = (int, int) -> real

  ghost function Part(comm: seq<nat>, c: nat, v: int, x: real): real {
    if 0 <= v < |comm| && comm[v] == c then x else 0.0
  }

  /** The weight from `v` into community `c`. */
  ghost function To(a: Matrix, comm: seq<nat>, v: int, c: nat): real {
    Sum(|comm|, w => Part(comm, c, w, a(v, w)))
  }

  /** The degrees of the members of `c`. */
  ghost function Tot(k: int -> real, comm: seq<nat>, c: nat): real {
    Sum(|comm|, v => Part(comm, c, v, k(v)))
  }

  /** The weight of the ordered pairs inside `c`: twice its internal edge weight. */
  ghost function Inside(a: Matrix, comm: seq<nat>, c: nat): real {
    Sum(|comm|, v => Part(comm, c, v, To(a, comm, v, c)))
  }

  function Share(inside: real, tot: real, m: real): real
    requires m != 0.0
  {
    inside / 2.0 / m - (tot / (2.0 * m)) * (tot / (2.0 * m))
  }

  ghost function QualityOf(a: Matrix, k: int -> real, m: real, comm: seq<nat>, c: int): real {
    if m == 0.0 || c < 0 then 0.0 else Share(Inside(a, comm, c), Tot(k, comm, c), m)
  }

  /** The sum over the communities of their internal edge weight over `m`, less the
      square of their degree sum over `2m`: Newman's modularity. */
  ghost function Quality(a: Matrix, k: int -> real, m: real, comm: seq<nat>): real {
    Sum(|comm|, c => QualityOf(a, k, m, comm, c))
  }

  ghost predicate Symmetric(a: Matrix, n: nat) {
    (forall v, w | 0 <= v < n && 0 <= w < n :: a(v, w) == a(w, v)) && forall v | 0 <= v < n :: a(v, v) == 0.0
  }

  // ------------------------------------------------------------------ one node moves

  lemma TotMove(k: int -> real, comm: seq<nat>, v: nat, d: nat, c: nat)
    requires v < |comm| && comm[v] != d
    ensures Tot(k, comm[v := d], c) == Tot(k, comm, c) + (if c == d then k(v) else if c == comm[v] then -k(v) else 0.0)
  {
    hide Sum;
    var comm' := comm[v := d];
    var f, f' := (u: int) => Part(comm, c, u, k(u)), (u: int) => Part(comm', c, u, k(u));
    forall u | 0 <= u < |comm| && u != v ensures f(u) == f'(u) {
      assert Part(comm, c, u, k(u)) == Part(comm', c, u, k(u));
    }
    SumChange(|comm|, v, f, f');
  }

  lemma ToMove(a: Matrix, comm: seq<nat>, v: nat, d: nat, u: int, c: nat)
    requires v < |comm| && comm[v] != d
    ensures To(a, comm[v := d], u, c)
      == To(a, comm, u, c) + (if c == d then a(u, v) else if c == comm[v] then -a(u, v) else 0.0)
  {
    hide Sum;
    var comm' := comm[v := d];
    var f, f' := (w: int) => Part(comm, c, w, a(u, w)), (w: int) => Part(comm', c, w, a(u, w));
    forall w | 0 <= w < |comm| && w != v ensures f(w) == f'(w) {
      assert Part(comm, c, w, a(u, w)) == Part(comm', c, w, a(u, w));
    }
    SumChange(|comm|, v, f, f');
    assert f(v) == Part(comm, c, v, a(u, v)) && f'(v) == Part(comm', c, v, a(u, v));
  }

  /** The members' weight to `v` is `v`'s weight to the members. */
  lemma ToColumn(a: Matrix, comm: seq<nat>, v: nat, c: nat)
    requires v < |comm| && Symmetric(a, |comm|)
    ensures Sum(|comm|, u => Part(comm, c, u, a(u, v))) == To(a, comm, v, c)
  {
    hide Sum;
    SumEq(|comm|, u => Part(comm, c, u, a(u, v)), w => Part(comm, c, w, a(v, w)));
  }

  lemma InsideLeft(a: Matrix, comm: seq<nat>, v: nat, d: nat)
    requires v < |comm| && comm[v] != d && Symmetric(a, |comm|)
    ensures Inside(a, comm[v := d], comm[v]) == Inside(a, comm, comm[v]) - 2.0 * To(a, comm, v, comm[v])
  {
    hide Sum, To;
    var n, c, comm' := |comm|, comm[v], comm[v := d];
    var f := (u: int) => Part(comm, c, u, To(a, comm, u, c));
    var g := (u: int) => Part(comm, c, u, a(u, v));
    var g' := (u: int) => Part(comm, c, u, -a(u, v));
    var h := (u: int) => Part(comm, c, u, To(a, comm, u, c) - a(u, v));
    var f' := (u: int) => Part(comm', c, u, To(a, comm', u, c));
    SumScale(n, -1.0, g, g');
    SumAdd(n, f, g', h);
    forall u | 0 <= u < n && u != v ensures h(u) == f'(u) {
      ToMove(a, comm, v, d, u, c);
    }
    SumChange(n, v, h, f');
    ToColumn(a, comm, v, c);
    SumEq(n, g, u => Part(comm, c, u, a(u, v)));
  }

  lemma InsideJoined(a: Matrix, comm: seq<nat>, v: nat, d: nat)
    requires v < |comm| && comm[v] != d && Symmetric(a, |comm|)
    ensures Inside(a, comm[v := d], d) == Inside(a, comm, d) + 2.0 * To(a, comm, v, d)
  {
    hide Sum, To;
    var n, comm' := |comm|, comm[v := d];
    var f := (u: int) => Part(comm, d, u, To(a, comm, u, d));
    var g := (u: int) => Part(comm, d, u, a(u, v));
    var h := (u: int) => Part(comm, d, u, To(a, comm, u, d) + a(u, v));
    var f' := (u: int) => Part(comm', d, u, To(a, comm', u, d));
    SumAdd(n, f, g, h);
    forall u | 0 <= u < n && u != v ensures h(u) == f'(u) {
      ToMove(a, comm, v, d, u, d);
    }
    SumChange(n, v, h, f');
    ToColumn(a, comm, v, d);
    ToMove(a, comm, v, d, v, d);
    SumEq(n, g, u => Part(comm, d, u, a(u, v)));
  }

  lemma InsideOther(a: Matrix, comm: seq<nat>, v: nat, d: nat, c: nat)
    requires v < |comm| && comm[v] != d && c != d && c != comm[v]
    ensures Inside(a, comm[v := d], c) == Inside(a, comm, c)
  {
    hide Sum, To;
    var n, comm' := |comm|, comm[v := d];
    var f := (u: int) => Part(comm, c, u, To(a, comm, u, c));
    var f' := (u: int) => Part(comm', c, u, To(a, comm', u, c));
    forall u | 0 <= u < n ensures f(u) == f'(u) {
      ToMove(a, comm, v, d, u, c);
    }
    SumEq(n, f, f');
  }

  /** The gain Louvain computes for moving `v` to community `d`. */
  function Gain(toNew: real, toOld: real, kv: real, totOld: real, totNew: real, m: real): real
    requires m != 0.0
  {
    (toNew - toOld) / m + kv * (totOld - totNew - kv) / (2.0 * m * m)
  }

  lemma GainAlgebra(toNew: real, toOld: real, kv: real, inOld: real, inNew: real, totOld: real, totNew: real, m: real)
    requires m != 0.0
    ensures Gain(toNew, toOld, kv, totOld, totNew, m) ==
            Share(inOld - 2.0 * toOld, totOld - kv, m) - Share(inOld, totOld, m)
            + Share(inNew + 2.0 * toNew, totNew + kv, m) - Share(inNew, totNew, m)
  {
    var r := 1.0 / m;
    var s, ok, nk, kk, oo, nn := r * r, totOld * kv, totNew * kv, kv * kv, totOld * totOld, totNew * totNew;
    ShareOver(inOld - 2.0 * toOld, totOld - kv, oo - 2.0 * ok + kk, m, r, s);
    ShareOver(inOld, totOld, oo, m, r, s);
    ShareOver(inNew + 2.0 * toNew, totNew + kv, nn + 2.0 * nk + kk, m, r, s);
    ShareOver(inNew, totNew, nn, m, r, s);
    GainOver(toNew, toOld, kv, totOld, totNew, ok - nk - kk, m, r, s);
    hide Share, Gain;
    GainPolynomial(toNew, toOld, ok, nk, kk, inOld, inNew, oo, nn, r, s);
  }

  lemma Over(x: real, m: real, r: real)
    requires m != 0.0 && r * m == 1.0
    ensures x / m == x * r
  {
    assert x == (x * r) * m by { assert (x * r) * m == x * (r * m); }
  }

  lemma ShareOver(inside: real, tot: real, square: real, m: real, r: real, s: real)
    requires m != 0.0 && r == 1.0 / m && s == r * r && square == tot * tot
    ensures Share(inside, tot, m) == inside * r / 2.0 - square * s / 4.0
  {
    assert r * m == 1.0;
    Over(inside / 2.0, m, r);
    Over(tot, 2.0 * m, r / 2.0);
    var h := tot * r;
    assert tot / (2.0 * m) == h / 2.0;
    assert (h / 2.0) * (h / 2.0) == h * h / 4.0;
    assert h * h == square * s;
  }

  lemma GainOver(toNew: real, toOld: real, kv: real, totOld: real, totNew: real, x: real, m: real, r: real, s: real)
    requires m != 0.0 && r == 1.0 / m && s == r * r && x == kv * (totOld - totNew - kv)
    ensures Gain(toNew, toOld, kv, totOld, totNew, m) == (toNew - toOld) * r + x * s / 2.0
  {
    assert r * m == 1.0;
    Over(toNew - toOld, m, r);
    assert (s / 2.0) * (2.0 * m * m) == (r * m) * (r * m);
    Over(x, 2.0 * m * m, s / 2.0);
  }

  lemma GainPolynomial(toNew: real, toOld: real, ok: real, nk: real, kk: real, inOld: real, inNew: real, oo: real,
                       nn: real, r: real, s: real)
    ensures (toNew - toOld) * r + (ok - nk - kk) * s / 2.0 ==
            (inOld - 2.0 * toOld) * r / 2.0 - (oo - 2.0 * ok + kk) * s / 4.0 - (inOld * r / 2.0 - oo * s / 4.0)
            + ((inNew + 2.0 * toNew) * r / 2.0 - (nn + 2.0 * nk + kk) * s / 4.0) - (inNew * r / 2.0 - nn * s / 4.0)
  {
  }

  /** Louvain's gain is the change of quality when `v` alone moves to `d`. */
  lemma GainIsChange(a: Matrix, k: int -> real, m: real, comm: seq<nat>, v: nat, d: nat)
    requires m != 0.0 && Symmetric(a, |comm|) && v < |comm| && d < |comm| && comm[v] < |comm| && comm[v] != d
    ensures Quality(a, k, m, comm[v := d]) - Quality(a, k, m, comm) ==
            Gain(To(a, comm, v, d), To(a, comm, v, comm[v]), k(v), Tot(k, comm, comm[v]), Tot(k, comm, d), m)
  {
    hide Sum, To, Tot, Inside, Share, Gain;
    var n, c, comm' := |comm|, comm[v], comm[v := d];
    var f := (x: int) => QualityOf(a, k, m, comm, x);
    var f' := (x: int) => QualityOf(a, k, m, comm', x);
    var h := (x: int) => if x == c then f'(c) else f(x);
    SumChange(n, c, f, h);
    forall x | 0 <= x < n && x != d ensures h(x) == f'(x) {
      if x != c {
        InsideOther(a, comm, v, d, x);
        TotMove(k, comm, v, d, x);
      }
    }
    SumChange(n, d, h, f');
    InsideLeft(a, comm, v, d);
    InsideJoined(a, comm, v, d);
    TotMove(k, comm, v, d, c);
    TotMove(k, comm, v, d, d);
    GainAlgebra(To(a, comm, v, d), To(a, comm, v, c), k(v), Inside(a, comm, c), Inside(a, comm, d), Tot(k, comm, c),
                Tot(k, comm, d), m);
  }

  /** The communities' degree sums add up to all degrees. */
  lemma TotTotal(k: int -> real, comm: seq<nat>)
    requires forall v | 0 <= v < |comm| :: comm[v] < |comm|
    ensures Sum(|comm|, c => if c < 0 then 0.0 else Tot(k, comm, c)) == Sum(|comm|, k)
  {
    hide Sum;
    var n := |comm|;
    var f := (c: int, v: int) => if c < 0 then 0.0 else Part(comm, c, v, k(v));
    SumSwap(n, n, f);
    forall c | 0 <= c < n ensures Tot(k, comm, c) == (x => Sum(n, v => f(x, v)))(c) {
      SumEq(n, v => Part(comm, c, v, k(v)), v => f(c, v));
    }
    SumEq(n, c => if c < 0 then 0.0 else Tot(k, comm, c), c => Sum(n, v => f(c, v)));
    forall v | 0 <= v < n ensures (y => Sum(n, c => f(c, y)))(v) == k(v) {
      var g := (c: int) => f(c, v);
      forall c | 0 <= c < n && c != comm[v] ensures g(c) == 0.0 {
        assert Part(comm, c, v, k(v)) == 0.0;
      }
      SumSingle(n, comm[v], g);
    }
    SumEq(n, v => Sum(n, c => f(c, v)), k);
  }
}
