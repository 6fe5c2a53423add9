/** Spreading activation (akar-algo): hop by hop from the seeds, over scratch buffers
    that a batch of runs resets only where they were written. */
module Spread {
  import opened Graphs
  import opened Buckets
  import opened Sorting
  import CsrBuild

  /** What a run depends on besides its seeds. */
  datatype Net = Net(adj: Adj, weight: (nat, nat) -> real, decay: real, threshold: real)

  // ------------------------------------------------------------------ one hop, as a function

  /** Activation, hop at which a node was reached, nodes in the order they were
      reached, and the nodes that spread next. */
  datatype Wave = Wave(act: seq<real>, hop: seq<nat>, visited: seq<nat>, frontier: seq<nat>)

  ghost predicate Shaped(net: Net, s: Wave) {
    && |s.act| == |s.hop| == |net.adj|
    && (forall i | 0 <= i < |s.visited| :: s.visited[i] < |net.adj|)
    && (forall i | 0 <= i < |s.frontier| :: s.frontier[i] < |net.adj|)
  }

  ghost function Gift(net: Net, act: seq<real>, u: nat, w: nat): real {
    if u < |act| then act[u] * net.weight(u, w) * net.decay else 0.0
  }

  /** How often entries of `list` carry a gift from `u` to `w`, if the gift is large enough. */
  ghost function Hits(net: Net, act: seq<real>, u: nat, list: seq<nat>, w: nat): nat {
    if Gift(net, act, u, w) >= net.threshold then Count(list, w) else 0
  }

  ghost function HitsFrom(net: Net, act: seq<real>, frontier: seq<nat>, w: nat): nat {
    if |frontier| == 0 then 0
    else
      var u := frontier[|frontier| - 1];
      HitsFrom(net, act, frontier[..|frontier| - 1], w) + if u < |net.adj| then Hits(net, act, u, net.adj[u], w) else 0
  }

  /** All that the frontier gives to `w`. */
  ghost function Inflow(net: Net, act: seq<real>, frontier: seq<nat>, w: nat): real {
    if |frontier| == 0 then 0.0
    else
      var u := frontier[|frontier| - 1];
      Inflow(net, act, frontier[..|frontier| - 1], w)
      + if u < |net.adj| then Hits(net, act, u, net.adj[u], w) as real * Gift(net, act, u, w) else 0.0
  }

  /** `w` is reached for the first time. */
  ghost predicate Wakes(net: Net, s: Wave, w: nat) {
    w < |s.hop| && s.hop[w] == USIZE_MAX && HitsFrom(net, s.act, s.frontier, w) > 0
  }

  ghost function Woken(net: Net, s: Wave, k: nat): seq<nat> {
    if k == 0 then [] else Woken(net, s, k - 1) + if Wakes(net, s, k - 1) then [k - 1] else []
  }

  ghost function Advance(net: Net, s: Wave, h: nat): Wave
    requires Shaped(net, s)
  {
    var n := |net.adj|;
    var new_ := Woken(net, s, n);
    Wave(seq(n, w requires 0 <= w < n =>
           if Wakes(net, s, w) then s.act[w] + Inflow(net, s.act, s.frontier, w) else s.act[w]),
         seq(n, w requires 0 <= w < n => if Wakes(net, s, w) then h else s.hop[w]),
         s.visited + new_, new_)
  }

  lemma {:induction false} WokenFacts(net: Net, s: Wave, k: nat)
    ensures Strict(Woken(net, s, k))
    ensures forall w :: w in Woken(net, s, k) <==> 0 <= w < k && Wakes(net, s, w)
    ensures forall i | 0 <= i < |Woken(net, s, k)| :: Woken(net, s, k)[i] < k
  {
    if k > 0 { WokenFacts(net, s, k - 1); }
  }

  lemma AdvanceShaped(net: Net, s: Wave, h: nat)
    requires Shaped(net, s)
    ensures Shaped(net, Advance(net, s, h))
  {
    WokenFacts(net, s, |net.adj|);
  }

  ghost function Waves(net: Net, s: Wave, hops: nat): (r: Wave)
    requires Shaped(net, s)
    ensures Shaped(net, r)
  {
    if hops == 0 then s
    else
      AdvanceShaped(net, Waves(net, s, hops - 1), hops);
      Advance(net, Waves(net, s, hops - 1), hops)
  }

  /** Where nothing spreads, nothing changes. */
  lemma Still(net: Net, s: Wave, h: nat)
    requires Shaped(net, s) && |s.frontier| == 0
    ensures Advance(net, s, h) == s
  {
    WokenNone(net, s, |net.adj|);
    var r := Advance(net, s, h);
    assert r.act == s.act && r.hop == s.hop;
  }

  lemma {:induction false} WokenNone(net: Net, s: Wave, k: nat)
    requires |s.frontier| == 0
    ensures Woken(net, s, k) == []
  {
    if k > 0 { WokenNone(net, s, k - 1); }
  }

  lemma {:induction false} StillForever(net: Net, s: Wave, hops: nat, more: nat)
    requires Shaped(net, s) && |Waves(net, s, hops).frontier| == 0
    ensures Waves(net, s, hops + more) == Waves(net, s, hops)
  {
    hide Advance, Shaped;
    if more > 0 {
      StillForever(net, s, hops, more - 1);
      Still(net, Waves(net, s, hops), hops + more);
    }
  }

  // ------------------------------------------------------------------ seeds and results

  ghost function Blank(n: nat): Wave {
    Wave(seq(n, _ => 0.0), seq(n, _ => USIZE_MAX), [], [])
  }

  /** A seed is reached at hop 0, with the activation given last. */
  ghost function WithSeed(s: Wave, pos: nat, act: real): Wave {
    if pos < |s.act| && pos < |s.hop| && act > 0.0 then
      if s.hop[pos] == USIZE_MAX then Wave(s.act[pos := act], s.hop[pos := 0], s.visited + [pos], s.frontier + [pos])
      else Wave(s.act[pos := act], s.hop, s.visited, s.frontier + [pos])
    else s
  }

  ghost function Seeded(n: nat, seeds: seq<(nat, real)>): Wave {
    if |seeds| == 0 then Blank(n)
    else WithSeed(Seeded(n, seeds[..|seeds| - 1]), seeds[|seeds| - 1].0, seeds[|seeds| - 1].1)
  }

  type Active = (nat, real, nat)

  /** The visited nodes with enough activation, in the order they were reached. */
  function Survivors(visited: seq<nat>, act: seq<real>, hop: seq<nat>, maxHops: nat, threshold: real): seq<Active>
    requires |act| == |hop| && forall i | 0 <= i < |visited| :: visited[i] < |act|
  {
    if |visited| == 0 then []
    else
      var v := visited[|visited| - 1];
      Survivors(visited[..|visited| - 1], act, hop, maxHops, threshold)
      + if hop[v] <= maxHops && act[v] >= threshold then [(v, act[v], hop[v])] else []
  }

  /** Stable insertion by descending activation. */
  function InsertDescending(s: seq<Active>, x: Active): (r: seq<Active>)
    ensures |r| == |s| + 1
  {
    if |s| == 0 || s[|s| - 1].1 >= x.1 then s + [x] else InsertDescending(s[..|s| - 1], x) + [s[|s| - 1]]
  }

  function SortDescending(s: seq<Active>): (r: seq<Active>)
    ensures |r| == |s|
  {
    if |s| == 0 then [] else InsertDescending(SortDescending(s[..|s| - 1]), s[|s| - 1])
  }

  /** What a run from fresh buffers returns. */
  ghost function Activated(net: Net, seeds: seq<(nat, real)>, maxHops: nat): seq<Active>
    requires Shaped(net, Seeded(|net.adj|, seeds))
  {
    var s := Waves(net, Seeded(|net.adj|, seeds), maxHops);
    SortDescending(Survivors(s.visited, s.act, s.hop, maxHops, net.threshold))
  }

  lemma {:induction false} SeededShaped(net: Net, seeds: seq<(nat, real)>)
    ensures Shaped(net, Seeded(|net.adj|, seeds))
  {
    if |seeds| > 0 { SeededShaped(net, seeds[..|seeds| - 1]); }
  }

  lemma {:induction false} InsertMembers(s: seq<Active>, x: Active, y: Active)
    ensures y in InsertDescending(s, x) <==> y in s || y == x
  {
    if |s| > 0 && s[|s| - 1].1 < x.1 {
      InsertMembers(s[..|s| - 1], x, y);
      assert s == s[..|s| - 1] + [s[|s| - 1]];
    }
  }

  lemma {:induction false} InsertOrder(s: seq<Active>, x: Active)
    requires forall i, j | 0 <= i < j < |s| :: s[i].1 >= s[j].1
    ensures forall i, j | 0 <= i < j < |InsertDescending(s, x)| ::
      InsertDescending(s, x)[i].1 >= InsertDescending(s, x)[j].1
    ensures forall y :: y in InsertDescending(s, x) <==> y in s || y == x
  {
    forall y ensures y in InsertDescending(s, x) <==> y in s || y == x {
      InsertMembers(s, x, y);
    }
    if |s| > 0 && s[|s| - 1].1 < x.1 {
      var front := s[..|s| - 1];
      InsertOrder(front, x);
      var r := InsertDescending(front, x);
      forall i | 0 <= i < |r| ensures r[i].1 >= s[|s| - 1].1 {
        assert r[i] in r;
        if r[i] != x { var k :| 0 <= k < |front| && front[k] == r[i]; }
      }
    }
  }

  /** Results are sorted by activation, and nothing is lost or made up. */
  lemma {:induction false} ResultOrder(s: seq<Active>)
    ensures forall i, j | 0 <= i < j < |SortDescending(s)| :: SortDescending(s)[i].1 >= SortDescending(s)[j].1
    ensures forall y :: y in SortDescending(s) <==> y in s
  {
    if |s| > 0 {
      ResultOrder(s[..|s| - 1]);
      InsertOrder(SortDescending(s[..|s| - 1]), s[|s| - 1]);
      assert s == s[..|s| - 1] + [s[|s| - 1]];
    }
  }

  // ------------------------------------------------------------------ gathering the gifts of a hop

  ghost function HitsSoFar(net: Net, s: Wave, k: nat, j: nat, w: nat): nat
    requires Shaped(net, s) && k <= |s.frontier| && (k < |s.frontier| ==> j <= |net.adj[s.frontier[k]]|)
  {
    HitsFrom(net, s.act, s.frontier[..k], w)
    + if k < |s.frontier| then Hits(net, s.act, s.frontier[k], net.adj[s.frontier[k]][..j], w) else 0
  }

  ghost function InflowSoFar(net: Net, s: Wave, k: nat, j: nat, w: nat): real
    requires Shaped(net, s) && k <= |s.frontier| && (k < |s.frontier| ==> j <= |net.adj[s.frontier[k]]|)
  {
    Inflow(net, s.act, s.frontier[..k], w)
    + if k < |s.frontier| then
        var u := s.frontier[k];
        Hits(net, s.act, u, net.adj[u][..j], w) as real * Gift(net, s.act, u, w)
      else 0.0
  }

  lemma SoFarStart(net: Net, s: Wave, w: nat)
    requires Shaped(net, s)
    ensures HitsSoFar(net, s, 0, 0, w) == 0 && InflowSoFar(net, s, 0, 0, w) == 0.0
  {
    assert s.frontier[..0] == [];
    if |s.frontier| > 0 { assert net.adj[s.frontier[0]][..0] == []; }
  }

  lemma SoFarEntry(net: Net, s: Wave, k: nat, j: nat, w: nat)
    requires Shaped(net, s) && k < |s.frontier| && j < |net.adj[s.frontier[k]]|
    ensures var u := s.frontier[k]; var x := net.adj[u][j]; var gift := Gift(net, s.act, u, w);
      var hit := x == w && gift >= net.threshold;
      && HitsSoFar(net, s, k, j + 1, w) == HitsSoFar(net, s, k, j, w) + (if hit then 1 else 0)
      && InflowSoFar(net, s, k, j + 1, w) == InflowSoFar(net, s, k, j, w) + (if hit then gift else 0.0)
  {
    hide Gift, Inflow, HitsFrom, Count;
    var u := s.frontier[k];
    var list, x := net.adj[u][..j], net.adj[u][j];
    Snoc(net.adj[u], j);
    CountPush(list, x, w);
    var c, gift := Hits(net, s.act, u, list, w), Gift(net, s.act, u, w);
    assert (c + 1) as real * gift == c as real * gift + gift by { assert (c + 1) as real == c as real + 1.0; }
  }

  lemma SoFarNode(net: Net, s: Wave, k: nat, w: nat)
    requires Shaped(net, s) && k < |s.frontier|
    ensures var u := s.frontier[k];
      && HitsSoFar(net, s, k + 1, 0, w) == HitsSoFar(net, s, k, |net.adj[u]|, w)
      && InflowSoFar(net, s, k + 1, 0, w) == InflowSoFar(net, s, k, |net.adj[u]|, w)
  {
    hide Gift;
    var u := s.frontier[k];
    assert s.frontier[..k + 1][..k] == s.frontier[..k];
    assert net.adj[u][..|net.adj[u]|] == net.adj[u];
    if k + 1 < |s.frontier| {
      assert net.adj[s.frontier[k + 1]][..0] == [];
    }
  }

  /** What the buffers hold of node `w` in hop `h`. */
  ghost predicate GatheredAt(net: Net, s: Wave, h: nat, k: nat, j: nat, next: seq<real>, stamp: seq<nat>,
                             touched: seq<nat>, w: nat)
    requires Shaped(net, s) && k <= |s.frontier| && (k < |s.frontier| ==> j <= |net.adj[s.frontier[k]]|)
    requires w < |net.adj| == |next| == |stamp|
  {
    && (stamp[w] == h <==> w in touched)
    && (w in touched <==> s.hop[w] == USIZE_MAX && HitsSoFar(net, s, k, j, w) > 0)
    && (s.hop[w] == USIZE_MAX ==> InflowSoFar(net, s, k, j, w) == if w in touched then next[w] else 0.0)
  }

  ghost predicate Gathering(net: Net, s: Wave, h: nat, k: nat, j: nat, next: seq<real>, stamp: seq<nat>,
                            touched: seq<nat>)
  {
    && Shaped(net, s) && |next| == |stamp| == |net.adj|
    && k <= |s.frontier| && (k < |s.frontier| ==> j <= |net.adj[s.frontier[k]]|)
    && Distinct(touched) && (forall i | 0 <= i < |touched| :: touched[i] < |net.adj|)
    && forall w: nat | w < |net.adj| :: GatheredAt(net, s, h, k, j, next, stamp, touched, w)
  }

  lemma GatherStart(net: Net, s: Wave, h: nat, next: seq<real>, stamp: seq<nat>)
    requires Shaped(net, s) && |next| == |stamp| == |net.adj| && forall w | 0 <= w < |stamp| :: stamp[w] != h
    ensures Gathering(net, s, h, 0, 0, next, stamp, [])
  {
    hide HitsSoFar, InflowSoFar;
    forall w: nat | w < |net.adj| ensures GatheredAt(net, s, h, 0, 0, next, stamp, [], w) {
      SoFarStart(net, s, w);
    }
  }

  lemma GatherSkip(net: Net, s: Wave, h: nat, k: nat, j: nat, next: seq<real>, stamp: seq<nat>, touched: seq<nat>)
    requires Gathering(net, s, h, k, j, next, stamp, touched) && k < |s.frontier| && j < |net.adj[s.frontier[k]]|
    requires var u := s.frontier[k]; var x := net.adj[u][j];
      x >= |net.adj| || s.hop[x] != USIZE_MAX || Gift(net, s.act, u, x) < net.threshold
    ensures Gathering(net, s, h, k, j + 1, next, stamp, touched)
  {
    hide HitsSoFar, InflowSoFar, Gift, Distinct, Shaped;
    var j' := j + 1;
    forall w: nat | w < |net.adj| ensures GatheredAt(net, s, h, k, j', next, stamp, touched, w) {
      assert GatheredAt(net, s, h, k, j, next, stamp, touched, w);
      SoFarEntry(net, s, k, j, w);
    }
  }

  lemma GatherGift(net: Net, s: Wave, h: nat, k: nat, j: nat, next: seq<real>, stamp: seq<nat>, touched: seq<nat>)
    requires Gathering(net, s, h, k, j, next, stamp, touched) && k < |s.frontier| && j < |net.adj[s.frontier[k]]|
    requires var u := s.frontier[k]; var x := net.adj[u][j];
      x < |net.adj| && s.hop[x] == USIZE_MAX && Gift(net, s.act, u, x) >= net.threshold
    ensures var u := s.frontier[k]; var x := net.adj[u][j];
      Gathering(net, s, h, k, j + 1,
                next[x := (if stamp[x] == h then next[x] else 0.0) + Gift(net, s.act, u, x)],
                stamp[x := h], if stamp[x] == h then touched else touched + [x])
  {
    hide HitsSoFar, InflowSoFar, Gift;
    var u := s.frontier[k];
    var x := net.adj[u][j];
    var next', stamp' := next[x := (if stamp[x] == h then next[x] else 0.0) + Gift(net, s.act, u, x)], stamp[x := h];
    var touched' := if stamp[x] == h then touched else touched + [x];
    assert GatheredAt(net, s, h, k, j, next, stamp, touched, x);
    var j' := j + 1;
    forall w: nat | w < |net.adj| ensures GatheredAt(net, s, h, k, j', next', stamp', touched', w) {
      assert GatheredAt(net, s, h, k, j, next, stamp, touched, w);
      SoFarEntry(net, s, k, j, w);
      assert w in touched' <==> w in touched || w == x;
    }
  }

  lemma GatherNode(net: Net, s: Wave, h: nat, k: nat, next: seq<real>, stamp: seq<nat>, touched: seq<nat>)
    requires Shaped(net, s) && k < |s.frontier|
    requires Gathering(net, s, h, k, |net.adj[s.frontier[k]]|, next, stamp, touched)
    ensures Gathering(net, s, h, k + 1, 0, next, stamp, touched)
  {
    hide HitsSoFar, InflowSoFar, Gift, Distinct;
    var k' := k + 1;
    forall w: nat | w < |net.adj| ensures GatheredAt(net, s, h, k', 0, next, stamp, touched, w) {
      assert GatheredAt(net, s, h, k, |net.adj[s.frontier[k]]|, next, stamp, touched, w);
      SoFarNode(net, s, k, w);
    }
  }

  /** After the whole frontier, the touched nodes are those that wake. */
  lemma GatherAll(net: Net, s: Wave, h: nat, next: seq<real>, stamp: seq<nat>, touched: seq<nat>)
    requires Gathering(net, s, h, |s.frontier|, 0, next, stamp, touched)
    ensures Sort(touched) == Woken(net, s, |net.adj|)
    ensures forall w: nat | w in touched ::
      w < |net.adj| && Wakes(net, s, w) && next[w] == Inflow(net, s.act, s.frontier, w)
  {
    hide Inflow, HitsFrom;
    assert s.frontier[..|s.frontier|] == s.frontier;
    forall w: nat ensures w in touched <==> w < |net.adj| && Wakes(net, s, w) {
      if w < |net.adj| { assert GatheredAt(net, s, h, |s.frontier|, 0, next, stamp, touched, w); }
    }
    forall w: nat | w in touched ensures next[w] == Inflow(net, s.act, s.frontier, w) {
      assert GatheredAt(net, s, h, |s.frontier|, 0, next, stamp, touched, w);
    }
    WokenFacts(net, s, |net.adj|);
    SortStrict(touched);
    hide Wakes, Gathering;
    forall w: nat ensures w in Sort(touched) <==> w in Woken(net, s, |net.adj|) {
      SortMember(touched, w);
    }
    StrictUnique(Sort(touched), Woken(net, s, |net.adj|));
  }

  lemma SortStrict(s: seq<nat>)
    requires Distinct(s)
    ensures Strict(Sort(s))
  {
    SortAscending(s);
    var r := Sort(s);
    forall i, j | 0 <= i < j < |r| ensures r[i] < r[j] {
      if r[i] == r[j] {
        TwiceCounted(r, i, j);
        SortCount(s, r[i]);
        DistinctCount(s, r[i]);
        assert false;
      }
    }
  }

  lemma {:induction false} DistinctCount(s: seq<nat>, x: nat)
    requires Distinct(s)
    ensures Count(s, x) <= 1
  {
    if |s| > 0 {
      var front := s[..|s| - 1];
      DistinctCount(front, x);
      CountMember(front, x);
    }
  }

  lemma {:induction false} TwiceCounted(s: seq<nat>, i: nat, j: nat)
    requires i < j < |s| && s[i] == s[j]
    ensures Count(s, s[i]) >= 2
  {
    var front := s[..|s| - 1];
    if j < |front| {
      TwiceCounted(front, i, j);
    } else {
      assert front[i] == s[i];
      CountMember(front, s[i]);
    }
  }

  lemma {:induction false} StrictUnique(a: seq<nat>, b: seq<nat>)
    requires Strict(a) && Strict(b) && forall w: nat :: w in a <==> w in b
    ensures a == b
    decreases |a|
  {
    hide Strict;
    assert |b| > 0 ==> b[0] in b;
    if |a| > 0 {
      assert a[|a| - 1] in a;
      assert |b| > 0 && b[|b| - 1] in b;
      LastIsMost(a, b);
      LastIsMost(b, a);
      FrontMembers(a);
      FrontMembers(b);
      var a', b' := a[..|a| - 1], b[..|b| - 1];
      forall w: nat ensures w in a' <==> w in b' {
        assert w in a' <==> w in a && w != a[|a| - 1];
        assert w in b' <==> w in b && w != b[|b| - 1];
      }
      StrictUnique(a', b');
      assert a == a[..|a| - 1] + [a[|a| - 1]] && b == b[..|b| - 1] + [b[|b| - 1]];
    }
  }

  lemma FrontMembers(s: seq<nat>)
    requires Strict(s) && |s| > 0
    ensures Strict(s[..|s| - 1]) && forall w: nat :: w in s[..|s| - 1] <==> w in s && w != s[|s| - 1]
  {
    assert s == s[..|s| - 1] + [s[|s| - 1]];
  }

  lemma LastIsMost(a: seq<nat>, b: seq<nat>)
    requires Strict(a) && |a| > 0 && |b| > 0 && b[|b| - 1] in a
    ensures b[|b| - 1] <= a[|a| - 1]
  {
  }

  // ------------------------------------------------------------------ the hops

  /** Every node reached so far was reached before hop `h`. */
  ghost predicate Earlier(hop: seq<nat>, h: nat) {
    forall w | 0 <= w < |hop| :: hop[w] == USIZE_MAX || hop[w] < h
  }

  ghost predicate Untouched(next: seq<real>, stamp: seq<nat>, next': seq<real>, stamp': seq<nat>, touched: seq<nat>) {
    && |next'| == |next| && |stamp'| == |stamp| == |next|
    && forall w: nat | w < |next| && w !in touched :: next'[w] == next[w] && stamp'[w] == stamp[w]
  }

  lemma UntouchedWrite(next0: seq<real>, stamp0: seq<nat>, next: seq<real>, stamp: seq<nat>, touched: seq<nat>,
                       touched': seq<nat>, w: nat, x: real, h: nat)
    requires Untouched(next0, stamp0, next, stamp, touched) && touched <= touched' && w in touched' && w < |next|
    ensures |stamp| == |next| && Untouched(next0, stamp0, next[w := x], stamp[w := h], touched')
  {
  }

  method Push(nextAct: array<real>, stamp: array<nat>, touched0: seq<nat>, w: nat, h: nat, x: real)
      returns (touched: seq<nat>)
    requires w < nextAct.Length == stamp.Length
    modifies nextAct, stamp
    ensures stamp[..] == old(stamp[..])[w := h]
    ensures nextAct[..] == old(nextAct[..])[w := (if old(stamp[w]) == h then old(nextAct[w]) else 0.0) + x]
    ensures touched == if old(stamp[w]) == h then touched0 else touched0 + [w]
  {
    touched := touched0;
    if stamp[w] != h {
      stamp[w] := h;
      nextAct[w] := 0.0;
      touched := touched + [w];
    }
    nextAct[w] := nextAct[w] + x;
  }

  /** The entries of the `k`-th node of the frontier. */
  method GatherFrom(g: Csr, weight: (nat, nat) -> real, decay: real, threshold: real, ghost net: Net, ghost s: Wave,
                    activation: array<real>, hopReached: array<nat>, nextAct: array<real>, stamp: array<nat>,
                    h: nat, ghost k: nat, node: nat, touched0: seq<nat>, ghost next0: seq<real>, ghost stamp0: seq<nat>)
    returns (touched: seq<nat>)
    requires g.Valid() && net == Net(Lists(g), weight, decay, threshold) && Shaped(net, s)
    requires s.act == activation[..] && s.hop == hopReached[..] && Earlier(s.hop, h)
    requires nextAct != activation && stamp != hopReached && k < |s.frontier| && node == s.frontier[k]
    requires Gathering(net, s, h, k, 0, nextAct[..], stamp[..], touched0)
    requires Untouched(next0, stamp0, nextAct[..], stamp[..], touched0)
    modifies nextAct, stamp
    ensures Gathering(net, s, h, k + 1, 0, nextAct[..], stamp[..], touched)
    ensures Untouched(next0, stamp0, nextAct[..], stamp[..], touched)
  {
    hide Gathering, Untouched, Earlier, Gift;
    var n := g.NumNodes();
    touched := touched0;
    GatherSizes(net, s, h, k, 0, nextAct[..], stamp[..], touched);
    var totalAct := activation[node];
    for j := 0 to g.Degree(node)
      invariant activation[..] == s.act && hopReached[..] == s.hop
      invariant Gathering(net, s, h, k, j, nextAct[..], stamp[..], touched)
      invariant Untouched(next0, stamp0, nextAct[..], stamp[..], touched)
    {
      var w := g.Target(node, j);
      ghost var next1, stamp1, touched1 := nextAct[..], stamp[..], touched;
      var propagated := if w < n then totalAct * weight(node, w) * decay else 0.0;
      if w < n {
        GiftIs(net, s.act, node, w);
        ReachedEarlier(s.hop, h, w);
        assert propagated == Gift(net, s.act, node, w);
      }
      if w < n && !(hopReached[w] != USIZE_MAX && hopReached[w] < h) && propagated >= threshold {
        GatherGift(net, s, h, k, j, next1, stamp1, touched1);
        touched := Push(nextAct, stamp, touched, w, h, propagated);
        if stamp1[w] == h { StampedTouched(net, s, h, k, j, next1, stamp1, touched1, w); }
        assert nextAct[..] == next1[w := nextAct[..][w]];
        UntouchedWrite(next0, stamp0, next1, stamp1, touched1, touched, w, nextAct[..][w], h);
      } else {
        GatherSkip(net, s, h, k, j, next1, stamp1, touched1);
      }
    }
    GatherNode(net, s, h, k, nextAct[..], stamp[..], touched);
  }

  lemma GiftIs(net: Net, act: seq<real>, u: nat, w: nat)
    requires u < |act|
    ensures Gift(net, act, u, w) == act[u] * net.weight(u, w) * net.decay
  {
  }

  lemma ReachedEarlier(hop: seq<nat>, h: nat, w: nat)
    requires Earlier(hop, h) && w < |hop|
    ensures hop[w] == USIZE_MAX || hop[w] < h
  {
  }

  lemma GatherSizes(net: Net, s: Wave, h: nat, k: nat, j: nat, next: seq<real>, stamp: seq<nat>, touched: seq<nat>)
    requires Gathering(net, s, h, k, j, next, stamp, touched)
    ensures |next| == |stamp| == |net.adj| == |s.act| == |s.hop|
  {
  }

  lemma StampedTouched(net: Net, s: Wave, h: nat, k: nat, j: nat, next: seq<real>, stamp: seq<nat>, touched: seq<nat>,
                       w: nat)
    requires Gathering(net, s, h, k, j, next, stamp, touched) && w < |net.adj| && stamp[w] == h
    ensures w in touched
  {
    assert GatheredAt(net, s, h, k, j, next, stamp, touched, w);
  }

  method GatherHop(g: Csr, weight: (nat, nat) -> real, decay: real, threshold: real, ghost net: Net, ghost s: Wave,
                   activation: array<real>, hopReached: array<nat>, nextAct: array<real>, stamp: array<nat>,
                   frontier: seq<nat>, h: nat)
    returns (touched: seq<nat>)
    requires g.Valid() && net == Net(Lists(g), weight, decay, threshold) && Shaped(net, s)
    requires s.act == activation[..] && s.hop == hopReached[..] && s.frontier == frontier && Earlier(s.hop, h)
    requires nextAct != activation && stamp != hopReached && nextAct.Length == stamp.Length == g.NumNodes()
    requires forall w | 0 <= w < stamp.Length :: stamp[w] < h
    modifies nextAct, stamp
    ensures Gathering(net, s, h, |frontier|, 0, nextAct[..], stamp[..], touched)
    ensures Untouched(old(nextAct[..]), old(stamp[..]), nextAct[..], stamp[..], touched)
  {
    hide Gathering, Shaped;
    ghost var next0, stamp0 := nextAct[..], stamp[..];
    GatherStart(net, s, h, next0, stamp0);
    touched := [];
    for k := 0 to |frontier|
      invariant activation[..] == s.act && hopReached[..] == s.hop
      invariant Gathering(net, s, h, k, 0, nextAct[..], stamp[..], touched)
      invariant Untouched(next0, stamp0, nextAct[..], stamp[..], touched)
    {
      touched := GatherFrom(g, weight, decay, threshold, net, s, activation, hopReached, nextAct, stamp, h, k,
                            frontier[k], touched, next0, stamp0);
    }
  }

  /** The touched nodes settle in ascending order. */
  method Settle(activation: array<real>, hopReached: array<nat>, nextAct: array<real>, list: seq<nat>,
                visited0: seq<nat>, h: nat)
    returns (visited: seq<nat>, frontier: seq<nat>)
    requires activation != nextAct && activation.Length == hopReached.Length == nextAct.Length && Distinct(list)
    requires forall i | 0 <= i < |list| :: list[i] < activation.Length && hopReached[list[i]] == USIZE_MAX
    modifies activation, hopReached
    ensures visited == visited0 + list && frontier == list
    ensures forall w: nat | w < activation.Length ::
              && activation[w] == old(activation[w]) + (if w in list then nextAct[w] else 0.0)
              && hopReached[w] == if w in list then h else old(hopReached[w])
  {
    visited, frontier := visited0, [];
    ghost var act0, hop0 := activation[..], hopReached[..];
    for i := 0 to |list|
      invariant visited == visited0 + list[..i] && frontier == list[..i]
      invariant forall w: nat | w < activation.Length ::
                  && activation[w] == act0[w] + (if w in list[..i] then nextAct[w] else 0.0)
                  && hopReached[w] == if w in list[..i] then h else hop0[w]
    {
      var w := list[i];
      assert list[..i + 1] == list[..i] + [w] && w !in list[..i];
      activation[w] := activation[w] + nextAct[w];
      if hopReached[w] == USIZE_MAX {
        hopReached[w] := h;
        visited := visited + [w];
      }
      if hopReached[w] == h {
        frontier := frontier + [w];
      }
    }
    assert list[..|list|] == list;
  }

  // ------------------------------------------------------------------ whole runs

  /** The visited nodes are those with a hop, each once. */
  ghost predicate Listed(s: Wave) {
    && Distinct(s.visited) && (forall i | 0 <= i < |s.visited| :: s.visited[i] < |s.hop|)
    && forall w: nat | w < |s.hop| :: w in s.visited <==> s.hop[w] != USIZE_MAX
  }

  lemma WakeRoom(net: Net, s: Wave, h: nat, w: nat)
    requires Shaped(net, s) && Listed(s) && Wakes(net, s, w) && |net.adj| < USIZE_MAX && h <= |s.visited| + 1
    ensures h < USIZE_MAX && w !in s.visited
  {
    var more := s.visited + [w];
    assert Distinct(more);
    DistinctBound(more, |net.adj|);
  }

  /** A hop keeps the lists right, and reaches a node or ends the run. */
  lemma AdvanceListed(net: Net, s: Wave, h: nat)
    requires Shaped(net, s) && Listed(s) && Earlier(s.hop, h) && |net.adj| < USIZE_MAX && h <= |s.visited| + 1
    ensures Listed(Advance(net, s, h)) && Earlier(Advance(net, s, h).hop, h + 1)
    ensures |Advance(net, s, h).frontier| > 0 ==> h + 1 <= |Advance(net, s, h).visited| + 1
  {
    var n, r, new_ := |net.adj|, Advance(net, s, h), Woken(net, s, |net.adj|);
    WokenFacts(net, s, n);
    hide Woken, HitsFrom, Inflow;
    forall w: nat | w < n && Wakes(net, s, w) ensures h < USIZE_MAX && w !in s.visited {
      WakeRoom(net, s, h, w);
    }
    hide Wakes;
    assert forall i | 0 <= i < |new_| :: new_[i] in new_;
    assert Distinct(r.visited);
  }

  lemma {:induction false} SeededListed(n: nat, seeds: seq<(nat, real)>)
    ensures var s := Seeded(n, seeds); |s.act| == |s.hop| == n && Listed(s) && Earlier(s.hop, 1)
  {
    if |seeds| > 0 {
      SeededListed(n, seeds[..|seeds| - 1]);
    }
  }

  method OneHop(g: Csr, weight: (nat, nat) -> real, decay: real, threshold: real, ghost net: Net, ghost s: Wave,
                activation: array<real>, hopReached: array<nat>, nextAct: array<real>, stamp: array<nat>,
                visited0: seq<nat>, frontier0: seq<nat>, h: nat)
    returns (visited: seq<nat>, frontier: seq<nat>, touched: seq<nat>)
    requires g.Valid() && net == Net(Lists(g), weight, decay, threshold) && Shaped(net, s) && Earlier(s.hop, h)
    requires s == Wave(activation[..], hopReached[..], visited0, frontier0)
    requires nextAct != activation && stamp != hopReached && nextAct.Length == stamp.Length == g.NumNodes()
    requires forall w | 0 <= w < stamp.Length :: stamp[w] < h
    modifies activation, hopReached, nextAct, stamp
    ensures Wave(activation[..], hopReached[..], visited, frontier) == Advance(net, s, h)
    ensures forall w | 0 <= w < stamp.Length :: stamp[w] <= h
    ensures visited0 <= visited && Untouched(old(nextAct[..]), old(stamp[..]), nextAct[..], stamp[..], visited)
  {
    hide Woken, Wakes, Inflow;
    touched := GatherHop(g, weight, decay, threshold, net, s, activation, hopReached, nextAct, stamp, frontier0, h);
    GatherAll(net, s, h, nextAct[..], stamp[..], touched);
    GatherStamps(net, s, h, nextAct[..], stamp[..], touched);
    hide Gathering;
    var list := Sort(touched);
    WokenFacts(net, s, |net.adj|);
    WokenList(net, s, list);
    forall w: nat ensures w in list <==> w in touched { SortMember(touched, w); }
    visited, frontier := Settle(activation, hopReached, nextAct, list, visited0, h);
    SettledIsAdvance(net, s, h, nextAct[..], Wave(activation[..], hopReached[..], visited, frontier));
  }

  lemma GatherStamps(net: Net, s: Wave, h: nat, next: seq<real>, stamp: seq<nat>, touched: seq<nat>)
    requires Gathering(net, s, h, |s.frontier|, 0, next, stamp, touched)
    ensures forall w: nat | w < |stamp| && w in touched :: stamp[w] == h
  {
    forall w: nat | w < |stamp| && w in touched ensures stamp[w] == h {
      assert GatheredAt(net, s, h, |s.frontier|, 0, next, stamp, touched, w);
    }
  }

  lemma WokenList(net: Net, s: Wave, list: seq<nat>)
    requires Shaped(net, s) && list == Woken(net, s, |net.adj|)
    ensures Distinct(list) && forall i | 0 <= i < |list| :: list[i] < |s.hop| && s.hop[list[i]] == USIZE_MAX
  {
    WokenFacts(net, s, |net.adj|);
    hide Woken;
    forall i | 0 <= i < |list| ensures list[i] < |s.hop| && s.hop[list[i]] == USIZE_MAX {
      assert list[i] in list;
    }
  }

  lemma SettledIsAdvance(net: Net, s: Wave, h: nat, next: seq<real>, r: Wave)
    requires Shaped(net, s) && |next| == |net.adj| == |r.act| == |r.hop|
    requires var list := Woken(net, s, |net.adj|);
      && r.visited == s.visited + list && r.frontier == list
      && (forall w: nat | w in list :: w < |net.adj| && next[w] == Inflow(net, s.act, s.frontier, w))
      && (forall w: nat | w < |net.adj| :: r.act[w] == s.act[w] + (if w in list then next[w] else 0.0))
      && (forall w: nat | w < |net.adj| :: r.hop[w] == if w in list then h else s.hop[w])
    ensures r == Advance(net, s, h)
  {
    WokenFacts(net, s, |net.adj|);
    hide Woken, Wakes, Inflow;
    var t := Advance(net, s, h);
    assert r.act == t.act && r.hop == t.hop;
  }

  // ------------------------------------------------------------------ scratch buffers

  /** Whatever differs from a fresh buffer is listed in `visited`. */
  ghost predicate Traced(act: seq<real>, hop: seq<nat>, next: seq<real>, stamp: seq<nat>, visited: seq<nat>) {
    && |act| == |hop| == |next| == |stamp|
    && (forall i | 0 <= i < |visited| :: visited[i] < |act|)
    && forall w: nat | w < |act| && w !in visited ::
       act[w] == 0.0 && hop[w] == USIZE_MAX && next[w] == 0.0 && stamp[w] == 0
  }

  class SpreadScratch {
    const activation: array<real>
    const hopReached: array<nat>
    const nextAct: array<real>
    const stamp: array<nat>
    var visited: seq<nat>
    var frontier: seq<nat>

    constructor (n: nat)
      ensures Fresh() && activation.Length == n
      ensures fresh(activation) && fresh(hopReached) && fresh(nextAct) && fresh(stamp)
    {
      activation := new real[n](_ => 0.0);
      hopReached := new nat[n](_ => USIZE_MAX);
      nextAct := new real[n](_ => 0.0);
      stamp := new nat[n](_ => 0);
      visited, frontier := [], [];
    }

    ghost predicate Apart() {
      && activation != nextAct && hopReached != stamp
      && activation.Length == hopReached.Length == nextAct.Length == stamp.Length
    }

    ghost predicate Tracked()
      reads this, activation, hopReached, nextAct, stamp
    {
      Apart() && Traced(activation[..], hopReached[..], nextAct[..], stamp[..], visited)
    }

    /** As if newly allocated. */
    ghost predicate Fresh()
      reads this, activation, hopReached, nextAct, stamp
    {
      Tracked() && visited == [] && frontier == []
    }

    ghost function View(): Wave
      reads this, activation, hopReached
    {
      Wave(activation[..], hopReached[..], visited, frontier)
    }

    /** Visits only what was written, and leaves nothing of it. */
    method Reset()
      requires Tracked()
      modifies this, activation, hopReached, nextAct, stamp
      ensures Fresh()
    {
      var list := visited;
      assert list[0..] == list;
      for i := 0 to |list|
        invariant Apart() && Traced(activation[..], hopReached[..], nextAct[..], stamp[..], list[i..])
      {
        var pos := list[i];
        assert list[i..] == [pos] + list[i + 1..];
        TracedDrop(activation[..], hopReached[..], nextAct[..], stamp[..], pos, list[i + 1..]);
        ResetOne(pos);
      }
      visited, frontier := [], [];
    }

    method ResetOne(pos: nat)
      requires Apart() && pos < activation.Length
      modifies activation, hopReached, nextAct, stamp
      ensures activation[..] == old(activation[..])[pos := 0.0]
      ensures hopReached[..] == old(hopReached[..])[pos := USIZE_MAX]
      ensures nextAct[..] == old(nextAct[..])[pos := 0.0] && stamp[..] == old(stamp[..])[pos := 0]
    {
      activation[pos] := 0.0;
      hopReached[pos] := USIZE_MAX;
      stamp[pos] := 0;
      nextAct[pos] := 0.0;
    }

    method SeedOne(pos: nat, act: real)
      requires Tracked()
      modifies this, activation, hopReached
      ensures Tracked() && View() == WithSeed(old(View()), pos, act)
    {
      if pos < activation.Length && act > 0.0 {
        ghost var v0, act0, hop0 := visited, activation[..], hopReached[..];
        if hopReached[pos] == USIZE_MAX {
          hopReached[pos] := 0;
          visited := visited + [pos];
        } else {
          assert pos in visited;
        }
        activation[pos] := act;
        frontier := frontier + [pos];
        assert activation[..] == act0[pos := act];
        assert forall w :: w in visited <==> w in v0 || w == pos;
      }
    }

    method Seed(seeds: seq<(nat, real)>)
      requires Fresh()
      modifies this, activation, hopReached
      ensures Tracked() && View() == Seeded(activation.Length, seeds)
    {
      hide Traced, WithSeed;
      assert View() == Blank(activation.Length) by { FreshBlank(this); }
      assert seeds[..0] == [];
      for i := 0 to |seeds|
        invariant Tracked() && View() == Seeded(activation.Length, seeds[..i])
      {
        assert seeds[..i + 1][..i] == seeds[..i];
        SeedOne(seeds[i].0, seeds[i].1);
      }
      assert seeds[..|seeds|] == seeds;
    }
  }

  lemma FreshBlank(scratch: SpreadScratch)
    requires scratch.Fresh()
    ensures scratch.View() == Blank(scratch.activation.Length)
    ensures forall w | 0 <= w < scratch.stamp.Length :: scratch.stamp[w] == 0
  {
    assert scratch.activation[..] == Blank(scratch.activation.Length).act;
    assert scratch.hopReached[..] == Blank(scratch.activation.Length).hop;
    assert forall w | 0 <= w < scratch.stamp.Length :: scratch.stamp[..][w] == scratch.stamp[w];
  }

  lemma TracedDrop(act: seq<real>, hop: seq<nat>, next: seq<real>, stamp: seq<nat>, pos: nat, rest: seq<nat>)
    requires Traced(act, hop, next, stamp, [pos] + rest)
    ensures pos < |act| && Traced(act[pos := 0.0], hop[pos := USIZE_MAX], next[pos := 0.0], stamp[pos := 0], rest)
  {
    var all := [pos] + rest;
    assert all[0] == pos;
    assert forall i | 0 <= i < |rest| :: rest[i] in all;
  }

  lemma TracedHop(net: Net, s: Wave, h: nat, next: seq<real>, stamp: seq<nat>, next': seq<real>, stamp': seq<nat>)
    requires Shaped(net, s) && Traced(s.act, s.hop, next, stamp, s.visited)
    requires var r := Advance(net, s, h); Untouched(next, stamp, next', stamp', r.visited)
    ensures var r := Advance(net, s, h); Traced(r.act, r.hop, next', stamp', r.visited)
  {
    WokenFacts(net, s, |net.adj|);
    AdvanceShaped(net, s, h);
    hide Woken, Wakes, Inflow;
  }

  lemma NothingSeeded(net: Net, seeds: seq<(nat, real)>, maxHops: nat)
    requires |net.adj| == 0 || |seeds| == 0
    ensures Shaped(net, Seeded(|net.adj|, seeds)) && Activated(net, seeds, maxHops) == []
  {
    hide Waves, Advance, Seeded;
    SeededShaped(net, seeds);
    NoSeeds(|net.adj|, seeds);
    var s := Seeded(|net.adj|, seeds);
    WavesStart(net, s);
    StillForever(net, s, 0, maxHops);
  }

  lemma {:induction false} NoSeeds(n: nat, seeds: seq<(nat, real)>)
    requires n == 0 || |seeds| == 0
    ensures Seeded(n, seeds) == Blank(n)
  {
    if |seeds| > 0 { NoSeeds(n, seeds[..|seeds| - 1]); }
  }

  method Collect(scratch: SpreadScratch, maxHops: nat, threshold: real) returns (activated: seq<Active>)
    requires scratch.Tracked()
    ensures activated == Survivors(scratch.visited, scratch.activation[..], scratch.hopReached[..], maxHops, threshold)
  {
    activated := [];
    ghost var visited := scratch.visited;
    for i := 0 to |scratch.visited|
      invariant activated == Survivors(visited[..i], scratch.activation[..], scratch.hopReached[..], maxHops, threshold)
    {
      assert visited[..i + 1][..i] == visited[..i];
      var pos := scratch.visited[i];
      var hop, act := scratch.hopReached[pos], scratch.activation[pos];
      if hop <= maxHops && act >= threshold {
        activated := activated + [(pos, act, hop)];
      }
    }
    assert visited[..|visited|] == visited;
  }

  method Propagate(g: Csr, weight: (nat, nat) -> real, decay: real, threshold: real, maxHops: nat,
                   scratch: SpreadScratch,
                   ghost net: Net, ghost s0: Wave)
    requires g.Valid() && net == Net(Lists(g), weight, decay, threshold) && Shaped(net, s0) && Listed(s0)
    requires Earlier(s0.hop, 1)
    requires scratch.Tracked() && scratch.activation.Length == g.NumNodes() && scratch.View() == s0
    requires forall w | 0 <= w < scratch.stamp.Length :: scratch.stamp[w] == 0
    modifies scratch, scratch.activation, scratch.hopReached, scratch.nextAct, scratch.stamp
    ensures scratch.Tracked() && scratch.View() == Waves(net, s0, maxHops)
  {
    hide Traced, Listed, Earlier, Waves, Advance;
    WavesStart(net, s0);
    var hop, going := 1, true;
    while going && hop <= maxHops
      invariant 1 <= hop <= maxHops + 1 && scratch.Tracked() && scratch.View() == Waves(net, s0, hop - 1)
      invariant Listed(scratch.View()) && Earlier(scratch.hopReached[..], hop)
      invariant forall w | 0 <= w < scratch.stamp.Length :: scratch.stamp[w] < hop
      invariant going ==> hop <= |scratch.visited| + 1
      invariant !going ==> |scratch.frontier| == 0
      decreases maxHops + 1 - hop
    {
      ghost var s, next, stamp := scratch.View(), scratch.nextAct[..], scratch.stamp[..];
      AdvanceListed(net, s, hop);
      WavesNext(net, s0, hop);
      var visited, frontier, touched :=
        OneHop(g, weight, decay, threshold, net, s, scratch.activation, scratch.hopReached,
                                               scratch.nextAct, scratch.stamp, scratch.visited, scratch.frontier, hop);
      scratch.visited, scratch.frontier := visited, frontier;
      TracedHop(net, s, hop, next, stamp, scratch.nextAct[..], scratch.stamp[..]);
      going := |frontier| > 0;
      hop := hop + 1;
    }
    if !going { StillForever(net, s0, hop - 1, maxHops - (hop - 1)); }
  }

  lemma WavesStart(net: Net, s: Wave)
    requires Shaped(net, s)
    ensures Waves(net, s, 0) == s
  {
  }

  lemma WavesNext(net: Net, s: Wave, h: nat)
    requires Shaped(net, s) && h > 0
    ensures Waves(net, s, h) == Advance(net, Waves(net, s, h - 1), h)
  {
  }

  /** `compute_spread_activation_impl` on buffers that are as good as new. */
  method SpreadFrom(g: Csr, seeds: seq<(nat, real)>, weight: (nat, nat) -> real, decay: real, threshold: real,
                    maxHops: nat,
                    scratch: SpreadScratch)
    returns (activated: seq<Active>)
    requires g.Valid() && scratch.Fresh() && scratch.activation.Length == g.NumNodes()
    modifies scratch, scratch.activation, scratch.hopReached, scratch.nextAct, scratch.stamp
    ensures scratch.Tracked()
    ensures var net := Net(Lists(g), weight, decay, threshold);
      Shaped(net, Seeded(g.NumNodes(), seeds)) && activated == Activated(net, seeds, maxHops)
  {
    hide Traced, Listed, Earlier, Shaped, Seeded, Waves;
    ghost var net := Net(Lists(g), weight, decay, threshold);
    if g.NumNodes() == 0 || |seeds| == 0 {
      NothingSeeded(net, seeds, maxHops);
      return [];
    }
    FreshBlank(scratch);
    SeededShaped(net, seeds);
    SeededListed(g.NumNodes(), seeds);
    ghost var stamp := scratch.stamp[..];
    scratch.Seed(seeds);
    assert forall w | 0 <= w < scratch.stamp.Length :: scratch.stamp[w] == stamp[w];
    Propagate(g, weight, decay, threshold, maxHops, scratch, net, Seeded(g.NumNodes(), seeds));
    activated := Collect(scratch, maxHops, threshold);
    activated := SortDescending(activated);
  }

  // ------------------------------------------------------------------ batches

  const UNWEIGHTED: (nat, nat) -> real := (_, _) => 1.0

  /** The last seed at a position counts. */
  ghost function LastAt(seeds: seq<(nat, real)>, pos: nat): Option<real> {
    if |seeds| == 0 then None
    else if seeds[|seeds| - 1].0 == pos then Some(seeds[|seeds| - 1].1)
    else LastAt(seeds[..|seeds| - 1], pos)
  }

  function Truncated(s: seq<Active>, k: nat): seq<Active> {
    if |s| <= k then s else s[..k]
  }

  /** Every result is the top of an independent run from its own seed. */
  ghost predicate BatchResult(net: Net, seeds: seq<(nat, real)>, maxHops: nat, k: nat, results: map<nat, seq<Active>>) {
    forall pos: nat ::
      && (pos in results <==> LastAt(seeds, pos).Some?)
      && (pos in results ==>
            && Shaped(net, Seeded(|net.adj|, [(pos, LastAt(seeds, pos).value)]))
            && results[pos] == Truncated(Activated(net, [(pos, LastAt(seeds, pos).value)], maxHops), k))
  }

  lemma BatchNext(net: Net, seeds: seq<(nat, real)>, i: nat, maxHops: nat, k: nat, results: map<nat, seq<Active>>,
                  top: seq<Active>)
    requires i < |seeds| && BatchResult(net, seeds[..i], maxHops, k, results)
    requires Shaped(net, Seeded(|net.adj|, [(seeds[i].0, seeds[i].1)]))
    requires top == Truncated(Activated(net, [(seeds[i].0, seeds[i].1)], maxHops), k)
    ensures BatchResult(net, seeds[..i + 1], maxHops, k, results[seeds[i].0 := top])
  {
    hide Activated, Truncated, Shaped, Seeded;
    assert seeds[..i + 1][..i] == seeds[..i];
  }

  method BatchOver(g: Csr, seeds: seq<(nat, real)>, decay: real, threshold: real, maxHops: nat, k: nat)
      returns (results: map<nat, seq<Active>>)
    requires g.Valid()
    ensures BatchResult(Net(Lists(g), UNWEIGHTED, decay, threshold), seeds, maxHops, k, results)
  {
    hide BatchResult, Activated, Shaped, Seeded, Truncated;
    ghost var net := Net(Lists(g), UNWEIGHTED, decay, threshold);
    results := map[];
    assert BatchResult(net, [], maxHops, k, results) by { NoResults(net, maxHops, k); }
    assert seeds[..0] == [];
    var scratch := new SpreadScratch(g.NumNodes());
    for i := 0 to |seeds|
      invariant scratch.Tracked() && scratch.activation.Length == g.NumNodes()
      invariant fresh(scratch) && fresh(scratch.activation) && fresh(scratch.hopReached) && fresh(scratch.nextAct)
      invariant fresh(scratch.stamp)
      invariant BatchResult(net, seeds[..i], maxHops, k, results)
    {
      scratch.Reset();
      var activated := SpreadFrom(g, [(seeds[i].0, seeds[i].1)], UNWEIGHTED, decay, threshold, maxHops, scratch);
      var top := Truncated(activated, k);
      BatchNext(net, seeds, i, maxHops, k, results, top);
      results := results[seeds[i].0 := top];
    }
    assert seeds[..|seeds|] == seeds;
  }

  lemma NoResults(net: Net, maxHops: nat, k: nat)
    ensures BatchResult(net, [], maxHops, k, map[])
  {
  }

  /** The edge rows of a list of pairs, numbered in order. */
  function Rows(edges: seq<(nat, nat)>): (r: seq<CsrBuild.EdgeRow>)
    ensures |r| == |edges| && forall i | 0 <= i < |edges| :: r[i] == CsrBuild.EdgeRow(edges[i].0, edges[i].1, i, 0)
  {
    seq(|edges|, i requires 0 <= i < |edges| => CsrBuild.EdgeRow(edges[i].0, edges[i].1, i, 0))
  }

  method BatchSpreadActivation(edges: seq<(nat, nat)>, n: nat, seeds: seq<(nat, real)>, decay: real, threshold: real,
                               maxHops: nat, k: nat)
    returns (results: map<nat, seq<Active>>, ghost g: Csr)
    requires n > 0 && |seeds| > 0 ==> forall i | 0 <= i < |edges| :: edges[i].0 < n && edges[i].1 < n
    requires n > 0 && |seeds| > 0 ==> n + 1 <= USIZE_MAX && CsrBuild.Countable(CsrBuild.Ends(Rows(edges)), n)
    ensures |edges| == 0 || n == 0 || |seeds| == 0 ==> results == map[]
    ensures |edges| > 0 && n > 0 && |seeds| > 0 ==>
              && CsrBuild.Built(g, Rows(edges), n)
              && BatchResult(Net(Lists(g), UNWEIGHTED, decay, threshold), seeds, maxHops, k, results)
  {
    g := Csr([], []);
    if |edges| == 0 || n == 0 || |seeds| == 0 { return map[], g; }
    var csr := CsrBuild.Build(Rows(edges), n);
    g := csr;
    results := BatchOver(csr, seeds, decay, threshold, maxHops, k);
  }
}
