/** Spreading activation by positions: what the seeds give each node, and what each hop
    adds, entry by entry. */
module SpreadWaves {
  import opened Graphs
  import opened Buckets
  import opened Sums
  import opened ListSums
  import opened Spread
  import SpreadSeeds

  // ------------------------------------------------------------------ seeds

  /** A seed is taken up if it is a node and has activation. */
  predicate Takes(n: nat, seed: (nat, real)) {
    seed.0 < n && seed.1 > 0.0
  }

  predicate SeedAt(n: nat, seeds: seq<(nat, real)>, v: nat, i: nat) {
    i < |seeds| && seeds[i].0 == v && Takes(n, seeds[i])
  }

  /** The `i`-th seed is the last one taken up at `v`. */
  ghost predicate LastSeed(n: nat, seeds: seq<(nat, real)>, v: nat, i: nat) {
    SeedAt(n, seeds, v, i) && forall j: nat | i < j :: !SeedAt(n, seeds, v, j)
  }

  ghost predicate NoSeed(n: nat, seeds: seq<(nat, real)>, v: nat) {
    forall i: nat :: !SeedAt(n, seeds, v, i)
  }

  lemma {:induction false} LastFound(n: nat, seeds: seq<(nat, real)>, v: nat, k: nat) returns (i: nat)
    requires SeedAt(n, seeds, v, k)
    ensures LastSeed(n, seeds, v, i)
    decreases |seeds| - k
  {
    if j: nat :| k < j && SeedAt(n, seeds, v, j) {
      i := LastFound(n, seeds, v, j);
    } else {
      i := k;
    }
  }

  lemma {:induction false} SeededLast(n: nat, seeds: seq<(nat, real)>, v: nat, i: nat)
    requires v < n && LastSeed(n, seeds, v, i)
    ensures var s := Seeded(n, seeds); |s.act| == |s.hop| == n && s.act[v] == seeds[i].1 && s.hop[v] == 0
    decreases |seeds|
  {
    hide Seeded, WithSeed, Listed;
    var front, m := seeds[..|seeds| - 1], |seeds| - 1;
    SeededNext(n, seeds);
    SeededListed(n, front);
    WithSeedAt(Seeded(n, front), seeds[m].0, seeds[m].1, n, v);
    if i < m {
      assert !SeedAt(n, seeds, v, m);
      LastFront(n, seeds, v, i);
      SeededLast(n, front, v, i);
    }
  }

  lemma LastFront(n: nat, seeds: seq<(nat, real)>, v: nat, i: nat)
    requires |seeds| > 0 && i < |seeds| - 1 && LastSeed(n, seeds, v, i)
    ensures LastSeed(n, seeds[..|seeds| - 1], v, i)
  {
    var front := seeds[..|seeds| - 1];
    forall j: nat | i < j ensures !SeedAt(n, front, v, j) {
      assert !SeedAt(n, seeds, v, j);
    }
  }

  lemma {:induction false} SeededNone(n: nat, seeds: seq<(nat, real)>, v: nat)
    requires v < n && NoSeed(n, seeds, v)
    ensures var s := Seeded(n, seeds); |s.act| == |s.hop| == n && s.act[v] == 0.0 && s.hop[v] == USIZE_MAX
    decreases |seeds|
  {
    if |seeds| > 0 {
      hide Seeded, WithSeed;
      var front, m := seeds[..|seeds| - 1], |seeds| - 1;
      assert !SeedAt(n, seeds, v, m);
      forall j: nat ensures !SeedAt(n, front, v, j) {
        assert !SeedAt(n, seeds, v, j);
      }
      SeededNone(n, front, v);
      SeededNext(n, seeds);
      WithSeedAt(Seeded(n, front), seeds[m].0, seeds[m].1, n, v);
    }
  }

  /** A node has the activation of the last seed taken up there, at hop 0; a node without
      one has none and is not reached. */
  lemma SeededAt(n: nat, seeds: seq<(nat, real)>, v: nat)
    requires v < n
    ensures var s := Seeded(n, seeds);
      && |s.act| == |s.hop| == n
      && (forall i: nat | LastSeed(n, seeds, v, i) :: s.act[v] == seeds[i].1 && s.hop[v] == 0)
      && (NoSeed(n, seeds, v) ==> s.act[v] == 0.0 && s.hop[v] == USIZE_MAX)
  {
    hide Seeded, NoSeed;
    SeededSize(n, seeds);
    forall i: nat | LastSeed(n, seeds, v, i)
      ensures Seeded(n, seeds).act[v] == seeds[i].1 && Seeded(n, seeds).hop[v] == 0
    {
      SeededLast(n, seeds, v, i);
    }
    if NoSeed(n, seeds, v) { SeededNone(n, seeds, v); }
  }

  lemma WithSeedAt(s: Wave, pos: nat, act: real, n: nat, v: nat)
    requires |s.act| == |s.hop| == n && v < n
    ensures var r := WithSeed(s, pos, act);
      && |r.act| == |r.hop| == n
      && (if pos == v && Takes(n, (pos, act)) then
            r.act[v] == act && r.hop[v] == if s.hop[v] == USIZE_MAX then 0 else s.hop[v]
          else r.act[v] == s.act[v] && r.hop[v] == s.hop[v])
  {
  }

  lemma SeededNext(n: nat, seeds: seq<(nat, real)>)
    requires |seeds| > 0
    ensures var s, x := Seeded(n, seeds[..|seeds| - 1]), seeds[|seeds| - 1]; Seeded(n, seeds) == WithSeed(s, x.0, x.1)
  {
  }

  lemma {:induction false} SeededSize(n: nat, seeds: seq<(nat, real)>)
    ensures |Seeded(n, seeds).act| == |Seeded(n, seeds).hop| == n
  {
    if |seeds| > 0 { SeededSize(n, seeds[..|seeds| - 1]); }
  }

  /** How many seeds are taken up. */
  function Taken(n: nat, seeds: seq<(nat, real)>): nat {
    if |seeds| == 0 then 0 else Taken(n, seeds[..|seeds| - 1]) + if Takes(n, seeds[|seeds| - 1]) then 1 else 0
  }

  /** The seeds taken up spread first, in the order given. */
  lemma {:induction false} FrontierAt(n: nat, seeds: seq<(nat, real)>, i: nat)
    requires i < |seeds|
    ensures |Seeded(n, seeds).frontier| == Taken(n, seeds)
    ensures Takes(n, seeds[i]) ==>
      var k := Taken(n, seeds[..i]); k < Taken(n, seeds) && Seeded(n, seeds).frontier[k] == seeds[i].0
    decreases |seeds|
  {
    var front, m := seeds[..|seeds| - 1], |seeds| - 1;
    SeededSize(n, front);
    if m == 0 {
      assert front == [] && Seeded(n, front).frontier == [];
    } else {
      FrontierAt(n, front, if i < m then i else 0);
    }
    assert seeds[..m] == front;
    if i < m { assert front[..i] == seeds[..i]; }
  }

  /** The first seed taken up at its node. */
  ghost predicate FirstSeed(n: nat, seeds: seq<(nat, real)>, i: nat) {
    i < |seeds| && Takes(n, seeds[i]) && forall j: nat | j < i :: !SeedAt(n, seeds, seeds[i].0, j)
  }

  ghost function Firsts(n: nat, seeds: seq<(nat, real)>, i: nat): nat {
    if i == 0 then 0 else Firsts(n, seeds, i - 1) + if FirstSeed(n, seeds, i - 1) then 1 else 0
  }

  lemma FirstFront(n: nat, seeds: seq<(nat, real)>, i: nat)
    requires i < |seeds| - 1
    ensures FirstSeed(n, seeds, i) <==> FirstSeed(n, seeds[..|seeds| - 1], i)
  {
    var front := seeds[..|seeds| - 1];
    forall j: nat | j < i ensures SeedAt(n, seeds, seeds[i].0, j) <==> SeedAt(n, front, seeds[i].0, j) { }
  }

  lemma {:induction false} FirstsFront(n: nat, seeds: seq<(nat, real)>, i: nat)
    requires i < |seeds|
    ensures Firsts(n, seeds, i) == Firsts(n, seeds[..|seeds| - 1], i)
    decreases i
  {
    if i > 0 {
      FirstsFront(n, seeds, i - 1);
      FirstFront(n, seeds, i - 1);
    }
  }

  /** Whether the last seed is the first at its node shows in the hop recorded before it. */
  lemma LastIsFirst(n: nat, seeds: seq<(nat, real)>)
    requires |seeds| > 0 && Takes(n, seeds[|seeds| - 1])
    ensures var s, v := Seeded(n, seeds[..|seeds| - 1]), seeds[|seeds| - 1].0;
      |s.hop| == n && (s.hop[v] == USIZE_MAX <==> FirstSeed(n, seeds, |seeds| - 1))
  {
    hide Seeded;
    var front, m := seeds[..|seeds| - 1], |seeds| - 1;
    var v := seeds[m].0;
    SeededAt(n, front, v);
    forall j: nat | j < m ensures SeedAt(n, seeds, v, j) <==> SeedAt(n, front, v, j) { }
    if k: nat :| SeedAt(n, front, v, k) {
      assert k < m && SeedAt(n, seeds, v, k);
      var l := LastFound(n, front, v, k);
    }
  }

  /** Nodes are listed in the order in which they first come up among the seeds. */
  lemma {:induction false} VisitedAt(n: nat, seeds: seq<(nat, real)>, i: nat)
    requires i < |seeds|
    ensures |Seeded(n, seeds).visited| == Firsts(n, seeds, |seeds|)
    ensures FirstSeed(n, seeds, i) ==>
      var k := Firsts(n, seeds, i); k < Firsts(n, seeds, |seeds|) && Seeded(n, seeds).visited[k] == seeds[i].0
    decreases |seeds|
  {
    var front, m := seeds[..|seeds| - 1], |seeds| - 1;
    FirstsFront(n, seeds, m);
    if m == 0 {
      assert front == [] && Seeded(n, front).visited == [];
    } else {
      VisitedAt(n, front, if i < m then i else 0);
    }
    if i < m {
      FirstsFront(n, seeds, i);
      FirstFront(n, seeds, i);
    }
    SeededSize(n, front);
    if Takes(n, seeds[m]) { LastIsFirst(n, seeds); }
    hide Seeded, FirstSeed;
    SeededNext(n, seeds);
    if !Takes(n, seeds[m]) { NotFirst(n, seeds, m); }
  }

  lemma NotFirst(n: nat, seeds: seq<(nat, real)>, i: nat)
    requires i < |seeds| && !Takes(n, seeds[i])
    ensures !FirstSeed(n, seeds, i)
  {
  }

  // ------------------------------------------------------------------ one hop, entry by entry

  /** The `j`-th entry of the `i`-th spreading node carries enough to `w`. */
  ghost predicate Carries(net: Net, s: Wave, w: nat, i: nat, j: nat) {
    && i < |s.frontier| && s.frontier[i] < |net.adj| && s.frontier[i] < |s.act|
    && j < |net.adj[s.frontier[i]]| && net.adj[s.frontier[i]][j] == w
    && s.act[s.frontier[i]] * net.weight(s.frontier[i], w) * net.decay >= net.threshold
  }

  ghost function EntryGift(net: Net, s: Wave, w: nat, i: int, j: int): real {
    if i >= 0 && j >= 0 && Carries(net, s, w, i, j) then
      s.act[s.frontier[i]] * net.weight(s.frontier[i], w) * net.decay
    else 0.0
  }

  ghost function RowGifts(net: Net, s: Wave, w: nat, i: int): real {
    if 0 <= i < |s.frontier| && s.frontier[i] < |net.adj| then
      Sum(|net.adj[s.frontier[i]]|, j => EntryGift(net, s, w, i, j))
    else 0.0
  }

  /** All that the entries of the spreading nodes carry to `w`. */
  ghost function AllGifts(net: Net, s: Wave, w: nat): real {
    Sum(|s.frontier|, i => RowGifts(net, s, w, i))
  }

  ghost function HitGifts(net: Net, act: seq<real>, u: nat, w: nat): real
    requires u < |net.adj|
  {
    Hits(net, act, u, net.adj[u], w) as real * Gift(net, act, u, w)
  }

  lemma RowIsHits(net: Net, s: Wave, w: nat, i: nat)
    requires Shaped(net, s) && i < |s.frontier|
    ensures RowGifts(net, s, w, i) == HitGifts(net, s.act, s.frontier[i], w)
  {
    var u := s.frontier[i];
    var list, x := net.adj[u], Gift(net, s.act, u, w);
    var f := (j: int) => EntryGift(net, s, w, i, j);
    if x >= net.threshold {
      forall j | 0 <= j < |list| ensures f(j) == if list[j] == w then x else 0.0 { }
      CountSum(list, w, x, |list|, f);
      assert list[..|list|] == list;
    } else {
      forall j | 0 <= j < |list| ensures f(j) == 0.0 { }
      SumZero(|list|, f);
    }
    SumEq(|list|, f, j => EntryGift(net, s, w, i, j));
  }

  lemma {:induction false} InflowSum(net: Net, s: Wave, w: nat, k: nat, f: int -> real)
    requires Shaped(net, s) && k <= |s.frontier| && forall i | 0 <= i < k :: f(i) == RowGifts(net, s, w, i)
    ensures Inflow(net, s.act, s.frontier[..k], w) == Sum(k, f)
  {
    if k > 0 {
      hide RowGifts, HitGifts, Inflow;
      InflowSum(net, s, w, k - 1, f);
      RowIsHits(net, s, w, k - 1);
      InflowNext(net, s, w, k);
    }
  }

  lemma InflowNext(net: Net, s: Wave, w: nat, k: nat)
    requires Shaped(net, s) && 0 < k <= |s.frontier|
    ensures Inflow(net, s.act, s.frontier[..k], w)
      == Inflow(net, s.act, s.frontier[..k - 1], w) + HitGifts(net, s.act, s.frontier[k - 1], w)
  {
    assert s.frontier[..k][..k - 1] == s.frontier[..k - 1];
  }

  lemma {:induction false} HitsFound(net: Net, s: Wave, w: nat, k: nat)
    requires Shaped(net, s) && k <= |s.frontier|
    ensures HitsFrom(net, s.act, s.frontier[..k], w) > 0 <==> exists i: nat, j: nat :: i < k && Carries(net, s, w, i, j)
  {
    if k > 0 {
      HitsFound(net, s, w, k - 1);
      assert s.frontier[..k][..k - 1] == s.frontier[..k - 1];
      var u := s.frontier[k - 1];
      CountMember(net.adj[u], w);
      hide Count, HitsFrom;
      HitsNext(net, s, w, k);
      if Hits(net, s.act, u, net.adj[u], w) > 0 {
        var j :| 0 <= j < |net.adj[u]| && net.adj[u][j] == w;
        assert Carries(net, s, w, k - 1, j);
      }
      if i: nat, j: nat :| i < k && Carries(net, s, w, i, j) {
        if i == k - 1 { assert net.adj[u][j] in net.adj[u]; }
      }
    }
  }

  lemma HitsNext(net: Net, s: Wave, w: nat, k: nat)
    requires Shaped(net, s) && 0 < k <= |s.frontier|
    ensures HitsFrom(net, s.act, s.frontier[..k], w)
      == HitsFrom(net, s.act, s.frontier[..k - 1], w)
         + Hits(net, s.act, s.frontier[k - 1], net.adj[s.frontier[k - 1]], w)
  {
    assert s.frontier[..k][..k - 1] == s.frontier[..k - 1];
  }

  ghost predicate Carried(net: Net, s: Wave, w: nat) {
    exists i: nat, j: nat :: Carries(net, s, w, i, j)
  }

  /** A hop reaches exactly the nodes not reached before to which an entry carries enough,
      and adds up all that such entries carry; nothing else changes. */
  lemma HopByEntries(net: Net, s: Wave, h: nat, w: nat)
    requires Shaped(net, s) && w < |net.adj|
    ensures var r := Advance(net, s, h); var new_ := s.hop[w] == USIZE_MAX && Carried(net, s, w);
      && r.act[w] == (if new_ then s.act[w] + AllGifts(net, s, w) else s.act[w])
      && r.hop[w] == (if new_ then h else s.hop[w])
      && (w in r.frontier <==> new_)
  {
    var k := |s.frontier|;
    assert s.frontier[..k] == s.frontier;
    HitsFound(net, s, w, k);
    var f := (i: int) => RowGifts(net, s, w, i);
    InflowSum(net, s, w, k, f);
    SumEq(k, f, i => RowGifts(net, s, w, i));
    WokenFacts(net, s, |net.adj|);
    hide Woken, Inflow, HitsFrom, RowGifts;
    assert Carried(net, s, w) <==> HitsFrom(net, s.act, s.frontier, w) > 0;
  }

  // ------------------------------------------------------------------ results

  /** The result lists exactly the nodes reached with enough activation, as they were left. */
  lemma ActivatedExactly(net: Net, seeds: seq<(nat, real)>, maxHops: nat, x: Active)
    ensures Shaped(net, Seeded(|net.adj|, seeds))
    ensures var r := Waves(net, Seeded(|net.adj|, seeds), maxHops);
      x in Activated(net, seeds, maxHops) <==>
        x.0 in r.visited && x.1 == r.act[x.0] >= net.threshold && x.2 == r.hop[x.0] <= maxHops
  {
    SeededShaped(net, seeds);
    hide Seeded, Waves, Survivors, SortDescending;
    var r := Waves(net, Seeded(|net.adj|, seeds), maxHops);
    SpreadSeeds.WavesSized(net, r);
    ResultOrder(Survivors(r.visited, r.act, r.hop, maxHops, net.threshold));
    SpreadSeeds.SurvivorsMembers(r.visited, r.act, r.hop, maxHops, net.threshold, x);
  }

  /** What has been reached keeps its activation and its hop. */
  lemma {:induction false} ReachedStays(net: Net, s: Wave, v: nat, hops: nat)
    requires Shaped(net, s) && v in s.visited && v < |net.adj| && s.hop[v] != USIZE_MAX
    ensures var r := Waves(net, s, hops); v in r.visited && r.act[v] == s.act[v] && r.hop[v] == s.hop[v]
    decreases hops
  {
    if hops == 0 {
      WavesStart(net, s);
    } else {
      ReachedStays(net, s, v, hops - 1);
      hide Woken, Inflow, HitsFrom, Waves;
      WavesNext(net, s, hops);
    }
  }

  /** Of any list of seeds: the last one taken up at a node is listed exactly when it
      reaches the threshold, with the activation given and hop 0. */
  lemma EverySeedListed(net: Net, seeds: seq<(nat, real)>, maxHops: nat, v: nat, i: nat)
    requires LastSeed(|net.adj|, seeds, v, i)
    ensures Shaped(net, Seeded(|net.adj|, seeds))
    ensures var all := Activated(net, seeds, maxHops);
      && (SpreadSeeds.Lists(all, v) <==> seeds[i].1 >= net.threshold)
      && (forall x | x in all && x.0 == v :: x == (v, seeds[i].1, 0))
  {
    hide Seeded, Waves, Activated;
    SeededShaped(net, seeds);
    var s := Seeded(|net.adj|, seeds);
    SeededAt(|net.adj|, seeds, v);
    SeededListed(|net.adj|, seeds);
    ReachedStays(net, s, v, maxHops);
    var all, x := Activated(net, seeds, maxHops), (v, seeds[i].1, 0);
    forall y | y in all && y.0 == v ensures y == x {
      ActivatedExactly(net, seeds, maxHops, y);
    }
    ActivatedExactly(net, seeds, maxHops, x);
    if SpreadSeeds.Lists(all, v) {
      var y :| y in all && y.0 == v;
      ActivatedExactly(net, seeds, maxHops, y);
    }
  }

  /** A batch runs each seed position with the activation given last for it. */
  lemma {:induction false} LastAtIs(seeds: seq<(nat, real)>, pos: nat, i: nat)
    requires i < |seeds| && seeds[i].0 == pos && forall j | i < j < |seeds| :: seeds[j].0 != pos
    ensures LastAt(seeds, pos) == Some(seeds[i].1)
    decreases |seeds|
  {
    if i < |seeds| - 1 { LastAtIs(seeds[..|seeds| - 1], pos, i); }
  }

  /** A batch keeps the first `k` entries of a result, or all there are. */
  lemma TopEntries(s: seq<Active>, k: nat)
    ensures |Truncated(s, k)| == (if k < |s| then k else |s|)
    ensures forall i | 0 <= i < |Truncated(s, k)| :: Truncated(s, k)[i] == s[i]
  {
  }

  // ------------------------------------------------------------------ two seeds that meet

  const UNREACHED: nat := USIZE_MAX
  const FORK: Adj := [[2], [2], [0, 1]]

  lemma ForkSeeded()
    ensures Seeded(3, [(0, 1.0), (1, 1.0)]) == Wave([1.0, 1.0, 0.0], [0, 0, UNREACHED], [0, 1], [0, 1])
  {
    var seeds: seq<(nat, real)> := [(0, 1.0), (1, 1.0)];
    assert seeds[..1] == [(0, 1.0)] && seeds[..1][..0] == [];
    var s0 := Blank(3);
    assert Seeded(3, seeds[..1][..0]) == s0;
    var s1 := WithSeed(s0, 0, 1.0);
    assert Seeded(3, seeds[..1]) == s1;
    assert Seeded(3, seeds) == WithSeed(s1, 1, 1.0);
    var s2 := Seeded(3, seeds);
    assert s2.act == [1.0, 1.0, 0.0] && s2.hop == [0, 0, UNREACHED];
    assert s2.visited == [0, 1] && s2.frontier == [0, 1];
  }

  /** Two seeds with an edge to a third node each: it gets half of both. */
  lemma TwoSeedsMeet(net: Net)
    requires net == Net(FORK, UNWEIGHTED, 0.5, 0.01)
    ensures Shaped(net, Seeded(3, [(0, 1.0), (1, 1.0)]))
    ensures Waves(net, Seeded(3, [(0, 1.0), (1, 1.0)]), 1).act[2] == 1.0
  {
    ForkSeeded();
    hide Seeded;
    var s := Seeded(3, [(0, 1.0), (1, 1.0)]);
    assert Carries(net, s, 2, 0, 0);
    WavesStart(net, s);
    WavesNext(net, s, 1);
    HopByEntries(net, s, 1, 2);
    ForkGifts(net, s);
  }

  lemma ForkGifts(net: Net, s: Wave)
    requires net == Net(FORK, UNWEIGHTED, 0.5, 0.01)
    requires s == Wave([1.0, 1.0, 0.0], [0, 0, UNREACHED], [0, 1], [0, 1])
    ensures AllGifts(net, s, 2) == 1.0
  {
    forall i: int | 0 <= i < 2 ensures RowGifts(net, s, 2, i) == 0.5 {
      var f := (j: int) => EntryGift(net, s, 2, i, j);
      assert Carries(net, s, 2, i, 0);
      assert f(0) == 0.5;
      assert Sum(0, f) == 0.0 && Sum(1, f) == 0.5;
      SumEq(1, f, j => EntryGift(net, s, 2, i, j));
    }
    var g := (i: int) => RowGifts(net, s, 2, i);
    assert Sum(0, g) == 0.0 && Sum(1, g) == 0.5 && Sum(2, g) == 1.0;
    SumEq(2, g, i => RowGifts(net, s, 2, i));
  }
}
