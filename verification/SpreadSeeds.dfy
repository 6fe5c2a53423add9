/** Where a batch of spreading activations lists the seed itself. */
module SpreadSeeds {
  import opened Graphs
  import opened Buckets
  import opened Spread
  import CsrBuild

  /** The seed is taken up and reaches the threshold. */
  predicate Survives(net: Net, pos: nat, act: real) {
    pos < |net.adj| && act > 0.0 && act >= net.threshold
  }

  ghost predicate Lists(s: seq<Active>, pos: nat) {
    exists x :: x in s && x.0 == pos
  }

  /** How many entries have more activation than `a`. */
  ghost function Larger(s: seq<Active>, a: real): nat {
    if |s| == 0 then 0 else Larger(s[..|s| - 1], a) + if s[|s| - 1].1 > a then 1 else 0
  }

  ghost predicate Descending(s: seq<Active>) {
    forall i, j | 0 <= i < j < |s| :: s[i].1 >= s[j].1
  }

  // ------------------------------------------------------------------ sorting

  lemma LargerPush(s: seq<Active>, x: Active, a: real)
    ensures Larger(s + [x], a) == Larger(s, a) + if x.1 > a then 1 else 0
  {
    assert (s + [x])[..|s|] == s;
  }

  lemma {:induction false} InsertLarger(s: seq<Active>, x: Active, a: real)
    ensures Larger(InsertDescending(s, x), a) == Larger(s, a) + if x.1 > a then 1 else 0
  {
    if |s| == 0 || s[|s| - 1].1 >= x.1 {
      LargerPush(s, x, a);
    } else {
      var front, last := s[..|s| - 1], s[|s| - 1];
      InsertLarger(front, x, a);
      LargerPush(InsertDescending(front, x), last, a);
    }
  }

  lemma {:induction false} SortLarger(s: seq<Active>, a: real)
    ensures Larger(SortDescending(s), a) == Larger(s, a)
  {
    if |s| > 0 {
      SortLarger(s[..|s| - 1], a);
      InsertLarger(SortDescending(s[..|s| - 1]), s[|s| - 1], a);
    }
  }

  /** In descending order the larger entries come first. */
  lemma {:induction false} LargerFirst(s: seq<Active>, a: real, i: nat)
    requires Descending(s) && i < |s|
    ensures Larger(s, a) <= |s| && (s[i].1 > a <==> i < Larger(s, a))
    decreases |s|
  {
    var front, last := s[..|s| - 1], s[|s| - 1];
    if |front| == 0 {
      assert Larger(front, a) == 0;
    } else {
      LargerFirst(front, a, if i < |front| then i else 0);
      LargerFirst(front, a, |front| - 1);
    }
  }

  lemma {:induction false} InsertShifts(s: seq<Active>, x: Active, i: nat)
    requires Descending(s) && i < |s|
    ensures s[i].1 >= x.1 ==> InsertDescending(s, x)[i] == s[i]
    ensures s[i].1 < x.1 ==> InsertDescending(s, x)[i + 1] == s[i]
  {
    if s[|s| - 1].1 < x.1 && i < |s| - 1 {
      InsertShifts(s[..|s| - 1], x, i);
    }
  }

  /** The sort is stable: the first entry comes before all others of its activation. */
  lemma {:induction false} FirstAt(s: seq<Active>)
    requires |s| > 0
    ensures Larger(s, s[0].1) < |s| && SortDescending(s)[Larger(s, s[0].1)] == s[0]
    decreases |s|
  {
    hide SortDescending, InsertDescending, Larger;
    var front, last := s[..|s| - 1], s[|s| - 1];
    SortNext(s, s[0].1);
    if |front| == 0 {
      SortOne(s);
    } else {
      FirstAt(front);
      ResultOrder(front);
      InsertShifts(SortDescending(front), last, Larger(front, s[0].1));
    }
  }

  lemma SortNext(s: seq<Active>, a: real)
    requires |s| > 0
    ensures var front, last := s[..|s| - 1], s[|s| - 1];
      && SortDescending(s) == InsertDescending(SortDescending(front), last)
      && Larger(s, a) == Larger(front, a) + if last.1 > a then 1 else 0
  {
  }

  lemma SortOne(s: seq<Active>)
    requires |s| == 1
    ensures SortDescending(s) == s && Larger(s, s[0].1) == 0
  {
  }

  // ------------------------------------------------------------------ the seed's own entry

  /** The seed keeps its activation and stays first among the visited. */
  lemma {:induction false} SeedStays(net: Net, s: Wave, pos: nat, hops: nat)
    requires Shaped(net, s) && pos < |net.adj| && s.hop[pos] != USIZE_MAX && |s.visited| > 0 && s.visited[0] == pos
    ensures var r := Waves(net, s, hops);
      |r.visited| > 0 && r.visited[0] == pos && r.act[pos] == s.act[pos] && r.hop[pos] == s.hop[pos]
    decreases hops
  {
    if hops > 0 {
      SeedStays(net, s, pos, hops - 1);
      hide Woken, Inflow, HitsFrom;
      WavesNext(net, s, hops);
    }
  }

  lemma {:induction false} SurvivorsMembers(visited: seq<nat>, act: seq<real>, hop: seq<nat>, maxHops: nat,
                                            threshold: real, x: Active)
    requires |act| == |hop| && (forall i | 0 <= i < |visited| :: visited[i] < |act|)
    ensures x in Survivors(visited, act, hop, maxHops, threshold) <==>
            x.0 in visited && x.1 == act[x.0] >= threshold && x.2 == hop[x.0] <= maxHops
    decreases |visited|
  {
    if |visited| > 0 {
      var front, v := visited[..|visited| - 1], visited[|visited| - 1];
      SurvivorsMembers(front, act, hop, maxHops, threshold, x);
      assert visited == front + [v];
    }
  }

  lemma {:induction false} SurvivorsFirst(visited: seq<nat>, act: seq<real>, hop: seq<nat>, maxHops: nat,
                                          threshold: real)
    requires |act| == |hop| && (forall i | 0 <= i < |visited| :: visited[i] < |act|)
    requires |visited| > 0 && hop[visited[0]] <= maxHops && act[visited[0]] >= threshold
    ensures var s := Survivors(visited, act, hop, maxHops, threshold);
      var v := visited[0]; |s| > 0 && s[0] == (v, act[v], hop[v])
    decreases |visited|
  {
    var front := visited[..|visited| - 1];
    if |front| == 0 {
      assert Survivors(front, act, hop, maxHops, threshold) == [];
    } else {
      SurvivorsFirst(front, act, hop, maxHops, threshold);
    }
  }

  lemma OneSeed(net: Net, pos: nat, act: real)
    ensures Shaped(net, Seeded(|net.adj|, [(pos, act)]))
    ensures pos < |net.adj| && act > 0.0 ==>
              var s := Seeded(|net.adj|, [(pos, act)]); s.visited == [pos] && s.act[pos] == act && s.hop[pos] == 0
    ensures !(pos < |net.adj| && act > 0.0) ==> Seeded(|net.adj|, [(pos, act)]) == Blank(|net.adj|)
  {
    var seeds := [(pos, act)];
    SeededShaped(net, seeds);
    assert seeds[..|seeds| - 1] == [];
    NoSeeds(|net.adj|, seeds[..|seeds| - 1]);
    assert Seeded(|net.adj|, seeds) == WithSeed(Blank(|net.adj|), pos, act);
  }

  /** A run from one seed lists that seed exactly when it survives, with the activation
      it was given, behind the nodes of more activation and before all others. */
  lemma SeedListed(net: Net, pos: nat, act: real, maxHops: nat)
    ensures Shaped(net, Seeded(|net.adj|, [(pos, act)]))
    ensures var all := Activated(net, [(pos, act)], maxHops);
      && (Lists(all, pos) <==> Survives(net, pos, act))
      && (Survives(net, pos, act) ==> Larger(all, act) < |all| && all[Larger(all, act)] == (pos, act, 0))
      && (forall i | 0 <= i < |all| && all[i].0 == pos :: all[i] == (pos, act, 0))
  {
    hide Seeded, Waves, Survivors, SortDescending, Larger, Shaped;
    OneSeed(net, pos, act);
    var s := Seeded(|net.adj|, [(pos, act)]);
    if pos < |net.adj| && act > 0.0 {
      SeedFound(net, s, pos, act, maxHops);
    } else {
      NothingFound(net, s, maxHops);
    }
    var r := Waves(net, s, maxHops);
    WavesSized(net, r);
    var found := Survivors(r.visited, r.act, r.hop, maxHops, net.threshold);
    ResultOrder(found);
    Members(net, pos, act, found);
  }

  lemma WavesSized(net: Net, r: Wave)
    requires Shaped(net, r)
    ensures |r.act| == |r.hop| && forall i | 0 <= i < |r.visited| :: r.visited[i] < |r.act|
  {
  }

  lemma NothingFound(net: Net, s: Wave, maxHops: nat)
    requires Shaped(net, s) && s == Blank(|net.adj|)
    ensures var r := Waves(net, s, maxHops);
      |r.act| == |r.hop| && r.visited == [] && Survivors(r.visited, r.act, r.hop, maxHops, net.threshold) == []
  {
    hide Waves;
    WavesStart(net, s);
    StillForever(net, s, 0, maxHops);
  }

  lemma SeedFound(net: Net, s: Wave, pos: nat, act: real, maxHops: nat)
    requires Shaped(net, s) && pos < |net.adj| && act > 0.0
    requires s.visited == [pos] && s.act[pos] == act && s.hop[pos] == 0
    ensures var r := Waves(net, s, maxHops);
      && |r.act| == |r.hop| && (forall i | 0 <= i < |r.visited| :: r.visited[i] < |r.act|)
      && var found := Survivors(r.visited, r.act, r.hop, maxHops, net.threshold);
         && (forall x | x in found && x.0 == pos :: x == (pos, act, 0) && Survives(net, pos, act))
         && (Survives(net, pos, act) ==>
               var all := SortDescending(found); Larger(all, act) < |all| && all[Larger(all, act)] == (pos, act, 0))
  {
    hide Waves, Survivors, SortDescending, Larger;
    SeedStays(net, s, pos, maxHops);
    var r := Waves(net, s, maxHops);
    WavesSized(net, r);
    var found := Survivors(r.visited, r.act, r.hop, maxHops, net.threshold);
    forall x | x in found && x.0 == pos ensures x == (pos, act, 0) && Survives(net, pos, act) {
      SurvivorsMembers(r.visited, r.act, r.hop, maxHops, net.threshold, x);
    }
    if Survives(net, pos, act) {
      SurvivorsFirst(r.visited, r.act, r.hop, maxHops, net.threshold);
      FirstAt(found);
      SortLarger(found, act);
    }
  }

  lemma Members(net: Net, pos: nat, act: real, found: seq<Active>)
    requires forall x | x in found && x.0 == pos :: x == (pos, act, 0) && Survives(net, pos, act)
    requires Survives(net, pos, act) ==>
      var all := SortDescending(found); Larger(all, act) < |all| && all[Larger(all, act)] == (pos, act, 0)
    requires forall y :: y in SortDescending(found) <==> y in found
    ensures Lists(SortDescending(found), pos) <==> Survives(net, pos, act)
    ensures forall i | 0 <= i < |SortDescending(found)| && SortDescending(found)[i].0 == pos ::
      SortDescending(found)[i] == (pos, act, 0)
  {
    var all := SortDescending(found);
    if Survives(net, pos, act) {
      assert all[Larger(all, act)] in all;
    }
    forall i | 0 <= i < |all| && all[i].0 == pos ensures all[i] == (pos, act, 0) {
      assert all[i] in all;
    }
  }

  // ------------------------------------------------------------------ batches

  lemma TruncatedLists(all: seq<Active>, pos: nat, act: real, k: nat)
    requires Descending(all) && forall i | 0 <= i < |all| && all[i].0 == pos :: all[i] == (pos, act, 0)
    requires Lists(all, pos) ==> Larger(all, act) < |all| && all[Larger(all, act)] == (pos, act, 0)
    ensures Lists(Truncated(all, k), pos) <==> Lists(all, pos) && Larger(all, act) < k
  {
    hide Larger;
    var top := Truncated(all, k);
    assert top == all[..|top|];
    if Lists(top, pos) {
      var i :| 0 <= i < |top| && top[i].0 == pos;
      assert all[i] in all && all[i] == (pos, act, 0);
      LargerFirst(all, act, i);
    }
    if Lists(all, pos) && Larger(all, act) < k {
      assert top[Larger(all, act)] in top;
    }
  }

  /** In the batch's result for a seed, the seed itself is listed exactly when it
      survives and fewer than `k` of the activated nodes have more activation. */
  lemma SeedInBatch(net: Net, seeds: seq<(nat, real)>, maxHops: nat, k: nat, results: map<nat, seq<Active>>, pos: nat)
    requires BatchResult(net, seeds, maxHops, k, results) && pos in results
    ensures LastAt(seeds, pos).Some?
    ensures var act := LastAt(seeds, pos).value;
      && Shaped(net, Seeded(|net.adj|, [(pos, act)]))
      && (Lists(results[pos], pos) <==>
            Survives(net, pos, act) && Larger(Activated(net, [(pos, act)], maxHops), act) < k)
  {
    hide Activated, Larger, Seeded, Truncated, Shaped;
    var act := LastAt(seeds, pos).value;
    SeedListed(net, pos, act, maxHops);
    ActivatedDescends(net, [(pos, act)], maxHops);
    TruncatedLists(Activated(net, [(pos, act)], maxHops), pos, act, k);
  }

  lemma ActivatedDescends(net: Net, seeds: seq<(nat, real)>, maxHops: nat)
    requires Shaped(net, Seeded(|net.adj|, seeds))
    ensures Descending(Activated(net, seeds, maxHops))
  {
    hide Waves, Seeded, Survivors, SortDescending;
    var s := Waves(net, Seeded(|net.adj|, seeds), maxHops);
    WavesSized(net, s);
    ResultOrder(Survivors(s.visited, s.act, s.hop, maxHops, net.threshold));
  }

  lemma {:induction false} SurvivorsShort(visited: seq<nat>, act: seq<real>, hop: seq<nat>, maxHops: nat,
                                          threshold: real)
    requires |act| == |hop| && (forall i | 0 <= i < |visited| :: visited[i] < |act|)
    ensures |Survivors(visited, act, hop, maxHops, threshold)| <= |visited|
  {
    if |visited| > 0 { SurvivorsShort(visited[..|visited| - 1], act, hop, maxHops, threshold); }
  }

  /** However many hops, the visited nodes are listed once each. */
  lemma {:induction false} WavesListed(net: Net, s: Wave, hops: nat)
    requires Shaped(net, s) && Listed(s) && Earlier(s.hop, 1) && |net.adj| < USIZE_MAX
    ensures var r := Waves(net, s, hops);
      Listed(r) && Earlier(r.hop, hops + 1) && (|r.frontier| > 0 ==> hops <= |r.visited|)
    decreases hops
  {
    hide Listed, Waves, Advance;
    if hops == 0 {
      WavesStart(net, s);
    } else {
      WavesListed(net, s, hops - 1);
      WavesNext(net, s, hops);
      var r := Waves(net, s, hops - 1);
      if |r.frontier| == 0 {
        Still(net, r, hops);
      } else {
        AdvanceListed(net, r, hops);
      }
    }
  }

  lemma ActivatedShort(net: Net, pos: nat, act: real, maxHops: nat)
    requires |net.adj| < USIZE_MAX
    ensures Shaped(net, Seeded(|net.adj|, [(pos, act)]))
    ensures |Activated(net, [(pos, act)], maxHops)| <= |net.adj|
  {
    hide Waves, Seeded, Survivors, SortDescending, Shaped;
    var seeds := [(pos, act)];
    SeededShaped(net, seeds);
    SeededListed(|net.adj|, seeds);
    WavesListed(net, Seeded(|net.adj|, seeds), maxHops);
    var r := Waves(net, Seeded(|net.adj|, seeds), maxHops);
    WavesSized(net, r);
    ShapedSize(net, r);
    SurvivorsShort(r.visited, r.act, r.hop, maxHops, net.threshold);
    DistinctBound(r.visited, |net.adj|);
  }

  lemma ShapedSize(net: Net, r: Wave)
    requires Shaped(net, r)
    ensures |r.act| == |r.hop| == |net.adj|
  {
  }

  /** With room for every node, the seed is listed exactly when it survives; with
      room for none, never. */
  lemma SeedInRoomyBatch(net: Net, seeds: seq<(nat, real)>, maxHops: nat, k: nat, results: map<nat, seq<Active>>,
                         pos: nat)
    requires BatchResult(net, seeds, maxHops, k, results) && pos in results && |net.adj| < USIZE_MAX
    ensures LastAt(seeds, pos).Some?
    ensures k >= |net.adj| ==> (Lists(results[pos], pos) <==> Survives(net, pos, LastAt(seeds, pos).value))
    ensures k == 0 ==> !Lists(results[pos], pos)
  {
    hide Activated, Larger, Lists, Shaped, Seeded;
    SeedInBatch(net, seeds, maxHops, k, results, pos);
    var act := LastAt(seeds, pos).value;
    SeedListed(net, pos, act, maxHops);
    ActivatedShort(net, pos, act, maxHops);
  }

  // ------------------------------------------------------------------ two inputs

  const EDGES: seq<(nat, nat)> := [(0, 1), (0, 1)]

  /** Two parallel edges between two nodes. */
  lemma ParallelEdges(g: Csr)
    requires CsrBuild.Built(g, Rows(EDGES), 2)
    ensures Graphs.Lists(g) == [[1, 1], [0, 0]]
  {
    var rows := Rows(EDGES);
    CsrBuild.BuiltLists(g, rows, 2, 0);
    CsrBuild.BuiltLists(g, rows, 2, 1);
    var front := rows[..1];
    assert rows[..|rows| - 1] == front && front[..|front| - 1] == [];
    forall v: nat ensures CsrBuild.Incident([], v) == [] { }
    assert CsrBuild.Incident(front, 0) == [(0, InternalId(0, 1))]
      && CsrBuild.Incident(front, 1) == [(0, InternalId(0, 0))];
    assert CsrBuild.Targets(CsrBuild.Incident(rows, 0)) == [1, 1];
    assert CsrBuild.Targets(CsrBuild.Incident(rows, 1)) == [0, 0];
  }

  /** The seed is returned: the documentation's exclusion of it is not what the code does. */
  lemma SeedReturned(g: Csr, maxHops: nat, results: map<nat, seq<Active>>)
    requires CsrBuild.Built(g, Rows(EDGES), 2)
    requires BatchResult(Net(Graphs.Lists(g), UNWEIGHTED, 0.9, 0.1), [(0, 1.0)], maxHops, 2, results)
    ensures 0 in results && Lists(results[0], 0)
  {
    ParallelEdges(g);
    var net := Net(Graphs.Lists(g), UNWEIGHTED, 0.9, 0.1);
    assert LastAt([(0, 1.0)], 0) == Some(1.0);
    assert 0 in results;
    SeedInRoomyBatch(net, [(0, 1.0)], maxHops, 2, results, 0);
  }

  lemma {:induction false} LargerSome(s: seq<Active>, x: Active, a: real)
    requires x in s && x.1 > a
    ensures Larger(s, a) > 0
  {
    var front := s[..|s| - 1];
    if x in front { LargerSome(front, x, a); }
  }

  /** After one hop the other node has 1.8, from two gifts of 0.9. */
  lemma OtherNode(net: Net)
    requires net == Net([[1, 1], [0, 0]], UNWEIGHTED, 0.9, 0.1)
    ensures Shaped(net, Seeded(2, [(0, 1.0)])) && Larger(Activated(net, [(0, 1.0)], 1), 1.0) > 0
  {
    OneSeed(net, 0, 1.0);
    var s := Seeded(2, [(0, 1.0)]);
    assert s == WithSeed(Blank(2), 0, 1.0) by {
      assert [(0, 1.0)][..0] == [];
      NoSeeds(2, []);
    }
    TwoGifts(net, s);
    hide Seeded, Waves, Survivors, SortDescending, Larger;
    var r := Waves(net, s, 1);
    var found := Survivors(r.visited, r.act, r.hop, 1, 0.1);
    SurvivorsMembers(r.visited, r.act, r.hop, 1, 0.1, (1, 1.8, 1));
    LargerSome(found, (1, 1.8, 1), 1.0);
    SortLarger(found, 1.0);
  }

  lemma TwoHits(net: Net, act: seq<real>)
    requires net == Net([[1, 1], [0, 0]], UNWEIGHTED, 0.9, 0.1) && act == [1.0, 0.0]
    ensures HitsFrom(net, act, [0], 1) == 2 && Inflow(net, act, [0], 1) == 1.8
  {
    var list: seq<nat> := [1, 1];
    assert Count(list, 1) == 2 by {
      assert list[..1] == [1] && list[..1][..0] == [];
    }
    hide Count;
    var frontier: seq<nat> := [0];
    assert Gift(net, act, 0, 1) == 0.9;
    assert HitsFrom(net, act, frontier[..0], 1) == 0 && Inflow(net, act, frontier[..0], 1) == 0.0;
  }

  lemma TwoGifts(net: Net, s: Wave)
    requires net == Net([[1, 1], [0, 0]], UNWEIGHTED, 0.9, 0.1) && s == WithSeed(Blank(2), 0, 1.0)
    ensures Shaped(net, s)
    ensures var r := Waves(net, s, 1); 1 in r.visited && r.act[1] == 1.8 && r.hop[1] == 1
  {
    var unreached: nat := USIZE_MAX;
    assert s == Wave([1.0, 0.0], [0, unreached], [0], [0]);
    TwoHits(net, s.act);
    assert Wakes(net, s, 1);
    hide HitsFrom, Inflow, Wakes, Woken, Waves, WithSeed, Blank;
    WavesStart(net, s);
    WavesNext(net, s, 1);
    WokenFacts(net, s, 2);
  }

  /** The seed is dropped: at most `k` entries are returned, and it is not among them. */
  lemma SeedDropped(g: Csr, results: map<nat, seq<Active>>)
    requires CsrBuild.Built(g, Rows(EDGES), 2)
    requires BatchResult(Net(Graphs.Lists(g), UNWEIGHTED, 0.9, 0.1), [(0, 1.0)], 1, 1, results)
    ensures 0 in results && !Lists(results[0], 0)
  {
    ParallelEdges(g);
    var net := Net(Graphs.Lists(g), UNWEIGHTED, 0.9, 0.1);
    assert LastAt([(0, 1.0)], 0) == Some(1.0);
    assert 0 in results;
    hide Activated, Seeded;
    OtherNode(net);
    SeedInBatch(net, [(0, 1.0)], 1, 1, results, 0);
  }
}
