/** Building the adjacency from an edge list (akar-graph `CSRAdjacency::build`): every
    edge is stored at both of its ends. */
module CsrBuild {
  import opened Graphs
  import opened Buckets

  datatype EdgeRow = EdgeRow(src: nat, dst: nat, relId: nat, relTable: nat)

  type Entry = (nat, InternalId)

  // ------------------------------------------------------------------ the specification

  /** What node `v` should list: its edges in order, each with the other end; a loop twice. */
  function Incident(edges: seq<EdgeRow>, v: nat): seq<Entry> {
    if |edges| == 0 then []
    else
      var e := edges[|edges| - 1];
      Incident(edges[..|edges| - 1], v)
      + (if e.src == v then [(e.relId, InternalId(e.relTable, e.dst))] else [])
      + (if e.dst == v then [(e.relId, InternalId(e.relTable, e.src))] else [])
  }

  ghost predicate Slice(g: Csr, edges: seq<EdgeRow>, v: nat) {
    g.Valid() && v < g.NumNodes() && g.adjacency[g.offsets[v]..g.offsets[v + 1]] == Incident(edges, v)
  }

  /** The adjacency of an edge list over `n` nodes. */
  ghost predicate Built(g: Csr, edges: seq<EdgeRow>, n: nat) {
    && g.Valid() && |g.offsets| == n + 1 && g.offsets[0] == 0
    && g.offsets[n] == |g.adjacency| == 2 * |edges|
    && forall v: nat | v < n :: Slice(g, edges, v)
  }

  // ------------------------------------------------------------------ edge ends as bucket items

  function Ends(edges: seq<EdgeRow>): (r: seq<nat>)
    ensures |r| == 2 * |edges|
  {
    if |edges| == 0 then [] else Ends(edges[..|edges| - 1]) + [edges[|edges| - 1].src, edges[|edges| - 1].dst]
  }

  function Halves(edges: seq<EdgeRow>): (r: seq<Entry>)
    ensures |r| == 2 * |edges|
  {
    if |edges| == 0 then []
    else
      var e := edges[|edges| - 1];
      Halves(edges[..|edges| - 1])
        + [(e.relId, InternalId(e.relTable, e.dst)), (e.relId, InternalId(e.relTable, e.src))]
  }

  lemma {:induction false} EndsPrefix(edges: seq<EdgeRow>, i: nat)
    requires i < |edges|
    ensures Ends(edges)[..2 * i] == Ends(edges[..i]) && Halves(edges)[..2 * i] == Halves(edges[..i])
    ensures Ends(edges)[2 * i] == edges[i].src && Ends(edges)[2 * i + 1] == edges[i].dst
    ensures Halves(edges)[2 * i] == (edges[i].relId, InternalId(edges[i].relTable, edges[i].dst))
    ensures Halves(edges)[2 * i + 1] == (edges[i].relId, InternalId(edges[i].relTable, edges[i].src))
    decreases |edges|
  {
    var front := edges[..|edges| - 1];
    if i < |front| {
      EndsPrefix(front, i);
      assert front[..i] == edges[..i];
      assert Ends(edges)[..2 * i] == Ends(front)[..2 * i];
      assert Halves(edges)[..2 * i] == Halves(front)[..2 * i];
    }
  }

  lemma {:induction false} EndsInRange(edges: seq<EdgeRow>, n: nat)
    requires forall i | 0 <= i < |edges| :: edges[i].src < n && edges[i].dst < n
    ensures forall i | 0 <= i < |Ends(edges)| :: Ends(edges)[i] < n
  {
    if |edges| > 0 { EndsInRange(edges[..|edges| - 1], n); }
  }

  /** A bucket of edge ends is what the node should list. */
  lemma {:induction false} SelectIsIncident(edges: seq<EdgeRow>, v: nat)
    ensures Select(Ends(edges), Halves(edges), v) == Incident(edges, v)
  {
    if |edges| > 0 {
      var front, e := edges[..|edges| - 1], edges[|edges| - 1];
      SelectIsIncident(front, v);
      hide Select;
      var ks, vs := Ends(front), Halves(front);
      var a, b := (e.relId, InternalId(e.relTable, e.dst)), (e.relId, InternalId(e.relTable, e.src));
      SelectPush(ks, vs, e.src, a, v);
      SelectPush(ks + [e.src], vs + [a], e.dst, b, v);
      assert Ends(edges) == ks + [e.src] + [e.dst];
      assert Halves(edges) == vs + [a] + [b];
    }
  }

  lemma IncidentSize(edges: seq<EdgeRow>, v: nat)
    ensures |Incident(edges, v)| == Count(Ends(edges), v)
  {
    hide Incident, Ends, Halves, Count;
    SelectIsIncident(edges, v);
  }

  lemma {:induction false} IncidentPrefix(edges: seq<EdgeRow>, i: nat, v: nat)
    requires i <= |edges|
    ensures Incident(edges[..i], v) <= Incident(edges, v)
    decreases |edges|
  {
    if i == |edges| {
      assert edges[..i] == edges;
    } else {
      var front := edges[..|edges| - 1];
      IncidentPrefix(front, i, v);
      assert front[..i] == edges[..i];
    }
  }

  /** Where an edge is listed: at either end, behind the ends of the edges before it that
      are there too, with its id and the other end; a loop takes two places. */
  lemma EdgeStored(edges: seq<EdgeRow>, i: nat)
    requires i < |edges|
    ensures var e := edges[i];
      var k, l := Count(Ends(edges[..i]), e.src), Count(Ends(edges[..i]), e.dst) + if e.src == e.dst then 1 else 0;
      && k < |Incident(edges, e.src)| && Incident(edges, e.src)[k] == (e.relId, InternalId(e.relTable, e.dst))
      && l < |Incident(edges, e.dst)| && Incident(edges, e.dst)[l] == (e.relId, InternalId(e.relTable, e.src))
  {
    hide Ends, Count;
    var e := edges[i];
    var upto := edges[..i + 1];
    assert upto[..i] == edges[..i];
    IncidentSize(edges[..i], e.src);
    IncidentSize(edges[..i], e.dst);
    IncidentPrefix(edges, i + 1, e.src);
    IncidentPrefix(edges, i + 1, e.dst);
    var a, b := Incident(upto, e.src), Incident(upto, e.dst);
    assert a[|Incident(edges[..i], e.src)|] == (e.relId, InternalId(e.relTable, e.dst));
    assert b[|b| - 1] == (e.relId, InternalId(e.relTable, e.src));
  }

  // ------------------------------------------------------------------ the algorithm

  /** One more than the largest value of a degree counter. */
  const COUNTERS: nat := 0x1_0000_0000

  /** The counter of every node holds its degree, wrapped to 32 bits. */
  ghost predicate Degrees(degree: seq<nat>, keys: seq<nat>) {
    forall v: nat | v < |degree| :: degree[v] == Count(keys, v) % COUNTERS
  }

  /** No node has more ends than its counter can hold. */
  ghost predicate Countable(keys: seq<nat>, n: nat) {
    forall v: nat | v < n :: Count(keys, v) < COUNTERS
  }

  lemma DegreesPush(degree: seq<nat>, keys: seq<nat>, v: nat)
    requires Degrees(degree, keys) && v < |degree|
    ensures Degrees(degree[v := (degree[v] + 1) % COUNTERS], keys + [v])
  {
    hide Count;
    forall u: nat | u < |degree|
      ensures degree[v := (degree[v] + 1) % COUNTERS][u] == Count(keys + [v], u) % COUNTERS
    {
      CountPush(keys, v, u);
      WrapNext(Count(keys, v));
    }
  }

  lemma WrapNext(k: nat)
    ensures (k % COUNTERS + 1) % COUNTERS == (k + 1) % COUNTERS
  {
  }

  /** The slots set aside for the entries: the counters' sum. */
  ghost function Slots(keys: seq<nat>, n: nat): nat {
    if n == 0 then 0 else Slots(keys, n - 1) + Count(keys, n - 1) % COUNTERS
  }

  lemma {:induction false} SlotsBelow(keys: seq<nat>, n: nat)
    ensures Slots(keys, n) <= Below(keys, n)
    ensures Slots(keys, n) == Below(keys, n) <==> Countable(keys, n)
  {
    hide Count;
    if n > 0 {
      SlotsBelow(keys, n - 1);
      assert Countable(keys, n) <==> Countable(keys, n - 1) && Count(keys, n - 1) < COUNTERS;
    }
  }

  /** There is a slot for every entry exactly when no counter wraps. */
  lemma SlotsExact(edges: seq<EdgeRow>, n: nat)
    requires forall i | 0 <= i < |edges| :: edges[i].src < n && edges[i].dst < n
    ensures Slots(Ends(edges), n) <= 2 * |edges|
    ensures Slots(Ends(edges), n) == 2 * |edges| <==> Countable(Ends(edges), n)
  {
    hide Ends, Slots, Below, Countable;
    EndsInRange(edges, n);
    BelowTotal(Ends(edges), n);
    SlotsBelow(Ends(edges), n);
  }

  method CountEnds(edges: seq<EdgeRow>, n: nat) returns (degree: array<nat>)
    requires forall i | 0 <= i < |edges| :: edges[i].src < n && edges[i].dst < n
    ensures fresh(degree) && degree.Length == n && Degrees(degree[..], Ends(edges))
  {
    hide Degrees;
    degree := new nat[n](_ => 0);
    assert Degrees(degree[..], []) by { NoDegrees(degree[..]); }
    for i := 0 to |edges|
      invariant Degrees(degree[..], Ends(edges[..i]))
    {
      var e := edges[i];
      ghost var keys, before := Ends(edges[..i]), degree[..];
      assert edges[..i + 1][..i] == edges[..i];
      assert Ends(edges[..i + 1]) == keys + [e.src] + [e.dst];
      DegreesPush(before, keys, e.src);
      degree[e.src] := (degree[e.src] + 1) % COUNTERS;
      assert degree[..] == before[e.src := (before[e.src] + 1) % COUNTERS];
      DegreesPush(degree[..], keys + [e.src], e.dst);
      before := degree[..];
      degree[e.dst] := (degree[e.dst] + 1) % COUNTERS;
      assert degree[..] == before[e.dst := (before[e.dst] + 1) % COUNTERS];
    }
    assert edges[..|edges|] == edges;
  }

  lemma NoDegrees(degree: seq<nat>)
    requires forall v | 0 <= v < |degree| :: degree[v] == 0
    ensures Degrees(degree, [])
  {
  }

  method Starts(degree: array<nat>, ghost keys: seq<nat>) returns (offsets: array<nat>)
    requires Degrees(degree[..], keys) && Countable(keys, degree.Length)
    ensures fresh(offsets) && offsets.Length == degree.Length + 1
    ensures forall v: nat | v <= degree.Length :: offsets[v] == Below(keys, v)
  {
    hide Count, Below;
    var n := degree.Length;
    offsets := new nat[n + 1];
    var current := 0;
    BelowZero(keys);
    for i := 0 to n
      invariant current == Below(keys, i)
      invariant forall v: nat | v < i :: offsets[v] == Below(keys, v)
    {
      offsets[i] := current;
      assert degree[..][i] == Count(keys, i) % COUNTERS;
      BelowNext(keys, i);
      current := current + degree[i];
    }
    offsets[n] := current;
  }

  method Fill(edges: seq<EdgeRow>, n: nat, pos: array<nat>, adj: array<Entry>)
    requires forall i | 0 <= i < |edges| :: edges[i].src < n && edges[i].dst < n
    requires Filled(Ends(edges), Halves(edges), 0, pos[..], adj[..], n)
    modifies pos, adj
    ensures Filled(Ends(edges), Halves(edges), 2 * |edges|, pos[..], adj[..], n)
  {
    hide Filled, Ends, Halves;
    ghost var ks, vs := Ends(edges), Halves(edges);
    for i := 0 to |edges|
      invariant Filled(ks, vs, 2 * i, pos[..], adj[..], n)
    {
      var e := edges[i];
      EndsPrefix(edges, i);
      FillOne(ks, vs, 2 * i, pos[..], adj[..], n);
      WriteNextSlot(pos, adj, e.src, (e.relId, InternalId(e.relTable, e.dst)));
      FillOne(ks, vs, 2 * i + 1, pos[..], adj[..], n);
      WriteNextSlot(pos, adj, e.dst, (e.relId, InternalId(e.relTable, e.src)));
    }
  }

  /** The ends are in range and no degree counter wraps. */
  method Build(edges: seq<EdgeRow>, n: nat) returns (g: Csr)
    requires forall i | 0 <= i < |edges| :: edges[i].src < n && edges[i].dst < n
    requires n + 1 <= USIZE_MAX && Countable(Ends(edges), n)
    ensures Built(g, edges, n)
  {
    hide Ends, Halves, Count, Below, Countable;
    ghost var ks, vs := Ends(edges), Halves(edges);
    var degree := CountEnds(edges, n);
    var offsets := Starts(degree, ks);
    EndsInRange(edges, n);
    BelowTotal(ks, n);
    var current := offsets[n];
    var adj := new Entry[current](_ => (0, InternalId(0, 0)));
    var pos := new nat[n + 1](i requires 0 <= i < offsets.Length reads offsets => offsets[i]);
    StartFilled(ks, vs, pos[..], adj[..], n);
    Fill(edges, n, pos, adj);
    g := Csr(offsets[..], adj[..]);
    FilledIsBuilt(g, edges, n, pos[..]);
  }

  lemma StartFilled(ks: seq<nat>, vs: seq<Entry>, pos: seq<nat>, adj: seq<Entry>, n: nat)
    requires |ks| == |vs| == |adj| && |pos| == n + 1 && (forall i | 0 <= i < |ks| :: ks[i] < n)
    requires forall v: nat | v <= n :: pos[v] == Below(ks, v)
    ensures Filled(ks, vs, 0, pos, adj, n)
  {
    NonePlaced(ks, vs, adj, n);
    assert ks[..0] == [];
  }

  lemma FilledIsBuilt(g: Csr, edges: seq<EdgeRow>, n: nat, pos: seq<nat>)
    requires |g.offsets| == n + 1 <= USIZE_MAX && |g.adjacency| == 2 * |edges|
    requires forall v: nat | v <= n :: g.offsets[v] == Below(Ends(edges), v)
    requires Filled(Ends(edges), Halves(edges), 2 * |edges|, pos, g.adjacency, n)
    ensures Built(g, edges, n)
  {
    hide Ends, Halves, Count, Below, Placed;
    var ks, vs := Ends(edges), Halves(edges);
    BelowTotal(ks, n);
    assert Below(ks, 0) == 0 by { BelowZero(ks); }
    forall i, j | 0 <= i <= j < |g.offsets| ensures g.offsets[i] <= g.offsets[j] {
      if i < j { BelowMono(ks, i, j); }
    }
    forall i | 0 <= i < |g.offsets| ensures g.offsets[i] <= |g.adjacency| {
      if i < n { BelowMono(ks, i, n); }
    }
    forall v: nat | v < n ensures Slice(g, edges, v) {
      AllPlaced(ks, vs, g.adjacency, n, v);
      SelectIsIncident(edges, v);
    }
  }

  lemma BelowNext(keys: seq<nat>, k: nat)
    ensures Below(keys, k + 1) == Below(keys, k) + Count(keys, k)
  {
  }

  lemma BelowZero(keys: seq<nat>)
    ensures Below(keys, 0) == 0
  {
  }

  // ------------------------------------------------------------------ symmetry

  function Targets(list: seq<Entry>): (r: seq<nat>)
    ensures |r| == |list| && forall i | 0 <= i < |list| :: r[i] == list[i].1.offset
  {
    seq(|list|, i requires 0 <= i < |list| => list[i].1.offset)
  }

  lemma BuiltLists(g: Csr, edges: seq<EdgeRow>, n: nat, v: nat)
    requires Built(g, edges, n) && v < n
    ensures Lists(g)[v] == Targets(Incident(edges, v))
  {
    assert Slice(g, edges, v);
    var slice := g.adjacency[g.offsets[v]..g.offsets[v + 1]];
    forall j | 0 <= j < g.Degree(v) ensures Lists(g)[v][j] == slice[j].1.offset { }
  }

  function Pushed(list: seq<Entry>, take: bool, x: Entry): seq<Entry> {
    list + if take then [x] else []
  }

  lemma TargetsPushed(list: seq<Entry>, take: bool, x: Entry, u: nat)
    ensures Count(Targets(Pushed(list, take, x)), u)
      == Count(Targets(list), u) + if take && x.1.offset == u then 1 else 0
  {
    if take {
      CountPush(Targets(list), x.1.offset, u);
      assert Targets(list + [x]) == Targets(list) + [x.1.offset];
    } else {
      assert list + [] == list;
    }
  }

  /** There are as many entries from `v` to `u` as from `u` to `v`. */
  lemma {:induction false} IncidentSymmetric(edges: seq<EdgeRow>, u: nat, v: nat)
    ensures Count(Targets(Incident(edges, v)), u) == Count(Targets(Incident(edges, u)), v)
  {
    if |edges| > 0 {
      var front, e := edges[..|edges| - 1], edges[|edges| - 1];
      IncidentSymmetric(front, u, v);
      IncidentCount(edges, u, v);
      IncidentCount(edges, v, u);
    }
  }

  lemma IncidentCount(edges: seq<EdgeRow>, u: nat, v: nat)
    requires |edges| > 0
    ensures var e := edges[|edges| - 1];
      Count(Targets(Incident(edges, v)), u) == Count(Targets(Incident(edges[..|edges| - 1], v)), u)
        + (if e.src == v && e.dst == u then 1 else 0) + (if e.dst == v && e.src == u then 1 else 0)
  {
    var front, e := edges[..|edges| - 1], edges[|edges| - 1];
    var list := Incident(front, v);
    var a, b := (e.relId, InternalId(e.relTable, e.dst)), (e.relId, InternalId(e.relTable, e.src));
    var one := Pushed(list, e.src == v, a);
    assert Incident(edges, v) == Pushed(one, e.dst == v, b);
    TargetsPushed(list, e.src == v, a, u);
    TargetsPushed(one, e.dst == v, b, u);
  }

  lemma BuiltSymmetric(g: Csr, edges: seq<EdgeRow>, n: nat, u: nat, v: nat)
    requires Built(g, edges, n) && u < n && v < n
    ensures Count(Lists(g)[u], v) == Count(Lists(g)[v], u)
  {
    BuiltLists(g, edges, n, u);
    BuiltLists(g, edges, n, v);
    IncidentSymmetric(edges, u, v);
  }

  /** All targets lie in the graph. */
  lemma BuiltInRange(g: Csr, edges: seq<EdgeRow>, n: nat, v: nat)
    requires Built(g, edges, n) && v < n && forall i | 0 <= i < |edges| :: edges[i].src < n && edges[i].dst < n
    ensures forall w | w in Lists(g)[v] :: w < n
  {
    BuiltLists(g, edges, n, v);
    IncidentInRange(edges, n, v);
  }

  lemma {:induction false} IncidentInRange(edges: seq<EdgeRow>, n: nat, v: nat)
    requires forall i | 0 <= i < |edges| :: edges[i].src < n && edges[i].dst < n
    ensures forall x <- Incident(edges, v) :: x.1.offset < n
  {
    if |edges| > 0 { IncidentInRange(edges[..|edges| - 1], n, v); }
  }
}
