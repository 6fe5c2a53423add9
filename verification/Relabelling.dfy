/** Dense class ids in the order in which the classes first appear, through a table
    from representatives to ids (used after Louvain and both union-find algorithms). */
module Relabelling {
  import opened Graphs

  /** The same classes, numbered in the order in which they first appear. */
  ghost predicate Relabelled(labels: seq<nat>, comm: seq<nat>) {
    && |labels| == |comm|
    && (forall u, v | 0 <= u < |comm| && 0 <= v < |comm| :: labels[u] == labels[v] <==> comm[u] == comm[v])
    && (forall v, c: nat | 0 <= v < |labels| && c < labels[v] :: c in labels[..v])
  }

  ghost predicate Ordered(labels: seq<nat>, next: nat) {
    && next <= |labels|
    && (forall c: nat :: c < next <==> c in labels)
    && (forall v, c: nat | 0 <= v < |labels| && c < labels[v] :: c in labels[..v])
  }

  ghost predicate Tabled(labels: seq<nat>, comm: seq<nat>, table: seq<nat>, next: nat) {
    && |labels| <= |comm|
    && (forall v | 0 <= v < |comm| :: comm[v] < |table|)
    && (forall v | 0 <= v < |labels| :: table[comm[v]] == labels[v] != USIZE_MAX)
    && (forall x | 0 <= x < |table| :: table[x] == USIZE_MAX || table[x] < next)
    && (forall x, y | 0 <= x < |table| && 0 <= y < |table| && table[x] == table[y] != USIZE_MAX :: x == y)
  }

  method Relabel(community: array<nat>) returns (labels: seq<nat>)
    requires community.Length <= USIZE_MAX
    requires forall v | 0 <= v < community.Length :: community[v] < community.Length
    ensures |labels| == community.Length && Relabelled(labels, community[..])
  {
    var n := community.Length;
    var table := new nat[n](_ => USIZE_MAX);
    var next := 0;
    labels := [];
    ghost var comm := community[..];
    for v := 0 to n
      invariant community[..] == comm && |labels| == v && Ordered(labels, next) && Tabled(labels, comm, table[..], next)
    {
      var c := community[v];
      ghost var table0, next0 := table[..], next;
      if table[c] == USIZE_MAX {
        table[c] := next;
        next := next + 1;
      }
      TabledStep(labels, comm, table0, next0);
      OrderedStep(labels, next0, if table0[c] == USIZE_MAX then next0 else table0[c]);
      assert table[..] == if table0[c] == USIZE_MAX then table0[c := next0] else table0;
      labels := labels + [table[c]];
    }
    RelabelDone(labels, comm, table[..], next);
  }

  lemma OrderedStep(labels: seq<nat>, next: nat, x: nat)
    requires Ordered(labels, next) && x <= next
    ensures Ordered(labels + [x], if x == next then next + 1 else next)
  {
    var labels' := labels + [x];
    assert labels'[..|labels|] == labels && labels'[|labels|] == x;
    forall v, c: nat | 0 <= v < |labels'| && c < labels'[v] ensures c in labels'[..v] {
      if v < |labels| {
        assert labels'[..v] == labels[..v];
      }
    }
    forall c: nat ensures c < (if x == next then next + 1 else next) <==> c in labels' {
    }
  }

  lemma TabledStep(labels: seq<nat>, comm: seq<nat>, table: seq<nat>, next: nat)
    requires Tabled(labels, comm, table, next) && |labels| < |comm| && next < USIZE_MAX
    ensures var c := comm[|labels|];
      if table[c] == USIZE_MAX then Tabled(labels + [next], comm, table[c := next], next + 1)
      else table[c] < next && Tabled(labels + [table[c]], comm, table, next)
  {
  }

  lemma RelabelDone(labels: seq<nat>, comm: seq<nat>, table: seq<nat>, next: nat)
    requires Ordered(labels, next) && Tabled(labels, comm, table, next) && |labels| == |comm|
    ensures Relabelled(labels, comm)
  {
    forall u, v | 0 <= u < |comm| && 0 <= v < |comm| ensures labels[u] == labels[v] <==> comm[u] == comm[v] {
      assert table[comm[u]] == labels[u] && table[comm[v]] == labels[v];
    }
  }

  /** A partition has one such labelling. */
  lemma {:induction false} RelabelledUnique(a: seq<nat>, b: seq<nat>, comm: seq<nat>, v: nat)
    requires Relabelled(a, comm) && Relabelled(b, comm) && v <= |comm|
    ensures a[..v] == b[..v]
    decreases v
  {
    if v > 0 {
      var u := v - 1;
      RelabelledUnique(a, b, comm, u);
      if w: nat :| w < u && comm[w] == comm[u] {
        assert a[w] == a[..u][w] && b[w] == b[..u][w];
      } else {
        NewLabel(a, comm, u);
        NewLabel(b, comm, u);
      }
      assert a[..v] == a[..u] + [a[u]] && b[..v] == b[..u] + [b[u]];
    }
  }

  lemma NewLabel(a: seq<nat>, comm: seq<nat>, u: nat)
    requires Relabelled(a, comm) && u < |comm| && forall w: nat | w < u :: comm[w] != comm[u]
    ensures a[u] !in a[..u]
  {
    forall w: nat | w < u ensures a[..u][w] != a[u] {
      assert a[w] == a[u] <==> comm[w] == comm[u];
    }
  }
}
