/** What the algorithms' theorems need of a graph holds of every adjacency that was
    built from an edge list. */
module BuiltGraphs {
  import opened Graphs
  import opened Buckets
  import opened CsrBuild
  import KCore
  import Louvain
  import Triangles
  import UnionFind

  lemma CoreSymmetric(g: Csr, edges: seq<EdgeRow>, n: nat)
    requires Built(g, edges, n)
    ensures KCore.Symmetric(Lists(g))
  {
    BuiltNodes(g, edges, n);
    hide Built;
    var adj := Lists(g);
    forall u: nat, v: nat | u < |adj| && v < |adj| ensures Count(adj[u], v) == Count(adj[v], u) {
      BuiltSymmetric(g, edges, n, u, v);
    }
  }

  lemma BuiltNodes(g: Csr, edges: seq<EdgeRow>, n: nat)
    requires Built(g, edges, n)
    ensures g.Valid() && g.NumNodes() == n
  {
  }

  lemma EdgesSymmetric(g: Csr, edges: seq<EdgeRow>, n: nat)
    requires Built(g, edges, n)
    ensures UnionFind.SymmetricEdges(Lists(g)) && Triangles.SymmetricNext(Lists(g))
  {
    BuiltNodes(g, edges, n);
    hide Built;
    var adj := Lists(g);
    forall u: nat, v: nat | Edge(adj, u, v) ensures Edge(adj, v, u) {
      BuiltSymmetric(g, edges, n, u, v);
      CountMember(adj[u], v);
      CountMember(adj[v], u);
    }
  }

  /** Without loops and with equal weights both ways, Louvain's books are exact. */
  lemma LouvainUndirected(g: Csr, edges: seq<EdgeRow>, n: nat, weight: Louvain.Weight)
    requires Built(g, edges, n) && forall i | 0 <= i < |edges| :: edges[i].src != edges[i].dst
    requires forall v: nat, w: nat :: weight(v, w) == weight(w, v)
    ensures Louvain.Undirected(Lists(g), weight)
  {
    BuiltNodes(g, edges, n);
    CoreSymmetric(g, edges, n);
    hide Built;
    var adj := Lists(g);
    forall v | 0 <= v < |adj| ensures Count(adj[v], v) == 0 {
      BuiltLists(g, edges, n, v);
      NoLoop(edges, v);
    }
  }

  lemma {:induction false} NoLoop(edges: seq<EdgeRow>, v: nat)
    requires forall i | 0 <= i < |edges| :: edges[i].src != edges[i].dst
    ensures Count(Targets(Incident(edges, v)), v) == 0
  {
    if |edges| > 0 {
      NoLoop(edges[..|edges| - 1], v);
      IncidentCount(edges, v, v);
    }
  }
}
