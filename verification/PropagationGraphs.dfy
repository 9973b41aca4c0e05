/** Conservative and proven adjacency of a topology. */
module PropagationGraphs {
  import opened Collections
  import opened Sorting
  import opened Topologies

  /** Adjacency lists in ascending order. `conservative` holds PROVEN and UNKNOWN edges. */
  datatype Graph = Graph(
    conservative: seq<seq<nat>>,
    conservativeIn: seq<seq<nat>>,
    proven: seq<seq<nat>>,
    unknownEdges: set<(nat, nat)>)
  {
    ghost predicate Valid() {
      && |conservative| == |conservativeIn| == |proven|
      && (forall u :: 0 <= u < |conservative| ==>
            Ascending(conservative[u]) && forall x :: x in conservative[u] ==> x < |conservative|)
      && (forall u :: 0 <= u < |conservative| ==>
            forall x :: x in conservativeIn[u] ==> x < |conservative|)
      && (forall u, v :: 0 <= u < |conservative| && 0 <= v < |conservative| ==>
            (v in conservative[u] <==> u in conservativeIn[v]))
    }
  }

  /** One of the edges from `u` to `v` carries evidence in `classes`. */
  ghost predicate HasEdge(edges: seq<Edge>, classes: set<EdgeEvidence>, u: nat, v: nat) {
    exists e :: 0 <= e < |edges| && edges[e].from == u && edges[e].to == v && edges[e].evidence in classes
  }

  /** `adjacency[u]` lists, in ascending order, the nodes that edges of these classes lead to from `u`. */
  ghost predicate Lists(adjacency: seq<seq<nat>>, edges: seq<Edge>, classes: set<EdgeEvidence>) {
    && (forall u :: 0 <= u < |adjacency| ==> Ascending(adjacency[u]))
    && (forall u :: 0 <= u < |adjacency| ==>
          forall v :: v in adjacency[u] <==> HasEdge(edges, classes, u, v))
  }

  ghost predicate ListsIn(adjacency: seq<seq<nat>>, edges: seq<Edge>, classes: set<EdgeEvidence>) {
    forall v :: 0 <= v < |adjacency| ==>
      forall u :: u in adjacency[v] <==> HasEdge(edges, classes, u, v)
  }

  /** The graph of a topology: refuted edges appear nowhere, unknown edges only conservatively. */
  ghost predicate GraphOf(t: Topology, g: Graph) {
    && |g.conservative| == |g.conservativeIn| == |g.proven| == |t.nodes|
    && Lists(g.conservative, t.edges, {Proven, Unknown})
    && ListsIn(g.conservativeIn, t.edges, {Proven, Unknown})
    && Lists(g.proven, t.edges, {Proven})
    && (forall u: nat, v: nat :: (u, v) in g.unknownEdges <==> HasEdge(t.edges, {Unknown}, u, v))
  }

  method BuildGraph(t: Topology) returns (g: Graph)
    requires t.Valid()
    ensures GraphOf(t, g) && g.Valid()
  {
    var n := |t.nodes|;
    var conservative := seq(n, _ => []);
    var conservativeIn := seq(n, _ => []);
    var proven := seq(n, _ => []);
    var unknown: set<(nat, nat)> := {};
    var i := 0;
    while i < |t.edges|
      invariant i <= |t.edges| && |conservative| == |conservativeIn| == |proven| == n
      invariant Lists(conservative, t.edges[..i], {Proven, Unknown})
      invariant ListsIn(conservativeIn, t.edges[..i], {Proven, Unknown})
      invariant Lists(proven, t.edges[..i], {Proven})
      invariant forall u: nat, v: nat :: (u, v) in unknown <==> HasEdge(t.edges[..i], {Unknown}, u, v)
    {
      var edge := t.edges[i];
      EdgeInRange(t, i);
      ListsStep(conservative, t.edges, i, {Proven, Unknown});
      ListsInStep(conservativeIn, t.edges, i, {Proven, Unknown});
      ListsStep(proven, t.edges, i, {Proven});
      HasEdgeStep(t.edges, i, {Unknown});
      i := i + 1;
      if edge.evidence == Refuted {
        continue;
      }
      conservative := conservative[edge.from := conservative[edge.from] + [edge.to]];
      conservativeIn := conservativeIn[edge.to := conservativeIn[edge.to] + [edge.from]];
      if edge.evidence == Proven {
        proven := proven[edge.from := proven[edge.from] + [edge.to]];
      } else {
        unknown := unknown + {(edge.from, edge.to)};
      }
    }
    assert t.edges[..i] == t.edges;
    g := Graph(conservative, conservativeIn, proven, unknown);
    GraphIsValid(t, g);
  }

  lemma EdgeInRange(t: Topology, i: nat)
    requires t.Valid() && i < |t.edges|
    ensures t.edges[i].from < |t.nodes| && t.edges[i].to < |t.nodes|
    ensures StrictlySortedBy(EdgeLess, t.edges)
  {
    assert EdgeOk(t.edges[i], |t.nodes|);
  }

  lemma HasEdgeStep(edges: seq<Edge>, i: nat, classes: set<EdgeEvidence>)
    requires i < |edges|
    ensures forall u: nat, v: nat :: HasEdge(edges[..i + 1], classes, u, v) <==>
      HasEdge(edges[..i], classes, u, v) || (edges[i].from == u && edges[i].to == v && edges[i].evidence in classes)
  {
    forall u: nat, v: nat
      ensures HasEdge(edges[..i + 1], classes, u, v) <==>
        HasEdge(edges[..i], classes, u, v) || (edges[i].from == u && edges[i].to == v && edges[i].evidence in classes)
    {
      if HasEdge(edges[..i], classes, u, v) {
        var e :| 0 <= e < i && edges[..i][e].from == u && edges[..i][e].to == v && edges[..i][e].evidence in classes;
        assert edges[..i + 1][e] == edges[..i][e];
      }
      if edges[i].from == u && edges[i].to == v && edges[i].evidence in classes {
        assert edges[..i + 1][i] == edges[i];
      }
      if HasEdge(edges[..i + 1], classes, u, v) {
        var e :| 0 <= e < i + 1 && edges[..i + 1][e].from == u && edges[..i + 1][e].to == v && edges[..i + 1][e].evidence in classes;
        assert e < i ==> edges[..i][e] == edges[..i + 1][e];
      }
    }
  }

  /** Edges come sorted, so appending keeps every adjacency list ascending. */
  lemma ListsStep(adjacency: seq<seq<nat>>, edges: seq<Edge>, i: nat, classes: set<EdgeEvidence>)
    requires i < |edges| && StrictlySortedBy(EdgeLess, edges) && edges[i].from < |adjacency|
    requires Lists(adjacency, edges[..i], classes)
    ensures var e := edges[i];
      if e.evidence in classes then Lists(adjacency[e.from := adjacency[e.from] + [e.to]], edges[..i + 1], classes)
      else Lists(adjacency, edges[..i + 1], classes)
  {
    var edge := edges[i];
    HasEdgeStep(edges, i, classes);
    if edge.evidence in classes {
      var grown := adjacency[edge.from := adjacency[edge.from] + [edge.to]];
      forall v | v in adjacency[edge.from] ensures v < edge.to {
        assert HasEdge(edges[..i], classes, edge.from, v);
        var e :| 0 <= e < i && edges[..i][e].from == edge.from && edges[..i][e].to == v;
        assert EdgeLess(edges[e], edges[i]);
      }
      AscendingAppend(adjacency[edge.from], edge.to);
      forall u | 0 <= u < |grown|
        ensures Ascending(grown[u]) && forall v :: v in grown[u] <==> HasEdge(edges[..i + 1], classes, u, v)
      {
        assert forall v :: v in adjacency[edge.from] + [edge.to] <==> v in adjacency[edge.from] || v == edge.to;
      }
    }
  }

  lemma ListsInStep(adjacency: seq<seq<nat>>, edges: seq<Edge>, i: nat, classes: set<EdgeEvidence>)
    requires i < |edges| && edges[i].to < |adjacency|
    requires ListsIn(adjacency, edges[..i], classes)
    ensures var e := edges[i];
      if e.evidence in classes then ListsIn(adjacency[e.to := adjacency[e.to] + [e.from]], edges[..i + 1], classes)
      else ListsIn(adjacency, edges[..i + 1], classes)
  {
    var edge := edges[i];
    HasEdgeStep(edges, i, classes);
    if edge.evidence in classes {
      var grown := adjacency[edge.to := adjacency[edge.to] + [edge.from]];
      forall v | 0 <= v < |grown|
        ensures forall u :: u in grown[v] <==> HasEdge(edges[..i + 1], classes, u, v)
      {
        assert forall u :: u in adjacency[edge.to] + [edge.from] <==> u in adjacency[edge.to] || u == edge.from;
      }
    }
  }

  lemma GraphIsValid(t: Topology, g: Graph)
    requires t.Valid() && GraphOf(t, g)
    ensures g.Valid()
  {
    forall u: nat, v: nat | HasEdge(t.edges, {Proven, Unknown}, u, v) ensures u < |t.nodes| && v < |t.nodes| {
      var e :| 0 <= e < |t.edges| && t.edges[e].from == u && t.edges[e].to == v;
      EdgeInRange(t, e);
    }
  }
}
