/** `visualize`: the most recently created nodes and the edges touching them, with
    display defaults, capped for the front end. */
module Visualize {
  import opened Common
  import opened GraphStore

  /** `LIMIT 1000` on the node query. */
  const NodeCap := 1000

  /** `LIMIT 2000` on the edge query. */
  const EdgeCap := 2000

  datatype VNode = VNode(id: NodeId, nodeLabel: string, nodeType: string, description: string)

  datatype VEdge = VEdge(source: NodeId, target: NodeId, edgeLabel: string, weight: real)

  datatype Graph = Graph(nodes: seq<VNode>, edges: seq<VEdge>)

  /** An order `ORDER BY created_at DESC` may return the nodes in: every position
      once, newest first. Ties may come in either order. */
  predicate IsRecency(s: Store, recent: seq<nat>)
  {
    && (forall k :: 0 <= k < |recent| ==> recent[k] < |s.nodes|)
    && (forall k, l :: 0 <= k < l < |recent| ==> recent[k] != recent[l])
    && (forall i :: 0 <= i < |s.nodes| ==> i in recent)
    && (forall k, l :: 0 <= k < l < |recent| ==> s.nodes[recent[k]].createdAt >= s.nodes[recent[l]].createdAt)
  }

  /** `row[2] or 'Unknown'`, `row[3] or ''`: a null or empty type shows as
      `Unknown`, a null description as the empty string. */
  function VNodeOf(n: Node): (v: VNode)
    ensures v.id == n.id && v.nodeLabel == n.name
    ensures v.nodeType != ""
    ensures n.entityType.Some? && n.entityType.value != "" ==> v.nodeType == n.entityType.value
    ensures n.description.Some? ==> v.description == n.description.value
  {
    VNode(n.id, n.name,
          if n.entityType.Some? && n.entityType.value != "" then n.entityType.value else "Unknown",
          if n.description.Some? then n.description.value else "")
  }

  /** `float(row[3]) if row[3] else 1.0`: a zero weight is falsy and so is shown
      as 1.0. */
  function ShownWeight(w: real): (r: real)
    ensures r != 0.0
    ensures w != 0.0 ==> r == w
  {
    if w != 0.0 then w else 1.0
  }

  /** The positions of the newest nodes, at most `NodeCap` of them. */
  function RecentRows(recent: seq<nat>): (rows: seq<nat>)
    ensures |rows| <= NodeCap && rows <= recent
    ensures |rows| < NodeCap ==> rows == recent
  {
    if |recent| <= NodeCap then recent else recent[..NodeCap]
  }

  /** The edges with an endpoint in `ids`, in edge order. */
  function Touching(edges: seq<Edge>, ids: set<NodeId>): (r: seq<Edge>)
    ensures |r| <= |edges|
    ensures forall e :: e in r <==> e in edges && (e.source in ids || e.target in ids)
  {
    if edges == [] then []
    else
      var p := edges[..|edges| - 1];
      var e := edges[|edges| - 1];
      assert forall x :: x in edges <==> x in p || x == e;
      Touching(p, ids) + (if e.source in ids || e.target in ids then [e] else [])
  }

  /** The edge query keeps every touching edge as often as the table holds it, and
      no other edge. */
  lemma {:induction false} TouchingCount(edges: seq<Edge>, ids: set<NodeId>, e: Edge)
    ensures multiset(Touching(edges, ids))[e] == if e.source in ids || e.target in ids then multiset(edges)[e] else 0
    decreases |edges|
  {
    if edges != [] {
      var p := edges[..|edges| - 1];
      TouchingCount(p, ids, e);
      assert edges == p + [edges[|edges| - 1]];
    }
  }

  /** One entry of `edges`: the endpoints and the type as stored, and the weight
      as `ShownWeight` shows it. */
  function VEdgeOf(e: Edge): (v: VEdge)
    ensures v.source == e.source && v.target == e.target && v.edgeLabel == e.relType
    ensures v.weight != 0.0 && (e.weight != 0.0 ==> v.weight == e.weight)
  {
    VEdge(e.source, e.target, e.relType, ShownWeight(e.weight))
  }

  /** The node list: the newest nodes, at most `NodeCap` of them. */
  function ShownNodes(s: Store, recent: seq<nat>): (nodes: seq<VNode>)
    requires IsRecency(s, recent)
    ensures |nodes| == |RecentRows(recent)|
    ensures forall k :: 0 <= k < |nodes| ==> nodes[k] == VNodeOf(s.nodes[recent[k]])
  {
    var rows := RecentRows(recent);
    seq(|rows|, k requires 0 <= k < |rows| => VNodeOf(s.nodes[rows[k]]))
  }

  /** The ids of the listed nodes. */
  function Listed(nodes: seq<VNode>): set<NodeId>
  {
    set v | v in nodes :: v.id
  }

  /** The edge list: the edges touching a listed node, at most `EdgeCap` of them;
      when no node is listed the edge query is not run and the list is empty. */
  function ShownEdges(edges: seq<Edge>, nodes: seq<VNode>): (r: seq<VEdge>)
    ensures |r| <= EdgeCap
    ensures nodes == [] ==> r == []
  {
    var touching := if nodes == [] then [] else Touching(edges, Listed(nodes));
    var shown := if |touching| <= EdgeCap then touching else touching[..EdgeCap];
    seq(|shown|, k requires 0 <= k < |shown| => VEdgeOf(shown[k]))
  }

  /** `visualize`: at most 1000 nodes and 2000 edges, and an empty graph for an
      empty store. */
  function Visualize(s: Store, recent: seq<nat>): (g: Graph)
    requires IsRecency(s, recent)
    ensures |g.nodes| <= NodeCap && |g.edges| <= EdgeCap
    ensures s.nodes == [] ==> g == Graph([], [])
  {
    assert |recent| > 0 ==> recent[0] < |s.nodes|;
    var nodes := ShownNodes(s, recent);
    Graph(nodes, ShownEdges(s.edges, nodes))
  }

  /** The node list of `visualize`: at most 1000 nodes of the store, and all nodes
      when fewer than 1000 come back. */
  lemma VisualizeNodes(s: Store, recent: seq<nat>)
    requires IsRecency(s, recent)
    ensures var nodes := Visualize(s, recent).nodes;
            && |nodes| <= NodeCap
            && (forall v :: v in nodes ==> exists n :: n in s.nodes && v == VNodeOf(n))
            && (|nodes| < NodeCap ==> forall n :: n in s.nodes ==> VNodeOf(n) in nodes)
  {
    ShownNodesFrom(s, recent);
    ShownNodesAll(s, recent);
  }

  lemma ShownNodesFrom(s: Store, recent: seq<nat>)
    requires IsRecency(s, recent)
    ensures forall v :: v in ShownNodes(s, recent) ==> exists n :: n in s.nodes && v == VNodeOf(n)
  {
    forall v | v in ShownNodes(s, recent) ensures exists n :: n in s.nodes && v == VNodeOf(n) {
      ShownNodeFrom(s, recent, v);
    }
  }

  lemma ShownNodeFrom(s: Store, recent: seq<nat>, v: VNode)
    requires IsRecency(s, recent) && v in ShownNodes(s, recent)
    ensures exists n :: n in s.nodes && v == VNodeOf(n)
  {
    var nodes := ShownNodes(s, recent);
    var k :| 0 <= k < |nodes| && nodes[k] == v;
    var n := s.nodes[recent[k]];
    assert n in s.nodes && v == VNodeOf(n);
  }

  lemma ShownNodesAll(s: Store, recent: seq<nat>)
    requires IsRecency(s, recent)
    ensures |ShownNodes(s, recent)| < NodeCap ==> forall n :: n in s.nodes ==> VNodeOf(n) in ShownNodes(s, recent)
  {
    if |ShownNodes(s, recent)| < NodeCap {
      forall n | n in s.nodes ensures VNodeOf(n) in ShownNodes(s, recent) {
        ShownNodeAll(s, recent, n);
      }
    }
  }

  lemma ShownNodeAll(s: Store, recent: seq<nat>, n: Node)
    requires IsRecency(s, recent) && |ShownNodes(s, recent)| < NodeCap && n in s.nodes
    ensures VNodeOf(n) in ShownNodes(s, recent)
  {
    var i :| 0 <= i < |s.nodes| && s.nodes[i] == n;
    var k := RecentAt(s, recent, i);
    assert ShownNodes(s, recent)[k] == VNodeOf(n);
  }

  /** No node is left out of `visualize` while an older one is listed. */
  lemma VisualizeNewest(s: Store, recent: seq<nat>, i: nat, j: nat)
    requires Valid(s) && IsRecency(s, recent) && i < |s.nodes| && j < |s.nodes|
    requires VNodeOf(s.nodes[i]) in Visualize(s, recent).nodes
    requires VNodeOf(s.nodes[j]) !in Visualize(s, recent).nodes
    ensures s.nodes[i].createdAt >= s.nodes[j].createdAt
  {
    var nodes := ShownNodes(s, recent);
    var a := ListedAt(s, recent, i);
    var b := RecentAt(s, recent, j);
    assert a < b;
  }

  /** The position in `recent` of a listed node. */
  lemma ListedAt(s: Store, recent: seq<nat>, i: nat) returns (a: nat)
    requires Valid(s) && IsRecency(s, recent) && i < |s.nodes|
    requires VNodeOf(s.nodes[i]) in ShownNodes(s, recent)
    ensures a < |ShownNodes(s, recent)| && recent[a] == i
  {
    var nodes := ShownNodes(s, recent);
    a :| 0 <= a < |nodes| && nodes[a] == VNodeOf(s.nodes[i]);
    assert s.nodes[recent[a]].id == s.nodes[i].id;
  }

  /** The position in `recent` of a node. */
  lemma RecentAt(s: Store, recent: seq<nat>, i: nat) returns (k: nat)
    requires IsRecency(s, recent) && i < |s.nodes|
    ensures k < |recent| && recent[k] == i
  {
    assert i in recent;
    k :| 0 <= k < |recent| && recent[k] == i;
  }

  /** The edge list of `visualize`: at most 2000 edges of the store, each touching a
      listed node, and all such edges when fewer than 2000 come back. */
  lemma VisualizeEdges(s: Store, recent: seq<nat>)
    requires IsRecency(s, recent)
    ensures var g := Visualize(s, recent);
            && |g.edges| <= EdgeCap
            && (forall ve :: ve in g.edges ==>
                  exists e :: e in s.edges && ve == VEdgeOf(e) && (e.source in Listed(g.nodes) || e.target in Listed(g.nodes)))
            && (|g.edges| < EdgeCap ==>
                  forall e :: e in s.edges && (e.source in Listed(g.nodes) || e.target in Listed(g.nodes)) ==>
                    VEdgeOf(e) in g.edges)
  {
    var nodes := ShownNodes(s, recent);
    EdgesSpec(s.edges, nodes);
  }

  lemma EdgesSpec(edges: seq<Edge>, nodes: seq<VNode>)
    ensures var shown := ShownEdges(edges, nodes);
            && |shown| <= EdgeCap
            && (forall ve :: ve in shown ==>
                  exists e :: e in edges && ve == VEdgeOf(e) && (e.source in Listed(nodes) || e.target in Listed(nodes)))
            && (|shown| < EdgeCap ==>
                  forall e :: e in edges && (e.source in Listed(nodes) || e.target in Listed(nodes)) ==> VEdgeOf(e) in shown)
  {
    var ids := Listed(nodes);
    var shown := ShownEdges(edges, nodes);
    assert nodes == [] ==> ids == {};
    var touching := if nodes == [] then [] else Touching(edges, ids);
    var cut := if |touching| <= EdgeCap then touching else touching[..EdgeCap];
    forall ve | ve in shown
      ensures exists e :: e in edges && ve == VEdgeOf(e) && (e.source in ids || e.target in ids)
    {
      var k :| 0 <= k < |shown| && shown[k] == ve;
      assert cut[k] in touching;
    }
    if |shown| < EdgeCap {
      forall e | e in edges && (e.source in ids || e.target in ids) ensures VEdgeOf(e) in shown {
        var k :| 0 <= k < |touching| && touching[k] == e;
        assert shown[k] == VEdgeOf(e);
      }
    }
  }
}
