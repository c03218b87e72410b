/** The two tables `graph_nodes` and `graph_edges` as an in-memory store, and the SQL
    statements the handlers issue against them, one function per statement. */
module GraphStore {
  import opened Common

  type NodeId = nat

  /** A row of `graph_nodes`. `createdAt` is set once, when the row is inserted. */
  datatype Node = Node(id: NodeId, name: string, entityType: Option<string>,
                       description: Option<string>, embedding: Option<Vector>,
                       createdAt: nat)

  /** A row of `graph_edges`: a directed, typed, weighted relationship. */
  datatype Edge = Edge(source: NodeId, target: NodeId, relType: string, weight: real)

  /** Both tables, and the next id the store will hand out. */
  datatype Store = Store(nodes: seq<Node>, edges: seq<Edge>, nextId: NodeId)

  predicate HasId(nodes: seq<Node>, id: NodeId)
  {
    exists i :: 0 <= i < |nodes| && nodes[i].id == id
  }

  predicate DistinctIds(nodes: seq<Node>)
  {
    forall i, j :: 0 <= i < j < |nodes| ==> nodes[i].id != nodes[j].id
  }

  /** The unique constraint on `entity_name`. */
  predicate DistinctNames(nodes: seq<Node>)
  {
    forall i, j :: 0 <= i < j < |nodes| ==> nodes[i].name != nodes[j].name
  }

  /** Every edge refers to two existing nodes. */
  predicate EdgesWithin(nodes: seq<Node>, edges: seq<Edge>)
  {
    forall e :: e in edges ==> HasId(nodes, e.source) && HasId(nodes, e.target)
  }

  /** The store invariant: ids are unique and below `nextId`, names are unique, and
      edges only connect existing nodes. */
  predicate Valid(s: Store)
  {
    && DistinctIds(s.nodes)
    && DistinctNames(s.nodes)
    && (forall i :: 0 <= i < |s.nodes| ==> s.nodes[i].id < s.nextId)
    && EdgesWithin(s.nodes, s.edges)
  }

  /** At most one edge per ordered (source, target) pair. */
  predicate UniquePairs(edges: seq<Edge>)
  {
    forall i, j :: 0 <= i < j < |edges| ==>
      !(edges[i].source == edges[j].source && edges[i].target == edges[j].target)
  }

  predicate HasPair(edges: seq<Edge>, source: NodeId, target: NodeId)
  {
    exists e :: e in edges && e.source == source && e.target == target
  }

  predicate NoSelfLoops(edges: seq<Edge>)
  {
    forall e :: e in edges ==> e.source != e.target
  }

  /** The position of the node called `name`, if there is one. */
  function IndexOfName(nodes: seq<Node>, name: string): (r: Option<nat>)
    ensures r.Some? ==> r.value < |nodes| && nodes[r.value].name == name
    ensures r.None? ==> forall i :: 0 <= i < |nodes| ==> nodes[i].name != name
  {
    if nodes == [] then None
    else if nodes[|nodes| - 1].name == name then Some(|nodes| - 1)
    else IndexOfName(nodes[..|nodes| - 1], name)
  }

  /** `SELECT id FROM graph_nodes WHERE entity_name = name`. */
  function Lookup(s: Store, name: string): (r: Option<NodeId>)
    ensures r.Some? ==> HasId(s.nodes, r.value)
  {
    match IndexOfName(s.nodes, name)
    case None => None
    case Some(k) => Some(s.nodes[k].id)
  }

  /** Under the unique-name constraint, the lookup finds a name exactly when some row
      carries it, and then returns that row's id. */
  lemma LookupFinds(s: Store, name: string)
    requires DistinctNames(s.nodes)
    ensures Lookup(s, name).Some? <==> exists i :: 0 <= i < |s.nodes| && s.nodes[i].name == name
    ensures forall i :: 0 <= i < |s.nodes| && s.nodes[i].name == name ==> Lookup(s, name) == Some(s.nodes[i].id)
  {
  }

  /** `INSERT INTO graph_nodes ... ON CONFLICT (entity_name) DO UPDATE SET description =
      COALESCE(EXCLUDED.description, graph_nodes.description) RETURNING id`.
      `embedding` is `None` for the statement that has no embedding column and
      `Some(v)` for the one that also sets `embedding = EXCLUDED.embedding`.
      The result is the new store and the returned id. */
  function Upsert(s: Store, name: string, entityType: Option<string>, description: Option<string>,
                  embedding: Option<Vector>, now: nat): (r: (Store, NodeId))
    ensures r.0.edges == s.edges
    // Conflict: no new row, the same id, the description and embedding rules, and
    // everything else about the row (and every other row) unchanged.
    ensures IndexOfName(s.nodes, name).Some? ==>
              var k := IndexOfName(s.nodes, name).value;
              && r.1 == s.nodes[k].id
              && r.0.nextId == s.nextId
              && |r.0.nodes| == |s.nodes|
              && (forall i :: 0 <= i < |s.nodes| && i != k ==> r.0.nodes[i] == s.nodes[i])
              && r.0.nodes[k].id == s.nodes[k].id && r.0.nodes[k].name == name
              && r.0.nodes[k].entityType == s.nodes[k].entityType
              && r.0.nodes[k].createdAt == s.nodes[k].createdAt
              && r.0.nodes[k].description == (if description.Some? then description else s.nodes[k].description)
              && r.0.nodes[k].embedding == (if embedding.Some? then embedding else s.nodes[k].embedding)
    // No conflict: exactly one new row, with a fresh id, appended.
    ensures IndexOfName(s.nodes, name).None? ==>
              && r.1 == s.nextId
              && r.0.nextId == s.nextId + 1
              && r.0.nodes == s.nodes + [Node(s.nextId, name, entityType, description, embedding, now)]
  {
    match IndexOfName(s.nodes, name)
    case Some(k) =>
      var n := s.nodes[k];
      var updated := n.(description := if description.Some? then description else n.description,
                        embedding := if embedding.Some? then embedding else n.embedding);
      (Store(s.nodes[k := updated], s.edges, s.nextId), n.id)
    case None =>
      (Store(s.nodes + [Node(s.nextId, name, entityType, description, embedding, now)], s.edges, s.nextId + 1),
       s.nextId)
  }

  /** An upsert keeps the store invariant, adds no id other than the one it returns,
      and creates a row exactly when the name was not yet present. */
  lemma UpsertValid(s: Store, name: string, entityType: Option<string>, description: Option<string>,
                    embedding: Option<Vector>, now: nat)
    requires Valid(s)
    ensures var r := Upsert(s, name, entityType, description, embedding, now);
            && Valid(r.0)
            && (forall id :: HasId(r.0.nodes, id) <==> HasId(s.nodes, id) || id == r.1)
            && (IndexOfName(s.nodes, name).Some? ==> |r.0.nodes| == |s.nodes|)
            && (IndexOfName(s.nodes, name).None? ==> |r.0.nodes| == |s.nodes| + 1)
  {
    var r := Upsert(s, name, entityType, description, embedding, now);
    var nodes := r.0.nodes;
    assert forall i :: 0 <= i < |s.nodes| ==> nodes[i].id == s.nodes[i].id && nodes[i].name == s.nodes[i].name;
    assert forall id :: HasId(s.nodes, id) ==> HasId(nodes, id) by {
      forall id | HasId(s.nodes, id) ensures HasId(nodes, id) {
        var i :| 0 <= i < |s.nodes| && s.nodes[i].id == id;
        assert nodes[i].id == id;
      }
    }
    match IndexOfName(s.nodes, name)
    case Some(k) => assert nodes[k].id == r.1;
    case None => assert nodes[|s.nodes|].id == r.1;
  }

  /** After an upsert the store resolves `name` to the returned id (the existing id
      on a conflict) and resolves every other name as before. */
  lemma UpsertLookup(s: Store, name: string, entityType: Option<string>, description: Option<string>,
                     embedding: Option<Vector>, now: nat)
    requires Valid(s)
    ensures var r := Upsert(s, name, entityType, description, embedding, now);
            && Lookup(r.0, name) == Some(r.1)
            && (Lookup(s, name).Some? ==> r.1 == Lookup(s, name).value)
            && (forall n :: n != name ==> Lookup(r.0, n) == Lookup(s, n))
  {
    var r := Upsert(s, name, entityType, description, embedding, now);
    UpsertValid(s, name, entityType, description, embedding, now);
    var nodes := r.0.nodes;
    assert forall i :: 0 <= i < |s.nodes| ==> nodes[i].id == s.nodes[i].id && nodes[i].name == s.nodes[i].name;
    match IndexOfName(s.nodes, name) {
      case Some(k) =>
        LookupFinds(r.0, name);
        assert nodes[k].name == name;
      case None =>
        LookupFinds(r.0, name);
        assert nodes[|s.nodes|].name == name;
    }
    forall n | n != name ensures Lookup(r.0, n) == Lookup(s, n) {
      LookupFinds(s, n);
      LookupFinds(r.0, n);
      if i :| 0 <= i < |s.nodes| && s.nodes[i].name == n {
        assert nodes[i].name == n;
      } else {
        assert forall i :: 0 <= i < |nodes| ==> nodes[i].name != n;
      }
    }
  }

  /** What an upsert does to one row already in the table: the row named `name`
      takes the given description and embedding when they are present, and every
      other row is left as it was. */
  lemma UpsertRow(s: Store, name: string, entityType: Option<string>, description: Option<string>,
                  embedding: Option<Vector>, now: nat, i: nat)
    requires DistinctNames(s.nodes) && i < |s.nodes|
    ensures var r := Upsert(s, name, entityType, description, embedding, now).0;
            var n := s.nodes[i];
            && i < |r.nodes|
            && r.nodes[i].id == n.id && r.nodes[i].name == n.name
            && r.nodes[i].entityType == n.entityType && r.nodes[i].createdAt == n.createdAt
            && r.nodes[i].description == (if n.name == name && description.Some? then description else n.description)
            && r.nodes[i].embedding == (if n.name == name && embedding.Some? then embedding else n.embedding)
            && (n.name != name ==> r.nodes[i] == n)
  {
    match IndexOfName(s.nodes, name)
    case Some(k) =>
      assert k == i <==> s.nodes[i].name == name;
    case None =>
      assert s.nodes[i].name != name;
  }

  /** `INSERT INTO graph_edges ... SELECT ... WHERE NOT EXISTS (an edge with the same
      ordered pair)`. The result is the new edge table and the row count (0 or 1). */
  function InsertEdgeIfAbsent(edges: seq<Edge>, source: NodeId, target: NodeId,
                              relType: string, weight: real): (r: (seq<Edge>, nat))
    ensures r.1 <= 1 && |r.0| == |edges| + r.1
    ensures r.0[..|edges|] == edges
    ensures r.1 == 1 <==> !HasPair(edges, source, target)
    ensures r.1 == 1 ==> r.0[|edges|] == Edge(source, target, relType, weight)
    ensures HasPair(r.0, source, target)
    ensures forall a, b :: HasPair(edges, a, b) ==> HasPair(r.0, a, b)
    ensures UniquePairs(edges) ==> UniquePairs(r.0)
  {
    if HasPair(edges, source, target) then (edges, 0)
    else
      var r := edges + [Edge(source, target, relType, weight)];
      assert r[|edges|] in r;
      (r, 1)
  }

  /** `UPDATE graph_edges SET source_node_id = to WHERE source_node_id = from`. */
  function SetSource(edges: seq<Edge>, from: NodeId, to: NodeId): (r: seq<Edge>)
    ensures |r| == |edges|
    ensures forall i :: 0 <= i < |edges| ==>
              r[i].target == edges[i].target && r[i].relType == edges[i].relType &&
              r[i].weight == edges[i].weight &&
              r[i].source == (if edges[i].source == from then to else edges[i].source)
  {
    seq(|edges|, i requires 0 <= i < |edges| =>
      if edges[i].source == from then edges[i].(source := to) else edges[i])
  }

  /** `UPDATE graph_edges SET target_node_id = to WHERE target_node_id = from`. */
  function SetTarget(edges: seq<Edge>, from: NodeId, to: NodeId): (r: seq<Edge>)
    ensures |r| == |edges|
    ensures forall i :: 0 <= i < |edges| ==>
              r[i].source == edges[i].source && r[i].relType == edges[i].relType &&
              r[i].weight == edges[i].weight &&
              r[i].target == (if edges[i].target == from then to else edges[i].target)
  {
    seq(|edges|, i requires 0 <= i < |edges| =>
      if edges[i].target == from then edges[i].(target := to) else edges[i])
  }

  /** The node rows whose id is not in `ids`, in their original order. */
  function Without(nodes: seq<Node>, ids: set<NodeId>): (r: seq<Node>)
    ensures forall n :: n in r <==> n in nodes && n.id !in ids
    ensures |r| <= |nodes|
    ensures DistinctIds(nodes) ==> DistinctIds(r)
    ensures DistinctNames(nodes) ==> DistinctNames(r)
  {
    if nodes == [] then []
    else
      var rest := Without(nodes[1..], ids);
      if nodes[0].id in ids then rest
      else
        ConsDistinct(nodes, rest);
        [nodes[0]] + rest
  }

  /** Putting the first row back in front of rows taken from the others keeps ids
      and names unique. */
  lemma ConsDistinct(nodes: seq<Node>, rest: seq<Node>)
    requires nodes != [] && forall n :: n in rest ==> n in nodes[1..]
    ensures DistinctIds(nodes) && DistinctIds(rest) ==> DistinctIds([nodes[0]] + rest)
    ensures DistinctNames(nodes) && DistinctNames(rest) ==> DistinctNames([nodes[0]] + rest)
  {
    var r := [nodes[0]] + rest;
    forall j | 0 < j < |r| ensures exists k :: 1 <= k < |nodes| && nodes[k] == r[j] {
      assert r[j] == rest[j - 1] && r[j] in nodes[1..];
      var k :| 0 <= k < |nodes[1..]| && nodes[1..][k] == r[j];
      assert nodes[k + 1] == r[j];
    }
  }

  /** `DELETE FROM graph_nodes WHERE id = id`. */
  function DeleteNode(nodes: seq<Node>, id: NodeId): (r: seq<Node>)
    ensures forall n :: n in r <==> n in nodes && n.id != id
    ensures DistinctIds(nodes) && HasId(nodes, id) ==> |r| == |nodes| - 1
  {
    if DistinctIds(nodes) && HasId(nodes, id) then
      DeleteOneCount(nodes, id);
      Without(nodes, {id})
    else Without(nodes, {id})
  }

  /** Deleting an id that is present removes exactly one row. */
  lemma {:induction false} DeleteOneCount(nodes: seq<Node>, id: NodeId)
    requires DistinctIds(nodes) && HasId(nodes, id)
    ensures |Without(nodes, {id})| == |nodes| - 1
  {
    HasIdTail(nodes, id);
    DistinctIdsTail(nodes);
    var rest := Without(nodes[1..], {id});
    if nodes[0].id == id {
      WithoutAbsent(nodes[1..], id);
      assert Without(nodes, {id}) == rest;
    } else {
      DeleteOneCount(nodes[1..], id);
      assert Without(nodes, {id}) == [nodes[0]] + rest;
    }
  }

  /** Deleting an id that is absent changes nothing. */
  lemma {:induction false} WithoutAbsent(nodes: seq<Node>, id: NodeId)
    requires !HasId(nodes, id)
    ensures Without(nodes, {id}) == nodes
  {
    if nodes != [] {
      assert nodes[0].id != id && !HasId(nodes[1..], id) by {
        HasIdTail(nodes, id);
      }
      assert Without(nodes[1..], {id}) == nodes[1..] by {
        WithoutAbsent(nodes[1..], id);
      }
      assert [nodes[0]] + nodes[1..] == nodes;
    }
  }

  /** The rows after the first of distinct-id rows are distinct and do not repeat
      the first id. */
  lemma DistinctIdsTail(nodes: seq<Node>)
    requires nodes != [] && DistinctIds(nodes)
    ensures DistinctIds(nodes[1..]) && !HasId(nodes[1..], nodes[0].id)
  {
    forall i | 0 <= i < |nodes[1..]| ensures nodes[1..][i].id != nodes[0].id {
      assert nodes[1..][i] == nodes[i + 1];
    }
    forall i, j | 0 <= i < j < |nodes[1..]| ensures nodes[1..][i].id != nodes[1..][j].id {
      assert nodes[1..][i] == nodes[i + 1] && nodes[1..][j] == nodes[j + 1];
    }
  }

  lemma HasIdTail(nodes: seq<Node>, id: NodeId)
    requires nodes != []
    ensures HasId(nodes, id) <==> nodes[0].id == id || HasId(nodes[1..], id)
  {
    if HasId(nodes, id) && nodes[0].id != id {
      var i :| 0 <= i < |nodes| && nodes[i].id == id;
      assert nodes[1..][i - 1].id == id;
    }
    if HasId(nodes[1..], id) {
      var i :| 0 <= i < |nodes[1..]| && nodes[1..][i].id == id;
      assert nodes[i + 1].id == id;
    }
  }

  /** `DELETE FROM graph_edges WHERE source_node_id = target_node_id`. The result is
      the remaining edges, in order, and the row count. */
  function DeleteSelfLoops(edges: seq<Edge>): (r: (seq<Edge>, nat))
    ensures NoSelfLoops(r.0)
    ensures |r.0| + r.1 == |edges|
    ensures forall e :: e in r.0 <==> e in edges && e.source != e.target
    ensures NoSelfLoops(edges) ==> r == (edges, 0)
  {
    if edges == [] then ([], 0)
    else
      var rest := DeleteSelfLoops(edges[1..]);
      assert NoSelfLoops(edges) ==> NoSelfLoops(edges[1..]) by {
        if NoSelfLoops(edges) {
          forall e | e in edges[1..] ensures e.source != e.target {
            assert e in edges;
          }
        }
      }
      if edges[0].source == edges[0].target then (rest.0, rest.1 + 1)
      else
        assert edges == [edges[0]] + edges[1..];
        ([edges[0]] + rest.0, rest.1)
  }

  /** The self-loop delete keeps every other edge as often as it occurs and drops
      every self-loop, so its row count is exactly the number of self-loops. */
  lemma {:induction false} DeleteSelfLoopsCount(edges: seq<Edge>, e: Edge)
    ensures multiset(DeleteSelfLoops(edges).0)[e] == if e.source != e.target then multiset(edges)[e] else 0
  {
    if edges != [] {
      var x, tail := edges[0], edges[1..];
      DeleteSelfLoopsCount(tail, e);
      assert edges == [x] + tail;
      if x.source != x.target {
        assert DeleteSelfLoops(edges).0 == [x] + DeleteSelfLoops(tail).0;
      }
    }
  }
}
