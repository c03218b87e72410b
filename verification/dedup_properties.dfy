/** What a deduplication pass promises about the store it leaves behind. */
module DedupProperties {
  import opened Common
  import opened GraphStore
  import opened Dedup

  /** The lower-cased names of the nodes. */
  function LowerNames(nodes: seq<Node>): set<string>
  {
    set n | n in nodes :: Lower(n.name)
  }

  /** No two nodes have the same lower-cased name. */
  predicate DistinctLowerNames(nodes: seq<Node>)
  {
    forall i, j :: 0 <= i < j < |nodes| ==> Lower(nodes[i].name) != Lower(nodes[j].name)
  }

  /** `x` and `y` are ids of nodes whose lower-cased names agree. */
  ghost predicate SameGroup(s: Store, x: NodeId, y: NodeId)
  {
    exists i, j :: 0 <= i < |s.nodes| && 0 <= j < |s.nodes| &&
      s.nodes[i].id == x && s.nodes[j].id == y && Lower(s.nodes[i].name) == Lower(s.nodes[j].name)
  }

  /** The merge map on one node: it is merged exactly when it is not the first id
      of the group of its lower-cased name, and then into that first id. */
  lemma NodeCanon(s: Store, order: seq<nat>, i: nat)
    requires Valid(s) && IsQueryOrder(s, order) && i < |s.nodes|
    ensures var g := Group(Rows(s, order), Lower(s.nodes[i].name));
            var canon := Canon(s, order);
            && s.nodes[i].id in g
            && (s.nodes[i].id in canon <==> s.nodes[i].id != g[0])
            && (s.nodes[i].id in canon ==> canon[s.nodes[i].id] == g[0])
  {
    var rows := Rows(s, order);
    RowsOfOrder(s, order);
    KeysShape(rows);
    var k := QueryPosition(s, order, i);
    MergeMapRow(rows, Keys(rows), k);
  }

  /** The first id of a group is that of a node with the group's lower-cased name
      created no later than any other node with that name. */
  lemma GroupHead(s: Store, order: seq<nat>, key: string)
    requires Valid(s) && IsQueryOrder(s, order) && Group(Rows(s, order), key) != []
    ensures exists j :: 0 <= j < |s.nodes| && s.nodes[j].id == Group(Rows(s, order), key)[0] &&
              Lower(s.nodes[j].name) == key &&
              forall i :: 0 <= i < |s.nodes| && Lower(s.nodes[i].name) == key ==>
                s.nodes[j].createdAt <= s.nodes[i].createdAt
  {
    var rows := Rows(s, order);
    GroupFirst(rows, key);
    var k0 :| 0 <= k0 < |rows| && rows[k0].nameLower == key && rows[k0].id == Group(rows, key)[0] &&
              forall k :: 0 <= k < k0 ==> rows[k].nameLower != key;
    var j := order[k0];
    assert s.nodes[j].id == Group(rows, key)[0] && Lower(s.nodes[j].name) == key by {
      assert rows[k0] == RowOf(s.nodes[j]);
    }
    forall i | 0 <= i < |s.nodes| && Lower(s.nodes[i].name) == key
      ensures s.nodes[j].createdAt <= s.nodes[i].createdAt
    {
      var k := QueryPosition(s, order, i);
      if k != k0 {
        QueryOrderSorted(s, order, k0, k);
      }
    }
  }

  /** Where the query lists the node at position `i`. */
  lemma QueryPosition(s: Store, order: seq<nat>, i: nat) returns (k: nat)
    requires IsQueryOrder(s, order) && i < |s.nodes|
    ensures k < |order| && order[k] == i && Rows(s, order)[k] == RowOf(s.nodes[i])
  {
    assert i in order;
    k :| 0 <= k < |order| && order[k] == i;
  }

  /** In a query order, nodes with the same lower-cased name come by creation time. */
  lemma QueryOrderSorted(s: Store, order: seq<nat>, k: nat, l: nat)
    requires IsQueryOrder(s, order) && k < l < |order|
    requires Lower(s.nodes[order[k]].name) == Lower(s.nodes[order[l]].name)
    ensures s.nodes[order[k]].createdAt <= s.nodes[order[l]].createdAt
  {
  }

  /** Every merged id is the id of a node. */
  lemma CanonFrom(s: Store, order: seq<nat>)
    requires Valid(s) && IsQueryOrder(s, order)
    ensures forall x :: x in Canon(s, order) ==> HasId(s.nodes, x)
  {
    var rows := Rows(s, order);
    RowsOfOrder(s, order);
    forall x | x in Canon(s, order) ensures HasId(s.nodes, x) {
      MergeMapFrom(rows, Keys(rows), x);
    }
  }

  /** Where a node sits in a table. */
  lemma NodeIndex(nodes: seq<Node>, n: Node) returns (i: nat)
    requires n in nodes
    ensures i < |nodes| && nodes[i] == n
  {
    i :| 0 <= i < |nodes| && nodes[i] == n;
  }

  /** The nodes that survive the pass are the nodes of the store that were not merged. */
  lemma Survivors(s: Store, order: seq<nat>)
    requires IsQueryOrder(s, order)
    ensures forall n :: n in Deduplicated(s, order).0.nodes <==> n in s.nodes && n.id !in Canon(s, order)
  {
  }

  /** The survivor of the group of the node at `i`: a node of the store that is not
      merged, with the same lower-cased name, created no later than any node with
      that name. */
  lemma GroupSurvivor(s: Store, order: seq<nat>, i: nat) returns (j: nat)
    requires Valid(s) && IsQueryOrder(s, order) && i < |s.nodes|
    ensures j < |s.nodes| && s.nodes[j].id !in Canon(s, order)
    ensures Lower(s.nodes[j].name) == Lower(s.nodes[i].name)
    ensures Canonical(Canon(s, order), s.nodes[i].id) == s.nodes[j].id
    ensures forall l :: 0 <= l < |s.nodes| && Lower(s.nodes[l].name) == Lower(s.nodes[i].name) ==>
              s.nodes[j].createdAt <= s.nodes[l].createdAt
  {
    var key := Lower(s.nodes[i].name);
    NodeCanon(s, order, i);
    GroupHead(s, order, key);
    j :| 0 <= j < |s.nodes| && s.nodes[j].id == Group(Rows(s, order), key)[0] && Lower(s.nodes[j].name) == key &&
         forall l :: 0 <= l < |s.nodes| && Lower(s.nodes[l].name) == key ==> s.nodes[j].createdAt <= s.nodes[l].createdAt;
    NodeCanon(s, order, j);
  }

  /** No two nodes left by the pass share a lower-cased name. */
  lemma DedupDistinctLowerNames(s: Store, order: seq<nat>)
    requires Valid(s) && IsQueryOrder(s, order)
    ensures DistinctLowerNames(Deduplicated(s, order).0.nodes)
  {
    var nodes' := Deduplicated(s, order).0.nodes;
    forall a, b | 0 <= a < b < |nodes'| ensures Lower(nodes'[a].name) != Lower(nodes'[b].name) {
      var i := NodeIndex(s.nodes, nodes'[a]);
      var j := NodeIndex(s.nodes, nodes'[b]);
      NodeCanon(s, order, i);
      NodeCanon(s, order, j);
    }
  }

  /** Every node left by the pass is the earliest-created node of its lower-cased
      name. */
  lemma DedupKeepsEarliest(s: Store, order: seq<nat>)
    requires Valid(s) && IsQueryOrder(s, order)
    ensures var nodes' := Deduplicated(s, order).0.nodes;
            forall n, m :: n in nodes' && m in s.nodes && Lower(m.name) == Lower(n.name) ==>
              n.createdAt <= m.createdAt
  {
    var nodes' := Deduplicated(s, order).0.nodes;
    forall n | n in nodes'
      ensures forall m :: m in s.nodes && Lower(m.name) == Lower(n.name) ==> n.createdAt <= m.createdAt
    {
      KeepsEarliestAt(s, order, n);
    }
  }

  lemma KeepsEarliestAt(s: Store, order: seq<nat>, n: Node)
    requires Valid(s) && IsQueryOrder(s, order) && n in Deduplicated(s, order).0.nodes
    ensures forall m :: m in s.nodes && Lower(m.name) == Lower(n.name) ==> n.createdAt <= m.createdAt
  {
    var i := NodeIndex(s.nodes, n);
    var j := GroupSurvivor(s, order, i);
    NodeCanon(s, order, i);
  }

  /** Every lower-cased name of the store keeps a node. */
  lemma DedupKeepsEveryName(s: Store, order: seq<nat>)
    requires Valid(s) && IsQueryOrder(s, order)
    ensures var nodes' := Deduplicated(s, order).0.nodes;
            forall m :: m in s.nodes ==> exists n :: n in nodes' && Lower(n.name) == Lower(m.name)
  {
    var nodes' := Deduplicated(s, order).0.nodes;
    forall m | m in s.nodes ensures exists n :: n in nodes' && Lower(n.name) == Lower(m.name) {
      var i := NodeIndex(s.nodes, m);
      var j := GroupSurvivor(s, order, i);
      assert s.nodes[j] in nodes';
    }
  }

  /** Where an edge endpoint `x` goes: to a node left by the pass with the same
      lower-cased name, and nowhere else when `x` itself is left. */
  lemma EndpointRewrite(s: Store, order: seq<nat>, x: NodeId)
    requires Valid(s) && IsQueryOrder(s, order) && HasId(s.nodes, x)
    ensures var nodes' := Deduplicated(s, order).0.nodes;
            var y := Canonical(Canon(s, order), x);
            && HasId(nodes', y) && SameGroup(s, x, y)
            && (HasId(nodes', x) ==> y == x)
  {
    var nodes' := Deduplicated(s, order).0.nodes;
    var i :| 0 <= i < |s.nodes| && s.nodes[i].id == x;
    var j := GroupSurvivor(s, order, i);
    assert s.nodes[j] in nodes';
    if HasId(nodes', x) {
      var a :| 0 <= a < |nodes'| && nodes'[a].id == x;
      assert nodes'[a] in nodes';
    }
  }

  /** The edge rewrite of the pass: every edge keeps its type and weight, and each
      endpoint is moved to the node left with the same lower-cased name; an endpoint
      whose node is left does not change. */
  lemma DedupRewrite(s: Store, order: seq<nat>, k: nat)
    requires Valid(s) && IsQueryOrder(s, order) && k < |s.edges|
    ensures var nodes' := Deduplicated(s, order).0.nodes;
            var e, e' := s.edges[k], Relabel(s.edges, Canon(s, order))[k];
            && e'.relType == e.relType && e'.weight == e.weight
            && HasId(nodes', e'.source) && SameGroup(s, e.source, e'.source)
            && (HasId(nodes', e.source) ==> e'.source == e.source)
            && HasId(nodes', e'.target) && SameGroup(s, e.target, e'.target)
            && (HasId(nodes', e.target) ==> e'.target == e.target)
  {
    assert s.edges[k] in s.edges;
    EndpointRewrite(s, order, s.edges[k].source);
    EndpointRewrite(s, order, s.edges[k].target);
  }

  /** The pass deletes exactly the self-loops left after the rewrite, reports
      their number, and leaves no self-loop. */
  lemma DedupEdges(s: Store, order: seq<nat>)
    requires IsQueryOrder(s, order)
    ensures var (s', _, selfRefs) := Deduplicated(s, order);
            var rewritten := Relabel(s.edges, Canon(s, order));
            && NoSelfLoops(s'.edges)
            && |s'.edges| + selfRefs == |s.edges|
            && (forall e :: e in s'.edges <==> e in rewritten && e.source != e.target)
            && (forall e :: multiset(s'.edges)[e] == if e.source != e.target then multiset(rewritten)[e] else 0)
  {
    var rewritten := Relabel(s.edges, Canon(s, order));
    forall e {
      DeleteSelfLoopsCount(rewritten, e);
    }
  }

  /** The pass keeps the store invariant. */
  lemma DedupValid(s: Store, order: seq<nat>)
    requires Valid(s) && IsQueryOrder(s, order)
    ensures Valid(Deduplicated(s, order).0)
  {
    var s' := Deduplicated(s, order).0;
    var rewritten := Relabel(s.edges, Canon(s, order));
    assert EdgesWithin(s'.nodes, s'.edges) by {
      forall e | e in s'.edges ensures HasId(s'.nodes, e.source) && HasId(s'.nodes, e.target) {
        DedupEdgeWithin(s, order, e);
      }
    }
    assert forall a :: 0 <= a < |s'.nodes| ==> s'.nodes[a].id < s'.nextId by {
      forall a | 0 <= a < |s'.nodes| ensures s'.nodes[a].id < s'.nextId {
        var i := NodeIndex(s.nodes, s'.nodes[a]);
      }
    }
  }

  lemma DedupEdgeWithin(s: Store, order: seq<nat>, e: Edge)
    requires Valid(s) && IsQueryOrder(s, order) && e in Deduplicated(s, order).0.edges
    ensures var nodes' := Deduplicated(s, order).0.nodes;
            HasId(nodes', e.source) && HasId(nodes', e.target)
  {
    var rewritten := Relabel(s.edges, Canon(s, order));
    var k :| 0 <= k < |rewritten| && rewritten[k] == e;
    DedupRewrite(s, order, k);
  }

  /** A node whose lower-cased name no other node has is left in place, and the
      rewrite neither moves its edges away nor points other edges at it. */
  lemma DedupSingleton(s: Store, order: seq<nat>, i: nat)
    requires Valid(s) && IsQueryOrder(s, order) && i < |s.nodes|
    requires forall j :: 0 <= j < |s.nodes| && j != i ==> Lower(s.nodes[j].name) != Lower(s.nodes[i].name)
    ensures s.nodes[i] in Deduplicated(s, order).0.nodes
    ensures var id, rewritten := s.nodes[i].id, Relabel(s.edges, Canon(s, order));
            forall k :: 0 <= k < |s.edges| ==>
              && (rewritten[k].source == id <==> s.edges[k].source == id)
              && (rewritten[k].target == id <==> s.edges[k].target == id)
  {
    var j := GroupSurvivor(s, order, i);
    assert j == i;
    forall k | 0 <= k < |s.edges|
      ensures var rewritten := Relabel(s.edges, Canon(s, order));
              && (rewritten[k].source == s.nodes[i].id <==> s.edges[k].source == s.nodes[i].id)
              && (rewritten[k].target == s.nodes[i].id <==> s.edges[k].target == s.nodes[i].id)
    {
      SingletonEdge(s, order, i, k);
    }
  }

  lemma SingletonEdge(s: Store, order: seq<nat>, i: nat, k: nat)
    requires Valid(s) && IsQueryOrder(s, order) && i < |s.nodes| && k < |s.edges|
    requires s.nodes[i] in Deduplicated(s, order).0.nodes
    requires forall j :: 0 <= j < |s.nodes| && j != i ==> Lower(s.nodes[j].name) != Lower(s.nodes[i].name)
    ensures var rewritten := Relabel(s.edges, Canon(s, order));
            && (rewritten[k].source == s.nodes[i].id <==> s.edges[k].source == s.nodes[i].id)
            && (rewritten[k].target == s.nodes[i].id <==> s.edges[k].target == s.nodes[i].id)
  {
    DedupRewrite(s, order, k);
    assert HasId(Deduplicated(s, order).0.nodes, s.nodes[i].id);
  }

  /** The ids of the nodes. */
  function IdSet(nodes: seq<Node>): (r: set<NodeId>)
    ensures forall x :: x in r <==> HasId(nodes, x)
  {
    if nodes == [] then {}
    else
      HasIdTail(nodes, nodes[0].id);
      assert forall x :: HasId(nodes, x) <==> x == nodes[0].id || HasId(nodes[1..], x) by {
        forall x ensures HasId(nodes, x) <==> x == nodes[0].id || HasId(nodes[1..], x) {
          HasIdTail(nodes, x);
        }
      }
      {nodes[0].id} + IdSet(nodes[1..])
  }

  /** Filtering distinct-id rows by a set of ids drops one row per id present. */
  lemma {:induction false} WithoutCount(nodes: seq<Node>, ids: set<NodeId>)
    requires DistinctIds(nodes)
    ensures |Without(nodes, ids)| + |ids * IdSet(nodes)| == |nodes|
    decreases |nodes|
  {
    if nodes != [] {
      var tail := nodes[1..];
      DistinctIdsTail(nodes);
      WithoutCount(tail, ids);
      CountStep(ids, nodes[0].id, IdSet(tail));
    }
  }

  lemma CountStep(ids: set<NodeId>, x: NodeId, rest: set<NodeId>)
    requires x !in rest
    ensures |ids * ({x} + rest)| == |ids * rest| + (if x in ids then 1 else 0)
  {
    if x in ids {
      assert ids * ({x} + rest) == {x} + ids * rest;
    } else {
      assert ids * ({x} + rest) == ids * rest;
    }
  }

  /** The lower-cased names of the rows after the first, with the first one's. */
  lemma LowerNamesTail(nodes: seq<Node>)
    requires nodes != []
    ensures LowerNames(nodes) == {Lower(nodes[0].name)} + LowerNames(nodes[1..])
  {
    assert forall n :: n in nodes <==> n == nodes[0] || n in nodes[1..];
  }

  /** Nodes with pairwise different lower-cased names have as many lower-cased names
      as there are nodes. */
  lemma {:induction false} DistinctLowerCount(nodes: seq<Node>)
    requires DistinctLowerNames(nodes)
    ensures |LowerNames(nodes)| == |nodes|
    decreases |nodes|
  {
    if nodes != [] {
      var tail := nodes[1..];
      assert DistinctLowerNames(tail) && forall n :: n in tail ==> Lower(n.name) != Lower(nodes[0].name) by {
        forall i, j | 0 <= i < j < |tail| ensures Lower(tail[i].name) != Lower(tail[j].name) {
          assert tail[i] == nodes[i + 1] && tail[j] == nodes[j + 1];
        }
        forall n | n in tail ensures Lower(n.name) != Lower(nodes[0].name) {
          var i :| 0 <= i < |tail| && tail[i] == n;
          assert nodes[i + 1] == n;
        }
      }
      DistinctLowerCount(tail);
      LowerNamesTail(nodes);
    }
  }

  /** `entities_merged`: one per merged node, which is the number of nodes less the
      number of distinct lower-cased names, the size of each group less one summed
      over the groups. */
  lemma DedupMergedCount(s: Store, order: seq<nat>)
    requires Valid(s) && IsQueryOrder(s, order)
    ensures var (s', merged, _) := Deduplicated(s, order);
            && merged == |s.nodes| - |s'.nodes|
            && merged == |s.nodes| - |LowerNames(s.nodes)|
  {
    var (s', merged, _) := Deduplicated(s, order);
    var canon := Canon(s, order);
    CanonFrom(s, order);
    WithoutCount(s.nodes, canon.Keys);
    assert canon.Keys * IdSet(s.nodes) == canon.Keys;
    DedupDistinctLowerNames(s, order);
    DistinctLowerCount(s'.nodes);
    DedupKeepsEveryName(s, order);
    assert LowerNames(s'.nodes) == LowerNames(s.nodes);
  }

  /** A store with no two nodes of the same lower-cased name and no self-loop is
      left exactly as it is, with both counters zero. */
  lemma DedupIdempotent(s: Store, order: seq<nat>)
    requires Valid(s) && IsQueryOrder(s, order)
    requires DistinctLowerNames(s.nodes) && NoSelfLoops(s.edges)
    ensures Deduplicated(s, order) == (s, 0, 0)
  {
    var canon := Canon(s, order);
    forall i | 0 <= i < |s.nodes| ensures s.nodes[i].id !in canon {
      var j := GroupSurvivor(s, order, i);
    }
    CanonFrom(s, order);
    assert canon.Keys == {};
    assert canon == map[];
    WithoutNothing(s.nodes);
    assert Relabel(s.edges, canon) == s.edges;
  }

  /** Running the pass a second time, whatever order the query then returns,
      changes nothing and reports nothing. */
  lemma DedupTwice(s: Store, order: seq<nat>, order': seq<nat>)
    requires Valid(s) && IsQueryOrder(s, order)
    requires IsQueryOrder(Deduplicated(s, order).0, order')
    ensures var s' := Deduplicated(s, order).0;
            Deduplicated(s', order') == (s', 0, 0)
  {
    DedupValid(s, order);
    DedupDistinctLowerNames(s, order);
    DedupEdges(s, order);
    DedupIdempotent(Deduplicated(s, order).0, order');
  }
}
