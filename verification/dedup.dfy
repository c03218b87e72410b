/** The deduplication pass `deduplicate`: nodes whose names are equal once
    lower-cased are merged into the earliest-created one, edges are rewritten to
    point at the survivor, the other nodes are deleted, and self-loops are dropped. */
module Dedup {
  import opened Common
  import opened GraphStore

  /** One row of the grouping query: `LOWER(entity_name), id, entity_name`. */
  datatype Row = Row(nameLower: string, id: NodeId, name: string)

  function RowOf(n: Node): Row
  {
    Row(Lower(n.name), n.id, n.name)
  }

  /** The rows of the grouping query when it lists the nodes at the positions in `order`. */
  function Rows(s: Store, order: seq<nat>): (rows: seq<Row>)
    requires forall k :: 0 <= k < |order| ==> order[k] < |s.nodes|
    ensures |rows| == |order|
    ensures forall k :: 0 <= k < |order| ==> rows[k] == RowOf(s.nodes[order[k]])
  {
    seq(|order|, k requires 0 <= k < |order| => RowOf(s.nodes[order[k]]))
  }

  /** `order` is an order the query `ORDER BY LOWER(entity_name), created_at` may
      return the nodes in: every node position exactly once, and nodes whose
      lower-cased names agree by creation time. Ties on `created_at` may come in
      either order. */
  predicate IsQueryOrder(s: Store, order: seq<nat>)
  {
    && |order| == |s.nodes|
    && (forall k :: 0 <= k < |order| ==> order[k] < |s.nodes|)
    && (forall k, l :: 0 <= k < l < |order| ==> order[k] != order[l])
    && (forall i :: 0 <= i < |s.nodes| ==> i in order)
    && (forall k, l :: 0 <= k < l < |order| && Lower(s.nodes[order[k]].name) == Lower(s.nodes[order[l]].name) ==>
          s.nodes[order[k]].createdAt <= s.nodes[order[l]].createdAt)
  }

  /** No two rows carry the same id. */
  predicate DistinctRowIds(rows: seq<Row>)
  {
    forall k, l :: 0 <= k < l < |rows| ==> rows[k].id != rows[l].id
  }

  /** `duplicates[key]` once the grouping loop has seen `rows`: the ids of the rows
      with lower-cased name `key`, in row order. */
  function Group(rows: seq<Row>, key: string): (g: seq<NodeId>)
    ensures |g| <= |rows|
  {
    if rows == [] then []
    else
      var last := rows[|rows| - 1];
      Group(rows[..|rows| - 1], key) + (if last.nameLower == key then [last.id] else [])
  }

  /** The keys of `duplicates` in insertion order, which is the order the merge loop
      visits them in: each lower-cased name at its first row. */
  function Keys(rows: seq<Row>): (keys: seq<string>)
    ensures |keys| <= |rows|
  {
    if rows == [] then []
    else
      var prev := Keys(rows[..|rows| - 1]);
      var key := rows[|rows| - 1].nameLower;
      if key in prev then prev else prev + [key]
  }

  /** An id is in the group of `key` exactly when some row with that key carries it. */
  lemma {:induction false} GroupMembers(rows: seq<Row>, key: string, m: NodeId)
    ensures m in Group(rows, key) <==> exists k :: 0 <= k < |rows| && rows[k].id == m && rows[k].nameLower == key
    decreases |rows|
  {
    if rows != [] {
      var p := rows[..|rows| - 1];
      var last := rows[|rows| - 1];
      GroupMembers(p, key, m);
      assert m in Group(rows, key) <==> m in Group(p, key) || (last.id == m && last.nameLower == key);
      assert (exists k :: 0 <= k < |p| && p[k].id == m && p[k].nameLower == key) ==>
             (exists k :: 0 <= k < |rows| && rows[k].id == m && rows[k].nameLower == key) by {
        if exists k :: 0 <= k < |p| && p[k].id == m && p[k].nameLower == key {
          var k :| 0 <= k < |p| && p[k].id == m && p[k].nameLower == key;
          assert rows[k] == p[k];
        }
      }
      assert (exists k :: 0 <= k < |rows| && rows[k].id == m && rows[k].nameLower == key) ==>
             (exists k :: 0 <= k < |p| && p[k].id == m && p[k].nameLower == key) ||
             (last.id == m && last.nameLower == key) by {
        if exists k :: 0 <= k < |rows| && rows[k].id == m && rows[k].nameLower == key {
          var k :| 0 <= k < |rows| && rows[k].id == m && rows[k].nameLower == key;
          if k < |p| {
            assert p[k] == rows[k];
          }
        }
      }
    }
  }

  /** With distinct row ids a group lists no id twice. */
  lemma {:induction false} GroupDistinct(rows: seq<Row>, key: string)
    requires DistinctRowIds(rows)
    ensures forall a, b :: 0 <= a < b < |Group(rows, key)| ==> Group(rows, key)[a] != Group(rows, key)[b]
    decreases |rows|
  {
    if rows != [] {
      var p := rows[..|rows| - 1];
      var last := rows[|rows| - 1];
      assert DistinctRowIds(p) by {
        forall k, l | 0 <= k < l < |p| ensures p[k].id != p[l].id {
          assert p[k] == rows[k] && p[l] == rows[l];
        }
      }
      GroupDistinct(p, key);
      if last.nameLower == key {
        GroupMembers(p, key, last.id);
        forall k | 0 <= k < |p| ensures p[k].id != last.id {
          assert p[k] == rows[k];
        }
      }
    }
  }

  /** With distinct row ids, the groups of two different keys share no id. */
  lemma GroupsDisjoint(rows: seq<Row>, k1: string, k2: string, m: NodeId)
    requires DistinctRowIds(rows) && k1 != k2 && m in Group(rows, k1)
    ensures m !in Group(rows, k2)
  {
    GroupMembers(rows, k1, m);
    GroupMembers(rows, k2, m);
  }

  /** The first id of a non-empty group is carried by the first row with that key. */
  lemma {:induction false} GroupFirst(rows: seq<Row>, key: string)
    requires Group(rows, key) != []
    ensures exists k0 :: 0 <= k0 < |rows| && rows[k0].nameLower == key && rows[k0].id == Group(rows, key)[0] &&
              forall k :: 0 <= k < k0 ==> rows[k].nameLower != key
    decreases |rows|
  {
    var p := rows[..|rows| - 1];
    var last := rows[|rows| - 1];
    if Group(p, key) != [] {
      GroupFirst(p, key);
      var k0 :| 0 <= k0 < |p| && p[k0].nameLower == key && p[k0].id == Group(p, key)[0] &&
                forall k :: 0 <= k < k0 ==> p[k].nameLower != key;
      assert rows[k0] == p[k0];
      assert forall k :: 0 <= k < k0 ==> rows[k] == p[k];
    } else {
      GroupMembers(p, key, last.id);
      forall k | 0 <= k < |p| ensures p[k].nameLower != key {
        GroupMembers(p, key, p[k].id);
      }
      assert forall k :: 0 <= k < |p| ==> rows[k] == p[k];
    }
  }

  /** The keys are the lower-cased names of the rows, each once; a name that is not
      a key has an empty group. */
  lemma {:induction false} KeysShape(rows: seq<Row>)
    ensures forall key :: key in Keys(rows) <==> exists k :: 0 <= k < |rows| && rows[k].nameLower == key
    ensures forall a, b :: 0 <= a < b < |Keys(rows)| ==> Keys(rows)[a] != Keys(rows)[b]
    ensures forall key :: key !in Keys(rows) ==> Group(rows, key) == []
    decreases |rows|
  {
    if rows != [] {
      var p := rows[..|rows| - 1];
      KeysShape(p);
      forall key ensures key in Keys(rows) <==> exists k :: 0 <= k < |rows| && rows[k].nameLower == key {
        if exists k :: 0 <= k < |p| && p[k].nameLower == key {
          var k :| 0 <= k < |p| && p[k].nameLower == key;
          assert rows[k] == p[k];
        }
        if exists k :: 0 <= k < |rows| && rows[k].nameLower == key {
          var k :| 0 <= k < |rows| && rows[k].nameLower == key;
          if k < |p| {
            assert p[k] == rows[k];
          }
        }
      }
    }
  }

  /** What merging a group has redirected after its first `j` members: each of
      `group[1..j]` to `keep_id`, the first. */
  function Redirects(group: seq<NodeId>, j: nat): map<NodeId, NodeId>
    requires 1 <= j <= |group|
  {
    if j == 1 then map[] else Redirects(group, j - 1)[group[j - 1] := group[0]]
  }

  lemma {:induction false} RedirectsShape(group: seq<NodeId>, j: nat)
    requires 1 <= j <= |group|
    ensures forall x :: x in Redirects(group, j) <==> x in group[1..j]
    ensures forall x :: x in Redirects(group, j) ==> Redirects(group, j)[x] == group[0]
  {
    if j > 1 {
      RedirectsShape(group, j - 1);
      assert group[1..j] == group[1..j - 1] + [group[j - 1]];
    }
  }

  /** What the merge loop has redirected after visiting the groups of `keys`. Groups
      of one node are skipped. */
  function MergeMap(rows: seq<Row>, keys: seq<string>): map<NodeId, NodeId>
  {
    if keys == [] then map[]
    else
      MergeMap(rows, keys[..|keys| - 1]) + GroupRedirects(rows, keys[|keys| - 1])
  }

  /** An id that is in none of the groups of `keys` is neither redirected nor a
      redirection target. */
  lemma {:induction false} MergeMapAvoids(rows: seq<Row>, keys: seq<string>, m: NodeId)
    requires forall key :: key in keys ==> m !in Group(rows, key)
    ensures m !in MergeMap(rows, keys)
    ensures forall x :: x in MergeMap(rows, keys) ==> MergeMap(rows, keys)[x] != m
    decreases |keys|
  {
    if keys != [] {
      var key := keys[|keys| - 1];
      var g := Group(rows, key);
      assert forall k :: k in keys[..|keys| - 1] ==> k in keys;
      MergeMapAvoids(rows, keys[..|keys| - 1], m);
      if |g| > 1 {
        RedirectsShape(g, |g|);
        assert m !in g;
      }
    }
  }

  /** The merge map on the id of a row: after the groups of `keys` are merged, the
      row's id is redirected exactly when its key was visited and it is not the first
      id of its group, and then it is redirected to that first id. */
  lemma {:induction false} MergeMapRow(rows: seq<Row>, keys: seq<string>, k: nat)
    requires DistinctRowIds(rows) && k < |rows|
    requires forall a, b :: 0 <= a < b < |keys| ==> keys[a] != keys[b]
    ensures rows[k].id in Group(rows, rows[k].nameLower)
    ensures var g := Group(rows, rows[k].nameLower);
            var mm := MergeMap(rows, keys);
            && (rows[k].id in mm <==> rows[k].nameLower in keys && rows[k].id != g[0])
            && (rows[k].id in mm ==> mm[rows[k].id] == g[0])
    decreases |keys|
  {
    var r := rows[k];
    GroupMembers(rows, r.nameLower, r.id);
    if keys != [] {
      var p := keys[..|keys| - 1];
      var key := keys[|keys| - 1];
      MergeMapRow(rows, p, k);
      assert r.nameLower in keys <==> r.nameLower in p || r.nameLower == key;
      if r.nameLower == key {
        assert key !in p;
        GroupRedirectsOwn(rows, key, r.id);
      } else {
        GroupsDisjoint(rows, r.nameLower, key, r.id);
        GroupRedirectsOther(rows, key, r.id);
      }
    }
  }

  /** What the merge loop adds to its map for the group of `key`. */
  function GroupRedirects(rows: seq<Row>, key: string): map<NodeId, NodeId>
  {
    var g := Group(rows, key);
    if |g| > 1 then Redirects(g, |g|) else map[]
  }

  /** A member of a group is redirected by it exactly when it is not the group's
      first id, and then to that first id. */
  lemma GroupRedirectsOwn(rows: seq<Row>, key: string, id: NodeId)
    requires DistinctRowIds(rows) && id in Group(rows, key)
    ensures var g := Group(rows, key);
            && (id in GroupRedirects(rows, key) <==> id != g[0])
            && (id in GroupRedirects(rows, key) ==> GroupRedirects(rows, key)[id] == g[0])
  {
    var g := Group(rows, key);
    GroupDistinct(rows, key);
    if |g| > 1 {
      RedirectsShape(g, |g|);
      assert id in g[1..|g|] <==> id != g[0];
    }
  }

  lemma GroupRedirectsOther(rows: seq<Row>, key: string, id: NodeId)
    requires id !in Group(rows, key)
    ensures id !in GroupRedirects(rows, key)
  {
    var g := Group(rows, key);
    if |g| > 1 {
      RedirectsShape(g, |g|);
    }
  }

  /** Every redirected id is the id of some row. */
  lemma MergeMapFrom(rows: seq<Row>, keys: seq<string>, x: NodeId)
    requires x in MergeMap(rows, keys)
    ensures exists k :: 0 <= k < |rows| && rows[k].id == x
  {
    if !exists k :: 0 <= k < |rows| && rows[k].id == x {
      forall key | key in keys ensures x !in Group(rows, key) {
        GroupMembers(rows, key, x);
      }
      MergeMapAvoids(rows, keys, x);
    }
  }

  /** The rows carry distinct ids, each the id of a node of the store. */
  /** Only row ids are redirected. */
  lemma MergeMapRowIds(rows: seq<Row>, keys: seq<string>)
    ensures forall x :: x in MergeMap(rows, keys) ==> exists k :: 0 <= k < |rows| && rows[k].id == x
  {
    forall x | x in MergeMap(rows, keys) ensures exists k :: 0 <= k < |rows| && rows[k].id == x {
      MergeMapFrom(rows, keys, x);
    }
  }

  predicate RowsOfStore(s: Store, rows: seq<Row>)
  {
    DistinctRowIds(rows) && forall k :: 0 <= k < |rows| ==> HasId(s.nodes, rows[k].id)
  }

  /** The rows of a query order are rows of the store. */
  lemma RowsOfOrder(s: Store, order: seq<nat>)
    requires Valid(s) && IsQueryOrder(s, order)
    ensures RowsOfStore(s, Rows(s, order))
  {
    var rows := Rows(s, order);
    forall k, l | 0 <= k < l < |rows| ensures rows[k].id != rows[l].id {
      assert order[k] != order[l];
    }
    forall k | 0 <= k < |rows| ensures HasId(s.nodes, rows[k].id) {
      assert s.nodes[order[k]].id == rows[k].id;
    }
  }

  /** Where an endpoint points once the merge map is applied. */
  function Canonical(canon: map<NodeId, NodeId>, id: NodeId): NodeId
  {
    if id in canon then canon[id] else id
  }

  /** The edge table with both endpoints of every edge sent through `canon`: as many
      edges, each keeping its type and weight, and an empty map changes nothing. */
  function Relabel(edges: seq<Edge>, canon: map<NodeId, NodeId>): (r: seq<Edge>)
    ensures |r| == |edges|
    ensures canon == map[] ==> r == edges
  {
    seq(|edges|, k requires 0 <= k < |edges| =>
      edges[k].(source := Canonical(canon, edges[k].source), target := Canonical(canon, edges[k].target)))
  }

  /** Redirecting one more id `m`, which nothing points at yet, is the two
      `UPDATE graph_edges` statements of one merge. */
  lemma RelabelStep(edges: seq<Edge>, redirect: map<NodeId, NodeId>, m: NodeId, keep: NodeId)
    requires m !in redirect && forall x :: x in redirect ==> redirect[x] != m
    ensures Relabel(edges, redirect[m := keep]) == SetTarget(SetSource(Relabel(edges, redirect), m, keep), m, keep)
  {
  }

  /** Deleting one more node is filtering by one more id. */
  lemma {:induction false} WithoutStep(nodes: seq<Node>, ids: set<NodeId>, m: NodeId)
    ensures DeleteNode(Without(nodes, ids), m) == Without(nodes, ids + {m})
    decreases |nodes|
  {
    if nodes != [] {
      WithoutStep(nodes[1..], ids, m);
      var rest := Without(nodes[1..], ids);
      if nodes[0].id !in ids {
        assert Without(nodes, ids) == [nodes[0]] + rest;
        assert ([nodes[0]] + rest)[1..] == rest;
      }
    }
  }

  /** The ids a group merges (all but its first) are distinct nodes of the store
      that the merges so far (`done`) neither redirected nor redirect to. */
  ghost predicate Mergeable(s: Store, done: map<NodeId, NodeId>, group: seq<NodeId>)
  {
    && |group| > 1
    && (forall a, b :: 0 <= a < b < |group| ==> group[a] != group[b])
    && (forall a :: 1 <= a < |group| ==> group[a] !in done && HasId(s.nodes, group[a]))
    && (forall x, a :: x in done && 1 <= a < |group| ==> done[x] != group[a])
  }

  /** Every group of more than one node is mergeable after the groups before it. */
  lemma GroupMergeable(s: Store, rows: seq<Row>, g: nat)
    requires RowsOfStore(s, rows) && g < |Keys(rows)|
    ensures var group := Group(rows, Keys(rows)[g]);
            |group| > 1 ==> Mergeable(s, MergeMap(rows, Keys(rows)[..g]), group)
  {
    var keys := Keys(rows);
    var group := Group(rows, keys[g]);
    var done := MergeMap(rows, keys[..g]);
    KeysShape(rows);
    GroupDistinct(rows, keys[g]);
    forall a | 1 <= a < |group|
      ensures group[a] !in done && HasId(s.nodes, group[a])
      ensures forall x :: x in done ==> done[x] != group[a]
    {
      var m := group[a];
      forall key | key in keys[..g] ensures m !in Group(rows, key) {
        GroupsDisjoint(rows, keys[g], key, m);
      }
      MergeMapAvoids(rows, keys[..g], m);
      GroupMembers(rows, keys[g], m);
    }
  }

  /** The merge map of a whole pass: every merged id to the id it was merged into. */
  function Canon(s: Store, order: seq<nat>): (r: map<NodeId, NodeId>)
    requires IsQueryOrder(s, order)
    ensures forall x :: x in r ==> exists k :: 0 <= k < |order| && s.nodes[order[k]].id == x
  {
    var rows := Rows(s, order);
    MergeMapRowIds(rows, Keys(rows));
    MergeMap(rows, Keys(rows))
  }

  /** The store `deduplicate` commits, with its two counters: the merge map of the
      pass applied to nodes and edges, then the self-loops deleted. */
  function Deduplicated(s: Store, order: seq<nat>): (r: (Store, nat, nat))
    requires IsQueryOrder(s, order)
    ensures r.0.nextId == s.nextId
    ensures |r.0.nodes| <= |s.nodes|
    ensures |r.0.edges| + r.2 == |s.edges|
  {
    var canon := Canon(s, order);
    var cleaned := DeleteSelfLoops(Relabel(s.edges, canon));
    (Store(Without(s.nodes, canon.Keys), cleaned.0, s.nextId), |canon.Keys|, cleaned.1)
  }

  lemma RedirectsNext(done: map<NodeId, NodeId>, group: seq<NodeId>, j: nat)
    requires 1 <= j < |group|
    ensures (done + Redirects(group, j))[group[j] := group[0]] == done + Redirects(group, j + 1)
  {
  }

  /** One merge of the inner loop keeps the merge loop's state in step with the merge
      map: redirecting `group[j]` to `group[0]` is the two edge updates and the node
      delete, and it deletes exactly one node. */
  lemma MergeStep(s: Store, done: map<NodeId, NodeId>, group: seq<NodeId>, j: nat,
                  redirect: map<NodeId, NodeId>, nodes: seq<Node>, edges: seq<Edge>, merged: nat)
    requires DistinctIds(s.nodes) && Mergeable(s, done, group)
    requires 1 <= j < |group| && redirect == done + Redirects(group, j)
    requires MergeState(s, redirect, nodes, edges, merged)
    ensures redirect[group[j] := group[0]] == done + Redirects(group, j + 1)
    ensures MergeState(s, redirect[group[j] := group[0]], DeleteNode(nodes, group[j]),
                       SetTarget(SetSource(edges, group[j], group[0]), group[j], group[0]), merged + 1)
  {
    var m, keep := group[j], group[0];
    RedirectsFresh(group, j);
    assert m !in done && HasId(s.nodes, m);
    assert forall x :: x in done ==> done[x] != m;
    RedirectsNext(done, group, j);
    MergeStateStep(s, redirect, m, keep, nodes, edges, merged);
  }

  /** The redirections of the first `j` ids of a group of distinct ids neither
      mention nor point at `group[j]`. */
  lemma RedirectsFresh(group: seq<NodeId>, j: nat)
    requires 1 <= j < |group| && forall a, b :: 0 <= a < b < |group| ==> group[a] != group[b]
    ensures group[j] !in Redirects(group, j)
    ensures forall x :: x in Redirects(group, j) ==> Redirects(group, j)[x] != group[j]
  {
    RedirectsShape(group, j);
  }

  /** Redirecting an id `m` of the store that is neither redirected nor a redirection
      target yet deletes its node and rewrites its edges. */
  lemma MergeStateStep(s: Store, redirect: map<NodeId, NodeId>, m: NodeId, keep: NodeId,
                       nodes: seq<Node>, edges: seq<Edge>, merged: nat)
    requires DistinctIds(s.nodes) && HasId(s.nodes, m)
    requires m !in redirect && forall x :: x in redirect ==> redirect[x] != m
    requires MergeState(s, redirect, nodes, edges, merged)
    ensures MergeState(s, redirect[m := keep], DeleteNode(nodes, m),
                       SetTarget(SetSource(edges, m, keep), m, keep), merged + 1)
  {
    RelabelStep(s.edges, redirect, m, keep);
    WithoutStep(s.nodes, redirect.Keys, m);
    assert redirect[m := keep].Keys == redirect.Keys + {m};
    assert HasId(nodes, m) by {
      var i :| 0 <= i < |s.nodes| && s.nodes[i].id == m;
      assert s.nodes[i] in nodes;
    }
  }

  /** How the keys and the groups grow by one row. */
  lemma GroupRowsStep(rows: seq<Row>, k: nat)
    requires k < |rows|
    ensures Keys(rows[..k + 1]) ==
              if rows[k].nameLower in Keys(rows[..k]) then Keys(rows[..k]) else Keys(rows[..k]) + [rows[k].nameLower]
    ensures forall key :: Group(rows[..k + 1], key) ==
              Group(rows[..k], key) + (if rows[k].nameLower == key then [rows[k].id] else [])
  {
    assert rows[..k + 1][..k] == rows[..k];
  }

  /** The grouping loop of `deduplicate`: `duplicates` maps each lower-cased name
      to the ids of its rows in row order; `keys` lists its keys in insertion order. */
  method GroupRows(rows: seq<Row>) returns (duplicates: map<string, seq<NodeId>>, keys: seq<string>)
    ensures keys == Keys(rows)
    ensures forall key :: key in duplicates <==> key in keys
    ensures forall key :: key in duplicates ==> duplicates[key] == Group(rows, key)
  {
    duplicates, keys := map[], [];
    for k := 0 to |rows|
      invariant keys == Keys(rows[..k])
      invariant forall key :: key in duplicates <==> key in keys
      invariant forall key :: key in duplicates ==> duplicates[key] == Group(rows[..k], key)
    {
      duplicates, keys := GroupNext(rows, k, duplicates, keys);
    }
    assert rows[..|rows|] == rows;
  }

  /** The body of the grouping loop: append the id of row `k` to the entry of its
      lower-cased name, creating the entry when the name is new. */
  method GroupNext(rows: seq<Row>, k: nat, duplicates: map<string, seq<NodeId>>, keys: seq<string>)
    returns (duplicates': map<string, seq<NodeId>>, keys': seq<string>)
    requires k < |rows|
    requires keys == Keys(rows[..k])
    requires forall key :: key in duplicates <==> key in keys
    requires forall key :: key in duplicates ==> duplicates[key] == Group(rows[..k], key)
    ensures keys' == Keys(rows[..k + 1])
    ensures forall key :: key in duplicates' <==> key in keys'
    ensures forall key :: key in duplicates' ==> duplicates'[key] == Group(rows[..k + 1], key)
  {
    var row := rows[k];
    KeysShape(rows[..k]);
    duplicates', keys' := duplicates, keys;
    if row.nameLower !in duplicates' {
      duplicates' := duplicates'[row.nameLower := []];
      keys' := keys' + [row.nameLower];
    }
    duplicates' := duplicates'[row.nameLower := duplicates'[row.nameLower] + [row.id]];
    GroupRowsStep(rows, k);
  }

  lemma {:induction false} WithoutNothing(nodes: seq<Node>)
    ensures Without(nodes, {}) == nodes
    decreases |nodes|
  {
    if nodes != [] {
      WithoutNothing(nodes[1..]);
      WithoutCons(nodes, {});
      assert [nodes[0]] + nodes[1..] == nodes;
    }
  }

  lemma WithoutCons(nodes: seq<Node>, ids: set<NodeId>)
    requires nodes != [] && nodes[0].id !in ids
    ensures Without(nodes, ids) == [nodes[0]] + Without(nodes[1..], ids)
  {
  }

  lemma MergeMapNext(rows: seq<Row>, keys: seq<string>, g: nat)
    requires g < |keys|
    ensures var group := Group(rows, keys[g]);
            MergeMap(rows, keys[..g + 1]) ==
              MergeMap(rows, keys[..g]) + (if |group| > 1 then Redirects(group, |group|) else map[])
  {
    assert keys[..g + 1][..g] == keys[..g];
  }

  /** The state of the merge loop once the ids of `redirect` are merged: those nodes
      are deleted, the edges point through `redirect`, and `merged` counts them. */
  ghost predicate MergeState(s: Store, redirect: map<NodeId, NodeId>, nodes: seq<Node>, edges: seq<Edge>, merged: nat)
  {
    && nodes == Without(s.nodes, redirect.Keys)
    && edges == Relabel(s.edges, redirect)
    && merged == |redirect.Keys|
    && |nodes| + merged == |s.nodes|
  }

  /** The body of the merge loop for one group: a group of more than one node keeps
      its first id and merges every other one into it. */
  method MergeGroup(ghost s: Store, ghost rows: seq<Row>, ghost g: nat, group: seq<NodeId>,
                    nodes: seq<Node>, edges: seq<Edge>, merged: nat, ghost redirect: map<NodeId, NodeId>)
    returns (nodes': seq<Node>, edges': seq<Edge>, merged': nat, ghost redirect': map<NodeId, NodeId>)
    requires DistinctIds(s.nodes) && RowsOfStore(s, rows) && g < |Keys(rows)|
    requires group == Group(rows, Keys(rows)[g])
    requires redirect == MergeMap(rows, Keys(rows)[..g])
    requires MergeState(s, redirect, nodes, edges, merged)
    ensures redirect' == MergeMap(rows, Keys(rows)[..g + 1])
    ensures MergeState(s, redirect', nodes', edges', merged')
  {
    assert |group| > 1 ==> Mergeable(s, redirect, group) by {
      GroupMergeable(s, rows, g);
    }
    nodes', edges', merged', redirect' := MergeIfDuplicated(s, group, nodes, edges, merged, redirect);
    MergeMapNext(rows, Keys(rows), g);
  }

  /** A group of more than one node keeps its first id and merges every other one
      into it; a group of one node changes nothing. */
  method MergeIfDuplicated(ghost s: Store, group: seq<NodeId>, nodes: seq<Node>, edges: seq<Edge>, merged: nat,
                           ghost redirect: map<NodeId, NodeId>)
    returns (nodes': seq<Node>, edges': seq<Edge>, merged': nat, ghost redirect': map<NodeId, NodeId>)
    requires DistinctIds(s.nodes) && (|group| > 1 ==> Mergeable(s, redirect, group))
    requires MergeState(s, redirect, nodes, edges, merged)
    ensures redirect' == redirect + (if |group| > 1 then Redirects(group, |group|) else map[])
    ensures MergeState(s, redirect', nodes', edges', merged')
  {
    if |group| > 1 {
      nodes', edges', merged', redirect' := MergeInto(s, group, nodes, edges, merged, redirect);
    } else {
      nodes', edges', merged', redirect' := nodes, edges, merged, redirect;
      assert redirect + map[] == redirect;
    }
  }

  /** The inner loop: keep `group[0]` and merge each later id into it. */
  method MergeInto(ghost s: Store, group: seq<NodeId>, nodes: seq<Node>, edges: seq<Edge>, merged: nat,
                   ghost done: map<NodeId, NodeId>)
    returns (nodes': seq<Node>, edges': seq<Edge>, merged': nat, ghost redirect': map<NodeId, NodeId>)
    requires DistinctIds(s.nodes) && Mergeable(s, done, group)
    requires MergeState(s, done, nodes, edges, merged)
    ensures redirect' == done + Redirects(group, |group|)
    ensures MergeState(s, redirect', nodes', edges', merged')
  {
    nodes', edges', merged', redirect' := nodes, edges, merged, done;
    for j := 1 to |group|
      invariant redirect' == done + Redirects(group, j)
      invariant MergeState(s, redirect', nodes', edges', merged')
    {
      nodes', edges', merged', redirect' := MergeOne(s, done, group, j, nodes', edges', merged', redirect');
    }
  }

  /** One merge: the edges of `group[j]` move to `group[0]` and `group[j]` is deleted. */
  method MergeOne(ghost s: Store, ghost done: map<NodeId, NodeId>, group: seq<NodeId>, j: nat,
                  nodes: seq<Node>, edges: seq<Edge>, merged: nat, ghost redirect: map<NodeId, NodeId>)
    returns (nodes': seq<Node>, edges': seq<Edge>, merged': nat, ghost redirect': map<NodeId, NodeId>)
    requires DistinctIds(s.nodes) && Mergeable(s, done, group)
    requires 1 <= j < |group| && redirect == done + Redirects(group, j)
    requires MergeState(s, redirect, nodes, edges, merged)
    ensures redirect' == done + Redirects(group, j + 1)
    ensures MergeState(s, redirect', nodes', edges', merged')
  {
    var m, keep := group[j], group[0];
    MergeStep(s, done, group, j, redirect, nodes, edges, merged);
    edges' := SetTarget(SetSource(edges, m, keep), m, keep);
    nodes' := DeleteNode(nodes, m);
    merged' := merged + 1;
    redirect' := redirect[m := keep];
  }


  /** Before the merge loop nothing is merged. */
  lemma MergeStateInit(s: Store)
    ensures MergeState(s, map[], s.nodes, s.edges, 0)
  {
    WithoutNothing(s.nodes);
    var none: map<NodeId, NodeId> := map[];
    assert none.Keys == {};
    assert Relabel(s.edges, none) == s.edges;
  }

  /** `deduplicate`, reading the nodes in `order`. */
  method Deduplicate(s: Store, order: seq<nat>) returns (s': Store, merged: nat, selfRefs: nat)
    requires Valid(s) && IsQueryOrder(s, order)
    ensures (s', merged, selfRefs) == Deduplicated(s, order)
    ensures merged == |s.nodes| - |s'.nodes|
  {
    var rows := Rows(s, order);
    RowsOfOrder(s, order);
    var duplicates, keys := GroupRows(rows);

    var nodes, edges := s.nodes, s.edges;
    merged := 0;
    ghost var redirect: map<NodeId, NodeId> := map[];
    MergeStateInit(s);
    for g := 0 to |keys|
      invariant redirect == MergeMap(rows, keys[..g])
      invariant MergeState(s, redirect, nodes, edges, merged)
    {
      nodes, edges, merged, redirect := MergeGroup(s, rows, g, duplicates[keys[g]], nodes, edges, merged, redirect);
    }
    assert redirect == Canon(s, order) by {
      assert keys[..|keys|] == keys;
    }

    var cleaned := DeleteSelfLoops(edges);
    selfRefs := cleaned.1;
    s' := Store(nodes, cleaned.0, s.nextId);
  }
}
