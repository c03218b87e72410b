/** The two read-only handlers: keyword search (`search`) and vector search
    (`semantic_search`). Both list nodes with their outgoing connections. The order
    in which the database returns rows is a parameter: for keyword search the order
    it scans the nodes in, for vector search the nodes with an embedding ranked by
    distance to the query vector. */
module Search {
  import opened Common
  import opened GraphStore
  import opened Embedding

  /** Keyword search returns at most this many nodes (`LIMIT 3`). */
  const SearchLimit := 3

  /** `limit` of a vector search when the request has none. */
  const DefaultLimit := 5

  const EmbeddingFailed := "Failed to generate embedding"

  /** The database's error for a negative `LIMIT`. */
  const NegativeLimit := "LIMIT must not be negative"

  /** SQL `LIKE`: `%` matches any run of characters, `_` any one character, and
      every other character itself. */
  predicate Like(text: string, pattern: string)
    ensures IsLiteral(pattern) ==> (Like(text, pattern) <==> text == pattern)
    decreases |text|, |pattern|
  {
    if pattern == [] then text == []
    else if pattern[0] == '%' then Like(text, pattern[1..]) || (text != [] && Like(text[1..], pattern))
    else text != [] && (pattern[0] == '_' || pattern[0] == text[0]) && Like(text[1..], pattern[1..])
  }

  /** SQL `ILIKE`: `LIKE` once text and pattern are lower-cased. Without wildcards it
      is equality up to case. */
  predicate ILike(text: string, pattern: string)
    ensures IsLiteral(pattern) ==> (ILike(text, pattern) <==> Lower(text) == Lower(pattern))
  {
    LowerLiteral(pattern);
    Like(Lower(text), Lower(pattern))
  }

  /** A pattern without wildcards. */
  predicate IsLiteral(p: string)
  {
    forall i :: 0 <= i < |p| ==> p[i] != '%' && p[i] != '_'
  }

  /** Lower-casing keeps a pattern free of wildcards: `%` and `_` are not letters. */
  lemma LowerLiteral(p: string)
    ensures IsLiteral(p) ==> IsLiteral(Lower(p))
  {
  }

  /** `part` occurs in `text`: it is a prefix of some suffix of `text`. */
  predicate Contains(text: string, part: string)
  {
    exists i :: 0 <= i <= |text| && part <= text[i..]
  }

  /** The pattern `f'%{query}%'`. */
  function Surround(query: string): string
  {
    "%" + query + "%"
  }

  /** `%` matches every text. */
  lemma {:induction false} LikeAnything(text: string)
    ensures Like(text, "%")
    decreases |text|
  {
    if text != [] {
      LikeAnything(text[1..]);
    }
  }

  /** A literal followed by `%` matches exactly the texts it is a prefix of. */
  lemma {:induction false} LikePrefix(text: string, p: string)
    requires IsLiteral(p)
    ensures Like(text, p + "%") <==> |p| <= |text| && text[..|p|] == p
    decreases |p|
  {
    if p == [] {
      assert p + "%" == "%";
      LikeAnything(text);
    } else {
      assert (p + "%")[1..] == p[1..] + "%";
      if text != [] {
        LikePrefix(text[1..], p[1..]);
        if |p| <= |text| {
          assert text[..|p|] == [text[0]] + text[1..][..|p| - 1];
          assert p == [p[0]] + p[1..];
        }
      }
    }
  }

  /** A leading `%` lets the rest of the pattern match any suffix. */
  lemma {:induction false} LikeSkip(text: string, rest: string)
    ensures Like(text, "%" + rest) <==> exists i :: 0 <= i <= |text| && Like(text[i..], rest)
    decreases |text|
  {
    assert ("%" + rest)[1..] == rest;
    assert text[0..] == text;
    if text != [] {
      LikeSkip(text[1..], rest);
      if exists i :: 0 <= i <= |text| && Like(text[i..], rest) {
        var i :| 0 <= i <= |text| && Like(text[i..], rest);
        if i > 0 {
          assert text[1..][i - 1..] == text[i..];
        }
      }
      if exists i :: 0 <= i <= |text| - 1 && Like(text[1..][i..], rest) {
        var i :| 0 <= i <= |text| - 1 && Like(text[1..][i..], rest);
        assert text[1..][i..] == text[i + 1..];
      }
    }
  }

  /** `%q%` with a literal `q` matches exactly the texts that contain `q`. */
  lemma LikeContains(text: string, q: string)
    requires IsLiteral(q)
    ensures Like(text, Surround(q)) <==> Contains(text, q)
  {
    assert Surround(q) == "%" + (q + "%");
    LikeSkip(text, q + "%");
    forall i | 0 <= i <= |text|
      ensures Like(text[i..], q + "%") <==> q <= text[i..]
    {
      LikePrefix(text[i..], q);
    }
  }

  /** The keyword filter: a query without wildcards matches a text exactly when the
      lower-cased text contains the lower-cased query. */
  lemma ILikeContains(text: string, q: string)
    ensures IsLiteral(q) ==> (ILike(text, Surround(q)) <==> Contains(Lower(text), Lower(q)))
  {
    if IsLiteral(q) {
      assert Lower(Surround(q)) == Surround(Lower(q));
      LikeContains(Lower(text), Lower(q));
    }
  }

  /** `entity_name ILIKE p OR description ILIKE p`; a null description matches
      nothing. For a query without wildcards, a node matches exactly when its name
      or its description contains the query, case aside. */
  predicate NodeMatches(n: Node, query: string)
    ensures IsLiteral(query) ==>
              (NodeMatches(n, query) <==>
                 Contains(Lower(n.name), Lower(query))
                 || (n.description.Some? && Contains(Lower(n.description.value), Lower(query))))
  {
    ILikeContains(n.name, query);
    ILikeContains(if n.description.Some? then n.description.value else "", query);
    ILike(n.name, Surround(query)) || (n.description.Some? && ILike(n.description.value, Surround(query)))
  }

  /** One row of the connections query. */
  datatype Connection = Connection(name: string, entityType: Option<string>, rel: string)

  /** One entry of `results`. */
  datatype Hit = Hit(entity: string, entityType: Option<string>, description: Option<string>,
                     connections: seq<Connection>)

  /** The node a `JOIN graph_nodes n ON n.id = ...` finds. */
  function NodeWithId(nodes: seq<Node>, id: NodeId): (r: Option<Node>)
    ensures r.Some? ==> r.value in nodes && r.value.id == id
    ensures r.None? ==> !HasId(nodes, id)
  {
    if nodes == [] then None
    else if nodes[0].id == id then Some(nodes[0])
    else
      HasIdTail(nodes, id);
      NodeWithId(nodes[1..], id)
  }

  /** The connection row an edge gives: its target's name and type and the edge's
      type, or none when the target is not a node. */
  function ConnectionOf(nodes: seq<Node>, e: Edge): (r: Option<Connection>)
    ensures r.Some? <==> HasId(nodes, e.target)
    ensures r.Some? ==> r.value.rel == e.relType
    ensures r.Some? ==>
              exists n :: n in nodes && n.id == e.target && n.name == r.value.name && n.entityType == r.value.entityType
  {
    match NodeWithId(nodes, e.target)
    case None => None
    case Some(n) => Some(Connection(n.name, n.entityType, e.relType))
  }

  /** The connections query of the node `id`: one row per edge out of `id`, in edge
      order, joined with the edge's target. */
  function Connections(nodes: seq<Node>, edges: seq<Edge>, id: NodeId): (r: seq<Connection>)
    ensures |r| <= |edges|
    ensures forall c :: c in r ==>
              exists k :: 0 <= k < |edges| && edges[k].source == id && ConnectionOf(nodes, edges[k]) == Some(c)
    ensures forall k :: 0 <= k < |edges| && edges[k].source == id && ConnectionOf(nodes, edges[k]).Some? ==>
              ConnectionOf(nodes, edges[k]).value in r
  {
    if edges == [] then []
    else
      var p := edges[..|edges| - 1];
      var e := edges[|edges| - 1];
      var prev := Connections(nodes, p, id);
      assert forall k :: 0 <= k < |p| ==> p[k] == edges[k];
      if e.source == id && ConnectionOf(nodes, e).Some? then prev + [ConnectionOf(nodes, e).value] else prev
  }

  /** The edge `e` is out of `id` and gives the connection `c`. */
  predicate Gives(nodes: seq<Node>, e: Edge, id: NodeId, c: Connection)
  {
    e.source == id && ConnectionOf(nodes, e) == Some(c)
  }

  /** The edge `e` is out of `id` and its target is a node. */
  predicate Joins(nodes: seq<Node>, e: Edge, id: NodeId)
  {
    e.source == id && ConnectionOf(nodes, e).Some?
  }

  /** The positions of the edges out of `id` that give the connection `c`. */
  function EdgesGiving(nodes: seq<Node>, edges: seq<Edge>, id: NodeId, c: Connection): set<nat>
  {
    set k | 0 <= k < |edges| && Gives(nodes, edges[k], id, c)
  }

  /** The positions of the edges out of `id` whose target is a node. */
  function Outgoing(nodes: seq<Node>, edges: seq<Edge>, id: NodeId): set<nat>
  {
    set k | 0 <= k < |edges| && Joins(nodes, edges[k], id)
  }

  lemma EdgesGivingSnoc(nodes: seq<Node>, p: seq<Edge>, e: Edge, id: NodeId, c: Connection)
    ensures |p| !in EdgesGiving(nodes, p, id, c)
    ensures EdgesGiving(nodes, p + [e], id, c)
            == EdgesGiving(nodes, p, id, c) + (if Gives(nodes, e, id, c) then {|p|} else {})
  {
    assert forall k :: 0 <= k < |p| ==> (p + [e])[k] == p[k];
  }

  lemma OutgoingSnoc(nodes: seq<Node>, p: seq<Edge>, e: Edge, id: NodeId)
    ensures |p| !in Outgoing(nodes, p, id)
    ensures Outgoing(nodes, p + [e], id) == Outgoing(nodes, p, id) + (if Joins(nodes, e, id) then {|p|} else {})
  {
    assert forall k :: 0 <= k < |p| ==> (p + [e])[k] == p[k];
  }

  lemma ConnectionsSnoc(nodes: seq<Node>, p: seq<Edge>, e: Edge, id: NodeId)
    ensures Connections(nodes, p + [e], id)
            == Connections(nodes, p, id) + (if Joins(nodes, e, id) then [ConnectionOf(nodes, e).value] else [])
  {
    assert (p + [e])[..|p|] == p;
  }

  /** Every connection is listed once per edge that gives it: repeated edges give
      repeated rows. */
  lemma {:induction false} ConnectionsCount(nodes: seq<Node>, edges: seq<Edge>, id: NodeId, c: Connection)
    ensures multiset(Connections(nodes, edges, id))[c] == |EdgesGiving(nodes, edges, id, c)|
    decreases |edges|
  {
    if edges != [] {
      var p := edges[..|edges| - 1];
      var e := edges[|edges| - 1];
      ConnectionsCount(nodes, p, id, c);
      ConnectionsCountStep(nodes, p, e, id, c);
      assert edges == p + [e];
    }
  }

  lemma ConnectionsCountStep(nodes: seq<Node>, p: seq<Edge>, e: Edge, id: NodeId, c: Connection)
    requires multiset(Connections(nodes, p, id))[c] == |EdgesGiving(nodes, p, id, c)|
    ensures multiset(Connections(nodes, p + [e], id))[c] == |EdgesGiving(nodes, p + [e], id, c)|
  {
    ConnectionsSnoc(nodes, p, e, id);
    EdgesGivingSnoc(nodes, p, e, id, c);
  }

  /** The connections query gives one row per edge out of `id` whose target is a
      node, so the list is exactly as long as the number of such edges. */
  lemma {:induction false} ConnectionsLength(nodes: seq<Node>, edges: seq<Edge>, id: NodeId)
    ensures |Connections(nodes, edges, id)| == |Outgoing(nodes, edges, id)|
    decreases |edges|
  {
    if edges != [] {
      var p := edges[..|edges| - 1];
      var e := edges[|edges| - 1];
      ConnectionsLength(nodes, p, id);
      ConnectionsLengthStep(nodes, p, e, id);
      assert edges == p + [e];
    }
  }

  lemma ConnectionsLengthStep(nodes: seq<Node>, p: seq<Edge>, e: Edge, id: NodeId)
    requires |Connections(nodes, p, id)| == |Outgoing(nodes, p, id)|
    ensures |Connections(nodes, p + [e], id)| == |Outgoing(nodes, p + [e], id)|
  {
    ConnectionsSnoc(nodes, p, e, id);
    OutgoingSnoc(nodes, p, e, id);
  }

  /** In a valid store every edge out of a node gives a connection: the targets of
      the edges out of `id` are all listed. */
  lemma ConnectionsComplete(s: Store, id: NodeId, k: nat)
    requires Valid(s) && k < |s.edges| && s.edges[k].source == id
    ensures exists n :: n in s.nodes && n.id == s.edges[k].target &&
              Connection(n.name, n.entityType, s.edges[k].relType) in Connections(s.nodes, s.edges, id)
  {
    assert s.edges[k] in s.edges;
    var n := NodeWithId(s.nodes, s.edges[k].target).value;
    assert ConnectionOf(s.nodes, s.edges[k]) == Some(Connection(n.name, n.entityType, s.edges[k].relType));
  }

  /** A node of the result with its connections: the node's own columns, and one
      connection at most per edge of the store. */
  function HitOf(s: Store, n: Node): (h: Hit)
    ensures h.entity == n.name && h.entityType == n.entityType && h.description == n.description
    ensures |h.connections| <= |s.edges|
  {
    Hit(n.name, n.entityType, n.description, Connections(s.nodes, s.edges, n.id))
  }

  /** An order the database may scan the nodes in: every position once. */
  predicate IsScan(s: Store, scan: seq<nat>)
  {
    && (forall k :: 0 <= k < |scan| ==> scan[k] < |s.nodes|)
    && (forall k, l :: 0 <= k < l < |scan| ==> scan[k] != scan[l])
    && (forall i :: 0 <= i < |s.nodes| ==> i in scan)
  }

  /** The positions of `scan` whose node matches the query, in scan order. */
  function Matching(s: Store, scan: seq<nat>, query: string): (r: seq<nat>)
    requires forall k :: 0 <= k < |scan| ==> scan[k] < |s.nodes|
    ensures forall k :: 0 <= k < |r| ==> r[k] < |s.nodes|
    ensures forall i :: i in r <==> i in scan && NodeMatches(s.nodes[i], query)
    ensures (forall k, l :: 0 <= k < l < |scan| ==> scan[k] != scan[l]) ==>
              forall k, l :: 0 <= k < l < |r| ==> r[k] != r[l]
  {
    if scan == [] then []
    else
      var p := scan[..|scan| - 1];
      var i := scan[|scan| - 1];
      var prev := Matching(s, p, query);
      assert forall j :: j in scan <==> j in p || j == i;
      if NodeMatches(s.nodes[i], query) then prev + [i] else prev
  }

  /** The rows of the keyword query: the first three matching nodes the scan meets. */
  function SearchRows(s: Store, scan: seq<nat>, query: string): (rows: seq<nat>)
    requires IsScan(s, scan)
    ensures |rows| <= SearchLimit && rows <= Matching(s, scan, query)
    ensures |rows| < SearchLimit ==> rows == Matching(s, scan, query)
    ensures forall k :: 0 <= k < |rows| ==> rows[k] < |s.nodes|
  {
    var m := Matching(s, scan, query);
    if |m| <= SearchLimit then m else m[..SearchLimit]
  }

  /** At most three rows, each a distinct matching node, and when fewer than three
      come back every matching node is among them. */
  lemma SearchRowsSpec(s: Store, scan: seq<nat>, query: string)
    requires IsScan(s, scan)
    ensures var rows := SearchRows(s, scan, query);
            && |rows| <= SearchLimit
            && (forall k :: 0 <= k < |rows| ==> rows[k] < |s.nodes| && NodeMatches(s.nodes[rows[k]], query))
            && (forall k, l :: 0 <= k < l < |rows| ==> rows[k] != rows[l])
            && (|rows| < SearchLimit ==>
                  forall i :: 0 <= i < |s.nodes| && NodeMatches(s.nodes[i], query) ==> i in rows)
  {
    var m := Matching(s, scan, query);
    var rows := SearchRows(s, scan, query);
    forall k | 0 <= k < |rows| ensures rows[k] < |s.nodes| && NodeMatches(s.nodes[rows[k]], query) {
      assert rows[k] in m;
    }
    if |rows| < SearchLimit {
      forall i | 0 <= i < |s.nodes| && NodeMatches(s.nodes[i], query) ensures i in rows {
        assert i in scan;
      }
    }
  }

  /** `search`: the matching rows, each with its outgoing connections. */
  method KeywordSearch(s: Store, scan: seq<nat>, query: string) returns (results: seq<Hit>)
    requires IsScan(s, scan)
    ensures var rows := SearchRows(s, scan, query);
            |results| == |rows| && forall k :: 0 <= k < |rows| ==> results[k] == HitOf(s, s.nodes[rows[k]])
  {
    var rows := SearchRows(s, scan, query);
    results := CollectHits(s, rows);
  }

  /** The loop both handlers run over the fetched rows: each node with its
      connections, in row order. */
  method CollectHits(s: Store, rows: seq<nat>) returns (results: seq<Hit>)
    requires forall k :: 0 <= k < |rows| ==> rows[k] < |s.nodes|
    ensures |results| == |rows|
    ensures forall k :: 0 <= k < |rows| ==> results[k] == HitOf(s, s.nodes[rows[k]])
  {
    results := [];
    for k := 0 to |rows|
      invariant |results| == k
      invariant forall j :: 0 <= j < k ==> results[j] == HitOf(s, s.nodes[rows[j]])
    {
      var n := s.nodes[rows[k]];
      var connections := Connections(s.nodes, s.edges, n.id);
      results := results + [Hit(n.name, n.entityType, n.description, connections)];
    }
  }

  /** The nodes with an embedding ranked by distance to the query vector: each such
      position once and no other. */
  predicate IsRanking(s: Store, ranking: seq<nat>)
  {
    && (forall k :: 0 <= k < |ranking| ==> ranking[k] < |s.nodes| && s.nodes[ranking[k]].embedding.Some?)
    && (forall k, l :: 0 <= k < l < |ranking| ==> ranking[k] != ranking[l])
    && (forall i :: 0 <= i < |s.nodes| && s.nodes[i].embedding.Some? ==> i in ranking)
  }

  /** The request's `limit`: missing, JSON `null`, or a number. */
  datatype LimitArg = Absent | Null | Given(value: int)

  /** `data.get('limit', 5)` as the `LIMIT` clause receives it: a missing key gives 5,
      and `null` gives `LIMIT NULL`, which is no limit at all (`None`). */
  function LimitOf(limit: LimitArg): (r: Option<int>)
    ensures r.None? <==> limit.Null?
    ensures limit.Absent? ==> r == Some(DefaultLimit)
    ensures limit.Given? ==> r == Some(limit.value)
  {
    match limit
    case Absent => Some(DefaultLimit)
    case Null => None
    case Given(n) => Some(n)
  }

  /** The rows of the vector query: the first `limit` nodes of the ranking. */
  function SemanticRows(ranking: seq<nat>, limit: nat): (rows: seq<nat>)
    ensures |rows| <= limit && rows <= ranking
    ensures |rows| < limit ==> rows == ranking
  {
    if |ranking| <= limit then ranking else ranking[..limit]
  }

  /** At most `limit` rows, each a distinct node with an embedding, and when fewer
      come back every node with an embedding is among them. */
  lemma SemanticRowsSpec(s: Store, ranking: seq<nat>, limit: nat)
    requires IsRanking(s, ranking)
    ensures var rows := SemanticRows(ranking, limit);
            && |rows| <= limit
            && (forall k :: 0 <= k < |rows| ==> rows[k] < |s.nodes| && s.nodes[rows[k]].embedding.Some?)
            && (forall k, l :: 0 <= k < l < |rows| ==> rows[k] != rows[l])
            && (|rows| < limit ==> forall i :: 0 <= i < |s.nodes| && s.nodes[i].embedding.Some? ==> i in rows)
  {
    var rows := SemanticRows(ranking, limit);
    assert forall k :: 0 <= k < |rows| ==> rows[k] == ranking[k];
  }

  /** `semantic_search`: an error when the query gives no embedding or the limit is
      negative, otherwise the first `limit` ranked nodes (all of them for a `null`
      limit) with their outgoing connections. */
  method SemanticSearch(s: Store, provider: string -> Option<Vector>, query: string,
                        limit: LimitArg, ranking: seq<nat>) returns (r: Result<seq<Hit>>)
    requires IsRanking(s, ranking)
    ensures !Truthy(GetEmbedding(provider, query)) ==> r == Err(EmbeddingFailed)
    ensures Truthy(GetEmbedding(provider, query)) && LimitOf(limit).Some? && LimitOf(limit).value < 0 ==>
              r == Err(NegativeLimit)
    ensures Truthy(GetEmbedding(provider, query)) && LimitOf(limit).Some? && LimitOf(limit).value >= 0 ==>
              var rows := SemanticRows(ranking, LimitOf(limit).value);
              r.Ok? && |r.value| == |rows| &&
              forall k :: 0 <= k < |rows| ==> r.value[k] == HitOf(s, s.nodes[rows[k]])
    ensures Truthy(GetEmbedding(provider, query)) && LimitOf(limit).None? ==>
              r.Ok? && |r.value| == |ranking| &&
              forall k :: 0 <= k < |ranking| ==> r.value[k] == HitOf(s, s.nodes[ranking[k]])
  {
    var queryEmbedding := GetEmbedding(provider, query);
    if !Truthy(queryEmbedding) {
      return Err(EmbeddingFailed);
    }
    var rows := ranking;
    var cap := LimitOf(limit);
    if cap.Some? {
      if cap.value < 0 {
        return Err(NegativeLimit);
      }
      rows := SemanticRows(ranking, cap.value);
    }
    var results := CollectHits(s, rows);
    r := Ok(results);
  }

  /** A blank query never reaches the database: it is answered with the embedding
      error whatever the model and the store. */
  lemma SemanticSearchBlank(provider: string -> Option<Vector>, query: string)
    requires forall i :: 0 <= i < |query| ==> IsSpace(query[i])
    ensures !Truthy(GetEmbedding(provider, query))
  {
    GetEmbeddingBlank(provider, query);
  }
}
