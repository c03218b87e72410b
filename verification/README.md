# GraphRAG graph store, modelled in Dafny

This project models the graph-store core of the GraphRAG API service (`graphrag-api/app.py`,
and the stand-alone `deduplicate` in `graphrag-api/app_fix.py`). The PostgreSQL/YugabyteDB
tables `graph_nodes` and `graph_edges` become one in-memory value `Store(nodes, edges, nextId)`.
Each HTTP handler is one atomic step on that value.

- `common.dfy` (module `Common`) holds `Option`, the error `Result`, the opaque embedding `Vector`,
  Python truthiness of an embedding, and SQL `LOWER` on ASCII letters.
- `embedding.dfy` (module `Embedding`) models the text cleaning of `get_embedding`
  (`text.replace("\n", " ").strip()`, then `None` for an empty text). The embedding model
  itself is a parameter `provider: string -> Option<Vector>`.
- `graph_store.dfy` (module `GraphStore`) holds the two tables and the store invariant `Valid`:
  unique ids below `nextId`, unique names, and edges between existing nodes.
  Every SQL statement of the core is a function with a contract:
  - the upsert `INSERT ... ON CONFLICT (entity_name) DO UPDATE SET description = COALESCE(...)`;
  - the name lookup;
  - the conditional edge insert `WHERE NOT EXISTS`;
  - the two endpoint `UPDATE`s;
  - the node `DELETE` and the self-loop `DELETE`.
- `ingestion.dfy` (module `Ingestion`) models `batch_insert` and `batch_insert_with_embeddings`.
  The handlers are methods with the source's loops:
  - the entity loop fills the `entity_ids` map and counts embeddings;
  - the relationship loop resolves names through the map and then the store, inserts edges
    whose ordered pair is new, and counts them.
  The methods are proved equal to the specification function `Ingest` (a fold of upserts, then
  a fold of edge inserts), and the properties of the batch are lemmas about `Ingest`.
- `search.dfy` (module `Search`) models `search` and `semantic_search`:
  - SQL `LIKE`/`ILIKE` with the pattern `%query%`;
  - the `LIMIT 3` and `LIMIT limit` caps;
  - the outgoing one-hop `connections`;
  - the error answer when the query gives no embedding.
  The order the database returns rows in (a table scan, or the nearest-neighbour ranking) is a
  parameter constrained by a predicate.
- `visualize.dfy` (module `Visualize`) models `visualize`: the 1000 most recent nodes, the
  display defaults (`Unknown`, `''`, weight `1.0`), and at most 2000 edges touching a listed node.
- `dedup.dfy` (module `Dedup`) models `deduplicate`, which is the same code in both files.
  `order` is the row order of `ORDER BY LOWER(entity_name), created_at`. The method has the
  source's loops:
  - the grouping loop builds `duplicates` in key-insertion order;
  - the merge loop, and for every group of more than one node an inner loop, rewrites both
    endpoints and deletes the merged node;
  - the self-loop delete ends the pass.
  It is proved equal to `Deduplicated`: delete every merged id, relabel every edge endpoint
  through the merge map `Canon`, then drop the self-loops.
- `dedup_properties.dfy` (module `DedupProperties`) proves what the pass promises:
  - no two survivors share a lower-cased name;
  - each survivor is the earliest-created node of its name;
  - every name keeps a node;
  - every edge endpoint is rewritten to the survivor of its group, and nothing else changes;
  - no self-loop is left, and the two counters are exact;
  - a second pass changes nothing.

Three points of the code are easy to misread, and the model follows the code in each:

- On a name conflict, `graphrag-api/app.py:145` stores `COALESCE(EXCLUDED.description,
  graph_nodes.description)`. A non-null incoming description replaces the stored one, and the
  stored one is kept only when the incoming one is null.
- `deduplicate` rewrites edge endpoints unconditionally (`graphrag-api/app_fix.py:39-50`), with no
  check for an edge already joining the same ordered pair. Edges are a sequence, and the model
  does not claim that one edge per ordered pair survives the pass.
- Cleaning (`graphrag-api/app.py:47`) only replaces newlines and strips the two ends. Inner runs
  of whitespace are kept as they are.

## Model

| member | source | states |
|---|---|---|
| Common.Lower | graphrag-api/app.py:460 | `LOWER(entity_name)`: same length, each character lower-cased on its own |
| Embedding.ReplaceNewlines | graphrag-api/app.py:47 | every `\n` becomes a space; every other character and the length are kept |
| Embedding.SpaceEnd | graphrag-api/app.py:47 | the first non-whitespace position at or after `k`: only whitespace is skipped |
| Embedding.TrimEnd | graphrag-api/app.py:47 | the end of the prefix once its trailing whitespace is dropped: only whitespace is cut |
| Embedding.StripBounds | graphrag-api/app.py:47 | `strip()` leaves the slice between the leading and trailing whitespace runs; the slice starts and ends with non-whitespace |
| Embedding.Clean | graphrag-api/app.py:47 | the cleaned text is never longer than the input, and a non-empty one starts and ends with a character that is not whitespace; CleanBounds, CleanNoNewline, CleanEmpty and CleanIdempotent state the rest |
| Embedding.CleanBounds | graphrag-api/app.py:47 | the cleaned text is a slice of the newline-replaced text, with only whitespace cut off and non-whitespace at both ends |
| Embedding.CleanSlice | graphrag-api/app.py:47 | the same, stated with the bounds quantified |
| Embedding.CleanNoNewline | graphrag-api/app.py:47 | no newline survives cleaning |
| Embedding.CleanEmpty | graphrag-api/app.py:46-49 | cleaning yields the empty text exactly when the input is all whitespace (both directions) |
| Embedding.CleanIdempotent | graphrag-api/app.py:47 | cleaning a cleaned text changes nothing |
| Embedding.GetEmbedding | graphrag-api/app.py:39-56 | a vector is returned only for a non-empty cleaned text, and it is the provider's answer for the cleaned text |
| Embedding.GetEmbeddingBlank | graphrag-api/app.py:46-49 | a text gives `None` without reaching the model exactly when it is all whitespace; otherwise the model sees the cleaned text |
| GraphStore.IndexOfName | graphrag-api/app.py:158-159 | finds a row with the name when one exists, and reports none only when no row has it |
| GraphStore.Lookup | graphrag-api/app.py:158-161 | `SELECT id ... WHERE entity_name = %s` returns only ids present in the table |
| GraphStore.LookupFinds | graphrag-api/app.py:157-167 | under the unique-name constraint the lookup succeeds exactly when a row has the name, and returns that row's id |
| GraphStore.Upsert | graphrag-api/app.py:141-150 | on a conflict: no new row, the existing id returned, description and embedding replaced only by non-null values, type and creation time kept, other rows unchanged. Otherwise exactly one appended row with a fresh id. Edges untouched |
| GraphStore.UpsertValid | graphrag-api/app.py:141-150 | an upsert keeps the store invariant, adds no id besides the returned one, and grows the table by one row only for a new name |
| GraphStore.UpsertLookup | graphrag-api/app.py:146-150 | afterwards the name resolves to the returned id, which is the existing id if the name was present; every other name resolves as before |
| GraphStore.UpsertRow | graphrag-api/app.py:215-231 | effect on an existing row: its id, name, type and creation time are kept, and its description and embedding follow the COALESCE/overwrite rules; a row with another name is unchanged |
| GraphStore.InsertEdgeIfAbsent | graphrag-api/app.py:169-180 | an edge is appended (rowcount 1) exactly when no edge has the same ordered pair, whatever its type; old edges and unique pairs are kept |
| GraphStore.SetSource | graphrag-api/app.py:481-485 | exactly the edges whose source is `from` get source `to`; nothing else changes |
| GraphStore.SetTarget | graphrag-api/app.py:487-491 | exactly the edges whose target is `from` get target `to`; nothing else changes |
| GraphStore.Without | graphrag-api/app.py:493 | keeps exactly the rows whose id is not deleted; keeps unique ids and names |
| GraphStore.DeleteNode | graphrag-api/app.py:493 | `DELETE FROM graph_nodes WHERE id = %s` removes exactly the rows with that id, one row when the id is present |
| GraphStore.DeleteOneCount | graphrag-api/app.py:493-494 | deleting a present id removes exactly one row |
| GraphStore.WithoutAbsent | graphrag-api/app.py:493 | deleting an absent id changes nothing |
| GraphStore.ConsDistinct | graphrag-api/app.py:493 | filtering keeps ids and names distinct |
| GraphStore.DistinctIdsTail | graphrag-api/app.py:493 | the rows after the first of a distinct-id table are distinct and lack the first id |
| GraphStore.HasIdTail | graphrag-api/app.py:493 | an id is present when it is the first row's or the rest's |
| GraphStore.DeleteSelfLoops | graphrag-api/app.py:496-500 | the result has no self-loop, keeps exactly the edges that are not self-loops, its length plus the row count is the old length, and a loop-free table is left unchanged with count 0 |
| GraphStore.DeleteSelfLoopsCount | graphrag-api/app.py:496-500 | every edge that is not a self-loop is kept as often as it occurs, and every self-loop is dropped; with the length clause this makes the row count exactly the number of self-loops, duplicates included |
| Ingestion.RelTypeOf | graphrag-api/app.py:178 | `rel.get('type', 'related_to')`: the given type when the key is present, `related_to` otherwise |
| Ingestion.WeightOf | graphrag-api/app.py:178 | `rel.get('weight', 1.0)`: the given weight when the key is present, 1.0 otherwise |
| Ingestion.EmbeddingText | graphrag-api/app.py:211 | the text embedded for an entity: the name and a space lead, then the type or nothing, a space, and the description or nothing at the end |
| Ingestion.StoredVector | graphrag-api/app.py:211-214 | the upsert writes an embedding exactly when the handler computes embeddings and `get_embedding` returns a truthy vector |
| Ingestion.CountEmbedded | graphrag-api/app.py:207-223 | `embeddings_created` is at most the number of entities, and 0 without embeddings |
| Ingestion.UpsertAll | graphrag-api/app.py:140-150 | the store after the entity loop, which the loops are proved to compute: the edge table is untouched and each entity adds at most one row; UpsertAllValid, UpsertAllName, UpsertAllCount, UpsertAllExisting and UpsertAllNew state the rest |
| Ingestion.UpsertAllValid | graphrag-api/app.py:140-150 | the entity loop keeps the store invariant and the edge table, and keeps the id, name, type and creation time of every existing row |
| Ingestion.UpsertAllName | graphrag-api/app.py:140-150 | afterwards a name is present exactly when it was present before or is named in the batch |
| Ingestion.UpsertAllKeepsId | graphrag-api/app.py:140-150 | a name already present keeps its id |
| Ingestion.UpsertAllCount | graphrag-api/app.py:140-150 | exactly one node is created per name new to the store, however often it repeats in the batch |
| Ingestion.UpsertAllGrowth | graphrag-api/app.py:140-150 | one more entity adds a node exactly when its name is new to the store and to the batch so far |
| Ingestion.NewNamesStep | graphrag-api/app.py:140-150 | the set of new names grows by one exactly when the next entity's name is new |
| Ingestion.UpsertAllNextId | graphrag-api/app.py:140-150 | the model's supply of fresh ids advances once per created row, that is once per new name |
| Ingestion.UpsertAllExisting | graphrag-api/app.py:209-234 | an existing row ends with the last non-null description, and the last computed vector, given for its name in the batch; an unnamed row is unchanged |
| Ingestion.FinalUntouched | graphrag-api/app.py:141-150 | a name the batch does not mention keeps its prior description and embedding |
| Ingestion.UpsertAllNew | graphrag-api/app.py:140-150 | every row the entity loop adds has a name new to the store, an id the store did not have, the type of the batch's first entity of that name (later conflicts keep it), the last non-null description and last stored vector for the name, and `created_at` of the request |
| Ingestion.AddedRowKept | graphrag-api/app.py:141-150 | a row the batch added keeps that description through one more upsert: a conflict on it keeps its id, type and time and replaces only the description and embedding, by non-null values |
| Ingestion.AddedRowAppended | graphrag-api/app.py:141-147 | the row one more upsert appends meets the same description for the longer batch: a new name and id, and the entity is the first, and so far the last, of its name |
| Ingestion.UpsertAllSnoc | graphrag-api/app.py:140-150 | the entity fold grows by exactly one upsert per entity, and the embedding count by one when a vector is stored |
| Ingestion.LinkOne | graphrag-api/app.py:153-180 | one relationship adds at most one edge. An edge is added only when both names resolve, with type defaulting to `related_to` and weight to `1.0`. An unresolved relationship leaves the table unchanged. Unique pairs and endpoints within the table are kept |
| Ingestion.LinkAll | graphrag-api/app.py:152-180 | the relationship pass only appends edges, as many as it counts, and keeps unique pairs and endpoints within the table |
| Ingestion.LinkAllSnoc | graphrag-api/app.py:153-180 | the relationship fold grows by one `LinkOne` step per relationship |
| Ingestion.LinkAllResolved | graphrag-api/app.py:169-180 | afterwards every relationship whose two names resolve has an edge for its ordered pair |
| Ingestion.LinkAllOrigin | graphrag-api/app.py:169-180 | every created edge comes from a relationship of the batch, with its resolved ids, type and weight |
| Ingestion.LinkAllReplay | graphrag-api/app.py:169-180 | when every resolvable pair already has an edge, the pass creates nothing and counts 0 |
| Ingestion.UpsertEntity | graphrag-api/app.py:209-234 | one turn of the entity loop is the upsert with the stored-vector rule, and reports whether a vector was stored |
| Ingestion.UpsertNext | graphrag-api/app.py:140-150 | one turn keeps the loop invariant: the store is the fold so far, the map holds exactly the batch names with their store ids, and the embedding count is exact |
| Ingestion.UpsertEntities | graphrag-api/app.py:139-150 | the entity loop yields the fold of upserts, a map from exactly the batch's names to their ids in the store, and the exact embedding count |
| Ingestion.UpsertKeepsIds | graphrag-api/app.py:149-150 | after an upsert every recorded `name -> id` pair, including the new one, still resolves in the store |
| Ingestion.KeysUpdate | graphrag-api/app.py:150 | recording a name adds exactly that name to the map's keys |
| Ingestion.ResolveIsLookup | graphrag-api/app.py:157-167 | resolution against the node table is the store lookup |
| Ingestion.ResolveId | graphrag-api/app.py:157-167 | after resolution a name is in the map exactly when the store has it; the map only grows and stays consistent with the store |
| Ingestion.LinkNext | graphrag-api/app.py:153-180 | one turn of the relationship loop is one `LinkOne` step on the edge table and the counter, and keeps the map consistent |
| Ingestion.InsertRelationships | graphrag-api/app.py:152-180 | the relationship loop leaves the nodes alone and produces exactly the relationship fold and its count |
| Ingestion.Ingest | graphrag-api/app.py:129-190 | the store a batch commits and its `edges_created`, which both handlers are proved to compute: at most one new row per entity, the old edges kept in place, and exactly `edges_created` edges appended; IngestValid, IngestName, IngestExisting, IngestNew, IngestHoldsPayload and IngestReplay state the rest |
| Ingestion.IngestValid | graphrag-api/app.py:129-193 | a batch keeps the store invariant and the existing edges, appends exactly `edges_created` edges, keeps pairs unique, and adds one node per new name |
| Ingestion.IngestName | graphrag-api/app.py:139-167 | after a batch a name resolves exactly when it did before or is in the batch, and old names keep their ids |
| Ingestion.IngestHoldsPayload | graphrag-api/app.py:139-180 | after a batch every entity is present and every resolvable relationship has its edge |
| Ingestion.IngestReplay | graphrag-api/app.py:169-180 | a payload the store already holds creates no row and no edge, and reports `edges_created = 0` |
| Ingestion.ReplayPair | graphrag-api/app.py:157-176 | for a payload the store holds, a relationship that resolves after the entity loop already has its edge |
| Ingestion.IngestTwice | graphrag-api/app.py:169-189 | sending the same payload twice: the second request creates nothing and reports `edges_created = 0` |
| Ingestion.IngestExisting | graphrag-api/app.py:209-234 | for every existing node: id, name, type and creation time are kept, and the description and embedding follow the batch's last non-null values |
| Ingestion.IngestNew | graphrag-api/app.py:140-150 | for every name new to the store the batch creates exactly one row, with an id the store did not have, the first entity's type, the last non-null description, the last stored vector, and the request's time |
| Ingestion.BatchInsert | graphrag-api/app.py:129-193 | `batch_insert` commits `Ingest` without embeddings, reports its edge count, and reports `entities_processed = len(entities)` even for repeated names |
| Ingestion.BatchInsertKeepsEmbeddings | graphrag-api/app.py:141-147 | `batch_insert` never changes a stored embedding |
| Ingestion.NoVectorWithoutEmbeddings | graphrag-api/app.py:141-147 | without embeddings the final embedding of every name is the stored one |
| Ingestion.BatchInsertWithEmbeddings | graphrag-api/app.py:195-279 | commits `Ingest` with embeddings, and reports `len(entities)`, the number of truthy embeddings, and the edge count |
| Search.LikeAnything | graphrag-api/app.py:98 | `%` matches every text |
| Search.LikePrefix | graphrag-api/app.py:98 | a literal followed by `%` matches exactly the texts it prefixes |
| Search.LikeSkip | graphrag-api/app.py:98 | a leading `%` matches exactly when the rest matches some suffix |
| Search.Like | graphrag-api/app.py:98-100 | SQL `LIKE` with `%` and `_`: a pattern without wildcards matches exactly the equal text; LikeAnything, LikePrefix, LikeSkip and LikeContains state the rest |
| Search.LowerLiteral | graphrag-api/app.py:98-100 | lower-casing does not put a wildcard into a pattern that had none |
| Search.ILike | graphrag-api/app.py:98-100 | `ILIKE`: a pattern without wildcards matches exactly the texts equal to it up to ASCII case |
| Search.LikeContains | graphrag-api/app.py:98-100 | `%q%` with a literal `q` matches exactly the texts containing `q` |
| Search.ILikeContains | graphrag-api/app.py:98-100 | `ILIKE '%q%'` matches exactly when the lower-cased text contains the lower-cased query |
| Search.NodeMatches | graphrag-api/app.py:98-100 | the `WHERE` of the keyword query: for a query without wildcards, a node matches exactly when its name, or its non-null description, contains the query up to case |
| Search.NodeWithId | graphrag-api/app.py:107 | the join finds a node with the id, and finds none only when no node has it |
| Search.ConnectionOf | graphrag-api/app.py:104-113 | an edge gives a connection row exactly when its target is a node, and the row carries that node's name and type and the edge's type |
| Search.Connections | graphrag-api/app.py:104-114 | every connection comes from an edge whose source is the node (outgoing, one hop); every such edge with a joinable target gives one; ConnectionsCount and ConnectionsLength pin how many |
| Search.ConnectionsSnoc | graphrag-api/app.py:104-113 | one more edge adds its connection row at the end exactly when it leaves the node and its target is a node |
| Search.ConnectionsCountStep | graphrag-api/app.py:104-113 | one more edge keeps every connection listed once per edge that gives it |
| Search.ConnectionsCount | graphrag-api/app.py:104-113 | each connection is listed exactly as often as edges out of the node give it, repeated edges included |
| Search.ConnectionsLengthStep | graphrag-api/app.py:104-113 | one more edge keeps the list one row per outgoing edge with a joinable target |
| Search.ConnectionsLength | graphrag-api/app.py:104-113 | the list has exactly one row per edge out of the node whose target is a node |
| Search.ConnectionsComplete | graphrag-api/app.py:104-114 | in a valid store every outgoing edge is listed with its target's name and type and its relationship type |
| Search.HitOf | graphrag-api/app.py:116-121 | one entry of `results`: the node's name, type and description, and at most one connection per edge of the store |
| Search.Matching | graphrag-api/app.py:95-100 | the scan's positions whose node matches name or description, each once |
| Search.SearchRows | graphrag-api/app.py:95-100 | at most 3 rows, the first matching rows of the scan, and all of them when fewer than 3 |
| Search.SearchRowsSpec | graphrag-api/app.py:95-100 | at most 3 distinct nodes, each matching the query; every matching node is included when fewer than 3 come back |
| Search.CollectHits | graphrag-api/app.py:102-121 | one result per fetched row, in order, each that node with its connections |
| Search.KeywordSearch | graphrag-api/app.py:86-127 | `search` returns exactly the hits of the keyword rows |
| Search.LimitOf | graphrag-api/app.py:287 | `data.get('limit', 5)` as `LIMIT` receives it: a missing key gives 5, `null` gives no cap, and a number is passed on as is |
| Search.SemanticRows | graphrag-api/app.py:298-309 | at most `limit` rows, a prefix of the ranking, and the whole ranking when fewer come back |
| Search.SemanticRowsSpec | graphrag-api/app.py:298-309 | at most `limit` distinct nodes, each with an embedding, and all of them when fewer than `limit` come back |
| Search.SemanticSearch | graphrag-api/app.py:281-340 | the error `Failed to generate embedding` when the query gives no truthy embedding, and an error on a negative limit. Otherwise the hits of the first `limit` ranked rows, where a missing limit is 5 and a `null` limit (`LIMIT NULL`) returns the whole ranking |
| Search.SemanticSearchBlank | graphrag-api/app.py:289-292 | a blank query is always answered with the embedding error |
| Visualize.VNodeOf | graphrag-api/app.py:399-407 | one entry of `nodes`: the node's id and name, a type that is never empty and is the stored type whenever that is non-empty, and the stored description when there is one |
| Visualize.ShownWeight | graphrag-api/app.py:429 | the shown weight is never 0; a non-zero weight is shown as is |
| Visualize.RecentRows | graphrag-api/app.py:392-397 | at most 1000 rows, the newest first, and all rows when fewer come back |
| Visualize.Touching | graphrag-api/app.py:412-422 | exactly the edges with a listed source or target; TouchingCount pins how often each appears |
| Visualize.TouchingCount | graphrag-api/app.py:412-422 | each edge with a listed endpoint comes back as often as the table holds it, and no other edge comes back |
| Visualize.VEdgeOf | graphrag-api/app.py:424-432 | one entry of `edges`: endpoints and type as stored, and a weight that is never 0 and equals a non-zero stored weight |
| Visualize.ShownEdges | graphrag-api/app.py:409-434 | the edge list has at most 2000 entries, and none when no node is listed; EdgesSpec states the rest |
| Visualize.Visualize | graphrag-api/app.py:385-446 | the answer has at most 1000 nodes and 2000 edges, and an empty store gives an empty graph; VisualizeNodes, VisualizeNewest and VisualizeEdges state the rest |
| Visualize.ShownNodes | graphrag-api/app.py:392-407 | one display node per fetched row, in recency order |
| Visualize.VisualizeNodes | graphrag-api/app.py:392-407 | at most 1000 nodes, each a store node with display defaults, and every node when fewer than 1000 are listed |
| Visualize.ShownNodesFrom | graphrag-api/app.py:392-407 | every listed node shows a node of the store |
| Visualize.ShownNodeFrom | graphrag-api/app.py:392-407 | a given listed node shows a node of the store |
| Visualize.ShownNodesAll | graphrag-api/app.py:392-407 | when fewer than 1000 are listed, every node of the store is listed |
| Visualize.ShownNodeAll | graphrag-api/app.py:392-407 | when fewer than 1000 are listed, a given node of the store is listed |
| Visualize.VisualizeNewest | graphrag-api/app.py:392-397 | no node is left out while an older node is listed |
| Visualize.ListedAt | graphrag-api/app.py:392-397 | a listed node sits at a position of the recency order below the cap |
| Visualize.RecentAt | graphrag-api/app.py:395 | every node has a position in the recency order |
| Visualize.VisualizeEdges | graphrag-api/app.py:409-434 | at most 2000 edges, each a store edge touching a listed node, and all such edges when fewer than 2000 come back |
| Visualize.EdgesSpec | graphrag-api/app.py:409-434 | the same for any node list; no listed node means no edges |
| Dedup.Rows | graphrag-api/app_fix.py:11-20 | one `(LOWER(name), id, name)` row per position of the query order |
| Dedup.Group | graphrag-api/app_fix.py:24-28 | `duplicates[key]` after the grouping loop, never longer than the rows; GroupMembers, GroupDistinct and GroupFirst state its contents |
| Dedup.Keys | graphrag-api/app_fix.py:24-31 | the keys of `duplicates` in insertion order, no more than the rows; KeysShape states that they are the lower-cased names, each once |
| Dedup.GroupMembers | graphrag-api/app_fix.py:25-28 | an id is in a name's group exactly when a row with that lower-cased name carries it |
| Dedup.GroupDistinct | graphrag-api/app_fix.py:25-28 | a group lists no id twice |
| Dedup.GroupsDisjoint | graphrag-api/app_fix.py:25-28 | two different names' groups share no id |
| Dedup.GroupFirst | graphrag-api/app_fix.py:25-34 | a group's first id (`keep_id`) is carried by the first row with that name |
| Dedup.KeysShape | graphrag-api/app_fix.py:25-31 | the dictionary's keys are exactly the rows' lower-cased names, each once; other names have no group |
| Dedup.GroupRowsStep | graphrag-api/app_fix.py:25-28 | one more row adds its name as a new key if unseen and appends its id to its name's group |
| Dedup.GroupNext | graphrag-api/app_fix.py:26-28 | one turn of the grouping loop keeps `duplicates` equal to the groups of the rows seen |
| Dedup.GroupRows | graphrag-api/app_fix.py:20-28 | the grouping loop yields exactly the groups, keyed by exactly the lower-cased names in insertion order |
| Dedup.RedirectsShape | graphrag-api/app_fix.py:34-37 | merging a group redirects exactly its later ids, each to `keep_id` |
| Dedup.RedirectsFresh | graphrag-api/app_fix.py:37 | the next id of a group is not yet redirected nor a redirect target |
| Dedup.RedirectsNext | graphrag-api/app_fix.py:37-54 | one more merge adds exactly one redirection |
| Dedup.MergeMapAvoids | graphrag-api/app_fix.py:31-54 | an id outside the groups seen is neither redirected nor a redirect target |
| Dedup.MergeMapRow | graphrag-api/app_fix.py:31-54 | a row's id is merged exactly when its group was visited and it is not the group's first id, and it is merged into that first id |
| Dedup.MergeMapNext | graphrag-api/app_fix.py:31-54 | one more group adds its redirections only when it has more than one node |
| Dedup.GroupRedirectsOwn | graphrag-api/app_fix.py:32-50 | a group member is redirected exactly when it is not the first, and to the first |
| Dedup.GroupRedirectsOther | graphrag-api/app_fix.py:31-54 | a group never redirects an id outside it |
| Dedup.MergeMapFrom | graphrag-api/app_fix.py:31-54 | only ids of rows are redirected |
| Dedup.MergeMapRowIds | graphrag-api/app_fix.py:30-54 | every id the merges redirect is the id of a row |
| Dedup.Canon | graphrag-api/app_fix.py:30-54 | the merge map of the whole pass redirects only ids of listed nodes; NodeCanon and GroupSurvivor state where each goes |
| Dedup.RowsOfOrder | graphrag-api/app_fix.py:11-20 | the query rows carry distinct ids of the store |
| Dedup.Relabel | graphrag-api/app_fix.py:38-50 | both endpoints of every edge sent through the merge map: as many edges, each keeping its type and weight, and an empty map changes nothing |
| Dedup.RelabelStep | graphrag-api/app_fix.py:39-50 | the two `UPDATE`s for one more merged id equal relabelling with one more redirection |
| Dedup.WithoutStep | graphrag-api/app_fix.py:53 | deleting one more node equals filtering by one more id |
| Dedup.WithoutNothing | graphrag-api/app_fix.py:20-22 | filtering by no id keeps the table |
| Dedup.GroupMergeable | graphrag-api/app_fix.py:31-37 | a group of more than one node is ready to merge after the groups before it |
| Dedup.MergeStep | graphrag-api/app_fix.py:37-54 | one merge keeps the merge loop's state equal to the specification for one more redirection |
| Dedup.MergeStateStep | graphrag-api/app_fix.py:39-54 | the updates, delete and `merged += 1` for a fresh id keep the merge state |
| Dedup.MergeStateInit | graphrag-api/app_fix.py:20-22 | before the merge loop nothing is merged |
| Dedup.MergeOne | graphrag-api/app_fix.py:37-54 | one turn of the inner loop keeps the merge state for one more redirection |
| Dedup.MergeInto | graphrag-api/app_fix.py:34-54 | the inner loop merges every later id of the group into `keep_id` |
| Dedup.MergeIfDuplicated | graphrag-api/app_fix.py:32-54 | a group of one node is left untouched; a larger group is merged into its first id |
| Dedup.MergeGroup | graphrag-api/app_fix.py:31-54 | one turn of the merge loop advances the state to the merge map of one more key |
| Dedup.Deduplicated | graphrag-api/app_fix.py:3-74 | the store and counters the pass commits, which the method is proved to compute: `nextId` kept, no more nodes than before, and the edge count drops by exactly `self_refs`; DedupProperties states the rest |
| Dedup.Deduplicate | graphrag-api/app.py:451-513 | the pass commits `Deduplicated` and reports `merged` as the number of deleted nodes |
| DedupProperties.NodeCanon | graphrag-api/app_fix.py:31-54 | a node is merged exactly when it is not its group's first id, and it is merged into that id |
| DedupProperties.GroupHead | graphrag-api/app_fix.py:11-34 | `keep_id` is the id of an earliest-created node with the group's lower-cased name |
| DedupProperties.QueryPosition | graphrag-api/app_fix.py:11-18 | every node is listed by the query, with its own row |
| DedupProperties.QueryOrderSorted | graphrag-api/app_fix.py:17 | nodes of the same lower-cased name come in creation order |
| DedupProperties.CanonFrom | graphrag-api/app_fix.py:31-54 | only ids of nodes are merged |
| DedupProperties.Survivors | graphrag-api/app_fix.py:53 | the surviving nodes are exactly the store's nodes whose id was not merged |
| DedupProperties.GroupSurvivor | graphrag-api/app_fix.py:31-54 | every node's group has a survivor: unmerged, same lower-cased name, earliest-created, and the target of the node's redirection |
| DedupProperties.DedupDistinctLowerNames | graphrag-api/app.py:458-494 | no two surviving nodes share a lower-cased name |
| DedupProperties.DedupKeepsEarliest | graphrag-api/app.py:458-494 | every survivor is the earliest-created node of its lower-cased name |
| DedupProperties.KeepsEarliestAt | graphrag-api/app.py:458-494 | a given survivor is the earliest-created node of its lower-cased name |
| DedupProperties.DedupKeepsEveryName | graphrag-api/app_fix.py:31-54 | every lower-cased name of the store keeps a node |
| DedupProperties.EndpointRewrite | graphrag-api/app_fix.py:39-50 | an endpoint moves to a surviving node of its group, and an endpoint at a survivor stays |
| DedupProperties.DedupRewrite | graphrag-api/app_fix.py:39-50 | every edge keeps its type and weight; each endpoint moves to its group's survivor, and only merged endpoints move |
| DedupProperties.DedupEdges | graphrag-api/app_fix.py:56-61 | no self-loop is left. Each rewritten edge that is not a self-loop is kept as often as it occurs, so `self_refs` is exactly the number of self-loops after the rewrite, old ones and repeated ones included. The edge count drops by exactly `self_refs` |
| DedupProperties.DedupEdgeWithin | graphrag-api/app_fix.py:38-61 | every edge left by the pass joins two nodes left by the pass |
| DedupProperties.DedupValid | graphrag-api/app_fix.py:3-74 | the pass keeps the store invariant |
| DedupProperties.DedupSingleton | graphrag-api/app_fix.py:31-32 | a node alone with its lower-cased name is kept, and no edge endpoint moves to or from it |
| DedupProperties.SingletonEdge | graphrag-api/app_fix.py:31-50 | for a node alone with its lower-cased name, no endpoint of a given edge moves to or from it |
| DedupProperties.IdSet | graphrag-api/app_fix.py:53 | the set of the table's ids |
| DedupProperties.WithoutCount | graphrag-api/app_fix.py:52-54 | deleting a set of ids drops one row per id present |
| DedupProperties.CountStep | graphrag-api/app_fix.py:52-54 | one more id counts once when present |
| DedupProperties.LowerNamesTail | graphrag-api/app_fix.py:25-28 | the lower-cased names are the first row's and the rest's |
| DedupProperties.DistinctLowerCount | graphrag-api/app_fix.py:25-28 | nodes with pairwise different lower-cased names have as many names as nodes |
| DedupProperties.DedupMergedCount | graphrag-api/app.py:476-494 | `entities_merged` is the number of deleted nodes, and equals the node count minus the number of distinct lower-cased names (the sum of group sizes less one) |
| DedupProperties.DedupIdempotent | graphrag-api/app_fix.py:31-61 | a store without case-insensitive duplicates or self-loops is left unchanged, with both counters 0 |
| DedupProperties.DedupTwice | graphrag-api/app_fix.py:31-61 | a second pass, whatever row order it reads, changes nothing and reports `merged = 0` and `self_refs = 0` |

## Left out

- HTTP and Flask plumbing, CORS, JSON parsing, psycopg2 connections and cursors are not modelled. Each handler is one atomic transaction on the store value. A database error, the exception path and rollback are not modelled.
- The embedding model (SentenceTransformer loading, `model.encode`, the lazily created global embedder) is the parameter `provider`. A model that fails to load, or raises, is a provider that returns `None`.
- Cosine distance and `ORDER BY embedding <=> ...` are floating-point work. The nearest-neighbour order is the parameter `ranking`, constrained only to list each node with an embedding once. The `similarity` field of a result is not modelled.
- The row order of a query without `ORDER BY` (the keyword scan) is a parameter `scan`. The orders `ORDER BY created_at DESC` and `ORDER BY LOWER(entity_name), created_at` are parameters `recent` and `order` with the properties those clauses give, ties in either order.
- The connections query (`graphrag-api/app.py:104-109`) and the edge query of `visualize` (`graphrag-api/app.py:412-422`) have no `ORDER BY`. The model returns their rows in the order of the edge table, which is one order the engine may choose. For `visualize` this also decides which edges fall under the 2000 cap.
- `nextId` is the model's supply of fresh ids. Ids come from the column default of `graph_nodes.id`. The engine evaluates that default for every `INSERT ... ON CONFLICT`, including one that ends as an update, so its sequence may skip values. The model makes no claim about the engine's sequence, only that a new row gets an id no row has.
- `created_at` is the parameter `now` of an ingestion request: every row one request inserts gets the same time.
- `LOWER` and `ILIKE` fold ASCII letters only. The engine's collation and Unicode case rules are not modelled. `ILIKE` has no escape character: `\` is an ordinary character in the model.
- For the entity and relationship fields, a JSON `null` is treated like a missing key. Python would format a null type or description as `None` in the embedding text, and a null relationship type or weight would be inserted as SQL `NULL`; these cases are not modelled.
- Search.SemanticSearch: a `limit` sent as a string or a fractional number is coerced by the engine (`'5'`, `2.5`); the model takes only a missing key, `null` or an integer.
- Search.SemanticSearch: a negative `limit` is answered with an error message the model chooses, as the database's own message is not visible in the code.
- `visualize` sends ids as strings (`str(id)`); the model keeps them as numbers.
- The `entity_name` kept beside each id in the `duplicates` lists is never used by the code and is not modelled.
- Deduplication does not preserve one edge per ordered pair, and no lemma claims it does.
- Valid is a precondition of the handlers. Unique ids and unique names are database constraints: the id column's key, and the unique index on `entity_name` that `ON CONFLICT (entity_name)` (`graphrag-api/app.py:144`) relies on. That every edge joins existing nodes is no database guarantee here: it is an invariant that every modelled handler is proved to keep (`Ingestion.IngestValid`, `DedupProperties.DedupValid`), and the model assumes it of the store a request starts from.
- `health`, `add_embeddings_to_existing`, `doc-processor/app.py` and the embedding workers are not part of this model. They are status counters, file parsers and polling loops outside the graph-store core.
- Concurrency between requests (row locks, isolation levels, races between ingestion and deduplication) is not modelled. Every handler runs alone.
