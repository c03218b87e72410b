/** Batch ingestion: the handlers `batch_insert` and `batch_insert_with_embeddings`.
    Each handler is one transaction: it takes the store and returns the store it
    commits, together with its counters. */
module Ingestion {
  import opened Common
  import opened GraphStore
  import opened Embedding

  /** An element of the request's `entities` list; `None` is a missing key. */
  datatype Entity = Entity(name: string, entityType: Option<string>, description: Option<string>)

  /** An element of the request's `relationships` list; `None` is a missing key. */
  datatype Relationship = Relationship(source: string, target: string,
                                       relType: Option<string>, weight: Option<real>)

  datatype InsertReport = InsertReport(entitiesProcessed: nat, edgesCreated: nat)

  datatype EmbeddingInsertReport =
    EmbeddingInsertReport(entitiesProcessed: nat, embeddingsCreated: nat, edgesCreated: nat)

  const DefaultRelType: string := "related_to"
  const DefaultWeight: real := 1.0

  /** `rel.get('type', 'related_to')`. */
  function RelTypeOf(r: Relationship): (t: string)
    ensures r.relType.Some? ==> t == r.relType.value
    ensures r.relType.None? ==> t == DefaultRelType
  {
    if r.relType.Some? then r.relType.value else DefaultRelType
  }

  /** `rel.get('weight', 1.0)`. */
  function WeightOf(r: Relationship): (w: real)
    ensures r.weight.Some? ==> w == r.weight.value
    ensures r.weight.None? ==> w == DefaultWeight
  {
    if r.weight.Some? then r.weight.value else DefaultWeight
  }

  function OrEmpty(s: Option<string>): string
  {
    if s.Some? then s.value else ""
  }

  /** `f"{entity['name']} {entity.get('type', '')} {entity.get('description', '')}"`:
      the name and a space lead, the description (or nothing) ends the text, and the
      type (or nothing) sits between two spaces. */
  function EmbeddingText(e: Entity): (t: string)
    ensures |t| == |e.name| + |OrEmpty(e.entityType)| + |OrEmpty(e.description)| + 2
    ensures t[..|e.name|] == e.name && t[|e.name|] == ' '
    ensures t[|e.name| + 1..|e.name| + 1 + |OrEmpty(e.entityType)|] == OrEmpty(e.entityType)
    ensures t[|t| - |OrEmpty(e.description)| - 1] == ' '
    ensures t[|t| - |OrEmpty(e.description)|..] == OrEmpty(e.description)
  {
    e.name + " " + OrEmpty(e.entityType) + " " + OrEmpty(e.description)
  }

  /** The vector the entity's upsert stores: the embedding when ingestion computes
      embeddings and `get_embedding` returned a non-empty list, otherwise none (and
      the upsert then uses the statement without an embedding column). */
  function StoredVector(withEmbeddings: bool, provider: string -> Option<Vector>, e: Entity): (r: Option<Vector>)
    ensures r.Some? <==> withEmbeddings && Truthy(GetEmbedding(provider, EmbeddingText(e)))
  {
    if withEmbeddings && Truthy(GetEmbedding(provider, EmbeddingText(e)))
    then GetEmbedding(provider, EmbeddingText(e))
    else None
  }

  function Names(entities: seq<Entity>): set<string>
  {
    set e | e in entities :: e.name
  }

  /** The store after upserting every entity in order: the edge table is untouched,
      and each entity adds at most one row. */
  function UpsertAll(s: Store, entities: seq<Entity>, withEmbeddings: bool,
                     provider: string -> Option<Vector>, now: nat): (r: Store)
    ensures r.edges == s.edges
    ensures |s.nodes| <= |r.nodes| <= |s.nodes| + |entities|
    decreases |entities|
  {
    if entities == [] then s
    else
      var prev := UpsertAll(s, entities[..|entities| - 1], withEmbeddings, provider, now);
      var e := entities[|entities| - 1];
      Upsert(prev, e.name, e.entityType, e.description, StoredVector(withEmbeddings, provider, e), now).0
  }

  /** The entity pass keeps the store invariant and the edge table, and never changes
      the id, name, type or creation time of a node that was already there. */
  lemma {:induction false} UpsertAllValid(s: Store, entities: seq<Entity>, withEmbeddings: bool,
                                          provider: string -> Option<Vector>, now: nat)
    requires Valid(s)
    ensures var r := UpsertAll(s, entities, withEmbeddings, provider, now);
            && Valid(r)
            && r.edges == s.edges
            && |r.nodes| >= |s.nodes|
            && forall i :: 0 <= i < |s.nodes| ==>
                 && r.nodes[i].id == s.nodes[i].id && r.nodes[i].name == s.nodes[i].name
                 && r.nodes[i].entityType == s.nodes[i].entityType
                 && r.nodes[i].createdAt == s.nodes[i].createdAt
    decreases |entities|
  {
    if entities != [] {
      var p := entities[..|entities| - 1];
      var e := entities[|entities| - 1];
      UpsertAllValid(s, p, withEmbeddings, provider, now);
      var prev := UpsertAll(s, p, withEmbeddings, provider, now);
      var v := StoredVector(withEmbeddings, provider, e);
      UpsertValid(prev, e.name, e.entityType, e.description, v, now);
      assert UpsertAll(s, entities, withEmbeddings, provider, now) == Upsert(prev, e.name, e.entityType, e.description, v, now).0;
    }
  }

  /** The description a node named `name` ends with: the last non-null description
      given for that name in the batch, or `prior` when there is none. */
  function FinalDescription(entities: seq<Entity>, name: string, prior: Option<string>): Option<string>
  {
    if entities == [] then prior
    else
      var e := entities[|entities| - 1];
      if e.name == name && e.description.Some? then e.description
      else FinalDescription(entities[..|entities| - 1], name, prior)
  }

  /** The embedding a node named `name` ends with: the last vector computed for that
      name in the batch, or `prior` when there is none. */
  function FinalEmbedding(entities: seq<Entity>, withEmbeddings: bool, provider: string -> Option<Vector>,
                          name: string, prior: Option<Vector>): Option<Vector>
  {
    if entities == [] then prior
    else
      var e := entities[|entities| - 1];
      if e.name == name && StoredVector(withEmbeddings, provider, e).Some?
      then StoredVector(withEmbeddings, provider, e)
      else FinalEmbedding(entities[..|entities| - 1], withEmbeddings, provider, name, prior)
  }

  /** Number of entities whose `get_embedding` returned a vector. */
  function CountEmbedded(entities: seq<Entity>, withEmbeddings: bool, provider: string -> Option<Vector>): (r: nat)
    ensures r <= |entities|
    ensures !withEmbeddings ==> r == 0
  {
    if entities == [] then 0
    else
      CountEmbedded(entities[..|entities| - 1], withEmbeddings, provider) +
      (if StoredVector(withEmbeddings, provider, entities[|entities| - 1]).Some? then 1 else 0)
  }

  /** After the entity pass a name is in the store exactly when it was before or is
      the name of an entity of the batch. */
  lemma {:induction false} UpsertAllName(s: Store, entities: seq<Entity>, withEmbeddings: bool,
                                         provider: string -> Option<Vector>, now: nat, n: string)
    requires Valid(s)
    ensures Lookup(UpsertAll(s, entities, withEmbeddings, provider, now), n).Some? <==>
            Lookup(s, n).Some? || n in Names(entities)
    decreases |entities|
  {
    if entities != [] {
      var p := entities[..|entities| - 1];
      var e := entities[|entities| - 1];
      assert entities == p + [e];
      UpsertAllSnoc(s, p, e, withEmbeddings, provider, now);
      UpsertAllName(s, p, withEmbeddings, provider, now, n);
      UpsertAllValid(s, p, withEmbeddings, provider, now);
      UpsertLookup(UpsertAll(s, p, withEmbeddings, provider, now), e.name, e.entityType, e.description,
                   StoredVector(withEmbeddings, provider, e), now);
    }
  }

  /** A name already in the store keeps its id through the entity pass. */
  lemma {:induction false} UpsertAllKeepsId(s: Store, entities: seq<Entity>, withEmbeddings: bool,
                                            provider: string -> Option<Vector>, now: nat, n: string)
    requires Valid(s)
    ensures Lookup(s, n).Some? ==> Lookup(UpsertAll(s, entities, withEmbeddings, provider, now), n) == Lookup(s, n)
    decreases |entities|
  {
    if entities != [] {
      var p := entities[..|entities| - 1];
      var e := entities[|entities| - 1];
      assert entities == p + [e];
      UpsertAllSnoc(s, p, e, withEmbeddings, provider, now);
      UpsertAllKeepsId(s, p, withEmbeddings, provider, now, n);
      UpsertAllValid(s, p, withEmbeddings, provider, now);
      UpsertLookup(UpsertAll(s, p, withEmbeddings, provider, now), e.name, e.entityType, e.description,
                   StoredVector(withEmbeddings, provider, e), now);
    }
  }

  function NewNames(s: Store, entities: seq<Entity>): set<string>
  {
    set e | e in entities && Lookup(s, e.name).None? :: e.name
  }

  /** The entity pass creates exactly one node per name that was not yet in the store,
      however often the name repeats in the batch; in particular it creates no node
      when every name is already present. */
  lemma {:induction false} UpsertAllCount(s: Store, entities: seq<Entity>, withEmbeddings: bool,
                                          provider: string -> Option<Vector>, now: nat)
    requires Valid(s)
    ensures |UpsertAll(s, entities, withEmbeddings, provider, now).nodes| == |s.nodes| + |NewNames(s, entities)|
    decreases |entities|
  {
    if entities == [] {
      assert NewNames(s, entities) == {};
    } else {
      var p := entities[..|entities| - 1];
      var e := entities[|entities| - 1];
      assert entities == p + [e];
      UpsertAllCount(s, p, withEmbeddings, provider, now);
      UpsertAllGrowth(s, p, e, withEmbeddings, provider, now);
      NewNamesStep(s, p, e);
    }
  }

  /** Upserting one more entity adds a node exactly when its name is new to both the
      store and the earlier entities of the batch. */
  lemma UpsertAllGrowth(s: Store, p: seq<Entity>, e: Entity, withEmbeddings: bool,
                        provider: string -> Option<Vector>, now: nat)
    requires Valid(s)
    ensures |UpsertAll(s, p + [e], withEmbeddings, provider, now).nodes| ==
            |UpsertAll(s, p, withEmbeddings, provider, now).nodes| +
            (if Lookup(s, e.name).None? && e.name !in Names(p) then 1 else 0)
  {
    var entities := p + [e];
    assert entities[..|entities| - 1] == p;
    UpsertAllName(s, p, withEmbeddings, provider, now, e.name);
    UpsertAllValid(s, p, withEmbeddings, provider, now);
    var prev := UpsertAll(s, p, withEmbeddings, provider, now);
    var v := StoredVector(withEmbeddings, provider, e);
    UpsertValid(prev, e.name, e.entityType, e.description, v, now);
    assert UpsertAll(s, entities, withEmbeddings, provider, now) == Upsert(prev, e.name, e.entityType, e.description, v, now).0;
    assert IndexOfName(prev.nodes, e.name).Some? <==> Lookup(prev, e.name).Some?;
  }

  lemma NewNamesStep(s: Store, p: seq<Entity>, e: Entity)
    ensures Lookup(s, e.name).None? && e.name !in Names(p) ==>
              NewNames(s, p + [e]) == NewNames(s, p) + {e.name} && e.name !in NewNames(s, p)
    ensures !(Lookup(s, e.name).None? && e.name !in Names(p)) ==> NewNames(s, p + [e]) == NewNames(s, p)
  {
    assert forall x :: x in p + [e] <==> x in p || x == e;
  }

  /** For every node already in the store, the entity pass follows the conflict
      rules: the description becomes the last non-null one given for its name, the
      embedding is replaced only by a computed vector, and id, name, type and creation
      time never change. A node whose name is not in the batch is left as it was. */
  lemma {:induction false} UpsertAllExisting(s: Store, entities: seq<Entity>, withEmbeddings: bool,
                                             provider: string -> Option<Vector>, now: nat, i: nat)
    requires Valid(s) && i < |s.nodes|
    ensures var r := UpsertAll(s, entities, withEmbeddings, provider, now);
            var n := s.nodes[i];
            && i < |r.nodes|
            && r.nodes[i].description == FinalDescription(entities, n.name, n.description)
            && r.nodes[i].embedding == FinalEmbedding(entities, withEmbeddings, provider, n.name, n.embedding)
            && (n.name !in Names(entities) ==> r.nodes[i] == n)
    decreases |entities|
  {
    UpsertAllValid(s, entities, withEmbeddings, provider, now);
    if entities != [] {
      var p := entities[..|entities| - 1];
      var e := entities[|entities| - 1];
      assert entities == p + [e];
      UpsertAllSnoc(s, p, e, withEmbeddings, provider, now);
      UpsertAllExisting(s, p, withEmbeddings, provider, now, i);
      UpsertAllValid(s, p, withEmbeddings, provider, now);
      UpsertRow(UpsertAll(s, p, withEmbeddings, provider, now), e.name, e.entityType, e.description,
                StoredVector(withEmbeddings, provider, e), now, i);
    }
  }

  /** The type of the first entity named `name` in the batch: the row is inserted with
      it, and later conflicts never update the type. */
  function FirstType(entities: seq<Entity>, name: string): Option<string>
    decreases |entities|
  {
    if entities == [] then None
    else
      var p := entities[..|entities| - 1];
      var e := entities[|entities| - 1];
      if name in Names(p) then FirstType(p, name)
      else if e.name == name then e.entityType
      else None
  }

  /** A name the batch does not mention keeps its prior description and embedding. */
  lemma {:induction false} FinalUntouched(entities: seq<Entity>, withEmbeddings: bool,
                                          provider: string -> Option<Vector>, name: string,
                                          description: Option<string>, embedding: Option<Vector>)
    requires name !in Names(entities)
    ensures FinalDescription(entities, name, description) == description
    ensures FinalEmbedding(entities, withEmbeddings, provider, name, embedding) == embedding
    decreases |entities|
  {
    if entities != [] {
      var p := entities[..|entities| - 1];
      var e := entities[|entities| - 1];
      assert entities == p + [e];
      assert forall x :: x in p ==> x in entities;
      FinalUntouched(p, withEmbeddings, provider, name, description, embedding);
    }
  }

  /** What a row the entity pass added holds: a name new to the store, an id the store
      did not have, the type of the batch's first entity of that name, the batch's last
      non-null description and last stored vector for the name, and the request's time. */
  predicate AddedRow(s: Store, entities: seq<Entity>, withEmbeddings: bool,
                     provider: string -> Option<Vector>, now: nat, n: Node)
  {
    && n.name in NewNames(s, entities)
    && !HasId(s.nodes, n.id)
    && n.entityType == FirstType(entities, n.name)
    && n.description == FinalDescription(entities, n.name, None)
    && n.embedding == FinalEmbedding(entities, withEmbeddings, provider, n.name, None)
    && n.createdAt == now
  }

  /** Every row the entity pass adds belongs to a name new to the store: it has an id
      the store did not have, the type of the batch's first entity of that name, the
      batch's last non-null description and last stored vector for the name, and the
      request's creation time. */
  lemma {:induction false} UpsertAllNew(s: Store, entities: seq<Entity>, withEmbeddings: bool,
                                        provider: string -> Option<Vector>, now: nat, i: nat)
    requires Valid(s)
    requires |s.nodes| <= i < |UpsertAll(s, entities, withEmbeddings, provider, now).nodes|
    ensures var n := UpsertAll(s, entities, withEmbeddings, provider, now).nodes[i];
            && n.name in NewNames(s, entities)
            && !HasId(s.nodes, n.id)
            && n.entityType == FirstType(entities, n.name)
            && n.description == FinalDescription(entities, n.name, None)
            && n.embedding == FinalEmbedding(entities, withEmbeddings, provider, n.name, None)
            && n.createdAt == now
    decreases |entities|
  {
    var p := entities[..|entities| - 1];
    var e := entities[|entities| - 1];
    assert entities == p + [e];
    if i < |UpsertAll(s, p, withEmbeddings, provider, now).nodes| {
      UpsertAllNew(s, p, withEmbeddings, provider, now, i);
      AddedRowKept(s, p, e, withEmbeddings, provider, now, i);
    } else {
      AddedRowAppended(s, p, e, withEmbeddings, provider, now);
    }
  }

  /** A row added earlier in the batch stays an added row after one more upsert. */
  lemma AddedRowKept(s: Store, p: seq<Entity>, e: Entity, withEmbeddings: bool,
                     provider: string -> Option<Vector>, now: nat, i: nat)
    requires Valid(s)
    requires |s.nodes| <= i < |UpsertAll(s, p, withEmbeddings, provider, now).nodes|
    requires AddedRow(s, p, withEmbeddings, provider, now, UpsertAll(s, p, withEmbeddings, provider, now).nodes[i])
    ensures i < |UpsertAll(s, p + [e], withEmbeddings, provider, now).nodes|
    ensures AddedRow(s, p + [e], withEmbeddings, provider, now, UpsertAll(s, p + [e], withEmbeddings, provider, now).nodes[i])
  {
    var prev := UpsertAll(s, p, withEmbeddings, provider, now);
    var v := StoredVector(withEmbeddings, provider, e);
    UpsertAllSnoc(s, p, e, withEmbeddings, provider, now);
    UpsertAllValid(s, p, withEmbeddings, provider, now);
    UpsertRow(prev, e.name, e.entityType, e.description, v, now, i);
    assert (p + [e])[..|p|] == p;
    assert forall x :: x in p ==> x in p + [e];
  }

  /** The row one more upsert appends is an added row. */
  lemma AddedRowAppended(s: Store, p: seq<Entity>, e: Entity, withEmbeddings: bool,
                         provider: string -> Option<Vector>, now: nat)
    requires Valid(s)
    requires |UpsertAll(s, p, withEmbeddings, provider, now).nodes| < |UpsertAll(s, p + [e], withEmbeddings, provider, now).nodes|
    ensures var k := |UpsertAll(s, p, withEmbeddings, provider, now).nodes|;
            AddedRow(s, p + [e], withEmbeddings, provider, now, UpsertAll(s, p + [e], withEmbeddings, provider, now).nodes[k])
  {
    var prev := UpsertAll(s, p, withEmbeddings, provider, now);
    UpsertAllSnoc(s, p, e, withEmbeddings, provider, now);
    UpsertAllValid(s, p, withEmbeddings, provider, now);
    assert IndexOfName(prev.nodes, e.name).None?;
    UpsertAllName(s, p, withEmbeddings, provider, now, e.name);
    UpsertAllNextId(s, p, withEmbeddings, provider, now);
    FinalUntouched(p, withEmbeddings, provider, e.name, None, None);
    assert (p + [e])[..|p|] == p;
    assert e in p + [e];
  }

  /** The edge table after the relationship pass, and the number of edges created.
      A relationship is resolved by name against `nodes`; an unresolved one is skipped. */
  function LinkAll(nodes: seq<Node>, edges: seq<Edge>, rels: seq<Relationship>): (r: (seq<Edge>, nat))
    ensures |r.0| == |edges| + r.1
    ensures r.0[..|edges|] == edges
    ensures UniquePairs(edges) ==> UniquePairs(r.0)
    ensures EdgesWithin(nodes, edges) ==> EdgesWithin(nodes, r.0)
    decreases |rels|
  {
    if rels == [] then (edges, 0)
    else
      var prev := LinkAll(nodes, edges, rels[..|rels| - 1]);
      var r := LinkOne(nodes, prev, rels[|rels| - 1]);
      assert r.0[..|edges|] == r.0[..|prev.0|][..|edges|];
      r
  }

  /** One relationship of the pass: when both names resolve, insert the edge if its
      ordered pair is free and add the rows inserted to the count. */
  function LinkOne(nodes: seq<Node>, prev: (seq<Edge>, nat), rel: Relationship): (r: (seq<Edge>, nat))
    ensures prev.1 <= r.1 <= prev.1 + 1 && |r.0| == |prev.0| + r.1 - prev.1
    ensures r.0[..|prev.0|] == prev.0
    ensures UniquePairs(prev.0) ==> UniquePairs(r.0)
    ensures EdgesWithin(nodes, prev.0) ==> EdgesWithin(nodes, r.0)
    ensures r.1 > prev.1 ==>
              Resolve(nodes, rel.source).Some? && Resolve(nodes, rel.target).Some? &&
              r.0[|prev.0|] == Edge(Resolve(nodes, rel.source).value, Resolve(nodes, rel.target).value,
                                    RelTypeOf(rel), WeightOf(rel))
  {
    match (Resolve(nodes, rel.source), Resolve(nodes, rel.target))
    case (Some(a), Some(b)) =>
      var ins := InsertEdgeIfAbsent(prev.0, a, b, RelTypeOf(rel), WeightOf(rel));
      (ins.0, prev.1 + ins.1)
    case _ => prev
  }

  /** Name resolution against the node table. */
  function Resolve(nodes: seq<Node>, name: string): Option<NodeId>
  {
    Lookup(Store(nodes, [], 0), name)
  }

  /** After the relationship pass, every relationship whose two names resolve has an
      edge for its ordered pair of ids (created now or already there). */
  lemma {:induction false} LinkAllResolved(nodes: seq<Node>, edges: seq<Edge>, rels: seq<Relationship>)
    ensures forall rel :: rel in rels && Resolve(nodes, rel.source).Some? && Resolve(nodes, rel.target).Some? ==>
              HasPair(LinkAll(nodes, edges, rels).0, Resolve(nodes, rel.source).value, Resolve(nodes, rel.target).value)
    decreases |rels|
  {
    if rels != [] {
      var p := rels[..|rels| - 1];
      var last := rels[|rels| - 1];
      assert rels == p + [last];
      LinkAllResolved(nodes, edges, p);
      var prev := LinkAll(nodes, edges, p);
      var r := LinkAll(nodes, edges, rels);
      assert forall a, b :: HasPair(prev.0, a, b) ==> HasPair(r.0, a, b) by {
        forall a, b | HasPair(prev.0, a, b) ensures HasPair(r.0, a, b) {
          var e :| e in prev.0 && e.source == a && e.target == b;
          assert r.0[..|prev.0|] == prev.0;
          assert e in r.0;
        }
      }
    }
  }

  /** Every edge the relationship pass creates comes from a relationship of the batch
      whose two names resolve, with its type and weight (or their defaults); a
      relationship with an unresolved name creates nothing. */
  lemma {:induction false} LinkAllOrigin(nodes: seq<Node>, edges: seq<Edge>, rels: seq<Relationship>, k: nat)
    requires |edges| <= k < |LinkAll(nodes, edges, rels).0|
    ensures exists rel :: rel in rels &&
              Resolve(nodes, rel.source).Some? && Resolve(nodes, rel.target).Some? &&
              LinkAll(nodes, edges, rels).0[k] ==
                Edge(Resolve(nodes, rel.source).value, Resolve(nodes, rel.target).value, RelTypeOf(rel), WeightOf(rel))
    decreases |rels|
  {
    var p := rels[..|rels| - 1];
    var last := rels[|rels| - 1];
    if k < |LinkAll(nodes, edges, p).0| {
      LinkAllOrigin(nodes, edges, p, k);
      assert forall rel :: rel in p ==> rel in rels;
    } else {
      assert last in rels;
    }
  }

  /** If every resolvable relationship already has its edge, the relationship pass
      creates nothing and leaves the edge table as it was. */
  lemma {:induction false} LinkAllReplay(nodes: seq<Node>, edges: seq<Edge>, rels: seq<Relationship>)
    requires forall rel :: rel in rels && Resolve(nodes, rel.source).Some? && Resolve(nodes, rel.target).Some? ==>
               HasPair(edges, Resolve(nodes, rel.source).value, Resolve(nodes, rel.target).value)
    ensures LinkAll(nodes, edges, rels) == (edges, 0)
    decreases |rels|
  {
    if rels != [] {
      var p := rels[..|rels| - 1];
      assert forall rel :: rel in p ==> rel in rels;
      LinkAllReplay(nodes, edges, p);
    }
  }

  /** The store already holds the payload: every entity name is present and every
      relationship whose names resolve has an edge for its pair. */
  predicate HoldsPayload(s: Store, entities: seq<Entity>, rels: seq<Relationship>)
  {
    && (forall e :: e in entities ==> Lookup(s, e.name).Some?)
    && (forall rel :: rel in rels && Lookup(s, rel.source).Some? && Lookup(s, rel.target).Some? ==>
          HasPair(s.edges, Lookup(s, rel.source).value, Lookup(s, rel.target).value))
  }

  /** How the entity folds grow by one entity. */
  lemma UpsertAllSnoc(s: Store, p: seq<Entity>, e: Entity, withEmbeddings: bool,
                      provider: string -> Option<Vector>, now: nat)
    ensures UpsertAll(s, p + [e], withEmbeddings, provider, now) ==
            Upsert(UpsertAll(s, p, withEmbeddings, provider, now), e.name, e.entityType, e.description,
                   StoredVector(withEmbeddings, provider, e), now).0
    ensures CountEmbedded(p + [e], withEmbeddings, provider) ==
            CountEmbedded(p, withEmbeddings, provider) + (if StoredVector(withEmbeddings, provider, e).Some? then 1 else 0)
    ensures Names(p + [e]) == Names(p) + {e.name}
  {
    assert (p + [e])[..|p|] == p;
    assert forall x :: x in p + [e] <==> x in p || x == e;
  }

  lemma PrefixSnoc<T>(xs: seq<T>, i: nat)
    requires i < |xs|
    ensures xs[..i + 1] == xs[..i] + [xs[i]]
  {
  }

  /** The body of the entity loop: compute the embedding when `withEmbeddings`, then
      run the upsert with the embedding column when the embedding is a non-empty
      list and the one without it otherwise. */
  method UpsertEntity(st: Store, e: Entity, withEmbeddings: bool, provider: string -> Option<Vector>, now: nat)
    returns (st': Store, id: NodeId, embedded: bool)
    ensures (st', id) == Upsert(st, e.name, e.entityType, e.description, StoredVector(withEmbeddings, provider, e), now)
    ensures embedded <==> StoredVector(withEmbeddings, provider, e).Some?
  {
    var embedding: Option<Vector> := None;
    if withEmbeddings {
      embedding := GetEmbedding(provider, EmbeddingText(e));
    }
    if Truthy(embedding) {
      var r := Upsert(st, e.name, e.entityType, e.description, embedding, now);
      st', id, embedded := r.0, r.1, true;
    } else {
      var r := Upsert(st, e.name, e.entityType, e.description, None, now);
      st', id, embedded := r.0, r.1, false;
    }
  }

  /** The entity loop of both handlers: upsert each entity and record `name -> id`
      in the batch map. */
  method UpsertEntities(s: Store, entities: seq<Entity>, withEmbeddings: bool,
                        provider: string -> Option<Vector>, now: nat)
    returns (st: Store, entityIds: map<string, NodeId>, embeddingsCreated: nat)
    requires Valid(s)
    ensures Valid(st)
    ensures st == UpsertAll(s, entities, withEmbeddings, provider, now)
    ensures entityIds.Keys == Names(entities)
    ensures Resolves(st, entityIds)
    ensures embeddingsCreated == CountEmbedded(entities, withEmbeddings, provider)
  {
    st, entityIds, embeddingsCreated := s, map[], 0;
    for i := 0 to |entities|
      invariant Valid(st)
      invariant st == UpsertAll(s, entities[..i], withEmbeddings, provider, now)
      invariant entityIds.Keys == Names(entities[..i])
      invariant Resolves(st, entityIds)
      invariant embeddingsCreated == CountEmbedded(entities[..i], withEmbeddings, provider)
    {
      st, entityIds, embeddingsCreated :=
        UpsertNext(s, entities[..i], entities[i], withEmbeddings, provider, now, st, entityIds, embeddingsCreated);
      PrefixSnoc(entities, i);
    }
    assert entities[..|entities|] == entities;
  }

  /** One turn of the entity loop, after the entities `done`: upsert `e` and record
      its id. */
  method UpsertNext(s: Store, ghost done: seq<Entity>, e: Entity, withEmbeddings: bool,
                    provider: string -> Option<Vector>, now: nat,
                    st: Store, entityIds: map<string, NodeId>, embeddingsCreated: nat)
    returns (st': Store, entityIds': map<string, NodeId>, embeddingsCreated': nat)
    requires Valid(st)
    requires st == UpsertAll(s, done, withEmbeddings, provider, now)
    requires entityIds.Keys == Names(done)
    requires Resolves(st, entityIds)
    requires embeddingsCreated == CountEmbedded(done, withEmbeddings, provider)
    ensures Valid(st')
    ensures st' == UpsertAll(s, done + [e], withEmbeddings, provider, now)
    ensures entityIds'.Keys == Names(done + [e])
    ensures Resolves(st', entityIds')
    ensures embeddingsCreated' == CountEmbedded(done + [e], withEmbeddings, provider)
  {
    var id, embedded;
    st', id, embedded := UpsertEntity(st, e, withEmbeddings, provider, now);
    embeddingsCreated' := if embedded then embeddingsCreated + 1 else embeddingsCreated;
    entityIds' := entityIds[e.name := id];
    UpsertAllSnoc(s, done, e, withEmbeddings, provider, now);
    KeysUpdate(entityIds, e.name, id);
    UpsertKeepsIds(st, e, StoredVector(withEmbeddings, provider, e), now, entityIds);
  }

  lemma KeysUpdate(m: map<string, NodeId>, k: string, v: NodeId)
    ensures m[k := v].Keys == m.Keys + {k}
  {
  }

  /** An upsert keeps the store valid and every recorded `name -> id` pair
      current, and records the upserted name's id. */
  lemma UpsertKeepsIds(st: Store, e: Entity, v: Option<Vector>, now: nat, entityIds: map<string, NodeId>)
    requires Valid(st)
    requires Resolves(st, entityIds)
    ensures var r := Upsert(st, e.name, e.entityType, e.description, v, now);
            && Valid(r.0)
            && forall n :: n in entityIds[e.name := r.1] ==> Lookup(r.0, n) == Some(entityIds[e.name := r.1][n])
  {
    UpsertValid(st, e.name, e.entityType, e.description, v, now);
    UpsertLookup(st, e.name, e.entityType, e.description, v, now);
  }

  /** How the relationship fold grows by one relationship. */
  lemma LinkAllSnoc(nodes: seq<Node>, edges: seq<Edge>, rels: seq<Relationship>, i: nat)
    requires i < |rels|
    ensures LinkAll(nodes, edges, rels[..i + 1]) == LinkOne(nodes, LinkAll(nodes, edges, rels[..i]), rels[i])
  {
    assert rels[..i + 1][..i] == rels[..i];
  }

  lemma ResolveIsLookup(st: Store, name: string)
    ensures Resolve(st.nodes, name) == Lookup(st, name)
  {
  }

  /** Every name of the batch map resolves in the store to the id the map holds. */
  predicate Resolves(st: Store, ids: map<string, NodeId>)
  {
    forall n :: n in ids ==> Lookup(st, n) == Some(ids[n])
  }

  /** Resolution of one relationship end: the batch map first, then the store; an
      id found in the store is remembered in the map. */
  method ResolveId(st: Store, ids: map<string, NodeId>, name: string) returns (ids': map<string, NodeId>)
    requires Resolves(st, ids)
    ensures ids.Keys <= ids'.Keys
    ensures Resolves(st, ids')
    ensures name in ids' <==> Lookup(st, name).Some?
  {
    ids' := ids;
    if name !in ids {
      var r := Lookup(st, name);
      if r.Some? {
        ids' := ids[name := r.value];
      }
    }
  }

  /** The relationship loop of both handlers: resolve both names, and insert the
      edge when both resolve and the ordered pair is free, counting the rows
      inserted. */
  method InsertRelationships(st: Store, entityIds: map<string, NodeId>, rels: seq<Relationship>)
    returns (s': Store, ids: map<string, NodeId>, edgesCreated: nat)
    requires Resolves(st, entityIds)
    ensures s'.nodes == st.nodes && s'.nextId == st.nextId
    ensures (s'.edges, edgesCreated) == LinkAll(st.nodes, st.edges, rels)
    ensures entityIds.Keys <= ids.Keys
    ensures Resolves(st, ids)
  {
    s', ids, edgesCreated := st, entityIds, 0;
    for i := 0 to |rels|
      invariant s'.nodes == st.nodes && s'.nextId == st.nextId
      invariant (s'.edges, edgesCreated) == LinkAll(st.nodes, st.edges, rels[..i])
      invariant entityIds.Keys <= ids.Keys
      invariant Resolves(st, ids)
    {
      s', ids, edgesCreated := LinkNext(st, ids, rels[i], s', edgesCreated);
      LinkAllSnoc(st.nodes, st.edges, rels, i);
    }
    assert rels[..|rels|] == rels;
  }

  /** The body of the relationship loop: resolve both names, and insert the edge
      when both resolve and the ordered pair is free. */
  method LinkNext(st: Store, ids: map<string, NodeId>, rel: Relationship, cur: Store, count: nat)
    returns (cur': Store, ids': map<string, NodeId>, count': nat)
    requires Resolves(st, ids)
    requires cur.nodes == st.nodes && cur.nextId == st.nextId
    ensures cur'.nodes == st.nodes && cur'.nextId == st.nextId
    ensures (cur'.edges, count') == LinkOne(st.nodes, (cur.edges, count), rel)
    ensures ids.Keys <= ids'.Keys
    ensures Resolves(st, ids')
  {
    cur', count' := cur, count;
    ids' := ResolveId(st, ids, rel.source);
    ids' := ResolveId(st, ids', rel.target);
    ResolveIsLookup(st, rel.source);
    ResolveIsLookup(st, rel.target);
    if rel.source in ids' && rel.target in ids' {
      var inserted := InsertEdgeIfAbsent(cur.edges, ids'[rel.source], ids'[rel.target], RelTypeOf(rel), WeightOf(rel));
      cur' := cur.(edges := inserted.0);
      count' := count + inserted.1;
    }
  }

  /** The store a handler commits and the number of edges it created: the entity
      pass, then the relationship pass resolving names against the updated nodes. */
  function Ingest(s: Store, entities: seq<Entity>, rels: seq<Relationship>, withEmbeddings: bool,
                  provider: string -> Option<Vector>, now: nat): (r: (Store, nat))
    ensures |s.nodes| <= |r.0.nodes| <= |s.nodes| + |entities|
    ensures |r.0.edges| == |s.edges| + r.1 && r.0.edges[..|s.edges|] == s.edges
  {
    var st := UpsertAll(s, entities, withEmbeddings, provider, now);
    var l := LinkAll(st.nodes, st.edges, rels);
    (Store(st.nodes, l.0, st.nextId), l.1)
  }

  /** Ingestion keeps the store invariant, only appends edges (as many as it
      reports), keeps ordered pairs unique, and adds one node per new name. */
  lemma IngestValid(s: Store, entities: seq<Entity>, rels: seq<Relationship>, withEmbeddings: bool,
                    provider: string -> Option<Vector>, now: nat)
    requires Valid(s)
    ensures var r := Ingest(s, entities, rels, withEmbeddings, provider, now);
            && Valid(r.0)
            && |r.0.edges| == |s.edges| + r.1
            && r.0.edges[..|s.edges|] == s.edges
            && (UniquePairs(s.edges) ==> UniquePairs(r.0.edges))
            && |r.0.nodes| == |s.nodes| + |NewNames(s, entities)|
  {
    UpsertAllValid(s, entities, withEmbeddings, provider, now);
    UpsertAllCount(s, entities, withEmbeddings, provider, now);
  }

  /** After ingestion a name is in the store exactly when it was before or is named
      by an entity of the batch, and a name that was there keeps its id. */
  lemma IngestName(s: Store, entities: seq<Entity>, rels: seq<Relationship>, withEmbeddings: bool,
                   provider: string -> Option<Vector>, now: nat, n: string)
    requires Valid(s)
    ensures var r := Ingest(s, entities, rels, withEmbeddings, provider, now);
            && (Lookup(r.0, n).Some? <==> Lookup(s, n).Some? || n in Names(entities))
            && (Lookup(s, n).Some? ==> Lookup(r.0, n) == Lookup(s, n))
  {
    var st := UpsertAll(s, entities, withEmbeddings, provider, now);
    UpsertAllName(s, entities, withEmbeddings, provider, now, n);
    UpsertAllKeepsId(s, entities, withEmbeddings, provider, now, n);
    var r := Ingest(s, entities, rels, withEmbeddings, provider, now);
    assert r.0.nodes == st.nodes;
    assert Lookup(r.0, n) == Lookup(st, n);
  }

  /** After ingestion the store holds the payload. */
  lemma IngestHoldsPayload(s: Store, entities: seq<Entity>, rels: seq<Relationship>, withEmbeddings: bool,
                           provider: string -> Option<Vector>, now: nat)
    requires Valid(s)
    ensures HoldsPayload(Ingest(s, entities, rels, withEmbeddings, provider, now).0, entities, rels)
  {
    var st := UpsertAll(s, entities, withEmbeddings, provider, now);
    var r := Ingest(s, entities, rels, withEmbeddings, provider, now);
    forall e | e in entities ensures Lookup(r.0, e.name).Some? {
      IngestName(s, entities, rels, withEmbeddings, provider, now, e.name);
    }
    LinkAllResolved(st.nodes, st.edges, rels);
    forall rel | rel in rels && Lookup(r.0, rel.source).Some? && Lookup(r.0, rel.target).Some?
      ensures HasPair(r.0.edges, Lookup(r.0, rel.source).value, Lookup(r.0, rel.target).value)
    {
      ResolveIsLookup(r.0, rel.source);
      ResolveIsLookup(r.0, rel.target);
    }
  }

  /** Ingesting a payload the store already holds creates no node and no edge and
      leaves the edge table as it was. */
  lemma IngestReplay(s: Store, entities: seq<Entity>, rels: seq<Relationship>, withEmbeddings: bool,
                     provider: string -> Option<Vector>, now: nat)
    requires Valid(s) && HoldsPayload(s, entities, rels)
    ensures var r := Ingest(s, entities, rels, withEmbeddings, provider, now);
            r.1 == 0 && r.0.edges == s.edges && |r.0.nodes| == |s.nodes| && r.0.nextId == s.nextId
  {
    var st := UpsertAll(s, entities, withEmbeddings, provider, now);
    UpsertAllValid(s, entities, withEmbeddings, provider, now);
    UpsertAllCount(s, entities, withEmbeddings, provider, now);
    assert NewNames(s, entities) == {};
    assert st.nextId == s.nextId by {
      UpsertAllNextId(s, entities, withEmbeddings, provider, now);
    }
    forall rel | rel in rels && Resolve(st.nodes, rel.source).Some? && Resolve(st.nodes, rel.target).Some?
      ensures HasPair(st.edges, Resolve(st.nodes, rel.source).value, Resolve(st.nodes, rel.target).value)
    {
      ReplayPair(s, entities, rels, withEmbeddings, provider, now, rel);
    }
    LinkAllReplay(st.nodes, st.edges, rels);
  }

  /** A relationship of a payload the store holds, once resolved after the entity
      pass, already has its edge. */
  lemma ReplayPair(s: Store, entities: seq<Entity>, rels: seq<Relationship>, withEmbeddings: bool,
                   provider: string -> Option<Vector>, now: nat, rel: Relationship)
    requires Valid(s) && HoldsPayload(s, entities, rels) && rel in rels
    ensures var st := UpsertAll(s, entities, withEmbeddings, provider, now);
            Resolve(st.nodes, rel.source).Some? && Resolve(st.nodes, rel.target).Some? ==>
              HasPair(st.edges, Resolve(st.nodes, rel.source).value, Resolve(st.nodes, rel.target).value)
  {
    var st := UpsertAll(s, entities, withEmbeddings, provider, now);
    IngestName(s, entities, rels, withEmbeddings, provider, now, rel.source);
    IngestName(s, entities, rels, withEmbeddings, provider, now, rel.target);
    ResolveIsLookup(st, rel.source);
    ResolveIsLookup(st, rel.target);
  }

  /** Sending the same payload twice: the second request creates no node and no edge
      and reports `edges_created = 0`. */
  lemma IngestTwice(s: Store, entities: seq<Entity>, rels: seq<Relationship>, withEmbeddings: bool,
                    provider: string -> Option<Vector>, now: nat, now': nat)
    requires Valid(s)
    ensures var s1 := Ingest(s, entities, rels, withEmbeddings, provider, now).0;
            var r := Ingest(s1, entities, rels, withEmbeddings, provider, now');
            r.1 == 0 && r.0.edges == s1.edges && |r.0.nodes| == |s1.nodes| && r.0.nextId == s1.nextId
  {
    var s1 := Ingest(s, entities, rels, withEmbeddings, provider, now).0;
    IngestValid(s, entities, rels, withEmbeddings, provider, now);
    IngestHoldsPayload(s, entities, rels, withEmbeddings, provider, now);
    IngestReplay(s1, entities, rels, withEmbeddings, provider, now');
  }

  /** The model's supply of fresh ids advances once per new name. */
  lemma {:induction false} UpsertAllNextId(s: Store, entities: seq<Entity>, withEmbeddings: bool,
                                           provider: string -> Option<Vector>, now: nat)
    requires Valid(s)
    ensures UpsertAll(s, entities, withEmbeddings, provider, now).nextId == s.nextId + |NewNames(s, entities)|
    decreases |entities|
  {
    if entities == [] {
      assert NewNames(s, entities) == {};
    } else {
      var p := entities[..|entities| - 1];
      var e := entities[|entities| - 1];
      assert entities == p + [e];
      UpsertAllNextId(s, p, withEmbeddings, provider, now);
      UpsertAllCount(s, p, withEmbeddings, provider, now);
      UpsertAllCount(s, entities, withEmbeddings, provider, now);
      UpsertAllValid(s, p, withEmbeddings, provider, now);
      var prev := UpsertAll(s, p, withEmbeddings, provider, now);
      var v := StoredVector(withEmbeddings, provider, e);
      UpsertValid(prev, e.name, e.entityType, e.description, v, now);
      UpsertAllSnoc(s, p, e, withEmbeddings, provider, now);
    }
  }

  /** For every node already in the store: id, name, type and creation time are kept,
      the description is the last non-null one given for its name, and the embedding
      the last vector computed for it. */
  lemma IngestExisting(s: Store, entities: seq<Entity>, rels: seq<Relationship>, withEmbeddings: bool,
                       provider: string -> Option<Vector>, now: nat, i: nat)
    requires Valid(s) && i < |s.nodes|
    ensures var r := Ingest(s, entities, rels, withEmbeddings, provider, now).0;
            var n := s.nodes[i];
            && i < |r.nodes|
            && r.nodes[i].id == n.id && r.nodes[i].name == n.name
            && r.nodes[i].entityType == n.entityType && r.nodes[i].createdAt == n.createdAt
            && r.nodes[i].description == FinalDescription(entities, n.name, n.description)
            && r.nodes[i].embedding == FinalEmbedding(entities, withEmbeddings, provider, n.name, n.embedding)
  {
    UpsertAllValid(s, entities, withEmbeddings, provider, now);
    UpsertAllExisting(s, entities, withEmbeddings, provider, now, i);
  }

  /** For every name new to the store, the batch creates exactly one row, and that row
      has an id the store did not have, the type of the first entity of that name, the
      last non-null description and the last vector computed for it, and the time of
      the request. */
  lemma IngestNew(s: Store, entities: seq<Entity>, rels: seq<Relationship>, withEmbeddings: bool,
                  provider: string -> Option<Vector>, now: nat, n: string) returns (i: nat)
    requires Valid(s) && n in NewNames(s, entities)
    ensures var r := Ingest(s, entities, rels, withEmbeddings, provider, now).0;
            && |s.nodes| <= i < |r.nodes| && r.nodes[i].name == n
            && (forall j :: 0 <= j < |r.nodes| && r.nodes[j].name == n ==> j == i)
            && !HasId(s.nodes, r.nodes[i].id)
            && r.nodes[i].entityType == FirstType(entities, n)
            && r.nodes[i].description == FinalDescription(entities, n, None)
            && r.nodes[i].embedding == FinalEmbedding(entities, withEmbeddings, provider, n, None)
            && r.nodes[i].createdAt == now
  {
    var st := UpsertAll(s, entities, withEmbeddings, provider, now);
    UpsertAllValid(s, entities, withEmbeddings, provider, now);
    UpsertAllName(s, entities, withEmbeddings, provider, now, n);
    LookupFinds(s, n);
    var e :| e in entities && Lookup(s, e.name).None? && e.name == n;
    i := IndexOfName(st.nodes, n).value;
    assert |s.nodes| <= i;
    UpsertAllNew(s, entities, withEmbeddings, provider, now, i);
  }

  /** `batch_insert`. */
  method BatchInsert(s: Store, entities: seq<Entity>, rels: seq<Relationship>, now: nat)
    returns (s': Store, report: InsertReport)
    requires Valid(s)
    ensures (s', report.edgesCreated) == Ingest(s, entities, rels, false, _ => None, now)
    ensures report.entitiesProcessed == |entities|
  {
    var st, entityIds, _ := UpsertEntities(s, entities, false, _ => None, now);
    var ids, edgesCreated;
    s', ids, edgesCreated := InsertRelationships(st, entityIds, rels);
    report := InsertReport(|entities|, edgesCreated);
  }

  /** `batch_insert` never touches a stored embedding. */
  lemma BatchInsertKeepsEmbeddings(s: Store, entities: seq<Entity>, rels: seq<Relationship>, now: nat, i: nat)
    requires Valid(s) && i < |s.nodes|
    ensures var r := Ingest(s, entities, rels, false, _ => None, now).0;
            i < |r.nodes| && r.nodes[i].embedding == s.nodes[i].embedding
  {
    IngestExisting(s, entities, rels, false, _ => None, now, i);
    NoVectorWithoutEmbeddings(entities, _ => None, s.nodes[i].name, s.nodes[i].embedding);
  }

  /** Without embeddings no upsert touches a stored embedding. */
  lemma {:induction false} NoVectorWithoutEmbeddings(entities: seq<Entity>, provider: string -> Option<Vector>,
                                                     name: string, prior: Option<Vector>)
    ensures FinalEmbedding(entities, false, provider, name, prior) == prior
    decreases |entities|
  {
    if entities != [] {
      NoVectorWithoutEmbeddings(entities[..|entities| - 1], provider, name, prior);
    }
  }

  /** `batch_insert_with_embeddings`. */
  method BatchInsertWithEmbeddings(s: Store, entities: seq<Entity>, rels: seq<Relationship>,
                                   provider: string -> Option<Vector>, now: nat)
    returns (s': Store, report: EmbeddingInsertReport)
    requires Valid(s)
    ensures (s', report.edgesCreated) == Ingest(s, entities, rels, true, provider, now)
    ensures report.entitiesProcessed == |entities|
    ensures report.embeddingsCreated == CountEmbedded(entities, true, provider)
  {
    var st, entityIds, embeddingsCreated := UpsertEntities(s, entities, true, provider, now);
    var ids, edgesCreated;
    s', ids, edgesCreated := InsertRelationships(st, entityIds, rels);
    report := EmbeddingInsertReport(|entities|, embeddingsCreated, edgesCreated);
  }
}
