/**
 The meaning of the hierarchy query constants, each read as one step on the stored graph that looks at the graph as it
 was before the step.
 */
module HierarchyQueries {
  import opened Options
  import opened HierarchyGraph

  // ---------------------------------------------------------------- looking up the generic hierarchy

  /** GetGenericHierarchyNodeIDs: the id of each generic node with one of the codes, and its code. */
  function GenericNodes(g: Graph, codeListID: string, codes: set<string>): map<Id, string> {
    map v | v in g.vertices && g.vertices[v].kind == Generic(codeListID) && g.vertices[v].code in codes :: g.vertices[v].code
  }

  /** GetGenericHierarchyAncestryIDs: the same for what repeat(out('hasParent')).emit() reaches from those nodes. */
  ghost function Ancestry(g: Graph, codeListID: string, codes: set<string>): map<Id, string> {
    map v | v in Ancestors(g, GenericNodes(g, codeListID, codes).Keys) && v in g.vertices :: g.vertices[v].code
  }

  // ---------------------------------------------------------------- cloning nodes

  /** The database chose a new id for the clone of each vertex; `origin` says what each new vertex is a clone of. */
  ghost predicate Allocates(g: Graph, ids: set<Id>, origin: map<Id, Id>) {
    Injective(origin) && origin.Values == ids * g.vertices.Keys && origin.Keys !! g.vertices.Keys
  }

  function Clone(v: Vertex, kind: Kind, codeListID: string, hasData: bool): Vertex {
    Vertex(kind, v.code, v.name, codeListID, hasData, false, None)
  }

  /** CloneHierarchyNodes and CloneHierarchyNodesFromIDs, each clone with a clone_of edge to what it was made from. */
  function CloneNodes(g: Graph, origin: map<Id, Id>, kind: Kind, codeListID: string, hasData: bool): Graph {
    Graph(
      g.vertices + (map c | c in origin && origin[c] in g.vertices :: Clone(g.vertices[origin[c]], kind, codeListID, hasData)),
      g.hasParent,
      g.cloneOf + origin)
  }

  // ---------------------------------------------------------------- cloning relationships

  predicate IsCloneOfKind(g: Graph, c: Id, kind: Kind) {
    c in g.cloneOf && c in g.vertices && g.vertices[c].kind == kind
  }

  function Pairs(ids: set<Id>): (r: set<Edge>)
    ensures forall e :: e in r <==> e.src in ids && e.dst in ids
  {
    set c, p | c in ids && p in ids :: Edge(c, p)
  }

  /** The edge between the originals. */
  function Under(cloneOf: map<Id, Id>, e: Edge): Edge
    requires e.src in cloneOf && e.dst in cloneOf
  {
    Edge(cloneOf[e.src], cloneOf[e.dst])
  }

  predicate Relates(g: Graph, ids: set<Id>, kind: Kind, e: Edge) {
    && IsCloneOfKind(g, e.src, kind) && IsCloneOfKind(g, e.dst, kind)
    && g.cloneOf[e.src] in ids && Under(g.cloneOf, e) in g.hasParent
  }

  /** One new edge for each edge between originals whose lower end is among `ids`, and each pair of their clones. */
  function NewRelationships(g: Graph, ids: set<Id>, kind: Kind): map<Edge, nat> {
    map e | e in Pairs(g.cloneOf.Keys) && Relates(g, ids, kind, e) :: g.hasParent[Under(g.cloneOf, e)]
  }

  function AddCounts(a: map<Edge, nat>, b: map<Edge, nat>): map<Edge, nat> {
    map e | e in a.Keys + b.Keys :: Count(a, e) + Count(b, e)
  }

  /** CloneHierarchyRelationshipsFromIDs; CloneHierarchyRelationships is the same for all generic nodes. */
  function CloneRelationships(g: Graph, ids: set<Id>, kind: Kind): Graph {
    g.(hasParent := AddCounts(g.hasParent, NewRelationships(g, ids, kind)))
  }

  /** RemoveCloneMarkersFromSourceIDs; RemoveCloneMarkers is the same for all vertices of the kind. */
  function RemoveCloneEdges(g: Graph, ids: set<Id>): Graph { g.(cloneOf := g.cloneOf - ids) }

  // ---------------------------------------------------------------- properties

  function Flagged(v: Vertex, kind: Kind, codes: set<string>): Vertex {
    if v.kind == kind && v.code in codes then v.(hasData := true) else v
  }

  function SetHasData(g: Graph, kind: Kind, codes: set<string>): Graph {
    g.(vertices := FlagAll(g.vertices, kind, codes))
  }

  function FlagAll(vertices: map<Id, Vertex>, kind: Kind, codes: set<string>): map<Id, Vertex> {
    map v | v in vertices :: Flagged(vertices[v], kind, codes)
  }

  /** The number of hasParent edges that come in from each vertex. */
  ghost function Into(edges: map<Edge, nat>, v: Id): Id -> nat { u => Count(edges, Edge(u, v)) }

  /** in('hasParent').count() */
  ghost function InDegree(ids: set<Id>, edges: map<Edge, nat>, v: Id): nat { Sum(ids, Into(edges, v)) }

  ghost function InDegrees(ids: set<Id>, edges: map<Edge, nat>): Id -> nat { v => InDegree(ids, edges, v) }

  ghost function Counted(vertices: map<Id, Vertex>, ids: set<Id>, n: Id -> nat): map<Id, Vertex> {
    map v | v in vertices :: if v in ids then vertices[v].(numberOfChildren := Some(n(v))) else vertices[v]
  }

  /** SetNumberOfChildrenFromIDs; SetNumberOfChildren is the same for all vertices of the kind. */
  ghost function SetNumberOfChildren(g: Graph, ids: set<Id>): Graph {
    g.(vertices := Counted(g.vertices, ids, InDegrees(g.vertices.Keys, g.hasParent)))
  }

  // ---------------------------------------------------------------- pruning

  function WithData(g: Graph, kind: Kind): set<Id> { set v | v in Ids(g, kind) && g.vertices[v].hasData }

  /** What Neptune's MarkNodesToRemain reaches: the vertices with data, then everything above them. */
  ghost function NeptuneMarks(g: Graph, kind: Kind): set<Id> { WithData(g, kind) + Ancestors(g, WithData(g, kind)) }

  function Mark(g: Graph, ids: set<Id>): Graph {
    g.(vertices := map v | v in g.vertices :: if v in ids then g.vertices[v].(remain := true) else g.vertices[v])
  }

  predicate Goes(g: Graph, kind: Kind, v: Id) { v in g.vertices && g.vertices[v].kind == kind && !g.vertices[v].remain }

  /** RemoveNodesNotMarkedToRemain: dropping a vertex drops every edge at either of its ends. */
  function RemoveNodesNotMarked(g: Graph, kind: Kind): Graph {
    Graph(
      map v | v in g.vertices && !Goes(g, kind, v) :: g.vertices[v],
      map e | e in g.hasParent && !Goes(g, kind, e.src) && !Goes(g, kind, e.dst) :: g.hasParent[e],
      map c | c in g.cloneOf && !Goes(g, kind, c) && !Goes(g, kind, g.cloneOf[c]) :: g.cloneOf[c])
  }

  function RemoveRemainMarker(g: Graph, kind: Kind): Graph {
    g.(vertices := map v | v in g.vertices ::
      if g.vertices[v].kind == kind then g.vertices[v].(remain := false) else g.vertices[v])
  }

  // ---------------------------------------------------------------- what changes, vertex by vertex and edge by edge

  function LinkOf(g: Graph, c: Id): Option<Id> { if c in g.cloneOf then Some(g.cloneOf[c]) else None }

  /** None of the given vertices is linked to what it was cloned from any more; nothing else is different. */
  ghost predicate LosesLinks(before: Graph, after: Graph, ids: set<Id>) {
    && after.vertices == before.vertices && after.hasParent == before.hasParent
    && (forall c :: LinkOf(after, c) == if c in ids then None else LinkOf(before, c))
  }

  /** The vertices of the kind with data, and whatever can be reached up from them, are marked; nothing else is different. */
  ghost predicate GainsMarkers(before: Graph, after: Graph, kind: Kind) {
    && after.hasParent == before.hasParent && after.cloneOf == before.cloneOf && after.vertices.Keys == before.vertices.Keys
    && (forall v | v in before.vertices :: v in after.vertices && after.vertices[v] ==
          before.vertices[v].(remain := before.vertices[v].remain || HasDataBelow(before, kind, v)))
  }

  ghost predicate HasDataBelow(g: Graph, kind: Kind, v: Id) {
    exists s :: s in Ids(g, kind) && g.vertices[s].hasData && (s == v || Above(g.hasParent, s, v))
  }

  /**
   For a clone `c` of one of the given vertices and a clone `d`, both of the kind, as many edges from `c` to `d` are added as
   there were between what they were cloned from; nothing else is different.
   */
  ghost predicate GainsRelationships(before: Graph, after: Graph, ids: set<Id>, kind: Kind) {
    && after.vertices == before.vertices && after.cloneOf == before.cloneOf
    && forall c, d :: EdgesGained(before, after, ids, kind, c, d)
  }

  ghost predicate EdgesGained(before: Graph, after: Graph, ids: set<Id>, kind: Kind, c: Id, d: Id) {
    if c in before.cloneOf && d in before.cloneOf && {c, d} <= Ids(before, kind) && before.cloneOf[c] in ids then
      var original := Edge(before.cloneOf[c], before.cloneOf[d]);
      && Count(after.hasParent, Edge(c, d)) == Count(before.hasParent, Edge(c, d)) + Count(before.hasParent, original)
      && (Edge(c, d) in after.hasParent <==> Edge(c, d) in before.hasParent || original in before.hasParent)
    else
      && Count(after.hasParent, Edge(c, d)) == Count(before.hasParent, Edge(c, d))
      && (Edge(c, d) in after.hasParent <==> Edge(c, d) in before.hasParent)
  }

  /** Each new vertex has the code and label of what it is a clone of and a link to it; nothing else is different. */
  ghost predicate GainsClones(
      before: Graph, after: Graph, origin: map<Id, Id>, ids: set<Id>, kind: Kind, codeListID: string, hasData: bool)
  {
    && after.hasParent == before.hasParent
    && (forall v :: VertexOrClone(before, after, origin, ids, kind, codeListID, hasData, v))
    && (forall c :: LinkOf(after, c) == if c in origin && origin[c] in ids then Some(origin[c]) else LinkOf(before, c))
  }

  ghost predicate VertexOrClone(
      before: Graph, after: Graph, origin: map<Id, Id>, ids: set<Id>, kind: Kind, codeListID: string, hasData: bool, v: Id)
  {
    if v in origin && origin[v] in ids && origin[v] in before.vertices then
      v in after.vertices && IsClone(before.vertices[origin[v]], after.vertices[v], kind, codeListID, hasData)
    else
      (v in after.vertices <==> v in before.vertices) && (v in before.vertices ==> after.vertices[v] == before.vertices[v])
  }

  predicate IsClone(original: Vertex, clone: Vertex, kind: Kind, codeListID: string, hasData: bool) {
    && clone.kind == kind && clone.codeList == codeListID && clone.code == original.code && clone.name == original.name
    && clone.hasData == hasData && !clone.remain && clone.numberOfChildren == None
  }

  /** The number of children of the given vertices is that of the edges that come in; nothing else is different. */
  ghost predicate CountsChildren(before: Graph, after: Graph, ids: set<Id>) {
    && after.hasParent == before.hasParent && after.cloneOf == before.cloneOf && after.vertices.Keys == before.vertices.Keys
    && (forall v | v in before.vertices :: CountedOrKept(before, after, ids, v))
  }

  ghost predicate CountedOrKept(before: Graph, after: Graph, ids: set<Id>, v: Id)
    requires v in before.vertices
  {
    && v in after.vertices
    && if v in ids
       then exists n :: after.vertices[v] == before.vertices[v].(numberOfChildren := Some(n)) && IsNumberOfChildren(before, v, n)
       else after.vertices[v] == before.vertices[v]
  }

  /** The sum over all vertices `u` of the number of edges from `u` to `v`. */
  ghost predicate IsNumberOfChildren(g: Graph, v: Id, n: nat) { n == Sum(g.vertices.Keys, u => Count(g.hasParent, Edge(u, v))) }

  /** A vertex of the kind has data if it had or if its code is among the codes; nothing else is different. */
  ghost predicate GainsData(before: Graph, after: Graph, kind: Kind, codes: set<string>) {
    && after.hasParent == before.hasParent && after.cloneOf == before.cloneOf && after.vertices.Keys == before.vertices.Keys
    && (forall v | v in Ids(before, kind) :: v in after.vertices && after.vertices[v] ==
          before.vertices[v].(hasData := before.vertices[v].hasData || before.vertices[v].code in codes))
    && (forall v | v in before.vertices.Keys - Ids(before, kind) :: v in after.vertices && after.vertices[v] == before.vertices[v])
  }

  /** The vertices of the kind that are left are the marked ones; an edge or link is left if neither of its ends is gone. */
  ghost predicate LosesUnmarked(before: Graph, after: Graph, kind: Kind) {
    var gone := before.vertices.Keys - after.vertices.Keys;
    && (forall v | v in after.vertices :: v in before.vertices && after.vertices[v] == before.vertices[v])
    && (forall v :: v in gone <==> v in Ids(before, kind) && !before.vertices[v].remain)
    && (forall e :: e in after.hasParent <==> e in before.hasParent && e.src !in gone && e.dst !in gone)
    && (forall e | e in after.hasParent :: after.hasParent[e] == before.hasParent[e])
    && (forall c :: LinkOf(after, c) ==
          if c in before.cloneOf && c !in gone && before.cloneOf[c] !in gone then LinkOf(before, c) else None)
  }

  /** No vertex of the kind has a marker any more; nothing else is different. */
  ghost predicate LosesMarkers(before: Graph, after: Graph, kind: Kind) {
    && after.hasParent == before.hasParent && after.cloneOf == before.cloneOf && after.vertices.Keys == before.vertices.Keys
    && (forall v | v in Ids(before, kind) :: v in after.vertices && after.vertices[v] == before.vertices[v].(remain := false))
    && (forall v | v in before.vertices.Keys - Ids(before, kind) :: v in after.vertices && after.vertices[v] == before.vertices[v])
  }

  lemma RelationshipsGained(g: Graph, ids: set<Id>, kind: Kind)
    ensures GainsRelationships(g, CloneRelationships(g, ids, kind), ids, kind)
  {
    var after := CloneRelationships(g, ids, kind);
    forall c, d ensures EdgesGained(g, after, ids, kind, c, d) {
      assert Edge(c, d) in Pairs(g.cloneOf.Keys) <==> c in g.cloneOf && d in g.cloneOf;
    }
  }

  lemma ClonesGained(g: Graph, origin: map<Id, Id>, ids: set<Id>, kind: Kind, codeListID: string, hasData: bool)
    ensures var some := map c | c in origin && origin[c] in ids :: origin[c];
      GainsClones(g, CloneNodes(g, some, kind, codeListID, hasData), origin, ids, kind, codeListID, hasData)
  {
    var some := map c | c in origin && origin[c] in ids :: origin[c];
    var after := CloneNodes(g, some, kind, codeListID, hasData);
    forall v ensures VertexOrClone(g, after, origin, ids, kind, codeListID, hasData, v) {
    }
    forall c ensures LinkOf(after, c) == if c in origin && origin[c] in ids then Some(origin[c]) else LinkOf(g, c) {
      assert c in some <==> c in origin && origin[c] in ids;
    }
  }

  lemma ChildrenCounted(g: Graph, ids: set<Id>)
    ensures CountsChildren(g, SetNumberOfChildren(g, ids), ids)
  {
    var after := SetNumberOfChildren(g, ids);
    forall v | v in g.vertices ensures CountedOrKept(g, after, ids, v) {
      var n := InDegree(g.vertices.Keys, g.hasParent, v);
      SumSame(g.vertices.Keys, Into(g.hasParent, v), u => Count(g.hasParent, Edge(u, v)));
      assert IsNumberOfChildren(g, v, n);
    }
  }

  lemma MarkersGained(g: Graph, kind: Kind)
    ensures GainsMarkers(g, Mark(g, NeptuneMarks(g, kind)), kind)
  {
    forall v | v in g.vertices ensures v in NeptuneMarks(g, kind) <==> HasDataBelow(g, kind, v) {
      if HasDataBelow(g, kind, v) {
        var s :| s in Ids(g, kind) && g.vertices[s].hasData && (s == v || Above(g.hasParent, s, v));
        assert s in WithData(g, kind);
      }
      if v in Ancestors(g, WithData(g, kind)) {
        var s :| s in WithData(g, kind) && Above(g.hasParent, s, v);
      }
    }
  }

  // Each of these determines the graph.

  lemma LosesLinksIs(before: Graph, after: Graph, ids: set<Id>)
    requires LosesLinks(before, after, ids)
    ensures after == RemoveCloneEdges(before, ids)
  {
    var expected := before.cloneOf - ids;
    forall c ensures LinkOf(after, c) == if c in expected then Some(expected[c]) else None {
    }
    assert after.cloneOf == expected;
  }

  lemma GainsDataIs(before: Graph, after: Graph, kind: Kind, codes: set<string>)
    requires GainsData(before, after, kind, codes)
    ensures after == SetHasData(before, kind, codes)
  {
    forall v | v in before.vertices ensures after.vertices[v] == Flagged(before.vertices[v], kind, codes) {
    }
  }

  lemma LosesUnmarkedIs(before: Graph, after: Graph, kind: Kind)
    requires LosesUnmarked(before, after, kind)
    ensures after == RemoveNodesNotMarked(before, kind)
  {
    var expected := RemoveNodesNotMarked(before, kind);
    forall v ensures Goes(before, kind, v) <==> v in before.vertices.Keys - after.vertices.Keys {
    }
    assert after.vertices == expected.vertices;
    assert after.hasParent == expected.hasParent;
    forall c ensures LinkOf(after, c) == LinkOf(expected, c) {
    }
    assert forall c :: c in after.cloneOf <==> LinkOf(after, c).Some?;
    assert after.cloneOf == expected.cloneOf;
  }

  lemma LosesMarkersIs(before: Graph, after: Graph, kind: Kind)
    requires LosesMarkers(before, after, kind)
    ensures after == RemoveRemainMarker(before, kind)
  {
    assert after.vertices == RemoveRemainMarker(before, kind).vertices;
  }

  // ---------------------------------------------------------------- the root

  predicate HasNoParent(g: Graph, v: Id) { forall e | e in g.hasParent :: e.src != v }

  function Parentless(g: Graph, kind: Kind): set<Id> { set v | v in Ids(g, kind) && HasNoParent(g, v) }

  datatype RootResult = Found(vertex: Id) | ErrNotFound | ErrMultipleFound

  /** What GetHierarchyRoot answers. */
  ghost predicate RootIs(g: Graph, kind: Kind, r: RootResult) {
    match r
    case Found(v) => Parentless(g, kind) == {v}
    case ErrNotFound => Parentless(g, kind) == {}
    case ErrMultipleFound => exists a, b :: a in Parentless(g, kind) && b in Parentless(g, kind) && a != b
  }
}
