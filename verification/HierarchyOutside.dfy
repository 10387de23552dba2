/** Every step of building a hierarchy leaves alone what is not part of it. */
module HierarchyOutside {
  import opened Options
  import opened HierarchyGraph
  import opened HierarchyQueries
  import opened HierarchyPruning

  /** The stored graph without the hierarchy. */
  ghost function Outside(g: Graph, kind: Kind): Graph { Induced(g, Others(g, kind)) }

  ghost function Others(g: Graph, kind: Kind): set<Id> { g.vertices.Keys - Ids(g, kind) }

  ghost predicate SameVertices(a: Graph, b: Graph, kind: Kind) {
    && (forall v :: v in Others(a, kind) <==> v in Others(b, kind))
    && (forall v | v in Others(a, kind) :: v in a.vertices && v in b.vertices && a.vertices[v] == b.vertices[v])
  }

  ghost predicate SameEdges(a: Graph, b: Graph, kind: Kind) {
    forall e: Edge | e.src in Others(a, kind) && e.dst in Others(a, kind) ::
      (e in a.hasParent <==> e in b.hasParent) && Count(a.hasParent, e) == Count(b.hasParent, e)
  }

  ghost predicate SameLinks(a: Graph, b: Graph, kind: Kind) {
    forall c | c in Others(a, kind) :: LinkAmong(a, Others(a, kind), c) == LinkAmong(b, Others(a, kind), c)
  }

  ghost function LinkAmong(g: Graph, ids: set<Id>, c: Id): Option<Id> {
    if c in g.cloneOf && g.cloneOf[c] in ids then Some(g.cloneOf[c]) else None
  }

  lemma SameOutside(a: Graph, b: Graph, kind: Kind)
    requires SameVertices(a, b, kind) && SameEdges(a, b, kind) && SameLinks(a, b, kind)
    ensures Outside(a, kind) == Outside(b, kind)
  {
    assert Others(a, kind) == Others(b, kind);
    SameInducedEdges(a, b, kind);
    SameInducedLinks(a, b, kind);
  }

  lemma SameInducedEdges(a: Graph, b: Graph, kind: Kind)
    requires Others(a, kind) == Others(b, kind) && SameEdges(a, b, kind)
    ensures Outside(a, kind).hasParent == Outside(b, kind).hasParent
  {
  }

  lemma SameInducedLinks(a: Graph, b: Graph, kind: Kind)
    requires Others(a, kind) == Others(b, kind) && SameLinks(a, b, kind)
    ensures Outside(a, kind).cloneOf == Outside(b, kind).cloneOf
  {
    var ids := Others(a, kind);
    forall c | c in ids
      ensures c in Outside(a, kind).cloneOf <==> LinkAmong(a, ids, c).Some?
      ensures c in Outside(b, kind).cloneOf <==> LinkAmong(b, ids, c).Some?
    {
    }
    forall c | c in ids && LinkAmong(a, ids, c).Some? ensures Outside(a, kind).cloneOf[c] == Outside(b, kind).cloneOf[c] {
      assert LinkAmong(a, ids, c) == LinkAmong(b, ids, c);
    }
  }

  /** Where there is no hierarchy yet, that is everything. */
  lemma NothingInside(g: Graph, kind: Kind)
    requires WellFormed(g) && Ids(g, kind) == {}
    ensures Outside(g, kind) == g
  {
    var o := Outside(g, kind);
    assert o.vertices == g.vertices;
    assert o.hasParent == g.hasParent;
    assert o.cloneOf == g.cloneOf;
  }

  // ---------------------------------------------------------------- the steps

  lemma CloningStaysInside(g: Graph, origin: map<Id, Id>, kind: Kind, codeListID: string, hasData: bool)
    requires origin.Keys !! g.vertices.Keys && origin.Values <= g.vertices.Keys
    ensures Outside(CloneNodes(g, origin, kind, codeListID, hasData), kind) == Outside(g, kind)
  {
    CloningSameVertices(g, origin, kind, codeListID, hasData);
    var after := CloneNodes(g, origin, kind, codeListID, hasData);
    SameOutside(after, g, kind);
  }

  lemma CloningSameVertices(g: Graph, origin: map<Id, Id>, kind: Kind, codeListID: string, hasData: bool)
    requires origin.Keys !! g.vertices.Keys && origin.Values <= g.vertices.Keys
    ensures SameVertices(CloneNodes(g, origin, kind, codeListID, hasData), g, kind)
    ensures forall v | v in Others(CloneNodes(g, origin, kind, codeListID, hasData), kind) :: v !in origin
  {
    var after := CloneNodes(g, origin, kind, codeListID, hasData);
    forall c | c in origin ensures c in after.vertices && after.vertices[c].kind == kind {
      assert origin[c] in origin.Values;
    }
  }

  lemma RelatingStaysInside(g: Graph, ids: set<Id>, kind: Kind)
    ensures Outside(CloneRelationships(g, ids, kind), kind) == Outside(g, kind)
  {
    var after := CloneRelationships(g, ids, kind);
    assert Ids(after, kind) == Ids(g, kind);
    forall e | e in NewRelationships(g, ids, kind) ensures e.src in Ids(g, kind) {
    }
    SameOutside(after, g, kind);
  }

  lemma UnlinkingStaysInside(g: Graph, ids: set<Id>, kind: Kind)
    requires ids <= Ids(g, kind)
    ensures Outside(RemoveCloneEdges(g, ids), kind) == Outside(g, kind)
  {
    SameOutside(RemoveCloneEdges(g, ids), g, kind);
  }

  /** Only properties other than the label change, and only of vertices of the kind. */
  ghost predicate OnlyProperties(before: Graph, after: Graph, kind: Kind) {
    && after.hasParent == before.hasParent && after.cloneOf == before.cloneOf && after.vertices.Keys == before.vertices.Keys
    && forall v | v in before.vertices :: v in after.vertices && after.vertices[v].kind == before.vertices[v].kind
         && (v in Ids(before, kind) || after.vertices[v] == before.vertices[v])
  }

  lemma PropertiesStayInside(before: Graph, after: Graph, kind: Kind)
    requires OnlyProperties(before, after, kind)
    ensures Outside(after, kind) == Outside(before, kind)
  {
    assert Ids(after, kind) == Ids(before, kind);
    SameOutside(after, before, kind);
  }

  lemma MarkingStaysInside(g: Graph, ids: set<Id>, kind: Kind)
    requires ids <= Ids(g, kind)
    ensures Outside(Mark(g, ids), kind) == Outside(g, kind)
  {
    PropertiesStayInside(g, Mark(g, ids), kind);
  }

  lemma CountingStaysInside(g: Graph, ids: set<Id>, kind: Kind)
    requires ids <= Ids(g, kind)
    ensures Outside(SetNumberOfChildren(g, ids), kind) == Outside(g, kind)
  {
    PropertiesStayInside(g, SetNumberOfChildren(g, ids), kind);
  }

  lemma RemovingStaysInside(g: Graph, kind: Kind)
    ensures Outside(RemoveNodesNotMarked(g, kind), kind) == Outside(g, kind)
  {
    var after := RemoveNodesNotMarked(g, kind);
    SameOutside(after, g, kind);
  }
}
