/**
 Neo4j's way of wiring clones: it finds both ends by their codes instead of following links to the originals, and merges,
 so that an edge that is already there is not added again.
 */
module HierarchyNeo4j {
  import opened HierarchyGraph
  import opened HierarchyQueries
  import opened HierarchyCloning
  import opened HierarchyAgreement

  predicate SameCode(g: Graph, v: Id, w: Id) { v in g.vertices && w in g.vertices && g.vertices[v].code == g.vertices[w].code }

  /** `e` is to connect vertices whose codes are those of a generic node and its parent. */
  predicate Mirrors(g: Graph, codeListID: string, below: Edge, e: Edge) {
    && below.src in Ids(g, Generic(codeListID)) && below.dst in Ids(g, Generic(codeListID))
    && SameCode(g, below.src, e.src) && SameCode(g, below.dst, e.dst)
  }

  predicate MirrorsSome(g: Graph, codeListID: string, e: Edge) {
    exists below :: below in g.hasParent && Mirrors(g, codeListID, below, e)
  }

  /** CloneHierarchyRelationships of the Neo4j driver. */
  function MergeRelationships(g: Graph, kind: Kind, codeListID: string): Graph {
    var merged := set e | e in Pairs(Ids(g, kind)) && MirrorsSome(g, codeListID, e);
    g.(hasParent := map e | e in g.hasParent.Keys + merged :: if e in g.hasParent then g.hasParent[e] else 1)
  }

  /** Edge by edge: one edge is there afterwards where none was, for each pair with the codes of a generic node and its parent. */
  ghost predicate MergesExactly(before: Graph, after: Graph, kind: Kind, codeListID: string) {
    && after.vertices == before.vertices && after.cloneOf == before.cloneOf
    && forall c, d :: Count(after.hasParent, Edge(c, d)) ==
         if Edge(c, d) in before.hasParent then Count(before.hasParent, Edge(c, d))
         else if {c, d} <= Ids(before, kind) && HaveCodesOfEdge(before, codeListID, c, d) then 1 else 0
  }

  ghost predicate HaveCodesOfEdge(g: Graph, codeListID: string, c: Id, d: Id) {
    exists p, q :: {p, q} <= Ids(g, Generic(codeListID)) && Edge(p, q) in g.hasParent && SameCode(g, p, c) && SameCode(g, q, d)
  }

  lemma MergesAsStated(g: Graph, kind: Kind, codeListID: string)
    ensures MergesExactly(g, MergeRelationships(g, kind, codeListID), kind, codeListID)
  {
    forall c, d ensures MirrorsSome(g, codeListID, Edge(c, d)) <==> HaveCodesOfEdge(g, codeListID, c, d) {
      if MirrorsSome(g, codeListID, Edge(c, d)) {
        var below :| below in g.hasParent && Mirrors(g, codeListID, below, Edge(c, d));
        assert below == Edge(below.src, below.dst);
      }
      if HaveCodesOfEdge(g, codeListID, c, d) {
        var p, q :| {p, q} <= Ids(g, Generic(codeListID)) && Edge(p, q) in g.hasParent && SameCode(g, p, c) && SameCode(g, q, d);
        assert p in {p, q} && q in {p, q};
        assert Mirrors(g, codeListID, Edge(p, q), Edge(c, d));
      }
    }
    forall c, d ensures Edge(c, d) in Pairs(Ids(g, kind)) <==> {c, d} <= Ids(g, kind) {
      assert c in {c, d} && d in {c, d};
    }
  }

  ghost predicate UniqueCodes(g: Graph, kind: Kind) {
    forall v, w | v in Ids(g, kind) && w in Ids(g, kind) && g.vertices[v].code == g.vertices[w].code :: v == w
  }

  /** No generic node has two edges to the same parent. */
  ghost predicate SimpleEdges(g: Graph, kind: Kind) {
    forall e | e in g.hasParent && e.src in Ids(g, kind) :: g.hasParent[e] == 1
  }

  /** Merging again changes nothing, as long as merged edges do not start at generic nodes: a retry is harmless. */
  lemma MergingIsIdempotent(g: Graph, kind: Kind, codeListID: string)
    requires kind.Instance?
    ensures var once := MergeRelationships(g, kind, codeListID); MergeRelationships(once, kind, codeListID) == once
  {
    var once := MergeRelationships(g, kind, codeListID);
    forall e | MirrorsSome(once, codeListID, e) ensures MirrorsSome(g, codeListID, e) {
      var below :| below in once.hasParent && Mirrors(once, codeListID, below, e);
      assert Mirrors(g, codeListID, below, e);
    }
    assert MergeRelationships(once, kind, codeListID).hasParent == once.hasParent;
  }

  ghost function Ones(edges: map<Edge, nat>): map<Edge, nat> { map e | e in edges :: 1 }

  lemma MirrorsAmongClones(g: Graph, cloned: Graph, origin: map<Id, Id>, kind: Kind, codeListID: string, data: set<Id>, e: Edge)
    requires Ready(g, kind, codeListID) && ClonesAll(g, codeListID, origin) && UniqueCodes(g, Generic(codeListID))
    requires cloned == Cloned(g, origin, kind, codeListID, data) && e.src in origin && e.dst in origin
    ensures MirrorsSome(cloned, codeListID, e) <==> Under(origin, e) in g.hasParent
  {
    var under := Under(origin, e);
    assert under.src in origin.Values && under.dst in origin.Values;
    CloneAt(g, cloned, origin, kind, codeListID, data, e.src);
    CloneAt(g, cloned, origin, kind, codeListID, data, e.dst);
    if under in g.hasParent {
      assert Mirrors(cloned, codeListID, under, e);
    }
    if MirrorsSome(cloned, codeListID, e) {
      var below :| below in cloned.hasParent && Mirrors(cloned, codeListID, below, e);
      GenericAt(g, cloned, origin, kind, codeListID, data, below.src);
      GenericAt(g, cloned, origin, kind, codeListID, data, below.dst);
      assert below == under;
    }
  }

  lemma CloneAt(g: Graph, cloned: Graph, origin: map<Id, Id>, kind: Kind, codeListID: string, data: set<Id>, c: Id)
    requires Origins(g, codeListID, origin) && cloned == Cloned(g, origin, kind, codeListID, data) && c in origin
    ensures origin[c] in Ids(g, Generic(codeListID)) && origin[c] in cloned.vertices && c in cloned.vertices
    ensures cloned.vertices[c].code == g.vertices[origin[c]].code && cloned.vertices[origin[c]] == g.vertices[origin[c]]
  {
    assert origin[c] in origin.Values;
  }

  lemma GenericAt(g: Graph, cloned: Graph, origin: map<Id, Id>, kind: Kind, codeListID: string, data: set<Id>, v: Id)
    requires Origins(g, codeListID, origin) && cloned == Cloned(g, origin, kind, codeListID, data) && kind.Instance?
    requires v in Ids(cloned, Generic(codeListID))
    ensures v in Ids(g, Generic(codeListID)) && cloned.vertices[v] == g.vertices[v]
  {
    if v in origin {
      CloneAt(g, cloned, origin, kind, codeListID, data, v);
    }
  }

  /** With unique codes the merged edges are the edges between originals, each once. */
  lemma MergedEdges(g: Graph, origin: map<Id, Id>, kind: Kind, codeListID: string, data: set<Id>)
    requires Ready(g, kind, codeListID) && ClonesAll(g, codeListID, origin) && UniqueCodes(g, Generic(codeListID))
    ensures MergeRelationships(Cloned(g, origin, kind, codeListID, data), kind, codeListID).hasParent ==
            g.hasParent + Ones(Image(g.hasParent, origin))
  {
    var cloned := Cloned(g, origin, kind, codeListID, data);
    OnlyClonesAreOfKind(g, origin, kind, codeListID, data);
    forall e | e in Pairs(origin.Keys)
      ensures MirrorsSome(cloned, codeListID, e) <==> e in Image(g.hasParent, origin)
      ensures e !in g.hasParent
    {
      MirrorsAmongClones(g, cloned, origin, kind, codeListID, data, e);
    }
    MergedAre(cloned, kind, codeListID, Image(g.hasParent, origin));
  }

  lemma MergedAre(g: Graph, kind: Kind, codeListID: string, added: map<Edge, nat>)
    requires added.Keys <= Pairs(Ids(g, kind)) && added.Keys !! g.hasParent.Keys
    requires forall e | e in Pairs(Ids(g, kind)) :: MirrorsSome(g, codeListID, e) <==> e in added
    ensures MergeRelationships(g, kind, codeListID).hasParent == g.hasParent + Ones(added)
  {
    var merged := set e | e in Pairs(Ids(g, kind)) && MirrorsSome(g, codeListID, e);
    assert merged == added.Keys;
  }

  /**
   With unique codes, the two drivers wire the clones alike exactly if no generic node has two edges to the same parent:
   Neptune copies each of them, Neo4j keeps one.
   */
  lemma WiringAgreesIff(g: Graph, origin: map<Id, Id>, kind: Kind, codeListID: string, data: set<Id>)
    requires Ready(g, kind, codeListID) && ClonesAll(g, codeListID, origin) && UniqueCodes(g, Generic(codeListID))
    ensures MergeRelationships(Cloned(g, origin, kind, codeListID, data), kind, codeListID).hasParent ==
            Wired(g, origin, kind, codeListID, data).hasParent
            <==> SimpleEdges(g, Generic(codeListID))
  {
    MergedEdges(g, origin, kind, codeListID, data);
    OnesAreAllIff(g, origin, codeListID);
  }

  lemma OnesAreAllIff(g: Graph, origin: map<Id, Id>, codeListID: string)
    requires WellFormed(g) && KindClosed(g, Generic(codeListID)) && ClonesAll(g, codeListID, origin)
    ensures g.hasParent + Ones(Image(g.hasParent, origin)) == g.hasParent + Image(g.hasParent, origin)
            <==> SimpleEdges(g, Generic(codeListID))
  {
    var image := Image(g.hasParent, origin);
    if g.hasParent + Ones(image) == g.hasParent + image {
      forall e | e in g.hasParent && e.src in Ids(g, Generic(codeListID)) ensures g.hasParent[e] == 1 {
        var c := CloneOver(g, origin, codeListID, e);
        assert (g.hasParent + Ones(image))[c] == 1;
        assert (g.hasParent + image)[c] == g.hasParent[e];
      }
    }
    if SimpleEdges(g, Generic(codeListID)) {
      forall e | e in image ensures image[e] == 1 {
        assert origin[e.src] in origin.Values;
      }
      assert Ones(image) == image;
    }
  }

  lemma CloneOver(g: Graph, origin: map<Id, Id>, codeListID: string, e: Edge) returns (c: Edge)
    requires KindClosed(g, Generic(codeListID)) && ClonesAll(g, codeListID, origin)
    requires e in g.hasParent && e.src in Ids(g, Generic(codeListID))
    ensures c.src in origin && c.dst in origin && Under(origin, c) == e && c in Image(g.hasParent, origin)
    ensures Image(g.hasParent, origin)[c] == g.hasParent[e]
  {
    assert e.src in origin.Values && e.dst in origin.Values;
    var s :| s in origin && origin[s] == e.src;
    var d :| d in origin && origin[d] == e.dst;
    c := Edge(s, d);
  }
}
