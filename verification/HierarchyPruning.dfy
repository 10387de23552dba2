/**
 Pruning: what survives mark, remove and unmark, when a single root is left, and how Neo4j's marking statement differs
 from Neptune's.
 */
module HierarchyPruning {
  import opened HierarchyGraph
  import opened HierarchyQueries

  ghost predicate NoMarkers(g: Graph, kind: Kind) { forall v | v in Ids(g, kind) :: !g.vertices[v].remain }

  /** MarkNodesToRemain, RemoveNodesNotMarkedToRemain, RemoveRemainMarker. */
  ghost function Prune(g: Graph, kind: Kind): Graph {
    RemoveRemainMarker(RemoveNodesNotMarked(Mark(g, NeptuneMarks(g, kind)), kind), kind)
  }

  /** The part of the graph on the given vertices with all edges between them. */
  ghost function Induced(g: Graph, ids: set<Id>): Graph {
    Graph(
      map v | v in g.vertices && v in ids :: g.vertices[v],
      map e | e in g.hasParent && e.src in ids && e.dst in ids :: g.hasParent[e],
      map c | c in g.cloneOf && c in ids && g.cloneOf[c] in ids :: g.cloneOf[c])
  }

  ghost function Survivors(g: Graph, kind: Kind): set<Id> {
    (g.vertices.Keys - Ids(g, kind)) + NeptuneMarks(g, kind)
  }

  // ---------------------------------------------------------------- going up

  lemma {:induction false} ClimbStaysInKind(g: Graph, kind: Kind, a: Id, b: Id, n: nat)
    requires KindClosed(g, kind) && a in Ids(g, kind) && Climb(g.hasParent, a, b, n)
    ensures b in Ids(g, kind)
    decreases n
  {
    if n > 0 {
      var x :| ClimbVia(g.hasParent, a, x, b, n);
      ClimbStaysInKind(g, kind, x, b, n - 1);
    }
  }

  lemma AboveStaysInKind(g: Graph, kind: Kind, a: Id, b: Id)
    requires KindClosed(g, kind) && a in Ids(g, kind) && Above(g.hasParent, a, b)
    ensures b in Ids(g, kind)
  {
    var n: nat :| n > 0 && Climb(g.hasParent, a, b, n);
    ClimbStaysInKind(g, kind, a, b, n);
  }

  lemma MarksStayInKind(g: Graph, kind: Kind)
    requires KindClosed(g, kind)
    ensures NeptuneMarks(g, kind) <= Ids(g, kind)
  {
    forall v | v in Ancestors(g, WithData(g, kind)) ensures v in Ids(g, kind) {
      var d :| d in WithData(g, kind) && Above(g.hasParent, d, v);
      AboveStaysInKind(g, kind, d, v);
    }
  }

  /** Vertices together with all their ancestors are closed under parents. */
  lemma ParentIsAbove(g: Graph, ids: set<Id>, v: Id, p: Id)
    requires WellFormed(g) && v in ids + Ancestors(g, ids) && Edge(v, p) in g.hasParent
    ensures p in Ancestors(g, ids)
  {
    OneStep(g.hasParent, v, p);
    if v in ids {
      assert AboveSome(g.hasParent, ids, p);
    } else {
      var d :| d in ids && Above(g.hasParent, d, v);
      AboveTransitive(g.hasParent, d, v, p);
      assert AboveSome(g.hasParent, ids, p);
    }
  }

  /** Without cycles, going up ends at a vertex that has no parent. */
  lemma {:induction false} ReachesRoot(g: Graph, kind: Kind, v: Id) returns (r: Id)
    requires WellFormed(g) && Acyclic(g, kind) && KindClosed(g, kind) && v in Ids(g, kind)
    ensures r in Parentless(g, kind) && (r == v || Above(g.hasParent, v, r))
    decreases Rank(g, v)
  {
    if HasNoParent(g, v) {
      r := v;
    } else {
      var e :| e in g.hasParent && e.src == v;
      assert e == Edge(v, e.dst);
      ParentRanksLower(g, v, e.dst);
      r := ReachesRoot(g, kind, e.dst);
      OneStep(g.hasParent, v, e.dst);
      if r != e.dst {
        AboveTransitive(g.hasParent, v, e.dst, r);
      }
    }
  }

  // ---------------------------------------------------------------- pruning is exact

  /** The vertices with data and all their ancestors are left, with all edges between them, and no marker. */
  lemma PruningIsExact(g: Graph, kind: Kind)
    requires WellFormed(g) && KindClosed(g, kind) && NoMarkers(g, kind)
    ensures Prune(g, kind) == Induced(g, Survivors(g, kind))
    ensures Ids(Prune(g, kind), kind) == NeptuneMarks(g, kind) && NoMarkers(Prune(g, kind), kind)
  {
    MarksStayInKind(g, kind);
    RemovingTheRest(g, kind, NeptuneMarks(g, kind));
    Unmarking(g, kind, NeptuneMarks(g, kind));
    assert (g.vertices.Keys - Ids(g, kind)) + NeptuneMarks(g, kind) == Survivors(g, kind);
    assert Ids(Induced(g, Survivors(g, kind)), kind) == NeptuneMarks(g, kind);
  }

  lemma RemovingTheRest(g: Graph, kind: Kind, marks: set<Id>)
    requires WellFormed(g) && NoMarkers(g, kind) && marks <= Ids(g, kind)
    ensures RemoveNodesNotMarked(Mark(g, marks), kind) == Mark(Induced(g, (g.vertices.Keys - Ids(g, kind)) + marks), marks)
  {
    var left := (g.vertices.Keys - Ids(g, kind)) + marks;
    forall v | v in g.vertices ensures Goes(Mark(g, marks), kind, v) <==> v !in left {
      assert v in Ids(g, kind) <==> g.vertices[v].kind == kind;
    }
    RemovingVertices(g, kind, marks, left);
    RemovingEdges(g, Mark(g, marks), kind, left);
  }

  lemma RemovingVertices(g: Graph, kind: Kind, marks: set<Id>, left: set<Id>)
    requires forall v | v in g.vertices :: Goes(Mark(g, marks), kind, v) <==> v !in left
    ensures RemoveNodesNotMarked(Mark(g, marks), kind).vertices == Mark(Induced(g, left), marks).vertices
  {
  }

  lemma RemovingEdges(g: Graph, marked: Graph, kind: Kind, left: set<Id>)
    requires WellFormed(g) && marked.hasParent == g.hasParent && marked.cloneOf == g.cloneOf
    requires forall v | v in g.vertices :: Goes(marked, kind, v) <==> v !in left
    ensures RemoveNodesNotMarked(marked, kind).hasParent == Induced(g, left).hasParent
    ensures RemoveNodesNotMarked(marked, kind).cloneOf == Induced(g, left).cloneOf
  {
  }

  lemma Unmarking(g: Graph, kind: Kind, marks: set<Id>)
    requires NoMarkers(g, kind) && marks <= Ids(g, kind)
    ensures var left := Induced(g, (g.vertices.Keys - Ids(g, kind)) + marks);
      RemoveRemainMarker(Mark(left, marks), kind) == left
  {
    var left := Induced(g, (g.vertices.Keys - Ids(g, kind)) + marks);
    assert RemoveRemainMarker(Mark(left, marks), kind).vertices == left.vertices;
  }

  lemma RootsThatAreLeft(g: Graph, kind: Kind)
    requires WellFormed(g) && KindClosed(g, kind) && NoMarkers(g, kind)
    ensures Parentless(Prune(g, kind), kind) == Parentless(g, kind) * NeptuneMarks(g, kind)
  {
    PruningIsExact(g, kind);
    MarksStayInKind(g, kind);
    var p := Prune(g, kind);
    forall v | v in NeptuneMarks(g, kind) ensures HasNoParent(p, v) <==> HasNoParent(g, v) {
      if !HasNoParent(g, v) {
        var e :| e in g.hasParent && e.src == v;
        assert e == Edge(v, e.dst);
        ParentIsAbove(g, WithData(g, kind), v, e.dst);
        assert e in p.hasParent;
      }
    }
  }

  /** A hierarchy with one root keeps exactly that root if some vertex has data; otherwise nothing is left of it. */
  lemma SingleRootRemains(g: Graph, kind: Kind, r: Id)
    requires WellFormed(g) && KindClosed(g, kind) && NoMarkers(g, kind)
    requires Acyclic(g, kind) && Parentless(g, kind) == {r}
    ensures WithData(g, kind) != {} ==> Parentless(Prune(g, kind), kind) == {r}
    ensures WithData(g, kind) == {} ==> Ids(Prune(g, kind), kind) == {}
  {
    PruningIsExact(g, kind);
    RootsThatAreLeft(g, kind);
    if WithData(g, kind) != {} {
      var d :| d in WithData(g, kind);
      RootIsAbove(g, kind, r, d);
      assert d != r ==> AboveSome(g.hasParent, WithData(g, kind), r);
    } else {
      assert forall v :: !AboveSome(g.hasParent, WithData(g, kind), v);
    }
  }

  lemma RootIsAbove(g: Graph, kind: Kind, r: Id, v: Id)
    requires WellFormed(g) && KindClosed(g, kind) && Acyclic(g, kind)
    requires Parentless(g, kind) == {r} && v in Ids(g, kind)
    ensures v == r || Above(g.hasParent, v, r)
    ensures r in g.vertices
  {
    var top := ReachesRoot(g, kind, v);
    assert r in Parentless(g, kind);
  }

  // ---------------------------------------------------------------- Neo4j's marking

  ghost predicate SomeAbove(g: Graph, ids: set<Id>, v: Id) { exists p :: p in ids && Above(g.hasParent, v, p) }

  /** Every pair of a vertex with data and an ancestor of it: both are marked. */
  ghost function Neo4jMarks(g: Graph, kind: Kind): set<Id> {
    (set p | p in Ids(g, kind) && AboveSome(g.hasParent, WithData(g, kind), p)) +
    (set c | c in WithData(g, kind) && SomeAbove(g, Ids(g, kind), c))
  }

  /** The vertices with data that have no parent and nothing with data below them. */
  ghost function Lonely(g: Graph, kind: Kind): set<Id> {
    set v | v in WithData(g, kind) && HasNoParent(g, v) && !AboveSome(g.hasParent, WithData(g, kind), v)
  }

  lemma HasParentIffSomeAbove(g: Graph, kind: Kind, v: Id)
    requires KindClosed(g, kind) && v in Ids(g, kind)
    ensures SomeAbove(g, Ids(g, kind), v) <==> !HasNoParent(g, v)
  {
    if !HasNoParent(g, v) {
      var e :| e in g.hasParent && e.src == v;
      OneStep(g.hasParent, v, e.dst);
    }
    if SomeAbove(g, Ids(g, kind), v) {
      var p :| p in Ids(g, kind) && Above(g.hasParent, v, p);
      var m := FirstStep(g.hasParent, v, p);
    }
  }

  /** Neo4j marks what Neptune marks except the lonely vertices. */
  lemma Neo4jMarksLess(g: Graph, kind: Kind)
    requires KindClosed(g, kind)
    ensures Neo4jMarks(g, kind) == NeptuneMarks(g, kind) - Lonely(g, kind)
  {
    MarksStayInKind(g, kind);
    forall v | v in WithData(g, kind) ensures SomeAbove(g, Ids(g, kind), v) <==> !HasNoParent(g, v) {
      HasParentIffSomeAbove(g, kind, v);
    }
    forall v | v in Ids(g, kind) ensures v in Neo4jMarks(g, kind) <==> v in NeptuneMarks(g, kind) - Lonely(g, kind) {
      assert v in Ancestors(g, WithData(g, kind)) <==> AboveSome(g.hasParent, WithData(g, kind), v);
    }
  }

  /** In a hierarchy with one root the two statements mark the same vertices unless only the root has data. */
  lemma MarksAgreeIff(g: Graph, kind: Kind, r: Id)
    requires WellFormed(g) && KindClosed(g, kind) && Acyclic(g, kind) && Parentless(g, kind) == {r}
    ensures Neo4jMarks(g, kind) == NeptuneMarks(g, kind) <==> WithData(g, kind) != {r}
  {
    Neo4jMarksLess(g, kind);
    OnlyRootIsLonely(g, kind, r);
    assert Lonely(g, kind) <= NeptuneMarks(g, kind);
    if WithData(g, kind) == {r} {
      assert r in NeptuneMarks(g, kind) && r !in Neo4jMarks(g, kind);
    }
  }

  lemma OnlyRootIsLonely(g: Graph, kind: Kind, r: Id)
    requires WellFormed(g) && KindClosed(g, kind) && Acyclic(g, kind) && Parentless(g, kind) == {r}
    ensures Lonely(g, kind) == if WithData(g, kind) == {r} then {r} else {}
  {
    forall v | v in WithData(g, kind) && v != r ensures Above(g.hasParent, v, r) && v !in Lonely(g, kind) {
      RootIsAbove(g, kind, r, v);
      assert v !in Parentless(g, kind);
    }
    if WithData(g, kind) == {r} {
      assert r in Parentless(g, kind);
      forall d | d in WithData(g, kind) ensures !Above(g.hasParent, d, r) {
        assert d == r;
      }
      assert r in Lonely(g, kind);
    } else if r in WithData(g, kind) {
      var d :| d in WithData(g, kind) && d != r;
      assert AboveSome(g.hasParent, WithData(g, kind), r);
    }
  }
}
