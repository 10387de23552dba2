/** What a caller can rely on: the two algorithms agree, and the hierarchy they build has exactly one root if it has data. */
module HierarchyResult {
  import opened HierarchyGraph
  import opened HierarchyQueries
  import opened HierarchyPruning
  import opened HierarchyCloning
  import opened HierarchyAgreement

  /** Renaming the vertices of the kind one to one turns one graph into the other: all properties and all edges match. */
  ghost predicate Renames(a: Graph, b: Graph, kind: Kind, rename: map<Id, Id>) {
    && Injective(rename) && rename.Keys == Ids(a, kind) && rename.Values == Ids(b, kind)
    && (forall c | c in rename :: c in a.vertices && rename[c] in b.vertices && a.vertices[c] == b.vertices[rename[c]])
    && (forall c, d | c in rename && d in rename ::
      Count(a.hasParent, Edge(c, d)) == Count(b.hasParent, Edge(rename[c], rename[d])))
  }

  /** Pairs up the elements of two one-to-one maps with the same values. */
  ghost predicate PairsUp(a: map<Id, Id>, b: map<Id, Id>, rename: map<Id, Id>) {
    && Injective(rename) && rename.Keys == a.Keys && rename.Values == b.Keys
    && forall c | c in rename :: c in a && rename[c] in b && b[rename[c]] == a[c]
  }

  ghost function KeyOf(m: map<Id, Id>, v: Id): (k: Id)
    requires v in m.Values
    ensures k in m && m[k] == v
  {
    var k :| k in m && m[k] == v;
    k
  }

  lemma Pairing(a: map<Id, Id>, b: map<Id, Id>) returns (rename: map<Id, Id>)
    requires Injective(a) && Injective(b) && a.Values == b.Values
    ensures PairsUp(a, b, rename)
  {
    rename := map c | c in a && a[c] in b.Values :: KeyOf(b, a[c]);
    forall c | c in a ensures c in rename {
      assert a[c] in a.Values;
    }
    forall d | d in b ensures d in rename.Values {
      assert b[d] in a.Values;
      var c := KeyOf(a, b[d]);
      assert rename[c] == d;
    }
  }

  lemma SameDescription(
      g: Graph, x: Graph, y: Graph, a: map<Id, Id>, b: map<Id, Id>, rename: map<Id, Id>,
      kind: Kind, codeListID: string, codes: set<string>, n: Id -> nat)
    requires PairsUp(a, b, rename)
    requires DescribesClones(g, x, a, kind, codeListID, codes, n) && CopiesEdges(g, x, a)
    requires DescribesClones(g, y, b, kind, codeListID, codes, n) && CopiesEdges(g, y, b)
    ensures Renames(x, y, kind, rename)
  {
  }

  /**
   The two algorithms agree: whatever ids the database chooses, the hierarchies they build differ only in those ids, and
   neither changes anything else.
   */
  lemma AlgorithmsAgree(
      g: Graph, origin: map<Id, Id>, first: map<Id, Id>, second: map<Id, Id>, kind: Kind, codeListID: string, codes: set<string>)
      returns (rename: map<Id, Id>)
    requires Ready(g, kind, codeListID) && Allocates(g, Ids(g, Generic(codeListID)), origin)
    requires AllocatesBoth(g, first, second, kind, codeListID, codes)
    ensures var a := CloneAllThenPrune(g, origin, kind, codeListID, codes);
      var b := CloneOnlyNeeded(g, first, second, kind, codeListID, codes);
      Renames(a, b, kind, rename) && OnlyAdds(g, a, kind) && OnlyAdds(g, b, kind)
  {
    var kept := Kept(g, codeListID, codes);
    CloneAllThenPruneIs(g, origin, kind, codeListID, codes);
    CloneOnlyNeededIs(g, first, second, kind, codeListID, codes);
    InstantiateIs(g, Restrict(origin, kept), kind, codeListID, codes);
    InstantiateIs(g, first + second, kind, codeListID, codes);
    rename := Pairing(Restrict(origin, kept), first + second);
    SameDescription(
      g, CloneAllThenPrune(g, origin, kind, codeListID, codes), CloneOnlyNeeded(g, first, second, kind, codeListID, codes),
      Restrict(origin, kept), first + second, rename, kind, codeListID, codes, ChildrenAmong(g, kept));
  }

  // ---------------------------------------------------------------- the root

  /** A clone has no parent exactly if its original has none, because the parents of what is kept are kept. */
  lemma ParentlessClones(g: Graph, r: Graph, origin: map<Id, Id>, kind: Kind, codeListID: string, codes: set<string>)
    requires Ready(g, kind, codeListID) && Origins(g, codeListID, origin) && origin.Values == Kept(g, codeListID, codes)
    requires Ids(r, kind) == origin.Keys && r.hasParent == WiredEdges(g, origin)
    ensures forall c | c in origin :: HasNoParent(r, c) <==> HasNoParent(g, origin[c])
  {
    forall c | c in origin ensures HasNoParent(r, c) <==> HasNoParent(g, origin[c]) {
      if !HasNoParent(r, c) {
        var e :| e in r.hasParent && e.src == c;
        EdgeOfClone(g, origin, c, e.dst);
        assert e == Edge(c, e.dst);
      }
      if !HasNoParent(g, origin[c]) {
        var e :| e in g.hasParent && e.src == origin[c];
        assert e == Edge(origin[c], e.dst) && origin[c] in origin.Values;
        ParentIsAbove(g, Data(g, codeListID, codes), origin[c], e.dst);
        EdgeOfClone(g, origin, c, KeyOf(origin, e.dst));
      }
    }
  }

  /**
   If the generic hierarchy has one root, looking for the root of what was built finds its clone exactly when some node
   has data; it never finds several.
   */
  lemma BuiltHierarchyHasRoot(
      g: Graph, origin: map<Id, Id>, kind: Kind, codeListID: string, codes: set<string>, root: Id)
    requires Ready(g, kind, codeListID) && Origins(g, codeListID, origin) && origin.Values == Kept(g, codeListID, codes)
    requires Acyclic(g, Generic(codeListID)) && Parentless(g, Generic(codeListID)) == {root}
    ensures Data(g, codeListID, codes) != {} <==> root in origin.Values
    ensures RootIs(
              Instantiate(g, origin, kind, codeListID, Data(g, codeListID, codes)), kind,
              if Data(g, codeListID, codes) != {} then Found(KeyOf(origin, root)) else ErrNotFound)
  {
    RootIsKeptIff(g, codeListID, codes, root);
    InstantiatedIds(g, origin, kind, codeListID, codes);
    RootOfClones(g, Instantiate(g, origin, kind, codeListID, Data(g, codeListID, codes)), origin, kind, codeListID, codes, root);
  }

  lemma InstantiatedIds(g: Graph, origin: map<Id, Id>, kind: Kind, codeListID: string, codes: set<string>)
    requires Ready(g, kind, codeListID) && Origins(g, codeListID, origin)
    ensures var r := Instantiate(g, origin, kind, codeListID, Data(g, codeListID, codes));
      Ids(r, kind) == origin.Keys && r.hasParent == WiredEdges(g, origin)
  {
    InstantiateIs(g, origin, kind, codeListID, codes);
  }

  lemma RootOfClones(
      g: Graph, r: Graph, origin: map<Id, Id>, kind: Kind, codeListID: string, codes: set<string>, root: Id)
    requires Ready(g, kind, codeListID) && Origins(g, codeListID, origin) && origin.Values == Kept(g, codeListID, codes)
    requires Ids(r, kind) == origin.Keys && r.hasParent == WiredEdges(g, origin)
    requires Parentless(g, Generic(codeListID)) == {root}
    ensures RootIs(r, kind, if root in origin.Values then Found(KeyOf(origin, root)) else ErrNotFound)
  {
    OnlyRootIsParentless(g, r, origin, kind, codeListID, codes, root);
    forall c | c in origin && origin[c] == root ensures root in origin.Values && c == KeyOf(origin, root) {
      assert origin[c] in origin.Values;
    }
  }

  lemma OnlyRootIsParentless(
      g: Graph, r: Graph, origin: map<Id, Id>, kind: Kind, codeListID: string, codes: set<string>, root: Id)
    requires Ready(g, kind, codeListID) && Origins(g, codeListID, origin) && origin.Values == Kept(g, codeListID, codes)
    requires Ids(r, kind) == origin.Keys && r.hasParent == WiredEdges(g, origin)
    requires Parentless(g, Generic(codeListID)) == {root}
    ensures Parentless(r, kind) == set c | c in origin && origin[c] == root
  {
    ParentlessClones(g, r, origin, kind, codeListID, codes);
    forall c | c in origin ensures c in Parentless(r, kind) <==> origin[c] == root {
      assert origin[c] in origin.Values;
      assert origin[c] in Parentless(g, Generic(codeListID)) <==> HasNoParent(g, origin[c]);
    }
  }

  lemma RootIsKeptIff(g: Graph, codeListID: string, codes: set<string>, root: Id)
    requires WellFormed(g) && KindClosed(g, Generic(codeListID))
    requires Acyclic(g, Generic(codeListID)) && Parentless(g, Generic(codeListID)) == {root}
    ensures root in Kept(g, codeListID, codes) <==> Data(g, codeListID, codes) != {}
  {
    var data := Data(g, codeListID, codes);
    if data != {} {
      var d :| d in data;
      RootIsAbove(g, Generic(codeListID), root, d);
      assert d != root ==> AboveSome(g.hasParent, data, root);
    }
  }
}
