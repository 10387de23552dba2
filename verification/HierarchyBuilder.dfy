/**
 The two orders in which a caller of the driver builds the hierarchy of an instance. When every call succeeds, either one
 leaves the hierarchy that Instantiate describes, so that AlgorithmsAgree relates their results.
 */
module HierarchyBuilder {
  import opened BatchExecutor
  import opened Batching
  import opened HierarchyGraph
  import opened HierarchyQueries
  import opened HierarchyPruning
  import opened HierarchyCloning
  import opened HierarchyAgreement
  import opened HierarchyBatches
  import opened HierarchyDriver
  import opened HierarchyResult
  import opened HierarchyOutside

  /** Clones of a hierarchy without cycles have no cycles. */
  lemma WiredIsAcyclic(g: Graph, origin: map<Id, Id>, kind: Kind, codeListID: string, data: set<Id>)
    requires Ready(g, kind, codeListID) && Origins(g, codeListID, origin) && Acyclic(g, Generic(codeListID))
    ensures Acyclic(Wired(g, origin, kind, codeListID, data), kind)
  {
    var w := Wired(g, origin, kind, codeListID, data);
    OnlyClonesAreOfKind(g, origin, kind, codeListID, data);
    forall c | c in origin
      ensures Above(w.hasParent, c, c) ==> Above(g.hasParent, origin[c], origin[c]) && origin[c] in origin.Values
    {
      if Above(w.hasParent, c, c) {
        var n: nat :| n > 0 && Climb(w.hasParent, c, c, n);
        CloneClimbs(g, origin, c, c, n);
      }
    }
  }

  lemma ClonedFromGenerics(g: Graph, origin: map<Id, Id>, kind: Kind, codeListID: string, data: set<Id>)
    requires Ready(g, kind, codeListID) && Origins(g, codeListID, origin)
    ensures ClonedFromOutside(Cloned(g, origin, kind, codeListID, data), kind)
  {
    OnlyClonesAreOfKind(g, origin, kind, codeListID, data);
    forall c | c in origin ensures origin[c] !in origin {
      assert origin[c] in origin.Values;
    }
  }

  /** Clone everything, then prune. Whether or not all calls succeed, what is not part of the hierarchy is as it was. */
  method CloneEverything(db: NeptuneDB, kind: Kind, codeListID: string, codes: seq<string>)
      returns (ok: bool, ghost origin: map<Id, Id>)
    requires Ready(db.g, kind, codeListID) && Acyclic(db.g, Generic(codeListID))
    modifies db`g
    ensures Allocates(old(db.g), Ids(old(db.g), Generic(codeListID)), origin)
    ensures ok ==> db.g == CloneAllThenPrune(old(db.g), origin, kind, codeListID, Quoted(codes))
    ensures Outside(db.g, kind) == old(db.g)
  {
    ghost var g, withData := db.g, Quoted(codes);
    NothingInside(g, kind);
    ok, origin := db.CloneNodes(kind, codeListID);
    ClonesAreOrigins(g, kind, codeListID, Ids(g, Generic(codeListID)), origin);
    if !ok { return; }
    CloningStaysInside(g, origin, kind, codeListID, false);
    ok := RelateAll(db, kind, codeListID);
    if !ok { return; }
    CloningAllWires(g, origin, kind, codeListID);
    ok := FlagData(db, kind, codes);
    if !ok { return; }
    DataIs(g, origin, kind, codeListID, withData);
    WiredIsSound(g, origin, kind, codeListID, Data(g, codeListID, withData));
    WiredIsAcyclic(g, origin, kind, codeListID, Data(g, codeListID, withData));
    ok := PruneHierarchy(db, kind);
    if !ok { return; }
    CountingStaysInside(db.g, Ids(db.g, kind), kind);
    ok := db.SetNumberOfChildren(kind);
  }

  method RelateAll(db: NeptuneDB, kind: Kind, codeListID: string) returns (ok: bool)
    modifies db`g
    ensures ok ==>
      var related := CloneRelationships(old(db.g), Ids(old(db.g), Generic(codeListID)), kind);
      db.g == RemoveCloneEdges(related, Ids(related, kind))
    ensures Outside(db.g, kind) == Outside(old(db.g), kind)
  {
    ghost var related := CloneRelationships(db.g, Ids(db.g, Generic(codeListID)), kind);
    RelatingStaysInside(db.g, Ids(db.g, Generic(codeListID)), kind);
    UnlinkingStaysInside(related, Ids(related, kind), kind);
    ok := db.CloneRelationships(kind, codeListID);
  }

  method FlagData(db: NeptuneDB, kind: Kind, codes: seq<string>) returns (ok: bool)
    modifies db`g
    ensures ok ==> db.g == SetHasData(old(db.g), kind, Quoted(codes))
    ensures Outside(db.g, kind) == Outside(old(db.g), kind)
  {
    ghost var before := db.g;
    ok := db.SetHasData(kind, codes);
    if ok {
      GainsDataIs(before, db.g, kind, Quoted(codes));
      PropertiesStayInside(before, db.g, kind);
    }
  }

  method PruneHierarchy(db: NeptuneDB, kind: Kind) returns (ok: bool)
    requires Sound(db.g, kind)
    modifies db`g
    ensures ok ==> db.g == Prune(old(db.g), kind)
    ensures Outside(db.g, kind) == Outside(old(db.g), kind)
  {
    MarksStayInKind(db.g, kind);
    MarkingStaysInside(db.g, NeptuneMarks(db.g, kind), kind);
    ok := db.MarkNodesToRemain(kind);
    if !ok { return; }
    ghost var marked := db.g;
    RemovingStaysInside(marked, kind);
    ok := db.RemoveNodesNotMarkedToRemain(kind);
    if !ok { return; }
    LosesUnmarkedIs(marked, db.g, kind);
    ghost var pruned := db.g;
    ok := db.RemoveRemainMarker(kind);
    if ok {
      LosesMarkersIs(pruned, db.g, kind);
      PropertiesStayInside(pruned, db.g, kind);
    }
  }

  /**
   Clone only the nodes with data and their ancestors. However it ends, and also if one of its calls never returns, what is
   not part of the hierarchy is as it was.
   */
  method CloneNeeded(db: NeptuneDB, kind: Kind, codeListID: string, codes: seq<string>)
      returns (result: BatchResult, ghost first: map<Id, Id>, ghost second: map<Id, Id>)
    requires Ready(db.g, kind, codeListID) && Acyclic(db.g, Generic(codeListID))
    modifies db`g
    ensures result == Ended(true) ==> AllocatesBoth(old(db.g), first, second, kind, codeListID, Elements(codes))
    ensures result == Ended(true) ==>
      db.g == CloneOnlyNeeded(old(db.g), first, second, kind, codeListID, Elements(codes))
    ensures Outside(db.g, kind) == old(db.g)
  {
    ghost var g := db.g;
    NothingInside(g, kind);
    var ids: Items;
    result, ids, first, second := CloneNeededNodes(db, kind, codeListID, codes);
    if result != Ended(true) { return; }
    NeededClones(g, first, second, kind, codeListID, Elements(codes));
    ghost var done: set<Id>, c: Config;
    ghost var cloned := db.g;
    result, done, c := db.CloneRelationshipsFromIDs(kind, ids);
    RelatingStaysInside(cloned, done, kind);
    if result != Ended(true) { return; }
    result := Finish(db, kind);
  }

  lemma NeededClones(
      g: Graph, first: map<Id, Id>, second: map<Id, Id>, kind: Kind, codeListID: string, codes: set<string>)
    requires Ready(g, kind, codeListID) && AllocatesBoth(g, first, second, kind, codeListID, codes)
    ensures ClonedFromOutside(CloneNodes(CloneNodes(g, first, kind, codeListID, true), second, kind, codeListID, false), kind)
  {
    BothAreOrigins(g, first, second, kind, codeListID, codes);
    ClonedTwice(g, codeListID, first, second, kind);
    ClonedFromGenerics(g, first + second, kind, codeListID, first.Values);
  }

  method CloneNeededNodes(db: NeptuneDB, kind: Kind, codeListID: string, codes: seq<string>)
      returns (result: BatchResult, ids: Items, ghost first: map<Id, Id>, ghost second: map<Id, Id>)
    requires Sound(db.g, Generic(codeListID))
    modifies db`g
    ensures result == Ended(true) ==> AllocatesBoth(old(db.g), first, second, kind, codeListID, Elements(codes))
    ensures result == Ended(true) ==>
      db.g == CloneNodes(CloneNodes(old(db.g), first, kind, codeListID, true), second, kind, codeListID, false)
    ensures result == Ended(true) ==>
      ids.Keys ==
      GenericNodes(old(db.g), codeListID, Elements(codes)).Keys + Ancestry(old(db.g), codeListID, Elements(codes)).Keys
    ensures Outside(db.g, kind) == Outside(old(db.g), kind)
  {
    ghost var c: Config;
    ids, first, second := map[], map[], map[];
    var nodes: map<Id, string>, above: map<Id, string>;
    result, nodes, c := db.GetGenericHierarchyNodeIDs(codeListID, codes);
    if result != Ended(true) { return; }
    result, above, c := db.GetGenericHierarchyAncestriesIDs(codeListID, codes);
    if result != Ended(true) { return; }
    ids := nodes + above;
    KeysTogether(nodes, above);
    result, first := CloneSome(db, kind, codeListID, nodes, true);
    if result != Ended(true) { return; }
    result, second := CloneSome(db, kind, codeListID, above - nodes.Keys, false);
  }

  method CloneSome(db: NeptuneDB, kind: Kind, codeListID: string, ids: Items, hasData: bool)
      returns (result: BatchResult, ghost origin: map<Id, Id>)
    modifies db`g
    ensures Allocates(old(db.g), ids.Keys, origin)
    ensures result == Ended(true) ==> db.g == CloneNodes(old(db.g), origin, kind, codeListID, hasData)
    ensures Outside(db.g, kind) == Outside(old(db.g), kind)
  {
    ghost var g := db.g;
    ghost var done: set<Id>, c: Config;
    result, origin, done, c := db.CloneNodesFromIDs(kind, codeListID, ids, hasData);
    PartOfOrigin(g, ids.Keys, origin, done);
    CloningStaysInside(g, Restrict(origin, done), kind, codeListID, hasData);
  }

  lemma KeysTogether(a: Items, b: Items)
    ensures (a + b).Keys == a.Keys + b.Keys && (b - a.Keys).Keys == b.Keys - a.Keys
  {
  }

  lemma PartOfOrigin(g: Graph, ids: set<Id>, origin: map<Id, Id>, done: set<Id>)
    requires Allocates(g, ids, origin)
    ensures Restrict(origin, done).Keys !! g.vertices.Keys && Restrict(origin, done).Values <= g.vertices.Keys
  {
    forall c | c in origin ensures origin[c] in g.vertices {
      assert origin[c] in origin.Values;
    }
  }

  /** Drop the links to the originals and count children, for the ids of all clones. */
  method Finish(db: NeptuneDB, kind: Kind) returns (result: BatchResult)
    modifies db`g
    ensures result == Ended(true) ==>
      var unlinked := RemoveCloneEdges(old(db.g), Ids(old(db.g), kind));
      db.g == SetNumberOfChildren(unlinked, Ids(unlinked, kind))
    ensures Outside(db.g, kind) == Outside(old(db.g), kind)
  {
    var ok: bool, ids: Items;
    ghost var done: set<Id>, c: Config;
    ok, ids := db.GetHierarchyNodeIDs(kind);
    if !ok { return Ended(false); }
    ghost var g := db.g;
    result, done, c := db.RemoveCloneEdgesFromSourceIDs(ids);
    UnlinkingStaysInside(g, done, kind);
    if result != Ended(true) { return; }
    g := db.g;
    result, done, c := db.SetNumberOfChildrenFromIDs(ids);
    CountingStaysInside(g, done, kind);
  }

  // ---------------------------------------------------------------- the two orders compared

  ghost predicate HasBlankCode(g: Graph, codeListID: string) {
    exists v :: v in Ids(g, Generic(codeListID)) && g.vertices[v].code == ""
  }

  ghost predicate Isomorphic(a: Graph, b: Graph, kind: Kind) { exists rename :: Renames(a, b, kind, rename) }

  /**
   What the two orders leave differs only in the ids of the clones, with one exception: if there are no codes with data, the
   first marks a generic node whose code is blank, and the second does not.
   */
  lemma OrdersAgreeIff(
      g: Graph, origin: map<Id, Id>, first: map<Id, Id>, second: map<Id, Id>, kind: Kind, codeListID: string, codes: seq<string>)
    requires Ready(g, kind, codeListID) && Allocates(g, Ids(g, Generic(codeListID)), origin)
    requires AllocatesBoth(g, first, second, kind, codeListID, Elements(codes))
    ensures Isomorphic(
              CloneAllThenPrune(g, origin, kind, codeListID, Quoted(codes)),
              CloneOnlyNeeded(g, first, second, kind, codeListID, Elements(codes)), kind)
            <==> codes != [] || !HasBlankCode(g, codeListID)
  {
    if codes != [] {
      SameCodesAgree(g, origin, first, second, kind, codeListID, Elements(codes));
    } else {
      assert Elements(codes) == {};
      NoCodes(g, origin, first, second, kind, codeListID);
    }
  }

  lemma SameCodesAgree(
      g: Graph, origin: map<Id, Id>, first: map<Id, Id>, second: map<Id, Id>, kind: Kind, codeListID: string, codes: set<string>)
    requires Ready(g, kind, codeListID) && Allocates(g, Ids(g, Generic(codeListID)), origin)
    requires AllocatesBoth(g, first, second, kind, codeListID, codes)
    ensures Isomorphic(
              CloneAllThenPrune(g, origin, kind, codeListID, codes),
              CloneOnlyNeeded(g, first, second, kind, codeListID, codes), kind)
  {
    var rename := AlgorithmsAgree(g, origin, first, second, kind, codeListID, codes);
  }

  lemma NoCodes(
      g: Graph, origin: map<Id, Id>, first: map<Id, Id>, second: map<Id, Id>, kind: Kind, codeListID: string)
    requires Ready(g, kind, codeListID) && Allocates(g, Ids(g, Generic(codeListID)), origin)
    requires AllocatesBoth(g, first, second, kind, codeListID, {})
    ensures Isomorphic(
              CloneAllThenPrune(g, origin, kind, codeListID, {""}),
              CloneOnlyNeeded(g, first, second, kind, codeListID, {}), kind)
            <==> !HasBlankCode(g, codeListID)
  {
    CloneOnlyNeededIs(g, first, second, kind, codeListID, {});
    InstantiatedIds(g, first + second, kind, codeListID, {});
    assert Data(g, codeListID, {}) == {};
    NothingKept(g, codeListID, {});
    NoValuesNoKeys(first + second);
    AllBuilt(g, origin, kind, codeListID, {""});
    BlankIsKept(g, origin, codeListID);
    WithNothing(
      CloneAllThenPrune(g, origin, kind, codeListID, {""}), CloneOnlyNeeded(g, first, second, kind, codeListID, {}), kind);
  }

  lemma WithNothing(a: Graph, b: Graph, kind: Kind)
    requires Ids(b, kind) == {}
    ensures Isomorphic(a, b, kind) <==> Ids(a, kind) == {}
  {
    if Ids(a, kind) == {} {
      var none: map<Id, Id> := map[];
      assert Renames(a, b, kind, none);
    }
    if Isomorphic(a, b, kind) {
      var rename :| Renames(a, b, kind, rename);
      NoValuesNoKeys(rename);
    }
  }

  lemma NoValuesNoKeys(m: map<Id, Id>)
    ensures m.Values == {} <==> m.Keys == {}
  {
    forall c | c in m ensures m[c] in m.Values {
    }
  }

  lemma BlankIsKept(g: Graph, origin: map<Id, Id>, codeListID: string)
    requires Restrict(origin, Kept(g, codeListID, {""})).Values == Kept(g, codeListID, {""})
    ensures Restrict(origin, Kept(g, codeListID, {""})).Keys == {} <==> !HasBlankCode(g, codeListID)
  {
    NoValuesNoKeys(Restrict(origin, Kept(g, codeListID, {""})));
    if HasBlankCode(g, codeListID) {
      var v :| v in Ids(g, Generic(codeListID)) && g.vertices[v].code == "";
      assert v in Data(g, codeListID, {""});
    } else {
      forall v ensures v !in Data(g, codeListID, {""}) {
      }
      NothingKept(g, codeListID, {""});
    }
  }

  lemma NothingKept(g: Graph, codeListID: string, codes: set<string>)
    requires Data(g, codeListID, codes) == {}
    ensures Kept(g, codeListID, codes) == {}
  {
    assert forall v :: !AboveSome(g.hasParent, {}, v);
  }

  lemma AllBuilt(g: Graph, origin: map<Id, Id>, kind: Kind, codeListID: string, codes: set<string>)
    requires Ready(g, kind, codeListID) && Allocates(g, Ids(g, Generic(codeListID)), origin)
    ensures Ids(CloneAllThenPrune(g, origin, kind, codeListID, codes), kind) == Restrict(origin, Kept(g, codeListID, codes)).Keys
    ensures Restrict(origin, Kept(g, codeListID, codes)).Values == Kept(g, codeListID, codes)
  {
    CloneAllThenPruneIs(g, origin, kind, codeListID, codes);
    InstantiatedIds(g, Restrict(origin, Kept(g, codeListID, codes)), kind, codeListID, codes);
  }
}
