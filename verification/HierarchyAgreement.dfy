/**
 The two algorithms build the same hierarchy up to the choice of ids, and it is the one described by Instantiate.
 */
module HierarchyAgreement {
  import opened Options
  import opened HierarchyGraph
  import opened HierarchyQueries
  import opened HierarchyPruning
  import opened HierarchyCloning

  ghost predicate ClonesAll(g: Graph, codeListID: string, origin: map<Id, Id>) {
    Origins(g, codeListID, origin) && origin.Values == Ids(g, Generic(codeListID))
  }

  // ---------------------------------------------------------------- climbing among clones is climbing among originals

  ghost function WiredEdges(g: Graph, origin: map<Id, Id>): map<Edge, nat> { g.hasParent + Image(g.hasParent, origin) }

  lemma EdgeOfClone(g: Graph, origin: map<Id, Id>, c: Id, d: Id)
    requires WellFormed(g) && origin.Keys !! g.vertices.Keys && c in origin
    ensures Edge(c, d) in WiredEdges(g, origin) <==> d in origin && Edge(origin[c], origin[d]) in g.hasParent
  {
    assert Edge(c, d) !in g.hasParent;
    assert Under(origin, Edge(c, c)) == Edge(origin[c], origin[c]);
    if d in origin {
      assert Under(origin, Edge(c, d)) == Edge(origin[c], origin[d]);
    }
  }

  lemma {:induction false} CloneClimbs(g: Graph, origin: map<Id, Id>, c: Id, d: Id, n: nat)
    requires WellFormed(g) && origin.Keys !! g.vertices.Keys && c in origin && Climb(WiredEdges(g, origin), c, d, n)
    ensures d in origin && Climb(g.hasParent, origin[c], origin[d], n)
    decreases n
  {
    if n > 0 {
      var x :| ClimbVia(WiredEdges(g, origin), c, x, d, n);
      EdgeOfClone(g, origin, c, x);
      CloneClimbs(g, origin, x, d, n - 1);
      assert ClimbVia(g.hasParent, origin[c], origin[x], origin[d], n);
    }
  }

  lemma {:induction false} OriginalClimbs(g: Graph, codeListID: string, origin: map<Id, Id>, c: Id, o: Id, n: nat) returns (d: Id)
    requires WellFormed(g) && KindClosed(g, Generic(codeListID)) && ClonesAll(g, codeListID, origin)
    requires c in origin && Climb(g.hasParent, origin[c], o, n)
    ensures d in origin && origin[d] == o && Climb(WiredEdges(g, origin), c, d, n)
    decreases n
  {
    if n == 0 {
      d := c;
    } else {
      var p :| ClimbVia(g.hasParent, origin[c], p, o, n);
      var x := CloneOfParent(g, codeListID, origin, c, p);
      d := OriginalClimbs(g, codeListID, origin, x, o, n - 1);
      assert ClimbVia(WiredEdges(g, origin), c, x, d, n);
    }
  }

  lemma CloneOfParent(g: Graph, codeListID: string, origin: map<Id, Id>, c: Id, p: Id) returns (x: Id)
    requires WellFormed(g) && KindClosed(g, Generic(codeListID)) && ClonesAll(g, codeListID, origin)
    requires c in origin && Edge(origin[c], p) in g.hasParent
    ensures x in origin && origin[x] == p && Edge(c, x) in WiredEdges(g, origin)
  {
    assert origin[c] in origin.Values;
    assert p in origin.Values;
    x :| x in origin && origin[x] == p;
    EdgeOfClone(g, origin, c, x);
  }

  lemma AboveAmongClones(g: Graph, codeListID: string, origin: map<Id, Id>, data: set<Id>, d: Id)
    requires WellFormed(g) && KindClosed(g, Generic(codeListID)) && ClonesAll(g, codeListID, origin)
    requires d in origin && data <= origin.Values
    ensures AboveSome(WiredEdges(g, origin), Restrict(origin, data).Keys, d) <==> AboveSome(g.hasParent, data, origin[d])
  {
    var flagged := Restrict(origin, data).Keys;
    if AboveSome(WiredEdges(g, origin), flagged, d) {
      var c :| c in flagged && Above(WiredEdges(g, origin), c, d);
      var n: nat :| n > 0 && Climb(WiredEdges(g, origin), c, d, n);
      CloneClimbs(g, origin, c, d, n);
      assert Above(g.hasParent, origin[c], origin[d]);
    }
    if AboveSome(g.hasParent, data, origin[d]) {
      var o :| o in data && Above(g.hasParent, o, origin[d]);
      var c :| c in origin && origin[c] == o;
      var n: nat :| n > 0 && Climb(g.hasParent, o, origin[d], n);
      var x := OriginalClimbs(g, codeListID, origin, c, origin[d], n);
      assert Above(WiredEdges(g, origin), c, d);
    }
  }

  // ---------------------------------------------------------------- pruning the clones

  lemma WiredIsSound(g: Graph, origin: map<Id, Id>, kind: Kind, codeListID: string, data: set<Id>)
    requires Ready(g, kind, codeListID) && Origins(g, codeListID, origin)
    ensures WellFormed(Wired(g, origin, kind, codeListID, data)) && KindClosed(Wired(g, origin, kind, codeListID, data), kind)
  {
    OnlyClonesAreOfKind(g, origin, kind, codeListID, data);
    ClonesHaveKeys(g, origin, kind, codeListID, data);
    WiredIsWellFormed(g, Wired(g, origin, kind, codeListID, data), origin);
    WiredIsClosed(g, Wired(g, origin, kind, codeListID, data), origin, kind);
  }

  lemma WiredHasData(g: Graph, origin: map<Id, Id>, kind: Kind, codeListID: string, data: set<Id>)
    requires Ready(g, kind, codeListID) && Origins(g, codeListID, origin)
    ensures NoMarkers(Wired(g, origin, kind, codeListID, data), kind)
    ensures WithData(Wired(g, origin, kind, codeListID, data), kind) == Restrict(origin, data).Keys
  {
    OnlyClonesAreOfKind(g, origin, kind, codeListID, data);
    forall c | c in origin ensures origin[c] in g.vertices {
      assert origin[c] in origin.Values;
    }
    CloneHasData(g, Wired(g, origin, kind, codeListID, data), origin, kind, codeListID, data);
  }

  lemma WiredIsWellFormed(g: Graph, w: Graph, origin: map<Id, Id>)
    requires WellFormed(g) && w.vertices.Keys == g.vertices.Keys + origin.Keys
    requires w.hasParent == WiredEdges(g, origin) && w.cloneOf == g.cloneOf
    ensures WellFormed(w)
  {
    forall e | e in w.hasParent ensures w.hasParent[e] > 0 && e.src in w.vertices && e.dst in w.vertices {
      if e in Image(g.hasParent, origin) {
        assert w.hasParent[e] == g.hasParent[Under(origin, e)];
      }
    }
  }

  lemma WiredIsClosed(g: Graph, w: Graph, origin: map<Id, Id>, kind: Kind)
    requires WellFormed(g) && origin.Keys !! g.vertices.Keys
    requires Ids(w, kind) == origin.Keys && w.hasParent == WiredEdges(g, origin)
    ensures KindClosed(w, kind)
  {
    forall e | e in w.hasParent && e.src in origin ensures e.dst in origin {
      EdgeOfClone(g, origin, e.src, e.dst);
      assert e == Edge(e.src, e.dst);
    }
  }

  lemma CloneHasData(g: Graph, w: Graph, origin: map<Id, Id>, kind: Kind, codeListID: string, data: set<Id>)
    requires w.vertices == g.vertices + Clones(g, origin, kind, codeListID, data) && Ids(w, kind) == origin.Keys
    requires forall c | c in origin :: origin[c] in g.vertices
    ensures NoMarkers(w, kind) && WithData(w, kind) == Restrict(origin, data).Keys
  {
    forall c | c in origin ensures w.vertices[c] == Clone(g.vertices[origin[c]], kind, codeListID, origin[c] in data) {
    }
    forall c | c in origin ensures !w.vertices[c].remain && (w.vertices[c].hasData <==> origin[c] in data) {
    }
  }

  /** Marking the clones marks those of the originals that are kept. */
  lemma MarksAmongClones(g: Graph, origin: map<Id, Id>, kind: Kind, codeListID: string, data: set<Id>)
    requires Ready(g, kind, codeListID) && ClonesAll(g, codeListID, origin) && data <= origin.Values
    ensures NeptuneMarks(Wired(g, origin, kind, codeListID, data), kind) == Restrict(origin, data + Ancestors(g, data)).Keys
  {
    var w := Wired(g, origin, kind, codeListID, data);
    WiredIsSound(g, origin, kind, codeListID, data);
    WiredHasData(g, origin, kind, codeListID, data);
    MarksStayInKind(w, kind);
    OnlyClonesAreOfKind(g, origin, kind, codeListID, data);
    forall c | c in origin
      ensures c in w.vertices && (AboveSome(w.hasParent, WithData(w, kind), c) <==> origin[c] in Ancestors(g, data))
    {
      AboveAmongClones(g, codeListID, origin, data, c);
      assert origin[c] in origin.Values;
    }
    CollectMarks(w, kind, origin, data, Ancestors(g, data));
  }

  lemma CollectMarks(w: Graph, kind: Kind, origin: map<Id, Id>, data: set<Id>, above: set<Id>)
    requires NeptuneMarks(w, kind) <= origin.Keys <= w.vertices.Keys
    requires WithData(w, kind) == Restrict(origin, data).Keys
    requires forall c | c in origin :: AboveSome(w.hasParent, WithData(w, kind), c) <==> origin[c] in above
    ensures NeptuneMarks(w, kind) == Restrict(origin, data + above).Keys
  {
    forall c | c in origin ensures c in NeptuneMarks(w, kind) <==> c in Restrict(origin, data + above) {
    }
  }

  lemma PrunedClones(g: Graph, origin: map<Id, Id>, kind: Kind, codeListID: string, data: set<Id>)
    requires Ready(g, kind, codeListID) && ClonesAll(g, codeListID, origin) && data <= origin.Values
    ensures Prune(Wired(g, origin, kind, codeListID, data), kind) ==
            Wired(g, Restrict(origin, data + Ancestors(g, data)), kind, codeListID, data)
  {
    var w := Wired(g, origin, kind, codeListID, data);
    var keep := data + Ancestors(g, data);
    WiredIsSound(g, origin, kind, codeListID, data);
    WiredHasData(g, origin, kind, codeListID, data);
    PruningIsExact(w, kind);
    SurvivingClones(g, origin, kind, codeListID, data);
    InducedWired(g, origin, kind, codeListID, data, keep);
  }

  lemma InducedWired(g: Graph, origin: map<Id, Id>, kind: Kind, codeListID: string, data: set<Id>, keep: set<Id>)
    requires WellFormed(g) && origin.Keys !! g.vertices.Keys
    ensures Induced(Wired(g, origin, kind, codeListID, data), g.vertices.Keys + Restrict(origin, keep).Keys) ==
            Wired(g, Restrict(origin, keep), kind, codeListID, data)
  {
    InducedClones(g, origin, kind, codeListID, data, keep);
    InducedEdges(g, origin, keep);
    InducedLinks(g, Wired(g, origin, kind, codeListID, data), origin, keep);
  }

  lemma SurvivingClones(g: Graph, origin: map<Id, Id>, kind: Kind, codeListID: string, data: set<Id>)
    requires Ready(g, kind, codeListID) && ClonesAll(g, codeListID, origin) && data <= origin.Values
    ensures Survivors(Wired(g, origin, kind, codeListID, data), kind) ==
            g.vertices.Keys + Restrict(origin, data + Ancestors(g, data)).Keys
  {
    MarksAmongClones(g, origin, kind, codeListID, data);
    OnlyClonesAreOfKind(g, origin, kind, codeListID, data);
    ClonesHaveKeys(g, origin, kind, codeListID, data);
  }

  lemma InducedClones(g: Graph, origin: map<Id, Id>, kind: Kind, codeListID: string, data: set<Id>, keep: set<Id>)
    requires origin.Keys !! g.vertices.Keys
    ensures Induced(Wired(g, origin, kind, codeListID, data), g.vertices.Keys + Restrict(origin, keep).Keys).vertices ==
            Wired(g, Restrict(origin, keep), kind, codeListID, data).vertices
  {
  }

  lemma InducedEdges(g: Graph, origin: map<Id, Id>, keep: set<Id>)
    requires WellFormed(g) && origin.Keys !! g.vertices.Keys
    ensures var left := g.vertices.Keys + Restrict(origin, keep).Keys;
      (map e | e in WiredEdges(g, origin) && e.src in left && e.dst in left :: WiredEdges(g, origin)[e]) ==
      WiredEdges(g, Restrict(origin, keep))
  {
    var left, part := g.vertices.Keys + Restrict(origin, keep).Keys, Restrict(origin, keep);
    forall e
      ensures e in WiredEdges(g, part) <==> e in WiredEdges(g, origin) && e.src in left && e.dst in left
      ensures e in WiredEdges(g, part) ==> WiredEdges(g, part)[e] == WiredEdges(g, origin)[e]
    {
      InducedEdge(g, origin, keep, e);
    }
  }

  lemma InducedEdge(g: Graph, origin: map<Id, Id>, keep: set<Id>, e: Edge)
    requires WellFormed(g) && origin.Keys !! g.vertices.Keys
    ensures var left, part := g.vertices.Keys + Restrict(origin, keep).Keys, Restrict(origin, keep);
      && (e in WiredEdges(g, part) <==> e in WiredEdges(g, origin) && e.src in left && e.dst in left)
      && (e in WiredEdges(g, part) ==> WiredEdges(g, part)[e] == WiredEdges(g, origin)[e])
  {
    var part := Restrict(origin, keep);
    if e.src in part && e.dst in part {
      assert Under(part, e) == Under(origin, e);
    }
  }

  lemma InducedLinks(g: Graph, w: Graph, origin: map<Id, Id>, keep: set<Id>)
    requires WellFormed(g) && w.cloneOf == g.cloneOf
    ensures Induced(w, g.vertices.Keys + Restrict(origin, keep).Keys).cloneOf == g.cloneOf
  {
  }

  // ---------------------------------------------------------------- counting children

  lemma ChildrenOfClone(g: Graph, origin: map<Id, Id>, kind: Kind, codeListID: string, data: set<Id>, c: Id)
    requires Ready(g, kind, codeListID) && Origins(g, codeListID, origin) && c in origin
    ensures var w := Wired(g, origin, kind, codeListID, data);
      InDegrees(w.vertices.Keys, w.hasParent)(c) == ChildrenAmong(g, origin.Values)(origin[c])
  {
    var w := Wired(g, origin, kind, codeListID, data);
    assert origin.Keys <= w.vertices.Keys by {
      OnlyClonesAreOfKind(g, origin, kind, codeListID, data);
    }
    forall u | u in w.vertices.Keys - origin.Keys ensures Into(w.hasParent, c)(u) == 0 {
      assert Edge(u, c) !in g.hasParent;
    }
    SumSupport(w.vertices.Keys, origin.Keys, Into(w.hasParent, c));
    forall u | u in origin ensures Into(w.hasParent, c)(u) == Into(g.hasParent, origin[c])(origin[u]) {
      EdgeOfClone(g, origin, u, c);
      assert Edge(u, c) !in g.hasParent;
      assert Under(origin, Edge(u, c)) == Edge(origin[u], origin[c]);
    }
    SumRenamed(origin, Into(w.hasParent, c), Into(g.hasParent, origin[c]));
  }

  lemma CountsOfClones(g: Graph, origin: map<Id, Id>, kind: Kind, codeListID: string, data: set<Id>)
    requires Ready(g, kind, codeListID) && Origins(g, codeListID, origin)
    ensures var w := Wired(g, origin, kind, codeListID, data);
      SetNumberOfChildren(w, Ids(w, kind)) == Instantiate(g, origin, kind, codeListID, data)
  {
    var w := Wired(g, origin, kind, codeListID, data);
    OnlyClonesAreOfKind(g, origin, kind, codeListID, data);
    forall c | c in origin
      ensures InDegrees(w.vertices.Keys, w.hasParent)(c) == ChildrenAmong(g, origin.Values)(origin[c])
    {
      ChildrenOfClone(g, origin, kind, codeListID, data, c);
    }
    ClonesHaveKeys(g, origin, kind, codeListID, data);
    CountedVertices(
      g.vertices, origin, Clones(g, origin, kind, codeListID, data),
      InDegrees(w.vertices.Keys, w.hasParent), ChildrenAmong(g, origin.Values));
  }

  lemma ClonesHaveKeys(g: Graph, origin: map<Id, Id>, kind: Kind, codeListID: string, data: set<Id>)
    requires origin.Values <= g.vertices.Keys
    ensures Clones(g, origin, kind, codeListID, data).Keys == origin.Keys
  {
    forall c | c in origin ensures origin[c] in g.vertices {
      assert origin[c] in origin.Values;
    }
  }

  ghost predicate SameCounts(origin: map<Id, Id>, n: Id -> nat, m: Id -> nat) {
    forall c | c in origin :: n(c) == m(origin[c])
  }

  lemma CountedVertices(vertices: map<Id, Vertex>, origin: map<Id, Id>, clones: map<Id, Vertex>, n: Id -> nat, m: Id -> nat)
    requires clones.Keys == origin.Keys && origin.Keys !! vertices.Keys && SameCounts(origin, n, m)
    ensures Counted(vertices + clones, origin.Keys, n) == vertices + Finished(clones, origin, m)
  {
  }

  // ---------------------------------------------------------------- clone everything, then prune

  /**
   CloneNodes, CloneRelationships (which removes the links), SetHasData, MarkNodesToRemain,
   RemoveNodesNotMarkedToRemain, RemoveRemainMarker, SetNumberOfChildren.
   */
  ghost function CloneAllThenPrune(g: Graph, origin: map<Id, Id>, kind: Kind, codeListID: string, codes: set<string>): Graph {
    var cloned := CloneNodes(g, origin, kind, codeListID, false);
    var related := CloneRelationships(cloned, Ids(cloned, Generic(codeListID)), kind);
    var unlinked := RemoveCloneEdges(related, Ids(related, kind));
    var flagged := SetHasData(unlinked, kind, codes);
    var pruned := Prune(flagged, kind);
    SetNumberOfChildren(pruned, Ids(pruned, kind))
  }

  lemma ClonesAreOrigins(g: Graph, kind: Kind, codeListID: string, ids: set<Id>, origin: map<Id, Id>)
    requires Allocates(g, ids, origin) && ids <= Ids(g, Generic(codeListID))
    ensures Origins(g, codeListID, origin) && origin.Values == ids
  {
  }

  lemma GenericsStay(g: Graph, origin: map<Id, Id>, kind: Kind, codeListID: string)
    requires Ready(g, kind, codeListID) && Origins(g, codeListID, origin)
    ensures Ids(Cloned(g, origin, kind, codeListID, {}), Generic(codeListID)) == Ids(g, Generic(codeListID))
  {
    forall c | c in origin ensures origin[c] in g.vertices {
      assert origin[c] in origin.Values;
    }
  }

  /** Cloning everything and wiring it: one clone per generic node, with the same edges between clones, and no links left. */
  lemma CloningAllWires(g: Graph, origin: map<Id, Id>, kind: Kind, codeListID: string)
    requires Ready(g, kind, codeListID) && Allocates(g, Ids(g, Generic(codeListID)), origin)
    ensures var cloned := CloneNodes(g, origin, kind, codeListID, false);
      var related := CloneRelationships(cloned, Ids(cloned, Generic(codeListID)), kind);
      RemoveCloneEdges(related, Ids(related, kind)) == Wired(g, origin, kind, codeListID, {})
  {
    ClonesAreOrigins(g, kind, codeListID, Ids(g, Generic(codeListID)), origin);
    ClonedIs(g, origin, kind, codeListID, false, {});
    GenericsStay(g, origin, kind, codeListID);
    WiringIs(g, origin, kind, codeListID, {}, Ids(g, Generic(codeListID)));
  }

  lemma CloneAllThenPruneIs(g: Graph, origin: map<Id, Id>, kind: Kind, codeListID: string, codes: set<string>)
    requires Ready(g, kind, codeListID) && Allocates(g, Ids(g, Generic(codeListID)), origin)
    ensures CloneAllThenPrune(g, origin, kind, codeListID, codes) ==
            Instantiate(g, Restrict(origin, Kept(g, codeListID, codes)), kind, codeListID, Data(g, codeListID, codes))
    ensures Origins(g, codeListID, Restrict(origin, Kept(g, codeListID, codes)))
    ensures Restrict(origin, Kept(g, codeListID, codes)).Values == Kept(g, codeListID, codes)
  {
    var data := Data(g, codeListID, codes);
    ClonesAreOrigins(g, kind, codeListID, Ids(g, Generic(codeListID)), origin);
    CloningAllWires(g, origin, kind, codeListID);
    DataIs(g, origin, kind, codeListID, codes);
    PrunedClones(g, origin, kind, codeListID, data);
    KeptIsGeneric(g, codeListID, codes);
    RestrictedOrigins(g, codeListID, origin, Kept(g, codeListID, codes));
    CountsOfClones(g, Restrict(origin, Kept(g, codeListID, codes)), kind, codeListID, data);
  }

  lemma KeptIsGeneric(g: Graph, codeListID: string, codes: set<string>)
    requires KindClosed(g, Generic(codeListID))
    ensures Data(g, codeListID, codes) <= Kept(g, codeListID, codes) <= Ids(g, Generic(codeListID))
  {
    var data := Data(g, codeListID, codes);
    forall v | v in Ancestors(g, data) ensures v in Ids(g, Generic(codeListID)) {
      var d :| d in data && Above(g.hasParent, d, v);
      AboveStaysInKind(g, Generic(codeListID), d, v);
    }
  }

  lemma RestrictedOrigins(g: Graph, codeListID: string, origin: map<Id, Id>, keep: set<Id>)
    requires ClonesAll(g, codeListID, origin) && keep <= Ids(g, Generic(codeListID))
    ensures Origins(g, codeListID, Restrict(origin, keep)) && Restrict(origin, keep).Values == keep
  {
    var part := Restrict(origin, keep);
    forall v | v in keep ensures v in part.Values {
      assert v in origin.Values;
      var c :| c in origin && origin[c] == v;
      assert part[c] == v;
    }
  }

  // ---------------------------------------------------------------- clone only what is needed

  /**
   GetGenericHierarchyNodeIDs and GetGenericHierarchyAncestriesIDs, CloneNodesFromIDs for the nodes with data and for
   the other ancestors, CloneRelationshipsFromIDs, RemoveCloneEdgesFromSourceIDs, SetNumberOfChildrenFromIDs.
   */
  ghost function CloneOnlyNeeded(
      g: Graph, first: map<Id, Id>, second: map<Id, Id>, kind: Kind, codeListID: string, codes: set<string>): Graph {
    var ids := GenericNodes(g, codeListID, codes).Keys + Ancestry(g, codeListID, codes).Keys;
    var cloned := CloneNodes(CloneNodes(g, first, kind, codeListID, true), second, kind, codeListID, false);
    var related := CloneRelationships(cloned, ids, kind);
    var unlinked := RemoveCloneEdges(related, Ids(related, kind));
    SetNumberOfChildren(unlinked, Ids(unlinked, kind))
  }

  /** The ids that the database chose when cloning the nodes with data, and then the ancestors without. */
  ghost predicate AllocatesBoth(
      g: Graph, first: map<Id, Id>, second: map<Id, Id>, kind: Kind, codeListID: string, codes: set<string>) {
    var withData, ancestors := GenericNodes(g, codeListID, codes).Keys, Ancestry(g, codeListID, codes).Keys;
    && Allocates(g, withData, first)
    && Allocates(CloneNodes(g, first, kind, codeListID, true), ancestors - withData, second)
  }

  lemma BothAreOrigins(
      g: Graph, first: map<Id, Id>, second: map<Id, Id>, kind: Kind, codeListID: string, codes: set<string>)
    requires Ready(g, kind, codeListID) && AllocatesBoth(g, first, second, kind, codeListID, codes)
    ensures Origins(g, codeListID, first) && Origins(g, codeListID, second)
    ensures first.Keys !! second.Keys && first.Values == Data(g, codeListID, codes)
    ensures second.Values == Kept(g, codeListID, codes) - Data(g, codeListID, codes)
  {
    var data, one := Data(g, codeListID, codes), CloneNodes(g, first, kind, codeListID, true);
    KeptIsGeneric(g, codeListID, codes);
    NeededIsKept(g, codeListID, codes);
    ClonesAreOrigins(g, kind, codeListID, data, first);
    ClonesHaveKeys(g, first, kind, codeListID, data);
    ClonedIs(g, first, kind, codeListID, true, data);
    SecondAllocation(g, one, codeListID, first, second, Kept(g, codeListID, codes) - data);
  }

  lemma NeededIsKept(g: Graph, codeListID: string, codes: set<string>)
    ensures GenericNodes(g, codeListID, codes).Keys + Ancestry(g, codeListID, codes).Keys == Kept(g, codeListID, codes)
    ensures Ancestry(g, codeListID, codes).Keys - GenericNodes(g, codeListID, codes).Keys ==
            Kept(g, codeListID, codes) - Data(g, codeListID, codes)
  {
    assert Ancestry(g, codeListID, codes).Keys == Ancestors(g, Data(g, codeListID, codes));
  }

  lemma SecondAllocation(g: Graph, one: Graph, codeListID: string, first: map<Id, Id>, second: map<Id, Id>, ids: set<Id>)
    requires one.vertices.Keys == g.vertices.Keys + first.Keys && Allocates(one, ids, second)
    requires ids <= Ids(g, Generic(codeListID))
    ensures Origins(g, codeListID, second) && first.Keys !! second.Keys && second.Values == ids
  {
  }

  lemma CloneOnlyNeededIs(
      g: Graph, first: map<Id, Id>, second: map<Id, Id>, kind: Kind, codeListID: string, codes: set<string>)
    requires Ready(g, kind, codeListID) && AllocatesBoth(g, first, second, kind, codeListID, codes)
    ensures CloneOnlyNeeded(g, first, second, kind, codeListID, codes) ==
            Instantiate(g, first + second, kind, codeListID, Data(g, codeListID, codes))
    ensures Origins(g, codeListID, first + second) && (first + second).Values == Kept(g, codeListID, codes)
  {
    var data, kept := Data(g, codeListID, codes), Kept(g, codeListID, codes);
    BothAreOrigins(g, first, second, kind, codeListID, codes);
    KeptIsGeneric(g, codeListID, codes);
    NeededIsKept(g, codeListID, codes);
    ClonedTwice(g, codeListID, first, second, kind);
    PartAndRest(data, kept);
    WiredAndCounted(g, first + second, kind, codeListID, data, kept);
  }

  lemma PartAndRest(part: set<Id>, whole: set<Id>)
    requires part <= whole
    ensures part + (whole - part) == whole
  {
  }

  lemma WiredAndCounted(g: Graph, origin: map<Id, Id>, kind: Kind, codeListID: string, data: set<Id>, ids: set<Id>)
    requires Ready(g, kind, codeListID) && Origins(g, codeListID, origin) && origin.Values <= ids
    ensures var related := CloneRelationships(Cloned(g, origin, kind, codeListID, data), ids, kind);
      var unlinked := RemoveCloneEdges(related, Ids(related, kind));
      SetNumberOfChildren(unlinked, Ids(unlinked, kind)) == Instantiate(g, origin, kind, codeListID, data)
  {
    WiringIs(g, origin, kind, codeListID, data, ids);
    CountsOfClones(g, origin, kind, codeListID, data);
  }

  // ---------------------------------------------------------------- what was built

  /** The hierarchy stands apart: its edges lead from one of its vertices to another, and nothing is linked to it. */
  ghost predicate StandsApart(g: Graph, kind: Kind) {
    && (forall e | e in g.hasParent :: e.src in Ids(g, kind) <==> e.dst in Ids(g, kind))
    && (forall c | c in g.cloneOf :: c !in Ids(g, kind) && g.cloneOf[c] !in Ids(g, kind))
  }

  /** Taking the hierarchy away leaves what was there before. */
  ghost predicate OnlyAdds(g: Graph, r: Graph, kind: Kind) {
    Induced(r, r.vertices.Keys - Ids(r, kind)) == g && StandsApart(r, kind)
  }

  /** One vertex per original, with its code and name, whether its code has data, and `n` of it as number of children. */
  ghost predicate DescribesClones(
      g: Graph, r: Graph, origin: map<Id, Id>, kind: Kind, codeListID: string, codes: set<string>, n: Id -> nat) {
    && Ids(r, kind) == origin.Keys
    && (forall c | c in origin :: origin[c] in g.vertices)
    && forall c | c in origin :: r.vertices[c] == Described(g.vertices[origin[c]], kind, codeListID, codes, n(origin[c]))
  }

  ghost function Described(v: Vertex, kind: Kind, codeListID: string, codes: set<string>, children: nat): Vertex {
    Vertex(kind, v.code, v.name, codeListID, v.code in codes, false, Some(children))
  }

  /** Between two vertices there are as many edges as between their originals. */
  ghost predicate CopiesEdges(g: Graph, r: Graph, origin: map<Id, Id>) {
    forall c, d | c in origin && d in origin ::
      Count(r.hasParent, Edge(c, d)) == Count(g.hasParent, Edge(origin[c], origin[d]))
  }

  lemma WiredCopiesEdges(g: Graph, origin: map<Id, Id>)
    requires WellFormed(g) && origin.Keys !! g.vertices.Keys
    ensures forall c, d | c in origin && d in origin ::
      Count(WiredEdges(g, origin), Edge(c, d)) == Count(g.hasParent, Edge(origin[c], origin[d]))
  {
    forall c, d | c in origin && d in origin
      ensures Count(WiredEdges(g, origin), Edge(c, d)) == Count(g.hasParent, Edge(origin[c], origin[d]))
    {
      assert Edge(c, d) !in g.hasParent;
      assert Under(origin, Edge(c, d)) == Edge(origin[c], origin[d]);
    }
  }

  lemma WiringOnlyAdds(g: Graph, r: Graph, origin: map<Id, Id>, kind: Kind, added: map<Id, Vertex>)
    requires WellFormed(g) && origin.Keys !! g.vertices.Keys && added.Keys == origin.Keys
    requires r == Graph(g.vertices + added, WiredEdges(g, origin), g.cloneOf) && Ids(r, kind) == origin.Keys
    ensures OnlyAdds(g, r, kind)
  {
    assert r.vertices.Keys - Ids(r, kind) == g.vertices.Keys;
    InducedBefore(g, r, origin, added);
  }

  lemma InducedBefore(g: Graph, r: Graph, origin: map<Id, Id>, added: map<Id, Vertex>)
    requires WellFormed(g) && origin.Keys !! g.vertices.Keys && added.Keys == origin.Keys
    requires r == Graph(g.vertices + added, WiredEdges(g, origin), g.cloneOf)
    ensures Induced(r, g.vertices.Keys) == g
  {
    var i := Induced(r, g.vertices.Keys);
    assert i.vertices == g.vertices;
    EdgesBefore(g, origin);
    assert i.cloneOf == g.cloneOf;
  }

  lemma EdgesBefore(g: Graph, origin: map<Id, Id>)
    requires WellFormed(g) && origin.Keys !! g.vertices.Keys
    ensures (map e | e in WiredEdges(g, origin) && e.src in g.vertices.Keys && e.dst in g.vertices.Keys :: WiredEdges(g, origin)[e])
            == g.hasParent
  {
  }

  /**
   Cloning is an isomorphism: after CloneNodes and CloneRelationships the clones correspond one to one to the generic
   nodes, with their codes and names, every edge is there exactly as often as between the originals, and no link to a
   generic node is left.
   */
  lemma CloningIsIsomorphism(g: Graph, origin: map<Id, Id>, kind: Kind, codeListID: string)
    requires Ready(g, kind, codeListID) && Allocates(g, Ids(g, Generic(codeListID)), origin)
    ensures var cloned := CloneNodes(g, origin, kind, codeListID, false);
      var related := CloneRelationships(cloned, Ids(cloned, Generic(codeListID)), kind);
      var r := RemoveCloneEdges(related, Ids(related, kind));
      && Injective(origin) && origin.Keys == Ids(r, kind) && origin.Values == Ids(g, Generic(codeListID))
      && (forall c | c in origin ::
        origin[c] in g.vertices && r.vertices[c] == Clone(g.vertices[origin[c]], kind, codeListID, false))
      && CopiesEdges(g, r, origin) && OnlyAdds(g, r, kind)
  {
    var w := Wired(g, origin, kind, codeListID, {});
    CloningAllWires(g, origin, kind, codeListID);
    ClonesAreOrigins(g, kind, codeListID, Ids(g, Generic(codeListID)), origin);
    OnlyClonesAreOfKind(g, origin, kind, codeListID, {});
    ClonesHaveKeys(g, origin, kind, codeListID, {});
    WiredCopiesEdges(g, origin);
    WiringOnlyAdds(g, w, origin, kind, Clones(g, origin, kind, codeListID, {}));
    forall c | c in origin ensures origin[c] in g.vertices {
      assert origin[c] in origin.Values;
    }
  }

  lemma InstantiateIs(g: Graph, origin: map<Id, Id>, kind: Kind, codeListID: string, codes: set<string>)
    requires Ready(g, kind, codeListID) && Origins(g, codeListID, origin)
    ensures var r := Instantiate(g, origin, kind, codeListID, Data(g, codeListID, codes));
      && DescribesClones(g, r, origin, kind, codeListID, codes, ChildrenAmong(g, origin.Values))
      && CopiesEdges(g, r, origin) && OnlyAdds(g, r, kind)
  {
    FinishedIs(
      g, Instantiate(g, origin, kind, codeListID, Data(g, codeListID, codes)), origin, kind, codeListID, codes,
      ChildrenAmong(g, origin.Values));
  }

  lemma FinishedIs(
      g: Graph, r: Graph, origin: map<Id, Id>, kind: Kind, codeListID: string, codes: set<string>, n: Id -> nat)
    requires Ready(g, kind, codeListID) && Origins(g, codeListID, origin)
    requires r == Graph(
      g.vertices + Finished(Clones(g, origin, kind, codeListID, Data(g, codeListID, codes)), origin, n),
      g.hasParent + Image(g.hasParent, origin), g.cloneOf)
    ensures DescribesClones(g, r, origin, kind, codeListID, codes, n) && CopiesEdges(g, r, origin) && OnlyAdds(g, r, kind)
  {
    ClonesHaveKeys(g, origin, kind, codeListID, Data(g, codeListID, codes));
    FinishedAre(g, r, origin, kind, codeListID, codes, n);
    WiredCopiesEdges(g, origin);
    WiringOnlyAdds(g, r, origin, kind, Finished(Clones(g, origin, kind, codeListID, Data(g, codeListID, codes)), origin, n));
  }

  lemma FinishedAre(
      g: Graph, r: Graph, origin: map<Id, Id>, kind: Kind, codeListID: string, codes: set<string>, n: Id -> nat)
    requires Ready(g, kind, codeListID) && Origins(g, codeListID, origin)
    requires r.vertices == g.vertices + Finished(Clones(g, origin, kind, codeListID, Data(g, codeListID, codes)), origin, n)
    ensures DescribesClones(g, r, origin, kind, codeListID, codes, n)
  {
    forall c | c in origin
      ensures origin[c] in g.vertices && c in r.vertices
      ensures r.vertices[c] == Described(g.vertices[origin[c]], kind, codeListID, codes, n(origin[c]))
    {
      assert origin[c] in origin.Values;
      assert origin[c] in Data(g, codeListID, codes) <==> g.vertices[origin[c]].code in codes;
    }
    forall v | v in g.vertices ensures g.vertices[v].kind != kind {
      assert v !in Ids(g, kind);
    }
    assert Ids(r, kind) == origin.Keys;
  }
}
