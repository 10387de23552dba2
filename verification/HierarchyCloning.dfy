/**
 The two ways of building an instance hierarchy, as sequences of query steps, and the one hierarchy both arrive at:
 clone everything, then prune; or look up what is needed and clone only that.
 */
module HierarchyCloning {
  import opened Options
  import opened HierarchyGraph
  import opened HierarchyQueries

  /** The instance has no hierarchy yet, and the parents of a generic node of the code list are too. */
  ghost predicate Ready(g: Graph, kind: Kind, codeListID: string) {
    WellFormed(g) && kind.Instance? && Ids(g, kind) == {} && KindClosed(g, Generic(codeListID))
  }

  /** One to one, from new ids to generic nodes. */
  ghost predicate Origins(g: Graph, codeListID: string, origin: map<Id, Id>) {
    Injective(origin) && origin.Keys !! g.vertices.Keys && origin.Values <= Ids(g, Generic(codeListID))
  }

  /** The clones of the given originals. */
  function Restrict(origin: map<Id, Id>, ids: set<Id>): map<Id, Id> {
    map c | c in origin && origin[c] in ids :: origin[c]
  }

  // ---------------------------------------------------------------- the hierarchy both should build

  ghost function Data(g: Graph, codeListID: string, codes: set<string>): set<Id> {
    GenericNodes(g, codeListID, codes).Keys
  }

  /** The generic nodes with data and everything above them. */
  ghost function Kept(g: Graph, codeListID: string, codes: set<string>): set<Id> {
    Data(g, codeListID, codes) + Ancestors(g, Data(g, codeListID, codes))
  }

  ghost function Clones(g: Graph, origin: map<Id, Id>, kind: Kind, codeListID: string, data: set<Id>): map<Id, Vertex> {
    map c | c in origin && origin[c] in g.vertices :: Clone(g.vertices[origin[c]], kind, codeListID, origin[c] in data)
  }

  /** The edges between originals, carried over to their clones. */
  ghost function Image(edges: map<Edge, nat>, origin: map<Id, Id>): map<Edge, nat> {
    map e | e in Pairs(origin.Keys) && Under(origin, e) in edges :: edges[Under(origin, e)]
  }

  /** Clones without edges between them yet. */
  ghost function Cloned(g: Graph, origin: map<Id, Id>, kind: Kind, codeListID: string, data: set<Id>): Graph {
    Graph(g.vertices + Clones(g, origin, kind, codeListID, data), g.hasParent, g.cloneOf + origin)
  }

  /** Clones with edges between them, and no links to the originals. */
  ghost function Wired(g: Graph, origin: map<Id, Id>, kind: Kind, codeListID: string, data: set<Id>): Graph {
    Graph(g.vertices + Clones(g, origin, kind, codeListID, data), g.hasParent + Image(g.hasParent, origin), g.cloneOf)
  }

  /** How many edges lead from the given originals to each. */
  ghost function ChildrenAmong(g: Graph, ids: set<Id>): Id -> nat { o => InDegree(ids, g.hasParent, o) }

  /** Clones that know how many children their originals have. */
  ghost function Finished(clones: map<Id, Vertex>, origin: map<Id, Id>, n: Id -> nat): map<Id, Vertex> {
    map c | c in clones && c in origin :: clones[c].(numberOfChildren := Some(n(origin[c])))
  }

  /** The finished hierarchy. */
  ghost function Instantiate(g: Graph, origin: map<Id, Id>, kind: Kind, codeListID: string, data: set<Id>): Graph {
    Graph(
      g.vertices + Finished(Clones(g, origin, kind, codeListID, data), origin, ChildrenAmong(g, origin.Values)),
      g.hasParent + Image(g.hasParent, origin),
      g.cloneOf)
  }

  // ---------------------------------------------------------------- the steps

  lemma ClonedIs(g: Graph, origin: map<Id, Id>, kind: Kind, codeListID: string, hasData: bool, data: set<Id>)
    requires forall c | c in origin :: origin[c] in data <==> hasData
    ensures CloneNodes(g, origin, kind, codeListID, hasData) == Cloned(g, origin, kind, codeListID, data)
  {
  }

  /** Cloning the nodes with data as such, then others as not, gives clones that say which have data. */
  lemma ClonedTwice(g: Graph, codeListID: string, first: map<Id, Id>, second: map<Id, Id>, kind: Kind)
    requires Origins(g, codeListID, first) && Origins(g, codeListID, second)
    requires first.Keys !! second.Keys && first.Values !! second.Values
    ensures CloneNodes(CloneNodes(g, first, kind, codeListID, true), second, kind, codeListID, false) ==
            Cloned(g, first + second, kind, codeListID, first.Values)
    ensures Origins(g, codeListID, first + second) && (first + second).Values == first.Values + second.Values
  {
    TwoOrigins(g, codeListID, first, second);
    TwoSetsOfClones(g, first, second, kind, codeListID);
    AddTwice(g.cloneOf, first, second);
  }

  lemma AddTwice<T>(a: map<Id, T>, b: map<Id, T>, c: map<Id, T>)
    ensures a + b + c == a + (b + c)
  {
  }

  lemma TwoOrigins(g: Graph, codeListID: string, first: map<Id, Id>, second: map<Id, Id>)
    requires Origins(g, codeListID, first) && Origins(g, codeListID, second)
    requires first.Keys !! second.Keys && first.Values !! second.Values
    ensures Origins(g, codeListID, first + second) && (first + second).Values == first.Values + second.Values
  {
    var both := first + second;
    forall v | v in first.Values + second.Values ensures v in both.Values {
      if v in first.Values {
        var c :| c in first && first[c] == v;
        assert both[c] == v;
      } else {
        var c :| c in second && second[c] == v;
        assert both[c] == v;
      }
    }
    forall a, b | a in both && b in both && both[a] == both[b] ensures a == b {
      assert a in first ==> first[a] in first.Values;
      assert b in first ==> first[b] in first.Values;
      assert a in second ==> second[a] in second.Values;
      assert b in second ==> second[b] in second.Values;
    }
  }

  lemma TwoSetsOfClones(g: Graph, first: map<Id, Id>, second: map<Id, Id>, kind: Kind, codeListID: string)
    requires first.Values <= g.vertices.Keys && second.Values <= g.vertices.Keys
    requires first.Keys !! g.vertices.Keys && second.Keys !! g.vertices.Keys
    requires first.Keys !! second.Keys && first.Values !! second.Values
    ensures CloneNodes(CloneNodes(g, first, kind, codeListID, true), second, kind, codeListID, false).vertices ==
            g.vertices + Clones(g, first + second, kind, codeListID, first.Values)
  {
    var one := CloneNodes(g, first, kind, codeListID, true);
    ClonedIs(g, first, kind, codeListID, true, first.Values);
    ClonesFromLater(g, one, second, kind, codeListID);
    forall c | c in second ensures second[c] !in first.Values {
      assert second[c] in second.Values;
    }
    ClonesTogether(g, first, second, kind, codeListID, first.Values);
    AddTwice(g.vertices, Clones(g, first, kind, codeListID, first.Values), Clones(g, second, kind, codeListID, {}));
  }

  lemma ClonesFromLater(g: Graph, one: Graph, second: map<Id, Id>, kind: Kind, codeListID: string)
    requires second.Values <= g.vertices.Keys
    requires forall v | v in g.vertices :: v in one.vertices && one.vertices[v] == g.vertices[v]
    ensures CloneNodes(one, second, kind, codeListID, false).vertices == one.vertices + Clones(g, second, kind, codeListID, {})
  {
    ClonedIs(one, second, kind, codeListID, false, {});
    forall c | c in second ensures second[c] in g.vertices {
      assert second[c] in second.Values;
    }
    SameClones(g, one, second, kind, codeListID, {});
  }

  lemma SameClones(g: Graph, one: Graph, origin: map<Id, Id>, kind: Kind, codeListID: string, data: set<Id>)
    requires forall c | c in origin ::
      origin[c] in g.vertices && origin[c] in one.vertices && one.vertices[origin[c]] == g.vertices[origin[c]]
    ensures Clones(one, origin, kind, codeListID, data) == Clones(g, origin, kind, codeListID, data)
  {
  }

  lemma ClonesTogether(g: Graph, first: map<Id, Id>, second: map<Id, Id>, kind: Kind, codeListID: string, data: set<Id>)
    requires forall c | c in first :: c !in second && first[c] in data
    requires forall c | c in second :: second[c] !in data
    ensures Clones(g, first, kind, codeListID, data) + Clones(g, second, kind, codeListID, {}) ==
            Clones(g, first + second, kind, codeListID, data)
  {
  }

  lemma OnlyClonesAreOfKind(g: Graph, origin: map<Id, Id>, kind: Kind, codeListID: string, data: set<Id>)
    requires Ready(g, kind, codeListID) && Origins(g, codeListID, origin)
    ensures forall c :: IsCloneOfKind(Cloned(g, origin, kind, codeListID, data), c, kind) <==> c in origin
    ensures Ids(Cloned(g, origin, kind, codeListID, data), kind) == origin.Keys
    ensures Ids(Wired(g, origin, kind, codeListID, data), kind) == origin.Keys
  {
    forall c | c in origin ensures origin[c] in g.vertices {
      assert origin[c] in origin.Values;
    }
    forall v | v in g.vertices ensures g.vertices[v].kind != kind {
      assert v !in Ids(g, kind);
    }
  }

  /** Cloning the relationships of all originals, then dropping the links, wires the clones like the originals. */
  lemma WiringIs(g: Graph, origin: map<Id, Id>, kind: Kind, codeListID: string, data: set<Id>, ids: set<Id>)
    requires Ready(g, kind, codeListID) && Origins(g, codeListID, origin) && origin.Values <= ids
    ensures var wired := CloneRelationships(Cloned(g, origin, kind, codeListID, data), ids, kind);
      RemoveCloneEdges(wired, Ids(wired, kind)) == Wired(g, origin, kind, codeListID, data)
  {
    var cloned := Cloned(g, origin, kind, codeListID, data);
    OnlyClonesAreOfKind(g, origin, kind, codeListID, data);
    NewEdgesAreImage(g, cloned, origin, kind, ids);
    AddsImage(g, origin);
    assert Ids(CloneRelationships(cloned, ids, kind), kind) == origin.Keys;
    assert cloned.cloneOf - origin.Keys == g.cloneOf;
  }

  lemma NewEdgesAreImage(g: Graph, cloned: Graph, origin: map<Id, Id>, kind: Kind, ids: set<Id>)
    requires cloned.hasParent == g.hasParent && cloned.cloneOf == g.cloneOf + origin && origin.Values <= ids
    requires forall c :: IsCloneOfKind(cloned, c, kind) <==> c in origin
    ensures NewRelationships(cloned, ids, kind) == Image(g.hasParent, origin)
  {
    forall e: Edge | e.src in origin && e.dst in origin
      ensures Relates(cloned, ids, kind, e) <==> Under(origin, e) in g.hasParent
    {
      assert cloned.cloneOf[e.src] == origin[e.src] && cloned.cloneOf[e.dst] == origin[e.dst];
      assert origin[e.src] in origin.Values;
    }
  }

  lemma AddsImage(g: Graph, origin: map<Id, Id>)
    requires WellFormed(g) && origin.Keys !! g.vertices.Keys
    ensures AddCounts(g.hasParent, Image(g.hasParent, origin)) == g.hasParent + Image(g.hasParent, origin)
  {
  }

  lemma DataIs(g: Graph, origin: map<Id, Id>, kind: Kind, codeListID: string, codes: set<string>)
    requires Ready(g, kind, codeListID) && Origins(g, codeListID, origin)
    ensures SetHasData(Wired(g, origin, kind, codeListID, {}), kind, codes) ==
            Wired(g, origin, kind, codeListID, Data(g, codeListID, codes))
  {
    forall v | v in g.vertices ensures g.vertices[v].kind != kind {
      assert v !in Ids(g, kind);
    }
    forall c | c in origin ensures origin[c] in Ids(g, Generic(codeListID)) {
      assert origin[c] in origin.Values;
    }
    DataOfClones(g, origin, kind, codeListID, codes);
  }

  lemma DataOfClones(g: Graph, origin: map<Id, Id>, kind: Kind, codeListID: string, codes: set<string>)
    requires forall v | v in g.vertices :: g.vertices[v].kind != kind
    requires forall c | c in origin :: origin[c] in Ids(g, Generic(codeListID))
    ensures SetHasData(Wired(g, origin, kind, codeListID, {}), kind, codes).vertices ==
            Wired(g, origin, kind, codeListID, Data(g, codeListID, codes)).vertices
  {
    FlagSum(g.vertices, Clones(g, origin, kind, codeListID, {}), kind, codes);
    FlagNone(g.vertices, kind, codes);
    FlagClones(g, origin, kind, codeListID, codes);
  }

  lemma FlagSum(a: map<Id, Vertex>, b: map<Id, Vertex>, kind: Kind, codes: set<string>)
    ensures FlagAll(a + b, kind, codes) == FlagAll(a, kind, codes) + FlagAll(b, kind, codes)
  {
  }

  lemma FlagNone(vertices: map<Id, Vertex>, kind: Kind, codes: set<string>)
    requires forall v | v in vertices :: vertices[v].kind != kind
    ensures FlagAll(vertices, kind, codes) == vertices
  {
  }

  lemma FlagClones(g: Graph, origin: map<Id, Id>, kind: Kind, codeListID: string, codes: set<string>)
    requires forall c | c in origin :: origin[c] in Ids(g, Generic(codeListID))
    ensures FlagAll(Clones(g, origin, kind, codeListID, {}), kind, codes) ==
            Clones(g, origin, kind, codeListID, Data(g, codeListID, codes))
  {
    forall c | c in origin
      ensures Flagged(Clone(g.vertices[origin[c]], kind, codeListID, false), kind, codes) ==
              Clone(g.vertices[origin[c]], kind, codeListID, origin[c] in Data(g, codeListID, codes))
    {
    }
  }
}
