/**
 The stored graph as far as hierarchies need it: vertices with properties, hasParent edges with their multiplicities,
 and the clone_of edge of a vertex. Each function below is the meaning of one query constant.
 */
module HierarchyGraph {
  import opened Options

  type Id = string

  /** The vertex label: a generic hierarchy of a code list, or the hierarchy of a dimension of an instance. */
  datatype Kind = Generic(codeListID: string) | Instance(instanceID: string, dimension: string)

  datatype Vertex = Vertex(
    kind: Kind, code: string, name: string, codeList: string, hasData: bool, remain: bool, numberOfChildren: Option<nat>)

  datatype Edge = Edge(src: Id, dst: Id)

  /** `hasParent` counts the edges from one vertex to another; `cloneOf` maps a clone to what it was cloned from. */
  datatype Graph = Graph(vertices: map<Id, Vertex>, hasParent: map<Edge, nat>, cloneOf: map<Id, Id>)

  /** Edges have both ends, and an edge that is counted is there. */
  ghost predicate WellFormed(g: Graph) {
    && (forall e | e in g.hasParent :: g.hasParent[e] > 0 && e.src in g.vertices && e.dst in g.vertices)
    && (forall c | c in g.cloneOf :: c in g.vertices && g.cloneOf[c] in g.vertices)
  }

  function Count(edges: map<Edge, nat>, e: Edge): nat { if e in edges then edges[e] else 0 }

  /** g.V().hasLabel(kind) */
  function Ids(g: Graph, kind: Kind): set<Id> { set v | v in g.vertices && g.vertices[v].kind == kind }

  // ---------------------------------------------------------------- sums over finite sets

  ghost function Sum(ids: set<Id>, f: Id -> nat): nat {
    if ids == {} then 0 else var x :| x in ids; f(x) + Sum(ids - {x}, f)
  }

  lemma {:induction false} SumTakes(ids: set<Id>, f: Id -> nat, x: Id)
    requires x in ids
    ensures Sum(ids, f) == f(x) + Sum(ids - {x}, f)
  {
    var y :| y in ids && Sum(ids, f) == f(y) + Sum(ids - {y}, f);
    if y != x {
      SumTakes(ids - {y}, f, x);
      SumTakes(ids - {x}, f, y);
      assert ids - {y} - {x} == ids - {x} - {y};
    }
  }

  lemma {:induction false} SumSame(ids: set<Id>, f: Id -> nat, h: Id -> nat)
    requires forall x | x in ids :: f(x) == h(x)
    ensures Sum(ids, f) == Sum(ids, h)
  {
    if ids != {} {
      var x :| x in ids;
      SumTakes(ids, f, x);
      SumTakes(ids, h, x);
      SumSame(ids - {x}, f, h);
    }
  }

  /** Terms that are zero can be left out. */
  lemma {:induction false} SumSupport(ids: set<Id>, part: set<Id>, f: Id -> nat)
    requires part <= ids && forall x | x in ids - part :: f(x) == 0
    ensures Sum(ids, f) == Sum(part, f)
  {
    if ids - part == {} {
      assert forall x | x in ids :: x in part || x in ids - part;
      assert ids == part;
    } else {
      var x :| x in ids - part;
      SumTakes(ids, f, x);
      SumSupport(ids - {x}, part, f);
    }
  }

  /** Renaming the elements one to one keeps the sum. */
  lemma {:induction false} SumRenamed(rename: map<Id, Id>, f: Id -> nat, h: Id -> nat)
    requires Injective(rename) && forall x | x in rename :: f(x) == h(rename[x])
    ensures Sum(rename.Keys, f) == Sum(rename.Values, h)
    decreases |rename|
  {
    if rename == map[] {
      assert rename.Keys == {} && rename.Values == {};
    } else {
      var x :| x in rename;
      var rest := rename - {x};
      assert |rest| < |rename| by {
        assert rest.Keys == rename.Keys - {x};
        assert |rest.Keys| == |rename.Keys| - 1;
      }
      SumRenamed(rest, f, h);
      SumTakes(rename.Keys, f, x);
      SumTakes(rename.Values, h, rename[x]);
      WithoutOne(rename, x);
    }
  }

  ghost predicate Injective(m: map<Id, Id>) {
    forall x, y | x in m && y in m && m[x] == m[y] :: x == y
  }

  lemma WithoutOne(m: map<Id, Id>, x: Id)
    requires Injective(m) && x in m
    ensures (m - {x}).Keys == m.Keys - {x} && (m - {x}).Values == m.Values - {m[x]} && Injective(m - {x})
  {
    var rest := m - {x};
    forall v ensures v in rest.Values <==> v in m.Values - {m[x]} {
      if v in m.Values - {m[x]} {
        var y :| y in m && m[y] == v;
        assert y in rest && rest[y] == v;
      }
      if v in rest.Values {
        var y :| y in rest && rest[y] == v;
        assert m[y] == v && m[y] != m[x];
      }
    }
  }

  // ---------------------------------------------------------------- climbing

  /** `b` is reached from `a` by `n` hasParent edges. */
  ghost predicate Climb(edges: map<Edge, nat>, a: Id, b: Id, n: nat)
    decreases n, 1
  {
    if n == 0 then a == b else exists m :: ClimbVia(edges, a, m, b, n)
  }

  ghost predicate ClimbVia(edges: map<Edge, nat>, a: Id, m: Id, b: Id, n: nat)
    requires n > 0
    decreases n, 0
  {
    Edge(a, m) in edges && Climb(edges, m, b, n - 1)
  }

  /** `b` is an ancestor of `a`: a parent, a grandparent and so on. */
  ghost predicate Above(edges: map<Edge, nat>, a: Id, b: Id) {
    exists n: nat :: n > 0 && Climb(edges, a, b, n)
  }

  /** All ancestors of the given vertices. */
  ghost function Ancestors(g: Graph, ids: set<Id>): set<Id> {
    set v | v in g.vertices && AboveSome(g.hasParent, ids, v)
  }

  ghost predicate AboveSome(edges: map<Edge, nat>, ids: set<Id>, v: Id) {
    exists s :: s in ids && Above(edges, s, v)
  }

  /** hasParent edges do not leave the kind. */
  ghost predicate KindClosed(g: Graph, kind: Kind) {
    forall e | e in g.hasParent && e.src in Ids(g, kind) :: e.dst in Ids(g, kind)
  }

  ghost predicate Acyclic(g: Graph, kind: Kind) { forall v | v in Ids(g, kind) :: !Above(g.hasParent, v, v) }

  lemma {:induction false} ClimbOn(edges: map<Edge, nat>, a: Id, b: Id, c: Id, m: nat, n: nat)
    requires Climb(edges, a, b, m) && Climb(edges, b, c, n)
    ensures Climb(edges, a, c, m + n)
    decreases m
  {
    if m > 0 {
      var x :| ClimbVia(edges, a, x, b, m);
      ClimbOn(edges, x, b, c, m - 1, n);
      assert ClimbVia(edges, a, x, c, m + n);
    }
  }

  lemma OneStep(edges: map<Edge, nat>, a: Id, b: Id)
    requires Edge(a, b) in edges
    ensures Climb(edges, a, b, 1) && Above(edges, a, b)
  {
    assert Climb(edges, b, b, 0);
    assert ClimbVia(edges, a, b, b, 1);
  }

  lemma AboveTransitive(edges: map<Edge, nat>, a: Id, b: Id, c: Id)
    requires Above(edges, a, b) && Above(edges, b, c)
    ensures Above(edges, a, c)
  {
    var m: nat :| m > 0 && Climb(edges, a, b, m);
    var n: nat :| n > 0 && Climb(edges, b, c, n);
    ClimbOn(edges, a, b, c, m, n);
  }

  lemma FirstStep(edges: map<Edge, nat>, a: Id, b: Id) returns (m: Id)
    requires Above(edges, a, b)
    ensures Edge(a, m) in edges
  {
    var n: nat :| n > 0 && Climb(edges, a, b, n);
    m := FirstOf(edges, a, b, n);
  }

  lemma FirstOf(edges: map<Edge, nat>, a: Id, b: Id, n: nat) returns (m: Id)
    requires n > 0 && Climb(edges, a, b, n)
    ensures Edge(a, m) in edges
  {
    m :| ClimbVia(edges, a, m, b, n);
  }

  /** The last step of a climb. */
  lemma {:induction false} LastStep(edges: map<Edge, nat>, a: Id, b: Id, n: nat) returns (m: Id)
    requires n > 0 && Climb(edges, a, b, n)
    ensures Climb(edges, a, m, n - 1) && Edge(m, b) in edges
    decreases n
  {
    var x :| ClimbVia(edges, a, x, b, n);
    if n == 1 {
      m := a;
    } else {
      m := LastStep(edges, x, b, n - 1);
      assert ClimbVia(edges, a, x, m, n - 1);
    }
  }

  // ---------------------------------------------------------------- ranks: acyclic and finite

  ghost function Rank(g: Graph, v: Id): nat { |Ancestors(g, {v})| }

  /** A parent that is not above itself has fewer ancestors than its child. */
  lemma ParentRanksLower(g: Graph, a: Id, b: Id)
    requires WellFormed(g) && !Above(g.hasParent, b, b) && Edge(a, b) in g.hasParent
    ensures Rank(g, b) < Rank(g, a)
  {
    OneStep(g.hasParent, a, b);
    var up, low := Ancestors(g, {b}), Ancestors(g, {a});
    forall v | v in up ensures v in low {
      assert Above(g.hasParent, b, v);
      AboveTransitive(g.hasParent, a, b, v);
    }
    assert b in low && b !in up;
    SubsetIsSmaller(up, low, b);
  }

  lemma SubsetIsSmaller(a: set<Id>, b: set<Id>, x: Id)
    requires a <= b && x in b && x !in a
    ensures |a| < |b|
  {
    assert b == a + (b - a);
    assert |b| == |a| + |b - a|;
    assert b - a != {};
  }

  /** So a climb is never longer than the rank of where it starts. */
  lemma {:induction false} ClimbIsShort(g: Graph, kind: Kind, a: Id, b: Id, n: nat)
    requires WellFormed(g) && KindClosed(g, kind) && Acyclic(g, kind) && a in Ids(g, kind) && Climb(g.hasParent, a, b, n)
    ensures n <= Rank(g, a)
    decreases n
  {
    if n > 0 {
      var x :| ClimbVia(g.hasParent, a, x, b, n);
      ClimbIsShort(g, kind, x, b, n - 1);
      ParentRanksLower(g, a, x);
    }
  }
}
