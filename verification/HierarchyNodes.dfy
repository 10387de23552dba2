/**
 Reading one node of a hierarchy: its own properties, its children and its breadcrumbs. Both queries start from the node's
 code, not its id.
 */
module HierarchyNodes {
  import opened Options
  import opened HierarchyGraph
  import opened HierarchyQueries
  import opened HierarchyTraversal

  datatype Element = Element(id: string, name: string, noOfChildren: nat, hasData: bool)

  datatype ReadError = QueryFailed | PropertyNotFound

  function WithCode(g: Graph, kind: Kind, code: string): set<Id> { set v | v in Ids(g, kind) && g.vertices[v].code == code }

  function ConvertVertexToElement(v: Vertex): Option<Element> {
    if v.numberOfChildren.None? then None else Some(Element(v.code, v.name, v.numberOfChildren.value, v.hasData))
  }

  /** The element's id is the code, as links are made from it, and its name is the label. */
  ghost predicate IsElementOf(e: Element, v: Vertex) {
    && e.id == v.code && e.name == v.name
    && v.numberOfChildren == Some(e.noOfChildren)
    && (e.hasData <==> v.hasData)
  }

  /** The elements of the vertices, in the order given. */
  ghost predicate Converts(g: Graph, vertices: seq<Id>, elements: seq<Element>) {
    && |elements| == |vertices|
    && forall i | 0 <= i < |vertices| :: vertices[i] in g.vertices && IsElementOf(elements[i], g.vertices[vertices[i]])
  }

  ghost predicate Readable(g: Graph, vertices: seq<Id>) {
    forall v | v in vertices :: v in g.vertices && g.vertices[v].numberOfChildren.Some?
  }

  method ConvertAll(g: Graph, vertices: seq<Id>) returns (elements: seq<Element>, err: Option<ReadError>)
    requires forall v | v in vertices :: v in g.vertices
    ensures err == None ==> Converts(g, vertices, elements)
    ensures err == None <==> Readable(g, vertices)
  {
    elements, err := [], None;
    for i := 0 to |vertices|
      invariant Converts(g, vertices[..i], elements) && Readable(g, vertices[..i])
    {
      var element := ConvertVertexToElement(g.vertices[vertices[i]]);
      if element.None? {
        return [], Some(PropertyNotFound);
      }
      elements := elements + [element.value];
    }
  }

  // ---------------------------------------------------------------- children

  /** How many children the query finds: those of every vertex with the code. */
  ghost function Listed(g: Graph, kind: Kind, code: string): nat {
    Sum(WithCode(g, kind, code), InDegrees(g.vertices.Keys, g.hasParent))
  }

  ghost predicate IsChildOf(g: Graph, ids: set<Id>, u: Id) { exists v :: v in ids && Edge(u, v) in g.hasParent }

  ghost function Onto(edges: map<Edge, nat>, u: Id): Id -> nat { v => Count(edges, Edge(u, v)) }

  /** A vertex is listed once for each of its edges to one of the vertices. */
  ghost predicate OncePerEdge(g: Graph, ids: set<Id>, children: seq<Id>, u: Id) {
    && (u in children <==> IsChildOf(g, ids, u))
    && multiset(children)[u] == Sum(ids, Onto(g.hasParent, u))
  }

  ghost predicate AreChildrenOf(g: Graph, ids: set<Id>, children: seq<Id>) {
    forall u :: OncePerEdge(g, ids, children, u)
  }

  /** has('code').in('hasParent'): one for each edge. */
  method GetChildren(g: Graph, kind: Kind, code: string) returns (children: seq<Id>)
    requires WellFormed(g)
    ensures |children| == Listed(g, kind, code)
    ensures AreChildrenOf(g, WithCode(g, kind, code), children)
  {
    children := ChildrenOfAll(g, WithCode(g, kind, code), InDegrees(g.vertices.Keys, g.hasParent));
  }

  method ChildrenOfAll(g: Graph, ids: set<Id>, ghost n: Id -> nat) returns (children: seq<Id>)
    requires WellFormed(g) && n == InDegrees(g.vertices.Keys, g.hasParent)
    ensures |children| == Sum(ids, n)
    ensures AreChildrenOf(g, ids, children)
  {
    var todo := ids;
    children := [];
    NoChildren(g, ids, n);
    while todo != {}
      invariant todo <= ids && ListedSoFar(g, ids, todo, children, n)
      decreases todo
    {
      var v :| v in todo;
      var below := Below(g, v);
      ListMore(g, ids, todo, v, children, below, n);
      children, todo := children + below, todo - {v};
    }
    assert ids - {} == ids;
  }

  /** The children of all but those that are still to do. */
  ghost predicate ListedSoFar(g: Graph, ids: set<Id>, todo: set<Id>, children: seq<Id>, n: Id -> nat) {
    |children| + Sum(todo, n) == Sum(ids, n) && AreChildrenOf(g, ids - todo, children)
  }

  lemma NoChildren(g: Graph, ids: set<Id>, n: Id -> nat)
    ensures ListedSoFar(g, ids, ids, [], n)
  {
    assert ids - ids == {};
    forall u ensures OncePerEdge(g, {}, [], u) {
    }
  }

  lemma ListMore(g: Graph, ids: set<Id>, todo: set<Id>, v: Id, children: seq<Id>, below: seq<Id>, n: Id -> nat)
    requires ListedSoFar(g, ids, todo, children, n) && v in todo && todo <= ids
    requires |below| == n(v) && AreChildrenOf(g, {v}, below)
    ensures ListedSoFar(g, ids, todo - {v}, children + below, n)
  {
    SumTakes(todo, n, v);
    MoreChildren(g, ids - todo, v, children, below);
    assert ids - (todo - {v}) == ids - todo + {v};
  }

  lemma MoreChildren(g: Graph, ids: set<Id>, v: Id, a: seq<Id>, b: seq<Id>)
    requires AreChildrenOf(g, ids, a) && AreChildrenOf(g, {v}, b) && v !in ids
    ensures AreChildrenOf(g, ids + {v}, a + b)
  {
    forall u ensures OncePerEdge(g, ids + {v}, a + b, u) {
      OneMoreParent(g, ids, v, u);
      assert OncePerEdge(g, ids, a, u) && OncePerEdge(g, {v}, b, u);
      SumOneMore(ids, v, Onto(g.hasParent, u));
      assert multiset(a + b)[u] == multiset(a)[u] + multiset(b)[u];
    }
  }

  lemma SumOneMore(ids: set<Id>, v: Id, f: Id -> nat)
    requires v !in ids
    ensures Sum(ids + {v}, f) == Sum(ids, f) + Sum({v}, f)
  {
    SumTakes(ids + {v}, f, v);
    SumTakes({v}, f, v);
    assert ids + {v} - {v} == ids && {v} - {v} == {};
  }

  lemma OneMoreParent(g: Graph, ids: set<Id>, v: Id, u: Id)
    ensures IsChildOf(g, ids + {v}, u) <==> IsChildOf(g, ids, u) || IsChildOf(g, {v}, u)
  {
    if IsChildOf(g, ids, u) {
      var w :| w in ids && Edge(u, w) in g.hasParent;
      assert w in ids + {v};
    }
    if IsChildOf(g, {v}, u) {
      assert v in ids + {v};
    }
  }

  method Below(g: Graph, v: Id) returns (children: seq<Id>)
    requires WellFormed(g)
    ensures |children| == InDegrees(g.vertices.Keys, g.hasParent)(v)
    ensures AreChildrenOf(g, {v}, children)
  {
    ghost var n := Into(g.hasParent, v);
    var todo := g.vertices.Keys;
    children := [];
    while todo != {}
      invariant todo <= g.vertices.Keys
      invariant |children| + Sum(todo, n) == Sum(g.vertices.Keys, n)
      invariant AreFrom(g, v, g.vertices.Keys - todo, children)
      decreases todo
    {
      var u :| u in todo;
      SumTakes(todo, n, u);
      var copies := seq(Count(g.hasParent, Edge(u, v)), i => u);
      MoreFrom(g, v, g.vertices.Keys - todo, u, children, copies);
      assert g.vertices.Keys - (todo - {u}) == g.vertices.Keys - todo + {u};
      children, todo := children + copies, todo - {u};
    }
    assert g.vertices.Keys - {} == g.vertices.Keys;
    FromAll(g, v, children);
  }

  lemma FromAll(g: Graph, v: Id, children: seq<Id>)
    requires WellFormed(g) && AreFrom(g, v, g.vertices.Keys, children)
    ensures AreChildrenOf(g, {v}, children)
  {
    forall u ensures OncePerEdge(g, {v}, children, u) {
      assert IsFrom(g, v, g.vertices.Keys, children, u);
      assert v in {v};
      SumTakes({v}, Onto(g.hasParent, u), v);
      assert {v} - {v} == {};
    }
  }

  /** The vertices among `ids` that have an edge to `v`. */
  ghost predicate AreFrom(g: Graph, v: Id, ids: set<Id>, children: seq<Id>) {
    forall u :: IsFrom(g, v, ids, children, u)
  }

  ghost predicate IsFrom(g: Graph, v: Id, ids: set<Id>, children: seq<Id>, u: Id) {
    && (u in children <==> u in ids && Edge(u, v) in g.hasParent)
    && multiset(children)[u] == if u in ids then Count(g.hasParent, Edge(u, v)) else 0
  }

  lemma MoreFrom(g: Graph, v: Id, ids: set<Id>, u: Id, a: seq<Id>, copies: seq<Id>)
    requires WellFormed(g) && AreFrom(g, v, ids, a) && u !in ids
    requires |copies| == Count(g.hasParent, Edge(u, v)) && forall i | 0 <= i < |copies| :: copies[i] == u
    ensures AreFrom(g, v, ids + {u}, a + copies)
  {
    if Edge(u, v) in g.hasParent {
      assert copies[0] == u;
    }
    AllTheSame(copies, u);
    forall w ensures IsFrom(g, v, ids + {u}, a + copies, w) {
      assert IsFrom(g, v, ids, a, w);
      assert multiset(a + copies)[w] == multiset(a)[w] + multiset(copies)[w];
    }
  }

  lemma {:induction false} AllTheSame(copies: seq<Id>, u: Id)
    requires forall i | 0 <= i < |copies| :: copies[i] == u
    ensures forall w :: multiset(copies)[w] == if w == u then |copies| else 0
  {
    if copies != [] {
      var last := |copies| - 1;
      AllTheSame(copies[..last], u);
      assert copies == copies[..last] + [u];
    }
  }

  lemma {:induction false} SumIsZeroIff(ids: set<Id>, f: Id -> nat)
    ensures Sum(ids, f) == 0 <==> forall x | x in ids :: f(x) == 0
  {
    if ids != {} {
      var y :| y in ids;
      SumTakes(ids, f, y);
      SumIsZeroIff(ids - {y}, f);
    }
  }

  /**
   The number of children found is the number stored, counted from the edges, exactly if no other vertex with the same
   code has children.
   */
  lemma CountMatchesIff(g: Graph, kind: Kind, v: Id)
    requires v in Ids(g, kind)
    ensures Listed(g, kind, g.vertices[v].code) == InDegree(g.vertices.Keys, g.hasParent, v) <==>
            forall w | w in WithCode(g, kind, g.vertices[v].code) && w != v :: InDegrees(g.vertices.Keys, g.hasParent)(w) == 0
  {
    var same, n := WithCode(g, kind, g.vertices[v].code), InDegrees(g.vertices.Keys, g.hasParent);
    SumTakes(same, n, v);
    SumIsZeroIff(same - {v}, n);
  }

  /**
   Once the children have been counted, reading a vertex warns about their number only if another vertex has the same code
   and has children.
   */
  lemma NoWarningIff(g: Graph, kind: Kind, v: Id)
    requires v in Ids(g, kind)
    ensures var r := SetNumberOfChildren(g, Ids(g, kind));
      && v in r.vertices && r.vertices[v].numberOfChildren.Some?
      && (Listed(r, kind, r.vertices[v].code) == r.vertices[v].numberOfChildren.value <==>
          forall w | w in WithCode(r, kind, r.vertices[v].code) && w != v :: InDegrees(r.vertices.Keys, r.hasParent)(w) == 0)
  {
    var r := SetNumberOfChildren(g, Ids(g, kind));
    assert r.vertices.Keys == g.vertices.Keys;
    assert r.vertices[v].numberOfChildren == Some(InDegree(r.vertices.Keys, r.hasParent, v));
    CountMatchesIff(r, kind, v);
  }

  // ---------------------------------------------------------------- breadcrumbs

  /** At most one edge leads up. */
  ghost predicate SingleParent(g: Graph, v: Id) {
    && (forall e | e in g.hasParent && e.src == v :: g.hasParent[e] == 1)
    && (forall d, e | d in g.hasParent && e in g.hasParent && d.src == v == e.src :: d == e)
  }

  ghost predicate SingleParents(g: Graph, ids: set<Id>) { forall v | v in ids :: SingleParent(g, v) }

  function Top(v: Id, chain: seq<Id>): Id { if chain == [] then v else chain[|chain| - 1] }

  /** Each is a parent of the one before. */
  ghost predicate IsPath(g: Graph, v: Id, path: seq<Id>) {
    forall i | 0 <= i < |path| :: Edge(Top(v, path[..i]), path[i]) in g.hasParent
  }

  /** Parent, grandparent and so on, up to a vertex without a parent. */
  ghost predicate IsChain(g: Graph, v: Id, chain: seq<Id>) { IsPath(g, v, chain) && HasNoParent(g, Top(v, chain)) }

  lemma PathGrows(g: Graph, v: Id, path: seq<Id>, p: Id)
    requires IsPath(g, v, path) && Edge(Top(v, path), p) in g.hasParent
    ensures IsPath(g, v, path + [p])
  {
    forall i | 0 <= i < |path + [p]| ensures Edge(Top(v, (path + [p])[..i]), (path + [p])[i]) in g.hasParent {
      assert (path + [p])[..i] == path[..i];
      assert path[..|path|] == path;
    }
  }

  /** out('hasParent'): one for each edge. */
  method ParentsOf(g: Graph, v: Id) returns (parents: seq<Id>)
    ensures forall p :: p in parents ==> Edge(v, p) in g.hasParent
    ensures forall p :: Edge(v, p) in g.hasParent && g.hasParent[Edge(v, p)] > 0 ==> p in parents
    ensures SingleParent(g, v) ==> |parents| <= 1
  {
    var todo := set e | e in g.hasParent && e.src == v;
    parents := [];
    while todo != {}
      invariant forall e | e in todo :: e in g.hasParent && e.src == v
      invariant forall p :: p in parents ==> Edge(v, p) in g.hasParent
      invariant forall e | e in g.hasParent && e.src == v && g.hasParent[e] > 0 :: e in todo || e.dst in parents
      invariant SingleParent(g, v) ==> parents == [] || (|parents| == 1 && todo == {})
      decreases todo
    {
      var e :| e in todo;
      var copies := seq(g.hasParent[e], i => e.dst);
      assert g.hasParent[e] > 0 ==> copies[0] == e.dst;
      assert e == Edge(v, e.dst);
      assert SingleParent(g, v) ==> todo == {e};
      parents, todo := parents + copies, todo - {e};
    }
  }

  method NextUp(g: Graph, level: seq<Id>) returns (next: seq<Id>)
    requires WellFormed(g)
    ensures Vertices(next) == Parents(g.hasParent, Vertices(level))
    ensures SingleParents(g, Vertices(level)) ==> |next| <= |level|
  {
    next := [];
    for i := 0 to |level|
      invariant Vertices(next) == Parents(g.hasParent, Vertices(level[..i]))
      invariant SingleParents(g, Vertices(level)) ==> |next| <= i
    {
      var parents := ParentsOf(g, level[i]);
      MoreParents(g, level, i, next, parents);
      next := next + parents;
    }
    assert level[..|level|] == level;
  }

  function Vertices(s: seq<Id>): set<Id> { set v | v in s }

  lemma MoreParents(g: Graph, level: seq<Id>, i: nat, next: seq<Id>, parents: seq<Id>)
    requires WellFormed(g) && i < |level| && Vertices(next) == Parents(g.hasParent, Vertices(level[..i]))
    requires forall p :: p in parents ==> Edge(level[i], p) in g.hasParent
    requires forall p :: Edge(level[i], p) in g.hasParent && g.hasParent[Edge(level[i], p)] > 0 ==> p in parents
    ensures Vertices(next + parents) == Parents(g.hasParent, Vertices(level[..i + 1]))
  {
    assert level[..i + 1] == level[..i] + [level[i]];
    forall p ensures p in next + parents <==> p in Parents(g.hasParent, Vertices(level[..i + 1])) {
      assert p in next <==> p in Vertices(next);
      if p in Parents(g.hasParent, Vertices(level[..i + 1])) {
        var e :| e in g.hasParent && e.src in Vertices(level[..i + 1]) && e.dst == p;
        assert e == Edge(e.src, p);
        assert e.src in Vertices(level[..i]) || e.src == level[i];
      }
      if p in parents {
        var e := Edge(level[i], p);
        assert e.src in Vertices(level[..i + 1]);
      }
    }
  }

  /** What has been found so far is a path, and the level holds its last vertex, or nothing if that has no parent. */
  ghost predicate ClimbsAlone(g: Graph, v: Id, found: seq<Id>, level: seq<Id>) {
    IsPath(g, v, found) && if level == [] then HasNoParent(g, Top(v, found)) else level == [Top(v, found)]
  }

  lemma ClimbOnAlone(g: Graph, v: Id, found: seq<Id>, level: seq<Id>, next: seq<Id>)
    requires ClimbsAlone(g, v, found, level) && level != [] && |next| <= 1
    requires Vertices(next) == Parents(g.hasParent, Vertices(level))
    ensures ClimbsAlone(g, v, found + next, next)
  {
    var x := Top(v, found);
    if next == [] {
      assert found + next == found;
      forall e | e in g.hasParent ensures e.src != x {
        assert e.src in Vertices(level) ==> e.dst in Parents(g.hasParent, Vertices(level));
      }
    } else {
      assert next[0] in Vertices(next);
      var e :| e in g.hasParent && e.src in Vertices(level) && e.dst == next[0];
      assert e == Edge(x, next[0]);
      PathGrows(g, v, found, next[0]);
      assert next == [next[0]];
    }
  }

  /** repeat(out('hasParent')).emit(), a vertex once for each way of reaching it. */
  method GetAncestry(g: Graph, ghost kind: Kind, start: seq<Id>) returns (found: seq<Id>)
    requires WellFormed(g) && KindClosed(g, kind) && Acyclic(g, kind) && Vertices(start) <= Ids(g, kind)
    ensures Vertices(found) == Ancestors(g, Vertices(start))
    ensures SingleParents(g, Ids(g, kind)) && |start| == 1 ==> IsChain(g, start[0], found)
    ensures forall v | v in found :: v in g.vertices
  {
    var level := start;
    found := [];
    ghost var n, ids := 0, Vertices(start);
    FirstLevel(g.hasParent, ids);
    while level != []
      invariant IsLevel(g.hasParent, ids, Vertices(level), n) && Vertices(level) <= Ids(g, kind)
      invariant IsWithin(g.hasParent, ids, Vertices(found), n)
      invariant SingleParents(g, Ids(g, kind)) && |start| == 1 ==> ClimbsAlone(g, start[0], found, level)
      decreases |g.vertices| + 1 - n
    {
      assert level[0] in Vertices(level);
      LevelsEnd(g, kind, ids, Vertices(level), n);
      NextLevel(g.hasParent, ids, Vertices(level), n);
      var next := NextUp(g, level);
      if SingleParents(g, Ids(g, kind)) && |start| == 1 {
        ClimbOnAlone(g, start[0], found, level, next);
      }
      FoundSoFar(g.hasParent, ids, found, next, n);
      found, level, n := found + next, next, n + 1;
    }
    assert Vertices([]) == {};
    forall v ensures v in Vertices(found) <==> v in g.vertices && AboveSome(g.hasParent, ids, v) {
      AllReached(g.hasParent, ids, Vertices(found), n, v);
      if AboveSome(g.hasParent, ids, v) {
        ReachedIsVertex(g, ids, v);
      }
    }
    forall v | v in found ensures v in g.vertices {
      assert v in Vertices(found);
    }
  }

  lemma FoundSoFar(edges: map<Edge, nat>, ids: set<Id>, found: seq<Id>, next: seq<Id>, n: nat)
    requires IsWithin(edges, ids, Vertices(found), n) && IsLevel(edges, ids, Vertices(next), n + 1)
    ensures IsWithin(edges, ids, Vertices(found + next), n + 1)
  {
    forall v ensures v in Vertices(found + next) <==> ReachedWithin(edges, ids, v, n + 1) {
      assert v in Vertices(found + next) <==> v in Vertices(found) || v in Vertices(next);
    }
  }

  /** All ancestors of the vertices with the code; of a single one without side branches, from its parent to the root. */
  ghost predicate AreBreadcrumbs(g: Graph, kind: Kind, code: string, elements: seq<Element>) {
    exists found :: AncestorsFound(g, kind, WithCode(g, kind, code), found) && Converts(g, found, elements)
  }

  ghost predicate AncestorsFound(g: Graph, kind: Kind, ids: set<Id>, found: seq<Id>) {
    && Vertices(found) == Ancestors(g, ids)
    && (SingleParents(g, Ids(g, kind)) ==> forall v | ids == {v} :: IsChain(g, v, found))
  }

  method BuildBreadcrumbs(g: Graph, kind: Kind, code: string) returns (elements: seq<Element>, err: Option<ReadError>)
    requires WellFormed(g) && KindClosed(g, kind) && Acyclic(g, kind)
    ensures err == None ==> AreBreadcrumbs(g, kind, code, elements)
    ensures err == Some(PropertyNotFound) ==>
      exists a :: a in Ancestors(g, WithCode(g, kind, code)) && g.vertices[a].numberOfChildren.None?
  {
    var answered: bool := *;
    if !answered {
      return [], Some(QueryFailed);
    }
    var start := AsSeq(WithCode(g, kind, code));
    var found := GetAncestry(g, kind, start);
    OneStart(WithCode(g, kind, code), start);
    elements, err := ConvertAll(g, found);
    if err.Some? {
      var a :| a in found && g.vertices[a].numberOfChildren.None?;
      assert a in Vertices(found);
      err := Some(PropertyNotFound);
    } else {
      assert AncestorsFound(g, kind, WithCode(g, kind, code), found);
    }
  }

  lemma OneStart(ids: set<Id>, start: seq<Id>)
    requires Vertices(start) == ids && |start| == |ids|
    ensures forall v | ids == {v} :: |start| == 1 && start[0] == v
  {
    forall v | ids == {v} ensures |start| == 1 && start[0] == v {
      assert start[0] in Vertices(start);
    }
  }

  method AsSeq(ids: set<Id>) returns (s: seq<Id>)
    ensures Vertices(s) == ids && |s| == |ids|
  {
    var todo := ids;
    s := [];
    while todo != {}
      invariant todo <= ids && Vertices(s) == ids - todo && |s| == |ids| - |todo|
      decreases todo
    {
      var v :| v in todo;
      assert Vertices(s + [v]) == Vertices(s) + {v};
      s, todo := s + [v], todo - {v};
    }
  }

  // ---------------------------------------------------------------- the whole node

  class HierarchyResponse {
    var id: string
    var name: string
    var noOfChildren: nat
    var hasData: bool
    var children: seq<Element>
    var breadcrumbs: seq<Element>

    constructor ()
      ensures children == [] && breadcrumbs == []
    {
      id, name, noOfChildren, hasData, children, breadcrumbs := "", "", 0, false, [], [];
    }
  }

  /** The children that the query by code finds. */
  ghost predicate AreChildren(g: Graph, kind: Kind, code: string, elements: seq<Element>) {
    && |elements| == Listed(g, kind, code)
    && exists listed :: AreChildrenOf(g, WithCode(g, kind, code), listed) && Converts(g, listed, elements)
  }

  method BuildChildren(g: Graph, kind: Kind, code: string) returns (elements: seq<Element>, err: Option<ReadError>)
    requires WellFormed(g)
    ensures err == None ==> AreChildren(g, kind, code, elements)
  {
    elements, err := [], None;
    var answered: bool := *;
    if !answered {
      return [], Some(QueryFailed);
    }
    var listed := GetChildren(g, kind, code);
    ChildrenAreVertices(g, WithCode(g, kind, code), listed);
    elements, err := ConvertAll(g, listed);
  }

  method LookUpChildren(g: Graph, kind: Kind, code: string, noOfChildren: nat)
      returns (elements: seq<Element>, err: Option<ReadError>, mismatch: bool)
    requires WellFormed(g) && kind.Instance?
    ensures err == None && noOfChildren > 0 && kind.instanceID != "" ==>
      AreChildren(g, kind, code, elements) && (mismatch <==> |elements| != noOfChildren)
    ensures noOfChildren == 0 || kind.instanceID == "" ==> err == None && elements == [] && !mismatch
  {
    elements, err, mismatch := [], None, false;
    if noOfChildren > 0 && kind.instanceID != "" {
      elements, err := BuildChildren(g, kind, code);
      mismatch := err == None && |elements| != noOfChildren;
    }
  }

  /**
   `mismatch` is whether the warning about the number of children is logged. Children are only looked up if the stored
   number is not zero.
   */
  method BuildHierarchyNode(g: Graph, kind: Kind, v: Id, wantBreadcrumbs: bool)
      returns (res: HierarchyResponse, err: Option<ReadError>, mismatch: bool)
    requires WellFormed(g) && KindClosed(g, kind) && Acyclic(g, kind) && v in Ids(g, kind) && kind.Instance?
    ensures fresh(res)
    ensures g.vertices[v].numberOfChildren.None? ==> err == Some(PropertyNotFound)
    ensures err == None ==>
      && g.vertices[v].numberOfChildren == Some(res.noOfChildren)
      && res.id == g.vertices[v].code && res.name == g.vertices[v].name && res.hasData == g.vertices[v].hasData
    ensures err == None && res.noOfChildren > 0 && kind.instanceID != "" ==>
      AreChildren(g, kind, res.id, res.children) && (mismatch <==> |res.children| != res.noOfChildren)
    ensures err == None && (res.noOfChildren == 0 || kind.instanceID == "") ==> res.children == [] && !mismatch
    ensures err == None && wantBreadcrumbs ==> AreBreadcrumbs(g, kind, res.id, res.breadcrumbs)
  {
    res := new HierarchyResponse();
    err, mismatch := None, false;
    var vertex := g.vertices[v];
    res.id, res.name := vertex.code, vertex.name;
    if vertex.numberOfChildren.None? {
      return res, Some(PropertyNotFound), false;
    }
    res.noOfChildren, res.hasData := vertex.numberOfChildren.value, vertex.hasData;
    res.children, err, mismatch := LookUpChildren(g, kind, res.id, res.noOfChildren);
    if err.Some? {
      return;
    }
    if wantBreadcrumbs {
      res.breadcrumbs, err := BuildBreadcrumbs(g, kind, res.id);
    }
  }

  lemma ChildrenAreVertices(g: Graph, ids: set<Id>, listed: seq<Id>)
    requires WellFormed(g) && AreChildrenOf(g, ids, listed)
    ensures forall u | u in listed :: u in g.vertices
  {
    forall u | u in listed ensures u in g.vertices {
      assert OncePerEdge(g, ids, listed, u);
      var v :| v in ids && Edge(u, v) in g.hasParent;
    }
  }
}
