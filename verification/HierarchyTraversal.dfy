/** Carrying out the two queries that are more than one comprehension: repeat(out('hasParent')).emit(), and counting. */
module HierarchyTraversal {
  import opened Options
  import opened HierarchyGraph
  import opened HierarchyQueries

  /** Reached from one of the given vertices by exactly `n` steps. */
  ghost predicate ReachedIn(edges: map<Edge, nat>, ids: set<Id>, v: Id, n: nat) {
    exists s :: s in ids && Climb(edges, s, v, n)
  }

  /** Reached by one to `n` steps. */
  ghost predicate ReachedWithin(edges: map<Edge, nat>, ids: set<Id>, v: Id, n: nat) {
    n > 0 && (ReachedIn(edges, ids, v, n) || ReachedWithin(edges, ids, v, n - 1))
  }

  function Parents(edges: map<Edge, nat>, ids: set<Id>): set<Id> { set e | e in edges && e.src in ids :: e.dst }

  ghost predicate IsLevel(edges: map<Edge, nat>, ids: set<Id>, level: set<Id>, n: nat) {
    forall v :: v in level <==> ReachedIn(edges, ids, v, n)
  }

  ghost predicate IsWithin(edges: map<Edge, nat>, ids: set<Id>, reached: set<Id>, n: nat) {
    forall v :: v in reached <==> ReachedWithin(edges, ids, v, n)
  }

  lemma FirstLevel(edges: map<Edge, nat>, ids: set<Id>)
    ensures IsLevel(edges, ids, ids, 0)
  {
    forall v | v in ids ensures ReachedIn(edges, ids, v, 0) {
      assert Climb(edges, v, v, 0);
    }
  }

  lemma NextLevel(edges: map<Edge, nat>, ids: set<Id>, level: set<Id>, n: nat)
    requires IsLevel(edges, ids, level, n)
    ensures IsLevel(edges, ids, Parents(edges, level), n + 1)
  {
    forall v | v in Parents(edges, level) ensures ReachedIn(edges, ids, v, n + 1) {
      var e :| e in edges && e.src in level && e.dst == v;
      var s :| s in ids && Climb(edges, s, e.src, n);
      assert e == Edge(e.src, v);
      OneStep(edges, e.src, v);
      ClimbOn(edges, s, e.src, v, n, 1);
    }
    forall v | ReachedIn(edges, ids, v, n + 1) ensures v in Parents(edges, level) {
      var s :| s in ids && Climb(edges, s, v, n + 1);
      var m := LastStep(edges, s, v, n + 1);
      assert ReachedIn(edges, ids, m, n);
    }
  }

  /** Once a level is empty, so are all later ones. */
  lemma {:induction false} NothingLater(edges: map<Edge, nat>, ids: set<Id>, v: Id, n: nat, k: nat)
    requires IsLevel(edges, ids, {}, n) && k >= n
    ensures !ReachedIn(edges, ids, v, k)
    decreases k
  {
    if k > n && ReachedIn(edges, ids, v, k) {
      var s :| s in ids && Climb(edges, s, v, k);
      var m := LastStep(edges, s, v, k);
      NothingLater(edges, ids, m, n, k - 1);
    }
  }

  lemma {:induction false} WithinIs(edges: map<Edge, nat>, ids: set<Id>, v: Id, n: nat)
    ensures ReachedWithin(edges, ids, v, n) <==> exists k: nat :: 0 < k <= n && ReachedIn(edges, ids, v, k)
  {
    if n > 0 {
      WithinIs(edges, ids, v, n - 1);
    }
  }

  lemma AllReached(edges: map<Edge, nat>, ids: set<Id>, reached: set<Id>, n: nat, v: Id)
    requires IsLevel(edges, ids, {}, n) && IsWithin(edges, ids, reached, n)
    ensures v in reached <==> AboveSome(edges, ids, v)
  {
    WithinIs(edges, ids, v, n);
    if v in reached {
      var k: nat :| 0 < k <= n && ReachedIn(edges, ids, v, k);
      var s :| s in ids && Climb(edges, s, v, k);
      assert Above(edges, s, v);
    }
    if AboveSome(edges, ids, v) {
      var s :| s in ids && Above(edges, s, v);
      var k: nat :| k > 0 && Climb(edges, s, v, k);
      assert ReachedIn(edges, ids, v, k);
      if k > n {
        NothingLater(edges, ids, v, n, k);
      }
    }
  }

  lemma LevelsEnd(g: Graph, kind: Kind, ids: set<Id>, level: set<Id>, n: nat)
    requires WellFormed(g) && KindClosed(g, kind) && Acyclic(g, kind) && ids <= Ids(g, kind)
    requires IsLevel(g.hasParent, ids, level, n) && level != {}
    ensures n <= |g.vertices|
  {
    var v :| v in level;
    var s :| s in ids && Climb(g.hasParent, s, v, n);
    ClimbIsShort(g, kind, s, v, n);
    SubsetIsAtMost(Ancestors(g, {s}), g.vertices.Keys);
  }

  lemma SubsetIsAtMost(a: set<Id>, b: set<Id>)
    requires a <= b
    ensures |a| <= |b|
  {
    assert b == a + (b - a);
    assert |b| == |a| + |b - a|;
  }

  /**
   repeat(out('hasParent')).emit() from the given vertices. It goes up one level at a time and does not remember where it
   has been, so it ends because the hierarchy has no cycles.
   */
  method Repeat(g: Graph, ghost kind: Kind, ids: set<Id>) returns (reached: set<Id>)
    requires WellFormed(g) && KindClosed(g, kind) && Acyclic(g, kind) && ids <= Ids(g, kind)
    ensures reached == Ancestors(g, ids)
  {
    var level := ids;
    reached := {};
    ghost var n := 0;
    FirstLevel(g.hasParent, ids);
    while level != {}
      invariant IsLevel(g.hasParent, ids, level, n)
      invariant IsWithin(g.hasParent, ids, reached, n)
      decreases |g.vertices| + 1 - n
    {
      LevelsEnd(g, kind, ids, level, n);
      NextLevel(g.hasParent, ids, level, n);
      level := Parents(g.hasParent, level);
      reached := reached + level;
      n := n + 1;
    }
    forall v ensures v in reached <==> v in g.vertices && AboveSome(g.hasParent, ids, v) {
      AllReached(g.hasParent, ids, reached, n, v);
      if AboveSome(g.hasParent, ids, v) {
        ReachedIsVertex(g, ids, v);
      }
    }
  }

  lemma ReachedIsVertex(g: Graph, ids: set<Id>, v: Id)
    requires WellFormed(g) && AboveSome(g.hasParent, ids, v)
    ensures v in g.vertices
  {
    var s :| s in ids && Above(g.hasParent, s, v);
    var n: nat :| n > 0 && Climb(g.hasParent, s, v, n);
    var m := LastStep(g.hasParent, s, v, n);
  }

  /** in('hasParent').count() of one vertex. */
  method CountIn(ids: set<Id>, edges: map<Edge, nat>, v: Id) returns (n: nat)
    ensures n == InDegree(ids, edges, v)
  {
    var todo := ids;
    n := 0;
    while todo != {}
      invariant todo <= ids
      invariant n + InDegree(todo, edges, v) == InDegree(ids, edges, v)
      decreases todo
    {
      var u :| u in todo;
      SumTakes(todo, Into(edges, v), u);
      n := n + Count(edges, Edge(u, v));
      todo := todo - {u};
    }
  }

  /** property(single,'numberOfChildren',__.in('hasParent').count()) on each of the vertices. */
  method CountAll(g: Graph, ids: set<Id>) returns (vertices: map<Id, Vertex>)
    ensures vertices == Counted(g.vertices, ids, InDegrees(g.vertices.Keys, g.hasParent))
  {
    var todo := ids * g.vertices.Keys;
    vertices := g.vertices;
    ghost var n := InDegrees(g.vertices.Keys, g.hasParent);
    CountedNone(g.vertices, ids - todo, n);
    while todo != {}
      invariant todo <= ids * g.vertices.Keys
      invariant vertices == Counted(g.vertices, ids - todo, n)
      decreases todo
    {
      var v :| v in todo;
      var children := CountIn(g.vertices.Keys, g.hasParent, v);
      CountedOneMore(g.vertices, ids - todo, v, n);
      vertices := vertices[v := vertices[v].(numberOfChildren := Some(children))];
      todo := todo - {v};
      assert ids - todo == ids - (todo + {v}) + {v};
    }
    assert ids - {} == ids;
  }

  lemma CountedNone(vertices: map<Id, Vertex>, ids: set<Id>, n: Id -> nat)
    requires ids !! vertices.Keys
    ensures Counted(vertices, ids, n) == vertices
  {
  }

  lemma CountedOneMore(vertices: map<Id, Vertex>, ids: set<Id>, v: Id, n: Id -> nat)
    requires v in vertices && v !in ids
    ensures Counted(vertices, ids, n)[v := vertices[v].(numberOfChildren := Some(n(v)))] == Counted(vertices, ids + {v}, n)
    ensures v in Counted(vertices, ids, n) && Counted(vertices, ids, n)[v] == vertices[v]
  {
  }
}
