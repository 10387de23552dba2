/**
 The hierarchy operations that work on a map of ids or codes, run in concurrent batches: each chunk is one query on the
 stored graph, and every schedule leaves what one query on all of them would.
 */
module HierarchyBatches {
  import opened BatchExecutor
  import opened BatchRuns
  import opened Batching
  import opened HierarchyGraph
  import opened HierarchyQueries
  import opened HierarchyCloning

  // ---------------------------------------------------------------- writing

  /** A query that changes the graph for the given ids. */
  type Write = (Graph, set<Id>) -> Graph

  /** Two separate sets of ids can be written one after the other or together. */
  ghost predicate SplitsAt(w: Write, ok: Graph -> bool, g: Graph, a: set<Id>, b: set<Id>) {
    ok(w(g, a)) && w(w(g, a), b) == w(g, a + b)
  }

  ghost predicate Splits(w: Write, ok: Graph -> bool) {
    && (forall g | ok(g) :: w(g, {}) == g)
    && (forall g, a, b | ok(g) && a !! b :: SplitsAt(w, ok, g, a, b))
  }

  /** The graph after the chunks were executed in this order; one that failed had no effect. */
  ghost function Stored(w: Write, g: Graph, chunks: seq<Items>, c: Config, order: seq<nat>): Graph {
    if order == [] then g else
      var before, i := Stored(w, g, chunks, c, order[..|order| - 1]), order[|order| - 1];
      if Succeeds(chunks, c, i) then w(before, chunks[i].Keys) else before
  }

  ghost predicate Succeeds(chunks: seq<Items>, c: Config, i: nat) {
    i < |chunks| && i < |c.outcomes| && c.outcomes[i].Values?
  }

  ghost predicate InSuccessful(chunks: seq<Items>, c: Config, id: Id) {
    exists i: nat :: Succeeds(chunks, c, i) && id in chunks[i]
  }

  /** The ids of the chunks in this order that succeeded. */
  ghost function Covered(chunks: seq<Items>, c: Config, order: seq<nat>): set<Id> {
    if order == [] then {} else
      var before, i := Covered(chunks, c, order[..|order| - 1]), order[|order| - 1];
      if Succeeds(chunks, c, i) then before + chunks[i].Keys else before
  }

  lemma {:induction false} CoveredIs(chunks: seq<Items>, c: Config, order: seq<nat>, id: Id)
    ensures id in Covered(chunks, c, order) <==> exists i: nat :: i in order && Succeeds(chunks, c, i) && id in chunks[i]
  {
    if order != [] {
      var init, last := order[..|order| - 1], order[|order| - 1];
      CoveredIs(chunks, c, init, id);
      assert order == init + [last];
    }
  }

  ghost predicate Distinct(order: seq<nat>) { forall i, j | 0 <= i < j < |order| :: order[i] != order[j] }

  lemma LastIsApart(chunks: seq<Items>, c: Config, order: seq<nat>)
    requires Apart(chunks) && Distinct(order) && order != [] && Succeeds(chunks, c, order[|order| - 1])
    ensures Covered(chunks, c, order[..|order| - 1]) !! chunks[order[|order| - 1]].Keys
  {
    var init, last := order[..|order| - 1], order[|order| - 1];
    forall id | id in Covered(chunks, c, init) ensures id !in chunks[last] {
      CoveredIs(chunks, c, init, id);
      var i: nat :| i in init && Succeeds(chunks, c, i) && id in chunks[i];
      assert i != last;
      if i < last { ApartPairwise(chunks, i, last); } else { ApartPairwise(chunks, last, i); }
    }
  }

  lemma {:induction false} StoredIs(
      w: Write, ok: Graph -> bool, g: Graph, chunks: seq<Items>, c: Config, order: seq<nat>)
    requires Splits(w, ok) && ok(g) && Apart(chunks) && Distinct(order)
    ensures Stored(w, g, chunks, c, order) == w(g, Covered(chunks, c, order)) && ok(Stored(w, g, chunks, c, order))
  {
    if order != [] {
      var init, last := order[..|order| - 1], order[|order| - 1];
      StoredIs(w, ok, g, chunks, c, init);
      if Succeeds(chunks, c, last) {
        LastIsApart(chunks, c, order);
        assert SplitsAt(w, ok, g, Covered(chunks, c, init), chunks[last].Keys);
        assert SplitsAt(w, ok, Stored(w, g, chunks, c, init), chunks[last].Keys, {});
      }
    }
  }

  /**
   However the items are split and scheduled, once the call has returned each chunk was executed exactly once, and the
   graph is what one query on the ids of the successful chunks leaves: on all ids when there was no error.
   */
  lemma BatchedWriteIsOneWrite(
      w: Write, ok: Graph -> bool, g: Graph, items: Items, chunks: seq<Items>, batchSize: int, c: Config, run: seq<Step>)
    requires Splits(w, ok) && ok(g) && IsSplit(items, chunks, batchSize) && |c.outcomes| == |chunks|
    requires IsRun(c, run) && After(c, run).main == Returned
    ensures var executed := After(c, run).executed;
      && Stored(w, g, chunks, c, executed) == w(g, Covered(chunks, c, executed))
      && (forall id :: id in Covered(chunks, c, executed) <==> InSuccessful(chunks, c, id))
      && (After(c, run).errs == [] ==> Stored(w, g, chunks, c, executed) == w(g, items.Keys))
  {
    var executed := After(c, run).executed;
    SafeOnReturn(c, run);
    StoredIs(w, ok, g, chunks, c, executed);
    CoveredOnReturn(chunks, c, run);
    if After(c, run).errs == [] {
      ErrorsTellFailures(c, []);
      EverythingCovered(chunks, c, Covered(chunks, c, executed));
    }
  }

  lemma CoveredOnReturn(chunks: seq<Items>, c: Config, run: seq<Step>)
    requires |c.outcomes| == |chunks| && IsRun(c, run) && After(c, run).main == Returned
    ensures forall id :: id in Covered(chunks, c, After(c, run).executed) <==> InSuccessful(chunks, c, id)
  {
    var executed := After(c, run).executed;
    SafeOnReturn(c, run);
    forall id ensures id in Covered(chunks, c, executed) <==> InSuccessful(chunks, c, id) {
      CoveredIs(chunks, c, executed, id);
      forall i: nat | Succeeds(chunks, c, i) ensures i in executed {
        assert i in AllChunks(c);
      }
    }
  }

  lemma EverythingCovered(chunks: seq<Items>, c: Config, covered: set<Id>)
    requires Apart(chunks) && |c.outcomes| == |chunks|
    requires forall i | 0 <= i < |c.outcomes| :: c.outcomes[i].Values?
    requires forall id :: id in covered <==> InSuccessful(chunks, c, id)
    ensures covered == Union(chunks).Keys
  {
    forall id | id in covered ensures id in Union(chunks) {
      var i: nat :| Succeeds(chunks, c, i) && id in chunks[i];
      PieceOfUnion(chunks, i);
    }
    forall id | id in Union(chunks) ensures id in covered {
      var i := UnionHasOwner(chunks, id);
      assert Succeeds(chunks, c, i);
    }
  }

  // ---------------------------------------------------------------- how a call ends

  /** A call of processInConcurrentBatches returns, with or without errors, or it never does. */
  datatype BatchResult = Ended(ok: bool) | Stuck

  function ResultOf(s: State): BatchResult { if s.main == Returned then Ended(s.errs == []) else Stuck }

  ghost predicate NoneFailed(c: Config) { forall i | 0 <= i < |c.outcomes| :: c.outcomes[i].Values? }

  ghost predicate SplitsInto(items: Items, batchSize: int, n: nat) {
    exists chunks :: IsSplit(items, chunks, batchSize) && |chunks| == n
  }

  /**
   How a call on these items ends, where `c` says how the database answers each chunk: it never returns exactly if too many
   chunks before the last fail, and it returns without an error exactly if no chunk fails and there are workers.
   */
  ghost predicate Ran(items: Items, batchSize: int, c: Config, result: BatchResult) {
    && SplitsInto(items, batchSize, |c.outcomes|)
    && (result.Stuck? <==> !EnoughSlots(c))
    && (result == Ended(true) <==> EnoughSlots(c) && NoneFailed(c))
  }

  lemma RunEnds(items: Items, chunks: seq<Items>, batchSize: int, c: Config, run: seq<Step>)
    requires IsSplit(items, chunks, batchSize) && |c.outcomes| == |chunks|
    requires IsRun(c, run) && Quiescent(c, After(c, run))
    ensures Ran(items, batchSize, c, ResultOf(After(c, run)))
  {
    MaximalRunsReturnIff(c, run);
    if After(c, run).main == Returned {
      SafeOnReturn(c, run);
      ErrorsTellFailures(c, After(c, run).errs);
    }
  }

  /** With no more items than fit into one batch per worker, a call always returns. */
  lemma FewItemsAlwaysReturn(items: Items, batchSize: int, c: Config, result: BatchResult)
    ensures Ran(items, batchSize, c, result) && batchSize >= 1 && |items| <= batchSize * c.maxWorkers ==> result.Ended?
  {
    if Ran(items, batchSize, c, result) {
      var chunks :| IsSplit(items, chunks, batchSize) && |chunks| == |c.outcomes|;
      FewItemsFewChunks(items, chunks, batchSize, c.maxWorkers);
      if |c.outcomes| <= c.maxWorkers {
        EnoughWorkers(c);
      }
    }
  }

  lemma FewItemsFewChunks(items: Items, chunks: seq<Items>, batchSize: int, workers: nat)
    requires IsSplit(items, chunks, batchSize)
    ensures batchSize >= 1 && |items| <= batchSize * workers ==> |chunks| <= workers
  {
    SplitCount(items, chunks, batchSize);
    FewerBatches(|chunks|, workers, batchSize, |items|);
  }

  lemma EnoughWorkers(c: Config)
    requires |c.outcomes| <= c.maxWorkers
    ensures EnoughSlots(c)
  {
    if |c.outcomes| > 0 {
      FailureCount(c, |c.outcomes| - 1);
    }
  }

  lemma FewerBatches(chunks: nat, workers: nat, batchSize: int, items: nat)
    ensures batchSize >= 1 && (chunks - 1) * batchSize < items <= batchSize * workers ==> chunks <= workers
  {
    if batchSize >= 1 && chunks > workers {
      MoreTimes(chunks - 1, workers, batchSize);
    }
  }

  lemma MoreTimes(a: nat, b: nat, n: nat)
    requires a >= b
    ensures a * n >= n * b
  {
    assert a * n == b * n + (a - b) * n;
  }

  /** A chunk that was not executed with success has none of its ids covered. */
  lemma MissingChunk(chunks: seq<Items>, c: Config, order: seq<nat>, i: nat)
    requires Apart(chunks) && i < |chunks| && !(i in order && Succeeds(chunks, c, i))
    ensures chunks[i].Keys !! Covered(chunks, c, order)
  {
    forall id | id in chunks[i] ensures id !in Covered(chunks, c, order) {
      CoveredIs(chunks, c, order, id);
      forall j: nat | j in order && Succeeds(chunks, c, j) ensures id !in chunks[j] {
        if j < i { ApartPairwise(chunks, j, i); } else { ApartPairwise(chunks, i, j); }
      }
    }
  }

  lemma CoveredIsPart(chunks: seq<Items>, c: Config, order: seq<nat>)
    requires Apart(chunks)
    ensures Covered(chunks, c, order) <= Union(chunks).Keys
  {
    forall id | id in Covered(chunks, c, order) ensures id in Union(chunks) {
      CoveredIs(chunks, c, order, id);
      var i: nat :| i in order && Succeeds(chunks, c, i) && id in chunks[i];
      PieceOfUnion(chunks, i);
    }
  }

  lemma ChunkIsNotEmpty(chunks: seq<Items>, batchSize: int, i: nat)
    requires i < |chunks| && AllOfSize(chunks[..|chunks| - 1], batchSize) && |chunks[|chunks| - 1]| > 0
    ensures chunks[i].Keys != {}
  {
    if i < |chunks| - 1 {
      SizeOf(chunks[..|chunks| - 1], batchSize, i);
    }
    assert |chunks[i]| == |chunks[i].Keys|;
  }

  /** Some chunk that a run which did not succeed leaves out. */
  lemma LeftOutChunk(c: Config, run: seq<Step>) returns (i: nat)
    requires IsRun(c, run) && Quiescent(c, After(c, run)) && ResultOf(After(c, run)) != Ended(true)
    ensures i < |c.outcomes| && !(i in After(c, run).executed && c.outcomes[i].Values?)
  {
    var s := After(c, run);
    RunInv(c, run);
    if s.main == Returned {
      SafeOnReturn(c, run);
      assert s.errs[0] in s.errs;
      i := s.errs[0];
    } else {
      MaximalRunsReturnIff(c, run);
      i := s.main.next;
      assert i !in Processed(s.workers);
    }
  }

  /** At the end all ids are covered if the call succeeded, and only then. */
  lemma CoveredAtEnd(items: Items, chunks: seq<Items>, batchSize: int, c: Config, run: seq<Step>)
    requires IsSplit(items, chunks, batchSize) && |c.outcomes| == |chunks|
    requires IsRun(c, run) && Quiescent(c, After(c, run))
    ensures var done := Covered(chunks, c, After(c, run).executed);
      done <= items.Keys && (done == items.Keys <==> ResultOf(After(c, run)) == Ended(true))
  {
    var executed := After(c, run).executed;
    CoveredIsPart(chunks, c, executed);
    if ResultOf(After(c, run)) == Ended(true) {
      CoveredOnReturn(chunks, c, run);
      SafeOnReturn(c, run);
      ErrorsTellFailures(c, []);
      EverythingCovered(chunks, c, Covered(chunks, c, executed));
    } else {
      var i := LeftOutChunk(c, run);
      MissingChunk(chunks, c, executed, i);
      ChunkIsNotEmpty(chunks, batchSize, i);
      PieceOfUnion(chunks, i);
    }
  }

  // ---------------------------------------------------------------- which writes split

  /** What the clones of this kind were cloned from is not of this kind. */
  ghost predicate ClonedFromOutside(g: Graph, kind: Kind) {
    forall c | IsCloneOfKind(g, c, kind) :: g.cloneOf[c] !in Ids(g, kind)
  }

  lemma NewEdgesAreBetweenClones(g: Graph, kind: Kind, a: set<Id>, e: Edge)
    requires e.src !in Ids(g, kind)
    ensures Count(CloneRelationships(g, a, kind).hasParent, e) == Count(g.hasParent, e)
    ensures e in CloneRelationships(g, a, kind).hasParent <==> e in g.hasParent
  {
    assert e !in NewRelationships(g, a, kind);
  }

  lemma RelatesStill(g: Graph, kind: Kind, a: set<Id>, b: set<Id>, e: Edge)
    requires ClonedFromOutside(g, kind)
    ensures var after := CloneRelationships(g, a, kind);
      && (Relates(after, b, kind, e) <==> Relates(g, b, kind, e))
      && (Relates(g, b, kind, e) ==> after.hasParent[Under(g.cloneOf, e)] == g.hasParent[Under(g.cloneOf, e)])
  {
    if IsCloneOfKind(g, e.src, kind) && IsCloneOfKind(g, e.dst, kind) {
      NewEdgesAreBetweenClones(g, kind, a, Under(g.cloneOf, e));
    }
  }

  lemma NewRelationshipsStay(g: Graph, kind: Kind, a: set<Id>, b: set<Id>)
    requires ClonedFromOutside(g, kind)
    ensures NewRelationships(CloneRelationships(g, a, kind), b, kind) == NewRelationships(g, b, kind)
  {
    var after := CloneRelationships(g, a, kind);
    forall e
      ensures Relates(after, b, kind, e) <==> Relates(g, b, kind, e)
      ensures Relates(g, b, kind, e) ==> after.hasParent[Under(g.cloneOf, e)] == g.hasParent[Under(g.cloneOf, e)]
    {
      RelatesStill(g, kind, a, b, e);
    }
  }

  lemma NewAt(g: Graph, kind: Kind, ids: set<Id>, e: Edge)
    ensures e in NewRelationships(g, ids, kind) <==> Relates(g, ids, kind, e)
    ensures Relates(g, ids, kind, e) ==> NewRelationships(g, ids, kind)[e] == g.hasParent[Under(g.cloneOf, e)]
  {
  }

  /** The edges in `both` are those in one of the others. */
  ghost predicate Partition(x: map<Edge, nat>, y: map<Edge, nat>, both: map<Edge, nat>) {
    forall e :: (e in both <==> e in x || e in y) && Count(both, e) == Count(x, e) + Count(y, e)
  }

  lemma NewInTwoParts(g: Graph, kind: Kind, a: set<Id>, b: set<Id>)
    requires a !! b
    ensures Partition(NewRelationships(g, a, kind), NewRelationships(g, b, kind), NewRelationships(g, a + b, kind))
  {
    var x, y, both := NewRelationships(g, a, kind), NewRelationships(g, b, kind), NewRelationships(g, a + b, kind);
    forall e ensures (e in both <==> e in x || e in y) && Count(both, e) == Count(x, e) + Count(y, e) {
      NewAt(g, kind, a, e);
      NewAt(g, kind, b, e);
      NewAt(g, kind, a + b, e);
    }
  }

  lemma AddInTwoParts(h: map<Edge, nat>, x: map<Edge, nat>, y: map<Edge, nat>, both: map<Edge, nat>)
    requires Partition(x, y, both)
    ensures AddCounts(AddCounts(h, x), y) == AddCounts(h, both)
  {
  }

  lemma RelationshipsInTwoParts(g: Graph, kind: Kind, a: set<Id>, b: set<Id>)
    requires ClonedFromOutside(g, kind) && a !! b
    ensures CloneRelationships(CloneRelationships(g, a, kind), b, kind) == CloneRelationships(g, a + b, kind)
    ensures ClonedFromOutside(CloneRelationships(g, a, kind), kind)
  {
    NewRelationshipsStay(g, kind, a, b);
    NewInTwoParts(g, kind, a, b);
    AddInTwoParts(g.hasParent, NewRelationships(g, a, kind), NewRelationships(g, b, kind), NewRelationships(g, a + b, kind));
    assert Ids(CloneRelationships(g, a, kind), kind) == Ids(g, kind);
  }

  lemma NoRelationships(g: Graph, kind: Kind)
    ensures CloneRelationships(g, {}, kind) == g
  {
    assert NewRelationships(g, {}, kind) == map[];
    assert AddCounts(g.hasParent, map[]) == g.hasParent;
  }

  lemma RelationshipsSplit(kind: Kind)
    ensures Splits((g, ids) => CloneRelationships(g, ids, kind), g => ClonedFromOutside(g, kind))
  {
    var w: Write := (g, ids) => CloneRelationships(g, ids, kind);
    var ok: Graph -> bool := g => ClonedFromOutside(g, kind);
    forall g | ok(g) ensures w(g, {}) == g {
      NoRelationships(g, kind);
    }
    forall g, a, b | ok(g) && a !! b ensures SplitsAt(w, ok, g, a, b) {
      RelationshipsInTwoParts(g, kind, a, b);
    }
  }

  ghost predicate Always(g: Graph) { true }

  lemma RemovingLinksSplits()
    ensures Splits((g, ids) => RemoveCloneEdges(g, ids), Always)
  {
    var w: Write := (g, ids) => RemoveCloneEdges(g, ids);
    forall g | Always(g) ensures w(g, {}) == g {
      assert g.cloneOf - {} == g.cloneOf;
    }
    forall g, a, b | Always(g) && a !! b ensures SplitsAt(w, Always, g, a, b) {
      assert g.cloneOf - a - b == g.cloneOf - (a + b);
    }
  }

  lemma CountedTwice(vertices: map<Id, Vertex>, a: set<Id>, b: set<Id>, n: Id -> nat)
    ensures Counted(vertices, {}, n) == vertices
    ensures Counted(Counted(vertices, a, n), b, n) == Counted(vertices, a + b, n)
    ensures Counted(vertices, a, n).Keys == vertices.Keys
  {
  }

  lemma CountingSplits()
    ensures Splits((g, ids) => SetNumberOfChildren(g, ids), Always)
  {
    var w: Write := (g, ids) => SetNumberOfChildren(g, ids);
    forall g | Always(g) ensures w(g, {}) == g {
      CountedTwice(g.vertices, {}, {}, InDegrees(g.vertices.Keys, g.hasParent));
    }
    forall g, a, b | Always(g) && a !! b ensures SplitsAt(w, Always, g, a, b) {
      CountedTwice(g.vertices, a, b, InDegrees(g.vertices.Keys, g.hasParent));
    }
  }

  /** The originals exist, and no clone to be made is an original. */
  ghost predicate CanClone(g: Graph, origin: map<Id, Id>) {
    origin.Keys !! origin.Values && origin.Values <= g.vertices.Keys
  }

  /** Whatever ids the database chooses, chunk by chunk. */
  lemma CloningSplits(origin: map<Id, Id>, kind: Kind, codeListID: string, hasData: bool)
    ensures Splits(
              (g, ids) => CloneNodes(g, Restrict(origin, ids), kind, codeListID, hasData),
              g => CanClone(g, origin))
  {
    var w: Write := (g, ids) => CloneNodes(g, Restrict(origin, ids), kind, codeListID, hasData);
    var ok: Graph -> bool := g => CanClone(g, origin);
    forall g | ok(g) ensures w(g, {}) == g {
      NoClones(g, origin, kind, codeListID, hasData);
    }
    forall g, a, b | ok(g) && a !! b ensures SplitsAt(w, ok, g, a, b) {
      CloneInTwoParts(g, origin, kind, codeListID, hasData, a, b);
    }
  }

  lemma NoClones(g: Graph, origin: map<Id, Id>, kind: Kind, codeListID: string, hasData: bool)
    ensures CloneNodes(g, Restrict(origin, {}), kind, codeListID, hasData) == g
  {
    assert Restrict(origin, {}) == map[];
    assert g.vertices + map[] == g.vertices && g.cloneOf + map[] == g.cloneOf;
  }

  lemma CloneInTwoParts(
      g: Graph, origin: map<Id, Id>, kind: Kind, codeListID: string, hasData: bool, a: set<Id>, b: set<Id>)
    requires CanClone(g, origin) && a !! b
    ensures var one := CloneNodes(g, Restrict(origin, a), kind, codeListID, hasData);
      && CanClone(one, origin)
      && CloneNodes(one, Restrict(origin, b), kind, codeListID, hasData) ==
         CloneNodes(g, Restrict(origin, a + b), kind, codeListID, hasData)
  {
    var data := if hasData then origin.Values else {};
    var one := CloneNodes(g, Restrict(origin, a), kind, codeListID, hasData);
    forall c | c in origin ensures origin[c] in origin.Values && origin[c] in g.vertices && origin[c] !in origin {
    }
    ClonedIs(g, Restrict(origin, a), kind, codeListID, hasData, data);
    ClonedIs(one, Restrict(origin, b), kind, codeListID, hasData, data);
    ClonedIs(g, Restrict(origin, a + b), kind, codeListID, hasData, data);
    OriginalsUnchanged(g, origin, kind, codeListID, a, data);
    SameClones(g, one, Restrict(origin, b), kind, codeListID, data);
    ClonesInTwoParts(g, origin, kind, codeListID, data, a, b);
    AddTwice(
      g.vertices, Clones(g, Restrict(origin, a), kind, codeListID, data), Clones(g, Restrict(origin, b), kind, codeListID, data));
    AddTwice(g.cloneOf, Restrict(origin, a), Restrict(origin, b));
  }

  lemma OriginalsUnchanged(g: Graph, origin: map<Id, Id>, kind: Kind, codeListID: string, a: set<Id>, data: set<Id>)
    requires forall c | c in origin :: origin[c] in g.vertices && origin[c] !in origin
    ensures var one := Cloned(g, Restrict(origin, a), kind, codeListID, data);
      && g.vertices.Keys <= one.vertices.Keys
      && (forall c | c in origin :: origin[c] in one.vertices && one.vertices[origin[c]] == g.vertices[origin[c]])
  {
  }

  lemma ClonesInTwoParts(
      g: Graph, origin: map<Id, Id>, kind: Kind, codeListID: string, data: set<Id>, a: set<Id>, b: set<Id>)
    ensures Clones(g, Restrict(origin, a), kind, codeListID, data) + Clones(g, Restrict(origin, b), kind, codeListID, data) ==
            Clones(g, Restrict(origin, a + b), kind, codeListID, data)
    ensures Restrict(origin, a) + Restrict(origin, b) == Restrict(origin, a + b)
  {
    RestrictInTwoParts(origin, a, b);
    ClonesAddUp(g, Restrict(origin, a), Restrict(origin, b), kind, codeListID, data);
  }

  lemma RestrictInTwoParts(origin: map<Id, Id>, a: set<Id>, b: set<Id>)
    ensures Restrict(origin, a) + Restrict(origin, b) == Restrict(origin, a + b)
    ensures forall c | c in Restrict(origin, a) && c in Restrict(origin, b) :: Restrict(origin, a)[c] == Restrict(origin, b)[c]
  {
  }

  lemma ClonesAddUp(g: Graph, x: map<Id, Id>, y: map<Id, Id>, kind: Kind, codeListID: string, data: set<Id>)
    requires forall c | c in x && c in y :: x[c] == y[c]
    ensures Clones(g, x, kind, codeListID, data) + Clones(g, y, kind, codeListID, data) == Clones(g, x + y, kind, codeListID, data)
  {
  }

  // ---------------------------------------------------------------- looking up

  lemma AncestorsOfUnion(g: Graph, a: set<Id>, b: set<Id>)
    ensures Ancestors(g, a + b) == Ancestors(g, a) + Ancestors(g, b)
  {
    forall v | v in Ancestors(g, a + b) ensures v in Ancestors(g, a) + Ancestors(g, b) {
      var s :| s in a + b && Above(g.hasParent, s, v);
      assert s in a ==> AboveSome(g.hasParent, a, v);
      assert s in b ==> AboveSome(g.hasParent, b, v);
    }
    forall v | v in Ancestors(g, a) ensures v in Ancestors(g, a + b) {
      var s :| s in a && Above(g.hasParent, s, v);
      assert s in a + b;
    }
    forall v | v in Ancestors(g, b) ensures v in Ancestors(g, a + b) {
      var s :| s in b && Above(g.hasParent, s, v);
      assert s in a + b;
    }
  }

  lemma LookupsOfUnion(g: Graph, codeListID: string, a: set<string>, b: set<string>)
    ensures GenericNodes(g, codeListID, a + b).Keys == GenericNodes(g, codeListID, a).Keys + GenericNodes(g, codeListID, b).Keys
    ensures Ancestry(g, codeListID, a + b).Keys == Ancestry(g, codeListID, a).Keys + Ancestry(g, codeListID, b).Keys
  {
    AncestorsOfUnion(g, GenericNodes(g, codeListID, a).Keys, GenericNodes(g, codeListID, b).Keys);
  }

  /** Both lookups can be split: nothing is lost, and a node found by two chunks has the same code in both. */
  lemma LookupsDistribute(g: Graph, codeListID: string)
    ensures Distributes((codes: Items) => GenericNodes(g, codeListID, codes.Keys))
    ensures Distributes((codes: Items) => Ancestry(g, codeListID, codes.Keys))
  {
    forall a: Items, b: Items
      ensures GenericNodes(g, codeListID, (a + b).Keys).Keys ==
              GenericNodes(g, codeListID, a.Keys).Keys + GenericNodes(g, codeListID, b.Keys).Keys
      ensures Ancestry(g, codeListID, (a + b).Keys).Keys ==
              Ancestry(g, codeListID, a.Keys).Keys + Ancestry(g, codeListID, b.Keys).Keys
    {
      LookupsOfUnion(g, codeListID, a.Keys, b.Keys);
      assert (a + b).Keys == a.Keys + b.Keys;
    }
    assert GenericNodes(g, codeListID, {}) == map[];
    assert Ancestry(g, codeListID, {}) == map[];
  }

  ghost function Lookup(g: Graph, codeListID: string, codes: set<string>, ancestries: bool): map<Id, string> {
    if ancestries then Ancestry(g, codeListID, codes) else GenericNodes(g, codeListID, codes)
  }

  /** doGetGenericHierarchyNodeIDs returns what one query on all the codes would, for every split and schedule. */
  lemma BatchedLookupIsOneLookup(
      g: Graph, codeListID: string, ancestries: bool, codes: Items, chunks: seq<Items>, batchSize: int, c: Config, run: seq<Step>)
    requires IsSplit(codes, chunks, batchSize) && |c.outcomes| == |chunks|
    requires forall i | 0 <= i < |chunks| && c.outcomes[i].Values? ::
      c.outcomes[i].values == Lookup(g, codeListID, chunks[i].Keys, ancestries)
    requires IsRun(c, run) && After(c, run).main == Returned && After(c, run).errs == []
    ensures After(c, run).result == Lookup(g, codeListID, codes.Keys, ancestries)
  {
    LookupsDistribute(g, codeListID);
    if ancestries {
      ConcurrentBatchesRefineOneCall(codes, chunks, batchSize, (x: Items) => Ancestry(g, codeListID, x.Keys), c, run);
    } else {
      ConcurrentBatchesRefineOneCall(codes, chunks, batchSize, (x: Items) => GenericNodes(g, codeListID, x.Keys), c, run);
    }
  }
}
