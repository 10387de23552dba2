/**
 The Neptune driver's hierarchy operations, acting on the graph it holds. A query either succeeds or fails without effect;
 which of the two is up to the database, and so is the order in which chunks are executed.
 */
module HierarchyDriver {
  import opened BatchExecutor
  import opened BatchRuns
  import opened Batching
  import opened HierarchyGraph
  import opened HierarchyQueries
  import opened HierarchyCloning
  import opened HierarchyBatches
  import opened HierarchyTraversal

  /** The statements that are run chunk by chunk. `origin` is how the database will choose the ids of clones. */
  datatype Statement =
    | CloneNodesStatement(origin: map<Id, Id>, kind: Kind, codeListID: string, hasData: bool)
    | CloneRelationshipsStatement(kind: Kind)
    | RemoveCloneMarkersStatement
    | SetNumberOfChildrenStatement

  ghost function Meaning(st: Statement): Write {
    match st
    case CloneNodesStatement(origin, kind, codeListID, hasData) =>
      (g, ids) => CloneNodes(g, Restrict(origin, ids), kind, codeListID, hasData)
    case CloneRelationshipsStatement(kind) => (g, ids) => CloneRelationships(g, ids, kind)
    case RemoveCloneMarkersStatement => (g, ids) => RemoveCloneEdges(g, ids)
    case SetNumberOfChildrenStatement => (g, ids) => SetNumberOfChildren(g, ids)
  }

  ghost function Fits(st: Statement): Graph -> bool {
    match st
    case CloneNodesStatement(origin, _, _, _) => g => CanClone(g, origin)
    case CloneRelationshipsStatement(kind) => g => ClonedFromOutside(g, kind)
    case _ => Always
  }

  lemma StatementSplits(st: Statement)
    ensures Splits(Meaning(st), Fits(st))
  {
    match st {
      case CloneNodesStatement(origin, kind, codeListID, hasData) => CloningSplits(origin, kind, codeListID, hasData);
      case CloneRelationshipsStatement(kind) => RelationshipsSplit(kind);
      case RemoveCloneMarkersStatement => RemovingLinksSplits();
      case SetNumberOfChildrenStatement => CountingSplits();
    }
  }

  /** Ids that are not taken yet. */
  method ChooseIds(taken: set<Id>, ids: set<Id>) returns (origin: map<Id, Id>)
    ensures Injective(origin) && origin.Values == ids && origin.Keys !! taken
  {
    origin := map[];
    var todo := ids;
    while todo != {}
      invariant todo <= ids
      invariant Injective(origin) && origin.Values == ids - todo && origin.Keys !! taken
      decreases todo
    {
      var original :| original in todo;
      var clone := NotTaken(taken + origin.Keys);
      OneMoreOrigin(origin, clone, original);
      origin := origin[clone := original];
      todo := todo - {original};
    }
  }

  lemma OneMoreOrigin(origin: map<Id, Id>, c: Id, o: Id)
    requires Injective(origin) && c !in origin && o !in origin.Values
    ensures Injective(origin[c := o]) && origin[c := o].Values == origin.Values + {o}
  {
    forall v | v in origin.Values ensures v in origin[c := o].Values {
      var x :| x in origin && origin[x] == v;
      assert origin[c := o][x] == v;
    }
    assert origin[c := o][c] == o;
  }

  method NotTaken(taken: set<Id>) returns (id: Id)
    ensures id !in taken
  {
    var longest: nat, todo := 0, taken;
    while todo != {}
      invariant todo <= taken && AtMost(taken - todo, longest)
      decreases todo
    {
      var x :| x in todo;
      if |x| > longest { longest := |x|; }
      todo := todo - {x};
    }
    id := seq(longest + 1, i => 'x');
    assert AtMost(taken, longest);
  }

  predicate AtMost(ids: set<Id>, n: nat) { forall x | x in ids :: |x| <= n }

  class NeptuneDB {
    var g: Graph
    const batchSizeReader: int
    const batchSizeWriter: int
    const maxWorkers: nat

    constructor (stored: Graph, reader: int, writer: int, workers: nat)
      ensures g == stored && batchSizeReader == reader && batchSizeWriter == writer && maxWorkers == workers
    {
      g, batchSizeReader, batchSizeWriter, maxWorkers := stored, reader, writer, workers;
    }

    // -------------------------------------------------------------- chunk by chunk

    method Exec(st: Statement, ids: set<Id>)
      modifies this`g
      ensures g == Meaning(st)(old(g), ids)
    {
      match st {
        case CloneNodesStatement(origin, kind, codeListID, hasData) =>
          g := HierarchyQueries.CloneNodes(g, Restrict(origin, ids), kind, codeListID, hasData);
        case CloneRelationshipsStatement(kind) => g := HierarchyQueries.CloneRelationships(g, ids, kind);
        case RemoveCloneMarkersStatement => g := HierarchyQueries.RemoveCloneEdges(g, ids);
        case SetNumberOfChildrenStatement =>
          var vertices := CountAll(g, ids);
          g := g.(vertices := vertices);
      }
    }

    /**
     The chunks are executed in the order in which some run of the executor processes them, as far as that run gets. What
     was written is what one statement for the ids of the chunks that were executed with success would have written.
     */
    method InBatches(st: Statement, items: Items) returns (result: BatchResult, ghost done: set<Id>, ghost c: Config)
      requires Fits(st)(g)
      modifies this`g
      ensures c.maxWorkers == maxWorkers && Ran(items, batchSizeWriter, c, result)
      ensures done <= items.Keys && g == Meaning(st)(old(g), done)
      ensures result == Ended(true) <==> done == items.Keys
    {
      var handed, numChunks, seen, order := ProcessInBatches(items, batchSizeWriter);
      FillSplits(items, order, batchSizeWriter);
      var answers := AnyAnswers(|handed|);
      var config := Config(answers, maxWorkers);
      var s, run := RunToTheEnd(config);
      result, c, done := ResultOf(s), config, Covered(seen, config, s.executed);
      RunEnds(items, seen, batchSizeWriter, config, run);
      CoveredAtEnd(items, seen, batchSizeWriter, config, run);
      ExecutedOnce(config, run);
      ExecInOrder(st, handed, config, s.executed, seen);
      StatementSplits(st);
      StoredIs(Meaning(st), Fits(st), old(g), seen, config, s.executed);
    }

    method ExecInOrder(st: Statement, handed: seq<Batch>, c: Config, order: seq<nat>, ghost chunks: seq<Items>)
      requires |handed| == |chunks| == |c.outcomes| && forall j | 0 <= j < |handed| :: handed[j].items == chunks[j]
      requires forall i | 0 <= i < |order| :: order[i] < |handed|
      modifies this`g
      ensures g == Stored(Meaning(st), old(g), chunks, c, order)
    {
      for i := 0 to |order|
        invariant g == Stored(Meaning(st), old(g), chunks, c, order[..i])
      {
        assert order[..i + 1][..i] == order[..i];
        if c.outcomes[order[i]].Values? {
          Exec(st, handed[order[i]].items.Keys);
        }
      }
      assert order[..|order|] == order;
    }

    // -------------------------------------------------------------- looking up

    method GetGenericHierarchyNodeIDs(codeListID: string, codes: seq<string>)
        returns (result: BatchResult, nodeIDs: map<Id, string>, ghost c: Config)
      requires Sound(g, Generic(codeListID))
      ensures nodeIDs == if result == Ended(true) then GenericNodes(g, codeListID, Elements(codes)) else map[]
      ensures result == Ended(true) ==> HasCodes(g, nodeIDs)
      ensures result == Ended(true) ==> forall v :: v in nodeIDs <==> IsGenericWithCode(g, codeListID, codes, v)
      ensures c.maxWorkers == maxWorkers && Ran(AsItems(codes), batchSizeReader, c, result)
    {
      result, nodeIDs, c := DoGetGenericHierarchyNodeIDs(codeListID, codes, false);
    }

    method GetGenericHierarchyAncestriesIDs(codeListID: string, codes: seq<string>)
        returns (result: BatchResult, nodeIDs: map<Id, string>, ghost c: Config)
      requires Sound(g, Generic(codeListID))
      ensures nodeIDs == if result == Ended(true) then Ancestry(g, codeListID, Elements(codes)) else map[]
      ensures result == Ended(true) ==> HasCodes(g, nodeIDs)
      ensures result == Ended(true) ==> forall v :: v in nodeIDs <==> IsAboveGenericWithCode(g, codeListID, codes, v)
      ensures c.maxWorkers == maxWorkers && Ran(AsItems(codes), batchSizeReader, c, result)
    {
      result, nodeIDs, c := DoGetGenericHierarchyNodeIDs(codeListID, codes, true);
      AncestryIs(g, codeListID, codes);
    }

    /** If a chunk fails so does the whole call, and it returns an empty map. */
    method DoGetGenericHierarchyNodeIDs(codeListID: string, codes: seq<string>, ancestries: bool)
        returns (result: BatchResult, nodeIDs: map<Id, string>, ghost c: Config)
      requires Sound(g, Generic(codeListID))
      ensures c.maxWorkers == maxWorkers && Ran(AsItems(codes), batchSizeReader, c, result)
      ensures nodeIDs == if result == Ended(true) then Lookup(g, codeListID, Elements(codes), ancestries) else map[]
    {
      var items := CreateMapFromArrays([codes]);
      ItemsOf(codes, items);
      var handed, numChunks, seen, order := ProcessInBatches(items, batchSizeReader);
      FillSplits(items, order, batchSizeReader);
      var answers := LookupEach(codeListID, handed, ancestries, seen);
      var config := Config(answers, maxWorkers);
      var s, run := RunToTheEnd(config);
      result, c := ResultOf(s), config;
      RunEnds(items, seen, batchSizeReader, config, run);
      nodeIDs := map[];
      if result == Ended(true) {
        BatchedLookupIsOneLookup(g, codeListID, ancestries, items, seen, batchSizeReader, config, run);
        nodeIDs := s.result;
      }
    }

    /** What the database answers for each chunk, if it is asked. */
    method LookupEach(codeListID: string, handed: seq<Batch>, ancestries: bool, ghost chunks: seq<Items>)
        returns (answers: seq<Outcome>)
      requires Sound(g, Generic(codeListID))
      requires |handed| == |chunks| && forall j | 0 <= j < |handed| :: handed[j].items == chunks[j]
      ensures |answers| == |chunks|
      ensures forall i | 0 <= i < |chunks| && answers[i].Values? ::
        answers[i].values == Lookup(g, codeListID, chunks[i].Keys, ancestries)
    {
      answers := [];
      for i := 0 to |handed|
        invariant |answers| == i
        invariant forall j | 0 <= j < i && answers[j].Values? ::
          answers[j].values == Lookup(g, codeListID, chunks[j].Keys, ancestries)
      {
        var ok, values := ExecLookup(codeListID, handed[i].items.Keys, ancestries);
        answers := answers + [if ok then Values(values) else Failed("query failed")];
      }
    }

    method ExecLookup(codeListID: string, codes: set<string>, ancestries: bool) returns (ok: bool, values: map<Id, string>)
      requires Sound(g, Generic(codeListID))
      ensures ok ==> values == Lookup(g, codeListID, codes, ancestries)
    {
      ok, values := *, map[];
      if ok {
        values := GenericNodes(g, codeListID, codes);
        if ancestries {
          var above := Repeat(g, Generic(codeListID), values.Keys);
          values := map v | v in above && v in g.vertices :: g.vertices[v].code;
        }
      }
    }

    method GetHierarchyNodeIDs(kind: Kind) returns (ok: bool, ids: Items)
      ensures ok ==> ids.Keys == Ids(g, kind)
    {
      ok, ids := *, map[];
      if ok {
        ids := map v | v in Ids(g, kind) :: "";
      }
    }

    method GetHierarchyRoot(kind: Kind) returns (ok: bool, root: RootResult)
      ensures ok ==> RootIs(g, kind, root)
    {
      ok, root := *, ErrNotFound;
      if ok {
        var vertices := Parentless(g, kind);
        if |vertices| == 0 {
          root := ErrNotFound;
        } else {
          var v :| v in vertices;
          root := if |vertices| > 1 then ErrMultipleFound else Found(v);
          OneOrMore(vertices, v);
        }
      }
    }

    // -------------------------------------------------------------- writing for given ids

    method CloneNodesFromIDs(kind: Kind, codeListID: string, ids: Items, hasData: bool)
        returns (result: BatchResult, ghost origin: map<Id, Id>, ghost done: set<Id>, ghost c: Config)
      modifies this`g
      ensures c.maxWorkers == maxWorkers && Ran(ids, batchSizeWriter, c, result)
      ensures Allocates(old(g), ids.Keys, origin)
      ensures g == HierarchyQueries.CloneNodes(old(g), Restrict(origin, done), kind, codeListID, hasData)
      ensures result == Ended(true) ==> g == HierarchyQueries.CloneNodes(old(g), origin, kind, codeListID, hasData)
      ensures GainsClones(old(g), g, origin, done, kind, codeListID, hasData)
      ensures done <= ids.Keys && (result == Ended(true) <==> done == ids.Keys)
    {
      var chosen := ChooseIds(g.vertices.Keys, ids.Keys * g.vertices.Keys);
      origin := chosen;
      RestrictToAll(origin, ids.Keys);
      result, done, c := InBatches(CloneNodesStatement(chosen, kind, codeListID, hasData), ids);
      ClonesGained(old(g), origin, done, kind, codeListID, hasData);
    }

    method CloneRelationshipsFromIDs(kind: Kind, ids: Items) returns (result: BatchResult, ghost done: set<Id>, ghost c: Config)
      requires ClonedFromOutside(g, kind)
      modifies this`g
      ensures c.maxWorkers == maxWorkers && Ran(ids, batchSizeWriter, c, result)
      ensures g == HierarchyQueries.CloneRelationships(old(g), done, kind)
      ensures GainsRelationships(old(g), g, done, kind)
      ensures done <= ids.Keys && (result == Ended(true) <==> done == ids.Keys)
    {
      result, done, c := InBatches(CloneRelationshipsStatement(kind), ids);
      RelationshipsGained(old(g), done, kind);
    }

    method RemoveCloneEdgesFromSourceIDs(ids: Items) returns (result: BatchResult, ghost done: set<Id>, ghost c: Config)
      modifies this`g
      ensures c.maxWorkers == maxWorkers && Ran(ids, batchSizeWriter, c, result)
      ensures g == HierarchyQueries.RemoveCloneEdges(old(g), done)
      ensures LosesLinks(old(g), g, done)
      ensures done <= ids.Keys && (result == Ended(true) <==> done == ids.Keys)
    {
      result, done, c := InBatches(RemoveCloneMarkersStatement, ids);
    }

    method SetNumberOfChildrenFromIDs(ids: Items) returns (result: BatchResult, ghost done: set<Id>, ghost c: Config)
      modifies this`g
      ensures c.maxWorkers == maxWorkers && Ran(ids, batchSizeWriter, c, result)
      ensures g == HierarchyQueries.SetNumberOfChildren(old(g), done)
      ensures CountsChildren(old(g), g, done)
      ensures done <= ids.Keys && (result == Ended(true) <==> done == ids.Keys)
    {
      result, done, c := InBatches(SetNumberOfChildrenStatement, ids);
      ChildrenCounted(old(g), done);
    }

    // -------------------------------------------------------------- writing in one statement

    method CloneNodes(kind: Kind, codeListID: string) returns (ok: bool, ghost origin: map<Id, Id>)
      modifies this`g
      ensures Allocates(old(g), Ids(old(g), Generic(codeListID)), origin)
      ensures g == if ok then HierarchyQueries.CloneNodes(old(g), origin, kind, codeListID, false) else old(g)
      ensures ok ==> GainsClones(old(g), g, origin, Ids(old(g), Generic(codeListID)), kind, codeListID, false)
    {
      var chosen := ChooseIds(g.vertices.Keys, Ids(g, Generic(codeListID)));
      origin := chosen;
      ok := *;
      if ok {
        g := HierarchyQueries.CloneNodes(g, chosen, kind, codeListID, false);
        RestrictToAll(origin, Ids(old(g), Generic(codeListID)));
        ClonesGained(old(g), origin, Ids(old(g), Generic(codeListID)), kind, codeListID, false);
      }
    }

    /** If the second statement fails, the relationships are there but the links to the originals remain. */
    method CloneRelationships(kind: Kind, codeListID: string) returns (ok: bool)
      modifies this`g
      ensures var related := HierarchyQueries.CloneRelationships(old(g), Ids(old(g), Generic(codeListID)), kind);
        && GainsRelationships(old(g), related, Ids(old(g), Generic(codeListID)), kind)
        && (if ok then g == HierarchyQueries.RemoveCloneEdges(related, Ids(related, kind)) else g == old(g) || g == related)
    {
      RelationshipsGained(g, Ids(g, Generic(codeListID)), kind);
      ok := *;
      if ok {
        g := HierarchyQueries.CloneRelationships(g, Ids(g, Generic(codeListID)), kind);
        ghost var related := g;
        ok := RemoveCloneEdges(kind);
        if ok {
          LosesLinksIs(related, g, Ids(related, kind));
        }
      }
    }

    method RemoveCloneEdges(kind: Kind) returns (ok: bool)
      modifies this`g
      ensures if ok then LosesLinks(old(g), g, Ids(old(g), kind)) else g == old(g)
    {
      ok := *;
      if ok {
        g := HierarchyQueries.RemoveCloneEdges(g, Ids(g, kind));
      }
    }

    method SetNumberOfChildren(kind: Kind) returns (ok: bool)
      modifies this`g
      ensures g == if ok then HierarchyQueries.SetNumberOfChildren(old(g), Ids(old(g), kind)) else old(g)
      ensures ok ==> CountsChildren(old(g), g, Ids(old(g), kind))
    {
      ok := *;
      if ok {
        var vertices := CountAll(g, Ids(g, kind));
        g := g.(vertices := vertices);
        ChildrenCounted(old(g), Ids(old(g), kind));
      }
    }

    method SetHasData(kind: Kind, codes: seq<string>) returns (ok: bool)
      modifies this`g
      ensures if ok then GainsData(old(g), g, kind, Quoted(codes)) else g == old(g)
    {
      ok := *;
      if ok {
        g := HierarchyQueries.SetHasData(g, kind, Quoted(codes));
      }
    }

    method MarkNodesToRemain(kind: Kind) returns (ok: bool)
      requires Sound(g, kind)
      modifies this`g
      ensures g == if ok then Mark(old(g), NeptuneMarks(old(g), kind)) else old(g)
      ensures ok ==> GainsMarkers(old(g), g, kind)
    {
      ok := *;
      if ok {
        var withData := WithData(g, kind);
        var above := Repeat(g, kind, withData);
        g := Mark(g, withData + above);
        MarkersGained(old(g), kind);
      }
    }

    method RemoveNodesNotMarkedToRemain(kind: Kind) returns (ok: bool)
      modifies this`g
      ensures if ok then LosesUnmarked(old(g), g, kind) else g == old(g)
    {
      ok := *;
      if ok {
        g := RemoveNodesNotMarked(g, kind);
      }
    }

    method RemoveRemainMarker(kind: Kind) returns (ok: bool)
      modifies this`g
      ensures if ok then LosesMarkers(old(g), g, kind) else g == old(g)
    {
      ok := *;
      if ok {
        g := HierarchyQueries.RemoveRemainMarker(g, kind);
      }
    }
  }

  /** The node ids lead to the codes of their nodes. */
  ghost predicate HasCodes(g: Graph, nodeIDs: map<Id, string>) {
    forall v | v in nodeIDs :: v in g.vertices && nodeIDs[v] == g.vertices[v].code
  }

  ghost predicate IsGenericWithCode(g: Graph, codeListID: string, codes: seq<string>, v: Id) {
    v in Ids(g, Generic(codeListID)) && g.vertices[v].code in codes
  }

  ghost predicate IsAboveGenericWithCode(g: Graph, codeListID: string, codes: seq<string>, v: Id) {
    exists s :: IsGenericWithCode(g, codeListID, codes, s) && Above(g.hasParent, s, v)
  }

  lemma AncestryIs(g: Graph, codeListID: string, codes: seq<string>)
    requires Sound(g, Generic(codeListID))
    ensures var found := Ancestry(g, codeListID, Elements(codes));
      HasCodes(g, found) && forall v :: v in found <==> IsAboveGenericWithCode(g, codeListID, codes, v)
  {
    var nodes, found := GenericNodes(g, codeListID, Elements(codes)), Ancestry(g, codeListID, Elements(codes));
    assert forall s :: s in nodes <==> IsGenericWithCode(g, codeListID, codes, s);
    forall v ensures v in found <==> IsAboveGenericWithCode(g, codeListID, codes, v) {
      if v in found {
        var s :| s in nodes.Keys && Above(g.hasParent, s, v);
      }
      if IsAboveGenericWithCode(g, codeListID, codes, v) {
        var s :| IsGenericWithCode(g, codeListID, codes, s) && Above(g.hasParent, s, v);
        assert s in nodes.Keys;
        assert AboveSome(g.hasParent, nodes.Keys, v);
        ReachedIsVertex(g, nodes.Keys, v);
      }
    }
  }

  function Elements(codes: seq<string>): set<string> { set code | code in codes }

  /** The codes in ['a','b']: quoting and joining no codes at all makes a list of one blank code. */
  function Quoted(codes: seq<string>): set<string> { if codes == [] then {""} else Elements(codes) }

  /** What going up a hierarchy needs in order to end. */
  ghost predicate Sound(g: Graph, kind: Kind) { WellFormed(g) && KindClosed(g, kind) && Acyclic(g, kind) }

  function AsItems(codes: seq<string>): Items { map code | code in codes :: "" }

  lemma ItemsOf(codes: seq<string>, items: Items)
    requires forall s :: s in items <==> exists i :: 0 <= i < |[codes]| && s in [codes][i]
    requires forall s | s in items :: items[s] == ""
    ensures items == AsItems(codes) && items.Keys == Elements(codes)
  {
    forall s | s in codes ensures s in items {
      assert s in [codes][0];
    }
  }

  /** Whether the database fails a chunk is not up to the driver. */
  method AnyAnswers(n: nat) returns (answers: seq<Outcome>)
    ensures |answers| == n
  {
    answers := [];
    for i := 0 to n
      invariant |answers| == i
    {
      var ok: bool := *;
      answers := answers + [if ok then Values(map[]) else Failed("query failed")];
    }
  }

  lemma ExecutedOnce(c: Config, run: seq<Step>)
    requires IsRun(c, run)
    ensures var executed := After(c, run).executed;
      HierarchyBatches.Distinct(executed) && forall i | 0 <= i < |executed| :: executed[i] < |c.outcomes|
  {
    RunInv(c, run);
    var s := After(c, run);
    forall i | 0 <= i < |s.executed| ensures s.executed[i] < |c.outcomes| {
      assert s.executed[i] in Processed(s.workers);
    }
  }

  lemma OneOrMore(s: set<Id>, v: Id)
    requires v in s
    ensures |s| <= 1 ==> s == {v}
    ensures |s| > 1 ==> exists w :: w in s && w != v
  {
    assert s == {v} + (s - {v});
    assert |s| == 1 + |s - {v}|;
    if |s| > 1 {
      var w :| w in s - {v};
    }
  }

  lemma RestrictToAll(origin: map<Id, Id>, ids: set<Id>)
    requires origin.Values <= ids
    ensures Restrict(origin, ids) == origin
  {
    forall c | c in origin ensures origin[c] in ids {
      assert origin[c] in origin.Values;
    }
  }
}
