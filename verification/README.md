# dp-graph, modelled in Dafny

dp-graph turns domain operations into graph-database programs (Gremlin for Neptune, Cypher for Neo4j), runs them in
concurrent batches with retries, and streams results back. This project models six parts of it and proves what they
promise.

1. **Batches.** `BatchExecutor.dfy` is `processInConcurrentBatches` as a transition system: a dispatcher that becomes the
   collector, one worker per chunk and a waiter share a bounded semaphore channel, a WaitGroup, an unbuffered error
   channel, a mutex and a close signal; a run is any interleaving. `BatchRuns.dfy` proves how runs
   end. `Batching.dfy` is the splitting of a map into chunks, and what it takes for chunks to mean the same as one call.
2. **Hierarchies.** `HierarchyGraph.dfy` is the stored graph; `HierarchyQueries.dfy` gives each query constant its
   meaning as a step on that graph. `HierarchyPruning.dfy`, `HierarchyCloning.dfy`, `HierarchyAgreement.dfy` and
   `HierarchyResult.dfy` prove what the steps do together; `HierarchyBatches.dfy` proves that running them chunk by chunk
   makes no difference; `HierarchyTraversal.dfy`, `HierarchyDriver.dfy` and `HierarchyBuilder.dfy` are the driver's
   operations as methods on an object that holds the graph; `HierarchyOutside.dfy` proves that whatever happens nothing but
   the hierarchy changes; `HierarchyNodes.dfy` reads a node back; `HierarchyNeo4j.dfy`
   is the wiring of clones in Neo4j.
3. **Observations.** `ObservationFilter.dfy` and `FilterProperties.dfy` are the two backends' filter queries;
   `StatementText.dfy` is the text of the statement that adds observations; `ObservationUpsert.dfy` and
   `UpsertProperties.dfy` are `InsertObservationBatch`; `FilteredInserts.dfy` proves that a filter finds what was inserted.
4. **Streaming.** `RowReaders.dfy` and `StreamProperties.dfy` are the byte reader over the concatenation of row readers.
5. **Latest versions.** `LatestVersions.dfy` and `LatestVersionProperties.dfy` are the two backends' indexes.
6. **Retries.** `Retry.dfy` is the retry loop with its sleeps and the Neo4j writers' recursion.

`Options.dfy` and `Strings.dfy` hold what several of them share.

## How to read the model

- A database query is one step that succeeds, or fails without effect. Which of the two happens, the order in which a map
  is visited, the ids the database chooses and the jitter of a sleep are arbitrary.
- A query step looks at the graph as it was before the step.
- Which hierarchy operations are called and in which order is the caller's choice (`graph/driver/driver.go:33-61`). Two
  orders are assumed. *Clone everything, then prune*: CloneNodes, CloneRelationships, SetHasData, MarkNodesToRemain,
  RemoveNodesNotMarkedToRemain, RemoveRemainMarker, SetNumberOfChildren. *Clone only what is needed*: look up the nodes
  with data and their ancestors, CloneNodesFromIDs for the former with hasData true and for the other ancestors with
  hasData false, CloneRelationshipsFromIDs, RemoveCloneEdgesFromSourceIDs, SetNumberOfChildrenFromIDs.
- Conditions the code relies on are stated where they are needed: generic hierarchies without cycles (only for traversals
  to end and for the root), an instance that has no hierarchy yet, an observation has at most one option of a dimension,
  and a dimension's option ids do not clash with another's. Where a promise holds only of some filters or batches the
  condition is part of the statement.
- A batched call of the driver is one run of the executor to its end. As a method has to return, a call that never does is
  one whose result is `Stuck`.

## What turned out to depend on a condition

- The batch executor returns if and only if fewer than `maxWorkers` of the chunks before the last one fail; otherwise
  every run gets stuck with all slots held by workers that wait to hand over an error.
- The two orders of building a hierarchy agree if and only if there is a code with data or no generic node has a blank
  code: joining an empty list of codes with quotes makes a list of one blank code (`neptune/hierarchy.go:510`).
- Neo4j's marking statement misses the root when only the root has data; on a hierarchy with one root that is the only
  difference from Neptune's.
- Neptune copies parallel edges between the same two nodes, Neo4j merges them; with unique codes the two wire clones alike
  if and only if there are none.
- The number of children stored at a node is the number that is read back, without the mismatch warning, if and only if no
  other node with the same code has children, because children are looked up by code.
- A filter whose first dimension has no options compiles to a malformed Neptune query, while Neo4j answers it.
- A dimension name that is repeated makes Neptune return nothing if it is repeated after the first dimension, and Neo4j
  return nothing in any case. A dimension named `o` makes Neo4j return nothing, because that is the variable of the observation
  itself. So such a name, or one that only the first dimension shares with a later one, makes the two differ as soon as an
  observation is selected, unless a name is repeated after the first dimension.
- A filter dimension with options whose name has a capital makes both return nothing, because observations are stored under
  lower-case names.
- A batch of observations is stored as it was given if and only if no row has a backslash and every dimension vertex is
  there; a missing dimension vertex makes no request fail, but then no edge of the batch is added. As rows are escaped inside
  the caller's observations, the attempt after `n` others, failed or not, stores the batch as it was first meant if and only if
  in every row each quote has exactly `n` backslashes before it, there are no others, and every dimension vertex is there.
- An insert can succeed if and only if no row index is repeated and each row is understood by the database: going from left
  to right, every backslash is followed by a character that can be escaped and is not a quote. With rows that are understood as
  something else the batch is stored with those. Whatever the rows are, no attempt ever changes anything outside the batch.
- The two latest-version indexes agree if and only if each dataset has one label and each edition has a version that is not
  negative.
- A sleep before a retry is the intended one if and only if it fits into 64 bits.

## Model

| member | source | states |
|---|---|---|
| BatchExecutor.SafeThroughout | neptune/utils.go:14-74 | in every reachable state at most maxWorkers workers are between acquire and release, the WaitGroup never goes negative, at most one worker is inside the mutex, and once chWait is closed every worker has finished |
| BatchExecutor.SafeOnReturn | neptune/utils.go:56-74 | whenever the call returns, every worker has finished, errs has exactly one entry for each failed chunk, every chunk was processed once, and the result is the whole results of the successful chunks merged one after another |
| BatchExecutor.ResultOnReturn | neptune/utils.go:43-48 | the keys returned are exactly those of the successful chunks, and each value is one that some chunk gave for the key |
| BatchExecutor.EveryRunIsBounded | neptune/utils.go:14-74 | steps taken and steps left always add up to the same number, so no run is infinite |
| BatchRuns.Progress | neptune/utils.go:23-73 | from every reachable state that has not returned some step is possible, unless the dispatcher is blocked on the semaphore and all slots are held by workers blocked on chErr |
| BatchRuns.MaximalRunsReturnIff | neptune/utils.go:23-73 | every maximal run returns if and only if fewer than maxWorkers of the chunks before the last fail (or there are none); otherwise it ends in exactly that blocked state |
| BatchRuns.FewChunksAlwaysReturn | neptune/utils.go:23-73 | with at most maxWorkers chunks every maximal run returns, whatever fails |
| BatchRuns.ExtendsToMaximal | neptune/utils.go:14-74 | every run can be continued to a maximal one, so what is said of maximal runs is said of how every run must end |
| BatchRuns.RunToTheEnd | neptune/utils.go:14-74 | taking possible steps in any order ends, in a state that some maximal run reaches |
| HierarchyBatches.RunEnds | neptune/utils.go:14-74 | a call on these items and answers never returns exactly if maxWorkers or more chunks before the last fail, and succeeds exactly if no chunk fails and it returns |
| HierarchyBatches.FewItemsAlwaysReturn | neptune/utils.go:14-74 | with no more items than batchSize times maxWorkers a call always returns |
| HierarchyBatches.CoveredAtEnd | neptune/utils.go:14-74 | when a maximal run ends, the ids that were executed with success are all ids exactly if the call returned without an error |
| Batching.ProcessInBatches | neptune/utils.go:78-98 | hands over exactly the chunks that the visiting order fills, counts them, and no chunk changes after it has been handed over |
| Batching.FillSplits | neptune/utils.go:78-98 | whatever order the map is visited in, the chunks are disjoint, add up to the items, are not empty, and all but the last are full |
| Batching.SplitPieces | neptune/utils.go:78-98 | every item with its value is in exactly one chunk; all chunks but the last have size batchSize |
| Batching.SplitCount | neptune/utils.go:78-98 | numChunks is the number of items divided by batchSize, rounded up; with a batchSize below 1 everything is in one chunk |
| Batching.CreateMapFromArrays | neptune/utils.go:115-123 | the keys are exactly the elements of the arrays |
| Batching.CreateArray | neptune/utils.go:106-112 | the keys of the map, each once |
| Batching.Unique | neptune/utils.go:101-103 | the elements of the argument, each once |
| Batching.ConcurrentBatchesRefineOneCall | neptune/utils.go:14-74 | for a processBatch that distributes over disjoint maps, and any batch size, map order and schedule: without errors the result is that of one call on all items, and with errors a part of it; there are errors exactly if a chunk failed |
| HierarchyBatches.LookupsDistribute | neptune/query/query.go:64-71 | both lookups distribute over disjoint sets of codes and give a node that several chunks find the same code |
| HierarchyBatches.BatchedLookupIsOneLookup | neptune/hierarchy.go:58-131 | for every split and schedule the batched lookup returns what one query on all codes would |
| HierarchyBatches.BatchedWriteIsOneWrite | neptune/hierarchy.go:325-359 | for every split and schedule each chunk is executed once and the graph is what one query on the ids of the successful chunks leaves: on all ids when there was no error |
| HierarchyBatches.RelationshipsSplit | neptune/query/query.go:132-138 | cloning relationships for two disjoint sets of ids one after the other adds each edge as often as doing it for both together, when clones were not cloned from their own kind |
| HierarchyBatches.CloningSplits | neptune/query/query.go:92-106 | cloning nodes for two disjoint sets of ids one after the other makes the same clones as doing it for both together |
| HierarchyBatches.RemovingLinksSplits | neptune/query/query.go:142 | dropping clone_of edges can be split over ids |
| HierarchyBatches.CountingSplits | neptune/query/query.go:146 | counting children can be split over ids |
| HierarchyPruning.PruningIsExact | neptune/query/query.go:151-154 | after mark, remove and unmark the vertices of the kind are precisely those with data and all their ancestors, with all edges between them, no marker, and everything else as before |
| HierarchyPruning.RootsThatAreLeft | neptune/query/query.go:151-158 | the parentless vertices after pruning are the parentless vertices before it that are marked |
| HierarchyPruning.SingleRootRemains | neptune/query/query.go:151-158 | a hierarchy with one root and no cycles keeps exactly that root if some vertex has data; otherwise nothing of it is left |
| HierarchyPruning.Neo4jMarksLess | neo4j/query/query.go:20 | Neo4j marks what Neptune marks except the vertices with data that have no parent and nothing with data below them |
| HierarchyPruning.MarksAgreeIff | neo4j/query/query.go:20 | with one root and no cycles both mark the same vertices if and only if the root is not the only vertex with data |
| HierarchyNeo4j.MergesAsStated | neo4j/query/query.go:17 | edge by edge: one edge is added where there was none, for each two vertices of the kind with the codes of a generic node and its parent |
| HierarchyNeo4j.MergingIsIdempotent | neo4j/query/query.go:17 | merging the relationships again changes nothing, so the writer's retry is harmless |
| HierarchyNeo4j.WiringAgreesIff | neo4j/query/query.go:17 | with unique codes Neo4j wires the clones as Neptune does if and only if no generic node has two edges to the same parent |
| HierarchyAgreement.CloningIsIsomorphism | neptune/hierarchy.go:183-205 | after CloneNodes and CloneRelationships clones and generic nodes correspond one to one with code and label; every edge is there exactly as often as between the originals; no link to a generic node is left; nothing else changed |
| HierarchyAgreement.CloneAllThenPruneIs | neptune/query/query.go:83-154 | cloning everything and pruning leaves exactly the hierarchy that Instantiate describes for the nodes with data and their ancestors |
| HierarchyAgreement.CloneOnlyNeededIs | neptune/query/query.go:64-146 | cloning only the nodes with data and their ancestors leaves exactly the hierarchy that Instantiate describes for the same nodes |
| HierarchyAgreement.InstantiateIs | neptune/query/query.go:83-154 | that hierarchy has one vertex for each kept generic node, with its code and label, hasData exactly if its code has data, no marker, as numberOfChildren the number of edges from kept children; edges as between the originals; and taking it away leaves the graph as it was |
| HierarchyResult.AlgorithmsAgree | neptune/query/query.go:64-154 | for the same codes, and whatever ids the database chooses, a one-to-one renaming turns the result of one algorithm into that of the other: all properties and all edges match, and neither changes anything else |
| HierarchyBuilder.OrdersAgreeIff | neptune/hierarchy.go:490-527 | as the driver sends its queries, the two orders leave isomorphic hierarchies if and only if there are codes with data or no generic node has a blank code |
| HierarchyResult.BuiltHierarchyHasRoot | neptune/hierarchy.go:606-640 | if the generic hierarchy has one root and no cycles, GetHierarchyRoot on what was built finds its clone exactly if some node has data, else ErrNotFound, and never ErrMultipleFound |
| HierarchyTraversal.Repeat | neptune/query/query.go:151-152 | repeat(out('hasParent')).emit() ends on a hierarchy without cycles and reaches exactly all ancestors |
| HierarchyTraversal.CountAll | neptune/query/query.go:145-146 | sets numberOfChildren of the given vertices to the number of incoming hasParent edges, and changes nothing else |
| HierarchyDriver.NeptuneDB.InBatches | neptune/hierarchy.go:208-243 | a batched write is a run of the executor with maxWorkers workers: it leaves what one statement on the ids of the chunks executed with success would, succeeds exactly if those are all ids, and never returns exactly if maxWorkers or more chunks before the last fail |
| HierarchyDriver.NeptuneDB.DoGetGenericHierarchyNodeIDs | neptune/hierarchy.go:58-131 | the batched lookup returns the ids and codes one query would, or an empty map and a failure, and never returns exactly if maxWorkers or more chunks before the last fail |
| HierarchyDriver.NeptuneDB.GetGenericHierarchyNodeIDs | neptune/hierarchy.go:48-50 | on success exactly the generic nodes with one of the codes, each id with the code of its node; otherwise an empty map |
| HierarchyDriver.NeptuneDB.GetGenericHierarchyAncestriesIDs | neptune/hierarchy.go:53-55 | on success exactly the vertices that some generic node with one of the codes is strictly below, each id with the code of its node; otherwise an empty map |
| HierarchyDriver.NeptuneDB.CloneNodes | neptune/hierarchy.go:183-205 | for each generic node one new vertex with an unused id, with its code and label, the kind and code list, hasData false and a link to it, everything else as before; or no change |
| HierarchyDriver.NeptuneDB.CloneNodesFromIDs | neptune/hierarchy.go:208-243 | the same for the given ids that exist, with the given hasData; if it fails or never returns, for the ids of the chunks executed with success |
| HierarchyDriver.NeptuneDB.CloneRelationships | neptune/hierarchy.go:297-322 | as many edges between the clones as between the generic nodes they were cloned from, then the links dropped; after a failure nothing, or the relationships with the links still there |
| HierarchyDriver.NeptuneDB.CloneRelationshipsFromIDs | neptune/hierarchy.go:325-359 | pair by pair: from a clone of one of the given ids, or of those of the chunks executed with success, to another clone as many edges are added as there were between what they were cloned from; no other edge, vertex or link is different |
| HierarchyDriver.NeptuneDB.GetHierarchyNodeIDs | neptune/hierarchy.go:362-381 | the ids of all vertices of the instance's dimension |
| HierarchyDriver.NeptuneDB.RemoveCloneEdges | neptune/hierarchy.go:383-402 | afterwards no vertex of the kind is linked to what it was cloned from, every other link is as before, and so are all vertices and hasParent edges; a failure changes nothing |
| HierarchyDriver.NeptuneDB.RemoveCloneEdgesFromSourceIDs | neptune/hierarchy.go:405-433 | none of the given ids, or of those of the chunks that succeeded, has a link afterwards, and all else is as before |
| HierarchyDriver.NeptuneDB.SetNumberOfChildren | neptune/hierarchy.go:435-457 | the number of children of every vertex of the kind becomes the number of edges into it, summed over where they come from, and all else is as before; or nothing changes |
| HierarchyDriver.NeptuneDB.SetNumberOfChildrenFromIDs | neptune/hierarchy.go:460-488 | the same for the given ids, or for those of the chunks that succeeded |
| HierarchyDriver.NeptuneDB.SetHasData | neptune/hierarchy.go:490-527 | a vertex of the kind has data afterwards exactly if it had or its code is in the quoted list, which holds one blank code when there are none; every other property, vertex, edge and link is as before; a failure changes nothing |
| HierarchyDriver.NeptuneDB.MarkNodesToRemain | neptune/hierarchy.go:529-549 | marks exactly the vertices with data and all their ancestors, or nothing |
| HierarchyDriver.NeptuneDB.RemoveNodesNotMarkedToRemain | neptune/hierarchy.go:551-566 | the vertices that are gone are exactly those of the kind without a marker; an edge or link is left, with its multiplicity, exactly if neither of its ends is gone; a failure changes nothing |
| HierarchyDriver.NeptuneDB.RemoveRemainMarker | neptune/hierarchy.go:568-583 | no vertex of the kind has a marker afterwards; every other property, vertex, edge and link is as before; a failure changes nothing |
| HierarchyDriver.NeptuneDB.GetHierarchyRoot | neptune/hierarchy.go:606-640 | the only parentless vertex, ErrNotFound if there is none, ErrMultipleFound if there are several |
| HierarchyBuilder.CloneEverything | graph/driver/driver.go:33-61 | when every call succeeds the driver's graph is that of the first order, for ids the database chose; whether or not they do, the graph without the hierarchy is the one there was |
| HierarchyBuilder.CloneNeeded | graph/driver/driver.go:33-61 | when every call succeeds the driver's graph is that of the second order, for ids the database chose; whether they do, fail or never return, the graph without the hierarchy is the one there was |
| HierarchyNodes.GetChildren | neptune/query/query.go:161-162 | lists each vertex as often as it has edges to vertices with the code, and no others |
| HierarchyNodes.CountMatchesIff | neptune/mapper.go:66-76 | the number of children found by code is the number of edges into a vertex if and only if no other vertex with the same code has children |
| HierarchyNodes.NoWarningIff | neptune/mapper.go:71-76 | after SetNumberOfChildren the stored number and the number found differ if and only if another vertex has the same code and has children |
| HierarchyNodes.GetAncestry | neptune/query/query.go:163-164 | ends, finds exactly all ancestors, and where no vertex has two parents gives the chain from the parent to the root in order |
| HierarchyNodes.BuildBreadcrumbs | neptune/mapper.go:102-122 | for exactly those ancestors, elements with the code as id, the label as name, the stored number of children and hasData; an error for a property that is missing only if an ancestor lacks its number of children |
| HierarchyNodes.BuildHierarchyNode | neptune/mapper.go:18-94 | copies the vertex's own properties, fails without a number of children, reads children only if that number is not zero and there is an instance, gives each child its code as id, its label, its number of children and hasData, and warns exactly if the numbers differ |
| ObservationFilter.BuildObservationsQuery | neptune/observation.go:59-97 | the loop builds the query that Compile describes |
| ObservationFilter.CreateObservationQuery | neo4j/observation.go:38-66 | the loop builds one pattern for each dimension with options, or the query for all observations |
| FilterProperties.HitsCountChosen | neptune/query/query.go:203 | the edges of an observation that hit the additional option ids are as many as the additional dimensions in which its option is chosen |
| FilterProperties.AllChosenIff | neptune/observation.go:92-96 | that number equals the number of additional dimensions if and only if the observation is selected in all of them |
| FilterProperties.NeptuneReturnsOnceIff | neptune/observation.go:59-97 | Neptune returns an observation exactly once if it is selected in every dimension with options and no name is repeated after the first dimension, and otherwise not |
| FilterProperties.NeptuneMeansFilter | neptune/observation.go:59-97 | so the traversal streams exactly the wanted rows, all of them for an empty filter, or nothing if a name is repeated after the first dimension |
| FilterProperties.MalformedIff | neptune/observation.go:82-90 | the query is malformed if and only if the filter is not empty and its first dimension has no options |
| FilterProperties.OneWayOrNone | neo4j/observation.go:38-66 | Cypher patterns whose names differ from each other and from the variables that are bound already match an observation in one way or none |
| FilterProperties.Neo4jReturnsOnceIff | neo4j/observation.go:38-66 | the patterns of a filter match an observation once if it is selected in every dimension with options, no name is repeated and none is `o`, and otherwise not |
| FilterProperties.Neo4jMeansFilter | neo4j/observation.go:38-66 | the Cypher query returns exactly the wanted rows, all of them for an empty filter, or nothing if a name is repeated or is `o` |
| FilterProperties.BackendsAgreeIff | neptune/observation.go:59-97 | both backends return the same rows if and only if the filter is empty, or its first dimension has options and: no name is repeated and none is `o`, or one is repeated after the first dimension, or nothing is selected |
| FilterProperties.EmptyIff | observation/filter.go:22-34 | a filter counts as empty exactly if no dimension has both a name and options |
| FilterProperties.UnrestrictedReturnsAll | neptune/observation.go:59-62 | then both backends return every row once, even if a dimension without a name has options |
| FilterProperties.NoUnderscoresNoClash | neptune/observation.go:73 | option ids of different dimensions do not clash when dimension names have no underscore |
| FilterProperties.ReturnedIffLowerNames | neptune/observation.go:179-184 | with the case of names disregarded, either backend returns an observation that is selected exactly if every dimension with options has a lower-case name, no name is repeated where it matters to that backend and, in Neo4j, none is `o` |
| FilterProperties.NamesLoseRows | neptune/query/query.go:203 | a selected observation is found by Neptune exactly if no name is repeated after the first dimension, and by Neo4j exactly if none is repeated at all and none is `o` |
| FilterProperties.VariableNameDiffers | neo4j/observation.go:59 | with one dimension, named `o`, Neptune streams an observation with the option that is asked for and Neo4j returns nothing |
| StatementText.RowSurvivesIff | neptune/observation.go:234-236 | an escaped row between quotes reads back as itself if and only if it has no backslash, and otherwise as another row or not at all |
| StatementText.EscapedSurvivesIff | neptune/observation.go:234-236 | a row that was escaped n times before it is given reads back as the original if and only if each of its quotes has exactly n backslashes before it and there are no others, and otherwise as another row or not at all |
| StatementText.LiteralIs | neptune/observation.go:186-197 | for every row and whatever follows it: reading stops at the quote that closes the row, with what is understood for the row, or it stops at a quote inside the row, or it goes on to a quote after it |
| StatementText.StatementIsRead | neptune/observation.go:186-197 | for all rows: parsing the printed statement gives every vertex with the label and id that were meant and the row that is understood, or no statement at all if some row is not understood |
| StatementText.StatementReadsBackIff | neptune/observation.go:186-197 | parsing the printed statement gives back exactly the labels, ids and rows if and only if no row has a backslash |
| ObservationUpsert.ObservationStore.RemoveExistingObservations | neptune/observation.go:200-231 | drops the observations of the list that exist with every edge at them, or changes nothing |
| ObservationUpsert.ObservationStore.AddObservationNodes | neptune/observation.go:186-197 | the text it builds, parsed, adds the vertices; a failure changes nothing |
| ObservationUpsert.ObservationStore.AddObservationEdges | neptune/observation.go:158-177 | adds one isValueOf edge for each option of each observation, as far as the traversal reaches |
| ObservationUpsert.EscapeAndIndex | neptune/observation.go:109-142 | escapes every row in place, as often as its observation is in the batch, and lists ids, distinct dimension vertices and for each id the last observation with its row index |
| ObservationUpsert.ObservationStore.InsertObservationBatch | neptune/observation.go:101-156 | on success the three steps together for the rows that are sent; on failure the graph of one of the points between them; rows are escaped in either case; any batch, also with repeated indexes or observations |
| UpsertProperties.BatchIsReadIff | neptune/observation.go:186-197 | the database reads the batch that was meant if and only if no row has a backslash |
| UpsertProperties.ClearedExactly | neptune/observation.go:200-231 | afterwards none of the ids is there and no edge at them; every other vertex is as before and every other edge is there as often as before |
| UpsertProperties.DimensionsAre | neptune/observation.go:127-136 | the dimension vertices that are looked up are exactly those of the options of the rows, each once |
| UpsertProperties.InsertedExactly | neptune/observation.go:101-156 | for all rows: the three requests together can succeed if and only if no row index is repeated and each row is understood, and then they leave the upsert of the rows as understood, without the new edges if a dimension vertex is missing |
| UpsertProperties.InsertedReadsIff | neptune/observation.go:101-156 | whatever rows are given for those that are meant, the batch is stored as meant if and only if all of them are read so and every dimension vertex is there |
| UpsertProperties.InsertedIs | neptune/observation.go:101-156 | the result is exactly the batch in place of its ids if and only if no row has a backslash and every dimension vertex is there; if only a dimension vertex is missing, nothing fails and no edge is added |
| UpsertProperties.RowsAfterAttempt | neptune/observation.go:114-115 | attempt number n + 1 leaves each of the caller's observations with its row escaped n + 1 times |
| UpsertProperties.AttemptIff | neptune/observation.go:114-156 | for all rows: inserting what n attempts left stores the batch as it was first meant if and only if in every row each quote has exactly n backslashes before it, there are no others, and every dimension vertex is there |
| UpsertProperties.DistinctAreSent | neptune/observation.go:114-118 | without repeated row indexes the rows that are sent are the caller's |
| UpsertProperties.AddedIff | neptune/observation.go:186-197 | for all rows: the vertices can be added if and only if no row index is repeated and each row is understood, so otherwise the insert never succeeds, whatever is looked up |
| UpsertProperties.FailureStaysInside | neptune/observation.go:101-156 | whatever the rows are, what a failure leaves differs from before only in the batch's ids and edges at them |
| UpsertProperties.SuccessStaysInside | neptune/observation.go:101-156 | so does what a success leaves, whatever the rows are and whichever dimension vertices are looked up |
| UpsertProperties.CallIsAttempt | neptune/observation.go:101-156 | a call succeeds only without repeated row indexes, and without them it is an attempt with the caller's rows |
| UpsertProperties.CallStaysInside | neptune/observation.go:101-156 | any call, also with repeated indexes or observations, keeps the graph well-formed and changes nothing outside the batch |
| UpsertProperties.AttemptsStayInside | neptune/observation.go:101-156 | nor does any number of attempts one after the other, failed or not |
| UpsertProperties.InsertIsUpsert | neptune/observation.go:101-156 | from any graph that agrees outside the batch the result is the batch as meant in place of its ids and all else as it first was, if and only if the rows are read as meant and every dimension vertex was there |
| UpsertProperties.UpsertAfterAttempts | neptune/observation.go:101-156 | over a whole history: after any n attempts the next one leaves the batch as it was first meant in the graph as it first was, if and only if each quote has exactly n backslashes before it, there are no others, and every dimension vertex was there |
| UpsertProperties.UpsertedIsSameOutside | neptune/observation.go:101-156 | the result agrees outside the batch, so a success can be repeated |
| UpsertProperties.StoredExactly | neptune/observation.go:101-177 | each observation is stored under its id with its own row, and its edges are as many as its options, edge j leading to the vertex of option j; all other vertices, and the edges between them, are as before |
| FilteredInserts.AskedIsStored | neptune/observation.go:73-77 | the id a filter asks for is the id of the vertex that observations with the option are linked to |
| FilteredInserts.InstancesApart | neptune/observation.go:73-77 | a filter for one instance never asks for an id of another, for instance ids without underscores |
| FilteredInserts.ObservationIdsApart | neptune/observation.go:123 | an observation's id is its label and its row index, and differs for different instances or row indexes |
| FilteredInserts.OtherInstancesAreOutside | neptune/observation.go:123 | no id in a batch is that of another instance's observation |
| FilteredInserts.LinksAreLower | neptune/observation.go:179-184 | observations are stored under lower-case dimension names |
| Strings.LetterIsLowered | neptune/observation.go:180 | each of the 26 capitals becomes the small letter in its place |
| FilteredInserts.EdgesToAsked | neptune/query/query.go:202-203 | of the edges of a stored observation those to ids that a filter asks for are exactly those of its chosen options |
| FilteredInserts.InsertThenFilter | neptune/observation.go:59-184 | in the graph that a successful insert leaves, the query for a filter returns an observation of the batch once if it has a chosen option for every dimension with options and no name is repeated after the first dimension, else not at all; what it returns is the row that was given |
| FilteredInserts.OptionsAsWritten | neptune/observation.go:73-77 | option ids for an instance, dimension and option, spelled out |
| FilteredInserts.ObservationsAsWritten | neptune/observation.go:123 | label and id of an observation, spelled out |
| FilteredInserts.FormatAsWritten | neptune/query/query.go:196 | the fixed text around label, id and row in the statement |
| RowReaders.CompositeRowReader.Read | observation/composite_row_reader.go:23-44 | one reply of the sources in turn, and which sources are left; the index stays in range |
| RowReaders.Reader.Read | observation/reader.go:49-80 | the bytes, the error and the new buffer and counters of one read, with 32-bit and 64-bit wrap-around |
| StreamProperties.CompositeIsConcatenation | observation/composite_row_reader.go:23-44 | reading the composite is reading the concatenation of what each source gives before its end |
| StreamProperties.ReadStep | observation/reader.go:49-80 | one read delivers the next bytes of what is pending, keeps the totals right, reports the end exactly if nothing is pending, and makes progress |
| StreamProperties.BufferSizesDoNotMatter | observation/reader.go:49-80 | for every sequence of positive buffer sizes the bytes delivered are a prefix of the stream, all of it when an error is reported, with totals and error that depend on the stream alone; enough reads always reach the end |
| StreamProperties.SourcesOfRows | observation/composite_row_reader.go:23-44 | over sources of rows the stream is the concatenation of all rows, ends with EOF, and one more row is asked for than there are |
| StreamProperties.ReadOnce | observation/reader.go:49-80 | on the reader object itself one read takes the next bytes off what is left, and until the end there is a source left to ask |
| StreamProperties.ReadAll | observation/reader.go:49-80 | reading into arbitrary buffers until an error is reported ends, gives all that was left, and leaves the counters moved by the bytes delivered and the rows asked for |
| StreamProperties.StreamEverything | observation/reader.go:42-80 | a new reader over a new composite, drained with any buffers, delivers the whole stream up to its first end or failure, reports which it was, and ends with totalBytesRead the number of bytes and obsCount the rows asked for |
| StreamProperties.StreamRows | observation/composite_row_reader.go:16-44 | over sources of rows that is the concatenation of all rows, EOF, its length, and one more than the number of rows |
| LatestVersions.CreateRecords | neptune/codelist.go:348-365 | records of the given size that flatten to the values, or an error exactly if they do not come out even |
| LatestVersions.AtoiIs | neptune/codelistsdataset.go:102-105 | a text is read as a version exactly if it is digits, after an optional sign, whose sum by place fits into 64 bits |
| LatestVersions.DecimalIsRead | neptune/codelistsdataset.go:102-105 | every 64-bit number is read back from its decimal text |
| LatestVersions.BuildLatestVersionMaps | neptune/codelistsdataset.go:93-118 | an error exactly if a version is not a number; else at a dataset, dimension and edition stands the highest number among the version texts of the raw records with these in their fourth, first and second place, or nothing if there are none, and no inner map is empty |
| LatestVersions.BuildResponse | neptune/codelistsdataset.go:125-150 | lists each dataset and dimension once and each of its editions once, with the version of the index |
| LatestVersions.CodesDatasets.MapRow | neo4j/mapper/datasets.go:24-76 | adds the row's version to the list of its edition, under the dataset's first label |
| LatestVersions.Max | neo4j/codelists.go:164-171 | not negative, at least every version, and zero or one of them |
| LatestVersions.GetCodeDatasets | neo4j/codelists.go:126-162 | lists each dataset once with its first label, and each edition once with its maximum from zero |
| LatestVersionProperties.NeptuneListsLatest | neptune/codelistsdataset.go:93-150 | Neptune's response lists an edition with a version exactly if that is the highest version among its records, in any order |
| LatestVersionProperties.NeptuneListsHighest | neptune/codelistsdataset.go:93-150 | the same in terms of the raw records with their versions as text |
| LatestVersionProperties.Neo4jListsMax | neo4j/codelists.go:144-171 | Neo4j's response lists an edition with a version exactly if that is the maximum of zero and its versions, under the dataset's first label |
| LatestVersionProperties.ResponsesAgreeIff | neo4j/codelists.go:144-171 | for the same records in any orders the two responses list the same if and only if each dataset has one label and each edition has a version that is not negative |
| Retry.Do | retry/retry.go:35-71 | the answer, the number of calls and the sleeps of the loop, for every pattern of results and cancellations |
| Retry.CallsUpToFirstStop | retry/retry.go:35-71 | without cancellation the doer is called exactly up to the first success, the first error not to be retried or the maximum, and that call decides the answer |
| Retry.SleepIsExactIff | retry/retry.go:94-98 | a sleep is 2^attempt times the retry time less 1,000,000 ns times the jitter if and only if that fits into 64 bits |
| Retry.SleepIsCongruent | retry/retry.go:94-98 | otherwise it differs from that by a multiple of 2^64 and stays within 64 bits |
| Retry.TotalSleep | retry/retry.go:43-98 | k calls ask for a total sleep between (2^(k+1) - 4) t - 4 (k - 1) ms and (2^(k+1) - 4) t - (k - 1) ms, as long as 2^k t fits into 64 bits |
| Retry.Neo4jStore.Write | neo4j/hierarchy_writer.go:28-34 | the recursion's error and number of executions; the statement is applied once on success and not at all on failure |
| Retry.WritesAtMost | neo4j/neo4j.go:56-76 | started at attempt a, at most max(1, maxRetries - a + 1) executions: up to the first that does not fail transiently, and all of them if there is none; the error is that of the last execution, as non-retriable or as exceeding the limit |

## Left out

- The `order` property and the `hasCode` edges it is read from (CreateHasCodeEdges, CloneOrderFromIDs, GetCodesOrder): only one of the two algorithms sets it; children are listed in any order.
- GetCodesWithData, CountNodes, HierarchyExists, GetHierarchyCodelist and GetHierarchyElement: single lookups; the codes with data are a parameter of SetHasData.
- Neo4j's hierarchy writers other than marking, relationships and the retry recursion.
- Vertex labels are pairs of instance and dimension, so two pairs that print to the same label are kept apart.
- Codes and ids with a quote or backslash, which would change the text of a hierarchy query.
- Query texts other than the `addV` statement; other statements are given their meaning directly. Inside a literal, octal and unicode escapes are read as malformed.
- createCodes: copies the fields of each record into a response.
- The header row, the LIMIT part, a nil filter and the graph lookups around the observation queries.
- Dimension names with a backtick and options with a quote or backslash, which would change the text of a filter query.
- LatestVersions.GetCodeDatasets: starts at typed rows, as the bolt types and their casts are not part of this model; the link URLs and the code of the response are left out.
- Retry.SleepIsExactIff: the exponential is an integer; the conversion from floating point beyond 2^63, whose result Go leaves open, is taken as wrap-around.
- RowReaders.Reader.Read: is modelled over a composite reader of distinct sources; a source that returns a row together with EOF is covered by the pure ReadBytes, since the composite drops such a row.
- RowReaders.CompositeRowReader.Read: does not model the same source given twice, nor Close.
- Names are lowered for the letters A to Z only.
- Logging, JSON decoding, connection pools, health checks, panics and wall-clock time.
