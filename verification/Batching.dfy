/**
 Splitting a map of items into batches, and what it takes for processing the batches separately to mean the same as
 one call on everything.
 */
module Batching {
  import opened BatchExecutor

  type Items = map<string, string>

  // ---------------------------------------------------------------- the split

  ghost function Union(chunks: seq<Items>): Items {
    if chunks == [] then map[] else Union(chunks[..|chunks| - 1]) + chunks[|chunks| - 1]
  }

  /** No key is in two chunks. */
  ghost predicate Apart(chunks: seq<Items>) {
    chunks == []
    || (Apart(chunks[..|chunks| - 1]) && Union(chunks[..|chunks| - 1]).Keys !! chunks[|chunks| - 1].Keys)
  }

  ghost predicate AllOfSize(chunks: seq<Items>, batchSize: int) {
    chunks == [] || (AllOfSize(chunks[..|chunks| - 1], batchSize) && |chunks[|chunks| - 1]| == batchSize > 0)
  }

  /** Key-disjoint pieces that add up to `items`: full batches, then a last one that is not empty and at most full. */
  ghost predicate IsSplit(items: Items, chunks: seq<Items>, batchSize: int) {
    && Apart(chunks) && Union(chunks) == items
    && (chunks != [] ==>
          && AllOfSize(chunks[..|chunks| - 1], batchSize)
          && 0 < |chunks[|chunks| - 1]|
          && (batchSize >= 1 ==> |chunks[|chunks| - 1]| <= batchSize))
  }

  lemma {:induction false} PieceOfUnion(chunks: seq<Items>, i: nat)
    requires Apart(chunks) && i < |chunks|
    ensures chunks[i].Keys <= Union(chunks).Keys
    ensures forall k | k in chunks[i] :: Union(chunks)[k] == chunks[i][k]
  {
    if i < |chunks| - 1 {
      PieceOfUnion(chunks[..|chunks| - 1], i);
    }
  }

  lemma {:induction false} ApartPairwise(chunks: seq<Items>, i: nat, j: nat)
    requires Apart(chunks) && i < j < |chunks|
    ensures chunks[i].Keys !! chunks[j].Keys
  {
    var init := chunks[..|chunks| - 1];
    if j < |init| {
      ApartPairwise(init, i, j);
    } else {
      PieceOfUnion(init, i);
    }
  }

  lemma {:induction false} SizeOf(chunks: seq<Items>, batchSize: int, i: nat)
    requires AllOfSize(chunks, batchSize) && i < |chunks|
    ensures |chunks[i]| == batchSize > 0
  {
    if i < |chunks| - 1 {
      SizeOf(chunks[..|chunks| - 1], batchSize, i);
    }
  }

  /** What a split is, chunk by chunk. */
  lemma SplitPieces(items: Items, chunks: seq<Items>, batchSize: int)
    requires IsSplit(items, chunks, batchSize)
    ensures forall i | 0 <= i < |chunks| :: |chunks[i]| > 0 && AgreesWith(chunks[i], items)
    ensures forall i, j | 0 <= i < j < |chunks| :: chunks[i].Keys !! chunks[j].Keys
    ensures forall i | 0 <= i < |chunks| - 1 :: |chunks[i]| == batchSize
    ensures forall k | k in items :: exists i :: 0 <= i < |chunks| && k in chunks[i]
  {
    forall i | 0 <= i < |chunks| ensures |chunks[i]| > 0 && AgreesWith(chunks[i], items) {
      PieceOfUnion(chunks, i);
      if i < |chunks| - 1 {
        SizeOf(chunks[..|chunks| - 1], batchSize, i);
      }
    }
    forall i, j | 0 <= i < j < |chunks| ensures chunks[i].Keys !! chunks[j].Keys {
      ApartPairwise(chunks, i, j);
    }
    forall i | 0 <= i < |chunks| - 1 ensures |chunks[i]| == batchSize {
      SizeOf(chunks[..|chunks| - 1], batchSize, i);
    }
    forall k | k in items ensures exists i :: 0 <= i < |chunks| && k in chunks[i] {
      var i := UnionHasOwner(chunks, k);
    }
  }

  /** Every entry of `part` is an entry of `whole`. */
  ghost predicate AgreesWith(part: Items, whole: Items) {
    forall k | k in part :: k in whole && part[k] == whole[k]
  }

  lemma {:induction false} UnionHasOwner(chunks: seq<Items>, k: string) returns (i: nat)
    requires k in Union(chunks)
    ensures i < |chunks| && k in chunks[i] && Union(chunks)[k] == chunks[i][k]
  {
    if k in chunks[|chunks| - 1] {
      i := |chunks| - 1;
    } else {
      i := UnionHasOwner(chunks[..|chunks| - 1], k);
    }
  }

  lemma DisjointSum(a: Items, b: Items)
    requires a.Keys !! b.Keys
    ensures |a + b| == |a| + |b|
  {
    assert (a + b).Keys == a.Keys + b.Keys;
    assert |a.Keys + b.Keys| == |a.Keys| + |b.Keys|;
  }

  lemma {:induction false} UnionSize(chunks: seq<Items>, batchSize: int)
    requires Apart(chunks) && AllOfSize(chunks, batchSize)
    ensures |Union(chunks)| == |chunks| * batchSize
  {
    if chunks != [] {
      DisjointSum(Union(chunks[..|chunks| - 1]), chunks[|chunks| - 1]);
      UnionSize(chunks[..|chunks| - 1], batchSize);
      assert |chunks| * batchSize == (|chunks| - 1) * batchSize + batchSize;
    }
  }

  /**
   The number of chunks is the size over the batch size, rounded up; a batch size below one puts everything in a
   single chunk.
   */
  lemma SplitCount(items: Items, chunks: seq<Items>, batchSize: int)
    requires IsSplit(items, chunks, batchSize)
    ensures batchSize >= 1 ==> (|chunks| - 1) * batchSize < |items| <= |chunks| * batchSize
    ensures batchSize < 1 ==> |chunks| == if |items| == 0 then 0 else 1
  {
    if chunks != [] {
      var init, last := chunks[..|chunks| - 1], chunks[|chunks| - 1];
      DisjointSum(Union(init), last);
      UnionSize(init, batchSize);
      assert |chunks| * batchSize == (|chunks| - 1) * batchSize + batchSize;
    }
  }

  // ---------------------------------------------------------------- the loop

  /** The batches handed over so far and the one being filled. */
  datatype Progress = Progress(full: seq<Items>, filling: Items)

  /** Visiting one more key. */
  ghost function Put(items: Items, p: Progress, k: string, batchSize: int): Progress {
    var filling := p.filling[k := if k in items then items[k] else ""];
    if |filling| == batchSize then Progress(p.full + [filling], map[]) else Progress(p.full, filling)
  }

  /** What visiting the keys in this order produces. */
  ghost function Fill(items: Items, order: seq<string>, batchSize: int): Progress {
    if order == [] then Progress([], map[])
    else Put(items, Fill(items, order[..|order| - 1], batchSize), order[|order| - 1], batchSize)
  }

  /** The remaining items are handed over after the loop. */
  ghost function Completed(p: Progress): seq<Items> {
    if |p.filling| > 0 then p.full + [p.filling] else p.full
  }

  /** Each of the keys once. */
  ghost predicate Visits(order: seq<string>, keys: set<string>) {
    if order == [] then keys == {}
    else order[|order| - 1] in keys && Visits(order[..|order| - 1], keys - {order[|order| - 1]})
  }

  /** A batch is a mutable map that is shared with the worker it is handed to. */
  class Batch {
    var items: Items

    constructor ()
      ensures items == map[]
    {
      items := map[];
    }
  }

  /**
   Each batch is handed over as a reference. `seen` records what each held at that moment: since the loop starts a new
   map afterwards, it still holds exactly that when the loop ends. The map is visited in an arbitrary order, and
   FillSplits says what every order produces.
   */
  method ProcessInBatches(items: Items, batchSize: int)
      returns (handed: seq<Batch>, numChunks: nat, ghost seen: seq<Items>, ghost order: seq<string>)
    ensures numChunks == |handed| == |seen| && fresh(handed)
    ensures forall i | 0 <= i < |handed| :: handed[i].items == seen[i]
    ensures Visits(order, items.Keys) && seen == Completed(Fill(items, order, batchSize))
  {
    handed, numChunks, seen := [], 0, [];
    var batch := new Batch();
    var keys := AnyOrder(items);
    order := keys;
    for i := 0 to |keys|
      invariant fresh(batch) && fresh(handed)
      invariant batch !in handed
      invariant numChunks == |handed| == |seen|
      invariant forall i | 0 <= i < |handed| :: handed[i].items == seen[i]
      invariant Fill(items, keys[..i], batchSize) == Progress(seen, batch.items)
    {
      VisitsWithin(keys, items.Keys, i);
      assert keys[..i + 1][..i] == keys[..i];
      batch.items := batch.items[keys[i] := items[keys[i]]];
      if |batch.items| == batchSize {
        numChunks := numChunks + 1;
        handed, seen := handed + [batch], seen + [batch.items];
        batch := new Batch();
      }
    }
    assert keys[..|keys|] == keys;
    if |batch.items| > 0 {
      handed, seen := handed + [batch], seen + [batch.items];
      numChunks := numChunks + 1;
    }
  }

  /** The order in which a map happens to be visited: each key once, otherwise arbitrary. */
  method AnyOrder(items: Items) returns (order: seq<string>)
    ensures Visits(order, items.Keys)
  {
    order := [];
    var todo := items.Keys;
    assert items.Keys - todo == {};
    while todo != {}
      invariant todo <= items.Keys && Visits(order, items.Keys - todo)
      decreases todo
    {
      var k :| k in todo;
      assert (order + [k])[..|order|] == order;
      assert items.Keys - (todo - {k}) - {k} == items.Keys - todo;
      order, todo := order + [k], todo - {k};
    }
    assert items.Keys - todo == items.Keys;
  }

  lemma {:induction false} VisitsWithin(order: seq<string>, keys: set<string>, i: nat)
    requires Visits(order, keys) && i < |order|
    ensures order[i] in keys
  {
    if i < |order| - 1 {
      VisitsWithin(order[..|order| - 1], keys - {order[|order| - 1]}, i);
    }
  }

  // ---------------------------------------------------------------- every order gives a split

  ghost function Pick(items: Items, keys: set<string>): Items { map k | k in keys && k in items :: items[k] }

  /** The full batches handed over and the batch being filled add up to the entries visited. */
  ghost predicate Underway(items: Items, p: Progress, visited: set<string>, batchSize: int) {
    && AddsUp(items, p.full, p.filling, visited)
    && AllOfSize(p.full, batchSize)
    && (batchSize >= 1 ==> |p.filling| < batchSize)
  }

  lemma PickOneMore(items: Items, visited: set<string>, k: string)
    requires k in items
    ensures Pick(items, visited + {k}) == Pick(items, visited)[k := items[k]]
  {
  }

  lemma AddApart(a: Items, b: Items, k: string, v: string)
    requires a.Keys !! b.Keys && k !in a
    ensures a.Keys !! b[k := v].Keys
  {
  }

  lemma AddLast(a: Items, b: Items, k: string, v: string)
    ensures a + b[k := v] == (a + b)[k := v]
  {
  }

  lemma AddSize(b: Items, k: string, v: string)
    requires k !in b
    ensures |b[k := v]| == |b| + 1
  {
    assert b[k := v].Keys == b.Keys + {k};
  }

  lemma AppendChunk(chunks: seq<Items>, last: Items)
    requires Apart(chunks) && Union(chunks).Keys !! last.Keys
    ensures (chunks + [last])[..|chunks|] == chunks
    ensures Apart(chunks + [last]) && Union(chunks + [last]) == Union(chunks) + last
  {
    LastOfAppended(chunks, last, chunks + [last]);
  }

  lemma LastOfAppended(chunks: seq<Items>, last: Items, longer: seq<Items>)
    requires longer == chunks + [last] && Apart(chunks) && Union(chunks).Keys !! last.Keys
    ensures longer[..|chunks|] == chunks && Apart(longer) && Union(longer) == Union(chunks) + last
  {
    assert longer != [] && longer[..|longer| - 1] == chunks && longer[|longer| - 1] == last;
  }

  /** Before deciding whether the batch is full. */
  ghost predicate AddsUp(items: Items, full: seq<Items>, filling: Items, visited: set<string>) {
    Apart(full) && Union(full).Keys !! filling.Keys && Union(full) + filling == Pick(items, visited)
  }

  lemma AddsUpOneMore(items: Items, full: seq<Items>, filling: Items, visited: set<string>, k: string)
    requires AddsUp(items, full, filling, visited) && k in items && k !in visited
    ensures AddsUp(items, full, filling[k := items[k]], visited + {k})
    ensures |filling[k := items[k]]| == |filling| + 1
  {
    assert k !in Union(full) + filling;
    AddApart(Union(full), filling, k, items[k]);
    AddLast(Union(full), filling, k, items[k]);
    AddSize(filling, k, items[k]);
    PickOneMore(items, visited, k);
  }

  lemma AddsUpSealed(items: Items, full: seq<Items>, filling: Items, visited: set<string>)
    requires AddsUp(items, full, filling, visited)
    ensures AddsUp(items, full + [filling], map[], visited)
    ensures (full + [filling])[..|full|] == full
  {
    AppendChunk(full, filling);
    assert Union(full + [filling]) + map[] == Union(full + [filling]);
  }

  lemma VisitOne(items: Items, p: Progress, before: set<string>, visited: set<string>, batchSize: int, k: string)
    requires Underway(items, p, before, batchSize) && k in items && k !in before && visited == before + {k}
    ensures Underway(items, Put(items, p, k, batchSize), visited, batchSize)
  {
    AddsUpOneMore(items, p.full, p.filling, before, k);
    if |p.filling[k := items[k]]| == batchSize {
      AddsUpSealed(items, p.full, p.filling[k := items[k]], visited);
    }
  }

  lemma {:induction false} FillUnderway(items: Items, order: seq<string>, visited: set<string>, batchSize: int)
    requires Visits(order, visited) && visited <= items.Keys
    ensures Underway(items, Fill(items, order, batchSize), visited, batchSize)
  {
    if order == [] {
      assert Pick(items, visited) == map[];
    } else {
      var init, k := order[..|order| - 1], order[|order| - 1];
      FillUnderway(items, init, visited - {k}, batchSize);
      VisitOne(items, Fill(items, init, batchSize), visited - {k}, visited, batchSize, k);
    }
  }

  /** Whatever order the map is visited in, the chunks handed over are a split of it. */
  lemma FillSplits(items: Items, order: seq<string>, batchSize: int)
    requires Visits(order, items.Keys)
    ensures IsSplit(items, Completed(Fill(items, order, batchSize)), batchSize)
  {
    FillUnderway(items, order, items.Keys, batchSize);
    UnderwaySplits(items, Fill(items, order, batchSize), batchSize);
  }

  lemma UnderwaySplits(items: Items, p: Progress, batchSize: int)
    requires Underway(items, p, items.Keys, batchSize)
    ensures IsSplit(items, Completed(p), batchSize)
  {
    assert Pick(items, items.Keys) == items;
    if |p.filling| > 0 {
      SplitWithLast(items, p.full, p.filling, batchSize);
    } else {
      AddNothing(Union(p.full), p.filling);
      SplitWithout(items, p.full, batchSize);
    }
  }

  lemma AddNothing(a: Items, b: Items)
    requires |b| == 0
    ensures a + b == a
  {
    assert b == map[];
  }

  lemma SplitWithLast(items: Items, full: seq<Items>, filling: Items, batchSize: int)
    requires Apart(full) && AllOfSize(full, batchSize) && Union(full).Keys !! filling.Keys
    requires Union(full) + filling == items && |filling| > 0 && (batchSize >= 1 ==> |filling| < batchSize)
    ensures IsSplit(items, full + [filling], batchSize)
  {
    AppendChunk(full, filling);
  }

  lemma SplitWithout(items: Items, full: seq<Items>, batchSize: int)
    requires Apart(full) && AllOfSize(full, batchSize) && Union(full) == items
    ensures IsSplit(items, full, batchSize)
  {
    LastOfFull(full, batchSize);
  }

  lemma LastOfFull(chunks: seq<Items>, batchSize: int)
    requires AllOfSize(chunks, batchSize)
    ensures chunks != [] ==> AllOfSize(chunks[..|chunks| - 1], batchSize) && |chunks[|chunks| - 1]| == batchSize > 0
  {
  }

  // ---------------------------------------------------------------- sets of strings as maps

  method CreateMapFromArrays(arrays: seq<seq<string>>) returns (m: Items)
    ensures forall s :: s in m <==> exists i :: 0 <= i < |arrays| && s in arrays[i]
    ensures forall s | s in m :: m[s] == ""
  {
    m := map[];
    for i := 0 to |arrays|
      invariant forall s :: s in m <==> exists j :: 0 <= j < i && s in arrays[j]
      invariant forall s | s in m :: m[s] == ""
    {
      var before := m;
      for j := 0 to |arrays[i]|
        invariant forall s :: s in m <==> s in before || s in arrays[i][..j]
        invariant forall s | s in m :: m[s] == ""
      {
        m := m[arrays[i][j] := ""];
        assert arrays[i][..j + 1] == arrays[i][..j] + [arrays[i][j]];
      }
      assert arrays[i][..|arrays[i]|] == arrays[i];
    }
  }

  method CreateArray(m: Items) returns (a: seq<string>)
    ensures forall i, j | 0 <= i < j < |a| :: a[i] != a[j]
    ensures forall s :: s in a <==> s in m
  {
    a := [];
    var todo := m.Keys;
    while todo != {}
      invariant todo <= m.Keys
      invariant forall i, j | 0 <= i < j < |a| :: a[i] != a[j]
      invariant forall s :: s in a <==> s in m.Keys - todo
      decreases todo
    {
      var k :| k in todo;
      assert k !in a;
      todo := todo - {k};
      a := a + [k];
    }
  }

  /** The distinct elements of the argument, each once. */
  method Unique(duplicated: seq<string>) returns (unique: seq<string>)
    ensures forall i, j | 0 <= i < j < |unique| :: unique[i] != unique[j]
    ensures forall s :: s in unique <==> s in duplicated
  {
    var m := CreateMapFromArrays([duplicated]);
    unique := CreateArray(m);
    assert forall s :: s in m <==> s in [duplicated][0];
  }

  // ---------------------------------------------------------------- one call or many

  /** Splitting the argument splits the keys of the answer, and a key never gets two different values. */
  ghost predicate Distributes(f: Items -> Items) {
    && f(map[]) == map[]
    && (forall a: Items, b: Items | a.Keys !! b.Keys :: f(a + b).Keys == f(a).Keys + f(b).Keys)
    && (forall a: Items, b: Items, k | k in f(a) && k in f(b) :: f(a)[k] == f(b)[k])
  }

  lemma {:induction false} DistributesOverSplit(f: Items -> Items, chunks: seq<Items>, k: string) returns (i: nat)
    requires Distributes(f) && Apart(chunks)
    ensures k in f(Union(chunks)) ==> i < |chunks| && k in f(chunks[i])
  {
    if chunks == [] {
      return 0;
    }
    var init, last := chunks[..|chunks| - 1], chunks[|chunks| - 1];
    assert f(Union(init) + last).Keys == f(Union(init)).Keys + f(last).Keys;
    if k in f(last) {
      i := |init|;
    } else {
      i := DistributesOverSplit(f, init, k);
    }
  }

  lemma AnswerGrows(f: Items -> Items, part: Items, whole: Items)
    requires Distributes(f) && part.Keys <= whole.Keys && forall k | k in part :: part[k] == whole[k]
    ensures AgreesWith(f(part), f(whole))
  {
    var rest := whole - part.Keys;
    assert part + rest == whole;
    assert f(part + rest).Keys == f(part).Keys + f(rest).Keys;
  }

  /** The chunks were processed by `f`, except those that failed. */
  ghost predicate Processes(c: Config, f: Items -> Items, chunks: seq<Items>) {
    && |c.outcomes| == |chunks|
    && forall i | 0 <= i < |chunks| :: c.outcomes[i].Values? ==> c.outcomes[i].values == f(chunks[i])
  }

  lemma MergedIsPartOfAnswer(chunks: seq<Items>, f: Items -> Items, c: Config, r: Items)
    requires Apart(chunks) && Distributes(f) && Processes(c, f, chunks)
    requires forall k | k in r :: exists w :: w in Successes(c) && k in c.outcomes[w].values && r[k] == c.outcomes[w].values[k]
    ensures AgreesWith(r, f(Union(chunks)))
  {
    forall k | k in r ensures k in f(Union(chunks)) && r[k] == f(Union(chunks))[k] {
      var w :| w in Successes(c) && k in c.outcomes[w].values && r[k] == c.outcomes[w].values[k];
      PieceOfUnion(chunks, w);
      AnswerGrows(f, chunks[w], Union(chunks));
    }
  }

  lemma AllSucceededMeansWhole(chunks: seq<Items>, f: Items -> Items, c: Config, r: Items)
    requires Apart(chunks) && Distributes(f) && Processes(c, f, chunks)
    requires AgreesWith(r, f(Union(chunks)))
    requires forall i | 0 <= i < |c.outcomes| :: c.outcomes[i].Values?
    requires forall w, k | w in Successes(c) && k in c.outcomes[w].values :: k in r
    ensures r == f(Union(chunks))
  {
    forall k | k in f(Union(chunks)) ensures k in r {
      var i := DistributesOverSplit(f, chunks, k);
      assert i in Successes(c);
    }
    assert r.Keys == f(Union(chunks)).Keys;
  }

  /**
   Batching preserves meaning. For every batch size, map order, worker count and schedule: when no chunk fails, the
   concurrent batches return what one call on all the items would; when some fail, every failure is reported
   and what was merged is a part of that answer.
   */
  lemma ConcurrentBatchesRefineOneCall(
      items: Items, chunks: seq<Items>, batchSize: int, f: Items -> Items, c: Config, run: seq<Step>)
    requires IsSplit(items, chunks, batchSize) && Distributes(f) && Processes(c, f, chunks)
    requires IsRun(c, run) && After(c, run).main == Returned
    ensures After(c, run).errs == [] ==> After(c, run).result == f(items)
    ensures After(c, run).errs == [] <==> forall i | 0 <= i < |c.outcomes| :: c.outcomes[i].Values?
    ensures AgreesWith(After(c, run).result, f(items))
  {
    SafeOnReturn(c, run);
    ResultOnReturn(c, run);
    ErrorsTellFailures(c, After(c, run).errs);
    MergedIsPartOfAnswer(chunks, f, c, After(c, run).result);
    if After(c, run).errs == [] {
      AllSucceededMeansWhole(chunks, f, c, After(c, run).result);
    }
  }

  lemma ErrorsTellFailures(c: Config, errs: seq<nat>)
    requires Enumerates(errs, Failures(c, |c.outcomes|))
    ensures errs == [] <==> forall i | 0 <= i < |c.outcomes| :: c.outcomes[i].Values?
  {
    if errs != [] {
      assert errs[0] in Failures(c, |c.outcomes|);
    } else {
      forall i: nat | i < |c.outcomes| ensures c.outcomes[i].Values? {
        assert i !in errs;
      }
    }
  }
}
