/** What inserting a batch of observations guarantees, whatever was in the graph before. */
module UpsertProperties {
  import opened Options
  import opened StatementText
  import opened ObservationUpsert
  import Strings

  /** The vertices a batch stands for, by id. */
  ghost function BatchVertices(instanceID: string, rows: seq<Row>): map<string, Vertex> {
    if rows == [] then map[]
    else
      var last := rows[|rows| - 1];
      BatchVertices(instanceID, rows[..|rows| - 1])
        [ObservationId(instanceID, last.rowIndex) := Vertex(Kind(instanceID), last.text)]
  }

  ghost function Kept(g: Graph, ids: seq<string>): map<string, Vertex> {
    map id | id in g.vertices && id !in ids :: g.vertices[id]
  }

  /** The graph with the batch's observations replaced by exactly the batch, and nothing else touched. */
  ghost function Upserted(g: Graph, instanceID: string, rows: seq<Row>): Graph {
    var ids := Ids(instanceID, rows);
    Graph(Kept(g, ids) + BatchVertices(instanceID, rows), WithoutEdges(g.edges, ids) + NewEdges(instanceID, rows))
  }

  ghost predicate DistinctRows(rows: seq<Row>) {
    forall i, j | 0 <= i < j < |rows| :: rows[i].rowIndex != rows[j].rowIndex
  }

  ghost predicate NoBackslash(rows: seq<Row>) { forall i | 0 <= i < |rows| :: BACKSLASH !in rows[i].text }

  // ---------------------------------------------------------------- the statement

  lemma Associative(a: string, b: string, c: string)
    ensures a + (b + c) == (a + b) + c
  {
  }

  lemma {:induction false} PartsAppend(vs: seq<NewVertex>, v: NewVertex)
    ensures Parts(vs + [v]) == Parts(vs) + Part(v.kind, v.id, EscapeSingleQuotes(v.row))
  {
    if vs == [] {
      assert (vs + [v])[1..] == [];
      assert Parts(vs + [v]) == Part(v.kind, v.id, EscapeSingleQuotes(v.row)) + Parts([]);
    } else {
      PartsAppend(vs[1..], v);
      assert (vs + [v])[1..] == vs[1..] + [v] && (vs + [v])[0] == vs[0];
      Associative(Part(vs[0].kind, vs[0].id, EscapeSingleQuotes(vs[0].row)), Parts(vs[1..]),
                  Part(v.kind, v.id, EscapeSingleQuotes(v.row)));
    }
  }

  lemma StatementAppend(vs: seq<NewVertex>, v: NewVertex)
    ensures Statement(vs + [v]) == Statement(vs) + Part(v.kind, v.id, EscapeSingleQuotes(v.row))
  {
    PartsAppend(vs, v);
    Associative("g", Parts(vs), Part(v.kind, v.id, EscapeSingleQuotes(v.row)));
  }

  lemma TextAppend(kind: string, ids: seq<string>, texts: seq<string>, id: string, text: string)
    requires |ids| == |texts|
    ensures AddText(kind, ids + [id], texts + [text]) == AddText(kind, ids, texts) + Part(kind, id, text)
  {
    assert (ids + [id])[..|ids|] == ids && (texts + [text])[..|ids|] == texts;
  }

  lemma {:induction false} TextIsStatement(instanceID: string, rows: seq<Row>)
    ensures AddText(Kind(instanceID), Ids(instanceID, rows), Texts(rows)) == Statement(NewVertices(instanceID, rows))
  {
    if rows != [] {
      var init, last := rows[..|rows| - 1], rows[|rows| - 1];
      var id := ObservationId(instanceID, last.rowIndex);
      TextIsStatement(instanceID, init);
      StatementAppend(NewVertices(instanceID, init), NewVertex(Kind(instanceID), id, last.text));
      TextAppend(Kind(instanceID), Ids(instanceID, init), Texts(init), id, EscapeSingleQuotes(last.text));
    }
  }

  lemma PlainIds(instanceID: string, n: int)
    requires Plain(instanceID)
    ensures Plain(Kind(instanceID)) && Plain(ObservationId(instanceID, n))
  {
    Strings.NaturalDigits(if n < 0 then -n else n);
    assert Plain("_") && Plain("_observation") && Plain("_observation_") && Plain(Strings.Decimal(n));
  }

  lemma {:induction false} RowOfVertex(instanceID: string, rows: seq<Row>, i: nat)
    requires i < |rows|
    ensures |NewVertices(instanceID, rows)| == |rows|
    ensures NewVertices(instanceID, rows)[i] ==
            NewVertex(Kind(instanceID), ObservationId(instanceID, rows[i].rowIndex), rows[i].text)
  {
    if i < |rows| - 1 {
      RowOfVertex(instanceID, rows[..|rows| - 1], i);
    } else if i > 0 {
      RowOfVertex(instanceID, rows[..|rows| - 1], 0);
    }
  }

  lemma BackslashInVertices(instanceID: string, rows: seq<Row>)
    ensures (forall v <- NewVertices(instanceID, rows) :: BACKSLASH !in v.row) <==> NoBackslash(rows)
  {
    var vs := NewVertices(instanceID, rows);
    if rows != [] {
      RowOfVertex(instanceID, rows, 0);
    }
    forall i | 0 <= i < |rows| ensures |vs| == |rows| && vs[i] in vs && vs[i].row == rows[i].text {
      RowOfVertex(instanceID, rows, i);
    }
  }

  ghost function Read(instanceID: string, rows: seq<Row>): Option<seq<NewVertex>> {
    ParseStatement(AddText(Kind(instanceID), Ids(instanceID, rows), Texts(rows)))
  }

  ghost predicate AllUnderstood(rows: seq<Row>) { forall i | 0 <= i < |rows| :: Understood(rows[i].text).Some? }

  /** The rows as the database understands them, if it does. */
  ghost function UnderstoodRows(rows: seq<Row>): (read: seq<Row>)
    ensures |read| == |rows|
    ensures forall i | 0 <= i < |rows| :: read[i] == UnderstoodRow(rows[i])
  {
    seq(|rows|, i requires 0 <= i < |rows| => UnderstoodRow(rows[i]))
  }

  ghost function UnderstoodRow(row: Row): Row {
    match Understood(row.text) case Some(text) => row.(text := text) case None => row
  }

  lemma {:induction false} LabelledVertices(instanceID: string, rows: seq<Row>)
    requires Plain(instanceID)
    ensures forall v <- NewVertices(instanceID, rows) :: Labelled(v)
  {
    if rows != [] {
      LabelledVertices(instanceID, rows[..|rows| - 1]);
      PlainIds(instanceID, rows[|rows| - 1].rowIndex);
    }
  }

  lemma VerticesUnderstood(instanceID: string, rows: seq<Row>)
    requires AllUnderstood(rows)
    ensures AsUnderstood(NewVertices(instanceID, rows)) == Some(NewVertices(instanceID, UnderstoodRows(rows)))
  {
    var vs, read := NewVertices(instanceID, rows), NewVertices(instanceID, UnderstoodRows(rows));
    VerticesCount(instanceID, rows);
    VerticesCount(instanceID, UnderstoodRows(rows));
    forall i | 0 <= i < |vs| ensures Understood(vs[i].row).Some? {
      RowOfVertex(instanceID, rows, i);
    }
    UnderstoodIfAll(vs);
    var found := AsUnderstood(vs).value;
    if vs != [] {
      UnderstoodAt(vs, 0);
      forall i | 0 <= i < |vs| ensures found[i] == read[i] {
        UnderstoodAt(vs, i);
        RowOfVertex(instanceID, rows, i);
        RowOfVertex(instanceID, UnderstoodRows(rows), i);
      }
    }
    assert found == read;
  }

  /** What the database reads, for all rows: the vertices that are meant with the rows it understands, or nothing. */
  lemma BatchIsRead(instanceID: string, rows: seq<Row>)
    requires Plain(instanceID)
    ensures Read(instanceID, rows) == if AllUnderstood(rows) then Some(NewVertices(instanceID, UnderstoodRows(rows))) else None
  {
    var vs := NewVertices(instanceID, rows);
    TextIsStatement(instanceID, rows);
    LabelledVertices(instanceID, rows);
    StatementIsRead(vs);
    if AllUnderstood(rows) {
      VerticesUnderstood(instanceID, rows);
    } else {
      var i :| 0 <= i < |rows| && Understood(rows[i].text) == None;
      RowOfVertex(instanceID, rows, i);
      UnderstoodAt(vs, i);
    }
  }

  /** The database reads the batch it was meant to read if and only if no row has a backslash. */
  lemma BatchIsReadIff(instanceID: string, rows: seq<Row>)
    requires Plain(instanceID)
    ensures NoBackslash(rows) <==> Read(instanceID, rows) == Some(NewVertices(instanceID, rows))
  {
    TextIsStatement(instanceID, rows);
    LabelledVertices(instanceID, rows);
    BackslashInVertices(instanceID, rows);
    StatementReadsBackIff(NewVertices(instanceID, rows));
  }

  lemma {:induction false} VerticesCount(instanceID: string, rows: seq<Row>)
    ensures |NewVertices(instanceID, rows)| == |rows|
  {
    if rows != [] {
      VerticesCount(instanceID, rows[..|rows| - 1]);
    }
  }

  // ---------------------------------------------------------------- clearing

  lemma {:induction false} ExistingIds(g: Graph, ids: seq<string>, id: string)
    ensures id in Existing(g, ids) <==> id in ids && id in g.vertices
  {
    if ids != [] {
      ExistingIds(g, ids[..|ids| - 1], id);
      assert id in ids <==> id in ids[..|ids| - 1] || id == ids[|ids| - 1];
    }
  }

  lemma {:induction false} SameFilter(edges: seq<Edge>, a: seq<string>, b: seq<string>)
    requires forall e <- edges :: Incident(e, a) == Incident(e, b)
    ensures WithoutEdges(edges, a) == WithoutEdges(edges, b)
  {
    if edges != [] {
      SameFilter(edges[..|edges| - 1], a, b);
    }
  }

  lemma {:induction false} NothingToFilter(edges: seq<Edge>, ids: seq<string>)
    requires forall e <- edges :: !Incident(e, ids)
    ensures WithoutEdges(edges, ids) == edges
  {
    if edges != [] {
      var init, last := edges[..|edges| - 1], edges[|edges| - 1];
      assert last in edges && edges == init + [last];
      NothingToFilter(init, ids);
    }
  }

  /** Edges at one of the vertices are dropped, and all others are kept as often as they were there. */
  lemma {:induction false} FilterCounts(edges: seq<Edge>, ids: seq<string>, e: Edge)
    ensures multiset(WithoutEdges(edges, ids))[e] == if e.src in ids || e.dst in ids then 0 else multiset(edges)[e]
  {
    if edges != [] {
      var init, last := edges[..|edges| - 1], edges[|edges| - 1];
      FilterCounts(init, ids, e);
      assert edges == init + [last];
    }
  }

  ghost predicate EdgeCleared(g: Graph, ids: seq<string>, e: Edge) {
    multiset(Cleared(g, ids).edges)[e] == if e.src in ids || e.dst in ids then 0 else multiset(g.edges)[e]
  }

  lemma ClearedIs(g: Graph, ids: seq<string>)
    requires WellFormed(g)
    ensures Cleared(g, ids) == Graph(Kept(g, ids), WithoutEdges(g.edges, ids))
  {
    var existing := Existing(g, ids);
    forall id ensures id in existing <==> id in ids && id in g.vertices {
      ExistingIds(g, ids, id);
    }
    SameFilter(g.edges, existing, ids);
    if existing == [] {
      NothingToFilter(g.edges, existing);
      assert Kept(g, ids) == g.vertices;
    } else {
      assert Removed(g, existing).vertices == Kept(g, ids);
    }
  }

  /** Afterwards none of the vertices is there and no edge at them, and everything else is as it was. */
  lemma ClearedExactly(g: Graph, ids: seq<string>)
    requires WellFormed(g)
    ensures var after := Cleared(g, ids);
      && (forall id :: id in after.vertices <==> id in g.vertices && id !in ids)
      && (forall id | id in after.vertices :: after.vertices[id] == g.vertices[id])
      && (forall e :: EdgeCleared(g, ids, e))
  {
    ClearedIs(g, ids);
    forall e ensures EdgeCleared(g, ids, e) {
      FilterCounts(g.edges, ids, e);
    }
  }

  // ---------------------------------------------------------------- adding the vertices

  lemma {:induction false} BatchIds(instanceID: string, rows: seq<Row>)
    ensures forall id :: id in BatchVertices(instanceID, rows) <==> id in Ids(instanceID, rows)
  {
    if rows != [] {
      BatchIds(instanceID, rows[..|rows| - 1]);
    }
  }

  lemma {:induction false} VerticesAdded(h: Graph, instanceID: string, rows: seq<Row>)
    requires DistinctRows(rows) && forall id <- Ids(instanceID, rows) :: id !in h.vertices
    ensures WithVertices(h, NewVertices(instanceID, rows)) == Some(h.(vertices := h.vertices + BatchVertices(instanceID, rows)))
  {
    if rows == [] {
      assert h.vertices + map[] == h.vertices;
    } else {
      var n := |rows| - 1;
      var init, last := rows[..n], rows[n];
      forall id <- Ids(instanceID, init) ensures id !in h.vertices {
        assert id in Ids(instanceID, rows);
      }
      VerticesAdded(h, instanceID, init);
      var id := ObservationId(instanceID, last.rowIndex);
      assert Ids(instanceID, rows)[n] == id;
      NewIdIsUnused(instanceID, init, last.rowIndex);
      BatchIds(instanceID, init);
      var vs := NewVertices(instanceID, rows);
      assert vs[..|vs| - 1] == NewVertices(instanceID, init);
      AddLast(h.vertices, BatchVertices(instanceID, init), id, Vertex(Kind(instanceID), last.text));
    }
  }

  lemma AddLast(a: map<string, Vertex>, b: map<string, Vertex>, id: string, v: Vertex)
    ensures a + b[id := v] == (a + b)[id := v]
  {
  }

  lemma NewIdIsUnused(instanceID: string, rows: seq<Row>, n: int)
    requires forall i | 0 <= i < |rows| :: rows[i].rowIndex != n
    ensures ObservationId(instanceID, n) !in Ids(instanceID, rows)
  {
    var ids := Ids(instanceID, rows);
    forall i | 0 <= i < |ids| ensures ids[i] != ObservationId(instanceID, n) {
      IdsAt(instanceID, rows, i);
      IdsDiffer(instanceID, rows[i].rowIndex, n);
    }
  }

  // ---------------------------------------------------------------- adding the edges

  lemma {:induction false} EdgeEnds(instanceID: string, id: string, options: seq<DimensionOption>)
    ensures forall e <- EdgesOf(instanceID, id, options) :: e.src == id
  {
    if options != [] {
      EdgeEnds(instanceID, id, options[..|options| - 1]);
    }
  }

  lemma {:induction false} EdgeSources(instanceID: string, rows: seq<Row>)
    ensures forall e <- NewEdges(instanceID, rows) :: e.src in Ids(instanceID, rows)
  {
    if rows != [] {
      var last := rows[|rows| - 1];
      EdgeSources(instanceID, rows[..|rows| - 1]);
      EdgeEnds(instanceID, ObservationId(instanceID, last.rowIndex), last.options);
    }
  }

  lemma {:induction false} WholeWalk(g: Graph, es: seq<Edge>)
    requires forall e <- es :: e.src in g.vertices
    ensures Walk(g, es) == es
  {
    if es != [] {
      WholeWalk(g, es[1..]);
    }
  }

  /** Every dimension vertex the batch refers to is there once the vertices have been added. */
  ghost predicate DimensionsPresent(g: Graph, instanceID: string, rows: seq<Row>) {
    forall d | IsReferredTo(instanceID, rows, d) :: d in g.vertices || d in Ids(instanceID, rows)
  }

  /** It is the vertex of some option of some row. */
  ghost predicate IsReferredTo(instanceID: string, rows: seq<Row>, d: string) {
    exists row, option :: row in rows && option in row.options && d == DimensionId(instanceID, option)
  }

  lemma {:induction false} MoreDimensions(dims: seq<string>, instanceID: string, options: seq<DimensionOption>)
    ensures forall d :: d in AddDimensions(dims, instanceID, options)
                        <==> d in dims || exists option :: option in options && d == DimensionId(instanceID, option)
    ensures EachOnce(dims) ==> EachOnce(AddDimensions(dims, instanceID, options))
  {
    if options != [] {
      var init, last := options[..|options| - 1], options[|options| - 1];
      MoreDimensions(dims, instanceID, init);
      assert forall option :: option in options <==> option in init || option == last;
    }
  }

  ghost predicate EachOnce(dims: seq<string>) { forall i, j | 0 <= i < j < |dims| :: dims[i] != dims[j] }

  /** Exactly those vertices are looked up, each of them once. */
  lemma {:induction false} DimensionsAre(instanceID: string, rows: seq<Row>)
    ensures forall d :: d in Dimensions(instanceID, rows) <==> IsReferredTo(instanceID, rows, d)
    ensures EachOnce(Dimensions(instanceID, rows))
  {
    if rows != [] {
      var init, last := rows[..|rows| - 1], rows[|rows| - 1];
      DimensionsAre(instanceID, init);
      MoreDimensions(Dimensions(instanceID, init), instanceID, last.options);
      assert forall row :: row in rows <==> row in init || row == last;
    }
  }

  lemma PresentIff(g: Graph, instanceID: string, rows: seq<Row>)
    ensures DimensionsPresent(g, instanceID, rows)
            <==> forall d <- Dimensions(instanceID, rows) :: d in g.vertices || d in Ids(instanceID, rows)
  {
    DimensionsAre(instanceID, rows);
  }

  // ---------------------------------------------------------------- the upsert

  /** Adding the vertices that are meant to the graph without the old ones. */
  lemma MeantVerticesAdded(g: Graph, instanceID: string, rows: seq<Row>)
    requires WellFormed(g) && DistinctRows(rows)
    ensures WithVertices(Cleared(g, Ids(instanceID, rows)), NewVertices(instanceID, rows))
            == Some(Graph(Upserted(g, instanceID, rows).vertices, WithoutEdges(g.edges, Ids(instanceID, rows))))
  {
    ClearedIs(g, Ids(instanceID, rows));
    VerticesAdded(Cleared(g, Ids(instanceID, rows)), instanceID, rows);
  }

  lemma {:induction false} RepeatedIdFails(h: Graph, vs: seq<NewVertex>, i: nat, j: nat)
    requires i < j < |vs| && vs[i].id == vs[j].id
    ensures WithVertices(h, vs) == None
  {
    var init := vs[..|vs| - 1];
    if j < |init| {
      RepeatedIdFails(h, init, i, j);
    } else if WithVertices(h, init).Some? {
      AddedStays(h, init, i);
    }
  }

  lemma {:induction false} AddedStays(h: Graph, vs: seq<NewVertex>, i: nat)
    requires i < |vs| && WithVertices(h, vs).Some?
    ensures vs[i].id in WithVertices(h, vs).value.vertices
  {
    if i < |vs| - 1 {
      AddedStays(h, vs[..|vs| - 1], i);
    }
  }

  lemma RepeatedIndexFails(h: Graph, instanceID: string, rows: seq<Row>)
    requires !DistinctRows(rows)
    ensures WithVertices(h, NewVertices(instanceID, rows)) == None
  {
    var i, j :| 0 <= i < j < |rows| && rows[i].rowIndex == rows[j].rowIndex;
    VerticesCount(instanceID, rows);
    RowOfVertex(instanceID, rows, i);
    RowOfVertex(instanceID, rows, j);
    RepeatedIdFails(h, NewVertices(instanceID, rows), i, j);
  }

  /** The first two requests, for all rows. */
  lemma NodesAddedIs(g: Graph, instanceID: string, rows: seq<Row>)
    requires WellFormed(g) && Plain(instanceID)
    ensures NodesAdded(g, instanceID, rows)
            == if DistinctRows(rows) && AllUnderstood(rows)
               then Some(Graph(Upserted(g, instanceID, UnderstoodRows(rows)).vertices, WithoutEdges(g.edges, Ids(instanceID, rows))))
               else None
  {
    var read := UnderstoodRows(rows);
    BatchIsRead(instanceID, rows);
    SameBatch(instanceID, rows, read);
    if DistinctRows(rows) {
      MeantVerticesAdded(g, instanceID, read);
    } else {
      var i, j :| 0 <= i < j < |rows| && rows[i].rowIndex == rows[j].rowIndex;
      assert read[i].rowIndex == read[j].rowIndex;
      RepeatedIndexFails(Cleared(g, Ids(instanceID, rows)), instanceID, read);
    }
  }

  /** An insert can succeed if and only if no row index is repeated and each row is understood, whatever is looked up. */
  lemma AddedIff(g: Graph, instanceID: string, rows: seq<Row>)
    requires WellFormed(g) && Plain(instanceID)
    ensures NodesAdded(g, instanceID, rows).Some? <==> DistinctRows(rows) && AllUnderstood(rows)
    ensures forall dims :: InsertedWith(g, instanceID, rows, dims).Some? <==> DistinctRows(rows) && AllUnderstood(rows)
  {
    NodesAddedIs(g, instanceID, rows);
  }

  lemma {:induction false} SameBatch(instanceID: string, given: seq<Row>, meant: seq<Row>)
    requires SameButText(given, meant)
    ensures Ids(instanceID, given) == Ids(instanceID, meant)
    ensures Dimensions(instanceID, given) == Dimensions(instanceID, meant)
    ensures NewEdges(instanceID, given) == NewEdges(instanceID, meant)
  {
    if given != [] {
      SameBatch(instanceID, given[..|given| - 1], meant[..|meant| - 1]);
    }
  }

  ghost predicate SameButText(given: seq<Row>, meant: seq<Row>) {
    |given| == |meant| && forall i | 0 <= i < |given| ::
      given[i].rowIndex == meant[i].rowIndex && given[i].options == meant[i].options
  }

  lemma {:induction false} DimensionsNeedEdges(instanceID: string, rows: seq<Row>)
    ensures Dimensions(instanceID, rows) != [] ==> NewEdges(instanceID, rows) != []
  {
    if rows != [] {
      DimensionsNeedEdges(instanceID, rows[..|rows| - 1]);
    }
  }

  /** Once the vertices are there, the edges are added exactly if every dimension vertex is there, and otherwise none. */
  lemma EdgesAddedIff(g: Graph, instanceID: string, rows: seq<Row>, h: Graph)
    requires h == Graph(Upserted(g, instanceID, rows).vertices, WithoutEdges(g.edges, Ids(instanceID, rows)))
    ensures var now := WithEdges(h, Dimensions(instanceID, rows), NewEdges(instanceID, rows));
      && (DimensionsPresent(g, instanceID, rows) <==> now == Upserted(g, instanceID, rows))
      && (!DimensionsPresent(g, instanceID, rows) ==> now == h)
  {
    BatchIds(instanceID, rows);
    EdgeSources(instanceID, rows);
    WholeWalk(h, NewEdges(instanceID, rows));
    NoEdgesDiffer(g, instanceID, rows);
    PresentIff(g, instanceID, rows);
    assert forall d :: d in h.vertices <==> d in g.vertices || d in Ids(instanceID, rows);
  }

  /** The upsert; without the dimension vertices no edge is added. */
  ghost function Stored(g: Graph, instanceID: string, rows: seq<Row>, present: bool): Graph {
    var full := Upserted(g, instanceID, rows);
    if present then full else Graph(full.vertices, WithoutEdges(g.edges, Ids(instanceID, rows)))
  }

  /** When an insert succeeds and what it leaves, for all rows. */
  lemma InsertedExactly(g: Graph, instanceID: string, rows: seq<Row>)
    requires WellFormed(g) && Plain(instanceID)
    ensures Inserted(g, instanceID, rows)
            == if DistinctRows(rows) && AllUnderstood(rows)
               then Some(Stored(g, instanceID, UnderstoodRows(rows), DimensionsPresent(g, instanceID, rows)))
               else None
  {
    var read := UnderstoodRows(rows);
    NodesAddedIs(g, instanceID, rows);
    SameBatch(instanceID, rows, read);
    if DistinctRows(rows) && AllUnderstood(rows) {
      EdgesAddedIff(g, instanceID, read, NodesAdded(g, instanceID, rows).value);
    }
  }

  /** Each of the rows that are given is read as the one that is meant. */
  ghost predicate AllRowsRead(given: seq<Row>, meant: seq<Row>)
    requires |given| == |meant|
  {
    forall i | 0 <= i < |given| :: Understood(given[i].text) == Some(meant[i].text)
  }

  /** A vertex with another row makes it another graph. */
  lemma OtherRowsDiffer(g: Graph, instanceID: string, read: seq<Row>, meant: seq<Row>, i: nat)
    requires SameButText(read, meant) && DistinctRows(meant) && i < |meant| && read[i].text != meant[i].text
    ensures Upserted(g, instanceID, read).vertices != Upserted(g, instanceID, meant).vertices
  {
    assert DistinctRows(read);
    BatchVertexAt(instanceID, read, i);
    BatchVertexAt(instanceID, meant, i);
    var id := ObservationId(instanceID, meant[i].rowIndex);
    assert Upserted(g, instanceID, read).vertices[id] != Upserted(g, instanceID, meant).vertices[id];
  }

  /** Whatever rows are given for the ones that are meant, the batch is stored as meant exactly if all are read so. */
  lemma InsertedReadsIff(g: Graph, instanceID: string, given: seq<Row>, meant: seq<Row>)
    requires WellFormed(g) && Plain(instanceID) && DistinctRows(meant) && SameButText(given, meant)
    ensures Inserted(g, instanceID, given) == Some(Upserted(g, instanceID, meant))
            <==> AllRowsRead(given, meant) && DimensionsPresent(g, instanceID, meant)
    ensures AllRowsRead(given, meant) ==> Inserted(g, instanceID, given).Some?
    ensures AllRowsRead(given, meant) && !DimensionsPresent(g, instanceID, meant) ==>
      Inserted(g, instanceID, given).value.edges == WithoutEdges(g.edges, Ids(instanceID, meant))
  {
    InsertedFor(g, instanceID, given, meant);
    if AllRowsRead(given, meant) {
      ReadAsMeant(given, meant);
      NoEdgesDiffer(g, instanceID, meant);
    } else if AllUnderstood(given) {
      OtherRowsRead(g, instanceID, given, meant);
    }
  }

  lemma ReadAsMeant(given: seq<Row>, meant: seq<Row>)
    requires SameButText(given, meant) && AllRowsRead(given, meant)
    ensures UnderstoodRows(given) == meant && AllUnderstood(given)
  {
  }

  lemma InsertedFor(g: Graph, instanceID: string, given: seq<Row>, meant: seq<Row>)
    requires WellFormed(g) && Plain(instanceID) && DistinctRows(meant) && SameButText(given, meant)
    ensures Inserted(g, instanceID, given)
            == if AllUnderstood(given)
               then Some(Stored(g, instanceID, UnderstoodRows(given), DimensionsPresent(g, instanceID, meant)))
               else None
  {
    var read := UnderstoodRows(given);
    SameBatch(instanceID, given, meant);
    SameBatch(instanceID, read, meant);
    InsertedExactly(g, instanceID, given);
    PresentIff(g, instanceID, given);
    PresentIff(g, instanceID, meant);
    assert DistinctRows(given);
  }


  lemma NoEdgesDiffer(g: Graph, instanceID: string, rows: seq<Row>)
    ensures !DimensionsPresent(g, instanceID, rows) ==>
      Upserted(g, instanceID, rows).edges != WithoutEdges(g.edges, Ids(instanceID, rows))
  {
    DimensionsNeedEdges(instanceID, rows);
    PresentIff(g, instanceID, rows);
    assert |Upserted(g, instanceID, rows).edges|
        == |WithoutEdges(g.edges, Ids(instanceID, rows))| + |NewEdges(instanceID, rows)|;
  }

  lemma OtherRowsRead(g: Graph, instanceID: string, given: seq<Row>, meant: seq<Row>)
    requires DistinctRows(meant) && SameButText(given, meant) && AllUnderstood(given) && !AllRowsRead(given, meant)
    ensures Upserted(g, instanceID, UnderstoodRows(given)).vertices != Upserted(g, instanceID, meant).vertices
  {
    var i :| 0 <= i < |given| && Understood(given[i].text) != Some(meant[i].text);
    OtherRowsDiffer(g, instanceID, UnderstoodRows(given), meant, i);
  }

  /**
   The result is exactly the upsert if and only if no row has a backslash and every dimension vertex is there. If only a
   dimension vertex is missing no request fails, but no edge of the batch is added.
   */
  lemma InsertedIs(g: Graph, instanceID: string, rows: seq<Row>)
    requires WellFormed(g) && Plain(instanceID) && DistinctRows(rows)
    ensures Inserted(g, instanceID, rows) == Some(Upserted(g, instanceID, rows))
            <==> NoBackslash(rows) && DimensionsPresent(g, instanceID, rows)
    ensures NoBackslash(rows) ==> Inserted(g, instanceID, rows).Some?
    ensures NoBackslash(rows) && !DimensionsPresent(g, instanceID, rows) ==>
      Inserted(g, instanceID, rows).value.edges == WithoutEdges(g.edges, Ids(instanceID, rows))
  {
    forall i | 0 <= i < |rows| ensures Understood(rows[i].text) == Some(rows[i].text) <==> BACKSLASH !in rows[i].text {
      RowSurvivesIff(rows[i].text, "");
    }
    InsertedReadsIff(g, instanceID, rows, rows);
  }

  // ---------------------------------------------------------------- one attempt after another

  /** What the rows of a batch are after `n` attempts. */
  ghost function EscapedRows(rows: seq<Row>, n: nat): (given: seq<Row>)
    ensures |given| == |rows|
    ensures forall i | 0 <= i < |rows| :: given[i] == rows[i].(text := EscapeTimes(rows[i].text, n))
  {
    seq(|rows|, i requires 0 <= i < |rows| => rows[i].(text := EscapeTimes(rows[i].text, n)))
  }

  /** Attempt number n + 1 leaves the caller's observations with these rows. */
  lemma RowsAfterAttempt(observations: seq<Observation>, rows: seq<Row>, n: nat)
    requires |rows| == |observations| && DistinctRows(rows) && Escaped(observations, EscapedRows(rows, n))
    requires forall i | 0 <= i < |rows| ::
      observations[i].rowIndex == rows[i].rowIndex && observations[i].options == rows[i].options
    ensures RowsOf(observations) == EscapedRows(rows, n + 1)
  {
    forall i | 0 <= i < |rows| ensures RowOf(observations[i]) == EscapedRows(rows, n + 1)[i] {
      InBatchOnce(observations, rows, i);
      EscapedOnce(observations, EscapedRows(rows, n), i);
    }
    SameRows(observations, EscapedRows(rows, n + 1));
  }

  lemma SameRows(observations: seq<Observation>, rows: seq<Row>)
    requires |rows| == |observations| && forall i | 0 <= i < |rows| :: RowOf(observations[i]) == rows[i]
    ensures RowsOf(observations) == rows
  {
  }

  lemma EscapedOnce(observations: seq<Observation>, given: seq<Row>, i: nat)
    requires i < |given| == |observations| && Escaped(observations, given) && multiset(observations)[observations[i]] == 1
    ensures observations[i].row == EscapeSingleQuotes(given[i].text)
  {
    assert observations[..|observations|] == observations;
    assert EscapeTimes(given[i].text, 1) == EscapeSingleQuotes(EscapeTimes(given[i].text, 0));
  }

  lemma InBatchOnce(observations: seq<Observation>, rows: seq<Row>, i: nat)
    requires i < |rows| == |observations| && DistinctRows(rows)
    requires forall j | 0 <= j < |rows| :: observations[j].rowIndex == rows[j].rowIndex
    ensures multiset(observations)[observations[i]] == 1
  {
    var o := observations[i];
    assert observations == observations[..i] + [o] + observations[i + 1..];
    assert forall j | 0 <= j < |observations| && j != i :: observations[j].rowIndex != o.rowIndex;
    assert o !in observations[..i] && o !in observations[i + 1..];
  }

  /** In a batch without repeated indexes what is sent is what the caller gave. */
  lemma DistinctAreSent(observations: seq<Observation>, rows: seq<Row>)
    requires |rows| == |observations| && DistinctRows(rows)
    requires forall i | 0 <= i < |rows| :: observations[i].rowIndex == rows[i].rowIndex
    ensures Sent(Given(observations, rows)) == rows
  {
    var given := Given(observations, rows);
    forall i | 0 <= i < |rows| ensures Sent(given)[i] == rows[i] {
      InBatchOnce(observations, rows, i);
      assert given[i] == rows[i];
      var k := LastIndex(given, given[i].rowIndex);
      assert given[k].rowIndex == rows[k].rowIndex && given[k].rowIndex == rows[i].rowIndex;
    }
  }

  ghost predicate AllCarry(rows: seq<Row>, n: nat) { forall i | 0 <= i < |rows| :: Carries(rows[i].text, n) }

  /**
   Attempt number n + 1 with the same observations, whose rows are escaped `n` times already, stores the batch as it was first
   meant if and only if in every row each quote has exactly `n` backslashes before it, there are no others, and every dimension
   vertex is there.
   */
  lemma AttemptIff(g: Graph, instanceID: string, rows: seq<Row>, n: nat)
    requires WellFormed(g) && Plain(instanceID) && DistinctRows(rows)
    ensures Inserted(g, instanceID, EscapedRows(rows, n)) == Some(Upserted(g, instanceID, rows))
            <==> AllCarry(rows, n) && DimensionsPresent(g, instanceID, rows)
  {
    EscapedAreRead(rows, n);
    InsertedReadsIff(g, instanceID, EscapedRows(rows, n), rows);
  }

  lemma EscapedAreRead(rows: seq<Row>, n: nat)
    ensures AllRowsRead(EscapedRows(rows, n), rows) <==> AllCarry(rows, n)
  {
    forall i | 0 <= i < |rows|
      ensures Understood(EscapedRows(rows, n)[i].text) == Some(rows[i].text) <==> Carries(rows[i].text, n)
    {
      UnderstoodIff(rows[i].text, n);
    }
  }

  // ---------------------------------------------------------------- nothing else changes, whatever was there

  /** The two graphs differ only in observations of the batch and edges at them. */
  ghost predicate SameOutside(a: Graph, b: Graph, ids: seq<string>) {
    Kept(a, ids) == Kept(b, ids) && WithoutEdges(a.edges, ids) == WithoutEdges(b.edges, ids)
  }

  lemma {:induction false} FilterSplits(a: seq<Edge>, b: seq<Edge>, ids: seq<string>)
    ensures WithoutEdges(a + b, ids) == WithoutEdges(a, ids) + WithoutEdges(b, ids)
  {
    if b == [] {
      assert a + b == a;
    } else {
      FilterSplits(a, b[..|b| - 1], ids);
      assert (a + b)[..|a + b| - 1] == a + b[..|b| - 1];
    }
  }

  lemma {:induction false} FilterAll(es: seq<Edge>, ids: seq<string>)
    requires forall e <- es :: Incident(e, ids)
    ensures WithoutEdges(es, ids) == []
  {
    if es != [] {
      FilterAll(es[..|es| - 1], ids);
    }
  }

  lemma {:induction false} FilterKeeps(edges: seq<Edge>, ids: seq<string>)
    ensures forall e <- WithoutEdges(edges, ids) :: e in edges && !Incident(e, ids)
  {
    if edges != [] {
      FilterKeeps(edges[..|edges| - 1], ids);
    }
  }

  lemma FilterTwice(edges: seq<Edge>, ids: seq<string>)
    ensures WithoutEdges(WithoutEdges(edges, ids), ids) == WithoutEdges(edges, ids)
  {
    FilterKeeps(edges, ids);
    NothingToFilter(WithoutEdges(edges, ids), ids);
  }

  /** Replacing the batch's vertices and adding edges at them changes nothing outside the batch. */
  lemma ReplacedIsSameOutside(g: Graph, ids: seq<string>, added: map<string, Vertex>, es: seq<Edge>)
    requires forall id | id in added :: id in ids
    requires forall e <- es :: Incident(e, ids)
    ensures SameOutside(g, Graph(Kept(g, ids) + added, WithoutEdges(g.edges, ids) + es), ids)
  {
    FilterSplits(WithoutEdges(g.edges, ids), es, ids);
    FilterTwice(g.edges, ids);
    FilterAll(es, ids);
    assert Kept(Graph(Kept(g, ids) + added, WithoutEdges(g.edges, ids) + es), ids) == Kept(g, ids);
  }

  lemma ReplacedIsWellFormed(g: Graph, ids: seq<string>, added: map<string, Vertex>)
    requires WellFormed(g)
    ensures WellFormed(Graph(Kept(g, ids) + added, WithoutEdges(g.edges, ids)))
  {
    FilterKeeps(g.edges, ids);
  }

  /** A failed attempt leaves a well-formed graph that is the same outside the batch, whatever the rows are. */
  lemma FailureStaysInside(was: Graph, instanceID: string, rows: seq<Row>, now: Graph)
    requires WellFormed(was) && Plain(instanceID) && LeftBehind(was, instanceID, rows, now)
    ensures WellFormed(now) && SameOutside(was, now, Ids(instanceID, rows))
  {
    var ids := Ids(instanceID, rows);
    NodesAddedIs(was, instanceID, rows);
    SameBatch(instanceID, rows, UnderstoodRows(rows));
    BatchIds(instanceID, UnderstoodRows(rows));
    ClearedStaysInside(was, ids);
    ReplacedVerticesOnly(was, ids, BatchVertices(instanceID, UnderstoodRows(rows)));
  }

  lemma ClearedStaysInside(g: Graph, ids: seq<string>)
    requires WellFormed(g)
    ensures WellFormed(Cleared(g, ids)) && SameOutside(g, Cleared(g, ids), ids)
  {
    ClearedIs(g, ids);
    assert Kept(g, ids) + map[] == Kept(g, ids);
    ReplacedVerticesOnly(g, ids, map[]);
  }

  lemma ReplacedVerticesOnly(g: Graph, ids: seq<string>, added: map<string, Vertex>)
    requires WellFormed(g) && forall id | id in added :: id in ids
    ensures var now := Graph(Kept(g, ids) + added, WithoutEdges(g.edges, ids)); WellFormed(now) && SameOutside(g, now, ids)
  {
    assert WithoutEdges(g.edges, ids) + [] == WithoutEdges(g.edges, ids);
    ReplacedIsWellFormed(g, ids, added);
    ReplacedIsSameOutside(g, ids, added, []);
  }

  /** So does a success, whatever the rows are and whichever dimension vertices are looked up. */
  lemma SuccessStaysInside(was: Graph, instanceID: string, rows: seq<Row>, dims: seq<string>, now: Graph)
    requires WellFormed(was) && Plain(instanceID) && InsertedWith(was, instanceID, rows, dims) == Some(now)
    ensures SameOutside(was, now, Ids(instanceID, rows))
    ensures (forall e <- NewEdges(instanceID, rows) :: e.dst in dims) ==> WellFormed(now)
  {
    var ids, es := Ids(instanceID, rows), NewEdges(instanceID, rows);
    var h := NodesAdded(was, instanceID, rows).value;
    FailureStaysInside(was, instanceID, rows, h);
    NodesAddedIs(was, instanceID, rows);
    SameBatch(instanceID, rows, UnderstoodRows(rows));
    BatchIds(instanceID, UnderstoodRows(rows));
    EdgeSources(instanceID, rows);
    WholeWalk(h, es);
    FilterSplits(h.edges, es, ids);
    FilterAll(es, ids);
    assert WithoutEdges(h.edges, ids) + [] == WithoutEdges(h.edges, ids);
  }

  lemma {:induction false} KnownBefore(dims: seq<string>, instanceID: string, options: seq<DimensionOption>)
    ensures forall d <- dims :: d in AddDimensions(dims, instanceID, options)
    ensures forall id, e | e in EdgesOf(instanceID, id, options) :: e.dst in AddDimensions(dims, instanceID, options)
  {
    if options != [] {
      KnownBefore(dims, instanceID, options[..|options| - 1]);
    }
  }

  /** Every dimension vertex that an edge of the batch leads to is looked up. */
  lemma {:induction false} EdgesLeadToDimensions(instanceID: string, rows: seq<Row>)
    ensures forall e <- NewEdges(instanceID, rows) :: e.dst in Dimensions(instanceID, rows)
  {
    if rows != [] {
      var init, last := rows[..|rows| - 1], rows[|rows| - 1];
      EdgesLeadToDimensions(instanceID, init);
      KnownBefore(Dimensions(instanceID, init), instanceID, last.options);
    }
  }

  /** What one attempt can leave. */
  ghost predicate Attempted(was: Graph, instanceID: string, rows: seq<Row>, now: Graph) {
    LeftBehind(was, instanceID, rows, now) || Inserted(was, instanceID, rows) == Some(now)
  }

  lemma AttemptStaysInside(was: Graph, instanceID: string, rows: seq<Row>, now: Graph)
    requires WellFormed(was) && Plain(instanceID) && Attempted(was, instanceID, rows, now)
    ensures WellFormed(now) && SameOutside(was, now, Ids(instanceID, rows))
  {
    if LeftBehind(was, instanceID, rows, now) {
      FailureStaysInside(was, instanceID, rows, now);
    } else {
      EdgesLeadToDimensions(instanceID, rows);
      SuccessStaysInside(was, instanceID, rows, Dimensions(instanceID, rows), now);
    }
  }

  /** What a call of InsertObservationBatch with these observations leaves when it is over; any batch that is not empty. */
  ghost predicate Called(
      was: Graph, instanceID: string, observations: seq<Observation>, rows: seq<Row>, now: Graph, ok: bool)
  {
    && |rows| == |observations| && (forall i | 0 <= i < |rows| :: observations[i].rowIndex == rows[i].rowIndex)
    && var sent := Sent(Given(observations, rows));
       if ok then InsertedWith(was, instanceID, sent, Dimensions(instanceID, rows)) == Some(now)
       else LeftBehind(was, instanceID, sent, now)
  }

  /** A call succeeds only without repeated indexes, and without them it is an attempt with the caller's rows. */
  lemma CallIsAttempt(
      was: Graph, instanceID: string, observations: seq<Observation>, rows: seq<Row>, now: Graph, ok: bool)
    requires WellFormed(was) && Plain(instanceID) && Called(was, instanceID, observations, rows, now, ok)
    ensures ok ==> DistinctRows(rows)
    ensures DistinctRows(rows) ==> Attempted(was, instanceID, rows, now)
  {
    var sent := Sent(Given(observations, rows));
    if ok {
      AddedIff(was, instanceID, sent);
      forall i, j | 0 <= i < j < |rows| ensures rows[i].rowIndex != rows[j].rowIndex {
        assert sent[i].rowIndex != sent[j].rowIndex;
      }
    }
    if DistinctRows(rows) {
      DistinctAreSent(observations, rows);
    }
  }

  /** Any call, also with repeated indexes or observations, changes nothing outside the batch. */
  lemma CallStaysInside(
      was: Graph, instanceID: string, observations: seq<Observation>, rows: seq<Row>, now: Graph, ok: bool)
    requires WellFormed(was) && Plain(instanceID) && Called(was, instanceID, observations, rows, now, ok)
    ensures WellFormed(now) && SameOutside(was, now, Ids(instanceID, rows))
  {
    var sent := Sent(Given(observations, rows));
    CallIsAttempt(was, instanceID, observations, rows, now, ok);
    if DistinctRows(rows) {
      AttemptStaysInside(was, instanceID, rows, now);
    } else {
      SameIds(instanceID, rows, sent);
      FailureStaysInside(was, instanceID, sent, now);
    }
  }

  /** Attempts with the same observations, one after the other; each may fail or succeed. */
  ghost predicate Attempts(gs: seq<Graph>, instanceID: string, rows: seq<Row>) {
    gs != [] && forall k: nat | k < |gs| - 1 :: Attempted(gs[k], instanceID, EscapedRows(rows, k), gs[k + 1])
  }

  lemma {:induction false} AttemptsStayInside(gs: seq<Graph>, instanceID: string, rows: seq<Row>)
    requires Attempts(gs, instanceID, rows) && WellFormed(gs[0]) && Plain(instanceID)
    ensures var now := gs[|gs| - 1]; WellFormed(now) && SameOutside(gs[0], now, Ids(instanceID, rows))
  {
    var k := |gs| - 2;
    if k >= 0 {
      AttemptsStayInside(gs[..k + 1], instanceID, rows);
      SameBatch(instanceID, EscapedRows(rows, k), rows);
      AttemptStaysInside(gs[k], instanceID, EscapedRows(rows, k), gs[k + 1]);
    }
  }

  /**
   The upsert. Start from any graph `now` that agrees with `was` outside the batch, and give any rows for those that are
   meant. The result is the batch as meant in place of its ids with everything else as it was, if and only if the rows are read
   as meant and every dimension vertex was there.
   */
  lemma InsertIsUpsert(was: Graph, now: Graph, instanceID: string, given: seq<Row>, meant: seq<Row>)
    requires WellFormed(now) && SameOutside(was, now, Ids(instanceID, meant))
    requires Plain(instanceID) && DistinctRows(meant) && SameButText(given, meant)
    ensures Inserted(now, instanceID, given) == Some(Upserted(was, instanceID, meant))
            <==> AllRowsRead(given, meant) && DimensionsPresent(was, instanceID, meant)
  {
    var ids := Ids(instanceID, meant);
    forall d | d !in ids ensures d in now.vertices <==> d in was.vertices {
      assert d in Kept(was, ids) <==> d in Kept(now, ids);
    }
    assert Upserted(now, instanceID, meant) == Upserted(was, instanceID, meant);
    InsertedReadsIff(now, instanceID, given, meant);
  }

  /**
   Over a whole history: after any number `n` of attempts, failed or not, the next one leaves exactly the batch as it was first
   meant in the graph as it first was if and only if each quote has exactly `n` backslashes before it, there are no others, and
   every dimension vertex was there.
   */
  lemma UpsertAfterAttempts(gs: seq<Graph>, instanceID: string, rows: seq<Row>)
    requires Attempts(gs, instanceID, rows) && WellFormed(gs[0]) && Plain(instanceID) && DistinctRows(rows)
    ensures var n := |gs| - 1;
      Inserted(gs[n], instanceID, EscapedRows(rows, n)) == Some(Upserted(gs[0], instanceID, rows))
      <==> AllCarry(rows, n) && DimensionsPresent(gs[0], instanceID, rows)
  {
    var n := |gs| - 1;
    AttemptsStayInside(gs, instanceID, rows);
    EscapedAreRead(rows, n);
    InsertIsUpsert(gs[0], gs[n], instanceID, EscapedRows(rows, n), rows);
  }

  /** In particular a success can be repeated. */
  lemma UpsertedIsSameOutside(was: Graph, instanceID: string, rows: seq<Row>)
    ensures SameOutside(was, Upserted(was, instanceID, rows), Ids(instanceID, rows))
  {
    BatchIds(instanceID, rows);
    EdgeSources(instanceID, rows);
    ReplacedIsSameOutside(was, Ids(instanceID, rows), BatchVertices(instanceID, rows), NewEdges(instanceID, rows));
  }

  // ---------------------------------------------------------------- the upsert, observation by observation

  ghost function OutEdges(edges: seq<Edge>, id: string): seq<Edge> {
    if edges == [] then []
    else OutEdges(edges[..|edges| - 1], id) + if edges[|edges| - 1].src == id then [edges[|edges| - 1]] else []
  }

  lemma {:induction false} OutEdgesSplit(a: seq<Edge>, b: seq<Edge>, id: string)
    ensures OutEdges(a + b, id) == OutEdges(a, id) + OutEdges(b, id)
  {
    if b == [] {
      assert a + b == a;
    } else {
      var init, last := b[..|b| - 1], b[|b| - 1];
      OutEdgesSplit(a, init, id);
      var whole := a + b;
      assert whole[..|whole| - 1] == a + init && whole[|whole| - 1] == last;
    }
  }

  lemma {:induction false} OutEdgesOfOne(es: seq<Edge>, src: string, id: string)
    requires forall e <- es :: e.src == src
    ensures OutEdges(es, id) == if src == id then es else []
  {
    if es != [] {
      var init, last := es[..|es| - 1], es[|es| - 1];
      assert last in es && es == init + [last];
      OutEdgesOfOne(init, src, id);
    }
  }

  lemma {:induction false} NoOutEdges(es: seq<Edge>, id: string)
    requires forall e <- es :: e.src != id
    ensures OutEdges(es, id) == []
  {
    if es != [] {
      NoOutEdges(es[..|es| - 1], id);
    }
  }

  lemma OutEdgesOfLast(instanceID: string, rows: seq<Row>, id: string)
    requires rows != []
    ensures var n := |rows| - 1; var lastId := ObservationId(instanceID, rows[n].rowIndex);
      OutEdges(NewEdges(instanceID, rows), id) ==
      OutEdges(NewEdges(instanceID, rows[..n]), id) + if lastId == id then EdgesOf(instanceID, id, rows[n].options) else []
  {
    var n := |rows| - 1;
    var lastId := ObservationId(instanceID, rows[n].rowIndex);
    var lastEdges := EdgesOf(instanceID, lastId, rows[n].options);
    OutEdgesSplit(NewEdges(instanceID, rows[..n]), lastEdges, id);
    EdgeEnds(instanceID, lastId, rows[n].options);
    OutEdgesOfOne(lastEdges, lastId, id);
  }

  lemma {:induction false} BatchOutEdges(instanceID: string, rows: seq<Row>, i: nat)
    requires DistinctRows(rows) && i < |rows|
    ensures var id := ObservationId(instanceID, rows[i].rowIndex);
      OutEdges(NewEdges(instanceID, rows), id) == EdgesOf(instanceID, id, rows[i].options)
  {
    if i < |rows| - 1 {
      BatchOutEdges(instanceID, rows[..|rows| - 1], i);
      IdsDiffer(instanceID, rows[i].rowIndex, rows[|rows| - 1].rowIndex);
      OutEdgesStay(instanceID, rows, ObservationId(instanceID, rows[i].rowIndex));
    } else {
      OutEdgesOfNewest(instanceID, rows);
    }
  }

  lemma OutEdgesStay(instanceID: string, rows: seq<Row>, id: string)
    requires rows != [] && ObservationId(instanceID, rows[|rows| - 1].rowIndex) != id
    ensures OutEdges(NewEdges(instanceID, rows), id) == OutEdges(NewEdges(instanceID, rows[..|rows| - 1]), id)
  {
    OutEdgesOfLast(instanceID, rows, id);
    NothingAdded(OutEdges(NewEdges(instanceID, rows[..|rows| - 1]), id));
  }

  lemma OutEdgesOfNewest(instanceID: string, rows: seq<Row>)
    requires DistinctRows(rows) && rows != []
    ensures var n := |rows| - 1; var id := ObservationId(instanceID, rows[n].rowIndex);
      OutEdges(NewEdges(instanceID, rows), id) == EdgesOf(instanceID, id, rows[n].options)
  {
    var n := |rows| - 1;
    var id := ObservationId(instanceID, rows[n].rowIndex);
    OutEdgesOfLast(instanceID, rows, id);
    NoEarlierEdges(instanceID, rows);
    NothingAdded(EdgesOf(instanceID, id, rows[n].options));
  }

  lemma NothingAdded(es: seq<Edge>)
    ensures es + [] == es && [] + es == es
  {
  }

  lemma NoEarlierEdges(instanceID: string, rows: seq<Row>)
    requires DistinctRows(rows) && rows != []
    ensures var n := |rows| - 1; OutEdges(NewEdges(instanceID, rows[..n]), ObservationId(instanceID, rows[n].rowIndex)) == []
  {
    var n := |rows| - 1;
    NewIdIsUnused(instanceID, rows[..n], rows[n].rowIndex);
    EdgeSources(instanceID, rows[..n]);
    NoOutEdges(NewEdges(instanceID, rows[..n]), ObservationId(instanceID, rows[n].rowIndex));
  }

  lemma {:induction false} BatchVertexAt(instanceID: string, rows: seq<Row>, i: nat)
    requires DistinctRows(rows) && i < |rows|
    ensures var id := ObservationId(instanceID, rows[i].rowIndex);
      id in BatchVertices(instanceID, rows) && BatchVertices(instanceID, rows)[id] == Vertex(Kind(instanceID), rows[i].text)
  {
    var n := |rows| - 1;
    if i < n {
      BatchVertexAt(instanceID, rows[..n], i);
      IdsDiffer(instanceID, rows[i].rowIndex, rows[n].rowIndex);
    }
  }

  /** One edge for each option, in order, from the observation to the vertex of the option. */
  ghost predicate AreEdgesOf(es: seq<Edge>, instanceID: string, id: string, options: seq<DimensionOption>) {
    && |es| == |options|
    && forall j | 0 <= j < |es| :: es[j].src == id && es[j].dst == DimensionId(instanceID, options[j])
  }

  /** Observation `i` of the batch is stored with its own row and exactly its own edges. */
  ghost predicate IsStored(now: Graph, instanceID: string, row: Row) {
    var id := ObservationId(instanceID, row.rowIndex);
    && id in now.vertices && now.vertices[id] == Vertex(Kind(instanceID), row.text)
    && AreEdgesOf(OutEdges(now.edges, id), instanceID, id, row.options)
  }

  /** Each observation of the batch is stored; other vertices, and edges between other vertices, are as before. */
  lemma StoredExactly(was: Graph, instanceID: string, rows: seq<Row>)
    requires DistinctRows(rows)
    ensures var now := Upserted(was, instanceID, rows); var ids := Ids(instanceID, rows);
      && (forall i | 0 <= i < |rows| :: IsStored(now, instanceID, rows[i]))
      && (forall id | id !in ids :: (id in now.vertices <==> id in was.vertices)
            && (id in was.vertices ==> now.vertices[id] == was.vertices[id]))
      && (forall e: Edge | e.src !in ids :: multiset(now.edges)[e] == if e.dst in ids then 0 else multiset(was.edges)[e])
  {
    var now, ids := Upserted(was, instanceID, rows), Ids(instanceID, rows);
    BatchIds(instanceID, rows);
    forall i | 0 <= i < |rows| ensures IsStored(now, instanceID, rows[i]) {
      RowIsStored(was, instanceID, rows, i);
    }
    forall e: Edge | e.src !in ids ensures multiset(now.edges)[e] == if e.dst in ids then 0 else multiset(was.edges)[e] {
      FilterCounts(was.edges, ids, e);
      EdgeSources(instanceID, rows);
      assert e !in NewEdges(instanceID, rows);
    }
  }

  lemma RowIsStored(was: Graph, instanceID: string, rows: seq<Row>, i: nat)
    requires DistinctRows(rows) && i < |rows|
    ensures IsStored(Upserted(was, instanceID, rows), instanceID, rows[i])
  {
    var ids := Ids(instanceID, rows);
    IdsAt(instanceID, rows, i);
    BatchOutEdges(instanceID, rows, i);
    BatchVertexAt(instanceID, rows, i);
    FilterKeeps(was.edges, ids);
    NoOutEdges(WithoutEdges(was.edges, ids), ids[i]);
    OutEdgesSplit(WithoutEdges(was.edges, ids), NewEdges(instanceID, rows), ids[i]);
    assert [] + EdgesOf(instanceID, ids[i], rows[i].options) == EdgesOf(instanceID, ids[i], rows[i].options);
  }
}
