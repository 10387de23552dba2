/**
 Inserting a batch of observations: remove what is already there for the same ids, add the vertices, add the edges.
 Each of the three is one request that either takes effect or fails and leaves the graph alone.
 */
module ObservationUpsert {
  import opened Options
  import opened StatementText
  import Strings

  datatype Vertex = Vertex(kind: string, value: string)

  datatype Edge = Edge(src: string, dst: string)

  /** The vertices by id, and the isValueOf edges in the order they were added. */
  datatype Graph = Graph(vertices: map<string, Vertex>, edges: seq<Edge>)

  /** An edge cannot exist without its ends. */
  ghost predicate WellFormed(g: Graph) {
    forall e <- g.edges :: e.src in g.vertices && e.dst in g.vertices
  }

  datatype DimensionOption = DimensionOption(dimensionName: string, name: string)

  /** An observation as the caller means it. */
  datatype Row = Row(rowIndex: int, text: string, options: seq<DimensionOption>)

  function ObservationId(instanceID: string, rowIndex: int): string {
    "_" + instanceID + "_observation_" + Strings.Decimal(rowIndex)
  }

  function Kind(instanceID: string): string { "_" + instanceID + "_observation" }

  function DimensionId(instanceID: string, o: DimensionOption): string {
    "_" + instanceID + "_" + Strings.ToLower(o.dimensionName) + "_" + o.name
  }

  // ---------------------------------------------------------------- what a batch stands for

  function Ids(instanceID: string, rows: seq<Row>): (ids: seq<string>)
    ensures |ids| == |rows|
  {
    if rows == [] then []
    else Ids(instanceID, rows[..|rows| - 1]) + [ObservationId(instanceID, rows[|rows| - 1].rowIndex)]
  }

  function Texts(rows: seq<Row>): (texts: seq<string>)
    ensures |texts| == |rows|
  {
    if rows == [] then [] else Texts(rows[..|rows| - 1]) + [EscapeSingleQuotes(rows[|rows| - 1].text)]
  }

  function NewVertices(instanceID: string, rows: seq<Row>): seq<NewVertex> {
    if rows == [] then []
    else
      var last := rows[|rows| - 1];
      NewVertices(instanceID, rows[..|rows| - 1])
      + [NewVertex(Kind(instanceID), ObservationId(instanceID, last.rowIndex), last.text)]
  }

  function EdgesOf(instanceID: string, id: string, options: seq<DimensionOption>): (es: seq<Edge>)
    ensures |es| == |options| && forall j | 0 <= j < |es| :: es[j] == Edge(id, DimensionId(instanceID, options[j]))
  {
    if options == [] then []
    else EdgesOf(instanceID, id, options[..|options| - 1]) + [Edge(id, DimensionId(instanceID, options[|options| - 1]))]
  }

  function NewEdges(instanceID: string, rows: seq<Row>): seq<Edge> {
    if rows == [] then []
    else
      var last := rows[|rows| - 1];
      NewEdges(instanceID, rows[..|rows| - 1])
      + EdgesOf(instanceID, ObservationId(instanceID, last.rowIndex), last.options)
  }

  function AddDimensions(dims: seq<string>, instanceID: string, options: seq<DimensionOption>): seq<string> {
    if options == [] then dims
    else
      var before := AddDimensions(dims, instanceID, options[..|options| - 1]);
      var id := DimensionId(instanceID, options[|options| - 1]);
      if id in before then before else before + [id]
  }

  /** The dimension vertices a batch needs, each once, in the order they are first met. */
  function Dimensions(instanceID: string, rows: seq<Row>): seq<string> {
    if rows == [] then []
    else AddDimensions(Dimensions(instanceID, rows[..|rows| - 1]), instanceID, rows[|rows| - 1].options)
  }

  // ---------------------------------------------------------------- the requests

  function Incident(e: Edge, ids: seq<string>): bool { e.src in ids || e.dst in ids }

  function WithoutEdges(edges: seq<Edge>, ids: seq<string>): seq<Edge> {
    if edges == [] then []
    else WithoutEdges(edges[..|edges| - 1], ids)
         + if Incident(edges[|edges| - 1], ids) then [] else [edges[|edges| - 1]]
  }

  /** Dropping vertices drops the edges at them. */
  function Removed(g: Graph, ids: seq<string>): Graph {
    Graph(map id | id in g.vertices && id !in ids :: g.vertices[id], WithoutEdges(g.edges, ids))
  }

  function Existing(g: Graph, ids: seq<string>): seq<string> {
    if ids == [] then []
    else Existing(g, ids[..|ids| - 1]) + if ids[|ids| - 1] in g.vertices then [ids[|ids| - 1]] else []
  }

  function Cleared(g: Graph, ids: seq<string>): Graph {
    if Existing(g, ids) == [] then g else Removed(g, Existing(g, ids))
  }

  /** addV fails on an id that is taken, also by an earlier addV of the same statement. */
  function WithVertices(g: Graph, vs: seq<NewVertex>): Option<Graph> {
    if vs == [] then Some(g)
    else match WithVertices(g, vs[..|vs| - 1])
         case None => None
         case Some(h) =>
           var v := vs[|vs| - 1];
           if v.id in h.vertices then None else Some(h.(vertices := h.vertices[v.id := Vertex(v.kind, v.row)]))
  }

  /** One traverser walks from vertex to vertex, adding an edge at each; a missing vertex ends it without an error. */
  function Walk(g: Graph, es: seq<Edge>): (walked: seq<Edge>)
    ensures walked <= es && (forall e <- walked :: e.src in g.vertices)
    ensures |walked| < |es| ==> es[|walked|].src !in g.vertices
  {
    if es == [] || es[0].src !in g.vertices then [] else [es[0]] + Walk(g, es[1..])
  }

  /** The walk first visits every dimension vertex, so one that is missing means that no edge is added at all. */
  function WithEdges(g: Graph, dims: seq<string>, es: seq<Edge>): Graph {
    if forall d <- dims :: d in g.vertices then g.(edges := g.edges + Walk(g, es)) else g
  }

  /** `texts` are the rows as they are written into the statement. */
  function AddText(kind: string, ids: seq<string>, texts: seq<string>): string
    requires |ids| == |texts|
  {
    if ids == [] then "g"
    else AddText(kind, ids[..|ids| - 1], texts[..|ids| - 1]) + Part(kind, ids[|ids| - 1], texts[|ids| - 1])
  }

  /** The database's answer to the statement: nothing happens if it does not parse or an id is taken. */
  function SendNodes(g: Graph, text: string): Option<Graph> {
    match ParseStatement(text) case None => None case Some(vs) => WithVertices(g, vs)
  }

  /** The graph once the vertices have been added, if they can be. */
  function NodesAdded(g: Graph, instanceID: string, rows: seq<Row>): Option<Graph> {
    SendNodes(Cleared(g, Ids(instanceID, rows)), AddText(Kind(instanceID), Ids(instanceID, rows), Texts(rows)))
  }

  /** The effect of the three requests when all of them are carried out; `dims` are the vertices that are looked up. */
  function InsertedWith(g: Graph, instanceID: string, rows: seq<Row>, dims: seq<string>): Option<Graph> {
    match NodesAdded(g, instanceID, rows)
    case None => None
    case Some(h) => Some(WithEdges(h, dims, NewEdges(instanceID, rows)))
  }

  function Inserted(g: Graph, instanceID: string, rows: seq<Row>): Option<Graph> {
    InsertedWith(g, instanceID, rows, Dimensions(instanceID, rows))
  }

  /** What a failed insert can leave. */
  predicate LeftBehind(was: Graph, instanceID: string, rows: seq<Row>, now: Graph) {
    now == was || now == Cleared(was, Ids(instanceID, rows)) || NodesAdded(was, instanceID, rows) == Some(now)
  }

  lemma Compose(was: Graph, instanceID: string, rows: seq<Row>, dims: seq<string>, added: Graph)
    requires NodesAdded(was, instanceID, rows) == Some(added)
    ensures InsertedWith(was, instanceID, rows, dims) == Some(WithEdges(added, dims, NewEdges(instanceID, rows)))
    ensures LeftBehind(was, instanceID, rows, added)
  {
  }

  // ---------------------------------------------------------------- the driver

  class Observation {
    var row: string
    const rowIndex: int
    const options: seq<DimensionOption>

    constructor (row: string, rowIndex: int, options: seq<DimensionOption>)
      ensures this.row == row && this.rowIndex == rowIndex && this.options == options
    {
      this.row, this.rowIndex, this.options := row, rowIndex, options;
    }
  }

  function RowOf(o: Observation): Row
    reads o
  {
    Row(o.rowIndex, o.row, o.options)
  }

  function RowsOf(observations: seq<Observation>): (rows: seq<Row>)
    reads observations
    ensures |rows| == |observations| && forall i | 0 <= i < |rows| :: rows[i] == RowOf(observations[i])
  {
    if observations == [] then [] else RowsOf(observations[..|observations| - 1]) + [RowOf(observations[|observations| - 1])]
  }

  /** Each row has been escaped in place, once for each time its observation is in the batch. */
  ghost predicate Escaped(observations: seq<Observation>, rows: seq<Row>)
    requires |rows| == |observations|
    reads observations
  {
    EscapedUpTo(observations, rows, |rows|)
  }

  /** The rows as they are given to the last escaping. */
  ghost function Given(observations: seq<Observation>, rows: seq<Row>): (given: seq<Row>)
    requires |rows| == |observations|
    ensures |given| == |rows| && forall i | 0 <= i < |rows| :: given[i].rowIndex == rows[i].rowIndex
  {
    seq(|rows|, i requires 0 <= i < |rows| =>
      rows[i].(text := EscapeTimes(rows[i].text, OneLess(multiset(observations)[observations[i]]))))
  }

  ghost function OneLess(n: nat): nat { if n == 0 then 0 else n - 1 }

  /** Where the last row with this index is. */
  function LastIndex(rows: seq<Row>, n: int): (k: nat)
    ensures (exists i :: 0 <= i < |rows| && rows[i].rowIndex == n) ==> k < |rows| && rows[k].rowIndex == n
  {
    if rows == [] then 0
    else if rows[|rows| - 1].rowIndex == n then |rows| - 1
    else LastIndex(rows[..|rows| - 1], n)
  }

  /** The rows that are sent: the observation map keeps the last observation for an index. */
  ghost function Sent(rows: seq<Row>): (sent: seq<Row>)
    ensures |sent| == |rows| && forall i | 0 <= i < |rows| :: sent[i].rowIndex == rows[i].rowIndex
  {
    seq(|rows|, i requires 0 <= i < |rows| => rows[LastIndex(rows, rows[i].rowIndex)])
  }

  ghost function TextsOf(ids: seq<string>, byId: map<string, Observation>): seq<string>
    requires forall id <- ids :: id in byId
    reads byId.Values
    ensures |TextsOf(ids, byId)| == |ids|
  {
    if ids == [] then [] else TextsOf(ids[..|ids| - 1], byId) + [byId[ids[|ids| - 1]].row]
  }

  function EdgesFor(instanceID: string, ids: seq<string>, byId: map<string, Observation>): seq<Edge>
    requires forall id <- ids :: id in byId
  {
    if ids == [] then []
    else EdgesFor(instanceID, ids[..|ids| - 1], byId)
         + EdgesOf(instanceID, ids[|ids| - 1], byId[ids[|ids| - 1]].options)
  }

  class ObservationStore {
    var g: Graph

    constructor (g: Graph)
      ensures this.g == g
    {
      this.g := g;
    }

    method RemoveExistingObservations(ids: seq<string>) returns (ok: bool)
      modifies `g
      ensures g == if ok then Cleared(old(g), ids) else old(g)
    {
      ok := *;
      if !ok { return; }
      var existing := Existing(g, ids);
      if |existing| > 0 {
        ok := *;
        if !ok { return; }
        ok := *;
        if !ok { return; }
        g := Removed(g, existing);
      }
    }

    /** Builds the statement text and sends it; the database parses it. */
    method AddObservationNodes(instanceID: string, ids: seq<string>, byId: map<string, Observation>) returns (ok: bool)
      requires forall id <- ids :: id in byId
      modifies `g
      ensures ok ==> SendNodes(old(g), AddText(Kind(instanceID), ids, TextsOf(ids, byId))) == Some(g)
      ensures !ok ==> g == old(g)
    {
      var text := "g";
      for i := 0 to |ids|
        invariant g == old(g)
        invariant text == AddText(Kind(instanceID), ids[..i], TextsOf(ids[..i], byId))
      {
        assert ids[..i + 1][..i] == ids[..i];
        assert TextsOf(ids[..i + 1], byId)[..i] == TextsOf(ids[..i], byId);
        text := text + Part(Kind(instanceID), ids[i], byId[ids[i]].row);
      }
      assert ids[..|ids|] == ids;
      ok := *;
      if !ok { return; }
      var after := SendNodes(g, text);
      if after == None { return false; }
      g := after.value;
    }

    method AddObservationEdges(instanceID: string, dims: seq<string>, ids: seq<string>, byId: map<string, Observation>)
        returns (ok: bool)
      requires forall id <- ids :: id in byId
      modifies `g
      ensures g == if ok then WithEdges(old(g), dims, EdgesFor(instanceID, ids, byId)) else old(g)
    {
      var es := [];
      for i := 0 to |ids|
        invariant g == old(g)
        invariant es == EdgesFor(instanceID, ids[..i], byId)
      {
        var options := byId[ids[i]].options;
        for j := 0 to |options|
          invariant g == old(g)
          invariant es == EdgesFor(instanceID, ids[..i], byId) + EdgesOf(instanceID, ids[i], options[..j])
        {
          assert options[..j + 1][..j] == options[..j];
          es := es + [Edge(ids[i], DimensionId(instanceID, options[j]))];
        }
        assert options[..|options|] == options;
        assert ids[..i + 1][..i] == ids[..i];
      }
      assert ids[..|ids|] == ids;
      ok := *;
      if !ok { return; }
      g := WithEdges(g, dims, es);
    }

    /** A failure leaves the graph as it was, without the old observations, or with the new ones but no edges. */
    method InsertObservationBatch(instanceID: string, observations: seq<Observation>) returns (ok: bool)
      modifies `g, observations
      ensures Escaped(observations, old(RowsOf(observations)))
      ensures observations == [] ==> ok && g == old(g)
      ensures var rows := old(RowsOf(observations)); var sent := Sent(Given(observations, rows));
        observations != [] ==>
          if ok then InsertedWith(old(g), instanceID, sent, Dimensions(instanceID, rows)) == Some(g)
          else LeftBehind(old(g), instanceID, sent, g)
    {
      if |observations| == 0 { return true; }
      ghost var rows := RowsOf(observations);
      var ids, dims, byId := EscapeAndIndex(instanceID, observations);
      BatchIsSent(instanceID, observations, rows, ids, byId);
      ghost var sent := Sent(Given(observations, rows));
      ok := ReplaceObservations(instanceID, ids, dims, byId, sent);
    }

    /** The three statements of InsertObservationBatch. */
    method ReplaceObservations(
        instanceID: string, ids: seq<string>, dims: seq<string>, byId: map<string, Observation>, ghost rows: seq<Row>)
        returns (ok: bool)
      requires ids == Ids(instanceID, rows) && forall id <- ids :: id in byId
      requires TextsOf(ids, byId) == Texts(rows) && EdgesFor(instanceID, ids, byId) == NewEdges(instanceID, rows)
      modifies `g
      ensures if ok then InsertedWith(old(g), instanceID, rows, dims) == Some(g) else LeftBehind(old(g), instanceID, rows, g)
    {
      ok := RemoveExistingObservations(ids);
      if !ok { return; }
      ok := AddObservationNodes(instanceID, ids, byId);
      if !ok { return; }
      ghost var added := g;
      ok := AddObservationEdges(instanceID, dims, ids, byId);
      Compose(old(g), instanceID, rows, dims, added);
    }
  }

  /** The first loop of InsertObservationBatch: escapes every row in place and indexes the batch. */
  method EscapeAndIndex(instanceID: string, observations: seq<Observation>)
      returns (ids: seq<string>, dims: seq<string>, byId: map<string, Observation>)
    modifies observations
    ensures var rows := old(RowsOf(observations));
      && Escaped(observations, rows)
      && ids == Ids(instanceID, rows) && dims == Dimensions(instanceID, rows) && Maps(byId, ids, observations, rows)
  {
    ids, dims, byId := EscapeAndIndexAll(instanceID, observations, RowsOf(observations));
  }

  method EscapeAndIndexAll(instanceID: string, observations: seq<Observation>, ghost rows: seq<Row>)
      returns (ids: seq<string>, dims: seq<string>, byId: map<string, Observation>)
    requires |rows| == |observations| && forall i | 0 <= i < |rows| :: rows[i] == RowOf(observations[i])
    modifies observations
    ensures Escaped(observations, rows)
    ensures ids == Ids(instanceID, rows) && dims == Dimensions(instanceID, rows) && Maps(byId, ids, observations, rows)
  {
    ids, dims, byId := [], [], map[];
    for i := 0 to |observations|
      invariant EscapedUpTo(observations, rows, i)
      invariant Indexed(instanceID, observations, rows, i, ids, dims, byId)
    {
      EscapeOne(observations, rows, i);
      ids, dims, byId := IndexOne(instanceID, observations, rows, i, ids, dims, byId);
    }
    assert rows[..|rows|] == rows && observations[..|observations|] == observations;
  }

  /** The rows of the first `i` observations have been escaped. */
  ghost predicate EscapedUpTo(observations: seq<Observation>, rows: seq<Row>, i: nat)
    requires i <= |rows| == |observations|
    reads observations
  {
    forall j | 0 <= j < |rows| :: observations[j].row == EscapeTimes(rows[j].text, multiset(observations[..i])[observations[j]])
  }

  method EscapeOne(observations: seq<Observation>, ghost rows: seq<Row>, i: nat)
    requires i < |observations| == |rows| && EscapedUpTo(observations, rows, i)
    modifies observations[i]
    ensures EscapedUpTo(observations, rows, i + 1)
  {
    assert observations[..i + 1] == observations[..i] + [observations[i]];
    observations[i].row := EscapeSingleQuotes(observations[i].row);
  }

  /** The first `i` observations have been indexed. */
  ghost predicate Indexed(
      instanceID: string, observations: seq<Observation>, rows: seq<Row>, i: nat,
      ids: seq<string>, dims: seq<string>, byId: map<string, Observation>)
    requires i <= |rows| == |observations|
  {
    && ids == Ids(instanceID, rows[..i]) && dims == Dimensions(instanceID, rows[..i])
    && Maps(byId, ids, observations[..i], rows[..i])
  }

  method IndexOne(
      instanceID: string, observations: seq<Observation>, ghost rows: seq<Row>, i: nat,
      ids: seq<string>, dims: seq<string>, byId: map<string, Observation>)
      returns (ids': seq<string>, dims': seq<string>, byId': map<string, Observation>)
    requires i < |observations| == |rows|
    requires forall j | 0 <= j < |rows| :: rows[j].rowIndex == observations[j].rowIndex && rows[j].options == observations[j].options
    requires Indexed(instanceID, observations, rows, i, ids, dims, byId)
    ensures Indexed(instanceID, observations, rows, i + 1, ids', dims', byId')
  {
    var obs := observations[i];
    var id := ObservationId(instanceID, obs.rowIndex);
    OneMoreRow(rows, i);
    OneMoreRow(observations, i);
    MapsOneMore(instanceID, observations[..i], rows[..i], ids, byId, obs, rows[i]);
    byId' := byId[id := obs];
    ids' := ids + [id];
    dims' := IndexDimensions(dims, instanceID, obs.options);
  }

  lemma OneMoreRow<T>(s: seq<T>, i: nat)
    requires i < |s|
    ensures s[..i + 1] == s[..i] + [s[i]] && s[..i + 1][..i] == s[..i]
  {
  }

  /** The inner loop: notes each dimension vertex the first time it is met. */
  method IndexDimensions(known: seq<string>, instanceID: string, options: seq<DimensionOption>) returns (dims: seq<string>)
    ensures dims == AddDimensions(known, instanceID, options)
  {
    dims := known;
    for j := 0 to |options|
      invariant dims == AddDimensions(known, instanceID, options[..j])
    {
      var dim := DimensionId(instanceID, options[j]);
      assert options[..j + 1][..j] == options[..j];
      if dim !in dims {
        dims := dims + [dim];
      }
    }
    assert options[..|options|] == options;
  }

  /** Each id leads to the last observation with its index. */
  ghost predicate Maps(byId: map<string, Observation>, ids: seq<string>, observations: seq<Observation>, rows: seq<Row>) {
    |ids| == |observations| == |rows| && forall i | 0 <= i < |ids| :: MapsAt(byId, ids[i], observations, rows, rows[i].rowIndex)
  }

  ghost predicate MapsAt(byId: map<string, Observation>, id: string, observations: seq<Observation>, rows: seq<Row>, n: int) {
    id in byId && LastIndex(rows, n) < |observations| && byId[id] == observations[LastIndex(rows, n)]
  }

  lemma {:induction false} IdsAt(instanceID: string, rows: seq<Row>, i: nat)
    requires i < |rows|
    ensures Ids(instanceID, rows)[i] == ObservationId(instanceID, rows[i].rowIndex)
  {
    if i < |rows| - 1 {
      IdsAt(instanceID, rows[..|rows| - 1], i);
    }
  }

  lemma IdsDiffer(instanceID: string, m: int, n: int)
    requires m != n
    ensures ObservationId(instanceID, m) != ObservationId(instanceID, n)
  {
    var prefix := "_" + instanceID + "_observation_";
    if ObservationId(instanceID, m) == ObservationId(instanceID, n) {
      assert (prefix + Strings.Decimal(m))[|prefix|..] == Strings.Decimal(m);
      assert (prefix + Strings.Decimal(n))[|prefix|..] == Strings.Decimal(n);
      Strings.DecimalInjective(m, n);
    }
  }

  lemma MapsOneMore(
      instanceID: string, observations: seq<Observation>, rows: seq<Row>, ids: seq<string>, byId: map<string, Observation>,
      obs: Observation, row: Row)
    requires Maps(byId, ids, observations, rows) && ids == Ids(instanceID, rows) && row.rowIndex == obs.rowIndex
    ensures var id := ObservationId(instanceID, obs.rowIndex);
      && Maps(byId[id := obs], ids + [id], observations + [obs], rows + [row]) && ids + [id] == Ids(instanceID, rows + [row])
  {
    var id := ObservationId(instanceID, obs.rowIndex);
    assert (rows + [row])[..|rows|] == rows;
    forall i | 0 <= i < |ids| ensures MapsAt(byId[id := obs], ids[i], observations + [obs], rows + [row], rows[i].rowIndex) {
      assert MapsAt(byId, ids[i], observations, rows, rows[i].rowIndex);
      IdsAt(instanceID, rows, i);
      if rows[i].rowIndex != row.rowIndex {
        IdsDiffer(instanceID, rows[i].rowIndex, row.rowIndex);
      }
    }
  }

  lemma {:induction false} SameIds(instanceID: string, a: seq<Row>, b: seq<Row>)
    requires |a| == |b| && forall i | 0 <= i < |a| :: a[i].rowIndex == b[i].rowIndex
    ensures Ids(instanceID, a) == Ids(instanceID, b)
  {
    if a != [] {
      SameIds(instanceID, a[..|a| - 1], b[..|b| - 1]);
    }
  }

  lemma {:induction false} SameLastIndex(a: seq<Row>, b: seq<Row>, n: int)
    requires |a| == |b| && forall i | 0 <= i < |a| :: a[i].rowIndex == b[i].rowIndex
    ensures LastIndex(a, n) == LastIndex(b, n)
  {
    if a != [] {
      SameLastIndex(a[..|a| - 1], b[..|b| - 1], n);
    }
  }

  /** What the map leads to for each id is the row that is sent, escaped. */
  ghost predicate LeadsTo(byId: map<string, Observation>, ids: seq<string>, sent: seq<Row>)
    reads byId.Values
  {
    |ids| == |sent| && forall i | 0 <= i < |ids| ::
      ids[i] in byId && byId[ids[i]].row == EscapeSingleQuotes(sent[i].text) && byId[ids[i]].options == sent[i].options
  }

  lemma MappedToSent(observations: seq<Observation>, rows: seq<Row>, ids: seq<string>, byId: map<string, Observation>)
    requires Maps(byId, ids, observations, rows) && Escaped(observations, rows)
    requires forall i | 0 <= i < |rows| :: observations[i].options == rows[i].options
    ensures LeadsTo(byId, ids, Sent(Given(observations, rows)))
  {
    var given := Given(observations, rows);
    assert observations[..|observations|] == observations;
    forall i | 0 <= i < |ids|
      ensures ids[i] in byId && byId[ids[i]].row == EscapeSingleQuotes(Sent(given)[i].text)
      ensures byId[ids[i]].options == Sent(given)[i].options
    {
      assert MapsAt(byId, ids[i], observations, rows, rows[i].rowIndex);
      SameLastIndex(rows, given, rows[i].rowIndex);
      var k := LastIndex(rows, rows[i].rowIndex);
      assert observations[k] in multiset(observations);
    }
  }

  lemma BatchIsSent(
      instanceID: string, observations: seq<Observation>, rows: seq<Row>, ids: seq<string>, byId: map<string, Observation>)
    requires Maps(byId, ids, observations, rows) && Escaped(observations, rows) && ids == Ids(instanceID, rows)
    requires forall i | 0 <= i < |rows| :: observations[i].options == rows[i].options
    ensures var sent := Sent(Given(observations, rows));
      && ids == Ids(instanceID, sent) && (forall id <- ids :: id in byId)
      && TextsOf(ids, byId) == Texts(sent) && EdgesFor(instanceID, ids, byId) == NewEdges(instanceID, sent)
  {
    var sent := Sent(Given(observations, rows));
    SameIds(instanceID, rows, sent);
    MappedToSent(observations, rows, ids, byId);
    WhatIsSent(instanceID, sent, ids, byId);
  }

  /** What the driver prints for a batch is what is sent. */
  lemma {:induction false} WhatIsSent(instanceID: string, sent: seq<Row>, ids: seq<string>, byId: map<string, Observation>)
    requires ids == Ids(instanceID, sent) && LeadsTo(byId, ids, sent)
    ensures forall id <- ids :: id in byId
    ensures TextsOf(ids, byId) == Texts(sent)
    ensures EdgesFor(instanceID, ids, byId) == NewEdges(instanceID, sent)
  {
    if sent != [] {
      var n := |sent| - 1;
      WhatIsSent(instanceID, sent[..n], ids[..n], byId);
    }
  }
}
