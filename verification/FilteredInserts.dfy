/**
 Inserting and filtering together: the ids that a filter asks for are the ids that edges were stored to, so that a filter on
 what a successful insert left finds exactly the observations with the chosen options.
 */
module FilteredInserts {
  import opened Options
  import opened ObservationFilter
  import opened FilterProperties
  import opened UpsertProperties
  import Upsert = ObservationUpsert
  import StatementText
  import Strings

  // ---------------------------------------------------------------- ids

  /** The id a filter asks for, for an option of a dimension in lower case, is the one that an observation is linked to. */
  lemma AskedIsStored(instanceID: string, option: Upsert.DimensionOption)
    ensures OptionId(instanceID, Strings.ToLower(option.dimensionName), option.name) == Upsert.DimensionId(instanceID, option)
    ensures Upsert.DimensionId(instanceID, option)
            == VertexKind(instanceID, Strings.ToLower(option.dimensionName)) + "_" + option.name
  {
  }

  lemma {:induction false} SplitsAtFirst(a: string, b: string, s: string, t: string)
    requires '_' !in a && '_' !in b && a + "_" + s == b + "_" + t
    ensures a == b && s == t
  {
    UnderscoreSplits(a, b, s, t);
    assert (a + "_" + s)[|a| + 1..] == s && (b + "_" + t)[|b| + 1..] == t;
  }

  /** A filter for one instance never asks for an id of another. */
  lemma InstancesApart(a: string, b: string, m: string, n: string, s: string, t: string)
    requires '_' !in a && '_' !in b && OptionId(a, m, s) == OptionId(b, n, t)
    ensures a == b && m + "_" + s == n + "_" + t
  {
    assert OptionId(a, m, s)[1..] == a + "_" + (m + "_" + s);
    assert OptionId(b, n, t)[1..] == b + "_" + (n + "_" + t);
    SplitsAtFirst(a, b, m + "_" + s, n + "_" + t);
  }

  lemma {:induction false} LastUnderscore(a: string, b: string, s: string, t: string)
    requires '_' !in s && '_' !in t && a + "_" + s == b + "_" + t
    ensures a == b && s == t
  {
    var x, y := a + "_" + s, b + "_" + t;
    assert x[|a|] == '_' && y[|b|] == '_';
    assert forall i | |a| < i < |x| :: x[i] == s[i - |a| - 1];
    assert forall i | |b| < i < |y| :: y[i] == t[i - |b| - 1];
    assert |a| == |b|;
    assert x[..|a|] == a && y[..|b|] == b && x[|a| + 1..] == s && y[|b| + 1..] == t;
  }

  lemma DecimalHasNoUnderscore(n: int)
    ensures '_' !in Strings.Decimal(n)
  {
    Strings.NaturalDigits(if n < 0 then -n else n);
  }

  lemma ObservationIdIs(instanceID: string, n: int)
    ensures Upsert.ObservationId(instanceID, n) == Upsert.Kind(instanceID) + "_" + Strings.Decimal(n)
  {
    assert "_observation_" == "_observation" + "_";
  }

  lemma LabelTellsInstance(a: string, b: string)
    requires Upsert.Kind(a) == Upsert.Kind(b)
    ensures a == b
  {
    assert |Upsert.Kind(a)| == |a| + 13 && |Upsert.Kind(b)| == |b| + 13;
    assert Upsert.Kind(a)[1..|a| + 1] == a && Upsert.Kind(b)[1..|b| + 1] == b;
  }

  /** An observation's id is its label and its row index, and tells both the instance and the row index. */
  lemma ObservationIdsApart(a: string, b: string, m: int, n: int)
    ensures Upsert.ObservationId(a, m) == Upsert.Kind(a) + "_" + Strings.Decimal(m)
    ensures Upsert.ObservationId(a, m) == Upsert.ObservationId(b, n) ==> a == b && m == n
  {
    ObservationIdIs(a, m);
    ObservationIdIs(b, n);
    if Upsert.ObservationId(a, m) == Upsert.ObservationId(b, n) {
      DecimalHasNoUnderscore(m);
      DecimalHasNoUnderscore(n);
      LastUnderscore(Upsert.Kind(a), Upsert.Kind(b), Strings.Decimal(m), Strings.Decimal(n));
      Strings.DecimalInjective(m, n);
      LabelTellsInstance(a, b);
    }
  }

  /** A batch of one instance has no id of another instance's observations. */
  lemma {:induction false} OtherInstancesAreOutside(a: string, rows: seq<Upsert.Row>, b: string, n: int)
    requires a != b
    ensures Upsert.ObservationId(b, n) !in Upsert.Ids(a, rows)
  {
    if rows != [] {
      OtherInstancesAreOutside(a, rows[..|rows| - 1], b, n);
      ObservationIdsApart(a, b, rows[|rows| - 1].rowIndex, n);
    }
  }

  // ---------------------------------------------------------------- filtering the stored graph

  /** How many of the edges lead to one of the vertices. */
  function EdgesInto(es: seq<Upsert.Edge>, ids: seq<string>): nat {
    if es == [] then 0 else (if es[0].dst in ids then 1 else 0) + EdgesInto(es[1..], ids)
  }

  ghost predicate PassesStored(g: Upsert.Graph, id: string, parts: seq<Part>) {
    parts == [] || (parts[0].AdditionalDimensions?
                    && EdgesInto(OutEdges(g.edges, id), parts[0].ids) == parts[0].count && PassesStored(g, id, parts[1..]))
  }

  /** How often a query that is run on the stored graph returns the observation with this id. */
  ghost function TimesStored(g: Upsert.Graph, instanceID: string, q: seq<Part>, id: string): Option<nat> {
    if q == [] || q[0].AdditionalDimensions? then None
    else
      var arrivals :=
        if q[0].AllObservations? then (if id in g.vertices && g.vertices[id].kind == Upsert.Kind(instanceID) then 1 else 0)
        else EdgesInto(OutEdges(g.edges, id), q[0].ids);
      Some(if PassesStored(g, id, q[1..]) then arrivals else 0)
  }

  /** The options as they are stored, under lower-case names. */
  function LinksOf(options: seq<Upsert.DimensionOption>): seq<Link> {
    if options == [] then []
    else [Link(Strings.ToLower(options[0].dimensionName), options[0].name)] + LinksOf(options[1..])
  }

  lemma {:induction false} EdgesAreLinks(
      es: seq<Upsert.Edge>, instanceID: string, id: string, options: seq<Upsert.DimensionOption>, ids: seq<string>)
    requires AreEdgesOf(es, instanceID, id, options)
    ensures EdgesInto(es, ids) == Hits(instanceID, LinksOf(options), ids)
  {
    if options != [] {
      EdgesAreLinks(es[1..], instanceID, id, options[1..], ids);
      AskedIsStored(instanceID, options[0]);
      assert LinksOf(options)[1..] == LinksOf(options[1..]);
    }
  }

  lemma {:induction false} PassesAlike(
      g: Upsert.Graph, instanceID: string, id: string, options: seq<Upsert.DimensionOption>, o: Observation, parts: seq<Part>)
    requires AreEdgesOf(OutEdges(g.edges, id), instanceID, id, options) && o.links == LinksOf(options)
    ensures PassesStored(g, id, parts) <==> Passes(instanceID, o, parts)
  {
    if parts != [] && parts[0].AdditionalDimensions? {
      EdgesAreLinks(OutEdges(g.edges, id), instanceID, id, options, parts[0].ids);
      PassesAlike(g, instanceID, id, options, o, parts[1..]);
    }
  }

  // ---------------------------------------------------------------- what is found

  /** The row has a chosen option, case of the name aside, for each dimension of the filter that has options. */
  ghost predicate IsWanted(row: Upsert.Row, dims: seq<Dimension>) {
    forall i | 0 <= i < |dims| && dims[i].options != [] :: HasChosen(row.options, dims[i])
  }

  ghost predicate HasChosen(options: seq<Upsert.DimensionOption>, d: Dimension) {
    exists j :: 0 <= j < |options| && Strings.ToLower(options[j].dimensionName) == d.name && options[j].name in d.options
  }

  lemma {:induction false} ChoosesIffHasChosen(options: seq<Upsert.DimensionOption>, d: Dimension)
    ensures Chooses(LinksOf(options), d) <==> HasChosen(options, d)
  {
    if options != [] {
      ChoosesIffHasChosen(options[1..], d);
      assert LinksOf(options)[1..] == LinksOf(options[1..]);
      if HasChosen(options, d) {
        var j :| 0 <= j < |options| && Strings.ToLower(options[j].dimensionName) == d.name && options[j].name in d.options;
        assert j > 0 ==> options[1..][j - 1] == options[j];
      }
      if HasChosen(options[1..], d) {
        var j :| 0 <= j < |options| - 1 && Strings.ToLower(options[1..][j].dimensionName) == d.name
                 && options[1..][j].name in d.options;
        assert options[j + 1] == options[1..][j];
      }
    }
  }

  lemma {:induction false} SelectedIffWanted(row: Upsert.Row, o: Observation, dims: seq<Dimension>)
    requires o.links == LinksOf(row.options)
    ensures Selected(o, dims) <==> IsWanted(row, dims)
  {
    if dims != [] {
      var rest := dims[1..];
      SelectedIffWanted(row, o, rest);
      ChoosesIffHasChosen(row.options, dims[0]);
      assert forall i | 0 <= i < |rest| :: rest[i] == dims[i + 1];
      if IsWanted(row, rest) {
        forall i | 0 < i < |dims| && dims[i].options != [] ensures HasChosen(row.options, dims[i]) {
          assert dims[i] == rest[i - 1];
        }
      }
    }
  }

  lemma {:induction false} LinkAt(options: seq<Upsert.DimensionOption>, j: nat)
    requires j < |options|
    ensures |LinksOf(options)| == |options|
    ensures LinksOf(options)[j] == Link(Strings.ToLower(options[j].dimensionName), options[j].name)
  {
    if j > 0 {
      LinkAt(options[1..], j - 1);
    } else if |options| > 1 {
      LinkAt(options[1..], 0);
    }
  }

  /** So a filter finds nothing for a dimension with a capital in its name: observations are stored under lower-case names. */
  lemma {:induction false} LinksAreLower(options: seq<Upsert.DimensionOption>)
    ensures forall l <- LinksOf(options) :: Strings.IsLower(l.dimension)
  {
    if options != [] {
      Strings.LoweredIsLower(options[0].dimensionName);
      LinksAreLower(options[1..]);
    }
  }

  /** Of the edges of a stored observation, those to ids that are asked for are exactly those of its chosen options. */
  lemma EdgesToAsked(now: Upsert.Graph, instanceID: string, row: Upsert.Row, d: Dimension, j: nat)
    requires IsStored(now, instanceID, row) && j < |row.options| && UnambiguousFor(instanceID, LinksOf(row.options), d)
    ensures var es := OutEdges(now.edges, Upsert.ObservationId(instanceID, row.rowIndex));
      && |es| == |row.options|
      && (es[j].dst in OptionIds(instanceID, d.name, d.options)
          <==> Strings.ToLower(row.options[j].dimensionName) == d.name && row.options[j].name in d.options)
  {
    LinkAt(row.options, j);
    AskedIsStored(instanceID, row.options[j]);
    LinkHitsIff(instanceID, LinksOf(row.options), LinksOf(row.options)[j], d);
  }

  /**
   Insert, then filter. In the graph that a successful insert of distinct rows leaves, whatever was there before, the query
   for a filter returns each observation of the batch once if it has a chosen option for every dimension with options and no
   name is repeated after the first dimension, and otherwise not; and what it returns is the row that was given.
   */
  lemma {:induction false} InsertThenFilter(was: Upsert.Graph, instanceID: string, rows: seq<Upsert.Row>, i: nat, dims: seq<Dimension>)
    requires DistinctRows(rows) && i < |rows| && (IsEmpty(dims) || dims[0].options != [])
    requires OneEach(LinksOf(rows[i].options)) && Unambiguous(instanceID, LinksOf(rows[i].options), dims)
    ensures var now, id := Upserted(was, instanceID, rows), Upsert.ObservationId(instanceID, rows[i].rowIndex);
      && id in now.vertices && now.vertices[id].value == rows[i].text
      && TimesStored(now, instanceID, Compile(instanceID, dims), id)
         == Some(if IsEmpty(dims) || (DistinctNames(dims[1..]) && IsWanted(rows[i], dims)) then 1 else 0)
  {
    var now, id := Upserted(was, instanceID, rows), Upsert.ObservationId(instanceID, rows[i].rowIndex);
    var o, q := Observation(rows[i].text, LinksOf(rows[i].options)), Compile(instanceID, dims);
    StoredExactly(was, instanceID, rows);
    assert IsStored(now, instanceID, rows[i]);
    if !IsEmpty(dims) {
      SelectedIffWanted(rows[i], o, dims);
      NeptuneReturnsOnceIff(instanceID, dims, o);
      PassesAlike(now, instanceID, id, rows[i].options, o, q[1..]);
      assert q[0].FirstDimension?;
      EdgesAreLinks(OutEdges(now.edges, id), instanceID, id, rows[i].options, q[0].ids);
    } else {
      assert q[1..] == [];
    }
  }

  // ---------------------------------------------------------------- as the driver writes them

  // The texts that the tests expect: `neptune/observation_test.go:46-65` and `:176-180`.

  lemma OptionsAsWritten()
    ensures OptionId("888", "age", "30") == "_888_age_30"
    ensures Upsert.DimensionId("instanceID", Upsert.DimensionOption("Sex", "male")) == "_instanceID_sex_male"
  {
    assert Strings.ToLower("Sex") == "sex";
  }

  lemma ObservationsAsWritten()
    ensures Upsert.Kind("instanceID") == "_instanceID_observation"
    ensures Upsert.ObservationId("instanceID", 1) == "_instanceID_observation_1"
  {
    assert Strings.Decimal(1) == "1";
  }

  /** The text before, between and after the label, id and row of `neptune/query/query.go:196`. */
  lemma FormatAsWritten()
    ensures StatementText.ADD == ".addV('" && "'" + StatementText.ID == "').property(id, '"
    ensures "'" + StatementText.VALUE == "').property(single, 'value', '"
  {
  }
}
