/**
 Filtering observations: any of the chosen options within a dimension, all dimensions together. Neptune compiles a
 filter to a lookup on the first dimension and a count over the others; Neo4j to a pattern per dimension.
 */
module ObservationFilter {
  import opened Options

  datatype Dimension = Dimension(name: string, options: seq<string>)

  /** True unless some dimension has both a name and options. */
  predicate IsEmpty(dims: seq<Dimension>) {
    dims == [] || ((dims[0].name == "" || dims[0].options == []) && IsEmpty(dims[1..]))
  }

  /** An isValueOf edge to the vertex of one option of one dimension. */
  datatype Link = Link(dimension: string, option: string)

  datatype Observation = Observation(row: string, links: seq<Link>)

  function OptionId(instanceID: string, dimension: string, option: string): string {
    "_" + instanceID + "_" + dimension + "_" + option
  }

  // ---------------------------------------------------------------- the intended meaning

  predicate Chooses(links: seq<Link>, d: Dimension) {
    links != [] && ((links[0].dimension == d.name && links[0].option in d.options) || Chooses(links[1..], d))
  }

  /** Selected in every dimension that has options; the others do not restrict. */
  predicate Selected(o: Observation, dims: seq<Dimension>) {
    dims == [] || ((dims[0].options == [] || Chooses(o.links, dims[0])) && Selected(o, dims[1..]))
  }

  /** The rows that a filter stands for; an empty filter stands for all of them. */
  function Wanted(observations: seq<Observation>, dims: seq<Dimension>): seq<string> {
    if observations == [] then []
    else (if IsEmpty(dims) || Selected(observations[0], dims) then [observations[0].row] else [])
         + Wanted(observations[1..], dims)
  }

  // ---------------------------------------------------------------- Neptune: the traversal

  datatype Part =
    | AllObservations
    | FirstDimension(ids: seq<string>)
    | AdditionalDimensions(ids: seq<string>, count: nat)

  function OptionIds(instanceID: string, name: string, options: seq<string>): seq<string> {
    if options == [] then []
    else OptionIds(instanceID, name, options[..|options| - 1]) + [OptionId(instanceID, name, options[|options| - 1])]
  }

  /** The options of the dimensions after the first, and how many of them have any. */
  function Additional(instanceID: string, dims: seq<Dimension>): (seq<string>, nat) {
    if dims == [] then ([], 0)
    else
      var (ids, n) := Additional(instanceID, dims[..|dims| - 1]);
      var d := dims[|dims| - 1];
      if d.options == [] then (ids, n) else (ids + OptionIds(instanceID, d.name, d.options), n + 1)
  }

  function Compile(instanceID: string, dims: seq<Dimension>): seq<Part> {
    if dims == [] || IsEmpty(dims) then [AllObservations]
    else
      var first := if dims[0].options == [] then [] else [FirstDimension(OptionIds(instanceID, dims[0].name, dims[0].options))];
      var (ids, n) := Additional(instanceID, dims[1..]);
      first + if n > 0 then [AdditionalDimensions(ids, n)] else []
  }

  method BuildObservationsQuery(instanceID: string, dims: seq<Dimension>) returns (q: seq<Part>)
    ensures q == Compile(instanceID, dims)
  {
    if IsEmpty(dims) {
      return [AllObservations];
    }
    q := [];
    var additionalDimensions: nat := 0;
    var additionalOptions: seq<string> := [];
    for i := 0 to |dims|
      invariant q == if i > 0 && dims[0].options != []
                     then [FirstDimension(OptionIds(instanceID, dims[0].name, dims[0].options))] else []
      invariant (additionalOptions, additionalDimensions) == Additional(instanceID, if i > 0 then dims[1..i] else [])
    {
      if i > 0 {
        assert dims[1..i + 1][..|dims[1..i + 1]| - 1] == dims[1..i];
      }
      if |dims[i].options| > 0 {
        var ids: seq<string> := [];
        for j := 0 to |dims[i].options|
          invariant ids == OptionIds(instanceID, dims[i].name, dims[i].options[..j])
        {
          assert dims[i].options[..j + 1][..j] == dims[i].options[..j];
          ids := ids + [OptionId(instanceID, dims[i].name, dims[i].options[j])];
        }
        assert dims[i].options[..|dims[i].options|] == dims[i].options;
        if i == 0 {
          q := [FirstDimension(ids)];
        } else {
          additionalDimensions := additionalDimensions + 1;
          additionalOptions := additionalOptions + ids;
        }
      }
    }
    WholeTail(dims);
    if additionalDimensions > 0 {
      q := q + [AdditionalDimensions(additionalOptions, additionalDimensions)];
    }
  }

  lemma WholeTail(dims: seq<Dimension>)
    requires dims != []
    ensures dims[1..|dims|] == dims[1..]
  {
  }

  /** How many of the edges lead to one of the vertices. */
  function Hits(instanceID: string, links: seq<Link>, ids: seq<string>): nat {
    if links == [] then 0
    else (if OptionId(instanceID, links[0].dimension, links[0].option) in ids then 1 else 0)
         + Hits(instanceID, links[1..], ids)
  }

  /** Whether a traverser standing on the observation passes the remaining parts. */
  predicate Passes(instanceID: string, o: Observation, parts: seq<Part>) {
    parts == [] || (parts[0].AdditionalDimensions?
                    && Hits(instanceID, o.links, parts[0].ids) == parts[0].count && Passes(instanceID, o, parts[1..]))
  }

  /** How often a query returns an observation; a query that does not start at some vertices is malformed. */
  function Times(instanceID: string, q: seq<Part>, o: Observation): Option<nat> {
    if q == [] || q[0].AdditionalDimensions? then None
    else
      var arrivals := if q[0].AllObservations? then 1 else Hits(instanceID, o.links, q[0].ids);
      Some(if Passes(instanceID, o, q[1..]) then arrivals else 0)
  }

  function Copies(row: string, n: nat): seq<string> { if n == 0 then [] else [row] + Copies(row, n - 1) }

  /** The rows a traversal streams. */
  function Traverse(instanceID: string, q: seq<Part>, observations: seq<Observation>): Option<seq<string>> {
    if q == [] || q[0].AdditionalDimensions? then None
    else if observations == [] then Some([])
    else
      match (Times(instanceID, q, observations[0]), Traverse(instanceID, q, observations[1..]))
      case (Some(n), Some(rest)) => Some(Copies(observations[0].row, n) + rest)
      case _ => None
  }

  // ---------------------------------------------------------------- Neo4j: the pattern

  /** (o)-[:isValueOf]->(name:`_instance_name`) with the name's value among the options. */
  datatype Pattern = Pattern(name: string, kind: string, values: seq<string>)

  datatype Cypher = MatchAll | Match(patterns: seq<Pattern>)

  function VertexKind(instanceID: string, dimension: string): string { "_" + instanceID + "_" + dimension }

  function Patterns(instanceID: string, dims: seq<Dimension>): seq<Pattern> {
    if dims == [] then []
    else
      var d := dims[|dims| - 1];
      Patterns(instanceID, dims[..|dims| - 1])
      + if d.options == [] then [] else [Pattern(d.name, VertexKind(instanceID, d.name), d.options)]
  }

  function CypherFor(instanceID: string, dims: seq<Dimension>): Cypher {
    if IsEmpty(dims) then MatchAll else Match(Patterns(instanceID, dims))
  }

  method CreateObservationQuery(instanceID: string, dims: seq<Dimension>) returns (q: Cypher)
    ensures q == CypherFor(instanceID, dims)
  {
    if IsEmpty(dims) {
      return MatchAll;
    }
    var patterns: seq<Pattern> := [];
    for i := 0 to |dims|
      invariant patterns == Patterns(instanceID, dims[..i])
    {
      assert dims[..i + 1][..i] == dims[..i];
      if |dims[i].options| > 0 {
        patterns := patterns + [Pattern(dims[i].name, VertexKind(instanceID, dims[i].name), dims[i].options)];
      }
    }
    assert dims[..|dims|] == dims;
    return Match(patterns);
  }

  predicate Fits(instanceID: string, l: Link, p: Pattern) {
    VertexKind(instanceID, l.dimension) == p.kind && l.option in p.values
  }

  /** The variable of the observation itself in every query; a dimension's variable is its name. */
  const OBSERVATION: string := "o"

  /** What a variable is bound to: the observation, or the vertex at the end of an edge. */
  datatype Binding = Itself | EndOf(link: Link)

  /**
   The number of ways to match the patterns: an edge is used at most once in a match, and a variable that is already
   bound must be bound to the same vertex. `start` is the first edge still to be tried for the first pattern.
   */
  function Ways(
      instanceID: string, links: seq<Link>, patterns: seq<Pattern>, used: set<nat>, bound: map<string, Binding>, start: nat): nat
    decreases |patterns|, |links| - start
  {
    if patterns == [] then 1
    else if start >= |links| then 0
    else
      var p, l := patterns[0], links[start];
      var here := start !in used && Fits(instanceID, l, p) && (p.name in bound ==> bound[p.name] == EndOf(l));
      (if here then Ways(instanceID, links, patterns[1..], used + {start}, bound[p.name := EndOf(l)], 0) else 0)
      + Ways(instanceID, links, patterns, used, bound, start + 1)
  }

  /** How often the patterns match an observation. */
  function Matches(instanceID: string, o: Observation, patterns: seq<Pattern>): nat {
    Ways(instanceID, o.links, patterns, {}, map[OBSERVATION := Itself], 0)
  }

  /** The rows a Cypher query returns. */
  function RunCypher(instanceID: string, q: Cypher, observations: seq<Observation>): seq<string> {
    if observations == [] then []
    else
      var n := if q.MatchAll? then 1 else Matches(instanceID, observations[0], q.patterns);
      Copies(observations[0].row, n) + RunCypher(instanceID, q, observations[1..])
  }
}
