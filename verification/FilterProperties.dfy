/** Both backends' queries mean what the filter means, under the conditions on the graph that they rely on. */
module FilterProperties {
  import opened Options
  import opened ObservationFilter
  import Strings

  // ---------------------------------------------------------------- what the queries rely on

  /** At most one option per dimension. */
  ghost predicate OneEach(links: seq<Link>) {
    forall i, j | 0 <= i < j < |links| :: links[i].dimension != links[j].dimension
  }

  /** No two dimensions with options have the same name. */
  ghost predicate DistinctNames(dims: seq<Dimension>) {
    forall i, j | 0 <= i < j < |dims| && dims[i].options != [] && dims[j].options != [] :: dims[i].name != dims[j].name
  }

  ghost predicate UnambiguousFor(instanceID: string, links: seq<Link>, d: Dimension) {
    forall l <- links, option <- d.options ::
      OptionId(instanceID, l.dimension, l.option) == OptionId(instanceID, d.name, option) ==> l.dimension == d.name
  }

  /** An option id in the filter is never that of another dimension's option. */
  ghost predicate Unambiguous(instanceID: string, links: seq<Link>, dims: seq<Dimension>) {
    forall i | 0 <= i < |dims| :: UnambiguousFor(instanceID, links, dims[i])
  }

  lemma SameOption(instanceID: string, name: string, a: string, b: string)
    requires OptionId(instanceID, name, a) == OptionId(instanceID, name, b)
    ensures a == b
  {
    var prefix := "_" + instanceID + "_" + name + "_";
    assert (prefix + a)[|prefix|..] == a && (prefix + b)[|prefix|..] == b;
  }

  lemma {:induction false} IdAmongOptions(instanceID: string, name: string, options: seq<string>, id: string)
    ensures id in OptionIds(instanceID, name, options)
            <==> exists option :: option in options && id == OptionId(instanceID, name, option)
  {
    if options != [] {
      var init, last := options[..|options| - 1], options[|options| - 1];
      IdAmongOptions(instanceID, name, init, id);
      assert options == init + [last];
      assert last in options;
    }
  }

  /** A link leads to one of a dimension's chosen options if and only if it is a link of that dimension and is chosen. */
  lemma LinkHitsIff(instanceID: string, links: seq<Link>, l: Link, d: Dimension)
    requires l in links && UnambiguousFor(instanceID, links, d)
    ensures OptionId(instanceID, l.dimension, l.option) in OptionIds(instanceID, d.name, d.options)
            <==> l.dimension == d.name && l.option in d.options
  {
    var id := OptionId(instanceID, l.dimension, l.option);
    IdAmongOptions(instanceID, d.name, d.options, id);
    if option :| option in d.options && id == OptionId(instanceID, d.name, option) {
      SameOption(instanceID, d.name, l.option, option);
    }
  }

  // ---------------------------------------------------------------- counting

  lemma {:induction false} HitsSplit(instanceID: string, links: seq<Link>, a: seq<string>, b: seq<string>)
    requires forall l <- links ::
      !(OptionId(instanceID, l.dimension, l.option) in a && OptionId(instanceID, l.dimension, l.option) in b)
    ensures Hits(instanceID, links, a + b) == Hits(instanceID, links, a) + Hits(instanceID, links, b)
  {
    if links != [] {
      assert links[0] in links;
      HitsSplit(instanceID, links[1..], a, b);
    }
  }

  lemma {:induction false} OtherDimension(instanceID: string, links: seq<Link>, d: Dimension)
    requires UnambiguousFor(instanceID, links, d) && forall l <- links :: l.dimension != d.name
    ensures Hits(instanceID, links, OptionIds(instanceID, d.name, d.options)) == 0 && !Chooses(links, d)
  {
    if links != [] {
      assert links[0] in links;
      LinkHitsIff(instanceID, links, links[0], d);
      OtherDimension(instanceID, links[1..], d);
    }
  }

  /** With one link per dimension, a dimension is hit once or not at all. */
  lemma {:induction false} HitsOfOne(instanceID: string, links: seq<Link>, d: Dimension)
    requires OneEach(links) && UnambiguousFor(instanceID, links, d)
    ensures Hits(instanceID, links, OptionIds(instanceID, d.name, d.options)) == if Chooses(links, d) then 1 else 0
  {
    if links != [] {
      var rest := links[1..];
      assert links[0] in links;
      LinkHitsIff(instanceID, links, links[0], d);
      if links[0].dimension == d.name {
        forall l <- rest ensures l.dimension != d.name {
          var i :| 0 <= i < |rest| && rest[i] == l;
          assert links[i + 1] == l;
        }
        OtherDimension(instanceID, rest, d);
      } else {
        HitsOfOne(instanceID, rest, d);
      }
    }
  }

  /** How many of the dimensions with options are chosen. */
  ghost function Chosen(links: seq<Link>, dims: seq<Dimension>): nat {
    if dims == [] then 0
    else
      var d := dims[|dims| - 1];
      Chosen(links, dims[..|dims| - 1]) + if d.options != [] && Chooses(links, d) then 1 else 0
  }

  lemma {:induction false} AdditionalIds(instanceID: string, dims: seq<Dimension>, id: string)
    requires id in Additional(instanceID, dims).0
    ensures exists i :: 0 <= i < |dims| && dims[i].options != [] && id in OptionIds(instanceID, dims[i].name, dims[i].options)
  {
    var d := dims[|dims| - 1];
    if d.options != [] && id in OptionIds(instanceID, d.name, d.options) {
    } else {
      var init := dims[..|dims| - 1];
      AdditionalIds(instanceID, init, id);
      var i :| 0 <= i < |init| && init[i].options != [] && id in OptionIds(instanceID, init[i].name, init[i].options);
      assert dims[i] == init[i];
    }
  }

  lemma LastIsApart(instanceID: string, links: seq<Link>, dims: seq<Dimension>, l: Link)
    requires dims != [] && dims[|dims| - 1].options != []
    requires DistinctNames(dims) && Unambiguous(instanceID, links, dims) && l in links
    ensures var d := dims[|dims| - 1]; var id := OptionId(instanceID, l.dimension, l.option);
      !(id in Additional(instanceID, dims[..|dims| - 1]).0 && id in OptionIds(instanceID, d.name, d.options))
  {
    var d, init := dims[|dims| - 1], dims[..|dims| - 1];
    var id := OptionId(instanceID, l.dimension, l.option);
    if id in Additional(instanceID, init).0 && id in OptionIds(instanceID, d.name, d.options) {
      AdditionalIds(instanceID, init, id);
      var i :| 0 <= i < |init| && init[i].options != [] && id in OptionIds(instanceID, init[i].name, init[i].options);
      LinkHitsIff(instanceID, links, l, dims[i]);
      LinkHitsIff(instanceID, links, l, d);
      assert false;
    }
  }

  /** The counting form: the edges that hit any of the options are as many as the dimensions that are chosen. */
  lemma {:induction false} HitsCountChosen(instanceID: string, links: seq<Link>, dims: seq<Dimension>)
    requires OneEach(links) && DistinctNames(dims) && Unambiguous(instanceID, links, dims)
    ensures Hits(instanceID, links, Additional(instanceID, dims).0) == Chosen(links, dims)
  {
    if dims == [] {
      HitsNothing(instanceID, links);
    } else {
      var d, init := dims[|dims| - 1], dims[..|dims| - 1];
      HitsCountChosen(instanceID, links, init);
      if d.options != [] {
        assert UnambiguousFor(instanceID, links, dims[|dims| - 1]);
        forall l <- links ensures !(OptionId(instanceID, l.dimension, l.option) in Additional(instanceID, init).0
            && OptionId(instanceID, l.dimension, l.option) in OptionIds(instanceID, d.name, d.options)) {
          LastIsApart(instanceID, links, dims, l);
        }
        HitsSplit(instanceID, links, Additional(instanceID, init).0, OptionIds(instanceID, d.name, d.options));
        HitsOfOne(instanceID, links, d);
      }
    }
  }

  lemma {:induction false} HitsNothing(instanceID: string, links: seq<Link>)
    ensures Hits(instanceID, links, []) == 0
  {
    if links != [] {
      HitsNothing(instanceID, links[1..]);
    }
  }

  /** The names of the dimensions with options. */
  ghost function NamesOf(dims: seq<Dimension>): set<string> {
    if dims == [] then {}
    else
      var d := dims[|dims| - 1];
      NamesOf(dims[..|dims| - 1]) + if d.options != [] then {d.name} else {}
  }

  lemma {:induction false} NameIsOf(dims: seq<Dimension>, name: string)
    ensures name in NamesOf(dims) <==> HasName(dims, name)
  {
    if dims != [] {
      var d, init := dims[|dims| - 1], dims[..|dims| - 1];
      NameIsOf(init, name);
      if HasName(init, name) {
        var i :| 0 <= i < |init| && init[i].options != [] && init[i].name == name;
        assert dims[i] == init[i];
      }
      if HasName(dims, name) {
        var i :| 0 <= i < |dims| && dims[i].options != [] && dims[i].name == name;
        assert i < |init| ==> init[i] == dims[i];
      }
    }
  }

  ghost predicate HasName(dims: seq<Dimension>, name: string) {
    exists i :: 0 <= i < |dims| && dims[i].options != [] && dims[i].name == name
  }

  lemma NamesOfInit(dims: seq<Dimension>)
    requires dims != []
    ensures var d, init := dims[|dims| - 1], dims[..|dims| - 1];
      DistinctNames(dims) <==> DistinctNames(init) && (d.options != [] ==> d.name !in NamesOf(init))
  {
    var d, init := dims[|dims| - 1], dims[..|dims| - 1];
    NameIsOf(init, d.name);
    if DistinctNames(dims) {
      forall i, j | 0 <= i < j < |init| && init[i].options != [] && init[j].options != [] ensures init[i].name != init[j].name {
        assert init[i] == dims[i] && init[j] == dims[j];
      }
      forall i | d.options != [] && 0 <= i < |init| && init[i].options != [] ensures init[i].name != d.name {
        assert init[i] == dims[i];
      }
    }
  }

  /** There are as many names as dimensions with options if no name is repeated, and fewer otherwise. */
  lemma {:induction false} NamesCount(instanceID: string, dims: seq<Dimension>)
    ensures |NamesOf(dims)| <= Additional(instanceID, dims).1
    ensures |NamesOf(dims)| == Additional(instanceID, dims).1 <==> DistinctNames(dims)
  {
    if dims != [] {
      NamesCount(instanceID, dims[..|dims| - 1]);
      NamesOfInit(dims);
    }
  }

  lemma {:induction false} HitsAtMostNames(instanceID: string, links: seq<Link>, ids: seq<string>, names: set<string>)
    requires OneEach(links) && forall l <- links :: OptionId(instanceID, l.dimension, l.option) in ids ==> l.dimension in names
    ensures Hits(instanceID, links, ids) <= |names|
  {
    if links != [] {
      var rest, l := links[1..], links[0];
      assert l in links;
      if OptionId(instanceID, l.dimension, l.option) in ids {
        forall k <- rest ensures k.dimension != l.dimension {
          var i :| 0 <= i < |rest| && rest[i] == k;
          assert links[i + 1] == k;
        }
        HitsAtMostNames(instanceID, rest, ids, names - {l.dimension});
      } else {
        HitsAtMostNames(instanceID, rest, ids, names);
      }
    }
  }

  /** If a name is repeated, no observation can hit as often as there are dimensions with options. */
  lemma RepeatedNameIsNeverReached(instanceID: string, links: seq<Link>, dims: seq<Dimension>)
    requires OneEach(links) && Unambiguous(instanceID, links, dims) && !DistinctNames(dims)
    ensures Hits(instanceID, links, Additional(instanceID, dims).0) < Additional(instanceID, dims).1
  {
    var ids := Additional(instanceID, dims).0;
    forall l <- links ensures OptionId(instanceID, l.dimension, l.option) in ids ==> l.dimension in NamesOf(dims) {
      if OptionId(instanceID, l.dimension, l.option) in ids {
        AdditionalIds(instanceID, dims, OptionId(instanceID, l.dimension, l.option));
        var i :| 0 <= i < |dims| && dims[i].options != []
                 && OptionId(instanceID, l.dimension, l.option) in OptionIds(instanceID, dims[i].name, dims[i].options);
        LinkHitsIff(instanceID, links, l, dims[i]);
        NameIsOf(dims, l.dimension);
      }
    }
    HitsAtMostNames(instanceID, links, ids, NamesOf(dims));
    NamesCount(instanceID, dims);
  }

  lemma {:induction false} SelectedAppend(o: Observation, dims: seq<Dimension>, d: Dimension)
    ensures Selected(o, dims + [d]) <==> Selected(o, dims) && (d.options == [] || Chooses(o.links, d))
  {
    if dims == [] {
      assert (dims + [d])[1..] == [];
    } else {
      SelectedAppend(o, dims[1..], d);
      assert (dims + [d])[1..] == dims[1..] + [d] && (dims + [d])[0] == dims[0];
    }
  }

  /** Counting them all means that every one is chosen. */
  lemma {:induction false} AllChosenIff(instanceID: string, o: Observation, dims: seq<Dimension>)
    ensures Chosen(o.links, dims) <= Additional(instanceID, dims).1
    ensures Chosen(o.links, dims) == Additional(instanceID, dims).1 <==> Selected(o, dims)
  {
    if dims != [] {
      var d, init := dims[|dims| - 1], dims[..|dims| - 1];
      AllChosenIff(instanceID, o, init);
      SelectedAppend(o, init, d);
      assert dims == init + [d];
    }
  }

  // ---------------------------------------------------------------- Neptune

  /** The compiled query is malformed exactly when the filter is not empty but its first dimension has no options. */
  lemma {:induction false} MalformedIff(instanceID: string, dims: seq<Dimension>, observations: seq<Observation>)
    ensures Traverse(instanceID, Compile(instanceID, dims), observations) == None
            <==> !IsEmpty(dims) && dims[0].options == []
  {
    TraverseStarts(instanceID, Compile(instanceID, dims), observations);
  }

  lemma {:induction false} TraverseStarts(instanceID: string, q: seq<Part>, observations: seq<Observation>)
    ensures Traverse(instanceID, q, observations) == None <==> q == [] || q[0].AdditionalDimensions?
  {
    if observations != [] {
      TraverseStarts(instanceID, q, observations[1..]);
    }
  }

  /**
   The traversal returns an observation once if it is selected in every dimension with options and no two of the dimensions
   after the first that have options share a name, else not at all.
   */
  lemma {:induction false} NeptuneReturnsOnceIff(instanceID: string, dims: seq<Dimension>, o: Observation)
    requires !IsEmpty(dims) && dims[0].options != []
    requires OneEach(o.links) && Unambiguous(instanceID, o.links, dims)
    ensures Times(instanceID, Compile(instanceID, dims), o)
            == Some(if DistinctNames(dims[1..]) && Selected(o, dims) then 1 else 0)
  {
    var rest := dims[1..];
    assert UnambiguousFor(instanceID, o.links, dims[0]);
    HitsOfOne(instanceID, o.links, dims[0]);
    forall i | 0 <= i < |rest| ensures UnambiguousFor(instanceID, o.links, rest[i]) {
      assert rest[i] == dims[i + 1];
    }
    if DistinctNames(rest) {
      HitsCountChosen(instanceID, o.links, rest);
      AllChosenIff(instanceID, o, rest);
    } else {
      RepeatedNameIsNeverReached(instanceID, o.links, rest);
    }
    CompiledShape(instanceID, dims, o);
  }

  lemma CompiledShape(instanceID: string, dims: seq<Dimension>, o: Observation)
    requires !IsEmpty(dims) && dims[0].options != []
    ensures var (ids, n) := Additional(instanceID, dims[1..]);
      Times(instanceID, Compile(instanceID, dims), o)
      == Some(if n > 0 && Hits(instanceID, o.links, ids) != n then 0
              else Hits(instanceID, o.links, OptionIds(instanceID, dims[0].name, dims[0].options)))
  {
    var q := Compile(instanceID, dims);
    var (ids, n) := Additional(instanceID, dims[1..]);
    assert q[0] == FirstDimension(OptionIds(instanceID, dims[0].name, dims[0].options));
    if n > 0 {
      assert q[1..] == [AdditionalDimensions(ids, n)];
      assert q[1..][1..] == [];
      assert Passes(instanceID, o, q[1..][1..]);
      assert Passes(instanceID, o, q[1..]) <==> Hits(instanceID, o.links, ids) == n;
    } else {
      assert q[1..] == [];
    }
  }

  ghost predicate Suits(instanceID: string, observations: seq<Observation>, dims: seq<Dimension>) {
    forall o <- observations :: OneEach(o.links) && Unambiguous(instanceID, o.links, dims)
  }

  lemma CopiesOne(row: string)
    ensures Copies(row, 1) == [row]
  {
    assert Copies(row, 1) == [row] + Copies(row, 0);
  }

  /**
   Neptune streams exactly the rows the filter stands for, each once, unless a name is repeated after the first dimension;
   then it streams nothing.
   */
  lemma {:induction false} NeptuneMeansFilter(instanceID: string, dims: seq<Dimension>, observations: seq<Observation>)
    requires IsEmpty(dims) || dims[0].options != []
    requires Suits(instanceID, observations, dims)
    ensures Traverse(instanceID, Compile(instanceID, dims), observations)
            == Some(if IsEmpty(dims) || DistinctNames(dims[1..]) then Wanted(observations, dims) else [])
  {
    if observations != [] {
      var o := observations[0];
      assert o in observations;
      var q := Compile(instanceID, dims);
      NeptuneMeansFilter(instanceID, dims, observations[1..]);
      CopiesOne(o.row);
      if !IsEmpty(dims) {
        NeptuneReturnsOnceIff(instanceID, dims, o);
      }
      var later := Traverse(instanceID, q, observations[1..]).value;
      assert Traverse(instanceID, q, observations) == Some(Copies(o.row, Times(instanceID, q, o).value) + later);
      assert Copies(o.row, 0) + later == later;
      if IsEmpty(dims) {
        assert q[1..] == [] && Times(instanceID, q, o) == Some(1);
      }
    } else {
      MalformedIff(instanceID, dims, observations);
    }
  }

  // ---------------------------------------------------------------- Neo4j

  lemma FitsIff(instanceID: string, l: Link, d: Dimension)
    ensures Fits(instanceID, l, Pattern(d.name, VertexKind(instanceID, d.name), d.options))
            <==> l.dimension == d.name && l.option in d.options
  {
    var prefix := "_" + instanceID + "_";
    assert (prefix + l.dimension)[|prefix|..] == l.dimension && (prefix + d.name)[|prefix|..] == d.name;
  }

  ghost predicate FitsFrom(instanceID: string, links: seq<Link>, p: Pattern, start: nat)
    decreases |links| - start
  {
    start < |links| && (Fits(instanceID, links[start], p) || FitsFrom(instanceID, links, p, start + 1))
  }

  ghost predicate AllFit(instanceID: string, links: seq<Link>, patterns: seq<Pattern>) {
    patterns == [] || (FitsFrom(instanceID, links, patterns[0], 0) && AllFit(instanceID, links, patterns[1..]))
  }

  /** Patterns as the driver writes them: labelled by their own names, which differ. */
  ghost predicate WellNamed(instanceID: string, patterns: seq<Pattern>) {
    && OwnKinds(instanceID, patterns)
    && (forall i, j | 0 <= i < j < |patterns| :: patterns[i].name != patterns[j].name)
  }

  /** None of the patterns is about a dimension already matched. */
  ghost predicate Untouched(links: seq<Link>, patterns: seq<Pattern>, used: set<nat>, bound: map<string, Binding>) {
    forall i | 0 <= i < |patterns| :: patterns[i].name !in bound
                                      && forall u | u in used && u < |links| :: links[u].dimension != patterns[i].name
  }

  lemma {:induction false} FitsOnlyOnce(instanceID: string, links: seq<Link>, p: Pattern, i: nat, start: nat)
    requires OneEach(links) && i < start && i < |links| && Fits(instanceID, links[i], p)
    requires p.kind == VertexKind(instanceID, p.name)
    ensures !FitsFrom(instanceID, links, p, start)
    decreases |links| - start
  {
    if start < |links| {
      FitsOnlyOnce(instanceID, links, p, i, start + 1);
      FitsIff(instanceID, links[i], Dimension(p.name, p.values));
      FitsIff(instanceID, links[start], Dimension(p.name, p.values));
    }
  }

  /** With one link per dimension and patterns whose names differ and are not bound yet there is one match or none. */
  lemma {:induction false} OneWayOrNone(
      instanceID: string, links: seq<Link>, patterns: seq<Pattern>, used: set<nat>, bound: map<string, Binding>, start: nat)
    requires OneEach(links) && WellNamed(instanceID, patterns) && Untouched(links, patterns, used, bound)
    ensures Ways(instanceID, links, patterns, used, bound, start)
            == if patterns == [] || (FitsFrom(instanceID, links, patterns[0], start) && AllFit(instanceID, links, patterns[1..]))
               then 1 else 0
    decreases |patterns|, |links| - start
  {
    if patterns != [] && start < |links| {
      var p, l := patterns[0], links[start];
      OneWayOrNone(instanceID, links, patterns, used, bound, start + 1);
      FitsIff(instanceID, l, Dimension(p.name, p.values));
      if Fits(instanceID, l, p) {
        FitsOnlyOnce(instanceID, links, p, start, start + 1);
        var rest := patterns[1..];
        assert Untouched(links, rest, used + {start}, bound[p.name := EndOf(l)]) by {
          forall i | 0 <= i < |rest| ensures rest[i].name !in bound[p.name := EndOf(l)]
              && forall u | u in used + {start} && u < |links| :: links[u].dimension != rest[i].name {
            assert rest[i] == patterns[i + 1];
          }
        }
        OneWayOrNone(instanceID, links, rest, used + {start}, bound[p.name := EndOf(l)], 0);
      }
    }
  }

  /** Pattern `i` is about a dimension whose only link is already used. */
  ghost predicate Touched(links: seq<Link>, patterns: seq<Pattern>, used: set<nat>, i: nat) {
    i < |patterns| && exists u :: u in used && u < |links| && links[u].dimension == patterns[i].name
  }

  ghost predicate OwnKinds(instanceID: string, patterns: seq<Pattern>) {
    forall i | 0 <= i < |patterns| :: patterns[i].kind == VertexKind(instanceID, patterns[i].name)
  }

  /** A dimension whose link is used cannot be matched again. */
  lemma {:induction false} NoWayTwice(
      instanceID: string, links: seq<Link>, patterns: seq<Pattern>, used: set<nat>, bound: map<string, Binding>, start: nat, i: nat)
    requires OneEach(links) && OwnKinds(instanceID, patterns) && Touched(links, patterns, used, i)
    ensures Ways(instanceID, links, patterns, used, bound, start) == 0
    decreases |patterns|, |links| - start
  {
    if start < |links| {
      var p, l := patterns[0], links[start];
      NoWayTwice(instanceID, links, patterns, used, bound, start + 1, i);
      FitsIff(instanceID, l, Dimension(p.name, p.values));
      var u :| u in used && u < |links| && links[u].dimension == patterns[i].name;
      if i > 0 && start !in used {
        assert patterns[1..][i - 1] == patterns[i] && u in used + {start};
        NoWayTwice(instanceID, links, patterns[1..], used + {start}, bound[p.name := EndOf(l)], 0, i - 1);
      }
    }
  }

  /** So a name that is repeated leaves no match. */
  lemma {:induction false} NoWayWithRepeatedName(
      instanceID: string, links: seq<Link>, patterns: seq<Pattern>, used: set<nat>, bound: map<string, Binding>, start: nat,
      i: nat, j: nat)
    requires OneEach(links) && OwnKinds(instanceID, patterns)
    requires i < j < |patterns| && patterns[i].name == patterns[j].name
    ensures Ways(instanceID, links, patterns, used, bound, start) == 0
    decreases |patterns|, |links| - start
  {
    if start < |links| {
      var p, l := patterns[0], links[start];
      NoWayWithRepeatedName(instanceID, links, patterns, used, bound, start + 1, i, j);
      FitsIff(instanceID, l, Dimension(p.name, p.values));
      if Fits(instanceID, l, p) {
        assert patterns[1..][j - 1] == patterns[j];
        if i == 0 {
          assert start in used + {start};
          NoWayTwice(instanceID, links, patterns[1..], used + {start}, bound[p.name := EndOf(l)], 0, j - 1);
        } else {
          assert patterns[1..][i - 1] == patterns[i];
          NoWayWithRepeatedName(instanceID, links, patterns[1..], used + {start}, bound[p.name := EndOf(l)], 0, i - 1, j - 1);
        }
      }
    }
  }

  lemma {:induction false} ChoosesIff(instanceID: string, links: seq<Link>, d: Dimension, start: nat)
    requires start <= |links|
    ensures FitsFrom(instanceID, links, Pattern(d.name, VertexKind(instanceID, d.name), d.options), start)
            <==> Chooses(links[start..], d)
    decreases |links| - start
  {
    if start < |links| {
      FitsIff(instanceID, links[start], d);
      ChoosesIff(instanceID, links, d, start + 1);
      assert links[start..][1..] == links[start + 1..];
    }
  }

  lemma {:induction false} AllFitAppend(instanceID: string, links: seq<Link>, patterns: seq<Pattern>, p: Pattern)
    ensures AllFit(instanceID, links, patterns + [p])
            <==> AllFit(instanceID, links, patterns) && FitsFrom(instanceID, links, p, 0)
  {
    if patterns == [] {
      assert (patterns + [p])[1..] == [];
    } else {
      AllFitAppend(instanceID, links, patterns[1..], p);
      assert (patterns + [p])[1..] == patterns[1..] + [p] && (patterns + [p])[0] == patterns[0];
    }
  }

  lemma {:induction false} AllFitIff(instanceID: string, o: Observation, dims: seq<Dimension>)
    ensures AllFit(instanceID, o.links, Patterns(instanceID, dims)) <==> Selected(o, dims)
  {
    if dims != [] {
      var d, init := dims[|dims| - 1], dims[..|dims| - 1];
      AllFitIff(instanceID, o, init);
      SelectedAppend(o, init, d);
      assert dims == init + [d];
      if d.options != [] {
        AllFitAppend(instanceID, o.links, Patterns(instanceID, init),
                     Pattern(d.name, VertexKind(instanceID, d.name), d.options));
        ChoosesIff(instanceID, o.links, d, 0);
        assert o.links[0..] == o.links;
      } else {
        assert Patterns(instanceID, dims) == Patterns(instanceID, init);
      }
    }
  }

  ghost predicate HasPattern(patterns: seq<Pattern>, name: string) {
    exists i :: 0 <= i < |patterns| && patterns[i].name == name
  }

  lemma {:induction false} PatternNames(instanceID: string, dims: seq<Dimension>, name: string)
    ensures HasPattern(Patterns(instanceID, dims), name) <==> name in NamesOf(dims)
  {
    if dims != [] {
      var d, before := dims[|dims| - 1], Patterns(instanceID, dims[..|dims| - 1]);
      PatternNames(instanceID, dims[..|dims| - 1], name);
      if d.options != [] {
        OneMorePattern(before, Pattern(d.name, VertexKind(instanceID, d.name), d.options), name);
      } else {
        assert Patterns(instanceID, dims) == before;
      }
    }
  }

  lemma OneMorePattern(patterns: seq<Pattern>, p: Pattern, name: string)
    ensures HasPattern(patterns + [p], name) <==> HasPattern(patterns, name) || p.name == name
  {
    if HasPattern(patterns, name) {
      var i :| 0 <= i < |patterns| && patterns[i].name == name;
      assert (patterns + [p])[i] == patterns[i];
    }
    assert (patterns + [p])[|patterns|] == p;
  }

  /** The patterns have different names exactly if the dimensions with options do. */
  lemma {:induction false} PatternsWellNamed(instanceID: string, dims: seq<Dimension>)
    ensures OwnKinds(instanceID, Patterns(instanceID, dims))
    ensures WellNamed(instanceID, Patterns(instanceID, dims)) <==> DistinctNames(dims)
  {
    if dims != [] {
      var d, init := dims[|dims| - 1], dims[..|dims| - 1];
      PatternsWellNamed(instanceID, init);
      NamesOfInit(dims);
      PatternNames(instanceID, init, d.name);
      if d.options != [] {
        LastPatternName(Patterns(instanceID, init), Pattern(d.name, VertexKind(instanceID, d.name), d.options));
      } else {
        assert Patterns(instanceID, dims) == Patterns(instanceID, init);
      }
    }
  }

  ghost predicate DifferentNames(patterns: seq<Pattern>) {
    forall i, j | 0 <= i < j < |patterns| :: patterns[i].name != patterns[j].name
  }

  lemma LastPatternName(patterns: seq<Pattern>, p: Pattern)
    ensures DifferentNames(patterns + [p]) <==> DifferentNames(patterns) && !HasPattern(patterns, p.name)
  {
    var all := patterns + [p];
    if DifferentNames(all) {
      forall i, j | 0 <= i < j < |patterns| ensures patterns[i].name != patterns[j].name {
        assert all[i] == patterns[i] && all[j] == patterns[j];
      }
      forall i | 0 <= i < |patterns| ensures patterns[i].name != p.name {
        assert all[i] == patterns[i] && all[|patterns|] == p;
      }
    }
  }

  /** A pattern named like the observation's variable asks for an edge from the observation to itself. */
  lemma {:induction false} NoWayToItself(
      instanceID: string, links: seq<Link>, patterns: seq<Pattern>, used: set<nat>, bound: map<string, Binding>, start: nat,
      i: nat)
    requires i < |patterns| && patterns[i].name in bound && bound[patterns[i].name] == Itself
    ensures Ways(instanceID, links, patterns, used, bound, start) == 0
    decreases |patterns|, |links| - start
  {
    if start < |links| {
      var p, l := patterns[0], links[start];
      NoWayToItself(instanceID, links, patterns, used, bound, start + 1, i);
      if i > 0 && (p.name in bound ==> bound[p.name] == EndOf(l)) {
        assert patterns[1..][i - 1] == patterns[i];
        NoWayToItself(instanceID, links, patterns[1..], used + {start}, bound[p.name := EndOf(l)], 0, i - 1);
      }
    }
  }

  /** Each dimension with options has a variable of its own in the pattern: no name is repeated, and none is the observation's. */
  ghost predicate OwnVariables(dims: seq<Dimension>) {
    DistinctNames(dims) && !HasName(dims, OBSERVATION)
  }

  /** Neo4j matches an observation in one way if it is selected and the dimensions with options have their own variables. */
  lemma Neo4jReturnsOnceIff(instanceID: string, dims: seq<Dimension>, o: Observation)
    requires OneEach(o.links)
    ensures Matches(instanceID, o, Patterns(instanceID, dims)) == if OwnVariables(dims) && Selected(o, dims) then 1 else 0
  {
    var patterns, bound := Patterns(instanceID, dims), map[OBSERVATION := Itself];
    PatternsWellNamed(instanceID, dims);
    PatternNames(instanceID, dims, OBSERVATION);
    NameIsOf(dims, OBSERVATION);
    if OwnVariables(dims) {
      OneWayOrNone(instanceID, o.links, patterns, {}, bound, 0);
      AllFitIff(instanceID, o, dims);
    } else if DistinctNames(dims) {
      var i :| 0 <= i < |patterns| && patterns[i].name == OBSERVATION;
      NoWayToItself(instanceID, o.links, patterns, {}, bound, 0, i);
    } else {
      var i, j :| 0 <= i < j < |patterns| && patterns[i].name == patterns[j].name;
      NoWayWithRepeatedName(instanceID, o.links, patterns, {}, bound, 0, i, j);
    }
  }

  /**
   Neo4j returns exactly the rows the filter stands for, each once, unless a name is repeated or is the observation's
   variable; then it returns nothing. It needs no condition on ids.
   */
  lemma {:induction false} Neo4jMeansFilter(instanceID: string, dims: seq<Dimension>, observations: seq<Observation>)
    requires forall o <- observations :: OneEach(o.links)
    ensures RunCypher(instanceID, CypherFor(instanceID, dims), observations)
            == if IsEmpty(dims) || OwnVariables(dims) then Wanted(observations, dims) else []
  {
    if observations != [] {
      var o := observations[0];
      assert o in observations;
      Neo4jMeansFilter(instanceID, dims, observations[1..]);
      CopiesOne(o.row);
      if !IsEmpty(dims) {
        Neo4jReturnsOnceIff(instanceID, dims, o);
      }
    }
  }

  lemma {:induction false} NothingWantedIff(observations: seq<Observation>, dims: seq<Dimension>)
    requires !IsEmpty(dims)
    ensures Wanted(observations, dims) == [] <==> forall o <- observations :: !Selected(o, dims)
  {
    if observations != [] {
      NothingWantedIff(observations[1..], dims);
      assert observations[0] in observations;
      assert forall o :: o in observations <==> o == observations[0] || o in observations[1..];
      assert |Wanted(observations, dims)|
          == (if Selected(observations[0], dims) then 1 else 0) + |Wanted(observations[1..], dims)|;
    }
  }

  /**
   When the two backends return the same rows: the filter is empty; or its first dimension has options and the dimensions
   have their own variables, or a name is repeated after the first dimension so that both return nothing, or nothing is selected
   anyway. What is left is a name that only the first dimension shares with a later one, or that is the observation's variable:
   Neptune answers as intended and Neo4j does not.
   */
  lemma BackendsAgreeIff(instanceID: string, dims: seq<Dimension>, observations: seq<Observation>)
    requires Suits(instanceID, observations, dims)
    ensures Traverse(instanceID, Compile(instanceID, dims), observations)
            == Some(RunCypher(instanceID, CypherFor(instanceID, dims), observations))
            <==> IsEmpty(dims)
                 || (dims[0].options != []
                     && (OwnVariables(dims) || !DistinctNames(dims[1..]) || forall o <- observations :: !Selected(o, dims)))
  {
    MalformedIff(instanceID, dims, observations);
    Neo4jMeansFilter(instanceID, dims, observations);
    if !IsEmpty(dims) {
      NothingWantedIff(observations, dims);
      if DistinctNames(dims) {
        NamesOfTail(dims);
      }
    }
    if IsEmpty(dims) || dims[0].options != [] {
      NeptuneMeansFilter(instanceID, dims, observations);
    }
  }

  lemma NamesOfTail(dims: seq<Dimension>)
    requires dims != [] && DistinctNames(dims)
    ensures DistinctNames(dims[1..])
  {
    var rest := dims[1..];
    forall i, j | 0 <= i < j < |rest| && rest[i].options != [] && rest[j].options != [] ensures rest[i].name != rest[j].name {
      assert rest[i] == dims[i + 1] && rest[j] == dims[j + 1];
    }
  }

  // ---------------------------------------------------------------- filters that do not restrict

  /** The filter is taken to be empty exactly if no dimension has both a name and options. */
  lemma {:induction false} EmptyIff(dims: seq<Dimension>)
    ensures IsEmpty(dims) <==> forall i | 0 <= i < |dims| :: dims[i].name == "" || dims[i].options == []
  {
    if dims != [] {
      var rest := dims[1..];
      EmptyIff(rest);
      forall i | 0 < i < |dims| ensures dims[i] == rest[i - 1] {
      }
    }
  }

  function RowsOf(observations: seq<Observation>): seq<string> {
    seq(|observations|, i requires 0 <= i < |observations| => observations[i].row)
  }

  lemma {:induction false} EmptyWantsAll(observations: seq<Observation>, dims: seq<Dimension>)
    requires IsEmpty(dims)
    ensures Wanted(observations, dims) == RowsOf(observations)
  {
    if observations != [] {
      EmptyWantsAll(observations[1..], dims);
      assert RowsOf(observations) == [observations[0].row] + RowsOf(observations[1..]);
    }
  }

  /** Then both return every row once, in the order of the observations; options of a dimension without a name are ignored. */
  lemma UnrestrictedReturnsAll(instanceID: string, dims: seq<Dimension>, observations: seq<Observation>)
    requires forall i | 0 <= i < |dims| :: dims[i].name == "" || dims[i].options == []
    ensures Traverse(instanceID, Compile(instanceID, dims), observations) == Some(RowsOf(observations))
    ensures RunCypher(instanceID, CypherFor(instanceID, dims), observations) == RowsOf(observations)
  {
    EmptyIff(dims);
    EmptyWantsAll(observations, dims);
    AllStreamed(instanceID, observations);
    AllMatched(instanceID, observations);
  }

  lemma {:induction false} AllStreamed(instanceID: string, observations: seq<Observation>)
    ensures Traverse(instanceID, [AllObservations], observations) == Some(RowsOf(observations))
  {
    if observations == [] {
      assert RowsOf(observations) == [];
    } else {
      AllStreamed(instanceID, observations[1..]);
      CopiesOne(observations[0].row);
      assert RowsOf(observations) == [observations[0].row] + RowsOf(observations[1..]);
    }
  }

  lemma {:induction false} AllMatched(instanceID: string, observations: seq<Observation>)
    ensures RunCypher(instanceID, MatchAll, observations) == RowsOf(observations)
  {
    if observations != [] {
      AllMatched(instanceID, observations[1..]);
      CopiesOne(observations[0].row);
      assert RowsOf(observations) == [observations[0].row] + RowsOf(observations[1..]);
    }
  }

  // ---------------------------------------------------------------- why the conditions are needed

  lemma FirstUnderscore(a: string, s: string)
    requires '_' !in a
    ensures forall i | 0 <= i < |a| :: (a + "_" + s)[i] != '_'
    ensures (a + "_" + s)[|a|] == '_' && (a + "_" + s)[..|a|] == a
  {
  }

  lemma UnderscoreSplits(a: string, b: string, s: string, t: string)
    requires '_' !in a && '_' !in b && a + "_" + s == b + "_" + t
    ensures a == b
  {
    FirstUnderscore(a, s);
    FirstUnderscore(b, t);
    assert |a| == |b|;
  }

  /** Names without underscores rule that out, whatever the options. */
  lemma NoUnderscoresNoClash(instanceID: string, links: seq<Link>, dims: seq<Dimension>)
    requires forall l <- links :: '_' !in l.dimension
    requires forall i | 0 <= i < |dims| :: '_' !in dims[i].name
    ensures Unambiguous(instanceID, links, dims)
  {
    forall i, l, option | 0 <= i < |dims| && l in links && option in dims[i].options
        && OptionId(instanceID, l.dimension, l.option) == OptionId(instanceID, dims[i].name, option)
      ensures l.dimension == dims[i].name {
      var prefix := "_" + instanceID + "_";
      assert OptionId(instanceID, l.dimension, l.option)[|prefix|..] == l.dimension + "_" + l.option;
      assert OptionId(instanceID, dims[i].name, option)[|prefix|..] == dims[i].name + "_" + option;
      UnderscoreSplits(l.dimension, dims[i].name, l.option, option);
    }
  }

  /** What a filter means when the case of dimension names does not matter. */
  ghost function Lowered(dims: seq<Dimension>): seq<Dimension> {
    if dims == [] then [] else [dims[0].(name := Strings.ToLower(dims[0].name))] + Lowered(dims[1..])
  }

  /** Every dimension with options has a lower-case name. */
  ghost predicate LowerNames(dims: seq<Dimension>) {
    dims == [] || ((dims[0].options == [] || Strings.IsLower(dims[0].name)) && LowerNames(dims[1..]))
  }

  /** Observations are linked under lower-case names, so a dimension with a capital in its name is never chosen. */
  lemma {:induction false} SelectedByLowerNames(o: Observation, dims: seq<Dimension>)
    requires forall l <- o.links :: Strings.IsLower(l.dimension)
    ensures Selected(o, dims) <==> LowerNames(dims) && Selected(o, Lowered(dims))
  {
    if dims != [] {
      SelectedByLowerNames(o, dims[1..]);
      var d := dims[0];
      assert Lowered(dims)[0] == d.(name := Strings.ToLower(d.name)) && Lowered(dims)[1..] == Lowered(dims[1..]);
      if Strings.IsLower(d.name) {
        Strings.LowerStays(d.name);
      } else {
        forall l <- o.links ensures l.dimension != d.name {
        }
        NoneChosen(o.links, d);
      }
    }
  }

  lemma {:induction false} NoneChosen(links: seq<Link>, d: Dimension)
    requires forall l <- links :: l.dimension != d.name
    ensures !Chooses(links, d)
  {
    if links != [] {
      assert links[0] in links;
      NoneChosen(links[1..], d);
    }
  }

  /**
   With the case of names disregarded, as it is when observations are stored: a selected observation is returned, by either
   backend, exactly if every dimension with options has a lower-case name, no name is repeated where it matters and, in Neo4j,
   none is the observation's variable; and nothing else is ever returned.
   */
  lemma ReturnedIffLowerNames(instanceID: string, dims: seq<Dimension>, o: Observation)
    requires !IsEmpty(dims) && dims[0].options != []
    requires OneEach(o.links) && Unambiguous(instanceID, o.links, dims) && forall l <- o.links :: Strings.IsLower(l.dimension)
    ensures Times(instanceID, Compile(instanceID, dims), o)
            == Some(if LowerNames(dims) && DistinctNames(dims[1..]) && Selected(o, Lowered(dims)) then 1 else 0)
    ensures Matches(instanceID, o, Patterns(instanceID, dims))
            == if LowerNames(dims) && OwnVariables(dims) && Selected(o, Lowered(dims)) then 1 else 0
  {
    SelectedByLowerNames(o, dims);
    NeptuneReturnsOnceIff(instanceID, dims, o);
    Neo4jReturnsOnceIff(instanceID, dims, o);
  }

  /**
   When a name loses rows. Of an observation that is selected, Neptune's traversal finds it exactly if no name is repeated
   after the first dimension, and Neo4j's pattern exactly if none is repeated at all and none is the observation's variable.
   */
  lemma NamesLoseRows(instanceID: string, dims: seq<Dimension>, o: Observation)
    requires !IsEmpty(dims) && dims[0].options != [] && Selected(o, dims)
    requires OneEach(o.links) && Unambiguous(instanceID, o.links, dims)
    ensures Times(instanceID, Compile(instanceID, dims), o) == Some(1) <==> DistinctNames(dims[1..])
    ensures Matches(instanceID, o, Patterns(instanceID, dims)) == 1 <==> OwnVariables(dims)
  {
    NeptuneReturnsOnceIff(instanceID, dims, o);
    Neo4jReturnsOnceIff(instanceID, dims, o);
  }

  /** An observation with the only option asked for, of a dimension that is named like the observation's variable. */
  lemma VariableNameDiffers(instanceID: string, option: string, row: string)
    ensures var dims, all := [Dimension(OBSERVATION, [option])], [Observation(row, [Link(OBSERVATION, option)])];
      && Traverse(instanceID, Compile(instanceID, dims), all) == Some([row])
      && RunCypher(instanceID, CypherFor(instanceID, dims), all) == []
  {
    var dims, all := [Dimension(OBSERVATION, [option])], [Observation(row, [Link(OBSERVATION, option)])];
    var o := all[0];
    assert o.links[0] == Link(OBSERVATION, option) && dims[0].name == OBSERVATION;
    assert Chooses(o.links, dims[0]) && dims[1..] == [] && Selected(o, dims);
    assert all[1..] == [] && Wanted(all[1..], dims) == [];
    assert Wanted(all, dims) == [row];
    assert DistinctNames(dims[1..]);
    NeptuneMeansFilter(instanceID, dims, all);
    Neo4jMeansFilter(instanceID, dims, all);
  }
}
