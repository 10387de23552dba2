/** The two indexes against the records themselves, and against each other. */
module LatestVersionProperties {
  import opened Options
  import opened LatestVersions

  // ---------------------------------------------------------------- the latest version, by definition

  predicate Concerns(r: Record, id: string, name: string, edition: string) {
    r.datasetID == id && r.dimensionName == name && r.edition == edition
  }

  /** `v` is the version of some record for the edition, and none is higher. */
  ghost predicate IsLatest(records: seq<Record>, id: string, name: string, edition: string, v: int) {
    && (exists r :: r in records && Concerns(r, id, name, edition) && r.version == v)
    && (forall r :: r in records && Concerns(r, id, name, edition) ==> r.version <= v)
  }

  lemma {:induction false} BestIsLatest(records: seq<Record>, id: string, name: string, edition: string)
    ensures Best(records, id, name, edition) == None <==> forall r :: r in records ==> !Concerns(r, id, name, edition)
    ensures Best(records, id, name, edition).Some? ==> IsLatest(records, id, name, edition, Best(records, id, name, edition).value)
  {
    if records != [] {
      var init, last := records[..|records| - 1], records[|records| - 1];
      assert records == init + [last];
      BestIsLatest(init, id, name, edition);
      var before := Best(init, id, name, edition);
      if before.Some? {
        var r :| r in init && Concerns(r, id, name, edition) && r.version == before.value;
        assert r in records;
      }
      assert last in records;
      assert forall r :: r in records <==> r in init || r == last;
    }
  }

  lemma LatestIsUnique(records: seq<Record>, id: string, name: string, edition: string, v: int)
    requires IsLatest(records, id, name, edition, v)
    ensures Best(records, id, name, edition) == Some(v)
  {
    BestIsLatest(records, id, name, edition);
  }

  // ---------------------------------------------------------------- what a response lists

  ghost predicate Lists(items: seq<Dataset>, id: string, name: string, edition: string, v: int) {
    exists item, e :: item in items && item.id == id && item.dimensionLabel == name
                      && e in item.editions && e.id == edition && e.latestVersion == v
  }

  /**
   Neptune's response lists an edition of a dataset under a dimension name with a version exactly when that is the
   latest version among the records; this does not depend on the order of the records.
   */
  lemma NeptuneListsLatest(
      items: seq<Dataset>, m: DatasetID2Dim, records: seq<Record>, codeListID: string,
      id: string, name: string, edition: string, v: int)
    requires Responds(items, m, codeListID) && Indexes(m, records)
    ensures Lists(items, id, name, edition, v) <==> IsLatest(records, id, name, edition, v)
  {
    BestIsLatest(records, id, name, edition);
    assert At(m, id, name, edition) == Best(records, id, name, edition);
    if Lists(items, id, name, edition, v) {
      var item, e :| item in items && item.id == id && item.dimensionLabel == name
                     && e in item.editions && e.id == edition && e.latestVersion == v;
      assert ItemFor(item, m, codeListID);
    }
    if IsLatest(records, id, name, edition, v) {
      LatestIsUnique(records, id, name, edition, v);
      assert HasItem(items, id, name);
      var item :| item in items && item.id == id && item.dimensionLabel == name;
      assert ItemFor(item, m, codeListID);
      assert Edition(edition, codeListID, m[id][name][edition]) in item.editions;
    }
  }

  /** In terms of the raw records: the highest number among the version texts that are for the edition. */
  lemma NeptuneListsHighest(
      items: seq<Dataset>, m: DatasetID2Dim, records: seq<seq<string>>, codeListID: string,
      id: string, name: string, edition: string, v: int)
    requires (forall r <- records :: |r| == 4) && Typed(records).Some?
    requires Responds(items, m, codeListID) && Indexes(m, Typed(records).value)
    ensures Lists(items, id, name, edition, v) <==> IsHighest(records, id, name, edition, v)
  {
    var typed := Typed(records).value;
    NeptuneListsLatest(items, m, typed, codeListID, id, name, edition, v);
    IndexIsHighest(m, records);
    BestIsLatest(typed, id, name, edition);
    assert At(m, id, name, edition) == Best(typed, id, name, edition);
    if IsLatest(typed, id, name, edition, v) {
      LatestIsUnique(typed, id, name, edition, v);
    }
  }

  // ---------------------------------------------------------------- Neo4j's grouping

  ghost function FirstLabel(records: seq<Record>, id: string): Option<string> {
    if records == [] then None
    else if FirstLabel(records[..|records| - 1], id).Some? then FirstLabel(records[..|records| - 1], id)
    else if records[|records| - 1].datasetID == id then Some(records[|records| - 1].dimensionName)
    else None
  }

  ghost function VersionsOf(records: seq<Record>, id: string, edition: string): seq<int> {
    if records == [] then []
    else
      var r := records[|records| - 1];
      VersionsOf(records[..|records| - 1], id, edition)
      + if r.datasetID == id && r.edition == edition then [r.version] else []
  }

  lemma {:induction false} GroupedIs(records: seq<Record>, id: string, edition: string)
    ensures var m := Grouped(records);
      && (id in m <==> FirstLabel(records, id).Some?)
      && (id in m ==> m[id].dimensionLabel == FirstLabel(records, id).value)
      && (id in m && edition in m[id].editions <==> VersionsOf(records, id, edition) != [])
      && (id in m && edition in m[id].editions ==> m[id].editions[edition] == VersionsOf(records, id, edition))
  {
    if records != [] {
      GroupedIs(records[..|records| - 1], id, edition);
    }
  }

  lemma {:induction false} FirstLabelIs(records: seq<Record>, id: string)
    ensures FirstLabel(records, id) == None <==> forall r :: r in records ==> r.datasetID != id
    ensures FirstLabel(records, id).Some? ==>
      exists r :: r in records && r.datasetID == id && r.dimensionName == FirstLabel(records, id).value
  {
    if records != [] {
      var init, last := records[..|records| - 1], records[|records| - 1];
      assert records == init + [last];
      FirstLabelIs(init, id);
      assert forall r :: r in records <==> r in init || r == last;
    }
  }

  /** `v` is the maximum of zero and the versions of the dataset's edition, under any name. */
  ghost predicate IsMaxFromZero(records: seq<Record>, id: string, edition: string, v: int) {
    && v >= 0
    && (forall r :: r in records && r.datasetID == id && r.edition == edition ==> r.version <= v)
    && (v == 0 || exists r :: r in records && r.datasetID == id && r.edition == edition && r.version == v)
  }

  lemma {:induction false} MaxOfVersions(records: seq<Record>, id: string, edition: string)
    ensures IsMaxFromZero(records, id, edition, MaxOf(VersionsOf(records, id, edition)))
    ensures VersionsOf(records, id, edition) == [] <==> !HasEdition(records, id, edition)
  {
    if records != [] {
      var init, last := records[..|records| - 1], records[|records| - 1];
      MaxOfVersions(init, id, edition);
      var vs, vs' := VersionsOf(init, id, edition), VersionsOf(records, id, edition);
      if last.datasetID == id && last.edition == edition {
        assert vs'[..|vs'| - 1] == vs;
      } else {
        assert vs' == vs;
      }
      MaxWithLast(records, init, last, id, edition, MaxOf(vs));
    }
  }

  lemma MaxWithLast(records: seq<Record>, init: seq<Record>, last: Record, id: string, edition: string, v: int)
    requires records != [] && init == records[..|records| - 1] && last == records[|records| - 1]
    requires IsMaxFromZero(init, id, edition, v)
    ensures var matches := last.datasetID == id && last.edition == edition;
      && IsMaxFromZero(records, id, edition, if matches && last.version > v then last.version else v)
      && (HasEdition(records, id, edition) <==> HasEdition(init, id, edition) || matches)
  {
    assert forall r :: r in records <==> r in init || r == last;
  }

  lemma MaxFromZeroIsUnique(records: seq<Record>, id: string, edition: string, v: int, w: int)
    requires IsMaxFromZero(records, id, edition, v) && IsMaxFromZero(records, id, edition, w)
    ensures v == w
  {
  }

  ghost predicate HasEdition(records: seq<Record>, id: string, edition: string) {
    exists r :: r in records && r.datasetID == id && r.edition == edition
  }

  /** What Neo4j's response lists: the dataset's first label, and each edition with its maximum from zero. */
  lemma Neo4jListsMax(
      items: seq<Dataset>, records: seq<Record>, codeListID: string, id: string, name: string, edition: string, v: int)
    requires RespondsByDataset(items, Grouped(records), codeListID)
    ensures Lists(items, id, name, edition, v)
            <==> FirstLabel(records, id) == Some(name) && HasEdition(records, id, edition) && IsMaxFromZero(records, id, edition, v)
  {
    var m := Grouped(records);
    GroupedIs(records, id, edition);
    MaxOfVersions(records, id, edition);
    if Lists(items, id, name, edition, v) {
      var item, e :| item in items && item.id == id && item.dimensionLabel == name
                     && e in item.editions && e.id == edition && e.latestVersion == v;
      assert GroupItem(item, m, codeListID);
    }
    if FirstLabel(records, id) == Some(name) && HasEdition(records, id, edition) && IsMaxFromZero(records, id, edition, v) {
      assert HasItem(items, id, m[id].dimensionLabel);
      var item :| item in items && item.id == id && item.dimensionLabel == name;
      assert GroupItem(item, m, codeListID);
      var versions := MaxVersions(m[id].editions);
      MaxFromZeroIsUnique(records, id, edition, v, versions[edition]);
      assert Edition(edition, codeListID, versions[edition]) in item.editions;
    }
  }

  // ---------------------------------------------------------------- the two against each other

  ghost predicate SameListing(a: seq<Dataset>, b: seq<Dataset>) {
    forall id, name, edition, v :: Lists(a, id, name, edition, v) <==> Lists(b, id, name, edition, v)
  }

  /** Each dataset calls the dimension by one name. */
  ghost predicate OneLabel(records: seq<Record>) {
    forall q, r :: q in records && r in records && q.datasetID == r.datasetID ==> q.dimensionName == r.dimensionName
  }

  /** Every edition of a dataset has a version that is not negative. */
  ghost predicate SomeNonNegative(records: seq<Record>) {
    forall r :: r in records ==> HasNonNegative(records, r.datasetID, r.edition)
  }

  ghost predicate HasNonNegative(records: seq<Record>, id: string, edition: string) {
    exists r :: r in records && r.datasetID == id && r.edition == edition && r.version >= 0
  }

  lemma LatestExists(records: seq<Record>, r: Record) returns (v: int)
    requires r in records
    ensures IsLatest(records, r.datasetID, r.dimensionName, r.edition, v)
  {
    BestIsLatest(records, r.datasetID, r.dimensionName, r.edition);
    assert Concerns(r, r.datasetID, r.dimensionName, r.edition);
    v := Best(records, r.datasetID, r.dimensionName, r.edition).value;
  }

  /** With one label and a non-negative version the two maxima are the same. */
  lemma LatestIsMaxFromZero(records: seq<Record>, id: string, name: string, edition: string, v: int)
    requires OneLabel(records) && SomeNonNegative(records) && IsLatest(records, id, name, edition, v)
    ensures FirstLabel(records, id) == Some(name) && HasEdition(records, id, edition) && IsMaxFromZero(records, id, edition, v)
  {
    FirstLabelIs(records, id);
    var r :| r in records && Concerns(r, id, name, edition) && r.version == v;
    forall q | q in records && q.datasetID == id && q.edition == edition ensures q.version <= v {
      assert q.dimensionName == r.dimensionName;
      assert Concerns(q, id, name, edition);
    }
    assert HasNonNegative(records, r.datasetID, r.edition);
    var p :| p in records && p.datasetID == id && p.edition == edition && p.version >= 0;
    assert p.version <= v;
  }

  lemma MaxFromZeroIsLatest(records: seq<Record>, id: string, name: string, edition: string, v: int)
    requires OneLabel(records) && SomeNonNegative(records)
    requires FirstLabel(records, id) == Some(name) && HasEdition(records, id, edition) && IsMaxFromZero(records, id, edition, v)
    ensures IsLatest(records, id, name, edition, v)
  {
    FirstLabelIs(records, id);
    var named :| named in records && named.datasetID == id && named.dimensionName == name;
    var r :| r in records && r.datasetID == id && r.edition == edition;
    assert r.dimensionName == named.dimensionName;
    var w := LatestExists(records, r);
    LatestIsMaxFromZero(records, id, name, edition, w);
    MaxFromZeroIsUnique(records, id, edition, v, w);
  }

  lemma SameLatest(a: seq<Record>, b: seq<Record>, id: string, name: string, edition: string, v: int)
    requires (forall r :: r in a <==> r in b) && IsLatest(a, id, name, edition, v)
    ensures IsLatest(b, id, name, edition, v)
  {
    var r :| r in a && Concerns(r, id, name, edition) && r.version == v;
    assert r in b;
  }

  lemma SameConditions(a: seq<Record>, b: seq<Record>)
    requires (forall r :: r in a <==> r in b) && OneLabel(a) && SomeNonNegative(a)
    ensures OneLabel(b) && SomeNonNegative(b)
  {
    forall r | r in b ensures HasNonNegative(b, r.datasetID, r.edition) {
      assert HasNonNegative(a, r.datasetID, r.edition);
      var q :| q in a && q.datasetID == r.datasetID && q.edition == r.edition && q.version >= 0;
      assert q in b;
    }
  }

  /** If the responses list the same, every dataset had one label. */
  lemma AgreementNeedsOneLabel(
      a: seq<Dataset>, b: seq<Dataset>, m: DatasetID2Dim, neptune: seq<Record>, neo4j: seq<Record>, codeListID: string)
    requires Responds(a, m, codeListID) && Indexes(m, neptune) && RespondsByDataset(b, Grouped(neo4j), codeListID)
    requires SameListing(a, b)
    ensures OneLabel(neptune) && SomeNonNegative(neptune)
  {
    forall r | r in neptune
      ensures FirstLabel(neo4j, r.datasetID) == Some(r.dimensionName)
      ensures HasNonNegative(neptune, r.datasetID, r.edition)
    {
      var v := LatestExists(neptune, r);
      NeptuneListsLatest(a, m, neptune, codeListID, r.datasetID, r.dimensionName, r.edition, v);
      Neo4jListsMax(b, neo4j, codeListID, r.datasetID, r.dimensionName, r.edition, v);
      var q :| q in neptune && Concerns(q, r.datasetID, r.dimensionName, r.edition) && q.version == v;
      assert v >= 0;
    }
  }

  /**
   For any order in which either backend delivers the same records, the two responses list the same datasets,
   editions and versions if and only if each dataset has one label and each edition has a version that is not negative.
   */
  lemma ResponsesAgreeIff(
      a: seq<Dataset>, b: seq<Dataset>, m: DatasetID2Dim, neptune: seq<Record>, neo4j: seq<Record>, codeListID: string)
    requires Responds(a, m, codeListID) && Indexes(m, neptune) && RespondsByDataset(b, Grouped(neo4j), codeListID)
    requires forall r :: r in neptune <==> r in neo4j
    ensures SameListing(a, b) <==> OneLabel(neptune) && SomeNonNegative(neptune)
  {
    if SameListing(a, b) {
      AgreementNeedsOneLabel(a, b, m, neptune, neo4j, codeListID);
    }
    if OneLabel(neptune) && SomeNonNegative(neptune) {
      SameConditions(neptune, neo4j);
      forall id, name, edition, v ensures Lists(a, id, name, edition, v) <==> Lists(b, id, name, edition, v) {
        SameEntry(a, b, m, neptune, neo4j, codeListID, id, name, edition, v);
      }
    }
  }

  lemma SameEntry(
      a: seq<Dataset>, b: seq<Dataset>, m: DatasetID2Dim, neptune: seq<Record>, neo4j: seq<Record>, codeListID: string,
      id: string, name: string, edition: string, v: int)
    requires Responds(a, m, codeListID) && Indexes(m, neptune) && RespondsByDataset(b, Grouped(neo4j), codeListID)
    requires forall r :: r in neptune <==> r in neo4j
    requires OneLabel(neo4j) && SomeNonNegative(neo4j)
    ensures Lists(a, id, name, edition, v) <==> Lists(b, id, name, edition, v)
  {
    NeptuneListsLatest(a, m, neptune, codeListID, id, name, edition, v);
    Neo4jListsMax(b, neo4j, codeListID, id, name, edition, v);
    if IsLatest(neptune, id, name, edition, v) {
      SameLatest(neptune, neo4j, id, name, edition, v);
      LatestIsMaxFromZero(neo4j, id, name, edition, v);
    }
    if Lists(b, id, name, edition, v) {
      MaxFromZeroIsLatest(neo4j, id, name, edition, v);
      SameLatest(neo4j, neptune, id, name, edition, v);
    }
  }
}
