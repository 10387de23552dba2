/**
 The datasets that use a code, with the latest version of each edition. Neptune nests maps by dataset, dimension and
 edition; Neo4j groups rows by dataset, keeps the first label it meets and a list of versions per edition.
 */
module LatestVersions {
  import opened Options
  import Strings

  /** One result row: what the dataset calls the dimension, its edition and version, and its id. */
  datatype Record = Record(dimensionName: string, edition: string, version: int, datasetID: string)

  datatype Edition = Edition(id: string, codeListID: string, latestVersion: int)

  datatype Dataset = Dataset(id: string, dimensionLabel: string, editions: seq<Edition>)

  // ---------------------------------------------------------------- flat values into records

  function Flatten(records: seq<seq<string>>): seq<string> {
    if records == [] then [] else Flatten(records[..|records| - 1]) + records[|records| - 1]
  }

  /** Clumps of `valuesPerRecord` in order, or nothing if they do not come out even. */
  method CreateRecords(values: seq<string>, valuesPerRecord: nat) returns (records: Option<seq<seq<string>>>)
    requires valuesPerRecord > 0
    ensures records == None <==> |values| % valuesPerRecord != 0
    ensures records.Some? ==> Flatten(records.value) == values
    ensures records.Some? ==> forall r <- records.value :: |r| == valuesPerRecord
  {
    if |values| % valuesPerRecord != 0 {
      return None;
    }
    var out: seq<seq<string>> := [];
    var i := 0;
    while i < |values|
      invariant 0 <= i <= |values| && (|values| - i) % valuesPerRecord == 0
      invariant Flatten(out) == values[..i]
      invariant forall r <- out :: |r| == valuesPerRecord
    {
      AtLeastOneLeft(|values| - i, valuesPerRecord);
      var record: seq<string> := [];
      for j := 0 to valuesPerRecord
        invariant record == values[i..i + j]
      {
        record := record + [values[i + j]];
      }
      assert (out + [record])[..|out|] == out;
      out := out + [record];
      assert values[..i] + values[i..i + valuesPerRecord] == values[..i + valuesPerRecord];
      i := i + valuesPerRecord;
    }
    assert values[..i] == values;
    return Some(out);
  }

  lemma AtLeastOneLeft(left: nat, n: nat)
    requires n > 0 && left > 0 && left % n == 0
    ensures left >= n && (left - n) % n == 0
  {
    if left >= n {
      SubtractOnce(left, n);
    } else {
      QuotientUnique(left, n, 0, left);
      assert false;
    }
  }

  lemma SubtractOnce(left: nat, n: nat)
    requires n > 0 && left >= n
    ensures (left - n) % n == left % n
  {
    var q, r := left / n, left % n;
    assert left - n == (q - 1) * n + r;
    QuotientUnique(left - n, n, q - 1, r);
  }

  lemma QuotientUnique(x: int, d: int, q: int, r: int)
    requires d > 0 && 0 <= r < d && x == q * d + r
    ensures x % d == r
  {
    var q', r' := x / d, x % d;
    assert (q - q') * d == r' - r;
    if q > q' {
      MulAtLeast(q - q', d);
    } else if q < q' {
      MulAtLeast(q' - q, d);
    }
  }

  lemma MulAtLeast(k: int, d: int)
    requires k >= 1 && d > 0
    ensures k * d >= d
  {
  }

  // ---------------------------------------------------------------- versions as text

  predicate IsDigit(c: char) { '0' <= c <= '9' }

  function Digits(s: string): Option<nat> {
    if s == [] then Some(0)
    else match Digits(s[..|s| - 1])
         case None => None
         case Some(n) => if IsDigit(s[|s| - 1]) then Some(10 * n + (s[|s| - 1] - '0') as nat) else None
  }

  /** strconv.Atoi: an optional sign and at least one digit, within 64 bits. */
  function Atoi(s: string): Option<int> {
    var signed := s != [] && (s[0] == '-' || s[0] == '+');
    var digits := if signed then s[1..] else s;
    if digits == [] then None
    else match Digits(digits)
         case None => None
         case Some(n) =>
           var value: int := if signed && s[0] == '-' then 0 - n as int else n as int;
           if -0x8000_0000_0000_0000 <= value < 0x8000_0000_0000_0000 then Some(value) else None
  }

  function Pow10(n: nat): nat { if n == 0 then 1 else 10 * Pow10(n - 1) }

  predicate AllDigits(s: string) { forall i | 0 <= i < |s| :: IsDigit(s[i]) }

  /** The sum of the digits, each times the power of ten of its place. */
  function Worth(s: string): nat
    requires AllDigits(s)
  {
    if s == [] then 0 else (s[0] - '0') as nat * Pow10(|s| - 1) + Worth(s[1..])
  }

  lemma {:induction false} WorthOfLast(s: string)
    requires AllDigits(s) && s != []
    ensures Worth(s) == 10 * Worth(s[..|s| - 1]) + (s[|s| - 1] - '0') as nat
  {
    var n := |s| - 1;
    if n == 0 {
      assert s[1..] == [] && s[..0] == [];
    } else {
      WorthOfLast(s[1..]);
      assert s[1..][..n - 1] == s[..n][1..];
      TenTimes((s[0] - '0') as nat, Pow10(n - 1));
    }
  }

  lemma TenTimes(d: nat, p: nat)
    ensures d * (10 * p) == 10 * (d * p)
  {
  }

  lemma {:induction false} DigitsAre(s: string)
    ensures Digits(s) == if AllDigits(s) then Some(Worth(s)) else None
  {
    if s != [] {
      var init := s[..|s| - 1];
      DigitsAre(init);
      assert s == init + [s[|s| - 1]];
      if AllDigits(s) {
        WorthOfLast(s);
      }
    }
  }

  ghost predicate StandsFor(s: string, v: int) { s != [] && AllDigits(s) && v == Worth(s) }

  /** What is read as an integer: digits with their value by place, after an optional sign, if it fits into 64 bits. */
  lemma AtoiIs(s: string, v: int)
    ensures Atoi(s) == Some(v) <==>
            && -0x8000_0000_0000_0000 <= v < 0x8000_0000_0000_0000
            && (StandsFor(s, v) || ("+" <= s && StandsFor(s[1..], v)) || ("-" <= s && StandsFor(s[1..], -v)))
  {
    if s != [] && (s[0] == '-' || s[0] == '+') {
      DigitsAre(s[1..]);
      assert s[0] in s;
    } else {
      DigitsAre(s);
    }
  }

  lemma DigitIsRead(n: nat)
    requires n < 10
    ensures IsDigit(Strings.Digit(n)) && (Strings.Digit(n) - '0') as nat == n
  {
    assert n == 0 || n == 1 || n == 2 || n == 3 || n == 4 || n == 5 || n == 6 || n == 7 || n == 8 || n == 9;
  }

  lemma {:induction false} NaturalIsRead(n: nat)
    ensures Digits(Strings.Natural(n)) == Some(n)
  {
    DigitIsRead(n % 10);
    if n < 10 {
      assert Strings.Natural(n)[..0] == [];
    } else {
      NaturalIsRead(n / 10);
      assert Strings.Natural(n)[..|Strings.Natural(n)| - 1] == Strings.Natural(n / 10);
    }
  }

  lemma SignIsRead(s: string, n: nat)
    requires s != [] && IsDigit(s[0]) && Digits(s) == Some(n)
    ensures n < 0x8000_0000_0000_0000 ==> Atoi(s) == Some(n)
    ensures n <= 0x8000_0000_0000_0000 ==> Atoi("-" + s) == Some(0 - n as int)
  {
    var negative := "-" + s;
    assert negative[0] == '-' && negative[1..] == s;
  }

  /** Every 64-bit number is read back from how it is written. */
  lemma DecimalIsRead(v: int)
    requires -0x8000_0000_0000_0000 <= v < 0x8000_0000_0000_0000
    ensures Atoi(Strings.Decimal(v)) == Some(v)
  {
    if v < 0 {
      NaturalWithSign(-v);
    } else {
      NaturalWithSign(v);
    }
  }

  lemma NaturalWithSign(n: nat)
    ensures n < 0x8000_0000_0000_0000 ==> Atoi(Strings.Natural(n)) == Some(n)
    ensures n <= 0x8000_0000_0000_0000 ==> Atoi("-" + Strings.Natural(n)) == Some(0 - n as int)
  {
    NaturalIsRead(n);
    DigitsAre(Strings.Natural(n));
    SignIsRead(Strings.Natural(n), n);
  }

  /** The records with their versions read, unless one of them cannot be. */
  function Typed(records: seq<seq<string>>): Option<seq<Record>>
    requires forall r <- records :: |r| == 4
  {
    if records == [] then Some([])
    else
      var r := records[|records| - 1];
      match (Typed(records[..|records| - 1]), Atoi(r[2]))
      case (Some(rs), Some(v)) => Some(rs + [Record(r[0], r[1], v, r[3])])
      case _ => None
  }

  // ---------------------------------------------------------------- Neptune: nested maps

  type EditionToLatestVersion = map<string, int>
  type Dim2Edition = map<string, EditionToLatestVersion>
  type DatasetID2Dim = map<string, Dim2Edition>

  /** What the nested maps hold for an edition of a dataset under a dimension name. */
  function At(m: DatasetID2Dim, dataset: string, dimension: string, edition: string): Option<int> {
    if dataset in m && dimension in m[dataset] && edition in m[dataset][dimension]
    then Some(m[dataset][dimension][edition]) else None
  }

  /** The highest version among the records for it. */
  function Best(records: seq<Record>, dataset: string, dimension: string, edition: string): Option<int> {
    if records == [] then None
    else
      var before, r := Best(records[..|records| - 1], dataset, dimension, edition), records[|records| - 1];
      if r.datasetID == dataset && r.dimensionName == dimension && r.edition == edition
      then Some(if before.Some? && before.value >= r.version then before.value else r.version) else before
  }

  ghost predicate Indexes(m: DatasetID2Dim, records: seq<Record>) {
    && (forall dataset, dimension, edition :: At(m, dataset, dimension, edition) == Best(records, dataset, dimension, edition))
    && (forall dataset | dataset in m :: m[dataset] != map[])
    && (forall dataset, dimension | dataset in m && dimension in m[dataset] :: m[dataset][dimension] != map[])
  }

  /** One iteration of the loop: creates the inner maps that are missing, then keeps the higher version. */
  function Include(m: DatasetID2Dim, r: Record): DatasetID2Dim {
    var dims := if r.datasetID in m then m[r.datasetID] else map[];
    var editions := if r.dimensionName in dims then dims[r.dimensionName] else map[];
    var updated :=
      if r.edition !in editions || editions[r.edition] < r.version then editions[r.edition := r.version] else editions;
    m[r.datasetID := dims[r.dimensionName := updated]]
  }

  /** Creating the missing maps first and then writing the version comes to the same. */
  lemma Stepwise(m: DatasetID2Dim, r: Record)
    ensures var m1 := if r.datasetID in m then m else m[r.datasetID := map[]];
      var m2 := if r.dimensionName in m1[r.datasetID] then m1
                else m1[r.datasetID := m1[r.datasetID][r.dimensionName := map[]]];
      var editions := m2[r.datasetID][r.dimensionName];
      Include(m, r) == if r.edition !in editions || editions[r.edition] < r.version
                       then m2[r.datasetID := m2[r.datasetID][r.dimensionName := editions[r.edition := r.version]]] else m2
  {
    var dims := if r.datasetID in m then m[r.datasetID] else map[];
    var editions := if r.dimensionName in dims then dims[r.dimensionName] else map[];
    if r.datasetID in m && r.dimensionName in dims {
      assert dims[r.dimensionName := editions] == dims;
      assert m[r.datasetID := dims] == m;
    } else {
      var updated := map[r.edition := r.version];
      assert dims[r.dimensionName := map[]][r.dimensionName := updated] == dims[r.dimensionName := updated];
      assert m[r.datasetID := map[]][r.datasetID := dims[r.dimensionName := updated]] == m[r.datasetID := dims[r.dimensionName := updated]];
      assert editions[r.edition := r.version] == updated;
    }
  }

  lemma IncludeKeeps(m: DatasetID2Dim, records: seq<Record>, r: Record)
    requires Indexes(m, records)
    ensures Indexes(Include(m, r), records + [r])
  {
    var m' := Include(m, r);
    assert (records + [r])[..|records|] == records;
    assert At(m', r.datasetID, r.dimensionName, r.edition) == Best(records + [r], r.datasetID, r.dimensionName, r.edition) by {
      assert At(m, r.datasetID, r.dimensionName, r.edition) == Best(records, r.datasetID, r.dimensionName, r.edition);
    }
    forall d, dim, e ensures At(m', d, dim, e) == Best(records + [r], d, dim, e) {
      if d != r.datasetID || dim != r.dimensionName || e != r.edition {
        assert At(m', d, dim, e) == At(m, d, dim, e);
      }
    }
    assert r.edition in m'[r.datasetID][r.dimensionName];
  }

  /** A raw record, as it comes: dimension name, edition, version as text, dataset. */
  ghost predicate HasVersion(r: seq<string>, dataset: string, dimension: string, edition: string, v: int) {
    |r| == 4 && r[0] == dimension && r[1] == edition && Atoi(r[2]) == Some(v) && r[3] == dataset
  }

  /** `v` is a version of the edition among the raw records, and none is higher. */
  ghost predicate IsHighest(records: seq<seq<string>>, dataset: string, dimension: string, edition: string, v: int) {
    && (exists r :: r in records && HasVersion(r, dataset, dimension, edition, v))
    && (forall r, w :: r in records && HasVersion(r, dataset, dimension, edition, w) ==> w <= v)
  }

  ghost predicate AllNumbers(records: seq<seq<string>>) { forall r <- records :: |r| == 4 && Atoi(r[2]).Some? }

  lemma {:induction false} TypedIffRead(records: seq<seq<string>>)
    requires forall r <- records :: |r| == 4
    ensures Typed(records) == None <==> !AllNumbers(records)
  {
    if records != [] {
      var init, last := records[..|records| - 1], records[|records| - 1];
      TypedIffRead(init);
      assert records == init + [last] && last in records;
      assert forall r :: r in records <==> r in init || r == last;
    }
  }

  ghost predicate NoVersion(records: seq<seq<string>>, dataset: string, dimension: string, edition: string) {
    forall r, v :: r in records ==> !HasVersion(r, dataset, dimension, edition, v)
  }

  ghost predicate IsHighestOrNone(
      records: seq<seq<string>>, dataset: string, dimension: string, edition: string, best: Option<int>)
  {
    match best
    case None => NoVersion(records, dataset, dimension, edition)
    case Some(v) => IsHighest(records, dataset, dimension, edition, v)
  }

  lemma OneMoreVersion(
      records: seq<seq<string>>, last: seq<string>, dataset: string, dimension: string, edition: string,
      best: Option<int>, version: int)
    requires IsHighestOrNone(records, dataset, dimension, edition, best) && |last| == 4 && Atoi(last[2]) == Some(version)
    ensures var matches := last[3] == dataset && last[0] == dimension && last[1] == edition;
      IsHighestOrNone(records + [last], dataset, dimension, edition,
        if !matches || (best.Some? && best.value >= version) then best else Some(version))
  {
    assert forall r :: r in records + [last] <==> r in records || r == last;
    if best.Some? {
      var r :| r in records && HasVersion(r, dataset, dimension, edition, best.value);
      assert r in records + [last];
    }
    assert last in records + [last];
  }

  lemma {:induction false} BestIsHighest(
      records: seq<seq<string>>, dataset: string, dimension: string, edition: string)
    requires (forall r <- records :: |r| == 4) && Typed(records).Some?
    ensures IsHighestOrNone(records, dataset, dimension, edition, Best(Typed(records).value, dataset, dimension, edition))
  {
    if records != [] {
      var init, last := records[..|records| - 1], records[|records| - 1];
      BestIsHighest(init, dataset, dimension, edition);
      var typed, before := Typed(records).value, Best(Typed(init).value, dataset, dimension, edition);
      assert typed[..|typed| - 1] == Typed(init).value;
      assert records == init + [last];
      OneMoreVersion(init, last, dataset, dimension, edition, before, Atoi(last[2]).value);
    }
  }

  /** What the nested maps hold, in terms of the raw records. */
  ghost predicate HoldsHighest(m: DatasetID2Dim, records: seq<seq<string>>) {
    forall dataset, dimension, edition, v ::
      At(m, dataset, dimension, edition) == Some(v) <==> IsHighest(records, dataset, dimension, edition, v)
  }

  lemma IndexIsHighest(m: DatasetID2Dim, records: seq<seq<string>>)
    requires (forall r <- records :: |r| == 4) && Typed(records).Some? && Indexes(m, Typed(records).value)
    ensures HoldsHighest(m, records)
  {
    forall dataset, dimension, edition, v
      ensures At(m, dataset, dimension, edition) == Some(v) <==> IsHighest(records, dataset, dimension, edition, v)
    {
      BestIsHighest(records, dataset, dimension, edition);
      assert At(m, dataset, dimension, edition) == Best(Typed(records).value, dataset, dimension, edition);
      if IsHighest(records, dataset, dimension, edition, v) {
        var r :| r in records && HasVersion(r, dataset, dimension, edition, v);
      }
    }
  }

  method BuildLatestVersionMaps(records: seq<seq<string>>) returns (m: Option<DatasetID2Dim>)
    requires forall r <- records :: |r| == 4
    ensures m == None <==> !AllNumbers(records)
    ensures m.Some? ==> HoldsHighest(m.value, records)
    ensures m.Some? ==> Typed(records).Some? && Indexes(m.value, Typed(records).value)
  {
    var did2Dim: DatasetID2Dim := map[];
    for i := 0 to |records|
      invariant Typed(records[..i]).Some? && Indexes(did2Dim, Typed(records[..i]).value)
    {
      var record := records[i];
      assert records[..i + 1][..i] == records[..i];
      var version := Atoi(record[2]);
      if version == None {
        TypedPrefix(records, i + 1);
        TypedIffRead(records);
        return None;
      }
      var datasetID, dimensionName, edition := record[3], record[0], record[1];
      ghost var before := did2Dim;
      IncludeKeeps(before, Typed(records[..i]).value, Record(dimensionName, edition, version.value, datasetID));
      if datasetID !in did2Dim {
        did2Dim := did2Dim[datasetID := map[]];
      }
      if dimensionName !in did2Dim[datasetID] {
        did2Dim := did2Dim[datasetID := did2Dim[datasetID][dimensionName := map[]]];
      }
      var editions := did2Dim[datasetID][dimensionName];
      if edition !in editions || editions[edition] < version.value {
        did2Dim := did2Dim[datasetID := did2Dim[datasetID][dimensionName := editions[edition := version.value]]];
      }
      Stepwise(before, Record(dimensionName, edition, version.value, datasetID));
    }
    assert records[..|records|] == records;
    TypedIffRead(records);
    IndexIsHighest(did2Dim, records);
    return Some(did2Dim);
  }

  lemma {:induction false} TypedPrefix(records: seq<seq<string>>, n: nat)
    requires (forall r <- records :: |r| == 4) && n <= |records| && Typed(records[..n]) == None
    ensures Typed(records) == None
    decreases |records|
  {
    if n < |records| {
      var init := records[..|records| - 1];
      assert init[..n] == records[..n];
      TypedPrefix(init, n);
    } else {
      assert records[..n] == records;
    }
  }

  // ---------------------------------------------------------------- responses

  /** The editions of the map, each once with its version. */
  ghost predicate EditionsFor(editions: seq<Edition>, versions: map<string, int>, codeListID: string) {
    && (forall i, j | 0 <= i < j < |editions| :: editions[i].id != editions[j].id)
    && (forall e <- editions :: e.codeListID == codeListID && e.id in versions && e.latestVersion == versions[e.id])
    && (forall id | id in versions :: Edition(id, codeListID, versions[id]) in editions)
  }

  method EditionsOf(versions: map<string, int>, codeListID: string) returns (editions: seq<Edition>)
    ensures EditionsFor(editions, versions, codeListID)
  {
    editions := [];
    var todo := versions.Keys;
    while todo != {}
      invariant todo <= versions.Keys
      invariant forall i, j | 0 <= i < j < |editions| :: editions[i].id != editions[j].id
      invariant forall e <- editions ::
          e.codeListID == codeListID && e.id in versions.Keys - todo && e.latestVersion == versions[e.id]
      invariant forall id | id in versions.Keys - todo :: Edition(id, codeListID, versions[id]) in editions
      decreases todo
    {
      var id :| id in todo;
      todo := todo - {id};
      editions := editions + [Edition(id, codeListID, versions[id])];
    }
  }

  /** The item is for one dataset under one dimension name of the index. */
  ghost predicate ItemFor(item: Dataset, m: DatasetID2Dim, codeListID: string) {
    && item.id in m && item.dimensionLabel in m[item.id]
    && EditionsFor(item.editions, m[item.id][item.dimensionLabel], codeListID)
  }

  ghost predicate DistinctItems(items: seq<Dataset>) {
    forall i, j | 0 <= i < j < |items| :: items[i].id != items[j].id || items[i].dimensionLabel != items[j].dimensionLabel
  }

  ghost predicate HasItem(items: seq<Dataset>, id: string, label': string) {
    exists item :: item in items && item.id == id && item.dimensionLabel == label'
  }

  /** Lists every pair of the index once, with every edition once. */
  ghost predicate Responds(items: seq<Dataset>, m: DatasetID2Dim, codeListID: string) {
    && DistinctItems(items)
    && (forall item <- items :: ItemFor(item, m, codeListID))
    && (forall id, name | id in m && name in m[id] :: HasItem(items, id, name))
  }

  method BuildResponse(did2Dim: DatasetID2Dim, codeListID: string) returns (items: seq<Dataset>)
    ensures Responds(items, did2Dim, codeListID)
  {
    items := [];
    var ids := did2Dim.Keys;
    while ids != {}
      invariant ids <= did2Dim.Keys
      invariant DistinctItems(items)
      invariant forall item <- items :: ItemFor(item, did2Dim, codeListID) && item.id !in ids
      invariant forall id, name | id in did2Dim && id !in ids && name in did2Dim[id] :: HasItem(items, id, name)
      decreases ids
    {
      var id :| id in ids;
      ids := ids - {id};
      var more := ItemsOf(did2Dim, id, codeListID);
      Append(items, more);
      items := items + more;
    }
  }

  /** The inner loops: the items of one dataset. */
  method ItemsOf(did2Dim: DatasetID2Dim, id: string, codeListID: string) returns (items: seq<Dataset>)
    requires id in did2Dim
    ensures DistinctItems(items)
    ensures forall item <- items :: ItemFor(item, did2Dim, codeListID) && item.id == id
    ensures forall name | name in did2Dim[id] :: HasItem(items, id, name)
  {
    items := [];
    var names := did2Dim[id].Keys;
    while names != {}
      invariant names <= did2Dim[id].Keys
      invariant DistinctItems(items)
      invariant forall item <- items :: ItemFor(item, did2Dim, codeListID) && item.id == id && item.dimensionLabel !in names
      invariant forall name | name in did2Dim[id] && name !in names :: HasItem(items, id, name)
      decreases names
    {
      var name :| name in names;
      names := names - {name};
      var editions := EditionsOf(did2Dim[id][name], codeListID);
      Append(items, [Dataset(id, name, editions)]);
      items := items + [Dataset(id, name, editions)];
    }
  }

  lemma Append(items: seq<Dataset>, more: seq<Dataset>)
    ensures forall id, name | HasItem(items, id, name) || HasItem(more, id, name) :: HasItem(items + more, id, name)
    ensures |more| == 1 ==> HasItem(items + more, more[0].id, more[0].dimensionLabel)
  {
    forall id, name | HasItem(items, id, name) || HasItem(more, id, name) ensures HasItem(items + more, id, name) {
      var item :| (item in items || item in more) && item.id == id && item.dimensionLabel == name;
      assert item in items + more;
    }
    if |more| == 1 {
      assert more[0] in items + more;
    }
  }

  // ---------------------------------------------------------------- Neo4j: grouping by dataset

  datatype DatasetData = DatasetData(dimensionLabel: string, editions: map<string, seq<int>>)

  function AddRow(datasets: map<string, DatasetData>, r: Record): map<string, DatasetData> {
    var dataset := if r.datasetID in datasets then datasets[r.datasetID] else DatasetData(r.dimensionName, map[]);
    var versions := if r.edition in dataset.editions then dataset.editions[r.edition] else [];
    datasets[r.datasetID := dataset.(editions := dataset.editions[r.edition := versions + [r.version]])]
  }

  function Grouped(records: seq<Record>): map<string, DatasetData> {
    if records == [] then map[] else AddRow(Grouped(records[..|records| - 1]), records[|records| - 1])
  }

  /** The map that the row mapper is closed over. */
  class CodesDatasets {
    var datasets: map<string, DatasetData>

    constructor ()
      ensures datasets == map[]
    {
      datasets := map[];
    }

    method MapRow(r: Record)
      modifies this
      ensures datasets == AddRow(old(datasets), r)
    {
      var dataset := if r.datasetID in datasets then datasets[r.datasetID] else DatasetData(r.dimensionName, map[]);
      ghost var before := dataset.editions;
      if r.edition !in dataset.editions {
        dataset := dataset.(editions := dataset.editions[r.edition := []]);
      }
      dataset := dataset.(editions := dataset.editions[r.edition := dataset.editions[r.edition] + [r.version]]);
      assert dataset.editions == before[r.edition := (if r.edition in before then before[r.edition] else []) + [r.version]];
      datasets := datasets[r.datasetID := dataset];
    }
  }

  function MaxOf(versions: seq<int>): int {
    if versions == [] then 0
    else
      var before, last := MaxOf(versions[..|versions| - 1]), versions[|versions| - 1];
      if last > before then last else before
  }

  method Max(input: seq<int>) returns (max: int)
    ensures max == MaxOf(input)
    ensures max >= 0 && (forall v <- input :: v <= max) && (max == 0 || max in input)
  {
    max := 0;
    for i := 0 to |input|
      invariant max == MaxOf(input[..i])
      invariant max >= 0 && (forall j | 0 <= j < i :: input[j] <= max) && (max == 0 || max in input[..i])
    {
      assert input[..i + 1][..i] == input[..i];
      if input[i] > max {
        max := input[i];
      }
    }
    assert input[..|input|] == input;
  }

  function MaxVersions(editions: map<string, seq<int>>): map<string, int> {
    map e | e in editions :: MaxOf(editions[e])
  }

  ghost predicate GroupItem(item: Dataset, datasets: map<string, DatasetData>, codeListID: string) {
    && item.id in datasets && item.dimensionLabel == datasets[item.id].dimensionLabel
    && EditionsFor(item.editions, MaxVersions(datasets[item.id].editions), codeListID)
  }

  /** One item per dataset, with every edition once. */
  ghost predicate RespondsByDataset(items: seq<Dataset>, datasets: map<string, DatasetData>, codeListID: string) {
    && (forall i, j | 0 <= i < j < |items| :: items[i].id != items[j].id)
    && (forall item <- items :: GroupItem(item, datasets, codeListID))
    && (forall id | id in datasets :: HasItem(items, id, datasets[id].dimensionLabel))
  }

  method GetCodeDatasets(rows: seq<Record>, codeListID: string) returns (items: seq<Dataset>)
    ensures RespondsByDataset(items, Grouped(rows), codeListID)
  {
    var mapper := new CodesDatasets();
    for i := 0 to |rows|
      invariant mapper.datasets == Grouped(rows[..i])
    {
      assert rows[..i + 1][..i] == rows[..i];
      mapper.MapRow(rows[i]);
    }
    assert rows[..|rows|] == rows;
    var datasets := mapper.datasets;
    items := [];
    var ids := datasets.Keys;
    while ids != {}
      invariant ids <= datasets.Keys && datasets == Grouped(rows)
      invariant forall i, j | 0 <= i < j < |items| :: items[i].id != items[j].id
      invariant forall item <- items :: GroupItem(item, datasets, codeListID) && item.id !in ids
      invariant forall id | id in datasets && id !in ids :: HasItem(items, id, datasets[id].dimensionLabel)
      decreases ids
    {
      var id :| id in ids;
      ids := ids - {id};
      var versions := MaxEditions(datasets[id].editions);
      var editions := EditionsOf(versions, codeListID);
      Append(items, [Dataset(id, datasets[id].dimensionLabel, editions)]);
      items := items + [Dataset(id, datasets[id].dimensionLabel, editions)];
    }
  }

  method MaxEditions(editions: map<string, seq<int>>) returns (versions: map<string, int>)
    ensures versions == MaxVersions(editions)
  {
    versions := map[];
    var todo := editions.Keys;
    while todo != {}
      invariant todo <= editions.Keys
      invariant versions == map e | e in editions && e !in todo :: MaxOf(editions[e])
      decreases todo
    {
      var e :| e in todo;
      todo := todo - {e};
      var max := Max(editions[e]);
      versions := versions[e := max];
    }
  }
}
