/** The save-age comparison (`SaveAgeQueryMixin`): every census record of
    one upload is left-outer-joined to the rate bands it falls in at its
    stored issue age ("save age" rate) and at its issue age as of a new
    effective date ("new" rate); the page of rows is then filtered, ordered
    and cut by offset and limit, and the whole result is summarised. */
module SaveAge {
  import opened Wrappers
  import opened Dates
  import opened Rates
  import opened Census
  import opened Sql
  import Sorting

  /** The validated request body: `{effective_date, rate_master_id, census_master_id}`. */
  datatype SaveAgeInputs = SaveAgeInputs(effectiveDate: Date, rateMasterId: int, censusMasterId: int)

  /** One output row; `record` carries the census columns. */
  datatype SaveAgeRow = SaveAgeRow(
    record: CensusRecord,
    issueAge: int,
    newEffectiveDate: Date,
    saveAgeRate: Option<real>,
    newRate: Option<real>,
    diff: real)

  /** The join condition: both joins use the requested `rate_master_id`,
      and the band must hold the age between its inclusive bounds. */
  predicate BandMatches(b: RateBand, rateMasterId: int, c: CensusRecord, age: int) {
    && b.rateMasterId == Some(rateMasterId)
    && b.relationship == c.relationship
    && b.tobaccoDisposition == c.tobaccoDisposition
    && b.lowerAge <= age <= b.upperAge
  }

  /** The bands matching a record at `age`, in table order. */
  function Matching(bands: seq<RateBand>, rateMasterId: int, c: CensusRecord, age: int): (r: seq<RateBand>)
    ensures forall b :: b in r <==> b in bands && BandMatches(b, rateMasterId, c, age)
    decreases |bands|
  {
    if |bands| == 0 then []
    else
      var rest := Matching(bands[1..], rateMasterId, c, age);
      assert forall b :: b in bands <==> b == bands[0] || b in bands[1..];
      if BandMatches(bands[0], rateMasterId, c, age) then [bands[0]] + rest else rest
  }

  /** The joined rate column of an outer join: one rate per match, or a
      single NULL when nothing matches. */
  function OuterRates(ms: seq<RateBand>): (r: seq<Option<real>>)
    ensures |r| >= 1
    ensures |ms| == 0 ==> r == [None]
    ensures |ms| > 0 ==> |r| == |ms| && forall i :: 0 <= i < |ms| ==> r[i] == Some(ms[i].rate)
  {
    if |ms| == 0 then [None] else seq(|ms|, i requires 0 <= i < |ms| => Some(ms[i].rate))
  }

  /** `coalesce(new_rate, 0) - coalesce(save_age_rate, 0)`. */
  function Diff(saveAgeRate: Option<real>, newRate: Option<real>): real {
    newRate.GetOr(0.0) - saveAgeRate.GetOr(0.0)
  }

  function MakeRow(c: CensusRecord, inputs: SaveAgeInputs, oldRate: Option<real>, newRate: Option<real>): SaveAgeRow {
    SaveAgeRow(c, IssueAge(c), inputs.effectiveDate, oldRate, newRate, Diff(oldRate, newRate))
  }

  /** Every pairing of an old-join rate with a new-join rate, old-major. */
  function Cross(c: CensusRecord, inputs: SaveAgeInputs, olds: seq<Option<real>>, news: seq<Option<real>>): (r: seq<SaveAgeRow>)
    ensures forall k :: 0 <= k < |r| ==>
      r[k] == MakeRow(c, inputs, r[k].saveAgeRate, r[k].newRate)
      && r[k].saveAgeRate in olds && r[k].newRate in news
    ensures |olds| > 0 && |news| > 0 ==> |r| > 0
    ensures |olds| == 1 && |news| == 1 ==> r == [MakeRow(c, inputs, olds[0], news[0])]
    decreases |olds|
  {
    if |olds| == 0 then []
    else
      seq(|news|, j requires 0 <= j < |news| => MakeRow(c, inputs, olds[0], news[j]))
      + Cross(c, inputs, olds[1..], news)
  }

  /** The pairing is complete: every old rate meets every new rate, so the
      rows number `|olds| * |news|`. */
  lemma {:induction false} CrossComplete(c: CensusRecord, inputs: SaveAgeInputs,
                                         olds: seq<Option<real>>, news: seq<Option<real>>)
    ensures |Cross(c, inputs, olds, news)| == |olds| * |news|
    ensures forall i, j :: 0 <= i < |olds| && 0 <= j < |news| ==>
      MakeRow(c, inputs, olds[i], news[j]) in Cross(c, inputs, olds, news)
    decreases |olds|
  {
    if |olds| > 0 {
      var head := seq(|news|, j requires 0 <= j < |news| => MakeRow(c, inputs, olds[0], news[j]));
      var rest := Cross(c, inputs, olds[1..], news);
      CrossComplete(c, inputs, olds[1..], news);
      assert Cross(c, inputs, olds, news) == head + rest;
      assert |olds| * |news| == |news| + (|olds| - 1) * |news|;
      forall i, j | 0 <= i < |olds| && 0 <= j < |news|
        ensures MakeRow(c, inputs, olds[i], news[j]) in head + rest
      {
        if i == 0 {
          assert head[j] == MakeRow(c, inputs, olds[i], news[j]);
        } else {
          assert olds[i] == olds[1..][i - 1];
        }
      }
    }
  }

  /** The rows one census record contributes. */
  function RowsFor(c: CensusRecord, bands: seq<RateBand>, inputs: SaveAgeInputs): seq<SaveAgeRow> {
    Cross(c, inputs,
      OuterRates(Matching(bands, inputs.rateMasterId, c, IssueAge(c))),
      OuterRates(Matching(bands, inputs.rateMasterId, c, IssueAgeAsOf(c, inputs.effectiveDate))))
  }

  /** No band of the table matches the record at `age`. */
  predicate NoMatch(bands: seq<RateBand>, rateMasterId: int, c: CensusRecord, age: int) {
    forall b :: b in bands ==> !BandMatches(b, rateMasterId, c, age)
  }

  /** A joined rate is NULL exactly when no band matches, and is otherwise
      the rate of a matching band. */
  predicate JoinedRate(rate: Option<real>, bands: seq<RateBand>, rateMasterId: int, c: CensusRecord, age: int) {
    && (rate.None? <==> NoMatch(bands, rateMasterId, c, age))
    && (rate.Some? ==> exists b :: b in bands && BandMatches(b, rateMasterId, c, age) && b.rate == rate.value)
  }

  /** What every output row satisfies. */
  predicate Joined(row: SaveAgeRow, bands: seq<RateBand>, inputs: SaveAgeInputs) {
    && row.issueAge == IssueAge(row.record)
    && row.newEffectiveDate == inputs.effectiveDate
    && JoinedRate(row.saveAgeRate, bands, inputs.rateMasterId, row.record, IssueAge(row.record))
    && JoinedRate(row.newRate, bands, inputs.rateMasterId, row.record,
                  IssueAgeAsOf(row.record, inputs.effectiveDate))
    && row.diff == Diff(row.saveAgeRate, row.newRate)
  }

  lemma OuterRatesJoined(bands: seq<RateBand>, rateMasterId: int, c: CensusRecord, age: int)
    ensures forall o :: o in OuterRates(Matching(bands, rateMasterId, c, age)) ==>
      JoinedRate(o, bands, rateMasterId, c, age)
  {
    var ms := Matching(bands, rateMasterId, c, age);
    forall o | o in OuterRates(ms)
      ensures JoinedRate(o, bands, rateMasterId, c, age)
    {
      if |ms| > 0 {
        var i :| 0 <= i < |ms| && OuterRates(ms)[i] == o;
        assert ms[i] in ms;
      }
    }
  }

  lemma RowsForJoined(c: CensusRecord, bands: seq<RateBand>, inputs: SaveAgeInputs)
    ensures |RowsFor(c, bands, inputs)| > 0
    ensures forall row :: row in RowsFor(c, bands, inputs) ==> row.record == c && Joined(row, bands, inputs)
  {
    OuterRatesJoined(bands, inputs.rateMasterId, c, IssueAge(c));
    OuterRatesJoined(bands, inputs.rateMasterId, c, IssueAgeAsOf(c, inputs.effectiveDate));
  }

  /** `base_save_age_query`: the joined rows of the requested upload, in
      census order, then old-band order, then new-band order. */
  function BaseSaveAgeQuery(census: seq<CensusRecord>, bands: seq<RateBand>, inputs: SaveAgeInputs): (r: seq<SaveAgeRow>)
    ensures forall row :: row in r ==>
      && row.record in census
      && row.record.censusMasterId == Some(inputs.censusMasterId)
      && Joined(row, bands, inputs)
    ensures forall c :: c in census && c.censusMasterId == Some(inputs.censusMasterId) ==>
      exists row :: row in r && row.record == c
    decreases |census|
  {
    if |census| == 0 then []
    else
      var c := census[0];
      var rest := BaseSaveAgeQuery(census[1..], bands, inputs);
      assert forall x :: x in census <==> x == c || x in census[1..];
      if c.censusMasterId == Some(inputs.censusMasterId) then
        RowsForJoined(c, bands, inputs);
        var here := RowsFor(c, bands, inputs);
        assert here[0] in here + rest;
        here + rest
      else rest
  }

  /** How many rows an outer join gives for `n` matches: one each, or a
      single NULL row. */
  function OuterCount(n: nat): nat {
    if n == 0 then 1 else n
  }

  /** The rows a record yields: its old-join rows times its new-join rows. */
  function PairCount(c: CensusRecord, bands: seq<RateBand>, inputs: SaveAgeInputs): nat {
    OuterCount(|Matching(bands, inputs.rateMasterId, c, IssueAge(c))|)
    * OuterCount(|Matching(bands, inputs.rateMasterId, c, IssueAgeAsOf(c, inputs.effectiveDate))|)
  }

  function TotalPairs(records: seq<CensusRecord>, bands: seq<RateBand>, inputs: SaveAgeInputs): nat
    decreases |records|
  {
    if |records| == 0 then 0 else PairCount(records[0], bands, inputs) + TotalPairs(records[1..], bands, inputs)
  }

  lemma RowsForCount(c: CensusRecord, bands: seq<RateBand>, inputs: SaveAgeInputs)
    ensures |RowsFor(c, bands, inputs)| == PairCount(c, bands, inputs)
  {
    var olds := OuterRates(Matching(bands, inputs.rateMasterId, c, IssueAge(c)));
    var news := OuterRates(Matching(bands, inputs.rateMasterId, c, IssueAgeAsOf(c, inputs.effectiveDate)));
    CrossComplete(c, inputs, olds, news);
  }

  /** The two outer joins are complete: a record of the upload with `m`
      old-age matches and `n` new-age matches yields `m * n` rows (a missing
      side counting once, as a NULL), so the query has as many rows as the
      upload's records have pairs. */
  lemma {:induction false} QueryRowCount(census: seq<CensusRecord>, bands: seq<RateBand>, inputs: SaveAgeInputs)
    ensures |BaseSaveAgeQuery(census, bands, inputs)|
         == TotalPairs(UploadRecords(census, inputs.censusMasterId), bands, inputs)
    decreases |census|
  {
    if |census| > 0 {
      var c := census[0];
      var tail := census[1..];
      QueryRowCount(tail, bands, inputs);
      QueryCons(census, bands, inputs);
      if c.censusMasterId == Some(inputs.censusMasterId) {
        RowsForCount(c, bands, inputs);
        var u := UploadRecords(tail, inputs.censusMasterId);
        TotalPairsCons(c, u, bands, inputs);
      }
    }
  }

  /** One step of the query and of the upload's records. */
  lemma QueryCons(census: seq<CensusRecord>, bands: seq<RateBand>, inputs: SaveAgeInputs)
    requires |census| > 0
    ensures var c := census[0];
      var tail := census[1..];
      && (c.censusMasterId == Some(inputs.censusMasterId) ==>
            && BaseSaveAgeQuery(census, bands, inputs) == RowsFor(c, bands, inputs) + BaseSaveAgeQuery(tail, bands, inputs)
            && UploadRecords(census, inputs.censusMasterId) == [c] + UploadRecords(tail, inputs.censusMasterId))
      && (c.censusMasterId != Some(inputs.censusMasterId) ==>
            && BaseSaveAgeQuery(census, bands, inputs) == BaseSaveAgeQuery(tail, bands, inputs)
            && UploadRecords(census, inputs.censusMasterId) == UploadRecords(tail, inputs.censusMasterId))
  {
  }

  lemma TotalPairsCons(c: CensusRecord, records: seq<CensusRecord>, bands: seq<RateBand>, inputs: SaveAgeInputs)
    ensures TotalPairs([c] + records, bands, inputs) == PairCount(c, bands, inputs) + TotalPairs(records, bands, inputs)
  {
    assert ([c] + records)[1..] == records;
  }

  /** Every pairing of an old-join rate with a new-join rate of an upload
      record appears as a row of the query. */
  lemma {:induction false} QueryHasEveryPair(census: seq<CensusRecord>, bands: seq<RateBand>, inputs: SaveAgeInputs,
                                             c: CensusRecord, o: Option<real>, n: Option<real>)
    requires c in census && c.censusMasterId == Some(inputs.censusMasterId)
    requires o in OuterRates(Matching(bands, inputs.rateMasterId, c, IssueAge(c)))
    requires n in OuterRates(Matching(bands, inputs.rateMasterId, c, IssueAgeAsOf(c, inputs.effectiveDate)))
    ensures MakeRow(c, inputs, o, n) in BaseSaveAgeQuery(census, bands, inputs)
    decreases |census|
  {
    var tail := census[1..];
    if c == census[0] {
      var olds := OuterRates(Matching(bands, inputs.rateMasterId, c, IssueAge(c)));
      var news := OuterRates(Matching(bands, inputs.rateMasterId, c, IssueAgeAsOf(c, inputs.effectiveDate)));
      CrossComplete(c, inputs, olds, news);
      var i :| 0 <= i < |olds| && olds[i] == o;
      var j :| 0 <= j < |news| && news[j] == n;
      assert MakeRow(c, inputs, olds[i], news[j]) in RowsFor(c, bands, inputs);
    } else {
      assert c in tail;
      QueryHasEveryPair(tail, bands, inputs, c, o, n);
    }
  }

  /** In terms of the bands: for every band matching a record at its stored
      age and every band matching it at its age as of the new date, the
      query has the row pairing their rates. */
  lemma MatchedPairsAppear(census: seq<CensusRecord>, bands: seq<RateBand>, inputs: SaveAgeInputs,
                           c: CensusRecord, b1: RateBand, b2: RateBand)
    requires c in census && c.censusMasterId == Some(inputs.censusMasterId)
    requires b1 in bands && BandMatches(b1, inputs.rateMasterId, c, IssueAge(c))
    requires b2 in bands && BandMatches(b2, inputs.rateMasterId, c, IssueAgeAsOf(c, inputs.effectiveDate))
    ensures MakeRow(c, inputs, Some(b1.rate), Some(b2.rate)) in BaseSaveAgeQuery(census, bands, inputs)
  {
    var m1 := Matching(bands, inputs.rateMasterId, c, IssueAge(c));
    var m2 := Matching(bands, inputs.rateMasterId, c, IssueAgeAsOf(c, inputs.effectiveDate));
    var i :| 0 <= i < |m1| && m1[i] == b1;
    var j :| 0 <= j < |m2| && m2[j] == b2;
    assert OuterRates(m1)[i] == Some(b1.rate);
    assert OuterRates(m2)[j] == Some(b2.rate);
    QueryHasEveryPair(census, bands, inputs, c, Some(b1.rate), Some(b2.rate));
  }

  /** Each record has at most one band per join (no overlapping bands). */
  predicate Unambiguous(census: seq<CensusRecord>, bands: seq<RateBand>, inputs: SaveAgeInputs) {
    forall c :: c in census ==>
      && |Matching(bands, inputs.rateMasterId, c, IssueAge(c))| <= 1
      && |Matching(bands, inputs.rateMasterId, c, IssueAgeAsOf(c, inputs.effectiveDate))| <= 1
  }

  /** The requested upload's records, in order. */
  function UploadRecords(census: seq<CensusRecord>, censusMasterId: int): (r: seq<CensusRecord>)
    ensures |r| <= |census|
    ensures forall c :: c in r <==> c in census && c.censusMasterId == Some(censusMasterId)
    decreases |census|
  {
    if |census| == 0 then []
    else
      var here := if census[0].censusMasterId == Some(censusMasterId) then [census[0]] else [];
      assert forall c :: c in census <==> c == census[0] || c in census[1..];
      here + UploadRecords(census[1..], censusMasterId)
  }

  /** A record with at most one band per join contributes exactly one row. */
  lemma RowsForSingle(c: CensusRecord, bands: seq<RateBand>, inputs: SaveAgeInputs)
    requires |Matching(bands, inputs.rateMasterId, c, IssueAge(c))| <= 1
    requires |Matching(bands, inputs.rateMasterId, c, IssueAgeAsOf(c, inputs.effectiveDate))| <= 1
    ensures |RowsFor(c, bands, inputs)| == 1 && RowsFor(c, bands, inputs)[0].record == c
  {
    var olds := OuterRates(Matching(bands, inputs.rateMasterId, c, IssueAge(c)));
    var news := OuterRates(Matching(bands, inputs.rateMasterId, c, IssueAgeAsOf(c, inputs.effectiveDate)));
    assert |olds| == 1 && |news| == 1;
  }

  /** Row `i` of `rows` is for record `i` of `records`. */
  predicate RecordsAre(rows: seq<SaveAgeRow>, records: seq<CensusRecord>) {
    |rows| == |records| && forall i :: 0 <= i < |rows| ==> rows[i].record == records[i]
  }

  lemma RecordsAreCons(here: seq<SaveAgeRow>, rows: seq<SaveAgeRow>, c: CensusRecord, records: seq<CensusRecord>)
    requires |here| == 1 && here[0].record == c && RecordsAre(rows, records)
    ensures RecordsAre(here + rows, [c] + records)
  {
    var q := here + rows;
    var u := [c] + records;
    forall i | 0 <= i < |q|
      ensures q[i].record == u[i]
    {
      if i > 0 {
        assert q[i] == rows[i - 1];
        assert u[i] == records[i - 1];
      }
    }
  }

  /** With non-overlapping bands the outer join yields exactly one row per
      record of the upload, in census order. */
  lemma {:induction false} OneRowPerRecord(census: seq<CensusRecord>, bands: seq<RateBand>, inputs: SaveAgeInputs)
    requires Unambiguous(census, bands, inputs)
    ensures |BaseSaveAgeQuery(census, bands, inputs)| == |UploadRecords(census, inputs.censusMasterId)|
    ensures forall i :: 0 <= i < |BaseSaveAgeQuery(census, bands, inputs)| ==>
      BaseSaveAgeQuery(census, bands, inputs)[i].record == UploadRecords(census, inputs.censusMasterId)[i]
  {
    OneRowPerRecordAux(census, bands, inputs);
  }

  lemma {:induction false} OneRowPerRecordAux(census: seq<CensusRecord>, bands: seq<RateBand>, inputs: SaveAgeInputs)
    requires Unambiguous(census, bands, inputs)
    ensures RecordsAre(BaseSaveAgeQuery(census, bands, inputs), UploadRecords(census, inputs.censusMasterId))
    decreases |census|
  {
    if |census| > 0 {
      var c := census[0];
      var tail := census[1..];
      assert Unambiguous(tail, bands, inputs) by {
        forall x | x in tail ensures x in census { }
      }
      OneRowPerRecordAux(tail, bands, inputs);
      if c.censusMasterId == Some(inputs.censusMasterId) {
        assert c in census;
        RowsForSingle(c, bands, inputs);
        RecordsAreCons(RowsFor(c, bands, inputs), BaseSaveAgeQuery(tail, bands, inputs),
                       c, UploadRecords(tail, inputs.censusMasterId));
      }
    }
  }

  // ---------------------------------------------------------------------
  // Filtering, ordering and paging (`calc_save_age_data`)

  /** One ORDER BY term: a projected column name and its direction. */
  datatype OrderTerm = OrderTerm(column: string, desc: bool)

  /** The columns of the query's projection, by label. */
  function QueryColumns(): seq<string> {
    ["census_detail_id", "relationship", "tobacco_disposition", "issue_age", "birthdate",
     "save_age_effective_date", "new_effective_date", "save_age_rate", "new_rate", "diff"]
  }

  function RateValue(r: Option<real>): Value {
    if r.Some? then VNum(r.value) else VNull
  }

  /** The value a projected column holds in a row. */
  function ColumnValue(row: SaveAgeRow, column: string): Value {
    if column == "census_detail_id" then VNum(row.record.censusDetailId as real)
    else if column == "relationship" then VText(row.record.relationship)
    else if column == "tobacco_disposition" then VText(row.record.tobaccoDisposition)
    else if column == "issue_age" then VNum(row.issueAge as real)
    else if column == "birthdate" then VText(IsoDate(row.record.birthdate))
    else if column == "save_age_effective_date" then VText(IsoDate(row.record.effectiveDate))
    else if column == "new_effective_date" then VText(IsoDate(row.newEffectiveDate))
    else if column == "save_age_rate" then RateValue(row.saveAgeRate)
    else if column == "new_rate" then RateValue(row.newRate)
    else if column == "diff" then VNum(row.diff)
    else VNull
  }

  // ORDER BY names. The sort text reaches SQLite as bare names. SQLite
  // reads such a name as a result column when it equals one of the SELECT
  // labels, and otherwise as a column of the FROM tables, which must then
  // belong to exactly one of them.

  /** The labels of the comparison's SELECT: SQLAlchemy's query labels a
      plain column `<table>_<column>`, keeps the explicit labels, and labels
      the `issue_age` hybrid by its name. */
  function SelectLabels(): seq<string> {
    ["census_detail_census_detail_id", "census_detail_relationship",
     "census_detail_tobacco_disposition", "issue_age", "census_detail_birthdate",
     "save_age_effective_date", "new_effective_date", "save_age_rate", "new_rate", "diff"]
  }

  /** The columns of `census_detail`, the audit timestamps included. */
  function CensusDetailColumns(): set<string> {
    {"census_detail_id", "census_master_id", "birthdate", "relationship",
     "tobacco_disposition", "effective_date", "created_dts", "updated_dts"}
  }

  /** The columns of `rate_detail`. */
  function RateDetailColumns(): set<string> {
    {"rate_detail_id", "rate_master_id", "lower_age", "upper_age", "relationship",
     "tobacco_disposition", "rate", "created_dts", "updated_dts"}
  }

  /** The FROM clause: `census_detail`, the old-age `rate_detail` and its
      alias `rate_detail_1` for the new age. */
  function FromTables(): seq<set<string>> {
    [CensusDetailColumns(), RateDetailColumns(), RateDetailColumns()]
  }

  /** How many of `tables` have a column `name`. */
  function TablesWith(tables: seq<set<string>>, name: string): (n: nat)
    ensures n <= |tables|
    ensures n == 0 <==> forall k :: 0 <= k < |tables| ==> name !in tables[k]
    decreases |tables|
  {
    if |tables| == 0 then 0
    else
      var rest := TablesWith(tables[1..], name);
      assert forall k :: 1 <= k < |tables| ==> tables[k] == tables[1..][k - 1];
      (if name in tables[0] then 1 else 0) + rest
  }

  /** What a bare ORDER BY name denotes. */
  datatype OrderSource = ResultColumn(name: string) | TableColumn(column: string)

  /** SQLite's resolution of a bare ORDER BY name in the comparison query. */
  function ResolveOrderName(name: string): (r: Result<OrderSource, ExecError>)
    ensures r.Success? <==> name in SelectLabels() || TablesWith(FromTables(), name) == 1
    ensures r.Failure? ==>
      r.error == (if TablesWith(FromTables(), name) == 0 then NoSuchColumn(name) else AmbiguousColumn(name))
  {
    if name in SelectLabels() then Success(ResultColumn(name))
    else
      var n := TablesWith(FromTables(), name);
      if n == 0 then Failure(NoSuchColumn(name))
      else if n == 1 then Success(TableColumn(name))
      else Failure(AmbiguousColumn(name))
  }

  /** `relationship` and `tobacco_disposition` cannot be ordered by: they
      are not SELECT labels and all three joined tables have them. */
  lemma SharedColumnsAmbiguous()
    ensures ResolveOrderName("relationship") == Failure(AmbiguousColumn("relationship"))
    ensures ResolveOrderName("tobacco_disposition") == Failure(AmbiguousColumn("tobacco_disposition"))
  {
    assert TablesWith(FromTables(), "relationship") == 3;
    assert TablesWith(FromTables(), "tobacco_disposition") == 3;
  }

  /** An ORDER BY list naming either shared column does not resolve. */
  lemma SharedColumnTermsUnresolvable(terms: seq<OrderTerm>)
    requires exists k :: 0 <= k < |terms| && terms[k].column in {"relationship", "tobacco_disposition"}
    ensures !SortResolves(Some(terms))
  {
    var k :| 0 <= k < |terms| && terms[k].column in {"relationship", "tobacco_disposition"};
    SharedColumnsAmbiguous();
    assert ResolveOrderName(terms[k].column).Failure?;
  }

  /** Every other name `sort_parser` accepts is a SELECT label or a column
      of `census_detail` alone, so SQLite resolves it. */
  lemma OtherColumnsResolve(name: string)
    requires name in QueryColumns() && name != "relationship" && name != "tobacco_disposition"
    ensures ResolveOrderName(name).Success?
    ensures name !in SelectLabels() ==> name in CensusDetailColumns()
  {
    assert TablesWith(FromTables(), "census_detail_id") == 1;
    assert TablesWith(FromTables(), "birthdate") == 1;
  }

  /** Of the names `sort_parser` accepts, exactly `relationship` and
      `tobacco_disposition` fail to resolve, as ambiguous. */
  lemma QueryColumnsOrderBy(name: string)
    requires name in QueryColumns()
    ensures ResolveOrderName(name).Failure? <==> name == "relationship" || name == "tobacco_disposition"
    ensures ResolveOrderName(name).Failure? ==> ResolveOrderName(name).error == AmbiguousColumn(name)
  {
    SharedColumnsAmbiguous();
    if name != "relationship" && name != "tobacco_disposition" {
      OtherColumnsResolve(name);
    }
  }

  /** `a` sorts no later than `b` under the ORDER BY terms: the first term
      whose values differ decides; DESC reverses that term. */
  predicate RowLeq(terms: seq<OrderTerm>, a: SaveAgeRow, b: SaveAgeRow)
    decreases |terms|
  {
    if |terms| == 0 then true
    else
      var va := ColumnValue(a, terms[0].column);
      var vb := ColumnValue(b, terms[0].column);
      if va == vb then RowLeq(terms[1..], a, b)
      else if terms[0].desc then Less(vb, va)
      else Less(va, vb)
  }

  function RowOrder(terms: seq<OrderTerm>): (SaveAgeRow, SaveAgeRow) -> bool {
    (a: SaveAgeRow, b: SaveAgeRow) => RowLeq(terms, a, b)
  }

  lemma {:induction false} RowLeqTotal(terms: seq<OrderTerm>, a: SaveAgeRow, b: SaveAgeRow)
    ensures RowLeq(terms, a, b) || RowLeq(terms, b, a)
    decreases |terms|
  {
    if |terms| > 0 {
      LessTrichotomy(ColumnValue(a, terms[0].column), ColumnValue(b, terms[0].column));
      RowLeqTotal(terms[1..], a, b);
    }
  }

  lemma {:induction false} RowLeqTransitive(terms: seq<OrderTerm>, a: SaveAgeRow, b: SaveAgeRow, c: SaveAgeRow)
    requires RowLeq(terms, a, b) && RowLeq(terms, b, c)
    ensures RowLeq(terms, a, c)
    decreases |terms|
  {
    if |terms| > 0 {
      var col := terms[0].column;
      var va, vb, vc := ColumnValue(a, col), ColumnValue(b, col), ColumnValue(c, col);
      LessTrichotomy(va, vb);
      LessTrichotomy(vb, vc);
      LessTrichotomy(va, vc);
      if va == vb && vb == vc {
        RowLeqTransitive(terms[1..], a, b, c);
      } else if va != vb && vb != vc {
        if terms[0].desc { LessTransitive(vc, vb, va); } else { LessTransitive(va, vb, vc); }
      }
    }
  }

  /** ORDER BY with any list of terms is a total preorder on rows. */
  lemma RowOrderTotalPreorder(terms: seq<OrderTerm>)
    ensures Sorting.TotalPreorder(RowOrder(terms))
  {
    forall a, b ensures RowOrder(terms)(a, b) || RowOrder(terms)(b, a) {
      RowLeqTotal(terms, a, b);
    }
    forall a, b, c | RowOrder(terms)(a, b) && RowOrder(terms)(b, c)
      ensures RowOrder(terms)(a, c)
    {
      RowLeqTransitive(terms, a, b, c);
    }
  }

  /** The failure a query raises while executing. */
  datatype ExecError =
    /** SQLite: "ambiguous column name". */
    | AmbiguousColumn(name: string)
    /** SQLite: "no such column". */
    | NoSuchColumn(name: string)

  /** Every ORDER BY term names something SQLite can resolve. */
  predicate SortResolves(sorts: Option<seq<OrderTerm>>) {
    sorts.Some? ==> forall k :: 0 <= k < |sorts.value| ==> ResolveOrderName(sorts.value[k].column).Success?
  }

  function ResolveTerms(terms: seq<OrderTerm>): Result<seq<OrderSource>, ExecError> {
    Traverse(terms, (t: OrderTerm) => ResolveOrderName(t.column))
  }

  predicate AllHold(filters: seq<Sql.Pred>, c: CensusRecord) {
    forall k :: 0 <= k < |filters| ==> Holds(filters[k], c)
  }

  /** `qry.filter(*filters)`: the rows every predicate holds of, in order. */
  function FilterRows(rows: seq<SaveAgeRow>, filters: seq<Sql.Pred>): (r: seq<SaveAgeRow>)
    ensures forall row :: row in r <==> row in rows && AllHold(filters, row.record)
    ensures |r| <= |rows|
    decreases |rows|
  {
    if |rows| == 0 then []
    else
      var rest := FilterRows(rows[1..], filters);
      assert forall x :: x in rows <==> x == rows[0] || x in rows[1..];
      if AllHold(filters, rows[0].record) then [rows[0]] + rest else rest
  }

  /** `.limit(limit).offset(offset)` in SQLite: a negative limit means no
      limit and a negative offset counts as zero. */
  function Page(rows: seq<SaveAgeRow>, offset: int, limit: int): (r: seq<SaveAgeRow>)
    ensures var start := if offset < 0 then 0 else offset;
      && (start >= |rows| ==> r == [])
      && (start < |rows| ==>
            && |r| == (if limit < 0 || start + limit > |rows| then |rows| - start else limit)
            && forall i :: 0 <= i < |r| ==> r[i] == rows[start + i])
  {
    var start := if offset < 0 then 0 else offset;
    if start >= |rows| then []
    else if limit < 0 || start + limit > |rows| then rows[start..]
    else rows[start..start + limit]
  }

  /** `calc_save_age_data`: filter, then order (when a sort was given), then
      limit and offset. The statement fails when SQLite prepares it, before
      any row is read, if an ORDER BY name does not resolve. */
  function CalcSaveAgeData(rows: seq<SaveAgeRow>, filters: seq<Sql.Pred>, sorts: Option<seq<OrderTerm>>,
                           offset: int, limit: int): (r: Result<seq<SaveAgeRow>, ExecError>)
    ensures r.Failure? <==> !SortResolves(sorts)
  {
    if sorts.Some? && ResolveTerms(sorts.value).Failure? then Failure(ResolveTerms(sorts.value).error)
    else
      var kept := FilterRows(rows, filters);
      var ordered := if sorts.Some? then Sorting.SortBy(kept, RowOrder(sorts.value)) else kept;
      Success(Page(ordered, offset, limit))
  }

  /** The error of a failing page query, whatever the filters, is that of
      the first ORDER BY name SQLite cannot resolve. */
  lemma CalcSaveAgeDataSortError(rows: seq<SaveAgeRow>, filters: seq<Sql.Pred>, sorts: Option<seq<OrderTerm>>,
                                 offset: int, limit: int)
    requires CalcSaveAgeData(rows, filters, sorts, offset, limit).Failure?
    ensures exists k ::
      && 0 <= k < |sorts.value|
      && ResolveOrderName(sorts.value[k].column) == Failure(CalcSaveAgeData(rows, filters, sorts, offset, limit).error)
      && forall j :: 0 <= j < k ==> ResolveOrderName(sorts.value[j].column).Success?
  {
  }

  /** When the query runs (every ORDER BY name resolves):
      the page holds only rows of the query that pass every filter; before
      paging, the ordered rows are a rearrangement of exactly the passing
      rows, sorted by the ORDER BY terms. */
  lemma CalcSaveAgeDataSpec(rows: seq<SaveAgeRow>, filters: seq<Sql.Pred>, sorts: Option<seq<OrderTerm>>,
                            offset: int, limit: int)
    requires SortResolves(sorts)
    ensures CalcSaveAgeData(rows, filters, sorts, offset, limit).Success?
    ensures forall row :: row in CalcSaveAgeData(rows, filters, sorts, offset, limit).value ==>
      row in rows && AllHold(filters, row.record)
    ensures sorts.None? ==>
      CalcSaveAgeData(rows, filters, sorts, offset, limit).value == Page(FilterRows(rows, filters), offset, limit)
    ensures sorts.Some? ==>
      var ordered := Sorting.SortBy(FilterRows(rows, filters), RowOrder(sorts.value));
      && multiset(ordered) == multiset(FilterRows(rows, filters))
      && Sorting.SortedBy(ordered, RowOrder(sorts.value))
      && CalcSaveAgeData(rows, filters, sorts, offset, limit).value == Page(ordered, offset, limit)
  {
    var kept := FilterRows(rows, filters);
    var data := CalcSaveAgeData(rows, filters, sorts, offset, limit).value;
    if sorts.Some? {
      var order := RowOrder(sorts.value);
      var ordered := Sorting.SortBy(kept, order);
      Sorting.SortPermutation(kept, order);
      RowOrderTotalPreorder(sorts.value);
      Sorting.SortSorted(kept, order);
      assert data == Page(ordered, offset, limit);
      PageWithin(ordered, offset, limit);
      forall row | row in ordered ensures row in kept {
        assert row in multiset(ordered);
      }
    } else {
      assert data == Page(kept, offset, limit);
      PageWithin(kept, offset, limit);
    }
  }

  /** A page holds only rows of what it pages. */
  lemma PageWithin(rows: seq<SaveAgeRow>, offset: int, limit: int)
    ensures forall row :: row in Page(rows, offset, limit) ==> row in rows
  {
  }

  // ---------------------------------------------------------------------
  // Statistics (`calc_save_age_stats`)

  datatype SaveAgeStats = SaveAgeStats(
    count: int, saveAgeRate: Option<real>, newRate: Option<real>, diff: Option<real>)

  /** SQL `+` inside SUM: NULL inputs are skipped. */
  function AddSkippingNull(x: Option<real>, acc: Option<real>): Option<real> {
    match (x, acc)
    case (None, _) => acc
    case (Some(a), None) => Some(a)
    case (Some(a), Some(b)) => Some(a + b)
  }

  datatype StatColumn = SaveAgeRateColumn | NewRateColumn | DiffColumn

  function StatValue(row: SaveAgeRow, col: StatColumn): Option<real> {
    match col
    case SaveAgeRateColumn => row.saveAgeRate
    case NewRateColumn => row.newRate
    case DiffColumn => Some(row.diff)
  }

  /** SQL `SUM(col)`: the sum of the non-null values, NULL when there are none. */
  function Sum(rows: seq<SaveAgeRow>, col: StatColumn): Option<real>
    decreases |rows|
  {
    if |rows| == 0 then None
    else AddSkippingNull(StatValue(rows[0], col), Sum(rows[1..], col))
  }

  /** SUM is NULL exactly when every value it adds is NULL. */
  lemma {:induction false} SumNullIffAllNull(rows: seq<SaveAgeRow>, col: StatColumn)
    ensures Sum(rows, col).None? <==> forall i :: 0 <= i < |rows| ==> StatValue(rows[i], col).None?
    decreases |rows|
  {
    if |rows| > 0 {
      SumNullIffAllNull(rows[1..], col);
      assert forall i :: 1 <= i < |rows| ==> rows[i] == rows[1..][i - 1];
    }
  }

  /** `calc_save_age_stats` over the unfiltered query. */
  function CalcSaveAgeStats(rows: seq<SaveAgeRow>): (r: SaveAgeStats)
    ensures r.count == |rows|
    ensures r.diff.None? <==> |rows| == 0
  {
    SumNullIffAllNull(rows, DiffColumn);
    assert |rows| > 0 ==> StatValue(rows[0], DiffColumn).Some?;
    SaveAgeStats(|rows|, Sum(rows, SaveAgeRateColumn), Sum(rows, NewRateColumn), Sum(rows, DiffColumn))
  }

  /** Skipping NULLs and then reading NULL as zero is plain addition. */
  lemma AddSkippingNullAsZero(x: Option<real>, acc: Option<real>)
    ensures AddSkippingNull(x, acc).GetOr(0.0) == x.GetOr(0.0) + acc.GetOr(0.0)
  {
  }

  /** The summed difference is the difference of the (null-as-zero) sums. */
  lemma {:induction false} SumDiffIsDiffOfSums(rows: seq<SaveAgeRow>)
    requires forall i :: 0 <= i < |rows| ==> rows[i].diff == Diff(rows[i].saveAgeRate, rows[i].newRate)
    ensures |rows| > 0 ==>
      Sum(rows, DiffColumn) == Some(Sum(rows, NewRateColumn).GetOr(0.0) - Sum(rows, SaveAgeRateColumn).GetOr(0.0))
    decreases |rows|
  {
    if |rows| > 0 {
      var tail := rows[1..];
      AddSkippingNullAsZero(rows[0].newRate, Sum(tail, NewRateColumn));
      AddSkippingNullAsZero(rows[0].saveAgeRate, Sum(tail, SaveAgeRateColumn));
      assert rows[0].diff == rows[0].newRate.GetOr(0.0) - rows[0].saveAgeRate.GetOr(0.0);
      if |tail| > 0 {
        assert forall i :: 0 <= i < |tail| ==> tail[i] == rows[i + 1];
        SumDiffIsDiffOfSums(tail);
      }
    }
  }

  /** Every row of the comparison carries its own difference. */
  lemma QueryRowsCarryDiff(census: seq<CensusRecord>, bands: seq<RateBand>, inputs: SaveAgeInputs)
    ensures var rows := BaseSaveAgeQuery(census, bands, inputs);
      forall i :: 0 <= i < |rows| ==> rows[i].diff == Diff(rows[i].saveAgeRate, rows[i].newRate)
  {
    var rows := BaseSaveAgeQuery(census, bands, inputs);
    forall i | 0 <= i < |rows|
      ensures rows[i].diff == Diff(rows[i].saveAgeRate, rows[i].newRate)
    {
      var row := rows[i];
      assert row in rows;
      assert Joined(row, bands, inputs);
    }
  }

  /** The statistics of the comparison: one count per joined row, and the
      diff total equals new total minus old total. */
  lemma StatsOfComparison(census: seq<CensusRecord>, bands: seq<RateBand>, inputs: SaveAgeInputs)
    ensures var rows := BaseSaveAgeQuery(census, bands, inputs);
      var stats := CalcSaveAgeStats(rows);
      && stats.count == |rows|
      && (|rows| > 0 ==> stats.diff == Some(stats.newRate.GetOr(0.0) - stats.saveAgeRate.GetOr(0.0)))
  {
    var rows := BaseSaveAgeQuery(census, bands, inputs);
    QueryRowsCarryDiff(census, bands, inputs);
    SumDiffIsDiffOfSums(rows);
    var stats := CalcSaveAgeStats(rows);
    assert stats.diff == Sum(rows, DiffColumn);
    assert stats.newRate == Sum(rows, NewRateColumn);
    assert stats.saveAgeRate == Sum(rows, SaveAgeRateColumn);
  }
}
