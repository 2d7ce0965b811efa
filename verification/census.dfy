/** Census detail records (`ModelCensusDetail`) and rate detail rows
    (`ModelRateDetail`) as the store accepts them: the NOT NULL columns must
    be present, in the table's column order. */
module Census {
  import opened Wrappers
  import opened Dates
  import opened Rates

  /** One covered individual of one census upload. `censusMasterId` is a
      nullable foreign key. `createdDts` and `updatedDts` are the nullable
      audit columns as stored: `YYYY-MM-DD HH:MM:SS` text that the
      database's clock fills in, so the model takes them as given. */
  datatype CensusRecord = CensusRecord(
    censusDetailId: int,
    censusMasterId: Option<int>,
    birthdate: Date,
    relationship: string,
    tobaccoDisposition: string,
    effectiveDate: Date,
    createdDts: Option<string>,
    updatedDts: Option<string>)

  /** The SQL `issue_age` of a record. */
  function IssueAge(c: CensusRecord): int {
    SqlIssueAge(c.birthdate, c.effectiveDate)
  }

  /** The SQL `issue_age_as_of(d)` of a record. */
  function IssueAgeAsOf(c: CensusRecord, d: Date): int {
    SqlIssueAgeAsOf(c.birthdate, d)
  }

  /** A census row before the store's NOT NULL checks. */
  datatype RawCensusRow = RawCensusRow(
    censusDetailId: int,
    censusMasterId: Option<int>,
    birthdate: Option<Date>,
    relationship: Option<string>,
    tobaccoDisposition: Option<string>,
    effectiveDate: Option<Date>,
    createdDts: Option<string>,
    updatedDts: Option<string>)

  /** A rate row before the store's NOT NULL checks. */
  datatype RawRateRow = RawRateRow(
    rateMasterId: Option<int>,
    lowerAge: Option<int>,
    upperAge: Option<int>,
    relationship: Option<string>,
    tobaccoDisposition: Option<string>,
    rate: Option<real>)

  /** The NOT NULL constraint failure the store reports, naming the first
      offending column. */
  datatype LoadError = NullColumn(column: string)

  /** The first absent column of a row, given each NOT NULL column's name
      and whether it is present, in table order. */
  predicate FirstAbsent(names: seq<string>, present: seq<bool>, column: string)
    requires |names| == |present|
  {
    exists k :: 0 <= k < |names| && !present[k] && names[k] == column
      && forall j :: 0 <= j < k ==> present[j]
  }

  /** The NOT NULL columns of `census_detail`, in table order. */
  function CensusNotNull(): seq<string> {
    ["birthdate", "relationship", "tobacco_disposition", "effective_date"]
  }

  function CensusPresent(raw: RawCensusRow): seq<bool> {
    [raw.birthdate.Some?, raw.relationship.Some?, raw.tobaccoDisposition.Some?, raw.effectiveDate.Some?]
  }

  /** The NOT NULL columns of `rate_detail`, in table order. */
  function RateNotNull(): seq<string> {
    ["lower_age", "upper_age", "relationship", "tobacco_disposition", "rate"]
  }

  function RatePresent(raw: RawRateRow): seq<bool> {
    [raw.lowerAge.Some?, raw.upperAge.Some?, raw.relationship.Some?, raw.tobaccoDisposition.Some?, raw.rate.Some?]
  }

  /** Inserting a census detail: birthdate, relationship,
      tobacco_disposition and effective_date are mandatory. */
  function LoadCensusDetail(raw: RawCensusRow): (r: Result<CensusRecord, LoadError>)
    ensures r.Success? <==>
      raw.birthdate.Some? && raw.relationship.Some?
      && raw.tobaccoDisposition.Some? && raw.effectiveDate.Some?
    ensures r.Success? ==>
      && r.value.censusDetailId == raw.censusDetailId
      && r.value.censusMasterId == raw.censusMasterId
      && Some(r.value.birthdate) == raw.birthdate
      && Some(r.value.relationship) == raw.relationship
      && Some(r.value.tobaccoDisposition) == raw.tobaccoDisposition
      && Some(r.value.effectiveDate) == raw.effectiveDate
      && r.value.createdDts == raw.createdDts
      && r.value.updatedDts == raw.updatedDts
    ensures r.Failure? ==> FirstAbsent(CensusNotNull(), CensusPresent(raw), r.error.column)
  {
    var names, present := CensusNotNull(), CensusPresent(raw);
    if raw.birthdate.None? then assert !present[0] && names[0] == "birthdate"; Failure(NullColumn("birthdate"))
    else if raw.relationship.None? then assert !present[1] && names[1] == "relationship"; Failure(NullColumn("relationship"))
    else if raw.tobaccoDisposition.None? then
      assert !present[2] && names[2] == "tobacco_disposition";
      Failure(NullColumn("tobacco_disposition"))
    else if raw.effectiveDate.None? then
      assert !present[3] && names[3] == "effective_date";
      Failure(NullColumn("effective_date"))
    else Success(CensusRecord(raw.censusDetailId, raw.censusMasterId, raw.birthdate.value,
      raw.relationship.value, raw.tobaccoDisposition.value, raw.effectiveDate.value,
      raw.createdDts, raw.updatedDts))
  }

  /** Inserting a rate detail: lower_age, upper_age, relationship,
      tobacco_disposition and rate are mandatory. */
  function LoadRateDetail(raw: RawRateRow): (r: Result<RateBand, LoadError>)
    ensures r.Success? <==>
      raw.lowerAge.Some? && raw.upperAge.Some? && raw.relationship.Some?
      && raw.tobaccoDisposition.Some? && raw.rate.Some?
    ensures r.Success? ==>
      && r.value.rateMasterId == raw.rateMasterId
      && Some(r.value.lowerAge) == raw.lowerAge
      && Some(r.value.upperAge) == raw.upperAge
      && Some(r.value.relationship) == raw.relationship
      && Some(r.value.tobaccoDisposition) == raw.tobaccoDisposition
      && Some(r.value.rate) == raw.rate
    ensures r.Failure? ==> FirstAbsent(RateNotNull(), RatePresent(raw), r.error.column)
  {
    var names, present := RateNotNull(), RatePresent(raw);
    if raw.lowerAge.None? then assert !present[0] && names[0] == "lower_age"; Failure(NullColumn("lower_age"))
    else if raw.upperAge.None? then assert !present[1] && names[1] == "upper_age"; Failure(NullColumn("upper_age"))
    else if raw.relationship.None? then assert !present[2] && names[2] == "relationship"; Failure(NullColumn("relationship"))
    else if raw.tobaccoDisposition.None? then
      assert !present[3] && names[3] == "tobacco_disposition";
      Failure(NullColumn("tobacco_disposition"))
    else if raw.rate.None? then assert !present[4] && names[4] == "rate"; Failure(NullColumn("rate"))
    else Success(RateBand(raw.rateMasterId, raw.lowerAge.value, raw.upperAge.value,
      raw.relationship.value, raw.tobaccoDisposition.value, raw.rate.value))
  }
}
