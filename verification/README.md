# Save-age comparison core of census-parser, in Dafny

census-parser stores insurance census uploads (one row per covered person)
and rate tables (premium per age band, relationship and tobacco status).
Its save-age page compares, for every person of an upload, the rate at the
person's original issue age with the rate at the age they would have as of a
new effective date. This project models that core and proves properties of
the model:

- **Dates** (`dates.dfy`): the `yyyymmdd` integer encoding and the SQL
  `issue_age` / `issue_age_as_of` / tenure expressions. These truncate toward
  zero, as SQLite's integer `/` does. The Python hybrids (day subtracted,
  floor division) are modelled separately. The two are proved to agree
  except in the birth month on a day other than the birthday: there the
  hybrid is one year ahead before the birthday and one year behind after it.
- **Rate widening** (`rates.dfy`, `sorting.dfy`): `unbounded_min`,
  `unbounded_max` and `modify_rate_details`. Each is a stable sort by the
  bound, then a sentinel (-9999 / 9999) on every band tying the batch's
  extreme. An empty batch with the flag set fails, as `data[0]` raises.
- **Records** (`census.dfy`): the NOT NULL columns of census and rate rows.
- **SQL fragment** (`sql.dfy`): SQLite's value order (NULL < numbers < text),
  the affinity a compared column gives a text literal, LIKE, and the
  predicates `apply_operator` builds. Dates and timestamps are compared as
  their stored ISO text.
- **The comparison** (`saveage.dfy`): `base_save_age_query` is a double outer
  join using the same `rate_master_id` for both rate lookups. It yields one
  row per pair of matching bands, a missing side counting once as a NULL
  rate, with
  `diff = coalesce(new, 0) - coalesce(old, 0)`. Also modelled: filtering,
  ORDER BY, SQLite LIMIT/OFFSET, and the NULL-skipping SUM of
  `calc_save_age_stats`.
- **Request handling** (`resources.dfy`): `filter_parser` (Python `split` on
  `;;` then `::`), `sort_parser`, the `post` handler's 400/500 split, the
  dropdowns' fuzzy `ilike` pattern, and the upload extension check with
  `os.path.splitext` semantics.
- **Grid client** (`client.dfy`): `filterHandler`, `sortHandler`, the query
  parameters of the comparison request and the `getRows` block window. Each
  is connected to the server's parsers by round-trip lemmas.

Three behaviours follow the code rather than its apparent intent:

- A filter on a name that is not an attribute of `ModelCensusDetail` makes
  `getattr` raise AttributeError, which `post` does not catch. This includes
  the grid's computed columns such as `save_age_rate`. The
  "Invalid column name" branch is reached only through `__doc__`, which is
  None on that class.
- A filter on a date attribute compares text, not dates. The literal is a
  Python `str`, so SQLAlchemy binds it as a `String`. SQLite then compares
  it with the stored ISO text. `birthdate::greaterThan::1990-01-01` does
  what it reads as. A literal that reads as a number, such as `1990`, is
  converted under the DATE column's NUMERIC affinity and sorts before every
  date, so `greaterThan` keeps every row and `lessThan` none.
- Sorting by `relationship` or `tobacco_disposition` passes `sort_parser`,
  since both are query column names. But the ORDER BY text names them bare.
  The SELECT labels them `census_detail_relationship` and
  `census_detail_tobacco_disposition`, and all three joined tables have
  both columns, so SQLite finds the name ambiguous. The page query then
  fails outside the `try`. The grid lets every column be sorted.

## Model

| member | source | states |
|---|---|---|
| Dates.TruncDiv | api/census/models.py:62-79 | the quotient lies within one divisor of the exact value and has the dividend's sign (rounding toward zero) |
| Dates.EncodeMonotone | api/census/mixins.py:22-24 | on valid dates, `yyyymmdd` is strictly increasing in calendar order and injective |
| Dates.TailBounded | api/census/mixins.py:22-24 | the month/day part of the encoding lies between 0101 and 1231 |
| Dates.YearsBetweenAnniversary | api/census/models.py:62-79 | the truncated span is the year difference once the anniversary is reached, and one less before it |
| Dates.SqlIssueAgeAnniversary | api/census/models.py:62-79 | issue age is the number of completed birthdays at the effective date |
| Dates.YearsBetweenNonNegative | api/census/models.py:96-113 | the span over an ordered pair of dates is never negative |
| Dates.SqlIssueAgeNonNegative | api/census/models.py:62-79 | issue age is non-negative when birth is not after the effective date |
| Dates.TenureNonNegative | api/census/mixins.py:38-42 | tenure is non-negative when the effective date is not after now |
| Dates.TruncDivMonotone | api/census/models.py:96-113 | truncating division by 10000 preserves order |
| Dates.YearsBetweenAntisymmetric | api/census/models.py:96-113 | reversing the interval negates the span (truncation is symmetric) |
| Dates.IssueAgeAsOfMonotone | api/census/models.py:96-113 | `issue_age_as_of` does not decrease as the as-of date moves later |
| Dates.IssueAgeAsOfAtEffective | api/census/models.py:96-113 | as of the record's own effective date, `issue_age_as_of` equals `issue_age` |
| Dates.AnniversaryExample | api/census/models.py:62-79 | born 1990-06-15: age 33 on 2024-06-14, and 34 on 2024-06-15 |
| Dates.PythonHybridVersusSql | api/census/models.py:62-94 | on valid ordered dates the hybrid equals the SQL age unless the as-of date is in the birth month on another day; then it is one more before the birth day and one less after it |
| Dates.PythonHybridDiffers | api/census/models.py:81-94 | the Python hybrid gives 34 on 2024-06-14, where the SQL expression gives 33 |
| Sorting.SortPermutation | api/census/mixins.py:196 | sorting keeps the same multiset of bands |
| Sorting.SortSorted | api/census/mixins.py:196 | the sorted batch is ordered by the key |
| Sorting.SortStable | api/census/mixins.py:209 | bands with equal keys keep their input order, as Python's sort guarantees |
| Rates.KeyLeTotalPreorder | api/census/mixins.py:196 | ordering bands by one age bound is a total preorder |
| Rates.MinKeyIsLeast | api/census/mixins.py:197 | the minimum lower age belongs to some band and bounds all bands below |
| Rates.MaxKeyIsGreatest | api/census/mixins.py:210 | the maximum upper age belongs to some band and bounds all bands above |
| Rates.SortedEnds | api/census/mixins.py:196-197 | after sorting, the first band holds the least bound and the last the greatest |
| Rates.Widen | api/census/mixins.py:192-202 | flag not "Y": data unchanged; "Y" and empty: failure; otherwise each sorted band with the extreme key gets the sentinel |
| Rates.WidenDisabledIsIdentity | api/census/mixins.py:193-194 | any flag other than "Y" returns the batch unchanged, in input order |
| Rates.WidenSpec | api/census/mixins.py:192-202 | widening a non-empty batch: same length, a permutation of the input, sorted and stable; only the bound changes; every band at the extreme gets the sentinel; the rest are unchanged |
| Rates.WidenExtremeOfBatch | api/census/mixins.py:205-215 | the rewritten extremes are the batch-wide minimum lower age and maximum upper age |
| Rates.ModifyRateDetailsSpec | api/census/mixins.py:218-221 | fails exactly on an empty batch with a flag set; otherwise keeps the length; the min step changes only lower ages and the max step only upper ages |
| Rates.WidenExample | api/census/mixins.py:192-202 | lower ages 18, 0, 65 with `umin="Y"` become -9999, 18, 65 in sorted order |
| Census.LoadCensusDetail | api/census/models.py:30-33 | a census row is stored exactly when its four NOT NULL columns are present, with values unchanged; otherwise the first missing column in table order is named |
| Census.LoadRateDetail | api/census/models.py:138-142 | a rate row is stored exactly when its five NOT NULL columns are present, with values unchanged; otherwise the first missing column in table order is named |
| Sql.LessTrichotomy | api/census/mixins.py:170-172 | SQLite's value order used by ORDER BY is a strict total order |
| Sql.LessTransitive | api/census/mixins.py:170-172 | that order is transitive |
| Sql.LookupAttr | api/census/resources.py:213 | a name resolves to a census attribute exactly when it is one of the model's mapped attribute names |
| Sql.AttrValue | api/census/models.py:22-33 | definition, not a proved property: the value SQLite holds for each attribute. Integer columns give numbers. Strings give their text. Dates give their ISO text. A missing foreign key or timestamp gives NULL |
| Sql.Coerce | api/census/resources.py:180-191 | definition, not a proved property: SQLite's affinity rule for the compared literal. It becomes a number exactly when the column is not a `String` column and the literal reads as an integer; otherwise it stays the same text |
| Sql.NegatedOperators | api/census/resources.py:194-197 | on every attribute, dates included, and a non-null value `notContains` holds iff `contains` does not (likewise `notEqual` and `equals`); on NULL none of them holds |
| Sql.ComparisonOperators | api/census/resources.py:180-191 | on every attribute, dates included: `>=` is `>` or `=`; `>` and `<` exclude each other; on non-null values `<=` is the negation of `>` |
| Sql.DateFilterComparesText | api/census/resources.py:180-191 | on a date or timestamp column, a literal that does not read as a number is compared as text with the stored ISO value |
| Sql.NumericDateLiteral | api/census/resources.py:180-191 | a literal that reads as a number sorts before every stored date: `greaterThan` holds of every non-null value, `lessThan` and `equals` of none |
| SaveAge.Matching | api/census/mixins.py:136-162 | the matched bands are exactly the table's bands meeting the join condition (same rate master, relationship, tobacco status, age within the bounds) |
| SaveAge.OuterRates | api/census/mixins.py:136-145 | an outer join yields one rate per matching band, or a single NULL when none matches |
| SaveAge.Cross | api/census/mixins.py:136-162 | every output row pairs one old-join rate with one new-join rate; a single pair gives a single row |
| SaveAge.CrossComplete | api/census/mixins.py:136-159 | the pairing is complete: every old rate meets every new rate, and there are exactly `|olds| * |news|` rows |
| SaveAge.OuterRatesJoined | api/census/mixins.py:136-145 | a joined rate is NULL only when no band matches, and otherwise is the rate of a matching band |
| SaveAge.RowsForJoined | api/census/mixins.py:136-162 | every record yields at least one row; each row satisfies both join conditions (old age for the first join, age as of the new date for the second) |
| SaveAge.BaseSaveAgeQuery | api/census/mixins.py:111-165 | every row belongs to a record of the requested upload and satisfies both joins; every record of that upload has a row |
| SaveAge.QueryRowCount | api/census/mixins.py:136-162 | the query has, summed over the upload's records, old-join matches times new-join matches rows, a side without matches counting once |
| SaveAge.QueryHasEveryPair | api/census/mixins.py:136-162 | for each upload record, every pairing of an old-join rate with a new-join rate is a row |
| SaveAge.MatchedPairsAppear | api/census/mixins.py:136-159 | for every band matching a record at its stored age and every band matching it at its new age, the row pairing their rates is in the query |
| SaveAge.UploadRecords | api/census/mixins.py:160-162 | the upload's records are exactly the census records carrying the requested `census_master_id` |
| SaveAge.OneRowPerRecord | api/census/mixins.py:136-162 | with non-overlapping bands, the query has exactly one row per record of the upload, in order |
| SaveAge.ResolveOrderName | api/census/mixins.py:171-172 | a bare ORDER BY name resolves iff it is a SELECT label or a column of exactly one joined table; otherwise "no such column" or "ambiguous column name" |
| SaveAge.SharedColumnsAmbiguous | api/census/mixins.py:121-159 | `relationship` and `tobacco_disposition` are ambiguous ORDER BY names in the comparison query |
| SaveAge.OtherColumnsResolve | api/census/mixins.py:121-134 | every other query column name resolves, to a label or to a `census_detail` column |
| SaveAge.QueryColumnsOrderBy | api/census/mixins.py:121-172 | of the query column names, ORDER BY fails exactly for `relationship` and `tobacco_disposition`, as ambiguous |
| SaveAge.RowLeqTotal | api/census/mixins.py:170-171 | ORDER BY with any term list compares every two rows |
| SaveAge.RowLeqTransitive | api/census/mixins.py:170-171 | ORDER BY is transitive |
| SaveAge.RowOrderTotalPreorder | api/census/mixins.py:170-171 | ORDER BY is a total preorder on result rows |
| SaveAge.FilterRows | api/census/mixins.py:169 | the kept rows are exactly the query rows that every filter holds of |
| SaveAge.Page | api/census/mixins.py:172 | LIMIT/OFFSET as SQLite applies them: a negative offset counts as 0, a negative limit means no limit, and the page is the contiguous run starting at the offset |
| SaveAge.CalcSaveAgeData | api/census/mixins.py:168-172 | the page query fails exactly when some ORDER BY name does not resolve, whatever the filters |
| SaveAge.CalcSaveAgeDataSortError | api/census/mixins.py:170-172 | a failing page query reports the first ORDER BY name that does not resolve |
| SaveAge.CalcSaveAgeDataSpec | api/census/mixins.py:168-172 | when the query runs (every ORDER BY name resolves): every page row is a query row passing all filters; the page is cut from the filtered rows, sorted by the ORDER BY terms when given |
| SaveAge.SumNullIffAllNull | api/census/mixins.py:175-187 | SQL SUM is NULL exactly when all its values are NULL |
| SaveAge.CalcSaveAgeStats | api/census/mixins.py:175-187 | the count is the number of rows; the diff sum is NULL exactly for an empty comparison |
| SaveAge.SumDiffIsDiffOfSums | api/census/mixins.py:131-133 | the summed diff equals the summed new rates minus the summed old rates, NULLs counting as 0 |
| SaveAge.QueryRowsCarryDiff | api/census/mixins.py:131-133 | every row of the comparison carries `coalesce(new_rate, 0) - coalesce(save_age_rate, 0)` as its diff |
| SaveAge.StatsOfComparison | api/census/mixins.py:175-187 | over the comparison query: the count is the row count, and the diff sum is the difference of the rate sums |
| Resources.ApplyOperator | api/census/resources.py:179-197 | exactly the eight operator names are accepted; each builds the predicate it names on the given column and value; others raise "Invalid operator" |
| Resources.ResolveAttribute | api/census/resources.py:213-215 | `getattr` yields a mapped attribute exactly for the mapped names, None exactly for `__doc__`, and raises otherwise |
| Resources.ParseClause | api/census/resources.py:208-216 | a clause without exactly three `::` tokens is "Invalid filter format"; a parsed clause's attribute, operator and value are its tokens; "Invalid column name" only for `__doc__` |
| Resources.ParseClauses | api/census/resources.py:210-217 | parsing succeeds iff every clause parses, giving one predicate per clause in order; otherwise the first failing clause's error is returned |
| Resources.FilterParserShape | api/census/resources.py:200-217 | `filter_parser` returns one predicate per `;;`-separated clause |
| Resources.FilterParserInvalidColumnName | api/census/resources.py:213-215 | "Invalid column name" arises only from a clause naming `__doc__` |
| Resources.ClauseRoundTrip | api/census/resources.py:207-216 | `col::op::val` with colon-free tokens parses back into exactly those tokens |
| Resources.FilterParserOfJoin | api/census/resources.py:207 | clauses without `;` joined by `;;` are parsed one by one |
| Resources.UnknownColumnFilterFails | api/census/resources.py:213 | a clause naming anything but a mapped attribute or `__doc__` raises AttributeError |
| Resources.ComputedColumnSortsButNotFilters | api/census/resources.py:213-233 | a query column that is not a census attribute, such as `save_age_rate`, is accepted by `sort_parser` but a filter on it raises AttributeError |
| Resources.SingleSortItem | api/census/resources.py:220-235 | a sort string of one listed column sorts by it ascending |
| Resources.TwoTokenClauseFails | api/census/resources.py:208-211 | a clause `a::b` is "Invalid filter format" |
| Resources.FourTokenClauseFails | api/census/resources.py:208-211 | a clause with a fourth `::` token is "Invalid filter format" |
| Resources.ParseSortItem | api/census/resources.py:224-233 | an empty item raises IndexError; a leading `-` means descending; the column must be a query column, else "Invalid column name" |
| Resources.ParseSortItems | api/census/resources.py:223-234 | all items must parse; the result has one term per item, in order; otherwise the first failing item's error is returned |
| Resources.SortParser | api/census/resources.py:220-235 | an absent or empty sort string gives no ORDER BY; otherwise there is one term per comma-separated item |
| Resources.SortParserRoundTrip | api/census/resources.py:220-235 | joining the items of valid terms with `,` parses back into those terms, and renders as `col asc`/`col desc` joined by `,` |
| Resources.TrailingCommaFails | api/census/resources.py:223-227 | a sort string with a trailing comma raises IndexError on the empty item |
| Resources.FuzzyPattern | api/census/resources.py:167 | the pattern interleaves `%` with the typed characters: characters at odd positions, `%` at even ones, length 2n+1 (`%%` when empty) |
| Resources.FuzzyPatternIsJoin | api/census/resources.py:167 | the pattern equals `"%" + "%".join(list(name)) + "%"` |
| Resources.FuzzySearchMatches | api/census/resources.py:167-170 | for a name without wildcards, `ilike` matches exactly the stored names containing the typed characters in order, ignoring ASCII case |
| Resources.Extension | api/census/resources.py:275 | the extension is empty or a final `.suffix` of the name containing no further `.` or `/` |
| Resources.CheckUpload | api/census/resources.py:273-277 | an upload passes iff the filename is non-empty and its extension is on the list; an empty name is "No file selected" |
| Resources.ExtensionOfName | api/census/resources.py:275 | `stem.ext` has extension `.ext` when the stem does not start with a dot and neither part has a `/` |
| Resources.ExtensionOfDotFile | api/census/resources.py:275 | a bare `.ext` has no extension |
| Resources.ListedExtensionAccepted | api/census/resources.py:273-277 | each extension on the list is accepted after a plain stem, and refused as a bare name such as `.csv` |
| Resources.UploadAcceptance | api/census/resources.py:293-297 | a plain `stem.ext` is accepted with `.ext` iff `.ext` is on the list, and is "Invalid file format" otherwise |
| Resources.DotFileRejected | api/census/resources.py:357-361 | a filename that is only an extension, such as `.csv`, is "Invalid file format" |
| Resources.UploadIsCaseSensitive | api/census/resources.py:276-277 | any spelling of an allowed extension with an upper-case letter, such as `.CSV` or `.Xlsx`, is refused |
| Resources.ValueErrorMessage | api/census/resources.py:249-250 | exactly the format, operator and column-name errors are ValueErrors and carry a message |
| Resources.RequestFilters | api/census/resources.py:247 | an absent or empty filter string means no filters; any other string is passed to `filter_parser` |
| Resources.SaveAgePost | api/census/resources.py:238-264 | 400 exactly when the filters, or else the sort, fail with a ValueError; on 200 the page is the page query's result for the parsed filters and sort, the stats are those of the whole comparison, and every page row is a comparison row passing the filters |
| Resources.SaveAgePostServerError | api/census/resources.py:246-260 | the handler fails uncaught exactly on a non-ValueError parse error (AttributeError, IndexError) or an ORDER BY name that does not resolve |
| Resources.UnresolvableSortIsServerError | api/census/resources.py:248-259 | a sort list that parses into unresolvable ORDER BY names fails when the page query runs, whatever filters parse |
| Resources.AmbiguousSortIsServerError | api/census/resources.py:248-259 | sorting by `relationship` or `tobacco_disposition`, either way, fails outside the `try` |
| Resources.FilterErrorIsBadRequest | api/census/resources.py:246-250 | a filter string the parser rejects with a ValueError is answered 400 with that error's message, whatever the sort list holds |
| Resources.StatsIgnoreRequestShape | api/census/resources.py:257-260 | two successful requests for the same inputs get the same stats, whatever their filters, sort and paging |
| Resources.DateFilterRuns | api/census/resources.py:246-264 | a filter on a date attribute (`birthdate`, `effective_date`, the timestamps) is answered 200, and every page row passes its text comparison |
| Strings.Split | api/census/resources.py:207-210 | Python `str.split` with a non-empty separator gives at least one piece, and no piece contains the separator |
| Strings.JoinSplit | api/census/resources.py:207 | joining the pieces of a split with the separator gives back the string |
| Strings.SplitJoin | api/census/resources.py:207 | splitting a join recovers the parts when no part contains the separator's first character |
| Client.EntryTriples | frontend/src/pages/SaveAge/queries.ts:22-31 | an `AND` entry contributes one triple per condition, any other entry a single triple, all under the entry's key |
| Client.FilterHandler | frontend/src/pages/SaveAge/queries.ts:15-33 | an absent model gives ""; the result is undefined exactly when some entry is an `OR` |
| Client.QueryParams | frontend/src/pages/SaveAge/queries.ts:107-113 | the request always starts with `limit` and `offset` |
| Client.Arg | api/census/resources.py:240-242 | the value read for a name is that of its first occurrence, and is absent iff the name does not occur |
| Client.RequestArguments | frontend/src/pages/SaveAge/queries.ts:107-113 | the server sees `filters` exactly for a model with keys and `sort` exactly for a non-empty sort model, with the handlers' strings |
| Client.FilterClausesRoundTrip | frontend/src/pages/SaveAge/queries.ts:26-32 | the server accepts the client's clauses iff every key is a census attribute and every type an operator, and then parses each triple back |
| Client.FilterHandlerRoundTrip | frontend/src/pages/SaveAge/queries.ts:15-33 | a model without `OR` whose parts hold no `:` or `;` reaches the server as its triples |
| Client.OrFilterIsBadRequest | frontend/src/pages/SaveAge/queries.ts:22-24 | an `OR` filter is sent as `undefined`, which is "Invalid filter format" |
| Client.OrFilterPostIsBadRequest | frontend/src/pages/SaveAge/queries.ts:108-110 | the comparison request for an `OR` filter is answered 400 "Invalid filter format" |
| Client.SortHandler | frontend/src/pages/SaveAge/queries.ts:35-42 | an undefined or empty sort model gives ""; a model whose first column id is non-empty gives a non-empty string. The inverse is Client.SortHandlerRoundTrip |
| Client.SortHandlerRoundTrip | frontend/src/pages/SaveAge/queries.ts:35-42 | a sort model of query columns reaches the server as its terms (`desc` as descending, anything else ascending) |
| Client.SharedColumnSortIsServerError | frontend/src/pages/SaveAge/queries.ts:35-42 | a grid sort that includes the relationship or tobacco column gets an uncaught server error |
| Client.BlockWindow | frontend/src/pages/SaveAge/queries.ts:281-282 | the offset is the start row (0 if absent); offset plus limit is the end row, or the limit is 100 without one |
| Client.BlockIsRowRange | frontend/src/pages/SaveAge/queries.ts:281-282 | the server's page for a block is exactly the rows from the start row up to the end row, cut at the result's end |

## Left out

- HTTP, the database session, persistence, routing and rate limiting are not modelled. Tables are sequences; `func.now()` is a date parameter.
- The upload file handlers, pandas file reading and the LLM-based column mapping behind the upload parsers are not modelled. So are the census group-by statistics (tobacco, relationship, issue age, tenure) and the other CRUD resources. None of these is part of the comparison core.
- Rates are exact `real`s. SQLite float rounding in `SUM` and in `diff` is not modelled.
- The order of rows without ORDER BY is unspecified in SQL. The model takes census order, then band order. Rows that tie under ORDER BY are kept in that order (a stable sort), which SQLite does not promise.
- Numeric affinity is modelled for integer literals only. A decimal literal compared with an integer, date or timestamp column stays text in the model.
- The audit timestamps are filled in by the database clock. The model takes their stored text as part of the record.
- `offset` and `limit` arrive as query-string text. The model takes them as integers.
- The request body is taken as well-formed `SaveAgeInputs`. A missing key or a malformed date raises before the handler's `try` and is not modelled. Schema validation therefore always passes in the model.
- The new effective date is taken as a valid, zero-padded `YYYY-MM-DD` date. The grid only sends the request when `z.string().date()` accepts the date (frontend/src/pages/SaveAge/queries.ts:231-232), and that check requires this format. The server itself uses the raw string twice. `strptime(..., "%Y-%m-%d")` (api/census/mixins.py:116-118) also accepts an unpadded `2024-6-5`. SQLite's `strftime` in `issue_age_as_of` (api/census/models.py:96-113) gives NULL for that string, so no band would match the new age. Every `new_rate` would then be NULL and every `diff` minus the old rate, unless the schema's `Date` field rejects the string with a 400. That case is not modelled. SaveAge.MatchedPairsAppear and SaveAge.RowsForJoined state new-age matches that hold only for a padded date.
- Names of class attributes that are not mapped columns (`query`, `metadata`, the `year`/`month`/`day` helpers, the `census_master` backref, `issue_age_as_of`) resolve in Python to other objects. The model treats them like missing names.
- The comparison URL is assembled without percent-encoding. The model passes the parameter values through unchanged, so values containing `&`, `#`, `+` or `%` are out of scope. JavaScript's key order for integer-like filter keys is not modelled either.
- Grid filter values are modelled as strings. The grid may send numbers, which the template literal stringifies.
- Client.QueryParams: its contract states only the first two parameters; Client.RequestArguments states what the server reads from the rest.
- Resources.SortParser: its contract states the empty case and the term count; the full inverse is Resources.SortParserRoundTrip.
- Rates.Widen: the widening runs on the request's raw JSON rows before the schema loads them. The model takes typed bands with integer ages. A row without `lower_age` or `upper_age` (KeyError), a null age (TypeError inside `sorted`) and ages given as strings (sorted as text) are not modelled.
- ORDER BY name resolution assumes SQLAlchemy's legacy query labels: plain columns as `<table>_<column>`, explicit labels kept, and the `issue_age` hybrid labelled by its name. Under that labelling, sorting by `census_detail_id`, `birthdate` or `issue_age` works.
- SaveAge.CalcSaveAgeStats: its contract states the count and when the diff sum is NULL; the sums themselves are stated by SaveAge.SumNullIffAllNull and SaveAge.SumDiffIsDiffOfSums.
