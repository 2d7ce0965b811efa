/** The grid side of the comparison page: how the grid's filter and sort
    models become the `filters` and `sort` query parameters, which
    parameters the request carries, and which rows a block request asks
    for. */
module Client {
  import opened Wrappers
  import opened Strings
  import opened Sql
  import opened SaveAge
  import opened Resources

  /** One condition of a combined column filter. */
  datatype Condition = Condition(ctype: string, filter: string)

  /** A column's filter: a single condition (`ctype`, `filter`), or an
      `AND`/`OR` combination of `conditions`. */
  datatype FilterEntry = FilterEntry(operator: Option<string>, ctype: string, filter: string,
                                     conditions: seq<Condition>)

  /** The grid's filter model, one entry per column key in iteration order. */
  type FilterModel = seq<(string, FilterEntry)>

  /** A sort model entry: `sort` is `asc` or `desc`. */
  datatype SortModelItem = SortModelItem(colId: string, sort: string)

  predicate IsOr(e: FilterEntry) {
    e.operator == Some("OR")
  }

  /** The `(column, type, value)` triples one entry contributes. */
  function EntryTriples(key: string, e: FilterEntry): (r: seq<(string, string, string)>)
    ensures forall i :: 0 <= i < |r| ==> r[i].0 == key
    ensures e.operator != Some("AND") ==> r == [(key, e.ctype, e.filter)]
    ensures e.operator == Some("AND") ==>
      && |r| == |e.conditions|
      && forall i :: 0 <= i < |r| ==> r[i] == (key, e.conditions[i].ctype, e.conditions[i].filter)
  {
    if e.operator == Some("AND") then
      seq(|e.conditions|, i requires 0 <= i < |e.conditions| => (key, e.conditions[i].ctype, e.conditions[i].filter))
    else [(key, e.ctype, e.filter)]
  }

  /** All triples of a filter model, entry by entry. */
  function Triples(m: FilterModel): seq<(string, string, string)>
    decreases |m|
  {
    if |m| == 0 then [] else EntryTriples(m[0].0, m[0].1) + Triples(m[1..])
  }

  function ClauseOf(t: (string, string, string)): string {
    Clause(t.0, t.1, t.2)
  }

  function Clauses(ts: seq<(string, string, string)>): (r: seq<string>)
    ensures |r| == |ts|
  {
    seq(|ts|, i requires 0 <= i < |ts| => ClauseOf(ts[i]))
  }

  /** `filterHandler`: `Some("")` for an absent model, `None` (JavaScript
      `undefined`) as soon as any entry is an `OR`, otherwise the clauses
      joined with `;;`. */
  function FilterHandler(m: Option<FilterModel>): (r: Option<string>)
    ensures m.None? ==> r == Some("")
    ensures r.None? <==> m.Some? && exists k :: 0 <= k < |m.value| && IsOr(m.value[k].1)
  {
    if m.None? then Some("")
    else if exists k :: 0 <= k < |m.value| && IsOr(m.value[k].1) then None
    else Some(Join(Clauses(Triples(m.value)), ";;"))
  }

  /** `sortHandler`: `-colId` for descending entries, `colId` otherwise,
      joined with `,`. */
  function SortHandler(m: Option<seq<SortModelItem>>): (r: string)
    ensures m.None? ==> r == ""
    ensures m.Some? && |m.value| == 0 ==> r == ""
    ensures m.Some? && |m.value| >= 1 && |m.value[0].colId| > 0 ==> |r| > 0
  {
    if m.None? then ""
    else Join(seq(|m.value|, i requires 0 <= i < |m.value| => SortItem(TermOf(m.value[i]))), ",")
  }

  /** The server's reading of a sort model entry. */
  function TermOf(s: SortModelItem): OrderTerm {
    OrderTerm(s.colId, s.sort == "desc")
  }

  /** JavaScript's rendering of a possibly undefined string in a template. */
  function Render(v: Option<string>): string {
    if v.Some? then v.value else "undefined"
  }

  /** The query parameters of the comparison request, in URL order: `limit`
      and `offset` always, `filters` only for a model with keys, `sort`
      only for a non-empty sort model. */
  function QueryParams(offset: int, limit: int, filterModel: Option<FilterModel>,
                       sortModel: Option<seq<SortModelItem>>): (r: seq<(string, string)>)
    ensures |r| >= 2 && r[0] == ("limit", IntToString(limit)) && r[1] == ("offset", IntToString(offset))
  {
    [("limit", IntToString(limit)), ("offset", IntToString(offset))]
    + (if filterModel.Some? && |filterModel.value| > 0 then [("filters", Render(FilterHandler(filterModel)))] else [])
    + (if sortModel.Some? && |sortModel.value| > 0 then [("sort", SortHandler(sortModel))] else [])
  }

  /** `request.args.get(name)`: the first parameter of that name. */
  function Arg(params: seq<(string, string)>, name: string): (r: Option<string>)
    ensures r.Some? <==> exists i :: 0 <= i < |params| && params[i].0 == name
    ensures r.Some? ==>
      exists i ::
        && 0 <= i < |params|
        && params[i] == (name, r.value)
        && forall j :: 0 <= j < i ==> params[j].0 != name
    decreases |params|
  {
    if |params| == 0 then None
    else if params[0].0 == name then Some(params[0].1)
    else
      var rest := Arg(params[1..], name);
      assert forall i :: 1 <= i < |params| ==> params[i] == params[1..][i - 1];
      if rest.Some? then
        var i :| 0 <= i < |params[1..]| && params[1..][i] == (name, rest.value)
          && forall j :: 0 <= j < i ==> params[1..][j].0 != name;
        assert params[i + 1] == (name, rest.value);
        rest
      else rest
  }

  /** The first parameter named `name` is the one read. */
  lemma ArgAt(params: seq<(string, string)>, name: string, i: nat)
    requires i < |params| && params[i].0 == name
    requires forall j :: 0 <= j < i ==> params[j].0 != name
    ensures Arg(params, name) == Some(params[i].1)
  {
    var r := Arg(params, name);
    var k :| 0 <= k < |params| && params[k] == (name, r.value) && forall j :: 0 <= j < k ==> params[j].0 != name;
    assert k == i;
  }

  /** The query string's layout: limit, offset, then the optional filters
      and sort. */
  function Layout(limit: string, offset: string, filters: Option<string>, sort: Option<string>): seq<(string, string)> {
    [("limit", limit), ("offset", offset)]
    + (if filters.Some? then [("filters", filters.value)] else [])
    + (if sort.Some? then [("sort", sort.value)] else [])
  }

  lemma LayoutLimitOffset(limit: string, offset: string, filters: Option<string>, sort: Option<string>)
    ensures Arg(Layout(limit, offset, filters, sort), "limit") == Some(limit)
    ensures Arg(Layout(limit, offset, filters, sort), "offset") == Some(offset)
  {
    var ps := Layout(limit, offset, filters, sort);
    assert "limit" != "offset";
    assert ps[0] == ("limit", limit) && ps[1] == ("offset", offset);
    ArgAt(ps, "limit", 0);
    ArgAt(ps, "offset", 1);
  }

  lemma LayoutFilters(limit: string, offset: string, filters: Option<string>, sort: Option<string>)
    ensures Arg(Layout(limit, offset, filters, sort), "filters") == filters
  {
    var ps := Layout(limit, offset, filters, sort);
    assert "limit" != "filters" && "offset" != "filters" && "sort" != "filters";
    if filters.Some? {
      assert ps[2] == ("filters", filters.value);
      ArgAt(ps, "filters", 2);
    } else {
      assert forall i :: 0 <= i < |ps| ==> ps[i].0 != "filters";
    }
  }

  lemma LayoutSort(limit: string, offset: string, filters: Option<string>, sort: Option<string>)
    ensures Arg(Layout(limit, offset, filters, sort), "sort") == sort
  {
    var ps := Layout(limit, offset, filters, sort);
    assert "limit" != "sort" && "offset" != "sort" && "filters" != "sort";
    if sort.Some? {
      ArgAt(ps, "sort", |ps| - 1);
    } else {
      assert forall i :: 0 <= i < |ps| ==> ps[i].0 != "sort";
    }
  }

  /** What the server reads from the request: the filter string is present
      exactly for a model with keys, the sort string exactly for a
      non-empty sort model. */
  lemma RequestArguments(offset: int, limit: int, filterModel: Option<FilterModel>,
                         sortModel: Option<seq<SortModelItem>>)
    ensures var ps := QueryParams(offset, limit, filterModel, sortModel);
      && Arg(ps, "filters") == (if filterModel.Some? && |filterModel.value| > 0
                                then Some(Render(FilterHandler(filterModel))) else None)
      && Arg(ps, "sort") == (if sortModel.Some? && |sortModel.value| > 0
                             then Some(SortHandler(sortModel)) else None)
      && Arg(ps, "limit") == Some(IntToString(limit))
      && Arg(ps, "offset") == Some(IntToString(offset))
  {
    var f := if filterModel.Some? && |filterModel.value| > 0 then Some(Render(FilterHandler(filterModel))) else None;
    var s := if sortModel.Some? && |sortModel.value| > 0 then Some(SortHandler(sortModel)) else None;
    assert QueryParams(offset, limit, filterModel, sortModel) == Layout(IntToString(limit), IntToString(offset), f, s);
    LayoutLimitOffset(IntToString(limit), IntToString(offset), f, s);
    LayoutFilters(IntToString(limit), IntToString(offset), f, s);
    LayoutSort(IntToString(limit), IntToString(offset), f, s);
  }

  // ---------------------------------------------------------------------
  // Round trips with the server's parsers

  /** A triple the server can read back: none of its parts holds `:` or
      `;`. (A weaker "no `::` and no `;;`" would not do: a key ending in
      `:` fuses with the following separator.) */
  predicate PlainTriple(t: (string, string, string)) {
    PlainToken(t.0) && PlainToken(t.1) && PlainToken(t.2)
  }

  /** The server parses the joined clauses triple by triple: it succeeds
      exactly when every key is a census attribute and every type an
      operator name, and then yields one predicate per triple. */
  lemma FilterClausesRoundTrip(ts: seq<(string, string, string)>)
    requires |ts| >= 1
    requires forall i :: 0 <= i < |ts| ==> PlainTriple(ts[i])
    ensures var r := FilterParser(Join(Clauses(ts), ";;"));
      && (r.Success? <==> forall i :: 0 <= i < |ts| ==> ts[i].0 in AttrNames() && ts[i].1 in OperatorNames())
      && (r.Success? ==> |r.value| == |ts| && forall i :: 0 <= i < |ts| ==>
            && LookupAttr(ts[i].0) == Some(r.value[i].attr)
            && OpName(r.value[i].op) == ts[i].1
            && r.value[i].literal == ts[i].2)
  {
    var cs := Clauses(ts);
    forall i | 0 <= i < |ts|
      ensures Free(cs[i], ';')
      ensures ParseClause(cs[i]).Success? <==> ts[i].0 in AttrNames() && ts[i].1 in OperatorNames()
      ensures ParseClause(cs[i]).Success? ==>
        && LookupAttr(ts[i].0) == Some(ParseClause(cs[i]).value.attr)
        && OpName(ParseClause(cs[i]).value.op) == ts[i].1
        && ParseClause(cs[i]).value.literal == ts[i].2
    {
      FreeClause(ts[i].0, ts[i].1, ts[i].2, ';');
      ClauseRoundTrip(ts[i].0, ts[i].1, ts[i].2);
    }
    FilterParserOfJoin(cs);
  }

  /** A filter model without `OR` entries and with plain parts reaches the
      server as its triples. */
  lemma FilterHandlerRoundTrip(m: FilterModel)
    requires forall k :: 0 <= k < |m| ==> !IsOr(m[k].1)
    requires |Triples(m)| >= 1
    requires forall i :: 0 <= i < |Triples(m)| ==> PlainTriple(Triples(m)[i])
    ensures FilterHandler(Some(m)) == Some(Join(Clauses(Triples(m)), ";;"))
    ensures var r := FilterParser(FilterHandler(Some(m)).value);
      r.Success? <==> forall i :: 0 <= i < |Triples(m)| ==>
        Triples(m)[i].0 in AttrNames() && Triples(m)[i].1 in OperatorNames()
  {
    FilterClausesRoundTrip(Triples(m));
  }

  /** An `OR` filter reaches the server as the text `undefined`, which is
      not a `column::operator::value` clause: the request is a 400. */
  lemma OrFilterIsBadRequest(m: FilterModel, k: nat, u: string)
    requires k < |m| && IsOr(m[k].1)
    requires u == Render(FilterHandler(Some(m)))
    ensures u == "undefined"
    ensures FilterParser(u) == Failure(InvalidFilterFormat)
  {
    assert FilterHandler(Some(m)).None?;
    assert Free(u, ';') && Free(u, ':');
    SplitJoin([u], ";;");
    SplitJoin([u], "::");
  }

  /** Server view of the same request: `SaveAgeCalc.post` answers 400 with
      "Invalid filter format". */
  lemma OrFilterPostIsBadRequest(census: seq<Census.CensusRecord>, bands: seq<Rates.RateBand>,
                                 inputs: SaveAgeInputs, m: FilterModel, k: nat,
                                 sortModel: Option<seq<SortModelItem>>, offset: int, limit: int)
    requires k < |m| && IsOr(m[k].1)
    ensures var args := QueryParams(offset, limit, Some(m), sortModel);
      SaveAgePost(census, bands, inputs, Arg(args, "filters"), Arg(args, "sort"), offset, limit)
        == BadRequest("Invalid filter format")
  {
    var args := QueryParams(offset, limit, Some(m), sortModel);
    var u := Render(FilterHandler(Some(m)));
    RequestArguments(offset, limit, Some(m), sortModel);
    assert Arg(args, "filters") == Some(u);
    OrFilterIsBadRequest(m, k, u);
    assert RequestFilters(Arg(args, "filters")) == Failure(InvalidFilterFormat);
    assert ValueErrorMessage(InvalidFilterFormat) == Some("Invalid filter format");
    FilterErrorIsBadRequest(census, bands, inputs, Arg(args, "filters"), Arg(args, "sort"), offset, limit);
  }

  /** The sort model reaches the server as its terms whenever every column
      is one of the query's columns (`columns`, the projection's labels)
      and plain enough to survive the comma list. */
  lemma SortHandlerRoundTrip(columns: seq<string>, items: seq<SortModelItem>)
    requires |items| >= 1
    requires forall k :: 0 <= k < |items| ==> SortableColumn(columns, items[k].colId)
    ensures SortParser(columns, Some(SortHandler(Some(items))))
      == Success(Some(seq(|items|, i requires 0 <= i < |items| => TermOf(items[i]))))
  {
    var terms := seq(|items|, i requires 0 <= i < |items| => TermOf(items[i]));
    assert forall k :: 0 <= k < |terms| ==> terms[k].column == items[k].colId;
    SortParserRoundTrip(columns, terms);
    var a := SortItems(terms);
    var b := seq(|items|, i requires 0 <= i < |items| => SortItem(TermOf(items[i])));
    assert a == b;
  }

  /** Sorting the grid by a relationship or tobacco column, which the grid
      allows, sends a sort list the server accepts but cannot execute: the
      request fails with an uncaught database error. */
  lemma SharedColumnSortIsServerError(census: seq<Census.CensusRecord>, bands: seq<Rates.RateBand>,
                                      inputs: SaveAgeInputs, items: seq<SortModelItem>,
                                      offset: int, limit: int)
    requires |items| >= 1
    requires forall k :: 0 <= k < |items| ==> SortableColumn(QueryColumns(), items[k].colId)
    requires exists k :: 0 <= k < |items| && items[k].colId in {"relationship", "tobacco_disposition"}
    ensures var args := QueryParams(offset, limit, None, Some(items));
      SaveAgePost(census, bands, inputs, Arg(args, "filters"), Arg(args, "sort"), offset, limit) == ServerError
  {
    var args := QueryParams(offset, limit, None, Some(items));
    RequestArguments(offset, limit, None, Some(items));
    SharedColumnSortUnresolvable(items);
    UnresolvableSortIsServerError(census, bands, inputs, Arg(args, "filters"), Arg(args, "sort"), offset, limit);
  }

  lemma SharedColumnSortUnresolvable(items: seq<SortModelItem>)
    requires |items| >= 1
    requires forall k :: 0 <= k < |items| ==> SortableColumn(QueryColumns(), items[k].colId)
    requires exists k :: 0 <= k < |items| && items[k].colId in {"relationship", "tobacco_disposition"}
    ensures var r := SortParser(QueryColumns(), Some(SortHandler(Some(items))));
      r.Success? && !SortResolves(r.value)
  {
    SortHandlerRoundTrip(QueryColumns(), items);
    var terms := seq(|items|, i requires 0 <= i < |items| => TermOf(items[i]));
    assert forall k :: 0 <= k < |items| ==> terms[k].column == items[k].colId;
    SharedColumnTermsUnresolvable(terms);
  }

  // ---------------------------------------------------------------------
  // Block requests

  /** `getRows`: the offset is the block's first row, the limit its size,
      with 100 rows when the grid gives no end row. */
  function BlockWindow(startRow: Option<int>, endRow: Option<int>): (r: (int, int))
    ensures r.0 == startRow.GetOr(0)
    ensures endRow.Some? ==> r.0 + r.1 == endRow.value
    ensures endRow.None? ==> r.1 == 100
  {
    var offset := startRow.GetOr(0);
    (offset, endRow.GetOr(offset + 100) - offset)
  }

  /** The page the server returns for a block is exactly the block's rows of
      the ordered result, cut at its end. */
  lemma BlockIsRowRange(rows: seq<SaveAgeRow>, startRow: Option<int>, endRow: Option<int>)
    requires 0 <= startRow.GetOr(0)
    requires endRow.Some? ==> startRow.GetOr(0) <= endRow.value
    ensures var (offset, limit) := BlockWindow(startRow, endRow);
      var stop := if offset + limit > |rows| then |rows| else offset + limit;
      Page(rows, offset, limit) == (if offset >= |rows| then [] else rows[offset..stop])
  {
    var (offset, limit) := BlockWindow(startRow, endRow);
    var page := Page(rows, offset, limit);
    if offset < |rows| {
      var stop := if offset + limit > |rows| then |rows| else offset + limit;
      assert |page| == stop - offset;
      assert forall i :: 0 <= i < |page| ==> page[i] == rows[offset..stop][i];
    }
  }
}
