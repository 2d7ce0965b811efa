/** The request-level string handling of the API resources: the filter
    mini-language (`apply_operator`, `filter_parser`), the sort list
    (`sort_parser`), the fuzzy name pattern of the dropdown lists and the
    upload extension check. */
module Resources {
  import opened Wrappers
  import opened Strings
  import opened Sql
  import opened Rates
  import opened Census
  import opened SaveAge

  datatype ParseError =
    /** `ValueError("Invalid filter format")` */
    | InvalidFilterFormat
    /** `ValueError("Invalid operator")` */
    | InvalidOperator
    /** `ValueError("Invalid column name")` */
    | InvalidColumnName
    /** `getattr(ModelCensusDetail, name)` raising AttributeError, which the
        request handler does not catch. */
    | UnknownAttribute(name: string)
    /** `col[0]` on an empty sort item raising IndexError, likewise uncaught. */
    | EmptySortItem

  /** The operator names the client sends. */
  function OpName(op: Op): string {
    match op
    case Equals => "equals"
    case NotEqual => "notEqual"
    case GreaterThan => "greaterThan"
    case LessThan => "lessThan"
    case GreaterThanOrEqual => "greaterThanOrEqual"
    case LessThanOrEqual => "lessThanOrEqual"
    case Contains => "contains"
    case NotContains => "notContains"
  }

  function OperatorNames(): set<string> {
    {"equals", "notEqual", "greaterThan", "lessThan",
     "greaterThanOrEqual", "lessThanOrEqual", "contains", "notContains"}
  }

  /** `apply_operator(col, op, val)`: exactly the eight operator names are
      accepted, each building the predicate it names. */
  function ApplyOperator(attr: Attr, op: string, val: string): (r: Result<Pred, ParseError>)
    ensures r.Success? <==> op in OperatorNames()
    ensures r.Success? ==> r.value.attr == attr && r.value.literal == val && OpName(r.value.op) == op
    ensures r.Failure? ==> r.error == InvalidOperator
  {
    if op == "greaterThan" then Success(Pred(attr, GreaterThan, val))
    else if op == "lessThan" then Success(Pred(attr, LessThan, val))
    else if op == "equals" then Success(Pred(attr, Equals, val))
    else if op == "notEqual" then Success(Pred(attr, NotEqual, val))
    else if op == "greaterThanOrEqual" then Success(Pred(attr, GreaterThanOrEqual, val))
    else if op == "lessThanOrEqual" then Success(Pred(attr, LessThanOrEqual, val))
    else if op == "contains" then Success(Pred(attr, Contains, val))
    else if op == "notContains" then Success(Pred(attr, NotContains, val))
    else Failure(InvalidOperator)
  }

  /** What `getattr(ModelCensusDetail, name)` yields: a mapped attribute,
      the class's `__doc__` (None, as the class has no docstring), or an
      AttributeError. */
  datatype Resolved = Mapped(attr: Attr) | NoneValued | Missing

  function ResolveAttribute(name: string): (r: Resolved)
    ensures r.Mapped? <==> name in AttrNames()
    ensures r.NoneValued? <==> name == "__doc__"
  {
    if name == "__doc__" then NoneValued
    else match LookupAttr(name)
      case Some(a) => Mapped(a)
      case None => Missing
  }

  /** One `column::operator::value` clause. */
  function ParseClause(clause: string): (r: Result<Pred, ParseError>)
    ensures |Split(clause, "::")| != 3 ==> r == Failure(InvalidFilterFormat)
    ensures r.Success? ==>
      var parts := Split(clause, "::");
      && |parts| == 3
      && LookupAttr(parts[0]) == Some(r.value.attr)
      && OpName(r.value.op) == parts[1]
      && r.value.literal == parts[2]
    ensures r == Failure(InvalidColumnName) ==> Split(clause, "::")[0] == "__doc__"
  {
    var parts := Split(clause, "::");
    if |parts| != 3 then Failure(InvalidFilterFormat)
    else
      match ResolveAttribute(parts[0])
      case Missing => Failure(UnknownAttribute(parts[0]))
      case NoneValued => Failure(InvalidColumnName)
      case Mapped(attr) => ApplyOperator(attr, parts[1], parts[2])
  }

  /** The clauses in order; the first failing clause decides the error. */
  function ParseClauses(clauses: seq<string>): (r: Result<seq<Pred>, ParseError>)
    ensures r.Success? <==> forall k :: 0 <= k < |clauses| ==> ParseClause(clauses[k]).Success?
    ensures r.Success? ==>
      && |r.value| == |clauses|
      && forall k :: 0 <= k < |clauses| ==> r.value[k] == ParseClause(clauses[k]).value
    ensures r.Failure? ==>
      exists k ::
        && 0 <= k < |clauses|
        && ParseClause(clauses[k]) == Failure(r.error)
        && forall j :: 0 <= j < k ==> ParseClause(clauses[j]).Success?
  {
    Traverse(clauses, ParseClause)
  }

  /** `filter_parser(filter_string)`: split on `;;`, then parse each clause. */
  function FilterParser(filterString: string): Result<seq<Pred>, ParseError> {
    ParseClauses(Split(filterString, ";;"))
  }

  /** `filter_parser` returns one predicate per `;;`-separated clause, in
      order, or fails. */
  lemma FilterParserShape(filterString: string)
    ensures var r := FilterParser(filterString);
      r.Success? ==> |r.value| == |Split(filterString, ";;")|
  {
  }

  /** The "Invalid column name" branch is reached only by a clause naming
      `__doc__`: every other unknown name raises in `getattr` first. */
  lemma FilterParserInvalidColumnName(filterString: string)
    requires FilterParser(filterString) == Failure(InvalidColumnName)
    ensures exists k ::
      && 0 <= k < |Split(filterString, ";;")|
      && Split(Split(filterString, ";;")[k], "::")[0] == "__doc__"
  {
    var cs := Split(filterString, ";;");
    var k :| 0 <= k < |cs| && ParseClause(cs[k]) == Failure(InvalidColumnName);
  }

  /** The clause text `column::operator::value`. */
  function Clause(column: string, op: string, val: string): string {
    column + "::" + op + "::" + val
  }

  /** The tokens of a clause contain neither separator character. */
  predicate PlainToken(s: string) {
    Free(s, ':') && Free(s, ';')
  }

  /** Gluing two tokens with `::` adds no character but `:`. */
  lemma FreeGlue(x: string, y: string, c: char)
    requires Free(x, c) && Free(y, c) && c != ':'
    ensures Free(x + "::" + y, c)
  {
    var s := x + "::" + y;
    forall k | 0 <= k < |s|
      ensures s[k] != c
    {
      if k < |x| {
        assert s[k] == x[k];
      } else if k >= |x| + 2 {
        assert s[k] == y[k - |x| - 2];
      }
    }
  }

  lemma FreeClause(column: string, op: string, val: string, c: char)
    requires Free(column, c) && Free(op, c) && Free(val, c) && c != ':'
    ensures Free(Clause(column, op, val), c)
  {
    FreeGlue(column, op, c);
    FreeGlue(column + "::" + op, val, c);
  }

  /** A clause whose three tokens contain no `:` parses back into them. */
  lemma ClauseRoundTrip(column: string, op: string, val: string)
    requires Free(column, ':') && Free(op, ':') && Free(val, ':')
    ensures ParseClause(Clause(column, op, val)) ==
      match ResolveAttribute(column)
      case Missing => Failure(UnknownAttribute(column))
      case NoneValued => Failure(InvalidColumnName)
      case Mapped(a) => ApplyOperator(a, op, val)
  {
    var parts := [column, op, val];
    JoinCons(op, [val], "::");
    assert [op] + [val] == [op, val];
    JoinCons(column, [op, val], "::");
    assert [column] + [op, val] == parts;
    assert Join(parts, "::") == Clause(column, op, val);
    SplitJoin(parts, "::");
  }

  /** Clauses free of `;` joined with `;;` are parsed one by one. */
  lemma FilterParserOfJoin(clauses: seq<string>)
    requires |clauses| >= 1
    requires forall k :: 0 <= k < |clauses| ==> Free(clauses[k], ';')
    ensures FilterParser(Join(clauses, ";;")) == ParseClauses(clauses)
  {
    SplitJoin(clauses, ";;");
  }

  /** A filter string of one clause free of `;` is that clause's parse. */
  lemma FilterParserOfOne(clause: string)
    requires Free(clause, ';')
    ensures ParseClause(clause).Failure? ==> FilterParser(clause) == Failure(ParseClause(clause).error)
    ensures ParseClause(clause).Success? ==> FilterParser(clause) == Success([ParseClause(clause).value])
  {
    FilterParserOfJoin([clause]);
    assert Join([clause], ";;") == clause;
    var r := ParseClauses([clause]);
    if r.Failure? {
      var k :| 0 <= k < 1 && ParseClause([clause][k]) == Failure(r.error);
      assert k == 0;
    } else {
      assert r.value == [r.value[0]];
    }
  }

  /** A single clause naming anything but a mapped attribute or `__doc__`
      (for instance a result column such as `save_age_rate`, which the grid
      offers for filtering) fails with AttributeError. */
  lemma UnknownColumnFilterFails(column: string, op: string, val: string)
    requires PlainToken(column) && PlainToken(op) && PlainToken(val)
    requires column !in AttrNames() && column != "__doc__"
    ensures FilterParser(Clause(column, op, val)) == Failure(UnknownAttribute(column))
  {
    ClauseRoundTrip(column, op, val);
    FreeClause(column, op, val, ';');
    FilterParserOfOne(Clause(column, op, val));
  }

  /** A query column that is not a census attribute (the computed
      `save_age_rate`, `new_rate`, `diff` and the two effective-date labels)
      can be sorted by, but a filter on it raises AttributeError. (Every
      projection name is plain: no `:`, `;`, `,` and no leading `-`.) */
  lemma ComputedColumnSortsButNotFilters(column: string, op: string, val: string)
    requires SortableColumn(QueryColumns(), column) && PlainToken(column) && LookupAttr(column).None?
    requires PlainToken(op) && PlainToken(val)
    ensures FilterParser(Clause(column, op, val)) == Failure(UnknownAttribute(column))
    ensures SortParser(QueryColumns(), Some(column)) == Success(Some([OrderTerm(column, false)]))
  {
    UnknownColumnFilterFails(column, op, val);
    SingleSortItem(QueryColumns(), column);
  }

  /** A sort string of one listed column sorts by it, ascending. */
  lemma SingleSortItem(qryColumns: seq<string>, column: string)
    requires SortableColumn(qryColumns, column)
    ensures SortParser(qryColumns, Some(column)) == Success(Some([OrderTerm(column, false)]))
  {
    var t := OrderTerm(column, false);
    SortParserRoundTrip(qryColumns, [t]);
    var items := SortItems([t]);
    assert items == [column];
    assert Join(items, ",") == column;
  }

  /** A clause of two `::`-separated tokens is malformed. */
  lemma TwoTokenClauseFails(a: string, b: string)
    requires PlainToken(a) && PlainToken(b)
    ensures FilterParser(a + "::" + b) == Failure(InvalidFilterFormat)
  {
    JoinCons(a, [b], "::");
    assert [a] + [b] == [a, b];
    SplitJoin([a, b], "::");
    FreeGlue(a, b, ';');
    FilterParserOfOne(a + "::" + b);
  }

  lemma JoinFour(a: string, b: string, c: string, d: string)
    ensures Join([a, b, c, d], "::") == Clause(a, b, c) + "::" + d
  {
    JoinCons(c, [d], "::");
    assert [c] + [d] == [c, d];
    JoinCons(b, [c, d], "::");
    assert [b] + [c, d] == [b, c, d];
    JoinCons(a, [b, c, d], "::");
    assert [a] + [b, c, d] == [a, b, c, d];
  }

  /** A clause of four tokens is malformed too: extra `::` are not folded
      into the value. */
  lemma FourTokenClauseFails(column: string, op: string, val: string, extra: string)
    requires PlainToken(column) && PlainToken(op) && PlainToken(val) && PlainToken(extra)
    ensures FilterParser(Clause(column, op, val) + "::" + extra) == Failure(InvalidFilterFormat)
  {
    var parts := [column, op, val, extra];
    var s := Clause(column, op, val) + "::" + extra;
    JoinFour(column, op, val, extra);
    SplitJoin(parts, "::");
    assert |Split(s, "::")| == 4;
    FreeClause(column, op, val, ';');
    FreeGlue(Clause(column, op, val), extra, ';');
    FilterParserOfOne(s);
  }

  // ---------------------------------------------------------------------
  // Sorting

  /** One comma-separated sort item: `-col` descending, `col` ascending. */
  function ParseSortItem(qryColumns: seq<string>, item: string): (r: Result<OrderTerm, ParseError>)
    ensures |item| == 0 ==> r == Failure(EmptySortItem)
    ensures r.Success? ==>
      && r.value.desc == (item[0] == '-')
      && item == (if r.value.desc then "-" else "") + r.value.column
      && r.value.column in qryColumns
    ensures |item| > 0 && r.Failure? ==> r.error == InvalidColumnName
  {
    if |item| == 0 then Failure(EmptySortItem)
    else
      var desc := item[0] == '-';
      var column := if desc then item[1..] else item;
      if column !in qryColumns then Failure(InvalidColumnName)
      else Success(OrderTerm(column, desc))
  }

  function ParseSortItems(qryColumns: seq<string>, items: seq<string>): (r: Result<seq<OrderTerm>, ParseError>)
    ensures r.Success? <==> forall k :: 0 <= k < |items| ==> ParseSortItem(qryColumns, items[k]).Success?
    ensures r.Success? ==>
      && |r.value| == |items|
      && forall k :: 0 <= k < |items| ==> r.value[k] == ParseSortItem(qryColumns, items[k]).value
    ensures r.Failure? ==>
      exists k ::
        && 0 <= k < |items|
        && ParseSortItem(qryColumns, items[k]) == Failure(r.error)
        && forall j :: 0 <= j < k ==> ParseSortItem(qryColumns, items[j]).Success?
    decreases |items|
  {
    if |items| == 0 then Success([])
    else
      match ParseSortItem(qryColumns, items[0])
      case Failure(e) => Failure(e)
      case Success(t) =>
        var rest := ParseSortItems(qryColumns, items[1..]);
        assert forall k :: 1 <= k < |items| ==> items[k] == items[1..][k - 1];
        if rest.Failure? then
          var k :| 0 <= k < |items[1..]| && ParseSortItem(qryColumns, items[1..][k]) == Failure(rest.error)
            && forall j :: 0 <= j < k ==> ParseSortItem(qryColumns, items[1..][j]).Success?;
          assert ParseSortItem(qryColumns, items[k + 1]) == Failure(rest.error);
          Failure(rest.error)
        else Success([t] + rest.value)
  }

  /** `sort_parser(qry_columns, sort_string)`, returning the ORDER BY terms;
      `None` for an absent or empty sort string. */
  function SortParser(qryColumns: seq<string>, sortString: Option<string>): (r: Result<Option<seq<OrderTerm>>, ParseError>)
    ensures sortString.None? || sortString == Some("") ==> r == Success(None)
    ensures r.Success? && r.value.Some? ==> |r.value.value| == |Split(sortString.value, ",")|
  {
    if sortString.None? || sortString.value == "" then Success(None)
    else
      match ParseSortItems(qryColumns, Split(sortString.value, ","))
      case Failure(e) => Failure(e)
      case Success(terms) => Success(Some(terms))
  }

  /** The ORDER BY text `sort_parser` hands to the query: `col asc` or
      `col desc` per term, joined with `,`. */
  function RenderOrderBy(terms: seq<OrderTerm>): string {
    Join(seq(|terms|, i requires 0 <= i < |terms| =>
      terms[i].column + " " + (if terms[i].desc then "desc" else "asc")), ",")
  }

  /** `sort_parser` as the source returns it: the ORDER BY text. */
  function SortParserText(qryColumns: seq<string>, sortString: Option<string>): Result<Option<string>, ParseError> {
    match SortParser(qryColumns, sortString)
    case Failure(e) => Failure(e)
    case Success(None) => Success(None)
    case Success(Some(terms)) => Success(Some(RenderOrderBy(terms)))
  }

  /** The sort item the client sends for a term. */
  function SortItem(t: OrderTerm): string {
    (if t.desc then "-" else "") + t.column
  }

  /** A column name that survives the trip through a sort string: present,
      not starting with `-`, and free of `,`. */
  predicate SortableColumn(qryColumns: seq<string>, column: string) {
    column in qryColumns && |column| > 0 && column[0] != '-' && Free(column, ',')
  }

  lemma SortItemFree(t: OrderTerm)
    requires Free(t.column, ',')
    ensures Free(SortItem(t), ',')
  {
    var s := SortItem(t);
    if t.desc {
      forall k | 0 <= k < |s|
        ensures s[k] != ','
      {
        if k > 0 {
          assert s[k] == t.column[k - 1];
        }
      }
    }
  }

  /** `sort_parser` inverts the client's sort list: joining the items of
      valid terms with `,` parses back into those terms, and the ORDER BY
      text renders each as `column asc` or `column desc`. */
  lemma SortParserRoundTrip(qryColumns: seq<string>, terms: seq<OrderTerm>)
    requires |terms| >= 1
    requires forall k :: 0 <= k < |terms| ==> SortableColumn(qryColumns, terms[k].column)
    ensures var items := SortItems(terms);
      && SortParser(qryColumns, Some(Join(items, ","))) == Success(Some(terms))
      && SortParserText(qryColumns, Some(Join(items, ","))) == Success(Some(RenderOrderBy(terms)))
  {
    var items := SortItems(terms);
    SortItemsParse(qryColumns, terms);
    SplitJoin(items, ",");
    assert |Join(items, ",")| > 0 by {
      JoinNonEmpty(items, ",");
    }
  }

  /** The client's items for a list of terms. */
  function SortItems(terms: seq<OrderTerm>): (items: seq<string>)
    ensures |items| == |terms|
    ensures forall k :: 0 <= k < |terms| ==> items[k] == SortItem(terms[k])
  {
    seq(|terms|, i requires 0 <= i < |terms| => SortItem(terms[i]))
  }

  /** Each item of valid terms is free of `,` and parses back into its term. */
  lemma SortItemsParse(qryColumns: seq<string>, terms: seq<OrderTerm>)
    requires forall k :: 0 <= k < |terms| ==> SortableColumn(qryColumns, terms[k].column)
    ensures forall k :: 0 <= k < |terms| ==> Free(SortItems(terms)[k], ',')
    ensures ParseSortItems(qryColumns, SortItems(terms)) == Success(terms)
  {
    var items := SortItems(terms);
    forall k | 0 <= k < |items|
      ensures Free(items[k], ',')
      ensures ParseSortItem(qryColumns, items[k]) == Success(terms[k])
    {
      SortItemFree(terms[k]);
      var t := terms[k];
      if t.desc {
        assert items[k] == "-" + t.column;
        assert items[k][1..] == t.column;
      } else {
        assert items[k] == t.column;
      }
    }
    var r := ParseSortItems(qryColumns, items);
    assert r.value == terms;
  }

  /** The first item is a prefix of the join, so a non-empty first item
      makes the whole string non-empty. */
  lemma JoinNonEmpty(items: seq<string>, sep: string)
    requires |items| >= 1 && |items[0]| > 0
    ensures |Join(items, sep)| > 0
  {
  }

  /** A trailing comma leaves an empty last item, on which `col[0]` raises:
      a list of otherwise valid items fails with that IndexError. */
  lemma TrailingCommaFails(qryColumns: seq<string>, items: seq<string>)
    requires |items| >= 1
    requires forall k :: 0 <= k < |items| ==>
      Free(items[k], ',') && ParseSortItem(qryColumns, items[k]).Success?
    ensures SortParser(qryColumns, Some(Join(items + [""], ","))) == Failure(EmptySortItem)
  {
    var all := items + [""];
    SplitWithEmptyLast(items);
    JoinNonEmptyByComma(all);
    LastItemFails(qryColumns, items);
  }

  lemma SplitWithEmptyLast(items: seq<string>)
    requires forall k :: 0 <= k < |items| ==> Free(items[k], ',')
    ensures Split(Join(items + [""], ","), ",") == items + [""]
  {
    var all := items + [""];
    assert forall k :: 0 <= k < |items| ==> all[k] == items[k];
    assert all[|items|] == "";
    SplitJoin(all, ",");
  }

  lemma JoinNonEmptyByComma(all: seq<string>)
    requires |all| >= 2
    ensures |Join(all, ",")| > 0
  {
    JoinCons(all[0], all[1..], ",");
    assert [all[0]] + all[1..] == all;
  }

  lemma LastItemFails(qryColumns: seq<string>, items: seq<string>)
    requires forall k :: 0 <= k < |items| ==> ParseSortItem(qryColumns, items[k]).Success?
    ensures ParseSortItems(qryColumns, items + [""]) == Failure(EmptySortItem)
  {
    var all := items + [""];
    assert forall k :: 0 <= k < |items| ==> all[k] == items[k];
    assert ParseSortItem(qryColumns, all[|items|]) == Failure(EmptySortItem);
    var r := ParseSortItems(qryColumns, all);
    var k :| 0 <= k < |all| && ParseSortItem(qryColumns, all[k]) == Failure(r.error)
      && forall j :: 0 <= j < k ==> ParseSortItem(qryColumns, all[j]).Success?;
    assert k == |items|;
  }


  // ---------------------------------------------------------------------
  // Dropdown fuzzy search

  /** `"%" + "%".join(list(name)) + "%"`. */
  function FuzzyPattern(name: string): (p: string)
    ensures |name| >= 1 ==> |p| == 2 * |name| + 1
    ensures |name| == 0 ==> p == "%%"
    ensures forall i :: 0 <= i < |name| ==> p[2 * i + 1] == name[i] && p[2 * i] == '%'
  {
    if |name| == 0 then "%%" else Interleave(name)
  }

  /** `%c1%c2...%cn%` for a non-empty name, `%` for an empty one. */
  function Interleave(name: string): (p: string)
    ensures |p| == 2 * |name| + 1
    ensures p[|p| - 1] == '%'
    ensures forall i :: 0 <= i < |name| ==> p[2 * i + 1] == name[i] && p[2 * i] == '%'
    decreases |name|
  {
    if |name| == 0 then "%"
    else
      var rest := Interleave(name[1..]);
      assert forall i :: 1 <= i < |name| ==> name[i] == name[1..][i - 1];
      "%" + [name[0]] + rest
  }

  function Singletons(name: string): (r: seq<string>)
    ensures |r| == |name|
  {
    seq(|name|, i requires 0 <= i < |name| => [name[i]])
  }

  /** The pattern is exactly the Python expression. */
  lemma {:induction false} FuzzyPatternIsJoin(name: string)
    ensures FuzzyPattern(name) == "%" + Join(Singletons(name), "%") + "%"
    decreases |name|
  {
    if |name| == 1 {
      assert Singletons(name) == [[name[0]]];
    } else if |name| > 1 {
      FuzzyPatternIsJoin(name[1..]);
      assert Singletons(name)[1..] == Singletons(name[1..]);
      assert Join(Singletons(name), "%") == [name[0]] + "%" + Join(Singletons(name[1..]), "%");
    }
  }

  /** `name` occurs in `s` as a subsequence, up to ASCII case. */
  predicate SubsequenceCI(name: string, s: string)
    decreases |s|
  {
    if |name| == 0 then true
    else if |s| == 0 then false
    else
      || (AsciiLower(s[0]) == AsciiLower(name[0]) && SubsequenceCI(name[1..], s[1..]))
      || SubsequenceCI(name, s[1..])
  }

  lemma {:induction false} LikeAnything(s: string)
    ensures Like(s, "%")
    decreases |s|
  {
    if |s| > 0 {
      LikeAnything(s[1..]);
    }
  }

  /** A name free of LIKE wildcards. */
  predicate NoWildcards(name: string) {
    forall i :: 0 <= i < |name| ==> name[i] != '%' && name[i] != '_'
  }

  lemma {:induction false} LikeInterleave(s: string, name: string)
    requires NoWildcards(name)
    ensures Like(s, Interleave(name)) <==> SubsequenceCI(name, s)
    decreases |s|, |name|
  {
    if |name| == 0 {
      LikeAnything(s);
    } else {
      var p := Interleave(name);
      var rest := Interleave(name[1..]);
      assert NoWildcards(name[1..]) by {
        assert forall i :: 0 <= i < |name[1..]| ==> name[1..][i] == name[i + 1];
      }
      assert p == "%" + [name[0]] + rest;
      assert p[1..] == [name[0]] + rest;
      assert ([name[0]] + rest)[1..] == rest;
      if |s| > 0 {
        LikeInterleave(s[1..], name[1..]);
        LikeInterleave(s[1..], name);
      }
    }
  }

  /** The dropdown lists match a stored name exactly when the typed
      characters appear in it in order, ignoring ASCII case (`ilike`). */
  lemma FuzzySearchMatches(stored: string, name: string)
    requires NoWildcards(name)
    ensures Like(stored, FuzzyPattern(name)) <==> SubsequenceCI(name, stored)
  {
    if |name| == 0 {
      assert FuzzyPattern(name)[1..] == "%";
      LikeAnything(stored);
    } else {
      LikeInterleave(stored, name);
    }
  }

  // ---------------------------------------------------------------------
  // Upload extension check

  /** The configured `FILE_UPLOAD_EXTENSIONS`. */
  function UploadExtensions(): seq<string> {
    [".xlsx", ".xls", ".xlsm", ".csv"]
  }

  /** Index of the last `c` in `s`, or -1. */
  function LastIndexOf(s: string, c: char): (r: int)
    ensures -1 <= r < |s|
    ensures r >= 0 ==> s[r] == c
    ensures forall k :: r < k < |s| ==> s[k] != c
    decreases |s|
  {
    if |s| == 0 then -1
    else if s[|s| - 1] == c then |s| - 1
    else LastIndexOf(s[..|s| - 1], c)
  }

  /** `os.path.splitext(p)[1]` (POSIX): from the last dot of the final path
      component, provided a non-dot character precedes it in that component;
      otherwise empty. */
  function Extension(p: string): (ext: string)
    ensures ext == [] || (ext[0] == '.' && |ext| <= |p| && p[|p| - |ext|..] == ext)
    ensures forall k :: 0 < k < |ext| ==> ext[k] != '.' && ext[k] != '/'
  {
    var sepIndex := LastIndexOf(p, '/');
    var dotIndex := LastIndexOf(p, '.');
    if dotIndex > sepIndex && exists i :: sepIndex < i < dotIndex && p[i] != '.' then
      assert forall k :: dotIndex < k < |p| ==> p[k] != '/';
      p[dotIndex..]
    else []
  }

  datatype UploadError =
    /** "No file selected" */
    | NoFileSelected
    /** "Invalid file format" */
    | InvalidFileFormat

  /** The checks every upload `post` makes before any parsing: a non-empty
      filename whose extension is on the allow-list (case-sensitively). */
  function CheckUpload(filename: string): (r: Result<string, UploadError>)
    ensures r.Success? <==> filename != "" && Extension(filename) in UploadExtensions()
    ensures r.Success? ==> r.value == Extension(filename)
    ensures filename == "" ==> r == Failure(NoFileSelected)
  {
    if filename == "" then Failure(NoFileSelected)
    else
      var ext := Extension(filename);
      if ext !in UploadExtensions() then Failure(InvalidFileFormat) else Success(ext)
  }

  /** Appending characters other than `c` does not move the last `c`. */
  lemma {:induction false} LastIndexOfAppend(a: string, b: string, c: char)
    requires Free(b, c)
    ensures LastIndexOf(a + b, c) == LastIndexOf(a, c)
    decreases |b|
  {
    if |b| > 0 {
      var b' := b[..|b| - 1];
      assert (a + b)[..|a + b| - 1] == a + b';
      LastIndexOfAppend(a, b', c);
    } else {
      assert a + b == a;
    }
  }

  /** A file name `stem.ext` has extension `.ext` when `ext` holds no `.`
      and neither part holds `/`, and the stem does not start with a dot. */
  lemma ExtensionOfName(stem: string, tail: string)
    requires |stem| > 0 && stem[0] != '.' && Free(stem, '/')
    requires Free(tail, '.') && Free(tail, '/')
    ensures Extension(stem + "." + tail) == "." + tail
  {
    var p := stem + "." + tail;
    assert p[|stem|] == '.';
    assert forall k :: |stem| < k < |p| ==> p[k] == tail[k - |stem| - 1];
    assert forall k :: 0 <= k < |stem| ==> p[k] == stem[k];
    var dot := LastIndexOf(p, '.');
    assert dot == |stem|;
    assert LastIndexOf(p, '/') == -1;
    assert p[0] != '.';
    assert p[dot..] == "." + tail;
  }

  /** A bare `.ext` is a hidden file without extension. */
  lemma ExtensionOfDotFile(tail: string)
    requires Free(tail, '.') && Free(tail, '/')
    ensures Extension("." + tail) == []
  {
    LastIndexOfAppend(".", tail, '.');
    LastIndexOfAppend([], "." + tail, '/');
    assert [] + ("." + tail) == "." + tail;
  }

  /** Every allowed extension is a dot followed by a plain suffix. */
  lemma AllowedExtensionShape(ext: string)
    requires ext in UploadExtensions()
    ensures |ext| > 1 && ext[0] == '.' && Free(ext[1..], '.') && Free(ext[1..], '/')
  {
  }

  /** The upload check accepts a plain `stem.ext` exactly when `.ext` is on
      the list; the bare extension is rejected. */
  lemma UploadAcceptance(stem: string, ext: string)
    requires |stem| > 0 && stem[0] != '.' && Free(stem, '/')
    requires |ext| > 1 && ext[0] == '.' && Free(ext[1..], '.') && Free(ext[1..], '/')
    ensures CheckUpload(stem + ext) == (if ext in UploadExtensions() then Success(ext) else Failure(InvalidFileFormat))
  {
    assert ext == "." + ext[1..];
    ExtensionOfName(stem, ext[1..]);
    assert stem + ext == stem + "." + ext[1..];
  }

  /** A name that is only the extension, such as `.csv`, is rejected. */
  lemma DotFileRejected(ext: string)
    requires |ext| > 1 && ext[0] == '.' && Free(ext[1..], '.') && Free(ext[1..], '/')
    ensures CheckUpload(ext) == Failure(InvalidFileFormat)
  {
    assert ext == "." + ext[1..];
    ExtensionOfDotFile(ext[1..]);
    assert [] !in UploadExtensions();
  }

  /** ASCII lower-casing, character by character. */
  function LowerAll(s: string): (r: string)
    ensures |r| == |s| && forall k :: 0 <= k < |s| ==> r[k] == AsciiLower(s[k])
  {
    seq(|s|, k requires 0 <= k < |s| => AsciiLower(s[k]))
  }

  /** Every allowed extension is written in lower case. */
  lemma ExtensionsAreLowerCase(ext: string)
    requires ext in UploadExtensions()
    ensures LowerAll(ext) == ext
  {
  }

  /** The comparison is case-sensitive: a spelling of an allowed extension
      with some upper-case letter, such as `.CSV` or `.Xlsx`, is refused. */
  lemma UploadIsCaseSensitive(stem: string, ext: string)
    requires |stem| > 0 && stem[0] != '.' && Free(stem, '/')
    requires LowerAll(ext) in UploadExtensions() && ext != LowerAll(ext)
    ensures CheckUpload(stem + ext) == Failure(InvalidFileFormat)
  {
    var low := LowerAll(ext);
    AllowedExtensionShape(low);
    forall k | 0 <= k < |ext|
      ensures (ext[k] == '.' <==> low[k] == '.') && (ext[k] == '/' <==> low[k] == '/')
    {
    }
    assert forall k :: 0 <= k < |ext| - 1 ==> ext[1..][k] == ext[k + 1] && low[1..][k] == low[k + 1];
    UploadAcceptance(stem, ext);
    if ext in UploadExtensions() {
      ExtensionsAreLowerCase(ext);
    }
  }

  /** Every listed extension is accepted after a plain stem, and refused
      on its own (a bare `.csv` is a hidden file without extension). */
  lemma ListedExtensionAccepted(stem: string, ext: string)
    requires |stem| > 0 && stem[0] != '.' && Free(stem, '/')
    requires ext in UploadExtensions()
    ensures CheckUpload(stem + ext) == Success(ext)
    ensures CheckUpload(ext) == Failure(InvalidFileFormat)
  {
    AllowedExtensionShape(ext);
    UploadAcceptance(stem, ext);
    DotFileRejected(ext);
  }

  // ---------------------------------------------------------------------
  // The comparison endpoint

  /** The message of the parse errors that are ValueErrors; the others are
      exceptions the handler does not catch. */
  function ValueErrorMessage(e: ParseError): (m: Option<string>)
    ensures m.None? <==> e.UnknownAttribute? || e == EmptySortItem
  {
    match e
    case InvalidFilterFormat => Some("Invalid filter format")
    case InvalidOperator => Some("Invalid operator")
    case InvalidColumnName => Some("Invalid column name")
    case UnknownAttribute(_) => None
    case EmptySortItem => None
  }

  /** The reply of `SaveAgeCalc.post`: 200 with the page and the stats, 400
      with a ValueError's message, or an uncaught exception. */
  datatype Response =
    | Ok(data: seq<SaveAgeRow>, stats: SaveAgeStats)
    | BadRequest(msg: string)
    | ServerError

  /** The `filters` argument: an absent or empty string means no filter. */
  function RequestFilters(filterString: Option<string>): (r: Result<seq<Pred>, ParseError>)
    ensures filterString.None? || filterString == Some("") ==> r == Success([])
    ensures filterString.Some? && filterString.value != "" ==> r == FilterParser(filterString.value)
  {
    if filterString.None? || filterString.value == "" then Success([])
    else FilterParser(filterString.value)
  }

  function ParseFailureResponse(e: ParseError): Response {
    match ValueErrorMessage(e)
    case Some(m) => BadRequest(m)
    case None => ServerError
  }

  /** `SaveAgeCalc.post` for well-formed request data: parse the filters,
      then the sort list (a ValueError from either is a 400), then run the
      page query and the stats over the unfiltered query. */
  function SaveAgePost(census: seq<CensusRecord>, bands: seq<RateBand>, inputs: SaveAgeInputs,
                       filterString: Option<string>, sortString: Option<string>,
                       offset: int, limit: int): (r: Response)
    ensures r.BadRequest? <==>
      || (RequestFilters(filterString).Failure? && ValueErrorMessage(RequestFilters(filterString).error).Some?)
      || (RequestFilters(filterString).Success? && SortParser(QueryColumns(), sortString).Failure?
          && ValueErrorMessage(SortParser(QueryColumns(), sortString).error).Some?)
    ensures r.Ok? ==>
      && RequestFilters(filterString).Success?
      && SortParser(QueryColumns(), sortString).Success?
      && SortResolves(SortParser(QueryColumns(), sortString).value)
      && r.data == CalcSaveAgeData(BaseSaveAgeQuery(census, bands, inputs), RequestFilters(filterString).value,
                                   SortParser(QueryColumns(), sortString).value, offset, limit).value
      && r.stats == CalcSaveAgeStats(BaseSaveAgeQuery(census, bands, inputs))
      && r.stats.count == |BaseSaveAgeQuery(census, bands, inputs)|
      && forall row :: row in r.data ==>
           row in BaseSaveAgeQuery(census, bands, inputs)
           && AllHold(RequestFilters(filterString).value, row.record)
  {
    var qry := BaseSaveAgeQuery(census, bands, inputs);
    match RequestFilters(filterString)
    case Failure(e) => ParseFailureResponse(e)
    case Success(filters) =>
      match SortParser(QueryColumns(), sortString)
      case Failure(e) => ParseFailureResponse(e)
      case Success(sort) =>
        match CalcSaveAgeData(qry, filters, sort, offset, limit)
        case Failure(_) => ServerError
        case Success(data) =>
          CalcSaveAgeDataSpec(qry, filters, sort, offset, limit);
          Ok(data, CalcSaveAgeStats(qry))
  }

  /** When the handler ends in an uncaught exception: a parse error that is
      not a ValueError (AttributeError, IndexError), or a page query that
      cannot run (an unresolvable ORDER BY name). Filters that parse never
      make the query fail. */
  lemma SaveAgePostServerError(census: seq<CensusRecord>, bands: seq<RateBand>, inputs: SaveAgeInputs,
                               filterString: Option<string>, sortString: Option<string>,
                               offset: int, limit: int)
    ensures var filters := RequestFilters(filterString);
      var sort := SortParser(QueryColumns(), sortString);
      SaveAgePost(census, bands, inputs, filterString, sortString, offset, limit).ServerError? <==>
        || (filters.Failure? && ValueErrorMessage(filters.error).None?)
        || (filters.Success? && sort.Failure? && ValueErrorMessage(sort.error).None?)
        || (filters.Success? && sort.Success? && !SortResolves(sort.value))
  {
  }

  /** The stats describe the whole comparison: filters, sorting and paging
      change the page but never the stats. */
  lemma StatsIgnoreRequestShape(census: seq<CensusRecord>, bands: seq<RateBand>, inputs: SaveAgeInputs,
                                f1: Option<string>, s1: Option<string>, o1: int, l1: int,
                                f2: Option<string>, s2: Option<string>, o2: int, l2: int)
    ensures var r1 := SaveAgePost(census, bands, inputs, f1, s1, o1, l1);
      var r2 := SaveAgePost(census, bands, inputs, f2, s2, o2, l2);
      r1.Ok? && r2.Ok? ==> r1.stats == r2.stats
  {
  }

  /** A filter string the parser rejects with a ValueError is answered 400
      with that error's message, whatever the sort list says. */
  lemma FilterErrorIsBadRequest(census: seq<CensusRecord>, bands: seq<RateBand>, inputs: SaveAgeInputs,
                                filterString: Option<string>, sortString: Option<string>,
                                offset: int, limit: int)
    requires RequestFilters(filterString).Failure?
    requires ValueErrorMessage(RequestFilters(filterString).error).Some?
    ensures SaveAgePost(census, bands, inputs, filterString, sortString, offset, limit)
         == BadRequest(ValueErrorMessage(RequestFilters(filterString).error).value)
  {
  }

  /** A sort list that parses into ORDER BY terms SQLite cannot resolve
      fails when the page query runs, whatever filters it is given. */
  lemma UnresolvableSortIsServerError(census: seq<CensusRecord>, bands: seq<RateBand>, inputs: SaveAgeInputs,
                                      filterString: Option<string>, sortString: Option<string>,
                                      offset: int, limit: int)
    requires RequestFilters(filterString).Success?
    requires SortParser(QueryColumns(), sortString).Success?
    requires !SortResolves(SortParser(QueryColumns(), sortString).value)
    ensures SaveAgePost(census, bands, inputs, filterString, sortString, offset, limit) == ServerError
  {
    SaveAgePostServerError(census, bands, inputs, filterString, sortString, offset, limit);
  }

  /** The two shared columns are plain names the sort list carries. */
  lemma SharedColumnsSortable()
    ensures SortableColumn(QueryColumns(), "relationship")
    ensures SortableColumn(QueryColumns(), "tobacco_disposition")
  {
  }

  /** Sorting by `relationship` or `tobacco_disposition`, either way, passes
      `sort_parser`, but the ORDER BY name is ambiguous across the three
      joined tables: with any filters that parse, the request fails
      when the page query runs, outside the handler's `try`. */
  lemma AmbiguousSortIsServerError(census: seq<CensusRecord>, bands: seq<RateBand>, inputs: SaveAgeInputs,
                                   filterString: Option<string>, column: string, desc: bool,
                                   offset: int, limit: int)
    requires RequestFilters(filterString).Success?
    requires column in {"relationship", "tobacco_disposition"}
    ensures SaveAgePost(census, bands, inputs, filterString, Some(SortItem(OrderTerm(column, desc))), offset, limit)
         == ServerError
  {
    var t := OrderTerm(column, desc);
    SharedColumnSortParses(column, desc);
    UnresolvableSortIsServerError(census, bands, inputs, filterString, Some(SortItem(t)), offset, limit);
  }

  lemma SharedColumnSortParses(column: string, desc: bool)
    requires column in {"relationship", "tobacco_disposition"}
    ensures var t := OrderTerm(column, desc);
      && SortParser(QueryColumns(), Some(SortItem(t))) == Success(Some([t]))
      && !SortResolves(Some([t]))
  {
    var t := OrderTerm(column, desc);
    SharedColumnsSortable();
    SortParserRoundTrip(QueryColumns(), [t]);
    var items := SortItems([t]);
    assert items == [SortItem(t)];
    assert Join(items, ",") == SortItem(t);
    SharedColumnTermsUnresolvable([t]);
  }

  /** A filter on a date attribute (`birthdate`, `effective_date`, the
      timestamps) parses and runs: the request is answered 200, and every
      row of the page passes the text comparison the filter makes. */
  lemma DateFilterRuns(census: seq<CensusRecord>, bands: seq<RateBand>, inputs: SaveAgeInputs,
                       column: string, op: string, val: string,
                       sortString: Option<string>, offset: int, limit: int)
    requires PlainToken(column) && PlainToken(op) && PlainToken(val) && op in OperatorNames()
    requires LookupAttr(column).Some? && IsDateAttr(LookupAttr(column).value)
    requires SortParser(QueryColumns(), sortString).Success?
    requires SortResolves(SortParser(QueryColumns(), sortString).value)
    ensures var r := SaveAgePost(census, bands, inputs, Some(Clause(column, op, val)), sortString, offset, limit);
      && r.Ok?
      && forall row :: row in r.data ==>
           Holds(ApplyOperator(LookupAttr(column).value, op, val).value, row.record)
  {
    var c := Clause(column, op, val);
    assert ResolveAttribute(column) == Mapped(LookupAttr(column).value);
    ClauseRoundTrip(column, op, val);
    FreeClause(column, op, val, ';');
    FilterParserOfOne(c);
    var fs := RequestFilters(Some(c));
    assert fs == Success([ApplyOperator(LookupAttr(column).value, op, val).value]);
    SaveAgePostServerError(census, bands, inputs, Some(c), sortString, offset, limit);
    var r := SaveAgePost(census, bands, inputs, Some(c), sortString, offset, limit);
    assert r.Ok?;
    forall row | row in r.data
      ensures Holds(fs.value[0], row.record)
    {
      assert AllHold(fs.value, row.record);
    }
  }
}
