/** The fragment of SQLite semantics the comparison query depends on:
    column values and their ORDER BY order, the filter predicates built by
    `apply_operator`, and how a predicate judges one census record. */
module Sql {
  import opened Wrappers
  import opened Strings
  import opened Dates
  import opened Census

  /** A value of a result column. Integers and floats both compare as
      numbers; dates are stored as ISO `YYYY-MM-DD` text. */
  datatype Value = VNull | VNum(n: real) | VText(t: string)

  /** SQLite's ordering of values: NULL, then numbers, then text (BINARY). */
  predicate Less(a: Value, b: Value) {
    match (a, b)
    case (VNull, VNull) => false
    case (VNull, _) => true
    case (VNum(x), VNum(y)) => x < y
    case (VNum(_), VText(_)) => true
    case (VText(x), VText(y)) => LexLess(x, y)
    case _ => false
  }

  lemma LessTrichotomy(a: Value, b: Value)
    ensures a == b || Less(a, b) || Less(b, a)
    ensures !(Less(a, b) && Less(b, a))
    ensures !Less(a, a)
  {
    if a.VText? && b.VText? {
      LexLessTrichotomy(a.t, b.t);
      LexLessIrreflexive(a.t);
    }
    if a.VText? {
      LexLessIrreflexive(a.t);
    }
  }

  lemma LessTransitive(a: Value, b: Value, c: Value)
    requires Less(a, b) && Less(b, c)
    ensures Less(a, c)
  {
    if a.VText? && b.VText? && c.VText? {
      LexLessTransitive(a.t, b.t, c.t);
    }
  }

  function Pad(s: string, width: nat): (r: string)
    ensures |r| >= |s|
    decreases width - |s|
  {
    if |s| >= width then s else Pad("0" + s, width)
  }

  /** How SQLite holds a `Date` column: ISO text. */
  function IsoDate(d: Date): string {
    var y := if d.year < 0 then 0 else d.year;
    var m := if d.month < 0 then 0 else d.month;
    var dd := if d.day < 0 then 0 else d.day;
    Pad(NatToString(y), 4) + "-" + Pad(NatToString(m), 2) + "-" + Pad(NatToString(dd), 2)
  }

  // ---------------------------------------------------------------------
  // Filter predicates

  /** The attributes of `ModelCensusDetail` a filter clause may name. */
  datatype Attr =
    | CensusDetailId | CensusMasterId | Birthdate | Relationship
    | TobaccoDisposition | EffectiveDate | IssueAgeAttr | CreatedDts | UpdatedDts

  /** `getattr(ModelCensusDetail, name)`; `None` where Python raises
      AttributeError. */
  function LookupAttr(name: string): (r: Option<Attr>)
    ensures r.Some? <==> name in AttrNames()
  {
    if name == "census_detail_id" then Some(CensusDetailId)
    else if name == "census_master_id" then Some(CensusMasterId)
    else if name == "birthdate" then Some(Birthdate)
    else if name == "relationship" then Some(Relationship)
    else if name == "tobacco_disposition" then Some(TobaccoDisposition)
    else if name == "effective_date" then Some(EffectiveDate)
    else if name == "issue_age" then Some(IssueAgeAttr)
    else if name == "created_dts" then Some(CreatedDts)
    else if name == "updated_dts" then Some(UpdatedDts)
    else None
  }

  function AttrNames(): set<string> {
    {"census_detail_id", "census_master_id", "birthdate", "relationship",
     "tobacco_disposition", "effective_date", "issue_age", "created_dts", "updated_dts"}
  }

  /** Date and timestamp columns. Their values are stored as ISO text. */
  predicate IsDateAttr(a: Attr) {
    a == Birthdate || a == EffectiveDate || a == CreatedDts || a == UpdatedDts
  }

  predicate IsIntegerAttr(a: Attr) {
    a == CensusDetailId || a == CensusMasterId || a == IssueAgeAttr
  }

  /** The `String` columns, of TEXT affinity. Every other attribute has
      INTEGER affinity (integers, and the `issue_age` CAST) or NUMERIC
      affinity (DATE and DATETIME). */
  predicate IsTextAttr(a: Attr) {
    a == Relationship || a == TobaccoDisposition
  }

  datatype Op =
    | Equals | NotEqual | GreaterThan | LessThan
    | GreaterThanOrEqual | LessThanOrEqual | Contains | NotContains

  /** The SQL expression `apply_operator(col, op, val)` builds. The literal
      is a Python `str`: SQLAlchemy binds it as a `String`, whatever the
      column's type, so no date conversion runs on it. */
  datatype Pred = Pred(attr: Attr, op: Op, literal: string)

  /** The value of an attribute of a record: a number for the integer
      columns, the stored text for the others, NULL for an absent foreign
      key or timestamp. */
  function AttrValue(c: CensusRecord, a: Attr): (v: Value)
    ensures IsIntegerAttr(a) ==> v.VNum? || v.VNull?
    ensures !IsIntegerAttr(a) ==> v.VText? || v.VNull?
    ensures a == Birthdate ==> v == VText(IsoDate(c.birthdate))
    ensures a == EffectiveDate ==> v == VText(IsoDate(c.effectiveDate))
    ensures v.VNull? <==>
      (a == CensusMasterId && c.censusMasterId.None?)
      || (a == CreatedDts && c.createdDts.None?)
      || (a == UpdatedDts && c.updatedDts.None?)
  {
    match a
    case CensusDetailId => VNum(c.censusDetailId as real)
    case CensusMasterId => if c.censusMasterId.Some? then VNum(c.censusMasterId.value as real) else VNull
    case IssueAgeAttr => VNum(IssueAge(c) as real)
    case Relationship => VText(c.relationship)
    case TobaccoDisposition => VText(c.tobaccoDisposition)
    case Birthdate => VText(IsoDate(c.birthdate))
    case EffectiveDate => VText(IsoDate(c.effectiveDate))
    case CreatedDts => if c.createdDts.Some? then VText(c.createdDts.value) else VNull
    case UpdatedDts => if c.updatedDts.Some? then VText(c.updatedDts.value) else VNull
  }

  /** The text SQLite's LIKE sees for a non-null attribute value. */
  function AttrText(c: CensusRecord, a: Attr): (t: string)
    ensures AttrValue(c, a).VText? ==> t == AttrValue(c, a).t
  {
    match a
    case CensusDetailId => IntToString(c.censusDetailId)
    case CensusMasterId => if c.censusMasterId.Some? then IntToString(c.censusMasterId.value) else ""
    case IssueAgeAttr => IntToString(IssueAge(c))
    case Relationship => c.relationship
    case TobaccoDisposition => c.tobaccoDisposition
    case Birthdate => IsoDate(c.birthdate)
    case EffectiveDate => IsoDate(c.effectiveDate)
    case CreatedDts => if c.createdDts.Some? then c.createdDts.value else ""
    case UpdatedDts => if c.updatedDts.Some? then c.updatedDts.value else ""
  }

  /** A comparison of a column with a literal applies the column's affinity
      to the literal. Under INTEGER or NUMERIC affinity a literal that reads
      as an integer becomes that number; any other literal stays text, and
      text sorts after every number. Under TEXT affinity it stays text. */
  function Coerce(a: Attr, literal: string): (v: Value)
    ensures !v.VNull?
    ensures v.VNum? <==> !IsTextAttr(a) && ParseInt(literal).Some?
    ensures v.VText? ==> v.t == literal
  {
    if !IsTextAttr(a) && ParseInt(literal).Some? then VNum(ParseInt(literal).value as real)
    else VText(literal)
  }

  /** The three-valued comparison `v op lit`, with `None` for SQL NULL. */
  function Compare(op: Op, v: Value, lit: Value, text: string, literal: string): Option<bool> {
    if v.VNull? then None
    else match op
      case Equals => Some(v == lit)
      case NotEqual => Some(v != lit)
      case GreaterThan => Some(Less(lit, v))
      case LessThan => Some(Less(v, lit))
      case GreaterThanOrEqual => Some(v == lit || Less(lit, v))
      case LessThanOrEqual => Some(v == lit || Less(v, lit))
      case Contains => Some(Like(text, "%" + literal + "%"))
      case NotContains => Some(!Like(text, "%" + literal + "%"))
  }

  /** The truth value of a predicate for one record, `None` when SQL yields
      NULL (a WHERE clause drops such rows). */
  function Truth(p: Pred, c: CensusRecord): Option<bool> {
    Compare(p.op, AttrValue(c, p.attr), Coerce(p.attr, p.literal), AttrText(c, p.attr), p.literal)
  }

  /** The row passes a WHERE clause made of `p`. */
  predicate Holds(p: Pred, c: CensusRecord) {
    Truth(p, c) == Some(true)
  }

  /** `notContains` is the SQL negation of `contains` and `notEqual` that of
      `equals`: on a non-null value exactly one of each pair holds, and on
      NULL neither does. */
  lemma NegatedOperators(a: Attr, lit: string, c: CensusRecord)
    ensures AttrValue(c, a) != VNull ==>
      (Holds(Pred(a, NotContains, lit), c) <==> !Holds(Pred(a, Contains, lit), c))
    ensures AttrValue(c, a) != VNull ==>
      (Holds(Pred(a, NotEqual, lit), c) <==> !Holds(Pred(a, Equals, lit), c))
    ensures AttrValue(c, a) == VNull ==>
      !Holds(Pred(a, NotContains, lit), c) && !Holds(Pred(a, Contains, lit), c)
      && !Holds(Pred(a, NotEqual, lit), c) && !Holds(Pred(a, Equals, lit), c)
  {
  }

  /** The strict comparisons and their inclusive forms relate as in SQL:
      `>=` is `>` or `=`, and `>` and `<` exclude each other. */
  lemma ComparisonOperators(a: Attr, lit: string, c: CensusRecord)
    ensures Holds(Pred(a, GreaterThanOrEqual, lit), c)
        <==> Holds(Pred(a, GreaterThan, lit), c) || Holds(Pred(a, Equals, lit), c)
    ensures !(Holds(Pred(a, GreaterThan, lit), c) && Holds(Pred(a, LessThan, lit), c))
    ensures AttrValue(c, a) != VNull ==>
      (Holds(Pred(a, LessThanOrEqual, lit), c) <==> !Holds(Pred(a, GreaterThan, lit), c))
  {
    LessTrichotomy(AttrValue(c, a), Coerce(a, lit));
  }

  /** A date or timestamp filter compares the stored ISO text with the
      literal: for a literal that does not read as a number, the order
      comparisons are text order and `equals` is text equality. */
  lemma DateFilterComparesText(a: Attr, lit: string, c: CensusRecord)
    requires IsDateAttr(a) && AttrValue(c, a) != VNull && ParseInt(lit).None?
    ensures Holds(Pred(a, GreaterThan, lit), c) <==> LexLess(lit, AttrText(c, a))
    ensures Holds(Pred(a, LessThan, lit), c) <==> LexLess(AttrText(c, a), lit)
    ensures Holds(Pred(a, Equals, lit), c) <==> AttrText(c, a) == lit
  {
  }

  /** A literal that reads as a number, such as `1990`, is converted under
      the column's NUMERIC affinity, and every stored date sorts after it:
      `greaterThan` keeps every row with a value, `lessThan` and `equals`
      none. */
  lemma NumericDateLiteral(a: Attr, lit: string, c: CensusRecord)
    requires IsDateAttr(a) && AttrValue(c, a) != VNull && ParseInt(lit).Some?
    ensures Holds(Pred(a, GreaterThan, lit), c)
    ensures !Holds(Pred(a, LessThan, lit), c)
    ensures !Holds(Pred(a, Equals, lit), c)
  {
  }
}
