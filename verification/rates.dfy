/** Rate bands and the open-ended widening applied to a batch of bands while
    it is loaded (`unbounded_min`, `unbounded_max`, `modify_rate_details`). */
module Rates {
  import opened Wrappers
  import Sorting

  /** One premium entry of a rate table; ages are inclusive bounds. */
  datatype RateBand = RateBand(
    rateMasterId: Option<int>,
    lowerAge: int,
    upperAge: int,
    relationship: string,
    tobaccoDisposition: string,
    rate: real)

  /** Which bound of a band a widening step works on. */
  datatype Bound = Lower | Upper

  datatype RateError =
    /** `data[0]` / `data[-1]` on an empty batch raises IndexError. */
    EmptyBatch

  const UnboundedMinValue: int := -9999
  const UnboundedMaxValue: int := 9999

  function Key(b: RateBand, w: Bound): int {
    match w
    case Lower => b.lowerAge
    case Upper => b.upperAge
  }

  /** The band with bound `w` replaced by `v` (`{**row, "lower_age": v}`). */
  function WithKey(b: RateBand, w: Bound, v: int): (r: RateBand)
    ensures Key(r, w) == v
  {
    match w
    case Lower => b.(lowerAge := v)
    case Upper => b.(upperAge := v)
  }

  /** `sorted(data, key=lambda x: x[bound])`'s order. */
  function KeyLe(w: Bound): (RateBand, RateBand) -> bool {
    (a: RateBand, b: RateBand) => Key(a, w) <= Key(b, w)
  }

  lemma KeyLeTotalPreorder(w: Bound)
    ensures Sorting.TotalPreorder(KeyLe(w))
  {
  }

  function SortByKey(data: seq<RateBand>, w: Bound): seq<RateBand> {
    Sorting.SortBy(data, KeyLe(w))
  }

  /** The smallest value of bound `w` in a non-empty batch. */
  function MinKey(data: seq<RateBand>, w: Bound): int
    requires |data| > 0
    decreases |data|
  {
    if |data| == 1 then Key(data[0], w)
    else
      var m := MinKey(data[1..], w);
      if Key(data[0], w) <= m then Key(data[0], w) else m
  }

  /** The largest value of bound `w` in a non-empty batch. */
  function MaxKey(data: seq<RateBand>, w: Bound): int
    requires |data| > 0
    decreases |data|
  {
    if |data| == 1 then Key(data[0], w)
    else
      var m := MaxKey(data[1..], w);
      if Key(data[0], w) >= m then Key(data[0], w) else m
  }

  lemma {:induction false} MinKeyIsLeast(data: seq<RateBand>, w: Bound)
    requires |data| > 0
    ensures exists i :: 0 <= i < |data| && Key(data[i], w) == MinKey(data, w)
    ensures forall i :: 0 <= i < |data| ==> MinKey(data, w) <= Key(data[i], w)
    decreases |data|
  {
    if |data| > 1 {
      MinKeyIsLeast(data[1..], w);
      var j :| 0 <= j < |data[1..]| && Key(data[1..][j], w) == MinKey(data[1..], w);
      assert Key(data[j + 1], w) == MinKey(data[1..], w);
      if Key(data[0], w) <= MinKey(data[1..], w) {
        assert Key(data[0], w) == MinKey(data, w);
      } else {
        assert Key(data[j + 1], w) == MinKey(data, w);
      }
      forall i | 1 <= i < |data|
        ensures MinKey(data[1..], w) <= Key(data[i], w)
      {
        assert data[i] == data[1..][i - 1];
      }
    } else {
      assert Key(data[0], w) == MinKey(data, w);
    }
  }

  lemma {:induction false} MaxKeyIsGreatest(data: seq<RateBand>, w: Bound)
    requires |data| > 0
    ensures exists i :: 0 <= i < |data| && Key(data[i], w) == MaxKey(data, w)
    ensures forall i :: 0 <= i < |data| ==> Key(data[i], w) <= MaxKey(data, w)
    decreases |data|
  {
    if |data| > 1 {
      MaxKeyIsGreatest(data[1..], w);
      var j :| 0 <= j < |data[1..]| && Key(data[1..][j], w) == MaxKey(data[1..], w);
      assert Key(data[j + 1], w) == MaxKey(data[1..], w);
      if Key(data[0], w) >= MaxKey(data[1..], w) {
        assert Key(data[0], w) == MaxKey(data, w);
      } else {
        assert Key(data[j + 1], w) == MaxKey(data, w);
      }
      forall i | 1 <= i < |data|
        ensures Key(data[i], w) <= MaxKey(data[1..], w)
      {
        assert data[i] == data[1..][i - 1];
      }
    } else {
      assert Key(data[0], w) == MaxKey(data, w);
    }
  }

  /** A sorted rearrangement of the batch starts with its least bound. */
  lemma SortedFirstIsMin(s: seq<RateBand>, data: seq<RateBand>, w: Bound)
    requires |s| == |data| > 0 && multiset(s) == multiset(data)
    requires Sorting.SortedBy(s, KeyLe(w))
    ensures Key(s[0], w) == MinKey(data, w)
  {
    MinKeyIsLeast(data, w);
    var i :| 0 <= i < |data| && Key(data[i], w) == MinKey(data, w);
    assert data[i] in multiset(s);
    var k :| 0 <= k < |s| && s[k] == data[i];
    assert k == 0 || KeyLe(w)(s[0], s[k]);
    assert s[0] in multiset(data);
    var m :| 0 <= m < |data| && data[m] == s[0];
  }

  /** A sorted rearrangement of the batch ends with its greatest bound. */
  lemma SortedLastIsMax(s: seq<RateBand>, data: seq<RateBand>, w: Bound)
    requires |s| == |data| > 0 && multiset(s) == multiset(data)
    requires Sorting.SortedBy(s, KeyLe(w))
    ensures Key(s[|s| - 1], w) == MaxKey(data, w)
  {
    MaxKeyIsGreatest(data, w);
    var j :| 0 <= j < |data| && Key(data[j], w) == MaxKey(data, w);
    assert data[j] in multiset(s);
    var k :| 0 <= k < |s| && s[k] == data[j];
    assert k == |s| - 1 || KeyLe(w)(s[k], s[|s| - 1]);
    assert s[|s| - 1] in multiset(data);
    var m :| 0 <= m < |data| && data[m] == s[|s| - 1];
  }

  /** The first element of the sorted batch carries the least bound, the
      last the greatest. */
  lemma SortedEnds(data: seq<RateBand>, w: Bound)
    requires |data| > 0
    ensures |SortByKey(data, w)| == |data|
    ensures Key(SortByKey(data, w)[0], w) == MinKey(data, w)
    ensures Key(SortByKey(data, w)[|data| - 1], w) == MaxKey(data, w)
  {
    var s := SortByKey(data, w);
    Sorting.SortPermutation(data, KeyLe(w));
    KeyLeTotalPreorder(w);
    Sorting.SortSorted(data, KeyLe(w));
    SortedFirstIsMin(s, data, w);
    SortedLastIsMax(s, data, w);
  }

  /** What a widening step does to one row of the sorted batch. */
  function WidenRow(b: RateBand, w: Bound, extreme: int, sentinel: int): RateBand {
    if Key(b, w) == extreme then WithKey(b, w, sentinel) else b
  }

  /** The shared two-pass step: sort by the bound, read the extreme from
      the first (lower) or last (upper) sorted row, then rewrite every row
      tying it. */
  function Widen(data: seq<RateBand>, w: Bound, flag: string): (r: Result<seq<RateBand>, RateError>)
    ensures flag != "Y" ==> r == Success(data)
    ensures flag == "Y" && |data| == 0 ==> r == Failure(EmptyBatch)
    ensures flag == "Y" && |data| > 0 ==>
      && r.Success?
      && |r.value| == |data|
      && var extreme := if w == Lower then MinKey(data, w) else MaxKey(data, w);
         var sentinel := if w == Lower then UnboundedMinValue else UnboundedMaxValue;
         forall i :: 0 <= i < |data| ==>
           r.value[i] == WidenRow(SortByKey(data, w)[i], w, extreme, sentinel)
  {
    if flag != "Y" then Success(data)
    else
      var sorted := SortByKey(data, w);
      Sorting.SortPermutation(data, KeyLe(w));
      if |sorted| == 0 then Failure(EmptyBatch)
      else
        SortedEnds(data, w);
        var extreme := if w == Lower then Key(sorted[0], w) else Key(sorted[|sorted| - 1], w);
        var sentinel := if w == Lower then UnboundedMinValue else UnboundedMaxValue;
        Success(seq(|sorted|, i requires 0 <= i < |sorted| => WidenRow(sorted[i], w, extreme, sentinel)))
  }

  /** `unbounded_min(data, umin)`. */
  function UnboundedMin(data: seq<RateBand>, umin: string): Result<seq<RateBand>, RateError> {
    Widen(data, Lower, umin)
  }

  /** `unbounded_max(data, umax)`. */
  function UnboundedMax(data: seq<RateBand>, umax: string): Result<seq<RateBand>, RateError> {
    Widen(data, Upper, umax)
  }

  /** `modify_rate_details`: min-widening, then max-widening; an absent flag
      is "N". */
  function ModifyRateDetails(data: seq<RateBand>, umin: string, umax: string): Result<seq<RateBand>, RateError> {
    var lowered :- UnboundedMin(data, umin);
    UnboundedMax(lowered, umax)
  }

  // ---------------------------------------------------------------------
  // Properties

  /** Bands that agree on everything except possibly bound `w`. */
  predicate SameExcept(a: RateBand, b: RateBand, w: Bound) {
    WithKey(a, w, 0) == WithKey(b, w, 0)
  }

  /** A disabled flag returns the batch unchanged, in the same order. */
  lemma WidenDisabledIsIdentity(data: seq<RateBand>, w: Bound, flag: string)
    requires flag != "Y"
    ensures Widen(data, w, flag) == Success(data)
  {
  }

  /** With the flag set, the result is the stably sorted batch in which
      exactly the rows tying the batch-wide extreme carry the sentinel:
      it has the input's length, is a rearrangement of the input up to the
      widened bound, is ordered by the original bound, keeps ties in input
      order, and touches no other field. */
  lemma WidenSpec(data: seq<RateBand>, w: Bound)
    requires |data| > 0
    ensures var r := Widen(data, w, "Y");
      var sorted := SortByKey(data, w);
      var extreme := if w == Lower then MinKey(data, w) else MaxKey(data, w);
      var sentinel := if w == Lower then UnboundedMinValue else UnboundedMaxValue;
      && r.Success? && |r.value| == |data|
      && multiset(sorted) == multiset(data)
      && (forall i, j :: 0 <= i < j < |sorted| ==> Key(sorted[i], w) <= Key(sorted[j], w))
      && (forall x :: Sorting.TiedWith(sorted, KeyLe(w), x) == Sorting.TiedWith(data, KeyLe(w), x))
      && (forall i :: 0 <= i < |data| ==>
            && SameExcept(r.value[i], sorted[i], w)
            && (Key(sorted[i], w) == extreme ==> Key(r.value[i], w) == sentinel)
            && (Key(sorted[i], w) != extreme ==> r.value[i] == sorted[i]))
  {
    var sorted := SortByKey(data, w);
    Sorting.SortPermutation(data, KeyLe(w));
    KeyLeTotalPreorder(w);
    Sorting.SortSorted(data, KeyLe(w));
    forall x
      ensures Sorting.TiedWith(sorted, KeyLe(w), x) == Sorting.TiedWith(data, KeyLe(w), x)
    {
      Sorting.SortStable(data, KeyLe(w), x);
    }
  }

  /** The extreme that a widening step rewrites is the batch-wide minimum
      (lower bounds) or maximum (upper bounds) of the INPUT, and is attained. */
  lemma WidenExtremeOfBatch(data: seq<RateBand>)
    requires |data| > 0
    ensures forall i :: 0 <= i < |data| ==> MinKey(data, Lower) <= data[i].lowerAge
    ensures exists i :: 0 <= i < |data| && data[i].lowerAge == MinKey(data, Lower)
    ensures forall i :: 0 <= i < |data| ==> data[i].upperAge <= MaxKey(data, Upper)
    ensures exists i :: 0 <= i < |data| && data[i].upperAge == MaxKey(data, Upper)
  {
    MinKeyIsLeast(data, Lower);
    MaxKeyIsGreatest(data, Upper);
  }

  /** `modify_rate_details` fails exactly on an empty batch with a flag set;
      otherwise it keeps the length, the first step never moves an upper
      bound and the second never moves a lower bound. */
  lemma ModifyRateDetailsSpec(data: seq<RateBand>, umin: string, umax: string)
    ensures ModifyRateDetails(data, umin, umax).Failure?
        <==> |data| == 0 && (umin == "Y" || umax == "Y")
    ensures ModifyRateDetails(data, umin, umax).Success? ==>
      |ModifyRateDetails(data, umin, umax).value| == |data|
    ensures UnboundedMin(data, umin).Success? ==>
      forall i :: 0 <= i < |data| ==>
        SameExcept(UnboundedMin(data, umin).value[i],
                   if umin == "Y" then SortByKey(data, Lower)[i] else data[i], Lower)
    ensures forall lowered :: |lowered| > 0 && UnboundedMax(lowered, umax).Success? ==>
      forall i :: 0 <= i < |lowered| ==>
        SameExcept(UnboundedMax(lowered, umax).value[i],
                   if umax == "Y" then SortByKey(lowered, Upper)[i] else lowered[i], Upper)
  {
    if umin == "Y" && |data| > 0 {
      WidenSpec(data, Lower);
    }
    forall lowered | |lowered| > 0 && UnboundedMax(lowered, umax).Success?
      ensures forall i :: 0 <= i < |lowered| ==>
        SameExcept(UnboundedMax(lowered, umax).value[i],
                   if umax == "Y" then SortByKey(lowered, Upper)[i] else lowered[i], Upper)
    {
      if umax == "Y" {
        WidenSpec(lowered, Upper);
      }
    }
  }

  /** The documented example: lower ages 0, 18 and 65 with only `umin`
      set; the 0 band becomes -9999, the others and every upper age stay. */
  lemma WidenExample()
    ensures var b0 := RateBand(None, 0, 17, "employee", "N", 1.0);
      var b18 := RateBand(None, 18, 64, "employee", "N", 2.0);
      var b65 := RateBand(None, 65, 99, "employee", "N", 3.0);
      ModifyRateDetails([b18, b0, b65], "Y", "N")
        == Success([b0.(lowerAge := -9999), b18, b65])
  {
    var b0 := RateBand(None, 0, 17, "employee", "N", 1.0);
    var b18 := RateBand(None, 18, 64, "employee", "N", 2.0);
    var b65 := RateBand(None, 65, 99, "employee", "N", 3.0);
    var data := [b18, b0, b65];
    var le := KeyLe(Lower);
    assert le(b0, b65) && le(b18, b65) && !le(b18, b0);
    assert data[1..] == [b0, b65];
    assert [b0, b65][1..] == [b65];
    assert [b65][1..] == [];
    assert Sorting.SortBy([b65], le) == Sorting.Insert(b65, [], le) == [b65];
    assert Sorting.SortBy([b0, b65], le) == Sorting.Insert(b0, [b65], le) == [b0, b65];
    assert Sorting.Insert(b18, [b65], le) == [b18, b65];
    assert Sorting.SortBy(data, le) == Sorting.Insert(b18, [b0, b65], le) == [b0, b18, b65];
    assert MinKey([b65], Lower) == 65;
    assert MinKey([b0, b65], Lower) == 0;
    assert MinKey(data, Lower) == 0;
    var lowered := [b0.(lowerAge := -9999), b18, b65];
    assert UnboundedMin(data, "Y").value == lowered;
    assert UnboundedMax(lowered, "N") == Success(lowered);
  }
}
